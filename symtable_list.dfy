/**
 * symtablelist.c: the symbol table as one chain of nodes reached from
 * psFirstNode, with a length counter. The chain of nodes is the sequence
 * `chain`, head first; the methods walk it by position as the C code walks
 * it by pointer.
 */
module SymTableList {
  import opened Wrappers
  import opened Bindings
  import SymTableInterface

  class SymTable<V> {
    /** The bindings reachable from psFirstNode, in link order. */
    var chain: Chain<V>
    /** The number of bindings, kept up to date by put and remove. */
    var length: nat

    /** No duplicate keys (symtable.h), and length counts the nodes. */
    ghost predicate Valid()
      reads this
    {
      UniqueKeys(chain) && length == |chain|
    }

    /** The abstract value of the table. */
    ghost function Contents(): SymTableInterface.Table<V>
      reads this
    {
      ToMap(chain)
    }

    /** SymTable_new: no nodes and length 0. */
    constructor ()
      ensures Valid()
      ensures chain == [] && length == 0 && Contents() == map[]
    {
      chain := [];
      length := 0;
    }

    /** SymTable_getLength: the number of bindings. */
    method GetLength() returns (n: nat)
      requires Valid()
      ensures n == |Contents()| == |chain|
    {
      ToMapSize(chain);
      n := length;
    }

    /**
     * getSymTableNode: the position of the first node whose key is `key`,
     * or None when no node carries it.
     */
    method GetNode(key: Key) returns (node: Option<nat>)
      ensures node.Some? ==> node.value < |chain| && chain[node.value].key == key
      ensures node.Some? ==> forall i :: 0 <= i < node.value ==> chain[i].key != key
      ensures node.None? <==> Absent(chain, key)
    {
      var i := 0;
      while i < |chain|
        invariant 0 <= i <= |chain|
        invariant forall t :: 0 <= t < i ==> chain[t].key != key
      {
        if chain[i].key == key {
          return Some(i);
        }
        i := i + 1;
      }
      return None;
    }

    /** SymTable_contains: whether some binding has the key. */
    method Contains(key: Key) returns (found: bool)
      ensures found <==> key in Contents()
    {
      var node := GetNode(key);
      ToMapHasKey(chain, key);
      found := node.Some?;
    }

    /** SymTable_get: the value bound to the key, or None. */
    method Get(key: Key) returns (value: Option<V>)
      ensures value == SymTableInterface.Get(Contents(), key)
    {
      var node := GetNode(key);
      ToMapHasKey(chain, key);
      if node.None? {
        return None;
      }
      ToMapFirst(chain, node.value);
      value := Some(chain[node.value].value);
    }

    /**
     * SymTable_put: a duplicate key or a failed allocation leaves the table
     * alone and gives false; otherwise the new binding becomes the head of
     * the chain, the old chain its tail, and length grows by one.
     */
    method Put(key: Key, value: V, memoryAvailable: bool) returns (ok: bool)
      requires Valid()
      modifies this
      ensures Valid()
      ensures (Contents(), ok) == SymTableInterface.Put(old(Contents()), key, value, memoryAvailable)
      ensures chain == if ok then [Binding(key, value)] + old(chain) else old(chain)
      ensures length == old(length) + if ok then 1 else 0
    {
      var present := Contains(key);
      if present {
        return false;
      }
      if !memoryAvailable {
        return false;
      }
      ToMapHasKey(chain, key);
      chain := [Binding(key, value)] + chain;
      length := length + 1;
      ok := true;
      assert chain[1..] == old(chain);
    }

    /**
     * SymTable_replace: a bound key gets the new value and its old value is
     * returned; keys, their order and length stay as they were. An unbound
     * key gives None and no change.
     */
    method Replace(key: Key, value: V) returns (oldValue: Option<V>)
      requires Valid()
      modifies this
      ensures Valid()
      ensures (Contents(), oldValue) == SymTableInterface.Replace(old(Contents()), key, value)
      ensures |chain| == |old(chain)| && length == old(length)
      ensures forall i :: 0 <= i < |chain| ==> chain[i].key == old(chain)[i].key
      ensures oldValue.None? ==> chain == old(chain)
    {
      var node := GetNode(key);
      ToMapHasKey(chain, key);
      if node.None? {
        return None;
      }
      var j := node.value;
      ToMapAt(chain, j);
      oldValue := Some(chain[j].value);
      ToMapSetValue(chain, j, value);
      chain := chain[j := Binding(key, value)];
    }

    /**
     * SymTable_remove: the first node with the key is unlinked (through
     * psFirstNode when it is the head, through the previous node otherwise),
     * its value returned and length decreased; the other bindings keep their
     * order. An unbound key gives None and no change. The C code asserts a
     * non-empty list before searching.
     */
    method Remove(key: Key) returns (removed: Option<V>)
      requires Valid()
      requires chain != []
      modifies this
      ensures Valid()
      ensures (Contents(), removed) == SymTableInterface.Remove(old(Contents()), key)
      ensures removed.None? ==> chain == old(chain)
      ensures removed.Some? ==> exists j :: 0 <= j < |old(chain)| && old(chain)[j].key == key &&
                                           chain == old(chain)[..j] + old(chain)[j + 1..]
    {
      var i := 0;
      while i < |chain|
        invariant 0 <= i <= |chain|
        invariant forall t :: 0 <= t < i ==> chain[t].key != key
      {
        if chain[i].key == key {
          ToMapAt(chain, i);
          ToMapUnlink(chain, i);
          var value := chain[i].value;
          if i == 0 {
            assert chain[1..] == chain[..0] + chain[1..];
            chain := chain[1..];
          } else {
            chain := chain[..i] + chain[i + 1..];
          }
          length := length - 1;
          return Some(value);
        }
        i := i + 1;
      }
      ToMapHasKey(chain, key);
      return None;
    }

    /** SymTable_isEmpty: whether psFirstNode is NULL, that is, whether no key is bound. */
    method IsEmpty() returns (empty: bool)
      requires Valid()
      ensures empty <==> Contents() == map[]
      ensures empty <==> length == 0
    {
      ToMapEmpty(chain);
      empty := |chain| == 0;
    }

    /**
     * SymTable_map: the visitor is called on every binding in chain order,
     * with `extra` passed through; the result is the sequence of its results.
     */
    method Map<E, R>(apply: (Key, V, E) -> R, extra: E) returns (results: seq<R>)
      ensures Visits(results, chain, apply, extra)
    {
      results := [];
      var i := 0;
      while i < |chain|
        invariant 0 <= i <= |chain|
        invariant Visits(results, chain[..i], apply, extra)
      {
        results := results + [apply(chain[i].key, chain[i].value, extra)];
        i := i + 1;
      }
      assert chain[..i] == chain;
    }
  }
}
