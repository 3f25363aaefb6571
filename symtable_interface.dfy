/**
 * The contract of symtable.h: a symbol table is an unordered collection of
 * bindings with no duplicate keys, so its abstract value is a map from keys
 * to values. Both implementations are proved to act on their abstract value
 * as the functions below do.
 */
module SymTableInterface {
  import opened Wrappers
  import opened Bindings

  type Table<V> = map<Key, V>

  /**
   * SymTable_put: adds the binding and reports true when the key is unbound
   * and memory is available; otherwise the table is unchanged and the result
   * is false.
   */
  function Put<V>(t: Table<V>, key: Key, value: V, memoryAvailable: bool): (r: (Table<V>, bool))
    ensures r.1 <==> key !in t && memoryAvailable
    ensures r.1 ==> |r.0| == |t| + 1 && key in r.0 && r.0[key] == value
    ensures !r.1 ==> r.0 == t
    ensures forall k :: k in t ==> k in r.0 && r.0[k] == t[k]
    ensures r.0.Keys <= t.Keys + {key}
  {
    if key !in t && memoryAvailable then (t[key := value], true) else (t, false)
  }

  /**
   * SymTable_replace: when the key is bound, installs the new value and
   * returns the old one; otherwise returns None and changes nothing.
   */
  function Replace<V>(t: Table<V>, key: Key, value: V): (r: (Table<V>, Option<V>))
    ensures r.0.Keys == t.Keys
    ensures r.1.Some? <==> key in t
    ensures r.1.Some? ==> r.1.value == t[key] && r.0[key] == value
    ensures forall k :: k in t && k != key ==> r.0[k] == t[k]
  {
    if key in t then (t[key := value], Some(t[key])) else (t, None)
  }

  /**
   * SymTable_get: the value bound to the key, or None; it is the value a
   * remove of the key would return.
   */
  function Get<V>(t: Table<V>, key: Key): (r: Option<V>)
    ensures r.Some? <==> key in t
    ensures r.Some? ==> r.value == t[key]
    ensures r == Remove(t, key).1
  {
    if key in t then Some(t[key]) else None
  }

  /**
   * SymTable_remove: when the key is bound, removes the binding and returns
   * its value; otherwise returns None and changes nothing.
   */
  function Remove<V>(t: Table<V>, key: Key): (r: (Table<V>, Option<V>))
    ensures key !in r.0
    ensures r.1.Some? <==> key in t
    ensures r.1.Some? ==> r.1.value == t[key] && |r.0| == |t| - 1
    ensures r.1.None? ==> r.0 == t
    ensures forall k :: k in t && k != key ==> k in r.0 && r.0[k] == t[k]
  {
    if key in t then (t - {key}, Some(t[key])) else (t, None)
  }

  /** The table after putting keys[i] |-> values[i] for every i in order, memory never running out. */
  function PutAll<V>(t: Table<V>, keys: seq<Key>, values: seq<V>): Table<V>
    requires |keys| == |values|
    decreases keys
  {
    if keys == [] then t
    else PutAll(Put(t, keys[0], values[0], true).0, keys[1..], values[1..])
  }

  /** The table after removing every key of keys, in order. */
  function RemoveAll<V>(t: Table<V>, keys: seq<Key>): Table<V>
  {
    if keys == [] then t else RemoveAll(Remove(t, keys[0]).0, keys[1..])
  }

  /**
   * Putting distinct keys into an empty table: the length is the number of
   * puts and every key is bound to the value it was put with.
   */
  lemma {:induction false} PutDistinctKeys<V>(keys: seq<Key>, values: seq<V>)
    requires |keys| == |values|
    requires forall i, j :: 0 <= i < j < |keys| ==> keys[i] != keys[j]
    ensures |PutAll(map[], keys, values)| == |keys|
    ensures forall i :: 0 <= i < |keys| ==> Get(PutAll(map[], keys, values), keys[i]) == Some(values[i])
  {
    PutAllFresh(map[], keys, values);
  }

  /** PutDistinctKeys, from any table that binds none of the keys. */
  lemma {:induction false} PutAllFresh<V>(t: Table<V>, keys: seq<Key>, values: seq<V>)
    requires |keys| == |values|
    requires forall i, j :: 0 <= i < j < |keys| ==> keys[i] != keys[j]
    requires forall i :: 0 <= i < |keys| ==> keys[i] !in t
    ensures |PutAll(t, keys, values)| == |t| + |keys|
    ensures forall i :: 0 <= i < |keys| ==> Get(PutAll(t, keys, values), keys[i]) == Some(values[i])
    ensures forall k :: k in t ==> Get(PutAll(t, keys, values), k) == Some(t[k])
    decreases keys
  {
    if keys != [] {
      var t' := Put(t, keys[0], values[0], true).0;
      assert keys[0] !in t;
      PutAllFresh(t', keys[1..], values[1..]);
      var r := PutAll(t, keys, values);
      forall i | 0 <= i < |keys| ensures Get(r, keys[i]) == Some(values[i]) {
        if i > 0 {
          assert keys[1..][i - 1] == keys[i];
        } else {
          assert keys[0] in t';
        }
      }
    }
  }

  /**
   * Removing every bound key, in any order, empties the table, and each
   * removal finds its binding.
   */
  lemma {:induction false} RemoveEveryKey<V>(t: Table<V>, keys: seq<Key>)
    requires forall i, j :: 0 <= i < j < |keys| ==> keys[i] != keys[j]
    requires forall k :: k in t <==> k in keys
    ensures RemoveAll(t, keys) == map[]
    ensures forall i :: 0 <= i < |keys| ==> Remove(RemoveAll(t, keys[..i]), keys[i]).1 == Some(t[keys[i]])
  {
    RemoveAllBound(t, keys);
    forall i | 0 <= i < |keys|
      ensures Remove(RemoveAll(t, keys[..i]), keys[i]).1 == Some(t[keys[i]])
    {
      RemoveFindsBinding(t, keys, i);
    }
  }

  /** Removing exactly the bound keys, each once, empties the table. */
  lemma {:induction false} RemoveAllBound<V>(t: Table<V>, keys: seq<Key>)
    requires forall i, j :: 0 <= i < j < |keys| ==> keys[i] != keys[j]
    requires forall k :: k in t <==> k in keys
    ensures RemoveAll(t, keys) == map[]
  {
    if keys == [] {
      assert forall k :: k !in t;
    } else {
      var t' := Remove(t, keys[0]).0;
      forall k ensures k in t' <==> k in keys[1..] {
        if k in keys[1..] {
          var i :| 0 <= i < |keys[1..]| && keys[1..][i] == k;
          assert keys[i + 1] == k;
        }
      }
      RemoveAllBound(t', keys[1..]);
    }
  }

  /** The i-th of a run of distinct removals of bound keys finds its binding untouched. */
  lemma RemoveFindsBinding<V>(t: Table<V>, keys: seq<Key>, i: nat)
    requires forall i, j :: 0 <= i < j < |keys| ==> keys[i] != keys[j]
    requires forall k :: k in t <==> k in keys
    requires i < |keys|
    ensures Remove(RemoveAll(t, keys[..i]), keys[i]).1 == Some(t[keys[i]])
  {
    assert keys[i] in keys;
    assert keys[i] !in keys[..i];
    RemoveAllKeepsOthers(t, keys[..i], keys[i]);
  }

  /** Removing keys leaves the binding of any other key as it was. */
  lemma {:induction false} RemoveAllKeepsOthers<V>(t: Table<V>, keys: seq<Key>, k: Key)
    requires k !in keys
    ensures k in RemoveAll(t, keys) <==> k in t
    ensures k in t ==> RemoveAll(t, keys)[k] == t[k]
    decreases keys
  {
    if keys != [] {
      assert k != keys[0];
      assert k !in keys[1..];
      RemoveAllKeepsOthers(Remove(t, keys[0]).0, keys[1..], k);
    }
  }

  /**
   * A second put of a bound key fails and leaves the first value in place;
   * a replace then returns that first value and installs the new one.
   */
  lemma PutTwiceKeepsFirst<V>(t: Table<V>, key: Key, v1: V, v2: V, v3: V)
    requires key !in t
    ensures var (t1, ok1) := Put(t, key, v1, true);
            var (t2, ok2) := Put(t1, key, v2, true);
            var (t3, old3) := Replace(t2, key, v3);
            ok1 && !ok2 && t2 == t1 && Get(t2, key) == Some(v1) && |t2| == |t| + 1 &&
            old3 == Some(v1) && Get(t3, key) == Some(v3) && |t3| == |t2|
  {
  }

  /**
   * A put followed by a remove of the same key returns the value put and
   * gives back the original table; a second remove then finds nothing.
   */
  lemma PutThenRemove<V>(t: Table<V>, key: Key, value: V)
    requires key !in t
    ensures var (t1, _) := Put(t, key, value, true);
            var (t2, r2) := Remove(t1, key);
            var (t3, r3) := Remove(t2, key);
            r2 == Some(value) && t2 == t && r3 == None && t3 == t
  {
    var t1 := t[key := value];
    assert t1 - {key} == t;
  }
}
