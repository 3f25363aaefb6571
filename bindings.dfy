/**
 * Bindings and chains: the `struct SymTableNode` shared by both
 * implementations. A chain is the sequence of bindings reachable from a
 * head pointer, head first.
 */
module Bindings {

  /** A byte of a key string, read as unsigned: anything but the terminating NUL. */
  type KeyByte = b: int | 1 <= b < 256 witness 1

  /** A key is compared by content (strcmp), so it is a value. */
  type Key = seq<KeyByte>

  datatype Binding<V> = Binding(key: Key, value: V)

  type Chain<V> = seq<Binding<V>>

  /** No two bindings of the chain share a key. */
  ghost predicate UniqueKeys<V>(c: Chain<V>)
  {
    forall i, j :: 0 <= i < j < |c| ==> c[i].key != c[j].key
  }

  /** No binding of the chain has key k. */
  ghost predicate Absent<V>(c: Chain<V>, k: Key)
  {
    forall i :: 0 <= i < |c| ==> c[i].key != k
  }

  /** The map a chain stands for; an earlier binding hides a later one with the same key. */
  ghost function ToMap<V>(c: Chain<V>): map<Key, V>
  {
    if c == [] then map[] else ToMap(c[1..])[c[0].key := c[0].value]
  }

  /** `results` is what a visitor returns when called on every binding of `c`, in order. */
  ghost predicate Visits<V, E, R>(results: seq<R>, c: Chain<V>, apply: (Key, V, E) -> R, extra: E)
  {
    && |results| == |c|
    && forall t :: 0 <= t < |c| ==> results[t] == apply(c[t].key, c[t].value, extra)
  }

  /** A key is bound by the map exactly when some binding of the chain carries it. */
  lemma {:induction false} ToMapHasKey<V>(c: Chain<V>, k: Key)
    ensures k in ToMap(c) <==> !Absent(c, k)
  {
    if c != [] {
      ToMapHasKey(c[1..], k);
      if k != c[0].key && !Absent(c, k) {
        var i :| 0 <= i < |c| && c[i].key == k;
        assert c[1..][i - 1].key == k;
      }
    }
  }

  /** The map gives a key the value of the first binding that carries it. */
  lemma {:induction false} ToMapFirst<V>(c: Chain<V>, j: nat)
    requires j < |c|
    requires forall i :: 0 <= i < j ==> c[i].key != c[j].key
    ensures c[j].key in ToMap(c) && ToMap(c)[c[j].key] == c[j].value
  {
    if j > 0 {
      ToMapFirst(c[1..], j - 1);
    }
  }

  /** The map of a chain with unique keys gives every binding's own value. */
  lemma ToMapAt<V>(c: Chain<V>, j: nat)
    requires UniqueKeys(c) && j < |c|
    ensures c[j].key in ToMap(c) && ToMap(c)[c[j].key] == c[j].value
  {
    ToMapFirst(c, j);
  }

  /** Concatenating chains: the front chain's bindings hide the back chain's. */
  lemma {:induction false} ToMapConcat<V>(p: Chain<V>, q: Chain<V>)
    ensures ToMap(p + q) == ToMap(q) + ToMap(p)
  {
    if p == [] {
      assert p + q == q;
    } else {
      assert (p + q)[1..] == p[1..] + q;
      ToMapConcat(p[1..], q);
    }
  }

  /** With unique keys, the map has one key per binding. */
  lemma {:induction false} ToMapSize<V>(c: Chain<V>)
    requires UniqueKeys(c)
    ensures |ToMap(c)| == |c|
  {
    if c != [] {
      ToMapSize(c[1..]);
      ToMapHasKey(c[1..], c[0].key);
    }
  }

  /** The map is empty exactly when the chain is. */
  lemma ToMapEmpty<V>(c: Chain<V>)
    ensures ToMap(c) == map[] <==> c == []
  {
    if c != [] {
      ToMapHasKey(c, c[0].key);
      assert c[0].key in ToMap(c);
    }
  }

  /** A map update at a key the right-hand operand lacks commutes with the union. */
  lemma UpdateUnion<V>(m1: map<Key, V>, m2: map<Key, V>, k: Key, v: V)
    requires k !in m2
    ensures m1[k := v] + m2 == (m1 + m2)[k := v]
  {
  }

  /** Adding a fresh key and taking it away again gives back the map. */
  lemma UpdateRemove<V>(m: map<Key, V>, k: Key, v: V)
    requires k !in m
    ensures m[k := v] - {k} == m
  {
  }

  /** Splicing a binding in: the result maps its key to its value, provided nothing before it carries that key. */
  lemma ToMapSplice<V>(front: Chain<V>, x: Binding<V>, back: Chain<V>)
    requires Absent(front, x.key)
    ensures ToMap(front + [x] + back) == (ToMap(back) + ToMap(front))[x.key := x.value]
  {
    assert front + [x] + back == front + ([x] + back);
    ToMapConcat(front, [x] + back);
    assert ([x] + back)[1..] == back;
    ToMapHasKey(front, x.key);
    UpdateUnion(ToMap(back), ToMap(front), x.key, x.value);
  }

  /** Unlinking keeps the remaining keys unique. */
  lemma UniqueUnlink<V>(c: Chain<V>, j: nat)
    requires UniqueKeys(c) && j < |c|
    ensures UniqueKeys(c[..j] + c[j + 1..])
  {
    var rest := c[..j] + c[j + 1..];
    forall a, b | 0 <= a < b < |rest| ensures rest[a].key != rest[b].key {
      var a' := if a < j then a else a + 1;
      var b' := if b < j then b else b + 1;
      assert rest[a] == c[a'] && rest[b] == c[b'];
    }
  }

  /** In a chain with unique keys, no binding before or after position j carries c[j]'s key. */
  lemma AbsentAround<V>(c: Chain<V>, j: nat)
    requires UniqueKeys(c) && j < |c|
    ensures Absent(c[..j], c[j].key) && Absent(c[j + 1..], c[j].key)
  {
    var k := c[j].key;
    var front, back := c[..j], c[j + 1..];
    forall i | 0 <= i < |front| ensures front[i].key != k {
      assert front[i] == c[i];
    }
    forall i | 0 <= i < |back| ensures back[i].key != k {
      assert back[i] == c[j + 1 + i];
    }
  }

  /** Taking out a binding whose key no other binding carries removes exactly that key. */
  lemma ToMapCut<V>(front: Chain<V>, x: Binding<V>, back: Chain<V>)
    requires Absent(front, x.key) && Absent(back, x.key)
    ensures ToMap(front + back) == ToMap(front + [x] + back) - {x.key}
  {
    ToMapSplice(front, x, back);
    ToMapConcat(front, back);
    ToMapHasKey(front, x.key);
    ToMapHasKey(back, x.key);
    UpdateRemove(ToMap(back) + ToMap(front), x.key, x.value);
  }

  /**
   * Unlinking one binding from a chain with unique keys removes exactly its
   * key from the map and keeps the other keys unique.
   */
  lemma ToMapUnlink<V>(c: Chain<V>, j: nat)
    requires UniqueKeys(c) && j < |c|
    ensures UniqueKeys(c[..j] + c[j + 1..])
    ensures ToMap(c[..j] + c[j + 1..]) == ToMap(c) - {c[j].key}
  {
    UniqueUnlink(c, j);
    AbsentAround(c, j);
    assert c == c[..j] + [c[j]] + c[j + 1..];
    ToMapCut(c[..j], c[j], c[j + 1..]);
  }

  /** Overwriting the value of one binding of a chain with unique keys updates the map at that key. */
  lemma ToMapSetValue<V>(c: Chain<V>, j: nat, v: V)
    requires UniqueKeys(c) && j < |c|
    ensures UniqueKeys(c[j := Binding(c[j].key, v)])
    ensures ToMap(c[j := Binding(c[j].key, v)]) == ToMap(c)[c[j].key := v]
  {
    var k := c[j].key;
    var front, back := c[..j], c[j + 1..];
    AbsentAround(c, j);
    assert c == front + [c[j]] + back;
    assert c[j := Binding(k, v)] == front + [Binding(k, v)] + back;
    ToMapSplice(front, c[j], back);
    ToMapSplice(front, Binding(k, v), back);
  }

  /**
   * A chain with unique keys lists its map exactly: every binding is an
   * entry of the map, and every entry of the map is one binding.
   */
  lemma ChainListsContents<V>(c: Chain<V>)
    requires UniqueKeys(c)
    ensures |c| == |ToMap(c)|
    ensures forall t :: 0 <= t < |c| ==> c[t].key in ToMap(c) && ToMap(c)[c[t].key] == c[t].value
    ensures forall k :: k in ToMap(c) ==> exists t :: 0 <= t < |c| && c[t].key == k
  {
    ToMapSize(c);
    forall t | 0 <= t < |c| ensures c[t].key in ToMap(c) && ToMap(c)[c[t].key] == c[t].value {
      ToMapAt(c, t);
    }
    forall k | k in ToMap(c) ensures exists t :: 0 <= t < |c| && c[t].key == k {
      ToMapHasKey(c, k);
    }
  }
}
