/**
 * symtablehash.c: the symbol table as a fixed array of 509 bucket chains.
 * A binding lives in the chain of the bucket its key hashes to. The source
 * never grows the array (the expansion step in SymTable_put is an empty
 * placeholder), so the bucket count stays 509.
 *
 * The methods of the class follow what the comments and symtable.h intend.
 * Where the C code diverges (the bucket read at `*(oSymTable->ppsArray) + i`
 * instead of `oSymTable->ppsArray[i]`, the new head of put stored only in a
 * local, the head case of remove), the comment on the method says so, and
 * module SymTableHashAsWritten models the code as written.
 */
module SymTableHash {
  import opened Wrappers
  import opened Bindings
  import SymTableInterface

  const BUCKET_COUNT: nat := 509
  const HASH_MULTIPLIER: nat := 65599
  /** size_t is 64 bits wide: uHash wraps modulo 2^64. */
  const SIZE_T_MODULUS: nat := 0x1_0000_0000_0000_0000

  /** The value of uHash after the loop of SymTable_hash has consumed all of key. */
  function HashAccumulator(key: Key): (h: nat)
    ensures h < SIZE_T_MODULUS
  {
    if key == [] then 0
    else (HashAccumulator(key[..|key| - 1]) * HASH_MULTIPLIER + key[|key| - 1]) % SIZE_T_MODULUS
  }

  /** The bucket SymTable_hash assigns to key. */
  function BucketOf(key: Key, bucketCount: nat): (b: nat)
    requires bucketCount > 0
    ensures b < bucketCount
  {
    HashAccumulator(key) % bucketCount
  }

  /** The same polynomial computed without wrap-around: a reference definition of the hash. */
  ghost function Polynomial(key: Key): nat
  {
    if key == [] then 0 else Polynomial(key[..|key| - 1]) * HASH_MULTIPLIER + key[|key| - 1]
  }

  /** Adding a multiple of 2^64 does not change a value modulo 2^64. */
  lemma ModAddMultiple(y: nat, k: nat)
    ensures (y + k * SIZE_T_MODULUS) % SIZE_T_MODULUS == y % SIZE_T_MODULUS
  {
  }

  /** One step of the hash loop may wrap before or after multiplying. */
  lemma WrapStep(p: nat, x: nat)
    ensures (p % SIZE_T_MODULUS * HASH_MULTIPLIER + x) % SIZE_T_MODULUS
         == (p * HASH_MULTIPLIER + x) % SIZE_T_MODULUS
  {
    var q, r := p / SIZE_T_MODULUS, p % SIZE_T_MODULUS;
    assert p * HASH_MULTIPLIER + x == (r * HASH_MULTIPLIER + x) + (q * HASH_MULTIPLIER) * SIZE_T_MODULUS;
    ModAddMultiple(r * HASH_MULTIPLIER + x, q * HASH_MULTIPLIER);
  }

  /** Wrapping at every step gives the polynomial hash modulo 2^64. */
  lemma {:induction false} HashIsPolynomialModWord(key: Key)
    ensures HashAccumulator(key) == Polynomial(key) % SIZE_T_MODULUS
  {
    if key != [] {
      var init := key[..|key| - 1];
      HashIsPolynomialModWord(init);
      WrapStep(Polynomial(init), key[|key| - 1]);
    }
  }

  /** SymTable_hash: the multiplicative hash of key reduced to a bucket index. */
  method Hash(key: Key, bucketCount: nat) returns (h: nat)
    requires bucketCount > 0
    ensures h == BucketOf(key, bucketCount)
    ensures h < bucketCount
  {
    var uHash := 0;
    var u := 0;
    while u < |key|
      invariant 0 <= u <= |key|
      invariant uHash == HashAccumulator(key[..u])
    {
      assert key[..u + 1][..u] == key[..u];
      uHash := (uHash * HASH_MULTIPLIER + key[u]) % SIZE_T_MODULUS;
      u := u + 1;
    }
    assert key[..u] == key;
    h := uHash % bucketCount;
  }

  /** The bindings of all buckets: bucket 0's chain, then bucket 1's, and so on. */
  ghost function Flatten<V>(s: seq<Chain<V>>): Chain<V>
  {
    if s == [] then [] else Flatten(s[..|s| - 1]) + s[|s| - 1]
  }

  /** Every binding sits in the bucket its key hashes to. */
  ghost predicate WellPlaced<V>(s: seq<Chain<V>>)
  {
    && |s| > 0
    && forall i, j :: 0 <= i < |s| && 0 <= j < |s[i]| ==> BucketOf(s[i][j].key, |s|) == i
  }

  /** The bucket invariant: placement, and no key twice within a chain. */
  ghost predicate BucketsValid<V>(s: seq<Chain<V>>)
  {
    WellPlaced(s) && forall i :: 0 <= i < |s| ==> UniqueKeys(s[i])
  }

  lemma {:induction false} FlattenConcat<V>(p: seq<Chain<V>>, q: seq<Chain<V>>)
    ensures Flatten(p + q) == Flatten(p) + Flatten(q)
    decreases |q|
  {
    if q == [] {
      assert p + q == p;
    } else {
      var q' := q[..|q| - 1];
      assert (p + q)[..|p + q| - 1] == p + q';
      FlattenConcat(p, q');
    }
  }

  /** The bindings of the table split around bucket b. */
  lemma FlattenAround<V>(s: seq<Chain<V>>, b: nat, c: Chain<V>)
    requires b < |s|
    ensures Flatten(s[b := c]) == Flatten(s[..b]) + c + Flatten(s[b + 1..])
  {
    assert s[b := c] == s[..b] + [c] + s[b + 1..];
    FlattenConcat(s[..b] + [c], s[b + 1..]);
    FlattenConcat(s[..b], [c]);
    assert Flatten([c]) == Flatten([c][..0]) + c;
  }

  /** A binding of the flattened table comes from one of the buckets. */
  lemma {:induction false} FlattenMember<V>(s: seq<Chain<V>>, t: nat)
    requires t < |Flatten(s)|
    ensures exists i, j :: 0 <= i < |s| && 0 <= j < |s[i]| && Flatten(s)[t] == s[i][j]
  {
    var init := s[..|s| - 1];
    if t < |Flatten(init)| {
      FlattenMember(init, t);
      var i, j :| 0 <= i < |init| && 0 <= j < |init[i]| && Flatten(init)[t] == init[i][j];
      assert init[i] == s[i];
    } else {
      assert Flatten(s)[t] == s[|s| - 1][t - |Flatten(init)|];
    }
  }

  /** Every bucket empty means no bindings at all, and conversely. */
  lemma {:induction false} FlattenEmpty<V>(s: seq<Chain<V>>)
    ensures Flatten(s) == [] <==> forall i :: 0 <= i < |s| ==> s[i] == []
  {
    if s != [] {
      var init := s[..|s| - 1];
      FlattenEmpty(init);
      if Flatten(s) == [] {
        forall i | 0 <= i < |s| ensures s[i] == [] {
          if i < |s| - 1 {
            assert s[i] == init[i];
          }
        }
      }
    }
  }

  /** Bindings of bucket range s[lo..hi] carry no key that hashes to b, when b is outside the range. */
  lemma KeyOutsideRange<V>(s: seq<Chain<V>>, lo: nat, hi: nat, k: Key)
    requires WellPlaced(s) && lo <= hi <= |s|
    requires !(lo <= BucketOf(k, |s|) < hi)
    ensures k !in ToMap(Flatten(s[lo..hi]))
  {
    var r := s[lo..hi];
    ToMapHasKey(Flatten(r), k);
    if !Absent(Flatten(r), k) {
      var t :| 0 <= t < |Flatten(r)| && Flatten(r)[t].key == k;
      FlattenMember(r, t);
      assert false;
    }
  }

  /** The table's map, split around bucket b: only bucket b can bind a key that hashes to b. */
  lemma ContentsAround<V>(s: seq<Chain<V>>, b: nat, c: Chain<V>)
    requires b < |s|
    ensures ToMap(Flatten(s[b := c])) == ToMap(Flatten(s[b + 1..])) + ToMap(c) + ToMap(Flatten(s[..b]))
  {
    var front, back := Flatten(s[..b]), Flatten(s[b + 1..]);
    FlattenAround(s, b, c);
    assert Flatten(s[b := c]) == front + c + back;
    ToMapConcat(front + c, back);
    ToMapConcat(front, c);
    calc {
      ToMap(front + c + back);
      ToMap(back) + ToMap(front + c);
      ToMap(back) + (ToMap(c) + ToMap(front));
      ToMap(back) + ToMap(c) + ToMap(front);
    }
  }

  /** Lookup in a union where only the middle operand can hold the key. */
  lemma LookupThrough<V>(back: map<Key, V>, m: map<Key, V>, front: map<Key, V>, k: Key)
    requires k !in back && k !in front
    ensures k in back + m + front <==> k in m
    ensures k in m ==> (back + m + front)[k] == m[k]
  {
  }

  /** Updating the middle operand of a union, when the last operand lacks the key. */
  lemma UpdateThrough<V>(back: map<Key, V>, m: map<Key, V>, front: map<Key, V>, k: Key, v: V)
    requires k !in front
    ensures back + m[k := v] + front == (back + m + front)[k := v]
  {
    assert back + m[k := v] == (back + m)[k := v];
  }

  /** Deleting from the middle operand of a union, when no other operand holds the key. */
  lemma DeleteThrough<V>(back: map<Key, V>, m: map<Key, V>, front: map<Key, V>, k: Key)
    requires k !in back && k !in front
    ensures back + (m - {k}) + front == (back + m + front) - {k}
  {
  }

  /** The keys hashing to bucket b are bound by neither the buckets before b nor those after it. */
  lemma KeyOnlyInOwnBucket<V>(s: seq<Chain<V>>, k: Key)
    requires WellPlaced(s)
    ensures k !in ToMap(Flatten(s[..BucketOf(k, |s|)]))
    ensures k !in ToMap(Flatten(s[BucketOf(k, |s|) + 1..]))
  {
    var b := BucketOf(k, |s|);
    assert s[..b] == s[0..b];
    assert s[b + 1..] == s[b + 1..|s|];
    KeyOutsideRange(s, 0, b, k);
    KeyOutsideRange(s, b + 1, |s|, k);
  }

  /** The table's map split around bucket b, before any change. */
  lemma ContentsSplit<V>(s: seq<Chain<V>>, b: nat)
    requires b < |s|
    ensures ToMap(Flatten(s)) == ToMap(Flatten(s[b + 1..])) + ToMap(s[b]) + ToMap(Flatten(s[..b]))
  {
    assert s[b := s[b]] == s;
    ContentsAround(s, b, s[b]);
  }

  /**
   * Whole-table lookup is lookup in the key's own bucket: this is why
   * SymTable_getNode searches one chain only.
   */
  lemma LookupInOwnBucket<V>(s: seq<Chain<V>>, k: Key)
    requires WellPlaced(s)
    ensures k in ToMap(Flatten(s)) <==> k in ToMap(s[BucketOf(k, |s|)])
    ensures k in ToMap(s[BucketOf(k, |s|)]) ==> ToMap(Flatten(s))[k] == ToMap(s[BucketOf(k, |s|)])[k]
  {
    var b := BucketOf(k, |s|);
    ContentsSplit(s, b);
    KeyOnlyInOwnBucket(s, k);
    LookupThrough(ToMap(Flatten(s[b + 1..])), ToMap(s[b]), ToMap(Flatten(s[..b])), k);
  }

  /** Changing bucket b by one key that hashes to b changes the table's map the same way. */
  lemma UpdateOwnBucket<V>(s: seq<Chain<V>>, k: Key, c: Chain<V>, v: V)
    requires WellPlaced(s)
    requires ToMap(c) == ToMap(s[BucketOf(k, |s|)])[k := v]
    ensures ToMap(Flatten(s[BucketOf(k, |s|) := c])) == ToMap(Flatten(s))[k := v]
  {
    var b := BucketOf(k, |s|);
    var front, back := ToMap(Flatten(s[..b])), ToMap(Flatten(s[b + 1..]));
    ContentsSplit(s, b);
    ContentsAround(s, b, c);
    KeyOnlyInOwnBucket(s, k);
    UpdateThrough(back, ToMap(s[b]), front, k, v);
  }

  /** Deleting one key that hashes to b from bucket b deletes it from the table's map. */
  lemma DeleteFromOwnBucket<V>(s: seq<Chain<V>>, k: Key, c: Chain<V>)
    requires WellPlaced(s)
    requires ToMap(c) == ToMap(s[BucketOf(k, |s|)]) - {k}
    ensures ToMap(Flatten(s[BucketOf(k, |s|) := c])) == ToMap(Flatten(s)) - {k}
  {
    var b := BucketOf(k, |s|);
    ContentsSplit(s, b);
    ContentsAround(s, b, c);
    KeyOnlyInOwnBucket(s, k);
    DeleteThrough(ToMap(Flatten(s[b + 1..])), ToMap(s[b]), ToMap(Flatten(s[..b])), k);
  }

  /** The number of bindings after bucket b is replaced by c. */
  lemma FlattenLength<V>(s: seq<Chain<V>>, b: nat, c: Chain<V>)
    requires b < |s|
    ensures |Flatten(s[b := c])| == |Flatten(s)| - |s[b]| + |c|
  {
    FlattenAround(s, b, c);
    FlattenAround(s, b, s[b]);
    assert s[b := s[b]] == s;
  }

  /** Replacing a bucket by a duplicate-free chain of keys that hash to it keeps the bucket invariant. */
  lemma ReplaceBucketValid<V>(s: seq<Chain<V>>, b: nat, c: Chain<V>)
    requires BucketsValid(s) && b < |s| && UniqueKeys(c)
    requires forall j :: 0 <= j < |c| ==> BucketOf(c[j].key, |s|) == b
    ensures BucketsValid(s[b := c])
  {
  }

  /**
   * Prepending a binding of an unbound key to the key's own bucket keeps the
   * bucket invariant, binds the key and adds one node.
   */
  lemma PrependToOwnBucket<V>(s: seq<Chain<V>>, key: Key, value: V)
    requires BucketsValid(s) && key !in ToMap(Flatten(s))
    ensures var b := BucketOf(key, |s|);
            var s' := s[b := [Binding(key, value)] + s[b]];
            && BucketsValid(s')
            && ToMap(Flatten(s')) == ToMap(Flatten(s))[key := value]
            && |Flatten(s')| == |Flatten(s)| + 1
  {
    var b := BucketOf(key, |s|);
    var c := [Binding(key, value)] + s[b];
    LookupInOwnBucket(s, key);
    ToMapHasKey(s[b], key);
    assert c[1..] == s[b];
    assert UniqueKeys(c);
    ReplaceBucketValid(s, b, c);
    UpdateOwnBucket(s, key, c, value);
    FlattenLength(s, b, c);
  }

  /**
   * Overwriting the value of a key's node in its own bucket keeps the bucket
   * invariant and rebinds the key; the node held the key's old value.
   */
  lemma SetInOwnBucket<V>(s: seq<Chain<V>>, key: Key, j: nat, value: V)
    requires BucketsValid(s)
    requires j < |s[BucketOf(key, |s|)]| && s[BucketOf(key, |s|)][j].key == key
    ensures var b := BucketOf(key, |s|);
            var s' := s[b := s[b][j := Binding(key, value)]];
            && key in ToMap(Flatten(s)) && ToMap(Flatten(s))[key] == s[b][j].value
            && BucketsValid(s')
            && ToMap(Flatten(s')) == ToMap(Flatten(s))[key := value]
            && |Flatten(s')| == |Flatten(s)|
  {
    var b := BucketOf(key, |s|);
    var c := s[b][j := Binding(key, value)];
    LookupInOwnBucket(s, key);
    ToMapAt(s[b], j);
    ToMapSetValue(s[b], j, value);
    ReplaceBucketValid(s, b, c);
    UpdateOwnBucket(s, key, c, value);
    FlattenLength(s, b, c);
  }

  /**
   * Unlinking a key's node from its own bucket keeps the bucket invariant,
   * unbinds the key and takes away one node; the node held the key's value.
   */
  lemma UnlinkFromOwnBucket<V>(s: seq<Chain<V>>, key: Key, j: nat)
    requires BucketsValid(s)
    requires j < |s[BucketOf(key, |s|)]| && s[BucketOf(key, |s|)][j].key == key
    ensures var b := BucketOf(key, |s|);
            var s' := s[b := s[b][..j] + s[b][j + 1..]];
            && key in ToMap(Flatten(s)) && ToMap(Flatten(s))[key] == s[b][j].value
            && BucketsValid(s')
            && ToMap(Flatten(s')) == ToMap(Flatten(s)) - {key}
            && |Flatten(s')| == |Flatten(s)| - 1
  {
    var b := BucketOf(key, |s|);
    var c := s[b][..j] + s[b][j + 1..];
    LookupInOwnBucket(s, key);
    ToMapAt(s[b], j);
    ToMapUnlink(s[b], j);
    assert forall t :: 0 <= t < |c| ==> c[t] in s[b];
    ReplaceBucketValid(s, b, c);
    DeleteFromOwnBucket(s, key, c);
    FlattenLength(s, b, c);
  }

  /** Keys unique within each bucket and placed by hash are unique across the table. */
  lemma {:induction false} TableKeysUnique<V>(s: seq<Chain<V>>, n: nat)
    requires BucketsValid(s) && n <= |s|
    ensures UniqueKeys(Flatten(s[..n]))
  {
    if n > 0 {
      var init := s[..n][..n - 1];
      assert init == s[..n - 1];
      TableKeysUnique(s, n - 1);
      var f: Chain<V> := Flatten(init);
      var last: Chain<V> := s[n - 1];
      assert Flatten(s[..n]) == f + last;
      forall a, b | 0 <= a < b < |f + last| ensures (f + last)[a].key != (f + last)[b].key {
        if a < |f| && b >= |f| {
          FlattenMember(init, a);
          var i, j :| 0 <= i < |init| && 0 <= j < |init[i]| && f[a] == init[i][j];
          assert init[i] == s[i];
          assert last[b - |f|] == s[n - 1][b - |f|];
        } else if a >= |f| {
          assert (f + last)[a] == last[a - |f|] && (f + last)[b] == last[b - |f|];
        }
      }
    }
  }

  /** The table's map has exactly as many keys as the buckets hold bindings. */
  lemma TableSize<V>(s: seq<Chain<V>>)
    requires BucketsValid(s)
    ensures |ToMap(Flatten(s))| == |Flatten(s)|
  {
    TableKeysUnique(s, |s|);
    assert s[..|s|] == s;
    ToMapSize(Flatten(s));
  }

  /** A node: the bucket it is chained in and its position in that chain. */
  datatype Position = Position(bucket: nat, index: nat)

  class SymTable<V> {
    /** ppsArray: bucket i holds the chain reachable from ppsArray[i]. */
    const buckets: array<Chain<V>>
    /** uBucketCount */
    const bucketCount: nat
    /** The number of bindings, kept up to date by put and remove. */
    var length: nat

    ghost predicate Valid()
      reads this, buckets
    {
      && buckets.Length == bucketCount
      && BucketsValid(buckets[..])
      && length == |Flatten(buckets[..])|
    }

    /** The abstract value of the table. */
    ghost function Contents(): SymTableInterface.Table<V>
      reads this, buckets
    {
      ToMap(Flatten(buckets[..]))
    }

    /** SymTable_new: 509 empty buckets and length 0. */
    constructor ()
      ensures Valid() && fresh(buckets)
      ensures bucketCount == BUCKET_COUNT && length == 0
      ensures forall i :: 0 <= i < bucketCount ==> buckets[i] == []
      ensures Contents() == map[]
    {
      var a := new Chain<V>[BUCKET_COUNT](_ => []);
      buckets := a;
      bucketCount := BUCKET_COUNT;
      length := 0;
      new;
      FlattenEmpty(buckets[..]);
    }

    /** SymTable_getLength: the number of bindings. */
    method GetLength() returns (n: nat)
      requires Valid()
      ensures n == |Contents()|
    {
      TableSize(buckets[..]);
      n := length;
    }

    /**
     * SymTable_getNode: searches only the chain of bucket hash(key) and gives
     * the position of the node with the key, or None. Under the placement
     * invariant this is whole-table lookup. (The C code starts the walk at
     * `*(oSymTable->ppsArray) + bucketIndex`; the model reads the bucket
     * slot `ppsArray[bucketIndex]` that is meant.)
     */
    method GetNode(key: Key) returns (node: Option<Position>)
      requires Valid()
      ensures node.Some? ==> node.value.bucket == BucketOf(key, bucketCount)
      ensures node.Some? ==> node.value.index < |buckets[node.value.bucket]|
      ensures node.Some? ==> buckets[node.value.bucket][node.value.index].key == key
      ensures node.Some? ==> key in Contents() &&
                             Contents()[key] == buckets[node.value.bucket][node.value.index].value
      ensures node.None? <==> key !in Contents()
    {
      var b := Hash(key, bucketCount);
      var chain := buckets[b];
      LookupInOwnBucket(buckets[..], key);
      ToMapHasKey(chain, key);
      var i := 0;
      while i < |chain|
        invariant 0 <= i <= |chain|
        invariant forall t :: 0 <= t < i ==> chain[t].key != key
      {
        if chain[i].key == key {
          ToMapFirst(chain, i);
          return Some(Position(b, i));
        }
        i := i + 1;
      }
      return None;
    }

    /** SymTable_contains: whether some binding has the key. */
    method Contains(key: Key) returns (found: bool)
      requires Valid()
      ensures found <==> key in Contents()
    {
      var node := GetNode(key);
      found := node.Some?;
    }

    /** SymTable_get: the value bound to the key, or None. */
    method Get(key: Key) returns (value: Option<V>)
      requires Valid()
      ensures value == SymTableInterface.Get(Contents(), key)
    {
      var node := GetNode(key);
      if node.None? {
        return None;
      }
      value := Some(buckets[node.value.bucket][node.value.index].value);
    }

    /**
     * SymTable_put: a duplicate key or a failed allocation leaves every bucket
     * and length alone and gives false; otherwise a node with the binding is
     * prepended to bucket hash(key), length grows by one and the other buckets
     * are untouched. (The C code links the node in front of a local copy of
     * the head and never stores it into the bucket slot; the model stores it.)
     */
    method Put(key: Key, value: V, memoryAvailable: bool) returns (ok: bool)
      requires Valid()
      modifies this, buckets
      ensures Valid()
      ensures (Contents(), ok) == SymTableInterface.Put(old(Contents()), key, value, memoryAvailable)
      ensures length == old(length) + if ok then 1 else 0
      ensures ok ==> buckets[BucketOf(key, bucketCount)] ==
                     [Binding(key, value)] + old(buckets[BucketOf(key, bucketCount)])
      ensures forall i :: 0 <= i < bucketCount && (!ok || i != BucketOf(key, bucketCount)) ==>
                buckets[i] == old(buckets[i])
    {
      var b := Hash(key, bucketCount);
      var present := Contains(key);
      if present {
        return false;
      }
      if !memoryAvailable {
        return false;
      }
      PrependToOwnBucket(buckets[..], key, value);
      buckets[b] := [Binding(key, value)] + buckets[b];
      length := length + 1;
      ok := true;
    }

    /**
     * SymTable_replace: a bound key gets the new value and its old value is
     * returned; keys, buckets other than its own and length stay as they
     * were. An unbound key gives None and no change.
     */
    method Replace(key: Key, value: V) returns (oldValue: Option<V>)
      requires Valid()
      modifies buckets
      ensures Valid()
      ensures (Contents(), oldValue) == SymTableInterface.Replace(old(Contents()), key, value)
      ensures forall i :: 0 <= i < bucketCount && i != BucketOf(key, bucketCount) ==>
                buckets[i] == old(buckets[i])
      ensures oldValue.None? ==> buckets[..] == old(buckets[..])
      ensures oldValue.Some? ==>
                var b := BucketOf(key, bucketCount);
                exists j :: 0 <= j < |old(buckets[b])| && old(buckets[b])[j].key == key &&
                            buckets[b] == old(buckets[b])[j := Binding(key, value)]
    {
      var node := GetNode(key);
      if node.None? {
        return None;
      }
      var b, j := node.value.bucket, node.value.index;
      SetInOwnBucket(buckets[..], key, j, value);
      oldValue := Some(buckets[b][j].value);
      buckets[b] := buckets[b][j := Binding(key, value)];
    }

    /**
     * SymTable_remove: the node with the key is unlinked from its bucket
     * (through the bucket slot when it is the head, through the previous node
     * otherwise), its value returned and length decreased by one; the other
     * bindings of the bucket keep their order. An unbound key gives None and
     * no change. (For a head node the C code assigns the successor to the
     * loop variable instead of the bucket slot, then releases the successor;
     * the model updates the slot.)
     */
    method Remove(key: Key) returns (removed: Option<V>)
      requires Valid()
      modifies this, buckets
      ensures Valid()
      ensures (Contents(), removed) == SymTableInterface.Remove(old(Contents()), key)
      ensures length == old(length) - if removed.Some? then 1 else 0
      ensures forall i :: 0 <= i < bucketCount && i != BucketOf(key, bucketCount) ==>
                buckets[i] == old(buckets[i])
      ensures removed.None? ==> buckets[..] == old(buckets[..])
      ensures removed.Some? ==>
                var b := BucketOf(key, bucketCount);
                exists j :: 0 <= j < |old(buckets[b])| && old(buckets[b])[j].key == key &&
                            buckets[b] == old(buckets[b])[..j] + old(buckets[b])[j + 1..]
    {
      var b := Hash(key, bucketCount);
      var s := buckets[..];
      var chain := s[b];
      LookupInOwnBucket(s, key);
      var i := 0;
      while i < |chain|
        invariant 0 <= i <= |chain|
        invariant forall t :: 0 <= t < i ==> chain[t].key != key
      {
        if chain[i].key == key {
          UnlinkFromOwnBucket(s, key, i);
          var value := chain[i].value;
          if i == 0 {
            assert chain[1..] == chain[..0] + chain[1..];
            buckets[b] := chain[1..];
          } else {
            buckets[b] := chain[..i] + chain[i + 1..];
          }
          assert buckets[..] == s[b := chain[..i] + chain[i + 1..]];
          length := length - 1;
          return Some(value);
        }
        i := i + 1;
      }
      ToMapHasKey(chain, key);
      return None;
    }

    /**
     * SymTable_isEmpty: true when every bucket is empty, that is, when no key
     * is bound. (The C code reads bucket i at `*(oSymTable->ppsArray) + i`;
     * the model reads `ppsArray[i]`.)
     */
    method IsEmpty() returns (empty: bool)
      requires Valid()
      ensures empty <==> forall i :: 0 <= i < bucketCount ==> buckets[i] == []
      ensures empty <==> Contents() == map[]
      ensures empty <==> length == 0
    {
      FlattenEmpty(buckets[..]);
      ToMapEmpty(Flatten(buckets[..]));
      var i := 0;
      while i < bucketCount
        invariant 0 <= i <= bucketCount
        invariant forall t :: 0 <= t < i ==> buckets[t] == []
      {
        if |buckets[i]| != 0 {
          return false;
        }
        i := i + 1;
      }
      return true;
    }

    /**
     * SymTable_map: the visitor is called once per binding, bucket by bucket
     * in index order and along each chain, with `extra` passed through; the
     * result is the sequence of its results.
     */
    method Map<E, R>(apply: (Key, V, E) -> R, extra: E) returns (results: seq<R>)
      requires Valid()
      ensures Visits(results, Flatten(buckets[..]), apply, extra)
    {
      results := [];
      var i := 0;
      while i < bucketCount
        invariant 0 <= i <= bucketCount
        invariant Visits(results, Flatten(buckets[..i]), apply, extra)
      {
        var chain := buckets[i];
        var j := 0;
        while j < |chain|
          invariant 0 <= j <= |chain|
          invariant Visits(results, Flatten(buckets[..i]) + chain[..j], apply, extra)
        {
          results := results + [apply(chain[j].key, chain[j].value, extra)];
          j := j + 1;
        }
        assert chain[..j] == chain;
        assert buckets[..i + 1][..i] == buckets[..i];
        i := i + 1;
      }
      assert buckets[..i] == buckets[..];
    }
  }
}
