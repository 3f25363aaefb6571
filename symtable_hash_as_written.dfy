/**
 * Three operations of symtablehash.c as the C code is written, where it
 * departs from the header's contract. Each is modelled on its own, with the
 * other defects taken as intended, next to a lemma that exhibits the
 * departure; module SymTableHash holds the intended behaviour.
 */
module SymTableHashAsWritten {
  import opened Bindings
  import opened SymTableHash

  /**
   * SymTable_put as written (symtablehash.c:131-158), on bucket chains `s`
   * and counter `length`, with the duplicate check of line 136 taken as
   * intended. The new node is linked in front of psFirstNode, a local copy
   * of the bucket head (lines 154-155), and the bucket array is never
   * written, yet length is incremented and 1 returned.
   */
  ghost function PutAsWritten<V>(s: seq<Chain<V>>, length: nat, key: Key, value: V, memoryAvailable: bool)
    : (r: (seq<Chain<V>>, nat, bool))
    requires |s| > 0
    ensures r.0 == s
    ensures r.2 <==> Absent(s[BucketOf(key, |s|)], key) && memoryAvailable
    ensures r.1 == if r.2 then length + 1 else length
  {
    if !Absent(s[BucketOf(key, |s|)], key) || !memoryAvailable then (s, length, false)
    else (s, length + 1, true)
  }

  /**
   * Whenever the put as written reports success, the key is still not
   * bound, and length no longer counts the bindings.
   */
  lemma PutAsWrittenLosesBinding<V>(s: seq<Chain<V>>, length: nat, key: Key, value: V)
    requires WellPlaced(s) && length == |Flatten(s)|
    ensures var (s', length', ok) := PutAsWritten(s, length, key, value, true);
            ok <==> key !in ToMap(Flatten(s))
    ensures var (s', length', ok) := PutAsWritten(s, length, key, value, true);
            ok ==> key !in ToMap(Flatten(s')) && length' != |Flatten(s')|
  {
    LookupInOwnBucket(s, key);
    ToMapHasKey(s[BucketOf(key, |s|)], key);
  }

  /** The first put into a new table, of the empty key, already shows it. */
  lemma PutAsWrittenOnNewTable()
    ensures var s: seq<Chain<int>> := seq(BUCKET_COUNT, _ => []);
            var (s', length', ok) := PutAsWritten(s, 0, [], 1, true);
            ok && length' == 1 && Flatten(s') == []
  {
    var s: seq<Chain<int>> := seq(BUCKET_COUNT, _ => []);
    FlattenEmpty(s);
    assert s[BucketOf([], |s|)] == [];
  }

  /** What the remove loop as written ends in. */
  datatype RemoveOutcome<V> =
    | NotFound
      /** The node at a later position was unlinked through its predecessor. */
    | Unlinked(value: V, chain: Chain<V>)
      /** The head matched: the bucket slot still points at it, and its successor was released. */
    | HeadKept(value: V, head: Binding<V>)
      /** The head matched and had no successor: the loop variable became NULL and is dereferenced. */
    | NullDereference

  /**
   * The loop of SymTable_remove as written (symtablehash.c:244-266) on one
   * bucket chain, from position i on. On a match at the head, line 252
   * moves the loop variable, not the bucket slot, to the successor, and
   * lines 258-259 read its key and release it.
   */
  function RemoveFromAsWritten<V>(c: Chain<V>, key: Key, i: nat): (r: RemoveOutcome<V>)
    ensures r.NotFound? <==> forall t :: i <= t < |c| ==> c[t].key != key
    ensures r.HeadKept? || r.NullDereference? ==> i == 0 && c != [] && c[0].key == key
    ensures r.NullDereference? ==> |c| == 1
    ensures r.HeadKept? ==> r == HeadKept(c[0].value, c[0])
    decreases |c| - i
  {
    if i >= |c| then NotFound
    else if c[i].key == key then
      if i == 0 then
        if |c| == 1 then NullDereference else HeadKept(c[0].value, c[0])
      else Unlinked(c[i].value, c[..i] + c[i + 1..])
    else RemoveFromAsWritten(c, key, i + 1)
  }

  /**
   * Removing the key of the head node as written never takes it out: a
   * lone head leads to a NULL dereference, otherwise the head stays linked.
   */
  lemma RemoveHeadAsWritten<V>(c: Chain<V>)
    requires c != []
    ensures |c| == 1 ==> RemoveFromAsWritten(c, c[0].key, 0) == NullDereference
    ensures |c| > 1 ==> RemoveFromAsWritten(c, c[0].key, 0) == HeadKept(c[0].value, c[0])
  {
  }

  /** Past the head, the loop as written unlinks the matching node as intended. */
  lemma {:induction false} RemovePastHeadAsWritten<V>(c: Chain<V>, key: Key, i: nat, j: nat)
    requires 0 < j < |c| && i <= j && c[j].key == key
    requires forall t :: 0 <= t < j ==> c[t].key != key
    ensures RemoveFromAsWritten(c, key, i) == Unlinked(c[j].value, c[..j] + c[j + 1..])
    decreases j - i
  {
    if i < j {
      RemovePastHeadAsWritten(c, key, i + 1, j);
    }
  }

  /**
   * SymTable_isEmpty as written (symtablehash.c:277-282), with pointers as
   * addresses and NULL as 0: bucket i is read at `*(oSymTable->ppsArray) + i`,
   * i nodes of nodeSize bytes past the head of bucket 0 (firstHead), not at
   * ppsArray[i].
   */
  function IsEmptyAsWritten(firstHead: nat, bucketCount: nat, nodeSize: nat, i: nat): (r: bool)
    ensures r <==> i >= bucketCount || (firstHead == 0 && (nodeSize == 0 || bucketCount == 1))
    decreases bucketCount - i
  {
    if i >= bucketCount then true
    else if firstHead + i * nodeSize != 0 then false
    else IsEmptyAsWritten(firstHead, bucketCount, nodeSize, i + 1)
  }

  /**
   * With two buckets or more, isEmpty as written reports 0 for every table,
   * the new, empty one included.
   */
  lemma IsEmptyAsWrittenNeverTrue(firstHead: nat, bucketCount: nat, nodeSize: nat)
    requires bucketCount >= 2 && nodeSize > 0
    ensures !IsEmptyAsWritten(firstHead, bucketCount, nodeSize, 0)
  {
    if firstHead == 0 {
      assert !IsEmptyAsWritten(firstHead, bucketCount, nodeSize, 1);
    }
  }
}
