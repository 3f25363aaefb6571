# SymTable: a verified model of a string-keyed symbol table

The repository implements one interface, `symtable.h`, twice: as an
association list (`symtablelist.c`, one chain of nodes from a head pointer)
and as a hash table (`symtablehash.c`, a fixed array of 509 bucket chains
indexed by a multiplicative string hash). A symbol table is an unordered
collection of key/value bindings with no duplicate keys; values are opaque
and never copied.

This project models the three files in Dafny:

- `bindings.dfy` (module `Bindings`): keys, bindings and chains, the
  `struct SymTableNode` both implementations share, with the map a chain
  stands for (`ToMap`) and lemmas about lookup, unlinking and overwriting in
  a chain.
- `symtable_interface.dfy` (module `SymTableInterface`): the header's
  contract as functions on an abstract `map<Key, V>`, with lemmas about
  sequences of operations.
- `symtable_list.dfy` (module `SymTableList`): class `SymTable` with the
  chain and the `length` counter; every mutating operation is a method
  whose postcondition ties the new abstract value to the old one through
  the interface functions, and the queries and `Map` are specified on the
  chain itself.
- `symtable_hash.dfy` (module `SymTableHash`): the hash function with size_t
  wrap-around, and class `SymTable` over an `array` of 509 chains and a
  `length` counter. Its invariant: every binding sits in the bucket its key
  hashes to, no chain repeats a key, and `length` is the total chain length.
  Keys are then unique across the whole table (`TableKeysUnique`), and
  searching one bucket is whole-table lookup (`LookupInOwnBucket`).
- `symtable_hash_as_written.dfy` (module `SymTableHashAsWritten`): three
  operations of `symtablehash.c` as the C code is written, where it departs
  from the header (see Findings).
- `wrappers.dfy`: `Option`, standing for the C `NULL` returns.

The hash table never grows: `SymTable_put` has only a placeholder where
expansion would go (symtablehash.c:122), so the bucket count is fixed at 509.

Where `symtablehash.c` and its own comments and header disagree, the class
in `SymTableHash` follows the comments and the header, the comment on each
affected method names the divergence, and `SymTableHashAsWritten` models
the code as written:

- bucket `i` is read at `*(oSymTable->ppsArray) + i` where `ppsArray[i]` is
  meant (symtablehash.c:103, 133, 176, 244, 278, 299);
- `SymTable_put` links the new node in front of a local copy of the bucket
  head and never stores it into the bucket (symtablehash.c:154-155);
- `SymTable_remove` of a chain head moves the loop variable instead of the
  bucket slot, then releases the successor (symtablehash.c:251-252, 258-259).

Modelling choices:

- A key is a sequence of bytes 1..255: the characters of a NUL-terminated C
  string read as unsigned. Keys are compared by content, as `strcmp` does.
- Allocation is a parameter: `Put` takes `memoryAvailable`, and when it is
  false the put fails with the table unchanged, as the header promises.
- The visitor of `SymTable_map` is a total function `(Key, V, E) -> R`
  applied to each binding with the `extra` argument; the method returns the
  sequence of the visitor's results, in call order.
- A chain of nodes is a `seq` of bindings, head first; the loops walk it by
  position as the C code walks it by pointer.

## Model

| member | source | states |
|---|---|---|
| Bindings.ToMapHasKey | symtablelist.c:119-133 | a key is bound by a chain exactly when some node of the chain carries it, so a search that meets no such node means the key is unbound |
| Bindings.ToMapFirst | symtablelist.c:125-131 | a search that stops at the first node carrying a key finds the value the chain binds to that key |
| Bindings.ToMapAt | symtable.h:10-11 | in a chain with no duplicate keys every node's value is the value bound to its key |
| Bindings.ToMapConcat | symtablehash.c:296-304 | the bindings of two chains read one after the other: the earlier chain's bindings hide the later one's |
| Bindings.ToMapSize | symtable.h:21-22 | with no duplicate keys, the number of nodes is the number of bindings |
| Bindings.ToMapEmpty | symtablelist.c:217-222 | a chain binds nothing exactly when it has no node |
| Bindings.ToMapSplice | symtablelist.c:106-108 | linking a node into a chain binds its key to its value when no earlier node carries the key |
| Bindings.UniqueUnlink | symtablelist.c:196-204 | unlinking a node keeps the remaining keys free of duplicates |
| Bindings.AbsentAround | symtable.h:10-11 | in a duplicate-free chain no node before or after a given node carries its key |
| Bindings.ToMapCut | symtablelist.c:196-204 | taking out a node whose key no other node carries unbinds exactly that key |
| Bindings.ToMapUnlink | symtablelist.c:196-204 | unlinking the node of a key from a duplicate-free chain removes exactly that key from the bindings |
| Bindings.ToMapSetValue | symtablelist.c:148-149 | overwriting one node's value rebinds exactly that node's key and keeps keys duplicate-free |
| Bindings.ChainListsContents | symtable.h:62-68 | a duplicate-free chain lists every binding once: each node is a binding, each binding is a node, and there are as many nodes as bindings |
| SymTableInterface.Put | symtable.h:24-31 | a put succeeds exactly when the key is unbound and memory is available; a successful put adds one binding with the given value, a failed one changes nothing, and no existing binding is ever changed |
| SymTableInterface.Replace | symtable.h:35-39 | replace keeps the set of keys, returns the old value exactly when the key is bound, installs the new one, and leaves other bindings alone |
| SymTableInterface.Get | symtable.h:49-53 | the value bound to the key, None exactly when it is unbound, and the value a remove of the key would return |
| SymTableInterface.Remove | symtable.h:55-60 | after remove the key is unbound; the old value is returned exactly when it was bound, the size drops by one, and other bindings are unchanged |
| SymTableInterface.PutDistinctKeys | symtable.h:21-31 | putting n distinct keys into an empty table gives length n and binds each key to the value it was put with |
| SymTableInterface.PutAllFresh | symtable.h:24-31 | putting distinct unbound keys adds one binding per put and keeps every earlier binding |
| SymTableInterface.RemoveEveryKey | symtable.h:55-60 | removing every bound key once, in any order, empties the table, and each removal returns the key's value |
| SymTableInterface.RemoveAllKeepsOthers | symtable.h:55-60 | removing a run of keys leaves any other key's binding as it was |
| SymTableInterface.PutTwiceKeepsFirst | symtable.h:24-39 | a second put of a key fails and keeps the first value and the length; a replace then returns that first value and installs the new one |
| SymTableInterface.PutThenRemove | symtable.h:24-31 | removing a key just put returns its value and restores the table; a second remove finds nothing |
| SymTableList.SymTable.constructor | symtablelist.c:43-54 | a new table has no nodes, length 0 and no bindings |
| SymTableList.SymTable.GetLength | symtablelist.c:77-79 | the length counter is the number of bindings |
| SymTableList.SymTable.GetNode | symtablelist.c:119-133 | the result is the position of the first node carrying the key, or None exactly when no node carries it |
| SymTableList.SymTable.Contains | symtablelist.c:154-165 | true exactly when the key is bound |
| SymTableList.SymTable.Get | symtablelist.c:168-179 | the value bound to the key, or None when it is unbound |
| SymTableList.SymTable.Put | symtablelist.c:82-112 | acts on the bindings as the header's put; on success the new node is the head and the old chain its tail, length grows by one; otherwise chain and length are unchanged |
| SymTableList.SymTable.Replace | symtablelist.c:136-151 | acts on the bindings as the header's replace; keys, their order and length are unchanged |
| SymTableList.SymTable.Remove | symtablelist.c:182-214 | acts on the bindings as the header's remove; the node of the key is unlinked and the others keep their order, length drops by one; an unbound key changes nothing |
| SymTableList.SymTable.IsEmpty | symtablelist.c:217-222 | true exactly when no key is bound, exactly when length is 0 |
| SymTableList.SymTable.Map | symtablelist.c:225-239 | the visitor is applied once to each node in chain order, with the extra argument passed through |
| SymTableHash.HashAccumulator | symtablehash.c:52-53 | the accumulator uHash after consuming a key stays below 2^64, the width of size_t |
| SymTableHash.BucketOf | symtablehash.c:42-56 | the hash of a key is a bucket index in [0, uBucketCount) |
| SymTableHash.HashIsPolynomialModWord | symtablehash.c:46-53 | the wrapping accumulator of the hash loop equals the unbounded polynomial sum of c_i * 65599^(n-1-i) taken modulo 2^64 |
| SymTableHash.Hash | symtablehash.c:44-56 | the hash loop computes the key's bucket and it is below the bucket count |
| SymTableHash.FlattenConcat | symtablehash.c:296-304 | the bindings of consecutive runs of buckets are the bindings of each run in turn |
| SymTableHash.FlattenAround | symtablehash.c:296-304 | changing one bucket changes only its stretch of the table's bindings |
| SymTableHash.FlattenMember | symtablehash.c:296-304 | every binding of the table lies in one of the buckets |
| SymTableHash.FlattenEmpty | symtablehash.c:270-283 | the table holds no binding exactly when every bucket is empty |
| SymTableHash.KeyOutsideRange | symtablehash.c:167-184 | buckets other than a key's own never bind that key |
| SymTableHash.ContentsAround | symtablehash.c:296-304 | the bindings of a table are those of the buckets before, at and after a given bucket |
| SymTableHash.KeyOnlyInOwnBucket | symtablehash.c:167-184 | no bucket before or after a key's own binds it |
| SymTableHash.ContentsSplit | symtablehash.c:296-304 | the table's bindings split around any bucket |
| SymTableHash.LookupInOwnBucket | symtablehash.c:167-184 | a key is bound by the table exactly when its own bucket binds it, to the same value |
| SymTableHash.UpdateOwnBucket | symtablehash.c:150-158 | rebinding a key in its own bucket rebinds it in the whole table and changes nothing else |
| SymTableHash.DeleteFromOwnBucket | symtablehash.c:248-262 | unbinding a key in its own bucket unbinds it in the whole table and changes nothing else |
| SymTableHash.FlattenLength | symtablehash.c:156-157 | replacing one bucket's chain changes the total number of nodes by the difference in that chain's length |
| SymTableHash.ReplaceBucketValid | symtablehash.c:131-133 | a bucket may be replaced by any duplicate-free chain of keys that hash to it without breaking the bucket invariant |
| SymTableHash.PrependToOwnBucket | symtablehash.c:150-158 | prepending a binding of an unbound key to its own bucket keeps the bucket invariant, binds the key to the value and adds exactly one node |
| SymTableHash.SetInOwnBucket | symtablehash.c:195-201 | overwriting the value in a key's node keeps the invariant and the node count, rebinds the key, and the node held the key's old value |
| SymTableHash.UnlinkFromOwnBucket | symtablehash.c:248-262 | unlinking a key's node from its own bucket keeps the invariant, unbinds exactly that key, removes one node, and the node held the key's value |
| SymTableHash.TableKeysUnique | symtable.h:10-11 | duplicate-free buckets with every key in its hashed bucket make the whole table duplicate-free |
| SymTableHash.TableSize | symtablehash.c:34-35 | the number of nodes in all buckets is the number of bindings |
| SymTableHash.SymTable.constructor | symtablehash.c:59-76 | a new table has 509 empty buckets, length 0 and no bindings |
| SymTableHash.SymTable.GetLength | symtablehash.c:114-116 | the length counter is the number of bindings |
| SymTableHash.SymTable.GetNode | symtablehash.c:167-184 | searching the key's own bucket finds the node of the key, with the value the table binds it to, or None exactly when the key is unbound |
| SymTableHash.SymTable.Contains | symtablehash.c:205-216 | true exactly when the key is bound |
| SymTableHash.SymTable.Get | symtablehash.c:219-230 | the value bound to the key, or None when it is unbound |
| SymTableHash.SymTable.Put | symtablehash.c:119-159 | acts on the bindings as the header's put; on success a node is prepended to bucket hash(key) and length grows by one; other buckets, and everything on failure, are unchanged |
| SymTableHash.SymTable.Replace | symtablehash.c:187-202 | acts on the bindings as the header's replace; in the key's bucket only the key's node gets the new value, its key and the order of the chain kept; other buckets are untouched, and nothing changes for an unbound key |
| SymTableHash.SymTable.Remove | symtablehash.c:233-267 | acts on the bindings as the header's remove; the key's node is unlinked from its bucket, the rest keeping their order, length drops by one; other buckets are untouched |
| SymTableHash.SymTable.IsEmpty | symtablehash.c:270-283 | true exactly when every bucket is empty, exactly when no key is bound, exactly when length is 0 |
| SymTableHash.SymTable.Map | symtablehash.c:286-305 | the visitor is applied once to each binding, bucket by bucket in index order and along each chain, with the extra argument passed through |
| SymTableHashAsWritten.PutAsWritten | symtablehash.c:131-158 | put as written never changes the bucket chains, yet reports success exactly when the key is unbound in its bucket and memory is available, and then adds one to length |
| SymTableHashAsWritten.PutAsWrittenLosesBinding | symtablehash.c:150-158 | as written, a put that reports success leaves the key unbound and length different from the number of nodes |
| SymTableHashAsWritten.PutAsWrittenOnNewTable | symtablehash.c:150-158 | as written, the first put into a new table reports success, sets length 1 and stores nothing |
| SymTableHashAsWritten.RemoveFromAsWritten | symtablehash.c:244-266 | the remove loop as written finds nothing exactly when no node from the start position on carries the key; a head match either dereferences NULL (a lone head) or leaves the head linked |
| SymTableHashAsWritten.RemoveHeadAsWritten | symtablehash.c:248-262 | as written, removing a head node dereferences NULL when it is alone and otherwise leaves it linked |
| SymTableHashAsWritten.RemovePastHeadAsWritten | symtablehash.c:254-257 | as written, removing a node past the head unlinks exactly it, as intended |
| SymTableHashAsWritten.IsEmptyAsWritten | symtablehash.c:277-282 | isEmpty as written reports 1 exactly when bucket 0's head is NULL and either nodes have size 0 or there is only one bucket |
| SymTableHashAsWritten.IsEmptyAsWrittenNeverTrue | symtablehash.c:277-282 | as written, isEmpty reports 0 for every table with two or more buckets, the new one included |

## Findings

Each row isolates one defect, with the other defects of the file taken as
intended. The class in module `SymTableHash` has the corrected behaviour.

| source | as written | input that shows it | evidently intended | confidence | as-written member | corrected member |
|---|---|---|---|---|---|---|
| symtablehash.c:154-155 | the new node is linked in front of `psFirstNode`, a local copy of the bucket head, which is then dropped; `length` is still incremented and 1 returned | a new table and `put("", v)`: the empty key hashes to bucket 0, so the bucket-index defect plays no part; the put returns 1 with length 1, and the key stays unbound | store the new node into the bucket slot | high (not executed) | SymTableHashAsWritten.PutAsWrittenLosesBinding | SymTableHash.SymTable.Put |
| symtablehash.c:251-252, 258-259 | on a match at the chain head the loop variable, not the bucket slot, is moved to the successor, and the successor is then read and released | a bucket holding one binding and `remove` of its key: the key of a NULL node is read; with a longer chain the removed binding stays at the head | store the successor into the bucket slot and release the head | high (not executed) | SymTableHashAsWritten.RemoveHeadAsWritten | SymTableHash.SymTable.Remove |
| symtablehash.c:278 | bucket `i` is read at `*(oSymTable->ppsArray) + i`, i nodes past the head of bucket 0, instead of at `ppsArray[i]` (the same expression appears at lines 103, 133, 176, 244 and 299) | a new table: bucket 0's head is NULL, `NULL + 1` is not NULL, so isEmpty returns 0 | read `oSymTable->ppsArray[i]` | high (not executed) | SymTableHashAsWritten.IsEmptyAsWrittenNeverTrue | SymTableHash.SymTable.IsEmpty |

## Left out

- `SymTable_free` and `SymTable_freeBucket` (symtablehash.c:79-111, symtablelist.c:57-74): they only release memory, which the model does not represent.
- Allocation failure of `SymTable_new` and the memory leaked by a failed put: the constructors always succeed, and a failed allocation in put is only the `memoryAvailable` parameter.
- The defensive copy of keys (`strlen`/`strcpy`): keys are immutable values, so the copy is the key itself.
- Node identity and pointers: chains are sequences of bindings, so aliasing of nodes and the `prev`/`next` pointer updates are modelled as sequence updates.
- The visitor's side effects: the visitor is a function whose results are collected; what a C visitor does with `pvExtra` or to memory is not modelled.
- Table expansion and rehashing: the source has no such code, and the bucket count stays 509.
- The sign of `char` in `(size_t)pcKey[u]` (symtablehash.c:53): key bytes are read as unsigned 1..255; on a platform with signed `char`, bytes above 127 would enter the hash sign-extended.
- SymTableHash.HashAccumulator: `size_t` is taken to be 64 bits wide; on a platform with a 32-bit `size_t` the hash wraps at 2^32, which is not modelled.
- Overflow of the `length` counter: it is an unbounded natural number.
- The `*(oSymTable->ppsArray) + i` reads of `SymTable_free`, `SymTable_put`, `SymTable_getNode`, `SymTable_remove` and `SymTable_map`: only the one in `SymTable_isEmpty` is modelled as written; the others are modelled as intended.
- SymTableList.SymTable.Remove: requires a non-empty table, as the assert at symtablelist.c:189 does, which is stricter than the header's promise that removing an unbound key returns NULL.
