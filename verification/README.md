# hashtable.c in Dafny

A model of `hashtable.c`, a small C library with two parts.

- **The tagged `value`.** A closed variant over nil, boolean, 64-bit integer, real and custom pointer. It has kind tests, in-place setters, constructors, and typed getters that `assert` the kind.
- **The string-keyed hash table.** It uses separate chaining:
  - keys are hashed with 64-bit FNV-1a and reduced `% size`;
  - `hashtable_insert` links new entries at the head of their chain and overwrites an existing key in place;
  - `hashtable_remove` unlinks at the head or after a predecessor;
  - `hashtable_contains` and `hashtable_get` scan one chain;
  - the table doubles through `hashtable_rehash` once the count passes half the size.

Modules, one per component:

- `Wrappers`: the `Option` type that stands for a possibly-NULL table pointer.
- `Values` (values.dfy): `Value` is a datatype with one constructor per kind. Getters require the matching kind, which is the C `assert`.
- `Fnv` (fnv.dfy):
  - keys are byte sequences without NUL;
  - FNV-1a is a left fold over `bv64`, with the C loop as a method proved equal to the fold;
  - `BucketIndex` is the `% size` reduction.
- `Buckets` (buckets.dfy):
  - an entry is a key and a value; a chain is the sequence of its entries from the head;
  - it defines the chain scan, the head splice, the unlink and the rehash moves;
  - it also holds the abstraction from stored entries to a `map<Key, Value>`.
- `HashTable` (hashtable.dfy):
  - `Table` holds the buckets, `count` and `size`;
  - `Valid` is the invariant: the size is a power of two equal to the number of buckets, the count is the number of chained entries, every entry is in bucket `BucketIndex(key, size)`, and no key is stored twice;
  - `Contents` is the map a valid table stands for;
  - every operation's contract is stated as a change to that map, together with the C return value, the count and the size.
- `TableProperties` (properties.dfy): properties that relate several operations, and a worked example.

## Model

| member | source | states |
|---|---|---|
| Values.GetKind | hashtable.c:13-15 | `value_get_kind` returns the tag, and each of the five tags is returned exactly for its own variant |
| Values.KindTestsPartition | hashtable.c:13-35 | each `value_is_*` test holds exactly when the value has that kind, and exactly one of the five holds |
| Values.MakeNil | hashtable.c:83-87 | `value_make_nil` yields a value whose kind is nil |
| Values.MakeBoolean | hashtable.c:89-94 | `value_make_boolean` yields a boolean value, and the getter returns the boolean given |
| Values.MakeInteger | hashtable.c:96-101 | `value_make_integer` yields an integer value, and the getter returns the int64 given |
| Values.MakeReal | hashtable.c:103-108 | `value_make_real` yields a real value, and the getter returns the payload given |
| Values.MakeCustom | hashtable.c:110-115 | `value_make_custom` yields a custom value, and the getter returns the handle given |
| Values.SetNil | hashtable.c:37-39 | `value_set_nil` leaves a nil value, the same one `value_make_nil` builds, whatever the value was before |
| Values.SetBoolean | hashtable.c:41-44 | `value_set_boolean` leaves a boolean value carrying the argument, whatever the value was before |
| Values.SetInteger | hashtable.c:46-49 | `value_set_integer` leaves an integer value carrying the argument |
| Values.SetReal | hashtable.c:51-54 | `value_set_real` leaves a real value carrying the argument |
| Values.SetCustom | hashtable.c:56-59 | `value_set_custom` leaves a custom value carrying the argument |
| Values.GetBoolean | hashtable.c:62-65 | it can only be called on a boolean value (the `assert`), and it returns that value's payload |
| Values.GetInteger | hashtable.c:67-70 | it can only be called on an integer value, and it returns that value's payload |
| Values.GetReal | hashtable.c:72-75 | it can only be called on a real value, and it returns that value's payload |
| Values.GetCustom | hashtable.c:77-80 | it can only be called on a custom value, and it returns that value's payload |
| Values.BooleanIsNotInteger | hashtable.c:67-70 | a value made by `value_make_boolean` fails the integer getter's kind check, so `value_get_integer` cannot return a coerced integer from it |
| Fnv.Widen | hashtable.c:155 | the `(size_t)` conversion of a signed `char`: bytes below 0x80 keep their value, and higher bytes are sign-extended to 64 bits |
| Fnv.Fnv1aHash | hashtable.c:152-159 | the C loop over the key's bytes computes the FNV-1a fold: start from the offset basis, and for each byte XOR it in and then multiply by the prime modulo 2^64 |
| Fnv.FoldAppend | hashtable.c:154-157 | the hash is a left fold: hashing `a + b` continues from the hash of `a` |
| Fnv.Fnv1aSnoc | hashtable.c:154-157 | appending one byte applies one XOR-then-multiply step to the previous hash |
| Fnv.Fnv1aKnownValues | hashtable.c:153-156 | the empty key hashes to 14695981039346656037, and the key "a" to the published FNV-1a value 0xaf63dc4c8601ec8c |
| Fnv.BucketIndex | hashtable.c:176 | `fnv1a_hash(key) % size` is always a valid bucket index |
| Buckets.FindKey | hashtable.c:179-185 | the strcmp scan from the head: a position is found exactly when some entry has the key, and it is the first such position |
| Buckets.Link | hashtable.c:191-192 | the head splice puts the new entry in front of its key's chain, and every other bucket is left as it was |
| Buckets.LinkAddsEntry | hashtable.c:187-193 | splicing a new entry at the head of its chain adds exactly that entry to the stored entries |
| Buckets.LinkKeepsPlaced | hashtable.c:191-192 | after the splice, every entry is still in the bucket its key hashes to |
| Buckets.Unlink | hashtable.c:210-214 | unlinking at the head makes the successor the head, and unlinking after a predecessor bridges over the entry; either way the chain loses exactly that one entry and keeps the others in order |
| Buckets.UnlinkEntries | hashtable.c:210-217 | unlinking removes exactly the found entry from the stored entries |
| Buckets.MoveChain | hashtable.c:245-255 | the inner rehash loop moves every entry of an old chain into the new array, each to the bucket its key hashes to under the new size, losing and duplicating nothing |
| Buckets.MoveBuckets | hashtable.c:244-256 | the outer rehash loop moves every old bucket's entries in this way |
| Buckets.MapOfAdd | hashtable.c:187-193 | adding an entry for a new key adds exactly that binding to the map the entries stand for |
| Buckets.MapOfRemove | hashtable.c:210-217 | removing a stored entry removes exactly its key from that map |
| Buckets.MapOfSwap | hashtable.c:180-181 | replacing an entry by one with the same key rebinds that key and changes nothing else |
| Buckets.MapOfSize | hashtable.c:144-146 | with distinct keys, the number of entries is the number of keys in the map |
| HashTable.KeysPairwiseDistinct | hashtable.c:179-193 | in a valid table no two stored entries share a key |
| HashTable.FindAgreesWithContents | hashtable.c:176-185 | scanning the key's bucket finds the key exactly when the table's map holds it, and the entry found carries the mapped value |
| HashTable.Create | hashtable.c:121-127 | `hashtable_create` gives a valid table with the initial size, every bucket empty, count 0, and the empty map |
| HashTable.GetCount | hashtable.c:144-146 | the count is the number of keys the table holds, and 0 for NULL |
| HashTable.GetSize | hashtable.c:148-150 | the size is the number of buckets and a power of two, and 0 for NULL |
| HashTable.OverwriteKeepsValid | hashtable.c:179-183 | overwriting the found entry's value keeps the invariant and rebinds the key |
| HashTable.OverwriteIsLocal | hashtable.c:181 | the overwrite changes only the key's own chain, and that chain keeps its keys in order |
| HashTable.LinkKeepsValid | hashtable.c:187-193 | linking and counting an entry for an absent key keeps the invariant and adds the binding |
| HashTable.UnlinkKeepsValid | hashtable.c:208-218 | unlinking and uncounting the found entry keeps the invariant and removes the key |
| HashTable.GrownKeepsValid | hashtable.c:240-261 | the doubled array built by the rehash loops satisfies the invariant and holds the same entries |
| HashTable.Rehash | hashtable.c:240-261 | `hashtable_rehash` doubles the size, keeps the count and the entries, and so keeps the map; every entry sits in the bucket its key hashes to under the new size |
| HashTable.Insert | hashtable.c:175-201 | the invariant is kept and the map gets `k := v`. The result is true exactly when the key was absent. The count rises by one exactly then. The size doubles exactly when a new key pushes the count past half the size, and stays the same otherwise |
| HashTable.InsertKeepsLoadBounded | hashtable.c:196-198 | growing whenever the count passes half the size keeps the count at most half the size |
| HashTable.InsertLinksAtHead | hashtable.c:187-193 | inserting an absent key without growth puts the new entry at the head of its chain and leaves every other bucket alone |
| HashTable.InsertOverwritesInPlace | hashtable.c:179-183 | inserting a present key changes only its own chain, and that chain keeps its keys in order |
| HashTable.InsertFindsEntry | hashtable.c:179-182 | inserting a present key overwrites the entry at the position the scan finds |
| HashTable.Remove | hashtable.c:203-225 | the invariant is kept and the key is removed from the map. The result is true exactly when the key was present, and the count drops by one exactly then. The size never changes. Removing an absent key changes nothing |
| HashTable.Contains | hashtable.c:227-238 | true exactly when the table is not NULL and holds the key |
| HashTable.Get | hashtable.c:290-301 | returns the stored value when the key is present, and nil when it is absent or the table is NULL |
| HashTable.SetNil | hashtable.c:264-267 | after `hashtable_set_nil` the key maps to nil and no other key changes; as with insert, the count rises by one for a new key, and the size doubles when that new key pushes the count past half the size |
| HashTable.SetBoolean | hashtable.c:269-272 | after `hashtable_set_boolean` the key maps to the boolean value and no other key changes; as with insert, the count rises by one for a new key, and the size doubles when that new key pushes the count past half the size |
| HashTable.SetInteger | hashtable.c:274-277 | after `hashtable_set_integer` the key maps to the integer value and no other key changes; as with insert, the count rises by one for a new key, and the size doubles when that new key pushes the count past half the size |
| HashTable.SetReal | hashtable.c:279-282 | after `hashtable_set_real` the key maps to the real value and no other key changes; as with insert, the count rises by one for a new key, and the size doubles when that new key pushes the count past half the size |
| HashTable.SetCustom | hashtable.c:284-287 | after `hashtable_set_custom` the key maps to the custom value and no other key changes; as with insert, the count rises by one for a new key, and the size doubles when that new key pushes the count past half the size |
| TableProperties.InsertThenLookup | hashtable.c:187-201 | after an insert, `contains` is true for the key and `get` returns the value inserted |
| TableProperties.InsertKeepsOthers | hashtable.c:179-201 | an insert leaves `contains` and `get` unchanged for every other key |
| TableProperties.UpdateTwice | hashtable.c:179-183 | inserting the same key a second time returns false, keeps the count and size, and the last value wins |
| TableProperties.RemoveThenLookup | hashtable.c:203-225 | after a remove, `contains` is false for the key and `get` returns nil |
| TableProperties.RemoveKeepsOthers | hashtable.c:203-225 | a remove leaves `contains` and `get` unchanged for every other key |
| TableProperties.InsertThenRemove | hashtable.c:175-225 | removing a key just inserted into a table that lacked it restores the map and the count |
| TableProperties.LookupReadsContents | hashtable.c:227-238 | on a valid table, `contains` and `get` read the table's map |
| TableProperties.NullTable | hashtable.c:144-150 | on a NULL table, `contains` is false, `get` is nil, and both counters are 0 |
| TableProperties.ScenarioInsert | hashtable.c:175-201 | from an empty table: insert "a" = 1, then "b" = 2.5, then "a" = true. The last insert returns false and the count is 2. "a" reads boolean true, "b" reads 2.5, and "c" is absent |
| TableProperties.ScenarioRemove | hashtable.c:203-225 | continuing the scenario: removing "b" returns true, the count is 1, and "b" then reads nil |

## Left out

- Memory management is not modelled: `malloc`, `calloc` and `free`, unchecked allocation results, and `hashtable_destroy` (hashtable.c:129-142). Tables are immutable values, so destroy has nothing to do.
- `copy_string` (hashtable.c:161-172) is modelled as the key itself, because only a copy of the bytes is made.
- The `double` payload of a real value is an opaque 64-bit pattern (`Real64`), because floating point is not modelled. The constant 2.5 in the scenario is written as its IEEE 754 bits.
- The `void *` payload of a custom value is an opaque `Handle`, because it is never dereferenced.
- `Values.SetNil` returns a plain nil. The C `value_set_nil` writes only the kind, so the stale payload bytes stay in the union. With assertions on, they can only be read through a getter whose `assert` fails.
- The getters `Values.GetBoolean`, `Values.GetInteger`, `Values.GetReal` and `Values.GetCustom` require the matching kind, so the model assumes `assert` is active. Under `NDEBUG` the C getters read the union whatever the kind, and after `value_set_nil` that gives the stale payload bytes.
- The growth test `count > (size_t)(size * 0.5)` is modelled as `count > size / 2`. The two agree on the power-of-two sizes a table can have.
- `HASHTABLE_INITIAL_SIZE` lives in hashtable.h, which is not part of this model. It is taken as 16, a power of two.
- `Fnv.Widen` fixes one convention for the implementation-defined signedness of `char`: `char` is signed, as on x86-64 Linux, so bytes from 0x80 up are sign-extended before the XOR. With an unsigned `char` they would be zero-extended.
- `size_t` overflow of `count`, `size` and `size * 2` is not modelled. Counts and sizes are unbounded naturals, because a table large enough to overflow them cannot be allocated. The hash itself is computed modulo 2^64, exactly.
- NULL `self` is modelled, as `Option<Table>`, only for `hashtable_get`, `hashtable_contains`, `hashtable_get_count` and `hashtable_get_size`. Those are the functions that check for it. `hashtable_create` ignores a NULL `self`, and insert, remove, rehash and the setters dereference it unchecked, so those operations take a `Table`.
- Keys are byte sequences without NUL, which is what a C string is. The empty key is allowed, as the code allows it.
- The scenario is stated for any empty valid table and any three distinct keys. `HashTable.Create` yields such a table, and "a", "b", "c" are such keys.
- There is no concurrency in the source, so none is modelled.
