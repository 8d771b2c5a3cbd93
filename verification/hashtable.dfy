/**
 The string-keyed chained hash table of hashtable.c.

 A table is its bucket array, its entry count and its size. `Valid` is the
 invariant every operation keeps: the size is a power of two equal to the
 number of buckets, the count is the number of chained entries, every entry
 sits in the bucket its key hashes to, and no key is stored twice.
 `Contents` abstracts a valid table to the map from keys to values it
 stands for; every operation's contract is stated as a change to that map.

 The C functions take a `struct hashtable *`. `hashtable_get`,
 `hashtable_contains` and the two counters check it against NULL, modelled
 here by an `Option<Table>`; the other operations do not, and take a
 `Table`.
 */
module HashTable {
  import opened Wrappers
  import opened Fnv
  import opened Values
  import opened Buckets

  /** `HASHTABLE_INITIAL_SIZE`, the bucket count of a new table. */
  const InitialSize: nat := 16

  /** The growth threshold `(size_t)(size * 0.5)`: on the power-of-two
      sizes a table has, half the size exactly. */
  function GrowthThreshold(size: nat): nat
  {
    size / 2
  }

  lemma ThresholdOfDouble(n: nat)
    ensures GrowthThreshold(2 * n) == n
  {
  }

  datatype Table = Table(buckets: seq<Chain>, count: nat, size: nat)

  /** A table after an operation, and the `bool` the C function returns. */
  datatype Outcome = Outcome(table: Table, result: bool)

  predicate IsPowerOfTwo(n: nat)
    decreases n
  {
    n == 1 || (n >= 2 && n % 2 == 0 && IsPowerOfTwo(n / 2))
  }

  lemma DoubleIsPowerOfTwo(n: nat)
    requires IsPowerOfTwo(n)
    ensures IsPowerOfTwo(2 * n)
  {
    assert (2 * n) / 2 == n;
  }

  ghost predicate Valid(t: Table)
  {
    && IsPowerOfTwo(t.size)
    && |t.buckets| == t.size
    && t.count == |Flatten(t.buckets)|
    && Placed(t.buckets)
    && UniqueKeys(multiset(Flatten(t.buckets)))
  }

  /** The load factor never exceeds one half between operations. */
  predicate LoadBounded(t: Table)
  {
    t.count <= GrowthThreshold(t.size)
  }

  /** The stored entries, with multiplicity. */
  ghost function Entries(t: Table): multiset<Entry>
  {
    multiset(Flatten(t.buckets))
  }

  /** The map a valid table stands for. */
  ghost function Contents(t: Table): map<Key, Value>
    requires Valid(t)
  {
    MapOf(Entries(t))
  }

  /** Positions in the flattened table hold pairwise distinct keys. */
  lemma KeysPairwiseDistinct(t: Table, i: nat, j: nat)
    requires Valid(t)
    requires i < j < |Flatten(t.buckets)|
    ensures Flatten(t.buckets)[i].key != Flatten(t.buckets)[j].key
  {
    var s := Flatten(t.buckets);
    if s[i].key == s[j].key {
      assert s[i] in multiset(s) && s[j] in multiset(s);
      TwoPositions(s, i, j);
      assert false;
    }
  }

  /** Scanning the key's chain finds the key exactly when the table holds
      it, and the entry found carries the key's value. */
  lemma FindAgreesWithContents(t: Table, k: Key)
    requires Valid(t)
    ensures var c := t.buckets[BucketIndex(k, t.size)];
      && (FindKey(c, k).Some? <==> k in Contents(t))
      && (FindKey(c, k).Some? ==> c[FindKey(c, k).value] == Entry(k, Contents(t)[k]))
  {
    var i := BucketIndex(k, t.size);
    var c := t.buckets[i];
    match FindKey(c, k)
    case Some(p) =>
      InFlatten(t.buckets, i, p);
      MapOfAt(Entries(t), c[p]);
    case None =>
      if k in Contents(t) {
        var e := MapOfKey(Entries(t), k);
        var i', j := LocateInFlatten(t.buckets, e);
        assert false;
      }
  }

  /** `hashtable_create`: all buckets empty, nothing counted. */
  function Create(): (t: Table)
    ensures Valid(t) && LoadBounded(t)
    ensures t.count == 0 && t.size == InitialSize
    ensures forall i | 0 <= i < |t.buckets| :: t.buckets[i] == []
    ensures Contents(t) == map[]
  {
    var buckets := EmptyBuckets(InitialSize);
    MapExt(MapOf(multiset{}), map[]);
    Table(buckets, 0, InitialSize)
  }

  /** `hashtable_get_count`. */
  function GetCount(t: Option<Table>): (n: nat)
    requires t.Some? ==> Valid(t.value)
    ensures t.None? ==> n == 0
    ensures t.Some? ==> n == |Contents(t.value)|
  {
    if t.None? then 0
    else
      MapOfSize(Entries(t.value));
      t.value.count
  }

  /** `hashtable_get_size`. */
  function GetSize(t: Option<Table>): (n: nat)
    requires t.Some? ==> Valid(t.value)
    ensures t.None? ==> n == 0
    ensures t.Some? ==> n == |t.value.buckets| && IsPowerOfTwo(n)
  {
    if t.None? then 0 else t.value.size
  }

  /** The table after the entry found for `k` at position `p` of its chain
      has its value overwritten (`current->value = value`). */
  function Overwrite(t: Table, k: Key, v: Value, p: nat): Table
    requires Valid(t)
    requires p < |t.buckets[BucketIndex(k, t.size)]|
  {
    var i := BucketIndex(k, t.size);
    t.(buckets := t.buckets[i := t.buckets[i][p := Entry(k, v)]])
  }

  /** Overwriting keeps the bucket array's shape: the key's chain keeps its
      keys and every other bucket is untouched. */
  lemma OverwriteIsLocal(t: Table, k: Key, v: Value, p: nat)
    requires Valid(t)
    requires p < |t.buckets[BucketIndex(k, t.size)]|
    requires t.buckets[BucketIndex(k, t.size)][p].key == k
    ensures var i := BucketIndex(k, t.size); var r := Overwrite(t, k, v, p);
      && |r.buckets| == |t.buckets|
      && SameKeys(r.buckets[i], t.buckets[i])
      && (forall j | 0 <= j < t.size && j != i :: r.buckets[j] == t.buckets[j])
  {
    UpdateKeepsKeys(t.buckets[BucketIndex(k, t.size)], p, Entry(k, v));
  }

  lemma OverwriteSwapsEntry(t: Table, k: Key, v: Value, p: nat)
    requires Valid(t)
    requires FindKey(t.buckets[BucketIndex(k, t.size)], k) == Some(p)
    ensures var was := t.buckets[BucketIndex(k, t.size)][p];
      && was in Entries(t) && was.key == k
      && Entries(Overwrite(t, k, v, p)) == (Entries(t) - multiset{was}) + multiset{Entry(k, v)}
  {
    var i := BucketIndex(k, t.size);
    var c := t.buckets[i];
    var was := c[p];
    UpdateSwapsEntry(c, p, Entry(k, v));
    ReplaceChainEntries(t.buckets, i, c[p := Entry(k, v)], multiset{Entry(k, v)}, multiset{was});
    InFlatten(t.buckets, i, p);
    SwapEntry(Entries(t), Entries(Overwrite(t, k, v, p)), was, Entry(k, v));
  }

  lemma OverwriteKeepsPlaced(t: Table, k: Key, v: Value, p: nat)
    requires Valid(t)
    requires FindKey(t.buckets[BucketIndex(k, t.size)], k) == Some(p)
    ensures Placed(Overwrite(t, k, v, p).buckets)
  {
    var i := BucketIndex(k, t.size);
    ReplaceChainPlaced(t.buckets, i, t.buckets[i][p := Entry(k, v)]);
  }

  /** Overwriting the value of the entry found for `k` keeps the table valid
      and rebinds `k`. */
  lemma OverwriteKeepsValid(t: Table, k: Key, v: Value, p: nat)
    requires Valid(t)
    requires FindKey(t.buckets[BucketIndex(k, t.size)], k) == Some(p)
    ensures Valid(Overwrite(t, k, v, p))
    ensures Contents(Overwrite(t, k, v, p)) == Contents(t)[k := v]
  {
    var was := t.buckets[BucketIndex(k, t.size)][p];
    OverwriteSwapsEntry(t, k, v, p);
    OverwriteKeepsPlaced(t, k, v, p);
    MapOfSwap(Entries(t), was, Entry(k, v));
  }

  /** The table after a new entry for `k` is linked at the head of its chain
      and counted. */
  function Linked(t: Table, k: Key, v: Value): Table
    requires Valid(t)
  {
    t.(buckets := Link(t.buckets, Entry(k, v)), count := t.count + 1)
  }

  /** Linking a new entry for an absent key keeps the table valid and binds
      `k`. */
  lemma LinkKeepsValid(t: Table, k: Key, v: Value)
    requires Valid(t)
    requires k !in Contents(t)
    ensures Valid(Linked(t, k, v))
    ensures Contents(Linked(t, k, v)) == Contents(t)[k := v]
  {
    var l := Linked(t, k, v);
    LinkKeepsPlaced(t.buckets, Entry(k, v));
    LinkAddsEntry(t.buckets, Entry(k, v));
    MapOfAdd(Entries(t), Entry(k, v));
    assert |Flatten(l.buckets)| == |Entries(l)| == |Entries(t)| + 1;
  }

  /** The table after the entry found for `k` at position `p` of its chain
      is unlinked and uncounted. */
  function Unlinked(t: Table, k: Key, p: nat): Table
    requires Valid(t)
    requires p < |t.buckets[BucketIndex(k, t.size)]|
    requires t.count >= 1
  {
    var i := BucketIndex(k, t.size);
    t.(buckets := t.buckets[i := Unlink(t.buckets[i], p)], count := t.count - 1)
  }

  lemma FoundIsCounted(t: Table, k: Key, p: nat)
    requires Valid(t)
    requires p < |t.buckets[BucketIndex(k, t.size)]|
    ensures t.buckets[BucketIndex(k, t.size)][p] in Entries(t)
    ensures t.count >= 1
  {
    InFlatten(t.buckets, BucketIndex(k, t.size), p);
  }

  lemma UnlinkDropsEntry(t: Table, k: Key, p: nat)
    requires Valid(t)
    requires p < |t.buckets[BucketIndex(k, t.size)]| && t.count >= 1
    ensures Entries(Unlinked(t, k, p)) == Entries(t) - multiset{t.buckets[BucketIndex(k, t.size)][p]}
  {
    UnlinkEntries(t.buckets, BucketIndex(k, t.size), p);
  }

  lemma UnlinkKeepsPlaced(t: Table, k: Key, p: nat)
    requires Valid(t)
    requires p < |t.buckets[BucketIndex(k, t.size)]| && t.count >= 1
    ensures Placed(Unlinked(t, k, p).buckets)
  {
    var i := BucketIndex(k, t.size);
    ReplaceChainPlaced(t.buckets, i, Unlink(t.buckets[i], p));
  }

  /** Unlinking the entry found for `k` keeps the table valid and unbinds
      `k`. */
  lemma UnlinkKeepsValid(t: Table, k: Key, p: nat)
    requires Valid(t)
    requires FindKey(t.buckets[BucketIndex(k, t.size)], k) == Some(p)
    ensures t.count >= 1
    ensures Valid(Unlinked(t, k, p))
    ensures Contents(Unlinked(t, k, p)) == Contents(t) - {k}
  {
    var x := t.buckets[BucketIndex(k, t.size)][p];
    FoundIsCounted(t, k, p);
    var u := Unlinked(t, k, p);
    UnlinkDropsEntry(t, k, p);
    UnlinkKeepsPlaced(t, k, p);
    MapOfRemove(Entries(t), x);
    assert |Flatten(u.buckets)| == |Entries(u)| == |Entries(t)| - 1;
    assert x.key == k;
  }

  /** A bucket array of `n` empty chains. */
  function EmptyBuckets(n: nat): (bs: seq<Chain>)
    ensures |bs| == n && Placed(bs)
    ensures Flatten(bs) == []
  {
    var bs: seq<Chain> := seq(n, _ => []);
    FlattenEmpty(bs);
    bs
  }

  /** The table `hashtable_rehash` builds: twice the buckets, every entry
      moved from the old array, bucket by bucket. */
  function Grown(t: Table): Table
    requires Valid(t)
  {
    Table(MoveBuckets(EmptyBuckets(2 * t.size), t.buckets), t.count, 2 * t.size)
  }

  lemma GrownEntries(t: Table)
    requires Valid(t)
    ensures Entries(Grown(t)) == Entries(t)
    ensures |Grown(t).buckets| == Grown(t).size && Placed(Grown(t).buckets)
  {
  }

  lemma GrownKeepsValid(t: Table)
    requires Valid(t)
    ensures Valid(Grown(t))
    ensures Entries(Grown(t)) == Entries(t)
  {
    var g := Grown(t);
    GrownEntries(t);
    DoubleIsPowerOfTwo(t.size);
    assert |Flatten(g.buckets)| == |Entries(g)| == |Entries(t)|;
  }

  /** `hashtable_rehash`: a bucket array twice as large, every entry moved to
      the head of the chain its key hashes to under the new size. */
  function Rehash(t: Table): (r: Table)
    requires Valid(t)
    ensures Valid(r)
    ensures r.size == 2 * t.size && r.count == t.count
    ensures Entries(r) == Entries(t)
    ensures Contents(r) == Contents(t)
  {
    GrownKeepsValid(t);
    Grown(t)
  }

  /** `hashtable_insert`. An existing key has its value overwritten in
      place and the result is false; an absent key is linked at the head of
      its chain, counted, and the table grows if the count now exceeds the
      threshold; the result is true. */
  function Insert(t: Table, k: Key, v: Value): (r: Outcome)
    requires Valid(t)
    ensures Valid(r.table)
    ensures Contents(r.table) == Contents(t)[k := v]
    ensures r.result <==> k !in Contents(t)
    ensures r.table.count == if r.result then t.count + 1 else t.count
    ensures r.table.size == if r.result && t.count + 1 > GrowthThreshold(t.size) then 2 * t.size else t.size
  {
    var i := BucketIndex(k, t.size);
    FindAgreesWithContents(t, k);
    match FindKey(t.buckets[i], k)
    case Some(p) =>
      OverwriteKeepsValid(t, k, v, p);
      Outcome(Overwrite(t, k, v, p), false)
    case None =>
      LinkKeepsValid(t, k, v);
      var linked := Linked(t, k, v);
      if linked.count > GrowthThreshold(linked.size) then Outcome(Rehash(linked), true)
      else Outcome(linked, true)
  }

  /** Growing whenever the count would pass half the size keeps the load
      factor at most one half. */
  lemma InsertKeepsLoadBounded(t: Table, k: Key, v: Value)
    requires Valid(t) && LoadBounded(t)
    ensures LoadBounded(Insert(t, k, v).table)
  {
    ThresholdOfDouble(t.size);
  }

  /** An insertion of an absent key that does not grow the table links
      the new entry at the head of the key's chain and leaves every other
      bucket alone. */
  lemma InsertLinksAtHead(t: Table, k: Key, v: Value)
    requires Valid(t)
    requires k !in Contents(t) && t.count + 1 <= GrowthThreshold(t.size)
    ensures var r := Insert(t, k, v).table;
      var i := BucketIndex(k, t.size);
      && r.buckets[i] == [Entry(k, v)] + t.buckets[i]
      && (forall j | 0 <= j < t.size && j != i :: r.buckets[j] == t.buckets[j])
  {
    FindAgreesWithContents(t, k);
    assert Insert(t, k, v).table == Linked(t, k, v);
  }

  /** An insertion of a present key overwrites the value where the entry
      is: the key's chain keeps its keys in order and every other bucket is
      left alone. */
  lemma InsertOverwritesInPlace(t: Table, k: Key, v: Value)
    requires Valid(t)
    requires k in Contents(t)
    ensures var r := Insert(t, k, v).table;
      var i := BucketIndex(k, t.size);
      && SameKeys(r.buckets[i], t.buckets[i])
      && (forall j | 0 <= j < t.size && j != i :: r.buckets[j] == t.buckets[j])
  {
    var p := InsertFindsEntry(t, k, v);
    OverwriteIsLocal(t, k, v, p);
  }

  /** An insertion of a present key is the overwrite at the position the
      scan finds. */
  lemma InsertFindsEntry(t: Table, k: Key, v: Value) returns (p: nat)
    requires Valid(t)
    requires k in Contents(t)
    ensures FindKey(t.buckets[BucketIndex(k, t.size)], k) == Some(p)
    ensures Insert(t, k, v).table == Overwrite(t, k, v, p)
  {
    FindAgreesWithContents(t, k);
    p := FindKey(t.buckets[BucketIndex(k, t.size)], k).value;
  }

  /** `hashtable_remove`: unlinks the key's entry and uncounts it (result
      true), or changes nothing (result false). The table never shrinks. */
  function Remove(t: Table, k: Key): (r: Outcome)
    requires Valid(t)
    ensures Valid(r.table)
    ensures Contents(r.table) == Contents(t) - {k}
    ensures r.result <==> k in Contents(t)
    ensures r.table.count == if r.result then t.count - 1 else t.count
    ensures r.table.size == t.size
    ensures !r.result ==> r.table == t
    ensures LoadBounded(t) ==> LoadBounded(r.table)
  {
    var i := BucketIndex(k, t.size);
    var chain := t.buckets[i];
    FindAgreesWithContents(t, k);
    match FindKey(chain, k)
    case Some(p) =>
      UnlinkKeepsValid(t, k, p);
      Outcome(Unlinked(t, k, p), true)
    case None =>
      RemoveAbsent(Contents(t), k);
      Outcome(t, false)
  }

  /** `hashtable_contains`: false for a NULL table. */
  function Contains(t: Option<Table>, k: Key): (r: bool)
    requires t.Some? ==> Valid(t.value)
    ensures r <==> t.Some? && k in Contents(t.value)
  {
    if t.None? then false
    else
      FindAgreesWithContents(t.value, k);
      FindKey(t.value.buckets[BucketIndex(k, t.value.size)], k).Some?
  }

  /** `hashtable_get`: the stored value, or nil when the key is absent or
      the table is NULL. */
  function Get(t: Option<Table>, k: Key): (r: Value)
    requires t.Some? ==> Valid(t.value)
    ensures t.Some? && k in Contents(t.value) ==> r == Contents(t.value)[k]
    ensures !(t.Some? && k in Contents(t.value)) ==> IsNil(r)
  {
    if t.None? then MakeNil()
    else
      var c := t.value.buckets[BucketIndex(k, t.value.size)];
      FindAgreesWithContents(t.value, k);
      match FindKey(c, k)
      case Some(p) => c[p].value
      case None => MakeNil()
  }

  // The typed convenience setters: each builds the value it names and
  // inserts it, discarding the insertion's result.

  /** What a setter leaves: `k` bound to `x`, the count raised for a new
      key, and the size doubled when that new key passes the threshold. */
  ghost predicate Sets(t: Table, k: Key, x: Value, r: Table)
    requires Valid(t)
  {
    && Valid(r)
    && Contents(r) == Contents(t)[k := x]
    && r.count == (if k in Contents(t) then t.count else t.count + 1)
    && r.size == (if k !in Contents(t) && t.count + 1 > GrowthThreshold(t.size) then 2 * t.size else t.size)
  }

  function SetNil(t: Table, k: Key): (r: Table)
    requires Valid(t)
    ensures Sets(t, k, MakeNil(), r)
  {
    Insert(t, k, MakeNil()).table
  }

  function SetBoolean(t: Table, k: Key, b: bool): (r: Table)
    requires Valid(t)
    ensures Sets(t, k, MakeBoolean(b), r)
  {
    Insert(t, k, MakeBoolean(b)).table
  }

  function SetInteger(t: Table, k: Key, i: int64): (r: Table)
    requires Valid(t)
    ensures Sets(t, k, MakeInteger(i), r)
  {
    Insert(t, k, MakeInteger(i)).table
  }

  function SetReal(t: Table, k: Key, x: Real64): (r: Table)
    requires Valid(t)
    ensures Sets(t, k, MakeReal(x), r)
  {
    Insert(t, k, MakeReal(x)).table
  }

  function SetCustom(t: Table, k: Key, p: Handle): (r: Table)
    requires Valid(t)
    ensures Sets(t, k, MakeCustom(p), r)
  {
    Insert(t, k, MakeCustom(p)).table
  }
}
