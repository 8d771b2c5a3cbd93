/**
 Chains of entries and bucket arrays, the storage of hashtable.c, together
 with the abstraction from stored entries to a key-to-value map.

 A C chain is a singly linked list of `struct bucket`; here it is the
 sequence of its entries from the head. A bucket array is a sequence of
 chains. Flattening it lists the entries in the order `hashtable_rehash`
 and `hashtable_destroy` visit them: bucket 0 from its head, then bucket 1,
 and so on.
 */
module Buckets {
  import opened Wrappers
  import opened Fnv
  import opened Values

  /** One chain node: an owned key and its value. */
  datatype Entry = Entry(key: Key, value: Value)

  type Chain = seq<Entry>

  function Flatten(bs: seq<Chain>): seq<Entry>
  {
    if |bs| == 0 then [] else bs[0] + Flatten(bs[1..])
  }

  /** Every entry sits in the bucket its key hashes to. */
  ghost predicate Placed(bs: seq<Chain>)
  {
    forall i, j | 0 <= i < |bs| && 0 <= j < |bs[i]| :: BucketIndex(bs[i][j].key, |bs|) == i
  }

  /** No entry is stored twice and no two entries share a key. */
  ghost predicate UniqueKeys(m: multiset<Entry>)
  {
    && (forall e | e in m :: m[e] == 1)
    && (forall e, f | e in m && f in m && e.key == f.key :: e == f)
  }

  /** The keys of the stored entries. */
  ghost function KeysOf(m: multiset<Entry>): set<Key>
  {
    set e | e in m :: e.key
  }

  /** The value of some stored entry with key `k`. */
  ghost function ValueAt(m: multiset<Entry>, k: Key): Value
    requires k in KeysOf(m)
  {
    var e :| e in m && e.key == k; e.value
  }

  /** The map a collection of entries with distinct keys stands for. */
  ghost function MapOf(m: multiset<Entry>): map<Key, Value>
    requires UniqueKeys(m)
  {
    map k | k in KeysOf(m) :: ValueAt(m, k)
  }

  /** A stored entry's key maps to its value. */
  lemma MapOfAt(m: multiset<Entry>, e: Entry)
    requires UniqueKeys(m)
    requires e in m
    ensures e.key in MapOf(m) && MapOf(m)[e.key] == e.value
  {
    assert e.key in KeysOf(m);
  }

  /** Every key of the map is the key of a stored entry. */
  lemma MapOfKey(m: multiset<Entry>, k: Key) returns (e: Entry)
    requires UniqueKeys(m)
    requires k in MapOf(m)
    ensures e in m && e.key == k && MapOf(m)[k] == e.value
  {
    e :| e in m && e.key == k;
  }

  /** Maps that agree on every key are equal. */
  lemma MapExt(a: map<Key, Value>, b: map<Key, Value>)
    requires forall k | k in a :: k in b && a[k] == b[k]
    requires forall k | k in b :: k in a
    ensures a == b
  {
  }

  lemma NewKeyNotStored(m: multiset<Entry>, k: Key)
    requires UniqueKeys(m)
    requires k !in MapOf(m)
    ensures forall e | e in m :: e.key != k
  {
    forall e | e in m ensures e.key != k {
      MapOfAt(m, e);
    }
  }

  lemma AddKeepsUnique(m: multiset<Entry>, x: Entry)
    requires UniqueKeys(m)
    requires forall e | e in m :: e.key != x.key
    ensures UniqueKeys(m + multiset{x})
  {
    assert x !in m;
  }

  lemma RemoveKeepsUnique(m: multiset<Entry>, x: Entry)
    requires UniqueKeys(m)
    requires x in m
    ensures UniqueKeys(m - multiset{x}) && x !in m - multiset{x}
  {
  }

  /** Adding an entry whose key is new adds exactly that key to the map. */
  lemma MapOfAdd(m: multiset<Entry>, x: Entry)
    requires UniqueKeys(m)
    requires x.key !in MapOf(m)
    ensures UniqueKeys(m + multiset{x})
    ensures MapOf(m + multiset{x}) == MapOf(m)[x.key := x.value]
  {
    NewKeyNotStored(m, x.key);
    AddKeepsUnique(m, x);
    AddedKeys(m, x);
    KeptKeys(m, x);
    MapExt(MapOf(m + multiset{x}), MapOf(m)[x.key := x.value]);
  }

  lemma AddedKeys(m: multiset<Entry>, x: Entry)
    requires UniqueKeys(m) && UniqueKeys(m + multiset{x})
    requires x.key !in MapOf(m)
    ensures forall k | k in MapOf(m + multiset{x}) ::
      k in MapOf(m)[x.key := x.value] && MapOf(m + multiset{x})[k] == MapOf(m)[x.key := x.value][k]
  {
    forall k | k in MapOf(m + multiset{x})
      ensures k in MapOf(m)[x.key := x.value] && MapOf(m + multiset{x})[k] == MapOf(m)[x.key := x.value][k]
    {
      var e := MapOfKey(m + multiset{x}, k);
      if e != x {
        MapOfAt(m, e);
      }
    }
  }

  lemma KeptKeys(m: multiset<Entry>, x: Entry)
    requires UniqueKeys(m) && UniqueKeys(m + multiset{x})
    ensures forall k | k in MapOf(m)[x.key := x.value] :: k in MapOf(m + multiset{x})
  {
    forall k | k in MapOf(m)[x.key := x.value] ensures k in MapOf(m + multiset{x}) {
      if k != x.key {
        var e := MapOfKey(m, k);
        MapOfAt(m + multiset{x}, e);
      } else {
        MapOfAt(m + multiset{x}, x);
      }
    }
  }

  /** Removing a stored entry removes exactly its key from the map. */
  lemma MapOfRemove(m: multiset<Entry>, x: Entry)
    requires UniqueKeys(m)
    requires x in m
    ensures UniqueKeys(m - multiset{x})
    ensures x.key in MapOf(m) && MapOf(m)[x.key] == x.value
    ensures MapOf(m - multiset{x}) == MapOf(m) - {x.key}
  {
    RemoveKeepsUnique(m, x);
    MapOfAt(m, x);
    RemainingKeys(m, x);
    OtherKeys(m, x);
    MapExt(MapOf(m - multiset{x}), MapOf(m) - {x.key});
  }

  lemma RemainingKeys(m: multiset<Entry>, x: Entry)
    requires UniqueKeys(m) && x in m && UniqueKeys(m - multiset{x})
    ensures forall k | k in MapOf(m - multiset{x}) ::
      k in MapOf(m) - {x.key} && MapOf(m - multiset{x})[k] == (MapOf(m) - {x.key})[k]
  {
    forall k | k in MapOf(m - multiset{x})
      ensures k in MapOf(m) - {x.key} && MapOf(m - multiset{x})[k] == (MapOf(m) - {x.key})[k]
    {
      var e := MapOfKey(m - multiset{x}, k);
      MapOfAt(m, e);
    }
  }

  lemma OtherKeys(m: multiset<Entry>, x: Entry)
    requires UniqueKeys(m) && x in m && UniqueKeys(m - multiset{x})
    ensures forall k | k in MapOf(m) - {x.key} :: k in MapOf(m - multiset{x})
  {
    forall k | k in MapOf(m) - {x.key} ensures k in MapOf(m - multiset{x}) {
      var e := MapOfKey(m, k);
      MapOfAt(m - multiset{x}, e);
    }
  }

  /** Swapping a stored entry for one with the same key rebinds the key. */
  lemma MapOfSwap(m: multiset<Entry>, was: Entry, now: Entry)
    requires UniqueKeys(m)
    requires was in m && was.key == now.key
    ensures UniqueKeys((m - multiset{was}) + multiset{now})
    ensures MapOf((m - multiset{was}) + multiset{now}) == MapOf(m)[now.key := now.value]
  {
    var rest := m - multiset{was};
    MapOfRemove(m, was);
    MapOfAdd(rest, now);
    RemoveThenUpdate(MapOf(m), now.key, now.value);
  }

  lemma RemoveThenUpdate(a: map<Key, Value>, k: Key, v: Value)
    ensures (a - {k})[k := v] == a[k := v]
  {
    MapExt((a - {k})[k := v], a[k := v]);
  }

  lemma RemoveAbsent(a: map<Key, Value>, k: Key)
    requires k !in a
    ensures a - {k} == a
  {
    MapExt(a - {k}, a);
  }

  /** With distinct keys, the map has one key per stored entry. */
  lemma {:induction false} MapOfSize(m: multiset<Entry>)
    requires UniqueKeys(m)
    ensures |MapOf(m)| == |m|
    decreases |m|
  {
    if |m| == 0 {
      assert m == multiset{};
      assert MapOf(m) == map[];
    } else {
      var x :| x in m;
      var rest := m - multiset{x};
      MapOfRemove(m, x);
      MapOfSize(rest);
      MapRemoveSize(MapOf(m), x.key);
    }
  }

  lemma MapRemoveSize(a: map<Key, Value>, k: Key)
    requires k in a
    ensures |a - {k}| == |a| - 1
  {
    assert (a - {k}).Keys == a.Keys - {k};
  }

  lemma {:induction false} FlattenSplit(bs: seq<Chain>, i: nat)
    requires i < |bs|
    ensures Flatten(bs) == Flatten(bs[..i]) + bs[i] + Flatten(bs[i + 1..])
    decreases i
  {
    if i == 0 {
      assert bs[..0] == [];
      assert bs[1..] == bs[i + 1..];
    } else {
      var tail := bs[1..];
      FlattenSplit(tail, i - 1);
      assert tail[..i - 1] == bs[..i][1..];
      assert tail[i..] == bs[i + 1..];
      assert tail[i - 1] == bs[i];
    }
  }

  /** Replacing one chain replaces its entries in the flattened multiset and
      changes nothing else. */
  lemma FlattenReplace(bs: seq<Chain>, i: nat, c: Chain)
    requires i < |bs|
    ensures multiset(Flatten(bs[i := c])) + multiset(bs[i]) == multiset(Flatten(bs)) + multiset(c)
  {
    var bs' := bs[i := c];
    FlattenSplit(bs, i);
    FlattenSplit(bs', i);
    assert bs'[..i] == bs[..i];
    assert bs'[i + 1..] == bs[i + 1..];
  }

  lemma {:induction false} FlattenEmpty(bs: seq<Chain>)
    requires forall i | 0 <= i < |bs| :: bs[i] == []
    ensures Flatten(bs) == []
    decreases |bs|
  {
    if |bs| > 0 {
      FlattenEmpty(bs[1..]);
    }
  }

  /** Every stored entry appears in the flattened array. */
  lemma {:induction false} InFlatten(bs: seq<Chain>, i: nat, j: nat)
    requires i < |bs| && j < |bs[i]|
    ensures bs[i][j] in multiset(Flatten(bs))
  {
    FlattenSplit(bs, i);
    assert bs[i][j] in bs[i];
  }

  /** Every entry of the flattened array is stored at some position. */
  lemma {:induction false} LocateInFlatten(bs: seq<Chain>, e: Entry) returns (i: nat, j: nat)
    requires e in Flatten(bs)
    ensures i < |bs| && j < |bs[i]| && bs[i][j] == e
    decreases |bs|
  {
    if e in bs[0] {
      i := 0;
      j :| 0 <= j < |bs[0]| && bs[0][j] == e;
    } else {
      var i', j' := LocateInFlatten(bs[1..], e);
      i, j := i' + 1, j';
    }
  }

  /** Chains that differ only in the value at one position hold the same
      keys at every position. */
  ghost predicate SameKeys(c: Chain, d: Chain)
  {
    |c| == |d| && forall j | 0 <= j < |c| :: c[j].key == d[j].key
  }

  /** Overwriting an entry with one of the same key keeps the keys. */
  lemma UpdateKeepsKeys(c: Chain, p: nat, e: Entry)
    requires p < |c| && c[p].key == e.key
    ensures SameKeys(c[p := e], c)
  {
  }

  /** The first position in `chain` holding key `k`: the scan of every
      table operation, which compares keys with `strcmp` from the head on. */
  function FindKey(chain: Chain, k: Key): (r: Option<nat>)
    ensures r.Some? ==> r.value < |chain| && chain[r.value].key == k
    ensures r.Some? ==> forall j | 0 <= j < r.value :: chain[j].key != k
    ensures r.None? <==> forall j | 0 <= j < |chain| :: chain[j].key != k
    decreases |chain|
  {
    if |chain| == 0 then None
    else if chain[0].key == k then Some(0)
    else match FindKey(chain[1..], k)
      case None => None
      case Some(p) => Some(p + 1)
  }

  /** Links `e` at the head of its key's chain: the splice in
      `hashtable_insert` and in the rehash loop. No other chain changes. */
  function Link(bs: seq<Chain>, e: Entry): (r: seq<Chain>)
    requires |bs| > 0
    ensures |r| == |bs|
    ensures r[BucketIndex(e.key, |bs|)] == [e] + bs[BucketIndex(e.key, |bs|)]
    ensures forall i | 0 <= i < |bs| && i != BucketIndex(e.key, |bs|) :: r[i] == bs[i]
  {
    var i := BucketIndex(e.key, |bs|);
    bs[i := [e] + bs[i]]
  }

  /** Overwriting one position of a chain swaps one entry for another. */
  lemma UpdateSwapsEntry(c: Chain, p: nat, y: Entry)
    requires p < |c|
    ensures multiset(c[p := y]) + multiset{c[p]} == multiset(c) + multiset{y}
  {
    assert c == c[..p] + [c[p]] + c[p + 1..];
    assert c[p := y] == c[..p] + [y] + c[p + 1..];
  }

  /** The multiset form of swapping one stored entry for another. */
  lemma SwapEntry(m: multiset<Entry>, m': multiset<Entry>, was: Entry, now: Entry)
    requires m' + multiset{was} == m + multiset{now}
    requires was in m
    ensures m' == (m - multiset{was}) + multiset{now}
  {
    forall x ensures m'[x] == ((m - multiset{was}) + multiset{now})[x] {
      assert (m' + multiset{was})[x] == (m + multiset{now})[x];
    }
  }

  /** Linking keeps every entry, the new one included, in its bucket. */
  lemma LinkKeepsPlaced(bs: seq<Chain>, e: Entry)
    requires |bs| > 0 && Placed(bs)
    ensures Placed(Link(bs, e))
  {
    var i := BucketIndex(e.key, |bs|);
    ReplaceChainPlaced(bs, i, [e] + bs[i]);
  }

  /** Linking adds exactly the new entry to the stored entries. */
  lemma LinkAddsEntry(bs: seq<Chain>, e: Entry)
    requires |bs| > 0
    ensures multiset(Flatten(Link(bs, e))) == multiset(Flatten(bs)) + multiset{e}
  {
    var i := BucketIndex(e.key, |bs|);
    assert multiset([e] + bs[i]) == multiset{e} + multiset(bs[i]);
    ReplaceChainEntries(bs, i, [e] + bs[i], multiset{e}, multiset{});
  }

  /** Replacing chain `i` by one with `added` more and `removed` fewer
      entries changes the flattened multiset by exactly that. */
  lemma ReplaceChainEntries(bs: seq<Chain>, i: nat, c: Chain, added: multiset<Entry>, removed: multiset<Entry>)
    requires i < |bs|
    requires multiset(c) + removed == multiset(bs[i]) + added
    ensures multiset(Flatten(bs[i := c])) + removed == multiset(Flatten(bs)) + added
  {
    var m', m := multiset(Flatten(bs[i := c])), multiset(Flatten(bs));
    FlattenReplace(bs, i, c);
    forall x ensures (m' + removed)[x] == (m + added)[x] {
      assert (m' + multiset(bs[i]))[x] == (m + multiset(c))[x];
      assert (multiset(c) + removed)[x] == (multiset(bs[i]) + added)[x];
    }
    assert m' + removed == m + added;
  }

  /** Replacing chain `i` by one whose keys all hash to `i` keeps every
      entry in its bucket. */
  lemma ReplaceChainPlaced(bs: seq<Chain>, i: nat, c: Chain)
    requires i < |bs|
    requires Placed(bs) ==> forall j | 0 <= j < |c| :: BucketIndex(c[j].key, |bs|) == i
    ensures Placed(bs) ==> Placed(bs[i := c])
  {
  }

  /** Unlinks the entry at position `p`: at the head the bucket takes the
      successor, otherwise the predecessor does. */
  function Unlink(chain: Chain, p: nat): (r: Chain)
    requires p < |chain|
    ensures |r| == |chain| - 1
    ensures forall j | 0 <= j < p :: r[j] == chain[j]
    ensures forall j | p <= j < |r| :: r[j] == chain[j + 1]
    ensures multiset(r) + multiset{chain[p]} == multiset(chain)
  {
    assert chain == chain[..p] + [chain[p]] + chain[p + 1..];
    if p == 0 then chain[1..] else chain[..p] + chain[p + 1..]
  }

  /** Unlinking one entry from chain `i` drops exactly that entry. */
  lemma UnlinkEntries(bs: seq<Chain>, i: nat, p: nat)
    requires i < |bs| && p < |bs[i]|
    ensures multiset(Flatten(bs[i := Unlink(bs[i], p)])) == multiset(Flatten(bs)) - multiset{bs[i][p]}
  {
    var x := bs[i][p];
    var m', m := multiset(Flatten(bs[i := Unlink(bs[i], p)])), multiset(Flatten(bs));
    ReplaceChainEntries(bs, i, Unlink(bs[i], p), multiset{}, multiset{x});
    assert m' + multiset{x} == m;
    assert m' == (m' + multiset{x}) - multiset{x};
  }

  /** A value at two positions of a sequence occurs at least twice. */
  lemma TwoPositions(s: seq<Entry>, i: nat, j: nat)
    requires i < j < |s| && s[i] == s[j]
    ensures multiset(s)[s[i]] >= 2
  {
    assert s == s[..j] + [s[j]] + s[j + 1..];
    assert s[i] == s[..j][i];
    assert s[i] in multiset(s[..j]);
  }

  /** The inner loop of `hashtable_rehash`: moves a chain's entries, head
      first, to the heads of their chains in `nb`. */
  function MoveChain(nb: seq<Chain>, chain: Chain): (r: seq<Chain>)
    requires |nb| > 0 && Placed(nb)
    ensures |r| == |nb| && Placed(r)
    ensures multiset(Flatten(r)) == multiset(Flatten(nb)) + multiset(chain)
    decreases |chain|
  {
    if |chain| == 0 then nb
    else
      assert chain == [chain[0]] + chain[1..];
      LinkAddsEntry(nb, chain[0]);
      LinkKeepsPlaced(nb, chain[0]);
      MoveChain(Link(nb, chain[0]), chain[1..])
  }

  /** The outer loop of `hashtable_rehash`: moves every chain of `bs`, from
      bucket 0 up, into `nb`. */
  function MoveBuckets(nb: seq<Chain>, bs: seq<Chain>): (r: seq<Chain>)
    requires |nb| > 0 && Placed(nb)
    ensures |r| == |nb| && Placed(r)
    ensures multiset(Flatten(r)) == multiset(Flatten(nb)) + multiset(Flatten(bs))
    decreases |bs|
  {
    if |bs| == 0 then nb
    else MoveBuckets(MoveChain(nb, bs[0]), bs[1..])
  }
}
