/**
 Properties that relate several table operations: what a lookup sees after
 an insertion or a removal, repeated updates, growth, and a worked example.
 Each is stated through the public operations only.
 */
module TableProperties {
  import opened Wrappers
  import opened Fnv
  import opened Values
  import opened Buckets
  import opened HashTable

  /** After inserting `k`, the table contains `k` and `get` returns the
      value inserted. */
  lemma InsertThenLookup(t: Table, k: Key, v: Value)
    requires Valid(t)
    ensures var r := Insert(t, k, v).table;
      Contains(Some(r), k) && Get(Some(r), k) == v
  {
    var r := Insert(t, k, v).table;
    assert k in Contents(r) && Contents(r)[k] == v;
    LookupReadsContents(r, k);
  }

  /** Inserting `k` leaves what every other key reads unchanged. */
  lemma InsertKeepsOthers(t: Table, k: Key, v: Value, other: Key)
    requires Valid(t)
    requires other != k
    ensures var r := Insert(t, k, v).table;
      && Contains(Some(r), other) == Contains(Some(t), other)
      && Get(Some(r), other) == Get(Some(t), other)
  {
    var r := Insert(t, k, v).table;
    assert Contents(r) == Contents(t)[k := v];
    SameBindingSameLookup(t, r, other);
  }

  /** `contains` and `get` on a valid table read its map. */
  lemma LookupReadsContents(t: Table, k: Key)
    requires Valid(t)
    ensures Contains(Some(t), k) == (k in Contents(t))
    ensures k in Contents(t) ==> Get(Some(t), k) == Contents(t)[k]
    ensures k !in Contents(t) ==> Get(Some(t), k) == Nil
  {
  }

  /** Two tables that bind `k` alike read alike at `k`. */
  lemma SameBindingSameLookup(t: Table, r: Table, k: Key)
    requires Valid(t) && Valid(r)
    requires k in Contents(t) <==> k in Contents(r)
    requires k in Contents(t) ==> Contents(t)[k] == Contents(r)[k]
    ensures Contains(Some(r), k) == Contains(Some(t), k)
    ensures Get(Some(r), k) == Get(Some(t), k)
  {
    LookupReadsContents(t, k);
    LookupReadsContents(r, k);
  }

  /** Updating a key twice: the second insertion reports an existing key,
      keeps the count, and the last value wins. */
  lemma UpdateTwice(t: Table, k: Key, v1: Value, v2: Value)
    requires Valid(t)
    ensures var r1 := Insert(t, k, v1);
      var r2 := Insert(r1.table, k, v2);
      && !r2.result
      && r2.table.count == r1.table.count
      && r2.table.size == r1.table.size
      && Get(Some(r2.table), k) == v2
  {
  }

  /** After removing `k`, the table does not contain it and `get` reads
      nil. */
  lemma RemoveThenLookup(t: Table, k: Key)
    requires Valid(t)
    ensures var r := Remove(t, k).table;
      !Contains(Some(r), k) && IsNil(Get(Some(r), k))
  {
    var r := Remove(t, k).table;
    assert k !in Contents(r);
    LookupReadsContents(r, k);
  }

  /** Removing `k` leaves what every other key reads unchanged. */
  lemma RemoveKeepsOthers(t: Table, k: Key, other: Key)
    requires Valid(t)
    requires other != k
    ensures var r := Remove(t, k).table;
      && Contains(Some(r), other) == Contains(Some(t), other)
      && Get(Some(r), other) == Get(Some(t), other)
  {
    var r := Remove(t, k).table;
    assert Contents(r) == Contents(t) - {k};
    SameBindingSameLookup(t, r, other);
  }

  /** Removing a key just inserted into a table that lacked it restores the
      table's map and count. */
  lemma InsertThenRemove(t: Table, k: Key, v: Value)
    requires Valid(t)
    requires !Contains(Some(t), k)
    ensures var r1 := Insert(t, k, v);
      var r2 := Remove(r1.table, k);
      && r1.result && r2.result
      && Contents(r2.table) == Contents(t)
      && r2.table.count == t.count
  {
    var m := Contents(t);
    assert m[k := v] - {k} == m;
  }

  /** A NULL table contains nothing, reads nil everywhere, and counts zero. */
  lemma NullTable(k: Key)
    ensures !Contains(None, k) && IsNil(Get(None, k))
    ensures GetCount(None) == 0 && GetSize(None) == 0
  {
  }

  /** Starting from an empty table: insert `a` = integer 1, `b` = real 2.5
      and `a` = true; reports what the lookups then return. `Create()`
      yields such a starting table. */
  method ScenarioInsert(t0: Table, a: Key, b: Key, c: Key)
    returns (t: Table, updated: bool, count: nat, valueA: Value, valueB: Value, hasC: bool)
    requires Valid(t0) && Contents(t0) == map[]
    requires a != b && a != c && b != c
    ensures Valid(t) && Contents(t) == map[a := MakeBoolean(true), b := MakeReal(TwoAndAHalf)]
    ensures !updated && count == 2
    ensures IsBoolean(valueA) && valueA == MakeBoolean(true)
    ensures valueB == MakeReal(TwoAndAHalf) && !hasC
  {
    var t1 := Insert(t0, a, MakeInteger(1)).table;
    var t2 := Insert(t1, b, MakeReal(TwoAndAHalf)).table;
    var o3 := Insert(t2, a, MakeBoolean(true));
    t := o3.table;
    PairMaps(a, b, c, MakeInteger(1), MakeReal(TwoAndAHalf), MakeBoolean(true));
    LookupReadsContents(t, a);
    LookupReadsContents(t, b);
    LookupReadsContents(t, c);
    updated := o3.result;
    count := GetCount(Some(t));
    valueA := Get(Some(t), a);
    valueB := Get(Some(t), b);
    hasC := Contains(Some(t), c);
  }

  /** Continuing the scenario: removing `b` succeeds, leaves one entry, and
      `b` then reads nil. */
  method ScenarioRemove(t: Table, a: Key, b: Key)
    returns (removed: bool, count: nat, valueB: Value)
    requires Valid(t) && Contents(t) == map[a := MakeBoolean(true), b := MakeReal(TwoAndAHalf)]
    requires a != b
    ensures removed && count == 1 && IsNil(valueB)
  {
    var o := Remove(t, b);
    PairMaps(a, b, b, MakeBoolean(true), MakeReal(TwoAndAHalf), MakeBoolean(true));
    LookupReadsContents(o.table, b);
    removed := o.result;
    count := GetCount(Some(o.table));
    valueB := Get(Some(o.table), b);
  }

  /** The maps the scenario passes through. */
  lemma PairMaps(a: Key, b: Key, c: Key, x: Value, y: Value, z: Value)
    requires a != b && a != c
    ensures map[][a := x][b := y][a := z] == map[a := z, b := y]
    ensures |map[a := z, b := y]| == 2 && c !in map[a := z] && (b != c ==> c !in map[a := z, b := y])
    ensures map[a := z, b := y] - {b} == map[a := z] && |map[a := z]| == 1
  {
    RebindFirst(a, b, x, y, z);
    DropSecond(a, b, z, y);
  }

  lemma RebindFirst(a: Key, b: Key, x: Value, y: Value, z: Value)
    requires a != b
    ensures map[][a := x][b := y][a := z] == map[a := z, b := y]
  {
    MapExt(map[][a := x][b := y][a := z], map[a := z, b := y]);
  }

  lemma DropSecond(a: Key, b: Key, z: Value, y: Value)
    requires a != b
    ensures |map[a := z, b := y]| == 2
    ensures map[a := z, b := y] - {b} == map[a := z] && |map[a := z]| == 1
  {
    MapExt(map[a := z, b := y] - {b}, map[a := z]);
    assert map[a := z, b := y].Keys == {a, b};
    assert map[a := z].Keys == {a};
  }

  /** The IEEE 754 double 2.5. */
  const TwoAndAHalf: Real64 := Real64(0x4004_0000_0000_0000)
}
