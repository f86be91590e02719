/**
 * The test suite's scenarios, each run against a fresh `Store`: what each test
 * asserts is stated as the scenario's postcondition. The digests of the distinct
 * payloads are assumed distinct, as SHA-256 makes them.
 */
module Scenarios {
  import opened Base
  import opened Refs
  import opened Index
  import opened Collector
  import opened StoreEngine

  /** 2000-01-01T00:00:00+00:00, the stamp the age test plants. */
  const Y2000: int := 946684800

  /** The payloads `b"one"`, `b"two"`, `b"three"`, `b"old"`, `b"new"`, `b"aaa"`, `b"bbb"`. */
  const ONE: Bytes := [111, 110, 101]
  const TWO: Bytes := [116, 119, 111]
  const THREE: Bytes := [116, 104, 114, 101, 101]
  const OLD: Bytes := [111, 108, 100]
  const NEW: Bytes := [110, 101, 119]
  const AAA: Bytes := [97, 97, 97]
  const BBB: Bytes := [98, 98, 98]

  /** A single read returns the whole payload, and the next one is empty. */
  lemma ReceivedOne(data: Bytes)
    ensures Received([data]) == data
  {
    assert [data][1..] == [];
  }

  /** put, then has, info and get on the returned ref. */
  method PutGetHasInfoRoundTrip(sha256: Bytes -> Digest, data: Bytes, now: int)
    returns (ref: string, found: bool, info: Option<ObjectInfo>, got: Result<Bytes, Ops.Failure>)
    ensures SCHEME <= ref
    ensures found
    ensures info.Some? && info.value.size == |data|
    ensures got == Ok(data)
  {
    var store := new Store(sha256, map[], map[]);
    ReceivedOne(data);
    var h := sha256(data);
    ref := store.Put([data], now);
    assert ref == FormatRef(h) && store.blobs == map[h := data];
    assert store.rows == map[h := Row(|data|, At(now), At(now))];
    Ops.DigestOfFormat(h);
    found := store.Has(ref, now);
    assert store.blobs == map[h := data] && h in store.rows && store.rows[h].size == |data|;
    info := store.Info(ref, now);
    assert store.blobs == map[h := data];
    got := store.Get(ref, now);
  }

  /** A fresh store after putting two payloads with distinct digests. */
  method PutTwo(sha256: Bytes -> Digest, a: Bytes, b: Bytes, now: int) returns (store: Store, refA: string, refB: string)
    requires sha256(a) != sha256(b)
    ensures fresh(store) && store.sha256 == sha256 && store.Valid()
    ensures store.blobs == map[sha256(a) := a, sha256(b) := b]
    ensures store.rows == map[sha256(a) := Row(|a|, At(now), At(now)), sha256(b) := Row(|b|, At(now), At(now))]
    ensures refA == FormatRef(sha256(a)) && refB == FormatRef(sha256(b))
  {
    store := new Store(sha256, map[], map[]);
    ReceivedOne(a);
    ReceivedOne(b);
    refA := store.Put([a], now);
    refB := store.Put([b], now);
  }

  /** The table total of three distinct rows. */
  lemma TotalOfThree(h1: Digest, h2: Digest, h3: Digest, r1: Row, r2: Row, r3: Row)
    requires h1 != h2 && h1 != h3 && h2 != h3
    ensures TableBytes(map[h1 := r1, h2 := r2, h3 := r3]) == r1.size + r2.size + r3.size
  {
    var rows := map[h1 := r1, h2 := r2, h3 := r3];
    TableBytesRemove(rows, h1);
    assert rows - {h1} == map[h2 := r2, h3 := r3];
    TableBytesRemove(rows - {h1}, h2);
    assert rows - {h1} - {h2} == map[h3 := r3];
    TableBytesRemove(rows - {h1} - {h2}, h3);
    assert rows - {h1} - {h2} - {h3} == map[];
  }

  /** Three distinct digests make a table of three rows. */
  lemma CountOfThree(h1: Digest, h2: Digest, h3: Digest, r1: Row, r2: Row, r3: Row)
    requires h1 != h2 && h1 != h3 && h2 != h3
    ensures |map[h1 := r1, h2 := r2, h3 := r3]| == 3
  {
    var rows := map[h1 := r1, h2 := r2, h3 := r3];
    assert rows.Keys == {h1, h2} + {h3};
    assert |{h1, h2}| == 2;
  }

  /** A fresh store after putting `b"one"`, `b"two"` and `b"three"`. */
  method PutThree(sha256: Bytes -> Digest, now: int) returns (store: Store, ref1: string)
    requires sha256(ONE) != sha256(TWO) && sha256(ONE) != sha256(THREE) && sha256(TWO) != sha256(THREE)
    ensures fresh(store) && store.Valid()
    ensures store.blobs == map[sha256(ONE) := ONE, sha256(TWO) := TWO, sha256(THREE) := THREE]
    ensures store.rows == map[sha256(ONE) := Row(3, At(now), At(now)), sha256(TWO) := Row(3, At(now), At(now)),
                              sha256(THREE) := Row(5, At(now), At(now))]
    ensures ref1 == FormatRef(sha256(ONE))
  {
    var ref2;
    store, ref1, ref2 := PutTwo(sha256, ONE, TWO, now);
    ReceivedOne(THREE);
    var ref3 := store.Put([THREE], now);
  }

  /** `list(limit)` on a table of three rows: `limit` of them, each one of the three. */
  method ListOfThree(store: Store, limit: nat, h1: Digest, h2: Digest, h3: Digest) returns (items: seq<ObjectInfo>)
    requires limit <= 3 && h1 != h2 && h1 != h3 && h2 != h3 && store.rows.Keys == {h1, h2, h3}
    ensures |items| == limit
    ensures forall i :: 0 <= i < |items| ==> items[i].hash in {h1, h2, h3}
  {
    assert |store.rows| == 3 by {
      assert |store.rows.Keys| == |{h1, h2, h3}|;
    }
    items := store.List(limit);
    forall i | 0 <= i < |items| ensures items[i].hash in {h1, h2, h3} {
      assert items[i] in items;
    }
  }

  /** Three puts, then stats, list with a limit of 2, and delete of the first ref. */
  method ListStatsDelete(sha256: Bytes -> Digest, now: int)
    returns (stats: StoreStats, items: seq<ObjectInfo>, deleted: Result<bool, Ops.Failure>, stillThere: bool)
    requires sha256(ONE) != sha256(TWO) && sha256(ONE) != sha256(THREE) && sha256(TWO) != sha256(THREE)
    ensures stats == StoreStats(3, |ONE| + |TWO| + |THREE|)
    ensures |items| == 2
    ensures forall i :: 0 <= i < |items| ==> items[i].hash in {sha256(ONE), sha256(TWO), sha256(THREE)}
    ensures deleted == Ok(true) && !stillThere
  {
    var h1, h2, h3 := sha256(ONE), sha256(TWO), sha256(THREE);
    var store, ref1 := PutThree(sha256, now);
    var r1, r2, r3 := Row(3, At(now), At(now)), Row(3, At(now), At(now)), Row(5, At(now), At(now));
    TotalOfThree(h1, h2, h3, r1, r2, r3);
    CountOfThree(h1, h2, h3, r1, r2, r3);
    stats := store.Stats();
    assert stats == StoreStats(3, 11);
    items := ListOfThree(store, 2, h1, h2, h3);
    deleted, stillThere := DeleteThenHas(store, h1, now);
  }

  /** `delete` of the ref of a stored blob succeeds, and `has` then denies it. */
  method DeleteThenHas(store: Store, h: Digest, now: int) returns (deleted: Result<bool, Ops.Failure>, stillThere: bool)
    requires h in store.blobs
    modifies store
    ensures deleted == Ok(true) && !stillThere
  {
    var ref := FormatRef(h);
    Ops.DigestOfFormat(h);
    deleted := store.Delete(ref);
    assert h !in store.blobs;
    stillThere := store.Has(ref, now);
  }

  /** `b"old"` and `b"new"` put at `putTime`, then `_set_last_accessed` of the first to 2000. */
  method PlantOld(sha256: Bytes -> Digest, putTime: int) returns (store: Store, refOld: string, refNew: string)
    requires sha256(OLD) != sha256(NEW)
    ensures fresh(store) && store.Valid()
    ensures store.rows == map[sha256(OLD) := Row(3, At(putTime), At(Y2000)), sha256(NEW) := Row(3, At(putTime), At(putTime))]
    ensures store.blobs.Keys == {sha256(OLD), sha256(NEW)}
    ensures refOld == FormatRef(sha256(OLD)) && refNew == FormatRef(sha256(NEW))
  {
    store, refOld, refNew := PutTwo(sha256, OLD, NEW, putTime);
    var hOld := sha256(OLD);
    var rows := store.rows;
    store.rows := rows[hOld := rows[hOld].(lastAccessed := At(Y2000))];
    assert store.rows.Keys == rows.Keys;
    assert forall h :: h in store.rows ==> store.rows[h].size == rows[h].size;
  }

  /** Of the planted rows, only the one set back to 2000 is older than a day. */
  lemma OnlyPlantedIsOld(hOld: Digest, hNew: Digest, putTime: int, now: int)
    requires hOld != hNew && Y2000 < Cutoff(now, 1) <= putTime
    ensures OldDigests(map[hOld := Row(3, At(putTime), At(Y2000)), hNew := Row(3, At(putTime), At(putTime))],
                       now, Cutoff(now, 1)) == {hOld}
  {
  }

  /** gc with a one-day age limit on the planted store removes the old row and blob only. */
  method CollectAged(store: Store, hOld: Digest, hNew: Digest, putTime: int, now: int) returns (result: GcResult)
    requires hOld != hNew && Y2000 < Cutoff(now, 1) <= putTime && store.Valid()
    requires store.rows == map[hOld := Row(3, At(putTime), At(Y2000)), hNew := Row(3, At(putTime), At(putTime))]
    modifies store
    ensures result.deleted == 1 && store.blobs.Keys == {hNew}
  {
    ghost var before := store.State();
    ghost var ageScan, sizeOrder;
    result, ageScan, sizeOrder := store.Gc(Some(1), None, now := now);
    AgedCollection(before, hOld, hNew, putTime, now, ageScan, sizeOrder);
  }

  /** The live age pass with a one-day limit over the planted table removes just the old row and its blob. */
  lemma AgedCollection(db: Db, hOld: Digest, hNew: Digest, putTime: int, now: int,
                       ageScan: seq<ObjectInfo>, sizeOrder: seq<ObjectInfo>)
    requires hOld != hNew && Y2000 < Cutoff(now, 1) <= putTime && Consistent(db)
    requires db.rows == map[hOld := Row(3, At(putTime), At(Y2000)), hNew := Row(3, At(putTime), At(putTime))]
    requires Enumerates(ageScan, db.rows)
    ensures var r := Collect(db, Some(1), None, false, now, ageScan, sizeOrder);
      r.deleted == 1 && r.db.blobs.Keys == {hNew}
  {
    var cutoff := Cutoff(now, 1);
    var r := AgeRun(Sweep(db, 0, 0), ageScan, false, now, cutoff);
    assert Collect(db, Some(1), None, false, now, ageScan, sizeOrder) == r;
    OnlyPlantedIsOld(hOld, hNew, putTime, now);
    AgePassRemovesTheOldRows(db, ageScan, now, cutoff);
    assert r.deleted == |{hOld}| == 1;
    assert r.db.blobs == db.blobs - {hOld};
    assert db.blobs.Keys == {hOld, hNew};
  }

  /** Two puts, the first one's `last_accessed` set back to 2000, then gc with a one-day age limit. */
  method GcMaxAge(sha256: Bytes -> Digest, putTime: int, now: int)
    returns (result: GcResult, hasOld: bool, hasNew: bool)
    requires sha256(OLD) != sha256(NEW)
    requires Y2000 < Cutoff(now, 1) <= putTime
    ensures result.deleted == 1 && !hasOld && hasNew
  {
    var hOld, hNew := sha256(OLD), sha256(NEW);
    var store, refOld, refNew := PlantOld(sha256, putTime);
    result := CollectAged(store, hOld, hNew, putTime, now);
    Ops.DigestOfFormat(hOld);
    Ops.DigestOfFormat(hNew);
    hasOld := store.Has(refOld, now);
    hasNew := store.Has(refNew, now);
  }

  /** gc with a size cap of 0 MB on a store of non-empty blobs removes every one of them. */
  method CollectAll(store: Store, now: int) returns (result: GcResult)
    requires store.Valid() && store.rows != map[]
    requires forall h :: h in store.rows ==> store.rows[h].size > 0
    modifies store
    ensures result.deleted >= 1 && store.blobs == map[]
  {
    ghost var ageScan, sizeOrder;
    result, ageScan, sizeOrder := store.Gc(None, Some(0), false, now);
  }

  /** Two puts, then gc with a size cap of 0 MB: everything goes. */
  method GcMaxSize(sha256: Bytes -> Digest, now: int) returns (result: GcResult, hasA: bool, hasB: bool)
    requires sha256(AAA) != sha256(BBB)
    ensures result.deleted >= 1 && !hasA && !hasB
  {
    var store, refA, refB := PutTwo(sha256, AAA, BBB, now);
    assert sha256(AAA) in store.rows;
    result := CollectAll(store, now);
    hasA := store.Has(refA, now);
    hasB := store.Has(refB, now);
  }
}
