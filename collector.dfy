/**
 * `gc`: an age pass over every row, then an LRU size pass, as folds over the rows
 * the two SELECTs return. The `Store` class runs them as loops; the lemmas here
 * say which rows go, in which order, and what dry-run leaves untouched.
 */
module Collector {
  import opened Base
  import opened Refs
  import opened Index
  import opened Ops

  const SECONDS_PER_DAY: int := 86400
  const BYTES_PER_MB: int := 1024 * 1024

  /** Progress of a sweep: the state so far and the counters `deleted` and `freed_bytes`. */
  datatype Sweep = Sweep(db: Db, deleted: nat, freed: nat)

  /** The size pass also carries its running `total`. */
  datatype SizeSweep = SizeSweep(sweep: Sweep, total: int)

  /** `now.timestamp() - max_age_days * 86400`: the instant `max_age_days` whole days before now. */
  function Cutoff(now: int, maxAgeDays: int): (c: int)
    ensures now - c == maxAgeDays * SECONDS_PER_DAY
    ensures c <= now <==> maxAgeDays >= 0
  {
    now - maxAgeDays * SECONDS_PER_DAY
  }

  /** The parsed `last_accessed`; text that does not parse counts as `now`. */
  function LastSeen(stamp: Stamp, now: int): (t: int)
    ensures stamp.At? ==> t == stamp.seconds
    ensures stamp == Unparseable ==> t == now
  {
    match stamp
    case At(t) => t
    case Unparseable => now
  }

  predicate Expired(e: ObjectInfo, now: int, cutoff: int) {
    LastSeen(e.lastAccessed, now) < cutoff
  }

  /** Blob file first, then the row: what both passes do to a row they evict. */
  function Evict(db: Db, h: Digest): Db {
    Db(db.blobs - {h}, db.rows - {h})
  }

  // ---- the age pass ----

  /** One row of the age loop: an expired row is counted (and, live, evicted) unless its blob is gone. */
  function AgeStep(s: Sweep, e: ObjectInfo, dryRun: bool, now: int, cutoff: int): (r: Sweep)
    ensures r == s || (Expired(e, now, cutoff) && r.deleted == s.deleted + 1 && r.freed == s.freed + e.size)
    ensures dryRun ==> r.db == s.db
    ensures !Expired(e, now, cutoff) ==> r == s
  {
    if !Expired(e, now, cutoff) then s
    else if dryRun then Sweep(s.db, s.deleted + 1, s.freed + e.size)
    else if DeleteBlob(s.db, e.hash).out then Sweep(Evict(s.db, e.hash), s.deleted + 1, s.freed + e.size)
    else s
  }

  /** The age pass over the rows of `SELECT hash, size, last_accessed FROM objects`. */
  function AgeRun(s: Sweep, es: seq<ObjectInfo>, dryRun: bool, now: int, cutoff: int): (r: Sweep)
    ensures s.deleted <= r.deleted <= s.deleted + |es| && s.freed <= r.freed
    ensures dryRun ==> r.db == s.db
    decreases |es|
  {
    if es == [] then s else AgeRun(AgeStep(s, es[0], dryRun, now, cutoff), es[1..], dryRun, now, cutoff)
  }

  // ---- the size pass ----

  /** One row of the size loop: counted and its size taken off `total` (and, live, evicted) unless its blob is gone. */
  function SizeStep(s: SizeSweep, e: ObjectInfo, dryRun: bool): (r: SizeSweep)
    ensures r == s ||
      (r.sweep.deleted == s.sweep.deleted + 1 && r.sweep.freed == s.sweep.freed + e.size && r.total == s.total - e.size)
    ensures dryRun ==> r.sweep.db == s.sweep.db && r.sweep.deleted == s.sweep.deleted + 1
  {
    var w := s.sweep;
    if dryRun then SizeSweep(Sweep(w.db, w.deleted + 1, w.freed + e.size), s.total - e.size)
    else if DeleteBlob(w.db, e.hash).out then
      SizeSweep(Sweep(Evict(w.db, e.hash), w.deleted + 1, w.freed + e.size), s.total - e.size)
    else s
  }

  /** The size pass over the rows in ascending `last_accessed` order, stopping once `total <= cap`. */
  function SizeRun(s: SizeSweep, es: seq<ObjectInfo>, dryRun: bool, cap: int): (r: SizeSweep)
    ensures s.sweep.deleted <= r.sweep.deleted <= s.sweep.deleted + |es|
    ensures s.sweep.freed <= r.sweep.freed && r.total <= s.total
    ensures dryRun ==> r.sweep.db == s.sweep.db
    decreases |es|
  {
    if es == [] || s.total <= cap then s else SizeRun(SizeStep(s, es[0], dryRun), es[1..], dryRun, cap)
  }

  // ---- the whole collection ----

  /** The age pass if `max_age_days` is given, from zero counters; otherwise nothing happens. */
  function AfterAge(db: Db, maxAgeDays: Option<int>, dryRun: bool, now: int, ageScan: seq<ObjectInfo>): (r: Sweep)
    ensures maxAgeDays.None? ==> r == Sweep(db, 0, 0)
    ensures r.deleted <= |ageScan| && (dryRun ==> r.db == db)
  {
    if maxAgeDays.Some? then AgeRun(Sweep(db, 0, 0), ageScan, dryRun, now, Cutoff(now, maxAgeDays.value))
    else Sweep(db, 0, 0)
  }

  /**
   * `gc`: `ageScan` is the age pass's SELECT, `sizeOrder` the size pass's ordered SELECT
   * (taken after the age pass, only when the table total is over the cap).
   */
  ghost function Collect(db: Db, maxAgeDays: Option<int>, maxSizeMb: Option<int>, dryRun: bool, now: int,
                         ageScan: seq<ObjectInfo>, sizeOrder: seq<ObjectInfo>): (r: Sweep)
    ensures maxAgeDays.None? && maxSizeMb.None? ==> r == Sweep(db, 0, 0)
    ensures r.deleted <= |ageScan| + |sizeOrder|
  {
    AfterSize(AfterAge(db, maxAgeDays, dryRun, now, ageScan), maxSizeMb, dryRun, sizeOrder)
  }

  /** The size pass, run only when a cap is given and the table total is over it. */
  ghost function AfterSize(mid: Sweep, maxSizeMb: Option<int>, dryRun: bool, sizeOrder: seq<ObjectInfo>): (r: Sweep)
    ensures maxSizeMb.None? || TableBytes(mid.db.rows) <= maxSizeMb.value * BYTES_PER_MB ==> r == mid
    ensures mid.deleted <= r.deleted <= mid.deleted + |sizeOrder| && (dryRun ==> r.db == mid.db)
  {
    if maxSizeMb.None? then mid
    else
      var cap := maxSizeMb.value * BYTES_PER_MB;
      var total := TableBytes(mid.db.rows);
      if total > cap then SizeRun(SizeSweep(mid, total), sizeOrder, dryRun, cap).sweep else mid
  }

  // ---- age pass: which rows it selects ----

  /** The rows the age pass selects: the scanned rows that have expired, in scan order. */
  function Expiring(es: seq<ObjectInfo>, now: int, cutoff: int): (r: seq<ObjectInfo>)
    ensures |r| <= |es|
    ensures forall e :: e in r <==> e in es && Expired(e, now, cutoff)
  {
    if es == [] then []
    else if Expired(es[0], now, cutoff) then [es[0]] + Expiring(es[1..], now, cutoff)
    else Expiring(es[1..], now, cutoff)
  }

  /** The rows the live age pass removes: the selected ones whose blob is still there. */
  function Removable(es: seq<ObjectInfo>, blobs: map<Digest, Bytes>, now: int, cutoff: int): seq<ObjectInfo> {
    if es == [] then []
    else if Expired(es[0], now, cutoff) && es[0].hash in blobs then [es[0]] + Removable(es[1..], blobs, now, cutoff)
    else Removable(es[1..], blobs, now, cutoff)
  }

  /** A timestamp that does not parse is never old enough, for any non-negative age limit. */
  lemma UnparseableNeverExpires(e: ObjectInfo, now: int, maxAgeDays: int)
    requires e.lastAccessed == Unparseable
    ensures Expired(e, now, Cutoff(now, maxAgeDays)) <==> maxAgeDays < 0
  {
  }

  /** Over a full scan, the age pass selects exactly the rows last accessed before the cutoff. */
  lemma {:induction false} ExpiringIsExactlyTheOldRows(es: seq<ObjectInfo>, rows: map<Digest, Row>, now: int, cutoff: int)
    requires Matches(es, rows)
    ensures Hashes(Expiring(es, now, cutoff)) ==
      set h | h in Hashes(es) && h in rows && LastSeen(rows[h].lastAccessed, now) < cutoff
    decreases |es|
  {
    if es != [] {
      assert es[0] in es;
      assert Matches(es[1..], rows) by {
        forall x | x in es[1..] ensures x in es { }
      }
      ExpiringIsExactlyTheOldRows(es[1..], rows, now, cutoff);
    }
  }

  /** In dry-run the age pass changes nothing and counts every selected row. */
  lemma {:induction false} AgeRunDry(s: Sweep, es: seq<ObjectInfo>, now: int, cutoff: int)
    ensures var r := AgeRun(s, es, true, now, cutoff);
      r.db == s.db &&
      r.deleted == s.deleted + |Expiring(es, now, cutoff)| &&
      r.freed == s.freed + Sum(Expiring(es, now, cutoff))
    decreases |es|
  {
    if es != [] {
      AgeRunDry(AgeStep(s, es[0], true, now, cutoff), es[1..], now, cutoff);
    }
  }

  lemma {:induction false} RemovableIgnoresOtherBlobs(es: seq<ObjectInfo>, blobs: map<Digest, Bytes>, h: Digest, now: int, cutoff: int)
    requires h !in Hashes(es)
    ensures Removable(es, blobs - {h}, now, cutoff) == Removable(es, blobs, now, cutoff)
    decreases |es|
  {
    if es != [] {
      RemovableIgnoresOtherBlobs(es[1..], blobs, h, now, cutoff);
    }
  }

  /**
   * In live mode the age pass removes exactly the selected rows whose blob it could
   * delete, blob and row together, and counts exactly those.
   */
  lemma {:induction false} AgeRunLive(s: Sweep, es: seq<ObjectInfo>, now: int, cutoff: int)
    requires Distinct(es)
    ensures var v := Removable(es, s.db.blobs, now, cutoff);
      AgeRun(s, es, false, now, cutoff) ==
        Sweep(Db(s.db.blobs - Hashes(v), s.db.rows - Hashes(v)), s.deleted + |v|, s.freed + Sum(v))
    decreases |es|
  {
    if es == [] {
      assert s.db.blobs - {} == s.db.blobs && s.db.rows - {} == s.db.rows;
    } else {
      var e := es[0];
      var next := AgeStep(s, e, false, now, cutoff);
      AgeRunLive(next, es[1..], now, cutoff);
      if Expired(e, now, cutoff) && e.hash in s.db.blobs {
        RemovableIgnoresOtherBlobs(es[1..], s.db.blobs, e.hash, now, cutoff);
        var v' := Removable(es[1..], s.db.blobs, now, cutoff);
        assert s.db.blobs - {e.hash} - Hashes(v') == s.db.blobs - ({e.hash} + Hashes(v'));
        assert s.db.rows - {e.hash} - Hashes(v') == s.db.rows - ({e.hash} + Hashes(v'));
      }
    }
  }

  /** The selected rows are rows of the scan, and distinct when the scan is. */
  lemma {:induction false} ExpiringIsSubScan(es: seq<ObjectInfo>, now: int, cutoff: int)
    ensures forall x :: x in Expiring(es, now, cutoff) ==> x in es
    ensures Hashes(Expiring(es, now, cutoff)) <= Hashes(es)
    ensures Distinct(es) ==> Distinct(Expiring(es, now, cutoff))
    decreases |es|
  {
    if es != [] {
      ExpiringIsSubScan(es[1..], now, cutoff);
      forall x | x in es[1..] ensures x in es { }
    }
  }

  /** With every scanned blob present, the live age pass can delete every row it selects. */
  lemma {:induction false} RemovableWhenPresent(es: seq<ObjectInfo>, blobs: map<Digest, Bytes>, now: int, cutoff: int)
    requires Hashes(es) <= blobs.Keys
    ensures Removable(es, blobs, now, cutoff) == Expiring(es, now, cutoff)
    decreases |es|
  {
    if es != [] {
      RemovableWhenPresent(es[1..], blobs, now, cutoff);
    }
  }

  /** The digests of the rows last accessed before the cutoff. */
  function OldDigests(rows: map<Digest, Row>, now: int, cutoff: int): set<Digest> {
    set h | h in rows && LastSeen(rows[h].lastAccessed, now) < cutoff
  }

  /**
   * The live age pass over a full scan of a store whose rows all have their blobs removes
   * exactly the rows last accessed before the cutoff, with their blobs, and reports their
   * number and bytes.
   */
  lemma AgePassRemovesTheOldRows(db: Db, es: seq<ObjectInfo>, now: int, cutoff: int)
    requires BlobsPresent(db) && Enumerates(es, db.rows)
    ensures var gone := OldDigests(db.rows, now, cutoff);
      var r := AgeRun(Sweep(db, 0, 0), es, false, now, cutoff);
      r.db == Db(db.blobs - gone, db.rows - gone) &&
      r.deleted == |gone| &&
      r.freed + TableBytes(db.rows - gone) == TableBytes(db.rows)
  {
    var v := Expiring(es, now, cutoff);
    var gone := OldDigests(db.rows, now, cutoff);
    assert Hashes(v) == gone by {
      ExpiringIsExactlyTheOldRows(es, db.rows, now, cutoff);
    }
    assert Distinct(v) && Matches(v, db.rows) by {
      ExpiringIsSubScan(es, now, cutoff);
    }
    assert Removable(es, db.blobs, now, cutoff) == v by {
      RemovableWhenPresent(es, db.blobs, now, cutoff);
    }
    AgeRunLive(Sweep(db, 0, 0), es, now, cutoff);
    EnumeratedCount(v, db.rows);
    TableBytesMinus(db.rows, v);
  }

  // ---- size pass: eviction order and stopping rule ----

  /** How many of the oldest rows it takes to bring `total` to `cap` or below (all, if none does). */
  function StopIndex(total: int, es: seq<ObjectInfo>, cap: int): (k: nat)
    ensures k <= |es|
    decreases |es|
  {
    if es == [] || total <= cap then 0 else 1 + StopIndex(total - es[0].size, es[1..], cap)
  }

  lemma {:induction false} SumPrefixStep(es: seq<ObjectInfo>, j: nat)
    requires 0 < j <= |es|
    ensures Sum(es[..j]) == es[0].size + Sum(es[1..][..j - 1])
  {
    assert es[..j][1..] == es[1..][..j - 1];
  }

  /** The size pass stops as soon as the running total is at or under the cap, and not before. */
  lemma {:induction false} StopIndexIsFirstFit(total: int, es: seq<ObjectInfo>, cap: int)
    ensures var k := StopIndex(total, es, cap);
      (forall j :: 0 <= j < k ==> total - Sum(es[..j]) > cap) &&
      (k == |es| || total - Sum(es[..k]) <= cap)
    decreases |es|
  {
    var k := StopIndex(total, es, cap);
    if es == [] || total <= cap {
      assert es[..0] == [];
    } else {
      StopIndexIsFirstFit(total - es[0].size, es[1..], cap);
      forall j | 0 <= j < k ensures total - Sum(es[..j]) > cap {
        if j == 0 {
          assert es[..0] == [];
        } else {
          SumPrefixStep(es, j);
        }
      }
      if k < |es| {
        SumPrefixStep(es, k);
      }
    }
  }

  lemma {:induction false} HashesPrefix(es: seq<ObjectInfo>, j: nat)
    requires 0 < j <= |es|
    ensures Hashes(es[..j]) == {es[0].hash} + Hashes(es[1..][..j - 1])
  {
    assert es[..j][1..] == es[1..][..j - 1];
  }

  /** The digests of a prefix are digests of the whole scan. */
  lemma {:induction false} HashesOfPrefix(es: seq<ObjectInfo>, j: nat)
    requires j <= |es|
    ensures Hashes(es[..j]) <= Hashes(es)
    decreases j
  {
    if j > 0 {
      HashesPrefix(es, j);
      HashesOfPrefix(es[1..], j - 1);
    }
  }

  /**
   * LRU eviction: when every row up to the stopping point can be counted (dry-run, or
   * live with those rows' blobs present; later rows may lack theirs), the size pass
   * takes exactly the `StopIndex` oldest rows, in order, and lowers `total` by exactly
   * their sizes.
   */
  lemma {:induction false} SizeRunEvictsOldestFirst(s: SizeSweep, es: seq<ObjectInfo>, dryRun: bool, cap: int)
    requires dryRun || (Distinct(es) && Hashes(es[..StopIndex(s.total, es, cap)]) <= s.sweep.db.blobs.Keys)
    ensures var k := StopIndex(s.total, es, cap); var r := SizeRun(s, es, dryRun, cap);
      var gone := Hashes(es[..k]);
      r.sweep.deleted == s.sweep.deleted + k &&
      r.sweep.freed == s.sweep.freed + Sum(es[..k]) &&
      r.total == s.total - Sum(es[..k]) &&
      r.sweep.db == (if dryRun then s.sweep.db
                     else Db(s.sweep.db.blobs - gone, s.sweep.db.rows - gone))
    decreases |es|
  {
    var k := StopIndex(s.total, es, cap);
    if es == [] || s.total <= cap {
      assert es[..0] == [];
      assert s.sweep.db.blobs - {} == s.sweep.db.blobs && s.sweep.db.rows - {} == s.sweep.db.rows;
    } else {
      var e := es[0];
      var next := SizeStep(s, e, dryRun);
      EvictOldestStep(s, es, dryRun, cap);
      var rest := Hashes(es[1..][..k - 1]);
      SizeRunEvictsOldestFirst(next, es[1..], dryRun, cap);
      assert SizeRun(s, es, dryRun, cap) == SizeRun(next, es[1..], dryRun, cap);
      MinusInTurn(s.sweep.db.blobs, e.hash, rest);
      MinusInTurn(s.sweep.db.rows, e.hash, rest);
    }
  }

  /** Removing one key and then a set of keys removes their union. */
  lemma MinusInTurn<V>(m: map<Digest, V>, h: Digest, rest: set<Digest>)
    ensures m - {h} - rest == m - ({h} + rest)
  {
  }

  /**
   * One step of the size loop over the row it visits first: it is counted, its size
   * leaves `total`, it is evicted when live, and the rest of the visited prefix is
   * still fit for the same lemma.
   */
  lemma EvictOldestStep(s: SizeSweep, es: seq<ObjectInfo>, dryRun: bool, cap: int)
    requires es != [] && s.total > cap
    requires dryRun || (Distinct(es) && Hashes(es[..StopIndex(s.total, es, cap)]) <= s.sweep.db.blobs.Keys)
    ensures var e := es[0]; var next := SizeStep(s, e, dryRun); var k := StopIndex(s.total, es, cap);
      k == 1 + StopIndex(next.total, es[1..], cap) &&
      next.sweep.deleted == s.sweep.deleted + 1 && next.sweep.freed == s.sweep.freed + e.size &&
      next.total == s.total - e.size &&
      next.sweep.db == (if dryRun then s.sweep.db else Evict(s.sweep.db, e.hash)) &&
      (dryRun || (Distinct(es[1..]) && Hashes(es[1..][..k - 1]) <= next.sweep.db.blobs.Keys)) &&
      Hashes(es[..k]) == {e.hash} + Hashes(es[1..][..k - 1]) &&
      Sum(es[..k]) == e.size + Sum(es[1..][..k - 1])
  {
    var e := es[0];
    var k := StopIndex(s.total, es, cap);
    assert k == 1 + StopIndex(s.total - e.size, es[1..], cap);
    HashesPrefix(es, k);
    SumPrefixStep(es, k);
    if !dryRun {
      HashesOfPrefix(es[1..], k - 1);
      assert e.hash in s.sweep.db.blobs;
    }
  }

  /**
   * A live size pass over rows whose blobs are already gone removes nothing, counts
   * nothing and leaves `total` where it was, however far over the cap it is.
   */
  lemma {:induction false} MissingBlobsAreSkipped(s: SizeSweep, es: seq<ObjectInfo>, cap: int)
    requires forall i :: 0 <= i < |es| ==> es[i].hash !in s.sweep.db.blobs
    ensures SizeRun(s, es, false, cap) == s
    decreases |es|
  {
    if es != [] && s.total > cap {
      assert SizeStep(s, es[0], false) == s;
      MissingBlobsAreSkipped(s, es[1..], cap);
    }
  }

  /**
   * In a live size pass mixing present and missing blobs, a row whose blob is gone is
   * skipped: the pass goes on from the same state, counters and `total` as if the row
   * had not been scanned.
   */
  lemma OrphanRowIsSkipped(s: SizeSweep, es: seq<ObjectInfo>, cap: int)
    requires es != [] && es[0].hash !in s.sweep.db.blobs
    ensures SizeRun(s, es, false, cap) == SizeRun(s, es[1..], false, cap)
  {
    assert SizeStep(s, es[0], false) == s;
  }

  /** Whatever the blobs, the size pass lowers `total` by exactly what it adds to `freed_bytes`. */
  lemma {:induction false} SizeRunAccounting(s: SizeSweep, es: seq<ObjectInfo>, dryRun: bool, cap: int)
    ensures var r := SizeRun(s, es, dryRun, cap);
      r.total + r.sweep.freed == s.total + s.sweep.freed &&
      r.sweep.deleted - s.sweep.deleted <= |es| &&
      (s.total <= cap ==> r == s)
    decreases |es|
  {
    if es != [] && s.total > cap {
      SizeRunAccounting(SizeStep(s, es[0], dryRun), es[1..], dryRun, cap);
    }
  }

  // ---- what gc may change ----

  /**
   * `after` only lost rows and blobs, never gained or altered one; a row went only
   * with its blob, and a deleted blob never leaves its row behind.
   */
  ghost predicate Shrinks(before: Db, after: Db) {
    (forall h :: h in after.rows ==> h in before.rows && after.rows[h] == before.rows[h]) &&
    (forall h :: h in after.blobs ==> h in before.blobs && after.blobs[h] == before.blobs[h]) &&
    (forall h :: h in before.rows && h !in after.rows ==> h in before.blobs && h !in after.blobs) &&
    (forall h :: h in before.blobs && h !in after.blobs ==> h !in after.rows)
  }

  lemma ShrinksTransitive(a: Db, b: Db, c: Db)
    requires Shrinks(a, b) && Shrinks(b, c)
    ensures Shrinks(a, c)
  {
  }

  lemma {:induction false} AgeRunShrinks(s: Sweep, es: seq<ObjectInfo>, dryRun: bool, now: int, cutoff: int)
    ensures Shrinks(s.db, AgeRun(s, es, dryRun, now, cutoff).db)
    decreases |es|
  {
    if es != [] {
      var next := AgeStep(s, es[0], dryRun, now, cutoff);
      AgeRunShrinks(next, es[1..], dryRun, now, cutoff);
      ShrinksTransitive(s.db, next.db, AgeRun(s, es, dryRun, now, cutoff).db);
    }
  }

  lemma {:induction false} SizeRunShrinks(s: SizeSweep, es: seq<ObjectInfo>, dryRun: bool, cap: int)
    ensures Shrinks(s.sweep.db, SizeRun(s, es, dryRun, cap).sweep.db)
    decreases |es|
  {
    if es != [] && s.total > cap {
      var next := SizeStep(s, es[0], dryRun);
      SizeRunShrinks(next, es[1..], dryRun, cap);
      ShrinksTransitive(s.sweep.db, next.sweep.db, SizeRun(s, es, dryRun, cap).sweep.db);
    }
  }

  /**
   * `gc` only removes: a row is deleted only after its blob was deleted, and a blob it
   * deletes takes its row with it; whatever rows the SELECTs returned.
   */
  lemma {:induction false} CollectOnlyEvicts(db: Db, maxAgeDays: Option<int>, maxSizeMb: Option<int>, dryRun: bool, now: int,
                                             ageScan: seq<ObjectInfo>, sizeOrder: seq<ObjectInfo>)
    ensures Shrinks(db, Collect(db, maxAgeDays, maxSizeMb, dryRun, now, ageScan, sizeOrder).db)
  {
    var mid := AfterAge(db, maxAgeDays, dryRun, now, ageScan);
    if maxAgeDays.Some? {
      AgeRunShrinks(Sweep(db, 0, 0), ageScan, dryRun, now, Cutoff(now, maxAgeDays.value));
    }
    if maxSizeMb.Some? {
      var cap := maxSizeMb.value * BYTES_PER_MB;
      var s := SizeSweep(mid, TableBytes(mid.db.rows));
      SizeRunShrinks(s, sizeOrder, dryRun, cap);
      ShrinksTransitive(db, mid.db, SizeRun(s, sizeOrder, dryRun, cap).sweep.db);
    }
  }

  lemma ShrinksKeepsConsistent(before: Db, after: Db)
    requires Consistent(before) && Shrinks(before, after)
    ensures Consistent(after)
  {
  }

  /** A dry run leaves every blob and every row as it was. */
  lemma {:induction false} DryRunChangesNothing(db: Db, maxAgeDays: Option<int>, maxSizeMb: Option<int>, now: int,
                                                ageScan: seq<ObjectInfo>, sizeOrder: seq<ObjectInfo>)
    ensures Collect(db, maxAgeDays, maxSizeMb, true, now, ageScan, sizeOrder).db == db
  {
    var mid := AfterAge(db, maxAgeDays, true, now, ageScan);
    if maxAgeDays.Some? {
      AgeRunDry(Sweep(db, 0, 0), ageScan, now, Cutoff(now, maxAgeDays.value));
    }
    if maxSizeMb.Some? {
      SizeRunEvictsOldestFirst(SizeSweep(mid, TableBytes(mid.db.rows)), sizeOrder, true, maxSizeMb.value * BYTES_PER_MB);
    }
  }

  /**
   * With every blob present, a live `gc` with a size cap ends with the table total at or
   * under the cap, or with the table empty (when even that does not reach a negative cap).
   */
  lemma {:induction false} LiveRunMeetsCap(db: Db, maxAgeDays: Option<int>, maxSizeMb: int, now: int,
                                           ageScan: seq<ObjectInfo>, sizeOrder: seq<ObjectInfo>)
    requires BlobsPresent(db)
    requires Enumerates(sizeOrder, AfterAge(db, maxAgeDays, false, now, ageScan).db.rows)
    ensures var r := Collect(db, maxAgeDays, Some(maxSizeMb), false, now, ageScan, sizeOrder).db;
      TableBytes(r.rows) <= maxSizeMb * BYTES_PER_MB || r.rows == map[]
  {
    var mid := AfterAge(db, maxAgeDays, false, now, ageScan);
    if maxAgeDays.Some? {
      AgeRunShrinks(Sweep(db, 0, 0), ageScan, false, now, Cutoff(now, maxAgeDays.value));
    }
    ShrinksKeepsBlobsPresent(db, mid.db);
    SizePassMeetsCap(mid, maxSizeMb, sizeOrder);
  }

  /** The live size pass over a table whose rows all have their blobs meets the cap, or empties the table. */
  lemma {:induction false} SizePassMeetsCap(mid: Sweep, maxSizeMb: int, sizeOrder: seq<ObjectInfo>)
    requires BlobsPresent(mid.db) && Enumerates(sizeOrder, mid.db.rows)
    ensures var r := AfterSize(mid, Some(maxSizeMb), false, sizeOrder).db;
      TableBytes(r.rows) <= maxSizeMb * BYTES_PER_MB || r.rows == map[]
  {
    var cap := maxSizeMb * BYTES_PER_MB;
    var total := TableBytes(mid.db.rows);
    if total > cap {
      var s := SizeSweep(mid, total);
      HashesOfPrefix(sizeOrder, StopIndex(total, sizeOrder, cap));
      SizeRunEvictsOldestFirst(s, sizeOrder, false, cap);
      StopIndexIsFirstFit(total, sizeOrder, cap);
      var k := StopIndex(total, sizeOrder, cap);
      PrefixKeepsScan(sizeOrder, mid.db.rows, k);
      TableBytesMinus(mid.db.rows, sizeOrder[..k]);
      if k == |sizeOrder| {
        assert sizeOrder[..k] == sizeOrder;
        assert mid.db.rows - Hashes(sizeOrder) == map[];
      }
    }
  }

  /** Evicting never takes a blob from a row that stays. */
  lemma ShrinksKeepsBlobsPresent(before: Db, after: Db)
    requires BlobsPresent(before) && Shrinks(before, after)
    ensures BlobsPresent(after)
  {
  }

  /**
   * Evicting the row of a scanned entry: one row fewer, and the table total lower by
   * the entry's size; the other entries still match the table.
   */
  lemma EvictScanned(rows: map<Digest, Row>, es: seq<ObjectInfo>)
    requires es != [] && Distinct(es) && Matches(es, rows)
    ensures var h := es[0].hash;
      h in rows && |rows - {h}| == |rows| - 1 && TableBytes(rows - {h}) + es[0].size == TableBytes(rows) &&
      Distinct(es[1..]) && Matches(es[1..], rows - {h})
  {
    var h := es[0].hash;
    assert es[0] in es;
    ProperRemoval(rows, h);
    TableBytesRemove(rows, h);
    forall x | x in es[1..] ensures x.hash in rows - {h} && InfoOf(x.hash, (rows - {h})[x.hash]) == x {
      InHashes(es[1..], x);
      assert x in es;
    }
  }

  /**
   * Whatever the blobs, the live age pass over distinct rows of the table adds to
   * `deleted` exactly the rows that leave the table, and to `freed_bytes` exactly the
   * drop in the table total; a row whose blob is gone is neither counted nor removed.
   */
  lemma {:induction false} AgeRunReports(s: Sweep, es: seq<ObjectInfo>, now: int, cutoff: int)
    requires Distinct(es) && Matches(es, s.db.rows)
    ensures var r := AgeRun(s, es, false, now, cutoff);
      r.deleted + |r.db.rows| == s.deleted + |s.db.rows| &&
      r.freed + TableBytes(r.db.rows) == s.freed + TableBytes(s.db.rows)
    decreases |es|
  {
    if es != [] {
      var next := AgeStep(s, es[0], false, now, cutoff);
      AgeStepReports(s, es, now, cutoff);
      AgeRunReports(next, es[1..], now, cutoff);
      assert AgeRun(s, es, false, now, cutoff) == AgeRun(next, es[1..], false, now, cutoff);
    }
  }

  /** One live step of the age loop keeps the report in step with the table, and the rest of the scan matching. */
  lemma AgeStepReports(s: Sweep, es: seq<ObjectInfo>, now: int, cutoff: int)
    requires es != [] && Distinct(es) && Matches(es, s.db.rows)
    ensures var n := AgeStep(s, es[0], false, now, cutoff);
      n.deleted + |n.db.rows| == s.deleted + |s.db.rows| &&
      n.freed + TableBytes(n.db.rows) == s.freed + TableBytes(s.db.rows) &&
      Distinct(es[1..]) && Matches(es[1..], n.db.rows)
  {
    var e := es[0];
    EvictScanned(s.db.rows, es);
    if Expired(e, now, cutoff) && e.hash in s.db.blobs {
      assert AgeStep(s, e, false, now, cutoff) == Sweep(Evict(s.db, e.hash), s.deleted + 1, s.freed + e.size);
    } else {
      assert AgeStep(s, e, false, now, cutoff) == s;
      assert forall x :: x in es[1..] ==> x in es;
    }
  }

  /** The live age pass over a full scan reports exactly the rows and bytes it removed. */
  lemma AgePassReportsWhatItRemoved(db: Db, maxAgeDays: Option<int>, now: int, ageScan: seq<ObjectInfo>)
    requires maxAgeDays.Some? ==> Enumerates(ageScan, db.rows)
    ensures var m := AfterAge(db, maxAgeDays, false, now, ageScan);
      m.deleted + |m.db.rows| == |db.rows| && m.freed + TableBytes(m.db.rows) == TableBytes(db.rows)
  {
    if maxAgeDays.Some? {
      AgeRunReports(Sweep(db, 0, 0), ageScan, now, Cutoff(now, maxAgeDays.value));
    }
  }

  /**
   * Whatever the blobs, the live size pass over distinct rows of the table adds to
   * `deleted` exactly the rows that leave the table, and to `freed_bytes` exactly the
   * drop in the table total.
   */
  lemma {:induction false} SizePassReportsWhatItRemoved(s: SizeSweep, sizeOrder: seq<ObjectInfo>, cap: int)
    requires Distinct(sizeOrder) && Matches(sizeOrder, s.sweep.db.rows)
    ensures var r := SizeRun(s, sizeOrder, false, cap).sweep;
      r.deleted + |r.db.rows| == s.sweep.deleted + |s.sweep.db.rows| &&
      r.freed + TableBytes(r.db.rows) == s.sweep.freed + TableBytes(s.sweep.db.rows)
    decreases |sizeOrder|
  {
    if sizeOrder != [] && s.total > cap {
      var next := SizeStep(s, sizeOrder[0], false);
      SizeStepReports(s, sizeOrder);
      SizePassReportsWhatItRemoved(next, sizeOrder[1..], cap);
      assert SizeRun(s, sizeOrder, false, cap) == SizeRun(next, sizeOrder[1..], false, cap);
    }
  }

  /** One live step of the size loop keeps the report in step with the table, and the rest of the scan matching. */
  lemma SizeStepReports(s: SizeSweep, es: seq<ObjectInfo>)
    requires es != [] && Distinct(es) && Matches(es, s.sweep.db.rows)
    ensures var n := SizeStep(s, es[0], false).sweep;
      n.deleted + |n.db.rows| == s.sweep.deleted + |s.sweep.db.rows| &&
      n.freed + TableBytes(n.db.rows) == s.sweep.freed + TableBytes(s.sweep.db.rows) &&
      Distinct(es[1..]) && Matches(es[1..], n.db.rows)
  {
    var e := es[0];
    var w := s.sweep;
    EvictScanned(w.db.rows, es);
    if e.hash in w.db.blobs {
      assert SizeStep(s, e, false).sweep == Sweep(Evict(w.db, e.hash), w.deleted + 1, w.freed + e.size);
    } else {
      assert SizeStep(s, e, false) == s;
      assert forall x :: x in es[1..] ==> x in es;
    }
  }

  /**
   * A live `gc` reports exactly what it removed, whatever blobs are missing or present:
   * `deleted` is the number of rows that went and `freed_bytes` the drop in the table total.
   */
  lemma LiveRunReportsWhatItRemoved(db: Db, maxAgeDays: Option<int>, maxSizeMb: Option<int>, now: int,
                                    ageScan: seq<ObjectInfo>, sizeOrder: seq<ObjectInfo>)
    requires maxAgeDays.Some? ==> Enumerates(ageScan, db.rows)
    requires var mid := AfterAge(db, maxAgeDays, false, now, ageScan).db;
      maxSizeMb.Some? && TableBytes(mid.rows) > maxSizeMb.value * BYTES_PER_MB ==> Enumerates(sizeOrder, mid.rows)
    ensures var r := Collect(db, maxAgeDays, maxSizeMb, false, now, ageScan, sizeOrder);
      r.deleted + |r.db.rows| == |db.rows| && r.freed + TableBytes(r.db.rows) == TableBytes(db.rows)
  {
    var m := AfterAge(db, maxAgeDays, false, now, ageScan);
    AgePassReportsWhatItRemoved(db, maxAgeDays, now, ageScan);
    if maxSizeMb.Some? && TableBytes(m.db.rows) > maxSizeMb.value * BYTES_PER_MB {
      SizePassReportsWhatItRemoved(SizeSweep(m, TableBytes(m.db.rows)), sizeOrder, maxSizeMb.value * BYTES_PER_MB);
    }
  }

  /** What a `gc` run promises, from the properties above. */
  lemma GcContract(db: Db, maxAgeDays: Option<int>, maxSizeMb: Option<int>, dryRun: bool, now: int,
                   ageScan: seq<ObjectInfo>, sizeOrder: seq<ObjectInfo>)
    requires maxAgeDays.Some? ==> Enumerates(ageScan, db.rows)
    requires var mid := AfterAge(db, maxAgeDays, dryRun, now, ageScan).db;
      maxSizeMb.Some? && TableBytes(mid.rows) > maxSizeMb.value * BYTES_PER_MB ==> Enumerates(sizeOrder, mid.rows)
    ensures var r := Collect(db, maxAgeDays, maxSizeMb, dryRun, now, ageScan, sizeOrder);
      Shrinks(db, r.db) &&
      (dryRun ==> r.db == db) &&
      (Consistent(db) ==> Consistent(r.db)) &&
      (BlobsPresent(db) && !dryRun && maxSizeMb.Some? ==>
        TableBytes(r.db.rows) <= maxSizeMb.value * BYTES_PER_MB || r.db.rows == map[]) &&
      (!dryRun ==>
        r.deleted + |r.db.rows| == |db.rows| && r.freed + TableBytes(r.db.rows) == TableBytes(db.rows))
  {
    var r := Collect(db, maxAgeDays, maxSizeMb, dryRun, now, ageScan, sizeOrder);
    CollectOnlyEvicts(db, maxAgeDays, maxSizeMb, dryRun, now, ageScan, sizeOrder);
    if dryRun {
      DryRunChangesNothing(db, maxAgeDays, maxSizeMb, now, ageScan, sizeOrder);
    }
    if Consistent(db) {
      ShrinksKeepsConsistent(db, r.db);
    }
    if !dryRun {
      LiveRunReportsWhatItRemoved(db, maxAgeDays, maxSizeMb, now, ageScan, sizeOrder);
      if BlobsPresent(db) && maxSizeMb.Some? {
        var mid := AfterAge(db, maxAgeDays, false, now, ageScan).db;
        if TableBytes(mid.rows) > maxSizeMb.value * BYTES_PER_MB {
          LiveRunMeetsCap(db, maxAgeDays, maxSizeMb.value, now, ageScan, sizeOrder);
        }
      }
    }
  }

  /**
   * Dry-run counts differ from a live run: with one old blob, an age limit and a zero
   * cap, the dry run reports it twice (the row stays in the table, so the size pass
   * finds it again), the live run once.
   */
  lemma DryRunCountsAgedRowTwice()
    ensures var h: Digest := seq(64, _ => 'a');
      var row := Row(5, At(0), At(0));
      var db := Db(map[h := [1, 2, 3, 4, 5]], map[h := row]);
      var scan := [InfoOf(h, row)];
      var now := 10 * SECONDS_PER_DAY;
      Collect(db, Some(1), Some(0), true, now, scan, scan) == Sweep(db, 2, 10) &&
      Collect(db, Some(1), Some(0), false, now, scan, []) == Sweep(Db(map[], map[]), 1, 5)
  {
    var h: Digest := seq(64, _ => 'a');
    var row := Row(5, At(0), At(0));
    var rows := map[h := row];
    var db := Db(map[h := [1, 2, 3, 4, 5]], rows);
    var e := InfoOf(h, row);
    var now := 10 * SECONDS_PER_DAY;
    var cutoff := Cutoff(now, 1);
    assert Expired(e, now, cutoff);
    TableBytesRemove(rows, h);
    assert rows - {h} == map[];
    assert TableBytes(rows) == 5;
    assert [e][1..] == [];
    assert e.size == 5;
    // dry run: the age pass counts the row and keeps it, the size pass counts it again
    var dryMid := AgeRun(Sweep(db, 0, 0), [e], true, now, cutoff);
    assert AgeStep(Sweep(db, 0, 0), e, true, now, cutoff) == Sweep(db, 1, 5);
    assert dryMid == AgeRun(Sweep(db, 1, 5), [e][1..], true, now, cutoff);
    assert dryMid == Sweep(db, 1, 5);
    var drySize := SizeRun(SizeSweep(dryMid, 5), [e], true, 0);
    assert SizeStep(SizeSweep(dryMid, 5), e, true) == SizeSweep(Sweep(db, 2, 10), 0);
    assert drySize == SizeRun(SizeSweep(Sweep(db, 2, 10), 0), [], true, 0);
    // live run: the age pass removes blob and row, the size pass finds nothing over the cap
    var empty := Db(map[], map[]);
    assert Evict(db, h) == empty;
    var liveMid := AgeRun(Sweep(db, 0, 0), [e], false, now, cutoff);
    assert DeleteBlob(db, h).out;
    assert AgeStep(Sweep(db, 0, 0), e, false, now, cutoff) == Sweep(empty, 1, 5);
    assert liveMid == AgeRun(Sweep(empty, 1, 5), [e][1..], false, now, cutoff);
    assert liveMid == Sweep(empty, 1, 5);
    assert TableBytes(liveMid.db.rows) == 0;
  }

  /**
   * Without every row's blob the cap is not met: a row whose blob file is gone is
   * skipped by the live size pass, so a table holding only such a row stays over any
   * cap below its size.
   */
  lemma OrphanRowOutlivesCap(h: Digest, row: Row, now: int)
    requires row.size > 0
    ensures var db := Db(map[], map[h := row]);
      var r := Collect(db, None, Some(0), false, now, [], [InfoOf(h, row)]);
      r == Sweep(db, 0, 0) && TableBytes(r.db.rows) > 0
  {
    var rows := map[h := row];
    var db := Db(map[], rows);
    TableBytesRemove(rows, h);
    assert rows - {h} == map[];
    MissingBlobsAreSkipped(SizeSweep(Sweep(db, 0, 0), row.size), [InfoOf(h, row)], 0);
  }
}
