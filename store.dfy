/**
 * `Store`: the blob tree and the `objects` table held as two maps that its methods
 * update in place. Each method is proved against the transition of module Ops or
 * Collector that specifies it; the properties are proved about those transitions.
 */
module StoreEngine {
  import opened Base
  import opened Refs
  import opened Index
  import Ops
  import opened Collector

  /** `stats()`: `{"count", "total_bytes"}`. */
  datatype StoreStats = StoreStats(count: nat, totalBytes: nat)

  /** `gc()`: `{"deleted", "freed_bytes"}`. */
  datatype GcResult = GcResult(deleted: nat, freedBytes: nat)

  /** What a stream yields: its reads, in order, up to the first empty one. */
  function Received(chunks: seq<Bytes>): Bytes {
    if chunks == [] || chunks[0] == [] then [] else chunks[0] + Received(chunks[1..])
  }

  class Store {
    /** The content hash, SHA-256 rendered as 64 lowercase hex digits. */
    const sha256: Bytes -> Digest
    /** The files under `blobs/`, by the digest that names their path. */
    var blobs: map<Digest, Bytes>
    /** The `objects` table, by its primary key. */
    var rows: map<Digest, Row>

    ghost function State(): Db
      reads this
    {
      Db(blobs, rows)
    }

    /** Every row has its blob and every blob its row, and each blob sits under its digest. */
    ghost predicate Valid()
      reads this
    {
      Consistent(State()) && ContentAddressed(State(), sha256)
    }

    /** Opens a store root holding the given blobs and table (both empty for a new root). */
    constructor (sha256: Bytes -> Digest, blobs: map<Digest, Bytes>, rows: map<Digest, Row>)
      ensures this.sha256 == sha256 && this.blobs == blobs && this.rows == rows
    {
      this.sha256 := sha256;
      this.blobs := blobs;
      this.rows := rows;
    }

    /** `_touch`. */
    method Touch(h: Digest, now: int)
      modifies this`rows
      ensures State() == Ops.Touch(old(State()), h, now)
      ensures old(Valid()) ==> Valid()
    {
      if h in rows {
        rows := rows[h := rows[h].(lastAccessed := At(now))];
      }
      if old(Valid()) {
        Ops.LookupsKeepConsistent(old(State()), "", h, now);
        Ops.OperationsKeepContentAddressed(old(State()), sha256, [], "", h, now);
      }
    }

    /** `_delete_blob`. */
    method DeleteBlob(h: Digest) returns (existed: bool)
      modifies this`blobs
      ensures Ops.DeleteBlob(old(State()), h) == Ops.Reply(existed, State())
    {
      existed := h in blobs;
      if existed {
        blobs := blobs - {h};
      }
    }

    /** `has`. */
    method Has(ref: string, now: int) returns (found: bool)
      modifies this`rows
      ensures Ops.Has(old(State()), ref, now) == Ops.Reply(found, State())
      ensures old(Valid()) ==> Valid()
    {
      var parsed := Ops.DigestOf(ref);
      if parsed.None? {
        return false;
      }
      var h := parsed.value;
      if h !in blobs {
        return false;
      }
      Touch(h, now);
      return true;
    }

    /** `info`. */
    method Info(ref: string, now: int) returns (info: Option<ObjectInfo>)
      modifies this`rows
      ensures Ops.Info(old(State()), ref, now) == Ops.Reply(info, State())
      ensures old(Valid()) ==> Valid()
    {
      var parsed := Ops.DigestOf(ref);
      if parsed.None? {
        return None;
      }
      var h := parsed.value;
      if h !in rows {
        return None;
      }
      info := Some(InfoOf(h, rows[h]));
      Touch(h, now);
    }

    /** `get`: the bytes that would be copied out. */
    method Get(ref: string, now: int) returns (r: Result<Bytes, Ops.Failure>)
      modifies this`rows
      ensures Ops.Get(old(State()), ref, now) == Ops.Reply(r, State())
      ensures old(Valid()) ==> Valid()
    {
      var parsed := Ops.DigestOf(ref);
      if parsed.None? {
        return Err(Ops.InvalidRef);
      }
      var h := parsed.value;
      if h !in blobs {
        return Err(Ops.MissingBlob(h));
      }
      Touch(h, now);
      r := Ok(blobs[h]);
    }

    /**
     * `put`: reads the stream to its end into a staged copy while hashing it, commits
     * the copy unless the digest's blob exists, and inserts the row if it is absent.
     */
    method Put(stream: seq<Bytes>, now: int) returns (ref: string)
      modifies this
      ensures Ops.Put(old(State()), sha256, Received(stream), now) == Ops.Reply(ref, State())
      ensures ref == FormatRef(sha256(Received(stream)))
      ensures sha256(Received(stream)) in blobs && sha256(Received(stream)) in rows
      ensures old(Valid()) ==> Valid()
    {
      var staged: Bytes := [];
      var size := 0;
      var i := 0;
      while i < |stream| && stream[i] != []
        invariant 0 <= i <= |stream|
        invariant staged + Received(stream[i..]) == Received(stream)
        invariant size == |staged|
      {
        assert stream[i..][1..] == stream[i + 1..];
        assert staged + stream[i] + Received(stream[i + 1..]) == staged + Received(stream[i..]);
        staged := staged + stream[i];
        size := size + |stream[i]|;
        i := i + 1;
      }
      assert staged == Received(stream);
      ghost var pre := State();
      var h := sha256(staged);
      if h !in blobs {
        blobs := blobs[h := staged];
      }
      if h !in rows {
        rows := rows[h := Row(size, At(now), At(now))];
      }
      ref := FormatRef(h);
      assert Ops.Put(pre, sha256, staged, now) == Ops.Reply(ref, State());
      if old(Valid()) {
        Ops.PutKeepsConsistent(old(State()), sha256, staged, now);
        Ops.OperationsKeepContentAddressed(old(State()), sha256, staged, "", h, now);
      }
    }

    /** `delete`: the row is deleted only when the blob was there. */
    method Delete(ref: string) returns (r: Result<bool, Ops.Failure>)
      modifies this
      ensures Ops.Delete(old(State()), ref) == Ops.Reply(r, State())
      ensures old(Valid()) ==> Valid()
    {
      var parsed := Ops.DigestOf(ref);
      if parsed.None? {
        return Err(Ops.InvalidRef);
      }
      var h := parsed.value;
      var deleted := DeleteBlob(h);
      if deleted {
        rows := rows - {h};
      }
      r := Ok(deleted);
      if old(Valid()) {
        Ops.DeleteKeepsConsistent(old(State()), ref);
        Ops.OperationsKeepContentAddressed(old(State()), sha256, [], ref, h, 0);
      }
    }

    /** A full `SELECT` of the table, in no particular order. */
    method Scan() returns (es: seq<ObjectInfo>)
      ensures Enumerates(es, rows)
    {
      es := [];
      var left := rows.Keys;
      while left != {}
        invariant left <= rows.Keys
        invariant Distinct(es) && Matches(es, rows)
        invariant Hashes(es) == rows.Keys - left
        decreases left
      {
        var h :| h in left;
        var e := InfoOf(h, rows[h]);
        assert ([e] + es)[1..] == es;
        es := [e] + es;
        left := left - {h};
      }
    }

    /** `SELECT COALESCE(SUM(size), 0) FROM objects`. */
    method TableTotal() returns (total: nat)
      ensures total == TableBytes(rows)
    {
      var es := Scan();
      total := Sum(es);
      EnumeratedBytes(es, rows);
    }

    /** `stats`: the number of rows and the sum of their sizes. */
    method Stats() returns (s: StoreStats)
      ensures s.count == |rows| && s.totalBytes == TableBytes(rows)
    {
      var total := TableTotal();
      s := StoreStats(|rows|, total);
    }

    /**
     * `list`: `ORDER BY last_accessed DESC LIMIT limit` (a negative limit is no limit);
     * the rows returned are the most recently accessed ones, newest first.
     */
    method List(limit: int := 20) returns (items: seq<ObjectInfo>)
      ensures |items| == if 0 <= limit < |rows| then limit else |rows|
      ensures Distinct(items) && Matches(items, rows)
      ensures SortedDesc(items)
      ensures forall h, i :: h in rows && h !in Hashes(items) && 0 <= i < |items| ==>
        StampLe(rows[h].lastAccessed, items[i].lastAccessed)
    {
      var es := Scan();
      var asc := SortAsc(es);
      SortKeepsEnumeration(es, rows);
      var ordered := Reverse(asc);
      ReverseKeepsScan(asc, rows);
      EnumeratedCount(ordered, rows);
      var n := if 0 <= limit < |ordered| then limit else |ordered|;
      items := ordered[..n];
      NewestPrefix(ordered, rows, n);
    }

    /** The age pass of `gc`, over the rows `es` its SELECT returned. */
    method AgePass(es: seq<ObjectInfo>, dryRun: bool, now: int, cutoff: int) returns (deleted: nat, freed: nat)
      modifies this
      ensures Sweep(State(), deleted, freed) == AgeRun(Sweep(old(State()), 0, 0), es, dryRun, now, cutoff)
    {
      deleted, freed := 0, 0;
      var i := 0;
      while i < |es|
        invariant 0 <= i <= |es|
        invariant AgeRun(Sweep(State(), deleted, freed), es[i..], dryRun, now, cutoff)
          == AgeRun(Sweep(old(State()), 0, 0), es, dryRun, now, cutoff)
      {
        var e := es[i];
        assert es[i..][1..] == es[i + 1..];
        var lastTs := LastSeen(e.lastAccessed, now);
        if lastTs < cutoff {
          if dryRun {
            deleted, freed := deleted + 1, freed + e.size;
          } else {
            var gone := DeleteBlob(e.hash);
            if gone {
              deleted, freed := deleted + 1, freed + e.size;
              rows := rows - {e.hash};
            }
          }
        }
        i := i + 1;
      }
    }

    /** The size pass of `gc`, over `order` (ascending `last_accessed`), with its early break. */
    method SizePass(order: seq<ObjectInfo>, dryRun: bool, cap: int, total0: int, deleted0: nat, freed0: nat)
      returns (deleted: nat, freed: nat, total: int)
      modifies this
      ensures SizeSweep(Sweep(State(), deleted, freed), total)
        == SizeRun(SizeSweep(Sweep(old(State()), deleted0, freed0), total0), order, dryRun, cap)
    {
      deleted, freed, total := deleted0, freed0, total0;
      var i := 0;
      while i < |order|
        invariant 0 <= i <= |order|
        invariant SizeRun(SizeSweep(Sweep(State(), deleted, freed), total), order[i..], dryRun, cap)
          == SizeRun(SizeSweep(Sweep(old(State()), deleted0, freed0), total0), order, dryRun, cap)
      {
        if total <= cap {
          break;
        }
        var e := order[i];
        assert order[i..][1..] == order[i + 1..];
        if dryRun {
          deleted, freed, total := deleted + 1, freed + e.size, total - e.size;
        } else {
          var gone := DeleteBlob(e.hash);
          if gone {
            deleted, freed, total := deleted + 1, freed + e.size, total - e.size;
            rows := rows - {e.hash};
          }
        }
        i := i + 1;
      }
    }

    /** The age pass of `gc` when `maxAgeDays` is given; `ageScan` is what its SELECT returned. */
    method AgeStage(maxAgeDays: Option<int>, dryRun: bool, now: int)
      returns (deleted: nat, freed: nat, ghost ageScan: seq<ObjectInfo>)
      modifies this
      ensures maxAgeDays.Some? ==> Enumerates(ageScan, old(rows))
      ensures Sweep(State(), deleted, freed) == AfterAge(old(State()), maxAgeDays, dryRun, now, ageScan)
    {
      deleted, freed, ageScan := 0, 0, [];
      if maxAgeDays.Some? {
        var cutoff := Cutoff(now, maxAgeDays.value);
        var scan := Scan();
        ageScan := scan;
        deleted, freed := AgePass(scan, dryRun, now, cutoff);
      }
    }

    /**
     * The size pass of `gc` when `maxSizeMb` is given and the table total is over the
     * cap; `sizeOrder` is what its ordered SELECT returned.
     */
    method SizeStage(maxSizeMb: Option<int>, dryRun: bool, deleted0: nat, freed0: nat)
      returns (deleted: nat, freed: nat, ghost sizeOrder: seq<ObjectInfo>)
      modifies this
      ensures maxSizeMb.Some? && TableBytes(old(rows)) > maxSizeMb.value * BYTES_PER_MB ==>
        SortedAsc(sizeOrder) && Enumerates(sizeOrder, old(rows))
      ensures Sweep(State(), deleted, freed) == AfterSize(Sweep(old(State()), deleted0, freed0), maxSizeMb, dryRun, sizeOrder)
    {
      deleted, freed, sizeOrder := deleted0, freed0, [];
      if maxSizeMb.Some? {
        var cap := maxSizeMb.value * BYTES_PER_MB;
        var total := TableTotal();
        if total > cap {
          var scan := Scan();
          var order := SortAsc(scan);
          SortKeepsEnumeration(scan, rows);
          sizeOrder := order;
          deleted, freed, total := SizePass(order, dryRun, cap, total, deleted, freed);
        }
      }
    }

    /**
     * `gc`: the age pass when `maxAgeDays` is given, then the size pass when `maxSizeMb`
     * is given and the table total is over the cap. `ageScan` and `sizeOrder` are the
     * rows the two SELECTs returned.
     */
    method Gc(maxAgeDays: Option<int>, maxSizeMb: Option<int>, dryRun: bool := false, now: int)
      returns (result: GcResult, ghost ageScan: seq<ObjectInfo>, ghost sizeOrder: seq<ObjectInfo>)
      modifies this
      ensures maxAgeDays.Some? ==> Enumerates(ageScan, old(rows))
      ensures var mid := AfterAge(old(State()), maxAgeDays, dryRun, now, ageScan).db;
        maxSizeMb.Some? && TableBytes(mid.rows) > maxSizeMb.value * BYTES_PER_MB ==>
          SortedAsc(sizeOrder) && Enumerates(sizeOrder, mid.rows)
      ensures Sweep(State(), result.deleted, result.freedBytes)
        == Collect(old(State()), maxAgeDays, maxSizeMb, dryRun, now, ageScan, sizeOrder)
      ensures Shrinks(old(State()), State())
      ensures dryRun ==> State() == old(State())
      ensures old(Valid()) ==> Valid()
      ensures old(rows.Keys <= blobs.Keys) && !dryRun && maxSizeMb.Some? ==>
        TableBytes(rows) <= maxSizeMb.value * BYTES_PER_MB || rows == map[]
      ensures !dryRun ==>
        result.deleted + |rows| == old(|rows|) && result.freedBytes + TableBytes(rows) == TableBytes(old(rows))
    {
      var deleted, freed;
      deleted, freed, ageScan := AgeStage(maxAgeDays, dryRun, now);
      deleted, freed, sizeOrder := SizeStage(maxSizeMb, dryRun, deleted, freed);
      result := GcResult(deleted, freed);
      GcContract(old(State()), maxAgeDays, maxSizeMb, dryRun, now, ageScan, sizeOrder);
    }
  }
}
