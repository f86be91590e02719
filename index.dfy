/**
 * The metadata index (the `objects` table) and the blob tree as two finite maps,
 * and the views the store takes on the table: scans, ORDER BY last_accessed, SUM(size).
 */
module Index {
  import opened Base
  import opened Refs

  /**
   * A stored timestamp: seconds since the epoch, or text that ISO-8601 parsing rejects
   * (only an outside writer of the table can leave one).
   */
  datatype Stamp = At(seconds: int) | Unparseable

  /** The order `ORDER BY last_accessed` sorts by; unparseable text sorts first. */
  predicate StampLe(a: Stamp, b: Stamp) {
    match a
    case Unparseable => true
    case At(x) => b.At? && x <= b.seconds
  }

  lemma StampLeTotalPreorder(a: Stamp, b: Stamp, c: Stamp)
    ensures StampLe(a, a)
    ensures StampLe(a, b) || StampLe(b, a)
    ensures StampLe(a, b) && StampLe(b, c) ==> StampLe(a, c)
  {
  }

  /** A row of `objects`, keyed by its digest. */
  datatype Row = Row(size: nat, createdAt: Stamp, lastAccessed: Stamp)

  /** `ObjectInfo`: a row together with its digest, as `info` and `list` hand it out. */
  datatype ObjectInfo = ObjectInfo(hash: Digest, size: nat, createdAt: Stamp, lastAccessed: Stamp)

  function InfoOf(h: Digest, row: Row): ObjectInfo {
    ObjectInfo(h, row.size, row.createdAt, row.lastAccessed)
  }

  /** The whole persistent state: the blob files by digest and the metadata rows by digest. */
  datatype Db = Db(blobs: map<Digest, Bytes>, rows: map<Digest, Row>)

  /** A blob exists exactly when its row does, and the row records the blob's length. */
  ghost predicate Consistent(db: Db) {
    db.blobs.Keys == db.rows.Keys &&
    forall h :: h in db.rows ==> db.rows[h].size == |db.blobs[h]|
  }

  /** Every row has its blob file (a blob may still lack its row). */
  ghost predicate BlobsPresent(db: Db) {
    db.rows.Keys <= db.blobs.Keys
  }

  /** Every blob is filed under the digest of its own content. */
  ghost predicate ContentAddressed(db: Db, sha256: Bytes -> Digest) {
    forall h :: h in db.blobs ==> sha256(db.blobs[h]) == h
  }

  // ---- result sets of table scans ----

  function Hashes(es: seq<ObjectInfo>): set<Digest> {
    if es == [] then {} else {es[0].hash} + Hashes(es[1..])
  }

  /** No digest occurs twice (digest is the primary key). */
  predicate Distinct(es: seq<ObjectInfo>) {
    es == [] || (es[0].hash !in Hashes(es[1..]) && Distinct(es[1..]))
  }

  /** Every scanned entry is the table's row for its digest. */
  ghost predicate Matches(es: seq<ObjectInfo>, rows: map<Digest, Row>) {
    forall e :: e in es ==> e.hash in rows && InfoOf(e.hash, rows[e.hash]) == e
  }

  /** `es` lists every row of the table once: the result of a full SELECT. */
  ghost predicate Enumerates(es: seq<ObjectInfo>, rows: map<Digest, Row>) {
    Distinct(es) && Hashes(es) == rows.Keys && Matches(es, rows)
  }

  lemma {:induction false} InHashes(es: seq<ObjectInfo>, e: ObjectInfo)
    requires e in es
    ensures e.hash in Hashes(es)
  {
    if es[0] != e {
      InHashes(es[1..], e);
    }
  }

  lemma {:induction false} HashesMember(es: seq<ObjectInfo>, h: Digest) returns (i: nat)
    requires h in Hashes(es)
    ensures i < |es| && es[i].hash == h
  {
    if es[0].hash == h {
      i := 0;
    } else {
      var j := HashesMember(es[1..], h);
      i := j + 1;
    }
  }

  /** Sum of the sizes of scanned entries. */
  function Sum(es: seq<ObjectInfo>): nat {
    if es == [] then 0 else es[0].size + Sum(es[1..])
  }

  /** `SELECT COALESCE(SUM(size), 0) FROM objects`: the sum of the sizes of all rows. */
  ghost function TableBytes(rows: map<Digest, Row>): nat
    decreases |rows|
  {
    if rows == map[] then 0
    else
      var h :| h in rows;
      assert |rows - {h}| < |rows| by { assert (rows - {h}).Keys == rows.Keys - {h}; }
      rows[h].size + TableBytes(rows - {h})
  }

  lemma ProperRemoval(rows: map<Digest, Row>, h: Digest)
    requires h in rows
    ensures (rows - {h}).Keys == rows.Keys - {h}
    ensures |rows - {h}| == |rows| - 1
  {
    assert (rows - {h}).Keys == rows.Keys - {h};
  }

  /** The table total does not depend on the order in which rows are added up. */
  lemma {:induction false} TableBytesRemove(rows: map<Digest, Row>, h: Digest)
    requires h in rows
    ensures TableBytes(rows) == rows[h].size + TableBytes(rows - {h})
    decreases |rows|
  {
    var k :| k in rows && TableBytes(rows) == rows[k].size + TableBytes(rows - {k});
    if k != h {
      ProperRemoval(rows, k);
      ProperRemoval(rows, h);
      TableBytesRemove(rows - {k}, h);
      TableBytesRemove(rows - {h}, k);
      assert rows - {k} - {h} == rows - {h} - {k};
    }
  }

  /** No row is larger than the table total. */
  lemma RowWithinTotal(rows: map<Digest, Row>, h: Digest)
    requires h in rows
    ensures rows[h].size <= TableBytes(rows)
  {
    TableBytesRemove(rows, h);
  }

  /** Distinctness read position by position. */
  lemma {:induction false} DistinctIff(es: seq<ObjectInfo>)
    ensures Distinct(es) <==> forall i, j :: 0 <= i < j < |es| ==> es[i].hash != es[j].hash
  {
    if es != [] {
      var t := es[1..];
      DistinctIff(t);
      if Distinct(es) {
        forall i, j | 0 <= i < j < |es| ensures es[i].hash != es[j].hash {
          if i == 0 {
            assert es[j] == t[j - 1];
            InHashes(t, t[j - 1]);
          } else {
            assert es[i] == t[i - 1] && es[j] == t[j - 1];
          }
        }
      }
      if forall i, j :: 0 <= i < j < |es| ==> es[i].hash != es[j].hash {
        if es[0].hash in Hashes(t) {
          var k := HashesMember(t, es[0].hash);
          assert false;
        }
        forall i, j | 0 <= i < j < |t| ensures t[i].hash != t[j].hash {
          assert t[i] == es[i + 1] && t[j] == es[j + 1];
        }
      }
    }
  }

  /** A digest is in a scan exactly when some entry carries it. */
  lemma {:induction false} HashesIff(es: seq<ObjectInfo>, h: Digest)
    ensures h in Hashes(es) <==> exists x :: x in es && x.hash == h
  {
    if h in Hashes(es) {
      var i := HashesMember(es, h);
      assert es[i] in es;
    }
    if exists x :: x in es && x.hash == h {
      var x :| x in es && x.hash == h;
      InHashes(es, x);
    }
  }

  /** A prefix of a scan is again a scan of the same table. */
  lemma {:induction false} PrefixKeepsScan(es: seq<ObjectInfo>, rows: map<Digest, Row>, k: nat)
    requires Distinct(es) && Matches(es, rows) && k <= |es|
    ensures Distinct(es[..k]) && Matches(es[..k], rows)
  {
    DistinctIff(es);
    DistinctIff(es[..k]);
    forall x | x in es[..k] ensures x in es { }
  }

  /**
   * Removing the rows of a scanned prefix lowers the table total by their sizes:
   * the running `total` of the size pass is the table total.
   */
  lemma {:induction false} TableBytesMinus(rows: map<Digest, Row>, es: seq<ObjectInfo>)
    requires Distinct(es) && Matches(es, rows)
    ensures TableBytes(rows - Hashes(es)) + Sum(es) == TableBytes(rows)
  {
    if es == [] {
      assert rows - Hashes(es) == rows;
    } else {
      var e := es[0];
      var rest := rows - {e.hash};
      assert e in es;
      TableBytesRemove(rows, e.hash);
      forall x | x in es[1..] ensures x.hash in rest && InfoOf(x.hash, rest[x.hash]) == x {
        assert x in es;
        InHashes(es[1..], x);
      }
      TableBytesMinus(rest, es[1..]);
      assert rest - Hashes(es[1..]) == rows - Hashes(es);
    }
  }

  /** A full scan has one entry per row. */
  lemma {:induction false} EnumeratedCount(es: seq<ObjectInfo>, rows: map<Digest, Row>)
    requires Distinct(es)
    ensures |Hashes(es)| == |es|
    ensures Hashes(es) == rows.Keys ==> |es| == |rows|
  {
    if es != [] {
      EnumeratedCount(es[1..], rows);
    }
  }

  /** A full scan adds up to the table total. */
  lemma {:induction false} EnumeratedBytes(es: seq<ObjectInfo>, rows: map<Digest, Row>)
    requires Enumerates(es, rows)
    ensures Sum(es) == TableBytes(rows)
  {
    TableBytesMinus(rows, es);
    assert rows - Hashes(es) == map[];
  }

  // ---- ORDER BY last_accessed ----

  predicate SortedAsc(es: seq<ObjectInfo>) {
    forall i, j :: 0 <= i < j < |es| ==> StampLe(es[i].lastAccessed, es[j].lastAccessed)
  }

  predicate SortedDesc(es: seq<ObjectInfo>) {
    forall i, j :: 0 <= i < j < |es| ==> StampLe(es[j].lastAccessed, es[i].lastAccessed)
  }

  /** Insertion of `x` before the first row not accessed before it. */
  function Insert(x: ObjectInfo, es: seq<ObjectInfo>): (r: seq<ObjectInfo>)
    ensures multiset(r) == multiset(es) + multiset{x}
  {
    if es == [] || StampLe(x.lastAccessed, es[0].lastAccessed) then
      [x] + es
    else
      assert es == [es[0]] + es[1..];
      [es[0]] + Insert(x, es[1..])
  }

  /** Inserting into an ascending scan keeps it ascending. */
  lemma {:induction false} InsertSorted(x: ObjectInfo, es: seq<ObjectInfo>)
    requires SortedAsc(es)
    ensures SortedAsc(Insert(x, es))
    decreases |es|
  {
    var r := Insert(x, es);
    if es == [] || StampLe(x.lastAccessed, es[0].lastAccessed) {
      forall i, j | 0 <= i < j < |r| ensures StampLe(r[i].lastAccessed, r[j].lastAccessed) {
        assert r[j] == es[j - 1];
        if i > 0 {
          assert r[i] == es[i - 1];
        } else {
          StampLeTotalPreorder(x.lastAccessed, es[0].lastAccessed, es[j - 1].lastAccessed);
        }
      }
    } else {
      var tail := Insert(x, es[1..]);
      assert SortedAsc(es[1..]) by {
        forall i, j | 0 <= i < j < |es[1..]|
          ensures StampLe(es[1..][i].lastAccessed, es[1..][j].lastAccessed)
        {
          assert es[1..][i] == es[i + 1] && es[1..][j] == es[j + 1];
        }
      }
      InsertSorted(x, es[1..]);
      forall i, j | 0 <= i < j < |r| ensures StampLe(r[i].lastAccessed, r[j].lastAccessed) {
        assert r[j] == tail[j - 1];
        if i > 0 {
          assert r[i] == tail[i - 1];
        } else {
          var y := tail[j - 1];
          assert y in multiset(tail);
          if y != x {
            assert y in es[1..];
            var k :| 0 <= k < |es[1..]| && es[1..][k] == y;
            assert es[k + 1] == y;
          } else {
            StampLeTotalPreorder(x.lastAccessed, es[0].lastAccessed, x.lastAccessed);
          }
        }
      }
    }
  }

  /** The rows of a scan in ascending `last_accessed` order (ties in scan order). */
  function SortAsc(es: seq<ObjectInfo>): (r: seq<ObjectInfo>)
    ensures multiset(r) == multiset(es)
  {
    if es == [] then []
    else
      assert es == [es[0]] + es[1..];
      Insert(es[0], SortAsc(es[1..]))
  }

  lemma {:induction false} SortAscSorted(es: seq<ObjectInfo>)
    ensures SortedAsc(SortAsc(es))
  {
    if es != [] {
      SortAscSorted(es[1..]);
      InsertSorted(es[0], SortAsc(es[1..]));
    }
  }

  /** A scan names at most one digest per entry, exactly one when its digests are distinct. */
  lemma {:induction false} HashesCount(es: seq<ObjectInfo>)
    ensures |Hashes(es)| <= |es|
    ensures |Hashes(es)| == |es| <==> Distinct(es)
  {
    if es != [] {
      HashesCount(es[1..]);
      if es[0].hash in Hashes(es[1..]) {
        assert Hashes(es) == Hashes(es[1..]);
      }
    }
  }

  /** Reordering a scan keeps its digests, its distinctness and its agreement with the table. */
  lemma PermutationKeepsScan(a: seq<ObjectInfo>, b: seq<ObjectInfo>, rows: map<Digest, Row>)
    requires multiset(a) == multiset(b)
    ensures Hashes(a) == Hashes(b)
    ensures Distinct(a) ==> Distinct(b)
    ensures Matches(a, rows) ==> Matches(b, rows)
  {
    assert forall x :: x in a <==> x in b by {
      forall x ensures x in a <==> x in b {
        assert x in a <==> x in multiset(a);
        assert x in b <==> x in multiset(b);
      }
    }
    forall h ensures h in Hashes(a) <==> h in Hashes(b) {
      HashesIff(a, h);
      HashesIff(b, h);
    }
    assert |a| == |multiset(a)| == |multiset(b)| == |b|;
    HashesCount(a);
    HashesCount(b);
  }

  function Reverse(es: seq<ObjectInfo>): (r: seq<ObjectInfo>)
    ensures |r| == |es|
    ensures forall i :: 0 <= i < |es| ==> r[i] == es[|es| - 1 - i]
  {
    if es == [] then [] else Reverse(es[1..]) + [es[0]]
  }

  lemma ReverseMembers(es: seq<ObjectInfo>)
    ensures forall x :: x in Reverse(es) <==> x in es
  {
    var r := Reverse(es);
    var n := |es|;
    forall x | x in r ensures x in es {
      var i :| 0 <= i < n && r[i] == x;
      assert es[n - 1 - i] == x;
    }
    forall x | x in es ensures x in r {
      var i :| 0 <= i < n && es[i] == x;
      assert r[n - 1 - i] == x;
    }
  }

  /** Reversal turns ascending into descending. */
  lemma ReverseSorted(es: seq<ObjectInfo>)
    requires SortedAsc(es)
    ensures SortedDesc(Reverse(es))
  {
    var r := Reverse(es);
    var n := |es|;
    forall i, j | 0 <= i < j < n ensures StampLe(r[j].lastAccessed, r[i].lastAccessed) {
      assert r[i] == es[n - 1 - i] && r[j] == es[n - 1 - j];
    }
  }

  /** Reversing a scan keeps it a scan of the same rows, and turns ascending into descending. */
  lemma ReverseKeepsScan(es: seq<ObjectInfo>, rows: map<Digest, Row>)
    requires Distinct(es) && Matches(es, rows)
    ensures Distinct(Reverse(es)) && Matches(Reverse(es), rows) && Hashes(Reverse(es)) == Hashes(es)
    ensures SortedAsc(es) ==> SortedDesc(Reverse(es))
  {
    var r := Reverse(es);
    if SortedAsc(es) {
      ReverseSorted(es);
    }
    ReverseHashes(es);
    HashesCount(es);
    HashesCount(r);
    assert |Hashes(r)| == |r|;
    ReverseMembers(es);
  }

  lemma ReverseHashes(es: seq<ObjectInfo>)
    ensures Hashes(Reverse(es)) == Hashes(es)
  {
    var r := Reverse(es);
    ReverseMembers(es);
    forall h ensures h in Hashes(r) <==> h in Hashes(es) {
      HashesIff(r, h);
      HashesIff(es, h);
    }
  }

  /**
   * The first `n` entries of a newest-first enumeration: a newest-first scan of the
   * table, and none of the rows left out was accessed later than one kept.
   */
  lemma NewestPrefix(es: seq<ObjectInfo>, rows: map<Digest, Row>, n: nat)
    requires Enumerates(es, rows) && SortedDesc(es) && n <= |es|
    ensures Distinct(es[..n]) && Matches(es[..n], rows) && SortedDesc(es[..n])
    ensures forall h, i :: h in rows && h !in Hashes(es[..n]) && 0 <= i < n ==>
      StampLe(rows[h].lastAccessed, es[..n][i].lastAccessed)
  {
    var top := es[..n];
    PrefixKeepsScan(es, rows, n);
    forall h, i | h in rows && h !in Hashes(top) && 0 <= i < n
      ensures StampLe(rows[h].lastAccessed, top[i].lastAccessed)
    {
      var j := HashesMember(es, h);
      if j < n {
        assert top[j] == es[j];
        InHashes(top, top[j]);
        assert false;
      }
      assert es[j] in es;
      assert top[i] == es[i];
    }
  }

  /** A sorted scan keeps the whole table: it is still a full enumeration. */
  lemma SortKeepsEnumeration(es: seq<ObjectInfo>, rows: map<Digest, Row>)
    requires Enumerates(es, rows)
    ensures Enumerates(SortAsc(es), rows) && SortedAsc(SortAsc(es))
  {
    PermutationKeepsScan(es, SortAsc(es), rows);
    SortAscSorted(es);
  }
}
