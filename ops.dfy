/**
 * The store's lookup and update operations as transitions of the persistent state
 * (blob tree and `objects` table), each an atomic step. The `Store` class in
 * module StoreEngine performs them in place; the lemmas here state what they promise.
 */
module Ops {
  import opened Base
  import opened Refs
  import opened Index

  /** What an operation hands back, and the state it leaves behind. */
  datatype Reply<T> = Reply(out: T, db: Db)

  /** The store's errors: `ValueError` for a malformed reference, `FileNotFoundError` for a missing blob. */
  datatype Failure = InvalidRef | MissingBlob(hash: Digest)

  /** `parse_ref` as a digest. */
  function DigestOf(ref: string): Option<Digest> {
    match ParseRef(ref)
    case None => None
    case Some(s) => Some(s)
  }

  /** `_touch`: UPDATE of `last_accessed`, which matches no row when there is none. */
  function Touch(db: Db, h: Digest, now: int): (r: Db)
    ensures r.blobs == db.blobs && r.rows.Keys == db.rows.Keys
    ensures h in db.rows ==> r.rows[h].lastAccessed == At(now) && r.rows[h].size == db.rows[h].size
  {
    if h in db.rows then db.(rows := db.rows[h := db.rows[h].(lastAccessed := At(now))]) else db
  }

  /** `_delete_blob`: removes the blob file if it exists and says whether it did. */
  function DeleteBlob(db: Db, h: Digest): (r: Reply<bool>)
    ensures r.out <==> h in db.blobs
    ensures r.db.rows == db.rows && r.db.blobs == db.blobs - {h}
  {
    if h in db.blobs then Reply(true, db.(blobs := db.blobs - {h})) else Reply(false, db)
  }

  /** `has`: asks the blob tree, not the table. */
  function Has(db: Db, ref: string, now: int): (r: Reply<bool>)
    ensures r.out <==> DigestOf(ref).Some? && DigestOf(ref).value in db.blobs
    ensures r.db.blobs == db.blobs && r.db.rows.Keys == db.rows.Keys
  {
    match DigestOf(ref)
    case None => Reply(false, db)
    case Some(h) => if h in db.blobs then Reply(true, Touch(db, h, now)) else Reply(false, db)
  }

  /** `info`: asks the table, and returns the row as it was read, before the touch. */
  function Info(db: Db, ref: string, now: int): (r: Reply<Option<ObjectInfo>>)
    ensures r.out.Some? <==> DigestOf(ref).Some? && DigestOf(ref).value in db.rows
    ensures r.out.Some? ==> r.out.value == InfoOf(DigestOf(ref).value, db.rows[DigestOf(ref).value])
    ensures r.db.blobs == db.blobs && r.db.rows.Keys == db.rows.Keys
  {
    match DigestOf(ref)
    case None => Reply(None, db)
    case Some(h) =>
      if h in db.rows then Reply(Some(InfoOf(h, db.rows[h])), Touch(db, h, now)) else Reply(None, db)
  }

  /** `get`: the stored bytes of a blob (the copy to stdout or to a file is not modelled). */
  function Get(db: Db, ref: string, now: int): (r: Reply<Result<Bytes, Failure>>)
    ensures r.out == Err(InvalidRef) <==> DigestOf(ref).None?
    ensures r.out.Ok? <==> DigestOf(ref).Some? && DigestOf(ref).value in db.blobs
    ensures r.out.Ok? ==> r.out.value == db.blobs[DigestOf(ref).value]
    ensures r.db.blobs == db.blobs && r.db.rows.Keys == db.rows.Keys
  {
    match DigestOf(ref)
    case None => Reply(Err(InvalidRef), db)
    case Some(h) =>
      if h in db.blobs then Reply(Ok(db.blobs[h]), Touch(db, h, now))
      else Reply(Err(MissingBlob(h)), db)
  }

  /**
   * `put`: the staged upload becomes the blob unless a blob with that digest is already
   * there (then the staged copy is unlinked), and the row is INSERT OR IGNOREd.
   */
  function Put(db: Db, sha256: Bytes -> Digest, data: Bytes, now: int): (r: Reply<string>)
    ensures r.out == FormatRef(sha256(data))
    ensures r.db.blobs.Keys == db.blobs.Keys + {sha256(data)} && r.db.rows.Keys == db.rows.Keys + {sha256(data)}
    ensures forall k :: k in db.blobs ==> r.db.blobs[k] == db.blobs[k]
    ensures forall k :: k in db.rows ==> r.db.rows[k] == db.rows[k]
  {
    var h := sha256(data);
    var blobs := if h in db.blobs then db.blobs else db.blobs[h := data];
    var rows := if h in db.rows then db.rows else db.rows[h := Row(|data|, At(now), At(now))];
    Reply(FormatRef(h), Db(blobs, rows))
  }

  /** `delete`: the row goes only when a blob was there to delete. */
  function Delete(db: Db, ref: string): (r: Reply<Result<bool, Failure>>)
    ensures r.out == Err(InvalidRef) <==> DigestOf(ref).None?
    ensures r.out == Ok(true) <==> DigestOf(ref).Some? && DigestOf(ref).value in db.blobs
    ensures r.db.blobs.Keys <= db.blobs.Keys && r.db.rows.Keys <= db.rows.Keys
    ensures r.out.Ok? ==> DigestOf(ref).value !in r.db.blobs
  {
    match DigestOf(ref)
    case None => Reply(Err(InvalidRef), db)
    case Some(h) =>
      var r := DeleteBlob(db, h);
      if r.out then Reply(Ok(true), r.db.(rows := r.db.rows - {h})) else Reply(Ok(false), r.db)
  }

  // ---- what a touch may change ----

  /** `after` differs from `before` at most in the `last_accessed` of `h`, which is now. */
  ghost predicate TouchedOnly(before: Db, after: Db, h: Digest, now: int) {
    after.blobs == before.blobs &&
    after.rows.Keys == before.rows.Keys &&
    (forall k :: k in before.rows && k != h ==> after.rows[k] == before.rows[k]) &&
    (h in before.rows ==> after.rows[h] == before.rows[h].(lastAccessed := At(now)))
  }

  /** `_touch` changes the one timestamp, and nothing at all when the row is missing. */
  lemma TouchChangesOneStamp(db: Db, h: Digest, now: int)
    ensures TouchedOnly(db, Touch(db, h, now), h, now)
    ensures h !in db.rows ==> Touch(db, h, now) == db
  {
  }

  lemma {:induction false} DigestOfIsParse(ref: string)
    ensures DigestOf(ref).None? <==> ParseRef(ref).None?
    ensures DigestOf(ref).Some? ==> ParseRef(ref) == Some(DigestOf(ref).value)
  {
  }

  /** A malformed reference: negative answers from `has`/`info`, errors from `get`/`delete`, no change. */
  lemma InvalidRefChangesNothing(db: Db, ref: string, now: int)
    requires ParseRef(ref).None?
    ensures Has(db, ref, now) == Reply(false, db)
    ensures Info(db, ref, now) == Reply(None, db)
    ensures Get(db, ref, now) == Reply(Err(InvalidRef), db)
    ensures Delete(db, ref) == Reply(Err(InvalidRef), db)
  {
  }

  /** The reference `put` hands out names its digest. */
  lemma {:induction false} DigestOfFormat(h: Digest)
    ensures DigestOf(FormatRef(h)) == Some(h)
  {
    ParseFormatRoundTrip(h);
  }

  /**
   * A successful `has`, `info` or `get` touches the digest it names and nothing else;
   * an unsuccessful one changes nothing.
   */
  lemma {:induction false} LookupsTouchOnlyTheirDigest(db: Db, ref: string, h: Digest, now: int)
    requires DigestOf(ref) == Some(h)
    ensures Has(db, ref, now).out <==> h in db.blobs
    ensures Info(db, ref, now).out.Some? <==> h in db.rows
    ensures Get(db, ref, now).out == if h in db.blobs then Ok(db.blobs[h]) else Err(MissingBlob(h))
    ensures var r := Has(db, ref, now);
      if r.out then TouchedOnly(db, r.db, h, now) else r.db == db
    ensures var r := Info(db, ref, now);
      if r.out.Some? then TouchedOnly(db, r.db, h, now) && r.out.value == InfoOf(h, db.rows[h]) else r.db == db
    ensures var r := Get(db, ref, now);
      if r.out.Ok? then TouchedOnly(db, r.db, h, now) else r.db == db
  {
    TouchChangesOneStamp(db, h, now);
  }

  /**
   * `has` and `info` consult different halves: a blob without a row is found by `has`
   * but not by `info`, a row without a blob the other way round. On a consistent
   * store they agree.
   */
  lemma {:induction false} HasInfoAsymmetry(db: Db, h: Digest, now: int)
    ensures h in db.blobs && h !in db.rows ==>
      Has(db, FormatRef(h), now) == Reply(true, db) && Info(db, FormatRef(h), now).out == None
    ensures h !in db.blobs && h in db.rows ==>
      !Has(db, FormatRef(h), now).out && Info(db, FormatRef(h), now).out.Some?
    ensures Consistent(db) ==>
      (Has(db, FormatRef(h), now).out <==> Info(db, FormatRef(h), now).out.Some?)
  {
    DigestOfFormat(h);
    LookupsTouchOnlyTheirDigest(db, FormatRef(h), h, now);
  }

  // ---- put ----

  /** The reference `put` returns parses back to the digest of the content. */
  lemma PutRefParses(db: Db, sha256: Bytes -> Digest, data: Bytes, now: int)
    ensures ParseRef(Put(db, sha256, data, now).out) == Some(sha256(data))
    ensures SCHEME <= Put(db, sha256, data, now).out
  {
    ParseFormatRoundTrip(sha256(data));
  }

  /**
   * Round trip: after `put(B)`, `has` is true, `info` reports `len(B)` and `get` yields `B`,
   * unless other content, or a row of another size, was already filed under the same
   * digest. A blob left without its row, or any other digest out of step, does not matter.
   */
  lemma {:induction false} PutThenLookup(db: Db, sha256: Bytes -> Digest, data: Bytes, now: int, later: int)
    requires sha256(data) in db.blobs ==> db.blobs[sha256(data)] == data
    requires sha256(data) in db.rows ==> db.rows[sha256(data)].size == |data|
    ensures var r := Put(db, sha256, data, now);
      Has(r.db, r.out, later).out &&
      Info(r.db, r.out, later).out.Some? && Info(r.db, r.out, later).out.value.size == |data| &&
      Get(r.db, r.out, later).out == Ok(data)
  {
    var h := sha256(data);
    var r := Put(db, sha256, data, now);
    DigestOfFormat(h);
    LookupsTouchOnlyTheirDigest(r.db, r.out, h, later);
  }

  /** In a content-addressed store only a SHA-256 collision can make `get(put(B))` differ from B. */
  lemma {:induction false} OnlyCollisionBreaksRoundTrip(db: Db, sha256: Bytes -> Digest, data: Bytes, now: int, later: int)
    requires ContentAddressed(db, sha256)
    ensures var r := Put(db, sha256, data, now);
      Get(r.db, r.out, later).out == Ok(data) ||
      (var h := sha256(data); h in db.blobs && db.blobs[h] != data && sha256(db.blobs[h]) == sha256(data))
  {
    var r := Put(db, sha256, data, now);
    DigestOfFormat(sha256(data));
    LookupsTouchOnlyTheirDigest(r.db, r.out, sha256(data), later);
  }

  /**
   * Dedup: putting the same content again returns the same reference and changes
   * nothing — not the stored bytes, and not `created_at` or `last_accessed`.
   */
  lemma PutTwiceIsPutOnce(db: Db, sha256: Bytes -> Digest, data: Bytes, now: int, later: int)
    ensures var first := Put(db, sha256, data, now);
      Put(first.db, sha256, data, later) == first
  {
  }

  /**
   * INSERT OR IGNORE and the existence check: an existing row and an existing blob are
   * kept as they are; a blob whose row went missing gets a row again (self-healing).
   */
  lemma PutKeepsExisting(db: Db, sha256: Bytes -> Digest, data: Bytes, now: int)
    ensures var h := sha256(data); var r := Put(db, sha256, data, now);
      (h in db.rows ==> r.db.rows == db.rows) &&
      (h in db.blobs ==> r.db.blobs == db.blobs) &&
      (h !in db.rows ==> r.db.rows == db.rows[h := Row(|data|, At(now), At(now))]) &&
      (h !in db.blobs ==> r.db.blobs == db.blobs[h := data])
  {
  }

  // ---- delete ----

  /** `delete` returns true exactly when the blob existed; the row goes only then; `has` is false afterwards. */
  lemma {:induction false} DeleteRemoves(db: Db, h: Digest, now: int)
    ensures var r := Delete(db, FormatRef(h));
      r.out == Ok(h in db.blobs) &&
      r.db.blobs == db.blobs - {h} &&
      r.db.rows == (if h in db.blobs then db.rows - {h} else db.rows) &&
      !Has(r.db, FormatRef(h), now).out
  {
    DigestOfFormat(h);
    var r := Delete(db, FormatRef(h));
    if h !in db.blobs {
      assert db.blobs - {h} == db.blobs;
    }
    LookupsTouchOnlyTheirDigest(r.db, FormatRef(h), h, now);
  }

  // ---- invariants ----

  lemma TouchKeepsConsistent(before: Db, after: Db, h: Digest, now: int)
    requires Consistent(before) && TouchedOnly(before, after, h, now)
    ensures Consistent(after)
  {
    forall k | k in after.rows ensures after.rows[k].size == |after.blobs[k]| {
      if k == h {
        assert after.rows[h] == before.rows[h].(lastAccessed := At(now));
      } else {
        assert after.rows[k] == before.rows[k];
      }
    }
  }

  /**
   * `put` keeps blob tree and table in step, even on a digest collision: a digest
   * already present keeps both its blob and its row.
   */
  lemma PutKeepsConsistent(db: Db, sha256: Bytes -> Digest, data: Bytes, now: int)
    requires Consistent(db)
    ensures Consistent(Put(db, sha256, data, now).db)
  {
  }

  /** `delete` keeps blob tree and table in step. */
  lemma {:induction false} DeleteKeepsConsistent(db: Db, ref: string)
    requires Consistent(db)
    ensures Consistent(Delete(db, ref).db)
  {
    match DigestOf(ref)
    case None =>
    case Some(k) =>
      var d := Delete(db, ref).db;
      if k in db.blobs {
        assert d.blobs.Keys == db.blobs.Keys - {k};
        assert d.rows.Keys == db.rows.Keys - {k};
      } else {
        assert d == db;
      }
  }

  /** The lookups and `_touch` keep blob tree and table in step. */
  lemma {:induction false} LookupsKeepConsistent(db: Db, ref: string, h: Digest, now: int)
    requires Consistent(db)
    ensures Consistent(Touch(db, h, now))
    ensures Consistent(Has(db, ref, now).db)
    ensures Consistent(Info(db, ref, now).db)
    ensures Consistent(Get(db, ref, now).db)
  {
    TouchChangesOneStamp(db, h, now);
    TouchKeepsConsistent(db, Touch(db, h, now), h, now);
    match DigestOf(ref)
    case None =>
    case Some(k) =>
      LookupsTouchOnlyTheirDigest(db, ref, k, now);
      TouchChangesOneStamp(db, k, now);
      TouchKeepsConsistent(db, Touch(db, k, now), k, now);
  }

  /** Lookups leave the blob tree as it was (stamps live in the table); `delete` only removes blobs. */
  lemma LookupsAndDeleteKeepBlobs(db: Db, ref: string, h: Digest, now: int)
    ensures Touch(db, h, now).blobs == db.blobs
    ensures Has(db, ref, now).db.blobs == db.blobs
    ensures Info(db, ref, now).db.blobs == db.blobs
    ensures Get(db, ref, now).db.blobs == db.blobs
    ensures Delete(db, ref).db.blobs.Keys <= db.blobs.Keys
    ensures forall k :: k in Delete(db, ref).db.blobs ==> Delete(db, ref).db.blobs[k] == db.blobs[k]
  {
    match DigestOf(ref)
    case None =>
    case Some(k) =>
      LookupsTouchOnlyTheirDigest(db, ref, k, now);
  }

  /** Every operation keeps each blob filed under the digest of its content. */
  lemma OperationsKeepContentAddressed(db: Db, sha256: Bytes -> Digest, data: Bytes, ref: string, h: Digest, now: int)
    requires ContentAddressed(db, sha256)
    ensures ContentAddressed(Put(db, sha256, data, now).db, sha256)
    ensures ContentAddressed(Touch(db, h, now), sha256)
    ensures ContentAddressed(Delete(db, ref).db, sha256)
    ensures ContentAddressed(Has(db, ref, now).db, sha256)
    ensures ContentAddressed(Info(db, ref, now).db, sha256)
    ensures ContentAddressed(Get(db, ref, now).db, sha256)
  {
    LookupsAndDeleteKeepBlobs(db, ref, h, now);
  }
}
