/** `_blob_path`: where a blob lives under the store root. */
module Layout {
  import opened Refs

  const BLOB_DIR: string := "blobs"

  /**
   * The path of a digest's blob as its segments below the store root:
   * `blobs/<h[0:2]>/<h[2:4]>/<h>`. The two shard directories are two hex
   * digits each, so there are at most 256 * 256 of them.
   */
  function BlobPath(h: Digest): (p: seq<string>)
    ensures |p| == 4 && p[0] == BLOB_DIR && p[3] == h
    ensures |p[1]| == 2 && |p[2]| == 2 && p[1] + p[2] == h[..4]
    ensures forall i :: 0 <= i < 2 ==> IsHexDigit(p[1][i]) && IsHexDigit(p[2][i])
  {
    [BLOB_DIR, h[..2], h[2..4], h]
  }

  /** Distinct digests never share a blob file. */
  lemma BlobPathInjective(h1: Digest, h2: Digest)
    ensures BlobPath(h1) == BlobPath(h2) <==> h1 == h2
  {
    if BlobPath(h1) == BlobPath(h2) {
      assert BlobPath(h1)[3] == BlobPath(h2)[3];
    }
  }

  /** Two blobs share a shard directory exactly when their digests share four leading digits. */
  lemma {:induction false} SameShard(h1: Digest, h2: Digest)
    ensures BlobPath(h1)[..3] == BlobPath(h2)[..3] <==> h1[..4] == h2[..4]
  {
    var p1, p2 := BlobPath(h1), BlobPath(h2);
    if h1[..4] == h2[..4] {
      assert h1[..2] == h1[..4][..2] && h2[..2] == h2[..4][..2];
      assert h1[2..4] == h1[..4][2..] && h2[2..4] == h2[..4][2..];
      assert p1[..3] == [BLOB_DIR, h1[..2], h1[2..4]];
      assert p2[..3] == [BLOB_DIR, h2[..2], h2[2..4]];
    }
    if p1[..3] == p2[..3] {
      assert p1[1] == p2[1] && p1[2] == p2[2];
    }
  }
}
