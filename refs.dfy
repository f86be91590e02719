/**
 * The public reference codec: `vhs://<digest>` strings and the digests they name.
 * A digest is the 64-character lowercase hexadecimal form of a SHA-256 hash.
 */
module Refs {
  import opened Base

  const SCHEME: string := "vhs://"
  const HEX_DIGITS: string := "0123456789abcdef"

  predicate IsHexDigit(c: char) { '0' <= c <= '9' || 'a' <= c <= 'f' }

  /** The range test is the membership test in `HEX_DIGITS`. */
  lemma HexDigitsAreRange(c: char)
    ensures c in HEX_DIGITS <==> IsHexDigit(c)
  {
  }

  predicate IsDigest(s: string) {
    |s| == 64 && forall i :: 0 <= i < |s| ==> IsHexDigit(s[i])
  }

  type Digest = s: string | IsDigest(s)
    witness seq(64, _ => '0')

  /** The characters Python's `str.isspace` accepts, which `str.strip()` removes. */
  predicate IsSpace(c: char) {
    var n := c as int;
    (0x09 <= n <= 0x0D) || (0x1C <= n <= 0x20) || n == 0x85 || n == 0xA0 || n == 0x1680
    || (0x2000 <= n <= 0x200A) || n == 0x2028 || n == 0x2029 || n == 0x202F
    || n == 0x205F || n == 0x3000
  }

  predicate AllSpace(s: string) {
    forall i :: 0 <= i < |s| ==> IsSpace(s[i])
  }

  /** Leading whitespace removed: the result is the suffix of `s` after a run of spaces. */
  function TrimLeft(s: string): (r: string)
    ensures |r| <= |s| && r == s[|s| - |r|..]
    ensures AllSpace(s[..|s| - |r|])
    ensures r == [] || !IsSpace(r[0])
  {
    if s != [] && IsSpace(s[0]) then
      var t := s[1..];
      var r := TrimLeft(t);
      assert t[|t| - |r|..] == s[|s| - |r|..];
      assert s[..|s| - |r|] == [s[0]] + t[..|t| - |r|];
      r
    else
      assert s[..0] == [];
      s
  }

  /** Trailing whitespace removed: the result is the prefix of `s` before a run of spaces. */
  function TrimRight(s: string): (r: string)
    ensures |r| <= |s| && r == s[..|r|]
    ensures AllSpace(s[|r|..])
    ensures r == [] || !IsSpace(r[|r| - 1])
  {
    if s != [] && IsSpace(s[|s| - 1]) then
      var t := s[..|s| - 1];
      var r := TrimRight(t);
      assert t[..|r|] == s[..|r|];
      assert s[|r|..] == t[|r|..] + [s[|s| - 1]];
      r
    else
      assert s[|s|..] == [];
      s
  }

  /** Python's `str.strip()` with no argument. */
  function Strip(s: string): (r: string)
    ensures |r| <= |s|
    ensures r == [] || (!IsSpace(r[0]) && !IsSpace(r[|r| - 1]))
    ensures AllSpace(s) ==> r == []
  {
    TrimRight(TrimLeft(s))
  }

  /** `ref[len(SCHEME):]` when `ref.startswith(SCHEME)`: at most one scheme marker goes. */
  function DropScheme(ref: string): (r: string)
    ensures SCHEME <= ref ==> ref == SCHEME + r
    ensures !(SCHEME <= ref) ==> r == ref
  {
    if SCHEME <= ref then ref[|SCHEME|..] else ref
  }

  /**
   * `parse_ref`: the digest a reference names, or None. It never fails otherwise.
   * The character test is `c in HEX_DIGITS`, written as a range (`HexDigitsAreRange`).
   */
  function ParseRef(ref: string): (r: Option<string>)
    ensures r.Some? ==> IsDigest(r.value)
  {
    var body := Strip(DropScheme(ref));
    if |body| != 64 then None
    else if !(forall i :: 0 <= i < |body| ==> IsHexDigit(body[i])) then None
    else Some(body)
  }

  /** The reference `put` hands back for a digest. */
  function FormatRef(h: Digest): (r: string)
    ensures |r| == |SCHEME| + 64 && SCHEME <= r && r[|SCHEME|..] == h
  {
    SCHEME + h
  }

  lemma TrimLeftOfPadded(w: string, t: string)
    requires AllSpace(w) && t != [] && !IsSpace(t[0])
    ensures TrimLeft(w + t) == t
    decreases |w|
  {
    if w != [] {
      assert (w + t)[1..] == w[1..] + t;
      TrimLeftOfPadded(w[1..], t);
    } else {
      assert w + t == t;
    }
  }

  lemma TrimRightOfPadded(t: string, w: string)
    requires AllSpace(w) && t != [] && !IsSpace(t[|t| - 1])
    ensures TrimRight(t + w) == t
    decreases |w|
  {
    if w != [] {
      assert (t + w)[..|t + w| - 1] == t + w[..|w| - 1];
      TrimRightOfPadded(t, w[..|w| - 1]);
    } else {
      assert t + w == t;
    }
  }

  /** Within ASCII, `IsSpace` is the blank and tab through carriage return; no printable character is one. */
  lemma AsciiSpaces(c: char)
    ensures (c == ' ' || 0x09 <= c as int <= 0x0D) ==> IsSpace(c)
    ensures IsSpace(c) ==> !(0x21 <= c as int <= 0x7E)
  {
  }

  lemma HexIsNotSpace(c: char)
    requires IsHexDigit(c)
    ensures !IsSpace(c)
  {
  }

  /** Whitespace around the digest is removed, after the scheme marker if there is one. */
  lemma {:induction false} StripPadded(w1: string, h: string, w2: string)
    requires AllSpace(w1) && AllSpace(w2) && IsDigest(h)
    ensures Strip(w1 + h + w2) == h
  {
    HexIsNotSpace(h[0]);
    HexIsNotSpace(h[|h| - 1]);
    assert w1 + h + w2 == w1 + (h + w2);
    TrimLeftOfPadded(w1, h + w2);
    TrimRightOfPadded(h, w2);
  }

  lemma SliceSplit(s: string, left: string, mid: string)
    requires |left| <= |s| && left == s[|s| - |left|..]
    requires |mid| <= |left| && mid == left[..|mid|]
    ensures s == s[..|s| - |left|] + mid + left[|mid|..]
  {
    assert s == s[..|s| - |left|] + left;
    assert left == mid + left[|mid|..];
  }

  /** `Strip` removes a run of spaces from each end and nothing else. */
  lemma StripSplit(s: string) returns (w1: string, w2: string)
    ensures AllSpace(w1) && AllSpace(w2) && s == w1 + Strip(s) + w2
  {
    var left := TrimLeft(s);
    var mid := TrimRight(left);
    w1 := s[..|s| - |left|];
    w2 := left[|mid|..];
    SliceSplit(s, left, mid);
  }

  lemma ConcatAssoc(a: string, b: string, c: string)
    ensures a + (b + c) == a + b + c
  {
  }

  /** What `parse_ref` accepts is an optional scheme marker, spaces, the digest, spaces. */
  lemma {:induction false} ParseRefSound(ref: string, h: string)
    requires ParseRef(ref) == Some(h)
    ensures IsDigest(h)
    ensures exists w1, w2 ::
      AllSpace(w1) && AllSpace(w2) && (ref == SCHEME + w1 + h + w2 || ref == w1 + h + w2)
  {
    var body := DropScheme(ref);
    assert h == Strip(body);
    var w1, w2 := StripSplit(body);
    if SCHEME <= ref {
      assert ref == SCHEME + body;
      ConcatAssoc(SCHEME, w1 + h, w2);
      ConcatAssoc(SCHEME, w1, h);
    } else {
      assert ref == w1 + h + w2;
    }
  }

  /** Every such string is accepted, and it names exactly that digest. */
  lemma {:induction false} ParseRefComplete(w1: string, h: string, w2: string, marked: bool)
    requires IsDigest(h) && AllSpace(w1) && AllSpace(w2)
    ensures ParseRef((if marked then SCHEME else "") + w1 + h + w2) == Some(h)
  {
    var ref := (if marked then SCHEME else "") + w1 + h + w2;
    if marked {
      assert ref == SCHEME + (w1 + h + w2);
      assert SCHEME <= ref;
      assert DropScheme(ref) == w1 + h + w2;
    } else {
      assert ref == w1 + h + w2;
      // the marker's first character 'v' is neither whitespace nor a hex digit
      assert ref[0] != 'v' by {
        if w1 == [] { assert ref[0] == h[0]; } else { assert ref[0] == w1[0]; }
      }
      assert !(SCHEME <= ref) by { assert SCHEME[0] == 'v'; }
      assert DropScheme(ref) == w1 + h + w2;
    }
    StripPadded(w1, h, w2);
  }

  /** `parse_ref` inverts `FormatRef`, and a bare digest is accepted as it is. */
  lemma {:induction false} ParseFormatRoundTrip(h: Digest)
    ensures ParseRef(FormatRef(h)) == Some(h)
    ensures ParseRef(h) == Some(h)
  {
    assert SCHEME + "" + h + "" == FormatRef(h);
    assert "" + "" + h + "" == h;
    ParseRefComplete("", h, "", true);
    ParseRefComplete("", h, "", false);
  }

  /** Only one scheme marker is stripped: a doubled marker is rejected. */
  lemma {:induction false} DoubleSchemeRejected(h: Digest)
    ensures ParseRef(SCHEME + SCHEME + h) == None
  {
    var ref := SCHEME + SCHEME + h;
    assert SCHEME <= ref;
    var body := SCHEME + h;
    assert DropScheme(ref) == body;
    assert TrimLeft(body) == body by {
      assert body[0] == 'v';
    }
    assert TrimRight(body) == body by {
      assert body[|body| - 1] == h[63];
      HexIsNotSpace(h[63]);
    }
    assert Strip(body) == body;
  }

  /** Whitespace in front of the marker is not stripped before the marker is looked for. */
  lemma {:induction false} SpaceBeforeSchemeRejected(h: Digest)
    ensures ParseRef(" " + SCHEME + h) == None
  {
    var ref := " " + SCHEME + h;
    var body := SCHEME + h;
    assert ref == " " + body;
    assert !(SCHEME <= ref) by { assert ref[0] != SCHEME[0]; }
    assert DropScheme(ref) == ref;
    assert AllSpace(" ") by { assert " "[0] == ' '; }
    assert body[0] == 'v';
    TrimLeftOfPadded(" ", body);
    assert body[|body| - 1] == h[63];
    HexIsNotSpace(h[63]);
    assert body + "" == body;
    TrimRightOfPadded(body, "");
    assert |Strip(ref)| == 70;
  }
}
