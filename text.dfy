/**
 * Byte strings and the `str` helpers of Rust's standard library that the
 * client relies on (`contains` as `Find(..).Some?`, `split_once`, `ends_with`,
 * `trim_start_matches`, `trim_end_matches`). Decoded UTF-8 text is handled
 * by its bytes: every delimiter the protocol uses is ASCII, and splitting a
 * well-formed UTF-8 string at an ASCII delimiter splits its bytes at the
 * same place.
 */
module Text {
  import opened Wrappers

  newtype byte = b: int | 0 <= b < 256

  type Bytes = seq<byte>

  /** The bytes of an ASCII literal. */
  function Ascii(s: string): (r: Bytes)
    ensures |r| == |s|
  {
    seq(|s|, i requires 0 <= i < |s| => (s[i] as int % 256) as byte)
  }

  const CR: byte := 13
  const LF: byte := 10
  const CRLF: Bytes := [CR, LF]

  predicate OccursAt(s: Bytes, pat: Bytes, i: nat) {
    i + |pat| <= |s| && s[i..i + |pat|] == pat
  }

  predicate StartsWith(s: Bytes, pat: Bytes) {
    OccursAt(s, pat, 0)
  }

  predicate EndsWith(s: Bytes, pat: Bytes) {
    |pat| <= |s| && s[|s| - |pat|..] == pat
  }

  /** The first position at or after `from` where `pat` occurs in `s`. */
  function FindFrom(s: Bytes, pat: Bytes, from: nat): (r: Option<nat>)
    ensures r.Some? ==> from <= r.value && OccursAt(s, pat, r.value)
    ensures forall j: nat :: from <= j && (r.None? || j < r.value) ==> !OccursAt(s, pat, j)
    decreases |s| - from
  {
    if |s| < from + |pat| then None
    else if OccursAt(s, pat, from) then Some(from)
    else FindFrom(s, pat, from + 1)
  }

  /** `str::find`: the first position where `pat` occurs in `s`. */
  function Find(s: Bytes, pat: Bytes): (r: Option<nat>)
    ensures r.Some? ==> OccursAt(s, pat, r.value)
    ensures forall j: nat :: r.None? || j < r.value ==> !OccursAt(s, pat, j)
  {
    FindFrom(s, pat, 0)
  }

  /** An occurrence inside `s` is still the first one once more bytes follow. */
  lemma FindAppend(s: Bytes, t: Bytes, pat: Bytes)
    requires Find(s, pat).Some?
    ensures Find(s + t, pat) == Find(s, pat)
  {
    var i := Find(s, pat).value;
    assert (s + t)[i..i + |pat|] == s[i..i + |pat|];
    assert OccursAt(s + t, pat, i);
    forall j: nat | j < i
      ensures !OccursAt(s + t, pat, j)
    {
      if OccursAt(s + t, pat, j) {
        assert (s + t)[j..j + |pat|] == s[j..j + |pat|];
        assert OccursAt(s, pat, j);
      }
    }
  }

  /** `str::split_once`: the parts before and after the first occurrence of `pat`. */
  function SplitOnce(s: Bytes, pat: Bytes): (r: Option<(Bytes, Bytes)>)
    ensures r.Some? <==> exists i :: OccursAt(s, pat, i)
    ensures r.Some? ==> s == r.value.0 + pat + r.value.1 && forall j: nat :: j < |r.value.0| ==> !OccursAt(s, pat, j)
  {
    match Find(s, pat)
    case None => None
    case Some(i) =>
      assert s == s[..i] + pat + s[i + |pat|..] by {
        assert s[i..i + |pat|] == pat;
      }
      Some((s[..i], s[i + |pat|..]))
  }

  /** `str::trim_start_matches`: strips every leading repetition of `pat`. */
  function TrimStartMatches(s: Bytes, pat: Bytes): (r: Bytes)
    requires |pat| > 0
    ensures !StartsWith(r, pat)
    ensures |r| <= |s|
    decreases |s|
  {
    if StartsWith(s, pat) then TrimStartMatches(s[|pat|..], pat) else s
  }

  /** `str::trim_end_matches`: strips every trailing repetition of `pat`. */
  function TrimEndMatches(s: Bytes, pat: Bytes): (r: Bytes)
    requires |pat| > 0
    ensures !EndsWith(r, pat)
    ensures |r| <= |s| && r == s[..|r|]
    decreases |s|
  {
    if EndsWith(s, pat) then TrimEndMatches(s[..|s| - |pat|], pat) else s
  }

  /** Splitting at the first occurrence is undisturbed by bytes appended after it. */
  lemma SplitOnceAppend(s: Bytes, t: Bytes, pat: Bytes)
    requires SplitOnce(s, pat).Some?
    ensures SplitOnce(s + t, pat) == Some((SplitOnce(s, pat).value.0, SplitOnce(s, pat).value.1 + t))
  {
    FindAppend(s, t, pat);
    var i := Find(s, pat).value;
    assert (s + t)[..i] == s[..i];
    assert (s + t)[i + |pat|..] == s[i + |pat|..] + t;
  }

  /**
   * A two-byte delimiter whose bytes differ, and which does not occur in `x`,
   * is first found right after `x`.
   */
  lemma SplitOnceAtFirst(x: Bytes, pat: Bytes, y: Bytes)
    requires |pat| == 2 && pat[0] != pat[1]
    requires Find(x, pat).None?
    ensures SplitOnce(x + pat + y, pat) == Some((x, y))
  {
    var s := x + pat + y;
    assert s[|x|..|x| + 2] == pat;
    assert OccursAt(s, pat, |x|);
    forall j: nat | j < |x|
      ensures !OccursAt(s, pat, j)
    {
      if j + 2 <= |x| {
        assert s[j..j + 2] == x[j..j + 2];
        assert !OccursAt(x, pat, j);
      } else {
        assert s[j + 1] == pat[0];
      }
    }
    assert Find(s, pat) == Some(|x|);
    assert s[..|x|] == x;
    assert s[|x| + 2..] == y;
  }

  /**
   * A two-byte pattern found in neither of two strings can only occur in
   * their concatenation across the join.
   */
  lemma NoPairAcross(a: Bytes, b: Bytes, pat: Bytes)
    requires |pat| == 2
    requires Find(a, pat).None? && Find(b, pat).None?
    requires |a| == 0 || |b| == 0 || a[|a| - 1] != pat[0] || b[0] != pat[1]
    ensures Find(a + b, pat).None?
  {
    var s := a + b;
    forall j: nat
      ensures !OccursAt(s, pat, j)
    {
      if OccursAt(s, pat, j) {
        if j + 2 <= |a| {
          assert s[j..j + 2] == a[j..j + 2];
          assert OccursAt(a, pat, j);
        } else if j >= |a| {
          assert s[j..j + 2] == b[j - |a|..j - |a| + 2];
          assert OccursAt(b, pat, j - |a|);
        }
      }
    }
  }

  lemma SliceJoin(s: Bytes, k: nat)
    requires k <= |s|
    ensures s[..k] + s[k..] == s
  {
  }

  lemma EndsWithTrans(a: Bytes, b: Bytes, c: Bytes)
    requires EndsWith(a, b) && EndsWith(b, c)
    ensures EndsWith(a, c)
  {
    assert a[|a| - |c|..] == a[|a| - |b|..][|b| - |c|..];
  }

  /** A pattern whose first byte never appears does not occur. */
  lemma FirstByteAbsent(s: Bytes, pat: Bytes)
    requires |pat| > 0 && forall i :: 0 <= i < |s| ==> s[i] != pat[0]
    ensures Find(s, pat).None?
  {
    forall j: nat | j + |pat| <= |s|
      ensures !OccursAt(s, pat, j)
    {
      assert s[j..j + |pat|][0] == s[j];
    }
  }

  /** Splitting at a one-byte delimiter that `x` lacks gives back `x` and what follows the delimiter. */
  lemma SplitOnceAtByte(x: Bytes, c: byte, y: Bytes)
    requires forall i :: 0 <= i < |x| ==> x[i] != c
    ensures SplitOnce(x + [c] + y, [c]) == Some((x, y))
  {
    var s := x + [c] + y;
    assert OccursAt(s, [c], |x|) by {
      assert s[|x|..|x| + 1] == [c];
    }
    var r := SplitOnce(s, [c]).value;
    assert s[|r.0|] == (r.0 + [c] + r.1)[|r.0|] == c;
    assert forall i :: 0 <= i < |x| ==> s[i] == x[i];
    assert |r.0| == |x|;
    assert r.0 == s[..|x|] == x;
    assert r.1 == s[|x| + 1..] == y;
  }

  /** One leading `pat` is stripped when what follows it does not start with `pat` again. */
  lemma TrimStartOnce(pat: Bytes, s: Bytes)
    requires |pat| > 0 && !StartsWith(s, pat)
    ensures TrimStartMatches(pat + s, pat) == s
  {
    assert (pat + s)[..|pat|] == pat;
    assert (pat + s)[|pat|..] == s;
  }

  /** One trailing `pat` is stripped when what precedes it does not end with `pat` as well. */
  lemma TrimEndOnce(s: Bytes, pat: Bytes)
    requires |pat| > 0 && !EndsWith(s, pat)
    ensures TrimEndMatches(s + pat, pat) == s
  {
    assert (s + pat)[|s|..] == pat;
    assert (s + pat)[..|s|] == s;
  }
}
