/**
 * UTF-8 well-formedness as `std::str::from_utf8` checks it: the bytes must
 * split into the well-formed sequences of Table 3-7 of the Unicode Standard.
 * `ValidUpTo` is `Utf8Error::valid_up_to`: the length of the longest prefix
 * that is well-formed.
 */
module Utf8 {
  import opened Text

  predicate Continuation(b: byte) {
    0x80 <= b <= 0xBF
  }

  /** The length of the well-formed character at the start of `s`, or 0 if none starts there. */
  function CharLen(s: Bytes): (n: nat)
    ensures n <= |s| && n <= 4
    ensures |s| > 0 && s[0] < 0x80 ==> n == 1
  {
    if |s| == 0 then 0
    else
      var b := s[0];
      if b < 0x80 then 1
      else if 0xC2 <= b <= 0xDF then
        if |s| >= 2 && Continuation(s[1]) then 2 else 0
      else if 0xE0 <= b <= 0xEF then
        var lo: byte := if b == 0xE0 then 0xA0 else 0x80;
        var hi: byte := if b == 0xED then 0x9F else 0xBF;
        if |s| >= 3 && lo <= s[1] <= hi && Continuation(s[2]) then 3 else 0
      else if 0xF0 <= b <= 0xF4 then
        var lo: byte := if b == 0xF0 then 0x90 else 0x80;
        var hi: byte := if b == 0xF4 then 0x8F else 0xBF;
        if |s| >= 4 && lo <= s[1] <= hi && Continuation(s[2]) && Continuation(s[3]) then 4 else 0
      else 0
  }

  /** `valid_up_to`: how far the well-formed characters at the front of `s` reach. */
  function ValidUpTo(s: Bytes): (n: nat)
    ensures n <= |s|
    decreases |s|
  {
    var k := CharLen(s);
    if k == 0 then 0 else k + ValidUpTo(s[k..])
  }

  /** `String::from_utf8` accepts `s`. */
  predicate Valid(s: Bytes) {
    ValidUpTo(s) == |s|
  }

  /** A character is recognised from its own bytes alone, whatever follows them. */
  lemma CharLenPrefix(s: Bytes, t: Bytes)
    requires CharLen(s) > 0 && |t| >= CharLen(s)
    requires t[..CharLen(s)] == s[..CharLen(s)]
    ensures CharLen(t) == CharLen(s)
  {
    var n := CharLen(s);
    assert forall i :: 0 <= i < n ==> t[i] == t[..n][i] == s[..n][i] == s[i];
  }

  /** Bytes appended to well-formed text are checked from where that text ends. */
  lemma {:induction false} ValidAppend(p: Bytes, q: Bytes)
    requires Valid(p)
    ensures ValidUpTo(p + q) == |p| + ValidUpTo(q)
    decreases |p|
  {
    if |p| > 0 {
      var k := CharLen(p);
      assert (p + q)[..k] == p[..k];
      CharLenPrefix(p, p + q);
      assert (p + q)[k..] == p[k..] + q;
      ValidAppend(p[k..], q);
    } else {
      assert p + q == q;
    }
  }

  /** ASCII text is well-formed UTF-8. */
  lemma {:induction false} AsciiValid(s: Bytes)
    requires forall i :: 0 <= i < |s| ==> s[i] < 0x80
    ensures Valid(s)
    decreases |s|
  {
    if |s| > 0 {
      AsciiValid(s[1..]);
    }
  }

  /** Checking a prefix never reaches further than checking the whole. */
  lemma {:induction false} ValidUpToPrefix(s: Bytes, k: nat)
    requires k <= |s|
    ensures ValidUpTo(s[..k]) <= ValidUpTo(s)
    ensures ValidUpTo(s[..k]) == k ==> k <= ValidUpTo(s)
    decreases |s|
  {
    var n := CharLen(s[..k]);
    if n > 0 {
      assert s[..k][..n] == s[..n];
      CharLenPrefix(s[..k], s);
      assert s[..k][n..] == s[n..][..k - n];
      ValidUpToPrefix(s[n..], k - n);
    }
  }

  /** The prefix that `ValidUpTo` measures is itself well-formed. */
  lemma {:induction false} ValidUpToPrefixValid(s: Bytes)
    ensures Valid(s[..ValidUpTo(s)])
    decreases |s|
  {
    var v := ValidUpTo(s);
    var n := CharLen(s);
    if n > 0 {
      var t := s[..v];
      assert t[..n] == s[..n];
      CharLenPrefix(s, t);
      assert t[n..] == s[n..][..ValidUpTo(s[n..])];
      ValidUpToPrefixValid(s[n..]);
    }
  }

  /** `ValidUpTo` is the length of the longest well-formed prefix, as `valid_up_to` promises. */
  lemma LongestValidPrefix(s: Bytes)
    ensures Valid(s[..ValidUpTo(s)])
    ensures forall k :: ValidUpTo(s) < k <= |s| ==> !Valid(s[..k])
  {
    ValidUpToPrefixValid(s);
    forall k | ValidUpTo(s) < k <= |s|
      ensures !Valid(s[..k])
    {
      ValidUpToPrefix(s, k);
    }
  }
}
