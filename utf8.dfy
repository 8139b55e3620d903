/** Well-formed UTF-8 as defined by the syntax of UTF-8 byte sequences in
    section 4 of RFC 3629: the check Rust's `str::from_utf8` (and therefore
    `CStr::to_str`) performs before it hands out a `&str`. */
module Utf8 {
  import opened Machine

  /** UTF8-tail = %x80-BF */
  predicate IsTail(b: u8) {
    0x80 <= b <= 0xBF
  }

  /** The length of the UTF8-char that starts `s`, or 0 when `s` does not
      start with one. The branches are the alternatives of UTF8-1 .. UTF8-4. */
  function CharWidth(s: seq<u8>): (w: nat)
    ensures w <= |s| && w <= 4
    ensures |s| > 0 && s[0] < 0x80 ==> w == 1
  {
    if |s| == 0 then 0
    else if s[0] <= 0x7F then 1
    else if 0xC2 <= s[0] <= 0xDF then
      (if |s| >= 2 && IsTail(s[1]) then 2 else 0)
    else if s[0] == 0xE0 then
      (if |s| >= 3 && 0xA0 <= s[1] <= 0xBF && IsTail(s[2]) then 3 else 0)
    else if 0xE1 <= s[0] <= 0xEC || 0xEE <= s[0] <= 0xEF then
      (if |s| >= 3 && IsTail(s[1]) && IsTail(s[2]) then 3 else 0)
    else if s[0] == 0xED then
      (if |s| >= 3 && 0x80 <= s[1] <= 0x9F && IsTail(s[2]) then 3 else 0)
    else if s[0] == 0xF0 then
      (if |s| >= 4 && 0x90 <= s[1] <= 0xBF && IsTail(s[2]) && IsTail(s[3]) then 4 else 0)
    else if 0xF1 <= s[0] <= 0xF3 then
      (if |s| >= 4 && IsTail(s[1]) && IsTail(s[2]) && IsTail(s[3]) then 4 else 0)
    else if s[0] == 0xF4 then
      (if |s| >= 4 && 0x80 <= s[1] <= 0x8F && IsTail(s[2]) && IsTail(s[3]) then 4 else 0)
    else 0
  }

  /** UTF8-octets = *( UTF8-char ) */
  predicate ValidUtf8(s: seq<u8>)
    decreases |s|
  {
    s == [] || (CharWidth(s) > 0 && ValidUtf8(s[CharWidth(s)..]))
  }

  /** `Utf8Error::valid_up_to`: the length of the longest prefix made of
      whole UTF8-chars. */
  function ValidUpTo(s: seq<u8>): (n: nat)
    decreases |s|
    ensures n <= |s|
    ensures ValidUtf8(s[..n])
    ensures n == |s| <==> ValidUtf8(s)
  {
    if s == [] then 0
    else
      var w := CharWidth(s);
      if w == 0 then 0
      else
        var rest := ValidUpTo(s[w..]);
        ValidPrefix(s, rest);
        assert ValidUtf8(s) == ValidUtf8(s[w..]);
        w + rest
  }

  /** A whole first char followed by a well-formed prefix of the remainder
      is a well-formed prefix of `s`. */
  lemma ValidPrefix(s: seq<u8>, rest: nat)
    requires CharWidth(s) > 0 && rest <= |s| - CharWidth(s)
    requires ValidUtf8(s[CharWidth(s)..][..rest])
    ensures ValidUtf8(s[..CharWidth(s) + rest])
  {
    var w := CharWidth(s);
    var p := s[..w + rest];
    CharWidthOfPrefix(s, w + rest);
    assert p[w..] == s[w..][..rest];
  }

  /** The first char's width only looks at the bytes the char occupies. */
  lemma CharWidthOfPrefix(s: seq<u8>, n: nat)
    requires 0 < CharWidth(s) <= n <= |s|
    ensures CharWidth(s[..n]) == CharWidth(s)
  {
    var p := s[..n];
    assert forall k :: 0 <= k < n ==> p[k] == s[k];
  }

  /** A char that is whole within a prefix is the first char of the whole string. */
  lemma CharWidthFromPrefix(s: seq<u8>, m: nat)
    requires m <= |s| && CharWidth(s[..m]) > 0
    ensures CharWidth(s) == CharWidth(s[..m])
  {
    var p := s[..m];
    assert forall k :: 0 <= k < m ==> p[k] == s[k];
  }

  /** `valid_up_to` is the longest well-formed prefix: no longer prefix is
      well formed. */
  lemma {:induction false} ValidUpToIsLongest(s: seq<u8>, m: nat)
    requires m <= |s| && ValidUtf8(s[..m])
    ensures m <= ValidUpTo(s)
    decreases |s|
  {
    if m > 0 {
      var p := s[..m];
      assert CharWidth(p) > 0;
      CharWidthFromPrefix(s, m);
      var w := CharWidth(s);
      assert p[w..] == s[w..][..m - w];
      ValidUpToIsLongest(s[w..], m - w);
    }
  }

  /** Every ASCII byte is a one-byte UTF8-char, so an ASCII string is well formed. */
  lemma {:induction false} AsciiIsValid(s: seq<u8>)
    requires forall i :: 0 <= i < |s| ==> s[i] < 0x80
    ensures ValidUtf8(s)
  {
    if s != [] {
      AsciiIsValid(s[1..]);
    }
  }
}
