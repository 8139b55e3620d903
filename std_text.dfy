/** The pieces of Rust's standard library that the name decoding relies on:
    `CStr::from_bytes_until_nul`, `CStr::to_str` (a UTF-8 check) and
    `str::to_ascii_lowercase`, together with the error values they produce.
    Rust strings are modelled by their UTF-8 bytes. */
module StdText {
  import opened Machine
  import opened Utf8

  /** `std::ffi::FromBytesUntilNulError`: carries no information. */
  datatype FromBytesUntilNulError = FromBytesUntilNulError

  /** `std::str::Utf8Error`, reduced to its `valid_up_to` index. */
  datatype Utf8Error = Utf8Error(validUpTo: nat)

  /** `std::num::TryFromIntError`: carries no information. */
  datatype TryFromIntError = TryFromIntError

  predicate NulFree(s: seq<u8>) {
    forall i :: 0 <= i < |s| ==> s[i] != 0
  }

  /** `CStr::from_bytes_until_nul`: the bytes before the first NUL, or an
      error when there is no NUL at all. */
  function FromBytesUntilNul(b: seq<u8>): Result<seq<u8>, FromBytesUntilNulError> {
    if b == [] then Err(FromBytesUntilNulError)
    else if b[0] == 0 then Ok([])
    else match FromBytesUntilNul(b[1..])
      case Err(e) => Err(e)
      case Ok(c) => Ok([b[0]] + c)
  }

  /** The search fails exactly when there is no NUL; a success is a
      NUL-free prefix of the input that is followed by a NUL. */
  lemma {:induction false} FromBytesUntilNulMeaning(b: seq<u8>)
    ensures FromBytesUntilNul(b).Err? <==> NulFree(b)
    ensures FromBytesUntilNul(b).Ok? ==>
      var c := FromBytesUntilNul(b).value;
      |c| < |b| && b[..|c|] == c && b[|c|] == 0 && NulFree(c)
  {
    if b != [] && b[0] != 0 {
      FromBytesUntilNulMeaning(b[1..]);
      if FromBytesUntilNul(b[1..]).Ok? {
        var c := FromBytesUntilNul(b[1..]).value;
        assert b[..|c| + 1] == [b[0]] + b[1..][..|c|];
      } else {
        assert forall i :: 1 <= i < |b| ==> b[i] == b[1..][i - 1];
      }
    }
  }

  /** A NUL with no NUL before it is where the search stops. */
  lemma {:induction false} FromBytesUntilNulAt(b: seq<u8>, k: nat)
    requires k < |b| && b[k] == 0 && NulFree(b[..k])
    ensures FromBytesUntilNul(b) == Ok(b[..k])
  {
    if k > 0 {
      assert b[..k][0] == b[0];
      assert b[1..][..k - 1] == b[..k][1..];
      FromBytesUntilNulAt(b[1..], k - 1);
      assert b[..k] == [b[0]] + b[1..][..k - 1];
    }
  }

  /** `FromBytesUntilNulAt` for every position at once. */
  lemma FromBytesUntilNulFirst(b: seq<u8>)
    ensures forall k :: 0 <= k < |b| && b[k] == 0 && NulFree(b[..k]) ==> FromBytesUntilNul(b) == Ok(b[..k])
  {
    forall k | 0 <= k < |b| && b[k] == 0 && NulFree(b[..k])
      ensures FromBytesUntilNul(b) == Ok(b[..k])
    {
      FromBytesUntilNulAt(b, k);
    }
  }

  /** `CStr::to_str`: the same bytes, accepted only when they are well-formed UTF-8. */
  function ToStr(c: seq<u8>): (r: Result<seq<u8>, Utf8Error>)
    ensures r.Ok? <==> ValidUtf8(c)
    ensures r.Ok? ==> r.value == c
    ensures r.Err? ==> r.error.validUpTo < |c| && ValidUtf8(c[..r.error.validUpTo])
  {
    if ValidUtf8(c) then Ok(c) else Err(Utf8Error(ValidUpTo(c)))
  }

  /** The error's `valid_up_to` is the longest well-formed prefix of the
      rejected text. */
  lemma ToStrValidUpToIsLongest(c: seq<u8>, m: nat)
    requires ToStr(c).Err? && m <= |c| && ValidUtf8(c[..m])
    ensures m <= ToStr(c).error.validUpTo
  {
    ValidUpToIsLongest(c, m);
  }

  predicate IsAsciiUpper(b: u8) {
    'A' as int <= b <= 'Z' as int
  }

  /** `u8::to_ascii_lowercase` */
  function LowerByte(b: u8): u8 {
    if IsAsciiUpper(b) then b + 32 else b
  }

  /** `str::to_ascii_lowercase`: ASCII capitals become small letters,
      every other byte (in particular every non-ASCII byte) is kept. */
  function AsciiLowercase(s: seq<u8>): (r: seq<u8>)
    ensures |r| == |s|
  {
    if s == [] then [] else [LowerByte(s[0])] + AsciiLowercase(s[1..])
  }

  /** Byte by byte: a capital becomes its small letter (32 further on),
      no capital is left, a byte changes exactly when it is a capital, and
      ASCII-ness and NUL-ness are preserved. */
  lemma {:induction false} AsciiLowercaseMeaning(s: seq<u8>)
    ensures var r := AsciiLowercase(s);
      forall i :: 0 <= i < |s| ==>
        && (IsAsciiUpper(s[i]) ==> r[i] == s[i] + 32)
        && !IsAsciiUpper(r[i])
        && (r[i] == s[i] <==> !IsAsciiUpper(s[i]))
        && (r[i] < 0x80 <==> s[i] < 0x80)
        && (r[i] == 0 <==> s[i] == 0)
  {
    if s != [] {
      AsciiLowercaseMeaning(s[1..]);
      var r := AsciiLowercase(s);
      assert forall i :: 1 <= i < |s| ==> r[i] == AsciiLowercase(s[1..])[i - 1] && s[i] == s[1..][i - 1];
    }
  }

  lemma AsciiLowercaseIdempotent(s: seq<u8>)
    ensures AsciiLowercase(AsciiLowercase(s)) == AsciiLowercase(s)
  {
    AsciiLowercaseMeaning(s);
    AsciiLowercaseOfLower(AsciiLowercase(s));
  }

  lemma {:induction false} AsciiLowercaseOfLower(s: seq<u8>)
    requires forall i :: 0 <= i < |s| ==> !IsAsciiUpper(s[i])
    ensures AsciiLowercase(s) == s
  {
    if s != [] {
      AsciiLowercaseOfLower(s[1..]);
    }
  }

  /** Two byte strings that agree on every non-ASCII byte and have ASCII
      bytes in the same places start with a char of the same width. */
  lemma CharWidthSameShape(s: seq<u8>, t: seq<u8>)
    requires |s| == |t| && |s| > 0 && s[0] == t[0]
    requires forall k :: 0 <= k < |s| ==> (s[k] >= 0x80 ==> t[k] == s[k]) && (s[k] < 0x80 ==> t[k] < 0x80)
    ensures CharWidth(t) == CharWidth(s)
  {
    if |s| >= 2 {
      assert IsTail(s[1]) == IsTail(t[1]);
    }
    if |s| >= 3 {
      assert IsTail(s[2]) == IsTail(t[2]);
    }
    if |s| >= 4 {
      assert IsTail(s[3]) == IsTail(t[3]);
    }
  }

  /** Lowercasing works byte by byte, so it commutes with dropping a prefix. */
  lemma {:induction false} AsciiLowercaseDrop(s: seq<u8>, n: nat)
    requires n <= |s|
    ensures AsciiLowercase(s)[n..] == AsciiLowercase(s[n..])
  {
    if n > 0 {
      assert s[1..][n - 1..] == s[n..];
      AsciiLowercaseDrop(s[1..], n - 1);
    }
  }

  /** Lowercasing only rewrites ASCII bytes, which are whole one-byte chars,
      so it never breaks the UTF-8 structure of a string. */
  lemma {:induction false} LowercasePreservesUtf8(s: seq<u8>)
    requires ValidUtf8(s)
    ensures ValidUtf8(AsciiLowercase(s))
    decreases |s|
  {
    if s != [] {
      var l := AsciiLowercase(s);
      var w := CharWidth(s);
      AsciiLowercaseMeaning(s);
      if s[0] >= 0x80 {
        CharWidthSameShape(s, l);
      }
      assert CharWidth(l) == w;
      AsciiLowercaseDrop(s, w);
      LowercasePreservesUtf8(s[w..]);
      assert ValidUtf8(l[w..]);
    }
  }
}
