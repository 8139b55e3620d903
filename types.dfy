/** The records the crate hands to its callers and the strict
    name-decoding trait implemented for byte slices. */
module Types {
  import opened Machine
  import opened Utf8
  import opened StdText
  import opened Errors

  /** One loaded module: lowercased base name, load address and image size. */
  datatype ModuleData = ModuleData(moduleName: seq<u8>, moduleAddr: u64, moduleSize: u64)

  /** `#[derive(Default)]` for `ModuleData`. */
  function DefaultModuleData(): (m: ModuleData)
    ensures m.moduleName == [] && m.moduleAddr == 0 && m.moduleSize == 0
  {
    ModuleData([], 0, 0)
  }

  /** A located process: its handle, its id and the modules collected for it,
      in the order they were appended. */
  class ProcessData {
    var handle: Handle
    var id: u32
    var moduleList: seq<ModuleData>

    /** `#[derive(Default)]` for `ProcessData`. */
    constructor ()
      ensures handle == 0 && id == 0 && moduleList == []
    {
      handle := 0;
      id := 0;
      moduleList := [];
    }
  }

  /** `TransformName::to_string_lowercase` for `[u8]`:
      `CStr::from_bytes_until_nul(self)?.to_str()?.to_ascii_lowercase()`. */
  function ToStringLowercase(b: seq<u8>): Result<seq<u8>, Error> {
    match FromBytesUntilNul(b)
    case Err(e) => Err(FromNulError(e))
    case Ok(c) =>
      match ToStr(c)
      case Err(e) => Err(FromUtf8Error(e))
      case Ok(s) => Ok(AsciiLowercase(s))
  }

  /** `NoNulByte` exactly when the slice holds no NUL; otherwise the text
      before the first NUL decides: `InvalidUtf8` (carrying how much of it
      was well formed) unless it is well-formed UTF-8, in which case the
      result is that text, ASCII-lowercased. */
  lemma ToStringLowercaseMeaning(b: seq<u8>)
    ensures ToStringLowercase(b) == Err(NoNulByte(FromBytesUntilNulError)) <==> NulFree(b)
    ensures forall k :: 0 <= k < |b| && b[k] == 0 && NulFree(b[..k]) ==>
      ToStringLowercase(b) ==
        if ValidUtf8(b[..k]) then Ok(AsciiLowercase(b[..k]))
        else Err(InvalidUtf8(Utf8Error(ValidUpTo(b[..k]))))
  {
    FromBytesUntilNulMeaning(b);
    FromBytesUntilNulFirst(b);
  }

  /** Lowercase ASCII text without NUL, followed by a NUL and any bytes at
      all, decodes to exactly that text. */
  lemma ToStringLowercaseRoundTrip(s: seq<u8>, tail: seq<u8>)
    requires forall i :: 0 <= i < |s| ==> 0 < s[i] < 0x80 && !IsAsciiUpper(s[i])
    ensures ToStringLowercase(s + [0] + tail) == Ok(s)
  {
    var b := s + [0] + tail;
    assert b[..|s|] == s;
    AsciiIsValid(s);
    AsciiLowercaseOfLower(s);
    ToStringLowercaseMeaning(b);
  }
}
