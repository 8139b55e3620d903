/** The crate's error enum, its `Display` text and the three `From`
    conversions that let `?` lift standard-library errors into it. */
module Errors {
  import opened StdText

  /** `Errors<'src>`; the standard-library payloads are kept but never shown. */
  datatype Error =
    | EmptyBuffer(message: string)
    | ProcessNotFound
    | SignatureNotFound
    | NoNulByte(nulError: FromBytesUntilNulError)
    | InvalidUtf8(utf8Error: Utf8Error)
    | IntError(intError: TryFromIntError)

  const DISPLAY_PREFIX: string := "Error: "

  /** The message chosen by the `match` in `fmt`. */
  function Message(e: Error): (m: string)
    ensures e.EmptyBuffer? ==> m == e.message
    ensures !e.EmptyBuffer? ==> |m| > 0
  {
    match e
    case EmptyBuffer(s) => s
    case ProcessNotFound => "Process not found!"
    case SignatureNotFound => "Signature not found!"
    case NoNulByte(_) => "No nul byte was present"
    case InvalidUtf8(_) => "Attempt to interpret a sequence of u8 as a String failed"
    case IntError(_) => "The provided number is too large or too small to be processed"
  }

  /** The text `write!(f, "Error: {message}")` produces. */
  function Display(e: Error): (s: string)
    ensures |s| >= |DISPLAY_PREFIX| && s[..|DISPLAY_PREFIX|] == DISPLAY_PREFIX
    ensures s[|DISPLAY_PREFIX|..] == Message(e)
  {
    DISPLAY_PREFIX + Message(e)
  }

  /** Same variant, payload ignored. */
  predicate SameKind(a: Error, b: Error) {
    match a
    case EmptyBuffer(_) => b.EmptyBuffer?
    case ProcessNotFound => b.ProcessNotFound?
    case SignatureNotFound => b.SignatureNotFound?
    case NoNulByte(_) => b.NoNulByte?
    case InvalidUtf8(_) => b.InvalidUtf8?
    case IntError(_) => b.IntError?
  }

  /** The message shown for each variant, whatever its payload. */
  lemma MessageTexts(n: FromBytesUntilNulError, u: Utf8Error, i: TryFromIntError)
    ensures Message(ProcessNotFound) == "Process not found!"
    ensures Message(SignatureNotFound) == "Signature not found!"
    ensures Message(NoNulByte(n)) == "No nul byte was present"
    ensures Message(InvalidUtf8(u)) == "Attempt to interpret a sequence of u8 as a String failed"
    ensures Message(IntError(i)) == "The provided number is too large or too small to be processed"
  {
  }

  /** Outside `EmptyBuffer`, the payload never affects the text. */
  lemma PayloadIgnored(a: Error, b: Error)
    requires !a.EmptyBuffer? && SameKind(a, b)
    ensures Display(a) == Display(b)
  {
    match a
    case ProcessNotFound =>
    case SignatureNotFound =>
    case NoNulByte(_) =>
    case InvalidUtf8(_) =>
    case IntError(_) =>
  }

  /** Different variants never share a text: the fixed messages have
      distinct lengths. */
  lemma KindsDisplayDifferently(a: Error, b: Error)
    requires !a.EmptyBuffer? && !b.EmptyBuffer? && !SameKind(a, b)
    ensures Display(a) != Display(b)
  {
    var n := MessageLength(a);
    var m := MessageLength(b);
  }

  /** The length of each fixed message. */
  function MessageLength(e: Error): (n: nat)
    requires !e.EmptyBuffer?
    ensures n == |Message(e)|
  {
    match e
    case ProcessNotFound => 18
    case SignatureNotFound => 20
    case NoNulByte(_) => 23
    case InvalidUtf8(_) => 56
    case IntError(_) => 61
  }

  /** `impl From<FromBytesUntilNulError> for Errors` */
  function FromNulError(err: FromBytesUntilNulError): (e: Error)
    ensures e.NoNulByte? && e.nulError == err
  {
    NoNulByte(err)
  }

  /** `impl From<Utf8Error> for Errors` */
  function FromUtf8Error(err: Utf8Error): (e: Error)
    ensures e.InvalidUtf8? && e.utf8Error == err
  {
    InvalidUtf8(err)
  }

  /** `impl From<TryFromIntError> for Errors` */
  function FromIntError(err: TryFromIntError): (e: Error)
    ensures e.IntError? && e.intError == err
  {
    IntError(err)
  }
}
