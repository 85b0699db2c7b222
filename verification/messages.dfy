/** The message formatters of `src/constants/messages.ts`: a user-facing message
    followed by `: ` and a detail. */
module Messages {
  import opened Wrappers
  import opened Text

  /** What a `catch` clause may hold: an `Error` with its `message`, `undefined`, or any
      other value, given with the text `String(x)` renders for it. */
  datatype Thrown = ErrorObject(message: string) | Undefined | OtherValue(rendered: string)

  /** The separator between a message and its detail. */
  const Separator: string := ": "

  /** The detail `formatError` shows: the message of an `Error`, `String(x)` otherwise. */
  function ErrorDetail(error: Thrown): (d: string)
    ensures error.ErrorObject? ==> d == error.message
    ensures error.Undefined? ==> d == "undefined"
    ensures error.OtherValue? ==> d == error.rendered
  {
    match error
    case ErrorObject(m) => m
    case Undefined => "undefined"
    case OtherValue(r) => r
  }

  /** `MessageUtils.formatError`: the message, the separator, then the detail. */
  function FormatError(message: string, error: Thrown): (r: string)
    ensures StartsWith(r, message + Separator)
    ensures r[|message| + |Separator|..] == ErrorDetail(error)
  {
    var r := message + Separator + ErrorDetail(error);
    assert r[..|message| + |Separator|] == message + Separator;
    r
  }

  /** `MessageUtils.formatInfo`: the message alone when the detail is absent or empty. */
  function FormatInfo(message: string, detail: Option<string>): (r: string)
    ensures detail.None? || detail.value == [] ==> r == message
    ensures detail.Some? && detail.value != [] ==>
              StartsWith(r, message + Separator) && r[|message| + |Separator|..] == detail.value
  {
    if detail.Some? && detail.value != [] then
      var r := message + Separator + detail.value;
      assert r[..|message| + |Separator|] == message + Separator;
      r
    else message
  }

  /** Both formatters split back into their message and detail: the formatted text
      determines the detail once the message is known. */
  lemma FormatErrorInjective(message: string, e1: Thrown, e2: Thrown)
    requires FormatError(message, e1) == FormatError(message, e2)
    ensures ErrorDetail(e1) == ErrorDetail(e2)
  {
  }

  /** A non-empty detail is shown exactly as the message of an `Error` would be. */
  lemma InfoAgreesWithError(message: string, detail: string)
    requires detail != []
    ensures FormatInfo(message, Some(detail)) == FormatError(message, ErrorObject(detail))
  {
    var r := FormatInfo(message, Some(detail));
    var s := FormatError(message, ErrorObject(detail));
    assert r == r[..|message| + |Separator|] + r[|message| + |Separator|..];
    assert s == s[..|message| + |Separator|] + s[|message| + |Separator|..];
  }

  /** An empty detail is indistinguishable from a missing one. */
  lemma EmptyDetailIsNoDetail(message: string)
    ensures FormatInfo(message, Some([])) == FormatInfo(message, None) == message
  {
  }
}
