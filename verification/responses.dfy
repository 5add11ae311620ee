/** Fetch outcomes and the error router `handleError` of src/pages/Events/sync.ts. */
module Responses {

  datatype Option<+T> = None | Some(value: T)

  /** The error object a failed fetch may carry; only its message is read. */
  datatype ErrorInfo = ErrorInfo(message: string)

  /**
   * A failed fetch: the HTTP-like status, whether the request could not reach
   * the server (`network`), whether it was cancelled (`aborted`), and the
   * error object if one was raised. Absent flags of the client are `false`.
   */
  datatype FailedResponse = FailedResponse(status: int, network: bool, aborted: bool, err: Option<ErrorInfo>)

  /** What every fetch of the client returns: `{ok: true, data}` or a failure. */
  datatype Response<D> = Ok(data: D) | Failed(failure: FailedResponse)

  /** The `{title, content}` object handed to the error-modal callback. */
  datatype ErrorModal = ErrorModal(title: string, content: string)

  const StatusPrefix: string := "Response status: "

  function DigitChar(d: nat): char
    requires d < 10
  {
    "0123456789"[d]
  }

  predicate IsDigits(s: string) {
    forall i :: 0 <= i < |s| ==> '0' <= s[i] <= '9'
  }

  /** The decimal text of a natural number, as a template literal renders it below 10^21. */
  function NatText(n: nat): (s: string)
    ensures |s| >= 1 && IsDigits(s)
    ensures s[0] == '0' ==> n == 0
  {
    if n < 10 then [DigitChar(n)] else NatText(n / 10) + [DigitChar(n % 10)]
  }

  /** The decimal text of an integer status code (with a leading '-' when negative). */
  function IntText(i: int): (s: string)
    ensures |s| >= 1
  {
    if i < 0 then "-" + NatText(-i) else NatText(i)
  }

  /** Reads back a run of decimal digits. */
  function ParseNat(s: string): nat
    requires IsDigits(s)
  {
    if s == [] then 0 else 10 * ParseNat(s[..|s| - 1]) + (s[|s| - 1] as int - '0' as int)
  }

  /** Reads back the text of an integer; `None` for anything that is not one. */
  function ParseInt(s: string): Option<int> {
    if |s| > 1 && s[0] == '-' && IsDigits(s[1..]) then Some(0 - ParseNat(s[1..]) as int)
    else if |s| > 0 && IsDigits(s) then Some(ParseNat(s))
    else None
  }

  lemma {:induction false} NatTextRoundTrip(n: nat)
    ensures ParseNat(NatText(n)) == n
  {
    if n >= 10 {
      var s := NatText(n);
      NatTextRoundTrip(n / 10);
      assert s[..|s| - 1] == NatText(n / 10);
    }
  }

  /** A minus sign followed by the text of a positive number reads back as its negation. */
  lemma {:induction false} NegativeTextRoundTrip(n: nat)
    ensures ParseInt("-" + NatText(n)) == Some(0 - n)
  {
    var t := NatText(n);
    NatTextRoundTrip(n);
    assert ("-" + t)[1..] == t;
  }

  /** The text of a natural number reads back as that number. */
  lemma {:induction false} NonNegativeTextRoundTrip(n: nat)
    ensures ParseInt(NatText(n)) == Some(n)
  {
    var t := NatText(n);
    NatTextRoundTrip(n);
    assert '0' <= t[0];
  }

  lemma {:induction false} IntTextRoundTrip(i: int)
    ensures ParseInt(IntText(i)) == Some(i)
  {
    if i < 0 {
      var n: nat := -i;
      assert IntText(i) == "-" + NatText(n);
      NegativeTextRoundTrip(n);
    } else {
      NonNegativeTextRoundTrip(i);
    }
  }

  /** The content shown when a failure carries no error object. */
  function StatusContent(status: int): string {
    StatusPrefix + IntText(status)
  }

  /** Recovers the status code from a modal's content, if it is a status content. */
  function ParseStatusContent(content: string): Option<int> {
    if |StatusPrefix| <= |content| && content[..|StatusPrefix|] == StatusPrefix
    then ParseInt(content[|StatusPrefix|..])
    else None
  }

  /** A status content names the status it was made from, and is never empty. */
  lemma StatusContentRoundTrip(status: int)
    ensures ParseStatusContent(StatusContent(status)) == Some(status)
    ensures |StatusContent(status)| > |StatusPrefix|
  {
    var c := StatusContent(status);
    assert c[..|StatusPrefix|] == StatusPrefix;
    assert c[|StatusPrefix|..] == IntText(status);
    IntTextRoundTrip(status);
  }

  /**
   * `handleError`: a failure caused by the network or by cancellation is
   * ignored (the local cache stays the source of truth); any other failure
   * yields exactly one modal titled `msg`, whose content is the error's
   * message when there is an error object and the status line otherwise.
   */
  function HandleError(response: FailedResponse, msg: string): (r: Option<ErrorModal>)
    ensures r.None? <==> (response.network || response.aborted)
    ensures r.Some? ==> r.value.title == msg
    ensures r.Some? && response.err.Some? ==> r.value.content == response.err.value.message
    ensures r.Some? && response.err.None? ==> ParseStatusContent(r.value.content) == Some(response.status)
  {
    if response.network || response.aborted then None
    else if response.err.Some? then Some(ErrorModal(msg, response.err.value.message))
    else
      StatusContentRoundTrip(response.status);
      Some(ErrorModal(msg, StatusContent(response.status)))
  }

  /** The modals a call of the error-modal callback list grows by. */
  function ModalsOf(m: Option<ErrorModal>): (r: seq<ErrorModal>)
    ensures |r| <= 1
    ensures r == [] <==> m.None?
  {
    if m.Some? then [m.value] else []
  }
}
