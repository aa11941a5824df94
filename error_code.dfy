/** `ErrorCode`, `ErrorCodeException` and `HttpRequestErrorCode`: numbered error codes, their
    messages, and the exception that carries one. */
module ErrorCode {
  import opened Wrappers
  import opened Text

  /** The exception an error code is raised with; only its class name and message matter. */
  datatype Cause = Cause(className: string, message: Option<string>)

  /** The implementations of `ErrorCode`: an enum constant (its `toString` is its name), an
      `HttpRequestErrorCode` with the message it computed, or any other class, which keeps
      the default message. */
  datatype ErrorCode =
    | EnumCode(constantName: string, code: int)
    | HttpRequestErrorCode(code: int, message: string)
    | OtherCode(code: int, simpleName: string)
  {
    function GetCode(): int
    {
      code
    }

    /** `getMessage`: an enum constant's name with every '_' turned into a space; for other
        classes the code, a space and the class's simple name; `HttpRequestErrorCode`
        overrides it with its stored message. */
    function GetMessage(): (r: string)
      ensures EnumCode? ==> |r| == |constantName| && forall i :: 0 <= i < |r| ==>
        r[i] == (if constantName[i] == '_' then ' ' else constantName[i])
      ensures OtherCode? ==> r == IntToString(code) + " " + simpleName
      ensures HttpRequestErrorCode? ==> r == message
    {
      match this
      case EnumCode(name, _) => ReplaceChar(name, '_', ' ')
      case HttpRequestErrorCode(_, message) => message
      case OtherCode(code, simpleName) => IntToString(code) + " " + simpleName
    }

    /** `e()` */
    function E(): (r: ErrorCodeException)
      ensures r.GetErrorCode() == this && r.cause.None?
    {
      ErrorCodeException(this, None)
    }

    /** `e(cause)` */
    function ECause(cause: Cause): (r: ErrorCodeException)
      ensures r.GetErrorCode() == this && r.cause == Some(cause)
    {
      ErrorCodeException(this, Some(cause))
    }

    /** `throwIf`: the exception raised, if any; raised exactly when the condition holds. */
    function ThrowIf(errorCondition: bool): (thrown: Option<ErrorCodeException>)
      ensures thrown.Some? <==> errorCondition
      ensures thrown.Some? ==> thrown.value.GetErrorCode() == this
    {
      if errorCondition then Some(E()) else None
    }
  }

  /** An exception carrying an error code and possibly a cause. */
  datatype ErrorCodeException = ErrorCodeException(errorCode: ErrorCode, cause: Option<Cause>)
  {
    function GetErrorCode(): (r: ErrorCode)
      ensures r == errorCode
    {
      errorCode
    }

    /** `getMessage`: the numeric code, a space, then the code's own message. */
    function GetMessage(): (r: string)
      ensures var code := IntToString(errorCode.GetCode());
        |r| == |code| + 1 + |errorCode.GetMessage()| &&
        r[..|code| + 1] == code + " " && r[|code| + 1..] == errorCode.GetMessage()
    {
      IntToString(errorCode.GetCode()) + " " + errorCode.GetMessage()
    }
  }

  /** The message does not depend on the cause, and `e()` and `e(cause)` carry the same code. */
  lemma MessageIgnoresCause(code: ErrorCode, cause: Cause)
    ensures code.E().GetMessage() == code.ECause(cause).GetMessage()
    ensures code.E().GetErrorCode() == code.ECause(cause).GetErrorCode()
  {
  }

  const SYSTEM_ERROR := EnumCode("SYSTEM_ERROR", 100000)
  const MQ_MSG_ILLEGAL := EnumCode("MQ_MSG_ILLEGAL", 100001)
  const UNAUTHORIZED := EnumCode("UNAUTHORIZED", 100401)
  const FORBIDDEN := EnumCode("FORBIDDEN", 100403)
  const TOO_MANY_VERIFICATION_CODE_REQUEST := EnumCode("TOO_MANY_VERIFICATION_CODE_REQUEST", 100601)
  const INCORRECT_VERIFICATION_CODE := EnumCode("INCORRECT_VERIFICATION_CODE", 100602)

  /** The first line of a message: everything before the first '\n', or all of it. */
  function FirstLine(s: string): (r: string)
    ensures '\n' !in r
    ensures |r| <= |s| && r == s[..|r|]
    ensures r == s <==> '\n' !in s
    ensures |r| < |s| ==> s[|r|] == '\n'
  {
    var endIndex := IndexOf(s, '\n');
    if endIndex != -1 then s[..endIndex] else s
  }

  /** `HttpRequestErrorCode.of(status, ex)`: the status value as the code, and the exception's
      simple class name, ": " and its message (the text "null" when it has none), cut at the
      first line break. */
  function HttpRequestErrorCodeOf(httpStatus: int, ex: Cause): (r: ErrorCode)
    ensures r.HttpRequestErrorCode? && r.GetCode() == httpStatus
    ensures var raw := ex.className + ": " + (if ex.message.Some? then ex.message.value else "null");
      r.message == FirstLine(raw)
  {
    var raw := ex.className + ": " + (if ex.message.Some? then ex.message.value else "null");
    HttpRequestErrorCode(httpStatus, FirstLine(raw))
  }

  /** A single-line exception message is kept whole. */
  lemma HttpMessageSingleLine(httpStatus: int, className: string, message: string)
    requires '\n' !in className && '\n' !in message
    ensures HttpRequestErrorCodeOf(httpStatus, Cause(className, Some(message))).GetMessage() == className + ": " + message
  {
  }
}
