/**
 * CrimeManagementException and its subclass ValidationException. Both are
 * immutable once built, so an exception is a value: the Throwable message
 * and cause, plus the error code and the user-facing message.
 */
module Exceptions {
  import opened Wrappers

  /** A Throwable given as a cause, by its own message. */
  datatype Cause = Cause(message: Option<string>)

  datatype CrimeManagementException = CrimeManagementException(
    message: Option<string>,
    cause: Option<Cause>,
    errorCode: Option<string>,
    userMessage: Option<string>)
  {
    /** getErrorCode(): the stored code, null when none was given. */
    function ErrorCode(): (r: Option<string>)
      ensures r == errorCode
    {
      errorCode
    }

    /** getUserMessage(): the user message, falling back to getMessage(). */
    function UserMessage(): (r: Option<string>)
      ensures userMessage.Some? ==> r == userMessage
      ensures userMessage.None? ==> r == message
    {
      if userMessage.Some? then userMessage else message
    }
  }

  /** CrimeManagementException(message) */
  function FromMessage(message: Option<string>): (e: CrimeManagementException)
    ensures e.message == message && e.userMessage == message
    ensures e.errorCode == None && e.cause == None
  {
    CrimeManagementException(message, None, None, message)
  }

  /** CrimeManagementException(message, cause) */
  function FromMessageAndCause(message: Option<string>, cause: Cause): (e: CrimeManagementException)
    ensures e.message == message && e.userMessage == message
    ensures e.errorCode == None && e.cause == Some(cause)
  {
    CrimeManagementException(message, Some(cause), None, message)
  }

  /** CrimeManagementException(errorCode, message, userMessage) */
  function WithCode(errorCode: Option<string>, message: Option<string>, userMessage: Option<string>): (e: CrimeManagementException)
    ensures e.errorCode == errorCode && e.message == message && e.userMessage == userMessage
    ensures e.cause == None
  {
    CrimeManagementException(message, None, errorCode, userMessage)
  }

  /** CrimeManagementException(errorCode, message, userMessage, cause) */
  function WithCodeAndCause(errorCode: Option<string>, message: Option<string>, userMessage: Option<string>, cause: Cause): (e: CrimeManagementException)
    ensures e.errorCode == errorCode && e.message == message && e.userMessage == userMessage
    ensures e.cause == Some(cause)
  {
    CrimeManagementException(message, Some(cause), errorCode, userMessage)
  }

  /** An exception built from a message alone shows that message to the user, null or not. */
  lemma MessageOnlyShowsMessage(message: Option<string>, cause: Cause)
    ensures FromMessage(message).UserMessage() == message
    ensures FromMessageAndCause(message, cause).UserMessage() == message
    ensures FromMessage(message).ErrorCode() == None
  {
  }

  /** With an error code, a null user message falls back to the technical message. */
  lemma CodedFallsBackToMessage(code: Option<string>, message: Option<string>, cause: Cause)
    ensures WithCode(code, message, None).UserMessage() == message
    ensures WithCodeAndCause(code, message, None, cause).UserMessage() == message
    ensures WithCode(code, message, Some("")).UserMessage() == Some("")
  {
  }

  // ---- ValidationException ----------------------------------------------

  const ValidationErrorCode: string := "VALIDATION_ERROR"
  const FieldPrefix: string := "Validation failed for field '"
  const FieldSeparator: string := "': "
  const UserPrefix: string := "Invalid "
  const UserSeparator: string := ": "

  /** ValidationException(message) */
  function ValidationError(message: Option<string>): (e: CrimeManagementException)
    ensures e.ErrorCode() == Some(ValidationErrorCode)
    ensures e.message == message && e.UserMessage() == message
    ensures e.cause == None
  {
    WithCode(Some(ValidationErrorCode), message, message)
  }

  /** ValidationException(field, message) */
  function FieldValidationError(field: string, message: string): (e: CrimeManagementException)
    ensures e.ErrorCode() == Some(ValidationErrorCode)
    ensures e.message.Some? && e.userMessage.Some? && e.cause == None
  {
    WithCode(Some(ValidationErrorCode),
      Some(FieldPrefix + field + FieldSeparator + message),
      Some(UserPrefix + field + UserSeparator + message))
  }

  /**
   * The message is exactly "Validation failed for field '<field>': <message>"
   * and the user sees exactly "Invalid <field>: <message>"; both name the
   * field right after their prefix and end with the message.
   */
  lemma {:induction false} FieldErrorTexts(field: string, message: string)
    ensures var e := FieldValidationError(field, message);
      var m := e.message.value;
      var u := e.UserMessage().value;
      && m == FieldPrefix + field + FieldSeparator + message
      && u == UserPrefix + field + UserSeparator + message
      && |m| == |FieldPrefix| + |field| + |FieldSeparator| + |message|
      && |u| == |UserPrefix| + |field| + |UserSeparator| + |message|
      && m[..|FieldPrefix|] == FieldPrefix
      && m[|FieldPrefix|..|FieldPrefix| + |field|] == field
      && m[|m| - |message|..] == message
      && u[..|UserPrefix|] == UserPrefix
      && u[|UserPrefix|..|UserPrefix| + |field|] == field
      && u[|u| - |message|..] == message
  {
    var e := FieldValidationError(field, message);
    var m := e.message.value;
    var u := e.UserMessage().value;
    assert m == FieldPrefix + field + FieldSeparator + message;
    assert m[|FieldPrefix|..|FieldPrefix| + |field|] == field;
    assert u == UserPrefix + field + UserSeparator + message;
    assert u[|UserPrefix|..|UserPrefix| + |field|] == field;
  }
}
