/** The exceptions the modelled code raises: the project's own hierarchy
    (steam-inventory-manager/exceptions.py) and the built-in Python errors that
    escape from it uncaught. */
module Errors {

  datatype Error =
    // exceptions.py
    | RequestError(msg: string)
    | LoginError(msg: string)
    | IncorrectPassword(msg: string)
    | TwoFactorCodeInvalid(msg: string)
    | CaptchaRequired(msg: string)
    | EmailCodeRequired(msg: string)
    | TradeError(msg: string)
    | CredentialsError(msg: string)
    // built-in exceptions that the source lets propagate
    | KeyError(key: string)
    | ValueError(msg: string)
    | TypeError(msg: string)
    | AttributeError(msg: string)
    | IndexError(msg: string)
    | StructError(msg: string)

  // Messages of the built-in errors, as the Python runtime words them.
  const StructRangeMessage := "argument out of range"
  const NotAsciiMessage := "'ascii' codec can't encode character"
  const NotSubscriptableMessage := "'NoneType' object is not subscriptable"
  const IntOfNoneMessage := "int() argument must be a string, a bytes-like object or a real number, not 'NoneType'"
  const BytesOfNoneMessage := "argument should be a bytes-like object or ASCII string, not 'NoneType'"
  const PaddingMessage := "Incorrect padding"
  const IndexRangeMessage := "list index out of range"
  const UnexpectedKeywordMessage := "store_session_data() got an unexpected keyword argument 'session_id'"
  const TooManyArgumentsMessage := "generate_confirmation_code() takes 2 positional arguments but 3 were given"
  const NoDataConfIdMessage := "'NoneType' object has no attribute 'data_conf_id'"

  /** The message of `int(s)` for a string that is not an integer literal. */
  function InvalidIntMessage(s: string): string {
    "invalid literal for int() with base 10: '" + s + "'"
  }

  /** `isinstance(e, LoginError)`: the base class and its four subclasses. */
  predicate IsLoginError(e: Error) {
    e.LoginError? || e.IncorrectPassword? || e.TwoFactorCodeInvalid?
    || e.CaptchaRequired? || e.EmailCodeRequired?
  }
}
