/**
 * The error value the controllers hand to the framework's `next`: an HTTP
 * status and a message, built either directly (`new PrimaryErrorHandler(s, m)`,
 * which keeps both unchanged, i.e. the datatype constructor) or by one of the
 * static factories, each of which fixes the status and supplies a default
 * message when the caller passes none.
 */
module PrimaryErrorHandler {
  import opened Wrappers

  /** `message` is `None` when the error was built with an `undefined` message. */
  datatype PrimaryError = PrimaryError(status: int, message: Option<string>)

  /** The static factories of the error class. */
  datatype Factory =
    | AlreadyExist
    | WrongCredentials
    | NotFound
    | UnAuthorized
    | SomethingWentWrong
    | ServerError

  /**
   * `PrimaryErrorHandler.<f>(message)`; `None` is a call without a message,
   * which selects the factory's default parameter (`alreadyExist` has none).
   */
  function Raise(f: Factory, message: Option<string>): (e: PrimaryError)
    ensures f == AlreadyExist ==> e == PrimaryError(409, message)
    ensures f == WrongCredentials ==>
      e == PrimaryError(401, Some(message.GetOr("username and password are wrong")))
    ensures f == NotFound ==> e == PrimaryError(404, Some(message.GetOr("404 User Not Found")))
    ensures f == UnAuthorized ==> e == PrimaryError(401, Some(message.GetOr("unAuthorized")))
    ensures f == SomethingWentWrong ==> e == PrimaryError(400, Some(message.GetOr("Something Went Wrong")))
    ensures f == ServerError ==> e == PrimaryError(505, Some(message.GetOr("Internal Server Error")))
  {
    match f
    case AlreadyExist => PrimaryError(409, message)
    case WrongCredentials => PrimaryError(401, Some(message.GetOr("username and password are wrong")))
    case NotFound => PrimaryError(404, Some(message.GetOr("404 User Not Found")))
    case UnAuthorized => PrimaryError(401, Some(message.GetOr("unAuthorized")))
    case SomethingWentWrong => PrimaryError(400, Some(message.GetOr("Something Went Wrong")))
    case ServerError => PrimaryError(505, Some(message.GetOr("Internal Server Error")))
  }

  /**
   * A caller's message always wins over the default, and only `alreadyExist`
   * called without a message yields an error whose message is `undefined`.
   */
  lemma MessageOfRaise(f: Factory, message: Option<string>)
    ensures message.Some? ==> Raise(f, message).message == message
    ensures Raise(f, message).message.None? <==> f == AlreadyExist && message.None?
  {
  }

  /**
   * The status tells the factory apart, except that `wrongCredentials` and
   * `unAuthorized` share 401.
   */
  lemma StatusOfRaise(f: Factory, g: Factory, m: Option<string>, n: Option<string>)
    requires Raise(f, m).status == Raise(g, n).status
    ensures f == g || (f in {WrongCredentials, UnAuthorized} && g in {WrongCredentials, UnAuthorized})
  {
  }
}
