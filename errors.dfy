/**
 * The values the services throw, and the Result type every service
 * operation returns instead of throwing.
 *
 * NestJS exceptions (`NotFoundException`, `ConflictException`, ...) and the
 * errors raised by the Prisma client are all values of `Thrown`, so that the
 * global exception filter (module ExceptionFilter) can be applied to the
 * failure of any operation in the model.
 */
module Errors {

  datatype Option<+T> = None | Some(value: T) {
    function GetOr(default: T): T {
      match this
      case Some(v) => v
      case None => default
    }
  }

  /** The truthiness of an optional string in `if (x)`: provided and non-empty. */
  predicate Given(s: Option<string>) {
    s.Some? && s.value != ""
  }

  /** The HttpException subclasses the services throw. */
  datatype HttpKind = BadRequestKind | UnauthorizedKind | NotFoundKind | ConflictKind | OtherKind

  /** The `message` property of an exception's response object. */
  datatype MessageField = MessageList(items: seq<string>) | MessageText(text: string) | MessageAbsent

  /** What `HttpException.getResponse()` gives: a bare string or an object. */
  datatype ResponseBody = TextBody(text: string) | ObjectBody(message: MessageField)

  datatype Thrown =
    | NotAnError                       // a thrown value that is not an Error instance
    | HttpException(kind: HttpKind, status: int, message: string, response: ResponseBody)
    | PrismaKnownRequest(code: string, message: string, target: Option<seq<string>>)
    | PrismaValidation(message: string)
    | PlainError(message: string)

  const BAD_REQUEST := 400
  const UNAUTHORIZED := 401
  const NOT_FOUND := 404
  const CONFLICT := 409
  const INTERNAL_SERVER_ERROR := 500

  /** `new XxxException(msg)`: status of the subclass, response `{statusCode, message: msg, error}`. */
  function Unauthorized(msg: string): Thrown {
    HttpException(UnauthorizedKind, UNAUTHORIZED, msg, ObjectBody(MessageText(msg)))
  }

  function NotFound(msg: string): Thrown {
    HttpException(NotFoundKind, NOT_FOUND, msg, ObjectBody(MessageText(msg)))
  }

  function Conflict(msg: string): Thrown {
    HttpException(ConflictKind, CONFLICT, msg, ObjectBody(MessageText(msg)))
  }

  function BadRequest(msg: string): Thrown {
    HttpException(BadRequestKind, BAD_REQUEST, msg, ObjectBody(MessageText(msg)))
  }

  /** The Prisma error for a violated unique constraint on the given columns. */
  function UniqueViolation(fields: seq<string>): Thrown {
    PrismaKnownRequest("P2002", "Unique constraint failed", Some(fields))
  }

  datatype Result<+T> = Ok(value: T) | Err(error: Thrown)

  /** Decimal digits of a natural number, as `${n}` prints it. */
  function NatToDecimal(n: nat): (s: string)
    ensures |s| > 0
    ensures forall i :: 0 <= i < |s| ==> '0' <= s[i] <= '9'
    decreases n
  {
    var d := ['0' + (n % 10) as char];
    if n < 10 then d else NatToDecimal(n / 10) + d
  }

  /** `${n}` for an integer id. */
  function IntToDecimal(n: int): string {
    if n < 0 then "-" + NatToDecimal(-n) else NatToDecimal(n)
  }
}
