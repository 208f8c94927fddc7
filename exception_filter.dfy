/**
 * The global exception filter: the decision that turns whatever a request
 * handler threw into an HTTP status and the body `{status: 'error', message}`.
 * The console logging and the `response.status(..).json(..)` write are effects
 * outside this model; `Catch` returns the status and the body they would send.
 */
module ExceptionFilter {
  import opened Errors

  datatype ErrorBody = ErrorBody(status: string, message: string)

  /** `items.join(sep)`. */
  function Join(items: seq<string>, sep: string): (r: string)
    ensures |items| == 1 ==> r == items[0]
    ensures items == [] ==> r == ""
  {
    if items == [] then ""
    else if |items| == 1 then items[0]
    else items[0] + sep + Join(items[1..], sep)
  }

  /** Joining one more item appends the separator and that item. */
  lemma {:induction false} JoinSnoc(items: seq<string>, x: string, sep: string)
    requires items != []
    ensures Join(items + [x], sep) == Join(items, sep) + sep + x
  {
    if |items| == 1 {
      assert items + [x] == [items[0], x];
    } else {
      assert (items + [x])[1..] == items[1..] + [x];
      JoinSnoc(items[1..], x, sep);
    }
  }

  /** The length of a join: every item once, and one separator between each two. */
  lemma {:induction false} JoinLength(items: seq<string>, sep: string)
    requires items != []
    ensures |Join(items, sep)| == TotalLength(items) + (|items| - 1) * |sep|
  {
    if |items| > 1 {
      JoinLength(items[1..], sep);
    }
  }

  function TotalLength(items: seq<string>): nat {
    if items == [] then 0 else |items[0]| + TotalLength(items[1..])
  }

  /** The text for a `PrismaClientKnownRequestError`, chosen by its code. */
  function HandlePrismaError(code: string, message: string, target: Option<seq<string>>): (r: string)
    ensures code == "P2002" && target.Some? && Join(target.value, ", ") != "" ==>
              r == Join(target.value, ", ") + " already exists"
    ensures code == "P2002" && (target.None? || Join(target.value, ", ") == "") ==> r == "Field already exists"
    ensures code == "P2025" ==> r == "Record not found"
    ensures code == "P2003" ==> r == "Foreign key constraint failed"
    ensures code == "P2004" ==> r == "Database constraint failed"
    ensures code == "P2014" ==> r == "Invalid ID provided"
    ensures code == "P2021" ==> r == "Table does not exist"
    ensures code == "P2022" ==> r == "Column does not exist"
    ensures code !in {"P2002", "P2025", "P2003", "P2004", "P2014", "P2021", "P2022"} ==>
              r == "Database error: " + message
  {
    if code == "P2002" then
      var joined := if target.Some? then Join(target.value, ", ") else "";
      (if joined != "" then joined else "Field") + " already exists"
    else if code == "P2025" then "Record not found"
    else if code == "P2003" then "Foreign key constraint failed"
    else if code == "P2004" then "Database constraint failed"
    else if code == "P2014" then "Invalid ID provided"
    else if code == "P2021" then "Table does not exist"
    else if code == "P2022" then "Column does not exist"
    else "Database error: " + message
  }

  /** The codes with a fixed text of their own. */
  const FIXED_TEXT_CODES := {"P2025", "P2003", "P2004", "P2014", "P2021", "P2022"}

  /** The fixed texts tell their codes apart: two errors with codes of that
      list that read the same have the same code. */
  lemma FixedTextsDistinct(c1: string, m1: string, t1: Option<seq<string>>,
                           c2: string, m2: string, t2: Option<seq<string>>)
    requires c1 in FIXED_TEXT_CODES && c2 in FIXED_TEXT_CODES
    requires HandlePrismaError(c1, m1, t1) == HandlePrismaError(c2, m2, t2)
    ensures c1 == c2
  {
  }

  /** The message of an HttpException: a BadRequest with an object response
      reports its `message` field (an array joined with ', '). */
  function HttpMessage(kind: HttpKind, message: string, response: ResponseBody): string {
    if kind == BadRequestKind && response.ObjectBody? then
      match response.message
      case MessageList(items) => Join(items, ", ")
      case MessageText(t) => if t != "" then t else message
      case MessageAbsent => message
    else message
  }

  /** Status and body sent for a thrown value. */
  function Catch(e: Thrown): (r: (int, ErrorBody))
    ensures r.1.status == "error"
    ensures e.NotAnError? ==> r == (INTERNAL_SERVER_ERROR, ErrorBody("error", "Internal server error"))
    ensures e.HttpException? ==> r.0 == e.status
    ensures e.HttpException? && !(e.kind == BadRequestKind && e.response.ObjectBody?) ==>
              r.1.message == e.message
    ensures e.HttpException? && e.kind == BadRequestKind && e.response.ObjectBody? && e.response.message.MessageList? ==>
              r.1.message == Join(e.response.message.items, ", ")
    ensures e.HttpException? && e.kind == BadRequestKind && e.response.ObjectBody? && e.response.message.MessageText? ==>
              r.1.message == (if e.response.message.text != "" then e.response.message.text else e.message)
    ensures e.HttpException? && e.kind == BadRequestKind && e.response.ObjectBody? && e.response.message.MessageAbsent? ==>
              r.1.message == e.message
    ensures e.PrismaKnownRequest? ==> r == (BAD_REQUEST, ErrorBody("error", HandlePrismaError(e.code, e.message, e.target)))
    ensures e.PrismaValidation? ==> r == (BAD_REQUEST, ErrorBody("error", "Invalid data provided to database"))
    ensures e.PlainError? ==> r == (INTERNAL_SERVER_ERROR, ErrorBody("error", e.message))
  {
    var (status, message) :=
      match e
      case HttpException(kind, status, message, response) => (status, HttpMessage(kind, message, response))
      case PrismaKnownRequest(code, message, target) => (BAD_REQUEST, HandlePrismaError(code, message, target))
      case PrismaValidation(_) => (BAD_REQUEST, "Invalid data provided to database")
      case PlainError(message) => (INTERNAL_SERVER_ERROR, message)
      case NotAnError => (INTERNAL_SERVER_ERROR, "Internal server error");
    (status, ErrorBody("error", message))
  }

  /** Only an HttpException can produce a status other than 400 or 500. */
  lemma CatchStatusOrigin(e: Thrown)
    ensures !e.HttpException? ==> Catch(e).0 in {BAD_REQUEST, INTERNAL_SERVER_ERROR}
    ensures Catch(e).0 == BAD_REQUEST && !e.HttpException? ==> e.PrismaKnownRequest? || e.PrismaValidation?
  {
  }

  /** A unique-constraint violation on a known column reads "<column> already exists". */
  lemma UniqueViolationMessage(field: string)
    requires field != ""
    ensures Catch(UniqueViolation([field])) == (BAD_REQUEST, ErrorBody("error", field + " already exists"))
  {
  }
}
