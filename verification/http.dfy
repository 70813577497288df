/** What the controllers see of HTTP: the requests they send to the backend services,
    the replies they get, and the action results they return. A backend service is a
    parameter: a function from the requests sent so far and the new request to its
    reply, so that a service may answer differently once something has been posted. */
module Http {
  import opened Wrappers
  import opened Json
  import opened Records

  datatype Verb = GET | POST

  /** The payload of a request. */
  datatype Body =
    | NoBody
    | JsonText(doc: Json)
    | Descriptor(entry: RegistryEntry)
    | AssetIds(ids: Option<seq<SpecificAssetId>>)
    | WrappedAssetIds(specificAssetIds: Option<seq<SpecificAssetId>>)
    | AasxFile(fileName: string)

  datatype Request = Request(verb: Verb, url: string, body: Body)

  /** What sending a request comes to: an answer with a status and a text; Refused when
      the send throws an HttpRequestException (no connection, a DNS failure), which some
      controllers catch; or Escaped when it throws any other exception (a timeout's
      TaskCanceledException, a malformed URI's UriFormatException), which none of them
      catches. */
  datatype Reply = Refused | Escaped | Answered(status: int, content: string)

  /** The last request of `sent` threw an exception no controller catches. */
  predicate EndsEscaped(server: Server, sent: seq<Request>) {
    |sent| > 0 && server(sent[..|sent| - 1], sent[|sent| - 1]).Escaped?
  }

  /** `IsSuccessStatusCode`: a status in 200-299. */
  predicate IsSuccessStatusCode(status: int) {
    200 <= status <= 299
  }

  /** A reply that `EnsureSuccessStatusCode` lets through. */
  predicate Succeeded(reply: Reply) {
    reply.Answered? && IsSuccessStatusCode(reply.status)
  }

  /** The backend services behind a controller. */
  type Server = (seq<Request>, Request) -> Reply

  /** The text of an action result: a fixed string, or a prefix followed by the message
      of an exception the model does not represent. */
  datatype Message = Text(text: string) | WithException(prefix: string)

  /** The action result a controller returns. */
  datatype Response<+T> =
    | Ok(value: T)
    | BadRequest(message: Message)
    | NotFound(message: Message)
    | Conflict(message: Message)
    | Status(code: int, message: Message)

  /** The HTTP status a client sees for an action result. */
  function StatusCodeOf<T>(r: Response<T>): (code: int)
    ensures r.Ok? ==> code == 200
    ensures r.Status? ==> code == r.code
    ensures r.BadRequest? ==> code == 400
    ensures r.NotFound? ==> code == 404
    ensures r.Conflict? ==> code == 409
  {
    match r
    case Ok(_) => 200
    case BadRequest(_) => 400
    case NotFound(_) => 404
    case Conflict(_) => 409
    case Status(c, _) => c
  }

  /** `result.ToString()` on an action result: its type's full name. */
  function TypeName<T>(r: Response<T>): string {
    match r
    case Ok(_) => "Microsoft.AspNetCore.Mvc.OkObjectResult"
    case BadRequest(_) => "Microsoft.AspNetCore.Mvc.BadRequestObjectResult"
    case NotFound(_) => "Microsoft.AspNetCore.Mvc.NotFoundObjectResult"
    case Conflict(_) => "Microsoft.AspNetCore.Mvc.ConflictObjectResult"
    case Status(_, _) => "Microsoft.AspNetCore.Mvc.ObjectResult"
  }

  /** One controller action: the action result, or Thrown when an exception escapes the
      action (the framework then answers 500), and the requests sent, in order. */
  datatype Run<+T> = Run(outcome: Result<Response<T>>, sent: seq<Request>)

  /** A step of a controller action: it either lets the action go on with a value, or
      ends it with an outcome; either way it reports the requests sent so far. */
  datatype Phase<+T> =
    | Proceed(value: T, sent: seq<Request>)
    | Halt(outcome: Result<Response<string>>, sent: seq<Request>)

  /** A step never halts with Ok: success is only ever answered at the end of an action. */
  predicate HaltsWithoutOk<T>(p: Phase<T>) {
    p.Halt? && p.outcome.Success? ==> !p.outcome.value.Ok?
  }

  /** Every request in `sent` is a POST to one of `urls`. */
  predicate PostsTo(sent: seq<Request>, urls: set<string>) {
    forall i :: 0 <= i < |sent| ==> sent[i].verb == POST && sent[i].url in urls
  }

  /** The end of an action whose steps all went through: `Ok(message)`; otherwise the
      outcome the halting step chose. */
  function Finish<T>(p: Phase<T>, message: string): (r: Run<string>)
    ensures r.sent == p.sent
    ensures p.Proceed? ==> r.outcome == Success(Ok(message))
    ensures p.Halt? ==> r.outcome == p.outcome
    ensures HaltsWithoutOk(p) ==> (r.outcome.Success? && r.outcome.value.Ok? <==> p.Proceed?)
  {
    if p.Proceed? then Run(Success(Ok(message)), p.sent) else Run(p.outcome, p.sent)
  }
}
