/** What a route sends back, and with which HTTP status. */
module Http {
  import Roster

  datatype Response =
    | Current(state: Roster.Snapshot)       // the whole state record as JSON
    | Imported(count: nat)                  // { ok: true, count }
    | Drawn(winners: seq<Roster.Entry>)     // { ok: true, winners }
    | Done                                  // { ok: true }
    | Stored(filename: string)              // { ok: true, filename }
    | Screenshots(names: seq<string>)       // { screenshots }
    | Forbidden                             // 403 "Forbidden"
    | BadRequest(message: string)           // 400 with a text body
    | NotFound(message: string)             // 404 with a text body
    | ServerError(message: string)          // 500 sent by the route itself
    | Crash(message: string)                // an error that reaches Express's default handler

  /** The status code: the default error handler answers 500 for errors without a status. */
  function Status(r: Response): (code: nat)
    ensures code == 200 <==> r.Current? || r.Imported? || r.Drawn? || r.Done? || r.Stored? || r.Screenshots?
    ensures code == 500 <==> r.ServerError? || r.Crash?
  {
    match r
    case Forbidden => 403
    case BadRequest(_) => 400
    case NotFound(_) => 404
    case ServerError(_) => 500
    case Crash(_) => 500
    case _ => 200
  }
}
