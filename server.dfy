/**
 * `DashboardHandler.do_GET`: exact-match dispatch of the request path to the
 * four handlers, and the reply each one sends.
 */
module Server {
  import opened Wrappers
  import opened LogTail
  import opened Stats

  const HTML := "text/html"
  const JSON := "application/json"
  /** The content type `send_error` uses for its error page. */
  const ERROR_HTML := "text/html;charset=utf-8"
  const LOGS_PLACEHOLDER := "Log functionality coming soon"

  datatype Route = Dashboard | StatsApi | LogsApi | TerminalApi | NotFound

  /**
   * The `if`/`elif` chain of `do_GET`: exact string comparison, 404 otherwise.
   * A path is served exactly when it is one route's own path, and then it is
   * that route; so any other spelling (a query string, a trailing slash, other
   * letter case) gets 404.
   */
  function Dispatch(path: string): (r: Route)
    ensures r != NotFound <==> path in {"/", "/api/stats", "/api/logs", "/api/terminal"}
    ensures r != NotFound ==> PathOf(r) == path
  {
    if path == "/" then Dashboard
    else if path == "/api/stats" then StatsApi
    else if path == "/api/logs" then LogsApi
    else if path == "/api/terminal" then TerminalApi
    else NotFound
  }

  /** The one path each served route answers. */
  function PathOf(r: Route): (path: string)
    requires r != NotFound
    ensures path != [] && path[0] == '/' && '?' !in path
  {
    match r
    case Dashboard => "/"
    case StatsApi => "/api/stats"
    case LogsApi => "/api/logs"
    case TerminalApi => "/api/terminal"
  }

  lemma DispatchPathOf(r: Route)
    requires r != NotFound
    ensures Dispatch(PathOf(r)) == r
  {
  }

  /** A path with a query string is never served. */
  lemma QueryNotServed(path: string)
    requires '?' in path
    ensures Dispatch(path) == NotFound
  {
  }

  datatype Body =
    | DashboardPage
    | StatsBody(snapshot: Snapshot)
    | JsonBody(fields: map<string, Json>)
    | TerminalBody(logs: map<string, seq<string>>)
    | ErrorPage(code: int)

  /**
   * What the client receives: a response, or nothing when an exception escapes
   * `do_GET` (the server drops the connection).
   */
  datatype Reply = Response(status: int, contentType: string, body: Body) | Dropped(message: string)

  /** `{"logs": "Log functionality coming soon"}`. */
  function LogsPlaceholder(): map<string, Json>
  {
    map["logs" := JStr(LOGS_PLACEHOLDER)]
  }

  /** `do_GET` with the handler it picks; `h` is what the probes would observe. */
  method HandleGet(path: string, h: Host) returns (reply: Reply)
    ensures Dispatch(path) == NotFound <==> reply == Response(404, ERROR_HTML, ErrorPage(404))
    ensures path == "/" ==> reply == Response(200, HTML, DashboardPage)
    ensures path == "/api/logs" ==> reply == Response(200, JSON, JsonBody(LogsPlaceholder()))
    ensures path == "/api/stats" ==>
      reply == match SnapshotOf(h)
               case Success(s) => Response(200, JSON, StatsBody(s))
               case Failure(e) => Dropped(e)
    ensures path == "/api/terminal" ==>
      reply == match TerminalLogsOf(h.logDir)
               case Success(logs) => Response(200, JSON, TerminalBody(logs))
               case Failure(e) => Dropped(e)
  {
    match Dispatch(path) {
      case Dashboard =>
        reply := Response(200, HTML, DashboardPage);
      case StatsApi =>
        var stats := GetProjectStats(h);
        match stats {
          case Success(s) => reply := Response(200, JSON, StatsBody(s));
          case Failure(e) => reply := Dropped(e);
        }
      case LogsApi =>
        reply := Response(200, JSON, JsonBody(LogsPlaceholder()));
      case TerminalApi =>
        var logs := GetTerminalLogs(h.logDir);
        match logs {
          case Success(l) => reply := Response(200, JSON, TerminalBody(l));
          case Failure(e) => reply := Dropped(e);
        }
      case NotFound =>
        reply := Response(404, ERROR_HTML, ErrorPage(404));
    }
  }
}
