/** The server's error type: its messages, the conversions from library
    errors and the HTTP response each error becomes (`server/src/error.rs`). */
module Errors {

  /** `TtsError`. A wrapped library error is held by its message; the speed
      of `InvalidSpeed` is held as a real number. */
  datatype TtsError =
    | Io(ioMessage: string)
    | FileNotFound(path: string)
    | TtsEngine(engineMessage: string)
    | PoolExhausted
    | AudioParsing(parseMessage: string)
    | WavConcatenation(wavMessage: string)
    | InvalidRequest(requestMessage: string)
    | EmptyText
    | InvalidSpeed(speed: real)
    | Unauthorized
    | InvalidApiKey
    | TaskJoin(joinMessage: string)
    | Unknown(unknownMessage: string)

  /** The library errors the server converts with `From`. */
  datatype LibraryError =
    | IoFailure(message: string)
    | HoundFailure(message: string)
    | JsonFailure(message: string)
    | JoinFailure(message: string)
    | BoxedFailure(message: string)

  /** The `From` conversions. */
  function FromLibrary(e: LibraryError): TtsError {
    match e
    case IoFailure(m) => Io(m)
    case HoundFailure(m) => AudioParsing(m)
    case JsonFailure(m) => Unknown(m)
    case JoinFailure(m) => TaskJoin(m)
    case BoxedFailure(m) => Unknown(m)
  }

  /** `Display`. `showSpeed` stands for Rust's rendering of an `f32`. */
  function Display(e: TtsError, showSpeed: real -> string): string {
    match e
    case Io(m) => "I/O error: " + m
    case FileNotFound(p) => "File not found: " + p
    case TtsEngine(m) => "TTS engine error: " + m
    case PoolExhausted => "TTS pool exhausted"
    case AudioParsing(m) => "Audio parsing error: " + m
    case WavConcatenation(m) => "WAV concatenation error: " + m
    case InvalidRequest(m) => "Invalid request: " + m
    case EmptyText => "Text cannot be empty"
    case InvalidSpeed(s) => "Invalid speed: " + showSpeed(s) + " (must be 0.0-3.0)"
    case Unauthorized => "Unauthorized"
    case InvalidApiKey => "Invalid API key"
    case TaskJoin(m) => "Task execution error: " + m
    case Unknown(m) => "Unknown error: " + m
  }

  predicate IsClientError(e: TtsError) {
    e.EmptyText? || e.InvalidSpeed? || e.InvalidRequest?
  }

  predicate IsAuthError(e: TtsError) {
    e.Unauthorized? || e.InvalidApiKey?
  }

  /** The JSON body of an error response. */
  datatype ErrorBody = ErrorBody(status: string, error: string)

  datatype ErrorResponse = ErrorResponse(statusCode: nat, body: ErrorBody)

  /** `into_response`: the status and the message for each error; internal
      errors are reported without detail. */
  function IntoResponse(e: TtsError, showSpeed: real -> string): ErrorResponse {
    if IsClientError(e) then ErrorResponse(400, ErrorBody("error", Display(e, showSpeed)))
    else if IsAuthError(e) then ErrorResponse(401, ErrorBody("error", Display(e, showSpeed)))
    else if e.FileNotFound? then ErrorResponse(404, ErrorBody("error", Display(e, showSpeed)))
    else ErrorResponse(500, ErrorBody("error", "Internal server error"))
  }

  /** The status classes: 400 exactly for the request errors, 401 exactly
      for the authentication errors, 404 exactly for a missing file, and
      500 for everything else; a 500 hides the error's text, and every body
      says "error". */
  lemma IntoResponseSpec(e: TtsError, showSpeed: real -> string)
    ensures var r := IntoResponse(e, showSpeed);
      && r.statusCode in {400, 401, 404, 500}
      && (r.statusCode == 400 <==> (e.EmptyText? || e.InvalidSpeed? || e.InvalidRequest?))
      && (r.statusCode == 401 <==> (e.Unauthorized? || e.InvalidApiKey?))
      && (r.statusCode == 404 <==> e.FileNotFound?)
      && (r.statusCode == 500 <==> r.body.error == "Internal server error")
      && (r.statusCode != 500 ==> r.body.error == Display(e, showSpeed))
      && r.body.status == "error"
  {
    var r := IntoResponse(e, showSpeed);
    if r.statusCode != 500 {
      DisplayNotInternal(e, showSpeed);
    }
  }

  /** No error's own text is the generic internal-error message. */
  lemma DisplayNotInternal(e: TtsError, showSpeed: real -> string)
    ensures Display(e, showSpeed) != "Internal server error"
  {
    var d := Display(e, showSpeed);
    var g := "Internal server error";
    match e {
      case Io(m) => assert d[1] == '/' != g[1];
      case FileNotFound(p) => assert d[0] == 'F' != g[0];
      case TtsEngine(m) => assert d[0] == 'T' != g[0];
      case PoolExhausted => assert d[0] == 'T' != g[0];
      case AudioParsing(m) => assert d[0] == 'A' != g[0];
      case WavConcatenation(m) => assert d[0] == 'W' != g[0];
      case InvalidRequest(m) => assert d[7] == ' ' != g[7];
      case EmptyText => assert d[0] == 'T' != g[0];
      case InvalidSpeed(s) => assert d[7] == ' ' != g[7];
      case Unauthorized => assert d[0] == 'U' != g[0];
      case InvalidApiKey => assert d[7] == ' ' != g[7];
      case TaskJoin(m) => assert d[0] == 'T' != g[0];
      case Unknown(m) => assert d[0] == 'U' != g[0];
    }
  }

  /** Every converted library error is internal, so its response is a 500,
      and its text carries the library's message after the variant's
      prefix. */
  lemma FromLibrarySpec(e: LibraryError, showSpeed: real -> string)
    ensures IntoResponse(FromLibrary(e), showSpeed).statusCode == 500
    ensures var d := Display(FromLibrary(e), showSpeed);
      |d| >= |e.message| && d[|d| - |e.message|..] == e.message
    ensures e.IoFailure? ==> FromLibrary(e).Io?
    ensures e.HoundFailure? ==> FromLibrary(e).AudioParsing?
    ensures e.JoinFailure? ==> FromLibrary(e).TaskJoin?
    ensures (e.JsonFailure? || e.BoxedFailure?) ==> FromLibrary(e).Unknown?
  {
    var d := Display(FromLibrary(e), showSpeed);
    var m := e.message;
    match e {
      case IoFailure(_) => assert d == "I/O error: " + m;
      case HoundFailure(_) => assert d == "Audio parsing error: " + m;
      case JsonFailure(_) => assert d == "Unknown error: " + m;
      case JoinFailure(_) => assert d == "Task execution error: " + m;
      case BoxedFailure(_) => assert d == "Unknown error: " + m;
    }
  }
}
