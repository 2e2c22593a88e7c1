/**
 * `ClientHandler` (Project/src/ClientHandler.java): the handling of one
 * client connection. The socket, the file system, the charset decoder, the
 * interpreters and the machine figures are inputs; what the handler sends,
 * what it logs and which embedded programs it runs are outputs.
 */
module Handler {
  import opened JavaLang
  import Base64
  import Utf8
  import CodeTemplate
  import Config
  import Status

  /** A piece of the response, in the order it reaches the client: text
      through the buffered writer (always flushed before raw bytes follow)
      or bytes through the raw output stream. */
  datatype Chunk = Text(text: string) | Bytes(bytes: seq<byte>)

  /** A line of the access log or of the error log. */
  datatype LogEntry = Access(request: string, client: string) | Error(message: string)

  /** What reading the request line gives: a line, the end of the stream
      (`readLine` returns `null`), or an IOException with its message,
      flagged when it is a SocketException. */
  datatype Request = Line(text: string) | EndOfStream | ReadFailure(message: string, socketError: bool)

  /** What the file system says about a path: `exists()` false, a
      directory, a file whose type probe or read throws, or a regular file
      with its probed MIME type (`None` for `null`) and its bytes. */
  datatype FileInfo = Missing | Directory | Unreadable(message: string) | Regular(mime: Option<string>, data: seq<byte>)

  /** How `run` ended. `CloseFailed`: `socket.close()` threw after a
      refusal. `Aborted`: `appendReplacement` threw an unchecked exception,
      which leaves `run` after the `finally` block. */
  datatype Exit = Refused | CloseFailed | NoRequest | Malformed | StatusServed | FileServed | NotFound | ReadFailed | Aborted

  /** Everything outside the handler it depends on: `File`/`Files`, the
      default-charset `new String(bytes)`, `DynamicCodeExecutor.execute`
      and the figures of `MachineStatus`. */
  datatype Host = Host(
    fs: string -> FileInfo,
    decode: seq<byte> -> string,
    execute: (string, string) -> string,
    machine: Status.Machine)

  /** The result of one call of `run`. */
  datatype Handling = Handling(written: seq<Chunk>, log: seq<LogEntry>, executed: seq<CodeTemplate.Call>, exit: Exit)

  const OkLine: string := "HTTP/1.1 200 OK\r\n"
  const HtmlType: string := "Content-Type: text/html\r\n"
  const EndOfHeaders: string := "\r\n"
  const FallbackMime: string := "application/octet-stream"

  predicate StartsWith(s: string, prefix: string) {
    |prefix| <= |s| && s[..|prefix|] == prefix
  }

  // ---------------------------------------------------------------------
  // isAccepted
  // ---------------------------------------------------------------------

  /** `isAccepted`: a rejected address never gets in; otherwise an empty
      accept set lets everybody in and a non-empty one only its members. */
  function IsAccepted(ip: string, accept: set<string>, reject: set<string>): bool {
    if ip in reject then false
    else accept == {} || ip in accept
  }

  /** Rejection wins over acceptance, and adding accepted addresses to a
      non-empty accept set never shuts out an address that was let in (an
      empty set lets everyone in, so its first address shuts out the rest). */
  lemma AcceptanceRules(ip: string, accept: set<string>, reject: set<string>, more: set<string>)
    ensures ip in reject ==> !IsAccepted(ip, accept + more, reject)
    ensures ip !in reject ==> (IsAccepted(ip, accept, reject) <==> accept == {} || ip in accept)
    ensures accept != {} && IsAccepted(ip, accept, reject) ==> IsAccepted(ip, accept + more, reject)
  {
  }

  /** A blank `<accept>` element puts the empty string in the accept set,
      so from then on only listed addresses get in. */
  lemma BlankAcceptRestricts(doc: Config.Document, i: nat, ip: string)
    requires i < |doc| && doc[i].tag == "accept" && Trim(doc[i].text) == []
    requires ip != [] && ip !in Config.Addresses(doc, "accept")
    ensures !IsAccepted(ip, Config.Addresses(doc, "accept"), Config.Addresses(doc, "reject"))
  {
    Config.BlankAddsEmpty(doc, "accept", i);
  }

  // ---------------------------------------------------------------------
  // The responses
  // ---------------------------------------------------------------------

  /** `encodeFileBase64`: the text decodes back to the file, and it has
      four characters for each started group of three bytes. */
  function EncodeFileBase64(data: seq<byte>): (r: string)
    ensures Base64.Decode(r) == Some(data)
    ensures |r| == 4 * ((|data| + 2) / 3)
  {
    Base64.DecodeEncode(data);
    Base64.EncodeLength(data);
    Base64.Encode(data)
  }

  /** A text differing from a prefix at some position does not start
      with it. */
  lemma DiffersAt(s: string, prefix: string, k: nat)
    requires k < |s| && k < |prefix| && s[k] != prefix[k]
    ensures !StartsWith(s, prefix)
  {
    if |prefix| <= |s| {
      assert s[..|prefix|][k] == s[k];
    }
  }

  predicate IsMedia(mime: string) {
    StartsWith(mime, "image") || StartsWith(mime, "video") || StartsWith(mime, "audio")
  }

  /** Neither the fallback type nor `text/html` is a media type. */
  lemma NotMedia(mime: string)
    requires mime == FallbackMime || mime == "text/html"
    ensures !IsMedia(mime)
  {
    DiffersAt(mime, "image", 1);
    DiffersAt(mime, "video", 1);
    DiffersAt(mime, "audio", 1);
  }

  function MimeOrFallback(mime: Option<string>): string {
    match mime
    case None => FallbackMime
    case Some(m) => m
  }

  /** What `sendFileResponse` sends for a file: `None` when
      `appendReplacement` throws, with the interpreter calls made either
      way. */
  function FileResponse(mime: Option<string>, data: seq<byte>, host: Host): (Option<seq<Chunk>>, seq<CodeTemplate.Call>) {
    var mimeType := MimeOrFallback(mime);
    if IsMedia(mimeType) then
      var base64File := EncodeFileBase64(data);
      (Some([Text(OkLine), Text("Content-Type: " + mimeType + "\r\n"),
             Text("Content-Length: " + Decimal(|base64File|) + "\r\n"), Text(EndOfHeaders), Text(base64File)]), [])
    else if mimeType == "text/html" then
      match CodeTemplate.SubstituteFrom(host.decode(data), 0, host.execute)
      case Threw(calls) => (None, calls)
      case Substituted(text, calls) =>
        var modifiedContent := Utf8.Encode(text);
        (Some([Text(OkLine), Text(HtmlType),
               Text("Content-Length: " + Decimal(|modifiedContent|) + "\r\n"), Text(EndOfHeaders),
               Bytes(modifiedContent)]), calls)
    else
      (Some([Text(OkLine), Text("Content-Type: " + mimeType + "\r\n"),
             Text("Content-Length: " + Decimal(|data|) + "\r\n"), Text(EndOfHeaders), Bytes(data)]), [])
  }

  function StatusResponse(connectionCount: int32, machine: Status.Machine): seq<Chunk> {
    [Text(OkLine), Text(HtmlType), Text(EndOfHeaders), Text(Status.StatusPage(connectionCount, machine))]
  }

  function ErrorResponse(statusCode: int32, statusMessage: string): seq<Chunk> {
    [Text("HTTP/1.1 " + Decimal(statusCode) + " " + statusMessage + "\r\n"), Text(HtmlType), Text(EndOfHeaders),
     Text("<html><body><h1>" + Decimal(statusCode) + " " + statusMessage + "</h1></body></html>")]
  }

  /** The path `run` looks up: the root directory, `null` printed as such
      when the configuration did not load, followed by the request path. */
  function FilePath(root: Option<string>, path: string): string {
    match root
    case None => "null" + path
    case Some(r) => r + path
  }

  /** The file a request target designates: `/` stands for `/index.html`,
      and the root directory is prepended without any normalisation. */
  function ResolvedPath(root: Option<string>, target: string): string {
    FilePath(root, if target == "/" then "/index.html" else target)
  }

  /** The whole of `run` after the counter increment, for a configuration
      with the given sets and root, and a counter at `count` while the
      request is served. */
  function Handle(accept: set<string>, reject: set<string>, root: Option<string>, clientIP: string,
                  closeFailure: Option<string>, request: Request, host: Host, count: int32): Handling
  {
    if !IsAccepted(clientIP, accept, reject) then
      var refusal := Error("Connection refusée pour l'adresse IP : " + clientIP);
      match closeFailure
      case Some(msg) => Handling([], [refusal, Error("Erreur de connection client : " + msg)], [], CloseFailed)
      case None => Handling([], [refusal], [], Refused)
    else HandleRequest(root, clientIP, request, host, count)
  }

  /** The inner `try` block of `run` (lines 54-99), for an accepted client. */
  function HandleRequest(root: Option<string>, clientIP: string, request: Request, host: Host, count: int32): Handling
  {
    match request
    case ReadFailure(msg, socketError) =>
      Handling([], [Error("Erreur de lecture de la requête : " + msg)]
                   + (if socketError then [Error("SocketException : " + msg)] else []), [], ReadFailed)
    case EndOfStream => Handling([], [Error("Requête vide ou nulle reçue")], [], NoRequest)
    case Line(requestLine) =>
      if requestLine == [] then Handling([], [Error("Requête vide ou nulle reçue")], [], NoRequest)
      else
        var access := Access(requestLine, clientIP);
        var parts := SplitOnSpace(requestLine);
        if |parts| < 2 then Handling([], [access, Error("Requête invalide : " + requestLine)], [], Malformed)
        else
          var r := Route(root, parts[1], host, count);
          Handling(r.written, [access] + r.log, r.executed, r.exit)
  }

  /** Lines 74-92 of `run`: the answer to a well-formed request for
      `target`, with the log lines that follow the access-log line. */
  function Route(root: Option<string>, target: string, host: Host, count: int32): Handling {
    if target == "/status" then Handling(StatusResponse(count, host.machine), [], [], StatusServed)
    else
      var filePath := ResolvedPath(root, target);
      match host.fs(filePath)
      case Regular(mime, data) =>
        var (chunks, calls) := FileResponse(mime, data, host);
        if chunks.None? then Handling([], [], calls, Aborted)
        else Handling(chunks.value, [], calls, FileServed)
      case Unreadable(msg) =>
        Handling([], [Error("Erreur de lecture de la requête : " + msg)], [], ReadFailed)
      case _ =>
        Handling(ErrorResponse(404, "Not Found"), [Error("Fichier non trouvé : " + filePath)], [], NotFound)
  }

  // ---------------------------------------------------------------------
  // The handler object
  // ---------------------------------------------------------------------

  class ClientHandler {
    /** The number of active connections this handler has counted. */
    var connectionCount: int32

    constructor()
      ensures connectionCount == 0
    {
      connectionCount := 0;
    }

    /** `sendStatusResponse`: the status page with the current counter. */
    method SendStatusResponse(machine: Status.Machine) returns (chunks: seq<Chunk>)
      ensures chunks == StatusResponse(connectionCount, machine)
    {
      var statusHtml := Status.GetStatusHtml(connectionCount, machine);
      chunks := [Text(OkLine)];
      chunks := chunks + [Text(HtmlType)];
      chunks := chunks + [Text(EndOfHeaders)];
      chunks := chunks + [Text(statusHtml)];
    }

    /** `sendErrorResponse`. */
    method SendErrorResponse(statusCode: int32, statusMessage: string) returns (chunks: seq<Chunk>)
      ensures chunks == ErrorResponse(statusCode, statusMessage)
    {
      chunks := [Text("HTTP/1.1 " + Decimal(statusCode) + " " + statusMessage + "\r\n")];
      chunks := chunks + [Text(HtmlType)];
      chunks := chunks + [Text(EndOfHeaders)];
      chunks := chunks + [Text("<html><body><h1>" + Decimal(statusCode) + " " + statusMessage + "</h1></body></html>")];
    }

    /** `sendFileResponse`: picks the branch by MIME type, runs the
        substitution loop for HTML, and writes headers then body. */
    method SendFileResponse(mime: Option<string>, data: seq<byte>, host: Host)
      returns (chunks: Option<seq<Chunk>>, calls: seq<CodeTemplate.Call>)
      ensures (chunks, calls) == FileResponse(mime, data, host)
    {
      var mimeType := FallbackMime;
      if mime.Some? {
        mimeType := mime.value;
      }
      var fileData := data;
      calls := [];
      if StartsWith(mimeType, "image") || StartsWith(mimeType, "video") || StartsWith(mimeType, "audio") {
        var base64File := EncodeFileBase64(fileData);
        chunks := Some([Text(OkLine), Text("Content-Type: " + mimeType + "\r\n"),
                        Text("Content-Length: " + Decimal(|base64File|) + "\r\n"), Text(EndOfHeaders),
                        Text(base64File)]);
      } else if mimeType == "text/html" {
        var result := CodeTemplate.SubstituteHtml(host.decode(fileData), host.execute);
        match result
        case Threw(cs) =>
          chunks := None;
          calls := cs;
        case Substituted(text, cs) =>
          var modifiedContent := Utf8.Encode(text);
          chunks := Some([Text(OkLine), Text(HtmlType),
                          Text("Content-Length: " + Decimal(|modifiedContent|) + "\r\n"), Text(EndOfHeaders),
                          Bytes(modifiedContent)]);
          calls := cs;
      } else {
        chunks := Some([Text(OkLine), Text("Content-Type: " + mimeType + "\r\n"),
                        Text("Content-Length: " + Decimal(|fileData|) + "\r\n"), Text(EndOfHeaders),
                        Bytes(fileData)]);
      }
    }

    /** The inner `try` block of `run` (lines 54-99): reads the request
        line, routes it and sends the response. */
    method ServeRequest(root: Option<string>, clientIP: string, request: Request, host: Host)
      returns (written: seq<Chunk>, log: seq<LogEntry>, executed: seq<CodeTemplate.Call>, exit: Exit)
      ensures Handling(written, log, executed, exit) == HandleRequest(root, clientIP, request, host, connectionCount)
    {
      written, log, executed := [], [], [];
      match request {
        case ReadFailure(msg, socketError) =>
          log := log + [Error("Erreur de lecture de la requête : " + msg)];
          if socketError {
            log := log + [Error("SocketException : " + msg)];
          }
          exit := ReadFailed;
        case EndOfStream =>
          log := log + [Error("Requête vide ou nulle reçue")];
          exit := NoRequest;
        case Line(requestLine) =>
          if requestLine == [] {
            log := log + [Error("Requête vide ou nulle reçue")];
            exit := NoRequest;
          } else {
            log := log + [Access(requestLine, clientIP)];
            var requestLineParts := SplitOnSpace(requestLine);
            if |requestLineParts| < 2 {
              log := log + [Error("Requête invalide : " + requestLine)];
              exit := Malformed;
            } else {
              var routed, routeLog, calls, routeExit := RouteRequest(root, requestLineParts[1], host);
              written, log, executed, exit := routed, log + routeLog, calls, routeExit;
            }
          }
      }
    }

    /** Lines 74-92 of `run`: answers a well-formed request for `target`
        and logs what follows the access-log line. */
    method RouteRequest(root: Option<string>, target: string, host: Host)
      returns (written: seq<Chunk>, log: seq<LogEntry>, executed: seq<CodeTemplate.Call>, exit: Exit)
      ensures Handling(written, log, executed, exit) == Route(root, target, host, connectionCount)
    {
      written, log, executed := [], [], [];
      var filePath := target;
      if filePath == "/status" {
        written := SendStatusResponse(host.machine);
        exit := StatusServed;
      } else {
        if filePath == "/" {
          filePath := "/index.html";
        }
        filePath := FilePath(root, filePath);
        var file := host.fs(filePath);
        if file.Regular? {
          var chunks, calls := SendFileResponse(file.mime, file.data, host);
          executed := calls;
          if chunks.None? {
            exit := Aborted;
          } else {
            written := chunks.value;
            exit := FileServed;
          }
        } else if file.Unreadable? {
          log := log + [Error("Erreur de lecture de la requête : " + file.message)];
          exit := ReadFailed;
        } else {
          written := SendErrorResponse(404, "Not Found");
          log := log + [Error("Fichier non trouvé : " + filePath)];
          exit := NotFound;
        }
      }
    }

    /** `run`: counts the connection in, filters the address, reads and
        routes the request, answers it, and counts the connection out on
        every path but a failing `socket.close()` after a refusal. */
    method Run(config: Config.ConfigLoader, clientIP: string, closeFailure: Option<string>, request: Request, host: Host)
      returns (written: seq<Chunk>, log: seq<LogEntry>, executed: seq<CodeTemplate.Call>, exit: Exit)
      modifies this
      ensures Handling(written, log, executed, exit)
        == Handle(config.GetAccept(), config.GetReject(), config.GetRootDirectory(), clientIP,
                  closeFailure, request, host, Inc32(old(connectionCount)))
      ensures connectionCount == if exit == CloseFailed then Inc32(old(connectionCount)) else old(connectionCount)
    {
      connectionCount := Inc32(connectionCount);
      written, log, executed := [], [], [];

      if !IsAccepted(clientIP, config.GetAccept(), config.GetReject()) {
        log := log + [Error("Connection refusée pour l'adresse IP : " + clientIP)];
        if closeFailure.Some? {
          log := log + [Error("Erreur de connection client : " + closeFailure.value)];
          exit := CloseFailed;
          return;
        }
        connectionCount := Dec32(connectionCount);
        exit := Refused;
        return;
      }

      written, log, executed, exit := ServeRequest(config.GetRootDirectory(), clientIP, request, host);
      connectionCount := Dec32(connectionCount);
    }
  }

  /** `HttpServer` hands every accepted socket to a new handler: a fresh
      counter at 0 that is back at 0 afterwards unless closing a refused
      socket failed, and a status page that reports 1. */
  method ServeConnection(config: Config.ConfigLoader, clientIP: string, closeFailure: Option<string>, request: Request, host: Host)
    returns (handler: ClientHandler, result: Handling)
    ensures fresh(handler)
    ensures result == Handle(config.GetAccept(), config.GetReject(), config.GetRootDirectory(), clientIP,
                             closeFailure, request, host, 1)
    ensures handler.connectionCount == if result.exit == CloseFailed then 1 else 0
  {
    handler := new ClientHandler();
    var written, log, executed, exit := handler.Run(config, clientIP, closeFailure, request, host);
    result := Handling(written, log, executed, exit);
  }

  // ---------------------------------------------------------------------
  // Properties of the handling
  // ---------------------------------------------------------------------

  /** A refused client is sent nothing, runs nothing, and the refusal is
      logged first; only a failing `socket.close()` adds a second line. */
  lemma RefusedGetsNothing(accept: set<string>, reject: set<string>, root: Option<string>, clientIP: string,
                           closeFailure: Option<string>, request: Request, host: Host, count: int32)
    requires !IsAccepted(clientIP, accept, reject)
    ensures var h := Handle(accept, reject, root, clientIP, closeFailure, request, host, count);
      && h.written == [] && h.executed == []
      && |h.log| >= 1 && h.log[0] == Error("Connection refusée pour l'adresse IP : " + clientIP)
      && (h.exit == CloseFailed <==> closeFailure.Some?)
      && (h.exit == Refused <==> closeFailure.None?)
  {
  }

  /** A missing or empty request line is logged as such and nothing is
      sent. */
  lemma EmptyRequest(root: Option<string>, clientIP: string, request: Request, host: Host, count: int32)
    requires request == EndOfStream || request == Line([])
    ensures HandleRequest(root, clientIP, request, host, count)
      == Handling([], [Error("Requête vide ou nulle reçue")], [], NoRequest)
  {
  }

  /** A request line that `split(" ")` cuts into fewer than two parts (one
      without a space, or one like `GET ` whose later pieces are empty) is
      logged as received, then as invalid, and nothing is sent. */
  lemma ShortLine(root: Option<string>, clientIP: string, line: string, host: Host, count: int32)
    requires line != [] && |SplitOnSpace(line)| < 2
    ensures HandleRequest(root, clientIP, Line(line), host, count)
      == Handling([], [Access(line, clientIP), Error("Requête invalide : " + line)], [], Malformed)
  {
  }

  /** A line without a space, and a single word followed by a space, both
      split into fewer than two parts. */
  lemma {:induction false} FewerThanTwoParts(word: string)
    requires ' ' !in word
    ensures |SplitOnSpace(word)| < 2
    ensures |SplitOnSpace(word + " ")| < 2
  {
    PiecesAfterField(word, ' ', []);
    assert word + " " == word + [' '] + [];
  }

  /** The target is the second space-separated field of the request line:
      for `method target version` the file looked up is the target's. */
  lemma TargetIsSecondField(method_: string, target: string, version: string)
    requires ' ' !in method_ && ' ' !in target && ' ' !in version && version != []
    ensures SplitOnSpace(method_ + " " + target + " " + version) == [method_, target, version]
  {
    var fields := [method_, target, version];
    SplitJoin(fields);
    assert fields[1..] == [target, version] && fields[1..][1..] == [version];
    assert Join([version], ' ') == version;
    assert Join([target, version], ' ') == target + " " + version;
    assert Join(fields, ' ') == method_ + " " + (target + " " + version);
    assert method_ + " " + (target + " " + version) == method_ + " " + target + " " + version;
  }

  /** A well-formed request line is logged, then answered according to
      its target alone. */
  lemma TargetDecides(root: Option<string>, clientIP: string, line: string, host: Host, count: int32)
    requires line != [] && |SplitOnSpace(line)| >= 2
    ensures var h := HandleRequest(root, clientIP, Line(line), host, count);
      var r := Route(root, SplitOnSpace(line)[1], host, count);
      h == Handling(r.written, [Access(line, clientIP)] + r.log, r.executed, r.exit)
  {
  }

  /** `/` is served exactly like `/index.html`. */
  lemma SlashIsIndex(root: Option<string>, host: Host, count: int32)
    ensures Route(root, "/", host, count) == Route(root, "/index.html", host, count)
  {
    assert "/" != "/status";
    DiffersAt("/index.html", "/status", 1);
    assert "/index.html" != "/status";
  }

  /** `/status` is answered with the status page for the current counter,
      whatever the file system holds, and the page reports that counter. */
  lemma StatusIgnoresFiles(root: Option<string>, h1: Host, h2: Host, count: int32)
    requires h1.machine == h2.machine
    ensures Route(root, "/status", h1, count) == Route(root, "/status", h2, count)
    ensures Route(root, "/status", h1, count).written == StatusResponse(count, h1.machine)
    ensures Status.ReadConnectionCount(StatusResponse(count, h1.machine)[3].text) == Some(count)
  {
    Status.ConnectionCountRoundTrip(count, h1.machine);
  }

  /** Every connection gets a new handler, so an accepted request for
      `/status` is answered with a page reporting one active connection. */
  lemma StatusReportsOne(config: Config.ConfigLoader, clientIP: string, closeFailure: Option<string>,
                         method_: string, version: string, host: Host)
    requires IsAccepted(clientIP, config.GetAccept(), config.GetReject())
    requires ' ' !in method_ && ' ' !in version && version != []
    ensures var h := Handle(config.GetAccept(), config.GetReject(), config.GetRootDirectory(), clientIP,
                            closeFailure, Line(method_ + " " + "/status" + " " + version), host, 1);
      && h.exit == StatusServed && |h.written| == 4
      && Status.ReadConnectionCount(h.written[3].text) == Some(1)
  {
    TargetIsSecondField(method_, "/status", version);
    StatusIgnoresFiles(config.GetRootDirectory(), host, host, 1);
  }

  /** Of the whole file system, only the resolved path is consulted. */
  lemma OnlyResolvedPathConsulted(root: Option<string>, target: string, h1: Host, h2: Host, count: int32)
    requires h1.fs(ResolvedPath(root, target)) == h2.fs(ResolvedPath(root, target))
    requires h1.decode == h2.decode && h1.execute == h2.execute && h1.machine == h2.machine
    ensures Route(root, target, h1, count) == Route(root, target, h2, count)
  {
  }

  lemma Decimal404()
    ensures Decimal(404) == "404"
  {
    assert Digits(4) == "4";
    assert Digits(40) == Digits(4) + [DigitChar(0)] == "40";
    assert Digits(404) == Digits(40) + [DigitChar(4)] == "404";
  }

  /** The 404 answer. */
  const NotFoundChunks: seq<Chunk> :=
    [Text("HTTP/1.1 404 Not Found\r\n"), Text(HtmlType), Text(EndOfHeaders),
     Text("<html><body><h1>404 Not Found</h1></body></html>")]

  /** The text of the 404 answer. */
  lemma NotFoundResponse()
    ensures ErrorResponse(404, "Not Found") == NotFoundChunks
  {
    Decimal404();
    ErrorResponseText(404, "Not Found", "404");
    NotFoundLine();
    NotFoundPage();
  }

  lemma NotFoundLine()
    ensures "HTTP/1.1 " + "404" + " " + "Not Found" + "\r\n" == "HTTP/1.1 404 Not Found\r\n"
  {
  }

  lemma NotFoundPage()
    ensures "<html><body><h1>" + "404" + " " + "Not Found" + "</h1></body></html>"
      == "<html><body><h1>404 Not Found</h1></body></html>"
  {
  }

  lemma ErrorResponseText(statusCode: int32, statusMessage: string, d: string)
    requires Decimal(statusCode) == d
    ensures ErrorResponse(statusCode, statusMessage) ==
      [Text("HTTP/1.1 " + d + " " + statusMessage + "\r\n"), Text(HtmlType), Text(EndOfHeaders),
       Text("<html><body><h1>" + d + " " + statusMessage + "</h1></body></html>")]
  {
  }

  /** A missing file or a directory is answered with the 404 page and
      logged with its full path. */
  lemma MissingFileIsNotFound(root: Option<string>, target: string, host: Host, count: int32)
    requires target != "/status"
    requires host.fs(ResolvedPath(root, target)) in {Missing, Directory}
    ensures Route(root, target, host, count) ==
      Handling(NotFoundChunks, [Error("Fichier non trouvé : " + ResolvedPath(root, target))], [], NotFound)
  {
    NotFoundResponse();
  }

  /** The number of bytes a chunk puts on the wire, for the ASCII text the
      file responses write. */
  function WireLength(c: Chunk): nat {
    match c
    case Text(t) => |t|
    case Bytes(b) => |b|
  }

  /** Every file response is the status line, a Content-Type, a
      Content-Length equal to the length of the body, the blank line, and
      the body last; the announced type is the probed one or the fallback. */
  lemma FileResponseShape(mime: Option<string>, data: seq<byte>, host: Host)
    requires FileResponse(mime, data, host).0.Some?
    ensures var cs := FileResponse(mime, data, host).0.value;
      && |cs| == 5 && cs[0] == Text(OkLine) && cs[3] == Text(EndOfHeaders)
      && cs[1] == Text("Content-Type: " + MimeOrFallback(mime) + "\r\n")
      && cs[2] == Text("Content-Length: " + Decimal(WireLength(cs[4])) + "\r\n")
  {
    var mimeType := MimeOrFallback(mime);
    var cs := FileResponse(mime, data, host).0.value;
    if IsMedia(mimeType) {
      var t := EncodeFileBase64(data);
      assert cs == [Text(OkLine), Text("Content-Type: " + mimeType + "\r\n"),
                    Text("Content-Length: " + Decimal(|t|) + "\r\n"), Text(EndOfHeaders), Text(t)];
    } else if mimeType == "text/html" {
      var r := CodeTemplate.SubstituteFrom(host.decode(data), 0, host.execute);
      var body := Utf8.Encode(r.text);
      assert cs == [Text(OkLine), Text(HtmlType),
                    Text("Content-Length: " + Decimal(|body|) + "\r\n"), Text(EndOfHeaders), Bytes(body)];
      HtmlTypeIs();
    } else {
      assert cs == [Text(OkLine), Text("Content-Type: " + mimeType + "\r\n"),
                    Text("Content-Length: " + Decimal(|data|) + "\r\n"), Text(EndOfHeaders), Bytes(data)];
    }
  }

  lemma HtmlTypeIs()
    ensures HtmlType == "Content-Type: " + "text/html" + "\r\n"
  {
  }

  /** Media types are sent as Base64 text that decodes to the file, with
      Content-Length 4 * ceil(n / 3) for n bytes; no interpreter runs. */
  lemma MediaResponse(mime: Option<string>, data: seq<byte>, host: Host)
    requires IsMedia(MimeOrFallback(mime))
    ensures var (cs, calls) := FileResponse(mime, data, host);
      && cs.Some? && |cs.value| == 5 && calls == []
      && cs.value[2] == Text("Content-Length: " + Decimal(4 * ((|data| + 2) / 3)) + "\r\n")
      && cs.value[4].Text? && Base64.Decode(cs.value[4].text) == Some(data)
  {
  }

  /** A file whose type is neither a media type nor `text/html` (a probed
      `text/css` or `application/pdf`, or no probed type at all) is sent
      as its own bytes unchanged under that type, with Content-Length the
      byte count, and nothing runs. */
  lemma OtherTypeIsRaw(mime: Option<string>, data: seq<byte>, host: Host)
    requires !IsMedia(MimeOrFallback(mime)) && MimeOrFallback(mime) != "text/html"
    ensures FileResponse(mime, data, host) ==
      (Some([Text(OkLine), Text("Content-Type: " + MimeOrFallback(mime) + "\r\n"),
             Text("Content-Length: " + Decimal(|data|) + "\r\n"), Text(EndOfHeaders), Bytes(data)]), [])
  {
  }

  /** A file without a probed type is sent as `application/octet-stream`:
      its bytes unchanged, with Content-Length the byte count. */
  lemma UnknownTypeIsRaw(data: seq<byte>, host: Host)
    ensures FileResponse(None, data, host) ==
      (Some([Text(OkLine), Text("Content-Type: " + FallbackMime + "\r\n"),
             Text("Content-Length: " + Decimal(|data|) + "\r\n"), Text(EndOfHeaders), Bytes(data)]), [])
  {
    NotMedia(FallbackMime);
    DiffersAt(FallbackMime, "text/html", 0);
    OtherTypeIsRaw(None, data, host);
  }

  /** An HTML file whose interpreters print neither `$` nor `\` is sent as
      the UTF-8 bytes of the document with each block replaced by its
      output, the rest kept verbatim, every block run once in order. */
  lemma HtmlResponse(data: seq<byte>, host: Host)
    requires var text := host.decode(data);
      CodeTemplate.PlainOutputs(CodeTemplate.Outputs(text, CodeTemplate.Blocks(text, 0), host.execute))
    ensures var text := host.decode(data);
      var blocks := CodeTemplate.Blocks(text, 0);
      var body := Utf8.Encode(CodeTemplate.Splice(text, 0, blocks, CodeTemplate.Outputs(text, blocks, host.execute)));
      FileResponse(Some("text/html"), data, host) ==
        (Some([Text(OkLine), Text(HtmlType), Text("Content-Length: " + Decimal(|body|) + "\r\n"),
               Text(EndOfHeaders), Bytes(body)]),
         CodeTemplate.CallsOf(text, blocks))
  {
    NotMedia("text/html");
    CodeTemplate.SubstituteSplices(host.decode(data), 0, host.execute);
  }

  /** An ASCII HTML file without embedded code is sent byte for byte as it
      is stored, and nothing runs. */
  lemma StaticHtmlUnchanged(data: seq<byte>, host: Host)
    requires |host.decode(data)| == |data|
    requires forall i :: 0 <= i < |data| ==> data[i] < 0x80 && host.decode(data)[i] as int == data[i]
    requires CodeTemplate.Blocks(host.decode(data), 0) == []
    ensures FileResponse(Some("text/html"), data, host) ==
      (Some([Text(OkLine), Text(HtmlType), Text("Content-Length: " + Decimal(|data|) + "\r\n"),
             Text(EndOfHeaders), Bytes(data)]), [])
  {
    var text := host.decode(data);
    NotMedia("text/html");
    CodeTemplate.NoBlockUnchanged(text, host.execute);
    Utf8.EncodeLength(text);
    assert Utf8.Encode(text) == data;
  }

  /** A substitution that throws sends nothing; the calls made up to the
      failing block are the first blocks' calls, in order. */
  lemma HtmlThrowSendsNothing(data: seq<byte>, host: Host)
    requires CodeTemplate.SubstituteFrom(host.decode(data), 0, host.execute).Threw?
    ensures var (cs, calls) := FileResponse(Some("text/html"), data, host);
      var text := host.decode(data);
      && cs.None? && 0 < |calls| <= |CodeTemplate.Blocks(text, 0)|
      && calls == CodeTemplate.CallsOf(text, CodeTemplate.Blocks(text, 0))[..|calls|]
  {
    NotMedia("text/html");
    CodeTemplate.SubstituteCallsThrew(host.decode(data), 0, host.execute);
  }
}
