/** `PerverHandler`: one per connection. It reads the request, parses it
    into a `Client`, looks the path up in the route tables and writes the
    response.

    The stream is modelled by what it carries: the lines `readline`
    returns, in order, on the way in; the text written so far and whether
    `write_eof` was called, on the way out. A user script is not run here:
    `HandleRequest` reports which script the request selects and with
    which parameters, and `RespondScript` writes the answer once the
    script has returned. `files` stands for the file system. */
module Handling {
  import opened Wrappers
  import opened Text
  import opened Dicts
  import opened Identity
  import opened Router
  import opened Decimal
  import Request
  import opened Wire
  import opened Mime
  import opened Server

  /** What the handler does with a parsed request, before any script runs. */
  datatype Action<H> = RunScript(handler: H, params: Dict<string, string>) | ServeFile(path: string) | NotFound

  /** `path[1:]`: the first character dropped, if there is one. */
  function DropFirst(s: string): (r: string)
    ensures s == [] ==> r == []
    ensures s != [] ==> [s[0]] + r == s
  {
    if s == [] then [] else s[1..]
  }

  /** The file a static route maps the path to: the first directory
      (in the table's order) the path starts with is replaced, once, by
      its local directory, and the leading slash is dropped. */
  function StaticTarget(path: string, statics: Dict<string, string>): (r: Option<string>)
    ensures r.None? <==> forall k :: 0 <= k < |statics| ==> !StartsWith(path, statics[k].0)
  {
    if statics == [] then None
    else if StartsWith(path, statics[0].0) then Some(DropFirst(ReplaceFirst(path, statics[0].0, statics[0].1)))
    else
      var r := StaticTarget(path, statics[1..]);
      assert forall k :: 1 <= k < |statics| ==> statics[k] == statics[1..][k - 1];
      r
  }

  /** The first matching directory decides, and its local part takes the
      place of the web prefix. */
  lemma {:induction false} StaticTargetFirst(path: string, statics: Dict<string, string>, k: nat)
    requires k < |statics| && StartsWith(path, statics[k].0)
    requires forall j :: 0 <= j < k ==> !StartsWith(path, statics[j].0)
    ensures StaticTarget(path, statics) == Some(DropFirst(statics[k].1 + path[|statics[k].0|..]))
  {
    if k == 0 {
      ReplaceFirstPrefix(path, statics[0].0, statics[0].1);
    } else {
      assert !StartsWith(path, statics[0].0);
      forall j | 0 <= j < k - 1 ensures !StartsWith(path, statics[1..][j].0) {
        assert statics[1..][j] == statics[j + 1];
      }
      StaticTargetFirst(path, statics[1..], k - 1);
    }
  }

  /** With a local directory as `static` stores it (a leading slash), the
      file is the local directory without that slash, followed by the rest
      of the path. */
  lemma StaticTargetLocal(path: string, statics: Dict<string, string>, k: nat)
    requires k < |statics| && StartsWith(path, statics[k].0)
    requires forall j :: 0 <= j < k ==> !StartsWith(path, statics[j].0)
    requires StartsWith(statics[k].1, "/")
    ensures StaticTarget(path, statics) == Some(statics[k].1[1..] + path[|statics[k].0|..])
  {
    StaticTargetFirst(path, statics, k);
    var local := statics[k].1;
    assert (local + path[|statics[k].0|..])[1..] == local[1..] + path[|statics[k].0|..];
  }

  /** The routing decision of `handle_request`: a POST route for a POST
      request, else a GET route for a GET request, else the first static
      directory that prefixes the path, else 404. Both tables are
      consulted whatever the method. */
  function Dispatch<H>(kind: string, path: string, routeGet: Dict<string, H>,
                       routePost: Dict<string, H>, statics: Dict<string, string>): Action<H>
  {
    var post := Resolve(path, routePost);
    var get := Resolve(path, routeGet);
    if kind == "POST" && post.Some? then RunScript(post.value.handler, post.value.params)
    else if kind == "GET" && get.Some? then RunScript(get.value.handler, get.value.params)
    else
      match StaticTarget(path, statics)
      case Some(f) => ServeFile(f)
      case None => NotFound
  }

  /** A request whose method is neither GET nor POST never runs a script. */
  lemma DispatchOtherMethod<H>(kind: string, path: string, routeGet: Dict<string, H>,
                               routePost: Dict<string, H>, statics: Dict<string, string>)
    requires kind != "GET" && kind != "POST"
    ensures !Dispatch(kind, path, routeGet, routePost, statics).RunScript?
    ensures Dispatch(kind, path, routeGet, routePost, statics).NotFound? <==>
      forall k :: 0 <= k < |statics| ==> !StartsWith(path, statics[k].0)
  {
  }

  /** A route registered with `get` only answers a POST with the static
      files or 404, never with the GET script. */
  lemma DispatchGetOnly<H>(path: string, f: H, routeGet: Dict<string, H>,
                           routePost: Dict<string, H>, statics: Dict<string, string>)
    requires Has(routeGet, path) && Get(routeGet, path) == f
    requires Resolve(path, routePost).None?
    ensures Dispatch("POST", path, routeGet, routePost, statics) != RunScript(f, [])
    ensures Dispatch("GET", path, routeGet, routePost, statics) == RunScript(f, [])
  {
    ResolveExact(path, routeGet);
  }

  /** A handler registered for a path with `get` (or `route`) is what a
      GET request for exactly that path runs, with no parameters. */
  lemma DispatchRegistered<H>(path: string, f: H, routeGet: Dict<string, H>,
                              routePost: Dict<string, H>, statics: Dict<string, string>)
    ensures Dispatch("GET", path, Set(routeGet, path, f), routePost, statics) == RunScript(f, [])
    ensures Dispatch("POST", path, routeGet, Set(routePost, path, f), statics) == RunScript(f, [])
  {
    ResolveExact(path, Set(routeGet, path, f));
    ResolveExact(path, Set(routePost, path, f));
  }

  /** The bytes `respond_file(path)` writes. */
  function FileResponse(path: string, files: map<string, string>, encoding: string): string {
    if path in files then Response(200, files[path], FormType(path), Some(|files[path]|), [], encoding)
    else ErrorResponse(404, encoding)
  }

  /** A file that exists is answered with status 200, its type, its size
      as the length and its bytes as the body. */
  lemma FileResponseReadsBack(path: string, files: map<string, string>, encoding: string)
    requires path in files && '\r' !in encoding
    ensures ParseResponse(FileResponse(path, files, encoding)) ==
      Some(Parsed("HTTP/1.1 " + ShowInt(200), Fields(FormType(path), encoding, [], |files[path]|), files[path]))
  {
    var data := files[path];
    FormTypeNoCR(path);
    ResponseReadsBack(200, data, FormType(path), Some(|data|), [], encoding);
  }

  /** `not script_result` for the results a script returns: None or an
      empty text gives an empty body. */
  function ScriptBody(result: Option<string>): (r: string)
    ensures result.Some? && result.value != "" ==> r == result.value
    ensures result.None? || result == Some("") ==> r == ""
  {
    match result
    case None => ""
    case Some(s) => s
  }

  /** The header and body the reading loop hands to `parse`. */
  function Received(lines: seq<string>): (string, string) {
    var k := Request.StopIndex(lines);
    var next := if k < |lines| then k + 1 else k;
    (Concat(lines[..k]), Request.Body(lines, next, Request.LastLength(lines[..k])))
  }

  /** How `handle_request` ends: the connection closed unanswered, an
      exception out of `parse`, a script to run, or a response written. */
  datatype Outcome<H> = Closed | Escaped | Script(handler: H, params: Dict<string, string>) | Answered

  class Handler<H> {
    const server: Perver<H>
    const ip: string
    const port: int
    /** `self.header`: the response head being formed. */
    var header: string
    /** Everything written to the stream. */
    var written: string
    /** Whether `write_eof` was called. */
    var eof: bool
    /** Whether `writer.close()` was called. */
    var closed: bool
    /** `self.client`, once `parse` got that far. */
    var client: Client?

    constructor(server: Perver<H>, ip: string, port: int)
      ensures this.server == server && this.ip == ip && this.port == port
      ensures header == "" && written == "" && !eof && !closed && client == null
    {
      this.server := server;
      this.ip := ip;
      this.port := port;
      header, written := "", "";
      eof, closed := false, false;
      client := null;
    }

    /** `form_header(arg, var)` */
    method FormHeader(key: string, value: string)
      modifies this
      ensures header == old(header) + HeaderLine(key, value)
      ensures written == old(written) && eof == old(eof) && closed == old(closed) && client == old(client)
    {
      header := header + key + ": " + value + CRLF;
    }

    /** The custom-header loop of `respond`: one line per entry, in dict
        order. */
    method FormHeaders(custom: Dict<string, string>)
      modifies this
      ensures header == old(header) + HeaderBlock(custom)
      ensures written == old(written) && eof == old(eof) && closed == old(closed) && client == old(client)
    {
      ghost var start := header;
      for i := 0 to |custom|
        invariant header == start + HeaderBlock(custom[..i])
        invariant written == old(written) && eof == old(eof) && closed == old(closed) && client == old(client)
      {
        FormHeader(custom[i].0, custom[i].1);
        HeadStep(start, custom[..i], custom[i]);
        assert custom[..i + 1] == custom[..i] + [custom[i]];
      }
      assert custom[..|custom|] == custom;
    }

    /** `respond(status, content, type, length, header)`: forms the head
        line by line, then writes head, blank line, body and CRLF, and
        closes the writing side. */
    method Respond(status: int, content: string, mime: string, length: Option<int>, custom: Dict<string, string>)
      modifies this
      ensures header == Head(status, mime, server.encoding, custom, BodyLength(length, content))
      ensures written == old(written) + Response(status, content, mime, length, custom, server.encoding)
      ensures eof && closed == old(closed) && client == old(client)
    {
      var encoding := server.encoding;
      header := "HTTP/1.1 " + ShowInt(status) + CRLF;
      FormHeader("Content-Type", mime + ";charset=" + encoding);
      FormHeader("Accept-Charset", encoding);
      FormHeader("Server", "Perver/" + Version);
      FormHeaders(custom);
      var n := BodyLength(length, content);
      FormHeader("Content-Length", ShowInt(n));
      HeadLayout(status, mime, encoding, custom, n);
      var response := header + CRLF + content + CRLF;
      written := written + response;
      eof := true;
    }

    /** `respond_error(number)`: the number and its phrase as an HTML body. */
    method RespondError(number: int)
      modifies this
      ensures written == old(written) + ErrorResponse(number, server.encoding)
      ensures eof && closed == old(closed) && client == old(client)
    {
      Respond(number, ShowInt(number) + " " + ErrorText(number), "text/html", None, []);
    }

    /** `respond_file(path)`: the file with its type and size, or 404 when
        it cannot be opened. */
    method RespondFile(path: string, files: map<string, string>)
      modifies this
      ensures written == old(written) + FileResponse(path, files, server.encoding)
      ensures eof && closed == old(closed) && client == old(client)
    {
      if path in files {
        var data := files[path];
        Respond(200, data, FormType(path), Some(|data|), []);
      } else {
        RespondError(404);
      }
    }

    /** The second half of `respond_script`: the script's result, with the
        client's status, its type and the shared custom headers. */
    method RespondScript(result: Option<string>)
      requires client != null
      modifies this
      ensures client == old(client) && eof && closed == old(closed)
      ensures written == old(written) +
        Response(client.status, ScriptBody(result), client.mime, None, client.header.entries, server.encoding)
    {
      var body := if result.None? || result.value == "" then "" else result.value;
      Respond(client.status, body, client.mime, None, client.header.entries);
    }

    /** The client `parse` builds from a request head. */
    ghost predicate Describes(c: Client, h: Request.Head, header: string, content: string)
      reads c
    {
      && c.kind == h.kind && c.path == h.path && c.version == h.version && c.pathDir == h.pathDir
      && c.agent == h.agent && c.mime == h.mime
      && c.get == h.get && c.post == h.post && c.cookie == h.cookie
      && c.byteHeader == header && c.byteContent == content
      && c.status == 200 && c.ip == ip && c.port == port
    }

    /** The part of `parse` that runs once the head is read: the client
        gets its id, the server a fresh container for an id it has not
        seen, and the shared headers a `Set-Cookie` entry carrying the id.
        The id depends only on the address and the agent, so it is
        computed before the client object is made. */
    method Admit(h: Request.Head, header: string, content: string, sha1: string -> seq<byte>) returns (c: Client)
      modifies this, server, server.header
      ensures server.routeGet == old(server.routeGet) && server.routePost == old(server.routePost)
      ensures server.routeStatic == old(server.routeStatic)
      ensures written == old(written) && eof == old(eof) && closed == old(closed)
      ensures var id := GetId(ip, h.agent, sha1, server.lengthId);
        && fresh(c) && client == c && Describes(c, h, header, content)
        && c.id == id && c.header == server.header
        && id in server.clients && c.container == server.clients[id]
        && (id in old(server.clients) ==> server.clients == old(server.clients))
        && (id !in old(server.clients) ==>
              fresh(c.container) && c.container.data == [] && server.clients == old(server.clients)[id := c.container])
        && server.header.entries == Set(old(server.header.entries), "Set-Cookie", "id=" + id)
    {
      var id := GetId(ip, h.agent, sha1, server.lengthId);
      if id !in server.clients {
        var box := new Container();
        server.clients := server.clients[id := box];
      }
      server.header.entries := Set(server.header.entries, "Set-Cookie", "id=" + id);
      c := new Client(server.header, h, header, content, ip, port, id, server.clients[id]);
      client := c;
    }

    /** `parse(header, content)`. Fewer than three lines: nothing is
        answered (the 400 reply is created but never awaited) and None is
        returned. A malformed request line, header line, query, body or
        cookie raises. Otherwise the client is admitted. */
    method Parse(header: string, content: string, sha1: string -> seq<byte>)
      returns (c: Client?, raised: bool, ghost parsed: Request.Parse)
      modifies this, server, server.header
      ensures parsed == Request.ParseHead(header, content)
      ensures server.routeGet == old(server.routeGet) && server.routePost == old(server.routePost)
      ensures server.routeStatic == old(server.routeStatic)
      ensures written == old(written) && eof == old(eof) && closed == old(closed)
      ensures !parsed.Parsed? ==>
        && c == null && client == old(client) && raised == parsed.Fails?
        && server.clients == old(server.clients) && server.header.entries == old(server.header.entries)
      ensures parsed.Parsed? ==>
        var id := GetId(ip, parsed.head.agent, sha1, server.lengthId);
        && !raised && c != null && fresh(c) && client == c && Describes(c, parsed.head, header, content)
        && c.id == id && c.header == server.header
        && id in server.clients && c.container == server.clients[id]
        && (id in old(server.clients) ==> server.clients == old(server.clients))
        && (id !in old(server.clients) ==>
              fresh(c.container) && c.container.data == [] && server.clients == old(server.clients)[id := c.container])
        && server.header.entries == Set(old(server.header.entries), "Set-Cookie", "id=" + id)
    {
      var result := Request.ParseHead(header, content);
      parsed := result;
      if result.TooShort? {
        c, raised := null, false;
        return;
      }
      if result.Fails? {
        c, raised := null, true;
        return;
      }
      c := Admit(result.head, header, content, sha1);
      raised := false;
    }

    /** The routing part of `handle_request`, for a parsed client: the
        POST script, the GET script, the first static directory that
        prefixes the path, or the 404 page. */
    method Answer(c: Client, files: map<string, string>) returns (outcome: Outcome<H>)
      modifies this
      ensures closed == old(closed) && client == old(client)
      ensures match Dispatch(c.kind, c.path, server.routeGet, server.routePost, server.routeStatic)
        case RunScript(f, params) => outcome == Script(f, params) && written == old(written) && eof == old(eof)
        case ServeFile(path) =>
          outcome == Answered && eof && written == old(written) + FileResponse(path, files, server.encoding)
        case NotFound => outcome == Answered && eof && written == old(written) + ErrorResponse(404, server.encoding)
    {
      var routePost := CheckRoute(c.path, server.routePost);
      var routeGet := CheckRoute(c.path, server.routeGet);
      if c.kind == "POST" && routePost.Some? {
        return Script(routePost.value.handler, routePost.value.params);
      }
      if c.kind == "GET" && routeGet.Some? {
        return Script(routeGet.value.handler, routeGet.value.params);
      }
      outcome := ServeStatic(c.path, files);
    }

    /** The static-file part of `handle_request`: the first directory
        that prefixes the path serves the file, else the 404 page. */
    method ServeStatic(path: string, files: map<string, string>) returns (outcome: Outcome<H>)
      modifies this
      ensures outcome == Answered && eof && closed == old(closed) && client == old(client)
      ensures match StaticTarget(path, server.routeStatic)
        case Some(f) => written == old(written) + FileResponse(f, files, server.encoding)
        case None => written == old(written) + ErrorResponse(404, server.encoding)
    {
      var statics := server.routeStatic;
      for i := 0 to |statics|
        invariant forall j :: 0 <= j < i ==> !StartsWith(path, statics[j].0)
        invariant written == old(written) && eof == old(eof) && closed == old(closed) && client == old(client)
      {
        var (dir, local) := statics[i];
        if StartsWith(path, dir) {
          var filepath := ReplaceFirst(path, dir, local);
          ReplaceFirstPrefix(path, dir, local);
          StaticTargetFirst(path, statics, i);
          RespondFile(DropFirst(filepath), files);
          return Answered;
        }
      }
      RespondError(404);
      return Answered;
    }

    /** `handle_request`: reads the head line by line and the body by its
        length, parses them, closes the connection when there is nothing
        to parse, and otherwise answers. */
    method HandleRequest(lines: seq<string>, sha1: string -> seq<byte>, files: map<string, string>)
      returns (outcome: Outcome<H>, ghost parsed: Request.Parse)
      modifies this, server, server.header
      ensures parsed == Request.ParseHead(Received(lines).0, Received(lines).1)
      ensures server.routeGet == old(server.routeGet) && server.routePost == old(server.routePost)
      ensures server.routeStatic == old(server.routeStatic)
      ensures parsed.TooShort? ==> outcome == Closed && closed && written == old(written) && eof == old(eof)
      ensures parsed.Fails? ==>
        outcome == Escaped && closed == old(closed) && written == old(written) && eof == old(eof)
      ensures !parsed.Parsed? ==>
        && client == old(client)
        && server.clients == old(server.clients) && server.header.entries == old(server.header.entries)
      ensures parsed.Parsed? ==>
        var id := GetId(ip, parsed.head.agent, sha1, server.lengthId);
        && client != null && Describes(client, parsed.head, Received(lines).0, Received(lines).1)
        && client.id == id && client.header == server.header
        && id in server.clients && client.container == server.clients[id]
        && (id in old(server.clients) ==> server.clients == old(server.clients))
        && (id !in old(server.clients) ==>
              fresh(client.container) && client.container.data == []
              && server.clients == old(server.clients)[id := client.container])
        && server.header.entries == Set(old(server.header.entries), "Set-Cookie", "id=" + id)
      ensures parsed.Parsed? ==>
        && closed == old(closed)
        && match Dispatch(parsed.head.kind, parsed.head.path, server.routeGet, server.routePost, server.routeStatic)
           case RunScript(f, params) => outcome == Script(f, params) && written == old(written) && eof == old(eof)
           case ServeFile(path) =>
             outcome == Answered && eof && written == old(written) + FileResponse(path, files, server.encoding)
           case NotFound =>
             outcome == Answered && eof && written == old(written) + ErrorResponse(404, server.encoding)
    {
      var head, length, next := Request.ReadHead(lines);
      var content := "";
      if length > 0 {
        content := Request.Body(lines, next, length);
      }
      assert (head, content) == Received(lines);
      var c, raised;
      c, raised, parsed := Parse(head, content, sha1);
      if raised {
        return Escaped, parsed;
      }
      if c == null {
        closed := true;
        return Closed, parsed;
      }
      outcome := Answer(c, files);
    }
  }
}
