/** `Perver` (the server: route tables, the session store and its
    settings) and `PerverClient` (what a script sees of a request).

    In the source, the route tables, the session store and the client's
    header dict are class attributes: one dict each, shared by every
    instance. Here they are fields of the one `Perver` object, and every
    `Client` points to the server's one `HeaderStore`. */
module Server {
  import opened Wrappers
  import opened Text
  import opened Dicts
  import opened Markup
  import Request

  /** `server.client[id]`: the dict a session keeps between requests. */
  class Container {
    var data: Dict<string, string>

    constructor()
      ensures data == []
    {
      data := [];
    }
  }

  /** `PerverClient.header`: the extra response headers. */
  class HeaderStore {
    var entries: Dict<string, string>

    constructor()
      ensures entries == []
    {
      entries := [];
    }
  }

  /** `local.replace('\\', '/')`: every backslash becomes a slash, every
      other character stays where it is. */
  function Forward(local: string): (r: string)
    ensures |r| == |local|
    ensures forall k :: 0 <= k < |local| ==> r[k] == if local[k] == '\\' then '/' else local[k]
  {
    ReplaceCharEach(local, '\\', '/');
    ReplaceAll(local, "\\", "/")
  }

  /** `Perver.static`'s normal form of a local directory: forward slashes,
      one leading and one trailing slash. Only the missing slashes are
      added; the text itself is kept, backslashes turned into slashes. */
  function NormalizeLocal(local: string): (r: string)
    ensures StartsWith(r, "/") && EndsWith(r, "/") && '\\' !in r
    ensures var l := Forward(local); r == l || r == "/" + l || r == l + "/" || r == "/" + l + "/"
  {
    var l := Forward(local);
    ReplaceAllRemoves(local, '\\', "/");
    var l' := if StartsWith(l, "/") then l else "/" + l;
    assert '\\' !in l';
    if EndsWith(l', "/") then l' else l' + "/"
  }

  /** A directory already in normal form is kept as it is. */
  lemma NormalizeLocalKeeps(local: string)
    requires StartsWith(local, "/") && EndsWith(local, "/") && '\\' !in local
    ensures NormalizeLocal(local) == local
  {
    ReplaceAllAbsent(local, "\\", "/");
  }

  /** Normalizing twice is normalizing once. */
  lemma NormalizeLocalIdempotent(local: string)
    ensures NormalizeLocal(NormalizeLocal(local)) == NormalizeLocal(local)
  {
    NormalizeLocalKeeps(NormalizeLocal(local));
  }

  /** A relative directory that neither starts nor ends with a separator
      (`static`, `www\\img`) gains both slashes, its backslashes turned
      into slashes. */
  lemma NormalizeLocalBare(local: string)
    requires local != [] && local[0] != '/' && local[0] != '\\'
    requires local[|local| - 1] != '/' && local[|local| - 1] != '\\'
    ensures NormalizeLocal(local) == "/" + Forward(local) + "/"
  {
    var f := Forward(local);
    assert f[0] == local[0] && f[|f| - 1] == local[|local| - 1];
    var l := "/" + f;
    assert l[|l| - 1] == f[|f| - 1];
  }

  /** Every directory of the table is in normal form. */
  ghost predicate AllNormal(d: Dict<string, string>) {
    forall w :: Has(d, w) ==> NormalizeLocal(Get(d, w)) == Get(d, w)
  }

  /** Storing a normalized directory keeps the whole table normalized. */
  lemma SetKeepsNormal(d: Dict<string, string>, web: string, local: string)
    requires AllNormal(d)
    ensures AllNormal(Set(d, web, NormalizeLocal(local)))
  {
    NormalizeLocalIdempotent(local);
  }

  /** The server. `H` is the type of route handlers (the decorated
      functions). */
  class Perver<H> {
    var routeGet: Dict<string, H>
    var routePost: Dict<string, H>
    var routeStatic: Dict<string, string>
    /** `Perver.client`: session containers by client id. */
    var clients: map<string, Container>
    /** `PerverClient.header`, shared by all clients. */
    const header: HeaderStore

    const encoding: string := "utf-8"
    const backlog: nat := 5
    const timeout: nat := 5
    const lengthId: nat := 10

    /** The route tables are dicts (no key twice) and every static
        directory is stored normalized. */
    ghost predicate Valid()
      reads this
    {
      Wf(routeGet) && Wf(routePost) && Wf(routeStatic) && AllNormal(routeStatic)
    }

    constructor()
      ensures routeGet == [] && routePost == [] && routeStatic == [] && clients == map[]
      ensures fresh(header) && header.entries == []
      ensures Valid()
    {
      routeGet, routePost, routeStatic := [], [], [];
      clients := map[];
      header := new HeaderStore();
    }

    /** `@server.get(path)`: registers, or replaces, the GET handler. */
    method Get(path: string, f: H)
      modifies this
      ensures routeGet == Set(old(routeGet), path, f)
      ensures routePost == old(routePost) && routeStatic == old(routeStatic) && clients == old(clients)
      ensures old(Valid()) ==> Valid()
    {
      routeGet := Set(routeGet, path, f);
    }

    /** `@server.post(path)` */
    method Post(path: string, f: H)
      modifies this
      ensures routePost == Set(old(routePost), path, f)
      ensures routeGet == old(routeGet) && routeStatic == old(routeStatic) && clients == old(clients)
      ensures old(Valid()) ==> Valid()
    {
      routePost := Set(routePost, path, f);
    }

    /** `@server.route(path)`: both tables. */
    method Route(path: string, f: H)
      modifies this
      ensures routePost == Set(old(routePost), path, f) && routeGet == Set(old(routeGet), path, f)
      ensures routeStatic == old(routeStatic) && clients == old(clients)
      ensures old(Valid()) ==> Valid()
    {
      routePost := Set(routePost, path, f);
      routeGet := Set(routeGet, path, f);
    }

    /** `server.static(web, local)` */
    method Static(web: string, local: string)
      requires Valid()
      modifies this
      ensures routeStatic == Set(old(routeStatic), web, NormalizeLocal(local))
      ensures routeGet == old(routeGet) && routePost == old(routePost) && clients == old(clients)
      ensures Valid()
    {
      var l := ReplaceAll(local, "\\", "/");
      if !StartsWith(l, "/") {
        l := "/" + l;
      }
      if !EndsWith(l, "/") {
        l := l + "/";
      }
      assert l == NormalizeLocal(local);
      SetKeepsNormal(routeStatic, web, local);
      routeStatic := Set(routeStatic, web, l);
    }
  }

  /** `PerverClient`: one per parsed request. */
  class Client {
    var kind: string
    var path: string
    var version: string
    var pathDir: string
    var agent: string
    var mime: string
    var get: Dict<string, string>
    var post: Dict<string, string>
    var cookie: Dict<string, string>
    var status: int
    var byteHeader: string
    var byteContent: string
    var ip: string
    var port: int
    var id: string
    /** Set by `parse` once the client id is known. */
    var container: Container?
    /** The class-level header dict: the same object for every client. */
    const header: HeaderStore

    /** The client `parse` fills in from a request head, once it knows
        the client's id and container. */
    constructor(header: HeaderStore, h: Request.Head, byteHeader: string, byteContent: string,
                ip: string, port: int, id: string, container: Container)
      ensures this.header == header && this.container == container && this.id == id
      ensures kind == h.kind && path == h.path && version == h.version && pathDir == h.pathDir
      ensures agent == h.agent && mime == h.mime && get == h.get && post == h.post && cookie == h.cookie
      ensures this.byteHeader == byteHeader && this.byteContent == byteContent
      ensures status == 200 && this.ip == ip && this.port == port
    {
      this.header := header;
      this.container := container;
      this.id := id;
      this.byteHeader, this.byteContent := byteHeader, byteContent;
      kind, path, version, pathDir := h.kind, h.path, h.version, h.pathDir;
      agent, mime := h.agent, h.mime;
      get, post, cookie := h.get, h.post, h.cookie;
      this.ip, this.port := ip, port;
      status := 200;
    }

    /** What `parse` read from the request and the connection; the
        script-facing setters leave all of it as it is. */
    function Parsed(): (string, string, string, string, string,
                        Dict<string, string>, Dict<string, string>, Dict<string, string>,
                        string, string, string, int, string)
      reads this
    {
      (kind, path, version, pathDir, agent, get, post, cookie, byteHeader, byteContent, ip, port, id)
    }

    /** `redirect(page)` */
    method Redirect(page: string) returns (r: string)
      modifies this, header
      ensures header.entries == Set(old(header.entries), "Location", page)
      ensures status == 302 && r == "Redirecting..."
      ensures Parsed() == old(Parsed()) && mime == old(mime) && container == old(container)
    {
      header.entries := Set(header.entries, "Location", page);
      status := 302;
      r := "Redirecting...";
    }

    /** `file(filename)`: the file's bytes, served as `application`; the
        type is switched even when the file is missing and `open` raises.
        `files` stands for the file system. */
    method File(filename: string, files: map<string, string>) returns (r: Result<string>)
      modifies this
      ensures mime == "application"
      ensures r.Ok? <==> filename in files
      ensures r.Ok? ==> r.value == files[filename]
      ensures Parsed() == old(Parsed()) && status == old(status) && container == old(container)
    {
      mime := "application";
      if filename in files {
        r := Ok(files[filename]);
      } else {
        r := Raised;
      }
    }

    /** `render(filename, **replace)`: the file's text through `template`. */
    method Render(filename: string, replace: Dict<string, string>, files: map<string, string>) returns (r: Result<string>)
      ensures r.Ok? <==> filename in files
      ensures r.Ok? ==> r.value == Substituted(files[filename], replace)
    {
      if filename in files {
        var text := Template(files[filename], replace);
        r := Ok(text);
      } else {
        r := Raised;
      }
    }

    /** `set_header(key, value)` */
    method SetHeader(key: string, value: string)
      modifies header
      ensures header.entries == Set(old(header.entries), key, value)
    {
      header.entries := Set(header.entries, key, value);
    }

    /** `set_cookie(name, value)`: one `Set-Cookie` entry, replaced by
        every call. */
    method SetCookie(name: string, value: string)
      modifies header
      ensures header.entries == Set(old(header.entries), "Set-Cookie", name + "=" + value + ";")
    {
      header.entries := Set(header.entries, "Set-Cookie", name + "=" + value + ";");
    }

    /** `set_status(status)` */
    method SetStatus(status: int)
      modifies this
      ensures this.status == status
      ensures Parsed() == old(Parsed()) && mime == old(mime) && container == old(container)
    {
      this.status := status;
    }
  }
}
