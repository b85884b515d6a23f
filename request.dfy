/** The pure part of `PerverHandler.parse` (request line, headers, query,
    body and cookies) and the header-reading loop of `handle_request`. */
module Request {
  import opened Wrappers
  import opened Text
  import opened Dicts
  import opened Decimal
  import opened Percent
  import opened Query
  import opened Mime

  /** What `parse` reads off a request before it touches any state. */
  datatype Head = Head(
    kind: string,                 // `client.type`
    target: string,               // the raw request target
    version: string,              // `client.version`
    path: string,                 // `client.path`
    pathDir: string,              // `client.path_dir`
    args: Dict<string, string>,   // the header dict
    agent: string,                // `client.agent`
    mime: string,                 // `client.mime`
    get: Dict<string, string>,    // `client.get`
    post: Dict<string, string>,   // `client.post`
    cookie: Dict<string, string>  // `client.cookie`
  )

  /** `parse` returns None for fewer than three lines, raises on a
      malformed request line, header line, query, body or cookie, and
      otherwise goes on with the head it read. */
  datatype Parse = TooShort | Fails | Parsed(head: Head)

  /** `tuple(line.split(': '))` when it has the two elements `dict` needs. */
  function ArgPair(line: string): (r: Option<(string, string)>)
    ensures r.Some? <==> |Split(line, ": ")| == 2
  {
    var parts := Split(line, ": ");
    if |parts| == 2 then Some((parts[0], parts[1])) else None
  }

  /** The header lines as pairs, or None when one of them does not split
      into exactly two parts. */
  function ArgPairs(lines: seq<string>): Option<seq<(string, string)>> {
    if lines == [] then Some([])
    else
      match (ArgPair(lines[0]), ArgPairs(lines[1..]))
      case (Some(p), Some(ps)) => Some([p] + ps)
      case _ => None
  }

  /** `dict(...)` gets a pair for every header line exactly when every
      line splits into two parts. */
  lemma {:induction false} ArgPairsEach(lines: seq<string>)
    ensures var r := ArgPairs(lines);
      && (r.Some? ==> |r.value| == |lines| && forall k :: 0 <= k < |lines| ==> ArgPair(lines[k]) == Some(r.value[k]))
      && (r.None? ==> exists k :: 0 <= k < |lines| && ArgPair(lines[k]).None?)
  {
    if lines != [] {
      ArgPairsEach(lines[1..]);
      assert forall k :: 0 <= k < |lines| - 1 ==> lines[1..][k] == lines[k + 1];
      var r := ArgPairs(lines);
      if ArgPair(lines[0]).Some? && ArgPairs(lines[1..]).Some? {
        assert forall k :: 1 <= k < |lines| ==> r.value[k] == ArgPairs(lines[1..]).value[k - 1];
      }
    }
  }

  /** `'/'.join(path.split('/')[:-1])`, or `/` when that is empty. */
  function PathDir(path: string): string {
    var parts := Split(path, "/");
    var dir := Join(parts[..|parts| - 1], "/");
    if dir == "" then "/" else dir
  }

  /** `parse(header, content)` up to the point where it needs the client
      id. Query, body and cookie are parsed by `parse_get`. */
  function ParseHead(header: string, content: string): Parse {
    ParseLines(Split(header, CRLF), content)
  }

  /** `parse` on the CRLF-separated pieces of the header: the first is the
      request line, the last two (the last header line and the empty piece
      after the final CRLF) are not read as headers. */
  function ParseLines(lines: seq<string>, content: string): Parse {
    if |lines| < 3 then TooShort
    else
      var first := Split(Split(lines[0], ": ")[0], " ");
      if |first| != 3 then Fails
      else
        match ArgPairs(lines[1..|lines| - 2])
        case None => Fails
        case Some(ps) => Assemble(first[0], first[1], first[2], FromPairs(ps), content)
  }

  /** The rest of `parse` once the request line and the header dict are
      read: the path, the user agent (`Bot` when absent or empty), the
      query, the body and the cookies. */
  function Assemble(kind: string, target: string, version: string,
                    args: Dict<string, string>, content: string): Parse {
    var path := Unquote(Split(target, "?")[0]);
    var agent := if Has(args, "User-Agent") && Get(args, "User-Agent") != "" then Get(args, "User-Agent") else "Bot";
    match (ParseGet(target, "&"), PostOf(content), CookieOf(args))
    case (Ok(get), Ok(post), Ok(c)) =>
      Parsed(Head(kind, target, version, path, PathDir(path), args, agent, FormType(path), get, post, c))
    case _ => Fails
  }

  /** The urlencoded body: `+` stands for a space. */
  function PostOf(content: string): Result<Dict<string, string>> {
    ParseGet("?" + ReplaceAll(content, "+", " "), "&")
  }

  /** The `Cookie` header: `; `-separated pairs; no header, no cookies. */
  function CookieOf(args: Dict<string, string>): Result<Dict<string, string>> {
    if Has(args, "Cookie") then ParseGet("?" + ReplaceAll(Get(args, "Cookie"), "; ", ";"), ";") else Ok([])
  }

  // ---------------------------------------------------------------------
  // Properties of parse

  /** None exactly when the header holds fewer than three CRLF-separated
      pieces. */
  lemma ParseTooShort(header: string, content: string)
    ensures ParseHead(header, content) == TooShort <==> |Split(header, CRLF)| < 3
  {
  }

  /** A request line that is not three space-separated words raises. */
  lemma ParseBadRequestLine(header: string, content: string)
    requires |Split(header, CRLF)| >= 3
    requires |Split(Split(Split(header, CRLF)[0], ": ")[0], " ")| != 3
    ensures ParseHead(header, content) == Fails
  {
  }

  /** The directory of a path is everything before its last slash; the
      root when that is empty. */
  lemma PathDirOf(dir: string, name: string)
    requires '/' !in name
    ensures PathDir(dir + "/" + name) == if dir == "" then "/" else dir
  {
    var parts := Split(dir, "/");
    JoinSplit(dir, "/");
    SplitCharCount(dir, '/');
    JoinSnoc(parts, name, "/");
    var all := parts + [name];
    forall k | 0 <= k < |all| ensures '/' !in all[k] {
      if k < |parts| { assert all[k] == parts[k]; }
    }
    SplitJoin(all, "/");
    assert all[..|all| - 1] == parts;
  }

  /** Header text made of lines, each followed by CRLF, as the reading loop
      accumulates it. */
  function Lined(lines: seq<string>): string {
    if lines == [] then "" else lines[0] + CRLF + Lined(lines[1..])
  }

  lemma {:induction false} SplitLined(lines: seq<string>)
    requires forall k :: 0 <= k < |lines| ==> '\r' !in lines[k]
    ensures Split(Lined(lines), CRLF) == lines + [""]
  {
    if lines == [] {
      assert Split("", CRLF) == [""];
    } else {
      SplitAfter(lines[0], CRLF, Lined(lines[1..]));
      forall k | 0 <= k < |lines| - 1 ensures '\r' !in lines[1..][k] {
        assert lines[1..][k] == lines[k + 1];
      }
      SplitLined(lines[1..]);
      assert lines + [""] == [lines[0]] + (lines[1..] + [""]);
    }
  }

  /** A header line `key: value` with no further `": "` in it. */
  predicate PlainHeader(kv: (string, string)) {
    ':' !in kv.0 && '\r' !in kv.0 && '\r' !in kv.1 && IndexOf(kv.1, ": ").None?
  }

  function HeaderText(kv: (string, string)): string {
    kv.0 + ": " + kv.1
  }

  function HeaderTexts(fields: seq<(string, string)>): (r: seq<string>)
    ensures |r| == |fields| && forall k :: 0 <= k < |fields| ==> r[k] == HeaderText(fields[k])
  {
    seq(|fields|, k requires 0 <= k < |fields| => HeaderText(fields[k]))
  }

  lemma ArgPairHeader(kv: (string, string))
    requires PlainHeader(kv)
    ensures ArgPair(HeaderText(kv)) == Some(kv)
  {
    var (k, v) := kv;
    IndexOfAfter(k, ": ", v);
    var s := k + ": " + v;
    assert s[..|k|] == k && s[|k| + 2..] == v;
    assert Split(v, ": ") == [v];
  }

  lemma {:induction false} ArgPairsHeaders(fields: seq<(string, string)>)
    requires forall k :: 0 <= k < |fields| ==> PlainHeader(fields[k])
    ensures ArgPairs(HeaderTexts(fields)) == Some(fields)
  {
    if fields != [] {
      ArgPairHeader(fields[0]);
      assert HeaderTexts(fields)[1..] == HeaderTexts(fields[1..]);
      ArgPairsHeaders(fields[1..]);
      assert fields == [fields[0]] + fields[1..];
    }
  }

  /** Once the request line splits into three words and every header line
      into a pair, `parse` goes on with those words and the header dict. */
  lemma ParseLinesWords(lines: seq<string>, content: string, kind: string, target: string,
                        version: string, fields: seq<(string, string)>)
    requires |lines| >= 3
    requires Split(Split(lines[0], ": ")[0], " ") == [kind, target, version]
    requires ArgPairs(lines[1..|lines| - 2]) == Some(fields)
    ensures ParseLines(lines, content) == Assemble(kind, target, version, FromPairs(fields), content)
  {
  }

  /** What `parse` yields for a target without query or escapes, an empty
      body and no `Cookie` header. */
  lemma AssemblePlain(kind: string, path: string, version: string, args: Dict<string, string>)
    requires Split(path, "?") == [path] && Unquote(path) == path
    requires !Has(args, "Cookie")
    ensures var r := Assemble(kind, path, version, args, "");
      && r.Parsed?
      && r.head.kind == kind && r.head.path == path && r.head.version == version
      && r.head.args == args
      && r.head.get == [] && r.head.post == [] && r.head.cookie == []
      && (!Has(args, "User-Agent") ==> r.head.agent == "Bot")
  {
    ParseGetNoQuery(path, "&") by { SplitCharCount(path, '?'); }
    assert ReplaceAll("", "+", " ") == "";
    assert ParseGet("?" + ReplaceAll("", "+", " "), "&") == Ok([]);
  }

  /** A request line of three words, without colons, splits into them. */
  lemma RequestLineSplit(kind: string, path: string, version: string)
    requires ' ' !in kind && ' ' !in path && ' ' !in version && ':' !in kind + path + version
    ensures var first := kind + " " + path + " " + version;
      Split(first, ": ") == [first] && Split(first, " ") == [kind, path, version]
  {
    var first := kind + " " + path + " " + version;
    assert ':' !in first;
    IndexOfAbsent(first, ": ");
    JoinThree(kind, path, version, " ");
    SplitJoin([kind, path, version], " ");
  }

  lemma RequestFacts(kind: string, path: string, version: string,
                     fields: seq<(string, string)>, last: (string, string), lines: seq<string>)
    requires ' ' !in kind && ' ' !in path && ' ' !in version && ':' !in kind + path + version
    requires forall k :: 0 <= k < |fields| ==> PlainHeader(fields[k])
    requires lines == [kind + " " + path + " " + version] + HeaderTexts(fields) + [HeaderText(last), ""]
    ensures && |lines| >= 3
      && Split(Split(lines[0], ": ")[0], " ") == [kind, path, version]
      && ArgPairs(lines[1..|lines| - 2]) == Some(fields)
  {
    assert lines[1..|lines| - 2] == HeaderTexts(fields);
    RequestLineSplit(kind, path, version);
    ArgPairsHeaders(fields);
  }

  /** A plain GET request: the request line, `fields`, and one more header
      line `last`, each followed by CRLF (see `RequestLines`), no query, no
      body. It parses into the three words of the request line, and the
      header dict holds `fields` only: the last header line before the
      blank line is dropped, so a `User-Agent` sent last is not seen. */
  lemma ParseDropsLastHeader(header: string, kind: string, path: string, version: string,
                             fields: seq<(string, string)>, last: (string, string))
    requires ' ' !in kind && ' ' !in path && ' ' !in version
    requires '?' !in path && '%' !in path && ':' !in kind + path + version
    requires forall k :: 0 <= k < |fields| ==> PlainHeader(fields[k]) && fields[k].0 != "Cookie"
    requires Split(header, CRLF) == [kind + " " + path + " " + version] + HeaderTexts(fields) + [HeaderText(last), ""]
    ensures var r := ParseHead(header, "");
      && r.Parsed?
      && r.head.kind == kind && r.head.path == path && r.head.version == version
      && r.head.args == FromPairs(fields)
      && r.head.get == [] && r.head.post == [] && r.head.cookie == []
      && (last.0 == "User-Agent" && !Has(FromPairs(fields), "User-Agent") ==> r.head.agent == "Bot")
  {
    forall k | 0 <= k < |fields| ensures PlainHeader(fields[k]) {}
    RequestFacts(kind, path, version, fields, last, Split(header, CRLF));
    PlainPath(path, fields);
    ParseLinesWords(Split(header, CRLF), "", kind, path, version, fields);
    AssemblePlain(kind, path, version, FromPairs(fields));
  }

  lemma PlainPath(path: string, fields: seq<(string, string)>)
    requires '?' !in path && '%' !in path
    requires forall k :: 0 <= k < |fields| ==> fields[k].0 != "Cookie"
    ensures Split(path, "?") == [path] && Unquote(path) == path && !Has(FromPairs(fields), "Cookie")
  {
    IndexOfAbsent(path, "?");
    UnquotePlain(path);
    FromPairsKeys(fields);
  }

  /** The text the reading loop accumulates for such a request splits
      into its lines and a final empty piece. */
  lemma RequestLines(first: string, fields: seq<(string, string)>, last: (string, string))
    requires '\r' !in first && PlainHeader(last)
    requires forall k :: 0 <= k < |fields| ==> PlainHeader(fields[k])
    ensures var lines := [first] + HeaderTexts(fields) + [HeaderText(last)];
      Split(Lined(lines), CRLF) == lines + [""]
  {
    var lines := [first] + HeaderTexts(fields) + [HeaderText(last)];
    forall k | 0 <= k < |lines| ensures '\r' !in lines[k] {
      if 0 < k < |lines| - 1 {
        assert lines[k] == HeaderText(fields[k - 1]);
      }
    }
    SplitLined(lines);
  }

  /** Pairs written as a urlencoded body read back as their dict. */
  lemma PostRoundTrip(ps: seq<(string, string)>)
    requires ps != []
    requires forall k :: 0 <= k < |ps| ==> PlainField(ps[k].0, '&') && PlainField(ps[k].1, '&')
    requires forall k :: 0 <= k < |ps| ==> '+' !in ps[k].0 && '+' !in ps[k].1
    ensures PostOf(Join(EncodePairs(ps), "&")) == Ok(FromPairs(ps))
  {
    EncodedAvoids(ps, "&", '+');
    ReplaceAllAbsent(Join(EncodePairs(ps), "&"), "+", " ");
    ParseGetQuery(ps, '&');
  }

  /** Pairs sent as a `Cookie` header, separated by `; `, read back as
      their dict. */
  lemma CookieRoundTrip(args: Dict<string, string>, ps: seq<(string, string)>)
    requires ps != []
    requires forall k :: 0 <= k < |ps| ==> PlainField(ps[k].0, ';') && PlainField(ps[k].1, ';')
    requires Has(args, "Cookie") && Get(args, "Cookie") == Join(EncodePairs(ps), "; ")
    ensures CookieOf(args) == Ok(FromPairs(ps))
  {
    CookieText(Get(args, "Cookie"), ps);
    CookieOfPairs(args, ps);
  }

  /** Replacing `; ` by `;` in encoded pairs joined by `; ` joins them by
      `;`. */
  lemma CookieText(cookie: string, ps: seq<(string, string)>)
    requires ps != []
    requires forall k :: 0 <= k < |ps| ==> PlainField(ps[k].0, ';') && PlainField(ps[k].1, ';')
    requires cookie == Join(EncodePairs(ps), "; ")
    ensures ReplaceAll(cookie, "; ", ";") == Join(EncodePairs(ps), [';'])
  {
    var pieces := EncodePairs(ps);
    forall k | 0 <= k < |pieces| ensures ';' !in pieces[k] {
      assert pieces[k] == ps[k].0 + "=" + ps[k].1;
    }
    ReplaceAllIsSplitJoin(cookie, "; ", ";");
    SplitJoin(pieces, "; ");
  }

  /** The `Cookie` header once `; ` has become `;`. */
  lemma CookieOfPairs(args: Dict<string, string>, ps: seq<(string, string)>)
    requires ps != []
    requires forall k :: 0 <= k < |ps| ==> PlainField(ps[k].0, ';') && PlainField(ps[k].1, ';')
    requires Has(args, "Cookie") && ReplaceAll(Get(args, "Cookie"), "; ", ";") == Join(EncodePairs(ps), [';'])
    ensures CookieOf(args) == Ok(FromPairs(ps))
  {
    ParseGetQuery(ps, ';');
  }

  // ---------------------------------------------------------------------
  // The header-reading loop of handle_request

  /** `int(line.split(b':')[1])`: None when there is no colon (the index
      raises) or the text is no integer. */
  function ContentLength(line: string): Option<int> {
    var parts := Split(line, ":");
    if |parts| < 2 then None else PyInt(parts[1])
  }

  const LengthName: string := "Content-Length"

  /** The `Content-Length: n` header line as a client sends it. */
  function LengthLine(n: nat): string {
    LengthName + ": " + ShowNat(n) + CRLF
  }

  predicate IsLengthLine(line: string) {
    StartsWith(line, LengthName)
  }

  /** The loop leaves at a blank line, at the end of the stream, or at a
      length line it cannot read. */
  predicate Stops(line: string) {
    line == CRLF || line == "" || (IsLengthLine(line) && ContentLength(line).None?)
  }

  /** The number of lines the loop appends to the header. */
  function StopIndex(lines: seq<string>): (k: nat)
    ensures k <= |lines| && (k < |lines| ==> Stops(lines[k]))
    ensures forall j :: 0 <= j < k ==> !Stops(lines[j])
  {
    if lines == [] || Stops(lines[0]) then 0
    else
      var k := StopIndex(lines[1..]);
      assert forall j :: 1 <= j < k + 1 ==> lines[j] == lines[1..][j - 1];
      k + 1
  }

  /** The value of the last length line, 0 when there is none. */
  function LastLength(lines: seq<string>): int {
    if lines == [] then 0
    else
      var line := lines[|lines| - 1];
      if IsLengthLine(line) && ContentLength(line).Some? then ContentLength(line).value
      else LastLength(lines[..|lines| - 1])
  }

  /** The header-reading loop: `lines` are what successive `readline`
      calls return (an empty string once the stream is exhausted).
      Returns the header, the length, and the number of lines consumed. */
  method ReadHead(lines: seq<string>) returns (header: string, length: int, next: nat)
    ensures var k := StopIndex(lines);
      && header == Concat(lines[..k])
      && length == LastLength(lines[..k])
      && next == (if k < |lines| then k + 1 else k)
  {
    header, length := "", 0;
    var i := 0;
    while true
      invariant i <= StopIndex(lines)
      invariant header == Concat(lines[..i]) && length == LastLength(lines[..i])
      decreases |lines| - i
    {
      var line := if i < |lines| then lines[i] else "";
      StopIndexStep(lines, i);
      if line == CRLF || line == "" {
        break;
      }
      if IsLengthLine(line) {
        var value := ContentLength(line);
        if value.None? {
          break;
        }
        length := value.value;
      }
      LinesSnoc(lines, i);
      header := header + line;
      i := i + 1;
    }
    next := if i < |lines| then i + 1 else i;
  }

  /** Where the loop stands after `i` lines: it goes on exactly when the
      next line does not stop it. */
  lemma StopIndexStep(lines: seq<string>, i: nat)
    requires i <= StopIndex(lines)
    ensures i < |lines| && !Stops(lines[i]) ==> i + 1 <= StopIndex(lines)
    ensures i >= |lines| || Stops(lines[i]) ==> i == StopIndex(lines)
  {
  }

  /** Accumulating one more line: the header grows by it and the length
      changes only for a readable length line. */
  lemma LinesSnoc(lines: seq<string>, i: nat)
    requires i < |lines|
    ensures Concat(lines[..i + 1]) == Concat(lines[..i]) + lines[i]
    ensures LastLength(lines[..i + 1]) ==
      if IsLengthLine(lines[i]) && ContentLength(lines[i]).Some? then ContentLength(lines[i]).value
      else LastLength(lines[..i])
  {
    assert lines[..i + 1] == lines[..i] + [lines[i]];
    assert lines[..i + 1][..i] == lines[..i];
    ConcatSnoc(lines[..i], lines[i]);
  }

  /** What `reader.read(length)` returns once all bytes have arrived: the
      next `length` bytes after the consumed lines, nothing unless the
      length is positive. */
  function Body(lines: seq<string>, next: nat, length: int): string
    requires next <= |lines|
  {
    var rest := Concat(lines[next..]);
    if length <= 0 then "" else if length < |rest| then rest[..length] else rest
  }

  /** A line the loop passes over without effect on the length. */
  predicate Ordinary(line: string) {
    line != CRLF && line != "" && !IsLengthLine(line)
  }

  /** Header lines followed by a blank line: all of them are accumulated,
      the blank line is consumed and left out, and the length is 0. */
  lemma ReadHeadPlain(hs: seq<string>, rest: seq<string>)
    requires forall k :: 0 <= k < |hs| ==> Ordinary(hs[k])
    ensures var lines := hs + [CRLF] + rest;
      StopIndex(lines) == |hs| && LastLength(lines[..|hs|]) == 0
  {
    var lines := hs + [CRLF] + rest;
    assert lines[|hs|] == CRLF;
    forall j | 0 <= j < |hs| ensures !Stops(lines[j]) { assert lines[j] == hs[j]; }
    StopIndexAt(lines, |hs|);
    assert lines[..|hs|] == hs;
    LastLengthOrdinary(hs);
  }

  lemma {:induction false} StopIndexAt(lines: seq<string>, k: nat)
    requires k < |lines| && Stops(lines[k]) && forall j :: 0 <= j < k ==> !Stops(lines[j])
    ensures StopIndex(lines) == k
  {
    if k > 0 {
      forall j | 0 <= j < k - 1 ensures !Stops(lines[1..][j]) { assert lines[1..][j] == lines[j + 1]; }
      StopIndexAt(lines[1..], k - 1);
    }
  }

  lemma {:induction false} LastLengthOrdinary(hs: seq<string>)
    requires forall k :: 0 <= k < |hs| ==> Ordinary(hs[k])
    ensures LastLength(hs) == 0
  {
    if hs != [] { LastLengthOrdinary(hs[..|hs| - 1]); }
  }

  /** A `Content-Length: n` line among ordinary lines gives the length n,
      and the body is the next n bytes after the blank line. */
  lemma ReadHeadLength(hs: seq<string>, n: nat, hs2: seq<string>, rest: seq<string>)
    requires forall k :: 0 <= k < |hs| ==> Ordinary(hs[k])
    requires forall k :: 0 <= k < |hs2| ==> Ordinary(hs2[k])
    ensures var lines := hs + [LengthLine(n)] + hs2 + [CRLF] + rest;
      && StopIndex(lines) == |hs| + 1 + |hs2|
      && LastLength(lines[..|hs| + 1 + |hs2|]) == n
  {
    var cl := LengthLine(n);
    ContentLengthLine(n);
    var lines := hs + [cl] + hs2 + [CRLF] + rest;
    var k := |hs| + 1 + |hs2|;
    assert lines[k] == CRLF;
    forall j | 0 <= j < k ensures !Stops(lines[j]) {
      if j < |hs| { assert lines[j] == hs[j]; }
      else if j > |hs| { assert lines[j] == hs2[j - |hs| - 1]; }
    }
    StopIndexAt(lines, k);
    var pre := lines[..k];
    assert pre == (hs + [cl]) + hs2;
    LastLengthAfter(hs + [cl], hs2);
    assert (hs + [cl])[..|hs|] == hs;
  }

  /** The decimal text of a natural number: digits only. */
  lemma ShowNatPlain(n: nat)
    ensures var s := ShowNat(n); ':' !in s && !IsSpace(s[0]) && !IsSpace(s[|s| - 1])
  {
    var s := ShowNat(n);
    forall k | 0 <= k < |s| ensures s[k] != ':' && !IsSpace(s[k]) { assert IsDigit(s[k]); }
  }

  lemma ContentLengthSplit(n: nat)
    ensures Split(LengthLine(n), ":") == [LengthName, " " + ShowNat(n) + CRLF]
  {
    var tail := " " + ShowNat(n) + CRLF;
    LengthLineShape(n);
    SplitTwo(LengthName, ":", tail);
  }

  /** The length line is the name, a colon, and the rest of the line,
      which holds no colon. */
  lemma LengthLineShape(n: nat)
    ensures var tail := " " + ShowNat(n) + CRLF;
      LengthLine(n) == LengthName + ":" + tail && ':' !in tail
  {
    var s := ShowNat(n);
    var tail := " " + s + CRLF;
    ShowNatPlain(n);
    forall k | 0 <= k < |tail| ensures tail[k] != ':' {
      if 1 <= k <= |s| { assert tail[k] == s[k - 1]; }
    }
    assert ": " + s + CRLF == ":" + tail;
  }

  /** Such a line is a length line the loop reads as n, and it does not
      stop the loop. */
  lemma ContentLengthLine(n: nat)
    ensures var cl := LengthLine(n);
      IsLengthLine(cl) && ContentLength(cl) == Some(n) && !Stops(cl)
  {
    var s := ShowNat(n);
    var cl := LengthLine(n);
    var tail := " " + s + CRLF;
    ShowNatPlain(n);
    ContentLengthSplit(n);
    assert PyInt(tail) == Some(n) by {
      PyIntSpaces(s);
      PyIntShowInt(n);
    }
    assert cl[..|LengthName|] == LengthName;
  }

  lemma {:induction false} LastLengthAfter(pre: seq<string>, hs: seq<string>)
    requires forall k :: 0 <= k < |hs| ==> Ordinary(hs[k])
    ensures LastLength(pre + hs) == LastLength(pre)
  {
    if hs != [] {
      var all := pre + hs;
      assert all[..|all| - 1] == pre + hs[..|hs| - 1];
      assert all[|all| - 1] == hs[|hs| - 1];
      LastLengthAfter(pre, hs[..|hs| - 1]);
    } else {
      assert pre + hs == pre;
    }
  }
}
