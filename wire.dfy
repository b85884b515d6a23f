/** The response layout of `PerverHandler.respond`, `form_header` and
    `respond_error`, and a reader for it: a status line, header lines in a
    fixed order, a blank line, the body and a closing CRLF. */
module Wire {
  import opened Wrappers
  import opened Text
  import opened Decimal

  /** `__version__`. */
  const Version := "0.2"

  /** One header line as `form_header` appends it. */
  function HeaderLine(key: string, value: string): string {
    key + ": " + value + CRLF
  }

  /** Consecutive header lines, in the given order. */
  function HeaderBlock(fields: seq<(string, string)>): string {
    if fields == [] then "" else HeaderLine(fields[0].0, fields[0].1) + HeaderBlock(fields[1..])
  }

  /** One more header line at the end. */
  lemma {:induction false} HeaderBlockSnoc(fields: seq<(string, string)>, kv: (string, string))
    ensures HeaderBlock(fields + [kv]) == HeaderBlock(fields) + HeaderLine(kv.0, kv.1)
  {
    if fields != [] {
      assert (fields + [kv])[1..] == fields[1..] + [kv];
      HeaderBlockSnoc(fields[1..], kv);
    } else {
      assert [kv][1..] == [];
    }
  }

  /** Appending one header line to a head that ends in a block. */
  lemma HeadStep(prefix: string, fields: seq<(string, string)>, kv: (string, string))
    ensures prefix + HeaderBlock(fields + [kv]) == (prefix + HeaderBlock(fields)) + HeaderLine(kv.0, kv.1)
  {
    HeaderBlockSnoc(fields, kv);
  }

  /** The head line by line, in the order `respond` forms it. */
  lemma HeadLayout(status: int, mime: string, encoding: string, custom: seq<(string, string)>, length: int)
    ensures Head(status, mime, encoding, custom, length) ==
      StatusLine(status)
      + HeaderLine("Content-Type", mime + ";charset=" + encoding)
      + HeaderLine("Accept-Charset", encoding)
      + HeaderLine("Server", "Perver/" + Version)
      + HeaderBlock(custom)
      + HeaderLine("Content-Length", ShowInt(length))
  {
    var fixed := Fixed(mime, encoding);
    BlockLayout(StatusLine(status), fixed[0], fixed[1], fixed[2], custom, ("Content-Length", ShowInt(length)));
  }

  /** Three fields, a run of fields and a last one, after a prefix. */
  lemma BlockLayout(s: string, x: (string, string), y: (string, string), z: (string, string),
                    custom: seq<(string, string)>, last: (string, string))
    ensures s + HeaderBlock([x, y, z] + custom + [last]) ==
      s + HeaderLine(x.0, x.1) + HeaderLine(y.0, y.1) + HeaderLine(z.0, z.1) + HeaderBlock(custom) + HeaderLine(last.0, last.1)
  {
    var a, b, c := HeaderLine(x.0, x.1), HeaderLine(y.0, y.1), HeaderLine(z.0, z.1);
    var m, l := HeaderBlock(custom), HeaderLine(last.0, last.1);
    HeaderBlockSnoc([x, y, z] + custom, last);
    HeaderBlockAppend([x, y, z], custom);
    HeaderBlockThree(x, y, z);
    assert HeaderBlock([x, y, z] + custom + [last]) == a + b + c + m + l;
    assert s + (a + b + c + m + l) == s + a + b + c + m + l;
  }

  /** The block of three fields. */
  lemma HeaderBlockThree(x: (string, string), y: (string, string), z: (string, string))
    ensures HeaderBlock([x, y, z]) == HeaderLine(x.0, x.1) + HeaderLine(y.0, y.1) + HeaderLine(z.0, z.1)
  {
    assert [z][1..] == [];
    assert HeaderBlock([z]) == HeaderLine(z.0, z.1);
    assert [y, z][1..] == [z];
    assert HeaderBlock([y, z]) == HeaderLine(y.0, y.1) + HeaderLine(z.0, z.1);
    assert [x, y, z][1..] == [y, z];
  }

  /** The block of two runs of fields is the two blocks one after the other. */
  lemma {:induction false} HeaderBlockAppend(xs: seq<(string, string)>, ys: seq<(string, string)>)
    ensures HeaderBlock(xs + ys) == HeaderBlock(xs) + HeaderBlock(ys)
  {
    if xs == [] {
      assert xs + ys == ys;
    } else {
      assert (xs + ys)[1..] == xs[1..] + ys;
      HeaderBlockAppend(xs[1..], ys);
    }
  }

  /** `length or len(content)`: a missing or zero override falls back to
      the body's length. */
  function BodyLength(length: Option<int>, content: string): (r: int)
    ensures length.None? || length == Some(0) ==> r == |content|
    ensures length.Some? && length.value != 0 ==> r == length.value
  {
    match length
    case Some(n) => if n != 0 then n else |content|
    case None => |content|
  }

  function StatusLine(status: int): string {
    "HTTP/1.1 " + ShowInt(status) + CRLF
  }

  /** The three fields every response starts with. */
  function Fixed(mime: string, encoding: string): seq<(string, string)> {
    [("Content-Type", mime + ";charset=" + encoding), ("Accept-Charset", encoding), ("Server", "Perver/" + Version)]
  }

  /** The fields `respond` writes, in order: the fixed three, the custom
      ones in dict order, the length last. */
  function Fields(mime: string, encoding: string, custom: seq<(string, string)>, length: int): seq<(string, string)> {
    Fixed(mime, encoding) + custom + [("Content-Length", ShowInt(length))]
  }

  /** `self.header` once `respond` has formed it. */
  function Head(status: int, mime: string, encoding: string, custom: seq<(string, string)>, length: int): string {
    StatusLine(status) + HeaderBlock(Fields(mime, encoding, custom, length))
  }

  /** The bytes `respond` writes before closing the stream. */
  function Response(status: int, content: string, mime: string, length: Option<int>,
                    custom: seq<(string, string)>, encoding: string): string {
    Head(status, mime, encoding, custom, BodyLength(length, content)) + CRLF + content + CRLF
  }

  /** The reason phrase `respond_error` uses. */
  function ErrorText(number: int): (r: string)
    ensures r == "Unknown Error" <==> number !in {400, 404, 500}
  {
    if number == 400 then "Bad Request"
    else if number == 404 then "Not Found"
    else if number == 500 then "Internal Error"
    else "Unknown Error"
  }

  /** The body of an error response. */
  function ErrorBody(number: int): string {
    ShowInt(number) + " " + ErrorText(number)
  }

  // ---------------------------------------------------------------------
  // Reading a response back

  /** Splits off the text up to the first CRLF. */
  function TakeLine(s: string): (r: Option<(string, string)>)
    ensures r.Some? ==> |r.value.1| < |s|
  {
    match IndexOf(s, CRLF)
    case None => None
    case Some(i) => Some((s[..i], s[i + 2..]))
  }

  /** The lines up to the first empty one, and what follows it. */
  function ReadLines(s: string): Option<(seq<string>, string)>
    decreases |s|
  {
    match TakeLine(s)
    case None => None
    case Some((line, rest)) =>
      if line == "" then Some(([], rest))
      else
        match ReadLines(rest)
        case None => None
        case Some((lines, after)) => Some(([line] + lines, after))
  }

  /** A header line split at its first `": "`. */
  function SplitField(line: string): Option<(string, string)> {
    match IndexOf(line, ": ")
    case None => None
    case Some(i) => Some((line[..i], line[i + 2..]))
  }

  function FieldsOf(lines: seq<string>): Option<seq<(string, string)>> {
    if lines == [] then Some([])
    else
      match (SplitField(lines[0]), FieldsOf(lines[1..]))
      case (Some(f), Some(fs)) => Some([f] + fs)
      case _ => None
  }

  datatype Parsed = Parsed(statusLine: string, fields: seq<(string, string)>, body: string)

  /** Reads a response: status line, fields, blank line, body, final CRLF. */
  function ParseResponse(w: string): Option<Parsed> {
    match ReadLines(w)
    case None => None
    case Some((lines, rest)) =>
      if lines == [] || !EndsWith(rest, CRLF) then None
      else
        match FieldsOf(lines[1..])
        case None => None
        case Some(fs) => Some(Parsed(lines[0], fs, rest[..|rest| - 2]))
  }

  // ---------------------------------------------------------------------
  // The layout reads back

  /** Lines each followed by CRLF. */
  function Lined(lines: seq<string>): string {
    if lines == [] then "" else lines[0] + CRLF + Lined(lines[1..])
  }

  function FieldLines(fields: seq<(string, string)>): (r: seq<string>)
    ensures |r| == |fields| && forall k :: 0 <= k < |r| ==> r[k] == fields[k].0 + ": " + fields[k].1
  {
    seq(|fields|, k requires 0 <= k < |fields| => fields[k].0 + ": " + fields[k].1)
  }

  /** Header text that keeps the layout readable: no CR anywhere, no
      colon in a key. */
  predicate Clean(fields: seq<(string, string)>) {
    forall k :: 0 <= k < |fields| ==> ':' !in fields[k].0 && '\r' !in fields[k].0 && '\r' !in fields[k].1
  }

  lemma {:induction false} HeaderBlockLined(fields: seq<(string, string)>)
    ensures HeaderBlock(fields) == Lined(FieldLines(fields))
  {
    if fields != [] {
      HeaderBlockLined(fields[1..]);
      assert FieldLines(fields)[1..] == FieldLines(fields[1..]);
    }
  }

  lemma {:induction false} ReadLinesLined(lines: seq<string>, rest: string)
    requires forall k :: 0 <= k < |lines| ==> lines[k] != "" && '\r' !in lines[k]
    ensures ReadLines(Lined(lines) + CRLF + rest) == Some((lines, rest))
  {
    if lines == [] {
      IndexOfAfter("", CRLF, rest);
      assert "" + CRLF + rest == CRLF + rest;
      assert (CRLF + rest)[2..] == rest;
    } else {
      var tail := Lined(lines[1..]) + CRLF + rest;
      var s := lines[0] + CRLF + tail;
      assert Lined(lines) + CRLF + rest == s;
      IndexOfAfter(lines[0], CRLF, tail);
      assert s[..|lines[0]|] == lines[0];
      assert s[|lines[0]| + 2..] == tail;
      assert TakeLine(s) == Some((lines[0], tail));
      ReadLinesLined(lines[1..], rest);
      assert lines == [lines[0]] + lines[1..];
    }
  }

  lemma {:induction false} FieldsOfFieldLines(fields: seq<(string, string)>)
    requires Clean(fields)
    ensures FieldsOf(FieldLines(fields)) == Some(fields)
  {
    if fields != [] {
      var (k, v) := fields[0];
      IndexOfAfter(k, ": ", v);
      assert (k + ": " + v)[..|k|] == k && (k + ": " + v)[|k| + 2..] == v;
      assert SplitField(FieldLines(fields)[0]) == Some(fields[0]);
      assert FieldLines(fields)[1..] == FieldLines(fields[1..]);
      assert Clean(fields[1..]) by {
        forall j | 0 <= j < |fields[1..]|
          ensures ':' !in fields[1..][j].0 && '\r' !in fields[1..][j].0 && '\r' !in fields[1..][j].1
        {
          assert fields[1..][j] == fields[j + 1];
        }
      }
      FieldsOfFieldLines(fields[1..]);
      assert fields == [fields[0]] + fields[1..];
    }
  }

  /** The decimal text of a number holds no CR. */
  lemma ShowIntNoCR(i: int)
    ensures '\r' !in ShowInt(i)
  {
    var n := ShowInt(i);
    forall k | 0 <= k < |n| ensures n[k] != '\r' {}
  }

  lemma FieldsClean(mime: string, encoding: string, custom: seq<(string, string)>, length: int)
    requires Clean(custom) && '\r' !in mime && '\r' !in encoding
    ensures Clean(Fields(mime, encoding, custom, length))
  {
    var fields := Fields(mime, encoding, custom, length);
    ShowIntNoCR(length);
    forall k | 0 <= k < |fields|
      ensures ':' !in fields[k].0 && '\r' !in fields[k].0 && '\r' !in fields[k].1
    {
      if 3 <= k < 3 + |custom| {
        assert fields[k] == custom[k - 3];
      }
    }
  }

  lemma ResponseLines(status: int, fields: seq<(string, string)>)
    requires Clean(fields)
    ensures var lines := ["HTTP/1.1 " + ShowInt(status)] + FieldLines(fields);
      && Lined(lines) == StatusLine(status) + HeaderBlock(fields)
      && forall k :: 0 <= k < |lines| ==> lines[k] != "" && '\r' !in lines[k]
  {
    var first := "HTTP/1.1 " + ShowInt(status);
    var lines := [first] + FieldLines(fields);
    HeaderBlockLined(fields);
    assert lines[1..] == FieldLines(fields);
    var n := ShowInt(status);
    ShowIntNoCR(status);
    assert '\r' !in first by {
      forall k | 0 <= k < |first| ensures first[k] != '\r' {
        if k >= 9 { assert first[k] == n[k - 9]; }
      }
    }
    forall k | 1 <= k < |lines| ensures lines[k] != "" && '\r' !in lines[k] {
      var f := fields[k - 1];
      assert lines[k] == f.0 + ": " + f.1;
      assert lines[k][|f.0|] == ':';
    }
  }

  /** The response reads back: its status line, every field in the order
      written, and the body unchanged (even when it holds CRLFs). */
  lemma ResponseReadsBack(status: int, content: string, mime: string, length: Option<int>,
                          custom: seq<(string, string)>, encoding: string)
    requires Clean(custom) && '\r' !in mime && '\r' !in encoding
    ensures ParseResponse(Response(status, content, mime, length, custom, encoding)) ==
      Some(Parsed("HTTP/1.1 " + ShowInt(status),
                  Fields(mime, encoding, custom, BodyLength(length, content)), content))
  {
    var fields := Fields(mime, encoding, custom, BodyLength(length, content));
    var lines := ["HTTP/1.1 " + ShowInt(status)] + FieldLines(fields);
    FieldsClean(mime, encoding, custom, BodyLength(length, content));
    ResponseLines(status, fields);
    var rest := content + CRLF;
    ReadLinesLined(lines, rest);
    assert Response(status, content, mime, length, custom, encoding) == Lined(lines) + CRLF + rest;
    assert lines[1..] == FieldLines(fields);
    FieldsOfFieldLines(fields);
    assert rest[..|rest| - 2] == content;
  }

  /** The declared length is the body's own length unless a non-zero
      override was passed: the last field read back gives it. */
  lemma ResponseLength(status: int, content: string, mime: string, length: Option<int>,
                       custom: seq<(string, string)>, encoding: string)
    requires Clean(custom) && '\r' !in mime && '\r' !in encoding
    requires length.None? || length == Some(0) || length == Some(|content|)
    ensures var p := ParseResponse(Response(status, content, mime, length, custom, encoding));
      p.Some? && |p.value.fields| == |custom| + 4 &&
      p.value.fields[|custom| + 3].0 == "Content-Length" &&
      PyInt(p.value.fields[|custom| + 3].1) == Some(|p.value.body|)
  {
    ResponseReadsBack(status, content, mime, length, custom, encoding);
    PyIntShowInt(|content|);
  }

  /** What `respond_error(number)` writes. */
  function ErrorResponse(number: int, encoding: string): string {
    Response(number, ErrorBody(number), "text/html", None, [], encoding)
  }

  /** The error response carries the number and its phrase as its body. */
  lemma ErrorResponseReadsBack(number: int, encoding: string)
    requires '\r' !in encoding
    ensures var p := ParseResponse(ErrorResponse(number, encoding));
      p.Some? && p.value.statusLine == "HTTP/1.1 " + ShowInt(number) &&
      p.value.body == ShowInt(number) + " " + ErrorText(number)
  {
    ResponseReadsBack(number, ErrorBody(number), "text/html", None, [], encoding);
  }
}
