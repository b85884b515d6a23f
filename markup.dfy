/** The string builders of `PerverClient`: `html`, `form`, `input`,
    `input_submit` and `template`. */
module Markup {
  import opened Text
  import opened Dicts

  // ---------------------------------------------------------------------
  // html

  function DoctypeLine(doctype: string): string {
    "<!DOCTYPE " + doctype + ">"
  }

  /** `html(body, head, doctype)`: three CRLF-joined parts, the head and
      the body each wrapped in their tags on lines of their own. */
  function Html(body: string, head: string, doctype: string): string {
    Join([DoctypeLine(doctype), Join(["<head>", head, "</head>"], CRLF), Join(["<body>", body, "</body>"], CRLF)], CRLF)
  }

  /** With line-free arguments the page has seven lines: the doctype, the
      head tags around the head, the body tags around the body. */
  lemma HtmlLines(body: string, head: string, doctype: string)
    requires '\r' !in body && '\r' !in head && '\r' !in doctype
    ensures Split(Html(body, head, doctype), CRLF) ==
      [DoctypeLine(doctype), "<head>", head, "</head>", "<body>", body, "</body>"]
  {
    var d := DoctypeLine(doctype);
    var hs := ["<head>", head, "</head>"];
    var bs := ["<body>", body, "</body>"];
    var lines := [d] + hs + bs;
    assert Join([d, Join(hs, CRLF), Join(bs, CRLF)], CRLF) == Join(lines, CRLF) by {
      var top := [d, Join(hs, CRLF), Join(bs, CRLF)];
      assert top[1..] == [Join(hs, CRLF), Join(bs, CRLF)];
      assert top[1..][1..] == [Join(bs, CRLF)];
      assert Join(top[1..], CRLF) == Join(hs, CRLF) + CRLF + Join(bs, CRLF);
      assert Join(top, CRLF) == d + CRLF + Join(top[1..], CRLF);
      JoinAppend(hs, bs, CRLF);
      JoinAppend([d], hs + bs, CRLF);
      assert [d] + (hs + bs) == lines;
    }
    assert '\r' !in d by {
      forall k | 0 <= k < |d| ensures d[k] != '\r' {
        if 10 <= k < 10 + |doctype| { assert d[k] == doctype[k - 10]; }
      }
    }
    assert lines == [d, "<head>", head, "</head>", "<body>", body, "</body>"];
    SplitJoin(lines, CRLF);
  }

  // ---------------------------------------------------------------------
  // form, input, input_submit

  /** `'%s="%s"' % (key, value)` */
  function Attr(kv: (string, string)): string {
    kv.0 + "=\"" + kv.1 + "\""
  }

  function Attrs(input: Dict<string, string>): (r: seq<string>)
    ensures |r| == |input| && forall k :: 0 <= k < |input| ==> r[k] == Attr(input[k])
  {
    seq(|input|, k requires 0 <= k < |input| => Attr(input[k]))
  }

  /** One input line: its attributes in dict order, space-separated. */
  function InputTag(input: Dict<string, string>): string {
    "<input " + Join(Attrs(input), " ") + "><br>"
  }

  function InputTags(inputs: seq<Dict<string, string>>): (r: seq<string>)
    ensures |r| == |inputs| && forall k :: 0 <= k < |inputs| ==> r[k] == InputTag(inputs[k])
  {
    seq(|inputs|, k requires 0 <= k < |inputs| => InputTag(inputs[k]))
  }

  function OpenTag(action: string, verb: string, id: string): string {
    "<form action=\"" + action + "\" method=\"" + verb + "\" id=\"" + id + "\">"
  }

  /** `form(action, method, *inputs, id=id)`: the opening tag, each input on
      a line of its own, the closing tag right after the last one. */
  method Form(action: string, verb: string, inputs: seq<Dict<string, string>>, id: string) returns (html: string)
    ensures html == Join([OpenTag(action, verb, id)] + InputTags(inputs), CRLF) + "</form>"
  {
    html := OpenTag(action, verb, id);
    for i := 0 to |inputs|
      invariant html == Join([OpenTag(action, verb, id)] + InputTags(inputs[..i]), CRLF)
    {
      var args := Join(Attrs(inputs[i]), " ");
      var tag := "<input " + args + "><br>";
      assert tag == InputTag(inputs[i]);
      JoinSnoc([OpenTag(action, verb, id)] + InputTags(inputs[..i]), tag, CRLF);
      assert [html, tag][1..] == [tag];
      assert Join([html, tag], CRLF) == html + CRLF + tag;
      html := Join([html, tag], CRLF);
      assert InputTags(inputs[..i + 1]) == InputTags(inputs[..i]) + [InputTag(inputs[i])];
      assert [OpenTag(action, verb, id)] + InputTags(inputs[..i]) + [InputTag(inputs[i])]
        == [OpenTag(action, verb, id)] + InputTags(inputs[..i + 1]);
    }
    assert inputs[..|inputs|] == inputs;
    assert [html, "</form>"][1..] == ["</form>"];
    assert Concat(["</form>"]) == "</form>" + Concat([]);
    html := Concat([html, "</form>"]);
  }

  /** Line structure of a form: with no CR in any attribute or in the
      opening tag, the text before `</form>` splits into the opening tag
      and one line per input, in order. */
  lemma FormLines(action: string, verb: string, inputs: seq<Dict<string, string>>, id: string)
    requires '\r' !in OpenTag(action, verb, id)
    requires forall k :: 0 <= k < |inputs| ==> '\r' !in InputTag(inputs[k])
    ensures Split(Join([OpenTag(action, verb, id)] + InputTags(inputs), CRLF), CRLF)
      == [OpenTag(action, verb, id)] + InputTags(inputs)
  {
    var lines := [OpenTag(action, verb, id)] + InputTags(inputs);
    forall k | 0 <= k < |lines| ensures '\r' !in lines[k] {
      if k > 0 { assert lines[k] == InputTag(inputs[k - 1]); }
    }
    SplitJoin(lines, CRLF);
  }

  /** `input(name, **args)`: `name` first, then the keyword arguments. */
  function Input(name: string, args: Dict<string, string>): Dict<string, string> {
    FromPairs([("name", name)] + args)
  }

  /** The input's `name` entry holds the name it was given. */
  lemma InputName(name: string, args: Dict<string, string>)
    requires !Has(args, "name")
    ensures Has(Input(name, args), "name") && Get(Input(name, args), "name") == name
  {
    var ps := [("name", name)] + args;
    assert ps[0].0 == "name";
    forall j | 1 <= j < |ps| ensures ps[j].0 != "name" {
      assert ps[j] == args[j - 1];
      assert Keys(args)[j - 1] == args[j - 1].0;
    }
    FromPairsGet(ps, "name");
  }

  /** The input has no key besides `name` and the keyword arguments. */
  lemma InputKeys(name: string, args: Dict<string, string>, k: string)
    ensures Has(Input(name, args), k) <==> k == "name" || Has(args, k)
  {
    var ps := [("name", name)] + args;
    assert ps[0].0 == "name";
    FromPairsGet(ps, k);
    if Has(args, k) {
      var i := KeyIndex(args, k);
      assert ps[i + 1] == args[i];
    } else if k != "name" {
      forall j | 0 <= j < |ps| ensures ps[j].0 != k {
        if j > 0 {
          assert ps[j] == args[j - 1];
          assert Keys(args)[j - 1] == args[j - 1].0;
        }
      }
    }
  }

  /** The input carries every keyword argument unchanged. */
  lemma InputArg(name: string, args: Dict<string, string>, k: string)
    requires Wf(args) && Has(args, k) && k != "name"
    ensures Has(Input(name, args), k) && Get(Input(name, args), k) == Get(args, k)
  {
    var ps := [("name", name)] + args;
    var i := KeyIndex(args, k);
    assert ps[i + 1] == args[i];
    forall j | i + 1 < j < |ps| ensures ps[j].0 != k {
      assert ps[j] == args[j - 1];
    }
    FromPairsGet(ps, k);
  }

  /** `input_submit(value, **args)`: the keyword arguments are dropped. */
  function InputSubmit(value: string, args: Dict<string, string>): Dict<string, string> {
    [("type", "submit"), ("value", value)]
  }

  /** The submit button's line. */
  lemma InputSubmitTag(value: string, args: Dict<string, string>)
    ensures InputTag(InputSubmit(value, args)) == "<input type=\"submit\" value=\"" + value + "\"><br>"
  {
    var a := Attrs(InputSubmit(value, args));
    var t := "type=\"submit\"";
    var v := "value=\"" + value + "\"";
    assert |a| == 2 && a[0] == t && a[1] == v;
    assert a[1..] == [v];
    assert Join(a, " ") == t + " " + v;
    assert "<input " + (t + " " + v) + "><br>" == "<input type=\"submit\" value=\"" + value + "\"><br>";
  }

  // ---------------------------------------------------------------------
  // template

  /** `{key}` */
  function Placeholder(key: string): string {
    "{" + key + "}"
  }

  /** The text after replacing the placeholders of `replace`'s keys in
      order, each replacement applying to the text the previous ones left. */
  function Substituted(text: string, replace: Dict<string, string>): string {
    if replace == [] then text
    else
      var (k, v) := replace[|replace| - 1];
      ReplaceAll(Substituted(text, replace[..|replace| - 1]), Placeholder(k), v)
  }

  /** `template(text, **replace)` */
  method Template(text: string, replace: Dict<string, string>) returns (r: string)
    ensures r == Substituted(text, replace)
  {
    r := text;
    for i := 0 to |replace|
      invariant r == Substituted(text, replace[..i])
    {
      var (key, value) := replace[i];
      assert replace[..i + 1][..i] == replace[..i];
      r := ReplaceAll(r, "{" + key + "}", value);
    }
    assert replace[..|replace|] == replace;
  }

  /** A text without `{` is left as it is. */
  lemma {:induction false} TemplateNoBrace(text: string, replace: Dict<string, string>)
    requires '{' !in text
    ensures Substituted(text, replace) == text
  {
    if replace != [] {
      TemplateNoBrace(text, replace[..|replace| - 1]);
      var (k, v) := replace[|replace| - 1];
      ReplaceAllAbsent(text, Placeholder(k), v);
    }
  }

  /** A text whose only placeholders are `{key}` comes out with every one
      of them replaced by the value, when the dict's first key is `key` and
      neither the value nor the text around the placeholders holds `{`. */
  lemma {:induction false} TemplateFills(pieces: seq<string>, key: string, value: string, rest: Dict<string, string>)
    requires pieces != [] && '{' !in value
    requires forall k :: 0 <= k < |pieces| ==> '{' !in pieces[k]
    ensures Substituted(Join(pieces, Placeholder(key)), [(key, value)] + rest) == Join(pieces, value)
    decreases |rest|
  {
    var text := Join(pieces, Placeholder(key));
    var replace := [(key, value)] + rest;
    if rest == [] {
      assert replace[..0] == [];
      ReplaceAllIsSplitJoin(text, Placeholder(key), value);
      SplitJoin(pieces, Placeholder(key));
    } else {
      assert replace[..|replace| - 1] == [(key, value)] + rest[..|rest| - 1];
      TemplateFills(pieces, key, value, rest[..|rest| - 1]);
      JoinAvoids(pieces, value, '{');
      var (k, v) := replace[|replace| - 1];
      ReplaceAllAbsent(Join(pieces, value), Placeholder(k), v);
    }
  }
}
