/** `PerverHandler.parse_get`: the key=value grammar shared by the query
    string, the urlencoded POST body and the `Cookie` header. */
module Query {
  import opened Wrappers
  import opened Text
  import opened Dicts
  import opened Percent

  /** One `key=value` piece: its first two `=`-parts, each percent-decoded.
      A piece without `=` hands `dict` a one-element sequence, which
      raises (None). */
  function PieceToPair(arg: string): (r: Option<(string, string)>)
    ensures r.None? <==> '=' !in arg
  {
    var parts := Split(arg, "=");
    SplitCharCount(arg, '=');
    CountZero(arg, '=');
    if |parts| >= 2 then Some((Unquote(parts[0]), Unquote(parts[1]))) else None
  }

  lemma {:induction false} CountZero(s: string, c: char)
    ensures Count(s, c) == 0 <==> c !in s
  {
    if s != [] { CountZero(s[1..], c); }
  }

  /** The pairs of all pieces, or None when one of them raises. */
  function PairsOf(args: seq<string>): (r: Option<seq<(string, string)>>)
    ensures r.None? <==> exists k :: 0 <= k < |args| && '=' !in args[k]
    ensures r.Some? ==> |r.value| == |args|
  {
    if args == [] then Some([])
    else
      var first := PieceToPair(args[0]);
      var rest := PairsOf(args[1..]);
      assert forall k :: 1 <= k < |args| ==> args[1..][k - 1] == args[k];
      if first.None? || rest.None? then None else Some([first.value] + rest.value)
  }

  /** `parse_get(path, separator)`: nothing unless `path` is longer than
      one character and holds exactly one `?`; otherwise the pieces of the
      part after `?` become a dict, later keys overwriting earlier ones. */
  function ParseGet(path: string, sep: string): Result<Dict<string, string>>
    requires sep != []
  {
    var get := Split(path, "?");
    if |path| > 1 && |get| == 2 then
      match PairsOf(Split(get[1], sep))
      case None => Raised
      case Some(ps) => Ok(FromPairs(ps))
    else Ok([])
  }

  /** Without exactly one `?` (or with a path of at most one character)
      the result is the empty dict. */
  lemma ParseGetNoQuery(path: string, sep: string)
    requires sep != []
    requires |path| <= 1 || Count(path, '?') != 1
    ensures ParseGet(path, sep) == Ok([])
  {
    SplitCharCount(path, '?');
  }

  /** A piece with no `=` (an empty piece after a trailing separator, a
      bare `?`) makes the whole parse raise. */
  lemma ParseGetRaises(prefix: string, query: string, sep: string, k: nat)
    requires sep != [] && '?' !in prefix && '?' !in query && |prefix + query| >= 1
    requires k < |Split(query, sep)| && '=' !in Split(query, sep)[k]
    ensures ParseGet(prefix + "?" + query, sep) == Raised
  {
    QuerySplit(prefix, query);
  }

  lemma QuerySplit(prefix: string, query: string)
    requires '?' !in prefix && '?' !in query
    ensures Split(prefix + "?" + query, "?") == [prefix, query]
  {
    SplitJoin([prefix, query], "?");
    assert Join([prefix, query], "?") == prefix + "?" + query by {
      assert [prefix, query][1..] == [query];
    }
  }

  lemma QuerySplitBare(query: string)
    requires '?' !in query
    ensures Split("?" + query, "?") == ["", query]
  {
    QuerySplit("", query);
    assert "" + "?" + query == "?" + query;
  }

  /** The text `key=value` of a pair. */
  function EncodePair(p: (string, string)): string {
    p.0 + "=" + p.1
  }

  function EncodePairs(ps: seq<(string, string)>): (r: seq<string>)
    ensures |r| == |ps| && forall k :: 0 <= k < |ps| ==> r[k] == EncodePair(ps[k])
  {
    seq(|ps|, k requires 0 <= k < |ps| => EncodePair(ps[k]))
  }

  /** Keys and values that none of the grammar's special characters can
      disturb. */
  predicate PlainField(s: string, sep: char) {
    '?' !in s && '=' !in s && '%' !in s && sep !in s
  }

  /** Round trip: writing pairs as `key=value` pieces joined by the
      separator behind a `?` and parsing them back yields `dict(pairs)`. */
  lemma ParseGetRoundTrip(prefix: string, ps: seq<(string, string)>, sep: char)
    requires '?' !in prefix && ps != []
    requires sep != '?' && sep != '='
    requires forall k :: 0 <= k < |ps| ==> PlainField(ps[k].0, sep) && PlainField(ps[k].1, sep)
    ensures ParseGet(prefix + "?" + Join(EncodePairs(ps), [sep]), [sep]) == Ok(FromPairs(ps))
  {
    var query := Join(EncodePairs(ps), [sep]);
    EncodedAvoids(ps, [sep], '?');
    JoinLength(EncodePairs(ps), [sep]);
    QuerySplit(prefix, query);
    ParseGetPairs(prefix + "?" + query, prefix, ps, sep);
  }

  /** The parse of a path whose `?`-parts are known to be a prefix and the
      encoded pairs. */
  lemma ParseGetPairs(path: string, prefix: string, ps: seq<(string, string)>, sep: char)
    requires |path| > 1 && Split(path, "?") == [prefix, Join(EncodePairs(ps), [sep])]
    requires ps != [] && sep != '?' && sep != '='
    requires forall k :: 0 <= k < |ps| ==> PlainField(ps[k].0, sep) && PlainField(ps[k].1, sep)
    ensures ParseGet(path, [sep]) == Ok(FromPairs(ps))
  {
    var pieces := EncodePairs(ps);
    var query := Join(pieces, [sep]);
    forall k | 0 <= k < |pieces| ensures sep !in pieces[k] {}
    SplitJoin(pieces, [sep]);
    forall k | 0 <= k < |ps| ensures PieceToPair(pieces[k]) == Some(ps[k]) {
      PieceRoundTrip(ps[k]);
    }
    PairsOfEach(pieces, ps);
    ParseGetPieces(path, prefix, query, pieces, ps, [sep]);
  }

  /** The parse once the path's `?`-parts and the query's pieces are known. */
  lemma ParseGetPieces(path: string, prefix: string, query: string, pieces: seq<string>,
                       ps: seq<(string, string)>, sep: string)
    requires sep != [] && |path| > 1 && Split(path, "?") == [prefix, query]
    requires Split(query, sep) == pieces && PairsOf(pieces) == Some(ps)
    ensures ParseGet(path, sep) == Ok(FromPairs(ps))
  {
  }

  lemma PieceRoundTrip(p: (string, string))
    requires '=' !in p.0 && '=' !in p.1 && '%' !in p.0 && '%' !in p.1
    ensures PieceToPair(EncodePair(p)) == Some(p)
  {
    SplitJoin([p.0, p.1], "=");
    assert Join([p.0, p.1], "=") == EncodePair(p) by { assert [p.0, p.1][1..] == [p.1]; }
    UnquotePlain(p.0);
    UnquotePlain(p.1);
  }

  /** A piece gives its first two `=`-parts, each percent-decoded; any
      further `=`-parts are dropped. */
  lemma PieceDecodes(k: string, v: string, rest: string)
    requires '=' !in k && '=' !in v
    ensures PieceToPair(k + "=" + v) == Some((Unquote(k), Unquote(v)))
    ensures PieceToPair(k + "=" + v + "=" + rest) == Some((Unquote(k), Unquote(v)))
  {
    SplitTwo(k, "=", v);
    SplitAfter(k, "=", v + "=" + rest);
    assert k + "=" + v + "=" + rest == k + "=" + (v + "=" + rest);
    SplitAfter(v, "=", rest);
  }

  /** Every character of an ASCII text. */
  predicate Ascii(s: string) {
    forall i :: 0 <= i < |s| ==> s[i] as int < 128
  }

  /** A pair written with both fields fully percent-encoded. */
  function QuotePair(p: (string, string)): (q: (string, string))
    requires Ascii(p.0) && Ascii(p.1)
    ensures |q.0| == 3 * |p.0| && |q.1| == 3 * |p.1|
  {
    (Quote(p.0), Quote(p.1))
  }

  function QuotePairs(ps: seq<(string, string)>): (qs: seq<(string, string)>)
    requires forall k :: 0 <= k < |ps| ==> Ascii(ps[k].0) && Ascii(ps[k].1)
    ensures |qs| == |ps| && forall k :: 0 <= k < |ps| ==> qs[k] == QuotePair(ps[k])
  {
    seq(|ps|, k requires 0 <= k < |ps| => QuotePair(ps[k]))
  }

  /** A percent-encoded `key=value` piece reads back as the pair, whatever
      characters the key and value hold. */
  lemma QuotedPieceRoundTrip(p: (string, string))
    requires Ascii(p.0) && Ascii(p.1)
    ensures PieceToPair(EncodePair(QuotePair(p))) == Some(p)
  {
    QuoteAvoids(p.0, '=');
    QuoteAvoids(p.1, '=');
    PieceDecodes(Quote(p.0), Quote(p.1), "");
    UnquoteQuote(p.0);
    UnquoteQuote(p.1);
  }

  /** Round trip for arbitrary ASCII keys and values: pairs percent-encoded
      as `key=value` pieces, joined by a separator that is neither `?`,
      `=`, `%` nor a hexadecimal digit, parse back as `dict(pairs)`. */
  lemma ParseGetQuotedRoundTrip(prefix: string, ps: seq<(string, string)>, sep: char)
    requires '?' !in prefix && ps != []
    requires sep != '?' && sep != '=' && sep != '%' && !IsHex(sep)
    requires forall k :: 0 <= k < |ps| ==> Ascii(ps[k].0) && Ascii(ps[k].1)
    ensures ParseGet(prefix + "?" + Join(EncodePairs(QuotePairs(ps)), [sep]), [sep]) == Ok(FromPairs(ps))
  {
    var qs := QuotePairs(ps);
    var pieces := EncodePairs(qs);
    var query := Join(pieces, [sep]);
    forall k | 0 <= k < |qs|
      ensures '?' !in qs[k].0 && '?' !in qs[k].1 && sep !in pieces[k]
    {
      QuoteAvoids(ps[k].0, '?');
      QuoteAvoids(ps[k].1, '?');
      QuoteAvoids(ps[k].0, sep);
      QuoteAvoids(ps[k].1, sep);
      assert pieces[k] == qs[k].0 + "=" + qs[k].1;
    }
    EncodedAvoids(qs, [sep], '?');
    JoinLength(pieces, [sep]);
    QuerySplit(prefix, query);
    SplitJoin(pieces, [sep]);
    forall k | 0 <= k < |ps| ensures PieceToPair(pieces[k]) == Some(ps[k]) {
      QuotedPieceRoundTrip(ps[k]);
    }
    PairsOfEach(pieces, ps);
    ParseGetPieces(prefix + "?" + query, prefix, query, pieces, ps, [sep]);
  }

  lemma {:induction false} PairsOfEach(pieces: seq<string>, ps: seq<(string, string)>)
    requires |pieces| == |ps|
    requires forall k :: 0 <= k < |ps| ==> PieceToPair(pieces[k]) == Some(ps[k])
    ensures PairsOf(pieces) == Some(ps)
  {
    if ps != [] {
      forall k | 0 <= k < |ps| - 1 ensures PieceToPair(pieces[1..][k]) == Some(ps[1..][k]) {
        assert pieces[1..][k] == pieces[k + 1];
      }
      PairsOfEach(pieces[1..], ps[1..]);
      assert PieceToPair(pieces[0]) == Some(ps[0]);
      assert PairsOf(pieces) == Some([ps[0]] + ps[1..]);
      assert [ps[0]] + ps[1..] == ps;
    }
  }

  /** A character outside the keys, the values, `=` and the separator does
      not occur in the encoded pairs. */
  lemma EncodedAvoids(ps: seq<(string, string)>, sep: string, c: char)
    requires c != '=' && c !in sep
    requires forall k :: 0 <= k < |ps| ==> c !in ps[k].0 && c !in ps[k].1
    ensures c !in Join(EncodePairs(ps), sep)
  {
    var pieces := EncodePairs(ps);
    forall k | 0 <= k < |pieces| ensures c !in pieces[k] {
      assert pieces[k] == ps[k].0 + "=" + ps[k].1;
    }
    JoinAvoids(pieces, sep, c);
  }

  /** The round trip for a text that is only `?` and the pairs. */
  lemma ParseGetQuery(ps: seq<(string, string)>, sep: char)
    requires ps != [] && sep != '?' && sep != '='
    requires forall k :: 0 <= k < |ps| ==> PlainField(ps[k].0, sep) && PlainField(ps[k].1, sep)
    ensures ParseGet("?" + Join(EncodePairs(ps), [sep]), [sep]) == Ok(FromPairs(ps))
  {
    var query := Join(EncodePairs(ps), [sep]);
    EncodedAvoids(ps, [sep], '?');
    JoinLength(EncodePairs(ps), [sep]);
    QuerySplitBare(query);
    ParseGetPairs("?" + query, "", ps, sep);
  }
}
