/** The Python `str` operations the server relies on: `find`, `split`,
    `join`, `replace` (all and first occurrence), `startswith`, `endswith`. */
module Text {
  import opened Wrappers

  const CRLF: string := "\r\n"

  predicate StartsWith(s: string, p: string) {
    |p| <= |s| && s[..|p|] == p
  }

  predicate EndsWith(s: string, p: string) {
    |p| <= |s| && s[|s| - |p|..] == p
  }

  /** `s.find(p)`: the first index at which `p` occurs in `s`. */
  function IndexOf(s: string, p: string): (r: Option<nat>)
    ensures r.Some? ==> r.value + |p| <= |s|
    decreases |s|
  {
    if StartsWith(s, p) then Some(0)
    else if s == [] then None
    else
      var r := IndexOf(s[1..], p);
      if r.Some? then Some(r.value + 1) else None
  }

  /** `p` occurs where `IndexOf` reports it. */
  lemma {:induction false} IndexOfFound(s: string, p: string)
    requires IndexOf(s, p).Some?
    ensures var i := IndexOf(s, p).value; s[i..i + |p|] == p
    decreases |s|
  {
    if !StartsWith(s, p) {
      IndexOfFound(s[1..], p);
      var i := IndexOf(s[1..], p).value;
      assert s[1..][i..i + |p|] == s[i + 1..i + 1 + |p|];
    }
  }

  /** No occurrence of `p` starts before the index `IndexOf` reports, and
      none at all when it reports nothing. */
  lemma {:induction false} IndexOfFirst(s: string, p: string, j: nat)
    requires j <= |s| && StartsWith(s[j..], p)
    ensures IndexOf(s, p).Some? && IndexOf(s, p).value <= j
    decreases |s|
  {
    if !StartsWith(s, p) {
      assert j > 0;
      assert s[1..][j - 1..] == s[j..];
      IndexOfFirst(s[1..], p, j - 1);
    }
  }

  /** `s.split(sep)` for a non-empty separator. */
  function Split(s: string, sep: string): (r: seq<string>)
    requires sep != []
    ensures |r| >= 1
    decreases |s|
  {
    match IndexOf(s, sep)
    case None => [s]
    case Some(i) => [s[..i]] + Split(s[i + |sep|..], sep)
  }

  /** `sep.join(parts)`. */
  function Join(parts: seq<string>, sep: string): string {
    if parts == [] then ""
    else if |parts| == 1 then parts[0]
    else parts[0] + sep + Join(parts[1..], sep)
  }

  /** `''.join(parts)`. */
  function Concat(parts: seq<string>): string {
    if parts == [] then "" else parts[0] + Concat(parts[1..])
  }

  /** `s.replace(p, v)` for a non-empty pattern: every occurrence, scanning
      left to right without overlap. */
  function ReplaceAll(s: string, p: string, v: string): string
    requires p != []
    decreases |s|
  {
    match IndexOf(s, p)
    case None => s
    case Some(i) => s[..i] + v + ReplaceAll(s[i + |p|..], p, v)
  }

  /** `s.replace(p, v, 1)`: only the first occurrence (an empty pattern
      occurs at index 0). */
  function ReplaceFirst(s: string, p: string, v: string): string {
    match IndexOf(s, p)
    case None => s
    case Some(i) => s[..i] + v + s[i + |p|..]
  }

  /** A character that is not the first character of `p` hides no
      occurrence of `p`: the first occurrence in `a + p + b` is right
      after `a`. */
  lemma {:induction false} IndexOfAfter(a: string, p: string, b: string)
    requires p != [] && p[0] !in a
    ensures IndexOf(a + p + b, p) == Some(|a|)
  {
    var s := a + p + b;
    if a == [] {
      assert s[..|p|] == p;
    } else {
      assert !StartsWith(s, p) by { assert s[0] == a[0]; }
      assert s[1..] == a[1..] + p + b;
      IndexOfAfter(a[1..], p, b);
    }
  }

  /** `p` does not occur when its first character does not. */
  lemma {:induction false} IndexOfAbsent(s: string, p: string)
    requires p != [] && p[0] !in s
    ensures IndexOf(s, p) == None
  {
    if s != [] {
      assert !StartsWith(s, p) by { if |p| <= |s| { assert s[..|p|][0] == s[0]; } }
      IndexOfAbsent(s[1..], p);
    } else {
      assert !StartsWith(s, p);
    }
  }

  /** Splitting and joining again with the same separator gives back the
      original text. */
  lemma {:induction false} JoinSplit(s: string, sep: string)
    requires sep != []
    ensures Join(Split(s, sep), sep) == s
    decreases |s|
  {
    var r := IndexOf(s, sep);
    if r.Some? {
      var i := r.value;
      var rest := s[i + |sep|..];
      JoinSplit(rest, sep);
      IndexOfFound(s, sep);
      var tail := Split(rest, sep);
      var parts := Split(s, sep);
      assert parts == [s[..i]] + tail;
      assert |parts| >= 2 && parts[0] == s[..i] && parts[1..] == tail;
      calc {
        Join(parts, sep);
        s[..i] + sep + Join(tail, sep);
        s[..i] + sep + rest;
        { assert s == s[..i] + s[i..i + |sep|] + rest; }
        s;
      }
    }
  }

  /** Joining parts that do not contain the first character of the
      separator and splitting again gives back the parts. */
  lemma {:induction false} SplitJoin(parts: seq<string>, sep: string)
    requires sep != [] && parts != []
    requires forall k :: 0 <= k < |parts| ==> sep[0] !in parts[k]
    ensures Split(Join(parts, sep), sep) == parts
  {
    if |parts| == 1 {
      IndexOfAbsent(parts[0], sep);
    } else {
      var rest := Join(parts[1..], sep);
      IndexOfAfter(parts[0], sep, rest);
      var s := parts[0] + sep + rest;
      assert s[..|parts[0]|] == parts[0];
      assert s[|parts[0]| + |sep|..] == rest;
      SplitJoin(parts[1..], sep);
    }
  }

  /** Text up to the first occurrence of the separator is the first piece;
      the rest splits on its own. */
  lemma SplitAfter(a: string, sep: string, rest: string)
    requires sep != [] && sep[0] !in a
    ensures Split(a + sep + rest, sep) == [a] + Split(rest, sep)
  {
    IndexOfAfter(a, sep, rest);
    var s := a + sep + rest;
    assert s[..|a|] == a;
    assert s[|a| + |sep|..] == rest;
  }

  /** Two pieces around one occurrence of the separator. */
  lemma SplitTwo(a: string, sep: string, b: string)
    requires sep != [] && sep[0] !in a && sep[0] !in b
    ensures Split(a + sep + b, sep) == [a, b]
  {
    SplitAfter(a, sep, b);
    IndexOfAbsent(b, sep);
  }

  /** Joining a list extended by one part appends the separator and the part. */
  lemma {:induction false} JoinSnoc(parts: seq<string>, x: string, sep: string)
    requires parts != []
    ensures Join(parts + [x], sep) == Join(parts, sep) + sep + x
  {
    if |parts| == 1 {
      assert (parts + [x])[1..] == [x];
    } else {
      assert (parts + [x])[1..] == parts[1..] + [x];
      JoinSnoc(parts[1..], x, sep);
    }
  }

  /** Python's `replace` is `split` followed by `join` with the new text. */
  lemma {:induction false} ReplaceAllIsSplitJoin(s: string, p: string, v: string)
    requires p != []
    ensures ReplaceAll(s, p, v) == Join(Split(s, p), v)
    decreases |s|
  {
    match IndexOf(s, p)
    case None =>
    case Some(i) =>
      var rest := s[i + |p|..];
      ReplaceAllIsSplitJoin(rest, p, v);
      var parts := Split(s, p);
      assert parts == [s[..i]] + Split(rest, p);
      assert parts[1..] == Split(rest, p);
  }

  /** Replacing a pattern by itself changes nothing. */
  lemma ReplaceAllSelf(s: string, p: string)
    requires p != []
    ensures ReplaceAll(s, p, p) == s
  {
    ReplaceAllIsSplitJoin(s, p, p);
    JoinSplit(s, p);
  }

  /** After replacing a character by text that does not contain it, the
      character is gone. */
  lemma {:induction false} ReplaceAllRemoves(s: string, c: char, v: string)
    requires c !in v
    ensures c !in ReplaceAll(s, [c], v)
    decreases |s|
  {
    match IndexOf(s, [c])
    case None =>
      forall j | 0 <= j < |s| ensures s[j] != c {
        if s[j] == c { IndexOfFirst(s, [c], j); }
      }
    case Some(i) =>
      forall j | 0 <= j < i ensures s[j] != c {
        if s[j] == c { IndexOfFirst(s, [c], j); }
      }
      ReplaceAllRemoves(s[i + 1..], c, v);
  }

  /** Replacing one character by another changes every occurrence of it,
      position by position, and nothing else. */
  lemma {:induction false} ReplaceCharEach(s: string, c: char, d: char)
    ensures |ReplaceAll(s, [c], [d])| == |s|
    ensures forall k :: 0 <= k < |s| ==> ReplaceAll(s, [c], [d])[k] == if s[k] == c then d else s[k]
    decreases |s|
  {
    match IndexOf(s, [c])
    case None =>
      forall j | 0 <= j < |s| ensures s[j] != c {
        if s[j] == c { IndexOfFirst(s, [c], j); }
      }
    case Some(i) =>
      IndexOfFound(s, [c]);
      assert s[i..i + 1][0] == s[i];
      forall j | 0 <= j < i ensures s[j] != c {
        if s[j] == c { IndexOfFirst(s, [c], j); }
      }
      var rest := s[i + 1..];
      ReplaceCharEach(rest, c, d);
      assert forall k :: 0 <= k < |rest| ==> rest[k] == s[i + 1 + k];
      ReplaceCharGlue(s, i, c, d, ReplaceAll(rest, [c], [d]), ReplaceAll(s, [c], [d]));
  }

  /** The replaced text around the first occurrence, glued together. */
  lemma ReplaceCharGlue(s: string, i: nat, c: char, d: char, tail: string, r: string)
    requires i < |s| && s[i] == c && forall j :: 0 <= j < i ==> s[j] != c
    requires |tail| == |s| - i - 1
    requires forall k :: 0 <= k < |tail| ==> tail[k] == if s[i + 1 + k] == c then d else s[i + 1 + k]
    requires r == s[..i] + [d] + tail
    ensures |r| == |s|
    ensures forall k :: 0 <= k < |s| ==> r[k] == if s[k] == c then d else s[k]
  {
    forall k | i < k < |s| ensures r[k] == if s[k] == c then d else s[k] {
      assert r[k] == tail[k - i - 1];
    }
  }

  /** When `s` starts with `p`, replacing its first occurrence swaps the prefix. */
  lemma ReplaceFirstPrefix(s: string, p: string, v: string)
    requires StartsWith(s, p)
    ensures ReplaceFirst(s, p, v) == v + s[|p|..]
  {
  }

  /** Splitting on a single character yields one more piece than there are
      occurrences of it, and no piece contains it. */
  function Count(s: string, c: char): nat {
    if s == [] then 0 else (if s[0] == c then 1 else 0) + Count(s[1..], c)
  }

  lemma {:induction false} SplitCharCount(s: string, c: char)
    ensures |Split(s, [c])| == Count(s, c) + 1
    ensures forall k :: 0 <= k < |Split(s, [c])| ==> c !in Split(s, [c])[k]
    decreases |s|
  {
    match IndexOf(s, [c])
    case None =>
      forall j | 0 <= j < |s| ensures s[j] != c {
        if s[j] == c { IndexOfFirst(s, [c], j); }
      }
      CountAbsent(s, c);
    case Some(i) =>
      forall j | 0 <= j < i ensures s[j] != c {
        if s[j] == c { IndexOfFirst(s, [c], j); }
      }
      assert s[i] == c by { IndexOfFound(s, [c]); assert s[i..i + 1] == [c]; }
      SplitCharCount(s[i + 1..], c);
      CountSplit(s, i, c);
  }

  lemma {:induction false} CountAbsent(s: string, c: char)
    requires c !in s
    ensures Count(s, c) == 0
  {
    if s != [] { CountAbsent(s[1..], c); }
  }

  lemma {:induction false} CountSplit(s: string, i: nat, c: char)
    requires i < |s| && s[i] == c && c !in s[..i]
    ensures Count(s, c) == 1 + Count(s[i + 1..], c)
  {
    if i > 0 {
      assert s[1..][..i - 1] == s[..i][1..];
      CountSplit(s[1..], i - 1, c);
      assert s[1..][i..] == s[i + 1..];
    }
  }

  /** A character absent from the parts and the separator is absent from
      their join. */
  lemma {:induction false} JoinAvoids(parts: seq<string>, sep: string, c: char)
    requires c !in sep && forall k :: 0 <= k < |parts| ==> c !in parts[k]
    ensures c !in Join(parts, sep)
  {
    if |parts| > 1 { JoinAvoids(parts[1..], sep, c); }
  }

  /** A join whose first part is non-empty is non-empty. */
  lemma {:induction false} JoinLength(parts: seq<string>, sep: string)
    requires parts != [] && parts[0] != []
    ensures |Join(parts, sep)| >= 1
  {
  }

  /** `''.join` of one more part. */
  lemma {:induction false} ConcatSnoc(parts: seq<string>, x: string)
    ensures Concat(parts + [x]) == Concat(parts) + x
  {
    if parts != [] {
      assert (parts + [x])[1..] == parts[1..] + [x];
      ConcatSnoc(parts[1..], x);
    }
  }

  /** Joining two non-empty runs of parts separately and then joining the
      results is joining them all at once. */
  lemma {:induction false} JoinAppend(xs: seq<string>, ys: seq<string>, sep: string)
    requires xs != [] && ys != []
    ensures Join(xs + ys, sep) == Join(xs, sep) + sep + Join(ys, sep)
  {
    if |xs| == 1 {
      assert (xs + ys)[1..] == ys;
    } else {
      assert (xs + ys)[1..] == xs[1..] + ys;
      JoinAppend(xs[1..], ys, sep);
    }
  }

  /** Three parts joined. */
  lemma JoinThree(a: string, b: string, c: string, sep: string)
    ensures Join([a, b, c], sep) == a + sep + b + sep + c
  {
    assert [a, b, c][1..] == [b, c];
    assert [b, c][1..] == [c];
    assert Join([b, c], sep) == b + sep + c;
    assert a + sep + (b + sep + c) == a + sep + b + sep + c;
  }

  /** Replacing a pattern whose first character does not occur changes
      nothing. */
  lemma ReplaceAllAbsent(s: string, p: string, v: string)
    requires p != [] && p[0] !in s
    ensures ReplaceAll(s, p, v) == s
  {
    IndexOfAbsent(s, p);
  }
}
