/** `PerverHandler.form_type`: the content type of a path, looked up by
    its extension in `Perver.route_type`. The extension is taken as
    POSIX `os.path.splitext` takes it. */
module Mime {
  import opened Wrappers
  import opened Text
  import opened Dicts

  /** The index of the last occurrence of `c` in `s`. */
  function LastIndex(s: string, c: char): (r: Option<nat>)
    ensures r.None? ==> forall k :: 0 <= k < |s| ==> s[k] != c
    ensures r.Some? ==> r.value < |s| && s[r.value] == c && forall k :: r.value < k < |s| ==> s[k] != c
  {
    if s == [] then None
    else if s[|s| - 1] == c then Some(|s| - 1)
    else LastIndex(s[..|s| - 1], c)
  }

  /** Where the last path component starts: just after the last slash. */
  function NameStart(p: string): (r: nat)
    ensures r <= |p| && forall k :: r <= k < |p| ==> p[k] != '/'
    ensures r > 0 ==> p[r - 1] == '/'
  {
    match LastIndex(p, '/')
    case None => 0
    case Some(s) => s + 1
  }

  /** Whether a character other than `.` occurs in `s[i..j]`. */
  predicate HasNonDot(s: string, i: nat, j: nat)
    requires i <= j <= |s|
  {
    exists k :: i <= k < j && s[k] != '.'
  }

  /** Where the extension starts: the last dot, when it lies after the last
      slash and the file name before it is not only dots. */
  function ExtStart(p: string): (r: Option<nat>)
    ensures r.Some? ==> r.value < |p| && p[r.value] == '.'
    ensures r.Some? ==> forall k :: r.value < k < |p| ==> p[k] != '.'
    ensures r.Some? ==> forall k :: r.value <= k < |p| ==> p[k] != '/'
  {
    match LastIndex(p, '.')
    case None => None
    case Some(d) =>
      if NameStart(p) <= d && HasNonDot(p, NameStart(p), d) then Some(d) else None
  }

  /** `os.path.splitext(p)[1]`: empty, or a dot followed by neither dots
      nor slashes, at the end of the path. */
  function Ext(p: string): (r: string)
    ensures r == [] || (r[0] == '.' && '.' !in r[1..] && '/' !in r && EndsWith(p, r))
  {
    match ExtStart(p)
    case None => []
    case Some(d) => p[d..]
  }

  /** `os.path.splitext(p)[0]`. */
  function Root(p: string): string {
    match ExtStart(p)
    case None => p
    case Some(d) => p[..d]
  }

  /** Splitting loses nothing: root and extension put together give the
      path back. */
  lemma SplitExtRoundTrip(p: string)
    ensures Root(p) + Ext(p) == p
  {
  }

  /** An extension-shaped suffix: a dot, then neither dots nor slashes. */
  predicate IsExt(e: string) {
    e != [] && e[0] == '.' && '.' !in e[1..] && '/' !in e
  }

  /** `d` is where `splitext` cuts `p`: a dot followed by neither dots nor
      slashes, with a character other than a dot before it in the same
      path component. */
  ghost predicate ExtAt(p: string, d: nat) {
    && d < |p| && p[d] == '.'
    && (forall k :: d < k < |p| ==> p[k] != '.' && p[k] != '/')
    && (exists k :: 0 <= k < d && p[k] != '.' && forall j :: k <= j < d ==> p[j] != '/')
  }

  /** A cut point is the one `ExtStart` finds. */
  lemma ExtAtStart(p: string, d: nat)
    requires ExtAt(p, d)
    ensures ExtStart(p) == Some(d)
  {
    var last := LastIndex(p, '.');
    assert last.Some?;
    var e := last.value;
    assert e == d;
    var k :| 0 <= k < d && p[k] != '.' && forall j :: k <= j < d ==> p[j] != '/';
    var n := NameStart(p);
    assert n <= d;
    assert n <= k;
    assert HasNonDot(p, n, d);
  }

  /** What `ExtStart` finds is a cut point. */
  lemma StartExtAt(p: string)
    requires ExtStart(p).Some?
    ensures ExtAt(p, ExtStart(p).value)
  {
    var d := ExtStart(p).value;
    var n := NameStart(p);
    assert n <= d && HasNonDot(p, n, d);
    var k :| n <= k < d && p[k] != '.';
    assert forall j :: k <= j < d ==> p[j] != '/';
  }

  /** `splitext` finds an extension exactly when the path has a cut point,
      and the extension runs from it to the end. */
  lemma ExtExactly(p: string)
    ensures Ext(p) != [] <==> exists d: nat :: ExtAt(p, d)
    ensures forall d: nat :: ExtAt(p, d) ==> Ext(p) == p[d..]
  {
    if ExtStart(p).Some? {
      StartExtAt(p);
    }
    forall d: nat | ExtAt(p, d) ensures Ext(p) == p[d..] {
      ExtAtStart(p, d);
    }
  }

  /** A file name without slashes that holds some character other than a
      dot (`jquery.min`, `style`), followed by an extension, has that
      extension, whatever precedes it (`a/`, or nothing at all). */
  lemma ExtOfFileName(dir: string, name: string, ext: string)
    requires '/' !in name && HasNonDot(name, 0, |name|)
    requires IsExt(ext)
    ensures Ext(dir + name + ext) == ext
  {
    var p := dir + name + ext;
    var d := |dir| + |name|;
    assert p[d..] == ext;
    forall k | d < k < |p| ensures p[k] != '.' && p[k] != '/' {
      assert p[k] == ext[1..][k - d - 1];
    }
    var i :| 0 <= i < |name| && name[i] != '.';
    forall j | |dir| + i <= j < d ensures p[j] != '/' {
      assert p[j] == name[j - |dir|];
    }
    assert p[|dir| + i] == name[i];
    assert ExtAt(p, d);
    ExtAtStart(p, d);
  }

  /** `Perver.route_type`. */
  const RouteType: Dict<string, string> := [
    (".html", "text/html"),
    (".txt", "text/plain"),
    (".jpg", "image/jpeg"),
    (".png", "image/png"),
    (".css", "text/css"),
    ("other", "application")
  ]

  /** `form_type(path)` */
  function FormType(path: string): string {
    var ext := Ext(path);
    if Has(RouteType, ext) then Get(RouteType, ext)
    else if ext == "" then "text/html"
    else
      assert Keys(RouteType)[5] == "other";
      Get(RouteType, "other")
  }

  /** The types `form_type` can return: the table's values and
      `text/html`. */
  const Types: seq<string> := ["text/html", "text/plain", "image/jpeg", "image/png", "text/css", "application"]

  lemma FormTypeValues(path: string)
    ensures FormType(path) in Types
  {
    var ext := Ext(path);
    if Has(RouteType, ext) {
      var i := KeyIndex(RouteType, ext);
      assert RouteType[i].1 == [RouteType[0].1, RouteType[1].1, RouteType[2].1, RouteType[3].1, RouteType[4].1, RouteType[5].1][i];
    } else if ext != "" {
      KeyIndexAt(RouteType, "other", 5);
    }
  }

  /** No type holds a carriage return, so each fits on a header line. */
  lemma FormTypeNoCR(path: string)
    ensures '\r' !in FormType(path)
  {
    FormTypeValues(path);
    TypesNoCR();
  }

  lemma TypesNoCR()
    ensures forall k :: 0 <= k < |Types| ==> '\r' !in Types[k]
  {
  }

  /** A path with a cut point gets the table's entry for its extension,
      or the `other` entry when the table has none. */
  lemma FormTypeCases(p: string, d: nat)
    requires ExtAt(p, d)
    ensures FormType(p) == if Has(RouteType, p[d..]) then Get(RouteType, p[d..]) else "application"
  {
    ExtAtStart(p, d);
    KeyIndexAt(RouteType, "other", 5);
  }

  /** A path without a cut point is served as HTML. */
  lemma FormTypeNoExt(p: string)
    requires forall d: nat :: !ExtAt(p, d)
    ensures FormType(p) == "text/html"
  {
    ExtExactly(p);
  }

  /** A path without a dot is served as HTML. */
  lemma FormTypeNoDot(path: string)
    requires '.' !in path
    ensures FormType(path) == "text/html"
  {
  }

  /** A `.css` file is served as CSS. */
  lemma FormTypeCss(dir: string, name: string)
    requires '/' !in name && HasNonDot(name, 0, |name|)
    ensures FormType(dir + name + ".css") == "text/css"
  {
    var ext := ".css";
    assert IsExt(ext);
    ExtOfFileName(dir, name, ext);
    KeyIndexAt(RouteType, ext, 4);
  }

  /** An extension outside the table falls back to `application`. */
  lemma FormTypeUnknown(dir: string, name: string)
    requires '/' !in name && HasNonDot(name, 0, |name|)
    ensures FormType(dir + name + ".gif") == "application"
  {
    var ext := ".gif";
    assert IsExt(ext);
    ExtOfFileName(dir, name, ext);
    GifUnlisted();
    KeyIndexAt(RouteType, "other", 5);
  }

  lemma GifUnlisted()
    ensures !Has(RouteType, ".gif")
  {
    assert Keys(RouteType) == [".html", ".txt", ".jpg", ".png", ".css", "other"];
  }

  /** A hidden file (dots only before its last dot) has no extension. */
  lemma FormTypeDotFile(dir: string, suffix: string)
    requires '/' !in suffix && '.' !in suffix
    ensures Ext(dir + "/." + suffix) == "" && FormType(dir + "/." + suffix) == "text/html"
  {
    var p := dir + "/." + suffix;
    var d := |dir| + 1;
    assert p[d] == '.' && p[d + 1..] == suffix;
    assert forall k :: |dir| < k < |p| ==> p[k] != '/' by {
      forall k | |dir| < k < |p| ensures p[k] != '/' {
        if k > d { assert p[k] == suffix[k - d - 1]; }
      }
    }
    assert LastIndex(p, '.') == Some(d);
    assert p[|dir|] == '/';
    assert NameStart(p) == d;
    assert !HasNonDot(p, d, d);
  }
}
