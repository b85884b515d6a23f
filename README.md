# Perver, modelled in Dafny

Perver (`perver.py`, version 0.2) is a small asyncio HTTP server. A
`Perver` object holds three route tables: GET scripts, POST scripts, and
static directories. It also keeps one session container per client id.
For every connection, a `PerverHandler` does the following:

- reads the request head line by line, and the body by its `Content-Length`;
- parses the request into a `PerverClient`: method, path, header dict,
  query, urlencoded body and cookies;
- derives the client id by hashing the address and the user agent;
- looks the path up, first as an exact key, then as a `{name}` pattern;
- runs the selected script, serves a static file, or answers 404.

This project models that core as follows.

- **Pure parts.** These are functions, with lemmas about them:
  - the `str` operations the server relies on (`text.dfy`);
  - the ordered `dict` (`dicts.dfy`);
  - `str(n)` and `int(s)` (`decimal.dfy`);
  - `unquote` (`percent.dfy`);
  - `parse_get` (`query.dfy`);
  - the client id (`identity.dfy`);
  - `check_route` (`router.dfy`);
  - `form_type` (`mime.dfy`);
  - the response layout of `respond` (`wire.dfy`);
  - the HTML helpers of `PerverClient` (`markup.dfy`);
  - the pure part of `parse` (`request.dfy`).
- **Stateful parts.** These are classes whose methods change their
  fields: `Perver` and `PerverClient` in `server.dfy`, and `PerverHandler`
  in `handler.dfy`.
  - The stream is represented by what it carries: the lines `readline`
    returns, and the text written so far.
  - The file system is a map from names to contents.
  - SHA-1 is a function parameter.
- **Loops.** The loops of the source are methods proved against
  specification functions:
  - the header-reading loop;
  - the route loop of `check_route`;
  - the custom-header loop of `respond`;
  - `form`, `template`;
  - the static-directory loop.

Some of the main results:

- **Routing.** A found pattern route is one whose captures rebuild the
  path, with the fewest captures, the earliest on a tie. Nothing is found
  exactly when no key equals the path and no route matches. A path
  with one trailing slash resolves like the path without it.
- **Query strings.** `parse_get`, the urlencoded body and the `Cookie`
  header read back the pairs written into them, last value winning.
- **Responses.** Every response reads back as its status line, its fields
  in the order written, and its body unchanged. Its `Content-Length`
  field gives the body's length.
- **Client id.** With the default truncation length of 10 bytes, `[:-2]`
  removes only base64 padding. Two digests then give the same id exactly
  when their first ten bytes agree. With a length divisible by three,
  distinct digests can share an id.
- **Headers.** `parse` never puts the last header line before the blank
  line into the header dict (`args[1:-2]`).

Some behaviour of `perver.py` that the model keeps as written:

- **Request line.** Any three space-separated words are accepted as a
  request line, whatever the method and the version.
- **Header lines.** A header line that does not split into exactly two
  parts at `": "` makes `dict` raise. The last header line before the
  blank line is never read.
- **Parse failures.** No 400 reply is ever written.
  - With fewer than three lines, the 400 coroutine is created but never
    awaited, and the connection is closed.
  - Any other exception escapes `handle_request`.
- **Trailing slash.** The slash is stripped once per route tried, so the
  stripping accumulates across the loop (`Router.StrippedCumulative`).
- **Ties between routes.** Ties go to the earlier route in the table's
  insertion order.
- **Bodies.** `perver.py` reads only urlencoded bodies; it parses no
  multipart bodies.

## Model

| member | source | states |
|---|---|---|
| Text.SplitJoin | perver.py:189 | Splitting a join of parts that avoid the separator's first character gives the parts back. |
| Text.JoinSplit | perver.py:199 | Joining the pieces of `s.split(sep)` with `sep` gives `s` back. |
| Text.SplitCharCount | perver.py:164-165 | Splitting on one character yields one more piece than it has occurrences, and no piece holds it. |
| Text.ReplaceAllIsSplitJoin | perver.py:219 | `s.replace(p, v)` is `v.join(s.split(p))`. |
| Text.ReplaceAllRemoves | perver.py:484 | After replacing a character by text without it, the character no longer occurs. |
| Text.ReplaceCharEach | perver.py:484 | Replacing one character by another changes exactly its occurrences, position by position, and keeps the length. |
| Text.ReplaceFirstPrefix | perver.py:315 | `s.replace(p, v, 1)` on an `s` that starts with `p` swaps that prefix for `v`. |
| Decimal.ShowNat | perver.py:151 | `str(n)` for `n >= 0` is a non-empty run of digits. |
| Decimal.ShowInt | perver.py:136 | `str(i)` consists of digits and minus signs and is never empty. |
| Decimal.DigitsValueShowNat | perver.py:151 | Reading the digits of `str(n)` back gives `n`. |
| Decimal.PyIntShowInt | perver.py:273 | `int(str(i)) == i` for every integer. |
| Decimal.PyIntSpaces | perver.py:273 | `int` ignores a leading space and a trailing CRLF around a number. |
| Percent.Unquote | perver.py:198 | Decoding never makes a text longer. |
| Percent.UnquotePlain | perver.py:198 | Text without `%` is left unchanged by `unquote`. |
| Percent.QuoteAvoids | perver.py:198 | Percent-encoding writes only `%` and hexadecimal digits, so no separator of the grammar appears in it. |
| Percent.UnquoteQuote | perver.py:198 | `unquote` undoes percent-encoding of every character of an ASCII text. |
| Dicts.Set | perver.py:458 | `d[k] = v`: an existing key keeps its position, a new one goes last; `k` maps to `v`, every other key is unchanged, and no key appears twice. |
| Dicts.SetTwice | perver.py:458 | Assigning a key twice is assigning it once with the later value. |
| Dicts.FromPairsWf | perver.py:200 | `dict(pairs)` holds each key once. |
| Dicts.FromPairsGet | perver.py:168 | A key is in `dict(pairs)` exactly when some pair carries it, with the value of the last such pair. |
| Dicts.FromPairsKeys | perver.py:200 | The keys of `dict(pairs)` are exactly the keys of the pairs, listed in the order of their first appearance. |
| Dicts.FirstIndex | perver.py:200 | The index found is the first pair carrying the key, or the number of pairs when none does. |
| Dicts.FromPairsOrder | perver.py:200 | A key that first appears earlier among the pairs comes earlier in `dict(pairs)`. |
| Dicts.FromPairs | perver.py:200 | `dict(pairs)`; its contract is stated by `FromPairsWf` (each key once), `FromPairsGet` (the last value of each key) and `FromPairsKeys`/`FromPairsOrder` (the keys in order of first appearance). |
| Dicts.Zip | perver.py:69 | `zip` pairs two lists position by position and stops at the shorter. |
| Query.PieceToPair | perver.py:168 | A `key=value` piece yields a pair exactly when it holds `=`; otherwise `dict` raises. |
| Query.PieceDecodes | perver.py:168 | A piece gives its first two `=`-parts, each percent-decoded; a third `=`-part and anything after it are dropped. |
| Query.PairsOf | perver.py:168 | The pieces give pairs, one per piece, exactly when every piece holds `=`. |
| Query.ParseGetNoQuery | perver.py:163-171 | A path of at most one character, or without exactly one `?`, gives the empty dict. |
| Query.ParseGetRaises | perver.py:164-168 | A query piece without `=` makes `parse_get` raise. |
| Query.PieceRoundTrip | perver.py:168 | `key=value` of plain text reads back as the pair. |
| Query.QuotedPieceRoundTrip | perver.py:168 | A piece whose ASCII key and value are fully percent-encoded reads back as the pair, whatever characters they hold. |
| Query.PairsOfEach | perver.py:168 | Pieces that each read back as their pair read back as the list of pairs. |
| Query.ParseGetRoundTrip | perver.py:163-169 | Pairs written as `key=value` pieces behind a `?` parse back as `dict(pairs)`, for any separator other than `?` and `=`. |
| Query.ParseGetQuery | perver.py:215 | The same round trip for a text that is only `?` and the pairs, the form used for bodies and cookies. |
| Query.ParseGet | perver.py:163-171 | `parse_get`: stated by `ParseGetNoQuery` (empty dict without exactly one `?`), `ParseGetRaises` (a piece without `=` raises) `PieceDecodes` (each piece is its first two `=`-parts, percent-decoded), `ParseGetRoundTrip`/`ParseGetQuery` (written pairs read back as `dict(pairs)`) and `ParseGetQuotedRoundTrip` (the same for percent-encoded pairs of any ASCII text). |
| Query.ParseGetQuotedRoundTrip | perver.py:163-169 | Pairs of any ASCII keys and values, percent-encoded and written as `key=value` pieces behind a `?`, parse back as `dict(pairs)` for any separator other than `?`, `=`, `%` and the hexadecimal digits (so `&` and `;`). |
| Identity.Sym | perver.py:42 | The URL-safe base64 alphabet never yields the padding character. |
| Identity.SymValue | perver.py:42 | Every symbol has a value below 64 that maps back to it. |
| Identity.SymRoundTrip | perver.py:42 | Every value below 64 has a symbol whose value is that value. |
| Identity.Group | perver.py:42 | Three bytes encode as four symbols. |
| Identity.Tail1 | perver.py:42 | One final byte encodes as two symbols and `==`. |
| Identity.Tail2 | perver.py:42 | Two final bytes encode as three symbols and `=`. |
| Identity.Encode | perver.py:42 | `urlsafe_b64encode` output has four characters for every started group of three bytes. |
| Identity.DecodeEncode | perver.py:42 | Base64 decoding of the encoding gives the bytes back. |
| Identity.EncodeOneLeft | perver.py:41-42 | With a byte count of the form 3k+1, the encoding is symbols followed by exactly `==`. |
| Identity.EncodeWhole | perver.py:41-42 | With a byte count divisible by three, the encoding holds no padding. |
| Identity.IdDropsOnlyPadding | perver.py:38-42 | With a truncation length of the form 3k+1, the id is all symbols, has the expected length, and decodes (after putting `==` back) to the truncated digest. |
| Identity.IdDefaultShape | perver.py:38-42 | With the default length 10, the id has 14 characters and no `=`. |
| Identity.IdDefaultInjective | perver.py:38-42 | With the default length 10, two digests give the same id exactly when their first ten bytes agree. |
| Identity.IdCutsSymbols | perver.py:41-42 | With a length divisible by three, `[:-2]` cuts two real symbols, not padding. |
| Identity.IdCollision | perver.py:41-42 | With length 3, two different digests share an id. |
| Identity.GetId | perver.py:38-42 | `get_id`: stated by `IdDropsOnlyPadding` (shape and decoding back to the truncated digest), `IdDefaultShape` and `IdDefaultInjective` (default length 10), and `IdCutsSymbols`/`IdCollision` (what other lengths lose). |
| Router.CloseBrace | perver.py:34 | The closing brace found lies at or after the start index. |
| Router.PlaceholderEnd | perver.py:34 | A placeholder `\{.+?\}` starts with `{`, holds at least one character and ends at the first `}`. |
| Router.TokenizeRoundTrip | perver.py:60 | Reading a route into literal and placeholder tokens loses nothing of its text. |
| Router.NonSlashRun | perver.py:60 | `[^/]+` can extend exactly over the longest slash-free prefix. |
| Router.MatchSound | perver.py:60-61 | A match yields one non-empty, slash-free capture per placeholder, and they rebuild the path (up to one final newline, which `$` allows). |
| Router.TryLenSound | perver.py:60-61 | Each capture length the greedy backtracking accepts gives valid captures that rebuild the path. |
| Router.MatchComplete | perver.py:60-61 | Whenever valid captures rebuild the path, the anchored pattern matches. |
| Router.TryLenComplete | perver.py:60-61 | Backtracking finds a match when some shorter capture length admits one. |
| Router.Match | perver.py:60-61 | `re.match` of a route pattern with `$`: `MatchSound` (a match gives valid captures that rebuild the path) and `MatchComplete` (valid captures that rebuild the path are always found). |
| Router.StripSlashOne | perver.py:57 | At most one trailing slash goes, and never the whole path. |
| Router.Fewest | perver.py:53-69 | The match held refers to a route already tried. |
| Router.FewestNone | perver.py:53-72 | Nothing is held exactly when no route tried so far matched. |
| Router.FewestMatches | perver.py:64-69 | The held match is the actual match of its route. |
| Router.FewestIsMinimal | perver.py:67-69 | The held match has no more captures than any other match, and strictly fewer than any earlier one. |
| Router.CheckRoute | perver.py:46-72 | The loop returns the exact entry with no parameters, or the pattern match the fewest-captures rule selects, or nothing. |
| Router.ResolveExact | perver.py:49-50 | An exact key wins with no parameters. |
| Router.ResolveNone | perver.py:46-72 | Nothing is found exactly when the path is not a key and no route matches it. |
| Router.ResolveFindsRendered | perver.py:54-69 | When valid captures turn some route into the path it is matched against, a result is found. |
| Router.ResolvePattern | perver.py:53-69 | A pattern result is the earliest route with the fewest captures, and its parameters pair each placeholder name with a valid capture. |
| Router.StrippedRoot | perver.py:57 | The root path `/` is never reduced. |
| Router.StrippedFixed | perver.py:57 | A path without a trailing slash is never changed by the stripping. |
| Router.ResolveTrailingSlash | perver.py:54-61 | When neither form is a key, a path with one trailing slash resolves exactly like the path without it. |
| Router.StrippedCumulative | perver.py:54-57 | The stripping accumulates: `/a//` is matched as `/a/` for the first route and as `/a` for the second. |
| Router.Resolve | perver.py:46-72 | `check_route`: stated by `ResolveExact`, `ResolveNone`, `ResolveFindsRendered`, `ResolvePattern` and `ResolveTrailingSlash`, and computed by the loop `CheckRoute`. |
| Mime.LastIndex | perver.py:82 | The index found holds the character and no later position does; nothing is found exactly when the character does not occur. |
| Mime.ExtStart | perver.py:82 | The extension starts at the last dot, which is followed by neither dots nor slashes. |
| Mime.Ext | perver.py:82 | `splitext(p)[1]` is empty, or a dot followed by neither dots nor slashes that ends the path. |
| Mime.ExtAtStart | perver.py:82 | A dot followed by neither dots nor slashes, with a non-dot character before it in its path component, is where the extension starts. |
| Mime.StartExtAt | perver.py:82 | Where the extension starts is such a dot. |
| Mime.ExtExactly | perver.py:82 | `splitext` finds an extension exactly when the path has such a dot, and the extension runs from it to the end. |
| Mime.SplitExtRoundTrip | perver.py:82 | Root and extension put together give the path back. |
| Mime.ExtOfFileName | perver.py:82 | A slash-free file name holding some character other than a dot (`jquery.min`, `style`), followed by an extension, has that extension, whatever precedes it. |
| Mime.FormTypeValues | perver.py:81-88 | `form_type` returns one of the values of `route_type`, or `text/html`. |
| Mime.FormTypeNoCR | perver.py:81-88 | No type holds a carriage return. |
| Mime.FormTypeCases | perver.py:83-88 | A path with an extension gets the table's entry for it, or `application` when there is none. |
| Mime.FormTypeNoExt | perver.py:85-86 | A path without an extension is served as `text/html`. |
| Mime.FormTypeNoDot | perver.py:85-86 | A path without a dot is served as `text/html`. |
| Mime.FormTypeCss | perver.py:83-84 | A `.css` file (`style.css`, `a/b.c.css`) is served as `text/css`. |
| Mime.FormTypeUnknown | perver.py:87-88 | An extension outside the table (`.gif`) falls back to `application`. |
| Mime.FormTypeDotFile | perver.py:82-86 | A hidden file such as `.bashrc` has no extension and is served as `text/html`. |
| Mime.FormType | perver.py:81-88 | `form_type`: stated by `FormTypeCases` (a path with an extension) and `FormTypeNoExt` (a path without), which together cover every path, and by `FormTypeValues`/`FormTypeNoCR`. |
| Wire.HeadLayout | perver.py:136-151 | The head is the status line, then `Content-Type`, `Accept-Charset`, `Server`, the custom headers in dict order, and `Content-Length` last. |
| Wire.BodyLength | perver.py:150 | `length or len(content)`: a missing or zero override falls back to the body's length. |
| Wire.ErrorText | perver.py:105-110 | The phrase is `Unknown Error` exactly for numbers other than 400, 404 and 500. |
| Wire.ResponseReadsBack | perver.py:131-159 | A response reads back as its status line, every field in the order written, and its body unchanged, even when the body holds CRLFs. |
| Wire.ResponseLength | perver.py:150-151 | Without a different override, the last field read back is `Content-Length`, and its value is the body's length. |
| Wire.Response | perver.py:131-159 | The bytes `respond` writes: stated by `HeadLayout`, `BodyLength`, `ResponseReadsBack` and `ResponseLength`. |
| Wire.ErrorResponseReadsBack | perver.py:104-111 | An error response carries the number as its status and `number phrase` as its body. |
| Wire.ErrorResponse | perver.py:104-111 | The bytes `respond_error` writes: stated by `ErrorText` and `ErrorResponseReadsBack`. |
| Markup.HtmlLines | perver.py:395-399 | With line-free arguments the page has seven lines: the doctype, then head and body each wrapped in their tags. |
| Markup.Html | perver.py:395-399 | `html(body, head, doctype)`: stated by `HtmlLines` (seven lines, each part inside its tags). |
| Markup.Form | perver.py:403-409 | The form is the opening tag and one input line per input, joined by CRLF, with `</form>` right after the last one. |
| Markup.FormLines | perver.py:403-409 | With no CR in the parts, the form splits back into the opening tag and the input lines, in order. |
| Markup.InputName | perver.py:413-414 | The input's `name` entry holds the given name. |
| Markup.InputKeys | perver.py:413-414 | The input has exactly `name` and the keyword arguments as keys. |
| Markup.InputArg | perver.py:413-414 | The input carries every keyword argument unchanged. |
| Markup.Input | perver.py:413-414 | `input(name, **kwargs)`: stated by `InputName`, `InputKeys` and `InputArg` (exactly `name` and the keyword arguments, with their values). |
| Markup.InputSubmitTag | perver.py:418-419 | The submit button's line has type `submit` and the value, whatever keyword arguments were passed. |
| Markup.InputSubmit | perver.py:418-419 | `input_submit(value, **kwargs)`: stated by `InputSubmitTag`. |
| Markup.Template | perver.py:360-363 | The loop replaces the placeholders key by key, each on the text the previous replacements left. |
| Markup.TemplateNoBrace | perver.py:360-363 | A text without `{` is left as it is. |
| Markup.TemplateFills | perver.py:360-363 | Every `{key}` is replaced by the value when `key` comes first and no `{` is left to disturb later keys. |
| Markup.Substituted | perver.py:360-363 | `template`'s result: stated by `TemplateNoBrace` and `TemplateFills`, and computed by the loop `Template`. |
| Request.ArgPair | perver.py:189 | A header line gives a pair exactly when it splits into two parts at `": "`. |
| Request.ArgPairsEach | perver.py:189-200 | The header lines give a pair each exactly when every one of them splits in two; otherwise `dict` raises. |
| Request.ParseTooShort | perver.py:189-194 | `parse` gives up exactly when the head holds fewer than three CRLF-separated pieces. |
| Request.ParseBadRequestLine | perver.py:197 | A request line that is not three space-separated words raises. |
| Request.PathDirOf | perver.py:199-204 | The path's directory is everything before the last slash, or `/` when that is empty. |
| Request.SplitLined | perver.py:189 | Lines each followed by CRLF split back into the lines and one final empty piece. |
| Request.ArgPairsHeaders | perver.py:189-200 | Header lines `key: value` with plain text read back as their pairs. |
| Request.ParseLinesWords | perver.py:189-200 | Once the request line gives three words and the header lines give pairs, `parse` proceeds with those words and `dict` of the pairs. |
| Request.AssemblePlain | perver.py:198-220 | A target without query or escapes, an empty body and no `Cookie` give that path, empty get, post and cookie dicts, and the agent `Bot` when none was sent. |
| Request.RequestLineSplit | perver.py:197 | A colon-free request line of three space-free words splits into them. |
| Request.ParseDropsLastHeader | perver.py:189-207 | A plain request parses into its three words with a header dict built from every header line but the last; a `User-Agent` sent last is not seen. |
| Request.ParseHead | perver.py:176-220 | `parse`: stated by `ParseTooShort`, `ParseBadRequestLine`, `ParseLinesWords`, `AssemblePlain`, `ParseDropsLastHeader`, `PostRoundTrip` and `CookieRoundTrip`. |
| Request.RequestLines | perver.py:189 | The head the reading loop accumulates splits into its lines and one final empty piece. |
| Request.PostRoundTrip | perver.py:214-215 | Pairs sent as a urlencoded body read back as their dict. |
| Request.CookieRoundTrip | perver.py:218-220 | Pairs sent as a `Cookie` header, separated by `; `, read back as their dict. |
| Request.StopIndex | perver.py:267-276 | The loop reads up to the first line that stops it, and no earlier line stops it. |
| Request.ReadHead | perver.py:266-276 | The loop's header is every line before the stopping one, its length is the last readable `Content-Length`, and the stopping line is consumed. |
| Request.ReadHeadPlain | perver.py:267-274 | Header lines followed by a blank line are all accumulated, and the length stays 0. |
| Request.ReadHeadLength | perver.py:272-273 | A `Content-Length: n` line among ordinary lines gives the length `n`. |
| Request.ContentLengthSplit | perver.py:273 | `Content-Length: n` splits at `:` into the name and the rest. |
| Request.ContentLengthLine | perver.py:272-273 | `Content-Length: n` is recognised as a length line, reads as `n`, and does not stop the loop. |
| Server.NormalizeLocal | perver.py:484-488 | A stored directory starts and ends with `/` and holds no backslash; it is the given text with backslashes turned into slashes, and at most a `/` added in front and one at the end. |
| Server.Forward | perver.py:484 | `replace('\\', '/')` turns every backslash into a slash and keeps every other character in place. |
| Server.NormalizeLocalKeeps | perver.py:484-488 | A directory already in that form is stored as it is. |
| Server.NormalizeLocalIdempotent | perver.py:484-488 | Normalizing twice is normalizing once. |
| Server.NormalizeLocalBare | perver.py:484-488 | A relative directory that neither starts nor ends with a slash or backslash (`static`, `www\img`) is stored with both slashes added and its backslashes turned into slashes. |
| Server.SetKeepsNormal | perver.py:483-489 | Storing a normalized directory keeps the whole static table normalized. |
| Server.Perver.constructor | perver.py:425-451 | A new server starts with empty route tables, no clients and an empty shared header dict. |
| Server.Perver.Get | perver.py:456-460 | `get(path)` registers or replaces the GET handler and changes nothing else. |
| Server.Perver.Post | perver.py:465-469 | `post(path)` registers or replaces the POST handler and changes nothing else. |
| Server.Perver.Route | perver.py:474-479 | `route(path)` registers the handler in both tables. |
| Server.Perver.Static | perver.py:483-489 | `static(web, local)` stores the normalized directory and keeps the table normalized. |
| Server.Client.constructor | perver.py:179-226 | A new client carries what `parse` read: method, path, version, directory, agent, type, get, post, cookie, raw head and body, address, status 200. |
| Server.Client.Redirect | perver.py:353-356 | Sets `Location` in the shared headers and the status 302, and returns `Redirecting...`; the type, the container and everything `parse` read stay as they were. |
| Server.Client.File | perver.py:373-376 | Switches the type to `application`, even when the file is missing, and returns the file's bytes, or raises; the status, the container and everything `parse` read stay as they were. |
| Server.Client.Render | perver.py:367-369 | Returns the file's text with the placeholders filled, or raises when the file is missing. |
| Server.Client.SetHeader | perver.py:380-381 | Sets one shared header. |
| Server.Client.SetCookie | perver.py:385-386 | Sets the one `Set-Cookie` header to `name=value;`. |
| Server.Client.SetStatus | perver.py:390-391 | Sets the status; the type, the container and everything `parse` read stay as they were. |
| Handling.DropFirst | perver.py:316 | `path[1:]` drops the first character when there is one. |
| Handling.StaticTarget | perver.py:313-317 | No file is chosen exactly when no static directory prefixes the path. |
| Handling.StaticTargetFirst | perver.py:313-317 | The first directory that prefixes the path decides, and its local directory replaces the web prefix. |
| Handling.StaticTargetLocal | perver.py:313-316 | With a stored local directory, the file is that directory without its leading slash, followed by the rest of the path. |
| Handling.DispatchOtherMethod | perver.py:303-320 | A method other than GET and POST never runs a script; it gets 404 exactly when no static directory prefixes the path. |
| Handling.DispatchGetOnly | perver.py:303-310 | A path registered with `get` only never runs the GET script for a POST, but does for a GET. |
| Handling.DispatchRegistered | perver.py:303-310 | A handler registered for a path is what a request for exactly that path runs, with no parameters. |
| Handling.Dispatch | perver.py:300-321 | The branch `handler` takes: stated by `DispatchOtherMethod`, `DispatchGetOnly` and `DispatchRegistered`, and carried out by `Handler.Answer`. |
| Handling.FileResponseReadsBack | perver.py:93-97 | An existing file is answered with status 200, its type, its size as length, and its bytes as body. |
| Handling.ScriptBody | perver.py:119-120 | A non-empty result is the body; None or an empty text gives an empty body. |
| Handling.Handler.constructor | perver.py:253-263 | A new handler knows its server and address and has written nothing. |
| Handling.Handler.FormHeader | perver.py:76-77 | Appends one `key: value` CRLF line to the head. |
| Handling.Handler.FormHeaders | perver.py:142-143 | Appends one line per custom header, in dict order. |
| Handling.Handler.Respond | perver.py:131-159 | Forms the head in the documented order, writes head, blank line, body and CRLF, and closes the writing side. |
| Handling.Handler.RespondError | perver.py:104-111 | Writes the error response for the number. |
| Handling.Handler.RespondFile | perver.py:93-99 | Writes the file's response, or 404 when the file cannot be opened. |
| Handling.Handler.RespondScript | perver.py:116-126 | Writes the script's result with the client's status, type and the shared headers. |
| Handling.Handler.Admit | perver.py:228-245 | The client gets its id, a fresh container is made only for an unseen id, and the shared `Set-Cookie` header carries the id. |
| Handling.Handler.Parse | perver.py:176-245 | Fewer than three lines: nothing is written and no client is made. A malformed request raises. Otherwise the client is admitted. |
| Handling.Handler.Answer | perver.py:300-321 | Runs the POST or GET script the routing selects, leaving the output open, or serves the static file, or writes 404, and then the writing side is closed. |
| Handling.Handler.ServeStatic | perver.py:313-321 | Serves the file of the first directory that prefixes the path, or writes 404; either way the writing side is closed. |
| Handling.Handler.HandleRequest | perver.py:250-321 | Reads the head and body, then closes on a too-short head or raises on a malformed one; otherwise the client gets the id `get_id` computes, a fresh empty container only for an unseen id, and the shared `Set-Cookie` header, and the request is answered as the routing decides. On a short or malformed head the containers, the shared headers and the output are unchanged; the route tables never change. |

## Left out

- The asyncio machinery is not modelled: coroutines, `asyncio.wait_for` with its timeout, `Perver.start`, `Perver.stop`, `Perver.handler` and the event loop. They are I/O and scheduling, with no logic of their own beyond catching exceptions.
- Logging, `time.strftime` (`client.time`), `os.system` and `sys.version_info` are not modelled; they are I/O or clocks.
- Socket reads are not modelled in detail. `reader.read(length)` is taken to return all requested bytes that remain, with no partial reads. A `readline` that raises is not modelled; the loop's `except: break` handles it.
- User scripts are not run. `Handling.Handler.HandleRequest` reports the selected script and its parameters, and `Handling.Handler.RespondScript` writes the answer from the script's result. The 500 path for a script that raises is therefore not modelled.
- SHA-1 is a function parameter, so the properties of the digest itself are not modelled.
- Text is ASCII: `str` and `bytes` are both `string`, and `.encode`/`.decode` with UTF-8 are identities.
- Percent.Unquote: maps each `%XX` to the character with that code. `unquote` instead UTF-8-decodes the bytes, so a multi-byte sequence becomes one character and a lone byte from 128 up (`%E9`) becomes U+FFFD. The model is exact on ASCII, and `Percent.UnquoteQuote` is stated for ASCII text.
- Decimal.PyInt: does not accept the underscores between digits that `int()` allows.
- Router.Match: route literals are matched as plain text. The source does not escape them, so a regular-expression metacharacter in a route literal is not modelled.
- Router.CheckRoute: the `sys.maxsize` starting value is "no match yet" (an `Option`). A path can never hold that many captures, so the result is the same.
- Mime.FormType: `route_type` is a class-level dict (perver.py:441-448) that a program could change at run time; the model uses the table as the source defines it, as the constant `Mime.RouteType`.
- Mime.Ext: `os.path.splitext` is modelled as on POSIX. Windows drive letters and backslash separators are not modelled.
- Server.Perver.Static: `os.path.isabs` is modelled as on POSIX, where it means "starts with `/`".
- Handling.ScriptBody: a script result is None or a text. Other falsy results (`0`, `[]`) are not modelled.
- Handling.Handler.Parse: the 400 reply for a too-short head is created but never awaited in the source, so nothing is written. An exception out of `parse` is reported as `raised`; it escapes `handle_request` in the source.
- Handling.Handler.Admit: the id is computed before the client object is made, because it depends only on the address and the agent. The source computes it from `self.client` after assigning it.
- The class-level dicts of `Perver` are one object each, shared by every instance. Here they are fields of the one `Perver` object, and every `Client` points to the server's one `HeaderStore` (the class-level `PerverClient.header`). Two `Perver` objects in one process are not modelled.
- Server.Client.constructor: a request without a `Cookie` header leaves `client.cookie` unassigned (perver.py:218-220), so that client reads the class-level `PerverClient.cookie` dict shared by all clients; the model gives it its own empty cookie dict. The source never writes into that shared dict, so it stays empty and the two agree on every read; a user script that mutates it in place is not modelled.
- The unused `Perver` settings `backlog` and `timeout` are constants only.
