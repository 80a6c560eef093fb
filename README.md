# URL classification and rewriting in the page parser

The page parser inlines the resources a web page refers to. Before fetching a
resource it must turn the reference found in the page into an absolute URL.
Two functions in `api/controllers/parser.js` do this, and they are modelled
here:

- `detectURL` sorts a reference into one of five shapes: `full_url`,
  `double_slash_url`, `httpless_url`, `slash_resource_name` or
  `resource_name`. It tests the regular expressions of `url_types` in a fixed
  order. A reference that none of them accepts is an error, `Strange URL: …`.
- `fixUrl` gives the page's base URL a trailing `/`. It then classifies the
  reference and rewrites it according to its shape:
  - a full URL is kept as it is;
  - `//host` gets `http:` in front;
  - `host/path` gets `http://` in front;
  - a root-relative path and a bare resource name are appended to the base.

The project has four modules:

- `JsString` (`jsstring.dfy`) covers the JavaScript string built-in the code
  relies on, `split` with a one-character separator. `join` is not called by
  the code; `Join` is its inverse here, and `Join(Split(s))` is proved to
  give `s` back, which pins `Split` down. It also defines the last segment
  of a split, `s.split(".")[length - 1]`, characterised by the `IsLastSegment`
  predicate.
- `UrlTypes` (`urltypes.dfy`) covers the regular expressions.
  - The part the three URL patterns share is written twice: as the
    backtracking meaning (`BodyLang`, "there is a split into `www.`, host,
    `.`, top-level domain and path") and as a deterministic test (`BodyMatch`:
    the first `/` ends the host, the host's last `.` starts the top-level
    domain). The two are proved equal.
  - The `m` flag is modelled: a pattern matches a reference when it accepts
    one of its lines, the lines being separated by the ECMAScript line
    terminators. This is proved equal to the regex reading, in which `^` and
    `$` may match next to a line terminator. On a single-line reference each
    pattern is tested against the whole string.
- `Parser` (`parser.dfy`) models `detectURL`, the base-URL adjustment and
  `fixUrl`. The callbacks become results: `Result.Ok` is `callback(null,
  value)` and `Result.Err` is `callback(Error(message), null)`.
- `ParserExamples` (`parser_examples.dfy`) proves the input/output pairs of
  `tests/parser.js` about the model, and a few edge cases.

The classification is proved both as a precedence statement over the four
pattern tests (`DetectUrlOrder`) and as shape lemmas:
- `http://` or `https://` followed by a body is a full URL;
- `//` followed by a body is scheme-relative;
- a bare body is a resource name exactly when its last `.` segment is `js` or
  `css`;
- `/` followed by path characters is root-relative unless it is `//` followed
  by a body;
- the empty reference is root-relative;
- a non-empty single-line reference with no `.` that does not start with `/`
  is rejected.

A body is never taken for a full or scheme-relative URL, so on one line the
first three patterns exclude each other.

For `fixUrl`, the model proves:
- the base comes first in every rewritten relative reference;
- the base is never consulted for the other shapes;
- a single-line `double_slash_url` or `httpless_url` reference comes out as
  a full URL whatever the base, so a second rewrite changes nothing;
- against a single-line full URL as base, a single-line root-relative path or
  resource name comes out as a full URL too, as the doc comment at
  `api/controllers/parser.js:75` promises;
- for a single-line resource name `name`, `/name` and `name` resolve to the
  same URL;
- the empty reference resolves to the adjusted base.

These statements need the reference to be on one line. Under the `m` flag a
pattern matches when any one line matches, so `x` followed by a line feed and
`//google.com` is scheme-relative; `fixUrl` prefixes `http:` to the whole
string, and the result is scheme-relative again, not a full URL. In general a
first line that no pattern accepts, such as `x` or `.com`, is skipped, and
`http:` in front of it never makes it a full URL
(`Parser.DetectAfterRejectedLine`, `Parser.FixUrlTwoLineReference`,
`ParserExamples.FixTwoLineReference`, `ParserExamples.DetectAfterDotCom`).

## Behaviour of the code worth knowing

- The scheme-less shapes always get `http`, even when the base uses `https`.
  Relative references keep the base's scheme, because they are appended to
  the base.
- Only the endings `js` and `css` make a resource name, so `index.html` is an
  `httpless_url` (`ParserExamples.DetectHtmlPage`).
- `slash_resource_name` needs no file name or extension: it accepts the empty
  string, `/` and any `/` followed by path characters
  (`Parser.FixUrlEmptyReference`, `ParserExamples.DetectRoot`,
  `Parser.DetectRootPath`).
- `httpless_url` is tested before `slash_resource_name`, and `resource_name`
  is split off inside the `httpless_url` branch.
- The base gets no scheme. A `/` is appended only when its last character is
  not one, so a base ending in `//` keeps both. An empty base becomes `/`,
  because its last character is `undefined`.
- The test at `tests/parser.js:47-49` expects `example.org/script.js` to
  become `http://example.org/script.js`. The code gives
  `http://example.org/example.org/script.js`, as the note at
  `api/controllers/parser.js:4` admits. The model gives what the code computes
  (`ParserExamples.FixHostWithScriptPath`).

## Model

| member | source | states |
|---|---|---|
| JsString.Split | api/controllers/parser.js:58 | `split` yields at least one piece, and no piece holds a separator |
| JsString.JoinSplit | api/controllers/parser.js:58 | joining the pieces of a split on the same character gives the string back |
| JsString.LastSegment | api/controllers/parser.js:58 | `url.split(".")[length - 1]` is the `.`-free suffix that follows the last `.`, or the whole string when it has no `.` |
| JsString.LastSegmentIff | api/controllers/parser.js:58 | the last segment is exactly the one string that `IsLastSegment` describes, in both directions |
| UrlTypes.BodyMatchIffLang | api/controllers/parser.js:29-33 | the deterministic body test accepts exactly the strings for which a backtracking split into `www.`, host, `.`, top-level domain and path exists |
| UrlTypes.NoDotNoBody | api/controllers/parser.js:29-33 | a string without `.` is never a body |
| UrlTypes.SlashNoBody | api/controllers/parser.js:29-33 | a string starting with `/` is never a body |
| UrlTypes.BodyNotAfter | api/controllers/parser.js:29-33 | no body begins with a prefix that has a `/` and no `.`, such as `http://`, `https://` or `//` |
| UrlTypes.LineMatchesIsSingleLine | api/controllers/parser.js:29-35 | every string that a pattern accepts between `^` and `$` is free of line terminators |
| UrlTypes.SingleLineLines | api/controllers/parser.js:29-35 | a string without line terminators is its own only line |
| UrlTypes.SomeLineIffAnchoredTest | api/controllers/parser.js:29-35 | for a test that only accepts single-line text, "some line passes" equals "some substring bounded by line starts and ends passes" |
| UrlTypes.MatchesIffRegexTest | api/controllers/parser.js:29-35 | `url.match(pattern)` with `gm` succeeds exactly when the pattern accepts a substring that starts at the beginning or after a line terminator and ends at the end or before one |
| UrlTypes.SingleLineMatches | api/controllers/parser.js:29-35 | on a single-line reference a pattern matches exactly when it accepts the whole reference |
| Parser.DetectUrlOrder | api/controllers/parser.js:49-72 | each of the five tags, and the error, holds exactly when its pattern matches and every earlier one does not; `resource_name` exactly when the last `.` segment is `js` or `css`; the error message is `Strange URL: ` and the reference |
| Parser.DetectSingleLine | api/controllers/parser.js:49-72 | on a single-line reference the classification is the same branch chain with each pattern tested against the whole string |
| Parser.DetectSchemeAndBody | api/controllers/parser.js:50-52 | `http://` or `https://` followed by a body is `full_url` |
| Parser.DetectSlashesAndBody | api/controllers/parser.js:53-55 | `//` followed by a body is `double_slash_url` |
| Parser.DetectBody | api/controllers/parser.js:56-64 | a body is never `full_url` or `double_slash_url`; it is `resource_name` if its last `.` segment is `js` or `css` and `httpless_url` otherwise |
| Parser.DetectRootPath | api/controllers/parser.js:66-68 | `/` followed by path characters is `double_slash_url` when it is `//` followed by a body, and `slash_resource_name` otherwise |
| Parser.DetectDotlessPath | api/controllers/parser.js:66-68 | `/` followed by path characters without `.` is always `slash_resource_name` |
| Parser.DetectNoDotNoSlash | api/controllers/parser.js:69-71 | a non-empty single-line reference with no `.` that does not start with `/` is the error `Strange URL: ` and the reference |
| Parser.WithTrailingSlash | api/controllers/parser.js:87-89 | the adjusted base ends in `/` and extends the base by at most one character; it equals the base exactly when the base already ends in `/` |
| Parser.FixUrl | api/controllers/parser.js:86-132 | fixUrl with a `return` after the error callback fails exactly when classification fails, with the classification's message; a full URL is kept, `double_slash_url` gets `http:` in front and `httpless_url` gets `http://` |
| Parser.FixUrlCallbacks | api/controllers/parser.js:91-94 | as written, fixUrl calls back once on success and twice on a classification error: first that error, then `Strange Resource URL: '…'` |
| Parser.FixUrlKeepsBase | api/controllers/parser.js:112-121 | a rewritten root-relative path or resource name starts with the adjusted base |
| Parser.FixUrlResourceName | api/controllers/parser.js:117-121 | a resource name is appended to the adjusted base |
| Parser.FixUrlSlashResource | api/controllers/parser.js:112-115 | a single-line root-relative path replaces the base's trailing `/` with its own, and the empty reference gives the adjusted base |
| Parser.FixUrlIgnoresBase | api/controllers/parser.js:98-110 | for every shape except the two relative ones, and for failures, the result does not depend on the base |
| Parser.FixUrlGivesFullUrl | api/controllers/parser.js:98-110 | a single-line full, scheme-relative or host-like reference is rewritten into a `full_url`, which a second rewrite against any base leaves unchanged |
| Parser.FixUrlRootedName | api/controllers/parser.js:112-121 | a single-line resource name with a `/` in front is root-relative, and both resolve to the same URL |
| Parser.FixUrlEmptyReference | api/controllers/parser.js:112-115 | the empty reference is `slash_resource_name` and resolves to the adjusted base |
| Parser.FixUrlRelativeGivesFullUrl | api/controllers/parser.js:75-121 | against a single-line `full_url` base, a single-line root-relative path or resource name is rewritten into a `full_url` |
| Parser.DetectAfterRejectedLine | api/controllers/parser.js:49-72 | a first line that no pattern accepts, a line feed and a single-line rest are classified as the rest is; only the error message quotes the whole reference |
| Parser.FixUrlTwoLineReference | api/controllers/parser.js:102-105 | a first line that no pattern accepts, before a scheme-relative line, is scheme-relative; `http:` goes in front of the whole string and the result is still scheme-relative |
| ParserExamples.DetectFullUrl | tests/parser.js:9-11 | `https://google.com` is `full_url` |
| ParserExamples.DetectDoubleSlashUrl | tests/parser.js:13-15 | `//google.com` is `double_slash_url` |
| ParserExamples.DetectHttplessUrl | tests/parser.js:17-19 | `google.com` is `httpless_url` |
| ParserExamples.DetectSlashResourceName | tests/parser.js:21-23 | `/script.js` is `slash_resource_name` |
| ParserExamples.DetectResourceName | tests/parser.js:25-27 | `script.js` is `resource_name` |
| ParserExamples.DetectBadUrl | tests/parser.js:29-35 | `badurl` is the error `Strange URL: badurl` |
| ParserExamples.FixFullUrl | tests/parser.js:39-41 | `http://example.org/script.js` is kept as it is |
| ParserExamples.FixDoubleSlashUrl | tests/parser.js:43-45 | `//example.org/script.js` becomes `http://example.org/script.js` |
| ParserExamples.FixHostWithScriptPath | tests/parser.js:47-49 | `example.org/script.js` is `resource_name` and becomes `http://example.org/example.org/script.js`, not the URL the test expects |
| ParserExamples.FixSlashResourceName | tests/parser.js:51-53 | `/script.js` against `http://example.org` becomes `http://example.org/script.js` |
| ParserExamples.FixResourceName | tests/parser.js:55-57 | `script.js` against `http://example.org` becomes `http://example.org/script.js` |
| ParserExamples.FixBadUrl | tests/parser.js:59-65 | `scriptjs` makes the callback run twice, with `Strange URL: scriptjs` and then `Strange Resource URL: 'scriptjs'` |
| ParserExamples.DetectHtmlPage | api/controllers/parser.js:58-64 | `index.html` is `httpless_url`: `html` is not a resource ending |
| ParserExamples.DetectRoot | api/controllers/parser.js:35 | `/` alone is `slash_resource_name` |
| ParserExamples.DetectDoubleSlashPath | api/controllers/parser.js:31-35 | `//scripts` has no host, so it is `slash_resource_name` and not `double_slash_url` |
| ParserExamples.FixTwoLineReference | api/controllers/parser.js:102-105 | `x`, a line feed and `//google.com` is `double_slash_url`, becomes `http:` followed by it, and that is `double_slash_url` again |
| ParserExamples.DetectAfterDotCom | api/controllers/parser.js:29-35 | `.com` has a `.` yet no pattern accepts it, so `.com`, a line feed and `//google.com` is `double_slash_url` |

## Left out

- `getDocument`, `getResource` and `parser` (`api/controllers/parser.js:139-207`) are left out. They fetch pages over the network, parse and serialise the DOM through foreign libraries, and work through callbacks.
- `flattenElements` (`api/controllers/parser.js:178`) is an empty stub, so it has no behaviour to model.
- The `just_resource` pattern (`api/controllers/parser.js:37`) is not modelled: no function uses it.
- The `g` flag is not modelled: `String.prototype.match` with a global pattern starts from the beginning on every call, so the flag keeps no state between calls.
- The `console.log` and `debug` output is not modelled.
- The router, the renderer and the server start-up (`api/routes.js`, `api/controllers/renderer.js`, `server.js`) are not part of this model.
- Strings are sequences of Unicode characters, not UTF-16 code units. Every pattern, separator and line terminator involved is a single code unit, so the classification is unaffected. One rewrite differs: `resource_url.slice(1, …)` at `api/controllers/parser.js:114` removes one code unit, so for a multi-line root-relative reference whose first character lies outside the Basic Multilingual Plane the code leaves half a surrogate pair where the model removes the whole character.
- The callbacks are modelled as the list of outcomes they receive (`FixUrlCallbacks`), not as calls into caller code.
- The test-case examples are stated on references written as a prefix joined to a body (`"//" + "google.com"`). The two forms denote the same string.

## Findings

| source | as written | input that shows it | evidently intended | confidence | as-written member | corrected member |
|---|---|---|---|---|---|---|
| api/controllers/parser.js:91-94 | after `callback(err, null)` there is no `return`, so the error branch falls through to the `url_type` chain; `res` is `null` there, which reaches the last `else` | `fixUrl("scriptjs", "https://example.org", cb)` calls `cb` with `Strange URL: scriptjs` and then with `Strange Resource URL: 'scriptjs'` | one callback with the classification error | not executed | Parser.FixUrlCallbacks, ParserExamples.FixBadUrl | Parser.FixUrl |
