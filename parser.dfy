/**
 * `detectURL` and `fixUrl`: classifying a resource reference found in a
 * page and rewriting it into an absolute URL against the page's base URL.
 * Both deliver their outcome through a Node-style callback; here an outcome
 * is a Result, and FixUrlCallbacks gives the whole list of callback
 * invocations that `fixUrl` makes.
 */
module Parser {
  import opened JsString
  import opened UrlTypes

  /** The strings detectURL hands to its callback. */
  datatype UrlType = FullUrl | DoubleSlashUrl | HttplessUrl | SlashResourceName | ResourceName

  /** One callback invocation: `callback(null, value)` or `callback(Error(message), null)`. */
  datatype Result<T> = Ok(value: T) | Err(message: string)

  datatype Option<T> = None | Some(value: T)

  /** The endings that turn a host-like reference into a resource name. */
  predicate IsResourceEnding(e: string)
  {
    e in ["js", "css"]
  }

  /** The outcome of `detectURL(url, callback)`. */
  function DetectUrl(url: string): Result<UrlType>
  {
    if Matches(FullUrlPattern, url) then Ok(FullUrl)
    else if Matches(DoubleSlashPattern, url) then Ok(DoubleSlashUrl)
    else if Matches(HttplessPattern, url) then
      if IsResourceEnding(LastSegment(url, '.')) then Ok(ResourceName) else Ok(HttplessUrl)
    else if Matches(SlashResourcePattern, url) then Ok(SlashResourceName)
    else Err("Strange URL: " + url)
  }

  /**
   * detectURL tries the patterns in the order full_url, double_slash_url,
   * httpless_url, slash_resource_name, the first that matches deciding; a
   * reference matching httpless_url whose last `.`-segment is `js` or `css`
   * is a resource name; a reference matching none is an error.
   */
  lemma DetectUrlOrder(url: string)
    ensures var r := DetectUrl(url);
      && (r == Ok(FullUrl) <==> RegexTest(FullUrlPattern, url))
      && (r == Ok(DoubleSlashUrl) <==>
        !RegexTest(FullUrlPattern, url) && RegexTest(DoubleSlashPattern, url))
      && (r == Ok(ResourceName) <==>
        && !RegexTest(FullUrlPattern, url) && !RegexTest(DoubleSlashPattern, url)
        && RegexTest(HttplessPattern, url)
        && (IsLastSegment(url, '.', "js") || IsLastSegment(url, '.', "css")))
      && (r == Ok(HttplessUrl) <==>
        && !RegexTest(FullUrlPattern, url) && !RegexTest(DoubleSlashPattern, url)
        && RegexTest(HttplessPattern, url)
        && !IsLastSegment(url, '.', "js") && !IsLastSegment(url, '.', "css"))
      && (r == Ok(SlashResourceName) <==>
        && !RegexTest(FullUrlPattern, url) && !RegexTest(DoubleSlashPattern, url)
        && !RegexTest(HttplessPattern, url) && RegexTest(SlashResourcePattern, url))
      && (r.Err? <==>
        && !RegexTest(FullUrlPattern, url) && !RegexTest(DoubleSlashPattern, url)
        && !RegexTest(HttplessPattern, url) && !RegexTest(SlashResourcePattern, url))
      && (r.Err? ==> r.message == "Strange URL: " + url)
  {
    MatchesIffRegexTest(FullUrlPattern, url);
    MatchesIffRegexTest(DoubleSlashPattern, url);
    MatchesIffRegexTest(HttplessPattern, url);
    MatchesIffRegexTest(SlashResourcePattern, url);
    LastSegmentIff(url, '.', "js");
    LastSegmentIff(url, '.', "css");
  }

  /**
   * The base URL as fixUrl uses it: a `/` is appended unless the last
   * character already is one. An empty base becomes `/`, because its last
   * character is `undefined`, which differs from `"/"`.
   */
  function WithTrailingSlash(base: string): (b: string)
    ensures |b| > 0 && b[|b| - 1] == '/'
    ensures |base| <= |b| <= |base| + 1 && b[..|base|] == base
    ensures b == base <==> (|base| > 0 && base[|base| - 1] == '/')
  {
    if |base| == 0 || base[|base| - 1] != '/' then base + "/" else base
  }

  /**
   * The branch chain of fixUrl's callback on `url_type`, for the reference
   * `ref` and the slash-terminated base `b`. `None` is the `null` that
   * detectURL passes on failure.
   */
  function Rewrite(urlType: Option<UrlType>, ref: string, b: string): Result<string>
  {
    match urlType
    case Some(FullUrl) => Ok(ref)
    case Some(DoubleSlashUrl) => Ok("http:" + ref)
    case Some(HttplessUrl) => Ok("http://" + ref)
    case Some(SlashResourceName) => Ok(b + (if |ref| == 0 then [] else ref[1..]))
    case Some(ResourceName) => Ok(b + ref)
    case None => Err("Strange Resource URL: '" + ref + "'")
  }

  /**
   * Every callback invocation of `fixUrl(ref, base, callback)`, in order. On
   * a classification error the callback receives that error and then, since
   * nothing returns after it, the "Strange Resource URL" error as well.
   */
  function FixUrlCallbacks(ref: string, base: string): (calls: seq<Result<string>>)
    ensures |calls| == if DetectUrl(ref).Err? then 2 else 1
    ensures calls[0] == FixUrl(ref, base)
    ensures DetectUrl(ref).Err? ==> calls[1] == Err("Strange Resource URL: '" + ref + "'")
  {
    var b := WithTrailingSlash(base);
    match DetectUrl(ref)
    case Err(e) => [Err(e), Rewrite(None, ref, b)]
    case Ok(t) => [Rewrite(Some(t), ref, b)]
  }

  /**
   * The outcome of fixUrl with a `return` after the error callback: one
   * callback per call.
   */
  function FixUrl(ref: string, base: string): (r: Result<string>)
    ensures r.Err? <==> DetectUrl(ref).Err?
    ensures r.Err? ==> r.message == "Strange URL: " + ref
    ensures DetectUrl(ref) == Ok(FullUrl) ==> r == Ok(ref)
    ensures DetectUrl(ref) == Ok(DoubleSlashUrl) ==> r == Ok("http:" + ref)
    ensures DetectUrl(ref) == Ok(HttplessUrl) ==> r == Ok("http://" + ref)
  {
    match DetectUrl(ref)
    case Err(e) => Err(e)
    case Ok(t) => Rewrite(Some(t), ref, WithTrailingSlash(base))
  }

  /**
   * Relative references are appended to the slash-terminated base, so the
   * base always comes first in the result.
   */
  lemma FixUrlKeepsBase(ref: string, base: string)
    requires DetectUrl(ref) in {Ok(SlashResourceName), Ok(ResourceName)}
    ensures var b := WithTrailingSlash(base); var r := FixUrl(ref, base);
      r.Ok? && |b| <= |r.value| && r.value[..|b|] == b
  {
  }

  /** A resource name is appended to the base after its trailing slash. */
  lemma FixUrlResourceName(ref: string, base: string)
    requires DetectUrl(ref) == Ok(ResourceName)
    ensures FixUrl(ref, base) == Ok(WithTrailingSlash(base) + ref)
  {
  }

  /**
   * A single-line root-relative reference is empty or starts with `/`; its
   * own `/` takes the place of the base's trailing one, so exactly one `/`
   * joins them.
   */
  lemma FixUrlSlashResource(ref: string, base: string)
    requires IsSingleLine(ref) && DetectUrl(ref) == Ok(SlashResourceName)
    ensures var b := WithTrailingSlash(base);
      FixUrl(ref, base) == Ok(if ref == [] then b else b[..|b| - 1] + ref)
  {
    RootRelativeShape(ref);
    FixUrlDropsLeadingChar(ref, base);
    var b := WithTrailingSlash(base);
    if ref != [] {
      JoinAtSlash(b, ref);
    } else {
      assert b + [] == b;
    }
  }

  lemma RootRelativeShape(ref: string)
    requires IsSingleLine(ref) && DetectUrl(ref) == Ok(SlashResourceName)
    ensures ref == [] || ref[0] == '/'
  {
    assert Matches(SlashResourcePattern, ref);
    SingleLineMatches(SlashResourcePattern, ref);
  }

  lemma FixUrlDropsLeadingChar(ref: string, base: string)
    requires DetectUrl(ref) == Ok(SlashResourceName)
    ensures FixUrl(ref, base) == Ok(WithTrailingSlash(base) + if ref == [] then [] else ref[1..])
  {
  }

  lemma JoinAtSlash(b: string, ref: string)
    requires |b| > 0 && b[|b| - 1] == '/' && |ref| > 0 && ref[0] == '/'
    ensures b[..|b| - 1] + ref == b + ref[1..]
  {
    assert ref == [ref[0]] + ref[1..];
    assert b == b[..|b| - 1] + [ref[0]];
  }

  /**
   * On a single-line reference the `m` flag plays no part: each pattern is
   * tested against the whole reference.
   */
  lemma DetectSingleLine(url: string)
    requires IsSingleLine(url)
    ensures DetectUrl(url) ==
      if LineMatches(FullUrlPattern, url) then Ok(FullUrl)
      else if LineMatches(DoubleSlashPattern, url) then Ok(DoubleSlashUrl)
      else if LineMatches(HttplessPattern, url) then
        if IsResourceEnding(LastSegment(url, '.')) then Ok(ResourceName) else Ok(HttplessUrl)
      else if LineMatches(SlashResourcePattern, url) then Ok(SlashResourceName)
      else Err("Strange URL: " + url)
  {
    SingleLineMatches(FullUrlPattern, url);
    SingleLineMatches(DoubleSlashPattern, url);
    SingleLineMatches(HttplessPattern, url);
    SingleLineMatches(SlashResourcePattern, url);
  }


  // Classification by shape. A body is the part that the three URL patterns
  // share after their scheme or `//`.

  /** `http://` or `https://` followed by a body is a full URL. */
  lemma DetectSchemeAndBody(scheme: string, body: string)
    requires scheme == "http://" || scheme == "https://"
    requires BodyLang(body)
    ensures DetectUrl(scheme + body) == Ok(FullUrl)
  {
    var url := scheme + body;
    BodyMatchIffLang(body);
    assert url[..|scheme|] == scheme && url[|scheme|..] == body;
    assert LineMatches(FullUrlPattern, url);
    LineMatchesIsSingleLine(FullUrlPattern, url);
    DetectSingleLine(url);
  }

  /** `//` followed by a body is a scheme-relative URL. */
  lemma DetectSlashesAndBody(body: string)
    requires BodyLang(body)
    ensures IsSingleLine("//" + body)
    ensures DetectUrl("//" + body) == Ok(DoubleSlashUrl)
  {
    var url := "//" + body;
    BodyMatchIffLang(body);
    assert url[..2] == "//" && url[2..] == body;
    assert LineMatches(DoubleSlashPattern, url);
    LineMatchesIsSingleLine(DoubleSlashPattern, url);
    assert !LineMatches(FullUrlPattern, url) by {
      if |url| >= 7 {
        assert url[..7][0] != "http://"[0];
      }
      if |url| >= 8 {
        assert url[..8][0] != "https://"[0];
      }
    }
    DetectSingleLine(url);
  }

  /**
   * A bare body is never taken for a full or scheme-relative URL; its last
   * `.`-segment alone decides between a page on a host and a resource name.
   */
  lemma DetectBody(body: string, ending: string)
    requires BodyLang(body) && IsLastSegment(body, '.', ending)
    ensures DetectUrl(body) == if IsResourceEnding(ending) then Ok(ResourceName) else Ok(HttplessUrl)
  {
    BodyMatchIffLang(body);
    BodyNotAfter(body, "http://");
    BodyNotAfter(body, "https://");
    BodyNotAfter(body, "//");
    LineMatchesIsSingleLine(HttplessPattern, body);
    LastSegmentIff(body, '.', ending);
    DetectSingleLine(body);
  }

  /**
   * `/` followed by path characters is a root-relative path, unless it is
   * `//` followed by a body.
   */
  lemma DetectRootPath(path: string)
    requires AllPathChars(path)
    ensures DetectUrl("/" + path) ==
      if |path| > 0 && path[0] == '/' && BodyLang(path[1..]) then Ok(DoubleSlashUrl)
      else Ok(SlashResourceName)
  {
    var url := "/" + path;
    assert url[0] == '/' && url[1..] == path;
    assert LineMatches(SlashResourcePattern, url);
    LineMatchesIsSingleLine(SlashResourcePattern, url);
    assert !LineMatches(FullUrlPattern, url) by {
      if |url| >= 7 {
        assert url[..7][0] != "http://"[0];
      }
      if |url| >= 8 {
        assert url[..8][0] != "https://"[0];
      }
    }
    SlashNoBody(url);
    if |path| > 0 && path[0] == '/' {
      assert url[..2] == "//" && url[2..] == path[1..];
      BodyMatchIffLang(path[1..]);
    } else {
      assert |url| < 2 || url[..2][1] != "//"[1];
    }
    DetectSingleLine(url);
  }

  /** Without a `.` there is no host, so `/` and dot-free path characters are root-relative. */
  lemma DetectDotlessPath(path: string)
    requires AllPathChars(path) && '.' !in path
    ensures DetectUrl("/" + path) == Ok(SlashResourceName)
  {
    DetectRootPath(path);
    if |path| > 0 {
      assert '.' !in path[1..];
      NoDotNoBody(path[1..]);
      BodyMatchIffLang(path[1..]);
    }
  }

  /** A non-empty single-line reference without `.` that does not start with `/` is rejected. */
  lemma DetectNoDotNoSlash(url: string)
    requires IsSingleLine(url) && '.' !in url && |url| > 0 && url[0] != '/'
    ensures DetectUrl(url) == Err("Strange URL: " + url)
  {
    RejectedLine(url);
    DetectSingleLine(url);
  }

  /**
   * Under the `m` flag a first line that no pattern accepts is skipped: a
   * reference made of it, a line feed and a single-line rest is classified
   * as the rest is, and only the error message quotes the whole reference.
   */
  lemma DetectAfterRejectedLine(a: string, c: string)
    requires IsSingleLine(a) && Rejected(a)
    requires IsSingleLine(c)
    ensures DetectUrl(a + "\n" + c) ==
      if DetectUrl(c).Err? then Err("Strange URL: " + (a + "\n" + c)) else DetectUrl(c)
  {
    MatchesTwoLines(FullUrlPattern, a, c);
    MatchesTwoLines(DoubleSlashPattern, a, c);
    MatchesTwoLines(HttplessPattern, a, c);
    MatchesTwoLines(SlashResourcePattern, a, c);
    DetectSingleLine(c);
    if BodyMatch(c) {
      BodyHasDot(c);
      assert a + "\n" + c == (a + "\n") + c;
      LastSegmentAfterPrefix(a + "\n", c, '.');
    }
  }

  // Consequences for fixUrl.

  /**
   * The base is consulted only for relative references: full, scheme-relative
   * and host-like references, and failures, come out the same whatever the
   * base.
   */
  lemma FixUrlIgnoresBase(ref: string, base1: string, base2: string)
    requires DetectUrl(ref) !in {Ok(SlashResourceName), Ok(ResourceName)}
    ensures FixUrl(ref, base1) == FixUrl(ref, base2)
  {
  }

  /** `http:` before a scheme-relative reference gives `http://` before its body. */
  lemma HttpColonBeforeSlashes(body: string)
    ensures "http:" + ("//" + body) == "http://" + body
  {
    assert ("http:" + ("//" + body))[..7] == "http://";
    assert ("http:" + ("//" + body))[7..] == body;
  }

  /**
   * A single-line reference that fixUrl rewrites without the base comes out
   * as a full URL, so rewriting the result again, against any base, changes
   * nothing.
   */
  lemma FixUrlGivesFullUrl(ref: string, base: string, base2: string)
    requires IsSingleLine(ref)
    requires DetectUrl(ref) in {Ok(FullUrl), Ok(DoubleSlashUrl), Ok(HttplessUrl)}
    ensures FixUrl(ref, base).Ok?
    ensures DetectUrl(FixUrl(ref, base).value) == Ok(FullUrl)
    ensures FixUrl(FixUrl(ref, base).value, base2) == FixUrl(ref, base)
  {
    DetectSingleLine(ref);
    if DetectUrl(ref) == Ok(DoubleSlashUrl) {
      var body := ref[2..];
      assert ref == "//" + body;
      HttpColonBeforeSlashes(body);
      BodyMatchIffLang(body);
      DetectSchemeAndBody("http://", body);
    } else if DetectUrl(ref) == Ok(HttplessUrl) {
      BodyMatchIffLang(ref);
      DetectSchemeAndBody("http://", ref);
    }
  }

  /**
   * A resource name and the same name after a `/` resolve to the same URL:
   * the `/` takes the place of the base's trailing one.
   */
  lemma FixUrlRootedName(name: string, base: string)
    requires IsSingleLine(name) && DetectUrl(name) == Ok(ResourceName)
    ensures DetectUrl("/" + name) == Ok(SlashResourceName)
    ensures FixUrl("/" + name, base) == FixUrl(name, base)
  {
    DetectSingleLine(name);
    BodyMatchChars(name);
    BodyMatchIffLang(name);
    BodyNotAfter(name, "/");
    assert name[..1] == [name[0]];
    DetectRootPath(name);
    assert ("/" + name)[1..] == name;
  }

  /** The empty reference is a root-relative path and resolves to the adjusted base itself. */
  lemma FixUrlEmptyReference(base: string)
    ensures DetectUrl([]) == Ok(SlashResourceName)
    ensures FixUrl([], base) == Ok(WithTrailingSlash(base))
  {
    DetectSingleLine([]);
    NoDotNoBody([]);
    assert WithTrailingSlash(base) + [] == WithTrailingSlash(base);
  }

  /** A single-line full URL is `http://` or `https://` followed by a body. */
  lemma FullUrlParts(url: string) returns (scheme: string, body: string)
    requires IsSingleLine(url) && DetectUrl(url) == Ok(FullUrl)
    ensures scheme == "http://" || scheme == "https://"
    ensures url == scheme + body && BodyLang(body)
  {
    DetectSingleLine(url);
    if |url| >= 7 && url[..7] == "http://" && BodyMatch(url[7..]) {
      scheme, body := "http://", url[7..];
    } else {
      scheme, body := "https://", url[8..];
    }
    assert url == url[..|scheme|] + body;
    BodyMatchIffLang(body);
  }

  /**
   * A single-line relative reference is rewritten into the adjusted base
   * followed by path characters.
   */
  lemma RelativeRewrite(ref: string, base: string) returns (rest: string)
    requires IsSingleLine(ref)
    requires DetectUrl(ref) in {Ok(SlashResourceName), Ok(ResourceName)}
    ensures AllPathChars(rest)
    ensures FixUrl(ref, base) == Ok(WithTrailingSlash(base) + rest)
  {
    DetectSingleLine(ref);
    if DetectUrl(ref) == Ok(SlashResourceName) {
      assert LineMatches(SlashResourcePattern, ref);
      rest := if ref == [] then [] else ref[1..];
    } else {
      assert LineMatches(HttplessPattern, ref);
      BodyMatchChars(ref);
      rest := ref;
    }
  }

  /** Path characters are closed under concatenation. */
  lemma PathCharsConcat(a: string, b: string)
    requires AllPathChars(a) && AllPathChars(b)
    ensures AllPathChars(a + b)
  {
    assert forall n :: |a| <= n < |a + b| ==> (a + b)[n] == b[n - |a|];
  }

  /** Appending to a body keeps its `www.`, host, `.` and top-level domain. */
  lemma BodyHeadKept(body: string, tail: string, i: int, j: int, k: int)
    requires BodySplit(body, i, j, k)
    ensures var s := body + tail;
      && (i == 0 || s[..4] == "www.")
      && AllHostChars(s[i..j]) && s[j] == '.' && AllLower(s[j + 1..k])
  {
    var s := body + tail;
    assert s[i..j] == body[i..j];
    assert s[j + 1..k] == body[j + 1..k];
    if i == 4 {
      assert s[..4] == body[..4];
    }
  }

  /** Path characters added after a body's path keep the split. */
  lemma BodySplitLongerPath(body: string, tail: string, i: int, j: int, k: int)
    requires BodySplit(body, i, j, k) && k < |body| && AllPathChars(tail)
    ensures BodySplit(body + tail, i, j, k)
  {
    var s := body + tail;
    BodyHeadKept(body, tail, i, j, k);
    assert s[k] == body[k];
    assert s[k + 1..] == body[k + 1..] + tail;
    PathCharsConcat(body[k + 1..], tail);
  }

  /** A path added after a body that ends in its top-level domain keeps the split. */
  lemma BodySplitNewPath(body: string, tail: string, i: int, j: int, k: int)
    requires BodySplit(body, i, j, k) && k == |body|
    requires AllPathChars(tail) && |tail| > 0 && tail[0] == '/'
    ensures BodySplit(body + tail, i, j, k)
  {
    var s := body + tail;
    BodyHeadKept(body, tail, i, j, k);
    assert s[k] == tail[0];
    assert s[k + 1..] == tail[1..];
  }

  /** A body stays a body when path characters starting with `/`, or following one, are added. */
  lemma BodyExtend(body: string, tail: string)
    requires BodyLang(body) && AllPathChars(tail)
    requires (|tail| > 0 && tail[0] == '/') || (|body| > 0 && body[|body| - 1] == '/')
    ensures BodyLang(body + tail)
  {
    var i, j, k :| BodySplit(body, i, j, k);
    if k < |body| {
      BodySplitLongerPath(body, tail, i, j, k);
    } else {
      assert body[k - 1] == body[j + 1..k][k - 1 - (j + 1)];
      BodySplitNewPath(body, tail, i, j, k);
    }
  }

  /** Regrouping a concatenation of four strings. */
  lemma Regroup(a: string, b: string, c: string, d: string)
    ensures a + (b + c) + d == a + (b + (c + d))
  {
  }

  /**
   * The adjusted base of a full URL is its scheme and body followed by the
   * `/` that fixUrl adds, or by nothing when the body already ends in `/`.
   */
  lemma AdjustedFullBase(base: string, scheme: string, body: string) returns (slash: string)
    requires base == scheme + body && BodyLang(body)
    ensures slash == [] || slash == "/"
    ensures WithTrailingSlash(base) == scheme + (body + slash)
    ensures slash == [] ==> |body| > 0 && body[|body| - 1] == '/'
  {
    BodyNotAfter(body, "/");
    assert base[|base| - 1] == body[|body| - 1];
    slash := if body[|body| - 1] == '/' then [] else "/";
    assert body + [] == body;
  }

  /** Path characters after an optional `/` are path characters. */
  lemma PathCharsAfterSlash(slash: string, rest: string)
    requires (slash == [] || slash == "/") && AllPathChars(rest)
    ensures AllPathChars(slash + rest)
  {
    PathCharsConcat(slash, rest);
  }

  /** Path characters appended to the adjusted base of a full URL extend its body. */
  lemma ExtendedBase(base: string, scheme: string, baseBody: string, rest: string) returns (body: string)
    requires base == scheme + baseBody && BodyLang(baseBody) && AllPathChars(rest)
    ensures BodyLang(body) && WithTrailingSlash(base) + rest == scheme + body
  {
    var slash := AdjustedFullBase(base, scheme, baseBody);
    PathCharsAfterSlash(slash, rest);
    BodyExtend(baseBody, slash + rest);
    body := baseBody + (slash + rest);
    Regroup(scheme, baseBody, slash, rest);
  }

  /**
   * Against a single-line full URL as base, a single-line relative reference
   * is rewritten into a full URL as well.
   */
  lemma FixUrlRelativeGivesFullUrl(ref: string, base: string)
    requires IsSingleLine(ref) && IsSingleLine(base) && DetectUrl(base) == Ok(FullUrl)
    requires DetectUrl(ref) in {Ok(SlashResourceName), Ok(ResourceName)}
    ensures FixUrl(ref, base).Ok?
    ensures DetectUrl(FixUrl(ref, base).value) == Ok(FullUrl)
  {
    var scheme, baseBody := FullUrlParts(base);
    var rest := RelativeRewrite(ref, base);
    var body := ExtendedBase(base, scheme, baseBody, rest);
    DetectSchemeAndBody(scheme, body);
  }

  /** Prefixing `http:` keeps a line single-line. */
  lemma HttpColonLine(a: string) returns (h: string)
    requires IsSingleLine(a)
    ensures h == "http:" + a && IsSingleLine(h)
  {
    h := "http:" + a;
    assert IsSingleLine("http:");
    SingleLineConcat("http:", a);
  }

  /** `http:` and a line start with `http://` exactly when the line starts with `//`. */
  lemma HttpColonSlices(a: string)
    requires |a| >= 2
    ensures ("http:" + a)[..7] == "http://" <==> a[..2] == "//"
    ensures ("http:" + a)[7..] == a[2..]
    ensures |a| >= 3 ==> ("http:" + a)[..8] != "https://"
  {
    var x := "http:" + a;
    assert x[..7] == "http:" + a[..2];
    assert x[..7] == "http://" ==> a[..2] == x[..7][5..];
    if |a| >= 3 {
      assert x[..8][4] == ':' && "https://"[4] == 's';
    }
  }

  /**
   * `http:` followed by a line is a full URL only when the line is `//`
   * followed by a body, which `double_slash_url` accepts.
   */
  lemma HttpColonNotFull(a: string)
    requires !LineMatches(DoubleSlashPattern, a)
    ensures !LineMatches(FullUrlPattern, "http:" + a)
  {
    if |a| >= 2 {
      HttpColonSlices(a);
    }
  }

  /** A prefix of a two-line string belongs to its first line. */
  lemma PrefixFirstLine(h: string, a: string, c: string)
    ensures h + (a + "\n" + c) == (h + a) + "\n" + c
  {
  }

  /**
   * A protocol-relative second line after a first line that no pattern
   * accepts makes the whole reference protocol-relative; fixUrl prefixes
   * `http:` to all of it, which cannot make the first line a full URL, so
   * the reference stays protocol-relative.
   */
  lemma FixUrlTwoLineReference(a: string, c: string, base: string)
    requires IsSingleLine(a) && Rejected(a)
    requires IsSingleLine(c) && DetectUrl(c) == Ok(DoubleSlashUrl)
    ensures DetectUrl(a + "\n" + c) == Ok(DoubleSlashUrl)
    ensures FixUrl(a + "\n" + c, base) == Ok("http:" + (a + "\n" + c))
    ensures DetectUrl("http:" + (a + "\n" + c)) == Ok(DoubleSlashUrl)
  {
    DetectAfterRejectedLine(a, c);
    var h := HttpColonLine(a);
    assert !LineMatches(DoubleSlashPattern, a);
    HttpColonNotFull(a);
    DetectSingleLine(c);
    MatchesTwoLines(FullUrlPattern, h, c);
    MatchesTwoLines(DoubleSlashPattern, h, c);
    PrefixFirstLine("http:", a, c);
  }
}
