/**
 * The `url_types` table of regular expressions that classify a resource
 * reference. Every pattern has the shape `^( ... )$` with the flags `g`
 * and `m`. The shared part of the first three patterns, called the body here,
 * is
 *
 *   (?:www\.)? H{2,256} \. [a-z]{2,6} (?:\/(?:P*)?)?
 *
 * where H is the host class `[-a-zA-Z0-9@:%._+~#=]` and P the path class,
 * H together with `?`, `&` and `/`.
 *
 * The body is given two ways: BodyLang says what the backtracking regex
 * accepts (there is a way to cut the string into the five parts), and
 * BodyMatch decides it in one pass (the first `/` ends the host, the last
 * `.` of the host starts the top-level domain). BodyMatchIffLang proves the
 * two agree. The `m` flag makes `^` and `$` match at line breaks, so a
 * string matches a pattern when one of its lines does (MatchesIffRegexTest).
 */
module UrlTypes {
  import opened JsString

  /** `[a-z]`. */
  predicate IsLower(c: char) { 'a' <= c <= 'z' }

  /** `[-a-zA-Z0-9@:%._\+~#=]`, the characters of a host name. */
  predicate IsHostChar(c: char)
  {
    || c == '-' || 'a' <= c <= 'z' || 'A' <= c <= 'Z' || '0' <= c <= '9'
    || c == '@' || c == ':' || c == '%' || c == '.' || c == '_' || c == '+' || c == '~' || c == '#' || c == '='
  }

  /** `[-a-zA-Z0-9@:%_\+.~#?&//=]`, the characters of a path: a host character, `?`, `&` or `/`. */
  predicate IsPathChar(c: char)
  {
    IsHostChar(c) || c == '?' || c == '&' || c == '/'
  }

  predicate AllLower(s: seq<char>) { forall i :: 0 <= i < |s| ==> IsLower(s[i]) }
  predicate AllHostChars(s: seq<char>) { forall i :: 0 <= i < |s| ==> IsHostChar(s[i]) }
  predicate AllPathChars(s: seq<char>) { forall i :: 0 <= i < |s| ==> IsPathChar(s[i]) }

  /**
   * One way the body regex can consume all of `s`: `s[..i]` is the optional
   * `www.`, `s[i..j]` the host run, `s[j]` the dot, `s[j + 1..k]` the
   * top-level domain and `s[k..]` the optional path.
   */
  ghost predicate BodySplit(s: seq<char>, i: int, j: int, k: int)
  {
    && 0 <= i <= j < k <= |s|
    && (i == 0 || (i == 4 && s[..4] == "www."))
    && 2 <= j - i <= 256 && AllHostChars(s[i..j])
    && s[j] == '.'
    && 2 <= k - (j + 1) <= 6 && AllLower(s[j + 1..k])
    && (k == |s| || (s[k] == '/' && AllPathChars(s[k + 1..])))
  }

  /** The body regex accepts `s` when some split fits. */
  ghost predicate BodyLang(s: seq<char>)
  {
    exists i, j, k :: BodySplit(s, i, j, k)
  }

  /** Deterministic decision of the body regex. */
  predicate BodyMatch(s: seq<char>)
  {
    var k := FirstIndexIn(s, {'/'});
    var host := s[..k];
    var tld := LastSegment(host, '.');
    var dot := |host| - |tld| - 1;
    && (k == |s| || AllPathChars(s[k + 1..]))
    && 0 <= dot
    && 2 <= |tld| <= 6 && AllLower(tld)
    && AllHostChars(host[..dot])
    && (2 <= dot <= 256 || (4 <= dot && host[..4] == "www." && 2 <= dot - 4 <= 256))
  }

  lemma BodyMatchSound(s: seq<char>)
    requires BodyMatch(s)
    ensures BodyLang(s)
  {
    var k := FirstIndexIn(s, {'/'});
    var host := s[..k];
    var tld := LastSegment(host, '.');
    var dot := |host| - |tld| - 1;
    var i := if 2 <= dot <= 256 then 0 else 4;
    assert s[dot] == host[dot] == '.';
    assert s[dot + 1..k] == tld;
    assert s[i..dot] == host[..dot][i..];
    assert i == 4 ==> s[..4] == host[..4];
    assert BodySplit(s, i, dot, k);
  }

  /** In a split, the first `/` of `s` is where the path starts. */
  lemma BodySplitPathStart(s: seq<char>, i: int, j: int, k: int)
    requires BodySplit(s, i, j, k)
    ensures FirstIndexIn(s, {'/'}) == k
  {
    forall n | 0 <= n < k
      ensures s[n] !in {'/'}
    {
      if n < i {
        assert s[n] == s[..4][n];
      } else if n < j {
        assert s[n] == s[i..j][n - i];
      } else if j < n {
        assert s[n] == s[j + 1..k][n - (j + 1)];
      }
    }
    FirstIndexInIsUnique(s, {'/'}, k);
  }

  /** In a split, the top-level domain is the last `.`-segment of the host. */
  lemma BodySplitTld(s: seq<char>, i: int, j: int, k: int)
    requires BodySplit(s, i, j, k)
    ensures LastSegment(s[..k], '.') == s[j + 1..k]
  {
    var host, tld := s[..k], s[j + 1..k];
    assert host[|host| - |tld|..] == tld;
    forall n | 0 <= n < |tld| ensures tld[n] != '.' {
      assert IsLower(tld[n]);
    }
    assert host[|host| - |tld| - 1] == s[j];
    LastSegmentIff(host, '.', tld);
  }

  lemma BodyMatchComplete(s: seq<char>, i: int, j: int, k: int)
    requires BodySplit(s, i, j, k)
    ensures BodyMatch(s)
  {
    BodySplitPathStart(s, i, j, k);
    BodySplitTld(s, i, j, k);
    var host := s[..k];
    assert |host| - |s[j + 1..k]| - 1 == j;
    assert AllHostChars(host[..j]) by {
      forall n | 0 <= n < j ensures IsHostChar(host[..j][n]) {
        if n < i {
          assert host[..j][n] == s[..4][n];
        } else {
          assert host[..j][n] == s[i..j][n - i];
        }
      }
    }
    assert i == 4 ==> host[..4] == s[..4];
  }

  /** The deterministic matcher decides exactly the body regex. */
  lemma BodyMatchIffLang(s: seq<char>)
    ensures BodyMatch(s) <==> BodyLang(s)
  {
    if BodyMatch(s) {
      BodyMatchSound(s);
    }
    if BodyLang(s) {
      var i, j, k :| BodySplit(s, i, j, k);
      BodyMatchComplete(s, i, j, k);
    }
  }

  /** Every character the body regex accepts is a path character. */
  lemma BodyMatchChars(s: seq<char>)
    requires BodyMatch(s)
    ensures AllPathChars(s)
  {
    BodyMatchSound(s);
    var i, j, k :| BodySplit(s, i, j, k);
    forall n | 0 <= n < |s| ensures IsPathChar(s[n]) {
      if n < i {
        assert s[n] == s[..4][n];
      } else if n < j {
        assert s[n] == s[i..j][n - i];
      } else if j < n < k {
        assert s[n] == s[j + 1..k][n - (j + 1)];
      } else if k < n {
        assert s[n] == s[k + 1..][n - (k + 1)];
      }
    }
  }

  /** A string without `.` is no body: the host needs `.` before its top-level domain. */
  lemma NoDotNoBody(s: seq<char>)
    requires '.' !in s
    ensures !BodyMatch(s)
  {
    var k := FirstIndexIn(s, {'/'});
    assert '.' !in s[..k];
    LastSegmentIff(s[..k], '.', s[..k]);
  }

  /** A string whose only `.` comes first, and that has no `/`, is no body: its host would be empty. */
  lemma LeadingDotNoBody(s: seq<char>)
    requires |s| > 0 && s[0] == '.' && '.' !in s[1..] && '/' !in s
    ensures !BodyMatch(s)
  {
    FirstIndexInIsUnique(s, {'/'}, |s|);
    LastSegmentIff(s, '.', s[1..]);
  }

  /** A string starting with `/` is no body: its host would be empty. */
  lemma SlashNoBody(s: seq<char>)
    requires |s| > 0 && s[0] == '/'
    ensures !BodyMatch(s)
  {
    assert FirstIndexIn(s, {'/'}) == 0;
    LastSegmentIff([], '.', []);
  }

  /**
   * A body does not begin with a prefix that holds a `/` and no `.`: before
   * the body's first `/` comes the `.` that opens its top-level domain.
   */
  lemma BodyNotAfter(body: seq<char>, pre: seq<char>)
    requires BodyLang(body) && '.' !in pre && '/' in pre
    ensures |body| < |pre| || body[..|pre|] != pre
  {
    var i, j, k :| BodySplit(body, i, j, k);
    if |pre| <= |body| {
      var m :| 0 <= m < |pre| && pre[m] == '/';
      if j < |pre| {
        assert body[..|pre|][j] != pre[j];
      } else {
        assert body[m] != '/' by {
          if m < i {
            assert body[m] == body[..4][m];
          } else {
            assert body[m] == body[i..j][m - i];
          }
        }
        assert body[..|pre|][m] != pre[m];
      }
    }
  }

  /** The four patterns of `url_types` that detectURL tests. */
  datatype Pattern =
    | FullUrlPattern       // https?:\/\/ followed by the body
    | DoubleSlashPattern   // \/\/ followed by the body
    | HttplessPattern      // the body alone
    | SlashResourcePattern // (?:\/(?:P*)?)?

  /** Whether the pattern, anchored by `^` and `$`, accepts the whole of `x`. */
  predicate LineMatches(p: Pattern, x: seq<char>)
  {
    match p
    case FullUrlPattern =>
      (|x| >= 7 && x[..7] == "http://" && BodyMatch(x[7..]))
      || (|x| >= 8 && x[..8] == "https://" && BodyMatch(x[8..]))
    case DoubleSlashPattern => |x| >= 2 && x[..2] == "//" && BodyMatch(x[2..])
    case HttplessPattern => BodyMatch(x)
    case SlashResourcePattern => x == [] || (x[0] == '/' && AllPathChars(x[1..]))
  }

  /** The line terminators of ECMAScript regular expressions: LF, CR, LS and PS. */
  const LineTerminators: set<char> := {'\n', '\r', '\U{2028}', '\U{2029}'}

  /**
   * `s` holds no line terminator: `Avoids(s, LineTerminators)`, with the four
   * members of `LineTerminators` written out so that the predicate has no
   * quantifier and its facts about string literals stay cheap to prove.
   */
  predicate IsSingleLine(s: seq<char>)
  {
    '\n' !in s && '\r' !in s && '\U{2028}' !in s && '\U{2029}' !in s
  }

  /** The written-out form agrees with `Avoids` on the set of terminators. */
  lemma SingleLineAvoids(s: seq<char>)
    ensures IsSingleLine(s) <==> Avoids(s, LineTerminators)
  {
    if !IsSingleLine(s) {
      var t :| t in LineTerminators && t in s;
      var n :| 0 <= n < |s| && s[n] == t;
    }
  }

  /** A path character is never a line terminator. */
  lemma PathCharsAreSingleLine(s: seq<char>)
    requires AllPathChars(s)
    ensures IsSingleLine(s)
  {
  }

  /** A prefix without line terminators before path characters. */
  lemma PrefixedSingleLine(x: seq<char>, n: nat)
    requires n <= |x| && IsSingleLine(x[..n]) && AllPathChars(x[n..])
    ensures IsSingleLine(x)
  {
    PathCharsAreSingleLine(x[n..]);
    assert x == x[..n] + x[n..];
  }

  /** Every string a pattern accepts lies on one line. */
  lemma LineMatchesIsSingleLine(p: Pattern, x: seq<char>)
    requires LineMatches(p, x)
    ensures IsSingleLine(x)
  {
    match p {
      case FullUrlPattern =>
        var n := if |x| >= 7 && x[..7] == "http://" && BodyMatch(x[7..]) then 7 else 8;
        assert x[..n] == "http://" || x[..n] == "https://";
        BodyMatchChars(x[n..]);
        PrefixedSingleLine(x, n);
      case DoubleSlashPattern =>
        assert x[..2] == "//";
        BodyMatchChars(x[2..]);
        PrefixedSingleLine(x, 2);
      case HttplessPattern =>
        BodyMatchChars(x);
        PathCharsAreSingleLine(x);
      case SlashResourcePattern =>
        if x != [] {
          assert x[..1] == [x[0]];
          PrefixedSingleLine(x, 1);
        }
    }
  }

  /** The lines of `s` as the `m` flag sees them. */
  function Lines(s: seq<char>): (lines: seq<seq<char>>)
    ensures |lines| >= 1
  {
    Split(s, LineTerminators)
  }

  /** Two single-line strings joined make a single-line string. */
  lemma SingleLineConcat(x: seq<char>, y: seq<char>)
    requires IsSingleLine(x) && IsSingleLine(y)
    ensures IsSingleLine(x + y)
  {
    assert forall n :: |x| <= n < |x + y| ==> (x + y)[n] == y[n - |x|];
  }

  /** A body holds the `.` that opens its top-level domain. */
  lemma BodyHasDot(s: seq<char>)
    requires BodyMatch(s)
    ensures '.' in s
  {
    BodyMatchIffLang(s);
    var i, j, k :| BodySplit(s, i, j, k);
    assert s[j] == '.';
  }

  /** No pattern accepts the line `x`. */
  predicate Rejected(x: seq<char>)
  {
    forall p: Pattern :: !LineMatches(p, x)
  }

  /** A non-empty line without `.` that does not start with `/` matches no pattern. */
  lemma RejectedLine(a: seq<char>)
    requires '.' !in a && |a| > 0 && a[0] != '/'
    ensures !LineMatches(FullUrlPattern, a) && !LineMatches(DoubleSlashPattern, a)
    ensures !LineMatches(HttplessPattern, a) && !LineMatches(SlashResourcePattern, a)
    ensures Rejected(a)
  {
    NoDotNoBody(a);
    if |a| >= 2 {
      NoDotNoBody(a[2..]);
    }
    if |a| >= 7 {
      NoDotNoBody(a[7..]);
    }
    if |a| >= 8 {
      NoDotNoBody(a[8..]);
    }
  }

  /** Two single-line strings joined by a line feed are two lines. */
  lemma TwoLines(a: seq<char>, c: seq<char>)
    requires IsSingleLine(a) && IsSingleLine(c)
    ensures Lines(a + "\n" + c) == [a, c]
  {
    var s := a + "\n" + c;
    forall n | 0 <= n < |a| ensures s[n] !in LineTerminators {
      assert s[n] == a[n];
    }
    assert s[|a|] == '\n';
    FirstIndexInIsUnique(s, LineTerminators, |a|);
    LinesUnfold(s, |a|);
    assert s[..|a|] == a && s[|a| + 1..] == c;
    SingleLineLines(c);
  }

  /** A pattern matches two single-line strings joined by a line feed when it accepts either. */
  lemma MatchesTwoLines(p: Pattern, a: seq<char>, c: seq<char>)
    requires IsSingleLine(a) && IsSingleLine(c)
    ensures Matches(p, a + "\n" + c) <==> LineMatches(p, a) || LineMatches(p, c)
  {
    TwoLines(a, c);
    assert Lines(a + "\n" + c)[0] == a;
    assert Lines(a + "\n" + c)[1] == c;
  }

  /** A single-line string is its own only line. */
  lemma SingleLineLines(s: seq<char>)
    requires IsSingleLine(s)
    ensures Lines(s) == [s]
  {
    FirstIndexInIsUnique(s, LineTerminators, |s|);
  }

  /** `s.match(url_types[p])` is truthy: some line of `s` matches the pattern. */
  predicate Matches(p: Pattern, s: seq<char>)
  {
    var lines := Lines(s);
    exists n :: 0 <= n < |lines| && LineMatches(p, lines[n])
  }

  /** Under the `m` flag, `^` may stand at `i` and `$` at `j`. */
  ghost predicate Anchored(s: seq<char>, i: int, j: int)
  {
    && 0 <= i <= j <= |s|
    && (i == 0 || s[i - 1] in LineTerminators)
    && (j == |s| || s[j] in LineTerminators)
  }

  /**
   * Under the `m` flag a regex `^(R)$` accepts `s` when `R` accepts the text
   * between some `^` position and some `$` position after it.
   */
  ghost predicate AnchoredTest(accepts: seq<char> -> bool, s: seq<char>)
  {
    exists i, j :: Anchored(s, i, j) && accepts(s[i..j])
  }

  /** Some line of `s`, as Lines cuts it, is accepted. */
  ghost predicate SomeLine(accepts: seq<char> -> bool, s: seq<char>)
  {
    var lines := Lines(s);
    exists n :: 0 <= n < |lines| && accepts(lines[n])
  }

  /** An anchored match after the first line break is an anchored match of the whole text. */
  lemma AnchoredTestOfTail(accepts: seq<char> -> bool, s: seq<char>, f: nat)
    requires f < |s| && s[f] in LineTerminators
    requires AnchoredTest(accepts, s[f + 1..])
    ensures AnchoredTest(accepts, s)
  {
    var t := s[f + 1..];
    var i, j :| Anchored(t, i, j) && accepts(t[i..j]);
    assert t[i..j] == s[i + f + 1..j + f + 1];
    assert Anchored(s, i + f + 1, j + f + 1);
  }

  /** An anchored match that starts after the first line break lies in the text after it. */
  lemma AnchoredTestInTail(accepts: seq<char> -> bool, s: seq<char>, f: nat, i: int, j: int)
    requires f < |s|
    requires forall n :: 0 <= n < f ==> s[n] !in LineTerminators
    requires Anchored(s, i, j) && 0 < i
    requires accepts(s[i..j])
    ensures AnchoredTest(accepts, s[f + 1..])
  {
    var t := s[f + 1..];
    assert f <= i - 1;
    assert Anchored(t, i - f - 1, j - f - 1);
    assert t[i - f - 1..j - f - 1] == s[i..j];
  }

  /** An anchored match of single-line text that starts at 0 is the first line. */
  lemma AnchoredAtStart(s: seq<char>, j: int)
    requires Anchored(s, 0, j) && IsSingleLine(s[..j])
    ensures Lines(s)[0] == s[..j]
  {
    forall n | 0 <= n < j ensures s[n] !in LineTerminators {
      assert s[n] == s[..j][n];
    }
    FirstIndexInIsUnique(s, LineTerminators, j);
    if j < |s| {
      assert Lines(s) == [s[..j]] + Lines(s[j + 1..]);
    } else {
      assert Lines(s) == [s];
    }
  }

  /** How Lines cuts off the first line, `f` being the first line terminator. */
  lemma LinesUnfold(s: seq<char>, f: nat)
    requires f == FirstIndexIn(s, LineTerminators)
    ensures f == |s| ==> Lines(s) == [s]
    ensures f < |s| ==> Lines(s) == [s[..f]] + Lines(s[f + 1..])
  {
    SplitUnfold(s, LineTerminators, f);
  }

  lemma {:induction false} SomeLineIsAnchored(accepts: seq<char> -> bool, s: seq<char>)
    requires SomeLine(accepts, s)
    ensures AnchoredTest(accepts, s)
    decreases |s|
  {
    var f := FirstIndexIn(s, LineTerminators);
    LinesUnfold(s, f);
    var lines := Lines(s);
    var n :| 0 <= n < |lines| && accepts(lines[n]);
    if n == 0 {
      assert Anchored(s, 0, f) && s[0..f] == lines[0];
    } else {
      var t := s[f + 1..];
      assert accepts(Lines(t)[n - 1]);
      SomeLineIsAnchored(accepts, t);
      AnchoredTestOfTail(accepts, s, f);
    }
  }

  lemma {:induction false} AnchoredIsSomeLine(accepts: seq<char> -> bool, s: seq<char>)
    requires forall x :: accepts(x) ==> IsSingleLine(x)
    requires AnchoredTest(accepts, s)
    ensures SomeLine(accepts, s)
    decreases |s|
  {
    var f := FirstIndexIn(s, LineTerminators);
    LinesUnfold(s, f);
    var i, j :| Anchored(s, i, j) && accepts(s[i..j]);
    if i == 0 {
      assert s[..j] == s[i..j];
      AnchoredAtStart(s, j);
    } else {
      assert f < |s|;
      var t := s[f + 1..];
      AnchoredTestInTail(accepts, s, f, i, j);
      AnchoredIsSomeLine(accepts, t);
      var n :| 0 <= n < |Lines(t)| && accepts(Lines(t)[n]);
      assert Lines(s)[n + 1] == Lines(t)[n];
    }
  }

  /**
   * For a line predicate that only accepts single-line text, testing the
   * lines one by one agrees with the anchored semantics.
   */
  lemma SomeLineIffAnchoredTest(accepts: seq<char> -> bool, s: seq<char>)
    requires forall x :: accepts(x) ==> IsSingleLine(x)
    ensures SomeLine(accepts, s) <==> AnchoredTest(accepts, s)
  {
    if SomeLine(accepts, s) {
      SomeLineIsAnchored(accepts, s);
    }
    if AnchoredTest(accepts, s) {
      AnchoredIsSomeLine(accepts, s);
    }
  }

  /** Whether `s.match(pattern)` finds a match, the pattern's flags including `m`. */
  ghost predicate RegexTest(p: Pattern, s: seq<char>)
  {
    AnchoredTest(x => LineMatches(p, x), s)
  }

  /** Testing the lines one by one agrees with the anchored regex semantics. */
  lemma MatchesIffRegexTest(p: Pattern, s: seq<char>)
    ensures Matches(p, s) <==> RegexTest(p, s)
  {
    forall x | LineMatches(p, x) ensures IsSingleLine(x) {
      LineMatchesIsSingleLine(p, x);
    }
    SomeLineIffAnchoredTest(x => LineMatches(p, x), s);
  }

  /** On a single-line string the `m` flag changes nothing. */
  lemma SingleLineMatches(p: Pattern, s: seq<char>)
    requires IsSingleLine(s)
    ensures Matches(p, s) <==> LineMatches(p, s)
  {
    SingleLineLines(s);
    assert Lines(s)[0] == s;
  }
}
