/**
 * The few JavaScript string built-ins the URL classifier relies on, over
 * `seq<char>`: searching for the first separator, `String.prototype.split`
 * with a one-character separator, and the last segment of such a split.
 */
module JsString {

  /** Position of the first character of `s` that is in `seps`, or `|s|` when none is. */
  function FirstIndexIn(s: seq<char>, seps: set<char>): (k: nat)
    ensures k <= |s|
    ensures forall i :: 0 <= i < k ==> s[i] !in seps
    ensures k < |s| ==> s[k] in seps
  {
    if |s| == 0 || s[0] in seps then 0 else 1 + FirstIndexIn(s[1..], seps)
  }

  /** The three facts of FirstIndexIn's contract pin the position down. */
  lemma FirstIndexInIsUnique(s: seq<char>, seps: set<char>, k: nat)
    requires k <= |s|
    requires forall i :: 0 <= i < k ==> s[i] !in seps
    requires k < |s| ==> s[k] in seps
    ensures FirstIndexIn(s, seps) == k
  {
  }

  /** No character of `s` is in `seps`. */
  predicate Avoids(s: seq<char>, seps: set<char>)
  {
    forall i :: 0 <= i < |s| ==> s[i] !in seps
  }

  /**
   * `s.split(sep)` in JavaScript, generalised to a set of one-character
   * separators: the maximal separator-free pieces of `s`, in order. An empty
   * string splits into one empty piece, and a separator at either end gives
   * an empty piece there.
   */
  function Split(s: seq<char>, seps: set<char>): (parts: seq<seq<char>>)
    ensures |parts| >= 1
    ensures forall n :: 0 <= n < |parts| ==> Avoids(parts[n], seps)
    decreases |s|
  {
    var k := FirstIndexIn(s, seps);
    if k == |s| then [s] else [s[..k]] + Split(s[k + 1..], seps)
  }

  /** How Split cuts off its first piece, `k` being the first separator. */
  lemma SplitUnfold(s: seq<char>, seps: set<char>, k: nat)
    requires k == FirstIndexIn(s, seps)
    ensures k == |s| ==> Split(s, seps) == [s]
    ensures k < |s| ==> Split(s, seps) == [s[..k]] + Split(s[k + 1..], seps)
  {
  }

  /** `parts.join(sep)` in JavaScript. */
  function Join(parts: seq<seq<char>>, sep: char): seq<char>
  {
    if |parts| == 0 then []
    else if |parts| == 1 then parts[0]
    else parts[0] + [sep] + Join(parts[1..], sep)
  }

  /** Splitting on one character and joining on it again gives back the string. */
  lemma {:induction false} JoinSplit(s: seq<char>, sep: char)
    ensures Join(Split(s, {sep}), sep) == s
    decreases |s|
  {
    var k := FirstIndexIn(s, {sep});
    if k < |s| {
      var rest := Split(s[k + 1..], {sep});
      JoinSplit(s[k + 1..], sep);
      assert Split(s, {sep}) == [s[..k]] + rest;
      assert ([s[..k]] + rest)[1..] == rest;
      assert s == s[..k] + [sep] + s[k + 1..];
    }
  }

  /**
   * `e` is what follows the last `sep` of `s`, or all of `s` when it holds no
   * `sep`: a suffix of `s` without `sep`, preceded in `s` by `sep` unless it
   * is the whole string.
   */
  predicate IsLastSegment(s: seq<char>, sep: char, e: seq<char>)
  {
    && |e| <= |s|
    && s[|s| - |e|..] == e
    && sep !in e
    && (|e| == |s| || s[|s| - |e| - 1] == sep)
  }

  /** A last segment of the text after a separator is a last segment of the whole. */
  lemma LastSegmentOfTail(s: seq<char>, sep: char, k: nat, e: seq<char>)
    requires k < |s| && s[k] == sep
    requires IsLastSegment(s[k + 1..], sep, e)
    ensures IsLastSegment(s, sep, e)
  {
    var t := s[k + 1..];
    assert s[|s| - |e|..] == t[|t| - |e|..];
    if |e| < |t| {
      assert s[|s| - |e| - 1] == t[|t| - |e| - 1];
    }
  }

  lemma {:induction false} SplitLastIsLastSegment(s: seq<char>, sep: char)
    ensures var parts := Split(s, {sep}); IsLastSegment(s, sep, parts[|parts| - 1])
    decreases |s|
  {
    var k := FirstIndexIn(s, {sep});
    if k < |s| {
      var rest := Split(s[k + 1..], {sep});
      SplitLastIsLastSegment(s[k + 1..], sep);
      assert Split(s, {sep}) == [s[..k]] + rest;
      LastSegmentOfTail(s, sep, k, rest[|rest| - 1]);
    } else {
      assert Split(s, {sep}) == [s];
    }
  }

  /** At most one string is the last segment of `s`. */
  lemma LastSegmentIsUnique(s: seq<char>, sep: char, e1: seq<char>, e2: seq<char>)
    requires IsLastSegment(s, sep, e1) && IsLastSegment(s, sep, e2)
    ensures e1 == e2
  {
    assert forall i :: |s| - |e1| <= i < |s| ==> s[i] == e1[i - (|s| - |e1|)];
    assert forall i :: |s| - |e2| <= i < |s| ==> s[i] == e2[i - (|s| - |e2|)];
  }

  /** `s.split(sep)[s.split(sep).length - 1]` in JavaScript. */
  function LastSegment(s: seq<char>, sep: char): (e: seq<char>)
    ensures IsLastSegment(s, sep, e)
  {
    SplitLastIsLastSegment(s, sep);
    var parts := Split(s, {sep});
    parts[|parts| - 1]
  }

  /** LastSegment returns exactly the string that IsLastSegment describes. */
  lemma LastSegmentIff(s: seq<char>, sep: char, e: seq<char>)
    ensures LastSegment(s, sep) == e <==> IsLastSegment(s, sep, e)
  {
    if IsLastSegment(s, sep, e) {
      LastSegmentIsUnique(s, sep, LastSegment(s, sep), e);
    }
  }

  /** Text before a string that holds `sep` does not change its last segment. */
  lemma LastSegmentAfterPrefix(p: seq<char>, c: seq<char>, sep: char)
    requires sep in c
    ensures LastSegment(p + c, sep) == LastSegment(c, sep)
  {
    var e := LastSegment(c, sep);
    var s := p + c;
    assert forall i :: |c| - |e| <= i < |c| ==> c[i] == e[i - (|c| - |e|)];
    assert |e| < |c|;
    assert s[|s| - |e|..] == c[|c| - |e|..];
    assert s[|s| - |e| - 1] == c[|c| - |e| - 1];
    LastSegmentIff(s, sep, e);
  }
}
