/**
 * The placeholder scan that `CommandListener.onCommand` runs over a command
 * line: a find-all loop of the Java regular expression `<.*?>`.
 *
 * Java's `Matcher.find` looks for the leftmost position at or after the end of
 * the previous match where the pattern matches. The lazy `.*?` makes a match
 * that begins at `<` end at the first `>` after it; `.` (no DOTALL flag) does
 * not match a line terminator, so a line terminator before that `>` makes the
 * attempt at this `<` fail and the scan moves one character on. Because every
 * match is at least two characters long, empty matches never arise.
 *
 * The helper that runs the loop is not part of this model; its result list is
 * taken to hold the matched substrings in match order.
 */
module Placeholders {
  import opened Wrappers

  /** The characters Java's `.` refuses outside DOTALL and UNIX_LINES mode. */
  predicate IsLineTerminator(c: char) {
    c == '\n' || c == '\r' || c == '\U{0085}' || c == '\U{2028}' || c == '\U{2029}'
  }

  /** Every character of s[lo..hi] can be consumed by the lazy `.*?` before `>` is seen. */
  predicate CleanRun(s: string, lo: nat, hi: nat)
    requires hi <= |s|
  {
    forall k :: lo <= k < hi ==> s[k] != '>' && !IsLineTerminator(s[k])
  }

  /** s[a..b] is a match of `<.*?>`: it opens with `<` and closes at the first `>` on the line. */
  predicate IsMatch(s: string, a: nat, b: nat) {
    a + 2 <= b <= |s| && s[a] == '<' && s[b - 1] == '>' && CleanRun(s, a + 1, b - 1)
  }

  /** The offsets [start, end) of one match within the message. */
  datatype Span = Span(start: nat, end: nat)

  /** Index of the `>` that ends a lazy `.*?>` whose body starts at j, if the line has one. */
  function FindClose(s: string, j: nat): (r: Option<nat>)
    requires j <= |s|
    ensures r.Some? ==> j <= r.value < |s|
    ensures forall e :: j <= e < |s| ==> (r == Some(e) <==> s[e] == '>' && CleanRun(s, j, e))
    decreases |s| - j
  {
    if j == |s| then None
    else if s[j] == '>' then Some(j)
    else if IsLineTerminator(s[j]) then None
    else FindClose(s, j + 1)
  }

  /** The end of the match that begins at a, if the pattern matches there. */
  function MatchAt(s: string, a: nat): (r: Option<nat>)
    ensures forall b: nat :: IsMatch(s, a, b) <==> r == Some(b)
  {
    if a < |s| && s[a] == '<' then
      match FindClose(s, a + 1)
      case Some(e) => Some(e + 1)
      case None => None
    else None
  }

  /** The successive `find` calls from position i: leftmost, non-overlapping matches. */
  function Scan(s: string, i: nat): (r: seq<Span>)
    requires i <= |s|
    ensures forall j :: 0 <= j < |r| ==> i <= r[j].start && IsMatch(s, r[j].start, r[j].end)
    ensures forall j :: 0 <= j < |r| - 1 ==> r[j].end <= r[j + 1].start
    decreases |s| - i
  {
    if i == |s| then []
    else match MatchAt(s, i)
      case Some(b) =>
        var rest := Scan(s, b);
        [Span(i, b)] + rest
      case None => Scan(s, i + 1)
  }

  /** The text of one extracted placeholder: `<`, a clean run, `>`. */
  predicate IsPlaceholder(t: string) {
    |t| >= 2 && t[0] == '<' && t[|t| - 1] == '>' &&
    forall k :: 0 < k < |t| - 1 ==> t[k] != '>' && !IsLineTerminator(t[k])
  }

  /** The placeholder list of a command line, in match order. */
  function Extract(msg: string): (r: seq<string>)
    ensures |r| == |Scan(msg, 0)|
    ensures forall j :: 0 <= j < |r| ==>
      r[j] == msg[Scan(msg, 0)[j].start..Scan(msg, 0)[j].end] && IsPlaceholder(r[j])
  {
    var sp := Scan(msg, 0);
    MatchTexts(msg, sp);
    seq(|sp|, j requires 0 <= j < |sp| => msg[sp[j].start..sp[j].end])
  }

  /** The text of a match is a placeholder. */
  lemma MatchText(s: string, a: nat, b: nat)
    requires IsMatch(s, a, b)
    ensures IsPlaceholder(s[a..b])
  {
    var t := s[a..b];
    forall k | 0 < k < |t| - 1 ensures t[k] != '>' && !IsLineTerminator(t[k]) {
      assert t[k] == s[a + k];
    }
  }

  lemma MatchTexts(s: string, sp: seq<Span>)
    requires forall j :: 0 <= j < |sp| ==> IsMatch(s, sp[j].start, sp[j].end)
    ensures forall j :: 0 <= j < |sp| ==>
      sp[j].start <= sp[j].end <= |s| && IsPlaceholder(s[sp[j].start..sp[j].end])
  {
    forall j | 0 <= j < |sp| ensures IsPlaceholder(s[sp[j].start..sp[j].end]) {
      MatchText(s, sp[j].start, sp[j].end);
    }
  }

  // ---------------------------------------------------------------------------
  // An independent description of a leftmost, non-overlapping find-all: every
  // span is a match, spans are ordered, and no match begins in any gap between
  // them (nor before the first one or after the last one).

  /** No match of the pattern begins anywhere in [lo, hi). */
  ghost predicate NoMatchIn(s: string, lo: nat, hi: nat) {
    forall p: nat, b: nat :: lo <= p < hi ==> !IsMatch(s, p, b)
  }

  /** Where the j-th gap of a scan from i begins. */
  function GapLo(i: nat, r: seq<Span>, j: nat): nat
    requires j <= |r|
  {
    if j == 0 then i else r[j - 1].end
  }

  /** Where the j-th gap of a scan over s ends. */
  function GapHi(s: string, r: seq<Span>, j: nat): nat
    requires j <= |r|
  {
    if j == |r| then |s| else r[j].start
  }

  ghost predicate AllMatches(s: string, r: seq<Span>) {
    forall j :: 0 <= j < |r| ==> IsMatch(s, r[j].start, r[j].end)
  }

  /** Every gap of a scan from i is well formed and holds no match. */
  ghost predicate GapsClear(s: string, i: nat, r: seq<Span>) {
    forall j :: 0 <= j <= |r| ==>
      GapLo(i, r, j) <= GapHi(s, r, j) && NoMatchIn(s, GapLo(i, r, j), GapHi(s, r, j))
  }

  ghost predicate IsLeftmostScan(s: string, i: nat, r: seq<Span>) {
    AllMatches(s, r) && GapsClear(s, i, r)
  }

  /** Prepending a match at i to a leftmost scan from its end gives a leftmost scan from i. */
  lemma LeftmostCons(s: string, i: nat, b: nat, t: seq<Span>, r: seq<Span>)
    requires IsMatch(s, i, b) && IsLeftmostScan(s, b, t) && r == [Span(i, b)] + t
    ensures IsLeftmostScan(s, i, r)
  {
    forall j | 1 <= j <= |r|
      ensures GapLo(i, r, j) <= GapHi(s, r, j) && NoMatchIn(s, GapLo(i, r, j), GapHi(s, r, j))
    {
      assert GapLo(i, r, j) == GapLo(b, t, j - 1) && GapHi(s, r, j) == GapHi(s, t, j - 1);
      assert GapLo(b, t, j - 1) <= GapHi(s, t, j - 1);
      assert NoMatchIn(s, GapLo(b, t, j - 1), GapHi(s, t, j - 1));
    }
    forall j | 0 <= j < |r| ensures IsMatch(s, r[j].start, r[j].end) {
      if j > 0 { assert r[j] == t[j - 1]; }
    }
  }

  /** A gap can be widened to the left over a position where no match begins. */
  lemma NoMatchExtend(s: string, i: nat, hi: nat)
    requires MatchAt(s, i).None? && NoMatchIn(s, i + 1, hi)
    ensures NoMatchIn(s, i, hi)
  {
  }

  /** A leftmost scan from i + 1 is one from i when no match begins at i. */
  lemma LeftmostSkip(s: string, i: nat, r: seq<Span>)
    requires MatchAt(s, i).None? && IsLeftmostScan(s, i + 1, r)
    ensures IsLeftmostScan(s, i, r)
  {
    forall j | 0 <= j <= |r|
      ensures GapLo(i, r, j) <= GapHi(s, r, j) && NoMatchIn(s, GapLo(i, r, j), GapHi(s, r, j))
    {
      assert GapLo(i + 1, r, j) <= GapHi(s, r, j) && NoMatchIn(s, GapLo(i + 1, r, j), GapHi(s, r, j));
      if j == 0 {
        NoMatchExtend(s, i, GapHi(s, r, 0));
      } else {
        assert GapLo(i, r, j) == GapLo(i + 1, r, j);
      }
    }
  }

  /** Scan finds exactly the leftmost non-overlapping matches. */
  lemma {:induction false} ScanIsLeftmost(s: string, i: nat)
    requires i <= |s|
    ensures IsLeftmostScan(s, i, Scan(s, i))
    decreases |s| - i
  {
    if i < |s| {
      match MatchAt(s, i)
      case Some(b) =>
        var t := Scan(s, b);
        ScanIsLeftmost(s, b);
        LeftmostCons(s, i, b, t, Scan(s, i));
      case None =>
        ScanIsLeftmost(s, i + 1);
        LeftmostSkip(s, i, Scan(s, i));
    }
  }

  /** Dropping the first span of a leftmost scan leaves a leftmost scan from its end. */
  lemma LeftmostTail(s: string, i: nat, r: seq<Span>)
    requires IsLeftmostScan(s, i, r) && |r| > 0
    ensures IsLeftmostScan(s, r[0].end, r[1..])
  {
    var t := r[1..];
    forall j | 0 <= j <= |t|
      ensures GapLo(r[0].end, t, j) == GapLo(i, r, j + 1) && GapHi(s, t, j) == GapHi(s, r, j + 1)
    {
    }
    forall j | 0 <= j <= |t|
      ensures GapLo(r[0].end, t, j) <= GapHi(s, t, j) && NoMatchIn(s, GapLo(r[0].end, t, j), GapHi(s, t, j))
    {
      assert GapLo(i, r, j + 1) <= GapHi(s, r, j + 1);
      assert NoMatchIn(s, GapLo(i, r, j + 1), GapHi(s, r, j + 1));
    }
    forall j | 0 <= j < |t| ensures IsMatch(s, t[j].start, t[j].end) {
      assert t[j] == r[j + 1];
    }
  }

  /** A leftmost scan from i whose first gap is not empty is also one from i + 1. */
  lemma LeftmostShift(s: string, i: nat, r: seq<Span>)
    requires IsLeftmostScan(s, i, r) && i < GapHi(s, r, 0)
    ensures IsLeftmostScan(s, i + 1, r)
  {
    forall j | 0 <= j <= |r|
      ensures GapLo(i + 1, r, j) <= GapHi(s, r, j) && NoMatchIn(s, GapLo(i + 1, r, j), GapHi(s, r, j))
    {
      assert GapLo(i, r, j) <= GapHi(s, r, j);
      assert NoMatchIn(s, GapLo(i, r, j), GapHi(s, r, j));
    }
  }

  /** The first span of a leftmost scan from i is a match at or after i. */
  lemma LeftmostFirst(s: string, i: nat, r: seq<Span>)
    requires IsLeftmostScan(s, i, r) && |r| > 0
    ensures i <= r[0].start && IsMatch(s, r[0].start, r[0].end)
  {
    assert GapLo(i, r, 0) <= GapHi(s, r, 0);
  }

  /** A leftmost scan from the end of the text is empty. */
  lemma LeftmostAtEnd(s: string, r: seq<Span>)
    requires IsLeftmostScan(s, |s|, r)
    ensures r == []
  {
    if |r| > 0 {
      LeftmostFirst(s, |s|, r);
      assert false;
    }
  }

  /** When a match begins at i, a leftmost scan from i starts with that match. */
  lemma LeftmostHead(s: string, i: nat, b: nat, r: seq<Span>)
    requires IsLeftmostScan(s, i, r) && IsMatch(s, i, b)
    ensures |r| > 0 && r[0] == Span(i, b)
  {
    assert GapLo(i, r, 0) <= GapHi(s, r, 0);
    assert NoMatchIn(s, GapLo(i, r, 0), GapHi(s, r, 0));
    assert |r| > 0 && r[0].start == i;
    assert IsMatch(s, i, r[0].end);
    assert MatchAt(s, i) == Some(b);
  }

  /** When no match begins at i, that position lies in the first gap. */
  lemma LeftmostNoHead(s: string, i: nat, r: seq<Span>)
    requires IsLeftmostScan(s, i, r) && i < |s| && MatchAt(s, i).None?
    ensures i < GapHi(s, r, 0)
  {
    if |r| > 0 {
      LeftmostFirst(s, i, r);
    }
  }

  /** The leftmost non-overlapping scan is unique, and Scan computes it. */
  lemma {:induction false} LeftmostIsScan(s: string, i: nat, r: seq<Span>)
    requires i <= |s| && IsLeftmostScan(s, i, r)
    ensures r == Scan(s, i)
    decreases |s| - i
  {
    if i == |s| {
      LeftmostAtEnd(s, r);
    } else {
      match MatchAt(s, i)
      case Some(b) =>
        assert Scan(s, i) == [Span(i, b)] + Scan(s, b);
        LeftmostHead(s, i, b, r);
        LeftmostTail(s, i, r);
        LeftmostIsScan(s, b, r[1..]);
        assert r == [r[0]] + r[1..];
      case None =>
        assert Scan(s, i) == Scan(s, i + 1);
        LeftmostNoHead(s, i, r);
        LeftmostShift(s, i, r);
        LeftmostIsScan(s, i + 1, r);
    }
  }

  // ---------------------------------------------------------------------------
  // Properties of the extracted list.

  /** The list is empty exactly when no match of `<.*?>` exists anywhere in the line. */
  lemma ExtractEmptyIff(msg: string)
    ensures Extract(msg) == [] <==> forall a: nat, b: nat :: !IsMatch(msg, a, b)
  {
    var r := Scan(msg, 0);
    if r == [] {
      ScanIsLeftmost(msg, 0);
      assert NoMatchIn(msg, GapLo(0, r, 0), GapHi(msg, r, 0));
      forall a: nat, b: nat ensures !IsMatch(msg, a, b) {
        if a < |msg| {
          assert MatchAt(msg, a).None?;
        }
      }
    } else {
      assert IsMatch(msg, r[0].start, r[0].end);
    }
  }

  /** A line without any `<` yields an empty list. */
  lemma NoOpenBracketNoPlaceholder(msg: string)
    requires forall k :: 0 <= k < |msg| ==> msg[k] != '<'
    ensures Extract(msg) == []
  {
    ExtractEmptyIff(msg);
  }

  /** A line where every `<` is separated from every later `>` by a line terminator yields an empty list. */
  lemma NoCloseOnLineNoPlaceholder(msg: string)
    requires forall a, c :: 0 <= a < c < |msg| && msg[a] == '<' && msg[c] == '>' ==>
      exists m :: a < m < c && IsLineTerminator(msg[m])
    ensures Extract(msg) == []
  {
    ExtractEmptyIff(msg);
  }

  /**
   * The "<<a>" case: the scan does not ignore an unbalanced `<`, it swallows it
   * into the placeholder that follows.
   */
  lemma UnbalancedOpenIsSwallowed()
    ensures Extract("<<a>") == ["<<a>"]
  {
    var s := "<<a>";
    assert FindClose(s, 3) == Some(3);
    assert FindClose(s, 1) == Some(3);
    assert MatchAt(s, 0) == Some(4);
    assert Scan(s, 4) == [];
    assert Scan(s, 0) == [Span(0, 4)];
    assert s[0..4] == s;
  }
}
