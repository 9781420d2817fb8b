/**
 * `ChatPrompt.sendPrompt`: the prompt text is split on the literal `{br}`
 * (Java `String.split` with the regular expression `\{br}` and limit 0), each
 * piece is trimmed with Java `String.trim`, the configured prompt prefix is put
 * in front of it, and one chat message per piece is sent in order. The colour
 * translation applied to each message before it is sent is not modelled: the
 * messages here are the texts handed to it.
 */
module ChatPrompt {
  import opened Wrappers

  /** The line-break marker of a prompt text. */
  const Br: string := "{br}"

  /** `{br}` occurs in s at offset k. */
  predicate OccursAt(s: string, k: nat) {
    k + 4 <= |s| && s[k] == '{' && s[k + 1] == 'b' && s[k + 2] == 'r' && s[k + 3] == '}'
  }

  lemma OccursAtMeansBr(s: string, k: nat)
    requires OccursAt(s, k)
    ensures s[k..k + |Br|] == Br
  {
  }

  ghost predicate NoBr(s: string) {
    forall k: nat :: !OccursAt(s, k)
  }

  /** The leftmost occurrence of `{br}` at or after offset from. */
  function FindBr(s: string, from: nat): (r: Option<nat>)
    ensures r.Some? ==> from <= r.value && OccursAt(s, r.value)
    ensures forall k: nat :: from <= k && OccursAt(s, k) ==> r.Some? && r.value <= k
    decreases |s| - from
  {
    if from + |Br| > |s| then None
    else if OccursAt(s, from) then Some(from)
    else FindBr(s, from + 1)
  }

  /** The pieces between successive leftmost occurrences of `{br}`, empty ones included. */
  function Pieces(s: string): (r: seq<string>)
    ensures |r| >= 1
    ensures forall j :: 0 <= j < |r| ==> NoBr(r[j])
    decreases |s|
  {
    match FindBr(s, 0)
    case None => [s]
    case Some(k) =>
      NoBrBeforeFirst(s, k);
      [s[..k]] + Pieces(s[k + |Br|..])
  }

  /** Everything before the first occurrence is free of `{br}`. */
  lemma NoBrBeforeFirst(s: string, k: nat)
    requires FindBr(s, 0) == Some(k)
    ensures NoBr(s[..k])
  {
    forall m: nat | OccursAt(s[..k], m) ensures false {
      assert OccursAt(s, m);
    }
  }

  /** Removes the empty strings at the end of a list, as `split` with limit 0 does. */
  function DropTrailingEmpty(p: seq<string>): (r: seq<string>)
    ensures |r| <= |p| && r == p[..|r|]
    ensures forall j :: |r| <= j < |p| ==> p[j] == ""
    ensures |r| > 0 ==> r[|r| - 1] != ""
  {
    if |p| > 0 && p[|p| - 1] == "" then DropTrailingEmpty(p[..|p| - 1]) else p
  }

  /**
   * Java `String.split` of s on `{br}` with limit 0. When there is no occurrence
   * at all the input comes back unchanged as the only element, even when it is
   * empty; otherwise the trailing empty pieces are dropped.
   */
  function Split(s: string): (r: seq<string>)
    ensures FindBr(s, 0).None? ==> r == [s]
    ensures FindBr(s, 0).Some? ==>
      var p := Pieces(s);
      |r| <= |p| && r == p[..|r|] &&
      (forall j :: |r| <= j < |p| ==> p[j] == "") &&
      (|r| > 0 ==> r[|r| - 1] != "")
    ensures forall j :: 0 <= j < |r| ==> NoBr(r[j])
  {
    if FindBr(s, 0).None? then [s] else DropTrailingEmpty(Pieces(s))
  }

  /** How many characters up to U+0020 open s: where Java `String.trim` starts. */
  function Lead(s: string): (n: nat)
    ensures n <= |s|
    ensures forall k :: 0 <= k < n ==> s[k] <= ' '
    ensures n < |s| ==> s[n] > ' '
  {
    if |s| > 0 && s[0] <= ' ' then 1 + Lead(s[1..]) else 0
  }

  /** s with its characters up to U+0020 removed from the back. */
  function TrimEnd(s: string): (r: string)
    ensures |r| <= |s| && r == s[..|r|]
    ensures forall k :: |r| <= k < |s| ==> s[k] <= ' '
    ensures |r| > 0 ==> r[|r| - 1] > ' '
  {
    if |s| > 0 && s[|s| - 1] <= ' ' then TrimEnd(s[..|s| - 1]) else s
  }

  /**
   * Java `String.trim`: the text between the blank prefix and the blank suffix
   * of s, where blank means a character up to U+0020.
   */
  function Trim(s: string): (r: string)
    ensures Lead(s) + |r| <= |s| && r == s[Lead(s)..Lead(s) + |r|]
    ensures forall k :: Lead(s) + |r| <= k < |s| ==> s[k] <= ' '
    ensures |r| > 0 ==> r[0] > ' ' && r[|r| - 1] > ' '
  {
    var lo := Lead(s);
    var r := TrimEnd(s[lo..]);
    assert r == s[lo..lo + |r|];
    r
  }

  /**
   * The chat messages `sendPrompt` sends for a prompt text, before colour
   * translation: one per piece of the split, in order, each the prefix followed
   * by the trimmed piece; the text after the prefix holds no `{br}` and has no
   * character up to U+0020 at either end.
   */
  function Render(prompt: string, prefix: string): (msgs: seq<string>)
    ensures |msgs| == |Split(prompt)|
    ensures forall i :: 0 <= i < |msgs| ==> msgs[i] == prefix + Trim(Split(prompt)[i])
    ensures forall i :: 0 <= i < |msgs| ==>
      var body := (prefix + Trim(Split(prompt)[i]))[|prefix|..];
      body == Trim(Split(prompt)[i]) && NoBr(body) &&
      (|body| > 0 ==> body[0] > ' ' && body[|body| - 1] > ' ')
  {
    var parts := Split(prompt);
    RenderPieces(parts, prefix);
    seq(|parts|, i requires 0 <= i < |parts| => prefix + Trim(parts[i]))
  }

  // ---------------------------------------------------------------------------
  // Properties.

  /** Joining pieces back together with `{br}`. */
  function Join(p: seq<string>): string
    requires |p| >= 1
  {
    if |p| == 1 then p[0] else p[0] + Br + Join(p[1..])
  }

  lemma JoinCons(x: string, p: seq<string>)
    requires |p| >= 1
    ensures Join([x] + p) == x + Br + Join(p)
  {
    assert ([x] + p)[1..] == p;
  }

  /** s is the text before an occurrence, the `{br}`, and the text after it. */
  lemma SplitAround(s: string, k: nat)
    requires OccursAt(s, k)
    ensures s == s[..k] + Br + s[k + |Br|..]
  {
    OccursAtMeansBr(s, k);
    assert s == s[..k] + s[k..k + |Br|] + s[k + |Br|..];
  }

  /** Splitting loses nothing: the pieces joined with `{br}` give back the text. */
  lemma {:induction false} JoinPieces(s: string)
    ensures Join(Pieces(s)) == s
    decreases |s|
  {
    match FindBr(s, 0)
    case None =>
    case Some(k) =>
      var rest := s[k + |Br|..];
      var p := Pieces(rest);
      JoinPieces(rest);
      assert Pieces(s) == [s[..k]] + p;
      JoinCons(s[..k], p);
      SplitAround(s, k);
  }

  /** A substring of a text free of `{br}` is free of it too. */
  lemma NoBrSubstring(s: string, lo: nat, hi: nat)
    requires lo <= hi <= |s| && NoBr(s)
    ensures NoBr(s[lo..hi])
  {
    forall m: nat | OccursAt(s[lo..hi], m) ensures false {
      assert OccursAt(s, lo + m);
    }
  }

  /** The message for one piece: the prefix, then the piece trimmed, which keeps it free of `{br}`. */
  lemma RenderPiece(part: string, prefix: string)
    requires NoBr(part)
    ensures var body := (prefix + Trim(part))[|prefix|..];
      body == Trim(part) && NoBr(body) && (|body| > 0 ==> body[0] > ' ' && body[|body| - 1] > ' ')
  {
    var t := Trim(part);
    var lo := Lead(part);
    NoBrSubstring(part, lo, lo + |t|);
    assert (prefix + t)[|prefix|..] == t;
  }

  lemma RenderPieces(parts: seq<string>, prefix: string)
    requires forall j :: 0 <= j < |parts| ==> NoBr(parts[j])
    ensures forall i :: 0 <= i < |parts| ==>
      var body := (prefix + Trim(parts[i]))[|prefix|..];
      body == Trim(parts[i]) && NoBr(body) && (|body| > 0 ==> body[0] > ' ' && body[|body| - 1] > ' ')
  {
    forall i | 0 <= i < |parts|
      ensures var body := (prefix + Trim(parts[i]))[|prefix|..];
        body == Trim(parts[i]) && NoBr(body) && (|body| > 0 ==> body[0] > ' ' && body[|body| - 1] > ' ')
    {
      RenderPiece(parts[i], prefix);
    }
  }

  /** A prompt with no `{br}` becomes exactly one message: prefix and trimmed prompt. */
  lemma SingleLine(prompt: string, prefix: string)
    requires NoBr(prompt)
    ensures Render(prompt, prefix) == [prefix + Trim(prompt)]
  {
    assert FindBr(prompt, 0).None?;
  }

  /** Text free of `{br}` followed by `{br}`: the first occurrence is that `{br}`. */
  lemma FindBrAfter(a: string, rest: string)
    requires NoBr(a)
    ensures FindBr(a + Br + rest, 0) == Some(|a|)
  {
    var s := a + Br + rest;
    assert OccursAt(s, |a|);
    forall k: nat | k < |a| ensures !OccursAt(s, k) {
      if k + 4 <= |a| {
        assert OccursAt(s, k) ==> OccursAt(a, k);
      } else {
        // the `{` opening the appended `{br}` would sit inside an occurrence, where `{` never is
        assert s[|a|] == '{';
      }
    }
  }

  /** Splitting text free of `{br}` gives back that text alone. */
  lemma PiecesOfPlain(a: string)
    requires NoBr(a)
    ensures FindBr(a, 0).None? && Pieces(a) == [a]
  {
  }

  lemma PiecesAfter(a: string, rest: string)
    requires NoBr(a)
    ensures Pieces(a + Br + rest) == [a] + Pieces(rest)
  {
    var s := a + Br + rest;
    FindBrAfter(a, rest);
    assert s[..|a|] == a;
    assert s[|a| + |Br|..] == rest;
  }

  /** Joining pieces free of `{br}` and splitting again gives back the same pieces. */
  lemma {:induction false} PiecesJoin(p: seq<string>)
    requires |p| >= 1 && forall j :: 0 <= j < |p| ==> NoBr(p[j])
    ensures Pieces(Join(p)) == p
    decreases |p|
  {
    if |p| == 1 {
      PiecesOfPlain(p[0]);
    } else {
      PiecesJoin(p[1..]);
      PiecesAfter(p[0], Join(p[1..]));
      assert p == [p[0]] + p[1..];
    }
  }

  /** Render of a prompt whose split is known. */
  lemma RenderOfSplit(prompt: string, prefix: string, parts: seq<string>)
    requires Split(prompt) == parts
    ensures |Render(prompt, prefix)| == |parts|
    ensures forall i :: 0 <= i < |parts| ==> Render(prompt, prefix)[i] == prefix + Trim(parts[i])
  {
  }

  /**
   * Two pieces around one `{br}`: a trailing empty piece is dropped, a leading
   * empty piece stays as a prefix-only message, and `{br}` alone sends nothing.
   */
  lemma OneBreak(a: string, b: string, prefix: string)
    requires NoBr(a) && NoBr(b)
    ensures b != "" ==> Render(a + Br + b, prefix) == [prefix + Trim(a), prefix + Trim(b)]
    ensures b == "" && a != "" ==> Render(a + Br + b, prefix) == [prefix + Trim(a)]
    ensures b == "" && a == "" ==> Render(a + Br + b, prefix) == []
  {
    var s := a + Br + b;
    FindBrAfter(a, b);
    PiecesAfter(a, b);
    PiecesOfPlain(b);
    assert Pieces(s) == [a, b];
    if b != "" {
      assert Split(s) == [a, b];
      RenderOfSplit(s, prefix, [a, b]);
    } else if a != "" {
      assert DropTrailingEmpty([a, b]) == [a] by {
        assert [a, b][..1] == [a];
      }
      RenderOfSplit(s, prefix, [a]);
    } else {
      assert DropTrailingEmpty([a, b]) == [] by {
        assert [a, b][..1] == [a];
        assert [a][..0] == [];
      }
    }
  }

  /** Two adjacent `{br}` between text give a prefix-only message between the two. */
  lemma InteriorEmptyKept(a: string, b: string, prefix: string)
    requires NoBr(a) && NoBr(b) && b != ""
    ensures Render(a + Br + Br + b, prefix) == [prefix + Trim(a), prefix, prefix + Trim(b)]
  {
    var s := a + Br + Br + b;
    InteriorSplit(a, b);
    RenderOfSplit(s, prefix, [a, "", b]);
    assert Trim("") == "";
    assert prefix + "" == prefix;
  }

  lemma InteriorSplit(a: string, b: string)
    requires NoBr(a) && NoBr(b) && b != ""
    ensures Split(a + Br + Br + b) == [a, "", b]
  {
    var s := a + Br + Br + b;
    var r1 := Br + b;
    assert s == a + Br + r1;
    PiecesAfter(a, r1);
    FindBrAfter(a, r1);
    assert r1 == "" + Br + b;
    assert NoBr("");
    PiecesAfter("", b);
    PiecesOfPlain(b);
    assert Pieces(s) == [a, "", b];
  }
}
