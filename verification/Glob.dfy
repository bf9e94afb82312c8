/**
 The gateway's three wildcard matchers, each proved against one meaning.

 `Fits` is the meaning: `*` stands for any string, `?` for any one character.
 `SplitFits` is the segment form of the same idea for patterns whose only
 wildcard is `*`. Patterns and texts are already lower-cased here.
 */
module Glob {
  import opened Options
  import opened Text

  /** What a glob pattern means. */
  ghost predicate Fits(p: string, t: string)
    decreases |p|, 0
  {
    if p == "" then
      t == ""
    else if p[0] == '*' then
      exists k: nat :: FitsAt(p[1..], t, k)
    else
      t != "" && (p[0] == '?' || p[0] == t[0]) && Fits(p[1..], t[1..])
  }

  /** The pattern fits what is left of the text after `k` characters. */
  ghost predicate FitsAt(p: string, t: string, k: nat)
    decreases |p|, 1
  {
    k <= |t| && Fits(p, t[k..])
  }

  function Stars(p: string): (n: nat)
    ensures n <= |p|
  {
    if p == "" then 0 else (if p[0] == '*' then 1 else 0) + Stars(p[1..])
  }

  /** What one pattern character may stand for. */
  predicate Stands(c: char, piece: string) {
    c == '*' || (c == '?' && |piece| == 1) || (c != '?' && piece == [c])
  }

  function Concat(pieces: seq<string>): string {
    if pieces == [] then "" else pieces[0] + Concat(pieces[1..])
  }

  /** The text cut into one piece for each pattern character. */
  ghost predicate Cut(p: string, t: string, pieces: seq<string>) {
    |pieces| == |p| && Concat(pieces) == t && forall i :: 0 <= i < |p| ==> Stands(p[i], pieces[i])
  }

  lemma CutMore(p: string, t: string, piece: string, rest: seq<string>)
    requires p != "" && |piece| <= |t| && piece == t[..|piece|]
    requires Stands(p[0], piece) && Cut(p[1..], t[|piece|..], rest)
    ensures Cut(p, t, [piece] + rest)
  {
    var pieces := [piece] + rest;
    assert pieces[1..] == rest;
    forall i | 0 <= i < |p|
      ensures Stands(p[i], pieces[i])
    {
      assert i > 0 ==> p[i] == p[1..][i - 1] && pieces[i] == rest[i - 1];
    }
  }

  lemma {:induction false} CutOfFit(p: string, t: string) returns (pieces: seq<string>)
    requires Fits(p, t)
    ensures Cut(p, t, pieces)
    decreases |p|
  {
    if p == "" {
      pieces := [];
    } else {
      var k := 1;
      if p[0] == '*' {
        k := StarWitness(p, t);
      } else {
        assert t[..1] == [t[0]];
      }
      var rest := CutOfFit(p[1..], t[k..]);
      CutMore(p, t, t[..k], rest);
      pieces := [t[..k]] + rest;
    }
  }

  lemma {:induction false} FitOfCut(p: string, t: string, pieces: seq<string>)
    requires Cut(p, t, pieces)
    ensures Fits(p, t)
    decreases |p|
  {
    if p != "" {
      var k := |pieces[0]|;
      assert t[k..] == Concat(pieces[1..]) && t[..k] == pieces[0] && Stands(p[0], pieces[0]);
      forall i | 0 <= i < |p| - 1
        ensures Stands(p[1..][i], pieces[1..][i])
      {
        assert Stands(p[i + 1], pieces[i + 1]);
      }
      FitOfCut(p[1..], t[k..], pieces[1..]);
      if p[0] == '*' {
        assert FitsAt(p[1..], t, k);
      }
    }
  }

  /**
   What fitting means: the text can be cut into pieces, one for each pattern
   character, of which those of stars are arbitrary, those of question marks one
   character long, and the others the character itself.
   */
  lemma FitsExactly(p: string, t: string)
    ensures Fits(p, t) <==> exists pieces :: Cut(p, t, pieces)
  {
    if Fits(p, t) {
      var pieces := CutOfFit(p, t);
    }
    if exists pieces :: Cut(p, t, pieces) {
      var pieces :| Cut(p, t, pieces);
      FitOfCut(p, t, pieces);
    }
  }

  lemma StarWitness(p: string, t: string) returns (k: nat)
    requires p != "" && p[0] == '*' && Fits(p, t)
    ensures FitsAt(p[1..], t, k)
  {
    k :| FitsAt(p[1..], t, k);
  }

  /** A leading star stands for nothing, or swallows one character. */
  lemma StarUnfold(p: string, t: string)
    requires p != "" && p[0] == '*'
    ensures Fits(p, t) <==> Fits(p[1..], t) || (t != "" && Fits(p, t[1..]))
  {
    assert t[0..] == t;
    if Fits(p, t) {
      var k := StarWitness(p, t);
      if k > 0 {
        assert t[1..][k - 1..] == t[k..];
        assert FitsAt(p[1..], t[1..], k - 1);
      }
    }
    if Fits(p[1..], t) {
      assert FitsAt(p[1..], t, 0);
    }
    if t != "" && Fits(p, t[1..]) {
      var k := StarWitness(p, t[1..]);
      assert t[k + 1..] == t[1..][k..];
      assert FitsAt(p[1..], t, k + 1);
    }
  }

  /** A pattern that starts with a star keeps fitting when characters are put in front. */
  lemma StarAbsorbs(p: string, t: string, k: nat)
    requires p != "" && p[0] == '*' && k <= |t|
    requires Fits(p, t[k..])
    ensures Fits(p, t)
  {
    var j := StarWitness(p, t[k..]);
    assert t[k..][j..] == t[k + j..];
    assert FitsAt(p[1..], t, k + j);
  }

  // ------------------------------------------------------------------
  // Recursive matcher with a depth cut-off
  // ------------------------------------------------------------------

  const MAX_DEPTH := 256

  function MatchHelper(p: string, t: string, depth: nat): bool
    decreases |p| + |t|
  {
    if depth > MAX_DEPTH then
      false
    else if p == "" && t == "" then
      true
    else if p != "" && p[0] == '*' then
      MatchHelper(p[1..], t, depth + 1)
      || (t != "" && MatchHelper(p, t[1..], depth + 1))
    else if p != "" && t != "" && p[0] == '?' then
      MatchHelper(p[1..], t[1..], depth + 1)
    else if p != "" && t != "" && p[0] == t[0] then
      MatchHelper(p[1..], t[1..], depth + 1)
    else
      false
  }

  function GlobMatch(p: string, t: string): bool {
    MatchHelper(p, t, 0)
  }

  /**
   Every successful descent is equally deep: one call for each character of
   the text and one for each star. So the cut-off is exact.
   */
  lemma {:induction false} MatchHelperExact(p: string, t: string, depth: nat)
    ensures MatchHelper(p, t, depth) <==> Fits(p, t) && depth + |t| + Stars(p) <= MAX_DEPTH
    decreases |p| + |t|
  {
    if p == "" {
    } else if p[0] == '*' {
      StarUnfold(p, t);
      MatchHelperExact(p[1..], t, depth + 1);
      if t != "" {
        MatchHelperExact(p, t[1..], depth + 1);
      }
    } else if t != "" {
      MatchHelperExact(p[1..], t[1..], depth + 1);
    }
  }

  /** `glob_match` answers by the meaning exactly when the text is not too long for the cut-off. */
  lemma GlobMatchExact(p: string, t: string)
    ensures GlobMatch(p, t) ==> Fits(p, t)
    ensures (GlobMatch(p, t) <==> Fits(p, t)) <==> !Fits(p, t) || |t| + Stars(p) <= MAX_DEPTH
  {
    MatchHelperExact(p, t, 0);
  }

  /** The lone star is the shortest pattern the cut-off spoils: it refuses every text of 256 characters or more. */
  lemma LoneStarCutOff(t: string)
    ensures Fits("*", t)
    ensures GlobMatch("*", t) <==> |t| < 256
  {
    MatchHelperExact("*", t, 0);
    assert "*"[1..] == "" && t[|t|..] == "";
    assert FitsAt("", t, |t|);
  }

  // ------------------------------------------------------------------
  // Greedy segment scan
  // ------------------------------------------------------------------

  /** The segments with `gaps` filled in between them. */
  ghost function Interleave(segs: seq<string>, gaps: seq<string>): string
    requires |segs| == |gaps| + 1
  {
    if gaps == [] then segs[0] else segs[0] + gaps[0] + Interleave(segs[1..], gaps[1..])
  }

  /** The text can be cut as p0 w1 p1 ... wn pn, where the pi are the pattern's segments. */
  ghost predicate SplitFits(p: string, t: string) {
    exists gaps: seq<string> ::
      |gaps| + 1 == |Split(p, '*')| && Interleave(Split(p, '*'), gaps) == t
  }

  /** The text is a gap and a segment, over and over. */
  ghost predicate TailFits(segs: seq<string>, t: string)
    decreases |segs|, 1
  {
    if segs == [] then t == "" else exists k: nat :: TailFitsAt(segs, t, k)
  }

  /** The first gap is `k` characters long. */
  ghost predicate TailFitsAt(segs: seq<string>, t: string, k: nat)
    requires segs != []
    decreases |segs|, 0
  {
    k + |segs[0]| <= |t| && segs[0] <= t[k..] && TailFits(segs[1..], t[k + |segs[0]|..])
  }

  /** The text begins with the first segment, and the others follow in order. */
  ghost predicate SegmentsFit(segs: seq<string>, t: string)
    requires segs != []
  {
    segs[0] <= t && TailFits(segs[1..], t[|segs[0]|..])
  }

  lemma {:induction false} TailOfInterleave(segs: seq<string>, gaps: seq<string>, t: string)
    requires |segs| == |gaps| + 1
    requires Interleave(segs, gaps) == t
    ensures SegmentsFit(segs, t)
  {
    if gaps != [] {
      var rest := Interleave(segs[1..], gaps[1..]);
      var u := t[|segs[0]|..];
      TailOfInterleave(segs[1..], gaps[1..], rest);
      assert u == gaps[0] + rest;
      var k := |gaps[0]|;
      assert u[k..] == rest;
      assert u[k + |segs[1]|..] == rest[|segs[1]|..];
      assert TailFitsAt(segs[1..], u, k);
    } else {
      assert t[|segs[0]|..] == "";
    }
  }

  lemma {:induction false} InterleaveOfTail(segs: seq<string>, t: string) returns (gaps: seq<string>)
    requires |segs| >= 1
    requires SegmentsFit(segs, t)
    ensures |segs| == |gaps| + 1 && Interleave(segs, gaps) == t
  {
    if |segs| == 1 {
      gaps := [];
      assert t == segs[0] + t[|segs[0]|..];
    } else {
      var u := t[|segs[0]|..];
      var k := TailWitness(segs[1..], u);
      assert u[k..][|segs[1]|..] == u[k + |segs[1]|..];
      var rest := InterleaveOfTail(segs[1..], u[k..]);
      gaps := [u[..k]] + rest;
      assert gaps[1..] == rest;
      assert t == segs[0] + u[..k] + u[k..];
    }
  }

  lemma SplitFitsAsTail(p: string, t: string)
    ensures SplitFits(p, t) <==> SegmentsFit(Split(p, '*'), t)
  {
    var segs := Split(p, '*');
    if SplitFits(p, t) {
      var gaps: seq<string> :| |gaps| + 1 == |segs| && Interleave(segs, gaps) == t;
      TailOfInterleave(segs, gaps, t);
    }
    if SegmentsFit(segs, t) {
      var gaps := InterleaveOfTail(segs, t);
    }
  }

  /** More text in front only widens the first gap. */
  lemma TailAbsorbs(segs: seq<string>, t: string, k: nat)
    requires segs != [] && k <= |t|
    requires TailFits(segs, t[k..])
    ensures TailFits(segs, t)
  {
    var u := t[k..];
    var j: nat :| TailFitsAt(segs, u, j);
    assert u[j..] == t[k + j..];
    assert u[j + |segs[0]|..] == t[k + j + |segs[0]|..];
    assert TailFitsAt(segs, t, k + j);
  }

  lemma TailWitness(segs: seq<string>, t: string) returns (k: nat)
    requires segs != [] && TailFits(segs, t)
    ensures TailFitsAt(segs, t, k)
  {
    k :| TailFitsAt(segs, t, k);
  }

  /** Taking the leftmost occurrence of a middle segment never loses a match. */
  lemma GreedyStep(segs: seq<string>, t: string, i: nat)
    requires |segs| >= 2
    requires i + |segs[0]| <= |t| && segs[0] <= t[i..]
    requires forall k :: 0 <= k < i ==> !(segs[0] <= t[k..])
    ensures TailFits(segs, t) <==> TailFits(segs[1..], t[i + |segs[0]|..])
  {
    assert TailFitsAt(segs, t, i) <==> TailFits(segs[1..], t[i + |segs[0]|..]);
    if TailFits(segs, t) {
      var k := TailWitness(segs, t);
      var u := t[i + |segs[0]|..];
      assert u[k - i..] == t[k + |segs[0]|..];
      TailAbsorbs(segs[1..], u, k - i);
    }
  }

  /** A segment that occurs nowhere rules a match out. */
  lemma AbsentSegment(segs: seq<string>, t: string)
    requires segs != []
    requires forall k :: 0 <= k <= |t| ==> !(segs[0] <= t[k..])
    ensures !TailFits(segs, t)
  {
  }

  predicate EndsWith(t: string, s: string) {
    |s| <= |t| && t[|t| - |s|..] == s
  }

  /** The last segment must be a suffix. */
  lemma LastStep(s: string, t: string)
    ensures TailFits([s], t) <==> EndsWith(t, s)
  {
    assert [s][1..] == [];
    if TailFits([s], t) {
      var k := TailWitness([s], t);
      assert t[k + |s|..] == "";
      assert t[k..] == s;
    }
    if EndsWith(t, s) {
      assert TailFitsAt([s], t, |t| - |s|);
    }
  }

  lemma EmptySegment(segs: seq<string>, t: string)
    requires |segs| >= 2 && segs[0] == ""
    ensures TailFits(segs, t) <==> TailFits(segs[1..], t)
  {
    assert t[0..] == t;
    GreedyStep(segs, t, 0);
  }

  /** `model_matches`: shortcuts first, then one left-to-right scan. */
  method ModelMatches(model: string, pattern: string) returns (r: bool)
    ensures r <==> SplitFits(pattern, model)
  {
    if pattern == "*" {
      StarAlone(model);
      return true;
    }
    if '*' !in pattern {
      ExactPattern(model, pattern);
      return model == pattern;
    }
    var parts := Split(pattern, '*');
    StarSplits(pattern);
    if |parts| == 2 && parts[1] == "" {
      PrefixPattern(model, pattern);
      return parts[0] <= model;
    }
    if |parts| == 2 && parts[0] == "" {
      SuffixPattern(model, pattern);
      return EndsWith(model, parts[1]);
    }
    SplitFitsAsTail(pattern, model);
    r := ScanSegments(model, parts);
  }

  /** The general case of `model_matches`: a cursor moving over the text, segment by segment. */
  method ScanSegments(model: string, parts: seq<string>) returns (r: bool)
    requires |parts| >= 2
    ensures r <==> SegmentsFit(parts, model)
  {
    var remaining := model;
    if parts[0] != "" {
      if !(parts[0] <= remaining) {
        return false;
      }
      remaining := remaining[|parts[0]|..];
    }
    ghost var goal := TailFits(parts[1..], model[|parts[0]|..]);
    var i := 1;
    while i < |parts| - 1
      invariant 1 <= i <= |parts| - 1
      invariant goal <==> TailFits(parts[i..], remaining)
    {
      ghost var segs := parts[i..];
      assert segs[0] == parts[i] && segs[1..] == parts[i + 1..];
      if parts[i] == "" {
        EmptySegment(segs, remaining);
      } else {
        match Find(remaining, parts[i])
        case None =>
          AbsentSegment(segs, remaining);
          return false;
        case Some(idx) =>
          GreedyStep(segs, remaining, idx);
          remaining := remaining[idx + |parts[i]|..];
      }
      i := i + 1;
    }
    var last := parts[|parts| - 1];
    assert parts[i..] == [last];
    LastStep(last, remaining);
    if last != "" {
      return EndsWith(remaining, last);
    }
    return true;
  }

  lemma ExactPattern(t: string, p: string)
    requires '*' !in p
    ensures SplitFits(p, t) <==> t == p
  {
    SplitOfJoin([p], '*');
    SplitFitsAsTail(p, t);
    assert t == t[..|t|] && (p <= t ==> t == p + t[|p|..]);
  }

  lemma PrefixPattern(t: string, p: string)
    requires |Split(p, '*')| == 2 && Split(p, '*')[1] == ""
    ensures SplitFits(p, t) <==> Split(p, '*')[0] <= t
  {
    var segs := Split(p, '*');
    SplitFitsAsTail(p, t);
    assert segs[1..] == [""];
    if segs[0] <= t {
      LastStep("", t[|segs[0]|..]);
    }
  }

  lemma SuffixPattern(t: string, p: string)
    requires |Split(p, '*')| == 2 && Split(p, '*')[0] == ""
    ensures SplitFits(p, t) <==> EndsWith(t, Split(p, '*')[1])
  {
    var segs := Split(p, '*');
    SplitFitsAsTail(p, t);
    assert segs[1..] == [segs[1]] && t[0..] == t;
    LastStep(segs[1], t);
  }

  lemma StarSplits(p: string)
    ensures |Split(p, '*')| == 1 ==> '*' !in p
  {
    assert Split(p, '*')[0] in Split(p, '*');
  }

  lemma StarAlone(t: string)
    ensures SplitFits("*", t)
  {
    SplitOfJoin(["", ""], '*');
    assert Join(["", ""], '*') == "*";
    assert Interleave(["", ""], [t]) == t;
  }

  // ------------------------------------------------------------------
  // The two meanings agree where both apply
  // ------------------------------------------------------------------

  lemma SplitFirst(p: string, c: char)
    requires p != ""
    ensures p[0] == c ==> Split(p, c) == [""] + Split(p[1..], c)
    ensures p[0] != c ==> Split(p, c) == [[p[0]] + Split(p[1..], c)[0]] + Split(p[1..], c)[1..]
  {
    if p[0] == c {
      assert p == "" + [c] + p[1..];
      SplitConcat("", p[1..], c);
      SplitOfJoin([""], c);
    } else {
      SplitInside(p, c);
    }
  }

  lemma SplitInside(p: string, c: char)
    requires p != "" && p[0] != c
    ensures Split(p, c) == [[p[0]] + Split(p[1..], c)[0]] + Split(p[1..], c)[1..]
  {
    var rest := Split(p[1..], c);
    assert rest[0] in rest;
    var whole := [[p[0]] + rest[0]] + rest[1..];
    assert whole[1..] == rest[1..];
    assert p == [p[0]] + p[1..];
    assert Join(whole, c) == p;
    forall q | q in whole
      ensures c !in q
    {
      assert q == whole[0] || q in rest;
    }
    SplitOfJoin(whole, c);
  }

  lemma TailSlice(segs: seq<string>, t: string, k: nat)
    requires segs != [] && k <= |t|
    ensures SegmentsFit(segs, t[k..]) <==> TailFitsAt(segs, t, k)
  {
    if segs[0] <= t[k..] {
      assert t[k..][|segs[0]|..] == t[k + |segs[0]|..];
    }
  }

  lemma StarHead(p: string, rest: seq<string>, t: string)
    requires p != "" && p[0] == '*' && rest != []
    requires forall k: nat | k <= |t| :: Fits(p[1..], t[k..]) <==> SegmentsFit(rest, t[k..])
    ensures Fits(p, t) <==> SegmentsFit([""] + rest, t)
  {
    var segs := [""] + rest;
    assert segs[0] == "" && segs[1..] == rest && t[0..] == t;
    assert SegmentsFit(segs, t) <==> TailFits(rest, t);
    forall k: nat
      ensures FitsAt(p[1..], t, k) <==> TailFitsAt(rest, t, k)
    {
      if k <= |t| {
        TailSlice(rest, t, k);
      }
    }
  }

  lemma CharHead(p: string, rest: seq<string>, t: string)
    requires p != "" && p[0] != '*' && p[0] != '?' && rest != []
    requires t != "" ==> (Fits(p[1..], t[1..]) <==> SegmentsFit(rest, t[1..]))
    ensures Fits(p, t) <==> SegmentsFit([[p[0]] + rest[0]] + rest[1..], t)
  {
    var segs := [[p[0]] + rest[0]] + rest[1..];
    assert segs[1..] == rest[1..];
    if t != "" {
      PrefixStep(p[0], rest[0], t);
    }
  }

  /** For patterns without `?` the segment reading is the general one. */
  lemma {:induction false} FitsAsTail(p: string, t: string)
    requires '?' !in p
    ensures Fits(p, t) <==> SegmentsFit(Split(p, '*'), t)
  {
    if p == "" {
      SplitOfJoin([""], '*');
      assert t[0..] == t;
    } else {
      var rest := Split(p[1..], '*');
      SplitFirst(p, '*');
      if p[0] == '*' {
        forall k: nat | k <= |t|
          ensures Fits(p[1..], t[k..]) <==> SegmentsFit(rest, t[k..])
        {
          FitsAsTail(p[1..], t[k..]);
        }
        StarHead(p, rest, t);
      } else {
        if t != "" {
          FitsAsTail(p[1..], t[1..]);
        }
        CharHead(p, rest, t);
      }
    }
  }

  lemma PrefixStep(c: char, s: string, t: string)
    requires t != ""
    ensures [c] + s <= t <==> c == t[0] && s <= t[1..]
    ensures [c] + s <= t ==> t[1..][|s|..] == t[|[c] + s|..]
  {
    assert t == [t[0]] + t[1..];
    if [c] + s <= t {
      assert s == ([c] + s)[1..] <= t[1..];
    }
  }

  /** The scan and the depth-limited recursion answer alike on every `?`-free pattern within the cut-off. */
  lemma MatchersAgree(p: string, t: string)
    requires '?' !in p
    ensures SplitFits(p, t) <==> Fits(p, t)
    ensures (SplitFits(p, t) <==> GlobMatch(p, t)) <==> !SplitFits(p, t) || |t| + Stars(p) <= MAX_DEPTH
  {
    SplitFitsAsTail(p, t);
    FitsAsTail(p, t);
    GlobMatchExact(p, t);
  }

  // ------------------------------------------------------------------
  // Iterative matcher with an iteration limit
  // ------------------------------------------------------------------

  const GLOB_MAX_ITERATIONS := 100_000

  /** Length of the star-free run of `p` that starts at `q`. */
  ghost function RunLength(p: string, q: nat): (n: nat)
    requires q <= |p|
    ensures q + n <= |p|
    ensures forall x :: q <= x < q + n ==> p[x] != '*'
    ensures q + n < |p| ==> p[q + n] == '*'
    decreases |p| - q
  {
    if q == |p| || p[q] == '*' then 0 else 1 + RunLength(p, q + 1)
  }

  /** A star-free run consumes one character of text for each of its own. */
  lemma {:induction false} RunConsumes(p: string, q: nat, n: nat, t: string)
    requires q + n <= |p| && forall x :: q <= x < q + n ==> p[x] != '*'
    requires Fits(p[q..], t)
    ensures n <= |t| && Fits(p[q + n..], t[n..])
    decreases n
  {
    if n == 0 {
      assert t[0..] == t;
    } else {
      assert p[q..][1..] == p[q + 1..];
      RunConsumes(p, q + 1, n - 1, t[1..]);
      assert t[1..][n - 1..] == t[n..];
    }
  }

  /** Some start of the text at or after `s` fits the rest of the pattern. */
  ghost predicate FitsFrom(p: string, t: string, s: nat) {
    exists k: nat :: s <= k && FitsAt(p, t, k)
  }

  /** Reaching the next star means that earlier choices need no second look. */
  lemma StarReached(p: string, t: string, q: nat, s: nat, n: nat)
    requires q + n < |p| && p[q + n] == '*' && s + n <= |t|
    requires forall x :: q <= x < q + n ==> p[x] != '*'
    requires Fits(p[q..], t[s..]) <==> Fits(p[q + n..], t[s + n..])
    ensures FitsFrom(p[q..], t, s) <==> FitsFrom(p[q + n + 1..], t, s + n)
  {
    var star := p[q + n..];
    assert star[1..] == p[q + n + 1..];
    if FitsFrom(p[q..], t, s) {
      var k: nat :| s <= k && FitsAt(p[q..], t, k);
      RunConsumes(p, q, n, t[k..]);
      assert t[k..][n..] == t[k + n..] && t[s + n..][k - s..] == t[k + n..];
      StarAbsorbs(star, t[s + n..], k - s);
      StarChoice(star, t, s + n);
    }
    if FitsFrom(p[q + n + 1..], t, s + n) {
      StarChoice(star, t, s + n);
      assert FitsAt(p[q..], t, s);
    }
  }

  lemma StarChoice(star: string, t: string, s: nat)
    requires star != "" && star[0] == '*' && s <= |t|
    ensures Fits(star, t[s..]) <==> FitsFrom(star[1..], t, s)
  {
    if Fits(star, t[s..]) {
      var k := StarWitness(star, t[s..]);
      assert t[s..][k..] == t[s + k..];
      assert FitsAt(star[1..], t, s + k);
    }
    if FitsFrom(star[1..], t, s) {
      var k: nat :| s <= k && FitsAt(star[1..], t, k);
      assert t[s..][k - s..] == t[k..];
      assert FitsAt(star[1..], t[s..], k - s);
    }
  }

  /** An attempt that failed moves the start of the text by one. */
  lemma NextAttempt(p: string, t: string, s: nat)
    requires s <= |t| && !Fits(p, t[s..])
    ensures FitsFrom(p, t, s) <==> FitsFrom(p, t, s + 1)
    ensures s == |t| ==> !FitsFrom(p, t, s)
  {
    if FitsFrom(p, t, s) {
      var k: nat :| s <= k && FitsAt(p, t, k);
      assert s + 1 <= k && FitsAt(p, t, k);
    }
  }

  /** Iterations that always suffice. */
  function IterationBound(p: string, t: string): nat {
    (|p| + 1) * (|t| + 1)
  }

  datatype Saved = Saved(p: nat, t: nat)

  /** The attempt under way: where the last star left the pattern and the text. */
  function Base(stack: seq<Saved>): Saved {
    if stack == [] then Saved(0, 0) else stack[|stack| - 1]
  }

  /** What the search still has to find out, given the last saved state. */
  ghost predicate Goal(p: string, t: string, stack: seq<Saved>)
    requires Base(stack).p <= |p|
  {
    if stack == [] then Fits(p, t) else FitsFrom(p[Base(stack).p..], t, Base(stack).t)
  }

  /** Position (pi, ti) has been reached from the start of the attempt without another star. */
  ghost predicate Aligned(p: string, t: string, b: Saved, pi: nat, ti: nat) {
    && b.p <= pi <= |p| && b.t <= ti <= |t|
    && pi - b.p == ti - b.t
    && pi <= b.p + RunLength(p, b.p)
  }

  /** And it is as good as that start. */
  ghost predicate InLockstep(p: string, t: string, b: Saved, pi: nat, ti: nat) {
    Aligned(p, t, b, pi, ti) && (Fits(p[b.p..], t[b.t..]) <==> Fits(p[pi..], t[ti..]))
  }

  ghost predicate WithinBudget(p: string, t: string, b: Saved, pi: nat, n: nat)
    requires b.p <= pi <= |p|
  {
    n <= b.p * (|t| + 1) + b.t * (RunLength(p, b.p) + 1) + (pi - b.p)
  }

  lemma BudgetAtStar(p: string, t: string, b: Saved, pi: nat, ti: nat, n: nat)
    requires Aligned(p, t, b, pi, ti) && WithinBudget(p, t, b, pi, n)
    requires pi < |p| && p[pi] == '*'
    ensures pi == b.p + RunLength(p, b.p)
    ensures WithinBudget(p, t, Saved(pi + 1, ti), pi + 1, n + 1)
  {
    var run := RunLength(p, b.p);
    assert pi == b.p + run;
    RunCost(b.p, b.t, run, |t|);
    var next := RunLength(p, pi + 1);
    MulMono(0, ti, next + 1);
  }

  /** A star's whole run costs at most one round of the text for each of its characters. */
  lemma RunCost(q: nat, s: nat, run: nat, len: nat)
    requires s <= len
    ensures q * (len + 1) + s * (run + 1) + run + 1 <= (q + run + 1) * (len + 1)
  {
    MulMono(s + 1, len + 1, run + 1);
    assert (s + 1) * (run + 1) == s * (run + 1) + run + 1;
    assert (q + run + 1) * (len + 1) == q * (len + 1) + (len + 1) * (run + 1);
  }

  lemma BudgetAtRetry(p: string, t: string, b: Saved, pi: nat, ti: nat, n: nat)
    requires Aligned(p, t, b, pi, ti) && WithinBudget(p, t, b, pi, n)
    ensures WithinBudget(p, t, Saved(b.p, b.t + 1), b.p, n + 1)
  {
    var run := RunLength(p, b.p);
    assert (b.t + 1) * (run + 1) == b.t * (run + 1) + run + 1;
  }

  lemma BudgetSuffices(p: string, t: string, b: Saved, pi: nat, ti: nat, n: nat)
    requires Aligned(p, t, b, pi, ti) && WithinBudget(p, t, b, pi, n)
    ensures n + 1 <= IterationBound(p, t)
  {
    var run := RunLength(p, b.p);
    RunCost(b.p, b.t, run, |t|);
    MulMono(b.p + run + 1, |p| + 1, |t| + 1);
  }

  lemma MulMono(a: nat, b: nat, c: nat)
    requires a <= b
    ensures a * c <= b * c
  {
    assert b * c == a * c + (b - a) * c;
  }

  predicate StackWithin(p: string, t: string, stack: seq<Saved>) {
    forall i :: 0 <= i < |stack| ==> stack[i].p <= |p| && stack[i].t <= |t|
  }

  /** The search from a given point, after `n` iterations: the answer, and whether the limit was hit. */
  function Search(p: string, t: string, pi: nat, ti: nat, stack: seq<Saved>, n: nat): (bool, bool)
    requires pi <= |p| && ti <= |t| && StackWithin(p, t, stack) && n <= GLOB_MAX_ITERATIONS
    decreases GLOB_MAX_ITERATIONS - n
  {
    if n == GLOB_MAX_ITERATIONS then
      (false, true)
    else if pi < |p| && p[pi] == '*' then
      Search(p, t, pi + 1, ti, stack + [Saved(pi + 1, ti)], n + 1)
    else if pi < |p| && ti < |t| && (p[pi] == '?' || p[pi] == t[ti]) then
      Search(p, t, pi + 1, ti + 1, stack, n + 1)
    else if pi == |p| && ti == |t| then
      (true, false)
    else if stack == [] then
      (false, false)
    else
      var saved := stack[|stack| - 1];
      if saved.t == |t| then (false, false)
      else
        var retry := Saved(saved.p, saved.t + 1);
        Search(p, t, retry.p, retry.t, stack[..|stack| - 1] + [retry], n + 1)
  }

  /** The answer of the policy engine's `glob_match`, and whether its iteration limit was hit. */
  function EngineGlob(p: string, t: string): (bool, bool) {
    if p == "*" || p == "/*" then (true, false) else Search(p, t, 0, 0, [], 0)
  }

  /** Nothing fits here: the attempt has failed, and only a later start of the text is left. */
  lemma StuckBranch(p: string, t: string, stack: seq<Saved>, pi: nat, ti: nat)
    requires StackWithin(p, t, stack) && InLockstep(p, t, Base(stack), pi, ti)
    requires pi < |p| ==> p[pi] != '*' && (ti == |t| || (p[pi] != '?' && p[pi] != t[ti]))
    requires pi == |p| ==> ti < |t|
    ensures stack == [] ==> !Goal(p, t, stack)
    ensures stack != [] ==>
      var b := Base(stack);
      && (b.t == |t| ==> !Goal(p, t, stack))
      && (b.t < |t| ==>
            var retried := stack[..|stack| - 1] + [Saved(b.p, b.t + 1)];
            && StackWithin(p, t, retried) && InLockstep(p, t, Base(retried), b.p, b.t + 1)
            && (Goal(p, t, stack) <==> Goal(p, t, retried)))
  {
    assert !Fits(p[pi..], t[ti..]);
    var b := Base(stack);
    if stack == [] {
      assert p[0..] == p && t[0..] == t;
    } else {
      NextAttempt(p[b.p..], t, b.t);
    }
  }

  /** The search answers by the meaning unless it hits the limit. */
  lemma {:induction false} SearchMeans(p: string, t: string, pi: nat, ti: nat, stack: seq<Saved>, n: nat)
    requires StackWithin(p, t, stack) && n <= GLOB_MAX_ITERATIONS
    requires InLockstep(p, t, Base(stack), pi, ti)
    ensures var (r, warned) := Search(p, t, pi, ti, stack, n); r <==> Goal(p, t, stack) && !warned
    decreases GLOB_MAX_ITERATIONS - n
  {
    var b := Base(stack);
    if n == GLOB_MAX_ITERATIONS {
    } else if pi < |p| && p[pi] == '*' {
      StarBranch(p, t, stack, pi, ti);
      SearchMeans(p, t, pi + 1, ti, stack + [Saved(pi + 1, ti)], n + 1);
    } else if pi < |p| && ti < |t| && (p[pi] == '?' || p[pi] == t[ti]) {
      MatchBranch(p, t, b, pi, ti);
      SearchMeans(p, t, pi + 1, ti + 1, stack, n + 1);
    } else if pi == |p| && ti == |t| {
      EndBranch(p, t, stack, pi, ti);
    } else {
      StuckBranch(p, t, stack, pi, ti);
      if stack != [] && b.t < |t| {
        SearchMeans(p, t, b.p, b.t + 1, stack[..|stack| - 1] + [Saved(b.p, b.t + 1)], n + 1);
      }
    }
  }

  /** And it hits the limit only beyond the bound. */
  lemma {:induction false} SearchEnds(p: string, t: string, pi: nat, ti: nat, stack: seq<Saved>, n: nat)
    requires StackWithin(p, t, stack) && n <= GLOB_MAX_ITERATIONS
    requires Aligned(p, t, Base(stack), pi, ti)
    requires WithinBudget(p, t, Base(stack), pi, n)
    ensures IterationBound(p, t) <= GLOB_MAX_ITERATIONS ==> !Search(p, t, pi, ti, stack, n).1
    decreases GLOB_MAX_ITERATIONS - n
  {
    var b := Base(stack);
    if n == GLOB_MAX_ITERATIONS {
      BudgetSuffices(p, t, b, pi, ti, n);
    } else if pi < |p| && p[pi] == '*' {
      BudgetAtStar(p, t, b, pi, ti, n);
      SearchEnds(p, t, pi + 1, ti, stack + [Saved(pi + 1, ti)], n + 1);
    } else if pi < |p| && ti < |t| && (p[pi] == '?' || p[pi] == t[ti]) {
      assert Aligned(p, t, b, pi + 1, ti + 1);
      SearchEnds(p, t, pi + 1, ti + 1, stack, n + 1);
    } else if !(pi == |p| && ti == |t|) && stack != [] && b.t < |t| {
      BudgetAtRetry(p, t, b, pi, ti, n);
      SearchEnds(p, t, b.p, b.t + 1, stack[..|stack| - 1] + [Saved(b.p, b.t + 1)], n + 1);
    }
  }

  /**
   Within the iteration limit the engine's matcher answers by the meaning, but
   for the pattern slash-star, which it lets match everything. A product of
   lengths tells beforehand that the limit is not reached.
   */
  lemma EngineGlobExact(p: string, t: string)
    ensures var (r, warned) := EngineGlob(p, t);
      && (r <==> p == "/*" || (Fits(p, t) && !warned))
      && (IterationBound(p, t) <= GLOB_MAX_ITERATIONS ==> !warned)
  {
    if p == "*" {
      assert p[1..] == "" && t[|t|..] == "";
      assert FitsAt(p[1..], t, |t|);
    } else if p != "/*" {
      assert p[0..] == p && t[0..] == t;
      SearchMeans(p, t, 0, 0, [], 0);
      SearchEnds(p, t, 0, 0, [], 0);
    }
  }

  // ------------------------------------------------------------------
  // Where the iteration limit refuses a text that fits
  // ------------------------------------------------------------------

  /** A star, `m` times the same letter and then another, against `n` times that letter and then the other. */
  ghost predicate Slow(p: string, t: string, m: nat, n: nat) {
    && |p| == m + 2 && p[0] == '*' && p[m + 1] == 'b'
    && |t| == n + 1 && t[n] == 'b'
    && (forall i :: 1 <= i <= m ==> p[i] == 'a')
    && (forall i :: 0 <= i < n ==> t[i] == 'a')
  }

  /** Equal characters are passed one iteration each, or the limit is hit among them. */
  lemma {:induction false} March(p: string, t: string, pi: nat, ti: nat, stack: seq<Saved>, n: nat, run: string)
    requires pi <= |p| && ti <= |t| && StackWithin(p, t, stack) && n <= GLOB_MAX_ITERATIONS
    requires run <= p[pi..] && run <= t[ti..] && '*' !in run
    ensures Search(p, t, pi, ti, stack, n)
         == if n + |run| < GLOB_MAX_ITERATIONS then Search(p, t, pi + |run|, ti + |run|, stack, n + |run|)
            else (false, true)
    decreases |run|
  {
    if run != "" && n < GLOB_MAX_ITERATIONS {
      assert p[pi] == run[0] == t[ti];
      assert p[pi..][1..] == p[pi + 1..] && t[ti..][1..] == t[ti + 1..];
      March(p, t, pi + 1, ti + 1, stack, n + 1, run[1..]);
    }
  }

  /** Iterations for `left` rounds that fail and one that does not. */
  ghost function Cost(m: nat, left: nat): nat {
    if left == 0 then m + 1 else m + 1 + Cost(m, left - 1)
  }

  lemma {:induction false} CostIsProduct(m: nat, left: nat)
    ensures Cost(m, left) == (left + 1) * (m + 1)
  {
    if left > 0 {
      CostIsProduct(m, left - 1);
      assert (left + 1) * (m + 1) == left * (m + 1) + (m + 1);
    }
  }

  lemma Letters(p: string, t: string, m: nat, n: nat, start: nat)
    requires Slow(p, t, m, n) && start + m <= n
    ensures p[1..m + 1] <= p[1..] && p[1..m + 1] <= t[start..] && '*' !in p[1..m + 1]
  {
    assert forall i :: 0 <= i < m ==> p[1..m + 1][i] == 'a' == t[start..][i];
  }

  /** Each start of the text but the last costs a whole round, and fails at the other letter. */
  lemma {:induction false} Rounds(p: string, t: string, m: nat, n: nat, start: nat, count: nat)
    requires Slow(p, t, m, n) && start + m <= n && count <= GLOB_MAX_ITERATIONS
    ensures Search(p, t, 1, start, [Saved(1, start)], count)
         == if count + Cost(m, n - m - start) < GLOB_MAX_ITERATIONS then (true, false) else (false, true)
    decreases n - start
  {
    var stack := [Saved(1, start)];
    Letters(p, t, m, n, start);
    March(p, t, 1, start, stack, count, p[1..m + 1]);
    if count + m < GLOB_MAX_ITERATIONS && start + m < n {
      assert stack[..0] + [Saved(1, start + 1)] == [Saved(1, start + 1)];
      Rounds(p, t, m, n, start + 1, count + m + 1);
    }
  }

  /**
   A pattern with a single star, and texts it fits: the exact number of
   iterations, and so exactly when the limit refuses the text.
   */
  lemma SlowExactly(p: string, t: string, m: nat, n: nat)
    requires Slow(p, t, m, n) && m <= n
    ensures Fits(p, t)
    ensures EngineGlob(p, t) == if 1 + (n - m + 1) * (m + 1) < GLOB_MAX_ITERATIONS then (true, false) else (false, true)
  {
    SlowFits(p, t, m, n);
    SlowCost(p, t, m, n);
    CostIsProduct(m, n - m);
  }

  lemma SlowFits(p: string, t: string, m: nat, n: nat)
    requires Slow(p, t, m, n) && m <= n
    ensures Fits(p, t)
  {
    assert p[1..] == t[n - m..];
    SelfFits(p[1..]);
    assert FitsAt(p[1..], t, n - m);
  }

  lemma SlowCost(p: string, t: string, m: nat, n: nat)
    requires Slow(p, t, m, n) && m <= n
    ensures EngineGlob(p, t) == if 1 + Cost(m, n - m) < GLOB_MAX_ITERATIONS then (true, false) else (false, true)
  {
    assert [] + [Saved(1, 0)] == [Saved(1, 0)];
    Rounds(p, t, m, n, 0, 1);
  }

  /** 318 characters of pattern and 633 of text, far below ten kilobytes, are refused although they fit. */
  lemma LimitRefusesShortText() returns (p: string, t: string)
    ensures |p| == 318 && |t| == 633
    ensures Fits(p, t) && EngineGlob(p, t) == (false, true)
  {
    var m, n := 316, 632;
    p := ['*'] + seq(m, i => 'a') + ['b'];
    t := seq(n, i => 'a') + ['b'];
    SlowExactly(p, t, m, n);
  }

  /** The shortcut for slash-star matches even texts that do not begin with a slash. */
  lemma SlashStarMatchesEverything(t: string)
    ensures EngineGlob("/*", t).0
    ensures t == "" || t[0] != '/' ==> !Fits("/*", t)
  {
  }

  /** Every pattern fits itself as a text. */
  lemma {:induction false} SelfFits(p: string)
    ensures Fits(p, p)
  {
    if p != "" {
      SelfFits(p[1..]);
      if p[0] == '*' {
        assert FitsAt(p[1..], p, 1);
      }
    }
  }

  /** The policy engine's `glob_match`: a stack of saved states, of which the top one is retried. */
  method GlobMatchIterative(pattern: string, text: string) returns (r: bool, warned: bool)
    ensures (r, warned) == EngineGlob(pattern, text)
  {
    if pattern == "*" || pattern == "/*" {
      return true, false;
    }
    var pi: nat, ti: nat := 0, 0;
    var stack: seq<Saved> := [];
    var iterations: nat := 0;
    while true
      invariant pi <= |pattern| && ti <= |text| && StackWithin(pattern, text, stack)
      invariant iterations <= GLOB_MAX_ITERATIONS
      invariant Search(pattern, text, 0, 0, [], 0) == Search(pattern, text, pi, ti, stack, iterations)
      decreases GLOB_MAX_ITERATIONS - iterations
    {
      iterations := iterations + 1;
      if iterations > GLOB_MAX_ITERATIONS {
        return false, true;
      }
      if pi < |pattern| && pattern[pi] == '*' {
        pi := pi + 1;
        stack := stack + [Saved(pi, ti)];
      } else if pi < |pattern| && ti < |text| && (pattern[pi] == '?' || pattern[pi] == text[ti]) {
        pi, ti := pi + 1, ti + 1;
      } else if pi == |pattern| && ti == |text| {
        return true, false;
      } else {
        if stack == [] {
          return false, false;
        }
        var saved := stack[|stack| - 1];
        stack := stack[..|stack| - 1];
        if saved.t == |text| {
          return false, false;
        }
        pi, ti := saved.p, saved.t + 1;
        stack := stack + [Saved(pi, ti)];
      }
    }
  }

  lemma StarBranch(p: string, t: string, stack: seq<Saved>, pi: nat, ti: nat)
    requires InLockstep(p, t, Base(stack), pi, ti)
    requires pi < |p| && p[pi] == '*'
    ensures var base := Saved(pi + 1, ti);
      && InLockstep(p, t, base, pi + 1, ti)
      && Base(stack + [base]) == base
      && (Goal(p, t, stack) <==> Goal(p, t, stack + [base]))
  {
    var b := Base(stack);
    assert p[0..] == p && t[0..] == t;
    if stack == [] {
      assert p[pi..][1..] == p[pi + 1..];
      StarChoice(p[pi..], t, ti);
    } else {
      StarReached(p, t, b.p, b.t, pi - b.p);
    }
  }

  lemma MatchBranch(p: string, t: string, b: Saved, pi: nat, ti: nat)
    requires InLockstep(p, t, b, pi, ti)
    requires pi < |p| && ti < |t| && p[pi] != '*' && (p[pi] == '?' || p[pi] == t[ti])
    ensures InLockstep(p, t, b, pi + 1, ti + 1)
  {
    assert p[pi..][1..] == p[pi + 1..] && t[ti..][1..] == t[ti + 1..];
  }

  lemma EndBranch(p: string, t: string, stack: seq<Saved>, pi: nat, ti: nat)
    requires InLockstep(p, t, Base(stack), pi, ti)
    requires pi == |p| && ti == |t|
    ensures Goal(p, t, stack)
  {
    var b := Base(stack);
    assert p[0..] == p && t[0..] == t;
    if stack != [] {
      assert FitsAt(p[b.p..], t, b.t);
    }
  }
}
