/** Glob patterns over names and over paths. */
module Globs {
  import opened Wrappers
  import opened Wildcards

  newtype Byte = b: int | 0 <= b < 256

  const STAR: Byte := '*' as int as Byte
  const QUESTION: Byte := '?' as int as Byte

  predicate IsStar(p: Byte) { p == STAR }

  /** One byte of the text against one byte of the pattern. */
  predicate Fits(p: Byte, t: Byte) { p == QUESTION || p == t }

  /** What a glob means: `*` is any run of bytes, `?` any byte, everything else itself. */
  predicate Glob(pattern: seq<Byte>, text: seq<Byte>) {
    Wild(IsStar, Fits, pattern, text, 0, 0)
  }

  /** A glob of one byte, and a glob of two parts, which splits the text: so every glob is what its bytes are. */
  lemma GlobOfOne(p: Byte, text: seq<Byte>)
    ensures Glob([p], text) <==> p == STAR || (|text| == 1 && (p == QUESTION || p == text[0]))
  {
    WildOfOne(IsStar, Fits, p, text);
  }

  lemma GlobIsSplit(a: seq<Byte>, b: seq<Byte>, text: seq<Byte>)
    ensures Glob(a + b, text) <==> exists k :: 0 <= k <= |text| && Glob(a, text[..k]) && Glob(b, text[k..])
  {
    WildIsSplit(IsStar, Fits, a, b, text);
  }

  /** What the search makes of it. */
  predicate GlobFound(pattern: seq<Byte>, text: seq<Byte>) {
    Search(IsStar, Fits, pattern, text, 0, 0, None)
  }

  /** Within the product of the lengths in steps. */
  method GlobMatch(pattern: seq<Byte>, text: seq<Byte>) returns (matched: bool, ghost steps: nat)
    ensures matched == GlobFound(pattern, text)
    ensures steps <= (|text| + 1) * (|pattern| + 1)
  {
    hide Search;
    var px: nat, tx: nat := 0, 0;
    var starPx: Option<nat>, starTx: nat := None, 0;
    ghost var width := |pattern| + 1;
    ghost var star: Option<Star> := None;
    steps := 0;
    while tx < |text|
      invariant star == (if starPx.Some? then Some(Star(starPx.value, starTx)) else None)
      invariant InRange(pattern, text, px, tx, star)
      invariant Search(IsStar, Fits, pattern, text, px, tx, star) == GlobFound(pattern, text)
      invariant steps <= Progress(width, px, star)
      decreases |text| - StarText(star), |pattern| - px
    {
      SearchSteps(IsStar, Fits, pattern, text, px, tx, star);
      if px < |pattern| && (pattern[px] == QUESTION || pattern[px] == text[tx]) {
        px := px + 1;
        tx := tx + 1;
      } else if px < |pattern| && pattern[px] == STAR {
        starPx := Some(px);
        starTx := tx;
        NewStar(width, px, tx, star);
        star := Some(Star(px, tx));
        px := px + 1;
      } else if starPx.Some? {
        LongerRun(width, px, star.value);
        px := starPx.value + 1;
        starTx := starTx + 1;
        tx := starTx;
        star := Some(Star(starPx.value, starTx));
      } else {
        StepsBounded(|text|, width, px, star);
        return false, steps;
      }
      steps := steps + 1;
    }
    SearchSteps(IsStar, Fits, pattern, text, px, tx, star);
    StepsBounded(|text|, width, px, star);
    ghost var tail := px;
    while px < |pattern| && pattern[px] == STAR
      invariant tail <= px <= |pattern| && forall k :: tail <= k < px ==> IsStar(pattern[k])
    {
      px := px + 1;
    }
    matched := px == |pattern|;
  }

  /** The search decides the glob for every text without a `*`. */
  lemma GlobFoundIsGlob(pattern: seq<Byte>, text: seq<Byte>)
    requires STAR !in text
    ensures GlobFound(pattern, text) <==> Glob(pattern, text)
  {
    SearchIsWild(IsStar, Fits, pattern, text, 0, 0, None);
  }

  // ---- texts with a `*`

  /** `?` for every byte, with a `*` before byte `i`. */
  function StarAt(n: nat, i: nat): (p: seq<Byte>)
    requires i < n
    ensures |p| == n + 1
  {
    seq(n + 1, k => if k == i then STAR else QUESTION)
  }

  lemma {:induction false} QuestionsTake(p: seq<Byte>, text: seq<Byte>, px: nat, tx: nat, n: nat)
    requires px + n <= |p| && tx + n <= |text| && forall k :: px <= k < px + n ==> p[k] == QUESTION
    ensures Search(IsStar, Fits, p, text, px, tx, None) == Search(IsStar, Fits, p, text, px + n, tx + n, None)
    decreases n
  {
    if n > 0 {
      QuestionsTake(p, text, px + 1, tx + 1, n - 1);
    }
  }

  /** A `*` in the pattern is spent on a `*` in the text, so a match can be missed. */
  lemma LiteralStarMisleads(text: seq<Byte>, i: nat)
    requires i < |text| && text[i] == STAR
    ensures Glob(StarAt(|text|, i), text) && !GlobFound(StarAt(|text|, i), text)
  {
    var n := |text|;
    var p := StarAt(n, i);
    QuestionsTake(p, text, 0, 0, i);
    QuestionsTake(p, text, i + 1, i + 1, n - i - 1);
    assert !IsStar(p[n]);
    assert !AllStars(IsStar, p, n);
    QuestionsFit(p, text, i + 1, i);
    assert Wild(IsStar, Fits, p, text, i, i);
    LiteralsFit(IsStar, Fits, p, text, 0, 0, i);
  }

  lemma QuestionsFit(p: seq<Byte>, text: seq<Byte>, i: nat, j: nat)
    requires i <= |p| && |p| - i == |text| - j && forall k :: i <= k < |p| ==> p[k] == QUESTION
    ensures Wild(IsStar, Fits, p, text, i, j)
  {
    LiteralsFit(IsStar, Fits, p, text, i, j, |p| - i);
  }

  /** Exactly the texts without a `*` are safe from every pattern. */
  lemma GlobFoundIsGlobIff(text: seq<Byte>)
    ensures (forall pattern :: GlobFound(pattern, text) <==> Glob(pattern, text)) <==> STAR !in text
  {
    if STAR in text {
      var i :| 0 <= i < |text| && text[i] == STAR;
      LiteralStarMisleads(text, i);
    } else {
      forall pattern ensures GlobFound(pattern, text) <==> Glob(pattern, text) {
        GlobFoundIsGlob(pattern, text);
      }
    }
  }

  // ---- paths

  const DOUBLE_STAR: seq<Byte> := [STAR, STAR]

  predicate IsDoubleStar(segment: seq<Byte>) { segment == DOUBLE_STAR }

  /** `**` is any number of whole segments, every other segment one segment its glob matches. */
  predicate PathGlob(pattern: seq<seq<Byte>>, path: seq<seq<Byte>>) {
    Wild(IsDoubleStar, Glob, pattern, path, 0, 0)
  }

  lemma PathGlobOfOne(segment: seq<Byte>, path: seq<seq<Byte>>)
    ensures PathGlob([segment], path) <==> segment == [STAR, STAR] || (|path| == 1 && Glob(segment, path[0]))
  {
    WildOfOne(IsDoubleStar, Glob, segment, path);
  }

  /** And a path glob is what its segments are. */
  lemma PathGlobIsSplit(a: seq<seq<Byte>>, b: seq<seq<Byte>>, path: seq<seq<Byte>>)
    ensures PathGlob(a + b, path) <==> exists k :: 0 <= k <= |path| && PathGlob(a, path[..k]) && PathGlob(b, path[k..])
  {
    WildIsSplit(IsDoubleStar, Glob, a, b, path);
  }

  predicate SegmentFound(pattern: seq<Byte>, segment: seq<Byte>) {
    !IsDoubleStar(pattern) && GlobFound(pattern, segment)
  }

  predicate PathFound(pattern: seq<seq<Byte>>, path: seq<seq<Byte>>) {
    Search(IsDoubleStar, SegmentFound, pattern, path, 0, 0, None)
  }

  method PathGlobMatchSegs(pattern: seq<seq<Byte>>, path: seq<seq<Byte>>) returns (matched: bool, ghost steps: nat)
    ensures matched == PathFound(pattern, path)
    ensures steps <= (|path| + 1) * (|pattern| + 1)
  {
    hide Search;
    var pi: nat, si: nat := 0, 0;
    var starPi: Option<nat>, starSi: nat := None, 0;
    ghost var width := |pattern| + 1;
    ghost var star: Option<Star> := None;
    steps := 0;
    while si < |path|
      invariant star == (if starPi.Some? then Some(Star(starPi.value, starSi)) else None)
      invariant InRange(pattern, path, pi, si, star)
      invariant Search(IsDoubleStar, SegmentFound, pattern, path, pi, si, star) == PathFound(pattern, path)
      invariant steps <= Progress(width, pi, star)
      decreases |path| - StarText(star), |pattern| - pi
    {
      SearchSteps(IsDoubleStar, SegmentFound, pattern, path, pi, si, star);
      if pi < |pattern| && pattern[pi] == DOUBLE_STAR {
        starPi := Some(pi);
        starSi := si;
        NewStar(width, pi, si, star);
        star := Some(Star(pi, si));
        pi := pi + 1;
      } else {
        var fits := false;
        if pi < |pattern| {
          ghost var cost;
          fits, cost := GlobMatch(pattern[pi], path[si]);
        }
        if fits {
          pi := pi + 1;
          si := si + 1;
        } else if starPi.Some? {
          LongerRun(width, pi, star.value);
          pi := starPi.value + 1;
          starSi := starSi + 1;
          si := starSi;
          star := Some(Star(starPi.value, starSi));
        } else {
          StepsBounded(|path|, width, pi, star);
          return false, steps;
        }
      }
      steps := steps + 1;
    }
    SearchSteps(IsDoubleStar, SegmentFound, pattern, path, pi, si, star);
    StepsBounded(|path|, width, pi, star);
    ghost var tail := pi;
    while pi < |pattern| && pattern[pi] == DOUBLE_STAR
      invariant tail <= pi <= |pattern| && forall k :: tail <= k < pi ==> IsDoubleStar(pattern[k])
    {
      pi := pi + 1;
    }
    matched := pi == |pattern|;
  }

  lemma {:induction false} FitsAlike<P, T>(isStar: P -> bool, f: (P, T) -> bool, g: (P, T) -> bool, p: seq<P>,
        t: seq<T>, i: nat, j: nat)
    requires i <= |p| && j <= |t|
    requires forall a, b :: 0 <= a < |p| && 0 <= b < |t| && !isStar(p[a]) ==> f(p[a], t[b]) == g(p[a], t[b])
    ensures Wild(isStar, f, p, t, i, j) == Wild(isStar, g, p, t, i, j)
    decreases |p| - i + |t| - j
  {
    if i < |p| {
      FitsAlike(isStar, f, g, p, t, i + 1, j);
      if j < |t| {
        FitsAlike(isStar, f, g, p, t, i, j + 1);
        FitsAlike(isStar, f, g, p, t, i + 1, j + 1);
      }
    }
  }

  /** For every path, the search decides the meaning with segments matched the way names are; without
      a `*` in the path that is the meaning of the globs themselves. */
  lemma PathFoundIsPathGlob(pattern: seq<seq<Byte>>, path: seq<seq<Byte>>)
    ensures PathFound(pattern, path) <==> Wild(IsDoubleStar, GlobFound, pattern, path, 0, 0)
    ensures (forall s :: s in path ==> STAR !in s) ==> (PathFound(pattern, path) <==> PathGlob(pattern, path))
  {
    SearchIsWild(IsDoubleStar, SegmentFound, pattern, path, 0, 0, None);
    FitsAlike(IsDoubleStar, SegmentFound, GlobFound, pattern, path, 0, 0);
    if forall s :: s in path ==> STAR !in s {
      forall a, b | 0 <= a < |pattern| && 0 <= b < |path| && !IsDoubleStar(pattern[a])
        ensures GlobFound(pattern[a], path[b]) == Glob(pattern[a], path[b])
      {
        GlobFoundIsGlob(pattern[a], path[b]);
      }
      FitsAlike(IsDoubleStar, GlobFound, Glob, pattern, path, 0, 0);
    }
  }
}
