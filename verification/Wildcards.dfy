/** Matching with a wildcard for any run of items: the recursive definition, and the search that only
    ever goes back to the last wildcard it met. */
module Wildcards {
  import opened Wrappers

  /** The pattern from `i` matches the text from `j`: a star takes any run of items, every other part
      one item it fits. */
  predicate Wild<P, T>(isStar: P -> bool, fits: (P, T) -> bool, p: seq<P>, t: seq<T>, i: nat, j: nat)
    requires i <= |p| && j <= |t|
    decreases |p| - i + |t| - j
  {
    if i == |p| then j == |t|
    else if isStar(p[i]) then Wild(isStar, fits, p, t, i + 1, j) || (j < |t| && Wild(isStar, fits, p, t, i, j + 1))
    else j < |t| && fits(p[i], t[j]) && Wild(isStar, fits, p, t, i + 1, j + 1)
  }

  /** A star and where its run ends. */
  datatype Star = Star(px: nat, tx: nat)

  predicate AllStars<P>(isStar: P -> bool, p: seq<P>, px: nat) {
    forall k :: px <= k < |p| ==> isStar(p[k])
  }

  predicate InRange<P, T>(p: seq<P>, t: seq<T>, px: nat, tx: nat, star: Option<Star>) {
    px <= |p| && tx <= |t| && (star.Some? ==> star.value.px < px && star.value.tx <= tx)
  }

  function StarText(star: Option<Star>): nat {
    if star.Some? then star.value.tx else 0
  }

  /** The search from a state of its loop: an item that fits is taken at once, a star is noted, and a
      dead end lengthens the run of the last star by one item. */
  predicate Search<P, T>(isStar: P -> bool, fits: (P, T) -> bool, p: seq<P>, t: seq<T>, px: nat, tx: nat,
        star: Option<Star>)
    requires InRange(p, t, px, tx, star)
    decreases |t| - StarText(star), |p| - px
  {
    if tx == |t| then AllStars(isStar, p, px)
    else if px < |p| && fits(p[px], t[tx]) then Search(isStar, fits, p, t, px + 1, tx + 1, star)
    else if px < |p| && isStar(p[px]) then Search(isStar, fits, p, t, px + 1, tx, Some(Star(px, tx)))
    else if star.Some? then
      Search(isStar, fits, p, t, star.value.px + 1, star.value.tx + 1, Some(Star(star.value.px, star.value.tx + 1)))
    else false
  }

  /** One step of the search. */
  lemma SearchSteps<P, T>(isStar: P -> bool, fits: (P, T) -> bool, p: seq<P>, t: seq<T>, px: nat, tx: nat,
        star: Option<Star>)
    requires InRange(p, t, px, tx, star)
    ensures tx == |t| ==> (Search(isStar, fits, p, t, px, tx, star) <==> AllStars(isStar, p, px))
    ensures tx < |t| ==>
              Search(isStar, fits, p, t, px, tx, star) ==
              if px < |p| && fits(p[px], t[tx]) then Search(isStar, fits, p, t, px + 1, tx + 1, star)
              else if px < |p| && isStar(p[px]) then Search(isStar, fits, p, t, px + 1, tx, Some(Star(px, tx)))
              else if star.Some? then
                Search(isStar, fits, p, t, star.value.px + 1, star.value.tx + 1,
                  Some(Star(star.value.px, star.value.tx + 1)))
              else false
  {
  }

  /** Since the last star, every part fitted the item against it. */
  ghost predicate Literal<P, T>(isStar: P -> bool, fits: (P, T) -> bool, p: seq<P>, t: seq<T>, px: nat, tx: nat,
        star: Star)
    requires InRange(p, t, px, tx, Some(star))
  {
    && tx - star.tx == px - star.px - 1
    && isStar(p[star.px])
    && forall k {:trigger p[k]} :: star.px < k < px ==> !isStar(p[k]) && fits(p[k], t[star.tx + k - star.px - 1])
  }

  lemma {:induction false} StarTakesMore<P, T>(isStar: P -> bool, fits: (P, T) -> bool, p: seq<P>, t: seq<T>, i: nat,
        j: nat, k: nat)
    requires i < |p| && j <= k <= |t| && isStar(p[i]) && Wild(isStar, fits, p, t, i, k)
    ensures Wild(isStar, fits, p, t, i, j)
    decreases k - j
  {
    if j < k {
      StarTakesMore(isStar, fits, p, t, i, j + 1, k);
    }
  }

  lemma {:induction false} StarTakes<P, T>(isStar: P -> bool, fits: (P, T) -> bool, p: seq<P>, t: seq<T>, i: nat,
        j: nat) returns (k: nat)
    requires i < |p| && j <= |t| && isStar(p[i]) && Wild(isStar, fits, p, t, i, j)
    ensures j <= k <= |t| && Wild(isStar, fits, p, t, i + 1, k)
    decreases |t| - j
  {
    if Wild(isStar, fits, p, t, i + 1, j) {
      k := j;
    } else {
      k := StarTakes(isStar, fits, p, t, i, j + 1);
    }
  }

  /** Parts that are not stars take one item each. */
  lemma {:induction false} LiteralsTake<P, T>(isStar: P -> bool, fits: (P, T) -> bool, p: seq<P>, t: seq<T>, i: nat,
        j: nat, n: nat)
    requires i + n <= |p| && j <= |t| && Wild(isStar, fits, p, t, i, j)
    requires forall k :: i <= k < i + n ==> !isStar(p[k])
    ensures j + n <= |t| && Wild(isStar, fits, p, t, i + n, j + n)
    decreases n
  {
    if n > 0 {
      LiteralsTake(isStar, fits, p, t, i + 1, j + 1, n - 1);
    }
  }

  lemma {:induction false} LiteralsFit<P, T>(isStar: P -> bool, fits: (P, T) -> bool, p: seq<P>, t: seq<T>, i: nat,
        j: nat, n: nat)
    requires i + n <= |p| && j + n <= |t| && Wild(isStar, fits, p, t, i + n, j + n)
    requires forall k {:trigger p[k]} :: i <= k < i + n ==> !isStar(p[k]) && fits(p[k], t[j + k - i])
    ensures Wild(isStar, fits, p, t, i, j)
    decreases n
  {
    if n > 0 {
      LiteralsFit(isStar, fits, p, t, i + 1, j + 1, n - 1);
      assert !isStar(p[i]) && fits(p[i], t[j]);
    }
  }

  /** A second star makes the first one's choice irrelevant. */
  lemma NextStar<P, T>(isStar: P -> bool, fits: (P, T) -> bool, p: seq<P>, t: seq<T>, px: nat, tx: nat, star: Star)
    requires InRange(p, t, px, tx, Some(star)) && Literal(isStar, fits, p, t, px, tx, star)
    requires px < |p| && isStar(p[px])
    ensures Wild(isStar, fits, p, t, star.px, star.tx) <==> Wild(isStar, fits, p, t, px, tx)
  {
    var n := px - star.px - 1;
    if Wild(isStar, fits, p, t, star.px, star.tx) {
      var k := StarTakes(isStar, fits, p, t, star.px, star.tx);
      LiteralsTake(isStar, fits, p, t, star.px + 1, k, n);
      StarTakesMore(isStar, fits, p, t, px, tx, k + n);
    }
    if Wild(isStar, fits, p, t, px, tx) {
      LiteralsFit(isStar, fits, p, t, star.px + 1, star.tx, n);
    }
  }

  /** At a dead end the star's run is too short. */
  lemma DeadEnd<P, T>(isStar: P -> bool, fits: (P, T) -> bool, p: seq<P>, t: seq<T>, px: nat, tx: nat, star: Star)
    requires InRange(p, t, px, tx, Some(star)) && Literal(isStar, fits, p, t, px, tx, star)
    requires tx < |t| && !Wild(isStar, fits, p, t, px, tx)
    ensures Wild(isStar, fits, p, t, star.px, star.tx) <==> Wild(isStar, fits, p, t, star.px, star.tx + 1)
  {
    if Wild(isStar, fits, p, t, star.px + 1, star.tx) {
      LiteralsTake(isStar, fits, p, t, star.px + 1, star.tx, px - star.px - 1);
    }
  }

  lemma {:induction false} NothingLeft<P, T>(isStar: P -> bool, fits: (P, T) -> bool, p: seq<P>, t: seq<T>, px: nat)
    requires px <= |p|
    ensures Wild(isStar, fits, p, t, px, |t|) <==> AllStars(isStar, p, px)
    decreases |p| - px
  {
    if px < |p| {
      NothingLeft(isStar, fits, p, t, px + 1);
    }
  }

  lemma TextUsedUp<P, T>(isStar: P -> bool, fits: (P, T) -> bool, p: seq<P>, t: seq<T>, px: nat, star: Star)
    requires InRange(p, t, px, |t|, Some(star)) && Literal(isStar, fits, p, t, px, |t|, star)
    ensures Wild(isStar, fits, p, t, star.px, star.tx) <==> AllStars(isStar, p, px)
  {
    var n := px - star.px - 1;
    NothingLeft(isStar, fits, p, t, px);
    if Wild(isStar, fits, p, t, star.px, star.tx) {
      var k := StarTakes(isStar, fits, p, t, star.px, star.tx);
      LiteralsTake(isStar, fits, p, t, star.px + 1, k, n);
    }
    if AllStars(isStar, p, px) {
      LiteralsFit(isStar, fits, p, t, star.px + 1, star.tx, n);
    }
  }

  ghost predicate StarsFitNothing<P(!new), T(!new)>(isStar: P -> bool, fits: (P, T) -> bool, t: seq<T>) {
    forall a, j :: 0 <= j < |t| && fits(a, t[j]) ==> !isStar(a)
  }

  /** Going back to the last star only is complete: from every state the search decides the definition. */
  lemma {:induction false} SearchIsWild<P(!new), T(!new)>(isStar: P -> bool, fits: (P, T) -> bool, p: seq<P>,
        t: seq<T>, px: nat, tx: nat, star: Option<Star>)
    requires StarsFitNothing(isStar, fits, t) && InRange(p, t, px, tx, star)
    requires star.Some? ==> Literal(isStar, fits, p, t, px, tx, star.value)
    ensures Search(isStar, fits, p, t, px, tx, star) <==>
            if star.Some? then Wild(isStar, fits, p, t, star.value.px, star.value.tx)
            else Wild(isStar, fits, p, t, px, tx)
    decreases |t| - StarText(star), |p| - px
  {
    if tx == |t| {
      if star.Some? {
        TextUsedUp(isStar, fits, p, t, px, star.value);
      } else {
        NothingLeft(isStar, fits, p, t, px);
      }
    } else if px < |p| && fits(p[px], t[tx]) {
      SearchIsWild(isStar, fits, p, t, px + 1, tx + 1, star);
    } else if px < |p| && isStar(p[px]) {
      SearchIsWild(isStar, fits, p, t, px + 1, tx, Some(Star(px, tx)));
      if star.Some? {
        NextStar(isStar, fits, p, t, px, tx, star.value);
      }
    } else if star.Some? {
      DeadEnd(isStar, fits, p, t, px, tx, star.value);
      SearchIsWild(isStar, fits, p, t, star.value.px + 1, star.value.tx + 1,
        Some(Star(star.value.px, star.value.tx + 1)));
    }
  }

  // ---- what a pattern means, by its parts

  /** Two patterns one after another match a text that splits between them. */
  lemma {:induction false} WildConcat<P, T>(isStar: P -> bool, fits: (P, T) -> bool, a: seq<P>, b: seq<P>, t: seq<T>,
        i: nat, j: nat)
    requires i <= |a| && j <= |t|
    ensures Wild(isStar, fits, a + b, t, i, j) <==>
            exists k :: j <= k <= |t| && Wild(isStar, fits, a, t[..k], i, j) && Wild(isStar, fits, a + b, t, |a|, k)
    decreases |a| - i + |t| - j
  {
    if i < |a| && isStar(a[i]) {
      WildConcat(isStar, fits, a, b, t, i + 1, j);
      if j < |t| {
        WildConcat(isStar, fits, a, b, t, i, j + 1);
      }
    } else if i < |a| && j < |t| {
      WildConcat(isStar, fits, a, b, t, i + 1, j + 1);
    } else if i == |a| && Wild(isStar, fits, a + b, t, i, j) {
      assert Wild(isStar, fits, a, t[..j], i, j);
    }
  }

  /** Only what comes after a place matters. */
  lemma {:induction false} WildFrom<P, T>(isStar: P -> bool, fits: (P, T) -> bool, p: seq<P>, t: seq<T>, i: nat, j: nat,
        q: seq<P>, u: seq<T>)
    requires i <= |p| && j <= |t| && q == p[i..] && u == t[j..]
    ensures Wild(isStar, fits, p, t, i, j) == Wild(isStar, fits, q, u, 0, 0)
    decreases |p| - i + |t| - j
  {
    WildShift(isStar, fits, p, t, i, j, q, u, 0, 0);
  }

  lemma {:induction false} WildShift<P, T>(isStar: P -> bool, fits: (P, T) -> bool, p: seq<P>, t: seq<T>, i: nat,
        j: nat, q: seq<P>, u: seq<T>, k: nat, l: nat)
    requires i + k <= |p| && j + l <= |t| && q == p[i..] && u == t[j..]
    ensures Wild(isStar, fits, p, t, i + k, j + l) == Wild(isStar, fits, q, u, k, l)
    decreases |q| - k + |u| - l
  {
    if k < |q| {
      WildShift(isStar, fits, p, t, i, j, q, u, k + 1, l);
      if l < |u| {
        WildShift(isStar, fits, p, t, i, j, q, u, k, l + 1);
        WildShift(isStar, fits, p, t, i, j, q, u, k + 1, l + 1);
      }
    }
  }

  /** A pattern of two parts, and one of a single item. */
  lemma WildIsSplit<P, T>(isStar: P -> bool, fits: (P, T) -> bool, a: seq<P>, b: seq<P>, t: seq<T>)
    ensures Wild(isStar, fits, a + b, t, 0, 0) <==>
            exists k :: 0 <= k <= |t| && Wild(isStar, fits, a, t[..k], 0, 0) && Wild(isStar, fits, b, t[k..], 0, 0)
  {
    WildConcat(isStar, fits, a, b, t, 0, 0);
    forall k | 0 <= k <= |t|
      ensures Wild(isStar, fits, a + b, t, |a|, k) == Wild(isStar, fits, b, t[k..], 0, 0)
    {
      WildFrom(isStar, fits, a + b, t, |a|, k, b, t[k..]);
    }
  }

  lemma {:induction false} WildOfOne<P, T>(isStar: P -> bool, fits: (P, T) -> bool, p: P, t: seq<T>)
    ensures Wild(isStar, fits, [p], t, 0, 0) <==> isStar(p) || (|t| == 1 && fits(p, t[0]))
  {
    if isStar(p) {
      assert Wild(isStar, fits, [p], t, 0, |t|);
      StarTakesMore(isStar, fits, [p], t, 0, 0, |t|);
    }
  }

  /** What every step of the search adds one to, at least. */
  function Progress(width: nat, px: nat, star: Option<Star>): nat {
    StarText(star) * width + px
  }

  lemma {:induction false} TimesGrows(a: nat, b: nat, width: nat)
    requires a < b
    ensures a * width + width <= b * width
    decreases b
  {
    if a + 1 < b {
      TimesGrows(a, b - 1, width);
    }
    assert b * width == (b - 1) * width + width;
  }

  lemma LongerRun(width: nat, px: nat, star: Star)
    requires px < width
    ensures Progress(width, px, Some(star)) < Progress(width, star.px + 1, Some(Star(star.px, star.tx + 1)))
  {
    TimesGrows(star.tx, star.tx + 1, width);
  }

  lemma NewStar(width: nat, px: nat, tx: nat, star: Option<Star>)
    requires px + 1 < width && StarText(star) <= tx
    ensures Progress(width, px, star) < Progress(width, px + 1, Some(Star(px, tx)))
  {
    if StarText(star) < tx {
      TimesGrows(StarText(star), tx, width);
    }
  }

  lemma StepsBounded(length: nat, width: nat, px: nat, star: Option<Star>)
    requires StarText(star) <= length && px < width
    ensures Progress(width, px, star) <= (length + 1) * width
  {
    TimesGrows(StarText(star), length + 1, width);
  }
}
