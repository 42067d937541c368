/** How lowering moves the version lookups, and exactly when the lookup a read uses finds the
    version its block is in. */
module FlowLookups {
  import opened Wrappers
  import opened FlowIr
  import opened FlowLowering

  /** A read of `x` from `s` finds a version of some finished nested block. */
  predicate Stale(ir: Ir, x: nat, s: nat)
    requires x < |ir.symbols| && s < |ir.scopes|
  {
    VersionForScope(ir, x, s) != AncestorVersion(ir, x, s)
  }

  /** Nothing has been lowered in `c` or inside it yet. */
  ghost predicate Untouched(ir: Ir, c: nat) {
    forall x, k :: 0 <= x < |ir.symbols| && 0 <= k < |ir.symbols[x]| ==>
      !InSubtree(ir.scopes, ir.symbols[x][k].scope, c)
  }

  /** `c` was opened in `s` and is about to be lowered. */
  ghost predicate Ready(ir: Ir, s: nat, c: nat) {
    && Wf(ir) && s < c < |ir.scopes| && ir.scopes[c].parent == Some(s)
    && Settled(ir, c) && Untouched(ir, c)
  }

  // ---- stability of lookups

  lemma {:induction false} LookupStable(older: Ir, newer: Ir, x: nat, s: nat, n: nat)
    requires x < |older.symbols| && x < |newer.symbols| && s < |older.scopes|
    requires older.scopes <= newer.scopes && older.symbols[x] <= newer.symbols[x] && n <= |older.symbols[x]|
    requires forall k :: 0 <= k < |older.symbols[x]| ==> older.symbols[x][k].scope < |older.scopes|
    ensures LatestAccepted(older, x, s, n) == LatestAccepted(newer, x, s, n)
    ensures LatestAround(older, x, s, n) == LatestAround(newer, x, s, n)
  {
    if n > 0 {
      var ver := older.symbols[x][n - 1];
      assert ver == newer.symbols[x][n - 1];
      SubtreeStable(older.scopes, newer.scopes, s, ver.scope);
      SubtreeStable(older.scopes, newer.scopes, ver.scope, s);
      LookupStable(older, newer, x, s, n - 1);
    }
  }

  lemma {:induction false} RejectedTail(ir: Ir, x: nat, s: nat, lo: nat, n: nat)
    requires x < |ir.symbols| && s < |ir.scopes| && lo <= n <= |ir.symbols[x]|
    requires forall k :: lo <= k < n ==> !Accepts(ir, ir.symbols[x][k], s)
    ensures LatestAccepted(ir, x, s, n) == LatestAccepted(ir, x, s, lo)
    decreases n
  {
    if lo < n {
      RejectedTail(ir, x, s, lo, n - 1);
    }
  }

  /** Two scopes around a common one are nested in each other. */
  lemma {:induction false} SubtreeLinear(scopes: seq<Scope>, c: nat, a: nat, b: nat)
    requires InSubtree(scopes, c, a) && InSubtree(scopes, c, b) && a <= b
    ensures InSubtree(scopes, b, a)
    decreases c
  {
    if c == b {
    } else if c == a {
      SubtreeBelow(scopes, c, b);
    } else {
      SubtreeLinear(scopes, scopes[c].parent.value, a, b);
    }
  }

  /** Neither of two distinct children of `s` is inside the other, nor is anything inside both. */
  lemma SiblingsApart(scopes: seq<Scope>, s: nat, a: nat, b: nat, c: nat)
    requires s < a < |scopes| && s < b < |scopes| && a != b
    requires scopes[a].parent == Some(s) && scopes[b].parent == Some(s) && InSubtree(scopes, c, b)
    ensures !InSubtree(scopes, c, a) && !InSubtree(scopes, a, c)
  {
    var lo, hi := if a < b then a else b, if a < b then b else a;
    assert !InSubtree(scopes, hi, lo) by {
      if InSubtree(scopes, hi, lo) {
        SubtreeBelow(scopes, s, lo);
      }
    }
    if InSubtree(scopes, c, a) {
      SubtreeLinear(scopes, c, lo, hi);
    }
    if InSubtree(scopes, a, c) {
      SubtreeTransitive(scopes, a, c, b);
      SubtreeBelow(scopes, a, b);
    }
  }

  /** Lowering one branch moves no lookup from another branch of the same chain. */
  lemma SiblingUntouched(older: Ir, newer: Ir, s: nat, b: nat, c: nat)
    requires Wf(older) && GrowsWithin(older, newer, c) && b != c
    requires s < b < |older.scopes| && s < c < |older.scopes|
    requires older.scopes[b].parent == Some(s) && older.scopes[c].parent == Some(s)
    ensures Untouched(older, b) ==> Untouched(newer, b)
    ensures Settled(older, b) ==> Settled(newer, b)
    ensures forall x :: 0 <= x < |older.symbols| ==>
              && AncestorVersion(newer, x, b) == AncestorVersion(older, x, b)
              && VersionForScope(newer, x, b) == VersionForScope(older, x, b)
              && HasOwn(newer, x, b) == HasOwn(older, x, b)
  {
    assert newer.scopes[b] == older.scopes[b] && newer.scopes[c] == older.scopes[c];
    forall x, k | 0 <= x < |newer.symbols| && |older.symbols[x]| <= k < |newer.symbols[x]|
      ensures !InSubtree(newer.scopes, newer.symbols[x][k].scope, b)
      ensures !InSubtree(newer.scopes, b, newer.symbols[x][k].scope)
    {
      SiblingsApart(newer.scopes, s, b, c, newer.symbols[x][k].scope);
    }
    forall x, k | 0 <= x < |older.symbols| && 0 <= k < |older.symbols[x]|
      ensures newer.symbols[x][k] == older.symbols[x][k]
      ensures InSubtree(newer.scopes, older.symbols[x][k].scope, b) ==
              InSubtree(older.scopes, older.symbols[x][k].scope, b)
      ensures InSubtree(newer.scopes, b, older.symbols[x][k].scope) ==
              InSubtree(older.scopes, b, older.symbols[x][k].scope)
    {
      SubtreeStable(older.scopes, newer.scopes, older.symbols[x][k].scope, b);
      SubtreeStable(older.scopes, newer.scopes, b, older.symbols[x][k].scope);
    }
    forall x | 0 <= x < |older.symbols|
      ensures AncestorVersion(newer, x, b) == AncestorVersion(older, x, b)
      ensures VersionForScope(newer, x, b) == VersionForScope(older, x, b)
      ensures HasOwn(newer, x, b) == HasOwn(older, x, b)
    {
      AncestorUnchanged(older, newer, x, b);
      LookupStable(older, newer, x, b, |older.symbols[x]|);
      RejectedTail(newer, x, b, |older.symbols[x]|, |newer.symbols[x]|);
      if HasOwn(newer, x, b) {
        var k :| 0 <= k < |newer.symbols[x]| && newer.symbols[x][k].scope == b;
        assert InSubtree(newer.scopes, newer.symbols[x][k].scope, b);
        assert older.symbols[x][k].scope == b;
      }
      if HasOwn(older, x, b) {
        var k :| 0 <= k < |older.symbols[x]| && older.symbols[x][k].scope == b;
        assert newer.symbols[x][k].scope == b;
      }
    }
  }

  // ---- opening scopes

  /** A scope just opened in `s` is ready. */
  lemma OpenedReady(older: Ir, s: nat, n: nat)
    requires Wf(older) && s < |older.scopes|
    ensures forall c :: |older.scopes| <= c < |older.scopes| + n ==> Ready(InsertScopes(older, s, n), s, c)
  {
    InsertsGrow(older, s, n);
    var ir := InsertScopes(older, s, n);
    forall c | |older.scopes| <= c < |older.scopes| + n ensures Ready(ir, s, c) {
      forall x, k | 0 <= x < |ir.symbols| && 0 <= k < |ir.symbols[x]|
        ensures !InSubtree(ir.scopes, ir.symbols[x][k].scope, c)
      {
        if InSubtree(ir.scopes, ir.symbols[x][k].scope, c) {
          SubtreeBelow(ir.scopes, ir.symbols[x][k].scope, c);
        }
      }
    }
  }

  /** In a ready scope every read finds the version from around it. */
  lemma ReadyIsFresh(ir: Ir, s: nat, c: nat, x: nat)
    requires Ready(ir, s, c) && x < |ir.symbols|
    ensures !Stale(ir, x, c) && !HasOwn(ir, x, c)
    ensures AncestorVersion(ir, x, c) == AncestorVersion(ir, x, s)
  {
    var n := |ir.symbols[x]|;
    var k := AncestorVersion(ir, x, c);
    LatestAroundSpec(ir, x, c, n);
    forall j | 0 <= j < n ensures ir.symbols[x][j].scope != c {
      assert InSubtree(ir.scopes, c, c);
    }
    LatestAcceptedIs(ir, x, c, n, k);
    NoOwnLookup(ir, s, c, x, n);
  }

  /** Without a version of its own, a scope shares the ancestor lookup of its parent. */
  lemma {:induction false} NoOwnLookup(ir: Ir, s: nat, c: nat, x: nat, n: nat)
    requires x < |ir.symbols| && s < c < |ir.scopes| && ir.scopes[c].parent == Some(s) && n <= |ir.symbols[x]|
    requires forall k :: 0 <= k < n ==> ir.symbols[x][k].scope != c
    ensures LatestAround(ir, x, c, n) == LatestAround(ir, x, s, n)
  {
    if n > 0 {
      NoOwnLookup(ir, s, c, x, n - 1);
    }
  }

  // ---- forwarding and merging, symbol by symbol

  lemma {:induction false} LastOwnSpec(ir: Ir, x: nat, d: nat, n: nat)
    requires x < |ir.symbols| && n <= |ir.symbols[x]|
    ensures match LastOwn(ir, x, d, n)
            case None => forall k :: 0 <= k < n ==> ir.symbols[x][k].scope != d
            case Some(k) =>
              k < n && ir.symbols[x][k].scope == d && forall j :: k < j < n ==> ir.symbols[x][j].scope != d
  {
    if n > 0 {
      LastOwnSpec(ir, x, d, n - 1);
    }
  }

  ghost predicate Pushed(older: Ir, newer: Ir, x: nat, source: Expr, s: nat)
    requires x < |older.symbols| && x < |newer.symbols|
  {
    && |newer.symbols[x]| == |older.symbols[x]| + 1
    && older.symbols[x] <= newer.symbols[x]
    && newer.symbols[x][|older.symbols[x]|].source == source
    && newer.symbols[x][|older.symbols[x]|].scope == s
  }

  lemma {:induction false} ForwardSpec(ir: Ir, d: nat, s: nat, n: nat, x: nat)
    requires Wf(ir) && x < n <= |ir.symbols| && s < |ir.scopes|
    ensures var r := Forward(ir, d, s, n);
            match LastOwn(ir, x, d, |ir.symbols[x]|)
            case None => r.symbols[x] == ir.symbols[x]
            case Some(k) => Pushed(ir, r, x, SymbolRef(x, k), s)
    decreases n
  {
    var r := Forward(ir, d, s, n - 1);
    ForwardGrows(ir, d, s, n - 1);
    if x == n - 1 {
      LastOwnSame(ir, r, x, d, |ir.symbols[x]|);
    } else {
      ForwardSpec(ir, d, s, n - 1, x);
    }
  }

  lemma {:induction false} LastOwnSame(a: Ir, b: Ir, x: nat, d: nat, n: nat)
    requires x < |a.symbols| && x < |b.symbols| && a.symbols[x] == b.symbols[x] && n <= |a.symbols[x]|
    ensures LastOwn(a, x, d, n) == LastOwn(b, x, d, n)
  {
    if n > 0 {
      LastOwnSame(a, b, x, d, n - 1);
    }
  }

  lemma ContributionsAlike(ir: Ir, r: Ir, x: nat, scopes: seq<nat>, implicitElse: bool, s: nat)
    requires x < |ir.symbols| && x < |r.symbols| && r.scopes == ir.scopes
    requires AncestorVersion(r, x, s) == AncestorVersion(ir, x, s)
    requires forall b :: b in scopes ==>
               && b < |ir.scopes|
               && VersionForScope(r, x, b) == VersionForScope(ir, x, b)
               && HasOwn(r, x, b) == HasOwn(ir, x, b)
    ensures Contributions(r, x, scopes, implicitElse, s) == Contributions(ir, x, scopes, implicitElse, s)
    ensures Assigned(r, x, scopes) == Assigned(ir, x, scopes)
  {
    hide VersionForScope, AncestorVersion, HasOwn;
    forall i | 0 <= i < |scopes| ensures scopes[i] in scopes {
    }
  }

  /** One symbol's merge depends on its own versions only. */
  lemma MergeOneSpec(ir: Ir, r: Ir, scopes: seq<nat>, implicitElse: bool, s: nat, x: nat)
    requires Wf(ir) && x < |ir.symbols| && s < |ir.scopes| && forall b :: b in scopes ==> b < |ir.scopes|
    requires |r.symbols| == |ir.symbols| && r.scopes == ir.scopes && r.symbols[x] == ir.symbols[x]
    ensures var m := MergeOne(r, scopes, implicitElse, s, x);
            if Assigned(ir, x, scopes)
            then Pushed(ir, m, x, BranchMerge(Contributions(ir, x, scopes, implicitElse, s)), s)
            else m.symbols[x] == ir.symbols[x]
  {
    hide InSubtree, Contributions, Assigned;
    LookupStable(ir, r, x, s, |ir.symbols[x]|);
    forall b | b in scopes ensures VersionForScope(ir, x, b) == VersionForScope(r, x, b) {
      LookupStable(ir, r, x, b, |ir.symbols[x]|);
    }
    ContributionsAlike(ir, r, x, scopes, implicitElse, s);
  }

  lemma {:induction false} MergeSpec(ir: Ir, scopes: seq<nat>, implicitElse: bool, s: nat, n: nat, x: nat)
    requires Wf(ir) && x < n <= |ir.symbols| && s < |ir.scopes| && forall b :: b in scopes ==> b < |ir.scopes|
    ensures var r := Merge(ir, scopes, implicitElse, s, n);
            if Assigned(ir, x, scopes)
            then Pushed(ir, r, x, BranchMerge(Contributions(ir, x, scopes, implicitElse, s)), s)
            else r.symbols[x] == ir.symbols[x]
    decreases n
  {
    hide InSubtree, Contributions, Assigned, MergeOne, Wf;
    var r := Merge(ir, scopes, implicitElse, s, n - 1);
    MergeGrows(ir, scopes, implicitElse, s, n - 1);
    if x == n - 1 {
      MergeOneSpec(ir, r, scopes, implicitElse, s, x);
    } else {
      MergeSpec(ir, scopes, implicitElse, s, n - 1, x);
      MergeOneElsewhere(r, scopes, implicitElse, s, n - 1, x);
    }
  }

  lemma MergeOneElsewhere(ir: Ir, scopes: seq<nat>, implicitElse: bool, s: nat, y: nat, x: nat)
    requires x < |ir.symbols| && y < |ir.symbols| && x != y && forall b :: b in scopes ==> b < |ir.scopes|
    ensures MergeOne(ir, scopes, implicitElse, s, y).symbols[x] == ir.symbols[x]
  {
    hide Contributions, Assigned;
  }
}
