/** The part of the analysis IR that flow merging works on: scopes, symbol versions and the
    expressions they hold, with the two version lookups.

    A version lookup from a scope `s` comes in two forms. `VersionForScope` is what every read of a
    variable uses; it also sees versions created in scopes nested inside `s`.
    `AncestorVersion` sees only versions created in `s` or around it. */
module FlowIr {
  import opened Wrappers

  datatype Expr =
    | Lit(value: int)
    | SymbolRef(sym: nat, ver: nat)
    | BranchMerge(parts: seq<Expr>)

  datatype Version = Version(source: Expr, scope: nat, order: nat)

  datatype Scope = Scope(parent: Option<nat>, order: nat)

  datatype Ir = Ir(scopes: seq<Scope>, symbols: seq<seq<Version>>, nextOrder: nat)

  /** `c` is `root` or nested inside it. */
  predicate InSubtree(scopes: seq<Scope>, c: nat, root: nat)
    decreases c
  {
    c == root ||
    (c < |scopes| && scopes[c].parent.Some? && scopes[c].parent.value < c &&
     InSubtree(scopes, scopes[c].parent.value, root))
  }

  /** Every index is in range, scope 0 is the root around everything, and every symbol starts with
      the version of its declaration in the root scope. */
  ghost predicate Wf(ir: Ir) {
    && |ir.scopes| > 0
    && ir.scopes[0].parent == None
    && (forall c :: 0 <= c < |ir.scopes| ==> ir.scopes[c].order < ir.nextOrder)
    && (forall c :: 0 < c < |ir.scopes| ==> ir.scopes[c].parent.Some? && ir.scopes[c].parent.value < c)
    && (forall x :: 0 <= x < |ir.symbols| ==> |ir.symbols[x]| > 0 && ir.symbols[x][0].scope == 0)
    && (forall x, k :: 0 <= x < |ir.symbols| && 0 <= k < |ir.symbols[x]| ==>
          ir.symbols[x][k].scope < |ir.scopes| && ir.symbols[x][k].order < ir.nextOrder)
  }

  /** What `version_for_scope` accepts for a lookup from `s`: a version of `s` itself, of a scope
      around `s` unless it was created after `s`, or of a scope inside `s`. */
  predicate Accepts(ir: Ir, ver: Version, s: nat)
    requires s < |ir.scopes|
  {
    || ver.scope == s
    || (InSubtree(ir.scopes, s, ver.scope) && ver.order <= ir.scopes[s].order)
    || (!InSubtree(ir.scopes, s, ver.scope) && InSubtree(ir.scopes, ver.scope, s))
  }

  /** The latest accepted version among the first `n`, else 0. */
  function LatestAccepted(ir: Ir, x: nat, s: nat, n: nat): nat
    requires x < |ir.symbols| && s < |ir.scopes| && n <= |ir.symbols[x]|
  {
    if n == 0 then 0
    else if Accepts(ir, ir.symbols[x][n - 1], s) then n - 1
    else LatestAccepted(ir, x, s, n - 1)
  }

  function VersionForScope(ir: Ir, x: nat, s: nat): nat
    requires x < |ir.symbols| && s < |ir.scopes|
  {
    LatestAccepted(ir, x, s, |ir.symbols[x]|)
  }

  function LatestAround(ir: Ir, x: nat, s: nat, n: nat): nat
    requires x < |ir.symbols| && n <= |ir.symbols[x]|
  {
    if n == 0 then 0
    else if InSubtree(ir.scopes, s, ir.symbols[x][n - 1].scope) then n - 1
    else LatestAround(ir, x, s, n - 1)
  }

  function AncestorVersion(ir: Ir, x: nat, s: nat): nat
    requires x < |ir.symbols|
  {
    LatestAround(ir, x, s, |ir.symbols[x]|)
  }

  /** Some version of `x` was created in `s` itself. */
  predicate HasOwn(ir: Ir, x: nat, s: nat)
    requires x < |ir.symbols|
  {
    exists k :: 0 <= k < |ir.symbols[x]| && ir.symbols[x][k].scope == s
  }

  // ---- updates

  function InsertScope(ir: Ir, parent: nat): Ir {
    ir.(scopes := ir.scopes + [Scope(Some(parent), ir.nextOrder)], nextOrder := ir.nextOrder + 1)
  }

  function InsertScopes(ir: Ir, parent: nat, n: nat): (r: Ir)
    ensures |r.scopes| == |ir.scopes| + n && r.symbols == ir.symbols && ir.scopes <= r.scopes
  {
    if n == 0 then ir else InsertScope(InsertScopes(ir, parent, n - 1), parent)
  }

  function PushVersion(ir: Ir, x: nat, source: Expr, s: nat): Ir
    requires x < |ir.symbols|
  {
    ir.(symbols := ir.symbols[x := ir.symbols[x] + [Version(source, s, ir.nextOrder)]],
        nextOrder := ir.nextOrder + 1)
  }

  // ---- how the IR grows

  /** `new` only adds scopes and versions at the ends of the lists of `old`. */
  ghost predicate Extends(older: Ir, newer: Ir) {
    && |older.symbols| == |newer.symbols|
    && older.scopes <= newer.scopes
    && older.nextOrder <= newer.nextOrder
    && forall x :: 0 <= x < |older.symbols| ==> older.symbols[x] <= newer.symbols[x]
  }

  /** Everything `newer` adds to `older` lies in the subtree of `s`: new scopes are nested in `s`,
      new versions belong to `s` or to a new scope. */
  ghost predicate GrowsWithin(older: Ir, newer: Ir, s: nat) {
    && Extends(older, newer)
    && (forall c :: |older.scopes| <= c < |newer.scopes| ==> InSubtree(newer.scopes, c, s))
    && (forall x, k :: 0 <= x < |newer.symbols| && |older.symbols[x]| <= k < |newer.symbols[x]| ==>
          newer.symbols[x][k].scope == s || |older.scopes| <= newer.symbols[x][k].scope < |newer.scopes|)
  }

  /** No version of a scope strictly around `s` is younger than `s`: its enclosing blocks are
      suspended while it is being lowered. */
  ghost predicate Settled(ir: Ir, s: nat)
    requires s < |ir.scopes|
  {
    forall x, k :: 0 <= x < |ir.symbols| && 0 <= k < |ir.symbols[x]| ==>
      ir.symbols[x][k].scope != s && InSubtree(ir.scopes, s, ir.symbols[x][k].scope) ==>
      ir.symbols[x][k].order <= ir.scopes[s].order
  }

  // ---- the scope tree

  lemma {:induction false} SubtreeBelow(scopes: seq<Scope>, c: nat, root: nat)
    requires InSubtree(scopes, c, root)
    ensures root <= c
    decreases c
  {
    if c != root {
      SubtreeBelow(scopes, scopes[c].parent.value, root);
    }
  }

  lemma {:induction false} SubtreeStable(older: seq<Scope>, newer: seq<Scope>, c: nat, root: nat)
    requires older <= newer && c < |older|
    ensures InSubtree(older, c, root) == InSubtree(newer, c, root)
    decreases c
  {
    if c != root && older[c].parent.Some? && older[c].parent.value < c {
      SubtreeStable(older, newer, older[c].parent.value, root);
    }
  }

  lemma {:induction false} SubtreeTransitive(scopes: seq<Scope>, c: nat, mid: nat, root: nat)
    requires InSubtree(scopes, c, mid) && InSubtree(scopes, mid, root)
    ensures InSubtree(scopes, c, root)
    decreases c
  {
    if c != mid {
      SubtreeTransitive(scopes, scopes[c].parent.value, mid, root);
    }
  }

  lemma {:induction false} RootAroundAll(ir: Ir, c: nat)
    requires Wf(ir) && c < |ir.scopes|
    ensures InSubtree(ir.scopes, c, 0)
    decreases c
  {
    if c != 0 {
      RootAroundAll(ir, ir.scopes[c].parent.value);
    }
  }

  lemma GrowsTransitive(a: Ir, b: Ir, c: Ir, s: nat)
    requires GrowsWithin(a, b, s) && GrowsWithin(b, c, s)
    ensures GrowsWithin(a, c, s)
  {
    forall d | |a.scopes| <= d < |c.scopes| ensures InSubtree(c.scopes, d, s) {
      if d < |b.scopes| {
        SubtreeStable(b.scopes, c.scopes, d, s);
      }
    }
    forall x, k | 0 <= x < |c.symbols| && |a.symbols[x]| <= k < |c.symbols[x]|
      ensures c.symbols[x][k].scope == s || |a.scopes| <= c.symbols[x][k].scope < |c.scopes|
    {
      if k < |b.symbols[x]| {
        assert c.symbols[x][k] == b.symbols[x][k];
      }
    }
  }

  /** Growth inside a scope that is itself new is growth inside the scope around it. */
  lemma GrowsOutward(a: Ir, b: Ir, c: Ir, s: nat, child: nat)
    requires GrowsWithin(a, b, s) && GrowsWithin(b, c, child)
    requires |a.scopes| <= child < |b.scopes|
    ensures GrowsWithin(a, c, s)
  {
    SubtreeStable(b.scopes, c.scopes, child, s);
    forall d | |a.scopes| <= d < |c.scopes| ensures InSubtree(c.scopes, d, s) {
      if d < |b.scopes| {
        SubtreeStable(b.scopes, c.scopes, d, s);
      } else {
        SubtreeTransitive(c.scopes, d, child, s);
      }
    }
    forall x, k | 0 <= x < |c.symbols| && |a.symbols[x]| <= k < |c.symbols[x]|
      ensures c.symbols[x][k].scope == s || |a.scopes| <= c.symbols[x][k].scope < |c.scopes|
    {
      if k < |b.symbols[x]| {
        assert c.symbols[x][k] == b.symbols[x][k];
      }
    }
  }

  // ---- lookups

  lemma {:induction false} LatestAroundIs(ir: Ir, x: nat, s: nat, n: nat, k: nat)
    requires x < |ir.symbols| && k < n <= |ir.symbols[x]|
    requires InSubtree(ir.scopes, s, ir.symbols[x][k].scope)
    requires forall j :: k < j < n ==> !InSubtree(ir.scopes, s, ir.symbols[x][j].scope)
    ensures LatestAround(ir, x, s, n) == k
    decreases n
  {
    if n - 1 != k {
      LatestAroundIs(ir, x, s, n - 1, k);
    }
  }

  /** The ancestor lookup finds a version around `s`, and none around `s` comes later. */
  lemma {:induction false} LatestAroundSpec(ir: Ir, x: nat, s: nat, n: nat)
    requires Wf(ir) && x < |ir.symbols| && s < |ir.scopes| && 0 < n <= |ir.symbols[x]|
    ensures var k := LatestAround(ir, x, s, n);
            k < n && InSubtree(ir.scopes, s, ir.symbols[x][k].scope) &&
            forall j :: k < j < n ==> !InSubtree(ir.scopes, s, ir.symbols[x][j].scope)
    decreases n
  {
    if !InSubtree(ir.scopes, s, ir.symbols[x][n - 1].scope) {
      RootAroundAll(ir, s);
      LatestAroundSpec(ir, x, s, n - 1);
    }
  }

  lemma {:induction false} LatestAcceptedIs(ir: Ir, x: nat, s: nat, n: nat, k: nat)
    requires x < |ir.symbols| && s < |ir.scopes| && k < n <= |ir.symbols[x]|
    requires Accepts(ir, ir.symbols[x][k], s)
    requires forall j :: k < j < n ==> !Accepts(ir, ir.symbols[x][j], s)
    ensures LatestAccepted(ir, x, s, n) == k
    decreases n
  {
    if n - 1 != k {
      LatestAcceptedIs(ir, x, s, n - 1, k);
    }
  }

  lemma {:induction false} LatestAcceptedSpec(ir: Ir, x: nat, s: nat, n: nat)
    requires x < |ir.symbols| && s < |ir.scopes| && n <= |ir.symbols[x]|
    requires exists k :: 0 <= k < n && Accepts(ir, ir.symbols[x][k], s)
    ensures var k := LatestAccepted(ir, x, s, n);
            k < n && Accepts(ir, ir.symbols[x][k], s) &&
            forall j :: k < j < n ==> !Accepts(ir, ir.symbols[x][j], s)
    decreases n
  {
    if !Accepts(ir, ir.symbols[x][n - 1], s) {
      LatestAcceptedSpec(ir, x, s, n - 1);
    }
  }

  /** The ancestor lookup ignores versions that lie outside the chain of scopes around `s`. */
  lemma AncestorUnchanged(older: Ir, newer: Ir, x: nat, s: nat)
    requires Wf(older) && Extends(older, newer) && x < |older.symbols| && s < |older.scopes|
    requires forall k :: |older.symbols[x]| <= k < |newer.symbols[x]| ==>
               !InSubtree(newer.scopes, s, newer.symbols[x][k].scope)
    ensures AncestorVersion(newer, x, s) == AncestorVersion(older, x, s)
  {
    var k := AncestorVersion(older, x, s);
    LatestAroundSpec(older, x, s, |older.symbols[x]|);
    SubtreeStable(older.scopes, newer.scopes, s, older.symbols[x][k].scope);
    forall j | k < j < |newer.symbols[x]| ensures !InSubtree(newer.scopes, s, newer.symbols[x][j].scope) {
      if j < |older.symbols[x]| {
        SubtreeStable(older.scopes, newer.scopes, s, older.symbols[x][j].scope);
      }
    }
    LatestAroundIs(newer, x, s, |newer.symbols[x]|, k);
  }

  /** A version just pushed in `s` is the one every lookup from `s` finds. */
  lemma PushIsFound(ir: Ir, x: nat, source: Expr, s: nat)
    requires Wf(ir) && x < |ir.symbols| && s < |ir.scopes|
    ensures var ir' := PushVersion(ir, x, source, s);
            AncestorVersion(ir', x, s) == |ir.symbols[x]| && VersionForScope(ir', x, s) == |ir.symbols[x]|
  {
  }
}
