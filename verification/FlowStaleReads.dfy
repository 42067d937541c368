/** What a stale read misses: the value its variable has was there before the version it finds. */
module FlowStaleReads {
  import opened FlowIr
  import opened FlowProgram
  import opened FlowLowering
  import opened FlowLookups
  import opened FlowStaleness
  import opened FlowSoundness

  /** How many of the first `n` statements it takes until the last one that binds `x`. */
  ghost function LastBound(block: Block, n: nat, x: nat): (m: nat)
    requires n <= |block.stmts|
    ensures m <= n && forall i :: m <= i < n ==> !Binds(block.stmts[i], x)
    decreases n
  {
    if n == 0 || Binds(block.stmts[n - 1], x) then n else LastBound(block, n - 1, x)
  }

  /** Versions that nested scopes add last are what a read around them finds. */
  lemma NewestIsFound(older: Ir, newer: Ir, x: nat, s: nat)
    requires Wf(older) && Wf(newer) && GrowsWithin(older, newer, s) && x < |older.symbols| && s < |older.scopes|
    requires |newer.symbols[x]| > |older.symbols[x]|
    ensures VersionForScope(newer, x, s) == |newer.symbols[x]| - 1
  {
    var last := newer.symbols[x][|newer.symbols[x]| - 1];
    assert InSubtree(newer.scopes, last.scope, s);
    if last.scope != s && InSubtree(newer.scopes, s, last.scope) {
      SubtreeBelow(newer.scopes, s, last.scope);
    }
    assert Accepts(newer, last, s);
  }

  /** A stale read finds the latest version there is, and it is from after the last binding statement. */
  lemma {:induction false} StaleReadFinds(ir: Ir, block: Block, n: nat, s: nat, x: nat)
    requires n <= |block.stmts| && s < |ir.scopes| && BlockOk(block, |ir.symbols|) && Wf(ir) && x < |ir.symbols|
    requires StaleAt(block, n, x, false)
    ensures var r := LowerRange(ir, block, 0, n, s);
            var before := LowerRange(ir, block, 0, LastBound(block, n, x), s);
            VersionForScope(r, x, s) == |r.symbols[x]| - 1 >= |before.symbols[x]|
    decreases n
  {
    hide LowerRange, InSubtree, VersionForScope, Writes, Binds, Wf;
    var m := LastBound(block, n, x);
    var r := LowerRange(ir, block, 0, n - 1, s);
    RangeGrows(ir, block, 0, n - 1, s);
    LowerRangeLast(ir, block, n, s);
    StmtWrites(r, block.stmts[n - 1], s, x);
    StmtGrows(r, block.stmts[n - 1], s);
    if Writes(block.stmts[n - 1], x) {
      NewestIsFound(r, LowerStmt(r, block.stmts[n - 1], s), x, s);
      RangesGrow(ir, block, m, n - 1, s, x);
    } else {
      StaleReadFinds(ir, block, n - 1, s, x);
      LookupsStay(r, LowerStmt(r, block.stmts[n - 1], s), x, s);
    }
  }

  lemma LookupsStay(older: Ir, newer: Ir, x: nat, s: nat)
    requires Wf(older) && Extends(older, newer) && x < |older.symbols| && s < |older.scopes|
    requires newer.symbols[x] == older.symbols[x]
    ensures VersionForScope(newer, x, s) == VersionForScope(older, x, s)
  {
    LookupStable(older, newer, x, s, |older.symbols[x]|);
  }

  lemma {:induction false} RangesGrow(ir: Ir, block: Block, m: nat, n: nat, s: nat, x: nat)
    requires m <= n <= |block.stmts| && s < |ir.scopes| && BlockOk(block, |ir.symbols|) && Wf(ir) && x < |ir.symbols|
    ensures |LowerRange(ir, block, 0, m, s).symbols[x]| <= |LowerRange(ir, block, 0, n, s).symbols[x]|
    decreases n
  {
    hide LowerRange, InSubtree, Wf;
    if m < n {
      RangesGrow(ir, block, m, n - 1, s, x);
      RangeGrows(ir, block, 0, n - 1, s);
      LowerRangeLast(ir, block, n, s);
      StmtGrows(LowerRange(ir, block, 0, n - 1, s), block.stmts[n - 1], s);
    }
  }

  /** So it finds a version that a nested block made after the version the scope is in. */
  lemma StaleReadIsNested(ir: Ir, block: Block, n: nat, s: nat, x: nat)
    requires n <= |block.stmts| && s < |ir.scopes| && BlockOk(block, |ir.symbols|) && Wf(ir) && x < |ir.symbols|
    requires StaleAt(block, n, x, false) && !Stale(ir, x, s)
    ensures var r, found := LowerRange(ir, block, 0, n, s), VersionForScope(LowerRange(ir, block, 0, n, s), x, s);
            AncestorVersion(r, x, s) < found == |r.symbols[x]| - 1 && r.symbols[x][found].scope > s
  {
    hide LowerRange, InSubtree, VersionForScope, AncestorVersion, Wf, StaleAt;
    var r := LowerRange(ir, block, 0, n, s);
    RangeGrows(ir, block, 0, n, s);
    LookupIsExact(ir, block, n, s, x);
    StaleReadFinds(ir, block, n, s, x);
    RangesGrow(ir, block, 0, LastBound(block, n, x), s, x);
    LowerNothing(ir, block, s);
    NestedIsAbove(ir, r, s, x);
  }

  /** At a stale read, on every execution that gets there, the variable still has the value it had after
      its last binding statement, when the version found did not exist yet. The version that the scope is
      in contributes that value; the read covers it only if the version found happens to. */
  lemma StaleReadMisses(ir: Ir, block: Block, n: nat, s: nat, x: nat, store: seq<int>, store': seq<int>)
    requires n <= |block.stmts| && s < |ir.scopes| && BlockOk(block, |ir.symbols|) && Wf(ir) && x < |ir.symbols|
    requires FreshBefore(block, n) && forall y :: 0 <= y < |ir.symbols| ==> !Stale(ir, y, s)
    requires Sound(ir, s, store) && Runs(block, n, store, store') && StaleAt(block, n, x, false)
    ensures |store'| == |store| == |ir.symbols|
    ensures exists mid :: Runs(block, LastBound(block, n, x), store, mid) && |mid| == |store| && mid[x] == store'[x]
    ensures var r := LowerRange(ir, block, 0, n, s);
            var found := VersionForScope(r, x, s);
            && found < |r.symbols[x]|
            && found >= |LowerRange(ir, block, 0, LastBound(block, n, x), s).symbols[x]|
            && May(r, SymbolRef(x, AncestorVersion(r, x, s)), store'[x])
            && (May(r, LowerRhs(r, Read(x), s), store'[x]) <==> May(r, r.symbols[x][found].source, store'[x]))
  {
    hide LowerRange, InSubtree, VersionForScope, AncestorVersion, Writes, Binds, FreshStmt, FreshBefore, Falls, StaleAt,
         Wf, MayIn;
    var r := LowerRange(ir, block, 0, n, s);
    RunsOnlyIf(block, n, store, store');
    RangeSound(ir, block, n, s, store, store');
    StaleReadFinds(ir, block, n, s, x);
    RunsUnchanged(block, x, LastBound(block, n, x), n, store, store');
    ReadContributes(r, x, VersionForScope(r, x, s), store'[x]);
  }

  lemma NestedIsAbove(ir: Ir, r: Ir, s: nat, x: nat)
    requires Wf(ir) && Wf(r) && GrowsWithin(ir, r, s) && s < |ir.scopes| && x < |r.symbols| && Stale(r, x, s)
    requires VersionForScope(r, x, s) == |r.symbols[x]| - 1 >= |ir.symbols[x]|
    ensures AncestorVersion(r, x, s) < VersionForScope(r, x, s)
    ensures r.symbols[x][|r.symbols[x]| - 1].scope > s
  {
    hide VersionForScope;
    LatestAroundSpec(r, x, s, |r.symbols[x]|);
    assert InSubtree(r.scopes, s, s);
  }
}
