/** The types flow merging computes miss no value: whatever an execution leaves in a variable is
    among the contributions of the version its block is in. */
module FlowSoundness {
  import opened Wrappers
  import opened FlowIr
  import opened FlowProgram
  import opened FlowLowering
  import opened FlowLookups
  import opened FlowStaleness

  /** `v` is a contribution of `e`, found by following at most `n` version references. */
  ghost predicate MayIn(ir: Ir, e: Expr, v: int, n: nat)
    decreases n, e
  {
    match e
    case Lit(c) => v == c
    case SymbolRef(x, k) =>
      n > 0 && x < |ir.symbols| && k < |ir.symbols[x]| && MayIn(ir, ir.symbols[x][k].source, v, n - 1)
    case BranchMerge(parts) => exists i :: 0 <= i < |parts| && MayIn(ir, parts[i], v, n)
  }

  /** `v` is a contribution of `e`. */
  ghost predicate May(ir: Ir, e: Expr, v: int) {
    exists n: nat :: MayIn(ir, e, v, n)
  }

  /** Every variable's value in `store` is a contribution of the version that `s` is in. */
  ghost predicate Sound(ir: Ir, s: nat, store: seq<int>) {
    && |store| == |ir.symbols|
    && forall x :: 0 <= x < |store| ==> May(ir, SymbolRef(x, AncestorVersion(ir, x, s)), store[x])
  }

  lemma {:induction false} MayGrows(older: Ir, newer: Ir, e: Expr, v: int, n: nat)
    requires Extends(older, newer) && MayIn(older, e, v, n)
    ensures MayIn(newer, e, v, n)
    decreases n, e
  {
    match e
    case Lit(_) =>
    case SymbolRef(x, k) =>
      assert newer.symbols[x][k] == older.symbols[x][k];
      MayGrows(older, newer, older.symbols[x][k].source, v, n - 1);
    case BranchMerge(parts) =>
      var i :| 0 <= i < |parts| && MayIn(older, parts[i], v, n);
      MayGrows(older, newer, parts[i], v, n);
  }

  lemma MayStays(older: Ir, newer: Ir, e: Expr, v: int)
    requires Extends(older, newer) && May(older, e, v)
    ensures May(newer, e, v)
  {
    var n: nat :| MayIn(older, e, v, n);
    MayGrows(older, newer, e, v, n);
  }

  /** A version contributes what its source contributes. */
  lemma MayThroughVersion(ir: Ir, x: nat, k: nat, v: int)
    requires x < |ir.symbols| && k < |ir.symbols[x]| && May(ir, ir.symbols[x][k].source, v)
    ensures May(ir, SymbolRef(x, k), v)
  {
    var n: nat :| MayIn(ir, ir.symbols[x][k].source, v, n);
    assert MayIn(ir, SymbolRef(x, k), v, n + 1);
  }

  /** A read contributes what the source of the version it finds does. */
  lemma ReadContributes(ir: Ir, x: nat, k: nat, v: int)
    requires x < |ir.symbols| && k < |ir.symbols[x]|
    ensures May(ir, SymbolRef(x, k), v) <==> May(ir, ir.symbols[x][k].source, v)
  {
    if n: nat :| MayIn(ir, SymbolRef(x, k), v, n) {
      assert MayIn(ir, ir.symbols[x][k].source, v, n - 1);
    }
    if May(ir, ir.symbols[x][k].source, v) {
      MayThroughVersion(ir, x, k, v);
    }
  }

  lemma MayThroughMerge(ir: Ir, parts: seq<Expr>, i: nat, v: int)
    requires i < |parts| && May(ir, parts[i], v)
    ensures May(ir, BranchMerge(parts), v)
  {
    var n: nat :| MayIn(ir, parts[i], v, n);
    assert MayIn(ir, BranchMerge(parts), v, n);
  }

  /** Soundness in `s` survives growth that moves no lookup from `s`. */
  lemma SoundStays(older: Ir, newer: Ir, s: nat, store: seq<int>)
    requires Sound(older, s, store) && Extends(older, newer)
    requires forall x :: 0 <= x < |older.symbols| ==> AncestorVersion(newer, x, s) == AncestorVersion(older, x, s)
    ensures Sound(newer, s, store)
  {
    forall x | 0 <= x < |store| ensures May(newer, SymbolRef(x, AncestorVersion(newer, x, s)), store[x]) {
      MayStays(older, newer, SymbolRef(x, AncestorVersion(older, x, s)), store[x]);
    }
  }

  lemma SoundInNested(ir: Ir, s: nat, c: nat, store: seq<int>)
    requires Ready(ir, s, c) && Sound(ir, s, store)
    ensures Sound(ir, c, store)
  {
    forall x | 0 <= x < |store| ensures AncestorVersion(ir, x, c) == AncestorVersion(ir, x, s) {
      ReadyIsFresh(ir, s, c, x);
    }
  }

  /** Opening or lowering nested scopes moves no lookup of the scope around them. */
  lemma LookupOutside(ir: Ir, nested: Ir, s: nat, x: nat)
    requires Wf(ir) && Extends(ir, nested) && s < |ir.scopes| && x < |ir.symbols|
    requires forall k :: |ir.symbols[x]| <= k < |nested.symbols[x]| ==> nested.symbols[x][k].scope > s
    ensures AncestorVersion(nested, x, s) == AncestorVersion(ir, x, s)
  {
    forall k | |ir.symbols[x]| <= k < |nested.symbols[x]|
      ensures !InSubtree(nested.scopes, s, nested.symbols[x][k].scope)
    {
      if InSubtree(nested.scopes, s, nested.symbols[x][k].scope) {
        SubtreeBelow(nested.scopes, s, nested.symbols[x][k].scope);
      }
    }
    AncestorUnchanged(ir, nested, x, s);
  }

  lemma SoundOutside(ir: Ir, nested: Ir, s: nat, store: seq<int>)
    requires Wf(ir) && Extends(ir, nested) && s < |ir.scopes| && Sound(ir, s, store)
    requires forall x, k :: 0 <= x < |ir.symbols| && |ir.symbols[x]| <= k < |nested.symbols[x]| ==>
               nested.symbols[x][k].scope > s
    ensures Sound(nested, s, store)
  {
    forall x | 0 <= x < |ir.symbols| ensures AncestorVersion(nested, x, s) == AncestorVersion(ir, x, s) {
      LookupOutside(ir, nested, s, x);
    }
    SoundStays(ir, nested, s, store);
  }

  /** What a finished branch bound itself, its merge looks up without looking past it. */
  ghost predicate OwnIsFresh(ir: Ir, b: nat)
    requires b < |ir.scopes|
  {
    forall x :: 0 <= x < |ir.symbols| && HasOwn(ir, x, b) ==> !Stale(ir, x, b)
  }

  /** Every point of a block: if the reads before it are fresh, what reaches the point is covered there. */
  lemma {:induction false} RangeSound(ir: Ir, block: Block, n: nat, s: nat, store: seq<int>, store': seq<int>)
    requires n <= |block.stmts| && s < |ir.scopes| && BlockOk(block, |ir.symbols|) && Wf(ir)
    requires FreshBefore(block, n) && forall x :: 0 <= x < |ir.symbols| ==> !Stale(ir, x, s)
    requires Sound(ir, s, store) && Runs(block, n, store, store')
    ensures Sound(LowerRange(ir, block, 0, n, s), s, store')
    decreases block, n
  {
    hide FreshStmt, Falls, StaleAt, Sound, StmtOk, InSubtree, Wf, LowerStmt;
    if n > 0 {
      var mid :| Runs(block, n - 1, store, mid) && Falls(block.stmts[n - 1], mid, store');
      var r := LowerRange(ir, block, 0, n - 1, s);
      RangeGrows(ir, block, 0, n - 1, s);
      RunsOnlyIf(block, n - 1, store, mid);
      RangeSound(ir, block, n - 1, s, store, mid);
      forall x | 0 <= x < |ir.symbols| && !StaleAt(block, n - 1, x, false) ensures !Stale(r, x, s) {
        LookupIsExact(ir, block, n - 1, s, x);
      }
      StepSound(r, block, n - 1, s, mid, store');
    }
  }

  lemma {:induction false} StepSound(ir: Ir, block: Block, i: nat, s: nat, store: seq<int>, store': seq<int>)
    requires i < |block.stmts| && s < |ir.scopes| && BlockOk(block, |ir.symbols|) && Wf(ir)
    requires FreshStmt(block, i)
    requires forall x :: 0 <= x < |ir.symbols| && !StaleAt(block, i, x, false) ==> !Stale(ir, x, s)
    requires Sound(ir, s, store) && Falls(block.stmts[i], store, store')
    ensures Sound(LowerStmt(ir, block.stmts[i], s), s, store')
    decreases block, i
  {
    assert StmtOk(block.stmts[i], |ir.symbols|);
    match block.stmts[i]
    case Assign(_, _) => AssignSound(ir, block, i, s, store, store');
    case Do(body) => DoSound(ir, block.stmts[i], s, store, store');
    case Exit =>
    case If(_, _) => IfSound(ir, block.stmts[i], s, store, store');
  }

  lemma AssignSound(ir: Ir, block: Block, i: nat, s: nat, store: seq<int>, store': seq<int>)
    requires i < |block.stmts| && s < |ir.scopes| && BlockOk(block, |ir.symbols|) && Wf(ir)
    requires FreshStmt(block, i) && block.stmts[i].Assign?
    requires forall x :: 0 <= x < |ir.symbols| && !StaleAt(block, i, x, false) ==> !Stale(ir, x, s)
    requires Sound(ir, s, store) && Falls(block.stmts[i], store, store')
    ensures Sound(LowerStmt(ir, block.stmts[i], s), s, store')
  {
    var Assign(x, rhs) := block.stmts[i];
    assert StmtOk(block.stmts[i], |ir.symbols|);
    var r := LowerStmt(ir, block.stmts[i], s);
    PushGrows(ir, x, LowerRhs(ir, rhs, s), s);
    assert May(ir, LowerRhs(ir, rhs, s), store'[x]) by {
      if rhs.Const? {
        assert MayIn(ir, Lit(rhs.value), rhs.value, 0);
      }
    }
    MayStays(ir, r, LowerRhs(ir, rhs, s), store'[x]);
    MayThroughVersion(r, x, |ir.symbols[x]|, store'[x]);
    PushIsFound(ir, x, LowerRhs(ir, rhs, s), s);
    forall y | 0 <= y < |store'| && y != x ensures May(r, SymbolRef(y, AncestorVersion(r, y, s)), store'[y]) {
      LookupStable(ir, r, y, s, |ir.symbols[y]|);
      MayStays(ir, r, SymbolRef(y, AncestorVersion(ir, y, s)), store[y]);
    }
  }

  lemma {:induction false} DoSound(ir: Ir, stmt: Stmt, s: nat, store: seq<int>, store': seq<int>)
    requires Wf(ir) && s < |ir.scopes| && StmtOk(stmt, |ir.symbols|)
    requires stmt.Do? && FreshReads(stmt.body)
    requires Sound(ir, s, store) && Falls(stmt, store, store')
    ensures Sound(LowerStmt(ir, stmt, s), s, store')
    decreases stmt
  {
    var d, body := |ir.scopes|, stmt.body;
    var nested := InsertScope(ir, s);
    OpenDo(ir, s);
    SoundOutside(ir, nested, s, store);
    SoundInNested(nested, s, d, store);
    forall x | 0 <= x < |nested.symbols| ensures !Stale(nested, x, d) {
      ReadyIsFresh(nested, s, d, x);
    }
    RangeSound(nested, body, |body.stmts|, d, store, store');
    var lowered := LowerRange(nested, body, 0, |body.stmts|, d);
    RangeGrows(nested, body, 0, |body.stmts|, d);
    ForwardSound(nested, lowered, d, s, store');
  }

  /** Forwarding carries the versions of a finished `do` body to the scope around it. */
  lemma ForwardSound(nested: Ir, lowered: Ir, d: nat, s: nat, store: seq<int>)
    requires Ready(nested, s, d) && d == |nested.scopes| - 1 && Wf(lowered) && GrowsWithin(nested, lowered, d)
    requires Sound(lowered, d, store)
    ensures Sound(Forward(lowered, d, s, |lowered.symbols|), s, store)
  {
    var r := Forward(lowered, d, s, |lowered.symbols|);
    ForwardGrows(lowered, d, s, |lowered.symbols|);
    forall x | 0 <= x < |store| ensures May(r, SymbolRef(x, AncestorVersion(r, x, s)), store[x]) {
      ForwardCovers(nested, lowered, d, s, x, store[x]);
    }
  }

  lemma ForwardCovers(nested: Ir, lowered: Ir, d: nat, s: nat, x: nat, v: int)
    requires Ready(nested, s, d) && d == |nested.scopes| - 1 && Wf(lowered) && GrowsWithin(nested, lowered, d)
    requires x < |lowered.symbols| && May(lowered, SymbolRef(x, AncestorVersion(lowered, x, d)), v)
    ensures var r := Forward(lowered, d, s, |lowered.symbols|);
            May(r, SymbolRef(x, AncestorVersion(r, x, s)), v)
  {
    var n := |lowered.symbols[x]|;
    var r := Forward(lowered, d, s, |lowered.symbols|);
    ForwardGrows(lowered, d, s, |lowered.symbols|);
    ForwardSpec(lowered, d, s, |lowered.symbols|, x);
    LastOwnSpec(lowered, x, d, n);
    MayStays(lowered, r, SymbolRef(x, AncestorVersion(lowered, x, d)), v);
    match LastOwn(lowered, x, d, n)
    case None =>
      assert lowered.scopes[d] == nested.scopes[d];
      NoOwnLookup(lowered, s, d, x, n);
      LookupStable(lowered, r, x, s, n);
    case Some(k) =>
      LastOwnIsAncestorVersion(nested, lowered, s, d, x, k);
      MayThroughVersion(r, x, n, v);
  }

  lemma LastOwnIsAncestorVersion(nested: Ir, lowered: Ir, s: nat, d: nat, x: nat, k: nat)
    requires Ready(nested, s, d) && Wf(lowered) && GrowsWithin(nested, lowered, d)
    requires x < |lowered.symbols| && LastOwn(lowered, x, d, |lowered.symbols[x]|) == Some(k)
    ensures AncestorVersion(lowered, x, d) == k
  {
    var n := |lowered.symbols[x]|;
    LastOwnSpec(lowered, x, d, n);
    assert InSubtree(nested.scopes, d, d);
    forall j | k < j < n ensures !InSubtree(lowered.scopes, d, lowered.symbols[x][j].scope) {
      if InSubtree(lowered.scopes, d, lowered.symbols[x][j].scope) {
        SubtreeBelow(lowered.scopes, d, lowered.symbols[x][j].scope);
      }
    }
    LatestAroundIs(lowered, x, d, n, k);
  }

  lemma {:induction false} IfSound(ir: Ir, stmt: Stmt, s: nat, store: seq<int>, store': seq<int>)
    requires Wf(ir) && s < |ir.scopes| && StmtOk(stmt, |ir.symbols|) && stmt.If?
    requires forall j :: 0 <= j < |Arms(stmt)| ==> FreshReads(Arms(stmt)[j]) && FreshEnd(Arms(stmt)[j])
    requires Sound(ir, s, store) && Falls(stmt, store, store')
    ensures Sound(LowerStmt(ir, stmt, s), s, store')
    decreases stmt, |Arms(stmt)| + 1
  {
    hide LowerArms, LowerRange, Merge, Runs, FreshReads, StaleAt, BlockBinds, InSubtree, MergedArms, StmtOk;
    var first, n, arms := |ir.scopes|, |Arms(stmt)|, Arms(stmt);
    var branched := InsertScopes(ir, s, n);
    var lowered := LowerArms(branched, stmt, n, first);
    OpenArms(ir, stmt, s);
    SoundOutside(ir, branched, s, store);
    ArmsGrow(ir, branched, stmt, n, first, s);
    forall x, k | 0 <= x < |ir.symbols| && |ir.symbols[x]| <= k < |lowered.symbols[x]|
      ensures lowered.symbols[x][k].scope > s
    {
      ArmsBelow(branched, stmt, n, first, s, x);
    }
    SoundOutside(ir, lowered, s, store);
    MergedScopesInRange(stmt, first);
    if j :| 0 <= j < n && Runs(arms[j], |arms[j].stmts|, store, store') {
      FallingArmIsMerged(stmt, j, store, store');
      assert lowered.scopes[first + j] == branched.scopes[first + j];
      ArmsSound(branched, stmt, n, first, s, j, store, store');
      MergeSound(lowered, MergedScopes(stmt, first), stmt.els.None?, s, first + j, store');
    } else {
      MergeKeepsImplicitElse(lowered, MergedScopes(stmt, first), s, store);
    }
  }

  /** Arm `j` reads fresh, merges fresh, and an execution runs through it. */
  ghost predicate RunsThrough(stmt: Stmt, j: nat, store: seq<int>, store': seq<int>)
    requires stmt.If? && j < |Arms(stmt)|
  {
    var arm := Arms(stmt)[j];
    && FreshReads(arm) && FreshEnd(arm)
    && Runs(arm, |arm.stmts|, store, store')
  }

  /** Among `n` ready arms, an execution runs through arm `j`. */
  lemma {:induction false} ArmsSound(ir: Ir, stmt: Stmt, n: nat, first: nat, s: nat, j: nat, store: seq<int>,
        store': seq<int>)
    requires ArmsReady(ir, stmt, n, first, s) && j < n && RunsThrough(stmt, j, store, store')
    requires Sound(ir, s, store)
    ensures var r := LowerArms(ir, stmt, n, first); Sound(r, first + j, store') && OwnIsFresh(r, first + j)
    decreases stmt, n, 1
  {
    hide LowerRange, InSubtree, Sound, OwnIsFresh, RunsThrough;
    var next := LowerArm(ir, stmt, n - 1, first);
    ArmStep(ir, stmt, n, first, s);
    if j == n - 1 {
      ArmSound(ir, stmt, j, first, s, store, store');
      ArmsKeepSound(next, stmt, n - 1, first, s, first + j, store');
    } else {
      SoundOutside(ir, next, s, store);
      ArmsSound(next, stmt, n - 1, first, s, j, store, store');
    }
  }

  lemma ArmsKeepSound(ir: Ir, stmt: Stmt, n: nat, first: nat, s: nat, b: nat, store: seq<int>)
    requires ArmsReady(ir, stmt, n, first, s)
    requires s < b < |ir.scopes| && ir.scopes[b].parent == Some(s) && !(first <= b < first + n)
    requires Sound(ir, b, store) && OwnIsFresh(ir, b)
    ensures var r := LowerArms(ir, stmt, n, first); Sound(r, b, store) && OwnIsFresh(r, b)
  {
    ArmsKeep(ir, stmt, n, first, s, b);
    SoundStays(ir, LowerArms(ir, stmt, n, first), b, store);
  }

  lemma ArmSound(ir: Ir, stmt: Stmt, j: nat, first: nat, s: nat, store: seq<int>, store': seq<int>)
    requires ArmsReady(ir, stmt, j + 1, first, s) && RunsThrough(stmt, j, store, store')
    requires Sound(ir, s, store)
    ensures var r := LowerArm(ir, stmt, j, first); Sound(r, first + j, store') && OwnIsFresh(r, first + j)
    decreases stmt, j, 0
  {
    hide InSubtree, Sound, Runs, StaleAt, BlockBinds, VersionForScope, AncestorVersion, HasOwn;
    var b, arm := first + j, Arms(stmt)[j];
    var r := LowerArm(ir, stmt, j, first);
    SoundInNested(ir, s, b, store);
    forall x | 0 <= x < |ir.symbols| ensures !Stale(ir, x, b) {
      ReadyIsFresh(ir, s, b, x);
    }
    RangeSound(ir, arm, |arm.stmts|, b, store, store');
    RunsOnlyIf(arm, |arm.stmts|, store, store');
    forall x | 0 <= x < |r.symbols| && HasOwn(r, x, b) ensures !Stale(r, x, b) {
      ArmBindsItself(ir, stmt, j, first, s, x);
      LookupIsExact(ir, arm, |arm.stmts|, b, x);
    }
  }

  /** The merge covers an execution that came through the merged branch with scope `b`. */
  lemma MergeSound(ir: Ir, scopes: seq<nat>, implicitElse: bool, s: nat, b: nat, store: seq<int>)
    requires Wf(ir) && s < b < |ir.scopes| && ir.scopes[b].parent == Some(s) && b in scopes
    requires forall c :: c in scopes ==> s < c < |ir.scopes|
    requires Sound(ir, b, store)
    requires OwnIsFresh(ir, b)
    ensures Sound(Merge(ir, scopes, implicitElse, s, |ir.symbols|), s, store)
  {
    var r := Merge(ir, scopes, implicitElse, s, |ir.symbols|);
    MergeGrows(ir, scopes, implicitElse, s, |ir.symbols|);
    var i :| 0 <= i < |scopes| && scopes[i] == b;
    forall x | 0 <= x < |store| ensures May(r, SymbolRef(x, AncestorVersion(r, x, s)), store[x]) {
      var n := |ir.symbols[x]|;
      MergeSpec(ir, scopes, implicitElse, s, |ir.symbols|, x);
      MayStays(ir, r, SymbolRef(x, AncestorVersion(ir, x, b)), store[x]);
      if !HasOwn(ir, x, b) {
        NoOwnLookup(ir, s, b, x, n);
      }
      if Assigned(ir, x, scopes) {
        var parts := Contributions(ir, x, scopes, implicitElse, s);
        assert parts[i] == SymbolRef(x, AncestorVersion(ir, x, b));
        MayThroughMerge(r, parts, i, store[x]);
        MayThroughVersion(r, x, n, store[x]);
      } else {
        LookupStable(ir, r, x, s, n);
      }
    }
  }

  /** Without an `else`, the merge also covers the execution that takes no branch. */
  lemma MergeKeepsImplicitElse(ir: Ir, scopes: seq<nat>, s: nat, store: seq<int>)
    requires Wf(ir) && s < |ir.scopes| && (forall c :: c in scopes ==> s < c < |ir.scopes|) && Sound(ir, s, store)
    ensures Sound(Merge(ir, scopes, true, s, |ir.symbols|), s, store)
  {
    var r := Merge(ir, scopes, true, s, |ir.symbols|);
    MergeGrows(ir, scopes, true, s, |ir.symbols|);
    forall x | 0 <= x < |store| ensures May(r, SymbolRef(x, AncestorVersion(r, x, s)), store[x]) {
      var n := |ir.symbols[x]|;
      MergeSpec(ir, scopes, true, s, |ir.symbols|, x);
      MayStays(ir, r, SymbolRef(x, AncestorVersion(ir, x, s)), store[x]);
      if Assigned(ir, x, scopes) {
        var parts := Contributions(ir, x, scopes, true, s);
        assert parts[|scopes|] == SymbolRef(x, AncestorVersion(ir, x, s));
        MayThroughMerge(r, parts, |scopes|, store[x]);
        MayThroughVersion(r, x, n, store[x]);
      } else {
        LookupStable(ir, r, x, s, n);
      }
    }
  }
}
