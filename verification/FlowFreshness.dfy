/** What fresh reads are: the syntax of a block alone says whether every lookup in it, at any depth,
    finds the version its scope is in. */
module FlowFreshness {
  import opened FlowIr
  import opened FlowProgram
  import opened FlowLowering
  import opened FlowLookups
  import opened FlowStaleness
  import opened FlowReads

  /** Every lookup that executions of the first `n` statements get to, at any depth, finds the version
      that its scope is in: the lookups of reads, and those of merges from arms that can be fallen out of. */
  ghost predicate Exact(ir: Ir, block: Block, n: nat, s: nat)
    requires n <= |block.stmts| && s < |ir.scopes| && BlockOk(block, |ir.symbols|)
    decreases block, 1
  {
    forall i :: 0 <= i < n && CanReach(block, i) ==> StmtExact(LowerRange(ir, block, 0, i, s), block.stmts[i], s)
  }

  ghost predicate StmtExact(ir: Ir, stmt: Stmt, s: nat)
    requires s < |ir.scopes| && StmtOk(stmt, |ir.symbols|)
    decreases stmt, 0
  {
    match stmt
    case Assign(_, rhs) => rhs.Read? ==> VersionForScope(ir, rhs.sym, s) == AncestorVersion(ir, rhs.sym, s)
    case Do(body) => Exact(InsertScope(ir, s), body, |body.stmts|, |ir.scopes|)
    case Exit => true
    case If(_, _) =>
      var arms, first := Arms(stmt), |ir.scopes|;
      var branched := InsertScopes(ir, s, |arms|);
      var lowered := LowerArms(branched, stmt, |arms|, first);
      forall j :: 0 <= j < |arms| ==>
        && Exact(BeforeArm(branched, stmt, |arms|, j, first), arms[j], |arms[j].stmts|, first + j)
        && (CanReach(arms[j], |arms[j].stmts|) ==> ExactEnd(lowered, first + j))
  }

  /** What the scope bound itself, a merge looks up there. */
  ghost predicate ExactEnd(ir: Ir, b: nat)
    requires b < |ir.scopes|
  {
    forall y :: 0 <= y < |ir.symbols| && HasOwn(ir, y, b) ==> VersionForScope(ir, y, b) == AncestorVersion(ir, y, b)
  }

  lemma {:induction false} BoundIsOk(stmt: Stmt, y: nat, n: nat)
    requires Binds(stmt, y) && StmtOk(stmt, n)
    ensures y < n
    decreases stmt, 0
  {
    match stmt
    case Assign(_, _) =>
    case Do(body) => BlockBoundIsOk(body, y, n);
    case If(_, _) =>
      var arms := Arms(stmt);
      var j :| 0 <= j < |arms| && j in MergedArms(stmt) && BlockBinds(arms[j], y);
      BlockBoundIsOk(arms[j], y, n);
  }

  lemma {:induction false} BlockBoundIsOk(block: Block, y: nat, n: nat)
    requires BlockBinds(block, y) && BlockOk(block, n)
    ensures y < n
    decreases block, 0
  {
    var i :| 0 <= i < |block.stmts| && Binds(block.stmts[i], y);
    BoundIsOk(block.stmts[i], y, n);
  }

  // ---- the end of an arm

  lemma {:induction false} ArmStaleness(ir: Ir, stmt: Stmt, n: nat, first: nat, s: nat, x: nat, j: nat)
    requires ArmsReady(ir, stmt, n, first, s) && x < |ir.symbols| && j < n
    ensures var arm := Arms(stmt)[j];
            Stale(LowerArms(ir, stmt, n, first), x, first + j) <==> StaleAt(arm, |arm.stmts|, x, false)
    decreases n
  {
    hide StaleAt, InSubtree, LowerRange;
    var next := LowerArm(ir, stmt, n - 1, first);
    ArmStep(ir, stmt, n, first, s);
    if j == n - 1 {
      var arm := Arms(stmt)[j];
      ReadyIsFresh(ir, s, first + j, x);
      LookupIsExact(ir, arm, |arm.stmts|, first + j, x);
      ArmsKeep(next, stmt, j, first, s, first + j);
    } else {
      ArmStaleness(next, stmt, n - 1, first, s, x, j);
    }
  }

  lemma FreshEndIsExact(ir: Ir, stmt: Stmt, n: nat, first: nat, s: nat, j: nat)
    requires ArmsReady(ir, stmt, n, first, s) && j < n && CanReach(Arms(stmt)[j], |Arms(stmt)[j].stmts|)
    ensures FreshEnd(Arms(stmt)[j]) <==> ExactEnd(LowerArms(ir, stmt, n, first), first + j)
  {
    hide LowerArms, InSubtree, StaleAt, BlockBinds;
    var arm, lowered, b := Arms(stmt)[j], LowerArms(ir, stmt, n, first), first + j;
    forall y: nat | y < |ir.symbols|
      ensures Stale(lowered, y, b) <==> StaleAt(arm, |arm.stmts|, y, false)
      ensures HasOwn(lowered, y, b) <==> BlockBinds(arm, y)
    {
      ArmStaleness(ir, stmt, n, first, s, y, j);
      ArmBinds(ir, stmt, n, first, s, y, j);
    }
    if ExactEnd(lowered, b) {
      forall y: nat | BlockBinds(arm, y) ensures !StaleAt(arm, |arm.stmts|, y, false) {
        BlockBoundIsOk(arm, y, |ir.symbols|);
        assert !Stale(lowered, y, b);
      }
    }
    if FreshEnd(arm) {
      forall y: nat | y < |lowered.symbols| && HasOwn(lowered, y, b)
        ensures VersionForScope(lowered, y, b) == AncestorVersion(lowered, y, b)
      {
        assert BlockBinds(arm, y) && !Stale(lowered, y, b);
      }
    }
  }

  // ---- all of a block

  /** The syntactic condition is exact: reads are fresh if and only if every lookup that an execution gets
      to finds the version its scope is in. */
  lemma {:induction false} FreshIffExact(ir: Ir, block: Block, n: nat, s: nat)
    requires n <= |block.stmts| && s < |ir.scopes| && BlockOk(block, |ir.symbols|) && Wf(ir)
    requires forall x :: 0 <= x < |ir.symbols| ==> !Stale(ir, x, s)
    ensures FreshBefore(block, n) <==> Exact(ir, block, n, s)
    decreases block, 1
  {
    hide FreshStmt, StmtExact, LowerRange, Wf, InSubtree, StaleAt;
    forall i | 0 <= i < n
      ensures FreshStmt(block, i) <==> StmtExact(LowerRange(ir, block, 0, i, s), block.stmts[i], s)
    {
      RangeGrows(ir, block, 0, i, s);
      forall x | 0 <= x < |ir.symbols|
        ensures Stale(LowerRange(ir, block, 0, i, s), x, s) <==> StaleAt(block, i, x, false)
      {
        LookupIsExact(ir, block, i, s, x);
      }
      StepIsExact(LowerRange(ir, block, 0, i, s), block, i, s);
    }
  }

  lemma {:induction false} StepIsExact(ir: Ir, block: Block, i: nat, s: nat)
    requires i < |block.stmts| && s < |ir.scopes| && BlockOk(block, |ir.symbols|) && Wf(ir)
    requires forall x :: 0 <= x < |ir.symbols| ==> (Stale(ir, x, s) <==> StaleAt(block, i, x, false))
    ensures FreshStmt(block, i) <==> StmtExact(ir, block.stmts[i], s)
    decreases block, 0
  {
    assert StmtOk(block.stmts[i], |ir.symbols|);
    match block.stmts[i]
    case Assign(_, _) =>
    case Do(body) =>
      OpenDo(ir, s);
      ReadyIsExact(InsertScope(ir, s), body, s, |ir.scopes|);
    case Exit =>
    case If(_, _) =>
      ChainIsExact(ir, block.stmts[i], s);
  }

  lemma {:induction false} ReadyIsExact(ir: Ir, body: Block, s: nat, c: nat)
    requires Wf(ir) && Ready(ir, s, c) && BlockOk(body, |ir.symbols|)
    ensures FreshReads(body) <==> Exact(ir, body, |body.stmts|, c)
    decreases body, 2
  {
    hide Exact, FreshBefore;
    forall x | 0 <= x < |ir.symbols| ensures !Stale(ir, x, c) {
      ReadyIsFresh(ir, s, c, x);
    }
    FreshIffExact(ir, body, |body.stmts|, c);
  }

  lemma {:induction false} ChainIsExact(ir: Ir, stmt: Stmt, s: nat)
    requires Wf(ir) && s < |ir.scopes| && stmt.If? && StmtOk(stmt, |ir.symbols|)
    ensures (forall j :: 0 <= j < |Arms(stmt)| ==> FreshReads(Arms(stmt)[j]) && FreshEnd(Arms(stmt)[j])) <==>
            StmtExact(ir, stmt, s)
    decreases stmt, 2
  {
    hide BeforeArm, LowerArms, InSubtree, Stale, FreshReads, Exact, ExactEnd;
    var arms, n, first := Arms(stmt), |Arms(stmt)|, |ir.scopes|;
    var branched := InsertScopes(ir, s, n);
    OpenArms(ir, stmt, s);
    forall j | 0 <= j < n
      ensures FreshReads(arms[j]) <==>
              Exact(BeforeArm(branched, stmt, n, j, first), arms[j], |arms[j].stmts|, first + j)
      ensures CanReach(arms[j], |arms[j].stmts|) ==>
                (FreshEnd(arms[j]) <==> ExactEnd(LowerArms(branched, stmt, n, first), first + j))
    {
      BeforeArmIsReady(branched, stmt, n, j, first, s);
      ReadyIsExact(BeforeArm(branched, stmt, n, j, first), arms[j], s, first + j);
      if CanReach(arms[j], |arms[j].stmts|) {
        FreshEndIsExact(branched, stmt, n, first, s, j);
      }
    }
  }
}
