/** Flow merging at every depth: whatever block an assignment stands in, the version it creates
    contributes the value that every execution reaching it assigns. */
module FlowReads {
  import opened FlowIr
  import opened FlowProgram
  import opened FlowLowering
  import opened FlowLookups
  import opened FlowStaleness
  import opened FlowSoundness

  /** The IR in which arm `j` is lowered, when the `n - 1 - j` arms after it come first. */
  function BeforeArm(ir: Ir, stmt: Stmt, n: nat, j: nat, first: nat): (r: Ir)
    requires stmt.If? && j < n <= |Arms(stmt)| && first + n <= |ir.scopes| && StmtOk(stmt, |ir.symbols|)
    ensures |r.symbols| == |ir.symbols| && ir.scopes <= r.scopes
    decreases n
  {
    if j == n - 1 then ir else BeforeArm(LowerArm(ir, stmt, n - 1, first), stmt, n - 1, j, first)
  }

  /** Lowering the arms of a chain passes through the IR before each of them. */
  lemma {:induction false} BeforeArmIsOnTheWay(ir: Ir, stmt: Stmt, n: nat, j: nat, first: nat)
    requires stmt.If? && j < n <= |Arms(stmt)| && first + n <= |ir.scopes| && StmtOk(stmt, |ir.symbols|)
    ensures LowerArms(ir, stmt, n, first) ==
            LowerArms(LowerArm(BeforeArm(ir, stmt, n, j, first), stmt, j, first), stmt, j, first)
    decreases n
  {
    if j < n - 1 {
      BeforeArmIsOnTheWay(LowerArm(ir, stmt, n - 1, first), stmt, n - 1, j, first);
    }
  }

  /** On every execution of the first `n` statements from `store`, every assignment in them, at any
      depth, gets a source that contributes the value it assigns. */
  ghost predicate Covered(ir: Ir, block: Block, n: nat, s: nat, store: seq<int>)
    requires n <= |block.stmts| && s < |ir.scopes| && BlockOk(block, |ir.symbols|)
    decreases block, 1
  {
    forall i, mid :: 0 <= i < n && Runs(block, i, store, mid) ==>
      StmtCovered(LowerRange(ir, block, 0, i, s), block.stmts[i], s, mid)
  }

  ghost predicate StmtCovered(ir: Ir, stmt: Stmt, s: nat, store: seq<int>)
    requires s < |ir.scopes| && StmtOk(stmt, |ir.symbols|)
    decreases stmt, 0
  {
    match stmt
    case Assign(_, rhs) => May(ir, LowerRhs(ir, rhs, s), Eval(rhs, store))
    case Do(body) => Covered(InsertScope(ir, s), body, |body.stmts|, |ir.scopes|, store)
    case Exit => true
    case If(_, _) =>
      var arms, first := Arms(stmt), |ir.scopes|;
      var branched := InsertScopes(ir, s, |arms|);
      forall j :: 0 <= j < |arms| ==>
        Covered(BeforeArm(branched, stmt, |arms|, j, first), arms[j], |arms[j].stmts|, first + j, store)
  }

  /** Fresh reads are enough: wherever a block is lowered, everything in it is covered. */
  lemma {:induction false} EveryAssignmentIsCovered(ir: Ir, block: Block, n: nat, s: nat, store: seq<int>)
    requires n <= |block.stmts| && s < |ir.scopes| && BlockOk(block, |ir.symbols|) && Wf(ir)
    requires FreshBefore(block, n) && (forall x :: 0 <= x < |ir.symbols| ==> !Stale(ir, x, s)) && Sound(ir, s, store)
    ensures Covered(ir, block, n, s, store)
    decreases block, 1
  {
    hide StmtCovered, Sound, FreshStmt, Wf, InSubtree, LowerRange;
    forall i, mid | 0 <= i < n && Runs(block, i, store, mid)
      ensures StmtCovered(LowerRange(ir, block, 0, i, s), block.stmts[i], s, mid)
    {
      RangeGrows(ir, block, 0, i, s);
      RangeSound(ir, block, i, s, store, mid);
      RunsOnlyIf(block, i, store, mid);
      forall x | 0 <= x < |ir.symbols| && !StaleAt(block, i, x, false)
        ensures !Stale(LowerRange(ir, block, 0, i, s), x, s)
      {
        LookupIsExact(ir, block, i, s, x);
      }
      StepIsCovered(LowerRange(ir, block, 0, i, s), block, i, s, mid);
    }
  }

  lemma {:induction false} StepIsCovered(ir: Ir, block: Block, i: nat, s: nat, store: seq<int>)
    requires i < |block.stmts| && s < |ir.scopes| && BlockOk(block, |ir.symbols|) && Wf(ir)
    requires FreshStmt(block, i) && Sound(ir, s, store)
    requires forall x :: 0 <= x < |ir.symbols| && !StaleAt(block, i, x, false) ==> !Stale(ir, x, s)
    ensures StmtCovered(ir, block.stmts[i], s, store)
    decreases block, 0
  {
    assert StmtOk(block.stmts[i], |ir.symbols|);
    match block.stmts[i]
    case Assign(_, Const(c)) =>
      assert MayIn(ir, Lit(c), c, 0);
    case Assign(_, Read(y)) =>
    case Do(body) =>
      NestedIsCovered(ir, body, s, store);
    case Exit =>
    case If(_, _) =>
      ChainIsCovered(ir, block.stmts[i], s, store);
  }

  lemma {:induction false} NestedIsCovered(ir: Ir, body: Block, s: nat, store: seq<int>)
    requires Wf(ir) && s < |ir.scopes| && BlockOk(body, |ir.symbols|) && FreshReads(body) && Sound(ir, s, store)
    ensures Covered(InsertScope(ir, s), body, |body.stmts|, |ir.scopes|, store)
    decreases body, 3
  {
    var nested := InsertScope(ir, s);
    OpenDo(ir, s);
    SoundOutside(ir, nested, s, store);
    ReadyIsCovered(nested, body, s, |ir.scopes|, store);
  }

  lemma {:induction false} ReadyIsCovered(ir: Ir, body: Block, s: nat, c: nat, store: seq<int>)
    requires Wf(ir) && Ready(ir, s, c) && BlockOk(body, |ir.symbols|) && FreshReads(body) && Sound(ir, s, store)
    ensures Covered(ir, body, |body.stmts|, c, store)
    decreases body, 2
  {
    SoundInNested(ir, s, c, store);
    forall x | 0 <= x < |ir.symbols| ensures !Stale(ir, x, c) {
      ReadyIsFresh(ir, s, c, x);
    }
    EveryAssignmentIsCovered(ir, body, |body.stmts|, c, store);
  }

  lemma {:induction false} ChainIsCovered(ir: Ir, stmt: Stmt, s: nat, store: seq<int>)
    requires Wf(ir) && s < |ir.scopes| && stmt.If? && StmtOk(stmt, |ir.symbols|) && Sound(ir, s, store)
    requires forall j :: 0 <= j < |Arms(stmt)| ==> FreshReads(Arms(stmt)[j])
    ensures StmtCovered(ir, stmt, s, store)
    decreases stmt, 2
  {
    hide BeforeArm, LowerArms, InSubtree, Stale, FreshReads;
    var arms, n, first := Arms(stmt), |Arms(stmt)|, |ir.scopes|;
    var branched := InsertScopes(ir, s, n);
    OpenArms(ir, stmt, s);
    SoundOutside(ir, branched, s, store);
    forall j | 0 <= j < n
      ensures Covered(BeforeArm(branched, stmt, n, j, first), arms[j], |arms[j].stmts|, first + j, store)
    {
      BeforeArmReady(branched, stmt, n, j, first, s, store);
      ReadyIsCovered(BeforeArm(branched, stmt, n, j, first), Arms(stmt)[j], s, first + j, store);
    }
  }

  lemma {:induction false} BeforeArmIsReady(ir: Ir, stmt: Stmt, n: nat, j: nat, first: nat, s: nat)
    requires ArmsReady(ir, stmt, n, first, s) && j < n
    ensures var r := BeforeArm(ir, stmt, n, j, first); Wf(r) && Ready(r, s, first + j)
    decreases n
  {
    if j < n - 1 {
      ArmStep(ir, stmt, n, first, s);
      BeforeArmIsReady(LowerArm(ir, stmt, n - 1, first), stmt, n - 1, j, first, s);
    }
  }

  lemma {:induction false} BeforeArmIsSound(ir: Ir, stmt: Stmt, n: nat, j: nat, first: nat, s: nat, store: seq<int>)
    requires ArmsReady(ir, stmt, n, first, s) && j < n && Sound(ir, s, store)
    ensures Sound(BeforeArm(ir, stmt, n, j, first), s, store)
    decreases n
  {
    hide LowerRange, InSubtree, Sound;
    if j < n - 1 {
      var next := LowerArm(ir, stmt, n - 1, first);
      ArmStep(ir, stmt, n, first, s);
      SoundOutside(ir, next, s, store);
      BeforeArmIsSound(next, stmt, n - 1, j, first, s, store);
    }
  }

  /** An arm starts with what holds before the chain, although the arms after it are lowered first. */
  lemma BeforeArmReady(ir: Ir, stmt: Stmt, n: nat, j: nat, first: nat, s: nat, store: seq<int>)
    requires ArmsReady(ir, stmt, n, first, s) && j < n && Sound(ir, s, store)
    ensures var r := BeforeArm(ir, stmt, n, j, first); Wf(r) && Ready(r, s, first + j) && Sound(r, s, store)
  {
    hide BeforeArm, Sound, Wf, Ready, ArmsReady;
    BeforeArmIsReady(ir, stmt, n, j, first, s);
    BeforeArmIsSound(ir, stmt, n, j, first, s, store);
  }
}
