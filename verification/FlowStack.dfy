/** The explicit frame stack of `build_ir` on values: what is left to do in a state of the stack,
    and why each step of the loop leaves that unchanged. */
module FlowStack {
  import opened FlowIr
  import opened FlowProgram
  import opened FlowLowering

  /** A block whose statements are walked one at a time in its scope. `isDo`: the block is the body
      of a `do`. */
  datatype Frame = Frame(block: Block, next: nat, scope: nat, isDo: bool)

  datatype PendingMerge = PendingMerge(parent: nat, branchScopes: seq<nat>, implicitElse: bool)

  function SwapRemove<T>(s: seq<T>, i: nat): (r: seq<T>)
    requires i < |s|
    ensures |r| == |s| - 1 && forall p :: p in r ==> p in s
  {
    s[i := s[|s| - 1]][..|s| - 1]
  }

  ghost predicate PendingInRange(ir: Ir, pending: seq<PendingMerge>) {
    forall p, b :: p in pending && b in p.branchScopes ==> b < |ir.scopes|
  }

  /** `process_pending_branch_merges` from index `mi` on: applies the pending merges of `scope`. */
  function ProcessPending(ir: Ir, scope: nat, pending: seq<PendingMerge>, mi: nat): (r: (Ir, seq<PendingMerge>))
    requires mi <= |pending| && PendingInRange(ir, pending)
    ensures |r.0.symbols| == |ir.symbols| && r.0.scopes == ir.scopes && PendingInRange(r.0, r.1)
    decreases |pending| - mi
  {
    if mi == |pending| then (ir, pending)
    else if pending[mi].parent == scope then
      var m := pending[mi];
      ProcessPending(Merge(ir, m.branchScopes, m.implicitElse, scope, |ir.symbols|), scope, SwapRemove(pending, mi), mi)
    else ProcessPending(ir, scope, pending, mi + 1)
  }

  predicate FrameOk(ir: Ir, f: Frame) {
    f.scope < |ir.scopes| && f.next <= |f.block.stmts|
  }

  /** The frames of a stack, outermost first, have ever younger scopes. */
  ghost predicate FramesOk(ir: Ir, stack: seq<Frame>)
    decreases |stack|
  {
    stack == [] ||
    (var top := stack[|stack| - 1];
     var rest := stack[..|stack| - 1];
     FrameOk(ir, top) && BlockOk(top.block, |ir.symbols|) && FramesOk(ir, rest) && Below(rest, top.scope))
  }

  /** All frames are older than scope `c`. */
  predicate Below(stack: seq<Frame>, c: nat) {
    stack == [] || stack[|stack| - 1].scope < c
  }

  lemma {:induction false} FramesOkGrows(older: Ir, newer: Ir, stack: seq<Frame>)
    requires FramesOk(older, stack) && |older.scopes| <= |newer.scopes| && |older.symbols| == |newer.symbols|
    ensures FramesOk(newer, stack)
    decreases |stack|
  {
    if stack != [] {
      FramesOkGrows(older, newer, stack[..|stack| - 1]);
    }
  }

  /** The pending merges belong to suspended frames, at most one each, in stack order. */
  ghost predicate PendingOk(pending: seq<PendingMerge>, stack: seq<Frame>)
    decreases |stack|
  {
    if pending == [] then true
    else if stack == [] then false
    else
      var rest := stack[..|stack| - 1];
      if pending[|pending| - 1].parent == stack[|stack| - 1].scope
      then PendingOk(pending[..|pending| - 1], rest)
      else PendingOk(pending, rest)
  }

  function ParentOf(ir: Ir, s: nat): nat
    requires s < |ir.scopes|
  {
    match ir.scopes[s].parent case None => 0 case Some(p) => p
  }

  function Pop(ir: Ir, f: Frame): (r: Ir)
    requires f.scope < |ir.scopes|
    ensures |r.symbols| == |ir.symbols| && r.scopes == ir.scopes
  {
    if f.isDo then Forward(ir, f.scope, ParentOf(ir, f.scope), |ir.symbols|) else ir
  }

  /** The IR that finishing every frame of the stack, the top one first, leads to. */
  ghost function Finish(ir: Ir, stack: seq<Frame>, pending: seq<PendingMerge>): Ir
    requires FramesOk(ir, stack) && PendingInRange(ir, pending)
    decreases |stack|
  {
    if stack == [] then ir
    else
      var top := stack[|stack| - 1];
      var (merged, left) := ProcessPending(ir, top.scope, pending, 0);
      var lowered := LowerRange(merged, top.block, top.next, |top.block.stmts|, top.scope);
      FramesOkGrows(ir, Pop(lowered, top), stack[..|stack| - 1]);
      Finish(Pop(lowered, top), stack[..|stack| - 1], left)
  }

  function CountFrom(block: Block, i: nat): nat
    requires i <= |block.stmts|
    decreases block, |block.stmts| - i
  {
    if i == |block.stmts| then 0 else StmtCount(block.stmts[i]) + CountFrom(block, i + 1)
  }

  /** A statement and all statements nested in it. */
  function StmtCount(stmt: Stmt): nat
    decreases stmt, if stmt.If? then |Arms(stmt)| + 1 else 0
  {
    match stmt
    case Do(body) => 1 + CountFrom(body, 0)
    case If(_, _) => 1 + ArmsCount(stmt, |Arms(stmt)|)
    case _ => 1
  }

  function ArmsCount(stmt: Stmt, n: nat): nat
    requires stmt.If? && n <= |Arms(stmt)|
    decreases stmt, n
  {
    if n == 0 then 0 else ArmsCount(stmt, n - 1) + CountFrom(Arms(stmt)[n - 1], 0)
  }

  ghost function StackCount(stack: seq<Frame>): nat
    decreases |stack|
  {
    if stack == [] then 0
    else
      var top := stack[|stack| - 1];
      StackCount(stack[..|stack| - 1]) + if top.next <= |top.block.stmts| then CountFrom(top.block, top.next) else 0
  }

  /** The stack with the frames of the first `n` arms of a chain on top. */
  function PushArms(stack: seq<Frame>, stmt: Stmt, n: nat, first: nat): seq<Frame>
    requires stmt.If? && n <= |Arms(stmt)|
  {
    if n == 0 then stack
    else PushArms(stack, stmt, n - 1, first) + [Frame(Arms(stmt)[n - 1], 0, first + n - 1, false)]
  }

  // ---- pending merges

  lemma {:induction false} NoneToProcess(ir: Ir, scope: nat, pending: seq<PendingMerge>, mi: nat)
    requires mi <= |pending| && PendingInRange(ir, pending)
    requires forall j :: mi <= j < |pending| ==> pending[j].parent != scope
    ensures ProcessPending(ir, scope, pending, mi) == (ir, pending)
    decreases |pending| - mi
  {
    if mi < |pending| {
      NoneToProcess(ir, scope, pending, mi + 1);
    }
  }

  lemma {:induction false} OneToProcess(ir: Ir, scope: nat, pending: seq<PendingMerge>, mi: nat)
    requires mi < |pending| && PendingInRange(ir, pending)
    requires forall j :: mi <= j < |pending| - 1 ==> pending[j].parent != scope
    requires pending[|pending| - 1].parent == scope
    ensures var m := pending[|pending| - 1];
            m in pending &&
            ProcessPending(ir, scope, pending, mi) ==
            (Merge(ir, m.branchScopes, m.implicitElse, scope, |ir.symbols|), pending[..|pending| - 1])
    decreases |pending| - mi
  {
    if mi < |pending| - 1 {
      OneToProcess(ir, scope, pending, mi + 1);
    } else {
      var m := pending[mi];
      assert m in pending;
      assert SwapRemove(pending, mi) == pending[..|pending| - 1];
      NoneToProcess(Merge(ir, m.branchScopes, m.implicitElse, scope, |ir.symbols|), scope, pending[..|pending| - 1],
        mi);
    }
  }

  /** A scope younger than every frame has no pending merge. */
  lemma {:induction false} NotPending(ir: Ir, stack: seq<Frame>, pending: seq<PendingMerge>, c: nat)
    requires PendingOk(pending, stack) && FramesOk(ir, stack) && Below(stack, c)
    ensures forall j :: 0 <= j < |pending| ==> pending[j].parent < c
    decreases |stack|
  {
    if pending != [] {
      var top, rest := stack[|stack| - 1], stack[..|stack| - 1];
      var last := |pending| - 1;
      if pending[last].parent == top.scope {
        NotPending(ir, rest, pending[..last], top.scope);
        forall j | 0 <= j < |pending| ensures pending[j].parent < c {
          assert j < last ==> pending[j] == pending[..last][j];
        }
      } else {
        NotPending(ir, rest, pending, top.scope);
      }
    }
  }

  /** The frame on top has the youngest scope of all: every block opened after its own, the branches of
      its chains among them, has come off the stack again. */
  lemma {:induction false} ResumedIsYoungest(ir: Ir, stack: seq<Frame>)
    requires FramesOk(ir, stack)
    ensures forall i :: 0 <= i < |stack| - 1 ==> stack[i].scope < stack[|stack| - 1].scope
    decreases |stack|
  {
    if |stack| > 1 {
      var rest := stack[..|stack| - 1];
      ResumedIsYoungest(ir, rest);
      forall i | 0 <= i < |stack| - 1 ensures stack[i].scope < stack[|stack| - 1].scope {
        assert rest[i] == stack[i];
      }
    }
  }

  /** When a frame resumes, at most one merge of its scope is pending, and it is the last one in the
      list. Afterwards none is left for the frame, and what remains to be done is unchanged. */
  lemma Resume(ir: Ir, stack: seq<Frame>, pending: seq<PendingMerge>)
    requires stack != [] && LoopOk(ir, stack, pending)
    ensures var top := stack[|stack| - 1];
            var (merged, left) := ProcessPending(ir, top.scope, pending, 0);
            && PendingOk(left, stack[..|stack| - 1]) && LoopOk(merged, stack, left)
            && (forall j :: 0 <= j < |left| ==> left[j].parent < top.scope)
            && Finish(ir, stack, pending) == Finish(merged, stack, left)
  {
    var top, rest := stack[|stack| - 1], stack[..|stack| - 1];
    var left :=
      if pending != [] && pending[|pending| - 1].parent == top.scope then pending[..|pending| - 1] else pending;
    NotPending(ir, rest, left, top.scope);
    if left == pending {
      NoneToProcess(ir, top.scope, pending, 0);
    } else {
      OneToProcess(ir, top.scope, pending, 0);
    }
    var merged := ProcessPending(ir, top.scope, pending, 0).0;
    NoneToProcess(merged, top.scope, left, 0);
    FramesOkGrows(ir, merged, stack);
  }

  // ---- one statement

  function Advance(stack: seq<Frame>): (r: seq<Frame>)
    requires stack != []
    ensures |r| == |stack|
  {
    var top := stack[|stack| - 1];
    stack[|stack| - 1 := top.(next := top.next + 1)]
  }

  /** The state of the loop between two iterations. */
  ghost predicate LoopOk(ir: Ir, stack: seq<Frame>, pending: seq<PendingMerge>) {
    FramesOk(ir, stack) && PendingInRange(ir, pending) && PendingOk(pending, stack)
  }

  lemma {:induction false} PendingOkSameScopes(pending: seq<PendingMerge>, a: seq<Frame>, b: seq<Frame>)
    requires PendingOk(pending, a) && |a| == |b| && forall i :: 0 <= i < |a| ==> a[i].scope == b[i].scope
    ensures PendingOk(pending, b)
    decreases |a|
  {
    if pending != [] {
      var left := if pending[|pending| - 1].parent == a[|a| - 1].scope then pending[..|pending| - 1] else pending;
      PendingOkSameScopes(left, a[..|a| - 1], b[..|b| - 1]);
    }
  }

  /** A resumed frame may go on one statement: what is left to do afterwards, with the statement
      lowered as a whole, is what was left to do before. */
  lemma AdvanceFinish(ir: Ir, stack: seq<Frame>, pending: seq<PendingMerge>, stmt: Stmt, next: Ir)
    requires LoopOk(ir, stack, pending) && stack != [] && PendingOk(pending, stack[..|stack| - 1])
    requires stack[|stack| - 1].next < |stack[|stack| - 1].block.stmts|
    requires forall j :: 0 <= j < |pending| ==> pending[j].parent < stack[|stack| - 1].scope
    requires stmt == stack[|stack| - 1].block.stmts[stack[|stack| - 1].next]
    requires StmtOk(stmt, |ir.symbols|) && next == LowerStmt(ir, stmt, stack[|stack| - 1].scope)
    ensures LoopOk(next, Advance(stack), pending)
    ensures Finish(ir, stack, pending) == Finish(next, Advance(stack), pending)
    ensures StackCount(stack) == StackCount(Advance(stack)) + StmtCount(stmt)
  {
    var top := stack[|stack| - 1];
    NoneToProcess(ir, top.scope, pending, 0);
    NoneToProcess(next, top.scope, pending, 0);
    LowerRangeUnfold(ir, top.block, top.next, |top.block.stmts|, top.scope);
    PendingOkSameScopes(pending, stack, Advance(stack));
    assert Advance(stack)[..|stack| - 1] == stack[..|stack| - 1];
    FramesOkGrows(ir, next, stack);
  }

  /** A new frame finishes before the frames below it. */
  lemma PushedFrameFinishes(ir: Ir, stack: seq<Frame>, f: Frame, pending: seq<PendingMerge>, next: Ir)
    requires FramesOk(ir, stack) && PendingInRange(ir, pending) && Below(stack, f.scope)
    requires FrameOk(ir, f) && BlockOk(f.block, |ir.symbols|)
    requires forall j :: 0 <= j < |pending| ==> pending[j].parent < f.scope
    requires next == Pop(LowerRange(ir, f.block, f.next, |f.block.stmts|, f.scope), f)
    ensures FramesOk(ir, stack + [f]) && FramesOk(next, stack) && PendingInRange(next, pending)
    ensures StackCount(stack + [f]) == StackCount(stack) + CountFrom(f.block, f.next)
    ensures Finish(ir, stack + [f], pending) == Finish(next, stack, pending)
  {
    var all := stack + [f];
    assert all[..|all| - 1] == stack && all[|all| - 1] == f;
    NoneToProcess(ir, f.scope, pending, 0);
    FramesOkGrows(ir, next, stack);
  }

  lemma {:induction false} PushedArmsOk(ir: Ir, stack: seq<Frame>, stmt: Stmt, n: nat, first: nat)
    requires stmt.If? && n <= |Arms(stmt)| && StmtOk(stmt, |ir.symbols|) && first + n <= |ir.scopes|
    requires FramesOk(ir, stack) && Below(stack, first)
    ensures FramesOk(ir, PushArms(stack, stmt, n, first)) && Below(PushArms(stack, stmt, n, first), first + n)
    ensures StackCount(PushArms(stack, stmt, n, first)) == StackCount(stack) + ArmsCount(stmt, n)
    decreases n
  {
    hide FramesOk, StackCount, CountFrom, StmtOk;
    if n > 0 {
      var rest, f := PushArms(stack, stmt, n - 1, first), Frame(Arms(stmt)[n - 1], 0, first + n - 1, false);
      PushedArmsOk(ir, stack, stmt, n - 1, first);
      ArmIsOk(stmt, n - 1, |ir.symbols|);
      PushedOk(ir, rest, f);
    }
  }

  lemma ArmIsOk(stmt: Stmt, j: nat, n: nat)
    requires stmt.If? && j < |Arms(stmt)| && StmtOk(stmt, n)
    ensures BlockOk(Arms(stmt)[j], n)
  {
  }

  lemma PushedOk(ir: Ir, stack: seq<Frame>, f: Frame)
    requires FramesOk(ir, stack) && Below(stack, f.scope) && FrameOk(ir, f) && BlockOk(f.block, |ir.symbols|)
    ensures FramesOk(ir, stack + [f]) && StackCount(stack + [f]) == StackCount(stack) + CountFrom(f.block, f.next)
  {
    var all := stack + [f];
    assert all[..|all| - 1] == stack && all[|all| - 1] == f;
  }

  lemma {:induction false} PendingBelowArms(pending: seq<PendingMerge>, stack: seq<Frame>, stmt: Stmt, n: nat,
        first: nat)
    requires PendingOk(pending, stack) && stmt.If? && n <= |Arms(stmt)|
    requires forall j :: 0 <= j < |pending| ==> pending[j].parent < first
    ensures PendingOk(pending, PushArms(stack, stmt, n, first))
    decreases n
  {
    if n > 0 {
      PendingBelowArms(pending, stack, stmt, n - 1, first);
      var all := PushArms(stack, stmt, n, first);
      assert all[..|all| - 1] == PushArms(stack, stmt, n - 1, first);
    }
  }

  lemma LowerArmsUnfold(ir: Ir, stmt: Stmt, n: nat, first: nat, f: Frame, next: Ir)
    requires stmt.If? && 0 < n <= |Arms(stmt)| && first + n <= |ir.scopes| && StmtOk(stmt, |ir.symbols|)
    requires f == Frame(Arms(stmt)[n - 1], 0, first + n - 1, false)
    requires next == LowerRange(ir, f.block, f.next, |f.block.stmts|, f.scope)
    ensures LowerArms(ir, stmt, n, first) == LowerArms(next, stmt, n - 1, first)
  {
  }

  /** The frame of the last arm finishes before the frames below it. */
  lemma LastArmFinishes(ir: Ir, stack: seq<Frame>, stmt: Stmt, n: nat, first: nat, pending: seq<PendingMerge>,
        f: Frame, next: Ir)
    requires stmt.If? && 0 < n <= |Arms(stmt)| && StmtOk(stmt, |ir.symbols|) && first + n <= |ir.scopes|
    requires FramesOk(ir, stack) && Below(stack, first) && PendingInRange(ir, pending)
    requires forall j :: 0 <= j < |pending| ==> pending[j].parent < first
    requires f == Frame(Arms(stmt)[n - 1], 0, first + n - 1, false)
    requires next == LowerRange(ir, f.block, f.next, |f.block.stmts|, f.scope)
    ensures FramesOk(ir, PushArms(stack, stmt, n, first)) && FramesOk(next, PushArms(stack, stmt, n - 1, first))
    ensures PendingInRange(next, pending) && FramesOk(next, stack)
    ensures Finish(ir, PushArms(stack, stmt, n, first), pending) == Finish(next, PushArms(stack, stmt, n - 1, first),
      pending)
  {
    hide Finish, StackCount, CountFrom, LowerRange;
    PushedArmsOk(ir, stack, stmt, n - 1, first);
    PushedFrameFinishes(ir, PushArms(stack, stmt, n - 1, first), f, pending, next);
    FramesOkGrows(ir, next, stack);
  }

  /** Frames of nested blocks finish before the frames below them, the last arm first. */
  lemma {:induction false} PushedArmsFinish(ir: Ir, stack: seq<Frame>, stmt: Stmt, n: nat, first: nat,
        pending: seq<PendingMerge>, lowered: Ir)
    requires stmt.If? && n <= |Arms(stmt)| && StmtOk(stmt, |ir.symbols|) && first + n <= |ir.scopes|
    requires FramesOk(ir, stack) && Below(stack, first) && PendingInRange(ir, pending)
    requires forall j :: 0 <= j < |pending| ==> pending[j].parent < first
    requires FramesOk(ir, PushArms(stack, stmt, n, first)) && lowered == LowerArms(ir, stmt, n, first)
    ensures FramesOk(lowered, stack) && PendingInRange(lowered, pending)
    ensures Finish(ir, PushArms(stack, stmt, n, first), pending) == Finish(lowered, stack, pending)
    decreases n
  {
    if n > 0 {
      hide Finish, FramesOk;
      var f := Frame(Arms(stmt)[n - 1], 0, first + n - 1, false);
      var next := LowerRange(ir, f.block, f.next, |f.block.stmts|, f.scope);
      LastArmFinishes(ir, stack, stmt, n, first, pending, f, next);
      LowerArmsUnfold(ir, stmt, n, first, f, next);
      PushedArmsFinish(next, stack, stmt, n - 1, first, pending, lowered);
    }
  }

  lemma {:induction false} MergeOfNothing(ir: Ir, implicitElse: bool, s: nat, n: nat)
    requires n <= |ir.symbols|
    ensures Merge(ir, [], implicitElse, s, n) == ir
  {
    if n > 0 {
      MergeOfNothing(ir, implicitElse, s, n - 1);
    }
  }

  // ---- the steps of the loop

  /** A finished frame comes off the stack. */
  lemma PopFinish(ir: Ir, stack: seq<Frame>, pending: seq<PendingMerge>, popped: Ir)
    requires LoopOk(ir, stack, pending) && stack != [] && PendingOk(pending, stack[..|stack| - 1])
    requires stack[|stack| - 1].next == |stack[|stack| - 1].block.stmts|
    requires forall j :: 0 <= j < |pending| ==> pending[j].parent < stack[|stack| - 1].scope
    requires popped == Pop(ir, stack[|stack| - 1])
    ensures LoopOk(popped, stack[..|stack| - 1], pending)
    ensures Finish(ir, stack, pending) == Finish(popped, stack[..|stack| - 1], pending)
    ensures StackCount(stack) == StackCount(stack[..|stack| - 1])
  {
    NoneToProcess(ir, stack[|stack| - 1].scope, pending, 0);
    FramesOkGrows(ir, popped, stack[..|stack| - 1]);
  }

  /** A `do` opens a scope and a frame for its body. */
  lemma DoFinish(ir: Ir, stack: seq<Frame>, pending: seq<PendingMerge>, stmt: Stmt, after: seq<Frame>)
    requires LoopOk(ir, stack, pending) && stack != [] && PendingOk(pending, stack[..|stack| - 1])
    requires stack[|stack| - 1].next < |stack[|stack| - 1].block.stmts|
    requires forall j :: 0 <= j < |pending| ==> pending[j].parent < stack[|stack| - 1].scope
    requires stmt == stack[|stack| - 1].block.stmts[stack[|stack| - 1].next] && stmt.Do?
    requires after == Advance(stack) + [Frame(stmt.body, 0, |ir.scopes|, true)]
    ensures LoopOk(InsertScope(ir, stack[|stack| - 1].scope), after, pending)
    ensures Finish(ir, stack, pending) == Finish(InsertScope(ir, stack[|stack| - 1].scope), after, pending)
    ensures StackCount(stack) == StackCount(after) + 1
  {
    var s, d := stack[|stack| - 1].scope, |ir.scopes|;
    assert StmtOk(stmt, |ir.symbols|);
    var nested := InsertScope(ir, s);
    var f := Frame(stmt.body, 0, d, true);
    var lowered := LowerRange(nested, stmt.body, 0, |stmt.body.stmts|, d);
    var next := LowerStmt(ir, stmt, s);
    AdvanceFinish(ir, stack, pending, stmt, next);
    FramesOkGrows(ir, nested, stack);
    AdvanceOk(nested, stack);
    assert lowered.scopes[d] == nested.scopes[d];
    assert Pop(lowered, f) == next;
    PushedFrameFinishes(nested, Advance(stack), f, pending, next);
    assert after[..|after| - 1] == Advance(stack);
  }

  lemma AdvanceOk(ir: Ir, stack: seq<Frame>)
    requires FramesOk(ir, stack) && stack != []
    requires stack[|stack| - 1].next < |stack[|stack| - 1].block.stmts|
    ensures FramesOk(ir, Advance(stack))
  {
    assert Advance(stack)[..|stack| - 1] == stack[..|stack| - 1];
  }

  /** The merge that is pending after the chain, if any arm is merged at all. */
  function ChainMerge(stmt: Stmt, s: nat, first: nat): seq<PendingMerge>
    requires stmt.If?
  {
    if MergedArms(stmt) == [] then [] else [PendingMerge(s, MergedScopes(stmt, first), stmt.els.None?)]
  }

  /** With the arms lowered, resuming the frame of the chain applies its merge. */
  lemma ChainResumes(ir: Ir, lowered: Ir, stack: seq<Frame>, pending: seq<PendingMerge>, stmt: Stmt, s: nat, next: Ir)
    requires stmt.If? && stack != [] && stack[|stack| - 1].scope == s < |ir.scopes| &&
             |ir.scopes| + |Arms(stmt)| <= |lowered.scopes|
    requires FramesOk(lowered, stack) && FramesOk(next, stack)
    requires PendingInRange(lowered, pending) && PendingInRange(next, pending)
    requires forall j :: 0 <= j < |pending| ==> pending[j].parent < s
    requires (forall b :: b in MergedScopes(stmt, |ir.scopes|) ==> b < |lowered.scopes|)
    requires next == Merge(lowered, MergedScopes(stmt, |ir.scopes|), stmt.els.None?, s, |lowered.symbols|)
    ensures PendingInRange(lowered, pending + ChainMerge(stmt, s, |ir.scopes|))
    ensures Finish(lowered, stack, pending + ChainMerge(stmt, s, |ir.scopes|)) == Finish(next, stack, pending)
  {
    var all := pending + ChainMerge(stmt, s, |ir.scopes|);
    NoneToProcess(next, s, pending, 0);
    if MergedArms(stmt) == [] {
      assert all == pending && MergedScopes(stmt, |ir.scopes|) == [];
      MergeOfNothing(lowered, stmt.els.None?, s, |lowered.symbols|);
    } else {
      assert all[..|all| - 1] == pending;
      OneToProcess(lowered, s, all, 0);
    }
  }

  lemma ChainMergePending(stack: seq<Frame>, pending: seq<PendingMerge>, stmt: Stmt, s: nat, first: nat)
    requires stack != [] && stmt.If? && s == stack[|stack| - 1].scope
    requires PendingOk(pending, stack) && PendingOk(pending, stack[..|stack| - 1])
    ensures PendingOk(pending + ChainMerge(stmt, s, first), Advance(stack))
  {
    var all := pending + ChainMerge(stmt, s, first);
    assert Advance(stack)[..|stack| - 1] == stack[..|stack| - 1];
    if MergedArms(stmt) != [] {
      assert all[..|all| - 1] == pending;
    } else {
      assert all == pending;
      PendingOkSameScopes(pending, stack, Advance(stack));
    }
  }

  /** The stack stays in order while the arms of a chain are opened and lowered. */
  lemma IfOpens(ir: Ir, stack: seq<Frame>, stmt: Stmt, branched: Ir, lowered: Ir)
    requires FramesOk(ir, stack) && stack != [] && stack[|stack| - 1].next < |stack[|stack| - 1].block.stmts|
    requires stmt.If? && StmtOk(stmt, |ir.symbols|)
    requires branched == InsertScopes(ir, stack[|stack| - 1].scope, |Arms(stmt)|)
    requires lowered == LowerArms(branched, stmt, |Arms(stmt)|, |ir.scopes|)
    ensures var adv := Advance(stack);
            var after := PushArms(adv, stmt, |Arms(stmt)|, |ir.scopes|);
            && FramesOk(branched, adv) && FramesOk(lowered, adv) && Below(adv, |ir.scopes|)
            && FramesOk(branched, after) && StackCount(after) == StackCount(adv) + ArmsCount(stmt, |Arms(stmt)|)
  {
    hide LowerArms, PushArms, StackCount, ArmsCount;
    var adv := Advance(stack);
    FramesOkGrows(ir, branched, stack);
    AdvanceOk(branched, stack);
    PushedArmsOk(branched, adv, stmt, |Arms(stmt)|, |ir.scopes|);
    FramesOkGrows(branched, lowered, adv);
  }

  /** A chain about to be lowered by the frame on top of the stack, in a state of the loop. */
  ghost predicate ChainNext(ir: Ir, stack: seq<Frame>, pending: seq<PendingMerge>, stmt: Stmt, s: nat) {
    && LoopOk(ir, stack, pending) && stack != [] && PendingOk(pending, stack[..|stack| - 1])
    && stack[|stack| - 1].next < |stack[|stack| - 1].block.stmts|
    && (forall j :: 0 <= j < |pending| ==> pending[j].parent < stack[|stack| - 1].scope)
    && stmt == stack[|stack| - 1].block.stmts[stack[|stack| - 1].next] && stmt.If?
    && s == stack[|stack| - 1].scope < |ir.scopes| && StmtOk(stmt, |ir.symbols|)
  }

  /** Lowering the chain as a whole leads to what merging its lowered arms leads to. */
  lemma ChainLowers(ir: Ir, stack: seq<Frame>, pending: seq<PendingMerge>, stmt: Stmt, s: nat, lowered: Ir,
        pending': seq<PendingMerge>)
    requires ChainNext(ir, stack, pending, stmt, s) && pending' == pending + ChainMerge(stmt, s, |ir.scopes|)
    requires lowered == LowerArms(InsertScopes(ir, s, |Arms(stmt)|), stmt, |Arms(stmt)|, |ir.scopes|)
    requires FramesOk(lowered, Advance(stack))
    ensures PendingInRange(lowered, pending')
    ensures Finish(ir, stack, pending) == Finish(lowered, Advance(stack), pending')
    ensures StackCount(stack) == StackCount(Advance(stack)) + StmtCount(stmt)
  {
    hide Finish, LowerArms, Merge, StackCount, StmtCount, FramesOk, PendingOk, StmtOk, MergedArms, ChainMerge,
         InsertScopes;
    MergedScopesInRange(stmt, |ir.scopes|);
    AdvanceFinish(ir, stack, pending, stmt, LowerStmt(ir, stmt, s));
    ChainResumes(ir, lowered, Advance(stack), pending, stmt, s, LowerStmt(ir, stmt, s));
  }

  lemma PendingAboveChain(ir: Ir, branched: Ir, pending: seq<PendingMerge>, stmt: Stmt, s: nat)
    requires stmt.If? && PendingInRange(ir, pending) && branched == InsertScopes(ir, s, |Arms(stmt)|) && s < |ir.scopes|
    requires forall j :: 0 <= j < |pending| ==> pending[j].parent < s
    ensures var all := pending + ChainMerge(stmt, s, |ir.scopes|);
            && PendingInRange(branched, all)
            && forall j :: 0 <= j < |all| ==> all[j].parent < |ir.scopes|
  {
    hide MergedArms;
    MergedScopesInRange(stmt, |ir.scopes|);
  }

  /** What lowering the chain as a whole leads to is what finishing its arms and then its merge leads to. */
  lemma IfFinishes(ir: Ir, stack: seq<Frame>, pending: seq<PendingMerge>, stmt: Stmt, s: nat, branched: Ir,
        after: seq<Frame>, pending': seq<PendingMerge>)
    requires ChainNext(ir, stack, pending, stmt, s) && branched == InsertScopes(ir, s, |Arms(stmt)|)
    requires after == PushArms(Advance(stack), stmt, |Arms(stmt)|, |ir.scopes|)
    requires pending' == pending + ChainMerge(stmt, s, |ir.scopes|)
    ensures FramesOk(branched, after) && PendingInRange(branched, pending')
    ensures Finish(ir, stack, pending) == Finish(branched, after, pending')
    ensures StackCount(stack) == StackCount(after) + 1
  {
    hide Finish, LowerArms, PushArms, StackCount, ArmsCount, FramesOk, PendingOk, StmtOk, ChainMerge, InsertScopes;
    var lowered := LowerArms(branched, stmt, |Arms(stmt)|, |ir.scopes|);
    IfOpens(ir, stack, stmt, branched, lowered);
    ChainLowers(ir, stack, pending, stmt, s, lowered, pending');
    PendingAboveChain(ir, branched, pending, stmt, s);
    PushedArmsFinish(branched, Advance(stack), stmt, |Arms(stmt)|, |ir.scopes|, pending', lowered);
  }

  /** An if-chain opens a scope and a frame for every arm and leaves its merge pending. */
  lemma IfFinish(ir: Ir, stack: seq<Frame>, pending: seq<PendingMerge>, stmt: Stmt, after: seq<Frame>)
    requires LoopOk(ir, stack, pending) && stack != [] && PendingOk(pending, stack[..|stack| - 1])
    requires stack[|stack| - 1].next < |stack[|stack| - 1].block.stmts|
    requires forall j :: 0 <= j < |pending| ==> pending[j].parent < stack[|stack| - 1].scope
    requires stmt == stack[|stack| - 1].block.stmts[stack[|stack| - 1].next] && stmt.If?
    requires after == PushArms(Advance(stack), stmt, |Arms(stmt)|, |ir.scopes|)
    ensures var s := stack[|stack| - 1].scope;
            var branched := InsertScopes(ir, s, |Arms(stmt)|);
            var pending' := pending + ChainMerge(stmt, s, |ir.scopes|);
            LoopOk(branched, after, pending') && Finish(ir, stack, pending) == Finish(branched, after, pending')
    ensures StackCount(stack) == StackCount(after) + 1
  {
    var s, first := stack[|stack| - 1].scope, |ir.scopes|;
    assert FrameOk(ir, stack[|stack| - 1]) && StmtOk(stmt, |ir.symbols|);
    hide Finish, StackCount, FramesOk, InsertScopes, ChainMerge;
    var pending' := pending + ChainMerge(stmt, s, first);
    IfFinishes(ir, stack, pending, stmt, s, InsertScopes(ir, s, |Arms(stmt)|), after, pending');
    ChainMergePending(stack, pending, stmt, s, first);
    ChainMergeBelow(pending, stmt, s, first);
    PendingBelowArms(pending', Advance(stack), stmt, |Arms(stmt)|, first);
  }

  lemma ChainMergeBelow(pending: seq<PendingMerge>, stmt: Stmt, s: nat, first: nat)
    requires stmt.If? && s < first && forall j :: 0 <= j < |pending| ==> pending[j].parent < s
    ensures var all := pending + ChainMerge(stmt, s, first); forall j :: 0 <= j < |all| ==> all[j].parent < first
  {
  }
}
