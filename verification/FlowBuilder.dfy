/** The IR builder: one object whose methods push scopes and versions while an explicit stack of
    frames walks the program. */
module FlowBuilder {
  import opened Wrappers
  import opened FlowIr
  import opened FlowProgram
  import opened FlowLowering
  import opened FlowStack

  class IrBuilder {
    var scopes: seq<Scope>
    var symbols: seq<seq<Version>>
    var nextOrder: nat

    function View(): Ir
      reads this
    {
      Ir(scopes, symbols, nextOrder)
    }

    /** The file scope, and one version per variable declared in it. */
    constructor (declared: seq<int>)
      ensures View() == Declared(declared)
    {
      scopes := [Scope(None, 0)];
      symbols := seq(|declared|, x requires 0 <= x < |declared| => [Version(Lit(declared[x]), 0, 1)]);
      nextOrder := 2;
    }

    method AddScope(parent: nat) returns (c: nat)
      modifies this
      ensures View() == InsertScope(old(View()), parent) && c == |old(scopes)|
    {
      c := |scopes|;
      scopes, nextOrder := scopes + [Scope(Some(parent), nextOrder)], nextOrder + 1;
    }

    method AddVersion(x: nat, source: Expr, s: nat)
      requires x < |symbols|
      modifies this
      ensures View() == PushVersion(old(View()), x, source, s)
    {
      symbols := symbols[x := symbols[x] + [Version(source, s, nextOrder)]];
      nextOrder := nextOrder + 1;
    }

    /** Re-creates in `parent` the latest version each symbol got in the popped scope. */
    method ForwardVersionsToParent(popped: nat, parent: nat)
      modifies this
      ensures View() == Forward(old(View()), popped, parent, |old(symbols)|)
    {
      var x := 0;
      while x < |symbols|
        invariant x <= |symbols| == |old(symbols)|
        invariant View() == Forward(old(View()), popped, parent, x)
      {
        var found: Option<nat> := None;
        var k := 0;
        while k < |symbols[x]|
          invariant k <= |symbols[x]|
          invariant found == LastOwn(View(), x, popped, k)
        {
          if symbols[x][k].scope == popped {
            found := Some(k);
          }
          k := k + 1;
        }
        if found.Some? {
          AddVersion(x, SymbolRef(x, found.value), parent);
        }
        x := x + 1;
      }
    }

    /** Pushes the merged versions of one finished if-chain into its parent scope. */
    method MergeChain(merge: PendingMerge, s: nat)
      requires forall b :: b in merge.branchScopes ==> b < |scopes|
      modifies this
      ensures View() == Merge(old(View()), merge.branchScopes, merge.implicitElse, s, |old(symbols)|)
    {
      var x := 0;
      while x < |symbols|
        invariant x <= |symbols| == |old(symbols)| && scopes == old(scopes)
        invariant View() == Merge(old(View()), merge.branchScopes, merge.implicitElse, s, x)
      {
        var pre := AncestorVersion(View(), x, s);
        var parts: seq<Expr> := [];
        var written := false;
        var i := 0;
        while i < |merge.branchScopes|
          invariant i <= |merge.branchScopes|
          invariant written <==> exists j :: 0 <= j < i && HasOwn(View(), x, merge.branchScopes[j])
          invariant |parts| == i
          invariant forall j :: 0 <= j < i ==>
                      merge.branchScopes[j] in merge.branchScopes &&
                      parts[j] == Contribution(View(), x, merge.branchScopes[j], pre)
        {
          var b := merge.branchScopes[i];
          assert b in merge.branchScopes;
          if HasOwn(View(), x, b) {
            written := true;
            parts := parts + [SymbolRef(x, VersionForScope(View(), x, b))];
          } else {
            parts := parts + [SymbolRef(x, pre)];
          }
          i := i + 1;
        }
        if written {
          if merge.implicitElse {
            parts := parts + [SymbolRef(x, pre)];
          }
          assert parts == Contributions(View(), x, merge.branchScopes, merge.implicitElse, s);
          AddVersion(x, BranchMerge(parts), s);
        }
        x := x + 1;
      }
    }

    /** Applies the pending merges of a resumed scope, removing each from the list. */
    method ProcessPendingBranchMerges(s: nat, pending: seq<PendingMerge>) returns (left: seq<PendingMerge>)
      requires PendingInRange(View(), pending)
      modifies this
      ensures (View(), left) == ProcessPending(old(View()), s, pending, 0)
    {
      left := pending;
      var mi := 0;
      while mi < |left|
        invariant mi <= |left| && PendingInRange(View(), left)
        invariant ProcessPending(View(), s, left, mi) == ProcessPending(old(View()), s, pending, 0)
        decreases |left| - mi
      {
        if left[mi].parent == s {
          var merge := left[mi];
          assert merge in left;
          left := SwapRemove(left, mi);
          MergeChain(merge, s);
        } else {
          mi := mi + 1;
        }
      }
    }

    /** Opens a scope and a frame for every branch of the chain. */
    method OpenBranches(stmt: Stmt, s: nat, stack: seq<Frame>) returns (stack': seq<Frame>, branchScopes: seq<nat>)
      requires stmt.If?
      modifies this
      ensures View() == InsertScopes(old(View()), s, |Arms(stmt)|)
      ensures stack' == PushArms(stack, stmt, |Arms(stmt)|, |old(scopes)|)
      ensures branchScopes == ScopesOf(Range(0, |Arms(stmt)|), |old(scopes)|)
    {
      var branches := stmt.branches;
      var first := |scopes|;
      stack', branchScopes := stack, [];
      var i := 0;
      while i < |branches|
        invariant i <= |branches|
        invariant View() == InsertScopes(old(View()), s, i)
        invariant stack' == PushArms(stack, stmt, i, first)
        invariant branchScopes == ScopesOf(Range(0, i), first)
      {
        var c := AddScope(s);
        branchScopes := branchScopes + [c];
        stack' := stack' + [Frame(branches[i], 0, c, false)];
        i := i + 1;
      }
      if stmt.els.Some? {
        var c := AddScope(s);
        branchScopes := branchScopes + [c];
        stack' := stack' + [Frame(stmt.els.value, 0, c, false)];
      }
    }

    /** Opens the branches of the chain and decides what to merge when they are done. */
    method BuildStmtIf(stmt: Stmt, s: nat, stack: seq<Frame>, pending: seq<PendingMerge>)
      returns (stack': seq<Frame>, pending': seq<PendingMerge>)
      requires stmt.If?
      modifies this
      ensures View() == InsertScopes(old(View()), s, |Arms(stmt)|)
      ensures stack' == PushArms(stack, stmt, |Arms(stmt)|, |old(scopes)|)
      ensures pending' == pending + ChainMerge(stmt, s, |old(scopes)|)
    {
      var branchScopes;
      stack', branchScopes := OpenBranches(stmt, s, stack);
      var merges := ChooseMerge(stmt, s, branchScopes, |old(scopes)|);
      pending' := pending + merges;
    }

    method FinalizePoppedFrame(f: Frame)
      requires f.scope < |scopes|
      modifies this
      ensures View() == Pop(old(View()), f)
    {
      if f.isDo {
        ForwardVersionsToParent(f.scope, ParentOf(View(), f.scope));
      }
    }

    /** Lowers one statement of the frame on top of the stack, which has moved past it. Blocks nested
        in the statement are left as frames on the stack. */
    method BuildStmt(stmt: Stmt, s: nat, stack: seq<Frame>, pending: seq<PendingMerge>, ghost before: seq<Frame>)
      returns (stack': seq<Frame>, pending': seq<PendingMerge>)
      requires LoopOk(View(), before, pending) && before != [] && PendingOk(pending, before[..|before| - 1])
      requires forall j :: 0 <= j < |pending| ==> pending[j].parent < s
      requires s == before[|before| - 1].scope
      requires before[|before| - 1].next < |before[|before| - 1].block.stmts|
      requires stmt == before[|before| - 1].block.stmts[before[|before| - 1].next]
      requires stack == Advance(before)
      modifies this
      ensures LoopOk(View(), stack', pending')
      ensures Finish(View(), stack', pending') == old(Finish(View(), before, pending))
      ensures StackCount(before) == StackCount(stack') + 1
    {
      assert StmtOk(stmt, |symbols|);
      stack', pending' := stack, pending;
      match stmt
      case Assign(x, rhs) =>
        AdvanceFinish(View(), before, pending, stmt, LowerStmt(View(), stmt, s));
        var source := LowerRhs(View(), rhs, s);
        AddVersion(x, source, s);
      case Do(body) =>
        DoFinish(View(), before, pending, stmt, stack + [Frame(body, 0, |scopes|, true)]);
        var c := AddScope(s);
        stack' := stack' + [Frame(body, 0, c, true)];
      case Exit =>
        AdvanceFinish(View(), before, pending, stmt, View());
      case If(_, _) =>
        IfFinish(View(), before, pending, stmt, PushArms(stack, stmt, |Arms(stmt)|, |scopes|));
        stack', pending' := BuildStmtIf(stmt, s, stack', pending');
    }

    /** Walks the program with an explicit stack of frames. `lowered` counts the statements met. */
    method BuildIr(root: Block) returns (ghost lowered: nat)
      requires |scopes| > 0 && BlockOk(root, |symbols|)
      modifies this
      ensures View() == LowerBlock(old(View()), root, 0)
      ensures lowered == CountFrom(root, 0)
    {
      lowered := 0;
      var pending: seq<PendingMerge> := [];
      var stack := [Frame(root, 0, 0, false)];
      StartFinish(View(), root);
      while stack != []
        invariant LoopOk(View(), stack, pending)
        invariant Finish(View(), stack, pending) == old(LowerBlock(View(), root, 0))
        invariant lowered + StackCount(stack) == CountFrom(root, 0)
        decreases StackCount(stack), |stack|
      {
        var frame := stack[|stack| - 1];
        Resume(View(), stack, pending);
        pending := ProcessPendingBranchMerges(frame.scope, pending);
        if frame.next >= |frame.block.stmts| {
          PopFinish(View(), stack, pending, Pop(View(), frame));
          stack := stack[..|stack| - 1];
          FinalizePoppedFrame(frame);
        } else {
          ghost var before := stack;
          stack := Advance(stack);
          stack, pending := BuildStmt(frame.block.stmts[frame.next], frame.scope, stack, pending, before);
          lowered := lowered + 1;
        }
      }
    }
  }

  /** At the start of the loop everything is left to do. */
  lemma StartFinish(ir: Ir, root: Block)
    requires |ir.scopes| > 0 && BlockOk(root, |ir.symbols|)
    ensures LoopOk(ir, [Frame(root, 0, 0, false)], [])
    ensures Finish(ir, [Frame(root, 0, 0, false)], []) == LowerBlock(ir, root, 0)
    ensures StackCount([Frame(root, 0, 0, false)]) == CountFrom(root, 0)
  {
    var stack := [Frame(root, 0, 0, false)];
    assert stack[..|stack| - 1] == [] && FramesOk(ir, []);
    assert Below([], 0) && FrameOk(ir, stack[|stack| - 1]);
    NoneToProcess(ir, 0, [], 0);
  }

  /** The IR of a file that declares variables with the given values and has not run anything yet. */
  function Declared(values: seq<int>): Ir {
    Ir([Scope(None, 0)], seq(|values|, x requires 0 <= x < |values| => [Version(Lit(values[x]), 0, 1)]), 2)
  }

  /** The merge a chain leaves pending: all branches with an `else`, or those that do not exit; without
      one, the branches after the leading ones that exit. */
  method ChooseMerge(stmt: Stmt, s: nat, branchScopes: seq<nat>, ghost first: nat) returns (merges: seq<PendingMerge>)
    requires stmt.If? && branchScopes == ScopesOf(Range(0, |Arms(stmt)|), first)
    ensures merges == ChainMerge(stmt, s, first)
  {
    hide AlwaysExits, ExitPrefix, NonExiting, ChainMerge, AnyExits, ScopesOf, Range;
    merges := [];
    ChoiceOfMerge(stmt, s, first, branchScopes);
    if stmt.els.Some? {
      if AnyExits(stmt) {
        var nonExiting := NonExitingScopes(Arms(stmt), branchScopes, first);
        if nonExiting != [] {
          merges := [PendingMerge(s, nonExiting, false)];
        }
      } else {
        merges := [PendingMerge(s, branchScopes, false)];
      }
    } else {
      var exiting := ExitPrefix(stmt.branches, 0);
      if exiting == 0 && branchScopes != [] {
        merges := [PendingMerge(s, branchScopes, true)];
      } else if exiting > 0 && exiting < |branchScopes| {
        merges := [PendingMerge(s, branchScopes[exiting..], true)];
      }
    }
  }

  method NonExitingScopes(arms: seq<Block>, branchScopes: seq<nat>, ghost first: nat) returns (nonExiting: seq<nat>)
    requires branchScopes == ScopesOf(Range(0, |arms|), first)
    ensures nonExiting == ScopesOf(NonExiting(arms, |arms|), first)
  {
    hide AlwaysExits;
    nonExiting := [];
    var j := 0;
    while j < |branchScopes|
      invariant j <= |branchScopes|
      invariant nonExiting == ScopesOf(NonExiting(arms, j), first)
    {
      if !AlwaysExits(arms[j]) {
        nonExiting := nonExiting + [branchScopes[j]];
      }
      j := j + 1;
    }
  }

  predicate AnyExits(stmt: Stmt)
    requires stmt.If?
  {
    var arms := Arms(stmt);
    exists j :: 0 <= j < |arms| && AlwaysExits(arms[j])
  }

  function ScopesOf(arms: seq<nat>, first: nat): seq<nat> {
    seq(|arms|, i requires 0 <= i < |arms| => first + arms[i])
  }

  /** What each case of the merge selection amounts to. */
  lemma ChoiceOfMerge(stmt: Stmt, s: nat, first: nat, branchScopes: seq<nat>)
    requires stmt.If? && branchScopes == ScopesOf(Range(0, |Arms(stmt)|), first)
    ensures |branchScopes| == |Arms(stmt)|
    ensures stmt.els.Some? && !AnyExits(stmt) ==> ChainMerge(stmt, s, first) == [PendingMerge(s, branchScopes, false)]
    ensures stmt.els.Some? ==>
              var nonExiting := ScopesOf(NonExiting(Arms(stmt), |Arms(stmt)|), first);
              ChainMerge(stmt, s, first) == if nonExiting == [] then [] else [PendingMerge(s, nonExiting, false)]
    ensures stmt.els.None? ==>
              var p := ExitPrefix(stmt.branches, 0);
              p <= |branchScopes| &&
              ChainMerge(stmt, s, first) ==
              if p < |branchScopes| then [PendingMerge(s, branchScopes[p..], true)] else []
  {
    hide AlwaysExits, NonExiting;
    if stmt.els.Some? {
      assert MergedScopes(stmt, first) == ScopesOf(NonExiting(Arms(stmt), |Arms(stmt)|), first);
      if !AnyExits(stmt) {
        NoneExiting(Arms(stmt), |Arms(stmt)|);
      }
    } else {
      ExitPrefixSpec(stmt.branches, 0);
      assert MergedScopes(stmt, first) == branchScopes[ExitPrefix(stmt.branches, 0)..];
    }
  }

  lemma {:induction false} NoneExiting(arms: seq<Block>, n: nat)
    requires n <= |arms| && forall j :: 0 <= j < n ==> !AlwaysExits(arms[j])
    ensures NonExiting(arms, n) == Range(0, n)
  {
    if n > 0 {
      NoneExiting(arms, n - 1);
    }
  }
}
