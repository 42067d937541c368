/** A merge that reads an arm from a branch which exits: what it misses, and exactly when. */
module FlowMergeLeaks {
  import opened Wrappers
  import opened FlowIr
  import opened FlowProgram
  import opened FlowLowering
  import opened FlowSoundness
  import opened FlowContributions
  import opened FlowExactness
  import opened FlowStack
  import opened FlowBuilder

  function Leaving(b: int): (r: Block)
    ensures BlockOk(r, 1) && AlwaysExits(r)
  {
    Block([Assign(0, Const(b)), Exit])
  }

  function Inner(b: int): (r: Stmt)
    ensures r.If? && StmtOk(r, 1)
  {
    If([Leaving(b)], None)
  }

  function Arm(a: int, b: int): (r: Block)
    ensures BlockOk(r, 1) && !AlwaysExits(r)
  {
    Block([Assign(0, Const(a)), Inner(b)])
  }

  function Chain(a: int, b: int): (r: Stmt)
    ensures r.If? && StmtOk(r, 1)
  {
    If([Arm(a, b)], None)
  }

  /** The file `if c then x = a; if d then x = b return end end`. */
  function NestedFile(a: int, b: int): (r: Block)
    ensures BlockOk(r, 1)
  {
    Block([Chain(a, b)])
  }

  lemma InnerMergesNothing(b: int, first: nat)
    ensures Arms(Inner(b)) == [Leaving(b)] && MergedArms(Inner(b)) == [] && MergedScopes(Inner(b), first) == []
  {
    assert ExitPrefix(Inner(b).branches, 0) == 1;
  }

  /** The branch that exits leaves its version behind, in a scope of its own. */
  lemma InnerLowering(ir: Ir, b: int, s: nat)
    requires s < |ir.scopes| && |ir.symbols| == 1
    ensures LowerStmt(ir, Inner(b), s) == PushVersion(InsertScope(ir, s), 0, Lit(b), |ir.scopes|)
  {
    var stmt, first := Inner(b), |ir.scopes|;
    InnerMergesNothing(b, first);
    var nested := InsertScopes(ir, s, 1);
    assert nested == InsertScope(InsertScopes(ir, s, 0), s);
    var branch := Leaving(b);
    assert LowerRange(nested, branch, 0, 1, first) ==
           LowerStmt(LowerRange(nested, branch, 0, 0, first), branch.stmts[0], first);
    assert LowerRange(nested, branch, 0, 2, first) ==
           LowerStmt(LowerRange(nested, branch, 0, 1, first), branch.stmts[1], first);
    var lowered := LowerRange(nested, branch, 0, 2, first);
    assert LowerArms(nested, stmt, 1, first) == LowerArms(lowered, stmt, 0, first) == lowered;
    MergeOfNothing(lowered, true, s, 1);
  }

  /** At the end of the arm: its own version, and the one of the branch. */
  lemma ArmLowering(v: int, a: int, b: int)
    ensures var branched := InsertScopes(Declared([v]), 0, 1);
            var r := LowerRange(branched, Arm(a, b), 0, 2, 1);
            && |r.symbols| == 1 && |r.scopes| == 3 && r.scopes[1].parent == Some(0) && r.scopes[2].parent == Some(1)
            && r.scopes[0].parent == None && |r.symbols[0]| == 3 && r.symbols[0][0] == Declared([v]).symbols[0][0]
            && r.symbols[0][1].source == Lit(a) && r.symbols[0][1].scope == 1
            && r.symbols[0][2].source == Lit(b) && r.symbols[0][2].scope == 2
  {
    var ir0 := Declared([v]);
    var branched := InsertScopes(ir0, 0, 1);
    assert branched == InsertScope(InsertScopes(ir0, 0, 0), 0);
    var arm := Arm(a, b);
    var one := LowerRange(branched, arm, 0, 1, 1);
    assert one == LowerStmt(LowerRange(branched, arm, 0, 0, 1), arm.stmts[0], 1);
    assert one == PushVersion(branched, 0, Lit(a), 1);
    InnerLowering(one, b, 1);
    assert LowerRange(branched, arm, 0, 2, 1) == LowerStmt(one, arm.stmts[1], 1);
  }

  lemma ArmIsMerged(a: int, b: int)
    ensures Arms(Chain(a, b)) == [Arm(a, b)] && MergedScopes(Chain(a, b), 1) == [1]
  {
    assert ExitPrefix(Chain(a, b).branches, 0) == 0;
    assert Range(0, 1) == [0];
    assert MergedArms(Chain(a, b)) == [0];
  }

  /** The merge finds the version of the branch, the latest inside the arm, and not the arm's own. */
  lemma MergedVersion(v: int, a: int, b: int)
    ensures var ir := LowerRange(Declared([v]), NestedFile(a, b), 0, 1, 0);
            && |ir.symbols| == 1 && |ir.symbols[0]| == 4 && VersionForScope(ir, 0, 0) == 3
            && ir.symbols[0][0].source == Lit(v) && ir.symbols[0][2].source == Lit(b)
            && ir.symbols[0][3].source == BranchMerge([SymbolRef(0, 2), SymbolRef(0, 0)])
  {
    var ir0, root, chain := Declared([v]), NestedFile(a, b), Chain(a, b);
    ArmIsMerged(a, b);
    ArmLowering(v, a, b);
    var branched := InsertScopes(ir0, 0, 1);
    var lowered := LowerRange(branched, Arm(a, b), 0, 2, 1);
    assert LowerArms(branched, chain, 1, 1) == LowerArms(lowered, chain, 0, 1) == lowered;
    LookedUp(lowered);
    var r := Merge(lowered, [1], true, 0, 1);
    assert Merge(lowered, [1], true, 0, 0) == lowered;
    assert Assigned(lowered, 0, [1]) by { assert HasOwn(lowered, 0, [1][0]); }
    assert Contributions(lowered, 0, [1], true, 0) == [SymbolRef(0, 2), SymbolRef(0, 0)];
    assert r == PushVersion(lowered, 0, BranchMerge([SymbolRef(0, 2), SymbolRef(0, 0)]), 0);
    assert LowerStmt(ir0, chain, 0) == r;
    assert LowerRange(ir0, root, 0, 1, 0) == LowerStmt(LowerRange(ir0, root, 0, 0, 0), chain, 0) == r;
    assert InSubtree(r.scopes, 0, 0);
  }

  lemma LookedUp(ir: Ir)
    requires |ir.symbols| == 1 && |ir.scopes| == 3 && |ir.symbols[0]| == 3
    requires ir.scopes[1].parent == Some(0) && ir.scopes[2].parent == Some(1) && ir.scopes[0].parent == None
    requires ir.symbols[0][0].scope == 0 && ir.symbols[0][1].scope == 1 && ir.symbols[0][2].scope == 2
    ensures VersionForScope(ir, 0, 1) == 2 && AncestorVersion(ir, 0, 0) == 0 && HasOwn(ir, 0, 1)
  {
    assert InSubtree(ir.scopes, 2, 1) by { assert InSubtree(ir.scopes, 1, 1); }
    assert !InSubtree(ir.scopes, 0, 1) && !InSubtree(ir.scopes, 0, 2);
    assert InSubtree(ir.scopes, 0, 0);
    assert VersionForScope(ir, 0, 1) == 2;
    assert LatestAround(ir, 0, 0, 3) == LatestAround(ir, 0, 0, 2) == LatestAround(ir, 0, 0, 1) == 0;
    assert ir.symbols[0][1].scope == 1;
  }

  /** Falling out of the arm leaves `a` in `x`; the merged version knows only of `b`, which never falls out, and of
      what was there before. So it covers the value exactly if it is one of these. */
  lemma ExitingBranchIsMerged(v: int, a: int, b: int)
    ensures Runs(NestedFile(a, b), 1, [v], [a])
    ensures var ir := LowerRange(Declared([v]), NestedFile(a, b), 0, 1, 0);
            May(ir, SymbolRef(0, VersionForScope(ir, 0, 0)), a) <==> a == b || a == v
  {
    var root, chain, arm := NestedFile(a, b), Chain(a, b), Arm(a, b);
    var ir := LowerRange(Declared([v]), root, 0, 1, 0);
    MergedVersion(v, a, b);
    ReadContributes(ir, 0, 3, a);
    var parts := [SymbolRef(0, 2), SymbolRef(0, 0)];
    MergeContributes(ir, parts, a);
    assert parts[0] == SymbolRef(0, 2) && parts[1] == SymbolRef(0, 0);
    ReadContributes(ir, 0, 2, a);
    ReadContributes(ir, 0, 0, a);
    LitContributes(ir, b, a);
    LitContributes(ir, v, a);
    ArmIsMerged(a, b);
    assert [v][0 := a] == [a];
    assert Runs(arm, 1, [v], [a]) by { assert Runs(arm, 0, [v], [v]) && Falls(arm.stmts[0], [v], [a]); }
    assert Runs(arm, 2, [v], [a]) by { assert Falls(arm.stmts[1], [a], [a]); }
    assert Falls(chain, [v], [a]) by { assert Runs(Arms(chain)[0], 2, [v], [a]); }
    assert Runs(root, 0, [v], [v]);
  }
}
