/** What flow merging guarantees about a whole file, and where it does not. */
module FlowTheorems {
  import opened Wrappers
  import opened FlowIr
  import opened FlowProgram
  import opened FlowLowering
  import opened FlowLookups
  import opened FlowStaleness
  import opened FlowSoundness
  import opened FlowReads
  import opened FlowFreshness
  import opened FlowContributions
  import opened FlowExactness
  import opened FlowStack
  import opened FlowBuilder

  lemma DeclaredIsSound(values: seq<int>)
    ensures Wf(Declared(values)) && Sound(Declared(values), 0, values)
    ensures forall x :: 0 <= x < |values| ==> !Stale(Declared(values), x, 0)
  {
    var ir := Declared(values);
    forall x | 0 <= x < |values|
      ensures !Stale(ir, x, 0) && May(ir, SymbolRef(x, AncestorVersion(ir, x, 0)), values[x])
    {
      assert AncestorVersion(ir, x, 0) == 0;
      assert MayIn(ir, ir.symbols[x][0].source, values[x], 0);
      MayThroughVersion(ir, x, 0, values[x]);
    }
  }

  /** At every point of a file before which reads are fresh, on every execution that gets there: a read of
      any variable that is not stale finds a version that contributes the variable's value. */
  lemma FlowMergingIsSound(values: seq<int>, root: Block, n: nat, store: seq<int>, x: nat)
    requires n <= |root.stmts| && BlockOk(root, |values|) && FreshBefore(root, n)
    requires Runs(root, n, values, store) && x < |values| && !StaleAt(root, n, x, false)
    ensures |store| == |values|
    ensures var ir := LowerRange(Declared(values), root, 0, n, 0);
            May(ir, SymbolRef(x, VersionForScope(ir, x, 0)), store[x])
  {
    DeclaredIsSound(values);
    RangeSound(Declared(values), root, n, 0, values, store);
    LookupIsExact(Declared(values), root, n, 0, x);
  }

  /** Up to a point before which reads are fresh, every version created for an assignment, in whatever
      nested block, contributes the value assigned by every execution that gets there. */
  lemma AssignmentsAreCovered(values: seq<int>, root: Block, n: nat)
    requires n <= |root.stmts| && BlockOk(root, |values|) && FreshBefore(root, n)
    ensures Covered(Declared(values), root, n, 0, values)
  {
    DeclaredIsSound(values);
    EveryAssignmentIsCovered(Declared(values), root, n, 0, values);
  }

  /** And they are fresh exactly if every lookup that some execution gets to finds the version that its
      block is in. */
  lemma FreshReadsAreExact(values: seq<int>, root: Block, n: nat)
    requires n <= |root.stmts| && BlockOk(root, |values|)
    ensures FreshBefore(root, n) <==> Exact(Declared(values), root, n, 0)
  {
    DeclaredIsSound(values);
    FreshIffExact(Declared(values), root, n, 0);
  }

  function Known(values: seq<int>): (a: Possible)
    ensures |a| == |values|
  {
    seq(|values|, x requires 0 <= x < |values| => iset{values[x]})
  }

  /** Where lookups are fresh throughout, the versions visible after any statement of a file contribute
      exactly the values that the collecting semantics gives, no more and no less. */
  lemma VersionsAreExact(values: seq<int>, root: Block, n: nat)
    requires n <= |root.stmts| && BlockOk(root, |values|) && FreshThroughout(root, n)
    ensures Shows(LowerRange(Declared(values), root, 0, n, 0), 0, BlockValues(root, n, Known(values)))
  {
    var ir := Declared(values);
    DeclaredIsSound(values);
    assert Closed(ir);
    forall x, v | 0 <= x < |values|
      ensures v in Known(values)[x] <==> May(ir, SymbolRef(x, AncestorVersion(ir, x, 0)), v)
    {
      assert AncestorVersion(ir, x, 0) == 0;
      ReadContributes(ir, x, 0, v);
      LitContributes(ir, values[x], v);
    }
    RangeIsExact(ir, root, n, 0, Known(values));
  }

  function Assigning(c: int): (r: Block)
    ensures BlockOk(r, 1)
  {
    Block([Assign(0, Const(c))])
  }

  /** The file `if c then x = a else x = b end`, or the same without its `else`. */
  function ChainFile(a: int, b: Option<int>): (r: Block)
    ensures BlockOk(r, 1)
  {
    var els := match b case None => None case Some(c) => Some(Assigning(c));
    assert StmtOk(If([Assigning(a)], els), 1);
    Block([If([Assigning(a)], els)])
  }

  /** With an `else`, the version from before the chain contributes nothing to the merged version; without
      one, it does. */
  lemma ElseForgetsBefore(a: int, b: Option<int>, before: int, v: int)
    ensures var ir := LowerRange(Declared([before]), ChainFile(a, b), 0, 1, 0);
            May(ir, SymbolRef(0, AncestorVersion(ir, 0, 0)), v) <==>
            v == a || v == (if b.Some? then b.value else before)
  {
    var root := ChainFile(a, b);
    var chain := root.stmts[0];
    ChainIsFresh(a, b);
    VersionsAreExact([before], root, 1);
    ValuesOfChain(a, b, chain, Known([before]), v);
    assert BlockValues(root, 1, Known([before])) == StmtValues(chain, BlockValues(root, 0, Known([before])));
  }

  lemma ArmsOfChain(a: int, b: Option<int>, chain: Stmt)
    requires chain == ChainFile(a, b).stmts[0]
    ensures Arms(chain) == [Assigning(a)] + if b.Some? then [Assigning(b.value)] else []
    ensures forall j :: 0 <= j < |Arms(chain)| ==> j in MergedArms(chain) && BlockBinds(Arms(chain)[j], 0)
    ensures Binds(chain, 0)
  {
    var arms := Arms(chain);
    forall j | 0 <= j < |arms| ensures !AlwaysExits(arms[j]) && BlockBinds(arms[j], 0) {
      assert Binds(arms[j].stmts[0], 0);
    }
    if b.Some? {
      NonExitingSpec(arms, |arms|);
    } else {
      ExitPrefixSpec(chain.branches, 0);
      assert Range(0, 1)[0] == 0;
    }
    assert 0 in MergedArms(chain) && BlockBinds(arms[0], 0);
  }

  lemma ChainIsFresh(a: int, b: Option<int>)
    ensures FreshThroughout(ChainFile(a, b), 1)
  {
    hide MergedArms;
    var root := ChainFile(a, b);
    var chain := root.stmts[0];
    ArmsOfChain(a, b, chain);
    var arms := Arms(chain);
    forall j | 0 <= j < |arms|
      ensures FreshThroughout(arms[j], 1)
      ensures forall y: nat :: BlockBinds(arms[j], y) ==> !StaleAt(arms[j], 1, y, false)
    {
      assert FreshThroughoutStmt(arms[j], 0);
    }
    assert FreshChain(chain);
    assert FreshThroughoutStmt(root, 0);
  }

  lemma ValuesOfChain(a: int, b: Option<int>, chain: Stmt, possible: Possible, v: int)
    requires chain == ChainFile(a, b).stmts[0] && |possible| == 1
    ensures StmtOk(chain, 1)
    ensures v in StmtValues(chain, possible)[0] <==>
            v == a || if b.Some? then v == b.value else v in possible[0]
  {
    hide MergedArms, FreshChain;
    ArmsOfChain(a, b, chain);
    var arms := Arms(chain);
    forall j | 0 <= j < |arms|
      ensures ArmValues(chain, j, possible)[0] == iset{if j == 0 then a else if b.Some? then b.value else a}
    {
      assert BlockValues(arms[j], 1, possible) == StmtValues(arms[j].stmts[0], BlockValues(arms[j], 0, possible));
    }
    if v == a {
      assert 0 in MergedArms(chain) && v in ArmValues(chain, 0, possible)[0];
      assert SomeArmGives(chain, 0, possible, v);
    }
    if b.Some? && v == b.value {
      assert |arms| == 2 && 1 in MergedArms(chain) && v in ArmValues(chain, 1, possible)[0];
      assert SomeArmGives(chain, 0, possible, v);
    }
    if SomeArmGives(chain, 0, possible, v) {
      var j :| 0 <= j < |arms| && j in MergedArms(chain) && v in ArmValues(chain, j, possible)[0];
      assert v == a || (b.Some? && v == b.value);
    }
    assert StmtValues(chain, possible)[0] == ArmsValues(chain, 0, possible) + (if b.None? then possible[0] else iset{});
  }

  function LeakyBranch(a: int): (r: Block)
    ensures BlockOk(r, 2) && AlwaysExits(r)
  {
    Block([Assign(0, Const(a)), Exit])
  }

  function LeakyChain(a: int): (r: Stmt)
    ensures StmtOk(r, 2)
  {
    If([LeakyBranch(a)], None)
  }

  /** The file `if c then x = a return end y = x`. */
  function LeakyFile(a: int): (r: Block)
    ensures BlockOk(r, 2)
  {
    Block([LeakyChain(a), Assign(1, Read(0))])
  }

  /** Where they are not, values are missed: falling past the exiting branch leaves `v` in `y`, but the
      version of `y` reads `x` from the branch that never falls through. It covers the value only if
      that branch happened to assign the same. */
  lemma ExitingBranchLeaks(a: int, v: int, w: int)
    ensures !FreshReads(LeakyFile(a))
    ensures Runs(LeakyFile(a), 2, [v, w], [v, v])
    ensures Covered(Declared([v, w]), LeakyFile(a), 2, 0, [v, w]) <==> a == v
  {
    var root, ir0 := LeakyFile(a), Declared([v, w]);
    var chain, copy := root.stmts[0], root.stmts[1];
    LeakyIsStale(a);
    assert Runs(root, 1, [v, w], [v, w]) by {
      assert Runs(root, 0, [v, w], [v, w]) && Falls(chain, [v, w], [v, w]);
    }
    assert [v, w][1 := v] == [v, v];
    assert Falls(copy, [v, w], [v, v]);
    LeakyLowering(a, v, w);
    LeakyCovered(a, v, w);
  }

  lemma LeakyIsStale(a: int)
    ensures !FreshReads(LeakyFile(a))
  {
    var root := LeakyFile(a);
    var chain := root.stmts[0];
    var branch := chain.branches[0];
    assert Arms(chain) == [branch];
    assert StaleAt(root, 1, 0, false) by {
      assert Writes(branch.stmts[0], 0);
      assert BlockWrites(Arms(chain)[0], 0);
      assert AlwaysExits(branch) && ExitPrefix(chain.branches, 0) == 1;
      assert MergedArms(chain) == [];
    }
    assert CanReach(root, 0) && CanFall(chain) && CanReach(root, 1);
    assert !FreshStmt(root, 1);
  }

  /** What the copy reads: the version of the branch, which contributes `a` alone. */
  lemma LeakyLowering(a: int, v: int, w: int)
    ensures var ir := LowerRange(Declared([v, w]), LeakyFile(a), 0, 1, 0);
            && |ir.symbols| == 2 && |ir.symbols[0]| == 2 && ir.symbols[0][1].source == Lit(a)
            && VersionForScope(ir, 0, 0) == 1
  {
    var root, ir0 := LeakyFile(a), Declared([v, w]);
    var chain := root.stmts[0];
    var branch := chain.branches[0];
    assert Arms(chain) == [branch];
    var nested := InsertScopes(ir0, 0, 1);
    assert nested == InsertScope(InsertScopes(ir0, 0, 0), 0);
    var lowered := LowerRange(nested, branch, 0, 2, 1);
    assert LowerRange(nested, branch, 0, 1, 1) == LowerStmt(LowerRange(nested, branch, 0, 0, 1), branch.stmts[0], 1);
    assert lowered == LowerStmt(LowerRange(nested, branch, 0, 1, 1), branch.stmts[1], 1);
    assert lowered.symbols[0] == ir0.symbols[0] + [Version(Lit(a), 1, 3)];
    assert LowerArms(nested, chain, 1, 1) == lowered;
    assert AlwaysExits(branch) && ExitPrefix(chain.branches, 0) == 1;
    assert MergedArms(chain) == [];
    var ir1 := LowerStmt(ir0, chain, 0);
    assert MergedScopes(chain, 1) == [];
    MergeOfNothing(lowered, chain.els.None?, 0, 2);
    assert ir1 == lowered;
    assert VersionForScope(ir1, 0, 0) == 1 by {
      assert InSubtree(ir1.scopes, 1, 0);
    }
    assert LowerRange(ir0, root, 0, 1, 0) == LowerStmt(LowerRange(ir0, root, 0, 0, 0), chain, 0) == ir1;
  }

  lemma LeakyCovered(a: int, v: int, w: int)
    ensures Covered(Declared([v, w]), LeakyFile(a), 2, 0, [v, w]) <==> a == v
  {
    var root, ir0 := LeakyFile(a), Declared([v, w]);
    var chain, copy := root.stmts[0], root.stmts[1];
    var ir := LowerRange(ir0, root, 0, 1, 0);
    LeakyLowering(a, v, w);
    ReadContributes(ir, 0, 1, v);
    assert May(ir, Lit(a), v) <==> a == v by {
      assert MayIn(ir, Lit(a), v, 0) <==> a == v;
    }
    LeakyRuns(a, v, w);
    assert StmtCovered(ir, copy, 0, [v, w]) <==> a == v;
    assert StmtCovered(LowerRange(ir0, root, 0, 0, 0), chain, 0, [v, w]) by {
      LeakyBranchIsCovered(a, ir0, chain, [v, w]);
    }
  }

  /** The only execution that gets past the chain changes nothing. */
  lemma LeakyRuns(a: int, v: int, w: int)
    ensures forall mid :: Runs(LeakyFile(a), 0, [v, w], mid) <==> mid == [v, w]
    ensures forall mid :: Runs(LeakyFile(a), 1, [v, w], mid) <==> mid == [v, w]
  {
    var root := LeakyFile(a);
    var chain := root.stmts[0];
    var branch := chain.branches[0];
    assert Arms(chain) == [branch];
    forall mid ensures Runs(root, 1, [v, w], mid) <==> mid == [v, w] {
      assert Runs(root, 0, [v, w], [v, w]);
      assert AlwaysExits(branch);
      ExitsNeverFall(branch, [v, w], mid);
      assert Falls(chain, [v, w], mid) <==> mid == [v, w];
    }
  }

  lemma LeakyBranchIsCovered(a: int, ir: Ir, chain: Stmt, store: seq<int>)
    requires chain == LeakyChain(a) && |ir.scopes| > 0 && |ir.symbols| == 2
    ensures StmtCovered(ir, chain, 0, store)
  {
    var branch := LeakyBranch(a);
    var branched := InsertScopes(ir, 0, 1);
    assert Arms(chain) == [branch];
    assert BeforeArm(branched, chain, 1, 0, |ir.scopes|) == branched;
    assert Covered(branched, branch, 2, |ir.scopes|, store) by {
      forall i, mid | 0 <= i < 2 && Runs(branch, i, store, mid)
        ensures StmtCovered(LowerRange(branched, branch, 0, i, |ir.scopes|), branch.stmts[i], |ir.scopes|, mid)
      {
        assert MayIn(LowerRange(branched, branch, 0, i, |ir.scopes|), Lit(a), a, 0);
      }
    }
  }
}
