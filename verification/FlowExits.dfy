/** How far the last statement tells whether a block can be fallen out of, and which arms of a chain that
    selects. */
module FlowExits {
  import opened FlowProgram

  /** Exits stand last in their blocks, and not inside a `do` that stands last. */
  ghost predicate ExitsLast(block: Block) {
    var n := |block.stmts|;
    (forall i :: 0 <= i < n - 1 ==> CanFall(block.stmts[i])) &&
    (n > 0 ==>
      match block.stmts[n - 1]
      case Do(_) => CanFall(block.stmts[n - 1])
      case If(branches, els) =>
        (forall j :: 0 <= j < |branches| ==> ExitsLast(branches[j])) && (els.Some? ==> ExitsLast(els.value))
      case _ => true)
  }

  lemma {:induction false} ReachesLast(block: Block, n: nat)
    requires n <= |block.stmts| && forall i :: 0 <= i < n ==> CanFall(block.stmts[i])
    ensures CanReach(block, n)
    decreases n
  {
    if n > 0 {
      ReachesLast(block, n - 1);
    }
  }

  /** Where they do, a block is judged to always exit exactly if no execution falls out of it. */
  lemma {:induction false} AlwaysExitsIff(block: Block)
    requires ExitsLast(block)
    ensures AlwaysExits(block) <==> !CanReach(block, |block.stmts|)
    decreases block
  {
    var n := |block.stmts|;
    if n > 0 {
      ReachesLast(block, n - 1);
      var stmt := block.stmts[n - 1];
      if stmt.If? {
        var arms := Arms(stmt);
        forall j | 0 <= j < |arms| ensures AlwaysExits(arms[j]) <==> !CanReach(arms[j], |arms[j].stmts|) {
          assert j < |stmt.branches| ==> arms[j] == stmt.branches[j];
          AlwaysExitsIff(arms[j]);
        }
        AllExit(stmt);
      }
    }
  }

  lemma AllExit(stmt: Stmt)
    requires stmt.If?
    ensures (forall j :: 0 <= j < |Arms(stmt)| ==> AlwaysExits(Arms(stmt)[j])) <==>
            (forall j :: 0 <= j < |stmt.branches| ==> AlwaysExits(stmt.branches[j])) &&
            (stmt.els.Some? ==> AlwaysExits(stmt.els.value))
  {
    var arms := Arms(stmt);
    assert forall j :: 0 <= j < |stmt.branches| ==> arms[j] == stmt.branches[j];
    assert stmt.els.Some? ==> arms[|stmt.branches|] == stmt.els.value;
  }

  /** So no execution falls out of it, whatever the variables hold. */
  lemma ExitsIff(block: Block, s: seq<int>)
    requires ExitsLast(block) && BlockOk(block, |s|)
    ensures AlwaysExits(block) <==> forall t :: !Runs(block, |block.stmts|, s, t)
  {
    AlwaysExitsIff(block);
    CanReachIff(block, |block.stmts|, s);
  }

  predicate Ascends(js: seq<nat>) {
    forall k, l :: 0 <= k < l < |js| ==> js[k] < js[l]
  }

  /** Which arms are merged: with an `else` all that do not always exit; without one, all but the leading ones that
      do. In their order. */
  lemma MergedArmsIff(stmt: Stmt, j: nat)
    requires stmt.If?
    ensures var arms := Arms(stmt);
            j in MergedArms(stmt) <==>
            j < |arms| &&
              if stmt.els.Some? then !AlwaysExits(arms[j]) else exists i :: 0 <= i <= j && !AlwaysExits(arms[i])
    ensures Ascends(MergedArms(stmt))
  {
    var arms := Arms(stmt);
    if stmt.els.Some? {
      NonExitingSpec(arms, |arms|);
      NonExitingAscends(arms, |arms|);
    } else {
      ExitPrefixSpec(stmt.branches, 0);
      var p := ExitPrefix(stmt.branches, 0);
      if p <= j < |arms| {
        assert !AlwaysExits(arms[p]);
        assert Range(p, |stmt.branches|)[j - p] == j;
      }
    }
  }

  lemma {:induction false} NonExitingAscends(arms: seq<Block>, n: nat)
    requires n <= |arms|
    ensures Ascends(NonExiting(arms, n))
    decreases n
  {
    if n > 0 {
      NonExitingAscends(arms, n - 1);
      NonExitingSpec(arms, n - 1);
      var before := NonExiting(arms, n - 1);
      forall k | 0 <= k < |before| ensures before[k] < n - 1 {
        assert before[k] in before;
      }
    }
  }
}
