/** What lowering a block does to the IR, as a recursion over the block: the reference that the
    explicit frame stack of `FlowBuilder` is proved against. */
module FlowLowering {
  import opened Wrappers
  import opened FlowIr
  import opened FlowProgram

  function LowerRhs(ir: Ir, rhs: Rhs, s: nat): Expr
    requires s < |ir.scopes| && (rhs.Read? ==> rhs.sym < |ir.symbols|)
  {
    match rhs
    case Const(c) => Lit(c)
    case Read(y) => SymbolRef(y, VersionForScope(ir, y, s))
  }

  /** The latest version of `x` created in `d`, among the first `n`. */
  function LastOwn(ir: Ir, x: nat, d: nat, n: nat): Option<nat>
    requires x < |ir.symbols| && n <= |ir.symbols[x]|
  {
    if n == 0 then None
    else if ir.symbols[x][n - 1].scope == d then Some(n - 1)
    else LastOwn(ir, x, d, n - 1)
  }

  /** `forward_versions_to_parent` for one symbol. */
  function ForwardOne(ir: Ir, d: nat, s: nat, x: nat): Ir
    requires x < |ir.symbols|
  {
    match LastOwn(ir, x, d, |ir.symbols[x]|)
    case None => ir
    case Some(k) => PushVersion(ir, x, SymbolRef(x, k), s)
  }

  /** `forward_versions_to_parent` for the first `n` symbols. */
  function Forward(ir: Ir, d: nat, s: nat, n: nat): (r: Ir)
    requires n <= |ir.symbols|
    ensures |r.symbols| == |ir.symbols| && r.scopes == ir.scopes
  {
    if n == 0 then ir else ForwardOne(Forward(ir, d, s, n - 1), d, s, n - 1)
  }

  /** What the branch with scope `b` contributes to the merge of `x`. */
  function Contribution(ir: Ir, x: nat, b: nat, pre: nat): Expr
    requires x < |ir.symbols| && b < |ir.scopes|
  {
    SymbolRef(x, if HasOwn(ir, x, b) then VersionForScope(ir, x, b) else pre)
  }

  function Contributions(ir: Ir, x: nat, scopes: seq<nat>, implicitElse: bool, s: nat): seq<Expr>
    requires x < |ir.symbols| && forall b :: b in scopes ==> b < |ir.scopes|
  {
    var pre := AncestorVersion(ir, x, s);
    seq(|scopes|, i requires 0 <= i < |scopes| =>
      assert scopes[i] in scopes; Contribution(ir, x, scopes[i], pre)) +
    if implicitElse then [SymbolRef(x, pre)] else []
  }

  /** `x` was assigned in one of the merged branches. */
  predicate Assigned(ir: Ir, x: nat, scopes: seq<nat>)
    requires x < |ir.symbols|
  {
    exists i :: 0 <= i < |scopes| && HasOwn(ir, x, scopes[i])
  }

  function MergeOne(ir: Ir, scopes: seq<nat>, implicitElse: bool, s: nat, x: nat): Ir
    requires x < |ir.symbols| && forall b :: b in scopes ==> b < |ir.scopes|
  {
    if Assigned(ir, x, scopes)
    then PushVersion(ir, x, BranchMerge(Contributions(ir, x, scopes, implicitElse, s)), s)
    else ir
  }

  /** `process_pending_branch_merges` for one pending merge and the first `n` symbols. */
  function Merge(ir: Ir, scopes: seq<nat>, implicitElse: bool, s: nat, n: nat): (r: Ir)
    requires n <= |ir.symbols| && forall b :: b in scopes ==> b < |ir.scopes|
    ensures |r.symbols| == |ir.symbols| && r.scopes == ir.scopes
  {
    if n == 0 then ir else MergeOne(Merge(ir, scopes, implicitElse, s, n - 1), scopes, implicitElse, s, n - 1)
  }

  function MergedScopes(stmt: Stmt, first: nat): seq<nat>
    requires stmt.If?
  {
    var arms := MergedArms(stmt);
    seq(|arms|, i requires 0 <= i < |arms| => first + arms[i])
  }

  lemma MergedScopesInRange(stmt: Stmt, first: nat)
    requires stmt.If?
    ensures forall b :: b in MergedScopes(stmt, first) ==> first <= b < first + |Arms(stmt)|
    ensures forall j :: 0 <= j < |Arms(stmt)| ==> (j in MergedArms(stmt) <==> first + j in MergedScopes(stmt, first))
  {
    MergedInRange(stmt);
    var arms := MergedArms(stmt);
    forall b | b in MergedScopes(stmt, first) ensures first <= b < first + |Arms(stmt)| {
      var i :| 0 <= i < |arms| && b == first + arms[i];
      assert arms[i] in arms;
    }
    forall j | 0 <= j < |Arms(stmt)| && j in arms ensures first + j in MergedScopes(stmt, first) {
      var i :| 0 <= i < |arms| && arms[i] == j;
      assert MergedScopes(stmt, first)[i] == first + j;
    }
  }

  function LowerStmt(ir: Ir, stmt: Stmt, s: nat): (r: Ir)
    requires s < |ir.scopes| && StmtOk(stmt, |ir.symbols|)
    ensures |r.symbols| == |ir.symbols| && ir.scopes <= r.scopes
    decreases stmt, if stmt.If? then |Arms(stmt)| + 1 else 0
  {
    match stmt
    case Assign(x, rhs) => PushVersion(ir, x, LowerRhs(ir, rhs, s), s)
    case Do(body) =>
      var d := |ir.scopes|;
      var lowered := LowerRange(InsertScope(ir, s), body, 0, |body.stmts|, d);
      Forward(lowered, d, s, |lowered.symbols|)
    case Exit => ir
    case If(_, els) =>
      var first := |ir.scopes|;
      var nested := InsertScopes(ir, s, |Arms(stmt)|);
      var lowered := LowerArms(nested, stmt, |Arms(stmt)|, first);
      MergedScopesInRange(stmt, first);
      Merge(lowered, MergedScopes(stmt, first), els.None?, s, |lowered.symbols|)
  }

  /** Lowers the first `n` arms of a chain, the last of them first: their frames come off the
      stack in that order. */
  function LowerArms(ir: Ir, stmt: Stmt, n: nat, first: nat): (r: Ir)
    requires stmt.If? && n <= |Arms(stmt)| && first + n <= |ir.scopes| && StmtOk(stmt, |ir.symbols|)
    ensures |r.symbols| == |ir.symbols| && ir.scopes <= r.scopes
    decreases stmt, n
  {
    if n == 0 then ir
    else
      var arm := Arms(stmt)[n - 1];
      LowerArms(LowerRange(ir, arm, 0, |arm.stmts|, first + n - 1), stmt, n - 1, first)
  }

  /** Lowers the statements from `i` up to `j`. */
  function LowerRange(ir: Ir, block: Block, i: nat, j: nat, s: nat): (r: Ir)
    requires i <= j <= |block.stmts| && s < |ir.scopes| && BlockOk(block, |ir.symbols|)
    ensures |r.symbols| == |ir.symbols| && ir.scopes <= r.scopes
    decreases block, j
  {
    if i == j then ir else LowerStmt(LowerRange(ir, block, i, j - 1, s), block.stmts[j - 1], s)
  }

  function LowerBlock(ir: Ir, block: Block, s: nat): (r: Ir)
    requires s < |ir.scopes| && BlockOk(block, |ir.symbols|)
    ensures |r.symbols| == |ir.symbols| && ir.scopes <= r.scopes
  {
    LowerRange(ir, block, 0, |block.stmts|, s)
  }

  lemma LowerRangeLast(ir: Ir, block: Block, n: nat, s: nat)
    requires 0 < n <= |block.stmts| && s < |ir.scopes| && BlockOk(block, |ir.symbols|)
    ensures LowerRange(ir, block, 0, n, s) == LowerStmt(LowerRange(ir, block, 0, n - 1, s), block.stmts[n - 1], s)
  {
  }

  lemma LowerNothing(ir: Ir, block: Block, s: nat)
    requires s < |ir.scopes| && BlockOk(block, |ir.symbols|)
    ensures LowerRange(ir, block, 0, 0, s) == ir
  {
  }

  lemma {:induction false} LowerRangeUnfold(ir: Ir, block: Block, i: nat, j: nat, s: nat)
    requires i < j <= |block.stmts| && s < |ir.scopes| && BlockOk(block, |ir.symbols|)
    ensures LowerRange(ir, block, i, j, s) == LowerRange(LowerStmt(ir, block.stmts[i], s), block, i + 1, j, s)
    decreases j
  {
    if j == i + 1 {
      assert LowerRange(ir, block, i, i, s) == ir;
    } else {
      LowerRangeUnfold(ir, block, i, j - 1, s);
    }
  }

  // ---- lowering in a scope only grows the IR inside that scope

  lemma PushGrows(ir: Ir, x: nat, source: Expr, s: nat)
    requires Wf(ir) && x < |ir.symbols| && s < |ir.scopes|
    ensures Wf(PushVersion(ir, x, source, s)) && GrowsWithin(ir, PushVersion(ir, x, source, s), s)
  {
  }

  lemma InsertGrows(ir: Ir, s: nat)
    requires Wf(ir) && s < |ir.scopes|
    ensures Wf(InsertScope(ir, s)) && GrowsWithin(ir, InsertScope(ir, s), s)
  {
    var ir' := InsertScope(ir, s);
    assert InSubtree(ir'.scopes, s, s);
  }

  lemma {:induction false} InsertsGrow(ir: Ir, s: nat, n: nat)
    requires Wf(ir) && s < |ir.scopes|
    ensures var ir' := InsertScopes(ir, s, n);
            && Wf(ir') && GrowsWithin(ir, ir', s)
            && forall c :: |ir.scopes| <= c < |ir'.scopes| ==>
                 ir'.scopes[c].parent == Some(s) && ir'.scopes[c].order >= ir.nextOrder
  {
    if n > 0 {
      InsertsGrow(ir, s, n - 1);
      InsertGrows(InsertScopes(ir, s, n - 1), s);
      GrowsTransitive(ir, InsertScopes(ir, s, n - 1), InsertScopes(ir, s, n), s);
    }
  }

  lemma ForwardOneGrows(ir: Ir, d: nat, s: nat, x: nat)
    requires Wf(ir) && x < |ir.symbols| && s < |ir.scopes|
    ensures Wf(ForwardOne(ir, d, s, x)) && GrowsWithin(ir, ForwardOne(ir, d, s, x), s)
    ensures forall y :: 0 <= y < |ir.symbols| && y != x ==> ForwardOne(ir, d, s, x).symbols[y] == ir.symbols[y]
  {
    hide InSubtree, LastOwn, Wf;
    if LastOwn(ir, x, d, |ir.symbols[x]|).Some? {
      PushGrows(ir, x, SymbolRef(x, LastOwn(ir, x, d, |ir.symbols[x]|).value), s);
    }
  }

  lemma {:induction false} ForwardGrows(ir: Ir, d: nat, s: nat, n: nat)
    requires Wf(ir) && n <= |ir.symbols| && s < |ir.scopes|
    ensures Wf(Forward(ir, d, s, n)) && GrowsWithin(ir, Forward(ir, d, s, n), s)
    ensures forall x :: n <= x < |ir.symbols| ==> Forward(ir, d, s, n).symbols[x] == ir.symbols[x]
  {
    hide ForwardOne, Wf, InSubtree, GrowsWithin;
    if n > 0 {
      ForwardGrows(ir, d, s, n - 1);
      var r := Forward(ir, d, s, n - 1);
      ForwardOneGrows(r, d, s, n - 1);
      GrowsTransitive(ir, r, Forward(ir, d, s, n), s);
    } else {
      GrowsNowhere(ir, s);
    }
  }

  lemma GrowsNowhere(ir: Ir, s: nat)
    ensures GrowsWithin(ir, ir, s)
  {
  }

  lemma MergeOneGrows(ir: Ir, scopes: seq<nat>, implicitElse: bool, s: nat, x: nat)
    requires Wf(ir) && x < |ir.symbols| && s < |ir.scopes| && forall b :: b in scopes ==> b < |ir.scopes|
    ensures var r := MergeOne(ir, scopes, implicitElse, s, x); Wf(r) && GrowsWithin(ir, r, s)
    ensures forall y :: 0 <= y < |ir.symbols| && y != x ==>
              MergeOne(ir, scopes, implicitElse, s, x).symbols[y] == ir.symbols[y]
  {
    hide InSubtree, Assigned, Contributions, Wf;
    if Assigned(ir, x, scopes) {
      PushGrows(ir, x, BranchMerge(Contributions(ir, x, scopes, implicitElse, s)), s);
    }
  }

  lemma {:induction false} MergeGrows(ir: Ir, scopes: seq<nat>, implicitElse: bool, s: nat, n: nat)
    requires Wf(ir) && n <= |ir.symbols| && s < |ir.scopes| && forall b :: b in scopes ==> b < |ir.scopes|
    ensures var r := Merge(ir, scopes, implicitElse, s, n); Wf(r) && GrowsWithin(ir, r, s)
    ensures forall x :: n <= x < |ir.symbols| ==> Merge(ir, scopes, implicitElse, s, n).symbols[x] == ir.symbols[x]
  {
    hide MergeOne, Wf, InSubtree, GrowsWithin;
    if n > 0 {
      MergeGrows(ir, scopes, implicitElse, s, n - 1);
      var r := Merge(ir, scopes, implicitElse, s, n - 1);
      MergeOneGrows(r, scopes, implicitElse, s, n - 1);
      GrowsTransitive(ir, r, Merge(ir, scopes, implicitElse, s, n), s);
    } else {
      GrowsNowhere(ir, s);
    }
  }

  lemma {:induction false} StmtGrows(ir: Ir, stmt: Stmt, s: nat)
    requires Wf(ir) && s < |ir.scopes| && StmtOk(stmt, |ir.symbols|)
    ensures Wf(LowerStmt(ir, stmt, s)) && GrowsWithin(ir, LowerStmt(ir, stmt, s), s)
    decreases stmt, if stmt.If? then |Arms(stmt)| + 1 else 0
  {
    match stmt
    case Assign(x, rhs) =>
      PushGrows(ir, x, LowerRhs(ir, rhs, s), s);
    case Do(body) =>
      var d := |ir.scopes|;
      var nested := InsertScope(ir, s);
      var lowered := LowerRange(nested, body, 0, |body.stmts|, d);
      InsertGrows(ir, s);
      RangeGrows(nested, body, 0, |body.stmts|, d);
      GrowsOutward(ir, nested, lowered, s, d);
      ForwardGrows(lowered, d, s, |lowered.symbols|);
      GrowsTransitive(ir, lowered, LowerStmt(ir, stmt, s), s);
    case Exit =>
    case If(_, els) =>
      var first := |ir.scopes|;
      var nested := InsertScopes(ir, s, |Arms(stmt)|);
      InsertsGrow(ir, s, |Arms(stmt)|);
      ArmsGrow(ir, nested, stmt, |Arms(stmt)|, first, s);
      var lowered := LowerArms(nested, stmt, |Arms(stmt)|, first);
      MergedScopesInRange(stmt, first);
      MergeGrows(lowered, MergedScopes(stmt, first), els.None?, s, |lowered.symbols|);
      GrowsTransitive(ir, lowered, LowerStmt(ir, stmt, s), s);
  }

  lemma {:induction false} ArmsGrow(start: Ir, ir: Ir, stmt: Stmt, n: nat, first: nat, s: nat)
    requires stmt.If? && n <= |Arms(stmt)| && first + n <= |ir.scopes| && StmtOk(stmt, |ir.symbols|)
    requires Wf(ir) && GrowsWithin(start, ir, s) && |start.scopes| <= first
    ensures var r := LowerArms(ir, stmt, n, first); Wf(r) && GrowsWithin(start, r, s) && Extends(ir, r)
    decreases stmt, n
  {
    hide LowerRange, InSubtree, Wf;
    if n > 0 {
      var arm := Arms(stmt)[n - 1];
      RangeGrows(ir, arm, 0, |arm.stmts|, first + n - 1);
      var next := LowerRange(ir, arm, 0, |arm.stmts|, first + n - 1);
      GrowsOutward(start, ir, next, s, first + n - 1);
      ArmsGrow(start, next, stmt, n - 1, first, s);
    }
  }

  lemma {:induction false} RangeGrows(ir: Ir, block: Block, i: nat, j: nat, s: nat)
    requires i <= j <= |block.stmts| && s < |ir.scopes| && BlockOk(block, |ir.symbols|) && Wf(ir)
    ensures var r := LowerRange(ir, block, i, j, s); Wf(r) && GrowsWithin(ir, r, s)
    decreases block, j
  {
    if i < j {
      RangeGrows(ir, block, i, j - 1, s);
      var r := LowerRange(ir, block, i, j - 1, s);
      StmtGrows(r, block.stmts[j - 1], s);
      GrowsTransitive(ir, r, LowerStmt(r, block.stmts[j - 1], s), s);
    }
  }
}
