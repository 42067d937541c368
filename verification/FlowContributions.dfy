/** Exactly what a version contributes: growth adds nothing to it, and a merged version contributes what
    its branches do. */
module FlowContributions {
  import opened Wrappers
  import opened FlowIr
  import opened FlowProgram
  import opened FlowLowering
  import opened FlowLookups
  import opened FlowSoundness

  /** All versions the expression refers to exist. */
  predicate RefsIn(ir: Ir, e: Expr) {
    match e
    case Lit(_) => true
    case SymbolRef(x, k) => x < |ir.symbols| && k < |ir.symbols[x]|
    case BranchMerge(parts) => forall i :: 0 <= i < |parts| ==> RefsIn(ir, parts[i])
  }

  ghost predicate Closed(ir: Ir) {
    forall x, k :: 0 <= x < |ir.symbols| && 0 <= k < |ir.symbols[x]| ==> RefsIn(ir, ir.symbols[x][k].source)
  }

  lemma {:induction false} RefsStay(older: Ir, newer: Ir, e: Expr)
    requires Extends(older, newer) && RefsIn(older, e)
    ensures RefsIn(newer, e)
    decreases e
  {
    if e.BranchMerge? {
      forall i | 0 <= i < |e.parts| ensures RefsIn(newer, e.parts[i]) {
        RefsStay(older, newer, e.parts[i]);
      }
    }
  }

  lemma {:induction false} MayShrinks(older: Ir, newer: Ir, e: Expr, v: int, n: nat)
    requires Extends(older, newer) && Closed(older) && RefsIn(older, e) && MayIn(newer, e, v, n)
    ensures MayIn(older, e, v, n)
    decreases n, e
  {
    match e
    case Lit(_) =>
    case SymbolRef(x, k) =>
      assert newer.symbols[x][k] == older.symbols[x][k];
      MayShrinks(older, newer, older.symbols[x][k].source, v, n - 1);
    case BranchMerge(parts) =>
      var i :| 0 <= i < |parts| && MayIn(newer, parts[i], v, n);
      MayShrinks(older, newer, parts[i], v, n);
  }

  /** What is added later contributes nothing to what is there. */
  lemma MaySame(older: Ir, newer: Ir, e: Expr, v: int)
    requires Extends(older, newer) && Closed(older) && RefsIn(older, e)
    ensures May(newer, e, v) <==> May(older, e, v)
  {
    if May(older, e, v) {
      MayStays(older, newer, e, v);
    }
    if n: nat :| MayIn(newer, e, v, n) {
      MayShrinks(older, newer, e, v, n);
    }
  }

  /** A merge contributes what its parts do. */
  lemma MergeContributes(ir: Ir, parts: seq<Expr>, v: int)
    ensures May(ir, BranchMerge(parts), v) <==> exists i :: 0 <= i < |parts| && May(ir, parts[i], v)
  {
    if n: nat :| MayIn(ir, BranchMerge(parts), v, n) {
      var i :| 0 <= i < |parts| && MayIn(ir, parts[i], v, n);
      assert May(ir, parts[i], v);
    }
    if i :| 0 <= i < |parts| && May(ir, parts[i], v) {
      MayThroughMerge(ir, parts, i, v);
    }
  }

  // ---- lowering keeps references in range

  lemma PushCloses(ir: Ir, x: nat, source: Expr, s: nat)
    requires Closed(ir) && x < |ir.symbols| && RefsIn(ir, source)
    ensures Closed(PushVersion(ir, x, source, s))
  {
    var r := PushVersion(ir, x, source, s);
    assert Extends(ir, r);
    forall y, k | 0 <= y < |r.symbols| && 0 <= k < |r.symbols[y]| ensures RefsIn(r, r.symbols[y][k].source) {
      RefsStay(ir, r, if k < |ir.symbols[y]| then ir.symbols[y][k].source else source);
    }
  }

  lemma LookupsAreIn(ir: Ir, x: nat, s: nat)
    requires Wf(ir) && x < |ir.symbols|
    ensures AncestorVersion(ir, x, s) < |ir.symbols[x]|
    ensures s < |ir.scopes| ==> VersionForScope(ir, x, s) < |ir.symbols[x]|
  {
    LatestAroundIn(ir, x, s, |ir.symbols[x]|);
    if s < |ir.scopes| {
      LatestAcceptedIn(ir, x, s, |ir.symbols[x]|);
    }
  }

  lemma {:induction false} LatestAroundIn(ir: Ir, x: nat, s: nat, n: nat)
    requires x < |ir.symbols| && n <= |ir.symbols[x]|
    ensures n > 0 ==> LatestAround(ir, x, s, n) < n
    ensures n == 0 ==> LatestAround(ir, x, s, n) == 0
    decreases n
  {
    if n > 0 {
      LatestAroundIn(ir, x, s, n - 1);
    }
  }

  lemma {:induction false} LatestAcceptedIn(ir: Ir, x: nat, s: nat, n: nat)
    requires x < |ir.symbols| && s < |ir.scopes| && n <= |ir.symbols[x]|
    ensures n > 0 ==> LatestAccepted(ir, x, s, n) < n
    ensures n == 0 ==> LatestAccepted(ir, x, s, n) == 0
    decreases n
  {
    if n > 0 {
      LatestAcceptedIn(ir, x, s, n - 1);
    }
  }

  lemma {:induction false} ForwardCloses(ir: Ir, d: nat, s: nat, n: nat)
    requires Wf(ir) && Closed(ir) && n <= |ir.symbols| && s < |ir.scopes|
    ensures Closed(Forward(ir, d, s, n))
    decreases n
  {
    hide Wf, InSubtree, Closed;
    if n > 0 {
      var r := Forward(ir, d, s, n - 1);
      ForwardCloses(ir, d, s, n - 1);
      LastOwnSpec(r, n - 1, d, |r.symbols[n - 1]|);
      if LastOwn(r, n - 1, d, |r.symbols[n - 1]|).Some? {
        var k := LastOwn(r, n - 1, d, |r.symbols[n - 1]|).value;
        PushCloses(r, n - 1, SymbolRef(n - 1, k), s);
      }
    }
  }

  lemma ContributionsAreIn(ir: Ir, x: nat, scopes: seq<nat>, implicitElse: bool, s: nat)
    requires Wf(ir) && x < |ir.symbols| && s < |ir.scopes| && forall b :: b in scopes ==> b < |ir.scopes|
    ensures RefsIn(ir, BranchMerge(Contributions(ir, x, scopes, implicitElse, s)))
  {
    hide Wf, AncestorVersion, VersionForScope;
    var parts := Contributions(ir, x, scopes, implicitElse, s);
    LookupsAreIn(ir, x, s);
    forall i | 0 <= i < |parts| ensures RefsIn(ir, parts[i]) {
      if i < |scopes| {
        assert scopes[i] in scopes;
        LookupsAreIn(ir, x, scopes[i]);
      }
    }
  }

  lemma {:induction false} MergeCloses(ir: Ir, scopes: seq<nat>, implicitElse: bool, s: nat, n: nat)
    requires Wf(ir) && Closed(ir) && n <= |ir.symbols| && s < |ir.scopes| && forall b :: b in scopes ==> b < |ir.scopes|
    ensures Closed(Merge(ir, scopes, implicitElse, s, n))
    decreases n
  {
    hide Wf, InSubtree, Closed, Contributions, Assigned;
    if n > 0 {
      var r := Merge(ir, scopes, implicitElse, s, n - 1);
      MergeCloses(ir, scopes, implicitElse, s, n - 1);
      MergeGrows(ir, scopes, implicitElse, s, n - 1);
      if Assigned(r, n - 1, scopes) {
        ContributionsAreIn(r, n - 1, scopes, implicitElse, s);
        PushCloses(r, n - 1, BranchMerge(Contributions(r, n - 1, scopes, implicitElse, s)), s);
      }
    }
  }

  lemma ScopesClose(ir: Ir, nested: Ir)
    requires Closed(ir) && nested.symbols == ir.symbols
    ensures Closed(nested)
  {
    forall x, k | 0 <= x < |ir.symbols| && 0 <= k < |ir.symbols[x]| ensures RefsIn(nested, ir.symbols[x][k].source) {
      RefsSame(ir, nested, ir.symbols[x][k].source);
    }
  }

  lemma {:induction false} RefsSame(ir: Ir, nested: Ir, e: Expr)
    requires nested.symbols == ir.symbols && RefsIn(ir, e)
    ensures RefsIn(nested, e)
    decreases e
  {
    if e.BranchMerge? {
      forall i | 0 <= i < |e.parts| ensures RefsIn(nested, e.parts[i]) {
        RefsSame(ir, nested, e.parts[i]);
      }
    }
  }

  lemma {:induction false} StmtCloses(ir: Ir, stmt: Stmt, s: nat)
    requires Wf(ir) && Closed(ir) && s < |ir.scopes| && StmtOk(stmt, |ir.symbols|)
    ensures Closed(LowerStmt(ir, stmt, s))
    decreases stmt, if stmt.If? then |Arms(stmt)| + 1 else 0
  {
    hide Wf, Closed, InSubtree, LowerRange, LowerArms, Merge, Forward, VersionForScope, MergedArms;
    match stmt
    case Assign(x, rhs) =>
      if rhs.Read? {
        LookupsAreIn(ir, rhs.sym, s);
      }
      PushCloses(ir, x, LowerRhs(ir, rhs, s), s);
    case Do(body) =>
      var d := |ir.scopes|;
      var nested := InsertScope(ir, s);
      InsertGrows(ir, s);
      ScopesClose(ir, nested);
      RangeCloses(nested, body, |body.stmts|, d);
      RangeGrows(nested, body, 0, |body.stmts|, d);
      var lowered := LowerRange(nested, body, 0, |body.stmts|, d);
      ForwardCloses(lowered, d, s, |lowered.symbols|);
    case Exit =>
    case If(_, els) =>
      var first, n := |ir.scopes|, |Arms(stmt)|;
      var branched := InsertScopes(ir, s, n);
      InsertsGrow(ir, s, n);
      ScopesClose(ir, branched);
      ArmsClose(branched, stmt, n, first);
      ArmsGrow(ir, branched, stmt, n, first, s);
      MergedScopesInRange(stmt, first);
      var lowered := LowerArms(branched, stmt, n, first);
      MergeCloses(lowered, MergedScopes(stmt, first), els.None?, s, |lowered.symbols|);
  }

  lemma {:induction false} ArmsClose(ir: Ir, stmt: Stmt, n: nat, first: nat)
    requires Wf(ir) && Closed(ir) && stmt.If? && n <= |Arms(stmt)| && first + n <= |ir.scopes|
    requires StmtOk(stmt, |ir.symbols|)
    ensures Closed(LowerArms(ir, stmt, n, first))
    decreases stmt, n
  {
    hide Wf, Closed, InSubtree, LowerRange;
    if n > 0 {
      var arm := Arms(stmt)[n - 1];
      RangeCloses(ir, arm, |arm.stmts|, first + n - 1);
      RangeGrows(ir, arm, 0, |arm.stmts|, first + n - 1);
      ArmsClose(LowerRange(ir, arm, 0, |arm.stmts|, first + n - 1), stmt, n - 1, first);
    }
  }

  lemma {:induction false} RangeCloses(ir: Ir, block: Block, n: nat, s: nat)
    requires Wf(ir) && Closed(ir) && n <= |block.stmts| && s < |ir.scopes| && BlockOk(block, |ir.symbols|)
    ensures Closed(LowerRange(ir, block, 0, n, s))
    decreases block, n
  {
    hide Wf, Closed, InSubtree, LowerRange;
    if n > 0 {
      RangeCloses(ir, block, n - 1, s);
      RangeGrows(ir, block, 0, n - 1, s);
      LowerRangeLast(ir, block, n, s);
      StmtCloses(LowerRange(ir, block, 0, n - 1, s), block.stmts[n - 1], s);
    } else {
      LowerNothing(ir, block, s);
    }
  }

  // ---- merged versions

  /** The scopes of merged branches, each looked up where it stands. */
  ghost predicate FreshBranches(ir: Ir, scopes: seq<nat>, s: nat) {
    forall b :: b in scopes ==> s < b < |ir.scopes| && ir.scopes[b].parent == Some(s) && OwnIsFresh(ir, b)
  }

  /** The version that `b` is in contributes `v` to the merge of `x`. */
  ghost predicate BranchGives(ir: Ir, scopes: seq<nat>, x: nat, v: int)
    requires x < |ir.symbols|
  {
    exists b :: b in scopes && May(ir, SymbolRef(x, AncestorVersion(ir, x, b)), v)
  }

  /** After a merge the version of a variable contributes what some merged branch contributes, and what the
      version from before the chain does only if there is no `else`: no more and no less. A variable that no
      merged branch bound is left alone. */
  lemma MergeIsExact(ir: Ir, scopes: seq<nat>, implicitElse: bool, s: nat, x: nat, v: int)
    requires Wf(ir) && Closed(ir) && s < |ir.scopes| && x < |ir.symbols| && FreshBranches(ir, scopes, s)
    ensures var r := Merge(ir, scopes, implicitElse, s, |ir.symbols|);
            var before := May(ir, SymbolRef(x, AncestorVersion(ir, x, s)), v);
            May(r, SymbolRef(x, AncestorVersion(r, x, s)), v) <==>
            if Assigned(ir, x, scopes) then BranchGives(ir, scopes, x, v) || (implicitElse && before) else before
  {
    hide InSubtree, VersionForScope, MayIn, Contributions, Assigned, Stale;
    var r := Merge(ir, scopes, implicitElse, s, |ir.symbols|);
    MergeGrows(ir, scopes, implicitElse, s, |ir.symbols|);
    MergeSpec(ir, scopes, implicitElse, s, |ir.symbols|, x);
    if Assigned(ir, x, scopes) {
      PushedIsFound(ir, r, x, s);
      var parts := Contributions(ir, x, scopes, implicitElse, s);
      ReadContributes(r, x, |ir.symbols[x]|, v);
      MergeContributes(r, parts, v);
      PartsGive(ir, r, scopes, implicitElse, s, x, v);
    } else {
      LookupStable(ir, r, x, s, |ir.symbols[x]|);
      LookupsAreIn(ir, x, s);
      MaySame(ir, r, SymbolRef(x, AncestorVersion(ir, x, s)), v);
    }
  }

  lemma PushedIsFound(ir: Ir, r: Ir, x: nat, s: nat)
    requires x < |ir.symbols| && x < |r.symbols| && |r.symbols[x]| == |ir.symbols[x]| + 1
    requires r.symbols[x][|ir.symbols[x]|].scope == s
    ensures AncestorVersion(r, x, s) == |ir.symbols[x]|
  {
  }

  /** The parts of a merge, one by one. */
  lemma PartsGive(ir: Ir, r: Ir, scopes: seq<nat>, implicitElse: bool, s: nat, x: nat, v: int)
    requires Wf(ir) && Closed(ir) && Extends(ir, r) && s < |ir.scopes| && x < |ir.symbols|
    requires FreshBranches(ir, scopes, s)
    ensures var parts := Contributions(ir, x, scopes, implicitElse, s);
            (exists i :: 0 <= i < |parts| && May(r, parts[i], v)) <==>
            BranchGives(ir, scopes, x, v) || (implicitElse && May(ir, SymbolRef(x, AncestorVersion(ir, x, s)), v))
  {
    hide InSubtree, MayIn, May, AncestorVersion;
    var parts := Contributions(ir, x, scopes, implicitElse, s);
    forall i | 0 <= i < |scopes|
      ensures scopes[i] in scopes
      ensures May(r, parts[i], v) <==> May(ir, SymbolRef(x, AncestorVersion(ir, x, scopes[i])), v)
    {
      assert scopes[i] in scopes;
      BranchPart(ir, r, scopes[i], s, x, v);
    }
    LookupsAreIn(ir, x, s);
    MaySame(ir, r, SymbolRef(x, AncestorVersion(ir, x, s)), v);
    if b :| b in scopes && May(ir, SymbolRef(x, AncestorVersion(ir, x, b)), v) {
      var i :| 0 <= i < |scopes| && scopes[i] == b;
      assert May(r, parts[i], v);
    }
    if implicitElse {
      assert parts[|scopes|] == SymbolRef(x, AncestorVersion(ir, x, s));
    }
  }

  lemma BranchPart(ir: Ir, r: Ir, b: nat, s: nat, x: nat, v: int)
    requires Wf(ir) && Closed(ir) && Extends(ir, r) && s < |ir.scopes| && x < |ir.symbols|
    requires s < b < |ir.scopes| && ir.scopes[b].parent == Some(s) && OwnIsFresh(ir, b)
    ensures Contribution(ir, x, b, AncestorVersion(ir, x, s)) == SymbolRef(x, AncestorVersion(ir, x, b))
    ensures May(r, Contribution(ir, x, b, AncestorVersion(ir, x, s)), v) <==>
            May(ir, SymbolRef(x, AncestorVersion(ir, x, b)), v)
  {
    hide InSubtree, MayIn;
    if !HasOwn(ir, x, b) {
      NoOwnLookup(ir, s, b, x, |ir.symbols[x]|);
    }
    LookupsAreIn(ir, x, b);
    MaySame(ir, r, SymbolRef(x, AncestorVersion(ir, x, b)), v);
  }
}
