/** Syntax decides the lookups: which symbols get versions, which get one in the block's own scope,
    and at which points a read looks past the version its block is in. */
module FlowStaleness {
  import opened Wrappers
  import opened FlowIr
  import opened FlowProgram
  import opened FlowLowering
  import opened FlowLookups

  /** The first `n` arms of the chain are open and not lowered yet. */
  ghost predicate ArmsReady(ir: Ir, stmt: Stmt, n: nat, first: nat, s: nat) {
    && stmt.If? && n <= |Arms(stmt)| && s < first && first + |Arms(stmt)| <= |ir.scopes|
    && Wf(ir) && StmtOk(stmt, |ir.symbols|)
    && (forall c :: first <= c < first + |Arms(stmt)| ==> ir.scopes[c].parent == Some(s))
    && (forall c :: first <= c < first + n ==> Ready(ir, s, c))
  }

  lemma OpenArms(ir: Ir, stmt: Stmt, s: nat)
    requires Wf(ir) && s < |ir.scopes| && stmt.If? && StmtOk(stmt, |ir.symbols|)
    ensures ArmsReady(InsertScopes(ir, s, |Arms(stmt)|), stmt, |Arms(stmt)|, |ir.scopes|, s)
    ensures GrowsWithin(ir, InsertScopes(ir, s, |Arms(stmt)|), s)
  {
    InsertsGrow(ir, s, |Arms(stmt)|);
    OpenedReady(ir, s, |Arms(stmt)|);
  }

  function LowerArm(ir: Ir, stmt: Stmt, j: nat, first: nat): (r: Ir)
    requires stmt.If? && j < |Arms(stmt)| && first + j < |ir.scopes| && StmtOk(stmt, |ir.symbols|)
    ensures |r.symbols| == |ir.symbols| && ir.scopes <= r.scopes
  {
    var arm := Arms(stmt)[j];
    LowerRange(ir, arm, 0, |arm.stmts|, first + j)
  }

  /** Lowering the last of `n` ready arms leaves the others ready and their lookups in place. */
  lemma ArmStep(ir: Ir, stmt: Stmt, n: nat, first: nat, s: nat)
    requires ArmsReady(ir, stmt, n, first, s) && n > 0
    ensures var next := LowerArm(ir, stmt, n - 1, first);
            ArmsReady(next, stmt, n - 1, first, s) && GrowsWithin(ir, next, first + n - 1)
    ensures forall b, x ::
              s < b < |ir.scopes| && ir.scopes[b].parent == Some(s) && b != first + n - 1 && 0 <= x < |ir.symbols| ==>
              var next := LowerArm(ir, stmt, n - 1, first);
              && AncestorVersion(next, x, b) == AncestorVersion(ir, x, b)
              && VersionForScope(next, x, b) == VersionForScope(ir, x, b)
              && HasOwn(next, x, b) == HasOwn(ir, x, b)
  {
    hide InSubtree, LowerRange, HasOwn, VersionForScope, AncestorVersion;
    var arm := Arms(stmt)[n - 1];
    var next := LowerArm(ir, stmt, n - 1, first);
    RangeGrows(ir, arm, 0, |arm.stmts|, first + n - 1);
    forall b | s < b < |ir.scopes| && ir.scopes[b].parent == Some(s) && b != first + n - 1
      ensures Ready(ir, s, b) ==> Ready(next, s, b)
      ensures forall x :: 0 <= x < |ir.symbols| ==>
                && AncestorVersion(next, x, b) == AncestorVersion(ir, x, b)
                && VersionForScope(next, x, b) == VersionForScope(ir, x, b)
                && HasOwn(next, x, b) == HasOwn(ir, x, b)
    {
      SiblingUntouched(ir, next, s, b, first + n - 1);
    }
  }

  /** What lowering the first `n` arms does not touch. */
  lemma {:induction false} ArmsKeep(ir: Ir, stmt: Stmt, n: nat, first: nat, s: nat, b: nat)
    requires ArmsReady(ir, stmt, n, first, s)
    requires s < b < |ir.scopes| && ir.scopes[b].parent == Some(s) && !(first <= b < first + n)
    ensures var r := LowerArms(ir, stmt, n, first);
            && Wf(r) && Extends(ir, r)
            && forall x :: 0 <= x < |ir.symbols| ==>
                 && AncestorVersion(r, x, b) == AncestorVersion(ir, x, b)
                 && VersionForScope(r, x, b) == VersionForScope(ir, x, b)
                 && HasOwn(r, x, b) == HasOwn(ir, x, b)
    decreases n
  {
    hide InSubtree, Wf, LowerRange, HasOwn, VersionForScope, AncestorVersion;
    if n > 0 {
      ArmStep(ir, stmt, n, first, s);
      ArmsKeep(LowerArm(ir, stmt, n - 1, first), stmt, n - 1, first, s, b);
    }
  }

  // ---- which symbols get versions

  lemma {:induction false} StmtWrites(ir: Ir, stmt: Stmt, s: nat, x: nat)
    requires Wf(ir) && s < |ir.scopes| && StmtOk(stmt, |ir.symbols|) && x < |ir.symbols|
    ensures var r := LowerStmt(ir, stmt, s);
            if Writes(stmt, x) then |r.symbols[x]| > |ir.symbols[x]| else r.symbols[x] == ir.symbols[x]
    decreases stmt, if stmt.If? then |Arms(stmt)| + 1 else 0
  {
    hide LowerArms, LowerRange, Merge, Forward, InSubtree, MergedArms;
    match stmt
    case Assign(_, _) =>
    case Do(body) =>
      var d := |ir.scopes|;
      var lowered := LowerRange(InsertScope(ir, s), body, 0, |body.stmts|, d);
      InsertGrows(ir, s);
      RangeGrows(InsertScope(ir, s), body, 0, |body.stmts|, d);
      RangeWrites(InsertScope(ir, s), body, |body.stmts|, d, x);
      ForwardWrites(ir, lowered, d, s, x);
      assert Writes(stmt, x) <==> exists i :: 0 <= i < |body.stmts| && Writes(body.stmts[i], x);
    case Exit =>
    case If(_, els) =>
      var first := |ir.scopes|;
      var branched := InsertScopes(ir, s, |Arms(stmt)|);
      OpenArms(ir, stmt, s);
      ArmsWrites(branched, stmt, |Arms(stmt)|, first, s, x);
      ArmsGrow(ir, branched, stmt, |Arms(stmt)|, first, s);
      MergedScopesInRange(stmt, first);
      MergeWrites(ir, LowerArms(branched, stmt, |Arms(stmt)|, first), MergedScopes(stmt, first), els.None?, s, x);
  }

  /** Forwarding out of a new scope adds a version only where that scope added one. */
  lemma ForwardWrites(ir: Ir, lowered: Ir, d: nat, s: nat, x: nat)
    requires Wf(ir) && Wf(lowered) && Extends(ir, lowered) && x < |ir.symbols| && s < |ir.scopes| <= d
    ensures var r := Forward(lowered, d, s, |lowered.symbols|);
            && |lowered.symbols[x]| <= |r.symbols[x]|
            && (lowered.symbols[x] == ir.symbols[x] ==> r.symbols[x] == ir.symbols[x])
  {
    ForwardSpec(lowered, d, s, |lowered.symbols|, x);
    LastOwnSpec(lowered, x, d, |lowered.symbols[x]|);
  }

  /** Merging new scopes adds a version only where one of them added one. */
  lemma MergeWrites(ir: Ir, lowered: Ir, scopes: seq<nat>, implicitElse: bool, s: nat, x: nat)
    requires Wf(ir) && Wf(lowered) && Extends(ir, lowered) && x < |ir.symbols| && s < |ir.scopes|
    requires forall b :: b in scopes ==> |ir.scopes| <= b < |lowered.scopes|
    ensures var r := Merge(lowered, scopes, implicitElse, s, |lowered.symbols|);
            && |lowered.symbols[x]| <= |r.symbols[x]|
            && (lowered.symbols[x] == ir.symbols[x] ==> r.symbols[x] == ir.symbols[x])
  {
    MergeSpec(lowered, scopes, implicitElse, s, |lowered.symbols|, x);
    if lowered.symbols[x] == ir.symbols[x] {
      forall i | 0 <= i < |scopes| ensures !HasOwn(lowered, x, scopes[i]) {
        assert scopes[i] in scopes;
      }
    }
  }

  lemma {:induction false} ArmsWrites(ir: Ir, stmt: Stmt, n: nat, first: nat, s: nat, x: nat)
    requires ArmsReady(ir, stmt, n, first, s) && x < |ir.symbols|
    ensures var r := LowerArms(ir, stmt, n, first); var arms := Arms(stmt);
            if exists j :: 0 <= j < n && BlockWrites(arms[j], x)
            then |r.symbols[x]| > |ir.symbols[x]| else r.symbols[x] == ir.symbols[x]
    decreases stmt, n
  {
    hide LowerRange, InSubtree, Wf, HasOwn, VersionForScope, AncestorVersion;
    if n > 0 {
      var arms := Arms(stmt);
      var next := LowerArm(ir, stmt, n - 1, first);
      ArmStep(ir, stmt, n, first, s);
      RangeWrites(ir, arms[n - 1], |arms[n - 1].stmts|, first + n - 1, x);
      ArmsWrites(next, stmt, n - 1, first, s, x);
      if n > 1 {
        ArmsKeep(next, stmt, n - 1, first, s, first + n - 1);
      }
      if j :| 0 <= j < n && BlockWrites(arms[j], x) {
        assert j < n - 1 || j == n - 1;
      }
    }
  }

  lemma {:induction false} RangeWrites(ir: Ir, block: Block, n: nat, s: nat, x: nat)
    requires n <= |block.stmts| && s < |ir.scopes| && BlockOk(block, |ir.symbols|) && Wf(ir) && x < |ir.symbols|
    ensures var r := LowerRange(ir, block, 0, n, s);
            if exists i :: 0 <= i < n && Writes(block.stmts[i], x)
            then |r.symbols[x]| > |ir.symbols[x]| else r.symbols[x] == ir.symbols[x]
    decreases block, n
  {
    hide InSubtree, Wf, Writes, LowerRange, LowerStmt;
    if n > 0 {
      var r := LowerRange(ir, block, 0, n - 1, s);
      RangeGrows(ir, block, 0, n - 1, s);
      RangeWrites(ir, block, n - 1, s, x);
      LowerRangeLast(ir, block, n, s);
      StmtGrows(r, block.stmts[n - 1], s);
      StmtWrites(r, block.stmts[n - 1], s, x);
      if i :| 0 <= i < n && Writes(block.stmts[i], x) {
        assert i < n - 1 || i == n - 1;
      }
    } else {
      LowerNothing(ir, block, s);
    }
  }

  // ---- which symbols get a version in the very scope

  lemma {:induction false} StmtBinds(ir: Ir, stmt: Stmt, s: nat, x: nat)
    requires Wf(ir) && s < |ir.scopes| && StmtOk(stmt, |ir.symbols|) && x < |ir.symbols|
    ensures HasOwn(LowerStmt(ir, stmt, s), x, s) <==> HasOwn(ir, x, s) || Binds(stmt, x)
    decreases stmt, if stmt.If? then |Arms(stmt)| + 2 else 2
  {
    hide InSubtree, Wf, LowerRange, LowerArms, Merge, Forward, BlockBinds, MergedArms;
    match stmt
    case Assign(y, _) =>
      var r := LowerStmt(ir, stmt, s);
      OwnAfterGrowth(ir, r, x, s);
      assert r.symbols[y][|ir.symbols[y]|].scope == s;
    case Do(_) => DoBindsOwn(ir, stmt, s, x);
    case Exit =>
    case If(_, _) => IfBindsOwn(ir, stmt, s, x);
  }

  lemma {:induction false} DoBindsOwn(ir: Ir, stmt: Stmt, s: nat, x: nat)
    requires Wf(ir) && s < |ir.scopes| && StmtOk(stmt, |ir.symbols|) && x < |ir.symbols| && stmt.Do?
    ensures HasOwn(LowerStmt(ir, stmt, s), x, s) <==> HasOwn(ir, x, s) || Binds(stmt, x)
    decreases stmt, 1
  {
    hide InSubtree, Wf, LowerRange;
    var d, body := |ir.scopes|, stmt.body;
    var nested := InsertScope(ir, s);
    OpenDo(ir, s);
    ReadyIsFresh(nested, s, d, x);
    var lowered := LowerRange(nested, body, 0, |body.stmts|, d);
    RangeGrows(nested, body, 0, |body.stmts|, d);
    RangeBinds(nested, body, |body.stmts|, d, x);
    OwnElsewhere(nested, lowered, x, s, d);
    ForwardSpec(lowered, d, s, |lowered.symbols|, x);
    LastOwnSpec(lowered, x, d, |lowered.symbols[x]|);
    OwnAfterGrowth(lowered, LowerStmt(ir, stmt, s), x, s);
  }

  lemma {:induction false} IfBindsOwn(ir: Ir, stmt: Stmt, s: nat, x: nat)
    requires Wf(ir) && s < |ir.scopes| && StmtOk(stmt, |ir.symbols|) && x < |ir.symbols| && stmt.If?
    ensures HasOwn(LowerStmt(ir, stmt, s), x, s) <==> HasOwn(ir, x, s) || Binds(stmt, x)
    decreases stmt, |Arms(stmt)| + 1
  {
    hide InSubtree, Wf, LowerArms, Merge, BlockBinds, MergedArms;
    var first := |ir.scopes|;
    OpenArms(ir, stmt, s);
    var branched := InsertScopes(ir, s, |Arms(stmt)|);
    ArmsGrow(ir, branched, stmt, |Arms(stmt)|, first, s);
    var lowered := LowerArms(branched, stmt, |Arms(stmt)|, first);
    ArmsBelow(branched, stmt, |Arms(stmt)|, first, s, x);
    OwnAfterGrowth(branched, lowered, x, s);
    forall j | 0 <= j < |Arms(stmt)| ensures HasOwn(lowered, x, first + j) <==> BlockBinds(Arms(stmt)[j], x) {
      ArmBinds(branched, stmt, |Arms(stmt)|, first, s, x, j);
    }
    MergedScopesInRange(stmt, first);
    var merged := MergedScopes(stmt, first);
    MergeSpec(lowered, merged, stmt.els.None?, s, |lowered.symbols|, x);
    OwnAfterGrowth(lowered, LowerStmt(ir, stmt, s), x, s);
    AssignedIsBinds(lowered, stmt, first, x);
  }

  /** The merge takes up `x` exactly when some merged arm binds it. */
  lemma AssignedIsBinds(lowered: Ir, stmt: Stmt, first: nat, x: nat)
    requires stmt.If? && x < |lowered.symbols|
    requires forall j :: 0 <= j < |Arms(stmt)| ==> (HasOwn(lowered, x, first + j) <==> BlockBinds(Arms(stmt)[j], x))
    ensures Assigned(lowered, x, MergedScopes(stmt, first)) <==> Binds(stmt, x)
  {
    hide HasOwn, BlockBinds, MergedArms;
    MergedScopesInRange(stmt, first);
    MergedInRange(stmt);
    var merged, arms := MergedScopes(stmt, first), Arms(stmt);
    if Assigned(lowered, x, merged) {
      var i :| 0 <= i < |merged| && HasOwn(lowered, x, merged[i]);
      assert merged[i] in merged;
      var j := merged[i] - first;
      assert merged[i] == first + j;
      assert j in MergedArms(stmt) && BlockBinds(arms[j], x);
    }
    if Binds(stmt, x) {
      var j :| 0 <= j < |arms| && j in MergedArms(stmt) && BlockBinds(arms[j], x);
      assert first + j in merged;
      var i :| 0 <= i < |merged| && merged[i] == first + j;
    }
  }

  lemma OwnAfterGrowth(older: Ir, newer: Ir, x: nat, s: nat)
    requires x < |older.symbols| && x < |newer.symbols| && older.symbols[x] <= newer.symbols[x]
    ensures HasOwn(newer, x, s) <==>
            HasOwn(older, x, s) ||
            exists k :: |older.symbols[x]| <= k < |newer.symbols[x]| && newer.symbols[x][k].scope == s
  {
    if HasOwn(older, x, s) {
      var k :| 0 <= k < |older.symbols[x]| && older.symbols[x][k].scope == s;
      assert newer.symbols[x][k].scope == s;
    }
    if k :| 0 <= k < |newer.symbols[x]| && newer.symbols[x][k].scope == s {
      if k < |older.symbols[x]| {
        assert older.symbols[x][k].scope == s;
      }
    }
  }

  lemma OwnElsewhere(older: Ir, newer: Ir, x: nat, s: nat, c: nat)
    requires GrowsWithin(older, newer, c) && x < |older.symbols| && s < c < |older.scopes|
    ensures HasOwn(newer, x, s) == HasOwn(older, x, s)
  {
    OwnAfterGrowth(older, newer, x, s);
  }

  lemma ArmBindsItself(ir: Ir, stmt: Stmt, j: nat, first: nat, s: nat, x: nat)
    requires ArmsReady(ir, stmt, j + 1, first, s) && x < |ir.symbols|
    ensures HasOwn(LowerArm(ir, stmt, j, first), x, first + j) <==> BlockBinds(Arms(stmt)[j], x)
    decreases stmt, j, 0
  {
    var arm := Arms(stmt)[j];
    ReadyIsFresh(ir, s, first + j, x);
    RangeBinds(ir, arm, |arm.stmts|, first + j, x);
  }

  lemma {:induction false} ArmBinds(ir: Ir, stmt: Stmt, n: nat, first: nat, s: nat, x: nat, j: nat)
    requires ArmsReady(ir, stmt, n, first, s) && x < |ir.symbols| && j < n
    ensures HasOwn(LowerArms(ir, stmt, n, first), x, first + j) <==> BlockBinds(Arms(stmt)[j], x)
    decreases stmt, n, 1
  {
    hide InSubtree, LowerRange, HasOwn, BlockBinds;
    ArmStep(ir, stmt, n, first, s);
    if j == n - 1 {
      ArmBindsItself(ir, stmt, j, first, s, x);
      ArmsKeep(LowerArm(ir, stmt, j, first), stmt, j, first, s, first + j);
    } else {
      ArmBinds(LowerArm(ir, stmt, n - 1, first), stmt, n - 1, first, s, x, j);
    }
  }

  lemma {:induction false} RangeBinds(ir: Ir, block: Block, n: nat, s: nat, x: nat)
    requires n <= |block.stmts| && s < |ir.scopes| && BlockOk(block, |ir.symbols|) && Wf(ir) && x < |ir.symbols|
    ensures HasOwn(LowerRange(ir, block, 0, n, s), x, s) <==>
            HasOwn(ir, x, s) || exists i :: 0 <= i < n && Binds(block.stmts[i], x)
    decreases block, n
  {
    if n > 0 {
      var r := LowerRange(ir, block, 0, n - 1, s);
      RangeGrows(ir, block, 0, n - 1, s);
      RangeBinds(ir, block, n - 1, s, x);
      StmtBinds(r, block.stmts[n - 1], s, x);
      if i :| 0 <= i < n && Binds(block.stmts[i], x) {
        assert i < n - 1 || i == n - 1;
      }
    }
  }

  // ---- stale lookups

  /** A version in `s` itself that is the latest of all ends staleness. */
  lemma LatestOwnIsFresh(ir: Ir, x: nat, s: nat)
    requires x < |ir.symbols| && s < |ir.scopes| && |ir.symbols[x]| > 0
    requires ir.symbols[x][|ir.symbols[x]| - 1].scope == s
    ensures !Stale(ir, x, s)
  {
  }

  lemma SameVersionsSameStaleness(older: Ir, newer: Ir, x: nat, s: nat)
    requires Wf(older) && Extends(older, newer) && x < |older.symbols| && s < |older.scopes|
    requires newer.symbols[x] == older.symbols[x]
    ensures Stale(newer, x, s) == Stale(older, x, s)
  {
    LookupStable(older, newer, x, s, |older.symbols[x]|);
  }

  /** New versions inside `s` but not in `s` itself hide the version `s` is in. */
  lemma NestedVersionsAreStale(older: Ir, newer: Ir, x: nat, s: nat)
    requires Wf(older) && Wf(newer) && GrowsWithin(older, newer, s) && x < |older.symbols| && s < |older.scopes|
    requires |newer.symbols[x]| > |older.symbols[x]|
    requires forall k :: |older.symbols[x]| <= k < |newer.symbols[x]| ==> newer.symbols[x][k].scope != s
    ensures Stale(newer, x, s)
  {
    forall k | |older.symbols[x]| <= k < |newer.symbols[x]|
      ensures !InSubtree(newer.scopes, s, newer.symbols[x][k].scope)
    {
      if InSubtree(newer.scopes, s, newer.symbols[x][k].scope) {
        SubtreeBelow(newer.scopes, s, newer.symbols[x][k].scope);
      }
    }
    AncestorUnchanged(older, newer, x, s);
    LatestAroundSpec(older, x, s, |older.symbols[x]|);
    var last := newer.symbols[x][|newer.symbols[x]| - 1];
    assert InSubtree(newer.scopes, last.scope, s);
    assert Accepts(newer, last, s);
  }

  /** The nested blocks of `stmt` are lowered, and then `x` gets a version in `s` if `stmt` binds it. */
  lemma AfterNested(ir: Ir, lowered: Ir, r: Ir, stmt: Stmt, s: nat, x: nat)
    requires Wf(ir) && Wf(lowered) && GrowsWithin(ir, lowered, s) && Extends(lowered, r)
    requires s < |ir.scopes| && x < |ir.symbols|
    requires forall k :: |ir.symbols[x]| <= k < |lowered.symbols[x]| ==> lowered.symbols[x][k].scope != s
    requires if Binds(stmt, x)
             then |r.symbols[x]| == |lowered.symbols[x]| + 1 && r.symbols[x][|lowered.symbols[x]|].scope == s
             else r.symbols[x] == lowered.symbols[x]
    requires if Writes(stmt, x) then |r.symbols[x]| > |ir.symbols[x]| else r.symbols[x] == ir.symbols[x]
    ensures Stale(r, x, s) <==> !Binds(stmt, x) && (Writes(stmt, x) || Stale(ir, x, s))
  {
    if Binds(stmt, x) {
      LatestOwnIsFresh(r, x, s);
    } else {
      SameVersionsSameStaleness(lowered, r, x, s);
      if Writes(stmt, x) {
        NestedVersionsAreStale(ir, lowered, x, s);
      } else {
        SameVersionsSameStaleness(ir, lowered, x, s);
      }
    }
  }

  /** One statement: it ends staleness where it binds, starts it where it only writes inside. */
  lemma StmtStaleness(ir: Ir, stmt: Stmt, s: nat, x: nat)
    requires Wf(ir) && s < |ir.scopes| && StmtOk(stmt, |ir.symbols|) && x < |ir.symbols|
    ensures Stale(LowerStmt(ir, stmt, s), x, s) <==> !Binds(stmt, x) && (Writes(stmt, x) || Stale(ir, x, s))
  {
    match stmt
    case Assign(y, _) =>
      var r := LowerStmt(ir, stmt, s);
      if x == y {
        LatestOwnIsFresh(r, x, s);
      } else {
        SameVersionsSameStaleness(ir, r, x, s);
      }
    case Do(body) => DoStaleness(ir, stmt, s, x);
    case Exit =>
    case If(_, _) => IfStaleness(ir, stmt, s, x);
  }

  lemma DoStaleness(ir: Ir, stmt: Stmt, s: nat, x: nat)
    requires Wf(ir) && s < |ir.scopes| && StmtOk(stmt, |ir.symbols|) && x < |ir.symbols| && stmt.Do?
    ensures Stale(LowerStmt(ir, stmt, s), x, s) <==> !Binds(stmt, x) && (Writes(stmt, x) || Stale(ir, x, s))
  {
    var d, body := |ir.scopes|, stmt.body;
    var nested := InsertScope(ir, s);
    var lowered := LowerRange(nested, body, 0, |body.stmts|, d);
    DoBinds(ir, stmt, s, x);
    InsertGrows(ir, s);
    RangeGrows(nested, body, 0, |body.stmts|, d);
    GrowsOutward(ir, nested, lowered, s, d);
    ForwardGrows(lowered, d, s, |lowered.symbols|);
    ForwardSpec(lowered, d, s, |lowered.symbols|, x);
    LastOwnSpec(lowered, x, d, |lowered.symbols[x]|);
    StmtWrites(ir, stmt, s, x);
    AfterNested(ir, lowered, LowerStmt(ir, stmt, s), stmt, s, x);
  }

  /** When the body of a `do` is lowered, its scope has a version of exactly what the body binds. */
  lemma DoBinds(ir: Ir, stmt: Stmt, s: nat, x: nat)
    requires Wf(ir) && s < |ir.scopes| && StmtOk(stmt, |ir.symbols|) && x < |ir.symbols| && stmt.Do?
    ensures var lowered := LowerRange(InsertScope(ir, s), stmt.body, 0, |stmt.body.stmts|, |ir.scopes|);
            HasOwn(lowered, x, |ir.scopes|) <==> BlockBinds(stmt.body, x)
  {
    OpenDo(ir, s);
    ReadyIsFresh(InsertScope(ir, s), s, |ir.scopes|, x);
    RangeBinds(InsertScope(ir, s), stmt.body, |stmt.body.stmts|, |ir.scopes|, x);
  }

  lemma OpenDo(ir: Ir, s: nat)
    requires Wf(ir) && s < |ir.scopes|
    ensures Ready(InsertScope(ir, s), s, |ir.scopes|) && GrowsWithin(ir, InsertScope(ir, s), s)
  {
    InsertGrows(ir, s);
    OpenedReady(ir, s, 1);
    assert InsertScopes(ir, s, 1) == InsertScope(InsertScopes(ir, s, 0), s) == InsertScope(ir, s);
  }

  lemma IfStaleness(ir: Ir, stmt: Stmt, s: nat, x: nat)
    requires Wf(ir) && s < |ir.scopes| && StmtOk(stmt, |ir.symbols|) && x < |ir.symbols| && stmt.If?
    ensures Stale(LowerStmt(ir, stmt, s), x, s) <==> !Binds(stmt, x) && (Writes(stmt, x) || Stale(ir, x, s))
  {
    var first, n := |ir.scopes|, |Arms(stmt)|;
    var branched := InsertScopes(ir, s, n);
    var lowered := LowerArms(branched, stmt, n, first);
    OpenArms(ir, stmt, s);
    ArmsGrow(ir, branched, stmt, n, first, s);
    ArmsBelow(branched, stmt, n, first, s, x);
    forall j | 0 <= j < n ensures HasOwn(lowered, x, first + j) <==> BlockBinds(Arms(stmt)[j], x) {
      ArmBinds(branched, stmt, n, first, s, x, j);
    }
    MergedScopesInRange(stmt, first);
    AssignedIsBinds(lowered, stmt, first, x);
    MergeSpec(lowered, MergedScopes(stmt, first), stmt.els.None?, s, |lowered.symbols|, x);
    MergeGrows(lowered, MergedScopes(stmt, first), stmt.els.None?, s, |lowered.symbols|);
    StmtWrites(ir, stmt, s, x);
    AfterNested(ir, lowered, LowerStmt(ir, stmt, s), stmt, s, x);
  }

  /** Lowering arms creates no version in the scope of the chain. */
  lemma {:induction false} ArmsBelow(ir: Ir, stmt: Stmt, n: nat, first: nat, s: nat, x: nat)
    requires ArmsReady(ir, stmt, n, first, s) && x < |ir.symbols|
    ensures var r := LowerArms(ir, stmt, n, first);
            && |ir.symbols[x]| <= |r.symbols[x]|
            && forall k :: |ir.symbols[x]| <= k < |r.symbols[x]| ==> r.symbols[x][k].scope != s
    decreases n
  {
    hide InSubtree, LowerRange;
    if n > 0 {
      var next := LowerArm(ir, stmt, n - 1, first);
      ArmStep(ir, stmt, n, first, s);
      ArmsBelow(next, stmt, n - 1, first, s, x);
      ArmsKeep(next, stmt, n - 1, first, s, first + n - 1);
      var r := LowerArms(ir, stmt, n, first);
      forall k | |ir.symbols[x]| <= k < |r.symbols[x]| ensures r.symbols[x][k].scope != s {
        if k < |next.symbols[x]| {
          assert r.symbols[x][k] == next.symbols[x][k];
        }
      }
    }
  }

  /** At every point of a block, a read of `x` finds the version the block is in if and only if the
      syntax before that point does not leave `x` stale. */
  lemma {:induction false} LookupIsExact(ir: Ir, block: Block, n: nat, s: nat, x: nat)
    requires n <= |block.stmts| && s < |ir.scopes| && BlockOk(block, |ir.symbols|) && Wf(ir) && x < |ir.symbols|
    ensures var r := LowerRange(ir, block, 0, n, s);
            VersionForScope(r, x, s) == AncestorVersion(r, x, s) <==> !StaleAt(block, n, x, Stale(ir, x, s))
    decreases n
  {
    if n > 0 {
      RangeGrows(ir, block, 0, n - 1, s);
      LookupIsExact(ir, block, n - 1, s, x);
      StmtStaleness(LowerRange(ir, block, 0, n - 1, s), block.stmts[n - 1], s, x);
    }
  }
}
