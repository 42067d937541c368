/** What the versions after a block contribute, no more and no less: a collecting semantics of blocks,
    and the proof that lowering computes it. */
module FlowExactness {
  import opened Wrappers
  import opened FlowIr
  import opened FlowProgram
  import opened FlowLowering
  import opened FlowLookups
  import opened FlowStaleness
  import opened FlowSoundness
  import opened FlowContributions

  // ---- the values each variable is taken to have

  /** Per variable, the values it may have. */
  type Possible = seq<iset<int>>

  /** After a statement. A chain joins the ends of its merged arms for every variable one of them binds,
      and what was there before if it has no `else`. */
  ghost function StmtValues(stmt: Stmt, a: Possible): (r: Possible)
    requires StmtOk(stmt, |a|)
    ensures |r| == |a|
    decreases stmt, 3
  {
    match stmt
    case Assign(x, Const(c)) => a[x := iset{c}]
    case Assign(x, Read(y)) => a[x := a[y]]
    case Do(body) => BlockValues(body, |body.stmts|, a)
    case Exit => a
    case If(_, els) =>
      seq(|a|, x requires 0 <= x < |a| =>
        if Binds(stmt, x) then ArmsValues(stmt, x, a) + (if els.None? then a[x] else iset{}) else a[x])
  }

  /** What some merged arm leaves in `x`. */
  ghost function ArmsValues(stmt: Stmt, x: nat, a: Possible): iset<int>
    requires stmt.If? && StmtOk(stmt, |a|) && x < |a|
    decreases stmt, 2
  {
    iset v | SomeArmGives(stmt, x, a, v)
  }

  ghost predicate SomeArmGives(stmt: Stmt, x: nat, a: Possible, v: int)
    requires stmt.If? && StmtOk(stmt, |a|) && x < |a|
    decreases stmt, 1
  {
    exists j :: 0 <= j < |Arms(stmt)| && j in MergedArms(stmt) && v in ArmValues(stmt, j, a)[x]
  }

  /** At the end of arm `j`. */
  ghost function ArmValues(stmt: Stmt, j: nat, a: Possible): (r: Possible)
    requires stmt.If? && StmtOk(stmt, |a|) && j < |Arms(stmt)|
    ensures |r| == |a|
    decreases stmt, 0
  {
    BlockValues(Arms(stmt)[j], |Arms(stmt)[j].stmts|, a)
  }

  /** After the first `n` statements of a block. */
  ghost function BlockValues(block: Block, n: nat, a: Possible): (r: Possible)
    requires n <= |block.stmts| && BlockOk(block, |a|)
    ensures |r| == |a|
    decreases block, n
  {
    if n == 0 then a else StmtValues(block.stmts[n - 1], BlockValues(block, n - 1, a))
  }

  ghost predicate Among(store: seq<int>, a: Possible) {
    |store| == |a| && forall x :: 0 <= x < |a| ==> store[x] in a[x]
  }

  /** The collecting semantics misses no execution. */
  lemma {:induction false} FallsAmong(stmt: Stmt, a: Possible, s: seq<int>, t: seq<int>)
    requires StmtOk(stmt, |a|) && Among(s, a) && Falls(stmt, s, t)
    ensures Among(t, StmtValues(stmt, a))
    decreases stmt, 1
  {
    hide MergedArms, Binds;
    match stmt
    case Assign(_, _) =>
    case Do(body) => RunsAmong(body, |body.stmts|, a, s, t);
    case If(_, _) =>
      FallsOnlyIf(stmt, s, t);
      forall x | 0 <= x < |a| ensures t[x] in StmtValues(stmt, a)[x] {
        ChainAmong(stmt, a, s, t, x);
      }
  }

  lemma {:induction false} ChainAmong(stmt: Stmt, a: Possible, s: seq<int>, t: seq<int>, x: nat)
    requires stmt.If? && StmtOk(stmt, |a|) && Among(s, a) && Falls(stmt, s, t) && x < |a| == |t|
    ensures t[x] in StmtValues(stmt, a)[x]
    decreases stmt, 0
  {
    hide MergedArms, Binds, Among;
    assert s[x] in a[x] && |s| == |a| by { AmongAt(s, a, x); }
    var arms := Arms(stmt);
    if !Binds(stmt, x) {
      FallsUnchanged(stmt, x, s, t);
    } else if j :| 0 <= j < |arms| && Runs(arms[j], |arms[j].stmts|, s, t) {
      FallingArmIsMerged(stmt, j, s, t);
      RunsAmong(arms[j], |arms[j].stmts|, a, s, t);
      AmongAt(t, ArmValues(stmt, j, a), x);
      assert SomeArmGives(stmt, x, a, t[x]);
    }
  }

  lemma AmongAt(store: seq<int>, a: Possible, x: nat)
    requires Among(store, a) && x < |a|
    ensures |store| == |a| && store[x] in a[x]
  {
  }

  lemma {:induction false} RunsAmong(block: Block, n: nat, a: Possible, s: seq<int>, t: seq<int>)
    requires n <= |block.stmts| && BlockOk(block, |a|) && Among(s, a) && Runs(block, n, s, t)
    ensures Among(t, BlockValues(block, n, a))
    decreases block, n
  {
    hide StmtValues, Falls, Among;
    if n > 0 {
      var mid :| Runs(block, n - 1, s, mid) && Falls(block.stmts[n - 1], mid, t);
      RunsAmong(block, n - 1, a, s, mid);
      FallsAmong(block.stmts[n - 1], BlockValues(block, n - 1, a), mid, t);
    }
  }

  // ---- where lookups are fresh throughout

  /** No read in the first `n` statements looks up a stale variable, nor does a merge, at any depth that
      reaches the end of the block through merged arms. */
  ghost predicate FreshThroughout(block: Block, n: nat)
    requires n <= |block.stmts|
    decreases block, 1
  {
    forall i :: 0 <= i < n ==> FreshThroughoutStmt(block, i)
  }

  ghost predicate FreshThroughoutStmt(block: Block, i: nat)
    requires i < |block.stmts|
    decreases block, 0
  {
    match block.stmts[i]
    case Assign(_, rhs) => rhs.Read? ==> !StaleAt(block, i, rhs.sym, false)
    case Do(body) => FreshThroughout(body, |body.stmts|)
    case Exit => true
    case If(_, _) => FreshChain(block.stmts[i])
  }

  ghost predicate FreshChain(stmt: Stmt)
    requires stmt.If?
    decreases stmt, 0
  {
    var arms := Arms(stmt);
    forall j :: 0 <= j < |arms| && j in MergedArms(stmt) ==>
      && FreshThroughout(arms[j], |arms[j].stmts|)
      && forall y: nat :: BlockBinds(arms[j], y) ==> !StaleAt(arms[j], |arms[j].stmts|, y, false)
  }

  // ---- what versions contribute

  /** The version that `s` is in contributes exactly the possible values, for every variable. */
  ghost predicate Shows(ir: Ir, s: nat, a: Possible) {
    && |a| == |ir.symbols|
    && forall x, v :: 0 <= x < |a| ==> (v in a[x] <==> May(ir, SymbolRef(x, AncestorVersion(ir, x, s)), v))
  }

  lemma ShowsStays(older: Ir, newer: Ir, s: nat, t: nat, a: Possible)
    requires Wf(older) && Closed(older) && Extends(older, newer) && Shows(older, s, a)
    requires forall x :: 0 <= x < |older.symbols| ==> AncestorVersion(newer, x, t) == AncestorVersion(older, x, s)
    ensures Shows(newer, t, a)
  {
    hide May, AncestorVersion, Wf, Closed;
    forall x, v | 0 <= x < |a|
      ensures v in a[x] <==> May(newer, SymbolRef(x, AncestorVersion(newer, x, t)), v)
    {
      LookupsAreIn(older, x, s);
      MaySame(older, newer, SymbolRef(x, AncestorVersion(older, x, s)), v);
    }
  }

  lemma ShowsOutside(ir: Ir, nested: Ir, s: nat, a: Possible)
    requires Wf(ir) && Closed(ir) && Extends(ir, nested) && s < |ir.scopes| && Shows(ir, s, a)
    requires forall x, k :: 0 <= x < |ir.symbols| && |ir.symbols[x]| <= k < |nested.symbols[x]| ==>
               nested.symbols[x][k].scope > s
    ensures Shows(nested, s, a)
  {
    forall x | 0 <= x < |ir.symbols| ensures AncestorVersion(nested, x, s) == AncestorVersion(ir, x, s) {
      LookupOutside(ir, nested, s, x);
    }
    ShowsStays(ir, nested, s, s, a);
  }

  lemma ShowsInside(ir: Ir, s: nat, c: nat, a: Possible)
    requires Ready(ir, s, c) && Closed(ir) && Shows(ir, s, a)
    ensures Shows(ir, c, a)
  {
    forall x | 0 <= x < |ir.symbols| ensures AncestorVersion(ir, x, c) == AncestorVersion(ir, x, s) {
      ReadyIsFresh(ir, s, c, x);
    }
    ShowsStays(ir, ir, s, c, a);
  }

  // ---- lowering

  /** Every point of a block whose lookups are fresh: the versions visible there contribute exactly what the
      collecting semantics says. */
  lemma {:induction false} RangeIsExact(ir: Ir, block: Block, n: nat, s: nat, a: Possible)
    requires n <= |block.stmts| && s < |ir.scopes| && BlockOk(block, |ir.symbols|) && Wf(ir) && Closed(ir)
    requires FreshThroughout(block, n) && forall x :: 0 <= x < |ir.symbols| ==> !Stale(ir, x, s)
    requires Shows(ir, s, a)
    ensures Shows(LowerRange(ir, block, 0, n, s), s, BlockValues(block, n, a))
    decreases block, n
  {
    hide FreshThroughoutStmt, StaleAt, Shows, StmtOk, InSubtree, Wf, Closed, LowerStmt, LowerRange, StmtValues;
    assert |a| == |ir.symbols| by { ShowsSize(ir, s, a); }
    if n > 0 {
      var r := LowerRange(ir, block, 0, n - 1, s);
      RangeGrows(ir, block, 0, n - 1, s);
      RangeCloses(ir, block, n - 1, s);
      RangeIsExact(ir, block, n - 1, s, a);
      forall x | 0 <= x < |ir.symbols| && !StaleAt(block, n - 1, x, false) ensures !Stale(r, x, s) {
        LookupIsExact(ir, block, n - 1, s, x);
      }
      LowerRangeLast(ir, block, n, s);
      StepIsExact(r, block, n - 1, s, BlockValues(block, n - 1, a));
    } else {
      LowerNothing(ir, block, s);
    }
  }

  lemma ShowsSize(ir: Ir, s: nat, a: Possible)
    requires Shows(ir, s, a)
    ensures |a| == |ir.symbols|
  {
  }

  lemma {:induction false} StepIsExact(ir: Ir, block: Block, i: nat, s: nat, a: Possible)
    requires i < |block.stmts| && s < |ir.scopes| && BlockOk(block, |ir.symbols|) && Wf(ir) && Closed(ir)
    requires FreshThroughoutStmt(block, i) && Shows(ir, s, a)
    requires forall x :: 0 <= x < |ir.symbols| && !StaleAt(block, i, x, false) ==> !Stale(ir, x, s)
    ensures Shows(LowerStmt(ir, block.stmts[i], s), s, StmtValues(block.stmts[i], a))
    decreases block, i
  {
    hide Shows, InSubtree, Wf, Closed, LowerStmt, StmtValues;
    ShowsSize(ir, s, a);
    assert StmtOk(block.stmts[i], |ir.symbols|);
    match block.stmts[i]
    case Assign(_, _) => AssignIsExact(ir, block.stmts[i], s, a);
    case Do(_) => DoIsExact(ir, block.stmts[i], s, a);
    case Exit => ExitIsExact(ir, s, a);
    case If(_, _) => IfIsExact(ir, block.stmts[i], s, a);
  }

  lemma ExitIsExact(ir: Ir, s: nat, a: Possible)
    requires s < |ir.scopes| && Shows(ir, s, a)
    ensures Shows(LowerStmt(ir, Exit, s), s, StmtValues(Exit, a))
  {
  }

  lemma AssignIsExact(ir: Ir, stmt: Stmt, s: nat, a: Possible)
    requires Wf(ir) && Closed(ir) && s < |ir.scopes| && StmtOk(stmt, |ir.symbols|) && Shows(ir, s, a) && stmt.Assign?
    requires stmt.rhs.Read? ==> !Stale(ir, stmt.rhs.sym, s)
    ensures Shows(LowerStmt(ir, stmt, s), s, StmtValues(stmt, a))
  {
    hide InSubtree, Wf, Closed, May, VersionForScope;
    var Assign(x, rhs) := stmt;
    var source := LowerRhs(ir, rhs, s);
    var r := LowerStmt(ir, stmt, s);
    PushGrows(ir, x, source, s);
    PushIsFound(ir, x, source, s);
    forall y, v | 0 <= y < |a|
      ensures v in StmtValues(stmt, a)[y] <==> May(r, SymbolRef(y, AncestorVersion(r, y, s)), v)
    {
      if y == x {
        ReadContributes(r, x, |ir.symbols[x]|, v);
        if rhs.Const? {
          LitContributes(r, rhs.value, v);
        } else {
          LookupsAreIn(ir, rhs.sym, s);
          MaySame(ir, r, source, v);
        }
      } else {
        OtherLookup(ir, x, source, s, y);
        LookupsAreIn(ir, y, s);
        MaySame(ir, r, SymbolRef(y, AncestorVersion(ir, y, s)), v);
      }
    }
  }

  lemma OtherLookup(ir: Ir, x: nat, source: Expr, s: nat, y: nat)
    requires Wf(ir) && x < |ir.symbols| && y < |ir.symbols| && x != y && s < |ir.scopes|
    ensures var r := PushVersion(ir, x, source, s); AncestorVersion(r, y, s) == AncestorVersion(ir, y, s)
  {
    LookupStable(ir, PushVersion(ir, x, source, s), y, s, |ir.symbols[y]|);
  }

  lemma LitContributes(ir: Ir, c: int, v: int)
    ensures May(ir, Lit(c), v) <==> v == c
  {
    assert MayIn(ir, Lit(c), v, 0) <==> v == c;
  }

  lemma {:induction false} DoIsExact(ir: Ir, stmt: Stmt, s: nat, a: Possible)
    requires Wf(ir) && Closed(ir) && s < |ir.scopes| && StmtOk(stmt, |ir.symbols|) && Shows(ir, s, a)
    requires stmt.Do? && FreshThroughout(stmt.body, |stmt.body.stmts|)
    ensures Shows(LowerStmt(ir, stmt, s), s, StmtValues(stmt, a))
    decreases stmt
  {
    hide InSubtree, Closed, Wf, Shows, LowerRange, BlockValues, FreshThroughout, Forward;
    ShowsSize(ir, s, a);
    var d, body := |ir.scopes|, stmt.body;
    var nested := InsertScope(ir, s);
    OpenDo(ir, s);
    ScopesClose(ir, nested);
    ShowsOutside(ir, nested, s, a);
    ShowsInside(nested, s, d, a);
    forall x | 0 <= x < |nested.symbols| ensures !Stale(nested, x, d) {
      ReadyIsFresh(nested, s, d, x);
    }
    RangeIsExact(nested, body, |body.stmts|, d, a);
    RangeCloses(nested, body, |body.stmts|, d);
    RangeGrows(nested, body, 0, |body.stmts|, d);
    var lowered := LowerRange(nested, body, 0, |body.stmts|, d);
    ForwardIsExact(nested, lowered, d, s, BlockValues(body, |body.stmts|, a));
  }

  lemma ForwardIsExact(nested: Ir, lowered: Ir, d: nat, s: nat, a: Possible)
    requires Ready(nested, s, d) && d == |nested.scopes| - 1 && Wf(lowered) && GrowsWithin(nested, lowered, d)
    requires Closed(lowered) && Shows(lowered, d, a)
    ensures Shows(Forward(lowered, d, s, |lowered.symbols|), s, a)
  {
    hide InSubtree, Closed, Wf, May, Forward;
    var r := Forward(lowered, d, s, |lowered.symbols|);
    ForwardGrows(lowered, d, s, |lowered.symbols|);
    forall x, v | 0 <= x < |a|
      ensures v in a[x] <==> May(r, SymbolRef(x, AncestorVersion(r, x, s)), v)
    {
      ForwardGives(nested, lowered, d, s, x, v);
    }
  }

  lemma ForwardGives(nested: Ir, lowered: Ir, d: nat, s: nat, x: nat, v: int)
    requires Ready(nested, s, d) && d == |nested.scopes| - 1 && Wf(lowered) && GrowsWithin(nested, lowered, d)
    requires Closed(lowered) && x < |lowered.symbols|
    ensures var r := Forward(lowered, d, s, |lowered.symbols|);
            May(r, SymbolRef(x, AncestorVersion(r, x, s)), v) <==>
            May(lowered, SymbolRef(x, AncestorVersion(lowered, x, d)), v)
  {
    hide InSubtree, MayIn;
    var n := |lowered.symbols[x]|;
    var r := Forward(lowered, d, s, |lowered.symbols|);
    ForwardGrows(lowered, d, s, |lowered.symbols|);
    ForwardSpec(lowered, d, s, |lowered.symbols|, x);
    LastOwnSpec(lowered, x, d, n);
    LookupsAreIn(lowered, x, d);
    MaySame(lowered, r, SymbolRef(x, AncestorVersion(lowered, x, d)), v);
    match LastOwn(lowered, x, d, n)
    case None =>
      assert lowered.scopes[d] == nested.scopes[d];
      NoOwnLookup(lowered, s, d, x, n);
      LookupStable(lowered, r, x, s, n);
    case Some(k) =>
      LastOwnIsAncestorVersion(nested, lowered, s, d, x, k);
      PushedIsFound(lowered, r, x, s);
      ReadContributes(r, x, n, v);
  }

  // ---- chains

  lemma {:induction false} IfIsExact(ir: Ir, stmt: Stmt, s: nat, a: Possible)
    requires Wf(ir) && Closed(ir) && s < |ir.scopes| && StmtOk(stmt, |ir.symbols|) && Shows(ir, s, a)
    requires stmt.If? && FreshChain(stmt)
    ensures Shows(LowerStmt(ir, stmt, s), s, StmtValues(stmt, a))
    decreases stmt, |Arms(stmt)| + 1
  {
    hide LowerArms, LowerRange, Merge, InSubtree, MergedArms, StmtOk, Shows, Closed, Wf, FreshChain, OwnIsFresh,
         ArmValues;
    ShowsSize(ir, s, a);
    var first, n := |ir.scopes|, |Arms(stmt)|;
    var branched := InsertScopes(ir, s, n);
    var lowered := LowerArms(branched, stmt, n, first);
    OpenArms(ir, stmt, s);
    ScopesClose(ir, branched);
    ShowsOutside(ir, branched, s, a);
    ArmsGrow(ir, branched, stmt, n, first, s);
    ArmsClose(branched, stmt, n, first);
    forall x, k | 0 <= x < |ir.symbols| && |ir.symbols[x]| <= k < |lowered.symbols[x]|
      ensures lowered.symbols[x][k].scope > s
    {
      ArmsBelow(branched, stmt, n, first, s, x);
    }
    ShowsOutside(ir, lowered, s, a);
    forall j | 0 <= j < n && j in MergedArms(stmt)
      ensures Shows(lowered, first + j, ArmValues(stmt, j, a))
      ensures OwnIsFresh(lowered, first + j)
    {
      ArmsShow(branched, stmt, n, first, s, j, a);
    }
    forall j, x: nat | 0 <= j < n && x < |ir.symbols|
      ensures HasOwn(lowered, x, first + j) <==> BlockBinds(Arms(stmt)[j], x)
    {
      ArmBinds(branched, stmt, n, first, s, x, j);
    }
    ScopesOfArms(branched, lowered, stmt, first, s);
    ChainIsExact(lowered, stmt, first, s, a);
  }

  /** `c` is nested in `s` directly. */
  predicate Child(ir: Ir, s: nat, c: nat) {
    s < c < |ir.scopes| && ir.scopes[c].parent == Some(s)
  }

  lemma ScopesOfArms(branched: Ir, lowered: Ir, stmt: Stmt, first: nat, s: nat)
    requires stmt.If? && ArmsReady(branched, stmt, |Arms(stmt)|, first, s) && branched.scopes <= lowered.scopes
    ensures forall c :: first <= c < first + |Arms(stmt)| ==> Child(lowered, s, c)
  {
    forall c | first <= c < first + |Arms(stmt)| ensures Child(lowered, s, c) {
      assert lowered.scopes[c] == branched.scopes[c];
    }
  }

  /** What the ends of the arms contribute, joined by the merge of the chain. */
  lemma ChainIsExact(lowered: Ir, stmt: Stmt, first: nat, s: nat, a: Possible)
    requires Wf(lowered) && Closed(lowered) && stmt.If? && StmtOk(stmt, |a|) && Shows(lowered, s, a) && s < first
    requires first + |Arms(stmt)| <= |lowered.scopes|
    requires forall c :: first <= c < first + |Arms(stmt)| ==> Child(lowered, s, c)
    requires forall j :: 0 <= j < |Arms(stmt)| && j in MergedArms(stmt) ==>
               && Shows(lowered, first + j, ArmValues(stmt, j, a))
               && OwnIsFresh(lowered, first + j)
    requires forall j, x: nat :: 0 <= j < |Arms(stmt)| && x < |lowered.symbols| ==>
               (HasOwn(lowered, x, first + j) <==> BlockBinds(Arms(stmt)[j], x))
    ensures (forall b :: b in MergedScopes(stmt, first) ==> b < |lowered.scopes|)
    ensures Shows(Merge(lowered, MergedScopes(stmt, first), stmt.els.None?, s, |lowered.symbols|), s,
              StmtValues(stmt, a))
  {
    hide MergedArms, OwnIsFresh, HasOwn, BlockBinds, May, Wf, Closed, BlockValues, Binds, AncestorVersion, MergedScopes,
         StmtOk, ArmsValues;
    MergedScopesInRange(stmt, first);
    var scopes := MergedScopes(stmt, first);
    forall b | b in scopes ensures Child(lowered, s, b) && OwnIsFresh(lowered, b) {
      var j := b - first;
      assert b == first + j && j in MergedArms(stmt);
    }
    MergeGrows(lowered, scopes, stmt.els.None?, s, |lowered.symbols|);
    forall x, v | 0 <= x < |a|
      ensures v in StmtValues(stmt, a)[x] <==>
              var r := Merge(lowered, scopes, stmt.els.None?, s, |lowered.symbols|);
              May(r, SymbolRef(x, AncestorVersion(r, x, s)), v)
    {
      MergeIsExact(lowered, scopes, stmt.els.None?, s, x, v);
      AssignedIsBinds(lowered, stmt, first, x);
      ArmsGive(lowered, stmt, first, a, x, v);
    }
  }

  lemma ArmsGive(lowered: Ir, stmt: Stmt, first: nat, a: Possible, x: nat, v: int)
    requires stmt.If? && StmtOk(stmt, |a|) && x < |a| == |lowered.symbols|
    requires forall j :: 0 <= j < |Arms(stmt)| && j in MergedArms(stmt) ==>
               Shows(lowered, first + j, ArmValues(stmt, j, a))
    ensures v in ArmsValues(stmt, x, a) <==> BranchGives(lowered, MergedScopes(stmt, first), x, v)
  {
    hide MergedArms, May, BlockValues, AncestorVersion, MergedScopes, StmtOk;
    MergedScopesInRange(stmt, first);
    var arms := Arms(stmt);
    if j :| 0 <= j < |arms| && j in MergedArms(stmt) && v in ArmValues(stmt, j, a)[x] {
      assert first + j in MergedScopes(stmt, first);
    }
    if b :| b in MergedScopes(stmt, first) && May(lowered, SymbolRef(x, AncestorVersion(lowered, x, b)), v) {
      var j := b - first;
      assert first + j == b && j in MergedArms(stmt);
    }
  }

  /** Among `n` ready arms, the end of arm `j`. */
  lemma {:induction false} ArmsShow(ir: Ir, stmt: Stmt, n: nat, first: nat, s: nat, j: nat, a: Possible)
    requires ArmsReady(ir, stmt, n, first, s) && j < n && j in MergedArms(stmt) && FreshChain(stmt)
    requires Closed(ir) && Shows(ir, s, a)
    ensures |a| == |ir.symbols|
    ensures var r := LowerArms(ir, stmt, n, first);
            && Shows(r, first + j, ArmValues(stmt, j, a))
            && OwnIsFresh(r, first + j)
    decreases stmt, n, 1
  {
    hide LowerRange, InSubtree, Shows, OwnIsFresh, MergedArms, FreshChain, Closed, BlockValues;
    ShowsSize(ir, s, a);
    var arm, next := Arms(stmt)[n - 1], LowerArm(ir, stmt, n - 1, first);
    ArmStep(ir, stmt, n, first, s);
    RangeCloses(ir, arm, |arm.stmts|, first + n - 1);
    if j == n - 1 {
      ArmShows(ir, stmt, j, first, s, a);
      ArmsKeepShown(next, stmt, n - 1, first, s, first + j, ArmValues(stmt, j, a));
    } else {
      ShowsOutside(ir, next, s, a);
      ArmsShow(next, stmt, n - 1, first, s, j, a);
    }
  }

  lemma ArmsKeepShown(ir: Ir, stmt: Stmt, n: nat, first: nat, s: nat, b: nat, a: Possible)
    requires ArmsReady(ir, stmt, n, first, s) && Closed(ir)
    requires s < b < |ir.scopes| && ir.scopes[b].parent == Some(s) && !(first <= b < first + n)
    requires Shows(ir, b, a) && OwnIsFresh(ir, b)
    ensures var r := LowerArms(ir, stmt, n, first); Shows(r, b, a) && OwnIsFresh(r, b)
  {
    ArmsKeep(ir, stmt, n, first, s, b);
    ShowsStays(ir, LowerArms(ir, stmt, n, first), b, b, a);
  }

  lemma {:induction false} ArmShows(ir: Ir, stmt: Stmt, j: nat, first: nat, s: nat, a: Possible)
    requires ArmsReady(ir, stmt, j + 1, first, s) && j in MergedArms(stmt) && FreshChain(stmt)
    requires Closed(ir) && Shows(ir, s, a)
    ensures |a| == |ir.symbols|
    ensures var r := LowerArm(ir, stmt, j, first);
            && Shows(r, first + j, ArmValues(stmt, j, a))
            && OwnIsFresh(r, first + j)
    decreases stmt, j, 0
  {
    hide InSubtree, Shows, StaleAt, BlockBinds, VersionForScope, AncestorVersion, HasOwn, MergedArms, Closed,
         BlockValues;
    ShowsSize(ir, s, a);
    var b, arm := first + j, Arms(stmt)[j];
    var r := LowerArm(ir, stmt, j, first);
    ShowsInside(ir, s, b, a);
    forall x | 0 <= x < |ir.symbols| ensures !Stale(ir, x, b) {
      ReadyIsFresh(ir, s, b, x);
    }
    RangeIsExact(ir, arm, |arm.stmts|, b, a);
    forall x | 0 <= x < |r.symbols| && HasOwn(r, x, b) ensures !Stale(r, x, b) {
      ArmBindsItself(ir, stmt, j, first, s, x);
      LookupIsExact(ir, arm, |arm.stmts|, b, x);
    }
  }
}
