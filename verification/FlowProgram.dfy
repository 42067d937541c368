/** A Lua block as flow merging sees it, what its executions do, and what its syntax says about
    version lookups. Conditions are opaque: an if-chain may take any of its branches. */
module FlowProgram {
  import opened Wrappers

  datatype Rhs = Const(value: int) | Read(sym: nat)

  datatype Block = Block(stmts: seq<Stmt>)

  /** `Exit` is a `return` or a call of `error`. */
  datatype Stmt =
    | Assign(sym: nat, rhs: Rhs)
    | Do(body: Block)
    | Exit
    | If(branches: seq<Block>, els: Option<Block>)

  /** The blocks of an if-chain, the `else` block last. */
  function Arms(stmt: Stmt): seq<Block>
    requires stmt.If?
  {
    stmt.branches + if stmt.els.Some? then [stmt.els.value] else []
  }

  /** All variables are among the first `n` symbols. */
  ghost predicate BlockOk(block: Block, n: nat) {
    forall i :: 0 <= i < |block.stmts| ==> StmtOk(block.stmts[i], n)
  }

  ghost predicate StmtOk(stmt: Stmt, n: nat) {
    match stmt
    case Assign(x, rhs) => x < n && (rhs.Read? ==> rhs.sym < n)
    case Do(body) => BlockOk(body, n)
    case Exit => true
    case If(_, _) => var arms := Arms(stmt); forall j :: 0 <= j < |arms| ==> BlockOk(arms[j], n)
  }

  // ---- executions

  function Eval(rhs: Rhs, store: seq<int>): int {
    match rhs
    case Const(c) => c
    case Read(y) => if y < |store| then store[y] else 0
  }

  /** Some execution of `stmt` from `s` falls out of it with `t`. */
  ghost predicate Falls(stmt: Stmt, s: seq<int>, t: seq<int>)
    decreases stmt, 0
  {
    match stmt
    case Assign(x, rhs) => x < |s| && t == s[x := Eval(rhs, s)]
    case Do(body) => Runs(body, |body.stmts|, s, t)
    case Exit => false
    case If(_, els) =>
      var arms := Arms(stmt);
      (exists j :: 0 <= j < |arms| && Runs(arms[j], |arms[j].stmts|, s, t)) || (els.None? && s == t)
  }

  /** Some execution of the first `n` statements of `block` from `s` reaches the next one with `t`. */
  ghost predicate Runs(block: Block, n: nat, s: seq<int>, t: seq<int>)
    requires n <= |block.stmts|
    decreases block, n
  {
    if n == 0 then s == t
    else
      var last := block.stmts[n - 1];
      exists mid :: Runs(block, n - 1, s, mid) && Falls(last, mid, t)
  }

  // ---- which points executions get to

  /** Some execution falls out of the statement. */
  predicate CanFall(stmt: Stmt)
    decreases stmt, 0
  {
    match stmt
    case Assign(_, _) => true
    case Do(body) => CanReach(body, |body.stmts|)
    case Exit => false
    case If(_, els) =>
      var arms := Arms(stmt);
      els.None? || exists j :: 0 <= j < |arms| && CanReach(arms[j], |arms[j].stmts|)
  }

  /** Some execution gets past the first `n` statements. */
  predicate CanReach(block: Block, n: nat)
    requires n <= |block.stmts|
    decreases block, n
  {
    n == 0 || (CanReach(block, n - 1) && CanFall(block.stmts[n - 1]))
  }

  lemma {:induction false} FallsOnlyIf(stmt: Stmt, s: seq<int>, t: seq<int>)
    requires Falls(stmt, s, t)
    ensures CanFall(stmt) && |t| == |s|
    decreases stmt, 0
  {
    match stmt
    case Assign(_, _) =>
    case Do(body) => RunsOnlyIf(body, |body.stmts|, s, t);
    case If(_, els) =>
      var arms := Arms(stmt);
      if j :| 0 <= j < |arms| && Runs(arms[j], |arms[j].stmts|, s, t) {
        RunsOnlyIf(arms[j], |arms[j].stmts|, s, t);
      }
  }

  lemma {:induction false} RunsOnlyIf(block: Block, n: nat, s: seq<int>, t: seq<int>)
    requires n <= |block.stmts| && Runs(block, n, s, t)
    ensures CanReach(block, n) && |t| == |s|
    decreases block, n
  {
    if n > 0 {
      var mid :| Runs(block, n - 1, s, mid) && Falls(block.stmts[n - 1], mid, t);
      RunsOnlyIf(block, n - 1, s, mid);
      FallsOnlyIf(block.stmts[n - 1], mid, t);
    }
  }

  lemma {:induction false} FallsSomewhere(stmt: Stmt, s: seq<int>) returns (t: seq<int>)
    requires StmtOk(stmt, |s|) && CanFall(stmt)
    ensures Falls(stmt, s, t)
    decreases stmt, 0
  {
    match stmt
    case Assign(x, rhs) => t := s[x := Eval(rhs, s)];
    case Do(body) => t := RunsSomewhere(body, |body.stmts|, s);
    case If(_, els) =>
      var arms := Arms(stmt);
      if els.None? {
        t := s;
      } else {
        var j :| 0 <= j < |arms| && CanReach(arms[j], |arms[j].stmts|);
        t := RunsSomewhere(arms[j], |arms[j].stmts|, s);
      }
  }

  lemma {:induction false} RunsSomewhere(block: Block, n: nat, s: seq<int>) returns (t: seq<int>)
    requires n <= |block.stmts| && BlockOk(block, |s|) && CanReach(block, n)
    ensures Runs(block, n, s, t)
    decreases block, n
  {
    if n == 0 {
      t := s;
    } else {
      var mid := RunsSomewhere(block, n - 1, s);
      RunsOnlyIf(block, n - 1, s, mid);
      t := FallsSomewhere(block.stmts[n - 1], mid);
    }
  }

  /** Syntax decides which points executions get to, whatever the variables hold. */
  lemma CanReachIff(block: Block, n: nat, s: seq<int>)
    requires n <= |block.stmts| && BlockOk(block, |s|)
    ensures CanReach(block, n) <==> exists t :: Runs(block, n, s, t)
  {
    if CanReach(block, n) {
      var t := RunsSomewhere(block, n, s);
      assert Runs(block, n, s, t);
    }
    if t :| Runs(block, n, s, t) {
      RunsOnlyIf(block, n, s, t);
    }
  }

  // ---- always-exiting blocks and the choice of merged branches

  /** `block_always_exits`: decided by the last statement alone. */
  predicate AlwaysExits(block: Block) {
    var n := |block.stmts|;
    n > 0 &&
    match block.stmts[n - 1]
    case Exit => true
    case If(branches, els) =>
      els.Some? && (forall j :: 0 <= j < |branches| ==> AlwaysExits(branches[j])) && AlwaysExits(els.value)
    case _ => false
  }

  function NonExiting(arms: seq<Block>, n: nat): seq<nat>
    requires n <= |arms|
  {
    if n == 0 then []
    else NonExiting(arms, n - 1) + if AlwaysExits(arms[n - 1]) then [] else [n - 1]
  }

  function ExitPrefix(arms: seq<Block>, i: nat): nat
    requires i <= |arms|
    decreases |arms| - i
  {
    if i < |arms| && AlwaysExits(arms[i]) then ExitPrefix(arms, i + 1) else i
  }

  function Range(lo: nat, hi: nat): (r: seq<nat>)
    requires lo <= hi
  {
    seq(hi - lo, i requires 0 <= i < hi - lo => lo + i)
  }

  /** The arms whose versions the code after the chain merges, and whether the version from before
      the chain is merged too. With an `else`, these are the arms that can fall through; without
      one, the branches after the leading ones that always exit. */
  function MergedArms(stmt: Stmt): seq<nat>
    requires stmt.If?
  {
    if stmt.els.Some? then NonExiting(Arms(stmt), |Arms(stmt)|)
    else
      var p := ExitPrefix(stmt.branches, 0);
      if p <= |stmt.branches| then Range(p, |stmt.branches|) else []
  }

  // ---- what syntax says about versions

  ghost predicate Writes(stmt: Stmt, x: nat)
    decreases stmt, 0
  {
    match stmt
    case Assign(y, _) => x == y
    case Do(body) => BlockWrites(body, x)
    case Exit => false
    case If(_, _) => var arms := Arms(stmt); exists j :: 0 <= j < |arms| && BlockWrites(arms[j], x)
  }

  ghost predicate BlockWrites(block: Block, x: nat)
    decreases block, 0
  {
    exists i :: 0 <= i < |block.stmts| && Writes(block.stmts[i], x)
  }

  /** `stmt` leaves a version of `x` in the very scope it stands in. */
  ghost predicate Binds(stmt: Stmt, x: nat)
    decreases stmt, 0
  {
    match stmt
    case Assign(y, _) => x == y
    case Do(body) => BlockBinds(body, x)
    case Exit => false
    case If(_, _) =>
      var arms := Arms(stmt);
      exists j :: 0 <= j < |arms| && j in MergedArms(stmt) && BlockBinds(arms[j], x)
  }

  ghost predicate BlockBinds(block: Block, x: nat)
    decreases block, 0
  {
    exists i :: 0 <= i < |block.stmts| && Binds(block.stmts[i], x)
  }

  /** After the first `n` statements of a block, a version of `x` inside a finished nested block is
      younger than every version of `x` around this point. `before` says so of the block's start. */
  ghost predicate StaleAt(block: Block, n: nat, x: nat, before: bool)
    requires n <= |block.stmts|
    decreases n
  {
    if n == 0 then before
    else !Binds(block.stmts[n - 1], x) &&
         (Writes(block.stmts[n - 1], x) || StaleAt(block, n - 1, x, before))
  }

  /** No execution gets to a read of a stale variable in the block, nor out of an arm whose merge looks
      up a stale variable. */
  ghost predicate FreshReads(block: Block)
    decreases block, 2
  {
    FreshBefore(block, |block.stmts|)
  }

  /** The same of the first `n` statements. */
  ghost predicate FreshBefore(block: Block, n: nat)
    requires n <= |block.stmts|
    decreases block, 1
  {
    forall i :: 0 <= i < n && CanReach(block, i) ==> FreshStmt(block, i)
  }

  ghost predicate FreshStmt(block: Block, i: nat)
    requires i < |block.stmts|
    decreases block, 0
  {
    match block.stmts[i]
    case Assign(_, rhs) => rhs.Read? ==> !StaleAt(block, i, rhs.sym, false)
    case Do(body) => FreshReads(body)
    case Exit => true
    case If(_, _) =>
      var arms := Arms(block.stmts[i]);
      forall j :: 0 <= j < |arms| ==> FreshReads(arms[j]) && FreshEnd(arms[j])
  }

  /** If an execution gets to the end of the arm, what the arm binds is not stale there. */
  ghost predicate FreshEnd(arm: Block) {
    CanReach(arm, |arm.stmts|) ==> forall y: nat :: BlockBinds(arm, y) ==> !StaleAt(arm, |arm.stmts|, y, false)
  }

  // ---- facts about the choice of arms

  lemma {:induction false} NonExitingSpec(arms: seq<Block>, n: nat)
    requires n <= |arms|
    ensures forall j :: j in NonExiting(arms, n) <==> 0 <= j < n && !AlwaysExits(arms[j])
  {
    if n > 0 {
      NonExitingSpec(arms, n - 1);
    }
  }

  lemma {:induction false} ExitPrefixSpec(arms: seq<Block>, i: nat)
    requires i <= |arms|
    ensures var p := ExitPrefix(arms, i);
            i <= p <= |arms| && (forall j :: i <= j < p ==> AlwaysExits(arms[j])) &&
            (p < |arms| ==> !AlwaysExits(arms[p]))
    decreases |arms| - i
  {
    if i < |arms| && AlwaysExits(arms[i]) {
      ExitPrefixSpec(arms, i + 1);
    }
  }

  /** A block that always exits has no execution that falls out of it. */
  lemma {:induction false} ExitsNeverFall(block: Block, s: seq<int>, t: seq<int>)
    requires AlwaysExits(block)
    ensures !Runs(block, |block.stmts|, s, t)
    decreases block
  {
    var n := |block.stmts|;
    var stmt := block.stmts[n - 1];
    forall mid ensures !Falls(stmt, mid, t) {
      if stmt.If? {
        var arms := Arms(stmt);
        forall j | 0 <= j < |arms| ensures !Runs(arms[j], |arms[j].stmts|, mid, t) {
          ExitsNeverFall(arms[j], mid, t);
        }
      }
    }
  }

  /** Every arm an execution can fall out of is merged. */
  lemma FallingArmIsMerged(stmt: Stmt, j: nat, s: seq<int>, t: seq<int>)
    requires stmt.If? && j < |Arms(stmt)|
    requires Runs(Arms(stmt)[j], |Arms(stmt)[j].stmts|, s, t)
    ensures j in MergedArms(stmt)
  {
    var arms := Arms(stmt);
    if AlwaysExits(arms[j]) {
      ExitsNeverFall(arms[j], s, t);
    }
    if stmt.els.Some? {
      NonExitingSpec(arms, |arms|);
    } else {
      ExitPrefixSpec(stmt.branches, 0);
      var p := ExitPrefix(stmt.branches, 0);
      assert Range(p, |stmt.branches|)[j - p] == j;
    }
  }

  lemma MergedInRange(stmt: Stmt)
    requires stmt.If?
    ensures forall j :: j in MergedArms(stmt) ==> j < |Arms(stmt)|
  {
    NonExitingSpec(Arms(stmt), |Arms(stmt)|);
    ExitPrefixSpec(stmt.branches, 0);
  }

  lemma {:induction false} BindsIsWrites(stmt: Stmt, x: nat)
    requires Binds(stmt, x)
    ensures Writes(stmt, x)
    decreases stmt
  {
    match stmt
    case Assign(_, _) =>
    case Do(body) =>
      BlockBindsIsWrites(body, x);
    case If(_, _) =>
      var arms := Arms(stmt);
      var j :| 0 <= j < |arms| && j in MergedArms(stmt) && BlockBinds(arms[j], x);
      BlockBindsIsWrites(arms[j], x);
  }

  lemma {:induction false} BlockBindsIsWrites(block: Block, x: nat)
    requires BlockBinds(block, x)
    ensures BlockWrites(block, x)
    decreases block
  {
    var i :| 0 <= i < |block.stmts| && Binds(block.stmts[i], x);
    BindsIsWrites(block.stmts[i], x);
  }

  // ---- what a statement leaves alone

  /** Only variables that a statement binds have another value after it, whatever it writes inside. */
  lemma {:induction false} FallsUnchanged(stmt: Stmt, x: nat, s: seq<int>, t: seq<int>)
    requires Falls(stmt, s, t) && !Binds(stmt, x) && x < |s|
    ensures |t| == |s| && t[x] == s[x]
    decreases stmt, 0
  {
    match stmt
    case Assign(_, _) =>
    case Do(body) => RunsUnchanged(body, x, 0, |body.stmts|, s, t);
    case If(_, _) =>
      var arms := Arms(stmt);
      if j :| 0 <= j < |arms| && Runs(arms[j], |arms[j].stmts|, s, t) {
        FallingArmIsMerged(stmt, j, s, t);
        RunsUnchanged(arms[j], x, 0, |arms[j].stmts|, s, t);
      }
  }

  /** Where no statement from `m` on binds `x`, it has the value it had there. */
  lemma {:induction false} RunsUnchanged(block: Block, x: nat, m: nat, n: nat, s: seq<int>, t: seq<int>)
    requires m <= n <= |block.stmts| && Runs(block, n, s, t) && x < |s|
    requires forall i :: m <= i < n ==> !Binds(block.stmts[i], x)
    ensures |t| == |s| && exists mid :: Runs(block, m, s, mid) && |mid| == |s| && mid[x] == t[x]
    ensures m == 0 ==> t[x] == s[x]
    decreases block, n
  {
    RunsOnlyIf(block, n, s, t);
    if m < n {
      var last :| Runs(block, n - 1, s, last) && Falls(block.stmts[n - 1], last, t);
      RunsUnchanged(block, x, m, n - 1, s, last);
      FallsUnchanged(block.stmts[n - 1], x, last, t);
    }
  }
}
