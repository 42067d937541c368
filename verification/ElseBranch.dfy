/** The else-branch of a truth test: for which types it keeps every value that can get there. */
module ElseBranch {
  import opened Wrappers
  import opened Sequences
  import opened ValueTypes
  import opened Unions
  import opened UnionLaws
  import opened Secrecy
  import opened Narrowing

  const FALSY: set<Value> := {
    Value(NilValue, false), Value(NilValue, true), Value(BooleanValue(false), false), Value(BooleanValue(false), true)}

  /** The falsy values of a type. Only those of a type variable depend on what the names refer to. */
  function Falsies(env: Env, t: ValueType): set<Value> {
    match t
    case Any => FALSY
    case Nil => {Value(NilValue, false)}
    case Boolean(lit) => if lit == Some(true) then {} else {Value(BooleanValue(false), false)}
    case OpaqueAlias(_, inner) => Falsies(env, inner)
    case Secret(inner) => set v | v in FALSY && (v in Falsies(env, inner) || Flipped(v) in Falsies(env, inner))
    case Union(members) => set v | v in FALSY && exists i :: 0 <= i < |members| && v in Falsies(env, members[i])
    case Intersection(parts) => set v | v in FALSY && forall i :: 0 <= i < |parts| ==> v in Falsies(env, parts[i])
    case TypeVariable(name) => set v | v in FALSY && env.generic(name, v)
    case _ => {}
  }

  lemma FalsyIsListed(v: Value)
    ensures IsFalsy(v) <==> v in FALSY
  {
  }

  lemma {:induction false} FalsiesAreExact(env: Env, t: ValueType, v: Value)
    ensures v in Falsies(env, t) <==> Has(env, t, v) && IsFalsy(v)
    decreases t
  {
    FalsyIsListed(v);
    match t
    case OpaqueAlias(_, inner) => FalsiesAreExact(env, inner, v);
    case Secret(inner) =>
      FalsiesAreExact(env, inner, v);
      FalsiesAreExact(env, inner, Flipped(v));
    case Union(members) =>
      forall i | 0 <= i < |members| ensures v in Falsies(env, members[i]) <==> Has(env, members[i], v) && IsFalsy(v) {
        FalsiesAreExact(env, members[i], v);
      }
    case Intersection(parts) =>
      forall i | 0 <= i < |parts| ensures v in Falsies(env, parts[i]) <==> Has(env, parts[i], v) && IsFalsy(v) {
        FalsiesAreExact(env, parts[i], v);
      }
    case _ =>
  }

  /** `strip_truthy` sees the falsy values of the member: it is `nil`, `false` or `boolean`, or a secret of
      one of these. */
  predicate Shown(t: ValueType) {
    FalsyMember(t).Some?
  }

  lemma {:induction false} ShownKeepsFalsies(env: Env, t: ValueType, v: Value)
    requires Shown(t)
    ensures HasOption(env, FalsyMember(t), v) <==> v in Falsies(env, t)
    decreases t
  {
    FalsiesAreExact(env, t, v);
    FalsyMemberMeaning(env, t, v);
    ShownIsVisible(t);
  }

  lemma {:induction false} ShownIsVisible(t: ValueType)
    requires Shown(t)
    ensures FalsyVisible(t)
    decreases t
  {
    if t.Secret? {
      ShownIsVisible(t.inner);
    }
  }

  ghost predicate ShownBySome(env: Env, t: ValueType, v: Value) {
    exists n :: n in Members(t) && Shown(n) && v in Falsies(env, n)
  }

  /** Some member shows a falsy value, and some member has one that no member shows. */
  ghost predicate HidesFalsy(env: Env, t: ValueType) {
    && (exists n :: n in Members(t) && Shown(n))
    && exists m, v :: m in Members(t) && v in Falsies(env, m) && !ShownBySome(env, t, v)
  }

  lemma ElseBranchMeaning(env: Env, t: ValueType, v: Value)
    requires NormalType(t)
    ensures Has(env, StripTruthy(t), v) <==>
            if exists n :: n in Members(t) && Shown(n) then ShownBySome(env, t, v) else Has(env, t, v)
  {
    hide UnionOf, Falsies, NormalForm, Has;
    forall n | n in Members(t) && Shown(n) ensures HasOption(env, FalsyMember(n), v) <==> v in Falsies(env, n) {
      ShownKeepsFalsies(env, n, v);
    }
    if t.Union? {
      NoFalsyMembers(t.members);
      FalsyUnionMeaning(env, t.members, v);
    } else {
      assert t in Members(t);
    }
  }

  lemma FalsyUnionMeaning(env: Env, members: seq<ValueType>, v: Value)
    requires DistinctNonUnions(members) && NormalForm(ToSet(members))
    ensures Has(env, UnionOf(FilterMap(members, FalsyMember)), v) <==>
            exists m :: m in members && HasOption(env, FalsyMember(m), v)
  {
    hide UnionOf, NormalForm, Has;
    forall m | m in members && FalsyMember(m).Some?
      ensures var u := FalsyMember(m).value; u.Union? || u.Table? || (u.Secret? && u.inner.Table?) ==> u == m
    {
      FalsyMemberShape(m, FalsyMember(m).value);
    }
    FilteredMeaning(env, members, FalsyMember, v);
  }

  /** The else-branch keeps every falsy value of the type, unless some member shows a falsy value and
      another has one that none shows. For every type there is. */
  lemma StripTruthyIsSoundIff(env: Env, t: ValueType)
    requires NormalType(t)
    ensures (forall v :: Has(env, t, v) && IsFalsy(v) ==> Has(env, StripTruthy(t), v)) <==> !HidesFalsy(env, t)
  {
    hide StripTruthy, NormalType, Falsies, ShownBySome;
    if HidesFalsy(env, t) {
      var m, v :| m in Members(t) && v in Falsies(env, m) && !ShownBySome(env, t, v);
      MemberFalsies(env, t, m, v);
      ElseBranchMeaning(env, t, v);
    } else {
      forall v | Has(env, t, v) && IsFalsy(v) ensures Has(env, StripTruthy(t), v) {
        ElseBranchMeaning(env, t, v);
        HasMembers(env, t, v);
        var m :| m in Members(t) && Has(env, m, v);
        FalsiesAreExact(env, m, v);
      }
    }
  }

  lemma MemberFalsies(env: Env, t: ValueType, m: ValueType, v: Value)
    requires m in Members(t) && v in Falsies(env, m)
    ensures Has(env, t, v) && IsFalsy(v)
  {
    HasMembers(env, t, v);
    FalsiesAreExact(env, m, v);
  }

  /** The member hides `false`. */
  predicate HoldsFalse(m: ValueType) {
    m == Any || (m.OpaqueAlias? && m.inner == Boolean(None))
  }

  lemma HiddenFalse(env: Env, m: ValueType)
    requires HoldsFalse(m)
    ensures Value(BooleanValue(false), false) in Falsies(env, m) && !Shown(m)
  {
    FalsyIsListed(Value(BooleanValue(false), false));
    if m.OpaqueAlias? {
      assert Value(BooleanValue(false), false) in Falsies(env, m.inner);
    }
  }

  lemma NilShowsItself(env: Env)
    ensures Shown(Nil) && Value(BooleanValue(false), false) !in Falsies(env, Nil)
  {
  }

  /** Two such types: `any?` and `Flag?`, where `Flag` is an opaque alias of `boolean`, forget `false`. */
  lemma OptionalHidesFalse(env: Env, t: ValueType, m: ValueType)
    requires NormalType(t) && t.Union? && HoldsFalse(m)
    requires forall n :: n in t.members <==> n == m || n == Nil
    ensures HidesFalsy(env, t)
    ensures var v := Value(BooleanValue(false), false); Has(env, t, v) && !Has(env, StripTruthy(t), v)
  {
    hide Falsies, Shown, StripTruthy, NormalType, Has, HoldsFalse;
    var v := Value(BooleanValue(false), false);
    HiddenFalse(env, m);
    NilShowsItself(env);
    assert m in Members(t) && Nil in Members(t);
    MemberFalsies(env, t, m, v);
    ElseBranchMeaning(env, t, v);
  }
}
