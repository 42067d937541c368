/** Narrowing by a `type()` guard: which values of a type remain on the two sides. */
module TypeGuards {
  import opened Wrappers
  import opened Sequences
  import opened ValueTypes
  import opened Unions
  import opened UnionLaws
  import opened UnionMeaning
  import opened Secrecy
  import opened Narrowing

  predicate IsSecretGuard(t: ValueType) {
    t == Secret(Any)
  }

  predicate ContainsSecretGuard(t: ValueType) {
    IsSecretGuard(t) || (t.Union? && exists i :: 0 <= i < |t.members| && IsSecretGuard(t.members[i]))
  }

  /** `matches_type_guard_with`. */
  predicate Matches(env: Env, t: ValueType, guard: ValueType)
    decreases guard, t
  {
    if guard.Union? then exists i :: 0 <= i < |guard.members| && Matches(env, t, guard.members[i])
    else if IsSecretGuard(guard) then t.Secret?
    else if t.Secret? then Matches(env, t.inner, guard)
    else if t.Table? && t.table.Some? && guard == Number && env.enumKind(t.table.value) == NumberEnum then true
    else if t.Table? && t.table.Some? && guard == String(None) && env.enumKind(t.table.value) == StringEnum then true
    else if t.Table? && t.table.Some? && guard == Table(None) && env.enumKind(t.table.value) != NotEnum then false
    else if t.Table? && guard == Table(None) then true
    else if t.String? && guard == String(None) then true
    else if t.NumberLiteral? && guard == Number then true
    else if t.Boolean? && guard == Boolean(None) then true
    else if t.Function? && guard == Function(None) then true
    else if t.OpaqueAlias? then Matches(env, t.inner, guard)
    else t == guard
  }

  function MatchTest(env: Env, guard: ValueType, keep: bool): ValueType -> bool {
    (t: ValueType) => Matches(env, t, guard) == keep
  }

  /** `strip_type_with` once secrecy is out of the guard. */
  function StripMembers(env: Env, t: ValueType, target: ValueType): ValueType {
    match t
    case Union(members) =>
      var filtered := Keep(members, MatchTest(env, target, false));
      if filtered == [] then Nil else UnionOf(filtered)
    case _ => if Matches(env, t, target) then Nil else t
  }

  function StripTypeWith(env: Env, t: ValueType, target: ValueType): ValueType {
    if ContainsSecretGuard(target) then
      var unwrapped := StripSecret(t);
      match target
      case Union(parts) =>
        var rest := Keep(parts, NotSecretGuard);
        if rest == [] then unwrapped else StripMembers(env, unwrapped, UnionOf(rest))
      case _ => unwrapped
    else StripMembers(env, t, target)
  }

  predicate NotSecretGuard(t: ValueType) {
    !IsSecretGuard(t)
  }

  predicate IsLiteral(t: ValueType) {
    match t
    case String(text) => text.Some?
    case Boolean(lit) => lit.Some?
    case NumberLiteral(_) => true
    case Union(members) => forall i :: 0 <= i < |members| ==> IsLiteral(members[i])
    case _ => false
  }

  predicate ContainsNil(t: ValueType) {
    t.Nil? || (t.Union? && Nil in t.members)
  }

  function StripTypeNarrowed(env: Env, t: ValueType, target: ValueType): Option<ValueType> {
    var stripped := StripTypeWith(env, t, target);
    var emptied := stripped == Nil && !ContainsNil(t);
    if !emptied || IsLiteral(target) then Some(stripped) else None
  }

  function FilterTypeWith(env: Env, t: ValueType, guard: ValueType): ValueType {
    if IsSecretGuard(guard) then
      var nonNil := StripNil(t);
      if nonNil == Union([]) then t else SecretOf(nonNil)
    else
      match t
      case Union(members) =>
        var filtered := Keep(members, MatchTest(env, guard, true));
        if filtered == [] then guard else UnionOf(filtered)
      case _ => if Matches(env, t, guard) then t else guard
  }

  // ---- what the guards of `type(x) == "..."` say

  function GuardKind(guard: ValueType): Option<Kind> {
    match guard
    case Nil => Some(NilKind)
    case Boolean(None) => Some(BooleanKind)
    case Number => Some(NumberKind)
    case String(None) => Some(StringKind)
    case Table(None) => Some(TableKind)
    case Function(None) => Some(FunctionKind)
    case Userdata => Some(UserdataKind)
    case Thread => Some(ThreadKind)
    case _ => None
  }

  /** A result of `type()`, or several of them. */
  ghost predicate TypeGuard(guard: ValueType) {
    GuardKind(guard).Some? ||
    (guard.Union? && guard.members != [] &&
     forall i :: 0 <= i < |guard.members| ==> GuardKind(guard.members[i]).Some?)
  }

  ghost predicate Admits(guard: ValueType, k: Kind) {
    GuardKind(guard) == Some(k) ||
    (guard.Union? && exists i :: 0 <= i < |guard.members| && GuardKind(guard.members[i]) == Some(k))
  }

  /** The runtime type of a value of `t` can be read off `t`. */
  predicate Concrete(t: ValueType) {
    match t
    case Secret(inner) => Concrete(inner)
    case OpaqueAlias(_, inner) => Concrete(inner)
    case Any => false
    case Union(_) => false
    case Intersection(_) => false
    case TypeVariable(_) => false
    case KeyOf(_) => false
    case FunctionSig(_) => false
    case TableShape(_) => false
    case _ => true
  }

  /** The runtime type of the values of a concrete type that is neither a secret nor an alias. */
  function LeafKind(env: Env, t: ValueType): Kind {
    match t
    case Nil => NilKind
    case Boolean(_) => BooleanKind
    case Number => NumberKind
    case NumberLiteral(_) => NumberKind
    case String(_) => StringKind
    case Function(_) => FunctionKind
    case Userdata => UserdataKind
    case Thread => ThreadKind
    case Table(Some(i)) =>
      (match env.enumKind(i) case NotEnum => TableKind case NumberEnum => NumberKind case StringEnum => StringKind)
    case _ => TableKind
  }

  lemma LeafHas(env: Env, t: ValueType, v: Value)
    requires Concrete(t) && !t.Secret? && !t.OpaqueAlias? && Has(env, t, v)
    ensures KindOf(v.base) == LeafKind(env, t)
  {
  }

  lemma LeafMatch(env: Env, t: ValueType, guard: ValueType)
    requires Concrete(t) && !t.Secret? && !t.OpaqueAlias? && GuardKind(guard).Some?
    ensures Matches(env, t, guard) <==> GuardKind(guard) == Some(LeafKind(env, t))
  {
  }

  lemma WrappedMatch(env: Env, t: ValueType, guard: ValueType)
    requires GuardKind(guard).Some? && (t.Secret? || t.OpaqueAlias?)
    ensures Matches(env, t, guard) <==> Matches(env, t.inner, guard)
  {
  }

  lemma {:induction false} BasicMatch(env: Env, t: ValueType, guard: ValueType, v: Value)
    requires Concrete(t) && GuardKind(guard).Some? && Has(env, t, v)
    ensures Matches(env, t, guard) <==> GuardKind(guard) == Some(KindOf(v.base))
    decreases t
  {
    hide Matches, GuardKind, LeafKind, KindOf;
    match t
    case Secret(inner) =>
      WrappedMatch(env, t, guard);
      BasicMatch(env, inner, guard, if Has(env, inner, v) then v else Flipped(v));
    case OpaqueAlias(_, inner) =>
      WrappedMatch(env, t, guard);
      BasicMatch(env, inner, guard, v);
    case _ =>
      LeafMatch(env, t, guard);
      LeafHas(env, t, v);
  }

  /** A concrete type matches a guard exactly when its values have a runtime type the guard admits. */
  lemma MatchDecides(env: Env, t: ValueType, guard: ValueType, v: Value)
    requires Concrete(t) && TypeGuard(guard) && Has(env, t, v)
    ensures Matches(env, t, guard) <==> Admits(guard, KindOf(v.base))
  {
    if GuardKind(guard).Some? {
      BasicMatch(env, t, guard, v);
    } else {
      forall i | 0 <= i < |guard.members|
        ensures Matches(env, t, guard.members[i]) <==> GuardKind(guard.members[i]) == Some(KindOf(v.base))
      {
        BasicMatch(env, t, guard.members[i], v);
      }
    }
  }

  // ---- both sides of the guard

  ghost predicate ConcreteType(t: ValueType) {
    NormalType(t) && forall m :: m in Members(t) ==> Concrete(m)
  }

  ghost predicate SomeMatch(env: Env, t: ValueType, guard: ValueType) {
    exists m :: m in Members(t) && Matches(env, m, guard)
  }

  ghost predicate AllMatch(env: Env, t: ValueType, guard: ValueType) {
    forall m :: m in Members(t) ==> Matches(env, m, guard)
  }

  lemma KeptMeaning(env: Env, members: seq<ValueType>, p: ValueType -> bool, v: Value)
    requires DistinctNonUnions(members) && NormalForm(ToSet(members))
    ensures Has(env, UnionOf(Keep(members, p)), v) <==> exists m :: m in members && p(m) && Has(env, m, v)
  {
    var kept := Keep(members, p);
    FlattenOfNonUnions(kept);
    NothingSwallowed(env, ToSet(members), ToSet(kept));
    UnionKeepsMeaning(env, kept, v);
  }

  lemma KeptByMatch(env: Env, t: ValueType, guard: ValueType, keep: bool, v: Value)
    requires ConcreteType(t) && TypeGuard(guard) && t.Union?
    ensures Has(env, UnionOf(Keep(t.members, MatchTest(env, guard, keep))), v) <==>
            Has(env, t, v) && Admits(guard, KindOf(v.base)) == keep
  {
    hide Matches, UnionOf, Keep, NormalForm, TypeGuard, Concrete, Admits, Has;
    KeptMeaning(env, t.members, MatchTest(env, guard, keep), v);
    HasMembers(env, t, v);
    forall m | m in t.members && Has(env, m, v) ensures Matches(env, m, guard) == Admits(guard, KindOf(v.base)) {
      MatchDecides(env, m, guard, v);
    }
  }

  lemma KeptNothing(env: Env, t: ValueType, guard: ValueType, keep: bool)
    ensures Keep(Members(t), MatchTest(env, guard, keep)) == [] <==>
            if keep then !SomeMatch(env, t, guard) else AllMatch(env, t, guard)
  {
    var kept := Keep(Members(t), MatchTest(env, guard, keep));
    if kept != [] {
      assert kept[0] in kept;
    }
  }

  lemma SomeMemberDecides(env: Env, t: ValueType, guard: ValueType, v: Value)
    requires ConcreteType(t) && TypeGuard(guard) && Has(env, t, v)
    ensures if Admits(guard, KindOf(v.base)) then SomeMatch(env, t, guard) else !AllMatch(env, t, guard)
  {
    HasMembers(env, t, v);
    var m :| m in Members(t) && Has(env, m, v);
    MatchDecides(env, m, guard, v);
  }

  /** The branch where the guard holds: exactly the values of the type whose runtime type the guard
      admits. When no member fits, the declared type is given up for the guard's own. */
  lemma FilterIsExact(env: Env, t: ValueType, guard: ValueType, v: Value)
    requires ConcreteType(t) && TypeGuard(guard)
    ensures Has(env, FilterTypeWith(env, t, guard), v) <==>
            if SomeMatch(env, t, guard) then Has(env, t, v) && Admits(guard, KindOf(v.base)) else Has(env, guard, v)
    ensures Has(env, t, v) && Admits(guard, KindOf(v.base)) ==> SomeMatch(env, t, guard)
  {
    if Has(env, t, v) {
      SomeMemberDecides(env, t, guard, v);
    }
    KeptNothing(env, t, guard, true);
    GuardIsNotSecret(guard);
    if t.Union? {
      KeptByMatch(env, t, guard, true, v);
    } else {
      SingleMember(env, t, guard, v);
    }
  }

  lemma SingleMember(env: Env, t: ValueType, guard: ValueType, v: Value)
    requires ConcreteType(t) && TypeGuard(guard) && !t.Union?
    ensures SomeMatch(env, t, guard) <==> Matches(env, t, guard)
    ensures AllMatch(env, t, guard) <==> Matches(env, t, guard)
    ensures Has(env, t, v) ==> (Matches(env, t, guard) <==> Admits(guard, KindOf(v.base)))
  {
    hide Matches, Has, GuardKind, Concrete, Admits;
    assert t in Members(t);
    if Has(env, t, v) {
      MatchDecides(env, t, guard, v);
    }
  }

  /** The branch where it does not hold: exactly the other values, or `nil` when nothing is left. */
  lemma StripIsExact(env: Env, t: ValueType, guard: ValueType, v: Value)
    requires ConcreteType(t) && TypeGuard(guard)
    ensures Has(env, StripTypeWith(env, t, guard), v) <==>
            if AllMatch(env, t, guard) then Has(env, Nil, v) else Has(env, t, v) && !Admits(guard, KindOf(v.base))
    ensures Has(env, t, v) && !Admits(guard, KindOf(v.base)) ==> !AllMatch(env, t, guard)
  {
    if Has(env, t, v) {
      SomeMemberDecides(env, t, guard, v);
    }
    KeptNothing(env, t, guard, false);
    GuardIsNotSecret(guard);
    if t.Union? {
      KeptByMatch(env, t, guard, false, v);
    } else {
      SingleMember(env, t, guard, v);
    }
  }

  lemma GuardIsNotSecret(guard: ValueType)
    requires TypeGuard(guard)
    ensures !ContainsSecretGuard(guard) && !IsLiteral(guard)
  {
    if guard.Union? {
      assert GuardKind(guard.members[0]).Some?;
    }
  }
}
