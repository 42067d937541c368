/** Guards that test secrecy and runtime type at once: what is left of a type where neither holds. */
module MixedGuards {
  import opened Wrappers
  import opened Sequences
  import opened ValueTypes
  import opened Unions
  import opened UnionLaws
  import opened Secrecy
  import opened TypeGuards
  import opened SecretGuards

  /** Results of `type()`, alone or together, are kept by normalisation. */
  lemma KindsStay(rest: seq<ValueType>)
    requires rest != [] && forall g :: g in rest ==> GuardKind(g).Some?
    ensures ToSet(Members(UnionOf(rest))) == ToSet(rest)
    ensures TypeGuard(UnionOf(rest))
    ensures forall k :: Admits(UnionOf(rest), k) <==> exists g :: g in rest && GuardKind(g) == Some(k)
  {
    hide UnionOf, NormalForm;
    KindsAreNormal(ToSet(rest));
    NormalSetStays(rest);
    KindsAreGuard(UnionOf(rest), rest);
  }

  lemma KindsAreNormal(ts: set<ValueType>)
    requires forall g :: g in ts ==> GuardKind(g).Some?
    ensures NormalForm(ts)
  {
    assert InnersSet(ts) == {};
    forall t | t in ts && Absorbed(ts, t) ensures t == Boolean(None) {
    }
  }

  lemma KindsAreGuard(guard: ValueType, rest: seq<ValueType>)
    requires ToSet(Members(guard)) == ToSet(rest) && rest != [] && forall g :: g in rest ==> GuardKind(g).Some?
    ensures TypeGuard(guard)
    ensures forall k :: Admits(guard, k) <==> exists g :: g in rest && GuardKind(g) == Some(k)
  {
    assert forall g :: g in Members(guard) <==> g in rest by {
      assert forall g :: g in Members(guard) <==> g in ToSet(Members(guard));
      assert forall g :: g in rest <==> g in ToSet(rest);
    }
    assert rest[0] in Members(guard);
    forall k ensures Admits(guard, k) <==> exists g :: g in rest && GuardKind(g) == Some(k) {
      if g :| g in rest && GuardKind(g) == Some(k) {
        assert g in Members(guard);
      }
    }
  }

  // ---- a type without its secrets

  lemma UnmarkedIsConcrete(t: ValueType)
    requires ConcreteType(t) && forall m :: m in Members(t) ==> OpenMember(m)
    ensures ConcreteType(StripSecret(t))
  {
    hide NormalForm, UnionOf;
    if t.Union? {
      StripSecretUnion(t.members);
      if exists m :: m in t.members && m.Secret? {
        UnmarkedMembers(t.members);
      }
    } else {
      assert t in Members(t) && OpenMember(t);
      assert t.Secret? ==> StripSecret(t.inner) == t.inner && Concrete(t.inner);
      SingleIsNormal(StripSecret(t));
    }
  }

  lemma UnmarkedMembers(members: seq<ValueType>)
    requires forall m :: m in members ==> OpenMember(m) && Concrete(m) && !m.Union?
    ensures ConcreteType(UnionOf(Apply(members, Unwrap)))
  {
    hide UnionOf, NormalForm, Normal;
    var plain := Apply(members, Unwrap);
    ApplyContains(members, Unwrap);
    forall t | t in plain ensures Concrete(t) && !t.Secret? && !t.Union? {
      var m :| m in members && Unwrap(m) == t;
    }
    FlattenOfNonUnions(plain);
    MembersAreNormal(plain);
    UnionIsNormal(plain);
    NormalIsConcrete(ToSet(plain));
  }

  lemma NormalIsConcrete(ts: set<ValueType>)
    requires forall t :: t in ts ==> Concrete(t) && !t.Secret?
    ensures forall t :: t in Normal(ts) ==> Concrete(t)
  {
    assert forall t :: t in CollapseSet(ts) ==> Concrete(t) && !t.Secret?;
    assert InnersSet(CollapseSet(ts)) == {};
    assert CollapseSet({}) == {};
  }

  /** Where a value is neither secret nor of one of the named types: exactly those values, or `nil` if no member of
      another type is left. */
  lemma MixedStripIsExact(env: Env, t: ValueType, parts: seq<ValueType>, v: Value)
    requires ConcreteType(t) && forall m :: m in Members(t) ==> OpenMember(m)
    requires SECRET_GUARD in parts && forall g :: g in parts && g != SECRET_GUARD ==> GuardKind(g).Some?
    ensures var named := (set g | g in parts && GuardKind(g) == Some(KindOf(v.base))) != {};
            Has(env, t, v) && !v.secret && !named ==> Has(env, StripTypeWith(env, t, Union(parts)), v)
    ensures var named := (set g | g in parts && GuardKind(g) == Some(KindOf(v.base))) != {};
            Has(env, StripTypeWith(env, t, Union(parts)), v) ==>
              v == Value(NilValue, false) || (Has(env, t, v) && !v.secret && !named)
  {
    hide UnionOf, NormalForm, Has, StripMembers, Matches, Concrete, OpenMember, TypeGuard, Admits, NormalType, Keep;
    var unmarked, rest := StripSecret(t), Keep(parts, NotSecretGuard);
    PlainBranchIsExact(env, t, v);
    UnmarkedIsConcrete(t);
    var named := set g | g in parts && GuardKind(g) == Some(KindOf(v.base));
    SplitsOff(env, t, parts);
    if rest == [] {
      forall g | g in parts ensures GuardKind(g).None? {
      }
      assert StripTypeWith(env, t, SECRET_GUARD) == unmarked;
    } else {
      KindsStay(rest);
      StripIsExact(env, unmarked, UnionOf(rest), v);
      GuardIsNotSecret(UnionOf(rest));
      NilHas(env, v);
      assert Admits(UnionOf(rest), KindOf(v.base)) <==> named != {} by {
        if g :| g in rest && GuardKind(g) == Some(KindOf(v.base)) {
          assert g in named;
        }
        if g :| g in named {
          assert g in rest;
        }
      }
    }
  }

  lemma NilHas(env: Env, v: Value)
    ensures Has(env, Nil, v) <==> v == Value(NilValue, false)
  {
  }

  lemma SplitsOff(env: Env, t: ValueType, parts: seq<ValueType>)
    requires SECRET_GUARD in parts
    ensures var rest := Keep(parts, NotSecretGuard);
            StripTypeWith(env, t, Union(parts)) ==
            if rest == [] then StripSecret(t) else StripMembers(env, StripSecret(t), UnionOf(rest))
  {
    var i :| 0 <= i < |parts| && parts[i] == SECRET_GUARD;
    assert ContainsSecretGuard(Union(parts));
  }
}
