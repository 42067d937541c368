/** The guard `issecretvalue(x)`: what is left of a type where it holds and where it does not, and which
    values marking a result as secret adds. */
module SecretGuards {
  import opened Wrappers
  import opened Sequences
  import opened ValueTypes
  import opened Unions
  import opened UnionLaws
  import opened Secrecy
  import opened Narrowing
  import opened TypeGuards

  const SECRET_GUARD: ValueType := Secret(Any)

  lemma StripNilList(members: seq<ValueType>, filtered: seq<ValueType>)
    requires DistinctNonUnions(members) && NormalForm(ToSet(members)) && filtered == FilterMap(members, NotNil)
    ensures forall t :: t in filtered ==> !t.Union?
    ensures NormalForm(ToSet(filtered))
  {
    FilterMapContains(members, NotNil);
    var kept := ToSet(filtered);
    forall t ensures t in kept <==> t in ToSet(members) && t != Nil {
      if t in members && t != Nil {
        assert NotNil(t) == Some(t);
      }
      if t in filtered {
        var u :| u in members && NotNil(u) == Some(t);
      }
    }
    WithoutNil(ToSet(members), kept);
  }

  lemma WithoutNil(ts: set<ValueType>, kept: set<ValueType>)
    requires NormalForm(ts) && kept == ts - {Nil}
    ensures NormalForm(kept)
  {
    assert InnersSet(kept) == InnersSet(ts);
    forall t | t in kept && Absorbed(kept, t) ensures t == Boolean(None) {
      assert Absorbed(ts, t);
    }
  }

  /** `nil` goes, every other value stays. */
  lemma StripNilMeaning(env: Env, t: ValueType, v: Value)
    requires NormalType(t)
    ensures NormalType(StripNil(t))
    ensures Has(env, t, v) && v != Value(NilValue, false) ==> Has(env, StripNil(t), v)
    ensures Has(env, StripNil(t), v) ==> Has(env, t, v)
  {
    hide UnionOf, NormalForm, FilterMap, Flatten;
    if t.Union? {
      StripNilList(t.members, FilterMap(t.members, NotNil));
      NormalSetStays(FilterMap(t.members, NotNil));
      FilteredMeaning(env, t.members, NotNil, v);
      HasMembers(env, t, v);
      if HasAny(env, t.members, v) && v != Value(NilValue, false) {
        var m :| m in t.members && Has(env, m, v);
        assert HasOption(env, NotNil(m), v);
      }
    } else if t.Nil? {
      EmptyUnionHasNothing(env, v);
      NothingIsNormal();
    }
  }

  lemma EmptyUnion()
    ensures UnionOf([]) == Union([])
  {
    var none: seq<ValueType> := [];
    assert Flatten(none) == [] && Dedup(none) == [] && MergeBooleans(none) == none;
    assert Collapse(none) == none && MergeSecrets(none) == none;
  }

  lemma NothingIsNormal()
    ensures NormalType(UnionOf([]))
  {
    var none: seq<ValueType> := [];
    assert ToSet(none) == {} && InnersSet({}) == {};
    NormalSetStays(none);
  }

  /** Where the guard holds, the type keeps every value it had but `nil`, and has no others except for
      their marks. */
  lemma SecretBranchKeeps(env: Env, t: ValueType, v: Value)
    requires NormalType(t)
    ensures Has(env, t, v) && v != Value(NilValue, false) ==> Has(env, FilterTypeWith(env, t, SECRET_GUARD), v)
    ensures Has(env, FilterTypeWith(env, t, SECRET_GUARD), v) ==> HasBase(env, t, v)
    ensures t.Nil? ==> FilterTypeWith(env, t, SECRET_GUARD) == t
  {
    hide UnionOf, NormalForm, Has, SecretOf;
    EmptyUnion();
    StripNilMeaning(env, t, v);
    StripNilMeaning(env, t, Flipped(v));
    SecretOfMeaning(env, StripNil(t), v);
  }

  /** No value of the type is secret. */
  predicate Open(t: ValueType) {
    match t
    case Secret(_) => false
    case Any => false
    case TypeVariable(_) => false
    case Intersection(parts) => exists i :: 0 <= i < |parts| && Open(parts[i])
    case OpaqueAlias(_, inner) => Open(inner)
    case Union(members) => forall i :: 0 <= i < |members| ==> Open(members[i])
    case _ => true
  }

  lemma {:induction false} OpenHasNoSecret(env: Env, t: ValueType, v: Value)
    requires Open(t) && Has(env, t, v)
    ensures !v.secret
    decreases t
  {
    match t
    case OpaqueAlias(_, inner) => OpenHasNoSecret(env, inner, v);
    case Union(members) =>
      var i :| 0 <= i < |members| && Has(env, members[i], v);
      OpenHasNoSecret(env, members[i], v);
    case Intersection(parts) =>
      var i :| 0 <= i < |parts| && Open(parts[i]);
      OpenHasNoSecret(env, parts[i], v);
    case _ =>
  }

  /** Secrets are marked scalars, and nothing else hides one. */
  predicate OpenMember(m: ValueType) {
    if m.Secret? then Wrappable(m.inner) && Open(m.inner) else Open(m)
  }

  lemma UnwrapMeaning(env: Env, m: ValueType, v: Value)
    requires OpenMember(m)
    ensures Has(env, Unwrap(m), v) <==> Has(env, m, v) && !v.secret
  {
    if m.Secret? {
      var flipped := Flipped(v);
      if Has(env, m.inner, v) {
        OpenHasNoSecret(env, m.inner, v);
      }
      if Has(env, m.inner, flipped) {
        OpenHasNoSecret(env, m.inner, flipped);
      }
    } else if Has(env, m, v) {
      OpenHasNoSecret(env, m, v);
    }
  }

  lemma StrippedUnionMeaning(env: Env, members: seq<ValueType>, v: Value)
    requires DistinctNonUnions(members) && NormalForm(ToSet(members)) && forall m :: m in members ==> OpenMember(m)
    ensures Has(env, StripSecret(Union(members)), v) <==> exists m :: m in members && Has(env, Unwrap(m), v)
  {
    hide UnionOf, NormalForm, Apply, Has;
    StripSecretUnion(members);
    UnionOfMapped(env, members, Unwrap, v);
    UnwrapNothing(env, members, v);
    HasMembers(env, Union(members), v);
  }

  /** Where it does not hold, exactly the values without the mark are left. */
  lemma PlainBranchIsExact(env: Env, t: ValueType, v: Value)
    requires NormalType(t) && forall m :: m in Members(t) ==> OpenMember(m)
    ensures Has(env, StripTypeWith(env, t, SECRET_GUARD), v) <==> Has(env, t, v) && !v.secret
  {
    hide UnionOf, NormalForm, Has, OpenMember;
    HasMembers(env, t, v);
    forall m | m in Members(t) ensures Has(env, Unwrap(m), v) <==> Has(env, m, v) && !v.secret {
      UnwrapMeaning(env, m, v);
    }
    if t.Union? {
      StrippedUnionMeaning(env, t.members, v);
    } else {
      assert t in Members(t) && StripSecret(t) == Unwrap(t);
    }
  }

  lemma UnwrapNothing(env: Env, members: seq<ValueType>, v: Value)
    ensures (forall m :: m in members ==> !m.Secret?) ==>
              ((exists m :: m in members && Has(env, Unwrap(m), v)) <==> HasAny(env, members, v))
  {
  }

  /** Which values a marked type has: those it had, and the secret twins of the members that one of the
      secrets can be. */
  lemma MarkingIsExact(env: Env, t: ValueType, secrets: seq<ValueType>, v: Value)
    requires NormalType(t)
    ensures Has(env, WithSecretMembers(t, secrets), v) <==>
            Has(env, t, v) || exists m :: m in Members(t) && Wrappable(m) && Reachable(secrets, m) && HasBase(env, m, v)
  {
    hide UnionOf, Reachable, NormalForm, Apply, Has;
    HasMembers(env, t, v);
    forall m | m in Members(t)
      ensures Has(env, Mark(secrets, m), v) <==>
              Has(env, m, v) || (Wrappable(m) && Reachable(secrets, m) && HasBase(env, m, v))
      ensures MarkWith(secrets)(m) == Mark(secrets, m)
    {
      MarkMeaning(env, secrets, m, v);
    }
    if t.Union? {
      forall m | m in t.members
        ensures !Mark(secrets, m).Union?
        ensures Mark(secrets, m).Table? || (Mark(secrets, m).Secret? && Mark(secrets, m).inner.Table?) ==>
                  Mark(secrets, m) == m
      {
        MarkShape(secrets, m);
      }
      UnionOfMapped(env, t.members, MarkWith(secrets), v);
    } else {
      assert t in Members(t);
    }
  }

  lemma MarkMeaning(env: Env, secrets: seq<ValueType>, m: ValueType, v: Value)
    requires !m.Union?
    ensures Has(env, Mark(secrets, m), v) <==>
            Has(env, m, v) || (Wrappable(m) && Reachable(secrets, m) && HasBase(env, m, v))
  {
    hide Reachable;
  }

  lemma MarkShape(secrets: seq<ValueType>, m: ValueType)
    requires !m.Union?
    ensures var k := Mark(secrets, m); !k.Union? && (k.Table? || (k.Secret? && k.inner.Table?) ==> k == m)
  {
    hide Reachable;
  }

  /** Marking a whole type gives every scalar member its secret twins. */
  lemma SecretOfIsExact(env: Env, t: ValueType, v: Value)
    requires NormalType(t)
    ensures Has(env, SecretOf(t), v) <==>
            Has(env, t, v) || exists m :: m in Members(t) && Wrappable(m) && HasBase(env, m, v)
  {
    hide UnionOf;
    HasMembers(env, t, v);
    forall m | m in Members(t)
      ensures Has(env, Wrap(m), v) <==> Has(env, m, v) || (Wrappable(m) && HasBase(env, m, v))
    {
    }
    if t.Union? {
      SecretOfUnion(t.members);
      UnionOfMapped(env, t.members, Wrap, v);
    } else {
      assert t in Members(t);
    }
  }
}
