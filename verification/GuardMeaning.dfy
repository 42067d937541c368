/** What a guard matches and what its two branches hold, for every type: also where runtime types cannot be
    read off the type. */
module GuardMeaning {
  import opened Wrappers
  import opened Sequences
  import opened ValueTypes
  import opened Unions
  import opened UnionLaws
  import opened Secrecy
  import opened TypeGuards

  /** What a single guard asks of a type: the kind of value it names, or to be that very type. */
  predicate Fits(env: Env, t: ValueType, g: ValueType) {
    var bare := StripOpaque(t);
    match GuardKind(g)
    case Some(kind) => Concrete(bare) && LeafKind(env, bare) == kind
    case None => bare == g
  }

  lemma {:induction false} SingleMatch(env: Env, t: ValueType, g: ValueType)
    requires !g.Union? && !IsSecretGuard(g)
    ensures Matches(env, t, g) <==> Fits(env, t, g)
    decreases t
  {
    if t.Secret? || t.OpaqueAlias? {
      hide GuardKind, LeafKind, Concrete;
      SingleMatch(env, t.inner, g);
    } else if GuardKind(g).Some? {
      hide Matches;
      NamedMatch(env, t, g);
    }
  }

  lemma NamedMatch(env: Env, t: ValueType, g: ValueType)
    requires GuardKind(g).Some? && !t.Secret? && !t.OpaqueAlias?
    ensures Matches(env, t, g) <==> Fits(env, t, g)
  {
    if Concrete(t) {
      hide Matches;
      LeafMatch(env, t, g);
    }
  }

  /** A guard sees through secrecy and aliases and matches what fits one of its members. In particular `any`,
      type variables, `keyof` and shapes match no result of `type()`. */
  lemma MatchIff(env: Env, t: ValueType, guard: ValueType)
    requires forall g :: g in Members(guard) ==> !g.Union? && !IsSecretGuard(g)
    ensures Matches(env, t, guard) <==> exists g :: g in Members(guard) && Fits(env, t, g)
  {
    hide Fits;
    if guard.Union? {
      forall i | 0 <= i < |guard.members|
        ensures Matches(env, t, guard.members[i]) <==> Fits(env, t, guard.members[i])
      {
        SingleMatch(env, t, guard.members[i]);
      }
      if g :| g in guard.members && Fits(env, t, g) {
        var i :| 0 <= i < |guard.members| && guard.members[i] == g;
      }
    } else {
      assert guard in Members(guard);
      SingleMatch(env, t, guard);
    }
  }

  /** And the guard of `issecretvalue` matches what carries the mark. */
  lemma SecretMatchIff(env: Env, t: ValueType)
    ensures Matches(env, t, Secret(Any)) <==> t.Secret?
  {
  }

  lemma {:induction false} BareIsConcrete(t: ValueType)
    ensures Concrete(StripOpaque(t)) <==> Concrete(t)
  {
    if t.Secret? || t.OpaqueAlias? {
      BareIsConcrete(t.inner);
    }
  }

  /** What matches has values of admitted runtime types only. */
  lemma MatchAdmits(env: Env, t: ValueType, guard: ValueType, v: Value)
    requires TypeGuard(guard) && Matches(env, t, guard) && Has(env, t, v)
    ensures Concrete(t) && Admits(guard, KindOf(v.base))
  {
    hide Matches, StripOpaque;
    forall g | g in Members(guard) ensures GuardKind(g).Some? {
      if guard.Union? {
        var i :| 0 <= i < |guard.members| && guard.members[i] == g;
      }
    }
    MatchIff(env, t, guard);
    BareIsConcrete(t);
    MatchDecides(env, t, guard, v);
  }

  // ---- the two branches

  lemma FilterUnfolds(env: Env, t: ValueType, guard: ValueType)
    requires !IsSecretGuard(guard)
    ensures var kept := Keep(Members(t), MatchTest(env, guard, true));
            FilterTypeWith(env, t, guard) == if kept == [] then guard else if t.Union? then UnionOf(kept) else t
  {
    KeptOfOne(t, MatchTest(env, guard, true));
  }

  lemma StripUnfolds(env: Env, t: ValueType, guard: ValueType)
    requires !ContainsSecretGuard(guard)
    ensures var kept := Keep(Members(t), MatchTest(env, guard, false));
            StripTypeWith(env, t, guard) == if kept == [] then Nil else if t.Union? then UnionOf(kept) else t
  {
    KeptOfOne(t, MatchTest(env, guard, false));
  }

  lemma KeptOfOne(t: ValueType, p: ValueType -> bool)
    ensures !t.Union? ==> (Keep(Members(t), p) != [] <==> p(t))
  {
    if !t.Union? {
      assert Members(t) == [t] && t in Members(t);
      if Keep(Members(t), p) != [] {
        assert Keep(Members(t), p)[0] in Members(t);
      }
    }
  }

  ghost predicate HasMatching(env: Env, t: ValueType, guard: ValueType, keep: bool, v: Value) {
    exists m :: m in Members(t) && Matches(env, m, guard) == keep && Has(env, m, v)
  }

  lemma KeptMembers(env: Env, t: ValueType, guard: ValueType, keep: bool, v: Value)
    requires NormalType(t) && t.Union?
    ensures Has(env, UnionOf(Keep(t.members, MatchTest(env, guard, keep))), v) <==> HasMatching(env, t, guard, keep, v)
  {
    hide Matches, UnionOf, Keep, NormalForm, Has;
    KeptMeaning(env, t.members, MatchTest(env, guard, keep), v);
  }

  /** Where a guard holds: the values of the members that match, or the guard's own if none does. */
  lemma FilterMeaning(env: Env, t: ValueType, guard: ValueType, v: Value)
    requires NormalType(t) && !IsSecretGuard(guard)
    ensures Has(env, FilterTypeWith(env, t, guard), v) <==>
            if SomeMatch(env, t, guard) then HasMatching(env, t, guard, true, v) else Has(env, guard, v)
  {
    hide Matches, UnionOf, NormalType, Has, Keep, FilterTypeWith;
    KeptNothing(env, t, guard, true);
    FilterUnfolds(env, t, guard);
    if t.Union? {
      KeptMembers(env, t, guard, true, v);
    } else {
      assert t in Members(t);
    }
  }

  /** Where it does not hold: the values of the members that do not match, or `nil` if all do. */
  lemma StripMeaning(env: Env, t: ValueType, guard: ValueType, v: Value)
    requires NormalType(t) && !ContainsSecretGuard(guard)
    ensures Has(env, StripTypeWith(env, t, guard), v) <==>
            if AllMatch(env, t, guard) then Has(env, Nil, v) else HasMatching(env, t, guard, false, v)
  {
    hide Matches, UnionOf, NormalType, Has, Keep, StripTypeWith;
    KeptNothing(env, t, guard, false);
    StripUnfolds(env, t, guard);
    if t.Union? {
      KeptMembers(env, t, guard, false, v);
    } else {
      assert t in Members(t);
    }
  }

  /** The branch where `type(x)` is what the guard says holds no value of another runtime type, whatever the
      type of `x`. */
  lemma FilterAdmits(env: Env, t: ValueType, guard: ValueType, v: Value)
    requires NormalType(t) && TypeGuard(guard)
    ensures Has(env, FilterTypeWith(env, t, guard), v) ==> Admits(guard, KindOf(v.base))
  {
    hide Matches, NormalType, Admits, FilterTypeWith;
    GuardIsNotSecret(guard);
    FilterMeaning(env, t, guard, v);
    if Has(env, FilterTypeWith(env, t, guard), v) {
      if SomeMatch(env, t, guard) {
        var m :| m in Members(t) && Matches(env, m, guard) && Has(env, m, v);
        MatchAdmits(env, m, guard, v);
      } else {
        GuardHas(env, guard, v);
      }
    }
  }

  lemma KindHas(env: Env, g: ValueType, v: Value)
    requires GuardKind(g).Some?
    ensures Has(env, g, v) <==> GuardKind(g) == Some(KindOf(v.base)) && !v.secret
  {
  }

  /** A guard on its own has the values that are not secret and of a type it names. */
  lemma GuardHas(env: Env, guard: ValueType, v: Value)
    requires TypeGuard(guard)
    ensures Has(env, guard, v) <==> Admits(guard, KindOf(v.base)) && !v.secret
  {
    hide Has, KindOf, GuardKind;
    if guard.Union? {
      UnionIsNoKind(guard);
      UnionHas(env, guard.members, v);
      forall i | 0 <= i < |guard.members|
        ensures Has(env, guard.members[i], v) <==> GuardKind(guard.members[i]) == Some(KindOf(v.base)) && !v.secret
      {
        KindHas(env, guard.members[i], v);
      }
    } else {
      KindHas(env, guard, v);
    }
  }

  lemma UnionIsNoKind(guard: ValueType)
    requires guard.Union?
    ensures GuardKind(guard).None?
  {
  }

  lemma UnionHas(env: Env, members: seq<ValueType>, v: Value)
    ensures Has(env, Union(members), v) <==> exists i :: 0 <= i < |members| && Has(env, members[i], v)
  {
  }

  /** And the other branch loses no value that gets there. */
  lemma StripKeeps(env: Env, t: ValueType, guard: ValueType, v: Value)
    requires NormalType(t) && TypeGuard(guard) && Has(env, t, v) && !Admits(guard, KindOf(v.base))
    ensures Has(env, StripTypeWith(env, t, guard), v)
  {
    hide Matches, NormalType, Admits, StripTypeWith;
    GuardIsNotSecret(guard);
    StripMeaning(env, t, guard, v);
    HasMembers(env, t, v);
    var m :| m in Members(t) && Has(env, m, v);
    if Matches(env, m, guard) {
      MatchAdmits(env, m, guard, v);
    }
  }

  /** An admitted value stays where the guard holds exactly if a member that matches has it, or, where no member
      matches and the guard's own types take over, if it is not secret. */
  lemma FilterKeepsIff(env: Env, t: ValueType, guard: ValueType, v: Value)
    requires NormalType(t) && TypeGuard(guard) && Has(env, t, v) && Admits(guard, KindOf(v.base))
    ensures Has(env, FilterTypeWith(env, t, guard), v) <==>
            if SomeMatch(env, t, guard) then HasMatching(env, t, guard, true, v) else !v.secret
  {
    hide Matches, NormalType, Admits, FilterTypeWith;
    GuardIsNotSecret(guard);
    FilterMeaning(env, t, guard, v);
    GuardHas(env, guard, v);
  }

  /** `strip_type_narrowed` gives up exactly when no member is left and `nil` was not one of them; then no
      value of the type can reach the branch. */
  lemma NarrowedGivesUp(env: Env, t: ValueType, guard: ValueType)
    requires NormalType(t) && TypeGuard(guard)
    ensures StripTypeNarrowed(env, t, guard).None? <==> AllMatch(env, t, guard) && !ContainsNil(t)
    ensures StripTypeNarrowed(env, t, guard).None? ==>
              forall v :: Has(env, t, v) ==> Admits(guard, KindOf(v.base))
  {
    hide Matches, NormalType, Admits, StripTypeWith, Has, KindOf;
    GuardIsNotSecret(guard);
    if !ContainsNil(t) {
      StripLeavesNil(env, t, guard);
    }
    if AllMatch(env, t, guard) {
      AllAreAdmitted(env, t, guard);
    }
  }

  lemma AllAreAdmitted(env: Env, t: ValueType, guard: ValueType)
    requires TypeGuard(guard) && AllMatch(env, t, guard)
    ensures forall v :: Has(env, t, v) ==> Admits(guard, KindOf(v.base))
  {
    hide Matches, Admits, KindOf, Has, TypeGuard;
    forall v | Has(env, t, v) ensures Admits(guard, KindOf(v.base)) {
      HasMembers(env, t, v);
      var m :| m in Members(t) && Has(env, m, v);
      MatchAdmits(env, m, guard, v);
    }
  }

  lemma StripLeavesNil(env: Env, t: ValueType, guard: ValueType)
    requires NormalType(t) && TypeGuard(guard) && !ContainsNil(t)
    ensures StripTypeWith(env, t, guard) == Nil <==> AllMatch(env, t, guard)
  {
    hide Matches, UnionOf, Keep, TypeGuard, NormalForm;
    GuardIsNotSecret(guard);
    KeptNothing(env, t, guard, false);
    if t.Union? {
      if UnionOf(Keep(t.members, MatchTest(env, guard, false))) == Nil {
        StrippedToNil(t.members, MatchTest(env, guard, false));
      }
    } else {
      assert t in Members(t);
    }
  }

  lemma NilSurvives(ts: set<ValueType>)
    requires Nil in Normal(ts)
    ensures Nil in ts
  {
    if Any !in ts {
      assert Nil in CollapseSet(ts);
    }
  }

  lemma MemberOfItself(t: ValueType, members: seq<ValueType>)
    requires !t.Union? && members == Members(t)
    ensures t in ToSet(members)
  {
  }

  /** A union that normalises to `nil` alone was given `nil`. */
  lemma NormalisedToNil(kept: seq<ValueType>, r: ValueType)
    requires DistinctNonUnions(kept) && r == UnionOf(kept) && r == Nil
    ensures Nil in kept
  {
    FlattenOfNonUnions(kept);
    MembersAreNormal(kept);
    MemberOfItself(r, Members(r));
    NilSurvives(ToSet(kept));
  }

  /** Keeping some members of a normal type leaves `nil` alone only if `nil` was a member. */
  lemma StrippedToNil(members: seq<ValueType>, p: ValueType -> bool)
    requires DistinctNonUnions(members) && UnionOf(Keep(members, p)) == Nil
    ensures Nil in members
  {
    KeepNoDuplicates(members, p);
    NormalisedToNil(Keep(members, p), UnionOf(Keep(members, p)));
  }

  // ---- literals as guards

  /** A type of one value, as `x == "a"` compares with. */
  predicate IsConstant(t: ValueType) {
    t.NumberLiteral? || (t.String? && t.text != None) || (t.Boolean? && t.lit != None)
  }

  /** For any guard: where nothing is left, `nil` was not there and not all is constants, nothing is known; in all
      other cases what the strip leaves is the type. */
  lemma NarrowedIff(env: Env, t: ValueType, guard: ValueType)
    requires forall g :: g in Members(guard) ==> !g.Union?
    ensures StripTypeNarrowed(env, t, guard).None? <==>
            && StripTypeWith(env, t, guard) == Nil && Nil !in Members(t)
            && exists g :: g in Members(guard) && !IsConstant(g)
    ensures StripTypeNarrowed(env, t, guard).Some? ==>
              StripTypeNarrowed(env, t, guard).value == StripTypeWith(env, t, guard)
  {
    hide StripTypeWith;
    ConstantsAreLiterals(guard);
  }

  lemma ConstantsAreLiterals(guard: ValueType)
    requires forall g :: g in Members(guard) ==> !g.Union?
    ensures IsLiteral(guard) <==> forall g :: g in Members(guard) ==> IsConstant(g)
  {
    if guard.Union? {
      forall i | 0 <= i < |guard.members| ensures IsLiteral(guard.members[i]) <==> IsConstant(guard.members[i]) {
        assert guard.members[i] in Members(guard);
      }
    } else {
      assert guard in Members(guard);
    }
  }
}
