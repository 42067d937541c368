/** One `type()` guard applied again, for every type. */
module RepeatedGuards {
  import opened Wrappers
  import opened Sequences
  import opened ValueTypes
  import opened Unions
  import opened UnionLaws
  import opened TypeGuards
  import opened GuardMeaning

  /** Normalisation keeps a list of members that all match a guard matching. */
  lemma NormalKeepsMatches(env: Env, ts: set<ValueType>, guard: ValueType)
    requires TypeGuard(guard) && forall t :: t in ts ==> !t.Union? && Matches(env, t, guard)
    ensures forall t :: t in Normal(ts) ==> Matches(env, t, guard)
  {
    forall t | t in Normal(ts) ensures Matches(env, t, guard) {
      if t !in ts {
        if t.Secret? {
          assert Secret(Boolean(Some(true))) in ts;
          SecretMatchesAlike(env, guard, Boolean(Some(true)));
          BooleansMatchAlike(env, guard, Some(true));
          SecretMatchesAlike(env, guard, Boolean(None));
        } else {
          assert Boolean(Some(true)) in ts;
          BooleansMatchAlike(env, guard, Some(true));
        }
      }
    }
  }

  lemma BooleansMatchAlike(env: Env, guard: ValueType, lit: Option<bool>)
    requires TypeGuard(guard)
    ensures Matches(env, Boolean(lit), guard) <==> Matches(env, Boolean(None), guard)
  {
    if guard.Union? {
      forall i | 0 <= i < |guard.members|
        ensures Matches(env, Boolean(lit), guard.members[i]) <==> Matches(env, Boolean(None), guard.members[i])
      {
        assert GuardKind(guard.members[i]).Some?;
      }
    }
  }

  lemma SecretMatchesAlike(env: Env, guard: ValueType, t: ValueType)
    requires TypeGuard(guard)
    ensures Matches(env, Secret(t), guard) <==> Matches(env, t, guard)
  {
    if guard.Union? {
      forall i | 0 <= i < |guard.members|
        ensures Matches(env, Secret(t), guard.members[i]) <==> Matches(env, t, guard.members[i])
      {
      }
    }
  }

  lemma GuardMatchesItself(env: Env, guard: ValueType)
    requires TypeGuard(guard)
    ensures AllMatch(env, guard, guard)
  {
    forall m | m in Members(guard) ensures Matches(env, m, guard) {
      if guard.Union? {
        var i :| 0 <= i < |guard.members| && guard.members[i] == m;
        assert Matches(env, m, guard.members[i]);
      }
    }
  }

  lemma UnionNeverMatches(env: Env, t: ValueType, guard: ValueType)
    requires TypeGuard(guard) && t.Union?
    ensures !Matches(env, t, guard)
  {
    if guard.Union? {
      forall i | 0 <= i < |guard.members| ensures !Matches(env, t, guard.members[i]) {
      }
    }
  }

  /** Whatever the type: keeping what matches and then removing what matches leaves only the `nil` that
      stands for nothing left. */
  lemma FilterThenStripLeavesNothing(env: Env, t: ValueType, guard: ValueType)
    requires TypeGuard(guard)
    ensures StripTypeWith(env, FilterTypeWith(env, t, guard), guard) == Nil
  {
    GuardIsNotSecret(guard);
    var kept := FilterTypeWith(env, t, guard);
    assert AllMatch(env, kept, guard) by {
      FilteredMatches(env, t, guard);
    }
    KeptNothing(env, kept, guard, false);
    if !kept.Union? {
      assert kept in Members(kept);
    }
  }

  lemma FilteredMatches(env: Env, t: ValueType, guard: ValueType)
    requires TypeGuard(guard)
    ensures AllMatch(env, FilterTypeWith(env, t, guard), guard)
  {
    GuardIsNotSecret(guard);
    GuardMatchesItself(env, guard);
    if t.Union? {
      FilteredMembersMatch(env, t.members, guard);
    }
  }

  lemma FilteredMembersMatch(env: Env, members: seq<ValueType>, guard: ValueType)
    requires TypeGuard(guard)
    ensures AllMatch(env, UnionOf(Keep(members, MatchTest(env, guard, true))), guard)
  {
    var kept := Keep(members, MatchTest(env, guard, true));
    forall m | m in kept ensures !m.Union? && Matches(env, m, guard) {
      if m.Union? {
        UnionNeverMatches(env, m, guard);
      }
    }
    FlattenOfNonUnions(kept);
    MembersAreNormal(kept);
    NormalKeepsMatches(env, ToSet(kept), guard);
    assert forall m :: m in Members(UnionOf(kept)) ==> m in ToSet(Members(UnionOf(kept)));
  }

  ghost predicate SameMembers(t: ValueType, u: ValueType) {
    ToSet(Members(t)) == ToSet(Members(u))
  }

  /** Results of `type()` are in normal form. */
  lemma GuardIsNormal(guard: ValueType)
    requires TypeGuard(guard)
    ensures NormalForm(ToSet(Members(guard))) && forall m :: m in Members(guard) ==> !m.Union?
  {
    forall m | m in Members(guard) ensures GuardKind(m).Some? {
    }
    assert InnersSet(ToSet(Members(guard))) == {};
  }

  /** Normalising what is in normal form, in whatever order. */
  lemma NormalAgain(ms: seq<ValueType>)
    requires NormalForm(ToSet(ms)) && forall m :: m in ms ==> !m.Union?
    ensures ToSet(Members(UnionOf(ms))) == ToSet(ms)
  {
    FlattenOfNonUnions(ms);
    MembersAreNormal(ms);
    NormalFormIsFixed(ToSet(ms));
  }

  lemma AllKept(env: Env, ms: seq<ValueType>, guard: ValueType, keep: bool)
    requires forall m :: m in ms ==> Matches(env, m, guard) == keep
    ensures Keep(ms, MatchTest(env, guard, keep)) == ms
  {
    KeepAll(ms, MatchTest(env, guard, keep));
  }

  /** Filtering a type whose members all match. */
  lemma FilterOfMatching(env: Env, t: ValueType, guard: ValueType)
    requires TypeGuard(guard) && AllMatch(env, t, guard) && NormalForm(ToSet(Members(t))) && Members(t) != []
    requires t.Union? ==> forall m :: m in t.members ==> !m.Union?
    ensures SameMembers(FilterTypeWith(env, t, guard), t)
  {
    hide NormalForm, UnionOf, FilterTypeWith, Matches, TypeGuard, Keep;
    GuardIsNotSecret(guard);
    FilterUnfolds(env, t, guard);
    AllKept(env, Members(t), guard, true);
    if t.Union? {
      NormalAgain(t.members);
    }
  }

  /** Filtering twice leaves the members that filtering once does. */
  lemma FilterIsIdempotent(env: Env, t: ValueType, guard: ValueType)
    requires TypeGuard(guard)
    ensures SameMembers(FilterTypeWith(env, FilterTypeWith(env, t, guard), guard), FilterTypeWith(env, t, guard))
  {
    hide NormalForm, UnionOf, FilterTypeWith, Matches, Keep;
    GuardIsNotSecret(guard);
    FilterUnfolds(env, t, guard);
    FilteredMatches(env, t, guard);
    var once := FilterTypeWith(env, t, guard);
    if once == guard {
      GuardIsNormal(guard);
      FilterOfMatching(env, guard, guard);
    } else if t.Union? {
      KeptIsNormal(env, t.members, guard);
      FilterOfMatching(env, once, guard);
    } else {
      GuardIsNotSecret(guard);
      FilterUnfolds(env, once, guard);
    }
  }

  lemma KeptIsNormal(env: Env, members: seq<ValueType>, guard: ValueType)
    requires TypeGuard(guard) && Keep(members, MatchTest(env, guard, true)) != []
    ensures var u := UnionOf(Keep(members, MatchTest(env, guard, true)));
            NormalForm(ToSet(Members(u))) && DistinctNonUnions(Members(u)) && Members(u) != []
  {
    var kept := Keep(members, MatchTest(env, guard, true));
    forall m | m in kept ensures !m.Union? {
      if m.Union? {
        UnionNeverMatches(env, m, guard);
      }
    }
    FlattenOfNonUnions(kept);
    UnionIsNormal(kept);
    MembersAreNormal(kept);
    NormalIsNotEmpty(ToSet(kept), kept[0]);
    var n :| n in Normal(ToSet(kept));
    assert n in ToSet(Members(UnionOf(kept)));
  }

  lemma NormalIsNotEmpty(ts: set<ValueType>, t: ValueType)
    requires t in ts
    ensures Normal(ts) != {}
  {
    var u := Carrier(ts, t);
    if Any !in ts {
      assert u in CollapseSet(ts);
      InnersNotEmpty(CollapseSet(ts), u);
    } else {
      assert Any in Normal(ts);
    }
  }

  lemma InnersNotEmpty(ts: set<ValueType>, u: ValueType)
    requires u in ts
    ensures MergeSecretsSet(ts) != {}
  {
    var inners := CollapseSet(InnersSet(ts));
    if u in inners {
      assert Secret(u) in MergeSecretsSet(ts);
    } else if !u.Secret? {
      assert u in MergeSecretsSet(ts);
    } else {
      assert u.inner in InnersSet(ts);
      var g := Carrier(InnersSet(ts), u.inner);
      assert g in inners && Secret(g) in MergeSecretsSet(ts);
    }
  }

  // ---- stripping twice

  lemma NormalKeepsMismatches(env: Env, ts: set<ValueType>, guard: ValueType)
    requires TypeGuard(guard) && forall t :: t in ts ==> !t.Union? && !Matches(env, t, guard)
    ensures forall t :: t in Normal(ts) ==> !Matches(env, t, guard)
  {
    forall t | t in Normal(ts) ensures !Matches(env, t, guard) {
      if t !in ts {
        if t.Secret? {
          assert Secret(Boolean(Some(true))) in ts;
          SecretMatchesAlike(env, guard, Boolean(Some(true)));
          BooleansMatchAlike(env, guard, Some(true));
          SecretMatchesAlike(env, guard, Boolean(None));
        } else {
          assert Boolean(Some(true)) in ts;
          BooleansMatchAlike(env, guard, Some(true));
        }
      }
    }
  }

  /** Stripping twice leaves the members that stripping once does. */
  lemma StripIsIdempotent(env: Env, t: ValueType, guard: ValueType)
    requires TypeGuard(guard) && (t.Union? ==> forall m :: m in t.members ==> !m.Union?)
    ensures SameMembers(StripTypeWith(env, StripTypeWith(env, t, guard), guard), StripTypeWith(env, t, guard))
  {
    hide NormalForm, UnionOf, StripTypeWith, Matches, Keep;
    GuardIsNotSecret(guard);
    StripUnfolds(env, t, guard);
    var once, kept := StripTypeWith(env, t, guard), Keep(Members(t), MatchTest(env, guard, false));
    if t.Union? && kept != [] {
      forall m | m in kept ensures !m.Union? && !Matches(env, m, guard) {
        assert m in t.members && MatchTest(env, guard, false)(m);
      }
      StrippedMembers(env, kept, guard);
      StripOfMismatching(env, once, guard);
    } else {
      GuardIsNotSecret(guard);
      StripUnfolds(env, once, guard);
      KeptOfOne(once, MatchTest(env, guard, false));
    }
  }

  lemma StrippedMembers(env: Env, kept: seq<ValueType>, guard: ValueType)
    requires TypeGuard(guard) && kept != [] && forall m :: m in kept ==> !m.Union? && !Matches(env, m, guard)
    ensures var u := UnionOf(kept);
            && NormalForm(ToSet(Members(u))) && DistinctNonUnions(Members(u)) && Members(u) != []
            && forall m :: m in Members(u) ==> !Matches(env, m, guard)
  {
    hide NormalForm, UnionOf, Matches, TypeGuard;
    FlattenOfNonUnions(kept);
    UnionIsNormal(kept);
    MembersAreNormal(kept);
    NormalKeepsMismatches(env, ToSet(kept), guard);
    NormalIsNotEmpty(ToSet(kept), kept[0]);
    var n :| n in Normal(ToSet(kept));
    assert forall m :: m in Members(UnionOf(kept)) <==> m in ToSet(Members(UnionOf(kept)));
  }

  lemma StripOfMismatching(env: Env, t: ValueType, guard: ValueType)
    requires TypeGuard(guard) && NormalForm(ToSet(Members(t))) && DistinctNonUnions(Members(t)) && Members(t) != []
    requires forall m :: m in Members(t) ==> !Matches(env, m, guard)
    ensures SameMembers(StripTypeWith(env, t, guard), t)
  {
    hide NormalForm, UnionOf, StripTypeWith, Matches, TypeGuard, Keep;
    GuardIsNotSecret(guard);
    StripUnfolds(env, t, guard);
    AllKept(env, Members(t), guard, false);
    if t.Union? {
      NormalAgain(t.members);
    }
  }
}
