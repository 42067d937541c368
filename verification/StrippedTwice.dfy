/** Narrowing twice by the same test changes nothing more, not even the order of the members. */
module StrippedTwice {
  import opened Wrappers
  import opened Sequences
  import opened ValueTypes
  import opened Unions
  import opened UnionLaws
  import opened UnionStability
  import opened Secrecy
  import opened Narrowing

  ghost predicate Fixed(f: ValueType -> Option<ValueType>, ts: set<ValueType>) {
    forall t :: t in ts ==> f(t) == Some(t) && !t.Union?
  }

  lemma {:induction false} FilterMapOfFixed(ts: seq<ValueType>, f: ValueType -> Option<ValueType>)
    requires forall i :: 0 <= i < |ts| ==> f(ts[i]) == Some(ts[i])
    ensures FilterMap(ts, f) == ts
    decreases |ts|
  {
    if ts != [] {
      var n := |ts| - 1;
      FilterMapOfFixed(ts[..n], f);
      assert ts == ts[..n] + [ts[n]];
    }
  }

  /** Filtered members that stay when filtered again, of which normalisation makes no others. */
  lemma FilteredAgain(filtered: seq<ValueType>, f: ValueType -> Option<ValueType>)
    requires Fixed(f, ToSet(filtered)) && Fixed(f, Normal(ToSet(filtered))) && !Unsettled(ToSet(filtered))
    ensures var u := UnionOf(filtered); if u.Union? then UnionOf(FilterMap(u.members, f)) == u else f(u) == Some(u)
  {
    hide Unsettled, Normal, UnionOf;
    var u := UnionOf(filtered);
    forall t | t in filtered ensures !t.Union? {
      assert t in ToSet(filtered);
    }
    FlattenOfNonUnions(filtered);
    MembersAreNormal(filtered);
    StableIff(filtered);
    if u.Union? {
      forall i | 0 <= i < |u.members| ensures f(u.members[i]) == Some(u.members[i]) {
        assert u.members[i] in ToSet(u.members);
      }
      FilterMapOfFixed(u.members, f);
    } else {
      assert u in ToSet(Members(u));
    }
  }

  /** Where no two booleans merge, normalisation makes no new members. */
  lemma NormalMakesNone(ts: set<ValueType>)
    requires !Absorbed(ts, Boolean(None)) && !Absorbed(InnersSet(ts), Boolean(None))
    ensures Normal(ts) <= ts && !Unsettled(ts)
  {
    CollapsedInners(ts);
    forall t | t in Normal(ts) ensures t in ts {
      if t.Secret? && Any !in ts {
        assert t.inner in InnersSet(ts);
      }
    }
  }

  lemma TruthyDoNotMerge(ts: set<ValueType>)
    requires Fixed(TruthyMember, ts)
    ensures !Absorbed(ts, Boolean(None)) && !Absorbed(InnersSet(ts), Boolean(None))
  {
    forall t | t in InnersSet(ts) ensures TruthyMember(t) == Some(t) {
      assert TruthyMember(Secret(t)) == Some(Secret(t));
    }
  }

  lemma FalsyDoNotMerge(ts: set<ValueType>)
    requires Fixed(FalsyMember, ts)
    ensures !Absorbed(ts, Boolean(None)) && !Absorbed(InnersSet(ts), Boolean(None))
  {
    forall t | t in InnersSet(ts) ensures FalsyMember(t) == Some(t) {
      assert FalsyMember(Secret(t)) == Some(Secret(t));
    }
  }

  /** A second test for truth. */
  lemma StripFalsyIsIdempotent(t: ValueType)
    requires NormalType(t)
    ensures StripFalsy(StripFalsy(t)) == StripFalsy(t)
  {
    if t.Union? {
      var filtered := FilterMap(t.members, TruthyMember);
      FilterMapContains(t.members, TruthyMember);
      forall m | m in ToSet(filtered) ensures TruthyMember(m) == Some(m) && !m.Union? {
        var u :| u in t.members && TruthyMember(u) == Some(m);
        TruthyMemberShape(u, m);
      }
      TruthyDoNotMerge(ToSet(filtered));
      NormalMakesNone(ToSet(filtered));
      FilteredAgain(filtered, TruthyMember);
    } else {
      match TruthyMember(t)
      case Some(m) => TruthyMemberShape(t, m);
      case None => NothingFiltered(TruthyMember);
    }
  }

  lemma NothingFiltered(f: ValueType -> Option<ValueType>)
    ensures UnionOf([]) == Union([]) && UnionOf(FilterMap([], f)) == UnionOf([])
  {
    hide UnionOf;
    UnionOfNone([]);
  }

  /** A second test for falsehood. */
  lemma StripTruthyIsIdempotent(t: ValueType)
    requires NormalType(t)
    ensures StripTruthy(StripTruthy(t)) == StripTruthy(t)
  {
    if t.Union? {
      var filtered := FilterMap(t.members, FalsyMember);
      FilterMapContains(t.members, FalsyMember);
      forall m | m in ToSet(filtered) ensures FalsyMember(m) == Some(m) && !m.Union? {
        var u :| u in t.members && FalsyMember(u) == Some(m);
        FalsyMemberShape(u, m);
      }
      FalsyDoNotMerge(ToSet(filtered));
      NormalMakesNone(ToSet(filtered));
      FilteredAgain(filtered, FalsyMember);
    } else {
      match FalsyMember(t)
      case Some(m) => FalsyMemberShape(t, m);
      case None =>
    }
  }

  /** A second test for `nil`. */
  lemma StripNilIsIdempotent(t: ValueType)
    requires NormalType(t)
    ensures StripNil(StripNil(t)) == StripNil(t)
  {
    if t.Union? {
      var filtered := FilterMap(t.members, NotNil);
      FilterMapContains(t.members, NotNil);
      SomeOfNormal(ToSet(t.members), ToSet(filtered));
      FilteredAgain(filtered, NotNil);
    } else if t.Nil? {
      NothingFiltered(NotNil);
    }
  }

  /** Some members of a normal form are a normal form. */
  lemma SomeOfNormal(ts: set<ValueType>, us: set<ValueType>)
    requires NormalForm(ts) && us <= ts
    ensures NormalForm(us) && Normal(us) == us && !Unsettled(us)
  {
    assert InnersSet(us) <= InnersSet(ts);
    NormalFormIsFixed(us);
  }
}
