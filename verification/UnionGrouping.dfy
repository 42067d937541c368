/** Normalising some of the arguments of a union first, and when that shows in the result. */
module UnionGrouping {
  import opened Wrappers
  import opened Sequences
  import opened ValueTypes
  import opened Unions
  import opened UnionLaws
  import opened UnionStability

  /** Normalising `ts` drops the plain type `t`, because it is there as a secret too; `us` does not
      bring it back. */
  predicate Dropped(ts: set<ValueType>, us: set<ValueType>, t: ValueType) {
    t in CollapseSet(ts) && !t.Secret? && t in CollapseSet(InnersSet(ts)) && t !in us
  }

  /** A type of `us` collapses with `t`, and with nothing in `us`. */
  ghost predicate WouldAbsorb(us: set<ValueType>, t: ValueType) {
    exists x :: x in us && Absorbed({t, x}, x) && !Absorbed(us, x)
  }

  /** `t` stays when all are together, but its secret collapses with a secret of `us`. */
  predicate WouldOutlive(ts: set<ValueType>, us: set<ValueType>, t: ValueType) {
    !Absorbed(ts + us, t) && Absorbed(InnersSet(ts + us), t)
  }

  ghost predicate Missed(ts: set<ValueType>, us: set<ValueType>, t: ValueType) {
    Dropped(ts, us, t) && (WouldAbsorb(us, t) || WouldOutlive(ts, us, t))
  }

  /** Some type that normalising `ts` drops is missed in the rest. */
  ghost predicate GroupingShows(ts: set<ValueType>, us: set<ValueType>) {
    Any !in ts && if Any in us then Dropped(ts, us, Nil) else exists t :: Missed(ts, us, t)
  }

  lemma CollapseTwice(ts: set<ValueType>, us: set<ValueType>)
    ensures CollapseSet(CollapseSet(ts) + us) == CollapseSet(ts + us)
  {
    forall t ensures t in CollapseSet(CollapseSet(ts) + us) <==> t in CollapseSet(ts + us) {
      assert Absorbed(CollapseSet(ts) + us, t) ==> Absorbed(ts + us, t);
    }
  }

  /** What is left of `ts` beside `us` when `ts` is normalised first. */
  function Grouped(ts: set<ValueType>, us: set<ValueType>): set<ValueType> {
    Normal(ts) + us
  }

  lemma GroupedContains(ts: set<ValueType>, us: set<ValueType>, t: ValueType)
    requires Any !in ts && !t.Secret?
    ensures t in Grouped(ts, us) <==> t in us || (t in CollapseSet(ts) && t !in CollapseSet(InnersSet(ts)))
  {
    CollapsedInners(ts);
  }

  /** Grouping never changes the secret members. */
  lemma GroupedInners(ts: set<ValueType>, us: set<ValueType>)
    requires Any !in ts
    ensures CollapseSet(InnersSet(Grouped(ts, us))) == CollapseSet(InnersSet(ts + us))
  {
    var inners := CollapseSet(InnersSet(ts));
    CollapsedInners(ts);
    forall t ensures t in InnersSet(Grouped(ts, us)) <==> t in inners + InnersSet(us) {
      assert Secret(t) in Normal(ts) <==> t in inners;
      assert t in InnersSet(us) <==> Secret(t) in us;
      assert t in InnersSet(Grouped(ts, us)) <==> Secret(t) in Grouped(ts, us);
    }
    assert InnersSet(Grouped(ts, us)) == inners + InnersSet(us);
    InnersOfBoth(ts, us);
    CollapseTwice(InnersSet(ts), InnersSet(us));
  }

  lemma NormalContains(ts: set<ValueType>, t: ValueType)
    requires Any !in ts
    ensures t in Normal(ts) <==>
            if t.Secret? then t.inner in CollapseSet(InnersSet(ts))
            else t in CollapseSet(ts) && t !in CollapseSet(InnersSet(ts))
  {
    CollapsedInners(ts);
  }

  // ---- a missed type shows

  lemma AbsorbingShows(ts: set<ValueType>, us: set<ValueType>, t: ValueType, x: ValueType)
    requires Any !in ts && Any !in us && Dropped(ts, us, t)
    requires x in us && Absorbed({t, x}, x) && !Absorbed(us, x)
    ensures x in Normal(Grouped(ts, us)) && x !in Normal(ts + us)
  {
    GroupedInners(ts, us);
    NormalContains(ts + us, x);
    NormalContains(Grouped(ts, us), x);
    AbsorbedApart(ts, us, t, x);
  }

  lemma AbsorbedApart(ts: set<ValueType>, us: set<ValueType>, t: ValueType, x: ValueType)
    requires Any !in ts && Dropped(ts, us, t) && x in us && Absorbed({t, x}, x) && !Absorbed(us, x)
    ensures x in CollapseSet(Grouped(ts, us)) && x !in CollapseSet(InnersSet(ts + us)) && x !in CollapseSet(ts + us)
  {
    CollapseSetCollapses(ts);
    InnersOfBoth(ts, us);
    var g := Generic(x);
    GroupedContains(ts, us, g);
    if x.Boolean? {
      GroupedContains(ts, us, Boolean(Some(!x.lit.value)));
    }
  }

  lemma InnersOfBoth(ts: set<ValueType>, us: set<ValueType>)
    ensures InnersSet(ts + us) == InnersSet(ts) + InnersSet(us)
  {
    forall t ensures t in InnersSet(ts + us) <==> t in InnersSet(ts) + InnersSet(us) {
      assert t in InnersSet(ts + us) <==> Secret(t) in ts + us;
    }
  }

  lemma OutlivingShows(ts: set<ValueType>, us: set<ValueType>, t: ValueType)
    requires Any !in ts && Any !in us && Dropped(ts, us, t) && WouldOutlive(ts, us, t)
    ensures t in Normal(ts + us) && t !in Normal(Grouped(ts, us))
  {
    GroupedInners(ts, us);
    GroupedContains(ts, us, t);
    NormalContains(ts + us, t);
    NormalContains(Grouped(ts, us), t);
  }

  // ---- nothing else shows

  lemma LostIsMissed(ts: set<ValueType>, us: set<ValueType>, t: ValueType) returns (m: ValueType)
    requires Any !in ts && !t.Secret?
    requires t in CollapseSet(ts + us) && t !in CollapseSet(InnersSet(ts + us)) && t !in CollapseSet(Grouped(ts, us))
    ensures Missed(ts, us, m)
  {
    m := t;
    GroupedContains(ts, us, t);
    CollapseTwice(InnersSet(ts), InnersSet(us));
    if t == Boolean(None) {
      m := HalfOfBoolean(ts, us);
    }
  }

  lemma HalfOfBoolean(ts: set<ValueType>, us: set<ValueType>) returns (m: ValueType)
    requires Any !in ts && Absorbed(ts + us, Boolean(None)) && !Absorbed(Grouped(ts, us), Boolean(None))
    requires Boolean(None) !in CollapseSet(InnersSet(ts + us))
    ensures Missed(ts, us, m)
  {
    m := Boolean(Some(Boolean(Some(true)) in ts));
    var x := Boolean(Some(!m.lit.value));
    GroupedContains(ts, us, Boolean(None));
    GroupedContains(ts, us, m);
    GroupedContains(ts, us, x);
    GroupedInners(ts, us);
    assert x in us && Absorbed({m, x}, x) && !Absorbed(us, x);
  }

  lemma NewIsMissed(ts: set<ValueType>, us: set<ValueType>, t: ValueType) returns (m: ValueType)
    requires Any !in ts && !t.Secret?
    requires t in CollapseSet(Grouped(ts, us)) && t !in CollapseSet(ts + us)
    ensures Missed(ts, us, m)
  {
    GroupedContains(ts, us, t);
    CollapseSetCollapses(ts);
    m := if t.Boolean? && !Absorbed(ts, Boolean(None)) then Boolean(Some(!t.lit.value)) else Generic(t);
    GroupedContains(ts, us, m);
    GroupedContains(ts, us, Boolean(None));
    assert Absorbed({m, t}, t) && !Absorbed(us, t);
  }

  lemma ShowsIffMissed(ts: set<ValueType>, us: set<ValueType>)
    requires Any !in ts && Any !in us
    ensures Normal(Grouped(ts, us)) != Normal(ts + us) <==> exists t :: Missed(ts, us, t)
  {
    hide CollapseSet, InnersSet, Normal, Absorbed;
    if m :| Missed(ts, us, m) {
      if x :| x in us && Absorbed({m, x}, x) && !Absorbed(us, x) {
        AbsorbingShows(ts, us, m, x);
      } else {
        OutlivingShows(ts, us, m);
      }
    } else {
      forall t ensures t in Normal(Grouped(ts, us)) <==> t in Normal(ts + us) {
        GroupedIsPlain(ts, us);
        GroupedInners(ts, us);
        NormalContains(ts + us, t);
        NormalContains(Grouped(ts, us), t);
        if t.Secret? || t in CollapseSet(InnersSet(ts + us)) {
        } else if t in Normal(ts + us) && t !in Normal(Grouped(ts, us)) {
          var m := LostIsMissed(ts, us, t);
        } else if t !in Normal(ts + us) && t in Normal(Grouped(ts, us)) {
          var m := NewIsMissed(ts, us, t);
        }
      }
    }
  }

  lemma GroupedIsPlain(ts: set<ValueType>, us: set<ValueType>)
    requires Any !in ts && Any !in us
    ensures Any !in Grouped(ts, us)
  {
    GroupedContains(ts, us, Any);
  }

  /** Normalising some of the members first changes the result exactly if it drops a type that is missed
      in the rest. */
  lemma NormalShowsIff(ts: set<ValueType>, us: set<ValueType>)
    ensures Normal(Normal(ts) + us) != Normal(ts + us) <==> GroupingShows(ts, us)
  {
    if Any in ts {
      assert Any in Normal(ts) && (Nil in Normal(ts) <==> Nil in ts);
    } else if Any in us {
      NormalContains(ts, Nil);
      assert Nil in CollapseSet(InnersSet(ts)) <==> Nil in InnersSet(ts);
    } else {
      ShowsIffMissed(ts, us);
    }
  }

  /** `make_union` on a union and more types, against `make_union` on all of them: the members differ
      exactly if normalising the first group drops a plain twin that is missed in the rest. */
  lemma GroupingShowsIff(ts: seq<ValueType>, us: seq<ValueType>)
    requires Flat(ts) && Flat(us)
    ensures ToSet(Members(UnionOf([UnionOf(ts)] + us))) != ToSet(Members(UnionOf(ts + us))) <==>
            GroupingShows(ToSet(Flatten(ts)), ToSet(Flatten(us)))
  {
    hide UnionOf, Flatten, Normal, GroupingShows;
    var grouped, first := [UnionOf(ts)] + us, Members(UnionOf(ts));
    FlattenAppend(ts, us);
    FlattenAppend([UnionOf(ts)], us);
    FlattenOne(UnionOf(ts));
    MembersAreNormal(ts);
    assert ToSet(Flatten(ts + us)) == ToSet(Flatten(ts)) + ToSet(Flatten(us));
    assert ToSet(Flatten(grouped)) == ToSet(first) + ToSet(Flatten(us));
    MembersAreNormal(ts + us);
    MembersAreNormal(grouped);
    NormalShowsIff(ToSet(Flatten(ts)), ToSet(Flatten(us)));
  }

  /** Without secrets grouping never shows. */
  lemma GroupingIsInvisible(ts: seq<ValueType>, us: seq<ValueType>)
    requires Flat(ts) && Flat(us) && forall t :: t in Flatten(ts) ==> !t.Secret?
    ensures ToSet(Members(UnionOf([UnionOf(ts)] + us))) == ToSet(Members(UnionOf(ts + us)))
  {
    hide UnionOf, Flatten;
    GroupingShowsIff(ts, us);
    assert InnersSet(ToSet(Flatten(ts))) == {} && CollapseSet({}) == {};
  }

  /** With them it does, in three ways. `true | secret<true>` loses `true`, which `false` would have merged
      with; `string | secret<string>` loses `string`, which "a" would have collapsed with; and
      `"a" | secret<"a">` loses "a", which outlives its secret beside `secret<string>`. */
  lemma GroupingShowsInThreeWays(text: string)
    ensures GroupingShows({Boolean(Some(true)), Secret(Boolean(Some(true)))}, {Boolean(Some(false))})
    ensures GroupingShows({String(None), Secret(String(None))}, {String(Some(text))})
    ensures GroupingShows({String(Some(text)), Secret(String(Some(text)))}, {Secret(String(None))})
  {
    hide GroupingShows;
    TwinShows(Boolean(Some(true)), Boolean(Some(false)));
    TwinShows(String(None), String(Some(text)));
    TwinShows(String(Some(text)), Secret(String(None)));
  }

  lemma TwinShows(t: ValueType, x: ValueType)
    requires t == Boolean(Some(true)) || t.String?
    requires (t == Boolean(Some(true)) && x == Boolean(Some(false))) ||
             (t == String(None) && x.String? && x.text.Some?) ||
             (t.String? && t.text.Some? && x == Secret(String(None)))
    ensures GroupingShows({t, Secret(t)}, {x})
  {
    var ts, us := {t, Secret(t)}, {x};
    assert InnersSet(ts) == {t};
    assert x in us;
    assert Dropped(ts, us, t);
    if x.Secret? {
      assert x.inner in InnersSet(ts + us);
    }
    assert Missed(ts, us, t);
  }
}
