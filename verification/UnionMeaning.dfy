/** What a normalised union means. */
module UnionMeaning {
  import opened Wrappers
  import opened Sequences
  import opened ValueTypes
  import opened Unions
  import opened UnionLaws

  predicate EnumTable(env: Env, t: ValueType) {
    t.Table? && t.table.Some? && env.enumKind(t.table.value) != NotEnum
  }

  /** The one kind of member whose values normalisation forgets: the table of a `@enum`, which stands
      for numbers or strings, beside the generic `table` that takes its place. */
  predicate Swallowed(env: Env, flat: set<ValueType>, t: ValueType) {
    Any !in flat &&
    ((EnumTable(env, t) && Table(None) in flat) ||
     (t.Secret? && EnumTable(env, t.inner) && Secret(Table(None)) in flat))
  }

  ghost predicate HasIn(env: Env, ts: set<ValueType>, v: Value) {
    exists t :: t in ts && Has(env, t, v)
  }

  ghost predicate HasSurviving(env: Env, ts: set<ValueType>, v: Value) {
    exists t :: t in ts && !Swallowed(env, ts, t) && Has(env, t, v)
  }

  lemma CollapseMeaning(env: Env, ts: set<ValueType>, v: Value)
    ensures HasIn(env, CollapseSet(ts), v) <==>
            exists t :: t in ts && !(EnumTable(env, t) && Table(None) in ts) && Has(env, t, v)
  {
    if t :| t in CollapseSet(ts) && Has(env, t, v) {
      if t !in ts {
        assert Boolean(Some(v.base.b)) in ts && Has(env, Boolean(Some(v.base.b)), v);
      } else if t == Boolean(None) {
        assert !EnumTable(env, t);
      } else {
        assert !Absorbed(ts, t);
      }
    }
    if t :| t in ts && !(EnumTable(env, t) && Table(None) in ts) && Has(env, t, v) {
      if Absorbed(ts, t) {
        assert Generic(t) in CollapseSet(ts) && Has(env, Generic(t), v);
      } else {
        assert t in CollapseSet(ts);
      }
    }
  }

  lemma MergeSecretsMeaning(env: Env, ts: set<ValueType>, v: Value)
    ensures HasIn(env, MergeSecretsSet(ts), v) <==>
            exists t ::
              t in ts && !(t.Secret? && EnumTable(env, t.inner) && Secret(Table(None)) in ts) && Has(env, t, v)
  {
    var before := InnersSet(ts);
    var inners := CollapseSet(before);
    var flipped := Flipped(v);
    assert Table(None) in before <==> Secret(Table(None)) in ts;
    if t :| t in MergeSecretsSet(ts) && Has(env, t, v) {
      if t.Secret? {
        var w := if Has(env, t.inner, v) then v else flipped;
        assert HasIn(env, inners, w);
        CollapseMeaning(env, before, w);
        var u :| u in before && !(EnumTable(env, u) && Table(None) in before) && Has(env, u, w);
        assert Secret(u) in ts && Has(env, Secret(u), v);
      }
    }
    if t :| t in ts && !(t.Secret? && EnumTable(env, t.inner) && Secret(Table(None)) in ts) && Has(env, t, v) {
      MergedCarrier(env, ts, v, t);
    }
  }

  lemma MergedCarrier(env: Env, ts: set<ValueType>, v: Value, t: ValueType)
    requires t in ts && Has(env, t, v) && !(t.Secret? && EnumTable(env, t.inner) && Secret(Table(None)) in ts)
    ensures HasIn(env, MergeSecretsSet(ts), v)
  {
    var before := InnersSet(ts);
    var inners := CollapseSet(before);
    if t.Secret? {
      var w := if Has(env, t.inner, v) then v else Flipped(v);
      assert Table(None) in before <==> Secret(Table(None)) in ts;
      assert t.inner in before && Has(env, t.inner, w);
      CollapseMeaning(env, before, w);
      var u :| u in inners && Has(env, u, w);
      assert Secret(u) in MergeSecretsSet(ts) && Has(env, Secret(u), v);
    } else if t in inners {
      assert Secret(t) in MergeSecretsSet(ts) && Has(env, Secret(t), v);
    } else {
      assert t in MergeSecretsSet(ts);
    }
  }

  lemma ListMeaning(env: Env, list: seq<ValueType>, v: Value)
    requires NoDuplicates(list)
    ensures Has(env, FromMembers(MergeSecrets(Collapse(list))), v) <==>
            HasIn(env, MergeSecretsSet(CollapseSet(ToSet(list))), v)
  {
    var result := MergeSecrets(Collapse(list));
    CollapseAsSet(list);
    CollapseNoDuplicates(list);
    MergeSecretsAsSet(Collapse(list));
    assert forall t :: t in result <==> t in ToSet(result);
    HasMembers(env, Union(result), v);
    if |result| == 1 {
      assert result == [result[0]];
    }
  }

  lemma SetMeaning(env: Env, ts: set<ValueType>, v: Value)
    requires Any !in ts
    ensures HasIn(env, MergeSecretsSet(CollapseSet(ts)), v) <==> HasSurviving(env, ts, v)
  {
    var plain := CollapseSet(ts);
    assert forall t: ValueType :: t.Secret? ==> (t in plain <==> t in ts);
    MergeSecretsMeaning(env, plain, v);
    if t :| t in plain && !(t.Secret? && EnumTable(env, t.inner) && Secret(Table(None)) in plain) && Has(env, t, v) {
      if !t.Secret? {
        assert HasIn(env, plain, v);
        CollapseMeaning(env, ts, v);
        PlainSurvives(env, ts, v, t);
      }
    }
    if t :| t in ts && !Swallowed(env, ts, t) && Has(env, t, v) {
      if t in plain {
      } else {
        CollapsedCarrier(env, ts, v, t);
      }
    }
  }

  lemma PlainSurvives(env: Env, ts: set<ValueType>, v: Value, t: ValueType)
    requires t in CollapseSet(ts) && !t.Secret? && Has(env, t, v) && Any !in ts
    ensures HasSurviving(env, ts, v)
  {
    if t !in ts {
      assert Boolean(Some(v.base.b)) in ts && Has(env, Boolean(Some(v.base.b)), v);
    } else if t == Boolean(None) {
      assert !Swallowed(env, ts, t);
    } else {
      assert !Swallowed(env, ts, t);
    }
  }

  lemma CollapsedCarrier(env: Env, ts: set<ValueType>, v: Value, t: ValueType)
    requires t in ts && t !in CollapseSet(ts) && !Swallowed(env, ts, t) && Has(env, t, v) && Any !in ts
    ensures exists u :: u in CollapseSet(ts) && !u.Secret? && Has(env, u, v)
  {
    assert Generic(t) in CollapseSet(ts) && Has(env, Generic(t), v);
  }

  lemma AnyHasAll(env: Env, ts: seq<ValueType>, v: Value)
    requires Any in Flatten(ts)
    ensures Has(env, UnionOf(ts), v) && HasSurviving(env, ToSet(Flatten(ts)), v)
  {
    hide Collapse, MergeSecrets, Flatten;
    assert Any in ToSet(Flatten(ts)) && Has(env, Any, v) && !Swallowed(env, ToSet(Flatten(ts)), Any);
    if Nil in Flatten(ts) {
      var list := [Any, Nil];
      AnyNilStays(list);
      assert Any in ToSet(Members(UnionOf(ts)));
      HasMembers(env, UnionOf(ts), v);
    }
  }

  /** The exact meaning of a union, for every list of types: the values of its members, except those
      only a swallowed enum table had. */
  lemma UnionMeansMembers(env: Env, ts: seq<ValueType>, v: Value)
    ensures Has(env, UnionOf(ts), v) <==> HasSurviving(env, ToSet(Flatten(ts)), v)
  {
    hide Collapse, MergeSecrets, FromMembers, Has, HasSurviving, MergeSecretsSet, CollapseSet, Flatten;
    if Any in Flatten(ts) {
      AnyHasAll(env, ts, v);
    } else {
      var deduped := Dedup(Flatten(ts));
      assert ToSet(deduped) == ToSet(Flatten(ts));
      ListMeaning(env, deduped, v);
      SetMeaning(env, ToSet(deduped), v);
    }
  }

  ghost predicate NoneSwallowed(env: Env, ts: set<ValueType>) {
    forall t :: t in ts ==> !Swallowed(env, ts, t)
  }

  lemma {:induction false} FlattenMeaning(env: Env, ts: seq<ValueType>, v: Value)
    ensures HasAny(env, Flatten(ts), v) <==> HasAny(env, ts, v)
    decreases |ts|
  {
    if ts != [] {
      var n := |ts| - 1;
      FlattenMeaning(env, ts[..n], v);
      HasMembers(env, ts[n], v);
      assert ts == ts[..n] + [ts[n]];
    }
  }

  /** Without a swallowed enum table, the union has exactly the values of its arguments. */
  lemma UnionKeepsMeaning(env: Env, ts: seq<ValueType>, v: Value)
    requires NoneSwallowed(env, ToSet(Flatten(ts)))
    ensures Has(env, UnionOf(ts), v) <==> HasAny(env, ts, v)
  {
    UnionMeansMembers(env, ts, v);
    FlattenMeaning(env, ts, v);
    assert forall t :: t in Flatten(ts) <==> t in ToSet(Flatten(ts));
  }

  /** With one, values are lost: `table | Color`, where `Color` is an enum of numbers, is `table`. */
  lemma UnionLosesEnum(env: Env, i: nat, n: int, ts: seq<ValueType>)
    requires forall t :: t in ts <==> t == Table(None) || t == Table(Some(i))
    requires env.enumKind(i) == NumberEnum && env.inEnum(i, NumberValue(n))
    ensures HasAny(env, ts, Value(NumberValue(n), false))
    ensures !Has(env, UnionOf(ts), Value(NumberValue(n), false))
  {
    hide UnionOf, Flatten, HasSurviving;
    var v := Value(NumberValue(n), false);
    assert Table(Some(i)) in ts && Has(env, Table(Some(i)), v);
    FlattenOfNonUnions(ts);
    UnionMeansMembers(env, ts, v);
    OnlyEnumHas(env, i, ToSet(ts), v);
  }

  lemma OnlyEnumHas(env: Env, i: nat, ts: set<ValueType>, v: Value)
    requires forall t :: t in ts <==> t == Table(None) || t == Table(Some(i))
    requires env.enumKind(i) == NumberEnum && v.base.NumberValue?
    ensures !HasSurviving(env, ts, v)
  {
  }
}
