/** What `make_union` guarantees: its members depend only on the set of types it is given, they are
    in normal form, and normalising twice adds nothing. */
module UnionLaws {
  import opened Wrappers
  import opened Sequences
  import opened ValueTypes
  import opened Unions

  // ---- the result as a set

  lemma {:induction false} InnersAsSet(ts: seq<ValueType>)
    ensures ToSet(Inners(ts)) == InnersSet(ToSet(ts))
    ensures NoDuplicates(ts) ==> NoDuplicates(Inners(ts))
  {
    forall t ensures t in Inners(ts) <==> t in InnersSet(ToSet(ts)) {
      if t in Inners(ts) {
        assert Secret(t) in ToSet(ts);
      }
    }
    if NoDuplicates(ts) {
      InnersNoDuplicates(ts);
    }
  }

  lemma {:induction false} InnersNoDuplicates(ts: seq<ValueType>)
    requires NoDuplicates(ts)
    ensures NoDuplicates(Inners(ts))
    decreases |ts|
  {
    if ts != [] {
      var n := |ts| - 1;
      InnersNoDuplicates(ts[..n]);
      assert ts[n] !in ts[..n];
      assert ts[n].Secret? ==> ts[n].inner !in Inners(ts[..n]);
    }
  }

  lemma NoInners(ts: seq<ValueType>)
    requires Inners(ts) == []
    ensures ToSet(ts) == MergeSecretsSet(ToSet(ts))
  {
    InnersAsSet(ts);
    assert InnersSet(ToSet(ts)) == {} && CollapseSet({}) == {};
    forall t ensures t in ts ==> !t.Secret? {
      assert t in ToSet(ts) <==> t in ts;
    }
  }

  lemma MergedContains(ts: seq<ValueType>, inners: seq<ValueType>, t: ValueType)
    requires ToSet(inners) == CollapseSet(InnersSet(ToSet(ts)))
    ensures t in MergeSecretsSet(ToSet(ts)) <==> if t.Secret? then t.inner in inners else t in ts && t !in inners
  {
    assert forall u :: u in inners <==> u in CollapseSet(InnersSet(ToSet(ts)));
  }

  lemma MergeSecretsAsSet(ts: seq<ValueType>)
    requires NoDuplicates(ts)
    ensures ToSet(MergeSecrets(ts)) == MergeSecretsSet(ToSet(ts))
    ensures NoDuplicates(MergeSecrets(ts))
  {
    var before := Inners(ts);
    if before == [] {
      NoInners(ts);
    } else {
      var inners := Collapse(before);
      InnersAsSet(ts);
      CollapseAsSet(before);
      DropTwinsNoDuplicates(ts, inners);
      forall t ensures t in MergeSecrets(ts) <==> t in MergeSecretsSet(ToSet(ts)) {
        MergedContains(ts, inners, t);
        if |inners| == |before| {
          UnshortenedCollapse(before);
          assert forall u :: u in inners <==> u in ToSet(inners);
        }
      }
      ResultNoDuplicates(ts, inners);
    }
  }

  lemma ResultNoDuplicates(ts: seq<ValueType>, inners: seq<ValueType>)
    requires NoDuplicates(ts) && inners == Collapse(Inners(ts))
    ensures NoDuplicates(Keep(DropTwins(ts, inners), NotSecret) + AllSecret(inners))
  {
    hide Collapse, Inners, DropTwins, Keep, AllSecret;
    InnersNoDuplicates(ts);
    CollapseNoDuplicates(Inners(ts));
    DropTwinsNoDuplicates(ts, inners);
    var kept := Keep(DropTwins(ts, inners), NotSecret);
    KeepNoDuplicates(DropTwins(ts, inners), NotSecret);
    forall i, j | 0 <= i < |kept| && 0 <= j < |inners| ensures kept[i] != AllSecret(inners)[j] {
      assert kept[i] in kept;
    }
  }

  lemma DropTwinsNoDuplicates(ts: seq<ValueType>, inners: seq<ValueType>)
    requires NoDuplicates(ts)
    ensures NoDuplicates(DropTwins(ts, inners))
  {
    KeepNoDuplicates(ts, DropTwinsTest(inners));
  }

  ghost predicate DistinctNonUnions(ts: seq<ValueType>) {
    NoDuplicates(ts) && forall m :: m in ts ==> !m.Union?
  }

  /** The members of a union depend only on the set of types it is built from: not on their order,
      not on repetition. */
  lemma MembersAreNormal(ts: seq<ValueType>)
    requires Flat(ts)
    ensures ToSet(Members(UnionOf(ts))) == Normal(ToSet(Flatten(ts)))
    ensures DistinctNonUnions(Members(UnionOf(ts)))
  {
    var deduped := Dedup(Flatten(ts));
    assert ToSet(deduped) == ToSet(Flatten(ts));
    if Any !in deduped {
      ListIsNormal(deduped);
    } else if Nil in deduped {
      AnyNilStays([Any, Nil]);
    } else {
      AnyAlone();
    }
  }

  lemma ListIsNormal(list: seq<ValueType>)
    requires NoDuplicates(list) && forall m :: m in list ==> !m.Union?
    ensures var t := FromMembers(MergeSecrets(Collapse(list)));
            && ToSet(Members(t)) == MergeSecretsSet(CollapseSet(ToSet(list)))
            && DistinctNonUnions(Members(t))
    ensures DistinctNonUnions(MergeSecrets(Collapse(list)))
  {
    CollapseAsSet(list);
    CollapseNoDuplicates(list);
    MergeSecretsAsSet(Collapse(list));
    var result := MergeSecrets(Collapse(list));
    forall m | m in result ensures !m.Union? {
      assert m in ToSet(result);
    }
    if |result| == 1 {
      assert result[0] in result;
      assert Members(result[0]) == result;
    }
  }

  lemma PairAsSet(list: seq<ValueType>)
    requires list == [Any, Nil]
    ensures NoDuplicates(list) && forall t :: t in ToSet(list) <==> t == Any || t == Nil
  {
  }

  lemma AnyNilStays(list: seq<ValueType>)
    requires list == [Any, Nil]
    ensures var t := FromMembers(MergeSecrets(Collapse(list)));
            ToSet(Members(t)) == {Any} + {Nil} && DistinctNonUnions(Members(t))
  {
    hide MergeSecrets, Collapse, FromMembers, Normal, MergeSecretsSet, CollapseSet;
    ListIsNormal(list);
    PairAsSet(list);
    AnyNilIsNormal(ToSet(list));
  }

  lemma AnyNilIsNormal(both: set<ValueType>)
    requires forall t :: t in both <==> t == Any || t == Nil
    ensures MergeSecretsSet(CollapseSet(both)) == {Any} + {Nil}
  {
    assert CollapseSet(both) == both;
    assert InnersSet(both) == {} && CollapseSet({}) == {};
  }

  lemma AnyAlone()
    ensures ToSet(Members(Any)) == {Any} + {} && DistinctNonUnions(Members(Any))
  {
    assert Members(Any) == [Any];
  }

  // ---- normal form

  lemma NormalReachesNormalForm(ts: set<ValueType>)
    ensures NormalForm(Normal(ts))
  {
    if Any !in ts {
      var plain := CollapseSet(ts);
      var inners := CollapseSet(InnersSet(plain));
      var r := Normal(ts);
      assert InnersSet(r) == inners by {
        forall t ensures t in InnersSet(r) <==> t in inners {
          if t in inners {
            assert Secret(t) in r;
          }
        }
      }
      CollapseSetCollapses(ts);
      CollapseSetCollapses(InnersSet(plain));
      assert Any !in r;
      forall t | t in r && Absorbed(r, t) ensures t == Boolean(None) {
        assert Absorbed(plain, t);
      }
    } else {
      assert InnersSet(Normal(ts)) == {};
    }
  }

  lemma CollapseSetCollapses(ts: set<ValueType>)
    ensures Collapsed(CollapseSet(ts))
  {
  }

  lemma CollapsedIsFixed(ts: set<ValueType>)
    requires Collapsed(ts)
    ensures CollapseSet(ts) == ts
  {
    forall t ensures t in CollapseSet(ts) <==> t in ts {
      if Absorbed(ts, Boolean(None)) && Boolean(None) !in ts {
        assert Absorbed(ts, Boolean(Some(true)));
      }
    }
  }

  /** The normal forms are exactly the sets that normalisation leaves alone. */
  lemma NormalFormIsFixed(ts: set<ValueType>)
    ensures NormalForm(ts) <==> Normal(ts) == ts
  {
    NormalReachesNormalForm(ts);
    if NormalForm(ts) && Any !in ts {
      CollapsedIsFixed(ts);
      CollapsedIsFixed(InnersSet(ts));
      forall t ensures t in Normal(ts) <==> t in ts {
        if t.Secret? && t in ts {
          assert t.inner in InnersSet(ts);
        }
        assert t in InnersSet(ts) ==> Secret(t) in ts;
      }
    }
  }

  lemma {:induction false} FlattenOfNonUnions(ts: seq<ValueType>)
    requires forall t :: t in ts ==> !t.Union?
    ensures Flatten(ts) == ts
    decreases |ts|
  {
    if ts != [] {
      var n := |ts| - 1;
      assert ts == ts[..n] + [ts[n]] && Members(ts[n]) == [ts[n]];
      FlattenOfNonUnions(ts[..n]);
    }
  }

  lemma {:induction false} FlattenAppend(ts: seq<ValueType>, us: seq<ValueType>)
    ensures Flatten(ts + us) == Flatten(ts) + Flatten(us)
    decreases |us|
  {
    hide Members;
    if us == [] {
      assert ts + us == ts;
    } else {
      assert (ts + us)[..|ts + us| - 1] == ts + us[..|us| - 1];
      FlattenAppend(ts, us[..|us| - 1]);
    }
  }

  lemma FlattenOne(t: ValueType)
    ensures Flatten([t]) == Members(t)
  {
    assert Flatten([t][..0]) == [];
  }

  lemma UnionOfNone(none: seq<ValueType>)
    requires none == []
    ensures UnionOf(none) == Union(none)
  {
    assert Flatten(none) == none;
    assert Dedup(none) == none;
    assert Collapse(none) == none;
    assert MergeSecrets(none) == none;
  }

  lemma {:induction false} DedupOfDistinct(ts: seq<ValueType>)
    requires NoDuplicates(ts)
    ensures Dedup(ts) == ts
    decreases |ts|
  {
    if ts != [] {
      var n := |ts| - 1;
      DedupOfDistinct(ts[..n]);
      assert ts[n] !in ts[..n];
    }
  }

  /** The members come out in normal form, and normalising them again yields the same members. */
  lemma UnionIsNormal(ts: seq<ValueType>)
    requires Flat(ts)
    ensures NormalForm(ToSet(Members(UnionOf(ts))))
    ensures Flat(Members(UnionOf(ts)))
    ensures ToSet(Members(UnionOf(Members(UnionOf(ts))))) == ToSet(Members(UnionOf(ts)))
  {
    MembersAreNormal(ts);
    NormalReachesNormalForm(ToSet(Flatten(ts)));
    FlattenOfNonUnions(Members(UnionOf(ts)));
    MembersAreNormal(Members(UnionOf(ts)));
    NormalFormIsFixed(ToSet(Members(UnionOf(ts))));
  }

  /** `make_union` is insensitive to order and repetition of its arguments. */
  lemma UnionIgnoresOrder(ts: seq<ValueType>, us: seq<ValueType>)
    requires Flat(ts) && Flat(us) && ToSet(Flatten(ts)) == ToSet(Flatten(us))
    ensures ToSet(Members(UnionOf(ts))) == ToSet(Members(UnionOf(us)))
  {
    MembersAreNormal(ts);
    MembersAreNormal(us);
  }
}
