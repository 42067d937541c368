/** Normalising twice: when the second pass gives back the same list. */
module UnionStability {
  import opened Wrappers
  import opened Sequences
  import opened ValueTypes
  import opened Unions
  import opened UnionLaws

  /** `boolean`, if present, is where merging its literals puts it. */
  predicate BooleanLast(ts: seq<ValueType>) {
    Boolean(None) in ts ==> ts[|ts| - 1] == Boolean(None)
  }

  // ---- the second pass over a list in normal form

  lemma NothingToCollapse(ts: seq<ValueType>, b: seq<ValueType>)
    requires Collapsed(ToSet(ts)) && ToSet(b) == ToSet(ts)
    ensures Absorb(b, String(None), NotText) == b
    ensures Absorb(b, Table(None), NotClassTable) == b
    ensures Absorb(b, Number, NotNumeral) == b
  {
    forall t | t in b
      ensures (String(None) in b ==> NotText(t)) && (Table(None) in b ==> NotClassTable(t)) &&
              (Number in b ==> NotNumeral(t))
    {
      assert t in ToSet(b) && !(t != Boolean(None) && Absorbed(ToSet(ts), t));
      assert forall g :: g in b <==> g in ToSet(ts);
    }
    if String(None) in b { KeepAll(b, NotText); }
    if Table(None) in b { KeepAll(b, NotClassTable); }
    if Number in b { KeepAll(b, NotNumeral); }
  }

  lemma CollapsedAgain(ts: seq<ValueType>)
    requires NoDuplicates(ts) && Collapsed(ToSet(ts))
    ensures Collapse(ts) == MergeBooleans(ts) && ToSet(MergeBooleans(ts)) == ToSet(ts) && |MergeBooleans(ts)| == |ts|
  {
    var b := MergeBooleans(ts);
    forall t ensures t in b <==> t in ts {
      assert t in ToSet(ts) <==> t in ts;
      assert Boolean(None) in ToSet(ts) <==> Boolean(None) in ts;
      if BooleansMerge(ts) {
        BooleansCollapsed(ts, t);
      }
    }
    MergeBooleansNoDuplicates(ts);
    NoDuplicatesSize(ts);
    NoDuplicatesSize(b);
    NothingToCollapse(ts, b);
  }

  lemma BooleansCollapsed(ts: seq<ValueType>, t: ValueType)
    requires Collapsed(ToSet(ts)) && BooleansMerge(ts)
    ensures Boolean(None) in ts && (t in ts && t.Boolean? ==> t == Boolean(None))
  {
    assert forall g :: g in ts <==> g in ToSet(ts);
    if Boolean(None) !in ts {
      assert Absorbed(ToSet(ts), Boolean(Some(true)));
    }
    if t in ts && t.Boolean? {
      assert Absorbed(ToSet(ts), t);
    }
  }

  lemma MergedAgain(b: seq<ValueType>)
    requires NoDuplicates(b) && NormalForm(ToSet(b))
    ensures MergeSecrets(b) == b
  {
    var before := Inners(b);
    InnersAsSet(b);
    CollapsedAgain(before);
    var inners := Collapse(before);
    forall t | t in b ensures t.Secret? || t !in inners {
      assert t in ToSet(b);
      if t in inners {
        assert t in ToSet(inners);
        assert Secret(t) in ToSet(b);
      }
    }
    KeepAll(b, DropTwinsTest(inners));
  }

  lemma SecondPass(ms: seq<ValueType>)
    requires DistinctNonUnions(ms) && NormalForm(ToSet(ms)) && Any !in ms
    ensures UnionOf(ms) == FromMembers(MergeBooleans(ms)) && |MergeBooleans(ms)| == |ms|
  {
    FlattenOfNonUnions(ms);
    DedupOfDistinct(ms);
    CollapsedAgain(ms);
    MergeBooleansNoDuplicates(ms);
    MergedAgain(MergeBooleans(ms));
  }

  lemma MergingBooleansMoves(ms: seq<ValueType>)
    requires NoDuplicates(ms) && Collapsed(ToSet(ms))
    ensures MergeBooleans(ms) == ms <==> BooleanLast(ms)
  {
    if BooleansMerge(ms) {
      BooleansCollapsed(ms, Boolean(None));
      if BooleanLast(ms) {
        var n := |ms| - 1;
        forall t | t in ms[..n] ensures NotBoolean(t) {
          BooleansCollapsed(ms, t);
        }
        KeepAll(ms[..n], NotBoolean);
      }
    }
  }

  lemma StableIfLast(ts: seq<ValueType>)
    requires Flat(ts)
    ensures UnionOf(Members(UnionOf(ts))) == UnionOf(ts) <==> BooleanLast(Members(UnionOf(ts)))
  {
    var u := UnionOf(ts);
    var ms := Members(u);
    MembersAreNormal(ts);
    UnionIsNormal(ts);
    FlattenOfNonUnions(ms);
    if Any in ms {
      assert Any in ToSet(ms);
      AnyIsStable(ts, ms);
    } else {
      SecondPass(ms);
      MergingBooleansMoves(ms);
      UnionIsNoSingleton(ts);
    }
  }

  lemma AnyIsStable(ts: seq<ValueType>, ms: seq<ValueType>)
    requires ToSet(ms) == Normal(ToSet(Flatten(ts))) && Any in ToSet(ms) && Flatten(ms) == ms
    ensures UnionOf(ms) == UnionOf(ts) && BooleanLast(ms)
  {
    hide UnionOf, Normal, Flatten;
    NormalWithAny(ToSet(Flatten(ts)));
    assert forall t :: t in ms <==> t in ToSet(ms);
    assert forall t :: t in Flatten(ts) <==> t in ToSet(Flatten(ts));
    AnyUnions(ms, ts);
  }

  lemma NormalWithAny(ts: set<ValueType>)
    requires Any in Normal(ts)
    ensures Any in ts && (Nil in Normal(ts) <==> Nil in ts) && Boolean(None) !in Normal(ts)
  {
    hide InnersSet;
  }

  lemma AnyUnions(ts: seq<ValueType>, us: seq<ValueType>)
    requires Any in Flatten(ts) && Any in Flatten(us) && (Nil in Flatten(ts) <==> Nil in Flatten(us))
    ensures UnionOf(ts) == UnionOf(us)
  {
  }

  /** A union of one type is that type. */
  lemma UnionIsNoSingleton(ts: seq<ValueType>)
    requires Flat(ts)
    ensures UnionOf(ts).Union? ==> |UnionOf(ts).members| != 1
  {
    var deduped := Dedup(Flatten(ts));
    if Any in deduped && Nil in deduped {
      NoSingleton([Any, Nil]);
    } else if Any !in deduped {
      NoSingleton(deduped);
    }
  }

  lemma NoSingleton(list: seq<ValueType>)
    requires NoDuplicates(list) && forall m :: m in list ==> !m.Union?
    ensures var u := FromMembers(MergeSecrets(Collapse(list))); u.Union? ==> |u.members| != 1
  {
    CollapseAsSet(list);
    CollapseNoDuplicates(list);
    MergeSecretsAsSet(Collapse(list));
    var result := MergeSecrets(Collapse(list));
    if |result| == 1 {
      assert result[0] in ToSet(result);
    }
  }

  /** One type comes out exactly if it is the whole normal form: never as a union of one member. */
  lemma UnionOfOneType(ts: seq<ValueType>, m: ValueType)
    requires Flat(ts) && !m.Union?
    ensures UnionOf(ts) == m <==> Normal(ToSet(Flatten(ts))) == {m}
  {
    hide UnionOf, Normal, Flatten;
    var u := UnionOf(ts);
    MembersAreNormal(ts);
    UnionIsNoSingleton(ts);
    if ToSet(Members(u)) == {m} {
      NoDuplicatesSize(Members(u));
      assert Members(u)[0] in ToSet(Members(u));
    }
    if u == m {
      assert Members(u) == [m];
    }
  }

  // ---- which lists that is

  lemma KeepLast(ts: seq<ValueType>, p: ValueType -> bool)
    requires BooleanLast(ts) && p(Boolean(None))
    ensures BooleanLast(Keep(ts, p))
  {
  }

  lemma CollapseLeavesLast(ts: seq<ValueType>)
    ensures BooleanLast(Collapse(ts))
  {
    var b := MergeBooleans(ts);
    assert BooleanLast(b);
    KeepLast(b, NotText);
    var s := Absorb(b, String(None), NotText);
    KeepLast(s, NotClassTable);
    KeepLast(Absorb(s, Table(None), NotClassTable), NotNumeral);
  }

  lemma MergedIsLast(c: seq<ValueType>)
    requires NoDuplicates(c) && BooleanLast(c) && Inners(c) != []
    ensures BooleanLast(MergeSecrets(c)) <==>
            Boolean(None) !in c || Boolean(None) in Collapse(Inners(c)) || |Collapse(Inners(c))| == |Inners(c)|
  {
    var before := Inners(c);
    var inners, r := Collapse(before), MergeSecrets(c);
    InnersNoDuplicates(c);
    CollapseNotEmpty(before);
    assert Boolean(None) in r <==> Boolean(None) in c && Boolean(None) !in inners;
    if |inners| == |before| && Boolean(None) in r {
      KeepLast(c, DropTwinsTest(inners));
    } else if |inners| != |before| {
      SecretsLast(c, inners);
    }
  }

  lemma CollapseNotEmpty(ts: seq<ValueType>)
    requires ts != []
    ensures Collapse(ts) != []
  {
    CollapseContains(ts, Carrier(ToSet(ts), ts[0]));
  }

  lemma SecretsLast(c: seq<ValueType>, inners: seq<ValueType>)
    requires inners == Collapse(Inners(c)) && inners != [] && Inners(c) != [] && |inners| != |Inners(c)|
    ensures MergeSecrets(c) != [] && MergeSecrets(c)[|MergeSecrets(c)| - 1].Secret?
  {
    hide Collapse, Inners, DropTwins, Keep;
  }

  lemma ShortensIff(ts: seq<ValueType>)
    requires NoDuplicates(ts)
    ensures |Collapse(ts)| == |ts| <==> Collapsed(ToSet(ts))
  {
    CollapseAsSet(ts);
    if |Collapse(ts)| == |ts| {
      UnshortenedCollapse(ts);
      CollapseSetCollapses(ToSet(ts));
    } else if Collapsed(ToSet(ts)) {
      CollapsedAgain(ts);
    }
  }

  // ---- which arguments that takes

  /** `boolean` comes out, plain, and a secret literal stands beside its secret generic type. */
  ghost predicate Unsettled(ts: set<ValueType>) {
    && Any !in ts
    && Absorbed(ts, Boolean(None)) && !Absorbed(InnersSet(ts), Boolean(None))
    && !Collapsed(InnersSet(ts))
  }

  lemma ListIsLast(list: seq<ValueType>)
    requires NoDuplicates(list) && Any !in list && forall m :: m in list ==> !m.Union?
    ensures BooleanLast(Members(FromMembers(MergeSecrets(Collapse(list))))) <==> !Unsettled(ToSet(list))
  {
    hide Collapse, MergeSecrets, Inners, BooleanLast;
    var c := Collapse(list);
    var before := Inners(c);
    CollapseContains(list, Boolean(None));
    CollapseAsSet(list);
    CollapseNoDuplicates(list);
    CollapseLeavesLast(list);
    InnersAsSet(c);
    CollapsedInners(ToSet(list));
    ListIsNormal(list);
    MergedMembers(c);
    if before == [] {
      NothingMerged(c);
      assert InnersSet(ToSet(list)) == {};
    } else {
      MergedIsLast(c);
      InnersNoDuplicates(c);
      ShortensIff(before);
      CollapseContains(before, Boolean(None));
    }
  }

  lemma CollapsedInners(ts: set<ValueType>)
    ensures InnersSet(CollapseSet(ts)) == InnersSet(ts)
  {
    forall t ensures t in InnersSet(CollapseSet(ts)) <==> t in InnersSet(ts) {
      assert Secret(t) in CollapseSet(ts) <==> Secret(t) in ts;
    }
  }

  lemma NothingMerged(c: seq<ValueType>)
    requires Inners(c) == []
    ensures MergeSecrets(c) == c
  {
  }

  lemma MergedMembers(c: seq<ValueType>)
    requires forall m :: m in MergeSecrets(c) ==> !m.Union?
    ensures Members(FromMembers(MergeSecrets(c))) == MergeSecrets(c)
  {
    var r := MergeSecrets(c);
    if |r| == 1 {
      assert r == [r[0]] && r[0] in r;
    }
  }

  /** `make_union` gives back its own result as a list unless `boolean` comes out plain while secret
      members collapse: these are put behind it, and the second pass moves it to the end. */
  lemma StableIff(ts: seq<ValueType>)
    requires Flat(ts)
    ensures UnionOf(Members(UnionOf(ts))) == UnionOf(ts) <==> !Unsettled(ToSet(Flatten(ts)))
  {
    hide BooleanLast, UnionOf, Flatten, Unsettled;
    StableIfLast(ts);
    if Any in Flatten(ts) {
      MembersAreNormal(ts);
      SettledByAny(ts, UnionOf(ts));
    } else {
      UnionOfList(ts);
      ListIsLast(Dedup(Flatten(ts)));
    }
  }

  lemma UnionOfList(ts: seq<ValueType>)
    requires Any !in Flatten(ts)
    ensures UnionOf(ts) == FromMembers(MergeSecrets(Collapse(Dedup(Flatten(ts)))))
    ensures ToSet(Dedup(Flatten(ts))) == ToSet(Flatten(ts))
  {
  }

  lemma SettledByAny(ts: seq<ValueType>, u: ValueType)
    requires Any in Flatten(ts) && ToSet(Members(u)) == Normal(ToSet(Flatten(ts)))
    ensures BooleanLast(Members(u)) && !Unsettled(ToSet(Flatten(ts)))
  {
    hide BooleanLast, Flatten, Members;
    assert Any in ToSet(Flatten(ts));
    NormalWithAny(ToSet(Flatten(ts)));
    assert Boolean(None) in Members(u) <==> Boolean(None) in ToSet(Members(u));
    NotAMember(Members(u));
  }

  lemma NotAMember(ms: seq<ValueType>)
    requires Boolean(None) !in ms
    ensures BooleanLast(ms)
  {
  }

  /** Without secrets, normalisation is stable as a list. */
  lemma SecretFreeIsStable(ts: seq<ValueType>)
    requires Flat(ts) && forall t :: t in Flatten(ts) ==> !t.Secret?
    ensures UnionOf(Members(UnionOf(ts))) == UnionOf(ts)
  {
    StableIff(ts);
    assert InnersSet(ToSet(Flatten(ts))) == {};
  }

  /** With secrets it need not be: `boolean | secret<"a"> | secret<string>` is unsettled, whatever the text. */
  lemma SecretsUnsettle(ts: seq<ValueType>, text: string)
    requires forall t :: t in ts <==>
               t == Boolean(None) || t == Secret(String(Some(text))) || t == Secret(String(None))
    ensures UnionOf(Members(UnionOf(ts))) != UnionOf(ts)
  {
    FlattenOfNonUnions(ts);
    StableIff(ts);
    TextsUnsettle(ToSet(ts), text);
  }

  lemma TextsUnsettle(ts: set<ValueType>, text: string)
    requires forall t :: t in ts <==>
               t == Boolean(None) || t == Secret(String(Some(text))) || t == Secret(String(None))
    ensures Unsettled(ts)
  {
    assert Secret(String(Some(text))) in ts && Secret(String(None)) in ts && Boolean(None) in ts;
    assert Absorbed(InnersSet(ts), String(Some(text))) && String(Some(text)) in InnersSet(ts);
  }
}
