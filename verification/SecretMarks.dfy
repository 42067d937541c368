/** Which members of a union the mark of a secret reaches: those that stand for it. */
module SecretMarks {
  import opened Wrappers
  import opened Sequences
  import opened ValueTypes
  import opened Unions
  import opened UnionLaws
  import opened UnionStability
  import opened Secrecy
  import opened SecretGuards
  import opened Assignability

  // ---- one member

  /** What can be marked: booleans, numbers and strings, and what may turn out to be one of them. */
  lemma WrappableIff(t: ValueType)
    ensures Wrappable(t) <==>
            t.TypeVariable? || t.OpaqueAlias? ||
            FamilyOf(t) in {Some(BooleanFamily), Some(NumberFamily), Some(StringFamily)}
  {
  }

  /** A secret of a type reaches a scalar member exactly if their union is that member alone: the same type, or a
      literal that normalisation merges into it. */
  lemma ReachesIff(s: ValueType, m: ValueType)
    requires Wrappable(m) && !s.Union?
    ensures Reaches(s, m) <==> UnionOf([s, m]) == m
  {
    hide UnionOf, Normal, Reaches;
    var list := [s, m];
    FlattenOfNonUnions(list);
    UnionOfOneType(list, m);
    assert ToSet(list) == {s, m};
    PairIsOne(s, m);
  }

  lemma PairIsOne(s: ValueType, m: ValueType)
    requires Wrappable(m) && !s.Union?
    ensures Normal({s, m}) == {m} <==> Reaches(s, m)
  {
    var ts := {s, m};
    if Reaches(s, m) {
      assert CollapseSet(ts) == {m};
      assert InnersSet({m}) == {};
      assert CollapseSet({}) == {};
      assert MergeSecretsSet({m}) == {m};
    } else if Any in ts {
      assert Any in Normal(ts);
    } else {
      PairStays(s, m, ts);
    }
  }

  lemma PairStays(s: ValueType, m: ValueType, ts: set<ValueType>)
    requires Wrappable(m) && !s.Union? && !Reaches(s, m) && ts == {s, m} && Any !in ts
    ensures Normal(ts) != {m}
  {
    hide MergeSecretsSet;
    var plain := CollapseSet(ts);
    if s.Secret? {
      assert s in plain;
      var c := Carrier(InnersSet(plain), s.inner);
      assert s.inner in InnersSet(plain);
      SecretStays(plain, c);
      assert Secret(c) in Normal(ts) && Secret(c) != m;
    } else {
      forall t | t in plain ensures !t.Secret? {
      }
      NoSecretsMerge(plain);
      if !Absorbed(ts, s) {
        assert s in plain && s != m;
      } else {
        assert Generic(s) in plain && Generic(s) != m;
      }
    }
  }

  lemma SecretStays(plain: set<ValueType>, c: ValueType)
    requires c in CollapseSet(InnersSet(plain))
    ensures Secret(c) in MergeSecretsSet(plain)
  {
  }

  lemma NoSecretsMerge(plain: set<ValueType>)
    requires forall t :: t in plain ==> !t.Secret?
    ensures MergeSecretsSet(plain) == plain
  {
    assert InnersSet(plain) == {};
    assert CollapseSet({}) == {};
  }

  // ---- the members of a union

  lemma MarkedMember(env: Env, t: ValueType, secrets: seq<ValueType>, m: ValueType, v: Value)
    requires NormalType(t) && m in Members(t) && Wrappable(m) && Reachable(secrets, m) && HasBase(env, m, v)
    ensures Has(env, WithSecretMembers(t, secrets), v)
  {
    hide Reachable, NormalType, WithSecretMembers;
    MarkingIsExact(env, t, secrets, v);
  }

  lemma CarrierIsReached(secrets: seq<ValueType>, ts: set<ValueType>, m: ValueType)
    requires Wrappable(m) && Reachable(secrets, m)
    ensures var c := Carrier(ts, m); Wrappable(c) && Reachable(secrets, c)
  {
    var c := Carrier(ts, m);
    var i :| 0 <= i < |secrets| && (Reaches(secrets[i], m) || Reaches(StripOpaque(secrets[i]), m));
    assert Reaches(secrets[i], c) || Reaches(StripOpaque(secrets[i]), c);
  }

  lemma CarrierHas(env: Env, ts: set<ValueType>, m: ValueType, v: Value)
    requires Wrappable(m) && HasBase(env, m, v)
    ensures HasBase(env, Carrier(ts, m), v)
  {
  }

  /** A union of which an argument can be a secret has that secret once it is marked, whatever normalisation
      makes of the argument. */
  lemma MarkCarries(env: Env, ts: seq<ValueType>, secrets: seq<ValueType>, m: ValueType, v: Value)
    requires Flat(ts) && m in Flatten(ts) && Wrappable(m) && Reachable(secrets, m) && HasBase(env, m, v) && v.secret
    ensures Has(env, WithSecretMembers(UnionOf(ts), secrets), v)
  {
    hide UnionOf, Reachable, Normal, WithSecretMembers, Has;
    var flat, t := ToSet(Flatten(ts)), UnionOf(ts);
    MembersAreNormal(ts);
    UnionIsNormal(ts);
    if Any in flat {
      assert Any in Members(t) by { assert Any in Normal(flat) by { AnyIsNormal(flat); } }
      MemberMarked(env, t, secrets, Any, v);
    } else {
      var c := Carrier(flat, m);
      CarrierIsReached(secrets, flat, m);
      CarrierHas(env, flat, m, v);
      if c in Normal(flat) {
        assert c in Members(t);
        MarkedMember(env, t, secrets, c, v);
      } else {
        CarrierIsSecret(flat, c);
        assert Secret(c) in Members(t);
        MemberMarked(env, t, secrets, Secret(c), v);
      }
    }
  }

  lemma AnyIsNormal(flat: set<ValueType>)
    requires Any in flat
    ensures Any in Normal(flat)
  {
  }

  lemma CarrierIsSecret(flat: set<ValueType>, c: ValueType)
    requires Any !in flat && c in CollapseSet(flat) && !c.Secret? && c !in Normal(flat)
    ensures Secret(c) in Normal(flat)
  {
    hide CollapseSet, InnersSet;
  }

  lemma MemberMarked(env: Env, t: ValueType, secrets: seq<ValueType>, m: ValueType, v: Value)
    requires NormalType(t) && m in Members(t) && (m.Any? || (m.Secret? && HasBase(env, m.inner, v)))
    ensures Has(env, WithSecretMembers(t, secrets), v)
  {
    hide NormalType, WithSecretMembers;
    assert Has(env, m, v);
    HasMembers(env, t, v);
    MarkingKeepsValues(env, t, secrets, v);
  }

  lemma {:induction false} StrippedHas(env: Env, s: ValueType, v: Value)
    ensures HasBase(env, s, v) <==> HasBase(env, StripOpaque(s), v)
    decreases s
  {
    match s
    case Secret(inner) => StrippedHas(env, inner, v);
    case OpaqueAlias(_, inner) => StrippedHas(env, inner, v);
    case _ =>
  }

  /** No secret is lost: a scalar argument of a union that is the type of a secret, or what its type is an alias of,
      makes the marked union have that secret. */
  lemma SecretsAreMarked(env: Env, ts: seq<ValueType>, secrets: seq<ValueType>, s: ValueType, m: ValueType, v: Value)
    requires Flat(ts) && s in secrets && m in Flatten(ts) && (m == s || m == StripOpaque(s)) && Wrappable(m)
    requires Has(env, s, v)
    ensures Has(env, WithSecretMembers(UnionOf(ts), secrets), v.(secret := true))
  {
    hide UnionOf, WithSecretMembers, Has, StripOpaque;
    var marked := v.(secret := true);
    assert marked == v || marked == Flipped(v);
    assert Flipped(Flipped(v)) == v;
    assert HasBase(env, s, marked);
    StrippedHas(env, s, marked);
    ReachesItself(secrets, s, m);
    MarkCarries(env, ts, secrets, m, marked);
  }

  lemma ReachesItself(secrets: seq<ValueType>, s: ValueType, m: ValueType)
    requires s in secrets && (m == s || m == StripOpaque(s))
    ensures Reachable(secrets, m)
  {
    var i :| 0 <= i < |secrets| && secrets[i] == s;
    assert Reaches(secrets[i], m) || Reaches(StripOpaque(secrets[i]), m);
  }

  // ---- taking the marks off

  ghost predicate NoneSecret(ts: seq<ValueType>) {
    forall t :: t in ts ==> !HasSecret(t)
  }

  lemma {:induction false} FlattenedNotSecret(ts: seq<ValueType>)
    requires NoneSecret(ts)
    ensures NoneSecret(Flatten(ts))
    decreases |ts|
  {
    if ts != [] {
      var n := |ts| - 1;
      var last := ts[n];
      FlattenedNotSecret(ts[..n]);
      assert last in ts;
      forall m | m in Members(last) ensures !HasSecret(m) {
        if last.Union? {
          var i :| 0 <= i < |last.members| && last.members[i] == m;
        }
      }
    }
  }

  lemma UnionIsNotSecret(ts: seq<ValueType>)
    requires NoneSecret(ts)
    ensures !HasSecret(UnionOf(ts))
  {
    hide Collapse, MergeSecrets;
    FlattenedNotSecret(ts);
    var deduped := Dedup(Flatten(ts));
    var list := if Any in deduped then [Any, Nil] else deduped;
    CollapsedNotSecret(list);
  }

  lemma CollapsedNotSecret(list: seq<ValueType>)
    requires NoneSecret(list)
    ensures !HasSecret(FromMembers(MergeSecrets(Collapse(list))))
  {
    hide Collapse;
    var collapsed := Collapse(list);
    forall t | t in collapsed ensures !HasSecret(t) {
      CollapseContains(list, t);
    }
    assert NoneSecret(collapsed);
    forall u ensures Secret(u) !in collapsed {
      assert HasSecret(Secret(u));
    }
    NoElements(Inners(collapsed));
    assert forall i :: 0 <= i < |collapsed| ==> collapsed[i] in collapsed;
  }

  lemma NoElements<T>(s: seq<T>)
    ensures (forall x :: x !in s) ==> s == []
  {
    if s != [] {
      assert s[0] in s;
    }
  }

  /** Taking the marks off a type leaves none, however secrets and unions are nested in it. */
  lemma {:induction false} StripLeavesNoSecret(t: ValueType)
    ensures !HasSecret(StripSecret(t))
    decreases t
  {
    match t
    case Secret(inner) => StripLeavesNoSecret(inner);
    case Union(members) =>
      if HasSecret(t) {
        var stripped := seq(|members|, i requires 0 <= i < |members| => StripSecret(members[i]));
        forall i | 0 <= i < |members| ensures !HasSecret(stripped[i]) {
          StripLeavesNoSecret(members[i]);
        }
        UnionIsNotSecret(stripped);
      }
    case _ =>
  }
}
