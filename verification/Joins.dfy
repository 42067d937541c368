/** Unions as least upper bounds of assignability, and where assignability falls short of an order. */
module Joins {
  import opened Wrappers
  import opened Sequences
  import opened ValueTypes
  import opened Unions
  import opened UnionLaws
  import opened UnionStability
  import opened UnionGrouping
  import opened Assignability

  ghost predicate PlainSet(ts: set<ValueType>) {
    forall t :: t in ts ==> Plain(t)
  }

  ghost predicate SetFlows(ts: set<ValueType>, expected: ValueType) {
    forall t :: t in ts ==> IsAssignable(t, expected)
  }

  // ---- a member of a list has a member of the union above it

  function Peel(t: ValueType): ValueType {
    if t.Secret? then t.inner else t
  }

  predicate CoversBare(n: ValueType, m: ValueType) {
    || n == m
    || (n.Any? && !m.Nil?)
    || (n == Boolean(None) && m.Boolean?)
    || (n == String(None) && m.String?)
    || (n == Table(None) && m.Table?)
    || (n == Number && m.NumberLiteral?)
  }

  /** `n` is `m` or what normalisation may have made of `m`. */
  predicate Covers(n: ValueType, m: ValueType) {
    CoversBare(Peel(n), Peel(m))
  }

  ghost predicate CoveredIn(ts: set<ValueType>, m: ValueType) {
    exists n :: n in ts && Covers(n, m)
  }

  lemma CarrierCovers(ts: set<ValueType>, m: ValueType)
    ensures CoversBare(Carrier(ts, m), m) && (Carrier(ts, m) == m || !Carrier(ts, m).Secret?)
  {
  }

  lemma NormalCovers(ts: set<ValueType>, m: ValueType)
    requires m in ts && (Any in ts ==> m != Secret(Nil))
    ensures CoveredIn(Normal(ts), m)
  {
    if Any in ts {
      var n := if m.Nil? then Nil else Any;
      assert n in Normal(ts) && Covers(n, m);
    } else {
      var plain := CollapseSet(ts);
      var inners := CollapseSet(InnersSet(plain));
      if m.Secret? {
        assert m in plain;
        assert m.inner in InnersSet(plain);
        var g := Carrier(InnersSet(plain), m.inner);
        CarrierCovers(InnersSet(plain), m.inner);
        assert Secret(g) in Normal(ts) && Covers(Secret(g), m);
      } else {
        var g := Carrier(ts, m);
        CarrierCovers(ts, m);
        var n := if g in inners then Secret(g) else g;
        assert n in Normal(ts) && Covers(n, m);
      }
    }
  }

  lemma CoverFlows(n: ValueType, m: ValueType)
    requires Plain(n) && Plain(m) && Covers(n, m)
    ensures IsAssignable(m, n)
  {
    assert IsAssignable(Peel(m), Peel(n));
    if n.Secret? {
      SecretExpected(Peel(m), n.inner);
    }
    if m.Secret? {
      SecretActual(m.inner, n);
    }
  }

  lemma CoveredFlows(u: ValueType, m: ValueType)
    requires PlainSet(ToSet(Members(u))) && Plain(m) && CoveredIn(ToSet(Members(u)), m)
    ensures IsAssignable(m, u)
  {
    var n :| n in ToSet(Members(u)) && Covers(n, m);
    CoverFlows(n, m);
    if u.Union? && !m.Any? {
      FlowIntoUnion(m, u.members);
      var i :| 0 <= i < |u.members| && u.members[i] == n;
    }
  }

  // ---- what flows out of a normalised union

  lemma BooleanIntoOpen(t: ValueType)
    requires t.Any? || t.TypeVariable?
    ensures IsAssignable(Boolean(None), t)
  {
  }

  lemma BooleanIntoAlias(lit: Option<bool>, t: ValueType)
    requires t.OpaqueAlias?
    ensures IsAssignable(Boolean(lit), t) <==> IsAssignable(Boolean(lit), t.inner)
  {
  }

  lemma {:induction false} BooleanWidens(b: bool, expected: ValueType)
    requires IsAssignable(Boolean(Some(b)), expected)
    ensures IsAssignable(Boolean(None), expected)
    decreases expected
  {
    hide IsAssignable;
    match expected
    case Secret(inner) =>
      SecretExpected(Boolean(Some(b)), inner);
      SecretExpected(Boolean(None), inner);
      BooleanWidens(b, inner);
    case OpaqueAlias(_, inner) =>
      BooleanIntoAlias(Some(b), expected);
      BooleanIntoAlias(None, expected);
      BooleanWidens(b, inner);
    case Union(members) =>
      FlowIntoUnion(Boolean(Some(b)), members);
      FlowIntoUnion(Boolean(None), members);
      var i :| 0 <= i < |members| && IsAssignable(Boolean(Some(b)), members[i]);
      BooleanWidens(b, members[i]);
    case Intersection(parts) =>
      FlowIntoIntersection(Boolean(Some(b)), parts);
      FlowIntoIntersection(Boolean(None), parts);
      forall i | 0 <= i < |parts| ensures IsAssignable(Boolean(None), parts[i]) {
        BooleanWidens(b, parts[i]);
      }
    case Any => BooleanIntoOpen(expected);
    case TypeVariable(_) => BooleanIntoOpen(expected);
    case _ =>
      BasicFlow(Boolean(Some(b)), expected);
      BasicFlow(Boolean(None), expected);
  }

  /** The only type normalisation makes up is `boolean`, out of its two literals. */
  lemma NormalInvents(ts: set<ValueType>, n: ValueType)
    requires n in Normal(ts) && n !in ts
    ensures Peel(n) == Boolean(None)
    ensures forall b :: LikePeeled(n, Boolean(Some(b))) in ts
  {
    forall b ensures LikePeeled(n, Boolean(Some(b))) in ts {
      if n.Secret? {
        assert Boolean(Some(b)) in InnersSet(CollapseSet(ts));
      }
    }
  }

  /** `t` in place of what `n` is, or wraps. */
  function LikePeeled(n: ValueType, t: ValueType): ValueType {
    if n.Secret? then Secret(t) else t
  }

  lemma NormalFlows(ts: set<ValueType>, expected: ValueType)
    requires SetFlows(ts, expected)
    ensures SetFlows(Normal(ts), expected)
  {
    forall n | n in Normal(ts) ensures IsAssignable(n, expected) {
      if n !in ts {
        NormalInvents(ts, n);
        BooleanFlows(n, expected);
      }
    }
  }

  lemma BooleanFlows(n: ValueType, expected: ValueType)
    requires Peel(n) == Boolean(None)
    requires IsAssignable(if n.Secret? then Secret(Boolean(Some(true))) else Boolean(Some(true)), expected)
    ensures IsAssignable(n, expected)
  {
    if n.Secret? {
      SecretActual(Boolean(Some(true)), expected);
      SecretActual(Boolean(None), expected);
    }
    BooleanWidens(true, expected);
  }

  lemma NormalIsPlain(ts: set<ValueType>)
    requires PlainSet(ts)
    ensures PlainSet(Normal(ts))
  {
  }

  ghost predicate PlainArguments(ts: seq<ValueType>) {
    PlainSet(ToSet(Flatten(ts)))
  }

  lemma UnionIsPlain(ts: seq<ValueType>)
    requires PlainArguments(ts)
    ensures Flat(ts)
    ensures ToSet(Members(UnionOf(ts))) == Normal(ToSet(Flatten(ts))) && PlainSet(ToSet(Members(UnionOf(ts))))
  {
    assert Flat(ts) by {
      forall t | t in Flatten(ts) ensures !t.Union? {
        assert t in ToSet(Flatten(ts));
      }
    }
    MembersAreNormal(ts);
    NormalIsPlain(ToSet(Flatten(ts)));
  }

  lemma MembersFlow(u: ValueType, expected: ValueType)
    requires PlainSet(ToSet(Members(u)))
    ensures IsAssignable(u, expected) <==> SetFlows(ToSet(Members(u)), expected)
  {
    if u.Union? {
      assert forall i :: 0 <= i < |u.members| ==> u.members[i] in ToSet(u.members);
      FlowOutOfUnion(u.members, expected);
    } else {
      assert u in ToSet(Members(u));
    }
  }

  /** A normalised union flows exactly where every member of the normal form does. */
  lemma UnionFlowsWithNormal(ts: seq<ValueType>, expected: ValueType)
    requires PlainArguments(ts)
    ensures IsAssignable(UnionOf(ts), expected) <==> SetFlows(Normal(ToSet(Flatten(ts))), expected)
  {
    UnionIsPlain(ts);
    MembersFlow(UnionOf(ts), expected);
  }

  lemma FlattenedIsUpper(ts: seq<ValueType>, m: ValueType)
    requires PlainArguments(ts) && m in Flatten(ts)
    ensures IsAssignable(m, UnionOf(ts))
  {
    UnionIsPlain(ts);
    NormalCovers(ToSet(Flatten(ts)), m);
    CoveredFlows(UnionOf(ts), m);
  }

  lemma FlattenedIsLeast(ts: seq<ValueType>, expected: ValueType)
    requires PlainArguments(ts) && SetFlows(ToSet(Flatten(ts)), expected)
    ensures IsAssignable(UnionOf(ts), expected)
  {
    UnionFlowsWithNormal(ts, expected);
    NormalFlows(ToSet(Flatten(ts)), expected);
  }

  lemma {:induction false} FlattenContains(ts: seq<ValueType>)
    ensures forall m :: m in Flatten(ts) <==> exists i :: 0 <= i < |ts| && m in Members(ts[i])
    decreases |ts|
  {
    if ts != [] {
      var n := |ts| - 1;
      FlattenContains(ts[..n]);
      forall m | exists i :: 0 <= i < |ts| && m in Members(ts[i]) ensures m in Flatten(ts) {
        var i :| 0 <= i < |ts| && m in Members(ts[i]);
        if i < n {
          assert m in Members(ts[..n][i]);
        }
      }
    }
  }

  /** Every argument flows into the union, and the union flows wherever all its arguments do. */
  lemma UnionIsJoin(ts: seq<ValueType>, expected: ValueType)
    requires PlainArguments(ts)
    ensures forall i :: 0 <= i < |ts| ==> IsAssignable(ts[i], UnionOf(ts))
    ensures AllFlow(ts, expected) ==> IsAssignable(UnionOf(ts), expected)
  {
    FlattenContains(ts);
    forall i | 0 <= i < |ts|
      ensures IsAssignable(ts[i], UnionOf(ts))
      ensures IsAssignable(ts[i], expected) <==> SetFlows(ToSet(Members(ts[i])), expected)
    {
      assert forall m :: m in ToSet(Members(ts[i])) ==> m in ToSet(Flatten(ts));
      MembersFlow(ts[i], expected);
      MembersFlow(ts[i], UnionOf(ts));
      forall m | m in ToSet(Members(ts[i])) ensures IsAssignable(m, UnionOf(ts)) {
        FlattenedIsUpper(ts, m);
      }
    }
    if AllFlow(ts, expected) {
      forall m | m in ToSet(Flatten(ts)) ensures IsAssignable(m, expected) {
        var i :| 0 <= i < |ts| && m in Members(ts[i]);
        assert m in ToSet(Members(ts[i]));
      }
      FlattenedIsLeast(ts, expected);
    }
  }

  // ---- order and grouping

  ghost predicate Interchangeable(t: ValueType, u: ValueType) {
    IsAssignable(t, u) && IsAssignable(u, t)
  }

  /** A union of some of the members flows into the union of all: the larger list absorbs the smaller. */
  lemma UnionIsMonotone(ts: seq<ValueType>, us: seq<ValueType>)
    requires PlainArguments(ts) && PlainArguments(us) && ToSet(Flatten(ts)) <= ToSet(Flatten(us))
    ensures IsAssignable(UnionOf(ts), UnionOf(us))
  {
    forall m | m in ToSet(Flatten(ts)) ensures IsAssignable(m, UnionOf(us)) {
      assert m in ToSet(Flatten(us));
      FlattenedIsUpper(us, m);
    }
    FlattenedIsLeast(ts, UnionOf(us));
  }

  /** The order of the arguments is no part of a union's identity. */
  lemma UnionIsCommutative(ts: seq<ValueType>, us: seq<ValueType>)
    requires PlainArguments(ts) && PlainArguments(us)
    ensures Interchangeable(UnionOf(ts + us), UnionOf(us + ts))
  {
    FlattenAppend(ts, us);
    FlattenAppend(us, ts);
    UnionIsMonotone(ts + us, us + ts);
    UnionIsMonotone(us + ts, ts + us);
  }

  /** Nor is their grouping. */
  lemma UnionIsAssociative(ts: seq<ValueType>, us: seq<ValueType>)
    requires PlainArguments(ts) && PlainArguments(us)
    ensures Interchangeable(UnionOf([UnionOf(ts)] + us), UnionOf(ts + us))
  {
    var grouped := [UnionOf(ts)] + us;
    UnionIsPlain(ts);
    FlattenAppend(ts, us);
    FlattenAppend([UnionOf(ts)], us);
    FlattenOne(UnionOf(ts));
    forall m | m in ToSet(Flatten(ts + us)) ensures IsAssignable(m, UnionOf(grouped)) {
      if m in Flatten(ts) {
        CoveredTwice(ts, grouped, m);
      } else {
        FlattenedIsUpper(grouped, m);
      }
    }
    FlattenedIsLeast(ts + us, UnionOf(grouped));
    GroupedFlows(ts, us);
  }

  lemma CoveredTwice(ts: seq<ValueType>, grouped: seq<ValueType>, m: ValueType)
    requires PlainArguments(ts) && PlainArguments(grouped) && m in Flatten(ts)
    requires forall n :: n in Members(UnionOf(ts)) ==> n in Flatten(grouped)
    ensures IsAssignable(m, UnionOf(grouped))
  {
    UnionIsPlain(ts);
    UnionIsPlain(grouped);
    assert ToSet(Members(UnionOf(ts))) <= ToSet(Flatten(grouped));
    NormalCoversOnward(ToSet(Flatten(ts)), ToSet(Flatten(grouped)), m);
    CoveredFlows(UnionOf(grouped), m);
  }

  lemma NormalCoversOnward(ts: set<ValueType>, us: set<ValueType>, m: ValueType)
    requires PlainSet(ts) && PlainSet(us) && m in ts && Normal(ts) <= us
    ensures CoveredIn(Normal(us), m)
  {
    hide Normal, Plain;
    assert forall n :: n in ts || n in us ==> n != Secret(Nil) by {
      PlainHasNoSecretNil(ts);
      PlainHasNoSecretNil(us);
    }
    NormalCovers(ts, m);
    var n :| n in Normal(ts) && Covers(n, m);
    NormalCovers(us, n);
    var k :| k in Normal(us) && Covers(k, n);
    CoversOnward(k, n, m);
  }

  lemma PlainHasNoSecretNil(ts: set<ValueType>)
    requires PlainSet(ts)
    ensures Secret(Nil) !in ts
  {
  }

  lemma CoversOnward(k: ValueType, n: ValueType, m: ValueType)
    requires Covers(k, n) && Covers(n, m)
    ensures Covers(k, m)
  {
  }

  lemma GroupedFlows(ts: seq<ValueType>, us: seq<ValueType>)
    requires PlainArguments(ts) && PlainArguments(us) && PlainArguments(ts + us)
    requires PlainArguments([UnionOf(ts)] + us)
    ensures IsAssignable(UnionOf([UnionOf(ts)] + us), UnionOf(ts + us))
  {
    FlattenAppend(ts, us);
    FlattenAppend([UnionOf(ts)], us);
    FlattenOne(UnionOf(ts));
    forall m | m in Flatten(ts + us) ensures IsAssignable(m, UnionOf(ts + us)) {
      FlattenedIsUpper(ts + us, m);
    }
    FlattenedIsLeast(ts, UnionOf(ts + us));
    UnionIsPlain(ts);
    MembersFlow(UnionOf(ts), UnionOf(ts + us));
    FlattenedIsLeast([UnionOf(ts)] + us, UnionOf(ts + us));
  }

  // ---- where it is not an order

  /** Literals meet in their generic type, so assignability is not transitive. */
  lemma NotTransitive()
    ensures IsAssignable(String(Some("a")), String(None)) && IsAssignable(String(None), String(Some("b")))
    ensures !IsAssignable(String(Some("a")), String(Some("b")))
  {
  }

  /** So a union may flow where one of its arguments does not: `boolean` flows into `true`, `false` does
      not, and `boolean` is what the two literals normalise to. */
  lemma LiteralsMeet()
    ensures IsAssignable(Boolean(None), Boolean(Some(true))) && !IsAssignable(Boolean(Some(false)), Boolean(Some(true)))
    ensures Normal({Boolean(Some(true)), Boolean(Some(false))}) == {Boolean(None)}
  {
    BothBooleans({Boolean(Some(true)), Boolean(Some(false))});
  }

  lemma BothBooleans(ts: set<ValueType>)
    requires forall m :: m in ts <==> m == Boolean(Some(true)) || m == Boolean(Some(false))
    ensures Normal(ts) == {Boolean(None)}
  {
    assert CollapseSet(ts) == {Boolean(None)};
    assert InnersSet(CollapseSet(ts)) == {} && CollapseSet({}) == {};
  }

  ghost predicate FlowsFromSome(parts: seq<ValueType>, expected: ValueType) {
    exists i :: 0 <= i < |parts| && IsAssignable(parts[i], expected)
  }

  /** An intersection given to `make_union` flows into the result exactly if one of its parts does, or if
      the result is not a union: only the parts are looked at, even when the union lists it. */
  lemma IntersectionFlowsIff(ts: seq<ValueType>, m: ValueType)
    requires Flat(ts) && m in Flatten(ts) && m.Intersection?
    ensures IsAssignable(m, UnionOf(ts)) <==> !UnionOf(ts).Union? || FlowsFromSome(m.parts, UnionOf(ts))
  {
    var u := UnionOf(ts);
    if u.Union? {
      FlowOutOfIntersection(m.parts, u);
    } else {
      MembersAreNormal(ts);
      IntersectionStays(ToSet(Flatten(ts)), m);
      OnlyMember(u);
      SecretExpected(m, m);
    }
  }

  lemma OnlyMember(u: ValueType)
    requires !u.Union?
    ensures forall n :: n in ToSet(Members(u)) ==> n == u
  {
  }

  lemma IntersectionStays(ts: set<ValueType>, m: ValueType)
    requires m in ts && m.Intersection?
    ensures Any in Normal(ts) || m in Normal(ts) || Secret(m) in Normal(ts)
  {
    if Any !in ts && m in CollapseSet(InnersSet(CollapseSet(ts))) {
      assert Secret(m) in Normal(ts);
    }
  }

  /** What normalisation makes of `m` takes whatever type without parts `m` takes. */
  lemma CoverTakes(p: ValueType, m: ValueType, n: ValueType)
    requires FamilyOf(p).Some? && !p.Nil? && IsAssignable(p, m) && Covers(n, m)
    ensures IsAssignable(p, n)
  {
    hide IsAssignable;
    if m.Secret? {
      SecretExpected(p, m.inner);
    }
    if n.Secret? {
      SecretExpected(p, n.inner);
    }
    if Peel(n).Any? {
      FlowBasics(p);
    } else if Peel(n) != Peel(m) {
      BasicFlow(p, Peel(m));
      BasicFlow(p, Peel(n));
    }
  }

  lemma TakerStays(ts: set<ValueType>, p: ValueType, k: ValueType) returns (n: ValueType)
    requires FamilyOf(p).Some? && !p.Nil? && k in ts && IsAssignable(p, k)
    ensures n in Normal(ts) && IsAssignable(p, n)
  {
    hide IsAssignable, Normal;
    NormalAny(ts);
    if Any in ts {
      n := Any;
      FlowBasics(p);
    } else {
      NormalCovers(ts, k);
      n :| n in Normal(ts) && Covers(n, k);
      CoverTakes(p, k, n);
    }
  }

  /** What takes `p` after normalisation was there, or is `boolean`, of which one literal takes `p`. */
  lemma NormalTakes(ts: set<ValueType>, p: ValueType, n: ValueType) returns (k: ValueType)
    requires FamilyOf(p).Some? && n in Normal(ts) && IsAssignable(p, n)
    ensures k in ts && IsAssignable(p, k)
  {
    hide IsAssignable, Normal;
    k := n;
    if n !in ts {
      NormalInvents(ts, n);
      if n.Secret? {
        SecretExpected(p, n.inner);
      }
      var b := BooleanTaker(p);
      SecretExpected(p, Boolean(Some(b)));
      k := LikePeeled(n, Boolean(Some(b)));
    }
  }

  lemma BooleanTaker(p: ValueType) returns (b: bool)
    requires FamilyOf(p).Some? && IsAssignable(p, Boolean(None))
    ensures IsAssignable(p, Boolean(Some(b)))
  {
    hide IsAssignable;
    BasicFlow(p, Boolean(None));
    assert p.Boolean?;
    b := p.lit.Some? && p.lit.value;
    BasicFlow(p, Boolean(Some(b)));
  }

  /** One of the arguments takes `p`; `nil` has to be listed, and not only as a secret. */
  ghost predicate TakenBySome(ts: set<ValueType>, p: ValueType) {
    if p.Nil? then Nil in ts && (Any in ts || Secret(Nil) !in ts) else exists k :: k in ts && IsAssignable(p, k)
  }

  /** A type without parts flows into a union exactly if it flows into one of the arguments. */
  lemma BasicIntoUnion(ts: seq<ValueType>, p: ValueType)
    requires Flat(ts) && FamilyOf(p).Some? && UnionOf(ts).Union?
    ensures IsAssignable(p, UnionOf(ts)) <==> TakenBySome(ToSet(Flatten(ts)), p)
  {
    hide IsAssignable, UnionOf, Normal, Flatten;
    var u, s := UnionOf(ts), ToSet(Flatten(ts));
    MembersAreNormal(ts);
    FlowIntoUnion(p, u.members);
    assert forall n :: n in u.members <==> n in ToSet(u.members);
    if p.Nil? {
      NilIsNormal(s);
    } else {
      if k :| k in s && IsAssignable(p, k) {
        var n := TakerStays(s, p, k);
        var i :| 0 <= i < |u.members| && u.members[i] == n;
      }
      if i :| 0 <= i < |u.members| && IsAssignable(p, u.members[i]) {
        var k := NormalTakes(s, p, u.members[i]);
      }
    }
  }

  lemma NilIsNormal(ts: set<ValueType>)
    ensures Nil in Normal(ts) <==> Nil in ts && (Any in ts || Secret(Nil) !in ts)
  {
    if Any !in ts {
      assert Nil in CollapseSet(InnersSet(CollapseSet(ts))) <==> Secret(Nil) in ts by {
        assert Nil in InnersSet(CollapseSet(ts)) <==> Secret(Nil) in CollapseSet(ts);
      }
    }
  }

  /** There is nothing but the type, plain or secret; or `any` without `nil`. */
  ghost predicate Alone(ts: set<ValueType>, m: ValueType) {
    (Any in ts && Nil !in ts) || (Any !in ts && forall t :: t in ts ==> t == m || t == Secret(m))
  }

  /** An intersection survives normalisation, and so does something of every other argument. */
  lemma AloneIff(ts: seq<ValueType>, m: ValueType)
    requires Flat(ts) && m in Flatten(ts) && m.Intersection?
    ensures UnionOf(ts).Union? <==> !Alone(ToSet(Flatten(ts)), m)
  {
    hide UnionOf, Normal, Flatten;
    var u, s := UnionOf(ts), ToSet(Flatten(ts));
    MembersAreNormal(ts);
    UnionIsNoSingleton(ts);
    IntersectionStays(s, m);
    if Alone(s, m) {
      AloneIsOne(s, m);
      OneIsNoUnion(u);
    } else if !u.Union? {
      OnlyMember(u);
      OthersStay(s, m, u);
    }
  }

  lemma OneIsNoUnion(u: ValueType)
    requires NoDuplicates(Members(u)) && |ToSet(Members(u))| == 1 && (u.Union? ==> |u.members| != 1)
    ensures !u.Union?
  {
    NoDuplicatesSize(Members(u));
  }

  lemma AloneIsOne(ts: set<ValueType>, m: ValueType)
    requires Alone(ts, m) && m in ts && m.Intersection?
    ensures |Normal(ts)| == 1
  {
    hide Normal;
    var x := if Any in ts then Any else if Secret(m) in ts then Secret(m) else m;
    forall t ensures t in Normal(ts) <==> t == x {
      if Any in ts {
        AnyContains(ts, t);
      } else {
        AloneContains(ts, m, t);
      }
    }
    assert Normal(ts) == {x};
  }

  lemma AnyContains(ts: set<ValueType>, t: ValueType)
    requires Any in ts
    ensures t in Normal(ts) <==> t == Any || (t == Nil && Nil in ts)
  {
  }

  lemma AloneContains(ts: set<ValueType>, m: ValueType, t: ValueType)
    requires Any !in ts && Alone(ts, m) && m in ts && m.Intersection?
    ensures t in Normal(ts) <==> t == if Secret(m) in ts then Secret(m) else m
  {
    hide Normal;
    NormalContains(ts, t);
    assert forall u :: u in InnersSet(ts) <==> u == m && Secret(m) in ts;
  }

  /** Beside an intersection, `any` with `nil`, or another type, leaves a second member. */
  lemma OthersStay(ts: set<ValueType>, m: ValueType, u: ValueType)
    requires !Alone(ts, m) && m in ts && m.Intersection?
    ensures exists n :: n in Normal(ts) && n != u
  {
    hide Normal;
    if Any in ts {
      AnyContains(ts, Any);
      AnyContains(ts, Nil);
    } else {
      var t :| t in ts && t != m && t != Secret(m);
      NormalCovers(ts, t);
      var n :| n in Normal(ts) && Covers(n, t);
      IntersectionStays(ts, m);
      NormalAny(ts);
      OthersDiffer(n, t, m);
    }
  }

  lemma OthersDiffer(n: ValueType, t: ValueType, m: ValueType)
    requires Covers(n, t) && m.Intersection? && t != m && t != Secret(m)
    ensures n != m && n != Secret(m)
  {
  }

  lemma NormalAny(ts: set<ValueType>)
    ensures Any in Normal(ts) <==> Any in ts
  {
  }

  /** For parts without parts of their own, the arguments alone decide: an intersection flows into the
      union it is given to exactly if some part flows into an argument, or there are no others. */
  lemma BasicPartsFlowIff(ts: seq<ValueType>, m: ValueType)
    requires Flat(ts) && m in Flatten(ts) && m.Intersection?
    requires forall i :: 0 <= i < |m.parts| ==> FamilyOf(m.parts[i]).Some?
    ensures IsAssignable(m, UnionOf(ts)) <==>
            Alone(ToSet(Flatten(ts)), m) ||
            exists i :: 0 <= i < |m.parts| && TakenBySome(ToSet(Flatten(ts)), m.parts[i])
  {
    hide IsAssignable, UnionOf, Flatten, TakenBySome, Alone;
    IntersectionFlowsIff(ts, m);
    AloneIff(ts, m);
    if UnionOf(ts).Union? {
      forall i | 0 <= i < |m.parts|
        ensures IsAssignable(m.parts[i], UnionOf(ts)) <==> TakenBySome(ToSet(Flatten(ts)), m.parts[i])
      {
        BasicIntoUnion(ts, m.parts[i]);
      }
    }
  }

  /** Such a gap: `(number & userdata) | nil`, which its first member does not flow into. */
  lemma IntersectionGap(both: ValueType, parts: seq<ValueType>, ts: seq<ValueType>)
    requires |parts| == 2 && parts[0] == Number && parts[1] == Userdata && both == Intersection(parts)
    requires forall m :: m in ts <==> m == both || m == Nil
    ensures both in Members(UnionOf(ts)) && !IsAssignable(both, UnionOf(ts))
  {
    FlattenOfNonUnions(ts);
    MembersAreNormal(ts);
    PairStays(both, ToSet(ts));
    PairIsUnion(both, UnionOf(ts));
    IntersectionFlowsIff(ts, both);
    forall i | 0 <= i < |parts| ensures !IsAssignable(parts[i], UnionOf(ts)) {
      PartDoesNotFlow(parts[i], both, parts, UnionOf(ts));
    }
  }

  lemma PairIsUnion(both: ValueType, u: ValueType)
    requires both.Intersection? && forall m :: m in ToSet(Members(u)) <==> m == both || m == Nil
    ensures u.Union? && both in u.members
  {
    assert both in ToSet(Members(u)) && Nil in ToSet(Members(u));
  }

  lemma PairStays(both: ValueType, ts: set<ValueType>)
    requires both.Intersection? && forall m :: m in ts <==> m == both || m == Nil
    ensures Normal(ts) == ts
  {
    assert CollapseSet(ts) == ts && InnersSet(ts) == {} && CollapseSet({}) == {};
  }

  lemma PartDoesNotFlow(p: ValueType, both: ValueType, parts: seq<ValueType>, u: ValueType)
    requires |parts| == 2 && parts[0] == Number && parts[1] == Userdata && both == Intersection(parts) && p in parts
    requires u.Union? && forall m :: m in ToSet(u.members) <==> m == both || m == Nil
    ensures !IsAssignable(p, u)
  {
    hide IsAssignable;
    FlowIntoUnion(p, u.members);
    FlowIntoIntersection(p, parts);
    BasicFlow(Number, Userdata);
    BasicFlow(Userdata, Number);
    BasicFlow(p, Nil);
    assert !IsAssignable(p, parts[0]) || !IsAssignable(p, parts[1]);
    forall i | 0 <= i < |u.members| ensures !IsAssignable(p, u.members[i]) {
      assert u.members[i] in ToSet(u.members);
    }
  }
}
