/** Which values the type of `a and b` and `a or b` has: exactly those of its operands that can come out, with three
    exceptions. */
module LogicalMeaning {
  import opened Wrappers
  import opened Sequences
  import opened ValueTypes
  import opened Unions
  import opened UnionLaws
  import opened UnionMeaning
  import opened Secrecy
  import opened TypeGuards
  import opened SecretGuards
  import opened Narrowing
  import opened Secrets
  import opened LogicalTypes

  // ---- operands

  /** No union, and no table of a `@enum`. */
  predicate SimpleMember(env: Env, t: ValueType) {
    !t.Union? && !EnumTable(env, t) && !(t.Secret? && EnumTable(env, t.inner))
  }

  /** All members are like this. */
  ghost predicate Simple(env: Env, t: ValueType) {
    NormalType(t) && forall m :: m in Members(t) ==> SimpleMember(env, m)
  }

  lemma PartsHave(env: Env, parts: seq<ValueType>, r: ValueType, v: Value)
    requires forall t :: t in parts ==> SimpleMember(env, t)
    requires Simple(env, r)
    ensures Has(env, UnionOf(parts + [r]), v) <==> HasAny(env, parts, v) || Has(env, r, v)
    ensures Has(env, UnionOf([r] + parts), v) <==> HasAny(env, parts, v) || Has(env, r, v)
  {
    hide UnionOf, NormalForm, Has, Flatten;
    FlattenOfNonUnions(parts);
    FlattenOne(r);
    FlattenAppend(parts, [r]);
    FlattenAppend([r], parts);
    UnionKeepsMeaning(env, parts + [r], v);
    UnionKeepsMeaning(env, [r] + parts, v);
    if Has(env, r, v) {
      assert r in parts + [r] && r in [r] + parts;
    }
    if t :| t in parts && Has(env, t, v) {
      assert t in parts + [r] && t in [r] + parts;
    }
  }

  lemma PairHas(env: Env, part: ValueType, r: ValueType, v: Value)
    requires (part.Boolean? || part.Nil?) && Simple(env, r)
    ensures Has(env, UnionOf([part, r]), v) <==> Has(env, part, v) || Has(env, r, v)
    ensures Has(env, UnionOf([r, part]), v) <==> Has(env, part, v) || Has(env, r, v)
  {
    hide UnionOf, NormalForm, Has;
    PartsHave(env, [part], r, v);
    assert [part] + [r] == [part, r] && [r] + [part] == [r, part];
    assert part in [part];
  }

  lemma TestHas(env: Env, m: ValueType, v: Value)
    requires IsTest(m) || NeverFalsy(m)
    ensures HasOption(env, TruePart(m), v) <==> Has(env, m, v) && !IsFalsy(v)
    ensures HasOption(env, FalsePart(m), v) <==> Has(env, m, v) && IsFalsy(v)
  {
    hide NeverFalsy;
    if IsTest(m) {
    } else if Has(env, m, v) {
      NeverFalsyIsTruthy(env, m, v);
      TestsAreFalsy(m);
    } else {
      TestsAreFalsy(m);
    }
  }

  lemma TestsAreFalsy(m: ValueType)
    ensures NeverFalsy(m) ==> !IsTest(m)
  {
  }

  lemma MappedHas(env: Env, members: seq<ValueType>, f: ValueType -> Option<ValueType>, v: Value)
    ensures HasAny(env, FilterMap(members, f), v) <==> exists m :: m in members && HasOption(env, f(m), v)
  {
    hide Has;
    FilterMapContains(members, f);
    if u :| u in FilterMap(members, f) && Has(env, u, v) {
      var m :| m in members && f(m) == Some(u);
      assert HasOption(env, f(m), v);
    }
    if m :| m in members && HasOption(env, f(m), v) {
      assert f(m) == Some(f(m).value) && f(m).value in FilterMap(members, f);
    }
  }

  lemma TruePartsHave(env: Env, l: ValueType, v: Value)
    requires l.Union? && TestsVisible(l)
    ensures HasAny(env, FilterMap(l.members, TruePart), v) <==> Has(env, l, v) && !IsFalsy(v)
  {
    hide Has, HasOption, FilterMap, NeverFalsy;
    MappedHas(env, l.members, TruePart, v);
    HasMembers(env, l, v);
    forall m | m in l.members ensures HasOption(env, TruePart(m), v) <==> Has(env, m, v) && !IsFalsy(v) {
      assert m in Members(l);
      TestHas(env, m, v);
    }
  }

  lemma FalsePartsHave(env: Env, l: ValueType, v: Value)
    requires l.Union? && TestsVisible(l)
    ensures HasAny(env, FilterMap(l.members, FalsePart), v) <==> Has(env, l, v) && IsFalsy(v)
  {
    hide Has, HasOption, FilterMap, NeverFalsy;
    MappedHas(env, l.members, FalsePart, v);
    HasMembers(env, l, v);
    forall m | m in l.members ensures HasOption(env, FalsePart(m), v) <==> Has(env, m, v) && IsFalsy(v) {
      assert m in Members(l);
      TestHas(env, m, v);
    }
  }

  lemma PartIsSimple(env: Env, t: ValueType)
    requires SimpleMember(env, t)
    ensures TruePart(t).Some? ==> SimpleMember(env, TruePart(t).value)
    ensures FalsePart(t).Some? ==> SimpleMember(env, FalsePart(t).value)
  {
  }

  lemma PartsAreSimple(env: Env, l: ValueType)
    requires l.Union? && Simple(env, l)
    ensures forall t :: t in FilterMap(l.members, TruePart) ==> SimpleMember(env, t)
    ensures forall t :: t in FilterMap(l.members, FalsePart) ==> SimpleMember(env, t)
  {
    hide NormalForm, TruePart, FalsePart, FilterMap;
    FilterMapContains(l.members, TruePart);
    FilterMapContains(l.members, FalsePart);
    forall m | m in l.members
      ensures TruePart(m).Some? ==> SimpleMember(env, TruePart(m).value)
      ensures FalsePart(m).Some? ==> SimpleMember(env, FalsePart(m).value)
    {
      PartIsSimple(env, m);
    }
  }

  lemma SingleHas(env: Env, l: ValueType, v: Value)
    requires !l.Union? && TestsVisible(l) && !l.Any?
    ensures ShowsTest(l) <==> IsTest(l)
    ensures !IsTest(l) && Has(env, l, v) ==> !IsFalsy(v)
    ensures (l.Nil? || l == Boolean(Some(false))) && Has(env, l, v) ==> IsFalsy(v)
  {
    hide NeverFalsy;
    assert l in Members(l);
    if !IsTest(l) && Has(env, l, v) {
      NeverFalsyIsTruthy(env, l, v);
    }
  }

  // ---- the two operators

  /** Where the type of `or` is wider than its values: two callables, and a boolean or `true`. */
  predicate OrWidens(l: ValueType, r: ValueType) {
    l.Any? || (IsCallable(l) && IsCallable(r)) || (l == Boolean(None) && r == Boolean(Some(true)))
  }

  /** The type of `or`: the truthy values of the left operand and, where it shows that it can be falsy, all values of
      the right one. */
  lemma OrTypeMeaning(env: Env, l: ValueType, r: ValueType, v: Value)
    requires Simple(env, l) && Simple(env, r) && TestsVisible(l)
    ensures var comesOut := (Has(env, l, v) && !IsFalsy(v)) || (ShowsTest(l) && Has(env, r, v));
            && (comesOut && !v.secret ==> Has(env, OrType(l, r), v))
            && (!OrWidens(l, r) && Has(env, OrType(l, r), v) ==> comesOut)
  {
    hide UnionOf, FilterMap, NormalForm, NeverFalsy;
    if l.Any? {
    } else if l.Union? {
      OrOfUnion(env, l, r, v);
    } else {
      OrOfSingle(env, l, r, v);
    }
  }

  lemma OrOfSingle(env: Env, l: ValueType, r: ValueType, v: Value)
    requires !l.Any? && !l.Union? && Simple(env, r) && TestsVisible(l)
    ensures var comesOut := (Has(env, l, v) && !IsFalsy(v)) || (ShowsTest(l) && Has(env, r, v));
            && (comesOut ==> Has(env, OrType(l, r), v))
            && (!OrWidens(l, r) && Has(env, OrType(l, r), v) ==> comesOut)
  {
    hide UnionOf, TestsVisible, ShowsTest, Simple, IsFalsy, IsCallable, Has;
    SingleHas(env, l, v);
    TruthOf(env, v);
    if l == Boolean(None) {
      if r.Boolean? {
        BooleanOr(env, r, v);
      } else {
        PairHas(env, Boolean(Some(true)), r, v);
      }
    } else if IsCallable(l) && IsCallable(r) {
      if Has(env, l, v) {
        CallableHas(env, l, v);
      }
    }
  }

  lemma TruthOf(env: Env, v: Value)
    ensures Has(env, Boolean(Some(true)), v) <==> Has(env, Boolean(None), v) && !IsFalsy(v)
    ensures Has(env, Boolean(Some(false)), v) <==> Has(env, Boolean(None), v) && IsFalsy(v)
  {
  }

  lemma BooleanOr(env: Env, r: ValueType, v: Value)
    requires r.Boolean?
    ensures (Has(env, Boolean(None), v) && !IsFalsy(v)) || Has(env, r, v) ==> Has(env, Boolean(None), v)
    ensures r != Boolean(Some(true)) && Has(env, Boolean(None), v) ==> !IsFalsy(v) || Has(env, r, v)
  {
  }

  lemma CallableHas(env: Env, l: ValueType, v: Value)
    requires IsCallable(l) && Has(env, l, v)
    ensures Has(env, Function(None), v)
  {
  }

  lemma OrOfUnion(env: Env, l: ValueType, r: ValueType, v: Value)
    requires l.Union? && Simple(env, l) && Simple(env, r) && TestsVisible(l)
    ensures Has(env, OrType(l, r), v) <==> (Has(env, l, v) && !IsFalsy(v)) || (ShowsTest(l) && Has(env, r, v))
  {
    hide UnionOf, FilterMap, NormalForm, NeverFalsy, Has;
    TruePartsHave(env, l, v);
    PartsAreSimple(env, l);
    PartsHave(env, FilterMap(l.members, TruePart), r, v);
    if ShowsTest(l) {
      var m :| m in l.members && IsTest(m);
      var i :| 0 <= i < |l.members| && l.members[i] == m;
    } else {
      NoTestNoFalsy(env, l, v);
    }
  }

  lemma NoTestNoFalsy(env: Env, l: ValueType, v: Value)
    requires l.Union? && TestsVisible(l) && !ShowsTest(l)
    ensures Has(env, l, v) ==> !IsFalsy(v)
    ensures !exists i :: 0 <= i < |l.members| && IsTest(l.members[i])
  {
    hide NeverFalsy;
    HasMembers(env, l, v);
    if Has(env, l, v) {
      var m :| m in Members(l) && Has(env, m, v);
      NeverFalsyIsTruthy(env, m, v);
    }
    forall i | 0 <= i < |l.members| ensures !IsTest(l.members[i]) {
      assert l.members[i] in Members(l);
    }
  }

  /** There it is any function, and `boolean`. */
  lemma OrWidensTo(env: Env, l: ValueType, r: ValueType, v: Value)
    requires OrWidens(l, r) && !l.Any?
    ensures Has(env, OrType(l, r), v) <==>
            !v.secret && if IsCallable(l) then v.base.FunctionValue? else v.base.BooleanValue?
  {
  }

  /** Where values of `and` are lost: `any`, of whose falsy values only `nil` is kept, and a boolean and `nil`. */
  predicate AndLoses(l: ValueType, r: ValueType) {
    l.Any? || (l == Boolean(None) && r.Nil?)
  }

  predicate MayBeTrue(l: ValueType) {
    !l.Nil? && l != Boolean(Some(false))
  }

  /** The type of `and`: the falsy values of the left operand and, unless it is nothing but falsy, all values of the
      right one. */
  lemma AndTypeMeaning(env: Env, l: ValueType, r: ValueType, v: Value)
    requires Simple(env, l) && Simple(env, r) && TestsVisible(l) && !AndLoses(l, r)
    ensures Has(env, AndType(l, r), v) <==> (Has(env, l, v) && IsFalsy(v)) || (MayBeTrue(l) && Has(env, r, v))
  {
    hide UnionOf, FilterMap, NormalForm, NeverFalsy;
    if l.Union? {
      FalsePartsHave(env, l, v);
      PartsAreSimple(env, l);
      PartsHave(env, FilterMap(l.members, FalsePart), r, v);
    } else {
      AndOfSingle(env, l, r, v);
    }
  }

  lemma AndOfSingle(env: Env, l: ValueType, r: ValueType, v: Value)
    requires !l.Union? && Simple(env, r) && TestsVisible(l) && !AndLoses(l, r)
    ensures Has(env, AndType(l, r), v) <==> (Has(env, l, v) && IsFalsy(v)) || (MayBeTrue(l) && Has(env, r, v))
  {
    hide UnionOf, TestsVisible, Simple, IsFalsy, Has;
    SingleHas(env, l, v);
    TruthOf(env, v);
    PairHas(env, Boolean(Some(false)), r, v);
  }

  /** There it is `nil` or what the right operand is. */
  lemma AndLosesTo(env: Env, l: ValueType, r: ValueType, v: Value)
    requires AndLoses(l, r) && Simple(env, r)
    ensures Has(env, AndType(l, r), v) <==> v == Value(NilValue, false) || Has(env, r, v)
  {
    hide UnionOf, Simple;
    PairHas(env, Nil, r, v);
  }

  /** `x and nil` for a boolean `x` has the type `nil`, and can be `false`; `x and y` for an unknown `x`, too, which the
      type of `y` or `nil` need not have. */
  lemma AndLosesFalse(env: Env, r: ValueType)
    requires Simple(env, r)
    ensures var no := Value(BooleanValue(false), false);
            && Has(env, Boolean(None), no) && (forall b :: Logical(And, no, b) == Some(no))
            && !Has(env, AndType(Boolean(None), Nil), no)
            && (Has(env, AndType(Any, r), no) <==> Has(env, r, no))
  {
    var no := Value(BooleanValue(false), false);
    hide UnionOf, Simple;
    PairHas(env, Nil, r, no);
  }

  // ---- every ordinary result

  /** Secrets are marks on scalars and stand nowhere else. */
  ghost predicate Marked(env: Env, t: ValueType) {
    && NormalType(t) && ScalarSecrets(t) && (forall m :: m in Members(t) ==> OpenMember(m))
    && Simple(env, Decayed(StripSecret(t)))
  }

  lemma {:induction false} BareHas(env: Env, t: ValueType, v: Value)
    requires Open(t) && Has(env, t, v)
    ensures Has(env, StripOpaque(t), v)
    decreases t
  {
    if t.OpaqueAlias? {
      BareHas(env, t.inner, v);
    }
  }

  lemma UnmarkedAreOpen(t: ValueType)
    requires NormalType(t) && forall m :: m in Members(t) ==> OpenMember(m)
    ensures forall m :: m in Members(StripSecret(t)) ==> Open(m)
  {
    hide NormalForm, UnionOf;
    if t.Union? {
      StripSecretUnion(t.members);
      if exists m :: m in t.members && m.Secret? {
        UnwrappedAreOpen(t.members);
      }
    } else {
      assert t in Members(t) && OpenMember(t);
      assert t.Secret? ==> StripSecret(t.inner) == t.inner;
    }
  }

  lemma UnwrappedAreOpen(members: seq<ValueType>)
    requires forall m :: m in members ==> OpenMember(m) && !m.Union?
    ensures forall m :: m in Members(UnionOf(Apply(members, Unwrap))) ==> Open(m)
  {
    hide UnionOf, Normal;
    var plain := Apply(members, Unwrap);
    ApplyContains(members, Unwrap);
    forall t | t in plain ensures Open(t) && !t.Secret? && !t.Union? {
      var m :| m in members && Unwrap(m) == t;
    }
    FlattenOfNonUnions(plain);
    MembersAreNormal(plain);
    NormalIsOpen(ToSet(plain));
    assert forall m :: m in Members(UnionOf(plain)) ==> m in ToSet(Members(UnionOf(plain)));
  }

  lemma NormalIsOpen(ts: set<ValueType>)
    requires forall t :: t in ts ==> Open(t) && !t.Secret?
    ensures forall t :: t in Normal(ts) ==> Open(t)
  {
    assert forall t :: t in CollapseSet(ts) ==> Open(t) && !t.Secret?;
    assert InnersSet(CollapseSet(ts)) == {};
    assert CollapseSet({}) == {};
  }

  /** Without its marks the operand has all its ordinary values. */
  lemma UnmarkedHas(env: Env, t: ValueType, v: Value)
    requires Marked(env, t) && Has(env, t, v) && !v.secret
    ensures Has(env, Decayed(StripSecret(t)), v)
  {
    hide NormalForm, UnionOf, Has, Simple, Wrappable, Open;
    PlainBranchIsExact(env, t, v);
    assert StripTypeWith(env, t, SECRET_GUARD) == StripSecret(t);
    var stripped := StripSecret(t);
    if !stripped.Union? {
      UnmarkedAreOpen(t);
      assert stripped in Members(stripped);
      BareHas(env, stripped, v);
      NumberHas(env, StripOpaque(stripped), v);
    }
  }

  lemma NumberHas(env: Env, t: ValueType, v: Value)
    ensures t.NumberLiteral? && Has(env, t, v) ==> Has(env, Number, v)
  {
  }

  lemma JoinIsNormal(parts: seq<ValueType>, r: ValueType)
    requires NormalType(r) && forall t :: t in parts ==> !t.Union?
    ensures NormalType(UnionOf(parts + [r])) && NormalType(UnionOf([r] + parts))
  {
    hide UnionOf, NormalForm, Flatten;
    FlattenOfNonUnions(parts);
    FlattenOne(r);
    FlattenAppend(parts, [r]);
    FlattenAppend([r], parts);
    MembersAreNormal(parts + [r]);
    UnionIsNormal(parts + [r]);
    MembersAreNormal([r] + parts);
    UnionIsNormal([r] + parts);
  }

  lemma ResultIsNormal(env: Env, l: ValueType, r: ValueType)
    requires Simple(env, l) && Simple(env, r)
    ensures NormalType(OrType(l, r)) && NormalType(AndType(l, r))
  {
    hide UnionOf, FilterMap, NormalType;
    assert NormalType(l) && NormalType(r);
    var yes, no := Boolean(Some(true)), Boolean(Some(false));
    assert [yes] + [r] == [yes, r] && [no] + [r] == [no, r] && [r] + [Nil] == [r, Nil];
    JoinIsNormal([yes], r);
    JoinIsNormal([no], r);
    JoinIsNormal([Nil], r);
    SingleIsNormal(Function(None));
    SingleIsNormal(Any);
    if l.Union? {
      PartsAreSimple(env, l);
      JoinIsNormal(FilterMap(l.members, TruePart), r);
      JoinIsNormal(FilterMap(l.members, FalsePart), r);
    }
  }

  /** Every ordinary value that `a and b` or `a or b` can be is a value of the type of the result. */
  lemma OrdinaryResultsHaveType(env: Env, op: Operator, lhs: ValueType, rhs: ValueType, a: Value, b: Value)
    requires op.And? || op.Or?
    requires Marked(env, lhs) && Marked(env, rhs) && TestsVisible(Decayed(StripSecret(lhs)))
    requires op.And? ==> !AndLoses(Decayed(StripSecret(lhs)), Decayed(StripSecret(rhs)))
    requires Has(env, lhs, a) && Has(env, rhs, b)
    ensures var r := Logical(op, a, b);
            r.Some? && !r.value.secret ==> Has(env, LogicalType(op, lhs, rhs), r.value)
  {
    hide NormalType, UnionOf, Has, Simple, Decayed, StripSecret, OrType, AndType, WithSecretMembers, TestsVisible,
         OpenMember,
         ScalarSecrets, HasSecret;
    var l, r := Decayed(StripSecret(lhs)), Decayed(StripSecret(rhs));
    var result := Logical(op, a, b);
    if result.Some? && !result.value.secret {
      var v := result.value;
      ResultComesOut(env, op, lhs, rhs, a, b);
      if op.Or? {
        OrTypeMeaning(env, l, r, v);
      } else {
        AndTypeMeaning(env, l, r, v);
      }
      ResultIsNormal(env, l, r);
      var plain := PlainType(op, StripSecret(lhs), StripSecret(rhs));
      MarkingKeepsValues(env, plain, AndOrSecrets(op, lhs, rhs), v);
      NothingToStrip(lhs);
      NothingToStrip(rhs);
    }
  }

  lemma NothingToStrip(t: ValueType)
    ensures !HasSecret(t) ==> StripSecret(t) == t
  {
  }

  lemma ResultComesOut(env: Env, op: Operator, lhs: ValueType, rhs: ValueType, a: Value, b: Value)
    requires op.And? || op.Or?
    requires Marked(env, lhs) && Marked(env, rhs) && TestsVisible(Decayed(StripSecret(lhs)))
    requires Has(env, lhs, a) && Has(env, rhs, b) && Logical(op, a, b).Some? && !Logical(op, a, b).value.secret
    ensures var l, r, v := Decayed(StripSecret(lhs)), Decayed(StripSecret(rhs)), Logical(op, a, b).value;
            if op.Or? then (Has(env, l, v) && !IsFalsy(v)) || (ShowsTest(l) && Has(env, r, v))
            else (Has(env, l, v) && IsFalsy(v)) || (MayBeTrue(l) && Has(env, r, v))
  {
    hide NormalType, Has, Simple, Decayed, StripSecret, TestsVisible, OpenMember, ScalarSecrets;
    var l := Decayed(StripSecret(lhs));
    DecayedHas(env, lhs, a);
    if IsFalsy(a) == op.Or? {
      UnmarkedHas(env, rhs, b);
      if op.Or? {
        FalsyShows(env, l, a);
      } else {
        TruthyIsNoTest(env, l, a);
      }
    } else {
      UnmarkedHas(env, lhs, a);
    }
  }

  /** What an operand is taken for: what it is an alias of, and any number for a literal one. */
  lemma DecayedSpec(t: ValueType)
    ensures !Decayed(t).OpaqueAlias? && !Decayed(t).Secret? && !Decayed(t).NumberLiteral?
    ensures !t.OpaqueAlias? && !t.Secret? ==> Decayed(t) == if t.NumberLiteral? then Number else t
    ensures t.OpaqueAlias? || t.Secret? ==> Decayed(t) == Decayed(t.inner)
  {
    BareIsBare(t);
  }
}
