/** The type of `a and b` and `a or b`, marks included, and the secrets it must have. */
module LogicalTypes {
  import opened Wrappers
  import opened Sequences
  import opened ValueTypes
  import opened Unions
  import opened UnionLaws
  import opened Secrecy
  import opened SecretGuards
  import opened Narrowing
  import opened Secrets
  import opened SecretResults
  import opened SecretMarks

  // ---- the rule

  /** What an operand is taken for once its secrecy is off. */
  function Decayed(t: ValueType): ValueType {
    var bare := StripOpaque(t);
    if bare.NumberLiteral? then Number else bare
  }

  predicate IsTest(t: ValueType) {
    t.Nil? || t == Boolean(Some(false)) || t == Boolean(None)
  }

  predicate IsCallable(t: ValueType) {
    t.Function? || t.FunctionSig?
  }

  /** What `or` keeps of a member of its left operand, and what `and` does. */
  function TruePart(t: ValueType): Option<ValueType> {
    if t.Nil? || t == Boolean(Some(false)) then None
    else if t == Boolean(None) then Some(Boolean(Some(true)))
    else Some(t)
  }

  function FalsePart(t: ValueType): Option<ValueType> {
    if t.Nil? || t == Boolean(Some(false)) then Some(t)
    else if t == Boolean(None) then Some(Boolean(Some(false)))
    else None
  }

  function OrType(l: ValueType, r: ValueType): ValueType {
    if l.Any? then Any
    else if l.Nil? || l == Boolean(Some(false)) then r
    else if l == Boolean(Some(true)) then l
    else if l == Boolean(None) then if r.Boolean? then l else UnionOf([Boolean(Some(true)), r])
    else if l.Union? then
      if exists i :: 0 <= i < |l.members| && IsTest(l.members[i]) then UnionOf(FilterMap(l.members, TruePart) + [r])
      else l
    else if IsCallable(l) && IsCallable(r) then Function(None)
    else l
  }

  function AndType(l: ValueType, r: ValueType): ValueType {
    if l.Any? then UnionOf([r, Nil])
    else if l.Nil? || l == Boolean(Some(false)) then l
    else if l.Union? then
      var falsy := FilterMap(l.members, FalsePart);
      if falsy == [] then r else UnionOf(falsy + [r])
    else if l == Boolean(None) then
      if r == Boolean(Some(true)) then l
      else if r == Boolean(Some(false)) || r.Nil? then r
      else UnionOf([Boolean(Some(false)), r])
    else r
  }

  function PlainType(op: Operator, l: ValueType, r: ValueType): ValueType
    requires op.And? || op.Or?
  {
    if op.Or? then OrType(Decayed(l), Decayed(r)) else AndType(Decayed(l), Decayed(r))
  }

  /** `resolve_binary_op_standalone` for `and` and `or`. */
  function LogicalType(op: Operator, lhs: ValueType, rhs: ValueType): ValueType
    requires op.And? || op.Or?
  {
    if HasSecret(lhs) || HasSecret(rhs)
    then WithSecretMembers(PlainType(op, StripSecret(lhs), StripSecret(rhs)), AndOrSecrets(op, lhs, rhs))
    else PlainType(op, lhs, rhs)
  }

  // ---- operands without their mark

  /** The secrets of the type are scalars, as marking makes them, under aliases or not. */
  ghost predicate ScalarSecrets(t: ValueType) {
    forall m :: m in Members(t) && m.Secret? ==> Wrappable(m.inner) && Wrappable(StripOpaque(m.inner))
  }

  lemma {:induction false} SecretMembersOfUnion(ts: seq<ValueType>, s: ValueType)
    requires forall t :: t in ts ==> !t.Union?
    ensures s in SecretMembersOf(ts) <==> Secret(s) in ts
    decreases |ts|
  {
    if ts != [] {
      SecretMembersOfUnion(ts[1..], s);
      assert ts == [ts[0]] + ts[1..];
    }
  }

  lemma SecretMemberIs(t: ValueType, s: ValueType)
    requires NormalType(t)
    ensures s in SecretMembers(t) <==> Secret(s) in Members(t)
    ensures s in SecretMembers(t) ==> HasSecret(t)
  {
    hide NormalForm, StripOpaque, Wrappable;
    if t.Union? {
      SecretMembersOfUnion(t.members, s);
      if s in SecretMembers(t) {
        var i :| 0 <= i < |t.members| && t.members[i] == Secret(s);
        assert HasSecret(t.members[i]);
      }
    } else {
      assert t in Members(t);
    }
  }

  /** A secret of the type, or the generic type of it, is a member once the marks are off. */
  lemma StrippedMember(t: ValueType, s: ValueType) returns (c: ValueType)
    requires NormalType(t) && ScalarSecrets(t) && s in SecretMembers(t) && Any !in Members(t)
    ensures c in Members(StripSecret(t)) && NormalType(StripSecret(t))
    ensures Reaches(s, c) && Wrappable(c)
    ensures forall env, v :: HasBase(env, s, v) ==> HasBase(env, c, v)
  {
    hide NormalForm, UnionOf, Has;
    SecretMemberIs(t, s);
    if t.Union? {
      StripSecretUnion(t.members);
      c := StrippedUnionMember(t.members, s);
    } else {
      assert t in Members(t);
      c := s;
      SingleIsNormal(s);
    }
  }

  lemma StrippedUnionMember(members: seq<ValueType>, s: ValueType) returns (c: ValueType)
    requires Secret(s) in members && ScalarSecrets(Union(members)) && Any !in members
    requires forall m :: m in members ==> !m.Union?
    ensures var t := UnionOf(Apply(members, Unwrap)); c in Members(t) && NormalType(t)
    ensures Reaches(s, c) && Wrappable(c)
    ensures forall env, v :: HasBase(env, s, v) ==> HasBase(env, c, v)
  {
    hide NormalForm, UnionOf, HasBase, CollapseSet, MergeSecretsSet, Reaches, Unwrap, StripOpaque;
    var plain := Apply(members, Unwrap);
    var flat := ToSet(plain);
    UnwrappedMember(members, s, flat);
    FlattenApply(members, Unwrap);
    assert Flatten(plain) == plain;
    MembersAreNormal(plain);
    UnionIsNormal(plain);
    NoSecretsMerge(CollapseSet(flat));
    assert Normal(flat) == CollapseSet(flat);
    assert Wrappable(s) by { assert Secret(s) in Members(Union(members)); }
    c := Carrier(flat, s);
    CarrierStands(flat, s);
  }

  lemma UnwrappedMember(members: seq<ValueType>, s: ValueType, plain: set<ValueType>)
    requires Secret(s) in members && ScalarSecrets(Union(members)) && Any !in members
    requires forall m :: m in members ==> !m.Union?
    requires plain == ToSet(Apply(members, Unwrap))
    ensures s in plain && Any !in plain
    ensures forall t :: t in plain ==> !t.Secret? && !t.Union?
    ensures forall m :: m in members ==> !Unwrap(m).Union?
    ensures forall t :: t in CollapseSet(plain) ==> !t.Secret?
  {
    ApplyContains(members, Unwrap);
    assert Unwrap(Secret(s)) == s;
    forall t | t in plain ensures !t.Secret? && !t.Union? && t != Any {
      var m :| m in members && Unwrap(m) == t;
      assert m in Members(Union(members));
    }
  }

  lemma CarrierStands(ts: set<ValueType>, s: ValueType)
    requires Wrappable(s)
    ensures Reaches(s, Carrier(ts, s)) && Wrappable(Carrier(ts, s))
    ensures forall env, v :: HasBase(env, s, v) ==> HasBase(env, Carrier(ts, s), v)
  {
  }

  /** So it is of what the operand is taken for. */
  lemma DecayedMember(t: ValueType, s: ValueType) returns (c: ValueType)
    requires NormalType(t) && ScalarSecrets(t) && s in SecretMembers(t) && Any !in Members(t)
    ensures var r := Decayed(StripSecret(t)); c in Members(r) && NormalType(r)
    ensures (Reaches(s, c) || Reaches(StripOpaque(s), c)) && Wrappable(c)
    ensures forall env, v :: HasBase(env, s, v) ==> HasBase(env, c, v)
  {
    hide NormalType, HasBase, StripSecret;
    var m := StrippedMember(t, s);
    var stripped := StripSecret(t);
    if stripped.Union? {
      c := m;
    } else {
      assert m == stripped;
      SecretMemberIs(t, s);
      c := Decayed(m);
      DecayedScalar(s, m);
      SingleIsNormal(c);
    }
  }

  lemma DecayedScalar(s: ValueType, m: ValueType)
    requires Reaches(s, m) && Wrappable(m) && Wrappable(StripOpaque(s))
    requires forall env, v :: HasBase(env, s, v) ==> HasBase(env, m, v)
    ensures var c := Decayed(m);
            (Reaches(s, c) || Reaches(StripOpaque(s), c)) && Wrappable(c) && !c.Union?
    ensures forall env, v :: HasBase(env, s, v) ==> HasBase(env, Decayed(m), v)
  {
    BareIsBare(s);
    forall env, v | HasBase(env, s, v) ensures HasBase(env, Decayed(m), v) {
      StrippedHas(env, m, v);
    }
  }

  lemma {:induction false} BareIsBare(s: ValueType)
    ensures !StripOpaque(s).OpaqueAlias? && !StripOpaque(s).Secret? && StripOpaque(StripOpaque(s)) == StripOpaque(s)
    decreases s
  {
    if s.Secret? || s.OpaqueAlias? {
      BareIsBare(s.inner);
    }
  }

  /** What the operand is taken for has all its values, but for their marks. */
  lemma DecayedHas(env: Env, t: ValueType, v: Value)
    requires NormalType(t) && ScalarSecrets(t) && HasBase(env, t, v)
    ensures HasBase(env, Decayed(StripSecret(t)), v)
  {
    hide NormalForm, UnionOf, Unwrap, Decayed, StripOpaque;
    var w := if Has(env, t, v) then v else Flipped(v);
    if t.Union? {
      StripSecretUnion(t.members);
      UnwrappedHas(env, t.members, w);
    } else {
      assert t in Members(t);
    }
    assert HasBase(env, StripSecret(t), v) by { assert Flipped(Flipped(v)) == v; }
    DecayKeeps(env, StripSecret(t), v);
  }

  lemma DecayKeeps(env: Env, t: ValueType, v: Value)
    requires HasBase(env, t, v)
    ensures HasBase(env, Decayed(t), v)
  {
    StrippedHas(env, t, v);
  }

  lemma UnwrappedHas(env: Env, members: seq<ValueType>, v: Value)
    requires NormalType(Union(members)) && ScalarSecrets(Union(members)) && Has(env, Union(members), v)
    ensures HasBase(env, UnionOf(Apply(members, Unwrap)), v)
  {
    hide NormalForm, UnionOf, Has;
    HasMembers(env, Union(members), v);
    var m :| m in members && Has(env, m, v);
    forall n | n in members
      ensures !Unwrap(n).Union?
      ensures (Unwrap(n).Table? || (Unwrap(n).Secret? && Unwrap(n).inner.Table?)) ==> Unwrap(n) == n
    {
      assert n in Members(Union(members));
    }
    UnionOfMapped(env, members, Unwrap, v);
    UnionOfMapped(env, members, Unwrap, Flipped(v));
    assert HasBase(env, Unwrap(m), v) by {
      assert m in Members(Union(members));
      UnwrappedBase(env, m, v);
    }
  }

  lemma UnwrappedBase(env: Env, m: ValueType, v: Value)
    requires Has(env, m, v) && (m.Secret? ==> Wrappable(m.inner))
    ensures HasBase(env, Unwrap(m), v)
  {
  }

  // ---- what the result is made of

  lemma JoinedHas(env: Env, others: seq<ValueType>, r: ValueType, secrets: seq<ValueType>, c: ValueType, v: Value)
    requires NormalType(r) && forall t :: t in others ==> !t.Union?
    requires c in others || c in Members(r)
    requires Wrappable(c) && Reachable(secrets, c) && HasBase(env, c, v) && v.secret
    ensures Has(env, WithSecretMembers(UnionOf(others + [r]), secrets), v)
    ensures Has(env, WithSecretMembers(UnionOf([r] + others), secrets), v)
  {
    hide Reachable, WithSecretMembers, UnionOf, HasBase, Flatten, Wrappable;
    FlattenOfNonUnions(others);
    FlattenOne(r);
    FlattenAppend(others, [r]);
    FlattenAppend([r], others);
    MembersAreFlat(r);
    MarkCarries(env, others + [r], secrets, c, v);
    MarkCarries(env, [r] + others, secrets, c, v);
  }

  lemma MembersAreFlat(t: ValueType)
    requires NormalType(t)
    ensures forall m :: m in Members(t) ==> !m.Union?
  {
  }

  lemma BooleanStands(env: Env, secrets: seq<ValueType>, c: ValueType, v: Value)
    requires c.Boolean? && Reachable(secrets, c) && HasBase(env, c, v) && v.secret
    ensures Has(env, WithSecretMembers(Boolean(None), secrets), v)
  {
    hide WithSecretMembers;
    var i :| 0 <= i < |secrets| && (Reaches(secrets[i], c) || Reaches(StripOpaque(secrets[i]), c));
    assert Reaches(secrets[i], Boolean(None)) || Reaches(StripOpaque(secrets[i]), Boolean(None));
    SingleIsNormal(Boolean(None));
    MarkedMember(env, Boolean(None), secrets, Boolean(None), v);
  }

  lemma FalsePartsAreFlat(members: seq<ValueType>)
    ensures forall t :: t in FilterMap(members, FalsePart) ==> !t.Union?
  {
    FilterMapContains(members, FalsePart);
  }

  /** The right operand of `and` is in the result, unless the left one is never truthy. */
  lemma RightOfAnd(env: Env, l: ValueType, r: ValueType, secrets: seq<ValueType>, c: ValueType, v: Value)
    requires NormalType(r) && c in Members(r) && !l.Nil? && l != Boolean(Some(false))
    requires Wrappable(c) && Reachable(secrets, c) && HasBase(env, c, v) && v.secret
    ensures Has(env, WithSecretMembers(AndType(l, r), secrets), v)
  {
    hide Reachable, NormalType, WithSecretMembers, UnionOf, HasBase, FilterMap;
    MarkedMember(env, r, secrets, c, v);
    if l.Any? {
      assert [r] + [Nil] == [r, Nil];
      JoinedHas(env, [Nil], r, secrets, c, v);
    } else if l.Union? {
      FalsePartsAreFlat(l.members);
      JoinedHas(env, FilterMap(l.members, FalsePart), r, secrets, c, v);
    } else if l == Boolean(None) {
      if r.Boolean? {
        BooleanStands(env, secrets, c, v);
      }
      assert [Boolean(Some(false))] + [r] == [Boolean(Some(false)), r];
      JoinedHas(env, [Boolean(Some(false))], r, secrets, c, v);
    }
  }

  lemma TruePartsAreFlat(members: seq<ValueType>, c: ValueType)
    requires forall t :: t in members ==> !t.Union?
    ensures forall t :: t in FilterMap(members, TruePart) ==> !t.Union?
    ensures c in members && Wrappable(c) && !c.Boolean? ==> c in FilterMap(members, TruePart)
  {
    FilterMapContains(members, TruePart);
    assert Wrappable(c) && !c.Boolean? ==> TruePart(c) == Some(c);
  }

  ghost predicate ShowsTest(l: ValueType) {
    l.Any? || exists m :: m in Members(l) && IsTest(m)
  }

  /** The right operand of `or` is in the result where the left one shows a falsy member. */
  lemma RightOfOr(env: Env, l: ValueType, r: ValueType, secrets: seq<ValueType>, c: ValueType, v: Value)
    requires NormalType(l) && NormalType(r) && c in Members(r) && ShowsTest(l)
    requires Wrappable(c) && Reachable(secrets, c) && HasBase(env, c, v) && v.secret
    ensures Has(env, WithSecretMembers(OrType(l, r), secrets), v)
  {
    hide Reachable, WithSecretMembers, UnionOf, HasBase, FilterMap, NormalForm;
    MarkedMember(env, r, secrets, c, v);
    if l.Any? {
      SingleIsNormal(Any);
      MemberMarked(env, Any, secrets, Any, v);
    } else if l == Boolean(None) {
      if r.Boolean? {
        BooleanStands(env, secrets, c, v);
      }
      assert [Boolean(Some(true))] + [r] == [Boolean(Some(true)), r];
      JoinedHas(env, [Boolean(Some(true))], r, secrets, c, v);
    } else if l.Union? {
      TruePartsAreFlat(l.members, c);
      JoinedHas(env, FilterMap(l.members, TruePart), r, secrets, c, v);
    }
  }

  /** What is no boolean of the left operand is in the result of `or`. */
  lemma LeftOfOr(env: Env, l: ValueType, r: ValueType, secrets: seq<ValueType>, c: ValueType, v: Value)
    requires NormalType(l) && NormalType(r) && c in Members(l) && !c.Boolean?
    requires Wrappable(c) && Reachable(secrets, c) && HasBase(env, c, v) && v.secret
    ensures Has(env, WithSecretMembers(OrType(l, r), secrets), v)
  {
    hide Reachable, WithSecretMembers, UnionOf, HasBase, FilterMap, NormalForm;
    MarkedMember(env, l, secrets, c, v);
    if l.Union? {
      TruePartsAreFlat(l.members, c);
      JoinedHas(env, FilterMap(l.members, TruePart), r, secrets, c, v);
    }
  }

  // ---- every secret result

  /** Whether an operand can be falsy can be read off its members. */
  ghost predicate TestsVisible(l: ValueType) {
    l.Any? || forall m :: m in Members(l) ==> IsTest(m) || NeverFalsy(m)
  }

  lemma FalsyShows(env: Env, l: ValueType, a: Value)
    requires TestsVisible(l) && HasBase(env, l, a) && IsFalsy(a)
    ensures ShowsTest(l)
  {
    var w := if Has(env, l, a) then a else Flipped(a);
    HasMembers(env, l, w);
    if !l.Any? {
      var m :| m in Members(l) && Has(env, m, w);
      if NeverFalsy(m) {
        NeverFalsyIsTruthy(env, m, w);
      }
    }
  }

  ghost predicate Operand(t: ValueType) {
    NormalType(t) && ScalarSecrets(t) && NormalType(Decayed(StripSecret(t)))
  }

  lemma SeenIsKnown(t: ValueType)
    requires NormalType(t) && ScalarSecrets(t) && SecretsSeen(t)
    ensures Any !in Members(t)
  {
    hide NormalForm, StripOpaque;
    if Any in Members(t) {
      if t.Union? {
        var i :| 0 <= i < |t.members| && t.members[i] == Any;
        assert Wraps(t.members[i], Any);
      }
      assert Wraps(t, Any);
      SecretMemberIs(t, Any);
    }
  }

  /** Every secret that `a and b` or `a or b` can be is a value of the type the analysis gives the result. */
  lemma SecretResultsHaveType(env: Env, op: Operator, lhs: ValueType, rhs: ValueType, a: Value, b: Value)
    requires op.And? || (op.Or? && SecretsSeen(lhs) && TestsVisible(Decayed(StripSecret(lhs))))
    requires Operand(lhs) && Operand(rhs) && SecretsSeen(rhs)
    requires Has(env, lhs, a) && Has(env, rhs, b) && Real(a)
    ensures var r := Logical(op, a, b);
            r.Some? && r.value.secret ==> Has(env, LogicalType(op, lhs, rhs), r.value)
  {
    hide Has, Wraps, AndOrSecrets, NormalType, ScalarSecrets, Decayed, StripSecret;
    var r := Logical(op, a, b);
    if r.Some? && r.value.secret {
      AndOrSecretsIsSound(env, op, lhs, rhs, a, b);
      if IsFalsy(a) == op.Or? {
        RightHasType(env, op, lhs, rhs, a, b);
      } else {
        LeftHasType(env, lhs, rhs, a);
      }
    }
  }

  lemma MemberIsReachable(secrets: seq<ValueType>, s: ValueType, c: ValueType)
    requires s in secrets && (Reaches(s, c) || Reaches(StripOpaque(s), c))
    ensures Reachable(secrets, c)
  {
    hide Reaches, StripOpaque;
    var i :| 0 <= i < |secrets| && secrets[i] == s;
  }

  lemma RightHasType(env: Env, op: Operator, lhs: ValueType, rhs: ValueType, a: Value, b: Value)
    requires op.And? || (op.Or? && TestsVisible(Decayed(StripSecret(lhs))))
    requires Operand(lhs) && Operand(rhs) && SecretsSeen(rhs) && IsFalsy(a) == op.Or?
    requires Has(env, lhs, a) && Has(env, rhs, b) && b.secret
    ensures Has(env, LogicalType(op, lhs, rhs), b)
  {
    hide Has, Wraps, NormalType, ScalarSecrets, Decayed, StripSecret, WithSecretMembers, OrType, AndType, Reachable,
         Reaches,
         StripOpaque, SecretMembers, HasSecret;
    var l, r, secrets := Decayed(StripSecret(lhs)), Decayed(StripSecret(rhs)), AndOrSecrets(op, lhs, rhs);
    SeenIsKnown(rhs);
    var s := SecretIsWrapped(env, rhs, b);
    SecretMemberIs(rhs, s);
    var c := DecayedMember(rhs, s);
    assert s in secrets;
    MemberIsReachable(secrets, s, c);
    DecayedHas(env, lhs, a);
    if op.And? {
      TruthyIsNoTest(env, l, a);
      RightOfAnd(env, l, r, secrets, c, b);
    } else {
      FalsyShows(env, l, a);
      RightOfOr(env, l, r, secrets, c, b);
    }
  }

  lemma TruthyIsNoTest(env: Env, l: ValueType, a: Value)
    requires HasBase(env, l, a) && !IsFalsy(a)
    ensures !l.Nil? && l != Boolean(Some(false))
  {
  }

  lemma LeftHasType(env: Env, lhs: ValueType, rhs: ValueType, a: Value)
    requires Operand(lhs) && Operand(rhs) && SecretsSeen(lhs)
    requires Has(env, lhs, a) && a.secret && !a.base.BooleanValue?
    ensures Has(env, LogicalType(Or, lhs, rhs), a)
  {
    hide Has, Wraps, NormalType, ScalarSecrets, Decayed, StripSecret, WithSecretMembers, OrType, Reachable, Reaches,
         SecretMembers, HasSecret;
    var l, r, secrets := Decayed(StripSecret(lhs)), Decayed(StripSecret(rhs)), AndOrSecrets(Or, lhs, rhs);
    SeenIsKnown(lhs);
    var s := SecretIsWrapped(env, lhs, a);
    SecretMemberIs(lhs, s);
    if StripOpaque(s).Boolean? {
      StrippedIsBoolean(env, s, if Has(env, s, a) then a else Flipped(a));
    }
    var c := DecayedMember(lhs, s);
    assert s in secrets;
    MemberIsReachable(secrets, s, c);
    NoBoolean(env, c, a);
    LeftOfOr(env, l, r, secrets, c, a);
  }

  lemma NoBoolean(env: Env, c: ValueType, a: Value)
    requires HasBase(env, c, a) && !a.base.BooleanValue?
    ensures !c.Boolean?
  {
  }

  /** Where the left operand of `or` hides that it can be falsy, a secret gets out unmarked: `x or y`, where `x` is a
      number or an alias of `boolean`, has the type of `x`. */
  lemma HiddenTestLosesSecret(env: Env, alias: string, lhs: ValueType, text: string)
    requires lhs == Union([OpaqueAlias(alias, Boolean(None)), Number])
    ensures var a, b := Value(BooleanValue(false), false), Value(StringValue(text), true);
            && Has(env, lhs, a) && Has(env, Secret(String(None)), b) && Logical(Or, a, b) == Some(b)
            && !Has(env, LogicalType(Or, lhs, Secret(String(None))), b)
  {
    hide LogicalType, WithSecretMembers, NormalType, StripSecret, Decayed, SecretMembers, HasSecret, OrType,
         StripOpaque,
         AndOrSecrets;
    var a, b := Value(BooleanValue(false), false), Value(StringValue(text), true);
    assert Has(env, lhs.members[0], a);
    AliasOrNumber(alias, lhs);
    SecretText(lhs);
    NumberIsNotMarked(env, alias, lhs, [String(None)], b);
    ThenOr(lhs);
  }

  lemma ThenOr(lhs: ValueType)
    requires SecretMembers(lhs) == [] && StripSecret(lhs) == lhs && Decayed(lhs) == lhs
    requires OrType(lhs, String(None)) == lhs
    ensures LogicalType(Or, lhs, Secret(String(None))) == WithSecretMembers(lhs, [String(None)])
  {
    hide WithSecretMembers, SecretMembers, Decayed, OrType, AndOrSecrets, StripSecret, HasSecret;
    SecretText(lhs);
  }

  lemma SecretText(lhs: ValueType)
    requires SecretMembers(lhs) == []
    ensures var secret := Secret(String(None));
            && HasSecret(secret) && Decayed(StripSecret(secret)) == String(None)
            && AndOrSecrets(Or, lhs, secret) == [String(None)]
  {
  }

  lemma NumberIsNotMarked(env: Env, alias: string, lhs: ValueType, secrets: seq<ValueType>, b: Value)
    requires lhs == Union([OpaqueAlias(alias, Boolean(None)), Number]) && NormalType(lhs)
    requires secrets == [String(None)] && b.base.StringValue?
    ensures !Has(env, WithSecretMembers(lhs, secrets), b)
  {
    hide WithSecretMembers, NormalType;
    MarkingIsExact(env, lhs, secrets, b);
    assert lhs.members[0] == OpaqueAlias(alias, Boolean(None)) && lhs.members[1] == Number;
    forall m | m in Members(lhs) ensures !HasBase(env, m, b) {
      assert m == lhs.members[0] || m == lhs.members[1];
      assert !Has(env, Boolean(None), b) && !Has(env, Boolean(None), Flipped(b));
    }
    HasMembers(env, lhs, b);
  }

  lemma AliasOrNumber(alias: string, lhs: ValueType)
    requires lhs == Union([OpaqueAlias(alias, Boolean(None)), Number])
    ensures NormalType(lhs) && StripSecret(lhs) == lhs && Decayed(lhs) == lhs && SecretMembers(lhs) == []
    ensures !HasSecret(lhs) && OrType(lhs, String(None)) == lhs
  {
    hide NormalForm, StripSecret, SecretMembers, Decayed, OrType, HasSecret;
    var own := OpaqueAlias(alias, Boolean(None));
    assert lhs.members[0] == own && lhs.members[1] == Number && |lhs.members| == 2;
    assert forall m :: m in lhs.members <==> m == own || m == Number;
    assert ToSet(lhs.members) == {own, Number};
    AliasNumberForm(own);
    assert NormalType(lhs);
    NoMarks(lhs);
    NoTests(lhs);
  }

  lemma NoMarks(t: ValueType)
    requires t.Union? && NormalType(t) && forall m :: m in t.members ==> !m.Secret?
    ensures StripSecret(t) == t && SecretMembers(t) == [] && !HasSecret(t)
  {
    hide NormalForm, SecretMembers;
    StripSecretUnion(t.members);
    if SecretMembers(t) != [] {
      SecretMemberIs(t, SecretMembers(t)[0]);
    }
    forall i | 0 <= i < |t.members| ensures !HasSecret(t.members[i]) {
      assert t.members[i] in t.members;
    }
  }

  lemma NoTests(t: ValueType)
    requires t.Union? && forall m :: m in t.members ==> !IsTest(m)
    ensures Decayed(t) == t && OrType(t, String(None)) == t
  {
  }

  lemma AliasNumberForm(own: ValueType)
    requires own.OpaqueAlias?
    ensures NormalForm({own, Number})
  {
    assert InnersSet({own, Number}) == {};
  }
}
