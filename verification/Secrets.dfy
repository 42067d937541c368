/** What tainted code may do with a secret value, and what the analysis concludes from types. */
module Secrets {
  import opened Wrappers
  import opened ValueTypes
  import opened Secrecy

  datatype Operator =
    | Concatenate
    | Add | Subtract | Multiply | Divide | Modulo | Hat
    | LessThan | GreaterThan | LessThanOrEquals | GreaterThanOrEquals
    | Equals | NotEquals
    | And | Or
    | Not | ArrayLength | NoOperator

  datatype SecretRule = Propagate | Allowed | Error

  /** One bit of the kind mask. `TopBit` is the bit no kind has, set only in the mask of unknown types. */
  datatype KindBit = NilBit | BooleanBit | NumberBit | StringBit | TableBit | FunctionBit | OtherBit | TopBit

  const KIND_UNKNOWN: set<KindBit> :=
    {NilBit, BooleanBit, NumberBit, StringBit, TableBit, FunctionBit, OtherBit, TopBit}

  function RuntimeKinds(t: ValueType): set<KindBit> {
    match t
    case Nil => {NilBit}
    case Boolean(_) => {BooleanBit}
    case Number => {NumberBit}
    case NumberLiteral(_) => {NumberBit}
    case String(_) => {StringBit}
    case KeyOf(_) => {StringBit}
    case Table(Some(_)) => KIND_UNKNOWN
    case Table(None) => {TableBit}
    case TableShape(_) => {TableBit}
    case Function(_) => {FunctionBit}
    case FunctionSig(_) => {FunctionBit}
    case Userdata => {OtherBit}
    case Thread => {OtherBit}
    case Secret(inner) => RuntimeKinds(inner)
    case OpaqueAlias(_, inner) => RuntimeKinds(inner)
    case Union(members) => set i, k | 0 <= i < |members| && k in RuntimeKinds(members[i]) :: k
    case Any => KIND_UNKNOWN
    case TypeVariable(_) => KIND_UNKNOWN
    case Intersection(_) => KIND_UNKNOWN
  }

  predicate MayShareRuntimeType(lhs: ValueType, rhs: ValueType) {
    var l, r := RuntimeKinds(lhs), RuntimeKinds(rhs);
    l == KIND_UNKNOWN || r == KIND_UNKNOWN || l * r - {NilBit} != {}
  }

  predicate HasSecretBoolean(t: ValueType) {
    match t
    case Secret(inner) => StripOpaque(inner).Boolean?
    case Union(members) => exists i :: 0 <= i < |members| && HasSecretBoolean(members[i])
    case _ => false
  }

  function TruthTestRule(t: ValueType): SecretRule {
    if HasSecretBoolean(t) then Error else Allowed
  }

  predicate IsArithmetic(op: Operator) {
    op.Add? || op.Subtract? || op.Multiply? || op.Divide? || op.Modulo? || op.Hat?
  }

  predicate IsOrdering(op: Operator) {
    op.LessThan? || op.GreaterThan? || op.LessThanOrEquals? || op.GreaterThanOrEquals?
  }

  function BinaryOpRule(op: Operator, lhs: ValueType, rhs: ValueType): SecretRule {
    match op
    case Concatenate => Propagate
    case Equals => if MayShareRuntimeType(lhs, rhs) then Error else Allowed
    case NotEquals => if MayShareRuntimeType(lhs, rhs) then Error else Allowed
    case And => Propagate
    case Or => Propagate
    case _ => if IsArithmetic(op) || IsOrdering(op) then Error else Allowed
  }

  function SecretMembers(t: ValueType): seq<ValueType> {
    match t
    case Secret(inner) => [inner]
    case Union(members) => SecretMembersOf(members)
    case _ => []
  }

  function SecretMembersOf(ts: seq<ValueType>): seq<ValueType> {
    if ts == [] then [] else SecretMembers(ts[0]) + SecretMembersOf(ts[1..])
  }

  predicate NotBooleanInside(t: ValueType) {
    !StripOpaque(t).Boolean?
  }

  function AndOrSecrets(op: Operator, lhs: ValueType, rhs: ValueType): seq<ValueType> {
    SecretMembers(rhs) + if op.Or? then KeepNonBoolean(SecretMembers(lhs)) else []
  }

  function KeepNonBoolean(ts: seq<ValueType>): (r: seq<ValueType>)
    ensures forall t :: t in r <==> t in ts && NotBooleanInside(t)
  {
    if ts == [] then []
    else (if NotBooleanInside(ts[0]) then [ts[0]] else []) + KeepNonBoolean(ts[1..])
  }

  // ---- what the runtime does

  /** `nil` is never secret. */
  predicate Real(v: Value) {
    v.base.NilValue? ==> !v.secret
  }

  /** A truth test of a secret boolean is an error. */
  predicate TestFails(v: Value) {
    v.secret && v.base.BooleanValue?
  }

  /** `a and b`, `a or b`. */
  function Logical(op: Operator, a: Value, b: Value): Option<Value>
    requires op.And? || op.Or?
  {
    if TestFails(a) then None
    else if op.And? then Some(if IsFalsy(a) then a else b)
    else Some(if IsFalsy(a) then b else a)
  }

  /** The error secrecy causes when an operator is applied. */
  predicate OperatorFails(op: Operator, a: Value, b: Value) {
    if op.And? || op.Or? then TestFails(a)
    else if op.Equals? || op.NotEquals? then
      (a.secret || b.secret) && KindOf(a.base) == KindOf(b.base) && !a.base.NilValue?
    else (IsArithmetic(op) || IsOrdering(op)) && (a.secret || b.secret)
  }

  // ---- equality

  function BitOf(k: Kind): KindBit {
    match k
    case NilKind => NilBit
    case BooleanKind => BooleanBit
    case NumberKind => NumberBit
    case StringKind => StringBit
    case TableKind => TableBit
    case FunctionKind => FunctionBit
    case UserdataKind => OtherBit
    case ThreadKind => OtherBit
  }

  /** The mask of a type is unknown, or has the bits of all its values. For every type there is. */
  lemma {:induction false} KindsCover(env: Env, t: ValueType, v: Value)
    requires Has(env, t, v)
    ensures BitOf(KindOf(v.base)) in RuntimeKinds(t)
    decreases t
  {
    match t
    case Secret(inner) => KindsCover(env, inner, if Has(env, inner, v) then v else Flipped(v));
    case OpaqueAlias(_, inner) => KindsCover(env, inner, v);
    case Union(members) =>
      var i :| 0 <= i < |members| && Has(env, members[i], v);
      KindsCover(env, members[i], v);
    case Table(table) =>
    case _ =>
  }

  /** Operands that may be compared never meet as two non-nil values of the same runtime type. */
  lemma EqualityIsSound(env: Env, lhs: ValueType, rhs: ValueType, a: Value, b: Value)
    requires !MayShareRuntimeType(lhs, rhs) && Has(env, lhs, a) && Has(env, rhs, b)
    ensures KindOf(a.base) != KindOf(b.base) || (a.base.NilValue? && b.base.NilValue?)
  {
    KindsCover(env, lhs, a);
    KindsCover(env, rhs, b);
    var common := RuntimeKinds(lhs) * RuntimeKinds(rhs);
    forall bit | bit in common ensures bit == NilBit {
      assert bit !in common - {NilBit};
    }
    assert KindOf(a.base) == KindOf(b.base) ==> BitOf(KindOf(a.base)) in common;
  }

  /** Every kind in the mask has a value, where the type has no part that may be empty. */
  predicate Tame(t: ValueType) {
    match t
    case Secret(inner) => Tame(inner)
    case OpaqueAlias(_, inner) => Tame(inner)
    case Union(members) => forall i :: 0 <= i < |members| ==> Tame(members[i])
    case Any => false
    case TypeVariable(_) => false
    case Intersection(_) => false
    case KeyOf(_) => false
    case FunctionSig(_) => false
    case TableShape(_) => false
    case Table(table) => table.None?
    case _ => true
  }

  lemma {:induction false} KindsReached(env: Env, t: ValueType, k: KindBit) returns (v: Value)
    requires Tame(t) && k in RuntimeKinds(t)
    ensures Has(env, t, v) && BitOf(KindOf(v.base)) == k
    decreases t
  {
    match t
    case Secret(inner) => v := KindsReached(env, inner, k);
    case OpaqueAlias(_, inner) => v := KindsReached(env, inner, k);
    case Union(members) =>
      var i :| 0 <= i < |members| && k in RuntimeKinds(members[i]);
      v := KindsReached(env, members[i], k);
    case Nil => v := Value(NilValue, false);
    case Boolean(lit) => v := Value(BooleanValue(lit.Some? && lit.value), false);
    case Number => v := Value(NumberValue(0), false);
    case NumberLiteral(spelling) => v := Value(NumberValue(env.number(spelling)), false);
    case String(text) => v := Value(StringValue(if text.Some? then text.value else ""), false);
    case Function(func) => v := Value(FunctionValue(if func.Some? then func.value else 0), false);
    case Table(_) => v := Value(TableValue(0), false);
    case Userdata => v := Value(UserdataValue, false);
    case Thread => v := Value(ThreadValue, false);
  }

  /** The same runtime type but for `nil`, or one that the mask takes for the same. */
  predicate Confused(k: Kind, l: Kind) {
    !k.NilKind? && (k == l || (k.UserdataKind? && l.ThreadKind?) || (k.ThreadKind? && l.UserdataKind?))
  }

  /** And on such types an equality is reported only if two operands of the same runtime type can meet, or
      a userdata and a thread, which share a bit. */
  lemma EqualityIsTight(env: Env, lhs: ValueType, rhs: ValueType) returns (a: Value, b: Value)
    requires Tame(lhs) && Tame(rhs) && MayShareRuntimeType(lhs, rhs)
    ensures Has(env, lhs, a) && Has(env, rhs, b)
    ensures Confused(KindOf(a.base), KindOf(b.base))
  {
    TameIsKnown(lhs);
    TameIsKnown(rhs);
    var k :| k in RuntimeKinds(lhs) * RuntimeKinds(rhs) - {NilBit};
    a := KindsReached(env, lhs, k);
    b := KindsReached(env, rhs, k);
    SameBit(KindOf(a.base), KindOf(b.base));
  }

  lemma SameBit(k: Kind, l: Kind)
    requires BitOf(k) == BitOf(l) != NilBit
    ensures Confused(k, l)
  {
  }

  lemma {:induction false} TameIsKnown(t: ValueType)
    requires Tame(t)
    ensures TopBit !in RuntimeKinds(t)
    decreases t
  {
    match t
    case Secret(inner) => TameIsKnown(inner);
    case OpaqueAlias(_, inner) => TameIsKnown(inner);
    case Union(members) =>
      forall i | 0 <= i < |members| ensures TopBit !in RuntimeKinds(members[i]) {
        TameIsKnown(members[i]);
      }
    case _ =>
  }

  // ---- truth tests

  /** No part of the type can hold anything: no `any`, no type variable, no intersection. */
  predicate Known(t: ValueType) {
    match t
    case Any => false
    case TypeVariable(_) => false
    case Intersection(_) => false
    case Secret(inner) => Known(inner)
    case OpaqueAlias(_, inner) => Known(inner)
    case Union(members) => forall i :: 0 <= i < |members| ==> Known(members[i])
    case _ => true
  }

  /** There is a boolean under the aliases, secrets and unions of the type. */
  predicate HoldsBoolean(t: ValueType) {
    match t
    case Boolean(_) => true
    case Secret(inner) => HoldsBoolean(inner)
    case OpaqueAlias(_, inner) => HoldsBoolean(inner)
    case Union(members) => exists i :: 0 <= i < |members| && HoldsBoolean(members[i])
    case _ => false
  }

  /** Some secret, under aliases and unions, holds a boolean. */
  predicate HoldsSecretBoolean(t: ValueType) {
    match t
    case Secret(inner) => HoldsBoolean(inner)
    case OpaqueAlias(_, inner) => HoldsSecretBoolean(inner)
    case Union(members) => exists i :: 0 <= i < |members| && HoldsSecretBoolean(members[i])
    case _ => false
  }

  lemma {:induction false} BooleanIsHeld(env: Env, t: ValueType, v: Value)
    requires Known(t) && Has(env, t, v) && v.base.BooleanValue?
    ensures HoldsBoolean(t)
    decreases t
  {
    match t
    case Secret(inner) => BooleanIsHeld(env, inner, if Has(env, inner, v) then v else Flipped(v));
    case OpaqueAlias(_, inner) => BooleanIsHeld(env, inner, v);
    case Union(members) =>
      var i :| 0 <= i < |members| && Has(env, members[i], v);
      BooleanIsHeld(env, members[i], v);
    case _ =>
  }

  lemma {:induction false} HeldBoolean(env: Env, t: ValueType) returns (b: bool, secret: bool)
    requires HoldsBoolean(t)
    ensures Has(env, t, Value(BooleanValue(b), secret))
    decreases t
  {
    match t
    case Secret(inner) => b, secret := HeldBoolean(env, inner);
    case OpaqueAlias(_, inner) => b, secret := HeldBoolean(env, inner);
    case Boolean(lit) => b, secret := lit.Some? && lit.value, false;
    case Union(members) =>
      var i :| 0 <= i < |members| && HoldsBoolean(members[i]);
      b, secret := HeldBoolean(env, members[i]);
  }

  lemma {:induction false} TestFailsOnlyIf(env: Env, t: ValueType, v: Value)
    requires Known(t) && Has(env, t, v) && TestFails(v)
    ensures HoldsSecretBoolean(t)
    decreases t
  {
    match t
    case Secret(inner) => BooleanIsHeld(env, inner, if Has(env, inner, v) then v else Flipped(v));
    case OpaqueAlias(_, inner) => TestFailsOnlyIf(env, inner, v);
    case Union(members) =>
      var i :| 0 <= i < |members| && Has(env, members[i], v);
      TestFailsOnlyIf(env, members[i], v);
    case _ =>
  }

  lemma {:induction false} TestFailsIf(env: Env, t: ValueType) returns (v: Value)
    requires HoldsSecretBoolean(t)
    ensures Has(env, t, v) && TestFails(v)
    decreases t
  {
    match t
    case Secret(inner) =>
      var b, secret := HeldBoolean(env, inner);
      v := Value(BooleanValue(b), true);
    case OpaqueAlias(_, inner) => v := TestFailsIf(env, inner);
    case Union(members) =>
      var i :| 0 <= i < |members| && HoldsSecretBoolean(members[i]);
      v := TestFailsIf(env, members[i]);
  }

  lemma {:induction false} StrippedIsHeld(t: ValueType)
    requires StripOpaque(t).Boolean?
    ensures HoldsBoolean(t)
    decreases t
  {
    match t
    case Secret(inner) => StrippedIsHeld(inner);
    case OpaqueAlias(_, inner) => StrippedIsHeld(inner);
    case _ =>
  }

  lemma {:induction false} ReportedIsHeld(t: ValueType)
    requires HasSecretBoolean(t)
    ensures HoldsSecretBoolean(t)
    decreases t
  {
    match t
    case Secret(inner) => StrippedIsHeld(inner);
    case Union(members) =>
      var i :| 0 <= i < |members| && HasSecretBoolean(members[i]);
      ReportedIsHeld(members[i]);
  }

  /** Some value fails the truth test exactly if some secret holds a boolean. The rule never reports in
      vain, and is right exactly if it sees one of these secrets: it does not look under an alias, nor
      for a union under a secret. */
  lemma TruthTestRuleIsExact(env: Env, t: ValueType)
    requires Known(t)
    ensures (exists v :: Has(env, t, v) && TestFails(v)) <==> HoldsSecretBoolean(t)
    ensures TruthTestRule(t) == Error ==> exists v :: Has(env, t, v) && TestFails(v)
    ensures (TruthTestRule(t) == Error <==> exists v :: Has(env, t, v) && TestFails(v)) <==>
            (HoldsSecretBoolean(t) ==> HasSecretBoolean(t))
  {
    if HasSecretBoolean(t) {
      ReportedIsHeld(t);
    }
    if HoldsSecretBoolean(t) {
      var v := TestFailsIf(env, t);
    }
    if v :| Has(env, t, v) && TestFails(v) {
      TestFailsOnlyIf(env, t, v);
    }
  }

  /** Two ways to hide a boolean from the rule: a secret alias of a union, and an alias of a secret. */
  lemma AliasHidesBoolean(env: Env, alias: string, inner: ValueType, members: seq<ValueType>, t: ValueType)
    requires members == [Number, Boolean(None)] && (inner == Union(members) || inner == Secret(Boolean(None)))
    requires t == if inner.Union? then Secret(OpaqueAlias(alias, inner)) else OpaqueAlias(alias, inner)
    ensures TruthTestRule(t) == Allowed && exists v :: Has(env, t, v) && TestFails(v)
  {
    if inner.Union? {
      assert StripOpaque(t.inner) == inner;
      assert HoldsBoolean(members[1]) && HoldsBoolean(inner) && HoldsBoolean(t.inner);
      assert Known(members[0]) && Known(members[1]) && Known(inner) && Known(t.inner);
    } else {
      assert HoldsBoolean(inner.inner) && HoldsSecretBoolean(inner);
    }
    TruthTestRuleIsExact(env, t);
  }

  // ---- all operators

  /** The result of an operator application that does not fail is a secret. */
  predicate ResultIsSecret(op: Operator, a: Value, b: Value) {
    if op.Concatenate? then a.secret || b.secret
    else (op.And? || op.Or?) && Logical(op, a, b).Some? && Logical(op, a, b).value.secret
  }

  /** An operator application that is not reported does not fail, and its result is an ordinary value
      unless the rule says that secrecy propagates. */
  lemma OperatorRuleIsSound(env: Env, op: Operator, lhs: ValueType, rhs: ValueType, a: Value, b: Value)
    requires Has(env, lhs, a) && Has(env, rhs, b)
    requires op.And? || op.Or? ==> Known(lhs) && (HoldsSecretBoolean(lhs) ==> HasSecretBoolean(lhs))
    requires BinaryOpRule(op, lhs, rhs) != Error && (op.And? || op.Or? ==> TruthTestRule(lhs) != Error)
    ensures !OperatorFails(op, a, b)
    ensures BinaryOpRule(op, lhs, rhs) == Allowed ==> !ResultIsSecret(op, a, b)
  {
    if op.And? || op.Or? {
      if TestFails(a) {
        TestFailsOnlyIf(env, lhs, a);
      }
    } else if op.Equals? || op.NotEquals? {
      EqualityIsSound(env, lhs, rhs, a, b);
    }
  }

  /** The operator can have a secret result. */
  ghost predicate PassesOn(op: Operator) {
    exists a, b :: !OperatorFails(op, a, b) && ResultIsSecret(op, a, b)
  }

  /** It fails whenever an operand is a secret. */
  ghost predicate RejectsSecrets(op: Operator) {
    forall a: Value, b: Value :: a.secret || b.secret ==> OperatorFails(op, a, b)
  }

  lemma OperatorKinds(op: Operator)
    ensures PassesOn(op) <==> op.Concatenate? || op.And? || op.Or?
    ensures RejectsSecrets(op) <==> IsArithmetic(op) || IsOrdering(op)
  {
    var a, b := Value(BooleanValue(op.And?), false), Value(StringValue(""), true);
    if op.Concatenate? || op.And? || op.Or? {
      assert !OperatorFails(op, a, b) && ResultIsSecret(op, a, b);
    } else {
      forall a, b ensures !ResultIsSecret(op, a, b) {
      }
    }
    if IsArithmetic(op) || IsOrdering(op) {
      forall a: Value, b: Value | a.secret || b.secret ensures OperatorFails(op, a, b) {
      }
    } else {
      assert b.secret && !OperatorFails(op, a, b);
    }
  }

  /** Secrecy is passed on by exactly the operators that can have a secret result, whatever the types of the operands;
      and, but for equality, exactly the operators that reject every secret are reported. */
  lemma OperatorRuleIsExact(op: Operator, lhs: ValueType, rhs: ValueType)
    ensures BinaryOpRule(op, lhs, rhs) == Propagate <==> PassesOn(op)
    ensures !op.Equals? && !op.NotEquals? ==> (BinaryOpRule(op, lhs, rhs) == Error <==> RejectsSecrets(op))
  {
    hide PassesOn, RejectsSecrets;
    OperatorKinds(op);
  }
}
