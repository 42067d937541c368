/** The secrecy of `a and b` and `a or b`: when the types listed for the result hold every secret that
    it can be. */
module SecretResults {
  import opened Wrappers
  import opened ValueTypes
  import opened Secrecy
  import opened Secrets

  /** `v` is what a secret value of one of `secrets` is underneath. */
  ghost predicate Listed(env: Env, secrets: seq<ValueType>, v: Value) {
    exists s :: s in secrets && HasBase(env, s, v)
  }

  lemma {:induction false} SecretMembersOfContains(ts: seq<ValueType>, s: ValueType)
    ensures s in SecretMembersOf(ts) <==> exists i :: 0 <= i < |ts| && s in SecretMembers(ts[i])
    decreases |ts|
  {
    if ts != [] {
      SecretMembersOfContains(ts[1..], s);
      if i :| 0 <= i < |ts| && s in SecretMembers(ts[i]) && i > 0 {
        assert s in SecretMembers(ts[1..][i - 1]);
      }
    }
  }

  // ---- all secrets of a type

  /** `s` is what a secret in `t` wraps, wherever it is: under aliases, in unions, or in every part of an
      intersection. What is not known may itself be secret. */
  predicate Wraps(t: ValueType, s: ValueType)
    decreases t
  {
    match t
    case Secret(inner) => s == inner
    case OpaqueAlias(_, inner) => Wraps(inner, s)
    case Union(members) => exists i :: 0 <= i < |members| && Wraps(members[i], s)
    case Intersection(parts) =>
      s.Intersection? && |s.parts| == |parts| &&
      forall i :: 0 <= i < |parts| ==> s.parts[i].Secret? && Wraps(parts[i], s.parts[i].inner)
    case Any => s == Any
    case TypeVariable(_) => s == t
    case _ => false
  }

  /** What a secret value of `t` is underneath. */
  ghost predicate Holds(env: Env, t: ValueType, v: Value) {
    exists s :: Wraps(t, s) && HasBase(env, s, v)
  }

  /** No type variable stands outside a secret. */
  predicate Fixed(t: ValueType) {
    match t
    case TypeVariable(_) => false
    case OpaqueAlias(_, inner) => Fixed(inner)
    case Union(members) => forall i :: 0 <= i < |members| ==> Fixed(members[i])
    case Intersection(parts) => forall i :: 0 <= i < |parts| ==> Fixed(parts[i])
    case _ => true
  }

  lemma {:induction false} SecretIsWrapped(env: Env, t: ValueType, v: Value) returns (s: ValueType)
    requires Has(env, t, v) && v.secret
    ensures Wraps(t, s) && HasBase(env, s, v)
    decreases t
  {
    match t
    case Secret(inner) => s := inner;
    case OpaqueAlias(_, inner) => s := SecretIsWrapped(env, inner, v);
    case Union(members) =>
      var i :| 0 <= i < |members| && Has(env, members[i], v);
      s := SecretIsWrapped(env, members[i], v);
    case Intersection(parts) =>
      var chosen: seq<ValueType> := [];
      while |chosen| < |parts|
        invariant |chosen| <= |parts|
        invariant forall i :: 0 <= i < |chosen| ==>
                    chosen[i].Secret? && Wraps(parts[i], chosen[i].inner) && Has(env, chosen[i], v)
      {
        var part := SecretIsWrapped(env, parts[|chosen|], v);
        chosen := chosen + [Secret(part)];
      }
      s := Intersection(chosen);
    case Any => s := t;
    case TypeVariable(_) => s := t;
  }

  lemma PartHas(env: Env, s: ValueType, i: nat, v: Value)
    requires s.Intersection? && i < |s.parts| && s.parts[i].Secret? && HasBase(env, s, v)
    ensures HasBase(env, s.parts[i].inner, v)
  {
    var w := if Has(env, s, v) then v else Flipped(v);
    assert Has(env, s.parts[i], w) && Flipped(Flipped(v)) == v;
  }

  lemma {:induction false} WrappedIsSecret(env: Env, t: ValueType, s: ValueType, v: Value)
    requires Fixed(t) && Wraps(t, s) && HasBase(env, s, v) && v.secret
    ensures Has(env, t, v)
    decreases t
  {
    match t
    case OpaqueAlias(_, inner) => WrappedIsSecret(env, inner, s, v);
    case Union(members) =>
      var i :| 0 <= i < |members| && Wraps(members[i], s);
      WrappedIsSecret(env, members[i], s, v);
    case Intersection(parts) =>
      forall i | 0 <= i < |parts| ensures Has(env, parts[i], v) {
        PartHas(env, s, i, v);
        WrappedIsSecret(env, parts[i], s.parts[i].inner, v);
      }
    case _ =>
  }

  /** The secret values of a type are exactly the marked values of what its secrets wrap. */
  lemma SecretsAreExact(env: Env, t: ValueType, v: Value)
    requires v.secret && Fixed(t)
    ensures Has(env, t, v) <==> Holds(env, t, v)
  {
    if Has(env, t, v) {
      var s := SecretIsWrapped(env, t, v);
    }
    if s :| Wraps(t, s) && HasBase(env, s, v) {
      WrappedIsSecret(env, t, s, v);
    }
  }

  lemma {:induction false} StrippedIsBoolean(env: Env, t: ValueType, v: Value)
    requires StripOpaque(t).Boolean? && Has(env, t, v)
    ensures v.base.BooleanValue?
    decreases t
  {
    match t
    case Secret(inner) => StrippedIsBoolean(env, inner, if Has(env, inner, v) then v else Flipped(v));
    case OpaqueAlias(_, inner) => StrippedIsBoolean(env, inner, v);
    case _ =>
  }

  // ---- when all of them are listed

  /** If the result does not fail and is a secret, it has a listed type. */
  ghost predicate ResultIsListed(env: Env, op: Operator, lhs: ValueType, rhs: ValueType, a: Value, b: Value)
    requires op.And? || op.Or?
  {
    var r := Logical(op, a, b);
    r.Some? && r.value.secret ==> Listed(env, AndOrSecrets(op, lhs, rhs), r.value)
  }

  /** So it is for all operands of the types. */
  ghost predicate ResultsAreListed(env: Env, op: Operator, lhs: ValueType, rhs: ValueType)
    requires op.And? || op.Or?
  {
    forall a, b :: Has(env, lhs, a) && Has(env, rhs, b) && Real(a) && Real(b) ==>
      ResultIsListed(env, op, lhs, rhs, a, b)
  }

  /** Whatever the secrets of `t` wrap, but for `nil`, some listed type has; `booleans` too, or not. */
  ghost predicate AllListed(env: Env, t: ValueType, listed: seq<ValueType>, booleans: bool) {
    forall v: Value :: v.secret && Real(v) && (v.base.BooleanValue? ==> booleans) && Holds(env, t, v) ==>
      Listed(env, listed, v)
  }

  /** Some value of the left operand passes its truth test and lets the right one through. */
  ghost predicate LetsThrough(env: Env, op: Operator, lhs: ValueType) {
    exists a :: Has(env, lhs, a) && Real(a) && !TestFails(a) && IsFalsy(a) == op.Or?
  }

  ghost predicate Inhabited(env: Env, t: ValueType) {
    exists b :: Has(env, t, b) && Real(b)
  }

  /** The results of `a and b` are listed exactly if the left operand is never truthy, or the listed types
      hold all secrets of the right one. */
  lemma AndSecretsIff(env: Env, lhs: ValueType, rhs: ValueType)
    requires Fixed(rhs)
    ensures ResultsAreListed(env, And, lhs, rhs) <==>
            (LetsThrough(env, And, lhs) ==> AllListed(env, rhs, SecretMembers(rhs), true))
  {
    assert AndOrSecrets(And, lhs, rhs) == SecretMembers(rhs);
    hide ResultsAreListed, AllListed, LetsThrough;
    if ResultsAreListed(env, And, lhs, rhs) && LetsThrough(env, And, lhs) {
      ThroughIsListed(env, And, lhs, rhs);
    }
    if LetsThrough(env, And, lhs) ==> AllListed(env, rhs, AndOrSecrets(And, lhs, rhs), true) {
      AndIsListed(env, lhs, rhs);
    }
  }

  lemma AndIsListed(env: Env, lhs: ValueType, rhs: ValueType)
    requires LetsThrough(env, And, lhs) ==> AllListed(env, rhs, AndOrSecrets(And, lhs, rhs), true)
    ensures ResultsAreListed(env, And, lhs, rhs)
  {
    hide Has, Real, AllListed, LetsThrough, ResultIsListed;
    forall a, b | Has(env, lhs, a) && Has(env, rhs, b) && Real(a) && Real(b)
      ensures ResultIsListed(env, And, lhs, rhs, a, b)
    {
      AndResultIsListed(env, lhs, rhs, a, b);
    }
  }

  lemma AndResultIsListed(env: Env, lhs: ValueType, rhs: ValueType, a: Value, b: Value)
    requires Has(env, lhs, a) && Has(env, rhs, b) && Real(a) && Real(b)
    requires LetsThrough(env, And, lhs) ==> AllListed(env, rhs, AndOrSecrets(And, lhs, rhs), true)
    ensures ResultIsListed(env, And, lhs, rhs, a, b)
  {
    hide AndOrSecrets, Has, Wraps;
    if !TestFails(a) && !IsFalsy(a) && b.secret {
      var s := SecretIsWrapped(env, rhs, b);
    }
  }

  /** What the left operand lets through is listed, so all secrets of the right one are. */
  lemma ThroughIsListed(env: Env, op: Operator, lhs: ValueType, rhs: ValueType)
    requires (op.And? || op.Or?) && Fixed(rhs) && ResultsAreListed(env, op, lhs, rhs) && LetsThrough(env, op, lhs)
    ensures AllListed(env, rhs, AndOrSecrets(op, lhs, rhs), true)
  {
    hide Has, Real, TestFails, IsFalsy, Holds, Logical, Listed, AndOrSecrets;
    var a :| Has(env, lhs, a) && Real(a) && !TestFails(a) && IsFalsy(a) == op.Or?;
    forall v: Value | v.secret && Real(v) && Holds(env, rhs, v) ensures Listed(env, AndOrSecrets(op, lhs, rhs), v) {
      SecretsAreExact(env, rhs, v);
      RightComesThrough(op, a, v);
      assert ResultIsListed(env, op, lhs, rhs, a, v);
    }
  }

  lemma RightComesThrough(op: Operator, a: Value, v: Value)
    requires (op.And? || op.Or?) && !TestFails(a) && IsFalsy(a) == op.Or?
    ensures Logical(op, a, v) == Some(v)
  {
  }

  /** The results of `a or b` are listed exactly if, where the left operand can be falsy, the listed types
      hold all secrets of the right one, and, where there is a right operand at all, all secrets of the left
      one that are not booleans. */
  lemma OrSecretsIff(env: Env, lhs: ValueType, rhs: ValueType)
    requires Fixed(lhs) && Fixed(rhs)
    ensures ResultsAreListed(env, Or, lhs, rhs) <==>
            && (LetsThrough(env, Or, lhs) ==> AllListed(env, rhs, AndOrSecrets(Or, lhs, rhs), true))
            && (Inhabited(env, rhs) ==> AllListed(env, lhs, AndOrSecrets(Or, lhs, rhs), false))
  {
    hide ResultsAreListed, AllListed, LetsThrough, Inhabited;
    if ResultsAreListed(env, Or, lhs, rhs) {
      if LetsThrough(env, Or, lhs) {
        ThroughIsListed(env, Or, lhs, rhs);
      }
      if Inhabited(env, rhs) {
        LeftIsListed(env, lhs, rhs);
      }
    }
    if && (LetsThrough(env, Or, lhs) ==> AllListed(env, rhs, AndOrSecrets(Or, lhs, rhs), true))
       && (Inhabited(env, rhs) ==> AllListed(env, lhs, AndOrSecrets(Or, lhs, rhs), false)) {
      OrIsListed(env, lhs, rhs);
    }
  }

  lemma OrIsListed(env: Env, lhs: ValueType, rhs: ValueType)
    requires LetsThrough(env, Or, lhs) ==> AllListed(env, rhs, AndOrSecrets(Or, lhs, rhs), true)
    requires Inhabited(env, rhs) ==> AllListed(env, lhs, AndOrSecrets(Or, lhs, rhs), false)
    ensures ResultsAreListed(env, Or, lhs, rhs)
  {
    hide Has, Real, AllListed, LetsThrough, Inhabited, ResultIsListed;
    forall a, b | Has(env, lhs, a) && Has(env, rhs, b) && Real(a) && Real(b)
      ensures ResultIsListed(env, Or, lhs, rhs, a, b)
    {
      OrResultIsListed(env, lhs, rhs, a, b);
    }
  }

  lemma LeftIsListed(env: Env, lhs: ValueType, rhs: ValueType)
    requires Fixed(lhs) && ResultsAreListed(env, Or, lhs, rhs) && Inhabited(env, rhs)
    ensures AllListed(env, lhs, AndOrSecrets(Or, lhs, rhs), false)
  {
    hide AndOrSecrets, Has, Wraps, Holds;
    var b :| Has(env, rhs, b) && Real(b);
    forall v: Value | v.secret && Real(v) && !v.base.BooleanValue? && Holds(env, lhs, v)
      ensures Listed(env, AndOrSecrets(Or, lhs, rhs), v)
    {
      SecretsAreExact(env, lhs, v);
      assert Logical(Or, v, b) == Some(v);
    }
  }

  lemma OrResultIsListed(env: Env, lhs: ValueType, rhs: ValueType, a: Value, b: Value)
    requires Has(env, lhs, a) && Has(env, rhs, b) && Real(a) && Real(b)
    requires LetsThrough(env, Or, lhs) ==> AllListed(env, rhs, AndOrSecrets(Or, lhs, rhs), true)
    requires Inhabited(env, rhs) ==> AllListed(env, lhs, AndOrSecrets(Or, lhs, rhs), false)
    ensures ResultIsListed(env, Or, lhs, rhs, a, b)
  {
    hide AndOrSecrets, Has, Wraps;
    if !TestFails(a) {
      if IsFalsy(a) && b.secret {
        var s := SecretIsWrapped(env, rhs, b);
      } else if !IsFalsy(a) && a.secret {
        var s := SecretIsWrapped(env, lhs, a);
      }
    }
  }

  // ---- what the rule sees

  /** Every secret of the type is one that the rule looks at. */
  ghost predicate SecretsSeen(t: ValueType) {
    forall s :: Wraps(t, s) ==> s in SecretMembers(t)
  }

  /** A secret result of `a and b` or `a or b` that does not fail has a listed type, when the rule sees all
      secrets of the operands. */
  lemma AndOrSecretsIsSound(env: Env, op: Operator, lhs: ValueType, rhs: ValueType, a: Value, b: Value)
    requires op.And? || (op.Or? && SecretsSeen(lhs))
    requires SecretsSeen(rhs) && Has(env, lhs, a) && Has(env, rhs, b) && Real(a)
    ensures var r := Logical(op, a, b);
            r.Some? && r.value.secret ==> Listed(env, AndOrSecrets(op, lhs, rhs), r.value)
  {
    hide Has, Wraps, SecretMembers;
    if !TestFails(a) {
      if b.secret {
        var s := SecretIsWrapped(env, rhs, b);
        assert s in AndOrSecrets(op, lhs, rhs);
      }
      if a.secret && op.Or? {
        var s := SecretIsWrapped(env, lhs, a);
        if StripOpaque(s).Boolean? {
          StrippedIsBoolean(env, s, if Has(env, s, a) then a else Flipped(a));
        }
        assert s in AndOrSecrets(op, lhs, rhs);
      }
    }
  }

  /** It does not see a secret under an alias: `true and x`, where `x` is an alias of a secret number, yields
      the secret, and nothing is listed. */
  lemma AliasHidesSecret(env: Env, alias: string, rhs: ValueType, n: int)
    requires rhs == OpaqueAlias(alias, Secret(Number))
    ensures var a, b := Value(BooleanValue(true), false), Value(NumberValue(n), true);
            && Has(env, Boolean(Some(true)), a) && Has(env, rhs, b) && Logical(And, a, b) == Some(b)
            && AndOrSecrets(And, Boolean(Some(true)), rhs) == []
    ensures !ResultsAreListed(env, And, Boolean(Some(true)), rhs)
  {
    var a, b := Value(BooleanValue(true), false), Value(NumberValue(n), true);
    assert Has(env, Secret(Number), b) && Has(env, rhs, b);
    assert Real(a) && Real(b) && Logical(And, a, b) == Some(b);
    assert SecretMembers(rhs) == [] && AndOrSecrets(And, Boolean(Some(true)), rhs) == [];
  }

  // ---- nothing is listed in vain

  lemma {:induction false} ListedIsSecretValue(env: Env, t: ValueType, s: ValueType, base: Base, secret: bool)
    requires s in SecretMembers(t) && Has(env, s, Value(base, secret))
    ensures Has(env, t, Value(base, true))
    decreases t
  {
    match t
    case Union(members) =>
      SecretMembersOfContains(members, s);
      var i :| 0 <= i < |members| && s in SecretMembers(members[i]);
      ListedIsSecretValue(env, members[i], s, base, secret);
    case _ =>
  }

  /** Nothing is listed in vain: with a left operand that lets the right one through, every truthy value
      of a listed type can be a secret result, unless it is a boolean that only the left operand has. */
  lemma AndOrSecretsIsTight(env: Env, op: Operator, lhs: ValueType, rhs: ValueType, pass: Value, b: Value,
        s: ValueType, base: Base, secret: bool) returns (a: Value, c: Value)
    requires (op.And? || op.Or?) && Has(env, lhs, pass) && !TestFails(pass) && IsFalsy(pass) == op.Or?
    requires Has(env, rhs, b)
    requires s in AndOrSecrets(op, lhs, rhs) && Has(env, s, Value(base, secret)) && !IsFalsy(Value(base, secret))
    requires base.BooleanValue? ==> s in SecretMembers(rhs)
    ensures Has(env, lhs, a) && Has(env, rhs, c) && Logical(op, a, c) == Some(Value(base, true))
  {
    if s in SecretMembers(rhs) {
      ListedIsSecretValue(env, rhs, s, base, secret);
      a, c := pass, Value(base, true);
    } else {
      ListedIsSecretValue(env, lhs, s, base, secret);
      a, c := Value(base, true), b;
    }
  }

  /** A secret boolean of the left operand is not listed: its truth test fails, so it is never a result. */
  lemma LeftBooleansAreNotListed(env: Env, op: Operator, lhs: ValueType, rhs: ValueType, s: ValueType, a: Value,
        b: Value)
    requires (op.And? || op.Or?) && StripOpaque(s).Boolean?
    ensures s in AndOrSecrets(op, lhs, rhs) <==> s in SecretMembers(rhs)
    ensures HasBase(env, s, a) && a.secret ==> Logical(op, a, b) == None
  {
    if HasBase(env, s, a) {
      StrippedIsBoolean(env, s, if Has(env, s, a) then a else Flipped(a));
    }
  }
}
