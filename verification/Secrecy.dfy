/** Marking types as secret and taking the mark off again. */
module Secrecy {
  import opened Wrappers
  import opened Sequences
  import opened ValueTypes
  import opened Unions
  import opened UnionLaws
  import opened UnionMeaning

  /** Types as the analysis keeps them: a union's members are distinct, flat and in normal form. */
  ghost predicate NormalType(t: ValueType) {
    DistinctNonUnions(Members(t)) && NormalForm(ToSet(Members(t)))
  }

  lemma SingleIsNormal(t: ValueType)
    requires !t.Union?
    ensures NormalType(t)
  {
    assert ToSet([t]) == {t};
    assert InnersSet({t}) == if t.Secret? then {t.inner} else {};
  }

  predicate Wrappable(t: ValueType) {
    t.Boolean? || t.Number? || t.NumberLiteral? || t.String? || t.KeyOf? || t.TypeVariable? || t.OpaqueAlias?
  }

  function SecretOf(t: ValueType): ValueType {
    match t
    case Union(members) =>
      UnionOf(seq(|members|, i requires 0 <= i < |members| => SecretOf(members[i])))
    case _ => if Wrappable(t) then Secret(t) else t
  }

  predicate HasSecret(t: ValueType) {
    match t
    case Secret(_) => true
    case Union(members) => exists i :: 0 <= i < |members| && HasSecret(members[i])
    case _ => false
  }

  function StripSecret(t: ValueType): ValueType {
    match t
    case Secret(inner) => StripSecret(inner)
    case Union(members) =>
      if HasSecret(t) then UnionOf(seq(|members|, i requires 0 <= i < |members| => StripSecret(members[i])))
      else t
    case _ => t
  }

  function StripOpaque(t: ValueType): ValueType {
    match t
    case OpaqueAlias(_, inner) => StripOpaque(inner)
    case Secret(inner) => StripOpaque(inner)
    case _ => t
  }

  /** `strip_opaque`: unwraps until neither an alias nor a secret is left. */
  method StripWrappers(t: ValueType) returns (r: ValueType)
    ensures r == StripOpaque(t) && !r.OpaqueAlias? && !r.Secret?
  {
    r := t;
    while r.OpaqueAlias? || r.Secret?
      invariant StripOpaque(r) == StripOpaque(t)
      decreases r
    {
      r := r.inner;
    }
  }

  /** A value of secret type `s` can be what `member` stands for: the same type, or a literal of it. */
  predicate Reaches(s: ValueType, member: ValueType) {
    s == member ||
    (s.String? && s.text.Some? && member == String(None)) ||
    (s.NumberLiteral? && member == Number) ||
    (s.Boolean? && s.lit.Some? && member == Boolean(None))
  }

  predicate Reachable(secrets: seq<ValueType>, member: ValueType) {
    exists i :: 0 <= i < |secrets| && (Reaches(secrets[i], member) || Reaches(StripOpaque(secrets[i]), member))
  }

  function Mark(secrets: seq<ValueType>, member: ValueType): ValueType {
    if Reachable(secrets, member) then SecretOf(member) else member
  }

  function WithSecretMembers(t: ValueType, secrets: seq<ValueType>): ValueType {
    match t
    case Union(members) => UnionOf(Apply(members, MarkWith(secrets)))
    case _ => Mark(secrets, t)
  }

  function MarkWith(secrets: seq<ValueType>): ValueType -> ValueType {
    (m: ValueType) => Mark(secrets, m)
  }

  // ---- list forms, for members that are not unions

  function Wrap(t: ValueType): ValueType {
    if Wrappable(t) then Secret(t) else t
  }

  function Unwrap(t: ValueType): ValueType {
    if t.Secret? then StripSecret(t.inner) else t
  }

  lemma SecretOfUnion(members: seq<ValueType>)
    requires forall m :: m in members ==> !m.Union?
    ensures SecretOf(Union(members)) == UnionOf(Apply(members, Wrap))
  {
    forall i | 0 <= i < |members| ensures SecretOf(members[i]) == Wrap(members[i]) {
      assert members[i] in members;
    }
    assert seq(|members|, i requires 0 <= i < |members| => SecretOf(members[i])) == Apply(members, Wrap);
  }

  lemma StripSecretUnion(members: seq<ValueType>)
    requires forall m :: m in members ==> !m.Union?
    ensures StripSecret(Union(members)) ==
            if exists m :: m in members && m.Secret? then UnionOf(Apply(members, Unwrap)) else Union(members)
  {
    forall i | 0 <= i < |members|
      ensures StripSecret(members[i]) == Unwrap(members[i]) && (HasSecret(members[i]) <==> members[i].Secret?)
    {
      assert members[i] in members;
    }
    assert seq(|members|, i requires 0 <= i < |members| => StripSecret(members[i])) == Apply(members, Unwrap);
    assert HasSecret(Union(members)) <==> exists m :: m in members && m.Secret?;
  }

  lemma FlattenApply(members: seq<ValueType>, f: ValueType -> ValueType)
    requires forall m :: m in members ==> !f(m).Union?
    ensures Flatten(Apply(members, f)) == Apply(members, f)
    ensures ToSet(Flatten(Apply(members, f))) == set m | m in members :: f(m)
  {
    ApplyContains(members, f);
    FlattenOfNonUnions(Apply(members, f));
  }

  /** A list of non-unions whose set is in normal form comes out of `make_union` with that set. */
  lemma NormalSetStays(ts: seq<ValueType>)
    requires (forall t :: t in ts ==> !t.Union?) && NormalForm(ToSet(ts))
    ensures Flat(ts) && ToSet(Members(UnionOf(ts))) == ToSet(ts) && NormalType(UnionOf(ts))
  {
    FlattenOfNonUnions(ts);
    MembersAreNormal(ts);
    NormalFormIsFixed(ToSet(ts));
  }

  // ---- the round trip

  ghost predicate SecretFree(t: ValueType) {
    forall m :: m in Members(t) ==> !m.Secret?
  }

  /** Wrapping the members of a secret-free type leaves a normal form. */
  lemma WrappedIsNormal(ts: set<ValueType>, wrapped: set<ValueType>)
    requires NormalForm(ts) && forall t :: t in ts ==> !t.Secret?
    requires wrapped == set t | t in ts :: Wrap(t)
    ensures NormalForm(wrapped)
  {
    forall t | t in wrapped ensures !Absorbed(wrapped, t) {
      assert Absorbed(wrapped, t) ==> t.Table? && Absorbed(ts, t);
    }
    forall t | t in InnersSet(wrapped) && Absorbed(InnersSet(wrapped), t) ensures t == Boolean(None) {
      assert forall u :: u in InnersSet(wrapped) ==> u in ts;
      assert Absorbed(ts, t);
    }
  }

  /** Marking a secret-free type secret and stripping the mark gives back its members. */
  lemma SecretRoundTrip(t: ValueType)
    requires NormalType(t) && SecretFree(t)
    ensures ToSet(Members(StripSecret(SecretOf(t)))) == ToSet(Members(t))
  {
    if t.Union? {
      var wrapped := Apply(t.members, Wrap);
      SecretOfUnion(t.members);
      FlattenApply(t.members, Wrap);
      WrappedIsNormal(ToSet(t.members), ToSet(wrapped));
      NormalSetStays(wrapped);
      UnwrapsTo(SecretOf(t), ToSet(t.members));
    } else {
      assert StripSecret(t) == t;
    }
  }

  /** Stripping a type whose members are the wrapped members of a normal set gives that set. */
  lemma UnwrapsTo(u: ValueType, ts: set<ValueType>)
    requires NormalForm(ts) && DistinctNonUnions(Members(u))
    requires forall t :: t in ts ==> !t.Secret? && !t.Union?
    requires ToSet(Members(u)) == set t | t in ts :: Wrap(t)
    ensures ToSet(Members(StripSecret(u))) == ts
  {
    UnwrappedSet(Members(u), ts);
    if u.Union? {
      StripSecretUnion(u.members);
      if exists m :: m in u.members && m.Secret? {
        UnwrappedUnion(u.members, ts);
      } else {
        NothingToUnwrap(u.members, ts);
      }
    } else {
      assert u in Members(u);
      assert Members(StripSecret(u)) == Apply(Members(u), Unwrap);
    }
  }

  lemma NothingToUnwrap(ms: seq<ValueType>, ts: set<ValueType>)
    requires ToSet(Apply(ms, Unwrap)) == ts && forall m :: m in ms ==> !m.Secret?
    ensures ToSet(ms) == ts
  {
    assert forall i :: 0 <= i < |ms| ==> ms[i] in ms;
    assert Apply(ms, Unwrap) == ms;
  }

  lemma UnwrappedUnion(ms: seq<ValueType>, ts: set<ValueType>)
    requires NormalForm(ts) && ToSet(Apply(ms, Unwrap)) == ts
    requires forall m :: m in ms ==> !Unwrap(m).Union?
    ensures ToSet(Members(UnionOf(Apply(ms, Unwrap)))) == ts
  {
    FlattenApply(ms, Unwrap);
    NormalSetStays(Apply(ms, Unwrap));
  }

  lemma UnwrappedSet(ms: seq<ValueType>, ts: set<ValueType>)
    requires forall t :: t in ts ==> !t.Secret? && !t.Union?
    requires ToSet(ms) == set t | t in ts :: Wrap(t)
    ensures (set m | m in ms :: Unwrap(m)) == ts
    ensures ToSet(Apply(ms, Unwrap)) == ts
    ensures forall m :: m in ms ==> !Unwrap(m).Union?
  {
    forall m | m in ms ensures Unwrap(m) in ts {
      assert m in ToSet(ms);
    }
    forall t | t in ts ensures Wrap(t) in ms && Unwrap(Wrap(t)) == t {
      assert Wrap(t) in ToSet(ms);
    }
    ApplyContains(ms, Unwrap);
  }

  // ---- what the mark changes

  ghost predicate HasBase(env: Env, t: ValueType, v: Value) {
    Has(env, t, v) || Has(env, t, Flipped(v))
  }

  /** A normal type has no swallowed enum table, and mapping its members without touching its tables
      gives it none. */
  lemma NothingSwallowed(env: Env, ts: set<ValueType>, mapped: set<ValueType>)
    requires NormalForm(ts)
    requires forall m :: m in mapped && m.Table? ==> m in ts
    requires forall m :: m in mapped && m.Secret? && m.inner.Table? ==> m in ts
    ensures NoneSwallowed(env, mapped)
  {
    forall t | t in ts && t.Table? && t.table.Some? ensures Table(None) !in ts {
      assert Absorbed(ts, t) <==> Table(None) in ts;
    }
    forall t | Secret(t) in ts && t.Table? && t.table.Some? ensures Secret(Table(None)) !in ts {
      assert t in InnersSet(ts);
      assert Table(None) in InnersSet(ts) <==> Secret(Table(None)) in ts;
      assert Absorbed(InnersSet(ts), t) <==> Table(None) in InnersSet(ts);
    }
  }

  lemma UnionOfMapped(env: Env, members: seq<ValueType>, f: ValueType -> ValueType, v: Value)
    requires NormalForm(ToSet(members))
    requires forall m :: m in members ==> !f(m).Union?
    requires forall m :: m in members && (f(m).Table? || (f(m).Secret? && f(m).inner.Table?)) ==> f(m) == m
    ensures Has(env, UnionOf(Apply(members, f)), v) <==> exists m :: m in members && Has(env, f(m), v)
  {
    FlattenApply(members, f);
    ApplyContains(members, f);
    NothingSwallowed(env, ToSet(members), ToSet(Flatten(Apply(members, f))));
    UnionKeepsMeaning(env, Apply(members, f), v);
    if HasAny(env, Apply(members, f), v) {
      var t :| t in Apply(members, f) && Has(env, t, v);
      var m :| m in members && f(m) == t;
    }
  }

  lemma WrapMeaning(env: Env, t: ValueType, v: Value)
    ensures HasBase(env, Wrap(t), v) <==> HasBase(env, t, v)
    ensures Has(env, t, v) ==> Has(env, Wrap(t), v)
  {
  }

  /** A map that wraps some members and leaves the others alone changes no value but for its mark. */
  lemma WrappingKeepsValues(env: Env, members: seq<ValueType>, f: ValueType -> ValueType, v: Value)
    requires DistinctNonUnions(members) && NormalForm(ToSet(members))
    requires forall m :: m in members ==> f(m) == m || f(m) == Wrap(m)
    ensures HasBase(env, UnionOf(Apply(members, f)), v) <==> HasBase(env, Union(members), v)
    ensures Has(env, Union(members), v) ==> Has(env, UnionOf(Apply(members, f)), v)
  {
    hide UnionOf, Has, NormalForm, Apply;
    var flipped := Flipped(v);
    UnionOfMapped(env, members, f, v);
    UnionOfMapped(env, members, f, flipped);
    HasMembers(env, Union(members), v);
    HasMembers(env, Union(members), flipped);
    forall m | m in members
      ensures HasBase(env, f(m), v) <==> HasBase(env, m, v)
      ensures Has(env, m, v) ==> Has(env, f(m), v)
      ensures Has(env, m, flipped) ==> Has(env, f(m), flipped)
    {
      WrapMeaning(env, m, v);
      WrapMeaning(env, m, flipped);
    }
  }

  /** Marking the members a secret can reach changes no value but for its mark, and loses none. */
  lemma MarkingKeepsValues(env: Env, t: ValueType, secrets: seq<ValueType>, v: Value)
    requires NormalType(t)
    ensures HasBase(env, WithSecretMembers(t, secrets), v) <==> HasBase(env, t, v)
    ensures Has(env, t, v) ==> Has(env, WithSecretMembers(t, secrets), v)
  {
    if t.Union? {
      WrappingKeepsValues(env, t.members, MarkWith(secrets), v);
    } else {
      WrapMeaning(env, t, v);
    }
  }

  lemma SecretOfMeaning(env: Env, t: ValueType, v: Value)
    requires NormalType(t)
    ensures HasBase(env, SecretOf(t), v) <==> HasBase(env, t, v)
    ensures Has(env, t, v) ==> Has(env, SecretOf(t), v)
  {
    if t.Union? {
      SecretOfUnion(t.members);
      WrappingKeepsValues(env, t.members, Wrap, v);
    } else {
      WrapMeaning(env, t, v);
    }
  }
}
