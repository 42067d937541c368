/** Narrowing by a truth test: which values of a type remain on the two sides of `if x then`. */
module Narrowing {
  import opened Wrappers
  import opened Sequences
  import opened ValueTypes
  import opened Unions
  import opened UnionLaws
  import opened UnionMeaning
  import opened Secrecy

  /** `filter_map` on an iterator. */
  function FilterMap(ts: seq<ValueType>, f: ValueType -> Option<ValueType>): seq<ValueType> {
    if ts == [] then []
    else FilterMap(ts[..|ts| - 1], f) + match f(ts[|ts| - 1]) case None => [] case Some(u) => [u]
  }

  lemma {:induction false} FilterMapContains(ts: seq<ValueType>, f: ValueType -> Option<ValueType>)
    ensures forall u :: u in FilterMap(ts, f) <==> exists t :: t in ts && f(t) == Some(u)
    decreases |ts|
  {
    if ts != [] {
      var n := |ts| - 1;
      FilterMapContains(ts[..n], f);
      assert ts == ts[..n] + [ts[n]];
    }
  }

  function TruthyMember(t: ValueType): Option<ValueType> {
    match t
    case Nil => None
    case Boolean(Some(false)) => None
    case Boolean(None) => Some(Boolean(Some(true)))
    case Secret(inner) => (match TruthyMember(inner) case None => None case Some(m) => Some(Secret(m)))
    case _ => Some(t)
  }

  function StripFalsy(t: ValueType): ValueType {
    match t
    case Union(members) => UnionOf(FilterMap(members, TruthyMember))
    case _ => (match TruthyMember(t) case Some(m) => m case None => UnionOf([]))
  }

  function FalsyMember(t: ValueType): Option<ValueType> {
    match t
    case Nil => Some(Nil)
    case Boolean(Some(false)) => Some(Boolean(Some(false)))
    case Boolean(None) => Some(Boolean(Some(false)))
    case Secret(inner) => (match FalsyMember(inner) case None => None case Some(m) => Some(Secret(m)))
    case _ => None
  }

  function StripTruthy(t: ValueType): ValueType {
    match t
    case Union(members) =>
      var filtered := FilterMap(members, FalsyMember);
      if filtered == [] then t else UnionOf(filtered)
    case _ => (match FalsyMember(t) case Some(m) => m case None => t)
  }

  function NotNil(t: ValueType): Option<ValueType> {
    if t.Nil? then None else Some(t)
  }

  function StripNil(t: ValueType): ValueType {
    match t
    case Nil => UnionOf([])
    case Union(members) => UnionOf(FilterMap(members, NotNil))
    case _ => t
  }

  // ---- how the member maps treat values

  /** No value of the type is `nil` or `false`, whatever the names in it refer to. */
  predicate NeverFalsy(t: ValueType) {
    match t
    case Boolean(lit) => lit == Some(true)
    case OpaqueAlias(_, inner) => NeverFalsy(inner)
    case Secret(inner) => NeverFalsy(inner)
    case Any => false
    case Nil => false
    case TypeVariable(_) => false
    case Union(members) => forall i :: 0 <= i < |members| ==> NeverFalsy(members[i])
    case Intersection(parts) => exists i :: 0 <= i < |parts| && NeverFalsy(parts[i])
    case _ => true
  }

  /** Whether the type holds falsy values can be read off its constructor. */
  predicate FalsyVisible(t: ValueType) {
    t.Nil? || t.Boolean? || (t.Secret? && FalsyVisible(t.inner)) || NeverFalsy(t)
  }

  lemma {:induction false} NeverFalsyIsTruthy(env: Env, t: ValueType, v: Value)
    requires NeverFalsy(t) && Has(env, t, v)
    ensures !IsFalsy(v)
    decreases t
  {
    match t
    case OpaqueAlias(_, inner) => NeverFalsyIsTruthy(env, inner, v);
    case Secret(inner) =>
      NeverFalsyIsTruthy(env, inner, if Has(env, inner, v) then v else Flipped(v));
    case Union(members) =>
      var i :| 0 <= i < |members| && Has(env, members[i], v);
      NeverFalsyIsTruthy(env, members[i], v);
    case Intersection(parts) =>
      var i :| 0 <= i < |parts| && NeverFalsy(parts[i]);
      NeverFalsyIsTruthy(env, parts[i], v);
    case _ =>
  }

  ghost predicate HasOption(env: Env, t: Option<ValueType>, v: Value) {
    t.Some? && Has(env, t.value, v)
  }

  lemma SecretVisibility(inner: ValueType)
    ensures FalsyVisible(Secret(inner)) ==> FalsyVisible(inner)
  {
  }

  lemma {:induction false} TruthyMemberMeaning(env: Env, t: ValueType, v: Value)
    ensures HasOption(env, TruthyMember(t), v) ==> Has(env, t, v)
    ensures Has(env, t, v) && !IsFalsy(v) ==> HasOption(env, TruthyMember(t), v)
    ensures FalsyVisible(t) && HasOption(env, TruthyMember(t), v) ==> !IsFalsy(v)
    decreases t
  {
    hide NeverFalsy;
    if t.Secret? {
      TruthyMemberMeaning(env, t.inner, v);
      TruthyMemberMeaning(env, t.inner, Flipped(v));
      SecretVisibility(t.inner);
    } else if NeverFalsy(t) && Has(env, t, v) {
      NeverFalsyIsTruthy(env, t, v);
    }
  }

  lemma {:induction false} FalsyMemberMeaning(env: Env, t: ValueType, v: Value)
    ensures HasOption(env, FalsyMember(t), v) ==> Has(env, t, v) && IsFalsy(v)
    ensures FalsyVisible(t) && Has(env, t, v) && IsFalsy(v) ==> HasOption(env, FalsyMember(t), v)
    decreases t
  {
    hide NeverFalsy, FalsyVisible;
    if t.Secret? {
      FalsyMemberMeaning(env, t.inner, v);
      FalsyMemberMeaning(env, t.inner, Flipped(v));
      SecretVisibility(t.inner);
    } else {
      FalsyLeafMeaning(env, t, v);
    }
  }

  lemma FalsyLeafMeaning(env: Env, t: ValueType, v: Value)
    requires !t.Secret?
    ensures HasOption(env, FalsyMember(t), v) ==> Has(env, t, v) && IsFalsy(v)
    ensures FalsyVisible(t) && Has(env, t, v) && IsFalsy(v) ==> HasOption(env, FalsyMember(t), v)
  {
    hide NeverFalsy;
    if NeverFalsy(t) && Has(env, t, v) {
      NeverFalsyIsTruthy(env, t, v);
    }
  }

  lemma {:induction false} TruthyMemberShape(t: ValueType, m: ValueType)
    requires TruthyMember(t) == Some(m)
    ensures TruthyMember(m) == Some(m)
    ensures m.Union? ==> m == t
    ensures m.Table? || (m.Secret? && m.inner.Table?) ==> m == t
    decreases t
  {
    if t.Secret? {
      TruthyMemberShape(t.inner, m.inner);
    }
  }

  lemma {:induction false} FalsyMemberShape(t: ValueType, m: ValueType)
    requires FalsyMember(t) == Some(m)
    ensures FalsyMember(m) == Some(m) && !m.Union? && !m.Table? && !(m.Secret? && m.inner.Table?)
    decreases t
  {
    if t.Secret? {
      FalsyMemberShape(t.inner, m.inner);
    }
  }

  // ---- meaning of the strips

  /** A union of filtered members has the values the filter leaves, when it touches no table. */
  lemma FilteredMeaning(env: Env, members: seq<ValueType>, f: ValueType -> Option<ValueType>, v: Value)
    requires DistinctNonUnions(members) && NormalForm(ToSet(members))
    requires forall t :: t in members && f(t).Some? ==>
               var m := f(t).value; (m.Union? || m.Table? || (m.Secret? && m.inner.Table?) ==> m == t)
    ensures Has(env, UnionOf(FilterMap(members, f)), v) <==> exists t :: t in members && HasOption(env, f(t), v)
  {
    var filtered := FilterMap(members, f);
    FilterMapContains(members, f);
    forall m | m in filtered
      ensures !m.Union? && (m.Table? || (m.Secret? && m.inner.Table?) ==> m in members)
    {
      var t :| t in members && f(t) == Some(m);
    }
    FlattenOfNonUnions(filtered);
    NothingSwallowed(env, ToSet(members), ToSet(filtered));
    UnionKeepsMeaning(env, filtered, v);
    if HasAny(env, filtered, v) {
      var m :| m in filtered && Has(env, m, v);
      var t :| t in members && f(t) == Some(m);
      assert HasOption(env, f(t), v);
    }
  }

  lemma EmptyUnionHasNothing(env: Env, v: Value)
    ensures UnionOf([]) == Union([]) && !Has(env, UnionOf([]), v)
  {
    hide UnionOf;
    UnionOfNone([]);
  }

  /** The then-branch of a truth test keeps every truthy value of the type and adds none. Where the
      members show their falsy values, it keeps nothing else. */
  lemma StripFalsyMeaning(env: Env, t: ValueType, v: Value)
    requires NormalType(t)
    ensures Has(env, StripFalsy(t), v) ==> Has(env, t, v)
    ensures Has(env, t, v) && !IsFalsy(v) ==> Has(env, StripFalsy(t), v)
    ensures (forall m :: m in Members(t) ==> FalsyVisible(m)) ==>
              (Has(env, StripFalsy(t), v) <==> Has(env, t, v) && !IsFalsy(v))
  {
    if t.Union? {
      forall m | m in t.members && TruthyMember(m).Some?
        ensures var u := TruthyMember(m).value; u.Union? || u.Table? || (u.Secret? && u.inner.Table?) ==> u == m
      {
        TruthyMemberShape(m, TruthyMember(m).value);
      }
      FilteredMeaning(env, t.members, TruthyMember, v);
      HasMembers(env, t, v);
      forall m | m in t.members
        ensures HasOption(env, TruthyMember(m), v) ==> Has(env, m, v)
        ensures Has(env, m, v) && !IsFalsy(v) ==> HasOption(env, TruthyMember(m), v)
        ensures FalsyVisible(m) && HasOption(env, TruthyMember(m), v) ==> !IsFalsy(v)
      {
        TruthyMemberMeaning(env, m, v);
      }
    } else {
      assert t in Members(t);
      TruthyMemberMeaning(env, t, v);
      EmptyUnionHasNothing(env, v);
    }
  }

  lemma FalsyMembersMeaning(env: Env, members: seq<ValueType>, v: Value)
    requires DistinctNonUnions(members) && NormalForm(ToSet(members))
    ensures var u := UnionOf(FilterMap(members, FalsyMember));
            && (Has(env, u, v) ==> HasAny(env, members, v) && IsFalsy(v))
            && ((forall m :: m in members ==> FalsyVisible(m)) && HasAny(env, members, v) && IsFalsy(v) ==>
                  Has(env, u, v))
  {
    forall m | m in members && FalsyMember(m).Some?
      ensures var u := FalsyMember(m).value; u.Union? || u.Table? || (u.Secret? && u.inner.Table?) ==> u == m
    {
      FalsyMemberShape(m, FalsyMember(m).value);
    }
    FilteredMeaning(env, members, FalsyMember, v);
    if t :| t in members && HasOption(env, FalsyMember(t), v) {
      FalsyMemberMeaning(env, t, v);
    }
    if HasAny(env, members, v) {
      var t :| t in members && Has(env, t, v);
      FalsyMemberMeaning(env, t, v);
    }
  }

  lemma NoFalsyMembers(members: seq<ValueType>)
    ensures FilterMap(members, FalsyMember) == [] <==> forall m :: m in members ==> FalsyMember(m).None?
  {
    FilterMapContains(members, FalsyMember);
    if FilterMap(members, FalsyMember) != [] {
      assert FilterMap(members, FalsyMember)[0] in FilterMap(members, FalsyMember);
    }
  }

  /** The else-branch keeps every falsy value, when the members show their falsy values. It adds none;
      and unless the type has no falsy member at all, it keeps nothing else. */
  lemma StripTruthyMeaning(env: Env, t: ValueType, v: Value)
    requires NormalType(t)
    ensures Has(env, StripTruthy(t), v) ==> Has(env, t, v)
    ensures (exists m :: m in Members(t) && FalsyMember(m).Some?) && Has(env, StripTruthy(t), v) ==> IsFalsy(v)
    ensures (forall m :: m in Members(t) ==> FalsyVisible(m)) ==>
              (Has(env, t, v) && IsFalsy(v) ==> Has(env, StripTruthy(t), v))
  {
    if t.Union? {
      NoFalsyMembers(t.members);
      HasMembers(env, t, v);
      FalsyMembersMeaning(env, t.members, v);
    } else {
      assert t in Members(t);
      FalsyMemberMeaning(env, t, v);
    }
  }

  /** The two branches together cover the type: no value of it is lost by a truth test. */
  lemma TruthTestCovers(env: Env, t: ValueType, v: Value)
    requires NormalType(t) && forall m :: m in Members(t) ==> FalsyVisible(m)
    ensures Has(env, t, v) <==> Has(env, StripFalsy(t), v) || Has(env, StripTruthy(t), v)
  {
    StripFalsyMeaning(env, t, v);
    StripTruthyMeaning(env, t, v);
  }
}
