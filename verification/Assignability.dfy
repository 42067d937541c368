/** Which types flow into which: the relation, and what aliases, secrecy, unions and intersections do to
    it. */
module Assignability {
  import opened Wrappers
  import opened ValueTypes
  import opened Secrecy

  /** `keyof` outweighs `string`, into which it unfolds. */
  function Weight(t: ValueType): nat {
    match t
    case KeyOf(_) => 2
    case Secret(inner) => 1 + Weight(inner)
    case OpaqueAlias(_, inner) => 1 + Weight(inner)
    case Union(members) => 1 + Weights(members)
    case Intersection(parts) => 1 + Weights(parts)
    case _ => 1
  }

  function Weights(ts: seq<ValueType>): (w: nat)
    ensures forall i :: 0 <= i < |ts| ==> Weight(ts[i]) <= w
  {
    if ts == [] then 0 else Weight(ts[0]) + Weights(ts[1..])
  }

  /** `is_assignable_to`. */
  predicate IsAssignable(actual: ValueType, expected: ValueType)
    decreases Weight(actual) + Weight(expected)
  {
    if actual == expected then true
    else if actual.Any? || expected.Any? then true
    else if actual.KeyOf? then IsAssignable(String(None), expected)
    else if expected.KeyOf? then IsAssignable(actual, String(None))
    else if actual.Secret? then IsAssignable(actual.inner, expected)
    else if expected.Secret? then IsAssignable(actual, expected.inner)
    else if actual.Nil? && expected.Union? then Nil in expected.members
    else if actual.Boolean? && expected.Boolean? && (actual.lit.None? || expected.lit.None?) then true
    else if actual.String? && expected.String? && (actual.text.None? || expected.text.None?) then true
    else if (actual.NumberLiteral? && expected.Number?) || (actual.Number? && expected.NumberLiteral?) then true
    else if actual.Function? && expected.Function? then true
    else if actual.Table? && expected.Table? && (actual.table.None? || expected.table.None?) then true
    else if actual.FunctionSig? && (expected.Function? || expected.FunctionSig?) then true
    else if actual.Function? && expected.FunctionSig? then true
    else if actual.TableShape? && (expected.Table? || expected.TableShape?) then true
    else if actual.Table? && expected.TableShape? then true
    else if actual.Intersection? && expected.Intersection? then
      forall i :: 0 <= i < |expected.parts| ==>
        exists j :: 0 <= j < |actual.parts| && IsAssignable(actual.parts[j], expected.parts[i])
    else if actual.Intersection? then exists j :: 0 <= j < |actual.parts| && IsAssignable(actual.parts[j], expected)
    else if expected.Intersection? then
      forall i :: 0 <= i < |expected.parts| ==> IsAssignable(actual, expected.parts[i])
    else if actual.Union? then forall i :: 0 <= i < |actual.members| ==> IsAssignable(actual.members[i], expected)
    else if expected.Union? then exists i :: 0 <= i < |expected.members| && IsAssignable(actual, expected.members[i])
    else if actual.TypeVariable? || expected.TypeVariable? then true
    else if actual.OpaqueAlias? && expected.OpaqueAlias? && actual.alias != expected.alias then false
    else if expected.OpaqueAlias? then IsAssignable(actual, expected.inner)
    else if actual.OpaqueAlias? then IsAssignable(actual.inner, expected)
    else false
  }

  // ---- types without parts

  datatype Family =
    | NilFamily | BooleanFamily | NumberFamily | StringFamily | TableFamily
    | FunctionFamily | UserdataFamily | ThreadFamily

  /** What kind of value a type without parts stands for. */
  function FamilyOf(t: ValueType): Option<Family> {
    match t
    case Nil => Some(NilFamily)
    case Boolean(_) => Some(BooleanFamily)
    case Number => Some(NumberFamily)
    case NumberLiteral(_) => Some(NumberFamily)
    case String(_) => Some(StringFamily)
    case KeyOf(_) => Some(StringFamily)
    case Table(_) => Some(TableFamily)
    case TableShape(_) => Some(TableFamily)
    case Function(_) => Some(FunctionFamily)
    case FunctionSig(_) => Some(FunctionFamily)
    case Userdata => Some(UserdataFamily)
    case Thread => Some(ThreadFamily)
    case _ => None
  }

  /** A type whose values are not told apart: it may be any of its family. */
  predicate Loose(t: ValueType) {
    || t == Boolean(None) || t == String(None) || t.KeyOf? || t.Number?
    || t == Table(None) || t.TableShape? || t.Function? || t.FunctionSig?
  }

  lemma BasicFlowWithoutKeys(actual: ValueType, expected: ValueType)
    requires FamilyOf(actual).Some? && FamilyOf(expected).Some? && !actual.KeyOf? && !expected.KeyOf?
    ensures IsAssignable(actual, expected) <==>
            actual == expected || (FamilyOf(actual) == FamilyOf(expected) && (Loose(actual) || Loose(expected)))
  {
  }

  function Unkeyed(t: ValueType): ValueType {
    if t.KeyOf? then String(None) else t
  }

  lemma UnkeyedFlow(actual: ValueType, expected: ValueType)
    ensures IsAssignable(actual, expected) <==> IsAssignable(Unkeyed(actual), Unkeyed(expected))
  {
    hide IsAssignable;
    if actual.KeyOf? {
      KeyOfIsString(actual.target, expected);
    }
    if expected.KeyOf? {
      KeyOfIsString(expected.target, Unkeyed(actual));
    }
  }

  /** Two types without parts flow into each other exactly if they are the same, or of one family and
      one of them may be any of it. So two literals, or two classes, never do. */
  lemma BasicFlow(actual: ValueType, expected: ValueType)
    requires FamilyOf(actual).Some? && FamilyOf(expected).Some?
    ensures IsAssignable(actual, expected) <==>
            actual == expected || (FamilyOf(actual) == FamilyOf(expected) && (Loose(actual) || Loose(expected)))
  {
    hide IsAssignable;
    UnkeyedFlow(actual, expected);
    BasicFlowWithoutKeys(Unkeyed(actual), Unkeyed(expected));
  }

  /** Where the relation is transitive between types without parts: unless both ends are literals, classes
      or the like, and different. */
  lemma BasicFlowTwice(a: ValueType, b: ValueType, c: ValueType)
    requires FamilyOf(a).Some? && FamilyOf(b).Some? && FamilyOf(c).Some?
    requires IsAssignable(a, b) && IsAssignable(b, c)
    ensures IsAssignable(a, c) <==> a == c || Loose(a) || Loose(c)
  {
    hide IsAssignable, FamilyOf, Loose;
    BasicFlow(a, c);
    if a != b && b != c {
      BasicFlow(a, b);
      BasicFlow(b, c);
    } else if a != b {
      BasicFlow(a, b);
    } else if b != c {
      BasicFlow(b, c);
    }
  }

  lemma AliasFlowWithoutKeys(alias: string, inner: ValueType, basic: ValueType)
    requires FamilyOf(basic).Some? && !basic.KeyOf?
    ensures IsAssignable(OpaqueAlias(alias, inner), basic) <==> IsAssignable(inner, basic)
    ensures IsAssignable(basic, OpaqueAlias(alias, inner)) <==> IsAssignable(basic, inner)
  {
    AliasActual(alias, inner, basic);
    AliasExpected(alias, inner, basic);
  }

  lemma AliasActual(alias: string, inner: ValueType, basic: ValueType)
    requires FamilyOf(basic).Some? && !basic.KeyOf?
    ensures IsAssignable(OpaqueAlias(alias, inner), basic) <==> IsAssignable(inner, basic)
  {
  }

  lemma AliasExpected(alias: string, inner: ValueType, basic: ValueType)
    requires FamilyOf(basic).Some? && !basic.KeyOf?
    ensures IsAssignable(basic, OpaqueAlias(alias, inner)) <==> IsAssignable(basic, inner)
  {
  }

  /** An opaque alias flows as what it stands for. */
  lemma AliasFlow(alias: string, inner: ValueType, basic: ValueType)
    requires FamilyOf(basic).Some?
    ensures IsAssignable(OpaqueAlias(alias, inner), basic) <==> IsAssignable(inner, basic)
    ensures IsAssignable(basic, OpaqueAlias(alias, inner)) <==> IsAssignable(basic, inner)
  {
    hide IsAssignable;
    AliasFlowWithoutKeys(alias, inner, Unkeyed(basic));
    if basic.KeyOf? {
      KeyOfIsString(basic.target, inner);
      KeyOfIsString(basic.target, OpaqueAlias(alias, inner));
    }
  }

  /** But never into another alias; one of the same name is no obstacle. */
  lemma AliasesApart(alias: string, inner: ValueType, other: string, target: ValueType)
    ensures alias != other ==> !IsAssignable(OpaqueAlias(alias, inner), OpaqueAlias(other, target))
    ensures IsAssignable(OpaqueAlias(alias, inner), OpaqueAlias(alias, inner))
    ensures FamilyOf(target).Some? ==>
              (IsAssignable(OpaqueAlias(alias, inner), OpaqueAlias(alias, target)) <==> IsAssignable(inner, target))
  {
    if FamilyOf(target).Some? {
      SameAlias(alias, inner, target);
    }
  }

  lemma SameAlias(alias: string, inner: ValueType, target: ValueType)
    requires FamilyOf(target).Some?
    ensures IsAssignable(OpaqueAlias(alias, inner), OpaqueAlias(alias, target)) <==> IsAssignable(inner, target)
  {
    AliasFlow(alias, inner, target);
    if inner == target {
      FlowBasics(inner);
    } else {
      AliasesUnfold(alias, inner, target);
    }
  }

  lemma AliasesUnfold(alias: string, inner: ValueType, target: ValueType)
    requires inner != target
    ensures IsAssignable(OpaqueAlias(alias, inner), OpaqueAlias(alias, target)) ==
            IsAssignable(OpaqueAlias(alias, inner), target)
  {
  }

  // ---- what secrecy and `keyof` contribute: nothing

  lemma KeyOfIsString(target: string, t: ValueType)
    ensures IsAssignable(KeyOf(target), t) <==> IsAssignable(String(None), t)
    ensures IsAssignable(t, KeyOf(target)) <==> IsAssignable(t, String(None))
  {
  }

  lemma SecretActualUnfolds(inner: ValueType, expected: ValueType)
    requires expected != Secret(inner) && !expected.Any? && !expected.KeyOf?
    ensures IsAssignable(Secret(inner), expected) == IsAssignable(inner, expected)
  {
  }

  lemma SecretExpectedUnfolds(actual: ValueType, inner: ValueType)
    requires actual != Secret(inner) && !actual.Any? && !actual.KeyOf? && !actual.Secret?
    ensures IsAssignable(actual, Secret(inner)) == IsAssignable(actual, inner)
  {
  }

  lemma FlowBasics(t: ValueType)
    ensures IsAssignable(t, t) && IsAssignable(t, Any) && IsAssignable(Any, t)
  {
  }

  /** A secret value flows exactly where its underlying value does. */
  lemma {:induction false} SecretActual(inner: ValueType, expected: ValueType)
    ensures IsAssignable(Secret(inner), expected) <==> IsAssignable(inner, expected)
    decreases inner, 1
  {
    hide IsAssignable;
    if expected.KeyOf? {
      KeyOfIsString(expected.target, Secret(inner));
      KeyOfIsString(expected.target, inner);
      SecretActualUnfolds(inner, String(None));
    } else if expected == Secret(inner) {
      FlowBasics(inner);
      FlowBasics(expected);
      SecretExpected(inner, inner);
    } else if expected.Any? {
      FlowBasics(inner);
      FlowBasics(Secret(inner));
    } else {
      SecretActualUnfolds(inner, expected);
    }
  }

  lemma {:induction false} SecretExpected(actual: ValueType, inner: ValueType)
    ensures IsAssignable(actual, Secret(inner)) <==> IsAssignable(actual, inner)
    decreases actual, 0
  {
    hide IsAssignable;
    if actual == Secret(inner) {
      FlowBasics(inner);
      FlowBasics(actual);
      SecretActual(inner, inner);
    } else if actual.KeyOf? {
      KeyOfIsString(actual.target, inner);
      KeyOfIsString(actual.target, Secret(inner));
      SecretExpectedUnfolds(String(None), inner);
    } else if actual.Secret? {
      SecretExpected(actual.inner, inner);
      SecretActual(actual.inner, inner);
      SecretActualUnfolds(actual.inner, Secret(inner));
    } else if actual.Any? {
      FlowBasics(inner);
      FlowBasics(Secret(inner));
    } else {
      SecretExpectedUnfolds(actual, inner);
    }
  }

  // ---- unions and intersections on either side

  /** A member of a well-formed union: neither a union nor an intersection, and secret only where
      marking a type as secret puts it. */
  predicate Plain(t: ValueType) {
    !t.Union? && !t.Intersection? && (t.Secret? ==> Wrappable(t.inner))
  }

  ghost predicate AllPlain(ts: seq<ValueType>) {
    forall i :: 0 <= i < |ts| ==> Plain(ts[i])
  }

  ghost predicate AllFlow(ts: seq<ValueType>, expected: ValueType) {
    forall i :: 0 <= i < |ts| ==> IsAssignable(ts[i], expected)
  }

  ghost predicate FlowsToSome(actual: ValueType, ts: seq<ValueType>) {
    exists i :: 0 <= i < |ts| && IsAssignable(actual, ts[i])
  }

  ghost predicate FlowsToAll(actual: ValueType, ts: seq<ValueType>) {
    forall i :: 0 <= i < |ts| ==> IsAssignable(actual, ts[i])
  }

  /** A value flows into a union exactly if it flows into a member, but for `nil`, which the union must
      list. */
  lemma FlowIntoUnion(actual: ValueType, members: seq<ValueType>)
    requires Plain(actual) && !actual.Any?
    ensures IsAssignable(actual, Union(members)) <==>
            if actual.Nil? then Nil in members else FlowsToSome(actual, members)
  {
    if actual.KeyOf? {
      forall i | 0 <= i < |members|
        ensures IsAssignable(actual, members[i]) <==> IsAssignable(String(None), members[i])
      {
        KeyOfIsString(actual.target, members[i]);
      }
    } else if actual.Secret? {
      SecretActual(actual.inner, Union(members));
      FlowIntoUnion(actual.inner, members);
      forall i | 0 <= i < |members|
        ensures IsAssignable(actual, members[i]) <==> IsAssignable(actual.inner, members[i])
      {
        SecretActual(actual.inner, members[i]);
      }
    }
  }

  /** A value flows into an intersection exactly if it flows into every part, unless it is an
      intersection itself. */
  lemma FlowIntoIntersection(actual: ValueType, parts: seq<ValueType>)
    requires actual.Union? || Plain(actual)
    ensures IsAssignable(actual, Intersection(parts)) <==> FlowsToAll(actual, parts)
  {
    if actual.KeyOf? {
      forall i | 0 <= i < |parts|
        ensures IsAssignable(actual, parts[i]) <==> IsAssignable(String(None), parts[i])
      {
        KeyOfIsString(actual.target, parts[i]);
      }
    } else if actual.Secret? {
      FlowIntoIntersection(actual.inner, parts);
      SecretActual(actual.inner, Intersection(parts));
      forall i | 0 <= i < |parts|
        ensures IsAssignable(actual, parts[i]) <==> IsAssignable(actual.inner, parts[i])
      {
        SecretActual(actual.inner, parts[i]);
      }
    }
  }

  lemma {:induction false} FlowOutOfIntersection(parts: seq<ValueType>, expected: ValueType)
    requires !expected.Any? && (expected.Union? || Plain(expected))
    ensures IsAssignable(Intersection(parts), expected) <==>
            exists i :: 0 <= i < |parts| && IsAssignable(parts[i], expected)
    decreases expected
  {
    if expected.KeyOf? {
      forall i | 0 <= i < |parts|
        ensures IsAssignable(parts[i], expected) <==> IsAssignable(parts[i], String(None))
      {
        KeyOfIsString(expected.target, parts[i]);
      }
    } else if expected.Secret? {
      FlowOutOfIntersection(parts, expected.inner);
      SecretExpected(Intersection(parts), expected.inner);
      forall i | 0 <= i < |parts|
        ensures IsAssignable(parts[i], expected) <==> IsAssignable(parts[i], expected.inner)
      {
        SecretExpected(parts[i], expected.inner);
      }
    }
  }

  /** Between two intersections nothing but single flows decides: each part expected must be met, by whatever
      part there is. Nothing at all flows into `any` when it is asked of no part. */
  lemma IntersectionsFlow(parts: seq<ValueType>, expected: seq<ValueType>)
    requires forall i :: 0 <= i < |expected| ==> expected[i].Union? || Plain(expected[i])
    ensures IsAssignable(Intersection(parts), Intersection(expected)) <==>
            || parts == expected
            || ((Any in expected ==> parts != []) && FlowsToAll(Intersection(parts), expected))
  {
    hide IsAssignable;
    FlowBasics(Intersection(parts));
    forall i | 0 <= i < |expected|
      ensures FlowsFromSome(parts, expected[i]) <==>
              (expected[i].Any? ==> parts != []) && IsAssignable(Intersection(parts), expected[i])
    {
      if expected[i].Any? {
        FlowBasics(Intersection(parts));
        if parts != [] {
          FlowBasics(parts[0]);
        }
      } else {
        FlowOutOfIntersection(parts, expected[i]);
      }
    }
    IntersectionsUnfold(parts, expected);
  }

  ghost predicate FlowsFromSome(ts: seq<ValueType>, expected: ValueType) {
    exists j :: 0 <= j < |ts| && IsAssignable(ts[j], expected)
  }

  lemma IntersectionsUnfold(parts: seq<ValueType>, expected: seq<ValueType>)
    ensures IsAssignable(Intersection(parts), Intersection(expected)) <==>
            parts == expected || forall i :: 0 <= i < |expected| ==> FlowsFromSome(parts, expected[i])
  {
  }

  /** A type variable is no obstacle to a type that has no parts, nor to an alias. */
  lemma VariableFlow(name: string, t: ValueType)
    requires FamilyOf(t).Some? || t.TypeVariable? || t.OpaqueAlias?
    ensures IsAssignable(TypeVariable(name), t) && IsAssignable(t, TypeVariable(name))
  {
    if t.KeyOf? {
      KeyOfIsString(t.target, TypeVariable(name));
    }
  }

  lemma MemberFlowsIn(members: seq<ValueType>, i: nat)
    requires AllPlain(members) && i < |members|
    ensures IsAssignable(members[i], Union(members))
  {
    if !members[i].Any? {
      FlowIntoUnion(members[i], members);
      assert IsAssignable(members[i], members[i]);
    }
  }

  lemma UnionFlowUnfolds(members: seq<ValueType>, expected: ValueType)
    requires expected != Union(members) && !expected.KeyOf? && !expected.Secret? && !expected.Intersection?
    ensures IsAssignable(Union(members), expected) <==> expected.Any? || AllFlow(members, expected)
  {
  }

  /** A union flows wherever all its members do, and nowhere else. */
  lemma {:induction false} FlowOutOfUnion(members: seq<ValueType>, expected: ValueType)
    requires AllPlain(members)
    ensures IsAssignable(Union(members), expected) <==> AllFlow(members, expected)
    decreases expected
  {
    hide IsAssignable;
    match expected
    case Union(_) =>
      if expected == Union(members) {
        FlowBasics(expected);
        forall i | 0 <= i < |members| ensures IsAssignable(members[i], expected) {
          MemberFlowsIn(members, i);
        }
      } else {
        UnionFlowUnfolds(members, expected);
      }
    case KeyOf(target) =>
      KeyOfIsString(target, Union(members));
      UnionFlowUnfolds(members, String(None));
      forall i | 0 <= i < |members|
        ensures IsAssignable(members[i], expected) <==> IsAssignable(members[i], String(None))
      {
        KeyOfIsString(target, members[i]);
      }
    case Secret(inner) =>
      FlowOutOfUnion(members, inner);
      SecretExpected(Union(members), inner);
      forall i | 0 <= i < |members| ensures IsAssignable(members[i], expected) <==> IsAssignable(members[i], inner) {
        SecretExpected(members[i], inner);
      }
    case Intersection(parts) => UnionIntoIntersection(members, parts);
    case Any =>
      FlowBasics(Union(members));
      forall i | 0 <= i < |members| ensures IsAssignable(members[i], Any) {
        FlowBasics(members[i]);
      }
    case _ => UnionFlowUnfolds(members, expected);
  }

  lemma {:induction false} UnionIntoIntersection(members: seq<ValueType>, parts: seq<ValueType>)
    requires AllPlain(members)
    ensures IsAssignable(Union(members), Intersection(parts)) <==> AllFlow(members, Intersection(parts))
    decreases parts
  {
    FlowIntoIntersection(Union(members), parts);
    forall j | 0 <= j < |parts| ensures IsAssignable(Union(members), parts[j]) <==> AllFlow(members, parts[j]) {
      FlowOutOfUnion(members, parts[j]);
    }
    forall i | 0 <= i < |members|
      ensures IsAssignable(members[i], Intersection(parts)) <==> FlowsToAll(members[i], parts)
    {
      FlowIntoIntersection(members[i], parts);
    }
  }
}
