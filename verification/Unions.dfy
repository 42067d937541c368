/** Union normalisation: what `make_union` computes, as a list and as a set of members, and the normal
    form of such sets. */
module Unions {
  import opened Wrappers
  import opened Sequences
  import opened ValueTypes

  // ---- the normalisation, as a function of the list

  function Flatten(ts: seq<ValueType>): seq<ValueType> {
    if ts == [] then [] else Flatten(ts[..|ts| - 1]) + Members(ts[|ts| - 1])
  }

  function Dedup(ts: seq<ValueType>): (r: seq<ValueType>)
    ensures NoDuplicates(r) && forall t :: t in r <==> t in ts
  {
    if ts == [] then []
    else
      var last := ts[|ts| - 1];
      var r := Dedup(ts[..|ts| - 1]);
      assert ts == ts[..|ts| - 1] + [last];
      if last in r then r else r + [last]
  }

  predicate BooleansMerge(ts: seq<ValueType>) {
    Boolean(None) in ts || (Boolean(Some(true)) in ts && Boolean(Some(false)) in ts)
  }

  predicate NotBoolean(t: ValueType) { !t.Boolean? }

  predicate NotText(t: ValueType) { !(t.String? && t.text.Some?) }

  predicate NotClassTable(t: ValueType) { !(t.Table? && t.table.Some?) }

  predicate NotNumeral(t: ValueType) { !t.NumberLiteral? }

  predicate NotSecret(t: ValueType) { !t.Secret? }

  function MergeBooleans(ts: seq<ValueType>): seq<ValueType> {
    if BooleansMerge(ts) then Keep(ts, NotBoolean) + [Boolean(None)] else ts
  }

  /** With `generic` in the list, only the members with `p` stay. */
  function Absorb(ts: seq<ValueType>, generic: ValueType, p: ValueType -> bool): (r: seq<ValueType>)
    ensures forall t :: t in r <==> t in ts && (generic in ts ==> p(t))
    ensures |r| <= |ts| && (|r| == |ts| ==> r == ts)
  {
    if generic in ts then Keep(ts, p) else ts
  }

  /** `collapse_scalar_variants`. */
  function Collapse(ts: seq<ValueType>): seq<ValueType> {
    Absorb(Absorb(Absorb(MergeBooleans(ts), String(None), NotText), Table(None), NotClassTable), Number, NotNumeral)
  }

  function Inners(ts: seq<ValueType>): (r: seq<ValueType>)
    ensures forall t :: t in r <==> Secret(t) in ts
  {
    if ts == [] then []
    else
      var last := ts[|ts| - 1];
      assert ts == ts[..|ts| - 1] + [last];
      Inners(ts[..|ts| - 1]) + if last.Secret? then [last.inner] else []
  }

  function DropTwins(ts: seq<ValueType>, inners: seq<ValueType>): (r: seq<ValueType>)
    ensures forall t :: t in r <==> t in ts && (t.Secret? || t !in inners)
  {
    Keep(ts, DropTwinsTest(inners))
  }

  function DropTwinsTest(inners: seq<ValueType>): ValueType -> bool {
    (t: ValueType) => t.Secret? || t !in inners
  }

  function AllSecret(ts: seq<ValueType>): (r: seq<ValueType>)
    ensures |r| == |ts| && forall i :: 0 <= i < |ts| ==> r[i] == Secret(ts[i])
    ensures forall t :: t in r <==> t.Secret? && t.inner in ts
  {
    var r := Apply(ts, t => Secret(t));
    ApplyContains(ts, t => Secret(t));
    assert forall t :: t in r ==> exists i :: 0 <= i < |ts| && r[i] == t && ts[i] in ts;
    assert forall t :: t in ts ==> exists i :: 0 <= i < |ts| && ts[i] == t && r[i] == Secret(t);
    r
  }

  /** Collapses the secret members among themselves and drops their plain twins. */
  function MergeSecrets(ts: seq<ValueType>): seq<ValueType> {
    var before := Inners(ts);
    if before == [] then ts
    else
      var inners := Collapse(before);
      var kept := DropTwins(ts, inners);
      if |inners| != |before| then Keep(kept, NotSecret) + AllSecret(inners) else kept
  }

  function FromMembers(ts: seq<ValueType>): ValueType {
    if |ts| == 1 then ts[0] else Union(ts)
  }

  function UnionOf(ts: seq<ValueType>): ValueType {
    var deduped := Dedup(Flatten(ts));
    if Any in deduped && Nil !in deduped then Any
    else FromMembers(MergeSecrets(Collapse(if Any in deduped then [Any, Nil] else deduped)))
  }

  // ---- the same in place

  method CollapseScalarVariants(list: seq<ValueType>) returns (deduped: seq<ValueType>)
    ensures deduped == Collapse(list)
  {
    deduped := list;
    var hasNone := Boolean(None) in deduped;
    var hasTrue := Boolean(Some(true)) in deduped;
    var hasFalse := Boolean(Some(false)) in deduped;
    if hasNone || (hasTrue && hasFalse) {
      deduped := Keep(deduped, NotBoolean);
      deduped := deduped + [Boolean(None)];
    }
    if String(None) in deduped {
      deduped := Keep(deduped, NotText);
    }
    if Table(None) in deduped {
      deduped := Keep(deduped, NotClassTable);
    }
    if Number in deduped {
      deduped := Keep(deduped, NotNumeral);
    }
  }

  method MakeUnion(types: seq<ValueType>) returns (r: ValueType)
    ensures r == UnionOf(types)
  {
    hide Collapse, MergeSecrets, NoDuplicates;
    var flat: seq<ValueType> := [];
    var i := 0;
    while i < |types|
      invariant i <= |types| && flat == Flatten(types[..i])
    {
      assert types[..i + 1][..i] == types[..i];
      flat := flat + if types[i].Union? then types[i].members else [types[i]];
      i := i + 1;
    }
    assert types[..i] == types;
    var deduped: seq<ValueType> := [];
    i := 0;
    while i < |flat|
      invariant i <= |flat| && deduped == Dedup(flat[..i])
    {
      assert flat[..i + 1][..i] == flat[..i];
      if flat[i] !in deduped {
        deduped := deduped + [flat[i]];
      }
      i := i + 1;
    }
    assert flat[..i] == flat;
    if Any in deduped {
      if Nil in deduped {
        deduped := [Any, Nil];
      } else {
        return Any;
      }
    }
    deduped := CollapseScalarVariants(deduped);
    deduped := MergeSecretMembers(deduped);
    return if |deduped| == 1 then deduped[0] else Union(deduped);
  }

  /** The last part of `make_union`: what it does with secret members. */
  method MergeSecretMembers(list: seq<ValueType>) returns (deduped: seq<ValueType>)
    ensures deduped == MergeSecrets(list)
  {
    deduped := list;
    var inners: seq<ValueType> := [];
    var i := 0;
    while i < |deduped|
      invariant i <= |deduped| && inners == Inners(deduped[..i])
    {
      assert deduped[..i + 1][..i] == deduped[..i];
      if deduped[i].Secret? {
        inners := inners + [deduped[i].inner];
      }
      i := i + 1;
    }
    assert deduped[..i] == deduped;
    if inners != [] {
      var before := |inners|;
      inners := CollapseScalarVariants(inners);
      deduped := DropTwins(deduped, inners);
      if |inners| != before {
        deduped := Keep(deduped, NotSecret);
        deduped := deduped + AllSecret(inners);
      }
    }
  }

  // ---- as a set of members

  predicate Absorbed(ts: set<ValueType>, t: ValueType) {
    match t
    case Boolean(_) => Boolean(None) in ts || (Boolean(Some(true)) in ts && Boolean(Some(false)) in ts)
    case String(Some(_)) => String(None) in ts
    case Table(Some(_)) => Table(None) in ts
    case NumberLiteral(_) => Number in ts
    case _ => false
  }

  /** What takes the place of a literal. */
  function Generic(x: ValueType): ValueType {
    match x
    case Boolean(_) => Boolean(None)
    case String(_) => String(None)
    case Table(_) => Table(None)
    case _ => Number
  }

  /** A generic type takes the place of its literals; `true` and `false` make `boolean`. */
  function CollapseSet(ts: set<ValueType>): set<ValueType> {
    (set t | t in ts && !Absorbed(ts, t)) + if Absorbed(ts, Boolean(None)) then {Boolean(None)} else {}
  }

  /** What a member of the set becomes. */
  function Carrier(ts: set<ValueType>, t: ValueType): (r: ValueType)
    ensures t in ts ==> r in CollapseSet(ts)
  {
    if Absorbed(ts, t) then Generic(t) else t
  }

  function InnersSet(ts: set<ValueType>): set<ValueType> {
    set t | t in ts && t.Secret? :: t.inner
  }

  function MergeSecretsSet(plain: set<ValueType>): set<ValueType> {
    var inners := CollapseSet(InnersSet(plain));
    (set t | t in plain && !t.Secret? && t !in inners) + (set t | t in inners :: Secret(t))
  }

  /** The members of the union of a set of non-union types: no list, no order. */
  function Normal(ts: set<ValueType>): set<ValueType> {
    if Any in ts then {Any} + if Nil in ts then {Nil} else {}
    else MergeSecretsSet(CollapseSet(ts))
  }

  ghost predicate Collapsed(ts: set<ValueType>) {
    forall t :: t in ts && Absorbed(ts, t) ==> t == Boolean(None)
  }

  /** No literal beside its generic type, neither plain nor secret; no plain twin of a secret member;
      `any` only alone or with `nil`. */
  ghost predicate NormalForm(ts: set<ValueType>) {
    && (Any in ts ==> ts <= {Any, Nil})
    && Collapsed(ts) && Collapsed(InnersSet(ts))
    && forall t :: Secret(t) in ts ==> t.Secret? || t !in ts
  }

  /** Arguments of a union whose members, after one flattening, are not unions themselves. */
  ghost predicate Flat(ts: seq<ValueType>) {
    forall t :: t in Flatten(ts) ==> !t.Union?
  }

  lemma CollapseContains(ts: seq<ValueType>, t: ValueType)
    ensures t in Collapse(ts) <==> t in CollapseSet(ToSet(ts))
  {
    hide MergeBooleans, Absorb, Keep, CollapseSet, BooleansMerge, ToSet;
    MergeBooleansContains(ts, t);
    MergeBooleansContains(ts, String(None));
    MergeBooleansContains(ts, Table(None));
    MergeBooleansContains(ts, Number);
    AbsorbContains(MergeBooleans(ts), t);
    SetContains(ts, t);
  }

  lemma MergeBooleansContains(ts: seq<ValueType>, t: ValueType)
    ensures t in MergeBooleans(ts) <==>
            (t in ts && (BooleansMerge(ts) ==> !t.Boolean?)) || (BooleansMerge(ts) && t == Boolean(None))
  {
    hide Keep;
  }

  /** What the last three steps of the collapse keep. */
  lemma AbsorbContains(b: seq<ValueType>, t: ValueType)
    ensures t in Absorb(Absorb(Absorb(b, String(None), NotText), Table(None), NotClassTable), Number, NotNumeral) <==>
            t in b && (String(None) in b ==> NotText(t)) && (Table(None) in b ==> NotClassTable(t)) &&
            (Number in b ==> NotNumeral(t))
  {
    hide Absorb;
  }

  lemma SetContains(ts: seq<ValueType>, t: ValueType)
    ensures t in CollapseSet(ToSet(ts)) <==>
            (t in ts && !Absorbed(ToSet(ts), t)) || (t == Boolean(None) && BooleansMerge(ts))
    ensures t.Boolean? ==> (Absorbed(ToSet(ts), t) <==> BooleansMerge(ts))
    ensures t.String? ==> (Absorbed(ToSet(ts), t) <==> !NotText(t) && String(None) in ts)
    ensures t.Table? ==> (Absorbed(ToSet(ts), t) <==> !NotClassTable(t) && Table(None) in ts)
    ensures t.NumberLiteral? ==> (Absorbed(ToSet(ts), t) <==> Number in ts)
  {
  }

  lemma CollapseAsSet(ts: seq<ValueType>)
    ensures ToSet(Collapse(ts)) == CollapseSet(ToSet(ts))
  {
    forall t ensures t in Collapse(ts) <==> t in CollapseSet(ToSet(ts)) {
      CollapseContains(ts, t);
    }
  }

  lemma MergeBooleansNoDuplicates(ts: seq<ValueType>)
    requires NoDuplicates(ts)
    ensures NoDuplicates(MergeBooleans(ts))
  {
    KeepNoDuplicates(ts, NotBoolean);
    var kept := Keep(ts, NotBoolean);
    assert forall i :: 0 <= i < |kept| ==> kept[i] in kept;
  }

  lemma CollapseNoDuplicates(ts: seq<ValueType>)
    requires NoDuplicates(ts)
    ensures NoDuplicates(Collapse(ts))
  {
    var b := MergeBooleans(ts);
    MergeBooleansNoDuplicates(ts);
    KeepNoDuplicates(b, NotText);
    var s := Absorb(b, String(None), NotText);
    KeepNoDuplicates(s, NotClassTable);
    KeepNoDuplicates(Absorb(s, Table(None), NotClassTable), NotNumeral);
  }

  lemma {:induction false} NoDuplicatesSize<T>(s: seq<T>)
    requires NoDuplicates(s)
    ensures |ToSet(s)| == |s|
    decreases |s|
  {
    if s != [] {
      var n := |s| - 1;
      NoDuplicatesSize(s[..n]);
      assert ToSet(s) == ToSet(s[..n]) + {s[n]};
    }
  }

  /** A collapse that does not shorten the list changes nothing but its order. */
  lemma UnshortenedCollapse(ts: seq<ValueType>)
    requires NoDuplicates(ts) && |Collapse(ts)| == |ts|
    ensures ToSet(Collapse(ts)) == ToSet(ts)
  {
    MergedBooleansSize(ts);
  }

  lemma KeptSize(ts: seq<ValueType>, p: ValueType -> bool)
    requires NoDuplicates(ts)
    ensures |ToSet(ts) - ToSet(Keep(ts, p))| == |ts| - |Keep(ts, p)|
  {
    KeepNoDuplicates(ts, p);
    NoDuplicatesSize(ts);
    NoDuplicatesSize(Keep(ts, p));
    assert ToSet(Keep(ts, p)) <= ToSet(ts);
  }

  lemma MergedBooleansSize(ts: seq<ValueType>)
    requires NoDuplicates(ts)
    ensures |MergeBooleans(ts)| <= |ts|
    ensures |MergeBooleans(ts)| == |ts| ==> ToSet(MergeBooleans(ts)) == ToSet(ts)
  {
    if BooleansMerge(ts) {
      var kept := Keep(ts, NotBoolean);
      var removed := ToSet(ts) - ToSet(kept);
      KeptSize(ts, NotBoolean);
      RemovedBooleans(ts, removed);
      if |removed| == 1 {
        forall t ensures t in MergeBooleans(ts) <==> t in ts {
          assert t in removed <==> t in ts && t !in kept;
        }
      }
    }
  }

  lemma RemovedBooleans(ts: seq<ValueType>, removed: set<ValueType>)
    requires BooleansMerge(ts) && removed == ToSet(ts) - ToSet(Keep(ts, NotBoolean))
    ensures |removed| >= 1 && (|removed| == 1 ==> removed == {Boolean(None)})
  {
    if Boolean(None) in ts {
      SubsetSize({Boolean(None)}, removed);
      if |removed| == 1 {
        OnlyElement(removed, Boolean(None));
      }
    } else {
      SubsetSize({Boolean(Some(true)), Boolean(Some(false))}, removed);
    }
  }

  lemma OnlyElement<T>(s: set<T>, x: T)
    requires x in s && |s| == 1
    ensures s == {x}
  {
    assert |s - {x}| == 0;
  }

  lemma {:induction false} SubsetSize<T>(a: set<T>, b: set<T>)
    requires a <= b
    ensures |a| <= |b|
    decreases a
  {
    if x :| x in a {
      SubsetSize(a - {x}, b - {x});
    }
  }
}
