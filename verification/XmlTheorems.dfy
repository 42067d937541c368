/** What the recursion over a document's tree makes plain, and what goes wrong without its hypothesis. */
module XmlTheorems {
  import opened Wrappers
  import opened Sequences
  import opened XmlFrames
  import opened XmlScan

  // ---- the depth of the stack

  /** Key values with separate tags, outside scripts. */
  function OpenKeyValues(f: Forest): nat {
    match f
    case Nothing => 0
    case Text(_, next) => OpenKeyValues(next)
    case Empty(_, _, next) => OpenKeyValues(next)
    case Element(tag, _, content, _, next) =>
      (if tag.element == SCRIPT then 0 else (if tag.element == KEY_VALUE then 1 else 0) + OpenKeyValues(content)) +
      OpenKeyValues(next)
  }

  /** What is left of `n` without `k`. */
  function Less(n: nat, k: nat): nat {
    if k <= n then n - k else 0
  }

  lemma TagDepth(types: map<string, string>, s: State, tag: Tag, at: nat)
    requires s.scripts == 0 && tag.element != SCRIPT
    ensures var o := Step(types, s, Open(tag, at));
            o.scripts == 0 && |o.stack| == |s.stack| + if tag.element == KEY_VALUE then 0 else 1
    ensures var e := Step(types, s, SelfClosed(tag, at)); e.scripts == 0 && |e.stack| == |s.stack|
    ensures var c := Step(types, s, Close(tag.element, at));
            c.scripts == 0 && |c.stack| == Less(|s.stack|, 1)
  {
    hide BindHandler, FrameTypeOf, Finalize, NewFrame, BindFrame, RegisterStep, EnrichStep, Nearest, ParentName,
         KeyValueStep;
  }

  /** Content takes as many entries off the stack as it has key values with separate tags, as long as
      there are any: a closing tag on an empty stack does nothing. */
  lemma {:induction false} DepthAfter(types: map<string, string>, s: State, f: Forest)
    requires s.scripts == 0
    ensures Pass(types, s, f).scripts == 0 && |Pass(types, s, f).stack| == Less(|s.stack|, OpenKeyValues(f))
    decreases f
  {
    hide Step;
    match f
    case Nothing =>
    case Text(targets, next) =>
      InlineDepth(types, s, targets);
      DepthAfter(types, Step(types, s, Inline(targets)), next);
    case Empty(tag, at, next) =>
      if tag.element == SCRIPT {
        EmptyScript(types, s, tag, at);
      } else {
        TagDepth(types, s, tag, at);
      }
      DepthAfter(types, Step(types, s, SelfClosed(tag, at)), next);
    case Element(tag, at, content, end, next) =>
      if tag.element == SCRIPT {
        ScriptElement(types, s, tag, at, content, end);
        DepthAfter(types, s, next);
      } else {
        TagDepth(types, s, tag, at);
        var inside := Pass(types, Step(types, s, Open(tag, at)), content);
        DepthAfter(types, Step(types, s, Open(tag, at)), content);
        TagDepth(types, inside, tag, end);
        DepthAfter(types, Step(types, inside, Close(tag.element, end)), next);
      }
  }

  lemma InlineDepth(types: map<string, string>, s: State, targets: seq<string>)
    ensures var t := Step(types, s, Inline(targets)); t.scripts == s.scripts && |t.stack| == |s.stack|
  {
  }

  lemma EmptyScript(types: map<string, string>, s: State, tag: Tag, at: nat)
    requires tag.element == SCRIPT
    ensures Step(types, s, SelfClosed(tag, at)) == s
  {
  }

  lemma ScriptElement(types: map<string, string>, s: State, tag: Tag, at: nat, content: Forest, end: nat)
    requires s.scripts == 0 && tag.element == SCRIPT
    ensures Step(types, Pass(types, Step(types, s, Open(tag, at)), content), Close(tag.element, end)) == s
  {
    ScriptIsSkipped(types, s.(scripts := 1), content);
  }

  lemma {:induction false} NoneOpen(f: Forest)
    ensures KeyValuesClosed(f) <==> OpenKeyValues(f) == 0
    decreases f
  {
    match f
    case Nothing =>
    case Text(_, next) => NoneOpen(next);
    case Empty(_, _, next) => NoneOpen(next);
    case Element(_, _, content, _, next) =>
      NoneOpen(content);
      NoneOpen(next);
  }

  /** The stack comes back as deep as it was exactly if it was empty or all key values are self-closing. */
  lemma StackReturnsIff(types: map<string, string>, s: State, f: Forest)
    requires s.scripts == 0
    ensures |Pass(types, s, f).stack| == |s.stack| <==> s.stack == [] || KeyValuesClosed(f)
  {
    DepthAfter(types, s, f);
    NoneOpen(f);
  }

  /** A place in a document: behind some siblings, inside an element that itself has a place. */
  datatype Place = Top(before: Forest) | Inside(outer: Place, tag: Tag, at: nat, before: Forest)

  function EventsTo(p: Place): seq<Event> {
    match p
    case Top(before) => Events(before)
    case Inside(outer, tag, at, before) => EventsTo(outer) + [Open(tag, at)] + Events(before)
  }

  predicate InScript(p: Place) {
    p.Inside? && (p.tag.element == SCRIPT || InScript(p.outer))
  }

  /** The open elements around a place, up to the outermost script. */
  function OpenElements(p: Place): nat {
    match p
    case Top(_) => 0
    case Inside(outer, _, _, _) => OpenElements(outer) + if InScript(p) then 0 else 1
  }

  /** Outside scripts, no key value with separate tags is around the place, or comes before it in an
      element around it. */
  predicate Regular(p: Place) {
    p.Inside? ==> Regular(p.outer) && (InScript(p) || (p.tag.element != KEY_VALUE && KeyValuesClosed(p.before)))
  }

  lemma OpenedScript(types: map<string, string>, s: State, tag: Tag, at: nat)
    requires s.scripts > 0 || tag.element == SCRIPT
    ensures var o := Step(types, s, Open(tag, at)); o.scripts > 0 && o.stack == s.stack
  {
  }

  /** At every place of every document the stack holds no more than the open elements outside scripts,
      and exactly these if the place is regular. */
  lemma {:induction false} StackIsNestingIff(types: map<string, string>, out: Output, p: Place)
    ensures var s := Run(types, State([], 0, out), EventsTo(p));
            && (s.scripts > 0 <==> InScript(p))
            && |s.stack| <= OpenElements(p)
            && (|s.stack| == OpenElements(p) <==> Regular(p))
    decreases p
  {
    hide Step;
    var start := State([], 0, out);
    NoneOpen(p.before);
    match p
    case Top(before) =>
      PassIsRun(types, start, before);
      DepthAfter(types, start, before);
    case Inside(outer, tag, at, before) =>
      StackIsNestingIff(types, out, outer);
      var s := Run(types, start, EventsTo(outer));
      var inner := Step(types, s, Open(tag, at));
      RunAppend(types, start, EventsTo(outer), [Open(tag, at)]);
      RunOne(types, s, Open(tag, at));
      RunAppend(types, start, EventsTo(outer) + [Open(tag, at)], Events(before));
      PassIsRun(types, inner, before);
      if InScript(p) {
        OpenedScript(types, s, tag, at);
        ScriptIsSkipped(types, inner, before);
      } else {
        TagDepth(types, s, tag, at);
        DepthAfter(types, inner, before);
      }
  }

  /** A key value with separate tags ends the frame around it: what follows in that frame is no longer
      its content. */
  lemma OpenKeyValueEndsFrame(types: map<string, string>, rest: seq<Entry>, f: Frame, out: Output, tag: Tag, at: nat,
        end: nat)
    requires tag.element == KEY_VALUE
    ensures var frame := TagKeyValue(f, tag, at).(def := Span(f.def.start, end));
            Pass(types, State(rest + [FrameEntry(f)], 0, out), Element(tag, at, Nothing, end, Nothing)) ==
            State(Put(rest, EnrichStep(Nearest(rest), frame)), 0, Finalize(frame, out))
  {
    hide TagKeyValue, Nearest, EnrichStep, Finalize;
    FrameOnTop(rest, f, TagKeyValue(f, tag, at));
    KeyValueKeepsDef(f, tag, at);
    var s := State(rest + [FrameEntry(f)], 0, out);
    var t := State(rest + [FrameEntry(TagKeyValue(f, tag, at))], 0, out);
    assert Step(types, s, Open(tag, at)) == t;
    assert t.stack[..|t.stack| - 1] == rest;
  }

  lemma KeyValueKeepsDef(f: Frame, tag: Tag, at: nat)
    ensures TagKeyValue(f, tag, at).def == f.def
  {
  }

  // ---- nested fields

  lemma {:induction false} EnrichFieldsAt(fields: seq<Field>, name: string, extra: Annotation, i: nat)
    requires i < |fields| && fields[i].name == name && forall k :: 0 <= k < i ==> fields[k].name != name
    ensures EnrichFields(fields, name, extra) == fields[i := Field(name, IntersectWith(fields[i].kind, extra))]
    decreases i
  {
    if i > 0 {
      EnrichFieldsAt(fields[1..], name, extra, i - 1);
    }
  }

  /** The fields gathered inside an unnamed frame can be reached through the field that the frame is on
      the one around it. */
  lemma NestedFieldsShow(types: map<string, string>, parent: Option<string>, around: Frame, out: Output,
        tag: Tag, at: nat, content: Forest, end: nat, frameType: string, key: string, child: Frame)
    requires tag.element != SCRIPT
    requires FrameTypeOf(types, BindHandler(tag, out).intrinsics, tag.element) == Some(frameType)
    requires tag.parentKey == Some(key) && '.' !in key && !HasField(around.fields, key)
    requires var frame := NewFrame(tag, frameType, parent, at);
             var bound := BindFrame(tag, frameType, parent, BindHandler(tag, out));
             child == Finish(Visit(types, ParentInside(frame, parent), Some(frame), bound, content).0, end)
    requires (tag.name.None? || ResolveName(tag.name.value, parent).None?) && child.fields != []
    ensures var v := Visit(types, parent, Some(around), out, Element(tag, at, content, end, Nothing)).0;
            var own := ChildElementType(frameType, tag.inherits, Mixins(tag));
            var kind := IntersectWith(own, TableLiteral(child.fields));
            v.Some? && |v.value.fields| > |around.fields| && v.value.fields[|around.fields|] == Field(key, kind)
  {
    hide Visit, FrameTypeOf, BindHandler, NewFrame, BindFrame, Finalize, Finish, ChildElementType, Mixins;
    VisitOneFrame(types, parent, Some(around), out, tag, at, content, end, frameType, child);
    UnnamedStays(types, parent, out, tag, at, content, end, frameType, child);
    var registered := RegisterChild(around, tag, frameType, at);
    var i := |around.fields|;
    RegisteredKey(around, tag, frameType, at, key);
    EnrichFieldsAt(registered.fields, key, TableLiteral(child.fields), i);
  }

  /** Its content leaves an unnamed frame unnamed, and the field it becomes as its tag says. */
  lemma UnnamedStays(types: map<string, string>, parent: Option<string>, out: Output, tag: Tag, at: nat,
        content: Forest, end: nat, frameType: string, child: Frame)
    requires tag.name.None? || ResolveName(tag.name.value, parent).None?
    requires var frame := NewFrame(tag, frameType, parent, at);
             var bound := BindFrame(tag, frameType, parent, BindHandler(tag, out));
             child == Finish(Visit(types, ParentInside(frame, parent), Some(frame), bound, content).0, end)
    ensures child.name.None? && child.parentKey == tag.parentKey
  {
    hide Visit, BindHandler, BindFrame, ParentInside, ResolveName;
    var frame := NewFrame(tag, frameType, parent, at);
    var bound := BindFrame(tag, frameType, parent, BindHandler(tag, out));
    VisitKeepsFrame(types, ParentInside(frame, parent), Some(frame), bound, content);
  }

  lemma VisitOneFrame(types: map<string, string>, parent: Option<string>, around: Option<Frame>, out: Output,
        tag: Tag, at: nat, content: Forest, end: nat, frameType: string, child: Frame)
    requires tag.element != SCRIPT
    requires FrameTypeOf(types, BindHandler(tag, out).intrinsics, tag.element) == Some(frameType)
    requires var frame := NewFrame(tag, frameType, parent, at);
             var bound := BindFrame(tag, frameType, parent, BindHandler(tag, out));
             child == Finish(Visit(types, ParentInside(frame, parent), Some(frame), bound, content).0, end)
    ensures Visit(types, parent, around, out, Element(tag, at, content, end, Nothing)).0 ==
            EnrichStep(RegisterStep(around, tag, frameType, at), child)
  {
    hide FrameTypeOf, BindHandler, NewFrame, BindFrame, Finalize, Finish, EnrichStep, RegisterStep;
  }

  lemma RegisteredKey(around: Frame, tag: Tag, frameType: string, at: nat, key: string)
    requires tag.parentKey == Some(key) && '.' !in key && !HasField(around.fields, key)
    ensures var fields := RegisterChild(around, tag, frameType, at).fields;
            var kind := ChildElementType(frameType, tag.inherits, Mixins(tag));
            |fields| > |around.fields| && fields[..|around.fields|] == around.fields &&
            fields[|around.fields|] == Field(key, kind) &&
            forall k :: 0 <= k < |around.fields| ==> fields[k].name != key
  {
    hide ChildElementType, Mixins;
  }

  // ---- fields and names

  /** What a field means: the first of its name. */
  function Lookup(fields: seq<Field>, name: string): Option<Annotation> {
    if fields == [] then None else if fields[0].name == name then Some(fields[0].kind) else Lookup(fields[1..], name)
  }

  lemma {:induction false} LookupAppended(fields: seq<Field>, f: Field, name: string)
    ensures Lookup(fields + [f], name) ==
            if HasField(fields, name) then Lookup(fields, name) else if f.name == name then Some(f.kind) else None
    decreases |fields|
  {
    if fields != [] {
      assert (fields + [f])[1..] == fields[1..] + [f];
      LookupAppended(fields[1..], f, name);
      if HasField(fields[1..], name) {
        var i :| 0 <= i < |fields[1..]| && fields[1..][i].name == name;
        assert fields[i + 1].name == name;
      }
      if i :| 0 <= i < |fields| && fields[i].name == name && i > 0 {
        assert fields[1..][i - 1].name == name;
      }
    }
  }

  lemma {:induction false} LookupNone(fields: seq<Field>, name: string)
    ensures Lookup(fields, name).Some? <==> HasField(fields, name)
    decreases |fields|
  {
    if fields != [] {
      LookupNone(fields[1..], name);
      if HasField(fields[1..], name) {
        var i :| 0 <= i < |fields[1..]| && fields[1..][i].name == name;
        assert fields[i + 1].name == name;
      }
      if i :| 0 <= i < |fields| && fields[i].name == name && i > 0 {
        assert fields[1..][i - 1].name == name;
      }
    }
  }

  /** The first child with a key decides what the field is; other fields are left alone. */
  lemma AddedFieldShows(f: Frame, name: string, kind: Annotation, at: nat, other: string)
    ensures var r := AddField(f, name, kind, at);
            Lookup(r.fields, other) ==
            if other == name && Lookup(f.fields, name).None? then Some(kind) else Lookup(f.fields, other)
  {
    LookupNone(f.fields, name);
    LookupNone(f.fields, other);
    LookupAppended(f.fields, Field(name, kind), other);
  }

  /** Enriching intersects what the field was, and no other. */
  lemma {:induction false} EnrichedFieldShows(fields: seq<Field>, name: string, extra: Annotation, other: string)
    ensures Lookup(EnrichFields(fields, name, extra), other) ==
            match Lookup(fields, other)
            case None => None
            case Some(kind) => Some(if other == name then IntersectWith(kind, extra) else kind)
    decreases |fields|
  {
    if fields != [] {
      EnrichedFieldShows(fields[1..], name, extra, other);
    }
  }

  lemma {:induction false} PushMissingSpec<T>(list: seq<T>, more: seq<T>)
    ensures list <= PushMissing(list, more) && ToSet(PushMissing(list, more)) == ToSet(list) + ToSet(more)
    ensures NoDuplicates(list) ==> NoDuplicates(PushMissing(list, more))
    decreases |more|
  {
    if more != [] {
      var n := |more| - 1;
      PushMissingSpec(list, more[..n]);
      var before, after := PushMissing(list, more[..n]), PushMissing(list, more);
      assert more == more[..n] + [more[n]];
      assert ToSet(more) == ToSet(more[..n]) + {more[n]};
      assert ToSet(after) == ToSet(before) + {more[n]};
      assert more[n] !in before ==> forall i :: 0 <= i < |before| ==> before[i] != more[n];
    }
  }

  /** A class has the frame type first, then everything it inherits and mixes in, once each. */
  lemma ParentsSpec(f: Frame)
    ensures Parents(f) != [] && Parents(f)[0] == f.frameType && NoDuplicates(Parents(f))
    ensures ToSet(Parents(f)) == {f.frameType} + ToSet(f.inherits) + ToSet(f.mixins)
  {
    var own := [f.frameType];
    PushMissingSpec(own, f.inherits);
    PushMissingSpec(PushMissing(own, f.inherits), f.mixins);
    assert ToSet(own) == {f.frameType};
  }

  function MembersOf(kind: Annotation): seq<Annotation> {
    if kind.Intersection? then kind.members else [kind]
  }

  /** A child's field has the child's own type first, and everything the child inherits and mixes in. */
  lemma ChildTypeSpec(frameType: string, inherits: seq<string>, mixins: seq<string>)
    ensures var members := MembersOf(ChildElementType(frameType, inherits, mixins));
            && members != [] && members[0] == Simple(frameType)
            && ToSet(members) == {Simple(frameType)} + ToSet(Simples(inherits)) + ToSet(Simples(mixins))
  {
    var own := [Simple(frameType)];
    var base := own + Simples(inherits);
    PushMissingSpec(base, Simples(mixins));
    assert ToSet(base) == {Simple(frameType)} + ToSet(Simples(inherits));
    if inherits == [] {
      assert Simples(inherits) == [] && base == own;
    }
    if mixins == [] {
      assert Simples(mixins) == [];
    }
    var members := PushMissing(base, Simples(mixins));
    if |members| == 1 {
      assert members == [members[0]];
    }
  }

  /** Every mixin but the frame's own name is augmented, with the frame's type and fields. */
  lemma {:induction false} AugmentsSpec(f: Frame, mixins: seq<string>, a: Augment)
    ensures a in Augments(f, mixins) <==>
            a.mixin in mixins && f.name != Some(a.mixin) && a.parent == f.frameType && a.fields == f.fields &&
              a.ranges == f.ranges
    decreases |mixins|
  {
    if mixins != [] {
      var n := |mixins| - 1;
      AugmentsSpec(f, mixins[..n], a);
      assert mixins == mixins[..n] + [mixins[n]];
    }
  }

  // ---- what is published

  function ClassNames(classes: seq<Class>): set<string> {
    set c | c in classes :: c.name
  }

  function TableNames(globals: seq<Global>): set<string> {
    set g | g in globals && g.TableGlobal? :: g.name
  }

  /** Every class has a valid name, and is a template or a global of that name, and those are all. */
  ghost predicate Published(out: Output) {
    ClassNames(out.classes) == out.templates + TableNames(out.globals) &&
    forall name :: name in ClassNames(out.classes) ==> IsValidGlobalName(name)
  }

  lemma FieldGlobalsAreNoTables(name: string, def: Span, values: seq<GlobalValue>)
    ensures TableNames(FieldGlobals(name, def, values)) == {}
  {
    var gs := FieldGlobals(name, def, values);
    forall g | g in gs ensures !g.TableGlobal? {
      var i :| 0 <= i < |gs| && gs[i] == g;
    }
  }

  lemma FinalizePublishes(f: Frame, out: Output)
    requires Published(out)
    ensures Published(Finalize(f, out))
  {
    hide Parents, DeclareGlobals, Augments, FieldGlobals;
    if f.name.Some? && IsValidGlobalName(f.name.value) {
      var name := f.name.value;
      var r := Finalize(f, out);
      FieldGlobalsAreNoTables(name, f.def, f.globalValues);
      PublishOne(out, r, r.classes[|out.classes|], FieldGlobals(name, f.def, f.globalValues), f.isVirtual, f.def);
    }
  }

  lemma PublishOne(out: Output, r: Output, c: Class, fields: seq<Global>, isVirtual: bool, def: Span)
    requires Published(out) && IsValidGlobalName(c.name) && TableNames(fields) == {}
    requires r.classes == out.classes + [c]
    requires r.templates == if isVirtual then out.templates + {c.name} else out.templates
    requires r.globals == out.globals + (if isVirtual then [] else [TableGlobal(c.name, def)]) + fields
    ensures Published(r)
  {
    hide IsValidGlobalName;
    var table: seq<Global> := if isVirtual then [] else [TableGlobal(c.name, def)];
    assert ClassNames(r.classes) == ClassNames(out.classes) + {c.name};
    assert TableNames(table) == if isVirtual then {} else {c.name};
    forall n ensures n in TableNames(r.globals) <==> n in TableNames(out.globals) + TableNames(table) {
      if n in TableNames(r.globals) {
        var g :| g in r.globals && g.TableGlobal? && g.name == n;
        assert g in fields ==> n in TableNames(fields);
      }
    }
  }

  /** For any events at all, well-nested or not. */
  lemma {:induction false} RunPublishes(types: map<string, string>, s: State, es: seq<Event>)
    requires Published(s.out)
    ensures Published(Run(types, s, es).out)
    decreases |es|
  {
    hide Step, Published;
    if es != [] {
      RunPublishes(types, s, es[..|es| - 1]);
      StepPublishes(types, Run(types, s, es[..|es| - 1]), es[|es| - 1]);
    }
  }

  lemma StepPublishes(types: map<string, string>, s: State, e: Event)
    requires Published(s.out)
    ensures Published(Step(types, s, e).out)
  {
    hide Published, Finalize, NewFrame, RegisterStep, EnrichStep, Nearest, ParentName, Put, KeyValueStep, InlineStep,
         IsValidGlobalName;
    match e
    case Open(tag, at) => OpenPublishes(types, s, tag, at, false);
    case SelfClosed(tag, at) => OpenPublishes(types, s, tag, at, true);
    case Close(_, at) =>
      if s.stack != [] && s.stack[|s.stack| - 1].FrameEntry? {
        var f := s.stack[|s.stack| - 1].frame;
        FinalizePublishes(f.(def := f.def.(end := at)), s.out);
      }
    case Inline(targets) => SamePublished(s.out, BindTargets(targets, s.out));
  }

  lemma OpenPublishes(types: map<string, string>, s: State, tag: Tag, at: nat, isEmpty: bool)
    requires Published(s.out)
    ensures Published(OpenTag(types, s, tag, at, isEmpty).out)
  {
    hide Published, Finalize, NewFrame, RegisterStep, Nearest, ParentName, Put, KeyValueStep, FrameTypeOf,
         IsValidGlobalName;
    var out := BindHandler(tag, s.out);
    SamePublished(s.out, out);
    match FrameTypeOf(types, out.intrinsics, tag.element)
    case None =>
    case Some(frameType) =>
      var bound := BindFrame(tag, frameType, ParentName(s.stack), out);
      SamePublished(out, bound);
      FinalizePublishes(NewFrame(tag, frameType, ParentName(s.stack), at), bound);
  }

  lemma SamePublished(out: Output, r: Output)
    requires Published(out) && r.classes == out.classes && r.globals == out.globals && r.templates == out.templates
    ensures Published(r)
  {
  }
}
