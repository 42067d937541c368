/** What the frames of a document publish: from the tags inside a frame to the class of its name. */
module XmlPublishing {
  import opened Wrappers
  import opened Sequences
  import opened Texts
  import opened XmlFrames
  import opened XmlScan
  import opened XmlTheorems

  // ---- the content of a frame, item by item

  /** One content after another. */
  function Then(f: Forest, g: Forest): Forest {
    match f
    case Nothing => g
    case Text(targets, next) => Text(targets, Then(next, g))
    case Empty(tag, at, next) => Empty(tag, at, Then(next, g))
    case Element(tag, at, content, end, next) => Element(tag, at, content, end, Then(next, g))
  }

  /** The first item of a content alone, and what comes after it. */
  function First(f: Forest): Forest {
    match f
    case Nothing => Nothing
    case Text(targets, _) => Text(targets, Nothing)
    case Empty(tag, at, _) => Empty(tag, at, Nothing)
    case Element(tag, at, content, end, _) => Element(tag, at, content, end, Nothing)
  }

  function Rest(f: Forest): Forest {
    match f
    case Nothing => Nothing
    case Text(_, next) => next
    case Empty(_, _, next) => next
    case Element(_, _, _, _, next) => next
  }

  lemma VisitFirst(types: map<string, string>, parent: Option<string>, around: Option<Frame>, out: Output, f: Forest)
    ensures var v := Visit(types, parent, around, out, First(f));
            Visit(types, parent, around, out, f) == Visit(types, parent, v.0, v.1, Rest(f))
  {
    hide BindHandler, FrameTypeOf, Finalize, NewFrame, BindFrame, InlineStep, KeyValueStep, RegisterStep, EnrichStep,
         BindTargets, Finish;
  }

  lemma {:induction false} VisitThen(types: map<string, string>, parent: Option<string>, around: Option<Frame>,
        out: Output, f: Forest, g: Forest)
    ensures var v := Visit(types, parent, around, out, f);
            Visit(types, parent, around, out, Then(f, g)) == Visit(types, parent, v.0, v.1, g)
    decreases f
  {
    if f.Nothing? {
      assert Visit(types, parent, around, out, Nothing) == (around, out);
    } else {
      hide Visit;
      VisitFirst(types, parent, around, out, f);
      VisitFirst(types, parent, around, out, Then(f, g));
      var v := Visit(types, parent, around, out, First(f));
      VisitThen(types, parent, v.0, v.1, Rest(f), g);
    }
  }

  /** An element that is no frame, such as `<Layers>`, counts for nothing: its content belongs to the frame around
      it. */
  lemma ContainersVanish(types: map<string, string>, parent: Option<string>, around: Option<Frame>, out: Output,
        tag: Tag, at: nat, content: Forest, end: nat, next: Forest)
    requires tag.element != SCRIPT && FrameTypeOf(types, BindHandler(tag, out).intrinsics, tag.element).None?
    ensures Visit(types, parent, around, out, Element(tag, at, content, end, next)) ==
            Visit(types, parent, around, BindHandler(tag, out), Then(content, next))
  {
    hide BindHandler, FrameTypeOf;
    VisitThen(types, parent, around, BindHandler(tag, out), content, next);
  }

  // ---- what is gathered stays

  /** The type of a field may only gain the nested fields of frames that are that field. */
  ghost predicate Refines(kind: Annotation, more: Annotation) {
    && MembersOf(kind) <= MembersOf(more)
    && forall i :: |MembersOf(kind)| <= i < |MembersOf(more)| ==> MembersOf(more)[i].TableLiteral?
  }

  ghost predicate FieldRefines(f: Frame, g: Frame, key: string) {
    Lookup(f.fields, key).Some? ==>
      Lookup(g.fields, key).Some? && Refines(Lookup(f.fields, key).value, Lookup(g.fields, key).value)
  }

  /** Every field has its place, and nothing else has. */
  ghost predicate Ranged(f: Frame) {
    forall key :: key in f.ranges <==> Lookup(f.fields, key).Some?
  }

  /** How a frame changes while its content is read. */
  ghost predicate Gathers(f: Frame, g: Frame) {
    && SameFrame(f, g)
    && f.frameType == g.frameType && f.inherits == g.inherits && f.def == g.def
    && f.mixins <= g.mixins && f.globalValues <= g.globalValues
    && (Ranged(f) ==> Ranged(g))
    && forall key :: FieldRefines(f, g, key)
  }

  ghost predicate GathersSome(f: Option<Frame>, g: Option<Frame>) {
    f.Some? == g.Some? && (f.Some? ==> Gathers(f.value, g.value))
  }

  lemma GathersOn(f: Option<Frame>, g: Option<Frame>, h: Option<Frame>)
    requires GathersSome(f, g) && GathersSome(g, h)
    ensures GathersSome(f, h)
  {
    if f.Some? {
      forall key ensures FieldRefines(f.value, h.value, key) {
        assert FieldRefines(f.value, g.value, key) && FieldRefines(g.value, h.value, key);
      }
    }
  }

  lemma AddGathers(f: Frame, name: string, kind: Annotation, at: nat)
    ensures Gathers(f, AddField(f, name, kind, at))
  {
    var g := AddField(f, name, kind, at);
    LookupNone(f.fields, name);
    forall key
      ensures FieldRefines(f, g, key)
      ensures Lookup(g.fields, key).Some? <==> Lookup(f.fields, key).Some? || key == name
    {
      AddedFieldShows(f, name, kind, at, key);
    }
  }

  lemma PutGathers(f: Frame, name: string, kind: Annotation, at: nat)
    ensures Gathers(f, PutField(f, name, kind, at))
    ensures forall key :: Lookup(PutField(f, name, kind, at).fields, key) ==
                          Lookup(AddField(f, name, kind, at).fields, key)
  {
    var g := PutField(f, name, kind, at);
    LookupNone(f.fields, name);
    forall key
      ensures FieldRefines(f, g, key)
      ensures Lookup(g.fields, key).Some? <==> Lookup(f.fields, key).Some? || key == name
      ensures Lookup(g.fields, key) == Lookup(AddField(f, name, kind, at).fields, key)
    {
      LookupNone(f.fields, key);
      LookupAppended(f.fields, Field(name, kind), key);
      AddedFieldShows(f, name, kind, at, key);
    }
  }

  lemma EnrichGathers(f: Frame, child: Frame)
    ensures Gathers(f, Enrich(f, child))
  {
    if Enriches(child) {
      forall key
        ensures FieldRefines(f, Enrich(f, child), key)
        ensures Lookup(Enrich(f, child).fields, key).Some? <==> Lookup(f.fields, key).Some?
      {
        EnrichedFieldShows(f.fields, child.parentKey.value, TableLiteral(child.fields), key);
      }
    }
  }

  lemma KeyValueGathers(f: Option<Frame>, tag: Tag, at: nat)
    ensures GathersSome(f, KeyValueStep(f, tag, at))
  {
    hide PutField;
    if f.Some? && tag.key.Some? {
      var valueType := if tag.valueType.Some? then tag.valueType.value else STRING;
      if valueType in VALUE_TYPES {
        PutGathers(f.value, tag.key.value, Simple(VALUE_TYPES[valueType]), at);
      }
    }
  }

  lemma RegisterGathers(f: Option<Frame>, tag: Tag, frameType: string, at: nat)
    ensures GathersSome(f, RegisterStep(f, tag, frameType, at))
  {
    hide AddField, ChildElementType, Mixins, Gathers;
    if f.Some? {
      var kind := ChildElementType(frameType, tag.inherits, Mixins(tag));
      NothingGathered(f.value);
      var keyed := f.value;
      if tag.parentKey.Some? && '.' !in tag.parentKey.value {
        keyed := AddField(f.value, tag.parentKey.value, kind, at);
        AddGathers(f.value, tag.parentKey.value, kind, at);
      }
      if tag.parentArray.Some? {
        AddGathers(keyed, tag.parentArray.value, Array(kind), at);
        GathersOn(f, Some(keyed), Some(AddField(keyed, tag.parentArray.value, Array(kind), at)));
      }
    }
  }

  lemma NothingGathered(f: Frame)
    ensures Gathers(f, f)
  {
  }

  lemma StepsGather(f: Option<Frame>, targets: seq<string>, child: Frame)
    ensures GathersSome(f, f) && GathersSome(f, InlineStep(f, targets)) && GathersSome(f, EnrichStep(f, child))
  {
    if f.Some? {
      PushMissingSpec(f.value.mixins, targets);
      EnrichGathers(f.value, child);
    }
  }

  /** Whatever comes after it in the frame: what has been gathered stays, and the first declaration of a field
      goes on deciding what it is. */
  lemma {:induction false} VisitGathers(types: map<string, string>, parent: Option<string>, around: Option<Frame>,
        out: Output, f: Forest)
    ensures GathersSome(around, Visit(types, parent, around, out, f).0)
    decreases f
  {
    hide BindHandler, FrameTypeOf, Finalize, NewFrame, BindFrame, InlineStep, KeyValueStep, RegisterStep, EnrichStep,
         BindTargets, Finish, GathersSome;
    var r := Visit(types, parent, around, out, f).0;
    match f
    case Nothing => StepsGather(around, [], NO_FRAME);
    case Text(targets, next) =>
      StepsGather(around, targets, NO_FRAME);
      VisitGathers(types, parent, InlineStep(around, targets), BindTargets(targets, out), next);
      GathersOn(around, InlineStep(around, targets), r);
    case Empty(tag, at, next) =>
      if tag.element == SCRIPT {
        VisitGathers(types, parent, around, out, next);
      } else if tag.element == KEY_VALUE {
        KeyValueGathers(around, tag, at);
        VisitGathers(types, parent, KeyValueStep(around, tag, at), out, next);
        GathersOn(around, KeyValueStep(around, tag, at), r);
      } else {
        var out := BindHandler(tag, out);
        match FrameTypeOf(types, out.intrinsics, tag.element)
        case None => VisitGathers(types, parent, around, out, next);
        case Some(frameType) =>
          var out := Finalize(NewFrame(tag, frameType, parent, at), BindFrame(tag, frameType, parent, out));
          RegisterGathers(around, tag, frameType, at);
          VisitGathers(types, parent, RegisterStep(around, tag, frameType, at), out, next);
          GathersOn(around, RegisterStep(around, tag, frameType, at), r);
      }
    case Element(tag, at, content, end, next) =>
      if tag.element == SCRIPT {
        VisitGathers(types, parent, around, out, next);
      } else {
        var out := BindHandler(tag, out);
        match FrameTypeOf(types, out.intrinsics, tag.element)
        case None =>
          var inside := Visit(types, parent, around, out, content);
          VisitGathers(types, parent, around, out, content);
          VisitGathers(types, parent, inside.0, inside.1, next);
          GathersOn(around, inside.0, r);
        case Some(frameType) =>
          var frame := NewFrame(tag, frameType, parent, at);
          var inside := Visit(types, ParentInside(frame, parent), Some(frame), BindFrame(tag, frameType, parent, out),
            content);
          var finished := Finish(inside.0, end);
          var registered := RegisterStep(around, tag, frameType, at);
          RegisterGathers(around, tag, frameType, at);
          StepsGather(registered, [], finished);
          VisitGathers(types, parent, EnrichStep(registered, finished), Finalize(finished, inside.1), next);
          GathersOn(around, registered, EnrichStep(registered, finished));
          GathersOn(around, EnrichStep(registered, finished), r);
      }
  }

  // ---- what one item declares

  /** The parts of a dotted path, put together again. */
  function Dotted(parts: seq<string>): string {
    if parts == [] then [] else if |parts| == 1 then parts[0] else parts[0] + ['.'] + Dotted(parts[1..])
  }

  lemma {:induction false} SplitAtDots(field: string, s: string)
    requires '.' !in field
    ensures var parts := ReadFields(IsDot, Whole, field, s);
            parts != [] && Dotted(parts) == field + s && forall i :: 0 <= i < |parts| ==> '.' !in parts[i]
    decreases |s|
  {
    if s != [] {
      if s[0] == '.' {
        SplitAtDots([], s[1..]);
        var rest := ReadFields(IsDot, Whole, [], s[1..]);
        assert ([field] + rest)[1..] == rest;
        assert field + s == field + ['.'] + s[1..];
      } else {
        SplitAtDots(field + [s[0]], s[1..]);
        assert field + [s[0]] + s[1..] == field + s;
      }
    }
  }

  function TypeOf(tag: Tag): string {
    if tag.valueType.Some? then tag.valueType.value else STRING
  }

  /** A key value declares a field of its type, unless there is one of that name, or a global value by its path. */
  lemma KeyValueDeclares(f: Frame, tag: Tag, at: nat, key: string, other: string)
    requires tag.key == Some(key)
    ensures var r := TagKeyValue(f, tag, at);
            Lookup(r.fields, other) ==
            if other == key && Lookup(f.fields, key).None? && TypeOf(tag) in VALUE_TYPES
            then Some(Simple(VALUE_TYPES[TypeOf(tag)])) else Lookup(f.fields, other)
    ensures var r := TagKeyValue(f, tag, at);
            if TypeOf(tag) == GLOBAL && tag.value != [] then
              && |r.globalValues| == |f.globalValues| + 1 && f.globalValues <= r.globalValues
              && var g := r.globalValues[|f.globalValues|];
                 && g.key == key && g.at == at
                 && Dotted(g.path) == tag.value && forall i :: 0 <= i < |g.path| ==> '.' !in g.path[i]
            else r.globalValues == f.globalValues
  {
    hide PutField, ReadFields;
    if TypeOf(tag) in VALUE_TYPES {
      var kind := Simple(VALUE_TYPES[TypeOf(tag)]);
      PutGathers(f, key, kind, at);
      AddedFieldShows(f, key, kind, at, other);
      PutKeepsGlobals(f, key, kind, at);
    } else {
      SplitAtDots([], tag.value);
    }
  }

  lemma PutKeepsGlobals(f: Frame, name: string, kind: Annotation, at: nat)
    ensures PutField(f, name, kind, at).globalValues == f.globalValues
  {
  }

  /** The tag of a child declares the field of its key and the one of its array, in this order, unless there are
      fields of these names. */
  lemma ChildDeclares(f: Frame, tag: Tag, frameType: string, at: nat, key: string)
    ensures var kind := ChildElementType(frameType, tag.inherits, Mixins(tag));
            Lookup(RegisterChild(f, tag, frameType, at).fields, key) ==
            if Lookup(f.fields, key).Some? then Lookup(f.fields, key)
            else if tag.parentKey == Some(key) && '.' !in key then Some(kind)
            else if tag.parentArray == Some(key) then Some(Array(kind))
            else None
  {
    hide AddField, ChildElementType, Mixins;
    var kind := ChildElementType(frameType, tag.inherits, Mixins(tag));
    var keyed := f;
    if tag.parentKey.Some? && '.' !in tag.parentKey.value {
      keyed := AddField(f, tag.parentKey.value, kind, at);
      AddedFieldShows(f, tag.parentKey.value, kind, at, key);
    }
    if tag.parentArray.Some? {
      AddedFieldShows(keyed, tag.parentArray.value, Array(kind), at, key);
    }
  }

  // ---- what the end of a frame publishes

  /** The first global value of a name. */
  predicate FirstValue(values: seq<GlobalValue>, key: string, i: nat) {
    i < |values| && values[i].key == key && forall j :: 0 <= j < i ==> values[j].key != key
  }

  ghost predicate NamesValue(values: seq<GlobalValue>, key: string) {
    exists i: nat :: FirstValue(values, key, i)
  }

  /** The type of a field in the class of a frame: what the frame gathered, or `any` for a global value of a
      template. */
  ghost function Declared(f: Frame, key: string): Option<Annotation> {
    if Lookup(f.fields, key).Some? then Lookup(f.fields, key)
    else if f.isVirtual && NamesValue(f.globalValues, key) then Some(Simple(ANY))
    else None
  }

  ghost predicate FieldOf(c: Class, f: Frame, key: string) {
    && Lookup(c.fields, key) == Declared(f, key)
    && (Lookup(f.fields, key).Some? && key in f.ranges ==> key in c.ranges && c.ranges[key] == f.ranges[key])
    && (forall i: nat :: Lookup(f.fields, key).None? && f.isVirtual && FirstValue(f.globalValues, key, i) ==>
          key in c.ranges && c.ranges[key] == Span(f.globalValues[i].at, f.globalValues[i].at))
    && (Ranged(f) ==> (key in c.ranges <==> Lookup(c.fields, key).Some?))
  }

  /** The class that a frame of a valid name leaves behind. */
  ghost predicate ClassOf(c: Class, f: Frame) {
    && f.name == Some(c.name) && c.def == f.def
    && c.parents != [] && c.parents[0] == f.frameType && NoDuplicates(c.parents)
    && ToSet(c.parents) == {f.frameType} + ToSet(f.inherits) + ToSet(f.mixins)
    && forall key :: FieldOf(c, f, key)
  }

  lemma {:induction false} DeclaredGlobals(f: Frame, values: seq<GlobalValue>, key: string)
    ensures var r := DeclareGlobals(f, values);
            && Gathers(f, r)
            && (if Lookup(f.fields, key).Some? || !NamesValue(values, key) then
                  Lookup(r.fields, key) == Lookup(f.fields, key) && (key in r.ranges <==> key in f.ranges) &&
                  (key in f.ranges ==> r.ranges[key] == f.ranges[key])
                else Lookup(r.fields, key) == Some(Simple(ANY)))
            && forall i: nat :: Lookup(f.fields, key).None? && FirstValue(values, key, i) ==>
                 key in r.ranges && r.ranges[key] == Span(values[i].at, values[i].at)
    decreases |values|
  {
    hide Gathers;
    NothingGathered(f);
    if values != [] {
      var n := |values| - 1;
      var before, last := DeclareGlobals(f, values[..n]), values[n];
      DeclaredGlobals(f, values[..n], key);
      AddGathers(before, last.key, Simple(ANY), last.at);
      GathersOn(Some(f), Some(before), Some(DeclareGlobals(f, values)));
      AddedFieldShows(before, last.key, Simple(ANY), last.at, key);
      AddedRange(before, last.key, Simple(ANY), last.at, key);
      OneMoreValue(values, n, key);
    }
  }

  lemma AddedRange(f: Frame, name: string, kind: Annotation, at: nat, key: string)
    ensures var r := AddField(f, name, kind, at);
            if key == name && Lookup(f.fields, key).None? then key in r.ranges && r.ranges[key] == Span(at, at)
            else (key in r.ranges <==> key in f.ranges) && (key in f.ranges ==> r.ranges[key] == f.ranges[key])
  {
    LookupNone(f.fields, name);
  }

  lemma OneMoreValue(values: seq<GlobalValue>, n: nat, key: string)
    requires n == |values| - 1
    ensures forall i: nat :: FirstValue(values, key, i) <==>
              FirstValue(values[..n], key, i) || (i == n && values[n].key == key && !NamesValue(values[..n], key))
    ensures NamesValue(values, key) <==> NamesValue(values[..n], key) || values[n].key == key
  {
    NotNamed(values[..n], key);
    NotNamed(values, key);
  }

  lemma {:induction false} NotNamed(values: seq<GlobalValue>, key: string)
    ensures NamesValue(values, key) <==> exists i :: 0 <= i < |values| && values[i].key == key
    decreases |values|
  {
    if values != [] {
      var n := |values| - 1;
      NotNamed(values[..n], key);
      if i: nat :| FirstValue(values[..n], key, i) {
        assert FirstValue(values, key, i);
      } else if values[n].key == key {
        assert forall j :: 0 <= j < n ==> values[..n][j] == values[j];
        assert FirstValue(values, key, n);
      }
    }
  }

  lemma FinalClass(f: Frame, out: Output)
    requires f.name.Some? && IsValidGlobalName(f.name.value)
    ensures var r := Finalize(f, out).classes;
            |r| == |out.classes| + 1 && out.classes <= r && ClassOf(r[|out.classes|], f)
  {
    hide IsValidGlobalName, Parents, DeclareGlobals, Augments, FieldGlobals, Ranged, Gathers, NamesValue, FirstValue;
    var c := Finalize(f, out).classes[|out.classes|];
    ParentsSpec(f);
    forall key ensures FieldOf(c, f, key) {
      DeclaredGlobals(f, f.globalValues, key);
      if f.isVirtual {
        GathersRanges(f, DeclareGlobals(f, f.globalValues), key);
      } else if Ranged(f) {
        GathersRanges(f, f, key);
      }
    }
  }

  lemma GathersRanges(f: Frame, g: Frame, key: string)
    requires f == g || Gathers(f, g)
    ensures Ranged(f) ==> (key in g.ranges <==> Lookup(g.fields, key).Some?)
  {
  }

  /** The globals of a frame: its table, unless it is a template, and its global values in order. */
  ghost predicate GlobalsOf(f: Frame, name: string, globals: seq<Global>) {
    var tables := if f.isVirtual then 0 else 1;
    && |globals| == tables + |f.globalValues|
    && (!f.isVirtual ==> globals[0] == TableGlobal(name, f.def))
    && forall i :: 0 <= i < |f.globalValues| ==>
         globals[tables + i] == FieldGlobal(name, f.globalValues[i].key, f.globalValues[i].path, f.def)
  }

  /** Everything a frame adds to what a scan has found: augments of its mixins and, if its name is valid, a class,
      globals and the name of a template. */
  ghost predicate Publishes(f: Frame, out: Output, r: Output) {
    && out.augments <= r.augments
    && (forall a :: a in r.augments[|out.augments|..] <==>
          a.mixin in f.mixins && f.name != Some(a.mixin) && a.parent == f.frameType && a.fields == f.fields &&
            a.ranges == f.ranges)
    && r.bound == out.bound && r.intrinsics == out.intrinsics
    && if f.name.None? || !IsValidGlobalName(f.name.value)
       then r.classes == out.classes && r.globals == out.globals && r.templates == out.templates
       else
         && out.classes <= r.classes && |r.classes| == |out.classes| + 1 && ClassOf(r.classes[|out.classes|], f)
         && out.globals <= r.globals && GlobalsOf(f, f.name.value, r.globals[|out.globals|..])
         && r.templates == out.templates + if f.isVirtual then {f.name.value} else {}
  }

  lemma FinalizePublishesFrame(f: Frame, out: Output)
    ensures Publishes(f, out, Finalize(f, out))
  {
    hide IsValidGlobalName, Parents, DeclareGlobals, Augments, ClassOf;
    var r := Finalize(f, out);
    assert r.augments == out.augments + Augments(f, f.mixins);
    forall a ensures a in r.augments[|out.augments|..] <==> a in Augments(f, f.mixins) {
      assert r.augments[|out.augments|..] == Augments(f, f.mixins);
    }
    forall a ensures a in Augments(f, f.mixins) <==>
                     a.mixin in f.mixins && f.name != Some(a.mixin) && a.parent == f.frameType &&
                       a.fields == f.fields && a.ranges == f.ranges {
      AugmentsSpec(f, f.mixins, a);
    }
    if f.name.Some? && IsValidGlobalName(f.name.value) {
      FinalClass(f, out);
      FinalGlobals(f, out);
    }
  }

  lemma FinalGlobals(f: Frame, out: Output)
    requires f.name.Some? && IsValidGlobalName(f.name.value)
    ensures var r := Finalize(f, out).globals;
            out.globals <= r && GlobalsOf(f, f.name.value, r[|out.globals|..])
  {
    hide IsValidGlobalName, Parents, DeclareGlobals, Augments;
    var name := f.name.value;
    var table: seq<Global> := if f.isVirtual then [] else [TableGlobal(name, f.def)];
    assert Finalize(f, out).globals[|out.globals|..] == table + FieldGlobals(name, f.def, f.globalValues);
  }

  // ---- what a document publishes

  /** A scan only ever adds. */
  ghost predicate Adds(out: Output, r: Output) {
    && out.classes <= r.classes && out.globals <= r.globals && out.augments <= r.augments
    && out.templates <= r.templates && out.bound <= r.bound && out.intrinsics.Keys <= r.intrinsics.Keys
  }

  lemma FinalizeAdds(f: Frame, out: Output)
    ensures Adds(out, Finalize(f, out))
  {
    hide ClassOf, GlobalsOf;
    FinalizePublishesFrame(f, out);
  }

  lemma BindAdds(tag: Tag, frameType: string, parent: Option<string>, targets: seq<string>, out: Output)
    ensures Adds(out, BindHandler(tag, out)) && Adds(out, BindFrame(tag, frameType, parent, out))
    ensures Adds(out, BindTargets(targets, out))
  {
  }

  lemma AddsOn(out: Output, mid: Output, r: Output)
    requires Adds(out, mid) && Adds(mid, r)
    ensures Adds(out, r)
  {
  }

  lemma {:induction false} VisitAdds(types: map<string, string>, parent: Option<string>, around: Option<Frame>,
        out: Output, f: Forest)
    ensures Adds(out, Visit(types, parent, around, out, f).1)
    decreases f, 1
  {
    if f.Nothing? {
      assert Visit(types, parent, around, out, f) == (around, out);
    } else {
      hide Visit, Adds;
      var v := Visit(types, parent, around, out, First(f));
      VisitFirst(types, parent, around, out, f);
      ItemAdds(types, parent, around, out, f);
      VisitAdds(types, parent, v.0, v.1, Rest(f));
      AddsOn(out, v.1, Visit(types, parent, around, out, f).1);
    }
  }

  lemma {:induction false} ItemAdds(types: map<string, string>, parent: Option<string>, around: Option<Frame>,
        out: Output, f: Forest)
    requires !f.Nothing?
    ensures Adds(out, Visit(types, parent, around, out, First(f)).1)
    decreases f, 0
  {
    hide BindHandler, FrameTypeOf, Finalize, NewFrame, BindFrame, InlineStep, KeyValueStep, RegisterStep, EnrichStep,
         BindTargets, Finish, Adds;
    NothingAdded(out);
    match f
    case Text(targets, _) => BindAdds(ANY_TAG, "", None, targets, out);
    case Empty(tag, at, _) =>
      var bound := BindHandler(tag, out);
      BindAdds(tag, "", None, [], out);
      if tag.element != SCRIPT && tag.element != KEY_VALUE && FrameTypeOf(types, bound.intrinsics, tag.element).Some? {
        var frameType := FrameTypeOf(types, bound.intrinsics, tag.element).value;
        NothingAdded(BindFrame(tag, frameType, parent, bound));
        FrameAdds(NewFrame(tag, frameType, parent, at), tag, frameType, parent, out,
          BindFrame(tag, frameType, parent, bound));
      }
    case Element(tag, at, content, end, _) =>
      var bound := BindHandler(tag, out);
      BindAdds(tag, "", None, [], out);
      if tag.element != SCRIPT {
        match FrameTypeOf(types, bound.intrinsics, tag.element)
        case None =>
          VisitAdds(types, parent, around, bound, content);
          AddsOn(out, bound, Visit(types, parent, around, bound, content).1);
        case Some(frameType) =>
          var frame := NewFrame(tag, frameType, parent, at);
          var inside := Visit(types, ParentInside(frame, parent), Some(frame), BindFrame(tag, frameType, parent, bound),
            content);
          VisitAdds(types, ParentInside(frame, parent), Some(frame), BindFrame(tag, frameType, parent, bound), content);
          FrameAdds(Finish(inside.0, end), tag, frameType, parent, out, inside.1);
      }
  }

  lemma NothingAdded(out: Output)
    ensures Adds(out, out)
  {
  }

  /** From before a frame's tag to after its end. */
  lemma FrameAdds(f: Frame, tag: Tag, frameType: string, parent: Option<string>, out: Output, inside: Output)
    requires Adds(BindFrame(tag, frameType, parent, BindHandler(tag, out)), inside)
    ensures Adds(out, Finalize(f, inside))
  {
    hide Adds, Finalize, BindHandler, BindFrame;
    var bound := BindHandler(tag, out);
    BindAdds(tag, frameType, parent, [], out);
    BindAdds(tag, frameType, parent, [], bound);
    AddsOn(out, bound, BindFrame(tag, frameType, parent, bound));
    AddsOn(out, BindFrame(tag, frameType, parent, bound), inside);
    FinalizeAdds(f, inside);
    AddsOn(out, inside, Finalize(f, inside));
  }

  /** A frame tag at some point of a document: neither a script nor a key value nor a mere container. */
  predicate FrameTag(types: map<string, string>, out: Output, tag: Tag, frameType: string) {
    && tag.element != SCRIPT && tag.element != KEY_VALUE
    && FrameTypeOf(types, BindHandler(tag, out).intrinsics, tag.element) == Some(frameType)
  }

  /** The frame of an element once its content is read. */
  function FrameOf(types: map<string, string>, parent: Option<string>, out: Output, tag: Tag, frameType: string,
        at: nat, content: Forest, end: nat): Frame
  {
    var frame := NewFrame(tag, frameType, parent, at);
    var bound := BindFrame(tag, frameType, parent, BindHandler(tag, out));
    Finish(Visit(types, ParentInside(frame, parent), Some(frame), bound, content).0, end)
  }

  ghost predicate PublishedIn(f: Frame, r: Output) {
    && (exists c :: c in r.classes && ClassOf(c, f))
    && (if f.isVirtual then f.name.Some? && f.name.value in r.templates
        else f.name.Some? && TableGlobal(f.name.value, f.def) in r.globals)
    && forall v :: v in f.globalValues ==> f.name.Some? && FieldGlobal(f.name.value, v.key, v.path, f.def) in r.globals
  }

  lemma PublishedStays(f: Frame, out: Output, r: Output)
    requires PublishedIn(f, out) && Adds(out, r)
    ensures PublishedIn(f, r)
  {
    hide ClassOf;
  }

  lemma FinalizeIsPublished(f: Frame, out: Output)
    requires f.name.Some? && IsValidGlobalName(f.name.value)
    ensures PublishedIn(f, Finalize(f, out))
  {
    hide ClassOf, IsValidGlobalName, Finalize;
    FinalizePublishesFrame(f, out);
    var r := Finalize(f, out);
    assert ClassOf(r.classes[|out.classes|], f);
    var more := r.globals[|out.globals|..];
    assert forall g :: g in more ==> g in r.globals;
    forall v | v in f.globalValues ensures FieldGlobal(f.name.value, v.key, v.path, f.def) in more {
      var i :| 0 <= i < |f.globalValues| && f.globalValues[i] == v;
      assert more[(if f.isVirtual then 0 else 1) + i] == FieldGlobal(f.name.value, v.key, v.path, f.def);
    }
    if !f.isVirtual {
      assert more[0] in more;
    }
  }

  /** An element with a valid name publishes what its frame gathers, from its opening to its closing tag; the rest
      of the document takes nothing of it back. */
  lemma ElementIsPublished(types: map<string, string>, parent: Option<string>, around: Option<Frame>, out: Output,
        tag: Tag, frameType: string, at: nat, content: Forest, end: nat, next: Forest, name: string)
    requires FrameTag(types, out, tag, frameType) && tag.name.Some?
    requires ResolveName(tag.name.value, parent) == Some(name) && IsValidGlobalName(name)
    ensures var f := FrameOf(types, parent, out, tag, frameType, at, content, end);
            && f.name == Some(name) && f.isVirtual == tag.isVirtual && f.frameType == frameType
            && f.def == Span(at, end) && f.inherits == tag.inherits && Mixins(tag) <= f.mixins && Ranged(f)
            && PublishedIn(f, Visit(types, parent, around, out, Element(tag, at, content, end, next)).1)
  {
    hide FrameTypeOf, BindHandler, BindFrame, Finalize, EnrichStep, RegisterStep, IsValidGlobalName, ResolveName,
         Mixins,
         PublishedIn, Adds;
    var frame := NewFrame(tag, frameType, parent, at);
    var bound := BindFrame(tag, frameType, parent, BindHandler(tag, out));
    VisitGathers(types, ParentInside(frame, parent), Some(frame), bound, content);
    var inside := Visit(types, ParentInside(frame, parent), Some(frame), bound, content);
    var f := Finish(inside.0, end);
    FinalizeIsPublished(f, inside.1);
    var after := EnrichStep(RegisterStep(around, tag, frameType, at), f);
    VisitAdds(types, parent, after, Finalize(f, inside.1), next);
    PublishedStays(f, Finalize(f, inside.1), Visit(types, parent, after, Finalize(f, inside.1), next).1);
  }

  /** An empty tag with a valid name publishes a class without fields. */
  lemma EmptyIsPublished(types: map<string, string>, parent: Option<string>, around: Option<Frame>, out: Output,
        tag: Tag, frameType: string, at: nat, next: Forest, name: string)
    requires FrameTag(types, out, tag, frameType) && tag.name.Some?
    requires ResolveName(tag.name.value, parent) == Some(name) && IsValidGlobalName(name)
    ensures var f := NewFrame(tag, frameType, parent, at);
            && f.name == Some(name) && f.isVirtual == tag.isVirtual && f.frameType == frameType && f.def == Span(at, at)
            && f.inherits == tag.inherits && f.mixins == Mixins(tag) && f.fields == [] && f.globalValues == []
            && PublishedIn(f, Visit(types, parent, around, out, Empty(tag, at, next)).1)
  {
    hide FrameTypeOf, BindHandler, BindFrame, Finalize, RegisterStep, IsValidGlobalName, ResolveName, Mixins,
         PublishedIn,
         Adds;
    var f := NewFrame(tag, frameType, parent, at);
    var bound := BindFrame(tag, frameType, parent, BindHandler(tag, out));
    FinalizeIsPublished(f, bound);
    var after := RegisterStep(around, tag, frameType, at);
    VisitAdds(types, parent, after, Finalize(f, bound), next);
    PublishedStays(f, Finalize(f, bound), Visit(types, parent, after, Finalize(f, bound), next).1);
  }

  // ---- from the tag of a child to the class

  /** One item: the tag of a child, with or without content. */
  predicate IsChild(item: Forest, tag: Tag, at: nat) {
    match item
    case Empty(t, a, next) => t == tag && a == at && next.Nothing?
    case Element(t, a, _, _, next) => t == tag && a == at && next.Nothing?
    case _ => false
  }

  lemma ChildRegisters(types: map<string, string>, parent: Option<string>, around: Frame, out: Output, item: Forest,
        tag: Tag, frameType: string, at: nat)
    requires FrameTag(types, out, tag, frameType) && IsChild(item, tag, at)
    ensures GathersSome(Some(RegisterChild(around, tag, frameType, at)),
              Visit(types, parent, Some(around), out, item).0)
  {
    hide FrameTypeOf, BindHandler, BindFrame, NewFrame, Finalize, Finish, EnrichStep, RegisterChild, GathersSome;
    var registered := Some(RegisterChild(around, tag, frameType, at));
    StepsGather(registered, [], NO_FRAME);
    if item.Element? {
      var child := FrameOf(types, parent, out, tag, frameType, at, item.content, item.end);
      VisitOneFrame(types, parent, Some(around), out, tag, at, item.content, item.end, frameType, child);
      StepsGather(registered, [], child);
    }
  }

  /** Whatever comes before and after it: unless the frame has a field of that name already, a child with a key is a
      field of the finished frame, with the child's own type, intersected at most with fields found inside. */
  lemma ChildIsGathered(types: map<string, string>, parent: Option<string>, around: Frame, out: Output, before: Forest,
        item: Forest, after: Forest, tag: Tag, frameType: string, at: nat, key: string)
    requires var v := Visit(types, parent, Some(around), out, before);
             && FrameTag(types, v.1, tag, frameType) && IsChild(item, tag, at)
             && v.0.Some? && Lookup(v.0.value.fields, key).None?
    requires tag.parentKey == Some(key) && '.' !in key
    ensures var r := Visit(types, parent, Some(around), out, Then(before, Then(item, after))).0;
            r.Some? && Lookup(r.value.fields, key).Some? &&
            Refines(ChildElementType(frameType, tag.inherits, Mixins(tag)), Lookup(r.value.fields, key).value)
  {
    hide Visit, RegisterChild, FrameTag, IsChild, ChildElementType, Mixins, Refines, Ranged, SameFrame;
    var v := Visit(types, parent, Some(around), out, before);
    var registered := RegisterChild(v.0.value, tag, frameType, at);
    var w := Visit(types, parent, v.0, v.1, item);
    VisitThen(types, parent, Some(around), out, before, Then(item, after));
    VisitThen(types, parent, v.0, v.1, item, after);
    ChildDeclares(v.0.value, tag, frameType, at, key);
    ChildRegisters(types, parent, v.0.value, v.1, item, tag, frameType, at);
    VisitGathers(types, parent, w.0, w.1, after);
    var r := Visit(types, parent, w.0, w.1, after).0;
    GathersOn(Some(registered), w.0, r);
    assert FieldRefines(registered, r.value, key);
  }

  /** So the class of a named frame has its children as fields. */
  lemma ChildIsPublished(types: map<string, string>, parent: Option<string>, around: Option<Frame>, out: Output,
        tag: Tag, frameType: string, at: nat, before: Forest, item: Forest, after: Forest, end: nat, next: Forest,
        name: string, child: Tag, childType: string, childAt: nat, key: string)
    requires FrameTag(types, out, tag, frameType) && tag.name.Some?
    requires ResolveName(tag.name.value, parent) == Some(name) && IsValidGlobalName(name)
    requires var frame := NewFrame(tag, frameType, parent, at);
             var bound := BindFrame(tag, frameType, parent, BindHandler(tag, out));
             var v := Visit(types, ParentInside(frame, parent), Some(frame), bound, before);
             && FrameTag(types, v.1, child, childType) && IsChild(item, child, childAt)
             && v.0.Some? && Lookup(v.0.value.fields, key).None?
    requires child.parentKey == Some(key) && '.' !in key
    ensures var r := Visit(types, parent, around, out, Element(tag, at, Then(before, Then(item, after)), end, next)).1;
            exists c :: c in r.classes && c.name == name && c.def == Span(at, end) && Lookup(c.fields, key).Some? &&
              Refines(ChildElementType(childType, child.inherits, Mixins(child)), Lookup(c.fields, key).value)
  {
    hide Visit, FrameTag, IsChild, ChildElementType, Mixins, Refines, Ranged, ResolveName, IsValidGlobalName, NewFrame,
         BindFrame, BindHandler, Then;
    var content := Then(before, Then(item, after));
    var frame := NewFrame(tag, frameType, parent, at);
    var bound := BindFrame(tag, frameType, parent, BindHandler(tag, out));
    ChildIsGathered(types, ParentInside(frame, parent), frame, bound, before, item, after, child, childType, childAt,
      key);
    ElementIsPublished(types, parent, around, out, tag, frameType, at, content, end, next, name);
    var f := FrameOf(types, parent, out, tag, frameType, at, content, end);
    var r := Visit(types, parent, around, out, Element(tag, at, content, end, next)).1;
    var c :| c in r.classes && ClassOf(c, f);
    assert FieldOf(c, f, key);
  }
}
