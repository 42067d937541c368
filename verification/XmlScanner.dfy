/** The scanner as it runs: a context changed in place, event by event. */
module XmlScanner {
  import opened Wrappers
  import opened XmlFrames
  import opened XmlScan
  import opened XmlTheorems

  /** Where the innermost open frame is. */
  function NearestIndex(stack: seq<Entry>): (r: Option<nat>)
    ensures r.Some? ==> r.value < |stack| && stack[r.value].FrameEntry?
    ensures r.Some? <==> Nearest(stack).Some?
    ensures r.Some? ==> Nearest(stack) == Some(stack[r.value].frame)
  {
    if stack == [] then None
    else if stack[|stack| - 1].FrameEntry? then Some(|stack| - 1)
    else NearestIndex(stack[..|stack| - 1])
  }

  lemma {:induction false} PutAtIndex(stack: seq<Entry>, f: Frame)
    requires NearestIndex(stack).Some?
    ensures WithNearest(stack, f) == stack[NearestIndex(stack).value := FrameEntry(f)]
    decreases |stack|
  {
    var n := |stack| - 1;
    if stack[n].Container? {
      PutAtIndex(stack[..n], f);
      assert stack == stack[..n] + [Container];
    }
  }

  class ScanContext {
    var stack: seq<Entry>
    var classes: seq<Class>
    var globals: seq<Global>
    var augments: seq<Augment>
    var intrinsics: map<string, string>
    var bound: set<string>
    var templates: set<string>

    ghost function Found(): Output
      reads this
    {
      Output(classes, globals, augments, intrinsics, bound, templates)
    }

    constructor ()
      ensures stack == [] && Found() == Output([], [], [], map[], {}, {})
    {
      stack, classes, globals, augments := [], [], [], [];
      intrinsics, bound, templates := map[], {}, {};
    }

    /** The innermost open frame and its place, from the top of the stack down. */
    method FindFrame() returns (at: Option<nat>)
      ensures at == NearestIndex(stack)
    {
      var i: nat := |stack|;
      assert stack[..i] == stack;
      while i > 0
        invariant i <= |stack| && NearestIndex(stack) == NearestIndex(stack[..i])
      {
        i := i - 1;
        assert stack[..i + 1][..i] == stack[..i];
        if stack[i].FrameEntry? {
          return Some(i);
        }
      }
      assert stack[..0] == [];
      return None;
    }

    /** `resolve_parent_name`. */
    method ResolveParentName(raw: string) returns (name: Option<string>)
      ensures name == ResolveName(raw, ParentName(stack))
    {
      hide ReplaceParent, MentionsParent;
      if !MentionsParent(raw) {
        return Some(raw);
      }
      var i: nat := |stack|;
      assert stack[..i] == stack;
      while i > 0
        invariant i <= |stack| && ParentName(stack) == ParentName(stack[..i])
      {
        i := i - 1;
        assert stack[..i + 1][..i] == stack[..i];
        if stack[i].FrameEntry? {
          var f := stack[i].frame;
          if f.isVirtual {
            return None;
          }
          if f.name.Some? {
            return Some(ReplaceParent(raw, f.name.value, 0));
          }
        }
      }
      assert stack[..0] == [];
      return None;
    }

    method HandleKeyValue(tag: Tag, at: nat)
      modifies this`stack
      ensures stack == Put(old(stack), KeyValueStep(Nearest(old(stack)), tag, at))
    {
      hide AddKeyValue;
      if tag.key.None? {
        PutNearest(stack);
        return;
      }
      var valueType := if tag.valueType.Some? then tag.valueType.value else STRING;
      var i := FindFrame();
      if i.Some? {
        var f := AddKeyValue(stack[i.value].frame, tag.key.value, tag.value, valueType, at);
        PutAtIndex(stack, f);
        stack := stack[i.value := FrameEntry(f)];
      }
    }

    /** The field a child is on the frame around it, by key and by array. */
    method RegisterFields(tag: Tag, frameType: string, at: nat)
      modifies this`stack
      ensures stack == Put(old(stack), RegisterStep(Nearest(old(stack)), tag, frameType, at))
    {
      hide ChildElementType, Mixins;
      var kind := ChildElementType(frameType, tag.inherits, Mixins(tag));
      var i := FindFrame();
      if i.None? {
        return;
      }
      var f := stack[i.value].frame;
      if tag.parentKey.Some? && '.' !in tag.parentKey.value {
        if !HasField(f.fields, tag.parentKey.value) {
          f := PutField(f, tag.parentKey.value, kind, at);
        }
      }
      if tag.parentArray.Some? {
        if !HasField(f.fields, tag.parentArray.value) {
          f := PutField(f, tag.parentArray.value, Array(kind), at);
        }
      }
      PutAtIndex(stack, f);
      stack := stack[i.value := FrameEntry(f)];
    }

    method HandleFrameElement(tag: Tag, frameType: string, at: nat)
      modifies this
      ensures var parent := ParentName(old(stack));
              && stack == Put(old(stack), RegisterStep(Nearest(old(stack)), tag, frameType, at)) +
                          [FrameEntry(NewFrame(tag, frameType, parent, at))]
              && Found() == BindFrame(tag, frameType, parent, old(Found()))
    {
      hide Put, RegisterStep, Nearest, ParentName, ResolveName;
      var mixins := PushAllMissing(tag.mixin, tag.secureMixin);
      bound := bound + ValidNames(mixins);
      var name: Option<string> := None;
      if tag.name.Some? {
        name := ResolveParentName(tag.name.value);
      }
      RegisterFields(tag, frameType, at);
      if tag.isIntrinsic && name.Some? {
        intrinsics := intrinsics[name.value := frameType];
      }
      var frame := Frame(name, frameType, tag.isVirtual, tag.inherits, mixins, [], map[], Span(at, at), [],
        tag.parentKey);
      stack := stack + [FrameEntry(frame)];
    }

    method ProcessOpenTag(types: map<string, string>, tag: Tag, at: nat, isEmpty: bool)
      modifies this
      ensures State(stack, 0, Found()) == OpenTag(types, State(old(stack), 0, old(Found())), tag, at, isEmpty)
    {
      hide Put, RegisterStep, KeyValueStep, Nearest, ParentName, NewFrame, BindFrame, Finalize, IsValidGlobalName;
      if tag.element == KEY_VALUE {
        HandleKeyValue(tag, at);
        return;
      }
      if |tag.element| >= 2 && tag.element[..2] == ON && tag.handler.Some? && IsValidGlobalName(tag.handler.value) {
        bound := bound + {tag.handler.value};
      }
      assert Found() == BindHandler(tag, old(Found()));
      var frameType := FrameTypeOf(types, intrinsics, tag.element);
      if frameType.Some? {
        ghost var below := Put(stack, RegisterStep(Nearest(stack), tag, frameType.value, at));
        HandleFrameElement(tag, frameType.value, at);
        if isEmpty {
          var top := stack[|stack| - 1];
          stack := stack[..|stack| - 1];
          assert stack == below;
          NewFrameDef(tag, frameType.value, ParentName(old(stack)), at);
          FinalizeFrame(top.frame.(def := top.frame.def.(end := at)));
        }
      } else if !isEmpty {
        stack := stack + [Container];
      }
    }

    /** `record_inline_mixins`. */
    method RecordInlineMixins(targets: seq<string>)
      modifies this
      ensures stack == Put(old(stack), InlineStep(Nearest(old(stack)), targets))
      ensures Found() == BindTargets(targets, old(Found()))
    {
      bound := bound + set t | t in targets;
      var i := FindFrame();
      if i.Some? {
        var f := stack[i.value].frame;
        var mixins := PushAllMissing(f.mixins, targets);
        PutAtIndex(stack, AddMixins(f, targets));
        stack := stack[i.value := FrameEntry(f.(mixins := mixins))];
      }
    }

    /** `enrich_parent_field_with_nested`. */
    method EnrichParentField(child: Frame)
      requires Enriches(child)
      modifies this`stack
      ensures stack == Put(old(stack), EnrichStep(Nearest(old(stack)), child))
    {
      var i := FindFrame();
      if i.Some? {
        var f := stack[i.value].frame;
        var key := child.parentKey.value;
        var k := 0;
        while k < |f.fields| && f.fields[k].name != key
          invariant k <= |f.fields| && forall j :: 0 <= j < k ==> f.fields[j].name != key
        {
          k := k + 1;
        }
        var fields := f.fields;
        if k < |f.fields| {
          EnrichFieldsAt(f.fields, key, TableLiteral(child.fields), k);
          fields := fields[k := Field(key, IntersectWith(fields[k].kind, TableLiteral(child.fields)))];
        } else {
          EnrichNothing(f.fields, key, TableLiteral(child.fields));
        }
        PutAtIndex(stack, Enrich(f, child));
        stack := stack[i.value := FrameEntry(f.(fields := fields))];
      }
    }

    method FinalizeFrame(frame: Frame)
      modifies this`classes, this`globals, this`augments, this`templates
      ensures Found() == Finalize(frame, old(Found()))
    {
      hide IsValidGlobalName, Parents, AddField;
      AugmentMixins(frame);
      if frame.name.None? || !IsValidGlobalName(frame.name.value) {
        return;
      }
      var name := frame.name.value;
      var declared := frame;
      if frame.isVirtual {
        declared := DeclareAll(frame);
      }
      var parents := ListParents(frame);
      classes := classes + [Class(name, parents, declared.fields, declared.ranges, frame.def)];
      if frame.isVirtual {
        templates := templates + {name};
      } else {
        globals := globals + [TableGlobal(name, frame.def)];
      }
      globals := globals + FieldGlobals(name, frame.def, frame.globalValues);
    }

    method AugmentMixins(frame: Frame)
      modifies this`augments
      ensures augments == old(augments) + Augments(frame, frame.mixins)
    {
      var i := 0;
      while i < |frame.mixins|
        invariant i <= |frame.mixins| && augments == old(augments) + Augments(frame, frame.mixins[..i])
      {
        assert frame.mixins[..i + 1][..i] == frame.mixins[..i];
        if frame.name != Some(frame.mixins[i]) {
          augments := augments + [Augment(frame.mixins[i], frame.frameType, frame.fields, frame.ranges)];
        }
        i := i + 1;
      }
      assert frame.mixins[..i] == frame.mixins;
    }

    /** The end tag: the top of the stack ends. */
    method CloseElement(at: nat)
      modifies this
      ensures State(stack, 0, Found()) == CloseTag(State(old(stack), 0, old(Found())), at)
    {
      hide Put, Nearest, Finalize;
      if stack == [] {
        return;
      }
      var top := stack[|stack| - 1];
      stack := stack[..|stack| - 1];
      if top.FrameEntry? {
        var frame := top.frame.(def := top.frame.def.(end := at));
        if frame.name.None? && frame.fields != [] && frame.parentKey.Some? {
          EnrichParentField(frame);
        } else {
          NothingToEnrich(stack, frame);
        }
        FinalizeFrame(frame);
      }
    }

    /** `scan_xml_content`. */
    method Scan(types: map<string, string>, events: seq<Event>) returns (scripts: nat)
      requires stack == []
      modifies this
      ensures State(stack, scripts, Found()) == Run(types, State([], 0, old(Found())), events)
    {
      hide OpenTag, CloseTag, Put, InlineStep, BindTargets, Nearest;
      scripts := 0;
      var i := 0;
      ghost var start := State([], 0, Found());
      while i < |events|
        invariant i <= |events| && State(stack, scripts, Found()) == Run(types, start, events[..i])
      {
        assert events[..i + 1][..i] == events[..i];
        match events[i] {
          case Open(tag, at) =>
            if scripts > 0 {
              if tag.element == SCRIPT {
                scripts := scripts + 1;
              }
            } else if tag.element == SCRIPT {
              scripts := 1;
            } else {
              ProcessOpenTag(types, tag, at, false);
            }
          case SelfClosed(tag, at) =>
            if scripts == 0 && tag.element != SCRIPT {
              ProcessOpenTag(types, tag, at, true);
            }
          case Close(element, at) =>
            if scripts > 0 {
              if element == SCRIPT {
                scripts := scripts - 1;
              }
            } else {
              CloseElement(at);
            }
          case Inline(targets) =>
            if scripts == 0 {
              RecordInlineMixins(targets);
            }
        }
        i := i + 1;
      }
      assert events[..i] == events;
    }
  }

  lemma NewFrameDef(tag: Tag, frameType: string, parent: Option<string>, at: nat)
    ensures NewFrame(tag, frameType, parent, at).def == Span(at, at)
  {
  }

  lemma {:induction false} EnrichNothing(fields: seq<Field>, name: string, extra: Annotation)
    requires forall k :: 0 <= k < |fields| ==> fields[k].name != name
    ensures EnrichFields(fields, name, extra) == fields
    decreases |fields|
  {
    if fields != [] {
      EnrichNothing(fields[1..], name, extra);
    }
  }

  lemma NothingToEnrich(stack: seq<Entry>, child: Frame)
    requires !Enriches(child)
    ensures Put(stack, EnrichStep(Nearest(stack), child)) == stack
  {
    PutNearest(stack);
  }

  /** The loop over a template's global values. */
  method DeclareAll(frame: Frame) returns (declared: Frame)
    ensures declared == DeclareGlobals(frame, frame.globalValues)
  {
    hide PutField;
    declared := frame;
    var i := 0;
    while i < |frame.globalValues|
      invariant i <= |frame.globalValues| && declared == DeclareGlobals(frame, frame.globalValues[..i])
    {
      assert frame.globalValues[..i + 1][..i] == frame.globalValues[..i];
      var v := frame.globalValues[i];
      if !HasField(declared.fields, v.key) {
        declared := PutField(declared, v.key, Simple(ANY), v.at);
      }
      i := i + 1;
    }
    assert frame.globalValues[..i] == frame.globalValues;
  }

  /** The frame type, then what it inherits and mixes in. */
  method ListParents(frame: Frame) returns (parents: seq<string>)
    ensures parents == Parents(frame)
  {
    parents := PushAllMissing([frame.frameType], frame.inherits);
    parents := PushAllMissing(parents, frame.mixins);
  }
}
