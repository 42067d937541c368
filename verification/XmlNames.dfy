/** The names a document brings up: what `$parent` stands for, which globals it binds, which elements it
    declares, and which mixins a frame has. */
module XmlNames {
  import opened Wrappers
  import opened Sequences
  import opened Texts
  import opened XmlFrames
  import opened XmlScan
  import opened XmlTheorems
  import opened XmlPublishing

  // ---- names

  predicate IsLetter(c: char) {
    'a' <= Lower(c) <= 'z' || c == '_'
  }

  predicate IsDigit(c: char) {
    '0' <= c <= '9'
  }

  /** A valid name is an identifier of the language: a letter, then letters and digits. */
  lemma ValidNameIff(name: string)
    ensures IsValidGlobalName(name) <==>
            name != [] && IsLetter(name[0]) && forall i :: 0 < i < |name| ==> IsLetter(name[i]) || IsDigit(name[i])
  {
    forall i | 0 <= i < |name| ensures IsNameChar(name[i]) <==> IsLetter(name[i]) || IsDigit(name[i]) {
    }
    if name != [] {
      assert IsNameChar(name[0]) && !IsDigit(name[0]) <==> IsLetter(name[0]);
    }
  }

  // ---- `$parent`

  /** An entry that says nothing about what `$parent` is: a container, or a frame without a name that is no template. */
  predicate Silent(e: Entry) {
    e.FrameEntry? ==> !e.frame.isVirtual && e.frame.name.None?
  }

  /** It is the name of the innermost frame that says something, unless that is a template. */
  ghost predicate SpeaksAt(stack: seq<Entry>, i: nat) {
    i < |stack| && !Silent(stack[i]) && forall j :: i < j < |stack| ==> Silent(stack[j])
  }

  lemma {:induction false} ParentNameIff(stack: seq<Entry>, name: string)
    ensures ParentName(stack) == Some(name) <==>
            exists i: nat :: SpeaksAt(stack, i) && !stack[i].frame.isVirtual && stack[i].frame.name == Some(name)
    decreases |stack|
  {
    if stack != [] {
      var n := |stack| - 1;
      var below := stack[..n];
      if Silent(stack[n]) {
        ParentNameIff(below, name);
        forall i: nat ensures SpeaksAt(stack, i) <==> SpeaksAt(below, i) {
          assert SpeaksAt(below, i) ==> forall j :: i < j < n ==> stack[j] == below[j];
          assert SpeaksAt(stack, i) ==> forall j :: i < j < n ==> below[j] == stack[j];
        }
      } else {
        assert SpeaksAt(stack, n);
        assert forall i: nat :: SpeaksAt(stack, i) ==> i == n;
      }
    }
  }

  const DOLLAR_PARENT: string := "$parent"

  lemma ReplaceSteps(raw: string, parent: string, from: nat)
    requires from < |raw|
    ensures ReplaceParent(raw, parent, from) ==
            if ParentAt(raw, from) then parent + ReplaceParent(raw, parent, from + 7)
            else [raw[from]] + ReplaceParent(raw, parent, from + 1)
  {
    hide ParentAt;
  }

  lemma NothingToReplace(raw: string, parent: string)
    ensures ReplaceParent(raw, parent, |raw|) == []
  {
  }

  /** `raw` is what `whole` has from `n` on. */
  ghost predicate Follows(n: nat, raw: string, whole: string) {
    n <= |whole| && whole[n..] == raw
  }

  lemma {:induction false} ReplaceShift(n: nat, raw: string, parent: string, whole: string, from: nat)
    requires Follows(n, raw, whole) && from <= |raw|
    ensures ReplaceParent(whole, parent, n + from) == ReplaceParent(raw, parent, from)
    decreases |raw| - from
  {
    hide Follows, ReplaceParent, ParentAt;
    FollowingSize(n, raw, whole);
    if from == |raw| {
      NothingToReplace(raw, parent);
      NothingToReplace(whole, parent);
    } else {
      ParentShift(n, raw, whole, from);
      ReplaceSteps(raw, parent, from);
      ReplaceSteps(whole, parent, n + from);
      if ParentAt(raw, from) {
        ReplaceShift(n, raw, parent, whole, from + 7);
      } else {
        ReplaceShift(n, raw, parent, whole, from + 1);
      }
    }
  }

  lemma FollowingSize(n: nat, raw: string, whole: string)
    requires Follows(n, raw, whole)
    ensures |whole| == n + |raw|
  {
  }

  lemma ParentShift(n: nat, raw: string, whole: string, at: nat)
    requires Follows(n, raw, whole) && at < |raw|
    ensures n + at < |whole| && whole[n + at] == raw[at]
    ensures ParentAt(whole, n + at) <==> ParentAt(raw, at)
    ensures ParentAt(raw, at) ==> at + 7 <= |raw|
  {
    if at + 7 <= |raw| {
      assert whole[n + at + 1..n + at + 7] == raw[at + 1..at + 7];
    }
  }

  lemma {:induction false} NothingReplaced(raw: string, parent: string, from: nat, to: nat)
    requires from <= to <= |raw| && forall i :: from <= i < to ==> !ParentAt(raw, i)
    ensures ReplaceParent(raw, parent, from) == raw[from..to] + ReplaceParent(raw, parent, to)
    decreases |raw| - from
  {
    hide ParentAt, ReplaceParent;
    if from < to {
      ReplaceSteps(raw, parent, from);
      NothingReplaced(raw, parent, from + 1, to);
      assert raw[from..to] == [raw[from]] + raw[from + 1..to];
    } else {
      assert raw[from..to] == [];
    }
  }

  lemma WordIsParent(word: string, before: string, rest: string)
    requires LowerCase(word) == DOLLAR_PARENT
    ensures ParentAt(before + word + rest, |before|)
  {
    var raw := before + word + rest;
    assert |word| == 7 && Lower(word[0]) == '$';
    assert raw[|before| + 1..|before| + 7] == word[1..7];
    assert LowerCase(word[1..7]) == LowerCase(word)[1..7];
    assert DOLLAR_PARENT[1..7] == PARENT;
  }

  /** Every `$parent`, in any case, becomes the name of the parent, from left to right; all else stays. */
  lemma ParentIsReplaced(before: string, word: string, rest: string, parent: string)
    requires LowerCase(word) == DOLLAR_PARENT
    requires forall i :: 0 <= i < |before| ==> !ParentAt(before + word + rest, i)
    ensures ReplaceParent(before + word + rest, parent, 0) == before + parent + ReplaceParent(rest, parent, 0)
    ensures ResolveName(before + word + rest, Some(parent)) == Some(before + parent + ReplaceParent(rest, parent, 0))
    ensures ResolveName(before + word + rest, None) == None
  {
    hide ParentAt;
    var raw := before + word + rest;
    WordIsParent(word, before, rest);
    NothingReplaced(raw, parent, 0, |before|);
    assert raw[0..|before|] == before;
    assert |word| == 7;
    assert Follows(|before| + 7, rest, raw);
    ReplaceShift(|before| + 7, rest, parent, raw, 0);
  }

  /** A name without it stays as it is. */
  lemma PlainNameStays(raw: string, parent: Option<string>)
    requires !MentionsParent(raw)
    ensures ResolveName(raw, parent) == Some(raw) && ReplaceParent(raw, "", 0) == raw
  {
    hide ParentAt;
    NothingReplaced(raw, "", 0, |raw|);
    assert raw[0..|raw|] == raw;
  }

  // ---- mixins

  /** A tag has the mixins of both its lists, each once. */
  lemma MixinsSpec(tag: Tag)
    ensures tag.mixin <= Mixins(tag) && ToSet(Mixins(tag)) == ToSet(tag.mixin) + ToSet(tag.secureMixin)
    ensures NoDuplicates(tag.mixin) ==> NoDuplicates(Mixins(tag))
  {
    PushMissingSpec(tag.mixin, tag.secureMixin);
  }

  /** A mixin applied in a script text of a frame is a mixin of the frame, once. */
  lemma InlineMixinsAreGathered(types: map<string, string>, parent: Option<string>, around: Frame, out: Output,
        before: Forest, targets: seq<string>, after: Forest)
    ensures var r := Visit(types, parent, Some(around), out, Then(before, Text(targets, after)));
            && r.0.Some? && ToSet(around.mixins) + ToSet(targets) <= ToSet(r.0.value.mixins)
            && ToSet(targets) <= r.1.bound
  {
    hide Visit, BindTargets, Gathers;
    var v := Visit(types, parent, Some(around), out, before);
    VisitThen(types, parent, Some(around), out, before, Text(targets, after));
    VisitGathers(types, parent, Some(around), out, before);
    var w := (InlineStep(v.0, targets), BindTargets(targets, v.1));
    TextStep(types, parent, v.0, v.1, targets, after);
    PushMissingSpec(v.0.value.mixins, targets);
    StepsGather(v.0, targets, NO_FRAME);
    VisitGathers(types, parent, w.0, w.1, after);
    MixinsStay(around, v.0.value);
    var r := Visit(types, parent, w.0, w.1, after);
    MixinsStay(w.0.value, r.0.value);
    TargetsAreBound(targets, v.1);
    VisitAdds(types, parent, w.0, w.1, after);
  }

  lemma TextStep(types: map<string, string>, parent: Option<string>, around: Option<Frame>, out: Output,
        targets: seq<string>, after: Forest)
    ensures Visit(types, parent, around, out, Text(targets, after)) ==
            Visit(types, parent, InlineStep(around, targets), BindTargets(targets, out), after)
  {
  }

  lemma MixinsStay(f: Frame, g: Frame)
    requires Gathers(f, g)
    ensures ToSet(f.mixins) <= ToSet(g.mixins)
  {
  }

  lemma TargetsAreBound(targets: seq<string>, out: Output)
    ensures ToSet(targets) <= BindTargets(targets, out).bound
  {
  }

  // ---- what tags tell the scan as a whole

  /** A handler of an element whose name starts with `On`. */
  predicate NamesHandler(tag: Tag, name: string) {
    "On" <= tag.element && tag.handler == Some(name) && IsValidGlobalName(name)
  }

  predicate NamesMixin(tag: Tag, name: string) {
    (name in tag.mixin || name in tag.secureMixin) && IsValidGlobalName(name)
  }

  /** The globals that the tag of a frame binds: its handler and its mixins, of valid names, and no others. A frame
      that is an intrinsic of a resolved name makes that name an element. */
  lemma FrameTells(tag: Tag, frameType: string, parent: Option<string>, out: Output, name: string)
    ensures var r := BindFrame(tag, frameType, parent, BindHandler(tag, out));
            && (name in r.bound <==> name in out.bound || NamesHandler(tag, name) || NamesMixin(tag, name))
            && (name in r.intrinsics <==>
                  name in out.intrinsics ||
                  (tag.isIntrinsic && tag.name.Some? && ResolveName(tag.name.value, parent) == Some(name)))
    ensures name in BindHandler(tag, out).bound <==> name in out.bound || NamesHandler(tag, name)
  {
    hide IsValidGlobalName, ResolveName, PushMissing;
    MixinsSpec(tag);
    assert name in Mixins(tag) <==> name in ToSet(Mixins(tag));
    assert name in ToSet(tag.mixin) + ToSet(tag.secureMixin) <==> name in tag.mixin || name in tag.secureMixin;
    assert "On" <= tag.element <==> |tag.element| >= 2 && tag.element[..2] == ON;
  }

  /** Once declared, an intrinsic is an element of its own type in all that follows, whatever else has its name. */
  lemma IntrinsicIsElement(types: map<string, string>, parent: Option<string>, around: Option<Frame>, out: Output,
        tag: Tag, frameType: string, at: nat, next: Forest, name: string)
    requires FrameTag(types, out, tag, frameType) && tag.isIntrinsic && tag.name.Some?
    requires ResolveName(tag.name.value, parent) == Some(name)
    ensures var r := Visit(types, parent, around, out, Empty(tag, at, next)).1;
            FrameTypeOf(types, r.intrinsics, name) == Some(name)
  {
    hide Finalize, RegisterStep, ResolveName, NewFrame, BindFrame, BindHandler;
    var bound := BindFrame(tag, frameType, parent, BindHandler(tag, out));
    FrameTells(tag, frameType, parent, out, name);
    var frame := NewFrame(tag, frameType, parent, at);
    FinalizePublishesFrame(frame, bound);
    var after := RegisterStep(around, tag, frameType, at);
    VisitAdds(types, parent, after, Finalize(frame, bound), next);
  }

  /** And the tag of an element that is no intrinsic has the type the table gives it. */
  lemma ElementHasType(types: map<string, string>, intrinsics: map<string, string>, element: string)
    requires element !in intrinsics
    ensures FrameTypeOf(types, intrinsics, element) == if element in types then Some(types[element]) else None
  {
  }

  // ---- named frames inside others

  /** A frame with a name, or without fields, is a field of the frame around it by its tag alone: its own fields stay
      with its class. */
  lemma NamedStaysApart(types: map<string, string>, parent: Option<string>, around: Option<Frame>, out: Output,
        tag: Tag, frameType: string, at: nat, content: Forest, end: nat)
    requires FrameTag(types, out, tag, frameType)
    requires var f := FrameOf(types, parent, out, tag, frameType, at, content, end);
             f.name.Some? || f.fields == [] || f.parentKey.None?
    ensures Visit(types, parent, around, out, Element(tag, at, content, end, Nothing)).0 ==
            RegisterStep(around, tag, frameType, at)
  {
    hide Visit, FrameTypeOf, BindHandler, NewFrame, BindFrame, Finalize, Finish, RegisterStep, EnrichFields;
    var child := FrameOf(types, parent, out, tag, frameType, at, content, end);
    VisitOneFrame(types, parent, around, out, tag, at, content, end, frameType, child);
  }
}
