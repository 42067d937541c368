/** The XML scanner: a stack machine over the events of a document, and the recursion over its tree that
    it amounts to. */
module XmlScan {
  import opened Wrappers
  import opened XmlFrames

  // ---- the machine

  datatype Event =
    | Open(tag: Tag, at: nat)
    | SelfClosed(tag: Tag, at: nat)
    | Close(element: string, at: nat)
    | Inline(targets: seq<string>)

  datatype Entry = Container | FrameEntry(frame: Frame)

  datatype State = State(stack: seq<Entry>, scripts: nat, out: Output)

  const SCRIPT: string := "Script"
  const KEY_VALUE: string := "KeyValue"

  /** The innermost open frame. */
  function Nearest(stack: seq<Entry>): Option<Frame> {
    if stack == [] then None
    else if stack[|stack| - 1].FrameEntry? then Some(stack[|stack| - 1].frame)
    else Nearest(stack[..|stack| - 1])
  }

  /** The stack with `f` for the innermost open frame. */
  function WithNearest(stack: seq<Entry>, f: Frame): (r: seq<Entry>)
    ensures |r| == |stack|
  {
    if stack == [] then []
    else if stack[|stack| - 1].FrameEntry? then stack[..|stack| - 1] + [FrameEntry(f)]
    else WithNearest(stack[..|stack| - 1], f) + [Container]
  }

  function Put(stack: seq<Entry>, f: Option<Frame>): seq<Entry> {
    if f.Some? then WithNearest(stack, f.value) else stack
  }

  /** What `$parent` stands for: the name of the innermost named frame, unless a template comes first. */
  function ParentName(stack: seq<Entry>): Option<string> {
    if stack == [] then None
    else match stack[|stack| - 1]
      case Container => ParentName(stack[..|stack| - 1])
      case FrameEntry(f) =>
        if f.isVirtual then None else if f.name.Some? then f.name else ParentName(stack[..|stack| - 1])
  }

  function KeyValueStep(f: Option<Frame>, tag: Tag, at: nat): Option<Frame> {
    match f case None => None case Some(x) => Some(TagKeyValue(x, tag, at))
  }

  function RegisterStep(f: Option<Frame>, tag: Tag, frameType: string, at: nat): Option<Frame> {
    match f case None => None case Some(x) => Some(RegisterChild(x, tag, frameType, at))
  }

  function InlineStep(f: Option<Frame>, targets: seq<string>): Option<Frame> {
    match f case None => None case Some(x) => Some(AddMixins(x, targets))
  }

  function EnrichStep(f: Option<Frame>, child: Frame): Option<Frame> {
    match f case None => None case Some(x) => Some(Enrich(x, child))
  }

  function BindTargets(targets: seq<string>, out: Output): Output {
    out.(bound := out.bound + set t | t in targets)
  }

  /** `process_open_tag`. */
  function OpenTag(types: map<string, string>, s: State, tag: Tag, at: nat, isEmpty: bool): State {
    if tag.element == KEY_VALUE then s.(stack := Put(s.stack, KeyValueStep(Nearest(s.stack), tag, at)))
    else
      var out := BindHandler(tag, s.out);
      match FrameTypeOf(types, out.intrinsics, tag.element)
      case None => s.(stack := if isEmpty then s.stack else s.stack + [Container], out := out)
      case Some(frameType) =>
        var parent := ParentName(s.stack);
        var frame := NewFrame(tag, frameType, parent, at);
        var registered := Put(s.stack, RegisterStep(Nearest(s.stack), tag, frameType, at));
        var bound := BindFrame(tag, frameType, parent, out);
        if isEmpty then s.(stack := registered, out := Finalize(frame, bound))
        else s.(stack := registered + [FrameEntry(frame)], out := bound)
  }

  /** The end of an element: whatever is on top of the stack ends. */
  function CloseTag(s: State, at: nat): State {
    if s.stack == [] then s
    else
      var rest := s.stack[..|s.stack| - 1];
      match s.stack[|s.stack| - 1]
      case Container => s.(stack := rest)
      case FrameEntry(f) =>
        var frame := f.(def := f.def.(end := at));
        s.(stack := Put(rest, EnrichStep(Nearest(rest), frame)), out := Finalize(frame, s.out))
  }

  function Step(types: map<string, string>, s: State, e: Event): State {
    match e
    case Open(tag, at) =>
      if s.scripts > 0 then s.(scripts := if tag.element == SCRIPT then s.scripts + 1 else s.scripts)
      else if tag.element == SCRIPT then s.(scripts := 1)
      else OpenTag(types, s, tag, at, false)
    case SelfClosed(tag, at) =>
      if s.scripts > 0 || tag.element == SCRIPT then s else OpenTag(types, s, tag, at, true)
    case Close(element, at) =>
      if s.scripts > 0 then s.(scripts := if element == SCRIPT then s.scripts - 1 else s.scripts)
      else CloseTag(s, at)
    case Inline(targets) =>
      if s.scripts > 0 then s
      else s.(stack := Put(s.stack, InlineStep(Nearest(s.stack), targets)), out := BindTargets(targets, s.out))
  }

  function Run(types: map<string, string>, s: State, es: seq<Event>): State {
    if es == [] then s else Step(types, Run(types, s, es[..|es| - 1]), es[|es| - 1])
  }

  // ---- documents

  /** The content of an element: its first item and the rest. */
  datatype Forest =
    | Nothing
    | Text(targets: seq<string>, next: Forest)
    | Empty(tag: Tag, at: nat, next: Forest)
    | Element(tag: Tag, at: nat, content: Forest, end: nat, next: Forest)

  function Events(f: Forest): seq<Event> {
    match f
    case Nothing => []
    case Text(targets, next) => [Inline(targets)] + Events(next)
    case Empty(tag, at, next) => [SelfClosed(tag, at)] + Events(next)
    case Element(tag, at, content, end, next) =>
      [Open(tag, at)] + Events(content) + [Close(tag.element, end)] + Events(next)
  }

  /** The same run, item by item. */
  function Pass(types: map<string, string>, s: State, f: Forest): State
    decreases f
  {
    match f
    case Nothing => s
    case Text(targets, next) => Pass(types, Step(types, s, Inline(targets)), next)
    case Empty(tag, at, next) => Pass(types, Step(types, s, SelfClosed(tag, at)), next)
    case Element(tag, at, content, end, next) =>
      Pass(types, Step(types, Pass(types, Step(types, s, Open(tag, at)), content), Close(tag.element, end)), next)
  }

  lemma {:induction false} RunAppend(types: map<string, string>, s: State, a: seq<Event>, b: seq<Event>)
    ensures Run(types, s, a + b) == Run(types, Run(types, s, a), b)
    decreases |b|
  {
    hide Step;
    if b == [] {
      assert a + b == a;
    } else {
      assert (a + b)[..|a + b| - 1] == a + b[..|b| - 1];
      RunAppend(types, s, a, b[..|b| - 1]);
    }
  }

  lemma RunOne(types: map<string, string>, s: State, e: Event)
    ensures Run(types, s, [e]) == Step(types, s, e)
  {
    hide Step;
    assert [e][..0] == [];
  }

  lemma {:induction false} PassIsRun(types: map<string, string>, s: State, f: Forest)
    ensures Run(types, s, Events(f)) == Pass(types, s, f)
    decreases f
  {
    hide Step;
    match f
    case Nothing =>
    case Text(targets, next) =>
      RunOne(types, s, Inline(targets));
      RunAppend(types, s, [Inline(targets)], Events(next));
      PassIsRun(types, Step(types, s, Inline(targets)), next);
    case Empty(tag, at, next) =>
      RunOne(types, s, SelfClosed(tag, at));
      RunAppend(types, s, [SelfClosed(tag, at)], Events(next));
      PassIsRun(types, Step(types, s, SelfClosed(tag, at)), next);
    case Element(tag, at, content, end, next) =>
      ElementRun(types, s, tag, at, Events(content), end);
      RunAppend(types, s, [Open(tag, at)] + Events(content) + [Close(tag.element, end)], Events(next));
      PassIsRun(types, Step(types, s, Open(tag, at)), content);
      PassIsRun(types, Step(types, Pass(types, Step(types, s, Open(tag, at)), content), Close(tag.element, end)), next);
  }

  lemma ElementRun(types: map<string, string>, s: State, tag: Tag, at: nat, es: seq<Event>, end: nat)
    ensures Run(types, s, [Open(tag, at)] + es + [Close(tag.element, end)]) ==
            Step(types, Run(types, Step(types, s, Open(tag, at)), es), Close(tag.element, end))
  {
    hide Step;
    RunOne(types, s, Open(tag, at));
    RunAppend(types, s, [Open(tag, at)], es);
    RunAppend(types, s, [Open(tag, at)] + es, [Close(tag.element, end)]);
    RunOne(types, Run(types, s, [Open(tag, at)] + es), Close(tag.element, end));
  }

  // ---- the recursion

  /** `$parent` inside a frame. */
  function ParentInside(f: Frame, parent: Option<string>): Option<string> {
    if f.isVirtual then None else if f.name.Some? then f.name else parent
  }

  /** One pass over the content of the frame `around`: every item adds to that frame, every frame inside
      is finished once its own content is. */
  function Visit(types: map<string, string>, parent: Option<string>, around: Option<Frame>, out: Output, f: Forest):
      (r: (Option<Frame>, Output))
    decreases f
  {
    match f
    case Nothing => (around, out)
    case Text(targets, next) => Visit(types, parent, InlineStep(around, targets), BindTargets(targets, out), next)
    case Empty(tag, at, next) =>
      if tag.element == SCRIPT then Visit(types, parent, around, out, next)
      else if tag.element == KEY_VALUE then Visit(types, parent, KeyValueStep(around, tag, at), out, next)
      else
        var out := BindHandler(tag, out);
        (match FrameTypeOf(types, out.intrinsics, tag.element)
         case None => Visit(types, parent, around, out, next)
         case Some(frameType) =>
           var out := Finalize(NewFrame(tag, frameType, parent, at), BindFrame(tag, frameType, parent, out));
           Visit(types, parent, RegisterStep(around, tag, frameType, at), out, next))
    case Element(tag, at, content, end, next) =>
      if tag.element == SCRIPT then Visit(types, parent, around, out, next)
      else
        var out := BindHandler(tag, out);
        match FrameTypeOf(types, out.intrinsics, tag.element)
        case None =>
          var inside := Visit(types, parent, around, out, content);
          Visit(types, parent, inside.0, inside.1, next)
        case Some(frameType) =>
          var frame := NewFrame(tag, frameType, parent, at);
          var inside := Visit(types, ParentInside(frame, parent), Some(frame), BindFrame(tag, frameType, parent, out),
            content);
          var finished := Finish(inside.0, end);
          Visit(types, parent, EnrichStep(RegisterStep(around, tag, frameType, at), finished),
            Finalize(finished, inside.1), next)
  }

  const ANY_TAG: Tag := Tag("", None, false, false, None, None, [], [], [], None, None, "", None)
  const NO_FRAME: Frame := Frame(None, "", false, [], [], [], map[], Span(0, 0), [], None)

  function Finish(f: Option<Frame>, end: nat): Frame {
    if f.Some? then f.value.(def := f.value.def.(end := end)) else NO_FRAME
  }

  /** Every `KeyValue` outside scripts is self-closing. */
  predicate KeyValuesClosed(f: Forest) {
    match f
    case Nothing => true
    case Text(_, next) => KeyValuesClosed(next)
    case Empty(_, _, next) => KeyValuesClosed(next)
    case Element(tag, _, content, _, next) =>
      (tag.element == SCRIPT || (tag.element != KEY_VALUE && KeyValuesClosed(content))) && KeyValuesClosed(next)
  }

  // ---- scripts

  /** A script's content leaves everything as it is. */
  lemma {:induction false} ScriptIsSkipped(types: map<string, string>, s: State, f: Forest)
    requires s.scripts > 0
    ensures Pass(types, s, f) == s
    decreases f
  {
    match f
    case Nothing =>
    case Text(_, next) => ScriptIsSkipped(types, s, next);
    case Empty(_, _, next) => ScriptIsSkipped(types, s, next);
    case Element(tag, at, content, end, next) =>
      var started := Step(types, s, Open(tag, at));
      ScriptIsSkipped(types, started, content);
      assert Step(types, started, Close(tag.element, end)) == s;
      ScriptIsSkipped(types, s, next);
  }

  // ---- the stack and its innermost frame

  lemma {:induction false} PutIsFound(stack: seq<Entry>, f: Frame)
    requires Nearest(stack).Some?
    ensures Nearest(WithNearest(stack, f)) == Some(f)
    decreases |stack|
  {
    var n := |stack| - 1;
    if stack[n].Container? {
      PutIsFound(stack[..n], f);
      assert WithNearest(stack, f)[..n] == WithNearest(stack[..n], f);
    }
  }

  lemma {:induction false} PutTwice(stack: seq<Entry>, f: Frame, g: Frame)
    ensures WithNearest(WithNearest(stack, f), g) == WithNearest(stack, g)
    decreases |stack|
  {
    if stack != [] {
      var n := |stack| - 1;
      if stack[n].Container? {
        PutTwice(stack[..n], f, g);
        assert WithNearest(stack, f)[..n] == WithNearest(stack[..n], f);
      } else {
        assert WithNearest(stack, f)[..n] == stack[..n];
      }
    }
  }

  lemma {:induction false} PutSame(stack: seq<Entry>, f: Frame)
    requires Nearest(stack) == Some(f)
    ensures WithNearest(stack, f) == stack
    decreases |stack|
  {
    var n := |stack| - 1;
    if stack[n].Container? {
      PutSame(stack[..n], f);
    }
  }

  /** What does not change about a frame while its content is read. */
  predicate SameFrame(f: Frame, g: Frame) {
    f.name == g.name && f.isVirtual == g.isVirtual && f.parentKey == g.parentKey
  }

  lemma {:induction false} PutKeepsParentName(stack: seq<Entry>, f: Frame)
    requires Nearest(stack).Some? && SameFrame(Nearest(stack).value, f)
    ensures ParentName(WithNearest(stack, f)) == ParentName(stack)
    decreases |stack|
  {
    var n := |stack| - 1;
    if stack[n].Container? {
      PutKeepsParentName(stack[..n], f);
      assert WithNearest(stack, f)[..n] == WithNearest(stack[..n], f);
    } else {
      assert WithNearest(stack, f)[..n] == stack[..n];
    }
  }

  ghost predicate SameFrames(f: Option<Frame>, g: Option<Frame>) {
    f.Some? == g.Some? && (f.Some? ==> SameFrame(f.value, g.value))
  }

  /** Everything the recursion needs to know about a stack once its innermost frame is replaced. */
  lemma PutFrame(stack: seq<Entry>, f: Option<Frame>)
    requires SameFrames(Nearest(stack), f)
    ensures Nearest(Put(stack, f)) == f && ParentName(Put(stack, f)) == ParentName(stack)
    ensures forall g :: SameFrames(f, g) ==> Put(Put(stack, f), g) == Put(stack, g)
  {
    if f.Some? {
      PutIsFound(stack, f.value);
      PutKeepsParentName(stack, f.value);
      forall g: Frame ensures WithNearest(WithNearest(stack, f.value), g) == WithNearest(stack, g) {
        PutTwice(stack, f.value, g);
      }
    }
  }

  lemma StepsKeepFrame(f: Option<Frame>, tag: Tag, frameType: string, at: nat, targets: seq<string>, child: Frame)
    ensures SameFrames(f, KeyValueStep(f, tag, at)) && SameFrames(f, RegisterStep(f, tag, frameType, at))
    ensures SameFrames(f, InlineStep(f, targets)) && SameFrames(f, EnrichStep(f, child))
  {
    hide ChildElementType, Mixins, EnrichFields, PushMissing, HasField;
  }

  lemma {:induction false} VisitKeepsFrame(types: map<string, string>, parent: Option<string>, around: Option<Frame>,
        out: Output, f: Forest)
    ensures SameFrames(around, Visit(types, parent, around, out, f).0)
    decreases f
  {
    hide BindHandler, FrameTypeOf, Finalize, NewFrame, BindFrame, InlineStep, KeyValueStep, RegisterStep, EnrichStep,
         BindTargets, Finish;
    match f
    case Nothing =>
    case Text(targets, next) =>
      StepsKeepFrame(around, ANY_TAG, "", 0, targets, NO_FRAME);
      VisitKeepsFrame(types, parent, InlineStep(around, targets), BindTargets(targets, out), next);
    case Empty(tag, at, next) =>
      if tag.element == SCRIPT {
        VisitKeepsFrame(types, parent, around, out, next);
      } else if tag.element == KEY_VALUE {
        StepsKeepFrame(around, tag, "", at, [], NO_FRAME);
        VisitKeepsFrame(types, parent, KeyValueStep(around, tag, at), out, next);
      } else {
        var out := BindHandler(tag, out);
        match FrameTypeOf(types, out.intrinsics, tag.element)
        case None => VisitKeepsFrame(types, parent, around, out, next);
        case Some(frameType) =>
          var out := Finalize(NewFrame(tag, frameType, parent, at), BindFrame(tag, frameType, parent, out));
          StepsKeepFrame(around, tag, frameType, at, [], NO_FRAME);
          VisitKeepsFrame(types, parent, RegisterStep(around, tag, frameType, at), out, next);
      }
    case Element(tag, at, content, end, next) =>
      if tag.element == SCRIPT {
        VisitKeepsFrame(types, parent, around, out, next);
      } else {
        var out := BindHandler(tag, out);
        match FrameTypeOf(types, out.intrinsics, tag.element)
        case None =>
          var inside := Visit(types, parent, around, out, content);
          VisitKeepsFrame(types, parent, around, out, content);
          VisitKeepsFrame(types, parent, inside.0, inside.1, next);
        case Some(frameType) =>
          var frame := NewFrame(tag, frameType, parent, at);
          var inside := Visit(types, ParentInside(frame, parent), Some(frame), BindFrame(tag, frameType, parent, out),
            content);
          var finished := Finish(inside.0, end);
          var registered := RegisterStep(around, tag, frameType, at);
          StepsKeepFrame(around, tag, frameType, at, [], finished);
          StepsKeepFrame(registered, tag, frameType, at, [], finished);
          VisitKeepsFrame(types, parent, EnrichStep(registered, finished), Finalize(finished, inside.1), next);
      }
  }

  // ---- the machine is the recursion

  /** What the machine makes of a document item by item is what the recursion returns, put back on the
      stack. */
  lemma {:induction false} PassIsVisit(types: map<string, string>, stack: seq<Entry>, out: Output, f: Forest)
    requires KeyValuesClosed(f)
    ensures var v := Visit(types, ParentName(stack), Nearest(stack), out, f);
            Pass(types, State(stack, 0, out), f) == State(Put(stack, v.0), 0, v.1)
    decreases f, 0
  {
    hide BindHandler, FrameTypeOf, Finalize, NewFrame, BindFrame, InlineStep, KeyValueStep, RegisterStep, EnrichStep,
         BindTargets, Finish;
    hide ParentName, Nearest, WithNearest;
    var s := State(stack, 0, out);
    match f
    case Nothing => PutNearest(stack);
    case Text(targets, next) =>
      StepsKeepFrame(Nearest(stack), ANY_TAG, "", 0, targets, NO_FRAME);
      PassOn(types, stack, InlineStep(Nearest(stack), targets), BindTargets(targets, out), next);
    case Empty(tag, at, next) =>
      EmptyPass(types, stack, out, tag, at, next);
    case Element(tag, at, content, end, next) =>
      if tag.element == SCRIPT {
        ScriptIsSkipped(types, State(stack, 1, out), content);
        PassIsVisit(types, stack, out, next);
      } else {
        var out := BindHandler(tag, out);
        match FrameTypeOf(types, out.intrinsics, tag.element)
        case None =>
          PassIsVisit(types, stack + [Container], out, content);
          var inside := Visit(types, ParentName(stack), Nearest(stack), out, content);
          ContainerOnTop(stack, inside.0);
          VisitKeepsFrame(types, ParentName(stack), Nearest(stack), out, content);
          PassOn(types, stack, inside.0, inside.1, next);
        case Some(frameType) =>
          FramePass(types, stack, out, tag, at, frameType, content, end);
          var frame := NewFrame(tag, frameType, ParentName(stack), at);
          var inside := Visit(types, ParentInside(frame, ParentName(stack)), Some(frame),
                              BindFrame(tag, frameType, ParentName(stack), out), content);
          var finished := Finish(inside.0, end);
          var registered := RegisterStep(Nearest(stack), tag, frameType, at);
          StepsKeepFrame(Nearest(stack), tag, frameType, at, [], finished);
          StepsKeepFrame(registered, tag, frameType, at, [], finished);
          PassOn(types, stack, EnrichStep(registered, finished), Finalize(finished, inside.1), next);
      }
  }

  lemma EmptyPass(types: map<string, string>, stack: seq<Entry>, out: Output, tag: Tag, at: nat, next: Forest)
    requires KeyValuesClosed(next)
    ensures var f := Empty(tag, at, next);
            var v := Visit(types, ParentName(stack), Nearest(stack), out, f);
            Pass(types, State(stack, 0, out), f) == State(Put(stack, v.0), 0, v.1)
    decreases next, 2
  {
    hide BindHandler, FrameTypeOf, Finalize, NewFrame, BindFrame, InlineStep, KeyValueStep, RegisterStep, EnrichStep,
         BindTargets, Finish;
    hide ParentName, Nearest, WithNearest;
    StepsKeepFrame(Nearest(stack), tag, "", at, [], NO_FRAME);
    if tag.element == SCRIPT {
      PassIsVisit(types, stack, out, next);
    } else if tag.element == KEY_VALUE {
      PassOn(types, stack, KeyValueStep(Nearest(stack), tag, at), out, next);
    } else {
      var out := BindHandler(tag, out);
      match FrameTypeOf(types, out.intrinsics, tag.element)
      case None => PassIsVisit(types, stack, out, next);
      case Some(frameType) =>
        StepsKeepFrame(Nearest(stack), tag, frameType, at, [], NO_FRAME);
        var parent := ParentName(stack);
        PassOn(types, stack, RegisterStep(Nearest(stack), tag, frameType, at),
          Finalize(NewFrame(tag, frameType, parent, at), BindFrame(tag, frameType, parent, out)), next);
    }
  }

  /** The rest of a content, once its first item has changed the frame around it. */
  lemma PassOn(types: map<string, string>, stack: seq<Entry>, around: Option<Frame>, out: Output, next: Forest)
    requires KeyValuesClosed(next) && SameFrames(Nearest(stack), around)
    ensures var v := Visit(types, ParentName(stack), around, out, next);
            Pass(types, State(Put(stack, around), 0, out), next) == State(Put(stack, v.0), 0, v.1)
    decreases next, 1
  {
    hide Visit, Pass, Put, Nearest, ParentName;
    PassIsVisit(types, Put(stack, around), out, next);
    PutFrame(stack, around);
    VisitKeepsFrame(types, ParentName(stack), around, out, next);
  }

  lemma PutNearest(stack: seq<Entry>)
    ensures Put(stack, Nearest(stack)) == stack
  {
    if Nearest(stack).Some? {
      PutSame(stack, Nearest(stack).value);
    }
  }

  lemma ContainerOnTop(stack: seq<Entry>, f: Option<Frame>)
    ensures Nearest(stack + [Container]) == Nearest(stack) && ParentName(stack + [Container]) == ParentName(stack)
    ensures Put(stack + [Container], f) == Put(stack, f) + [Container]
  {
    assert (stack + [Container])[..|stack|] == stack;
  }

  lemma FrameOnTop(stack: seq<Entry>, f: Frame, g: Frame)
    ensures Nearest(stack + [FrameEntry(f)]) == Some(f)
    ensures ParentName(stack + [FrameEntry(f)]) == ParentInside(f, ParentName(stack))
    ensures Put(stack + [FrameEntry(f)], Some(g)) == stack + [FrameEntry(g)]
  {
    assert (stack + [FrameEntry(f)])[..|stack|] == stack;
  }

  /** A frame from its opening tag to its closing tag. */
  lemma FramePass(types: map<string, string>, stack: seq<Entry>, out: Output, tag: Tag, at: nat, frameType: string,
        content: Forest, end: nat)
    requires KeyValuesClosed(content)
    ensures var parent := ParentName(stack);
            var frame := NewFrame(tag, frameType, parent, at);
            var bound := BindFrame(tag, frameType, parent, out);
            var registered := RegisterStep(Nearest(stack), tag, frameType, at);
            var inside := Visit(types, ParentInside(frame, parent), Some(frame), bound, content);
            var finished := Finish(inside.0, end);
            CloseTag(Pass(types, State(Put(stack, registered) + [FrameEntry(frame)], 0, bound), content), end) ==
            State(Put(stack, EnrichStep(registered, finished)), 0, Finalize(finished, inside.1))
    decreases content, 1
  {
    hide Visit, Pass, Put, Nearest, ParentName, NewFrame, BindFrame, RegisterStep, EnrichStep, Finalize;
    var parent := ParentName(stack);
    var frame := NewFrame(tag, frameType, parent, at);
    var bound := BindFrame(tag, frameType, parent, out);
    var registered := RegisterStep(Nearest(stack), tag, frameType, at);
    var below := Put(stack, registered);
    StepsKeepFrame(Nearest(stack), tag, frameType, at, [], frame);
    PutFrame(stack, registered);
    FrameOnTop(below, frame, frame);
    PassIsVisit(types, below + [FrameEntry(frame)], bound, content);
    VisitKeepsFrame(types, ParentInside(frame, parent), Some(frame), bound, content);
    var inside := Visit(types, ParentInside(frame, parent), Some(frame), bound, content);
    var finished := Finish(inside.0, end);
    FrameOnTop(below, frame, inside.0.value);
    assert (below + [FrameEntry(inside.0.value)])[..|below|] == below;
    StepsKeepFrame(registered, tag, frameType, at, [], finished);
  }

  /** The scanner over a well-nested document with self-closing key values is the recursion over its
      tree: the stack comes back empty, and what has been found is what the recursion finds. */
  lemma ScanIsVisit(types: map<string, string>, out: Output, f: Forest)
    requires KeyValuesClosed(f)
    ensures Run(types, State([], 0, out), Events(f)) == State([], 0, Visit(types, None, None, out, f).1)
  {
    PassIsRun(types, State([], 0, out), f);
    PassIsVisit(types, [], out, f);
    VisitKeepsFrame(types, None, None, out, f);
  }
}
