/** Frames of an XML file: what a tag says, what a frame gathers, and what it leaves behind when it ends. */
module XmlFrames {
  import opened Wrappers
  import opened Sequences
  import opened Texts

  datatype Annotation =
    | Simple(name: string)
    | Array(inner: Annotation)
    | Intersection(members: seq<Annotation>)
    | TableLiteral(fields: seq<Field>)

  datatype Field = Field(name: string, kind: Annotation)

  datatype Span = Span(start: nat, end: nat)

  /** The attributes of a tag that the scanner looks at, lists already split. */
  datatype Tag = Tag(
    element: string,
    name: Option<string>,
    isVirtual: bool,
    isIntrinsic: bool,
    parentKey: Option<string>,
    parentArray: Option<string>,
    inherits: seq<string>,
    mixin: seq<string>,
    secureMixin: seq<string>,
    handler: Option<string>,
    key: Option<string>,
    value: string,
    valueType: Option<string>)

  datatype GlobalValue = GlobalValue(key: string, path: seq<string>, at: nat)

  datatype Frame = Frame(
    name: Option<string>,
    frameType: string,
    isVirtual: bool,
    inherits: seq<string>,
    mixins: seq<string>,
    fields: seq<Field>,
    ranges: map<string, Span>,
    def: Span,
    globalValues: seq<GlobalValue>,
    parentKey: Option<string>)

  datatype Class = Class(name: string, parents: seq<string>, fields: seq<Field>, ranges: map<string, Span>, def: Span)

  datatype Augment = Augment(mixin: string, parent: string, fields: seq<Field>, ranges: map<string, Span>)

  datatype Global =
    | TableGlobal(name: string, def: Span)
    | FieldGlobal(name: string, key: string, path: seq<string>, def: Span)

  /** What a scan has found so far. */
  datatype Output = Output(
    classes: seq<Class>,
    globals: seq<Global>,
    augments: seq<Augment>,
    intrinsics: map<string, string>,
    bound: set<string>,
    templates: set<string>)

  // ---- lists

  /** Pushes what the list does not have yet. */
  function PushMissing<T(==)>(list: seq<T>, more: seq<T>): seq<T> {
    if more == [] then list
    else
      var r := PushMissing(list, more[..|more| - 1]);
      if more[|more| - 1] in r then r else r + [more[|more| - 1]]
  }

  method PushAllMissing<T(==)>(list: seq<T>, more: seq<T>) returns (r: seq<T>)
    ensures r == PushMissing(list, more)
  {
    r := list;
    var i := 0;
    while i < |more|
      invariant i <= |more| && r == PushMissing(list, more[..i])
    {
      assert more[..i + 1][..i] == more[..i];
      if more[i] !in r {
        r := r + [more[i]];
      }
      i := i + 1;
    }
    assert more[..i] == more;
  }

  predicate HasField(fields: seq<Field>, name: string) {
    exists i :: 0 <= i < |fields| && fields[i].name == name
  }

  // ---- names

  predicate IsNameChar(c: char) {
    'a' <= c <= 'z' || 'A' <= c <= 'Z' || '0' <= c <= '9' || c == '_'
  }

  predicate IsValidGlobalName(name: string) {
    name != [] && !('0' <= name[0] <= '9') && forall i :: 0 <= i < |name| ==> IsNameChar(name[i])
  }

  const PARENT: string := "parent"

  /** `$parent` at `at`, in any case. */
  predicate ParentAt(raw: string, at: nat) {
    at + 7 <= |raw| && raw[at] == '$' && LowerCase(raw[at + 1..at + 7]) == PARENT
  }

  predicate MentionsParent(raw: string) {
    exists at :: 0 <= at < |raw| && ParentAt(raw, at)
  }

  function ReplaceParent(raw: string, parent: string, from: nat): string
    decreases |raw| - from
  {
    if from >= |raw| then []
    else if ParentAt(raw, from) then parent + ReplaceParent(raw, parent, from + 7)
    else [raw[from]] + ReplaceParent(raw, parent, from + 1)
  }

  /** The name with `$parent` replaced; `parent` is what it stands for, if anything. */
  function ResolveName(raw: string, parent: Option<string>): Option<string> {
    if !MentionsParent(raw) then Some(raw)
    else match parent case None => None case Some(p) => Some(ReplaceParent(raw, p, 0))
  }

  // ---- fields

  const LEAF_REGIONS: set<string> := {"FontString", "Texture", "MaskTexture", "Line"}

  function Simples(names: seq<string>): seq<Annotation> {
    Apply(names, (n: string) => Simple(n))
  }

  /** The type of the field a child becomes. */
  function ChildElementType(frameType: string, inherits: seq<string>, mixins: seq<string>): Annotation {
    if inherits == [] && mixins == [] then Simple(frameType)
    else
      var isLeaf := frameType in LEAF_REGIONS;
      var base := if inherits == [] || isLeaf then [Simple(frameType)] + (if isLeaf then Simples(inherits) else [])
                  else [Simple(frameType)] + Simples(inherits);
      var members := PushMissing(base, Simples(mixins));
      if |members| == 1 then members[0] else Intersection(members)
  }

  function PutField(f: Frame, name: string, kind: Annotation, at: nat): Frame {
    f.(fields := f.fields + [Field(name, kind)], ranges := f.ranges[name := Span(at, at)])
  }

  /** A `parentKey` or `parentArray` field; the first one of a name stays. */
  function AddField(f: Frame, name: string, kind: Annotation, at: nat): Frame {
    if HasField(f.fields, name) then f else PutField(f, name, kind, at)
  }

  const STRING: string := "string"
  const VALUE_TYPES: map<string, string> :=
    map["string" := "string", "number" := "number", "int" := "number", "boolean" := "boolean"]
  const GLOBAL: string := "global"

  predicate IsDot(c: char) { c == '.' }

  function Whole(field: string): seq<string> { [field] }

  function AddKeyValue(f: Frame, key: string, value: string, valueType: string, at: nat): Frame {
    if valueType in VALUE_TYPES then PutField(f, key, Simple(VALUE_TYPES[valueType]), at)
    else if valueType == GLOBAL && value != [] then
      f.(globalValues := f.globalValues + [GlobalValue(key, ReadFields(IsDot, Whole, [], value), at)])
    else f
  }

  function TagKeyValue(f: Frame, tag: Tag, at: nat): Frame {
    if tag.key.None? then f
    else AddKeyValue(f, tag.key.value, tag.value, if tag.valueType.Some? then tag.valueType.value else STRING, at)
  }

  function AddMixins(f: Frame, names: seq<string>): Frame {
    f.(mixins := PushMissing(f.mixins, names))
  }

  function Mixins(tag: Tag): seq<string> {
    PushMissing(tag.mixin, tag.secureMixin)
  }

  /** What the tag of a child adds to the frame around it. A dotted key is left alone. */
  function RegisterChild(f: Frame, tag: Tag, frameType: string, at: nat): Frame {
    var kind := ChildElementType(frameType, tag.inherits, Mixins(tag));
    var keyed := if tag.parentKey.Some? &&
      '.' !in tag.parentKey.value then AddField(f, tag.parentKey.value, kind, at) else f;
    if tag.parentArray.Some? then AddField(keyed, tag.parentArray.value, Array(kind), at) else keyed
  }

  function NewFrame(tag: Tag, frameType: string, parent: Option<string>, at: nat): Frame {
    Frame(if tag.name.Some? then ResolveName(tag.name.value, parent) else None, frameType, tag.isVirtual, tag.inherits,
      Mixins(tag), [], map[], Span(at, at), [], tag.parentKey)
  }

  function IntersectWith(base: Annotation, extra: Annotation): Annotation {
    match base
    case Intersection(members) => Intersection(members + [extra])
    case _ => Intersection([base, extra])
  }

  function EnrichFields(fields: seq<Field>, name: string, extra: Annotation): seq<Field> {
    if fields == [] then []
    else if fields[0].name == name then [fields[0].(kind := IntersectWith(fields[0].kind, extra))] + fields[1..]
    else [fields[0]] + EnrichFields(fields[1..], name, extra)
  }

  /** The frame's fields go into the field it is on the frame around it. */
  predicate Enriches(child: Frame) {
    child.name.None? && child.fields != [] && child.parentKey.Some?
  }

  function Enrich(f: Frame, child: Frame): Frame {
    if Enriches(child) then f.(fields := EnrichFields(f.fields, child.parentKey.value, TableLiteral(child.fields)))
    else f
  }

  // ---- the end of a frame

  function Augments(f: Frame, mixins: seq<string>): seq<Augment> {
    if mixins == [] then []
    else
      Augments(f, mixins[..|mixins| - 1]) +
      if f.name == Some(mixins[|mixins| - 1]) then []
      else [Augment(mixins[|mixins| - 1], f.frameType, f.fields, f.ranges)]
  }

  const ANY: string := "any"

  /** A template declares its global values as fields. */
  function DeclareGlobals(f: Frame, values: seq<GlobalValue>): Frame {
    if values == [] then f
    else
      var last := values[|values| - 1];
      AddField(DeclareGlobals(f, values[..|values| - 1]), last.key, Simple(ANY), last.at)
  }

  function FieldGlobals(name: string, def: Span, values: seq<GlobalValue>): seq<Global> {
    Apply(values, (v: GlobalValue) => FieldGlobal(name, v.key, v.path, def))
  }

  function Parents(f: Frame): seq<string> {
    PushMissing(PushMissing([f.frameType], f.inherits), f.mixins)
  }

  function Finalize(f: Frame, out: Output): Output {
    var augmented := out.(augments := out.augments + Augments(f, f.mixins));
    if f.name.None? || !IsValidGlobalName(f.name.value) then augmented
    else
      var name := f.name.value;
      var declared := if f.isVirtual then DeclareGlobals(f, f.globalValues) else f;
      augmented.(
        classes := out.classes + [Class(name, Parents(f), declared.fields, declared.ranges, f.def)],
        templates := if f.isVirtual then out.templates + {name} else out.templates,
        globals := out.globals + (if f.isVirtual then [] else [TableGlobal(name, f.def)]) +
                   FieldGlobals(name, f.def, f.globalValues))
  }

  // ---- tags

  const ON: string := "On"

  /** Handler functions named by `<On… function="…">` are bound. */
  function BindHandler(tag: Tag, out: Output): Output {
    if |tag.element| >= 2 && tag.element[..2] == ON && tag.handler.Some? && IsValidGlobalName(tag.handler.value)
    then out.(bound := out.bound + {tag.handler.value})
    else out
  }

  /** The frame type of an element: an intrinsic stands for itself. */
  function FrameTypeOf(types: map<string, string>, intrinsics: map<string, string>, element: string): Option<string> {
    if element in intrinsics then Some(element)
    else if element in types then Some(types[element])
    else None
  }

  function ValidNames(names: seq<string>): set<string> {
    set n | n in names && IsValidGlobalName(n)
  }

  /** What a frame's tag tells the scan as a whole. */
  function BindFrame(tag: Tag, frameType: string, parent: Option<string>, out: Output): Output {
    var name := NewFrame(tag, frameType, parent, 0).name;
    out.(
      bound := out.bound + ValidNames(Mixins(tag)),
      intrinsics := if tag.isIntrinsic && name.Some? then out.intrinsics[name.value := frameType] else out.intrinsics)
  }
}
