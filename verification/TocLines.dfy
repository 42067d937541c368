/** File lines of a TOC: a path with bracketed conditions and variables in it. */
module TocLines {
  import opened Wrappers
  import opened Texts
  import opened Flavors

  datatype Directive = Variable | Allow(names: seq<GameType>) | Exclude(args: string) | OtherCondition

  /** Text up to a `[`, what stands between it and the next `]` and what that says, and so on. The last
      text may hold a `[` that is never closed. */
  datatype Line = Tail(text: string) | Bracketed(text: string, content: string, says: Directive, more: Line)

  /** The line from `from` on. */
  function Scan(read: string -> Directive, line: string, from: nat): Line
    requires from <= |line|
    decreases |line| - from
  {
    match Find(line, '[', from)
    case None => Tail(line[from..])
    case Some(start) =>
      match Find(line, ']', start + 1)
      case None => Tail(line[from..])
      case Some(end) =>
        Bracketed(line[from..start], line[start + 1..end], read(line[start + 1..end]), Scan(read, line, end + 1))
  }

  function Render(l: Line): string {
    match l
    case Tail(text) => text
    case Bracketed(text, content, _, more) => text + ['['] + content + [']'] + Render(more)
  }

  /** The line without its conditions. */
  function Path(l: Line): string {
    match l
    case Tail(text) => text
    case Bracketed(text, content, says, more) =>
      text + (if says.Variable? then ['['] + content + [']'] else []) + Path(more)
  }

  /** The flavors of all the allow conditions. */
  function AllowMask(l: Line): set<Flavor> {
    match l
    case Tail(_) => {}
    case Bracketed(_, _, says, more) => (if says.Allow? then ListMask(says.names) else {}) + AllowMask(more)
  }

  /** The lists of all the exclude conditions, each after a space. */
  function ExcludeList(l: Line): string {
    match l
    case Tail(_) => []
    case Bracketed(_, _, says, more) => (if says.Exclude? then [' '] + says.args else []) + ExcludeList(more)
  }

  // ---- conditions and variables

  function FirstWord(s: string): (r: string)
    ensures |r| <= |s|
  {
    if s == [] || IsSpace(s[0]) then [] else [s[0]] + FirstWord(s[1..])
  }

  const PATH_VARIABLES: set<string> := {"Family", "Game", "TextLocale"}

  const ALLOW: string := "AllowLoadGameType"
  const EXCLUDE: string := "ExcludeLoadGameType"

  /** What the content of a bracket says. */
  function Read(content: string): Directive {
    var directive := Trim(content);
    var keyword := FirstWord(directive);
    if keyword in PATH_VARIABLES then Variable
    else if keyword == ALLOW then Allow(NamesIn(TrimStart(directive[|keyword|..])))
    else if keyword == EXCLUDE then Exclude(TrimStart(directive[|keyword|..]))
    else OtherCondition
  }

  lemma {:induction false} FirstWordOf(word: string, rest: string)
    requires forall i :: 0 <= i < |word| ==> !IsSpace(word[i])
    ensures FirstWord(word + [' '] + rest) == word
    decreases |word|
  {
    var s := word + [' '] + rest;
    if word != [] {
      assert s[1..] == word[1..] + [' '] + rest;
      FirstWordOf(word[1..], rest);
    }
  }

  /** A condition is written as its keyword, a space, and its arguments. */
  lemma ReadCondition(keyword: string, args: string)
    requires keyword != [] && (forall i :: 0 <= i < |keyword| ==> !IsSpace(keyword[i]))
    requires args != [] && NoSpaceAround(args)
    ensures Read(keyword + [' '] + args) ==
            if keyword in PATH_VARIABLES then Variable
            else if keyword == ALLOW then Allow(NamesIn(args))
            else if keyword == EXCLUDE then Exclude(args)
            else OtherCondition
  {
    hide NamesIn;
    var content := keyword + [' '] + args;
    FirstWordOf(keyword, args);
    assert content[0] == keyword[0] && content[|content| - 1] == args[|args| - 1];
    assert Trim(content) == content;
    assert content[|keyword|..] == [' '] + args;
    assert ([' '] + args)[1..] == args;
    assert TrimStart([' '] + args) == args;
  }

  // ---- the scanner

  /** With what has been gathered, the rest of the line completes the whole. */
  ghost predicate Completes(l: Line, rest: Line, path: string, allowMask: set<Flavor>, excludeNames: string) {
    path + Path(rest) == Path(l) && allowMask + AllowMask(rest) == AllowMask(l) &&
      excludeNames + ExcludeList(rest) == ExcludeList(l)
  }

  method ParseFileLineDirectives(line: string) returns (path: string, flavors: set<Flavor>)
    ensures var l := Scan(Read, line, 0);
            && path == Trim(Path(l))
            && flavors == ApplyLoadGameType(FLAVOR_ALL, AllowMask(l), FullyListed(NamesIn(ExcludeList(l))))
  {
    var allowMask: set<Flavor>, excludeNames;
    path, allowMask, excludeNames := ScanBrackets(line);
    var excludeMask := FullyListedFlavors(NamesIn(excludeNames));
    flavors := ApplyLoadGameType(FLAVOR_ALL, allowMask, excludeMask);
    path := Trim(path);
  }

  /** The loop of the scanner. The rest of the line starts at `rest`. */
  method ScanBrackets(line: string) returns (path: string, allowMask: set<Flavor>, excludeNames: string)
    ensures var l := Scan(Read, line, 0); path == Path(l) && allowMask == AllowMask(l) && excludeNames == ExcludeList(l)
  {
    hide Scan;
    path, allowMask, excludeNames := [], {}, [];
    var rest: nat := 0;
    ghost var l := Scan(Read, line, 0);
    var start := Find(line, '[', rest);
    while start.Some?
      invariant rest <= |line| && start == Find(line, '[', rest)
      invariant Completes(l, Scan(Read, line, rest), path, allowMask, excludeNames)
      decreases |line| - rest, start.Some?
    {
      var end := Find(line, ']', start.value + 1);
      if end.None? {
        break;
      }
      path, allowMask, excludeNames := GatherDirective(l, line, rest, start.value, end.value, path, allowMask,
        excludeNames);
      rest := end.value + 1;
      start := Find(line, '[', rest);
    }
    LastText(Read, line, rest);
    path := path + line[rest..];
  }

  lemma LastText(read: string -> Directive, line: string, rest: nat)
    requires rest <= |line|
    requires match Find(line, '[', rest) case None => true case Some(start) => Find(line, ']', start + 1).None?
    ensures Scan(read, line, rest) == Tail(line[rest..])
  {
  }

  lemma ScanStep(read: string -> Directive, line: string, rest: nat, start: nat, end: nat)
    requires rest <= |line| && Find(line, '[', rest) == Some(start) && Find(line, ']', start + 1) == Some(end)
    ensures Scan(read, line, rest) ==
            Bracketed(line[rest..start], line[start + 1..end], read(line[start + 1..end]), Scan(read, line, end + 1))
  {
  }

  /** The body of the scanner's loop, for a bracket from `start` to `end`. */
  method GatherDirective(ghost l: Line, line: string, rest: nat, start: nat, end: nat,
        path: string, allowMask: set<Flavor>, excludeNames: string)
    returns (path': string, allowMask': set<Flavor>, excludeNames': string)
    requires rest <= |line| && Find(line, '[', rest) == Some(start) && Find(line, ']', start + 1) == Some(end)
    requires Completes(l, Scan(Read, line, rest), path, allowMask, excludeNames)
    ensures Completes(l, Scan(Read, line, end + 1), path', allowMask', excludeNames')
  {
    hide Scan, Path, AllowMask, ExcludeList;
    ScanStep(Read, line, rest, start, end);
    GatherBracket(l, Scan(Read, line, rest), path, allowMask, excludeNames);
    BracketText(line, rest, start, end);
    path', allowMask', excludeNames' := path, allowMask, excludeNames;
    var directive := Trim(line[start + 1..end]);
    var keyword := FirstWord(directive);
    if keyword in PATH_VARIABLES {
      path' := path + line[rest..end + 1];
    } else {
      path' := path + line[rest..start];
      var args := TrimStart(directive[|keyword|..]);
      if keyword == ALLOW {
        var mask := ParseGameTypeList(NamesIn(args));
        allowMask' := allowMask + mask;
      } else if keyword == EXCLUDE {
        excludeNames' := excludeNames + ([' '] + args);
      }
    }
  }

  lemma BracketText(line: string, rest: nat, start: nat, end: nat)
    requires rest <= start < end < |line| && line[start] == '[' && line[end] == ']'
    ensures line[rest..end + 1] == line[rest..start] + ['['] + line[start + 1..end] + [']']
  {
  }

  /** What one bracket adds. */
  lemma GatherBracket(l: Line, rest: Line, path: string, allowMask: set<Flavor>, excludeNames: string)
    requires rest.Bracketed? && Completes(l, rest, path, allowMask, excludeNames)
    ensures var d := rest.says;
            Completes(l, rest.more,
              path + (if d.Variable? then rest.text + ['['] + rest.content + [']'] else rest.text),
              allowMask + (if d.Allow? then ListMask(d.names) else {}),
              excludeNames + if d.Exclude? then [' '] + d.args else [])
  {
  }

  // ---- what the result means

  /** Scanning loses nothing: the pieces render back to the line. */
  lemma {:induction false} RenderOfScan(read: string -> Directive, line: string, from: nat)
    requires from <= |line|
    ensures Render(Scan(read, line, from)) == line[from..]
    decreases |line| - from
  {
    hide Scan;
    var start := Find(line, '[', from);
    var end := if start.Some? then Find(line, ']', start.value + 1) else None;
    if end.Some? {
      ScanStep(read, line, from, start.value, end.value);
      RenderOfScan(read, line, end.value + 1);
      RestOfLine(line, from, start.value, end.value);
    } else {
      LastText(read, line, from);
    }
  }

  lemma RestOfLine(line: string, rest: nat, start: nat, end: nat)
    requires rest <= start < end < |line| && line[start] == '[' && line[end] == ']'
    ensures line[rest..] == line[rest..start] + ['['] + line[start + 1..end] + [']'] + line[end + 1..]
  {
  }

  /** Text without `[`, brackets without `]`, each saying what it says. */
  predicate WellBracketed(read: string -> Directive, l: Line) {
    match l
    case Tail(text) => '[' !in text
    case Bracketed(text, content, says, more) =>
      '[' !in text && ']' !in content && says == read(content) && WellBracketed(read, more)
  }

  /** And it finds every bracket that was written. */
  lemma {:induction false} ScanOfRender(read: string -> Directive, line: string, before: string, l: Line)
    requires WellBracketed(read, l) && line == before + Render(l)
    ensures Scan(read, line, |before|) == l
    decreases l
  {
    hide Scan;
    match l
    case Tail(text) =>
      NoBracket(line, before, text);
      LastText(read, line, |before|);
    case Bracketed(text, content, _, more) =>
      var next := FirstBracket(line, before, text, content, Render(more));
      ScanStep(read, line, |before|, |before| + |text|, |next| - 1);
      ScanOfRender(read, line, next, more);
  }

  /** Scanning depends on the rest of the line alone. */
  lemma {:induction false} ScanShift(read: string -> Directive, before: string, line: string, shifted: string,
        from: nat)
    requires from <= |line| && shifted == before + line
    ensures Scan(read, shifted, |before| + from) == Scan(read, line, from)
    decreases |line| - from
  {
    hide Scan, Find;
    FindShift(before, line, '[', from);
    var start := Find(line, '[', from);
    if start.Some? {
      FindShift(before, line, ']', start.value + 1);
      var end := Find(line, ']', start.value + 1);
      if end.Some? {
        ScanShift(read, before, line, shifted, end.value + 1);
        BracketShift(read, before, line, shifted, from, start.value, end.value);
      } else {
        TailShift(read, before, line, shifted, from);
      }
    } else {
      TailShift(read, before, line, shifted, from);
    }
  }

  lemma BracketShift(read: string -> Directive, before: string, line: string, shifted: string, from: nat, start: nat,
        end: nat)
    requires from <= |line| && shifted == before + line
    requires Find(line, '[', from) == Some(start) && Find(shifted, '[', |before| + from) == Some(|before| + start)
    requires Find(line, ']', start + 1) == Some(end)
    requires Find(shifted, ']', |before| + start + 1) == Some(|before| + end)
    requires Scan(read, shifted, |before| + end + 1) == Scan(read, line, end + 1)
    ensures Scan(read, shifted, |before| + from) == Scan(read, line, from)
  {
    hide Scan, Find;
    ScanStep(read, line, from, start, end);
    ScanStep(read, shifted, |before| + from, |before| + start, |before| + end);
    SliceShift(before, line, shifted, from, start);
    SliceShift(before, line, shifted, start + 1, end);
  }

  lemma TailShift(read: string -> Directive, before: string, line: string, shifted: string, from: nat)
    requires from <= |line| && shifted == before + line
    requires match Find(line, '[', from) case None => true case Some(start) => Find(line, ']', start + 1).None?
    requires match Find(shifted, '[', |before| + from)
             case None => true case Some(start) => Find(shifted, ']', start + 1).None?
    ensures Scan(read, shifted, |before| + from) == Scan(read, line, from)
  {
    hide Scan, Find;
    LastText(read, line, from);
    LastText(read, shifted, |before| + from);
    SliceShift(before, line, shifted, from, |line|);
  }

  lemma SliceShift(before: string, line: string, shifted: string, a: nat, b: nat)
    requires a <= b <= |line| && shifted == before + line
    ensures shifted[|before| + a..|before| + b] == line[a..b]
    ensures b == |line| ==> shifted[|before| + a..] == line[a..]
  {
  }

  lemma {:induction false} FindShift(before: string, line: string, c: char, from: nat)
    requires from <= |line|
    ensures Find(before + line, c, |before| + from) ==
            match Find(line, c, from) case None => None case Some(at) => Some(|before| + at)
    decreases |line| - from
  {
    if from < |line| {
      FindShift(before, line, c, from + 1);
    }
  }

  lemma PathOfText(text: string)
    requires '[' !in text
    ensures Path(Scan(Read, text, 0)) == text
  {
    hide Scan, Read;
    NoBracket(text, [], text);
    LastText(Read, text, 0);
  }

  /** The path of a line, bracket by bracket: a variable stays as it is written, every condition vanishes, and
      nothing else does. */
  lemma PathOfLine(text: string, content: string, rest: string)
    requires '[' !in text && ']' !in content
    ensures Path(Scan(Read, text + ['['] + content + [']'] + rest, 0)) ==
            text + (if Read(content).Variable? then ['['] + content + [']'] else []) + Path(Scan(Read, rest, 0))
  {
    hide Scan, Read, Find;
    var line := text + ['['] + content + [']'] + rest;
    var next := BracketFound(line, text, content, rest);
    ScanStep(Read, line, 0, |text|, |next| - 1);
    ScanShift(Read, next, rest, line, 0);
  }

  lemma BracketFound(line: string, text: string, content: string, rest: string) returns (next: string)
    requires line == text + ['['] + content + [']'] + rest && '[' !in text && ']' !in content
    ensures |next| == |text| + 1 + |content| + 1 && line == next + rest
    ensures Find(line, '[', 0) == Some(|text|) && Find(line, ']', |text| + 1) == Some(|next| - 1)
    ensures line[0..|text|] == text && line[|text| + 1..|next| - 1] == content
  {
    hide Find;
    var none: string := [];
    assert none + line == line;
    next := FirstBracket(line, none, text, content, rest);
  }

  lemma NoBracket(line: string, before: string, text: string)
    requires line == before + text && '[' !in text
    ensures Find(line, '[', |before|) == None && line[|before|..] == text
  {
    forall i | |before| <= i < |line| ensures line[i] != '[' {
      assert line[i] == text[i - |before|] && line[i] in text;
    }
    FindNothing(line, '[', |before|);
  }

  lemma FirstBracket(line: string, before: string, text: string, content: string, more: string) returns (next: string)
    requires line == before + (text + ['['] + content + [']'] + more) && '[' !in text && ']' !in content
    ensures var start := |before| + |text|;
            && |next| == start + 1 + |content| + 1 && line == next + more
            && Find(line, '[', |before|) == Some(start) && Find(line, ']', start + 1) == Some(|next| - 1)
            && line[|before|..start] == text && line[start + 1..|next| - 1] == content
  {
    var start := |before| + |text|;
    next := before + (text + ['['] + content + [']']);
    assert line == next + more;
    forall i | |before| <= i < start ensures line[i] != '[' {
      assert line[i] == text[i - |before|] && line[i] in text;
    }
    FindIs(line, '[', |before|, start);
    forall i | start + 1 <= i < start + 1 + |content| ensures line[i] != ']' {
      assert line[i] == content[i - start - 1] && line[i] in content;
    }
    FindIs(line, ']', start + 1, start + 1 + |content|);
  }

  /** The game types named by all the exclude conditions. */
  function Excluded(l: Line): seq<GameType> {
    match l
    case Tail(_) => []
    case Bracketed(_, _, says, more) => (if says.Exclude? then NamesIn(says.args) else []) + Excluded(more)
  }

  lemma {:induction false} NamesOfAppended(prefix: string, l: Line)
    ensures NamesIn(prefix + ExcludeList(l)) == NamesIn(prefix) + Excluded(l)
    decreases l
  {
    match l
    case Tail(_) => assert prefix + [] == prefix;
    case Bracketed(_, _, says, more) =>
      if says.Exclude? {
        assert prefix + ExcludeList(l) == prefix + [' '] + says.args + ExcludeList(more);
        NamesOfAppended(prefix + [' '] + says.args, more);
        NamesOfJoined(prefix, says.args);
      } else {
        assert ExcludeList(l) == ExcludeList(more);
        NamesOfAppended(prefix, more);
      }
  }

  /** Exclude conditions add up, whether their game types stand in one bracket or in several. */
  lemma ExclusionsAddUp(l: Line)
    ensures NamesIn(ExcludeList(l)) == Excluded(l)
  {
    NamesOfAppended([], l);
    NothingNamed([]);
    assert [] + ExcludeList(l) == ExcludeList(l);
  }

  /** The game types named by all the allow conditions. */
  function Allowed(l: Line): seq<GameType> {
    match l
    case Tail(_) => []
    case Bracketed(_, _, says, more) => (if says.Allow? then says.names else []) + Allowed(more)
  }

  lemma {:induction false} AllowancesAddUp(l: Line)
    ensures AllowMask(l) == ListMask(Allowed(l))
    decreases l
  {
    match l
    case Tail(_) =>
    case Bracketed(_, _, says, more) =>
      AllowancesAddUp(more);
      if says.Allow? {
        ListMaskAppend(says.names, Allowed(more));
      } else {
        assert Allowed(l) == Allowed(more);
      }
  }

  /** A line loads on a flavor exactly when some game type behind it is allowed by one of its allow
      conditions, if they name any, and some game type behind it is named by none of its exclude
      conditions. */
  lemma LineLoadsOn(l: Line, f: Flavor)
    ensures f in ApplyLoadGameType(FLAVOR_ALL, AllowMask(l), FullyListed(NamesIn(ExcludeList(l)))) <==>
            (Allowed(l) == [] || SomeCovered(Allowed(l), f)) && !AllCovered(Excluded(l), f)
  {
    hide NamesIn, ExcludeList, AllowMask;
    ExclusionsAddUp(l);
    AllowancesAddUp(l);
    LineFlavorsAreExact(Allowed(l), Excluded(l), f);
  }
}
