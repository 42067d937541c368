/** Game types, the four flavors they collapse into, and the lists that allow or exclude them. */
module Flavors {
  import opened Wrappers
  import opened Texts

  /** One bit of a flavor mask. */
  datatype Flavor = Retail | ClassicProgression | ClassicEra | ForeverGame

  const FLAVOR_ALL: set<Flavor> := {Retail, ClassicProgression, ClassicEra, ForeverGame}

  datatype GameType =
    | Mainline | Classic
    | Standard | Plunderstorm | Wowhack | Camelot | Vanilla | Tbc | Wrath | Cata | Mists
    | Forever

  const LEAVES: seq<GameType> := [Standard, Plunderstorm, Wowhack, Camelot, Vanilla, Tbc, Wrath, Cata, Mists]

  predicate IsLeaf(g: GameType) {
    !g.Mainline? && !g.Classic? && !g.Forever?
  }

  /** The flavor a single game type plays as. */
  function FlavorOf(leaf: GameType): Flavor
    requires IsLeaf(leaf)
  {
    match leaf
    case Camelot => ForeverGame
    case Vanilla => ClassicEra
    case Tbc => ClassicProgression
    case Wrath => ClassicProgression
    case Cata => ClassicProgression
    case Mists => ClassicProgression
    case _ => Retail
  }

  /** `parse_game_type_name` on a recognised name. */
  function GameTypeMask(g: GameType): set<Flavor> {
    match g
    case Mainline => {Retail, ForeverGame}
    case Standard => {Retail}
    case Camelot => {ForeverGame}
    case Forever => {ForeverGame}
    case Classic => {ClassicProgression, ClassicEra}
    case Vanilla => {ClassicEra}
    case Cata => {ClassicProgression}
    case Wrath => {ClassicProgression}
    case Tbc => {ClassicProgression}
    case Mists => {ClassicProgression}
    case Plunderstorm => {Retail}
    case Wowhack => {Retail}
  }

  predicate IsFamily(g: GameType) {
    g.Mainline? || g.Classic?
  }

  function FamilyMembers(g: GameType): (r: Option<seq<GameType>>)
    ensures r.Some? <==> IsFamily(g)
  {
    match g
    case Mainline => Some([Standard, Plunderstorm, Wowhack, Camelot])
    case Classic => Some([Vanilla, Tbc, Wrath, Cata, Mists])
    case _ => None
  }

  function Canonical(g: GameType): GameType {
    if g.Forever? then Camelot else g
  }

  predicate SameGameType(a: GameType, b: GameType) {
    Canonical(a) == Canonical(b)
  }

  /** `parse_game_type_list`, over the recognised names of the list. */
  function ListMask(names: seq<GameType>): set<Flavor> {
    if names == [] then {} else ListMask(names[..|names| - 1]) + GameTypeMask(names[|names| - 1])
  }

  function Listed(names: seq<GameType>): seq<GameType> {
    if names == [] then []
    else Listed(names[..|names| - 1]) + Expansion(names[|names| - 1])
  }

  function Expansion(name: GameType): seq<GameType> {
    match FamilyMembers(Canonical(name)) case Some(members) => members case None => [Canonical(name)]
  }

  /** The flavors of the leaves, in order, that are not listed. */
  function Surviving(leaves: seq<GameType>, listed: seq<GameType>): set<Flavor>
    requires forall l :: l in leaves ==> IsLeaf(l)
  {
    if leaves == [] then {}
    else
      Surviving(leaves[..|leaves| - 1], listed) +
      if leaves[|leaves| - 1] in listed then {} else {FlavorOf(leaves[|leaves| - 1])}
  }

  function FullyListed(names: seq<GameType>): set<Flavor> {
    FLAVOR_ALL - Surviving(LEAVES, Listed(names))
  }

  method FullyListedFlavors(names: seq<GameType>) returns (mask: set<Flavor>)
    ensures mask == FullyListed(names)
  {
    var listed: seq<GameType> := [];
    var i := 0;
    while i < |names|
      invariant i <= |names| && listed == Listed(names[..i])
    {
      assert names[..i + 1][..i] == names[..i];
      var name := Canonical(names[i]);
      match FamilyMembers(name) {
        case Some(members) => listed := listed + members;
        case None => listed := listed + [name];
      }
      i := i + 1;
    }
    assert names[..i] == names;
    mask := FLAVOR_ALL - Surviving(LEAVES, listed);
  }

  method ParseGameTypeList(names: seq<GameType>) returns (mask: set<Flavor>)
    ensures mask == ListMask(names)
  {
    mask := {};
    var i := 0;
    while i < |names|
      invariant i <= |names| && mask == ListMask(names[..i])
    {
      assert names[..i + 1][..i] == names[..i];
      mask := mask + GameTypeMask(names[i]);
      i := i + 1;
    }
    assert names[..i] == names;
  }

  // ---- what the names stand for

  /** `leaf` is the named type, a member of the named family, or what `forever` is an alias of. */
  predicate Covers(name: GameType, leaf: GameType)
    requires IsLeaf(leaf)
  {
    name == leaf || (name.Forever? && leaf.Camelot?) ||
    (name.Mainline? && FlavorOf(leaf) in {Retail, ForeverGame}) ||
    (name.Classic? && FlavorOf(leaf) in {ClassicProgression, ClassicEra})
  }

  predicate CoveredBy(names: seq<GameType>, leaf: GameType)
    requires IsLeaf(leaf)
  {
    exists i :: 0 <= i < |names| && Covers(names[i], leaf)
  }

  ghost predicate SomeCovered(names: seq<GameType>, f: Flavor) {
    exists leaf :: IsLeaf(leaf) && FlavorOf(leaf) == f && CoveredBy(names, leaf)
  }

  ghost predicate AllCovered(names: seq<GameType>, f: Flavor) {
    forall leaf :: IsLeaf(leaf) && FlavorOf(leaf) == f ==> CoveredBy(names, leaf)
  }

  lemma CoveredByLast(names: seq<GameType>, before: seq<GameType>, last: GameType, leaf: GameType)
    requires IsLeaf(leaf) && names == before + [last]
    ensures CoveredBy(names, leaf) <==> CoveredBy(before, leaf) || Covers(last, leaf)
  {
    if CoveredBy(before, leaf) {
      var i :| 0 <= i < |before| && Covers(before[i], leaf);
      assert Covers(names[i], leaf);
    }
    assert Covers(last, leaf) ==> Covers(names[|before|], leaf);
  }

  lemma {:induction false} ListedIsCovered(names: seq<GameType>, leaf: GameType)
    requires IsLeaf(leaf)
    ensures leaf in Listed(names) <==> CoveredBy(names, leaf)
    decreases |names|
  {
    if names != [] {
      var n := |names| - 1;
      ListedIsCovered(names[..n], leaf);
      LastListed(names[n], leaf);
      CoveredByLast(names, names[..n], names[n], leaf);
      assert Listed(names) == Listed(names[..n]) + Expansion(names[n]);
    }
  }

  lemma LastListed(name: GameType, leaf: GameType)
    requires IsLeaf(leaf)
    ensures Covers(name, leaf) <==> leaf in Expansion(name)
  {
  }

  lemma {:induction false} SurvivingLeaves(leaves: seq<GameType>, listed: seq<GameType>, f: Flavor)
    requires forall l :: l in leaves ==> IsLeaf(l)
    ensures f in Surviving(leaves, listed) <==> exists l :: l in leaves && l !in listed && FlavorOf(l) == f
    decreases |leaves|
  {
    if leaves != [] {
      var n := |leaves| - 1;
      SurvivingLeaves(leaves[..n], listed, f);
      assert leaves == leaves[..n] + [leaves[n]];
    }
  }

  lemma LeavesAreAll(leaf: GameType)
    requires IsLeaf(leaf)
    ensures leaf in LEAVES
  {
    assert LEAVES[0].Standard? && LEAVES[1].Plunderstorm? && LEAVES[2].Wowhack? && LEAVES[3].Camelot? &&
           LEAVES[4].Vanilla? && LEAVES[5].Tbc? && LEAVES[6].Wrath? && LEAVES[7].Cata? && LEAVES[8].Mists?;
  }

  /** A flavor is removed by an exclusion list exactly when every game type behind it is listed, itself,
      by its family or by alias. */
  lemma FullyListedIsExact(names: seq<GameType>, f: Flavor)
    ensures f in FullyListed(names) <==> AllCovered(names, f)
  {
    SurvivingLeaves(LEAVES, Listed(names), f);
    forall leaf | IsLeaf(leaf) ensures leaf in LEAVES && (leaf in Listed(names) <==> CoveredBy(names, leaf)) {
      LeavesAreAll(leaf);
      ListedIsCovered(names, leaf);
    }
    assert f in FLAVOR_ALL;
  }

  lemma NameMask(name: GameType, f: Flavor)
    ensures f in GameTypeMask(name) <==> exists leaf :: IsLeaf(leaf) && FlavorOf(leaf) == f && Covers(name, leaf)
  {
    var leaf := match f
      case Retail => if name.Plunderstorm? || name.Wowhack? then name else Standard
      case ForeverGame => Camelot
      case ClassicEra => Vanilla
      case ClassicProgression => if name.Wrath? || name.Cata? || name.Mists? then name else Tbc;
    assert f in GameTypeMask(name) ==> FlavorOf(leaf) == f && Covers(name, leaf);
  }

  /** A flavor is on an allow list exactly when some game type behind it is. */
  lemma {:induction false} ListMaskIsExact(names: seq<GameType>, f: Flavor)
    ensures f in ListMask(names) <==> SomeCovered(names, f)
    decreases |names|
  {
    if names != [] {
      var n := |names| - 1;
      ListMaskIsExact(names[..n], f);
      NameMask(names[n], f);
      if leaf :| IsLeaf(leaf) && FlavorOf(leaf) == f && CoveredBy(names[..n], leaf) {
        var i :| 0 <= i < n && Covers(names[..n][i], leaf);
        assert Covers(names[i], leaf);
      }
      if leaf :| IsLeaf(leaf) && FlavorOf(leaf) == f && CoveredBy(names, leaf) {
        var i :| 0 <= i < |names| && Covers(names[i], leaf);
        assert i < n ==> Covers(names[..n][i], leaf);
      }
    }
  }

  // ---- both lists

  function ApplyLoadGameType(base: set<Flavor>, allow: set<Flavor>, exclude: set<Flavor>): set<Flavor> {
    (if allow != {} then base * allow else base) - exclude
  }

  /** The game type is let through by the two lists. An allow list that names nothing allows everything. */
  predicate Loads(allow: seq<GameType>, exclude: seq<GameType>, leaf: GameType)
    requires IsLeaf(leaf)
  {
    (allow == [] || CoveredBy(allow, leaf)) && !CoveredBy(exclude, leaf)
  }

  ghost predicate SomeLoads(allow: seq<GameType>, exclude: seq<GameType>, f: Flavor) {
    exists leaf :: IsLeaf(leaf) && FlavorOf(leaf) == f && Loads(allow, exclude, leaf)
  }

  function LineFlavors(allow: seq<GameType>, exclude: seq<GameType>): set<Flavor> {
    ApplyLoadGameType(FLAVOR_ALL, ListMask(allow), FullyListed(exclude))
  }

  lemma {:induction false} NamesHaveMasks(names: seq<GameType>)
    requires names != []
    ensures ListMask(names) != {}
  {
    assert GameTypeMask(names[|names| - 1]) != {};
    var f :| f in GameTypeMask(names[|names| - 1]);
    assert f in ListMask(names);
  }

  /** The flavors of a line: those with an allowed game type behind them and one that is not excluded,
      though it need not be the same. */
  lemma LineFlavorsAreExact(allow: seq<GameType>, exclude: seq<GameType>, f: Flavor)
    ensures f in LineFlavors(allow, exclude) <==> (allow == [] || SomeCovered(allow, f)) && !AllCovered(exclude, f)
  {
    FullyListedIsExact(exclude, f);
    ListMaskIsExact(allow, f);
    if allow != [] {
      NamesHaveMasks(allow);
    }
    assert f in FLAVOR_ALL;
  }

  /** So no flavor is lost that some game type loads on, and with only one of the lists none is kept
      that no game type loads on. */
  lemma LineFlavorsCoverLoads(allow: seq<GameType>, exclude: seq<GameType>, f: Flavor)
    ensures SomeLoads(allow, exclude, f) ==> f in LineFlavors(allow, exclude)
    ensures allow == [] || exclude == [] ==> (f in LineFlavors(allow, exclude) <==> SomeLoads(allow, exclude, f))
  {
    LineFlavorsAreExact(allow, exclude, f);
    if exclude == [] && allow == [] {
      NameMask(Standard, f);
      var leaf := match f case Retail => Standard case ForeverGame => Camelot case ClassicEra => Vanilla case _ => Tbc;
      assert FlavorOf(leaf) == f && Loads(allow, exclude, leaf);
    } else if exclude == [] && f in LineFlavors(allow, exclude) {
      var leaf :| IsLeaf(leaf) && FlavorOf(leaf) == f && CoveredBy(allow, leaf);
      assert Loads(allow, exclude, leaf);
    } else if allow == [] && f in LineFlavors(allow, exclude) {
      var leaf :| IsLeaf(leaf) && FlavorOf(leaf) == f && !CoveredBy(exclude, leaf);
      assert Loads(allow, exclude, leaf);
    }
  }

  /** Every game type of the flavor that is allowed is also excluded. */
  ghost predicate AllowedAreExcluded(allow: seq<GameType>, exclude: seq<GameType>, f: Flavor) {
    forall leaf :: IsLeaf(leaf) && FlavorOf(leaf) == f && CoveredBy(allow, leaf) ==> CoveredBy(exclude, leaf)
  }

  /** With both lists a flavor is kept for nothing exactly if one game type of it is allowed and another
      not excluded, but all that are allowed are excluded. */
  lemma KeptInVainIff(allow: seq<GameType>, exclude: seq<GameType>, f: Flavor)
    ensures !(f in LineFlavors(allow, exclude) <==> SomeLoads(allow, exclude, f)) <==>
            allow != [] && SomeCovered(allow, f) && !AllCovered(exclude, f) && AllowedAreExcluded(allow, exclude, f)
  {
    LineFlavorsAreExact(allow, exclude, f);
    LineFlavorsCoverLoads(allow, exclude, f);
    if leaf :| IsLeaf(leaf) && FlavorOf(leaf) == f && CoveredBy(allow, leaf) && !CoveredBy(exclude, leaf) {
      assert Loads(allow, exclude, leaf);
    }
  }

  /** Such lists: one game type of a flavor with several allowed, the same excluded. */
  lemma BothListsKeepTooMuch(names: seq<GameType>)
    requires |names| == 1 && names[0] == Tbc
    ensures ClassicProgression in LineFlavors(names, names) && !SomeLoads(names, names, ClassicProgression)
  {
    assert Covers(names[0], Tbc) && CoveredBy(names, Tbc) && FlavorOf(Tbc) == ClassicProgression;
    assert !CoveredBy(names, Wrath) && FlavorOf(Wrath) == ClassicProgression;
    KeptInVainIff(names, names, ClassicProgression);
    LineFlavorsCoverLoads(names, names, ClassicProgression);
  }

  // ---- names as they are written

  predicate IsListSeparator(c: char) {
    c == ',' || c == ' ' || c == '\t'
  }

  const GAME_TYPE_NAMES: map<string, GameType> := map[
    "mainline" := Mainline, "standard" := Standard, "camelot" := Camelot, "forever" := Forever,
    "classic" := Classic, "vanilla" := Vanilla, "cata" := Cata, "wrath" := Wrath, "tbc" := Tbc, "mists" := Mists,
    "plunderstorm" := Plunderstorm, "wowhack" := Wowhack]

  function GameTypeNamed(name: string): Option<GameType> {
    var n := LowerCase(name);
    if n in GAME_TYPE_NAMES then Some(GAME_TYPE_NAMES[n]) else None
  }

  function ReadName(field: string): seq<GameType> {
    match GameTypeNamed(Trim(field)) case Some(g) => [g] case None => []
  }

  /** The recognised names of a list. */
  function NamesIn(list: string): seq<GameType> {
    ReadFields(IsListSeparator, ReadName, [], list)
  }

  /** Lists joined by a space name what they name together. */
  lemma NamesOfJoined(a: string, b: string)
    ensures NamesIn(a + [' '] + b) == NamesIn(a) + NamesIn(b)
  {
    ReadFieldsOfJoined(IsListSeparator, ReadName, [], a, ' ', b);
  }

  lemma NothingNamed(nothing: string)
    requires nothing == []
    ensures NamesIn(nothing) == []
  {
    assert Trim(nothing) == nothing;
    assert |LowerCase(nothing)| == 0;
    forall name | name in GAME_TYPE_NAMES ensures |name| > 0 {
    }
  }

  lemma {:induction false} ListMaskAppend(a: seq<GameType>, b: seq<GameType>)
    ensures ListMask(a + b) == ListMask(a) + ListMask(b)
    decreases |b|
  {
    if b == [] {
      assert a + b == a;
    } else {
      assert (a + b)[..|a + b| - 1] == a + b[..|b| - 1];
      ListMaskAppend(a, b[..|b| - 1]);
    }
  }
}
