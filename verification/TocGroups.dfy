/** The TOC files of one addon: which of them loads on which flavor. */
module TocGroups {
  import opened Wrappers
  import opened Flavors

  /** The game types a TOC file name can end in. */
  predicate IsSuffix(g: GameType) {
    !g.Plunderstorm? && !g.Wowhack?
  }

  /** A group of TOCs, each by its suffix; `None` is the TOC without one. */
  ghost predicate IsGroup(group: seq<Option<GameType>>) {
    forall i :: 0 <= i < |group| && group[i].Some? ==> IsSuffix(group[i].value)
  }

  /** The suffixes of the group's other game types. */
  function Siblings(group: seq<Option<GameType>>, suffix: GameType): seq<GameType> {
    if group == [] then []
    else
      var last := group[|group| - 1];
      Siblings(group[..|group| - 1], suffix) +
      if last.Some? && !SameGameType(last.value, suffix) then [last.value] else []
  }

  function NotFamilies(names: seq<GameType>): seq<GameType> {
    if names == [] then []
    else
      NotFamilies(names[..|names| - 1]) +
      if !IsFamily(names[|names| - 1]) then [names[|names| - 1]] else []
  }

  function ClaimedBySuffixes(suffixes: seq<GameType>): set<Flavor> {
    FullyListed(NotFamilies(suffixes))
  }

  function SuffixUnion(group: seq<Option<GameType>>): set<Flavor> {
    if group == [] then {}
    else
      SuffixUnion(group[..|group| - 1]) +
      if group[|group| - 1].Some? then GameTypeMask(group[|group| - 1].value) else {}
  }

  /** The flavors a TOC of the group loads on. */
  function TocFlavor(group: seq<Option<GameType>>, toc: Option<GameType>): set<Flavor> {
    match toc
    case Some(suffix) => GameTypeMask(suffix) - ClaimedBySuffixes(Siblings(group, suffix))
    case None => FLAVOR_ALL - SuffixUnion(group)
  }

  /** The loop over a group. */
  method GroupFlavors(group: seq<Option<GameType>>) returns (flavors: seq<set<Flavor>>)
    ensures |flavors| == |group| && forall i :: 0 <= i < |group| ==> flavors[i] == TocFlavor(group, group[i])
  {
    hide Siblings, NotFamilies, FullyListed;
    var suffixUnion: set<Flavor> := {};
    var i := 0;
    while i < |group|
      invariant i <= |group| && suffixUnion == SuffixUnion(group[..i])
    {
      assert group[..i + 1][..i] == group[..i];
      if group[i].Some? {
        suffixUnion := suffixUnion + GameTypeMask(group[i].value);
      }
      i := i + 1;
    }
    assert group[..i] == group;
    flavors := [];
    i := 0;
    while i < |group|
      invariant i <= |group| && |flavors| == i
      invariant forall k :: 0 <= k < i ==> flavors[k] == TocFlavor(group, group[k])
    {
      match group[i] {
        case Some(suffix) =>
          var taken := FullyListedFlavors(NotFamilies(Siblings(group, suffix)));
          assert taken == ClaimedBySuffixes(Siblings(group, suffix));
          flavors := flavors + [GameTypeMask(suffix) - taken];
        case None => flavors := flavors + [FLAVOR_ALL - suffixUnion];
      }
      i := i + 1;
    }
  }

  // ---- who covers what

  lemma {:induction false} SiblingsContain(group: seq<Option<GameType>>, suffix: GameType, t: GameType)
    ensures t in Siblings(group, suffix) <==> Some(t) in group && !SameGameType(t, suffix)
    decreases |group|
  {
    if group != [] {
      var n := |group| - 1;
      SiblingsContain(group[..n], suffix, t);
      assert group == group[..n] + [group[n]];
    }
  }

  lemma {:induction false} NotFamiliesContain(names: seq<GameType>, t: GameType)
    ensures t in NotFamilies(names) <==> t in names && !IsFamily(t)
    decreases |names|
  {
    if names != [] {
      var n := |names| - 1;
      NotFamiliesContain(names[..n], t);
      assert names == names[..n] + [names[n]];
    }
  }

  lemma {:induction false} SuffixUnionContains(group: seq<Option<GameType>>, f: Flavor)
    ensures f in SuffixUnion(group) <==> exists t :: Some(t) in group && f in GameTypeMask(t)
    decreases |group|
  {
    if group != [] {
      var n := |group| - 1;
      SuffixUnionContains(group[..n], f);
      assert group == group[..n] + [group[n]];
    }
  }

  /** Some TOC of the group is for `leaf` alone. */
  ghost predicate HasOwnToc(group: seq<Option<GameType>>, leaf: GameType) {
    exists t :: Some(t) in group && !IsFamily(t) && Canonical(t) == leaf
  }

  lemma ClaimedMeans(group: seq<Option<GameType>>, suffix: GameType, f: Flavor)
    ensures f in ClaimedBySuffixes(Siblings(group, suffix)) <==>
            forall leaf :: IsLeaf(leaf) && FlavorOf(leaf) == f ==> HasOwnToc(group, leaf) && leaf != Canonical(suffix)
  {
    var names := NotFamilies(Siblings(group, suffix));
    FullyListedIsExact(names, f);
    forall leaf | IsLeaf(leaf)
      ensures CoveredBy(names, leaf) <==> HasOwnToc(group, leaf) && leaf != Canonical(suffix)
    {
      OwnSiblings(group, suffix, names, leaf);
    }
  }

  lemma NotFamilyCovers(t: GameType, leaf: GameType)
    requires !IsFamily(t) && IsLeaf(leaf)
    ensures Covers(t, leaf) <==> Canonical(t) == leaf
  {
  }

  lemma OwnSiblings(group: seq<Option<GameType>>, suffix: GameType, names: seq<GameType>, leaf: GameType)
    requires IsLeaf(leaf) && names == NotFamilies(Siblings(group, suffix))
    ensures CoveredBy(names, leaf) <==> HasOwnToc(group, leaf) && leaf != Canonical(suffix)
  {
    hide Siblings, NotFamilies, Covers, IsFamily, Canonical, IsLeaf;
    if CoveredBy(names, leaf) {
      var i :| 0 <= i < |names| && Covers(names[i], leaf);
      SiblingsContain(group, suffix, names[i]);
      NotFamiliesContain(Siblings(group, suffix), names[i]);
      NotFamilyCovers(names[i], leaf);
    }
    if HasOwnToc(group, leaf) && leaf != Canonical(suffix) {
      var t :| Some(t) in group && !IsFamily(t) && Canonical(t) == leaf;
      SiblingsContain(group, suffix, t);
      NotFamiliesContain(Siblings(group, suffix), t);
      NotFamilyCovers(t, leaf);
      var i :| 0 <= i < |names| && names[i] == t;
    }
  }

  /** A TOC for one game type keeps its flavor, whatever other TOCs there are: a second spelling of the
      same game type takes nothing from it. */
  lemma LeafTocKeepsItsFlavor(group: seq<Option<GameType>>, suffix: GameType)
    requires !IsFamily(suffix)
    ensures TocFlavor(group, Some(suffix)) == GameTypeMask(suffix)
  {
    forall f | f in GameTypeMask(suffix) ensures f !in ClaimedBySuffixes(Siblings(group, suffix)) {
      ClaimedMeans(group, suffix, f);
      var leaf := Canonical(suffix);
      assert IsLeaf(leaf) && FlavorOf(leaf) == f;
    }
  }

  /** A family TOC gives up exactly the flavors all of whose game types have a TOC of their own. */
  lemma FamilyTocGivesUp(group: seq<Option<GameType>>, suffix: GameType, f: Flavor)
    requires IsFamily(suffix) && f in GameTypeMask(suffix)
    ensures f !in TocFlavor(group, Some(suffix)) <==>
            forall leaf :: IsLeaf(leaf) && FlavorOf(leaf) == f ==> HasOwnToc(group, leaf)
  {
    ClaimedMeans(group, suffix, f);
  }

  ghost predicate LoadedBySome(group: seq<Option<GameType>>, f: Flavor) {
    exists t :: Some(t) in group && f in TocFlavor(group, Some(t))
  }

  /** Nothing is lost and nothing gained: the TOCs with a suffix load on exactly the flavors their
      suffixes stand for, and the one without takes exactly the others. */
  lemma FlavorsAreConserved(group: seq<Option<GameType>>, f: Flavor)
    ensures LoadedBySome(group, f) <==> f in SuffixUnion(group)
    ensures f in TocFlavor(group, None) <==> !LoadedBySome(group, f)
  {
    hide ClaimedBySuffixes, SuffixUnion;
    SuffixUnionContains(group, f);
    assert f in FLAVOR_ALL;
    if t :| Some(t) in group && f in GameTypeMask(t) && f !in TocFlavor(group, Some(t)) {
      ClaimedMeans(group, t, f);
      var leaf := SomeLeaf(f);
      assert HasOwnToc(group, leaf);
      var own :| Some(own) in group && !IsFamily(own) && Canonical(own) == leaf;
      LeafTocKeepsItsFlavor(group, own);
      assert f in TocFlavor(group, Some(own));
    }
  }

  function SomeLeaf(f: Flavor): (leaf: GameType)
    ensures IsLeaf(leaf) && FlavorOf(leaf) == f
  {
    match f
    case Retail => Standard
    case ForeverGame => Camelot
    case ClassicEra => Vanilla
    case ClassicProgression => Tbc
  }

  /** Two of the retail game types are no suffixes, so a `Mainline` TOC always keeps retail. */
  lemma MainlineKeepsRetail(group: seq<Option<GameType>>)
    requires IsGroup(group)
    ensures Retail in TocFlavor(group, Some(Mainline))
  {
    FamilyTocGivesUp(group, Mainline, Retail);
    forall t | Some(t) in group ensures Canonical(t) != Plunderstorm {
      var i :| 0 <= i < |group| && group[i] == Some(t);
    }
    assert IsLeaf(Plunderstorm) && FlavorOf(Plunderstorm) == Retail && !HasOwnToc(group, Plunderstorm);
  }
}
