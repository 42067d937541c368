/** A file's own layer over a name map that all files share. */
module LayeredMaps {
  import opened Wrappers

  datatype Write<V> = Insert(name: string, value: V) | Remove(name: string)

  /** What a write does to the file's layer. `None` hides an entry of the shared map. */
  function LayerAfter<V>(ext: map<string, V>, local: map<string, Option<V>>, w: Write<V>): map<string, Option<V>> {
    match w
    case Insert(name, value) => local[name := Some(value)]
    case Remove(name) => if name in ext then local[name := None] else local - {name}
  }

  function LayerAfterAll<V>(ext: map<string, V>, ws: seq<Write<V>>): map<string, Option<V>> {
    if ws == [] then map[] else LayerAfter(ext, LayerAfterAll(ext, ws[..|ws| - 1]), ws[|ws| - 1])
  }

  /** The map a file sees. */
  function Visible<V>(ext: map<string, V>, local: map<string, Option<V>>): map<string, V> {
    map name | name in ext.Keys + local.Keys && (name in local ==> local[name].Some?)
      :: if name in local then local[name].value else ext[name]
  }

  /** The same writes to a private copy of the shared map. */
  function CopyAfter<V>(copy: map<string, V>, w: Write<V>): map<string, V> {
    match w
    case Insert(name, value) => copy[name := value]
    case Remove(name) => copy - {name}
  }

  function CopyAfterAll<V>(ext: map<string, V>, ws: seq<Write<V>>): map<string, V> {
    if ws == [] then ext else CopyAfter(CopyAfterAll(ext, ws[..|ws| - 1]), ws[|ws| - 1])
  }

  /** Only entries of the shared map are hidden. */
  ghost predicate HidesShared<V>(ext: map<string, V>, local: map<string, Option<V>>) {
    forall name :: name in local && local[name].None? ==> name in ext
  }

  lemma WriteShows<V>(ext: map<string, V>, local: map<string, Option<V>>, w: Write<V>)
    requires HidesShared(ext, local)
    ensures Visible(ext, LayerAfter(ext, local, w)) == CopyAfter(Visible(ext, local), w)
    ensures HidesShared(ext, LayerAfter(ext, local, w))
  {
  }

  /** Whatever is written, a file sees what it would see in its own copy of the shared map. */
  lemma {:induction false} LayerIsCopy<V>(ext: map<string, V>, ws: seq<Write<V>>)
    ensures Visible(ext, LayerAfterAll(ext, ws)) == CopyAfterAll(ext, ws)
    ensures HidesShared(ext, LayerAfterAll(ext, ws))
    decreases |ws|
  {
    if ws != [] {
      LayerIsCopy(ext, ws[..|ws| - 1]);
      WriteShows(ext, LayerAfterAll(ext, ws[..|ws| - 1]), ws[|ws| - 1]);
    }
  }

  /** The entries of a list, as a map. */
  function AsMap<V>(entries: seq<(string, V)>): map<string, V> {
    if entries == [] then map[]
    else AsMap(entries[..|entries| - 1])[entries[|entries| - 1].0 := entries[|entries| - 1].1]
  }

  function Restrict<V>(m: map<string, V>, names: set<string>): map<string, V> {
    map name | name in names && name in m :: m[name]
  }

  /** `entries` lists what `m` has under `names`, once each. */
  ghost predicate Lists<V>(m: map<string, V>, entries: seq<(string, V)>, names: set<string>) {
    AsMap(entries) == Restrict(m, names) && |AsMap(entries)| == |entries|
  }

  lemma ListsNext<V>(m: map<string, V>, entries: seq<(string, V)>, names: set<string>, name: string)
    requires Lists(m, entries, names) && name !in names
    ensures Lists(m, if name in m then entries + [(name, m[name])] else entries, names + {name})
  {
    if name in m {
      var r := entries + [(name, m[name])];
      assert r[..|r| - 1] == entries;
      assert Restrict(m, names + {name}) == Restrict(m, names)[name := m[name]];
      assert name !in AsMap(entries);
    } else {
      assert Restrict(m, names + {name}) == Restrict(m, names);
    }
  }

  /** Iteration over a map, in whatever order it holds its entries. */
  method Append<V>(entries: seq<(string, V)>, source: map<string, V>, ghost m: map<string, V>, ghost names: set<string>)
    returns (r: seq<(string, V)>)
    requires Lists(m, entries, names) && names !! source.Keys
    requires forall name :: name in source ==> name in m && m[name] == source[name]
    ensures Lists(m, r, names + source.Keys)
  {
    r := entries;
    var rest := source.Keys;
    ghost var done := names;
    while rest != {}
      invariant done + rest == names + source.Keys && done !! rest && rest <= source.Keys
      invariant Lists(m, r, done)
      decreases rest
    {
      var name :| name in rest;
      ListsNext(m, r, done, name);
      r := r + [(name, source[name])];
      rest := rest - {name};
      done := done + {name};
    }
  }

  lemma ListsAll<V>(m: map<string, V>, entries: seq<(string, V)>, names: set<string>)
    requires Lists(m, entries, names) && m.Keys <= names
    ensures AsMap(entries) == m && |entries| == |m|
  {
    assert Restrict(m, names) == m;
  }

  function OwnEntries<V>(local: map<string, Option<V>>): map<string, V> {
    map name | name in local && local[name].Some? :: local[name].value
  }

  function SharedEntries<V>(ext: map<string, V>, local: map<string, Option<V>>): map<string, V> {
    map name | name in ext && name !in local :: ext[name]
  }

  lemma PartsShow<V>(ext: map<string, V>, local: map<string, Option<V>>)
    ensures Visible(ext, local) == OwnEntries(local) + SharedEntries(ext, local)
    ensures OwnEntries(local).Keys !! SharedEntries(ext, local).Keys
    ensures Lists<V>(Visible(ext, local), [], {})
  {
  }

  class LayeredMap<V(==)> {
    const ext: map<string, V>
    var local: map<string, Option<V>>

    ghost predicate Valid()
      reads this
    {
      HidesShared(ext, local)
    }

    ghost function View(): map<string, V>
      reads this
    {
      Visible(ext, local)
    }

    constructor (ext: map<string, V>)
      ensures Valid() && this.ext == ext && local == map[] && View() == ext
    {
      this.ext := ext;
      local := map[];
    }

    method Get(name: string) returns (r: Option<V>)
      ensures r == if name in View() then Some(View()[name]) else None
    {
      if name in local {
        return local[name];
      }
      return if name in ext then Some(ext[name]) else None;
    }

    method Insert(name: string, value: V)
      requires Valid()
      modifies this
      ensures Valid() && local == LayerAfter(ext, old(local), Write.Insert(name, value))
      ensures View() == old(View())[name := value]
    {
      WriteShows(ext, local, Write.Insert(name, value));
      local := local[name := Some(value)];
    }

    method Remove(name: string)
      requires Valid()
      modifies this
      ensures Valid() && local == LayerAfter(ext, old(local), Write.Remove(name))
      ensures View() == old(View()) - {name}
    {
      WriteShows(ext, local, Write.Remove(name));
      if name in ext {
        local := local[name := None];
      } else {
        local := local - {name};
      }
    }

    /** Every visible entry once: the file's own, then the shared ones it does not shadow. */
    method Iter() returns (entries: seq<(string, V)>)
      ensures AsMap(entries) == View() && |entries| == |View()|
    {
      PartsShow(ext, local);
      entries := Append([], OwnEntries(local), View(), {});
      entries := Append(entries, SharedEntries(ext, local), View(), {} + OwnEntries(local).Keys);
      ListsAll(View(), entries, {} + OwnEntries(local).Keys + SharedEntries(ext, local).Keys);
    }

    /** Whether nothing is visible: the first entry, if any, decides. */
    method IsEmpty() returns (empty: bool)
      ensures empty <==> View() == map[]
    {
      var entries := Iter();
      empty := entries == [];
      if empty {
        assert |View()| == 0;
      }
    }
  }
}
