/** Collapsing `.` and `..` without looking at the file system. */
module Paths {
  datatype Component = RootDir | CurDir | ParentDir | Normal(name: string)

  /** One component against the components kept so far. */
  function Push(out: seq<Component>, c: Component): seq<Component> {
    match c
    case CurDir => out
    case ParentDir =>
      if out != [] && out[|out| - 1].Normal? then out[..|out| - 1]
      else if out != [] && out[|out| - 1].RootDir? then out
      else out + [c]
    case _ => out + [c]
  }

  function Normalize(path: seq<Component>): (r: seq<Component>)
    ensures |r| <= |path|
  {
    if path == [] then [] else Push(Normalize(path[..|path| - 1]), path[|path| - 1])
  }

  method NormalizeLexically(path: seq<Component>) returns (out: seq<Component>)
    ensures out == Normalize(path)
  {
    out := [];
    var i := 0;
    while i < |path|
      invariant i <= |path| && out == Normalize(path[..i])
    {
      assert path[..i + 1][..i] == path[..i];
      match path[i] {
        case CurDir =>
        case ParentDir =>
          if out != [] && out[|out| - 1].Normal? {
            out := out[..|out| - 1];
          } else if !(out != [] && out[|out| - 1].RootDir?) {
            out := out + [path[i]];
          }
        case _ => out := out + [path[i]];
      }
      i := i + 1;
    }
    assert path[..i] == path;
  }

  // ---- what a path means: a walk through directories, each given by the names that lead to it

  function Step(at: seq<string>, c: Component): seq<string> {
    match c
    case RootDir => []
    case CurDir => at
    case ParentDir => if at == [] then [] else at[..|at| - 1]
    case Normal(name) => at + [name]
  }

  function Walk(at: seq<string>, path: seq<Component>): seq<string> {
    if path == [] then at else Step(Walk(at, path[..|path| - 1]), path[|path| - 1])
  }

  lemma PushKeepsWalk(at: seq<string>, out: seq<Component>, c: Component)
    ensures Walk(at, Push(out, c)) == Step(Walk(at, out), c)
  {
    if Push(out, c) == out + [c] {
      assert (out + [c])[..|out|] == out;
    }
  }

  /** From wherever it starts, the normalised path leads where the path leads. */
  lemma {:induction false} NormalizeKeepsWalk(at: seq<string>, path: seq<Component>)
    ensures Walk(at, Normalize(path)) == Walk(at, path)
    decreases |path|
  {
    if path != [] {
      NormalizeKeepsWalk(at, path[..|path| - 1]);
      PushKeepsWalk(at, Normalize(path[..|path| - 1]), path[|path| - 1]);
    }
  }

  // ---- the normal form

  /** An absolute path down, or so many steps up and a path down. */
  datatype Form = Form(root: bool, ups: nat, names: seq<string>)

  function Names(names: seq<string>): (r: seq<Component>)
    ensures |r| == |names| && forall i :: 0 <= i < |names| ==> r[i] == Normal(names[i])
  {
    seq(|names|, i requires 0 <= i < |names| => Normal(names[i]))
  }

  function Render(f: Form): seq<Component> {
    (if f.root then [RootDir] else []) + seq(f.ups, _ => ParentDir) + Names(f.names)
  }

  ghost predicate IsForm(f: Form) {
    f.root ==> f.ups == 0
  }

  function PushForm(f: Form, c: Component): Form {
    match c
    case RootDir => Form(true, 0, [])
    case CurDir => f
    case ParentDir =>
      if f.names != [] then f.(names := f.names[..|f.names| - 1])
      else if f.root then f
      else f.(ups := f.ups + 1)
    case Normal(name) => f.(names := f.names + [name])
  }

  /** The form of a path, component by component. */
  function FormOf(path: seq<Component>): (f: Form)
    ensures IsForm(f)
  {
    if path == [] then Form(false, 0, []) else PushForm(FormOf(path[..|path| - 1]), path[|path| - 1])
  }

  /** Only the first component of a path can be the root. */
  ghost predicate IsPath(path: seq<Component>) {
    forall i :: 0 < i < |path| ==> !path[i].RootDir?
  }

  lemma RenderName(f: Form, name: string)
    ensures Render(f.(names := f.names + [name])) == Render(f) + [Normal(name)]
  {
    assert Names(f.names + [name]) == Names(f.names) + [Normal(name)];
  }

  lemma RenderUp(ups: nat)
    ensures Render(Form(false, ups + 1, [])) == Render(Form(false, ups, [])) + [ParentDir]
  {
    assert seq(ups + 1, _ => ParentDir) == seq(ups, _ => ParentDir) + [ParentDir];
  }

  lemma RenderRoot()
    ensures Render(Form(true, 0, [])) == [RootDir] && Render(Form(false, 0, [])) == []
  {
  }

  lemma WithoutLastName(f: Form)
    requires f.names != []
    ensures var n := |f.names| - 1; Render(f) == Render(f.(names := f.names[..n])) + [Normal(f.names[n])]
  {
    hide Render;
    var n := |f.names| - 1;
    assert f.names[..n] + [f.names[n]] == f.names;
    RenderName(f.(names := f.names[..n]), f.names[n]);
  }

  lemma PushRenders(f: Form, c: Component)
    requires IsForm(f) && (c.RootDir? ==> f == Form(false, 0, []))
    ensures Push(Render(f), c) == Render(PushForm(f, c))
  {
    hide Render;
    RenderRoot();
    match c {
      case ParentDir =>
        if f.names != [] {
          WithoutLastName(f);
        } else if !f.root {
          RenderUp(f.ups);
          if f.ups > 0 {
            RenderUp(f.ups - 1);
          }
        }
      case Normal(name) => RenderName(f, name);
      case _ =>
    }
  }

  /** No `.`, `..` only in front of a relative path, the root only in front. */
  lemma {:induction false} NormalizeIsForm(path: seq<Component>)
    requires IsPath(path)
    ensures Normalize(path) == Render(FormOf(path))
    decreases |path|
  {
    if path != [] {
      NormalizeIsForm(path[..|path| - 1]);
      PushRenders(FormOf(path[..|path| - 1]), path[|path| - 1]);
    }
  }

  lemma {:induction false} FormOfRender(f: Form)
    requires IsForm(f)
    ensures IsPath(Render(f)) && FormOf(Render(f)) == f
    decreases f.ups + |f.names|
  {
    hide Render;
    var path := Render(f);
    if f.names != [] {
      var n := |f.names| - 1;
      WithoutLastName(f);
      FormOfRender(f.(names := f.names[..n]));
      assert path[..|path| - 1] == Render(f.(names := f.names[..n]));
    } else if f.ups > 0 {
      RenderUp(f.ups - 1);
      FormOfRender(f.(ups := f.ups - 1));
      assert path[..|path| - 1] == Render(f.(ups := f.ups - 1));
    } else {
      RenderRoot();
      assert f.root ==> path[..0] == [];
    }
  }

  /** Normalising a normalised path changes nothing. */
  lemma NormalizeIsIdempotent(path: seq<Component>)
    requires IsPath(path)
    ensures Normalize(Normalize(path)) == Normalize(path)
  {
    NormalizeIsForm(path);
    FormOfRender(FormOf(path));
    NormalizeIsForm(Render(FormOf(path)));
  }

  /** Where a path in normal form leads. */
  function Destination(at: seq<string>, f: Form): seq<string> {
    (if f.root || f.ups > |at| then [] else at[..|at| - f.ups]) + f.names
  }

  lemma StepOfForm(at: seq<string>, f: Form, c: Component)
    requires IsForm(f)
    ensures Step(Destination(at, f), c) == Destination(at, PushForm(f, c))
  {
    var there := Destination(at, f);
    match c {
      case ParentDir =>
        if f.names != [] {
          assert there[..|there| - 1] == Destination(at, PushForm(f, c));
        } else if !f.root && f.ups < |at| {
          assert there == at[..|at| - f.ups];
        }
      case Normal(name) =>
      case _ =>
    }
  }

  /** A path leads where its form says. */
  lemma {:induction false} WalkOfForm(at: seq<string>, path: seq<Component>)
    ensures Walk(at, path) == Destination(at, FormOf(path))
    decreases |path|
  {
    if path != [] {
      WalkOfForm(at, path[..|path| - 1]);
      StepOfForm(at, FormOf(path[..|path| - 1]), path[|path| - 1]);
    }
  }

  ghost predicate SameWalk(p: seq<Component>, q: seq<Component>) {
    forall at :: Walk(at, p) == Walk(at, q)
  }

  lemma DestinationsDecide(f: Form, g: Form)
    requires IsForm(f) && IsForm(g) && forall at :: Destination(at, f) == Destination(at, g)
    ensures f == g
  {
    assert Destination([], f) == f.names && Destination([], g) == g.names;
    var deep := seq(f.ups + g.ups + 1, _ => "");
    assert Destination(deep, f) == Destination(deep, g);
  }

  /** Two paths lead to the same place from everywhere exactly if they normalise to the same path. */
  lemma NormalizeIsCanonical(p: seq<Component>, q: seq<Component>)
    requires IsPath(p) && IsPath(q)
    ensures SameWalk(p, q) <==> Normalize(p) == Normalize(q)
  {
    NormalizeIsForm(p);
    NormalizeIsForm(q);
    forall at
      ensures Walk(at, p) == Destination(at, FormOf(p)) && Walk(at, q) == Destination(at, FormOf(q))
      ensures Walk(at, p) == Walk(at, Normalize(p)) && Walk(at, q) == Walk(at, Normalize(q))
    {
      WalkOfForm(at, p);
      WalkOfForm(at, q);
      NormalizeKeepsWalk(at, p);
      NormalizeKeepsWalk(at, q);
    }
    if SameWalk(p, q) {
      DestinationsDecide(FormOf(p), FormOf(q));
    }
  }
}
