/** The table-of-contents flattening of `ToC` (fitz.go:254-285). */
module Toc {
  import opened Errors

  /** The native outline `fz_outline`: a first-child (`down`) / next-sibling (`next`)
      tree, with `Nil` for the null pointer. `y` is the float vertical offset, carried
      unchanged and never computed on. */
  datatype Tree =
    | Nil
    | Node(title: string, uri: string, page: int, y: real, down: Tree, next: Tree)

  /** One flattened entry (the package's `Outline` record) */
  datatype Outline = Outline(level: int, title: string, uri: string, page: int, top: real)

  /** Number of nodes reachable through `down` and `next` */
  function Size(t: Tree): (n: nat)
    ensures t.Node? ==> n >= 1
  {
    match t
    case Nil => 0
    case Node(_, _, _, _, down, next) => 1 + Size(down) + Size(next)
  }

  /** The entry a node contributes at a given level */
  function Entry(t: Tree, level: int): Outline
    requires t.Node?
  {
    Outline(level, t.title, t.uri, t.page, t.y)
  }

  /** The level discipline of a flattened outline that starts at `level`: the first
      entry is at `level`, none is above it, and each entry is at most one deeper than
      the one before. */
  predicate Leveled(es: seq<Outline>, level: int) {
    && (|es| > 0 ==> es[0].level == level)
    && (forall i :: 0 <= i < |es| ==> es[i].level >= level)
    && (forall i :: 0 < i < |es| ==> es[i].level <= es[i - 1].level + 1)
  }

  lemma LeveledCons(e: Outline, d: seq<Outline>, n: seq<Outline>, level: int)
    requires e.level == level
    requires Leveled(d, level + 1)
    requires Leveled(n, level)
    ensures Leveled([e] + d + n, level)
  {
  }

  /** The walk of the `walk` closure: emit the node, descend into `down` one level
      deeper, then continue with `next` at the same level. One entry per node. */
  function Walk(t: Tree, level: int): (data: seq<Outline>)
    ensures |data| == Size(t)
  {
    match t
    case Nil => []
    case Node(_, _, _, _, down, next) =>
      [Entry(t, level)] + Walk(down, level + 1) + Walk(next, level)
  }

  /** The walk keeps the level discipline */
  lemma {:induction false} WalkLeveled(t: Tree, level: int)
    ensures Leveled(Walk(t, level), level)
  {
    match t
    case Nil =>
    case Node(_, _, _, _, down, next) =>
      WalkLeveled(down, level + 1);
      WalkLeveled(next, level);
      LeveledCons(Entry(t, level), Walk(down, level + 1), Walk(next, level), level);
  }

  lemma AppendSteps(a: seq<Outline>, b: seq<Outline>, c: seq<Outline>, d: seq<Outline>)
    ensures (a + b + c) + d == a + (b + c + d)
  {
  }

  /** The closure as written: a loop over the sibling chain that appends one entry per
      node to the shared `data` and recurses into a non-nil `down`. */
  method WalkInto(t: Tree, level: int, data: seq<Outline>) returns (out: seq<Outline>)
    ensures out == data + Walk(t, level)
    decreases Size(t)
  {
    out := data;
    var outline := t;
    while outline != Nil
      invariant Size(outline) <= Size(t)
      invariant out + Walk(outline, level) == data + Walk(t, level)
      decreases Size(outline)
    {
      ghost var before := out;
      var e := Entry(outline, level);
      out := out + [e];
      if outline.down != Nil {
        out := WalkInto(outline.down, level + 1, out);
      }
      assert out == before + [e] + Walk(outline.down, level + 1);
      AppendSteps(before, [e], Walk(outline.down, level + 1), Walk(outline.next, level));
      outline := outline.next;
    }
  }

  /** `ToC` given the root the native outline loader returned */
  method ToC(root: Tree) returns (r: Returned<Option<seq<Outline>>>)
    ensures r.err == Some(LoadOutline) <==> root == Nil
    ensures r.err.Some? <==> r.value.None?
    ensures r.value.Some? ==> |r.value.value| == Size(root) >= 1
    ensures r.value.Some? ==> Leveled(r.value.value, 1)
    ensures r.value.Some? ==> r.value.value == Walk(root, 1)
    ensures root != Nil ==> r == Returned(Some(Walk(root, 1)), None)
  {
    if root == Nil {
      return Returned(None, Some(LoadOutline));
    }
    var data := WalkInto(root, 1, []);
    WalkLeveled(root, 1);
    return Returned(Some(data), None);
  }

  // An independent reading of the walk: the tree seen as an ordered forest of
  // headings, each with its list of children, flattened in depth-first pre-order.

  datatype Heading = Heading(title: string, uri: string, page: int, y: real, children: seq<Heading>)

  /** The forest a first-child/next-sibling tree encodes */
  function Forest(t: Tree): seq<Heading> {
    match t
    case Nil => []
    case Node(title, uri, page, y, down, next) =>
      [Heading(title, uri, page, y, Forest(down))] + Forest(next)
  }

  /** Depth-first pre-order of a forest whose roots are at `level` */
  function Preorder(f: seq<Heading>, level: int): seq<Outline>
    decreases f
  {
    if f == [] then [] else Emit(f[0], level) + Preorder(f[1..], level)
  }

  /** A heading, then its children one level deeper */
  function Emit(h: Heading, level: int): seq<Outline>
    decreases h
  {
    [Outline(level, h.title, h.uri, h.page, h.y)] + Preorder(h.children, level + 1)
  }

  /** The walk is the pre-order flattening of the forest, levels being depths */
  lemma {:induction false} WalkIsPreorder(t: Tree, level: int)
    ensures Walk(t, level) == Preorder(Forest(t), level)
  {
    match t
    case Nil =>
    case Node(title, uri, page, y, down, next) =>
      WalkIsPreorder(down, level + 1);
      WalkIsPreorder(next, level);
      var h := Heading(title, uri, page, y, Forest(down));
      var f := [h] + Forest(next);
      assert f[0] == h && f[1..] == Forest(next);
  }

  // The flattening loses nothing: the levels alone determine the tree again.

  /** Length of the longest prefix of `es` whose entries are deeper than `level` */
  function Deeper(es: seq<Outline>, level: int): (k: nat)
    ensures k <= |es|
    ensures forall i :: 0 <= i < k ==> es[i].level > level
    ensures k < |es| ==> es[k].level <= level
  {
    if |es| == 0 || es[0].level <= level then 0 else 1 + Deeper(es[1..], level)
  }

  /** The tree a leveled list describes: each entry's children are the run of
      deeper entries right after it, its next sibling the entry that follows them. */
  function Rebuild(es: seq<Outline>, level: int): Tree
    decreases |es|
  {
    if |es| == 0 then Nil
    else
      var k := Deeper(es[1..], level);
      Node(es[0].title, es[0].uri, es[0].page, es[0].top,
           Rebuild(es[1..1 + k], level + 1), Rebuild(es[1 + k..], level))
  }

  lemma DeeperSplit(d: seq<Outline>, n: seq<Outline>, level: int)
    requires forall i :: 0 <= i < |d| ==> d[i].level > level
    requires |n| > 0 ==> n[0].level <= level
    ensures Deeper(d + n, level) == |d|
  {
    assert forall i :: 0 <= i < |d| ==> (d + n)[i] == d[i];
    assert |n| > 0 ==> (d + n)[|d|] == n[0];
  }

  /** One step of `Rebuild` over an entry followed by its children and its siblings */
  lemma RebuildCons(e: Outline, d: seq<Outline>, n: seq<Outline>, level: int)
    requires Deeper(d + n, level) == |d|
    ensures Rebuild([e] + d + n, level)
         == Node(e.title, e.uri, e.page, e.top, Rebuild(d, level + 1), Rebuild(n, level))
  {
    var es := [e] + d + n;
    assert es[0] == e;
    assert es[1..] == d + n;
    assert es[1..1 + |d|] == d;
    assert es[1 + |d|..] == n;
  }

  /** Round trip: rebuilding from the walk gives back the native outline */
  lemma {:induction false} RebuildWalk(t: Tree, level: int)
    ensures Rebuild(Walk(t, level), level) == t
  {
    match t
    case Nil =>
    case Node(title, uri, page, y, down, next) =>
      var d := Walk(down, level + 1);
      var n := Walk(next, level);
      WalkLeveled(down, level + 1);
      WalkLeveled(next, level);
      DeeperSplit(d, n, level);
      RebuildCons(Entry(t, level), d, n, level);
      RebuildWalk(down, level + 1);
      RebuildWalk(next, level);
  }

  /** Distinct outlines never flatten to the same table of contents */
  lemma WalkInjective(s: Tree, t: Tree, level: int)
    requires Walk(s, level) == Walk(t, level)
    ensures s == t
  {
    RebuildWalk(s, level);
    RebuildWalk(t, level);
  }
}
