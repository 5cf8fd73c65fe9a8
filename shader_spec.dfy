/** The dirty-region tree of `cheeze/layout_manager/shader_bounds.py` as a
    value: what `calculate_child_bounds`, `get_drawable_children` and
    `check_reshade` compute, written as functions of the tree. `N` is the
    identity of a node (the `ShaderBounds` object itself in shader_bounds.dfy),
    which the results report. */
module ShaderSpec {
  import opened Wrappers
  import opened Utils
  import opened Units

  /** A node: its declared rectangle, the bounding box it has drawn
      (`rendered`), whether it draws at all, whether it can redraw a part of
      itself, and its children in order. */
  datatype Tree<N> = Tree(id: N, pos: (real, real), size: (real, real), rendered: LRect,
                          drawable: bool, partial: bool, children: seq<Tree<N>>)

  /** The rectangle the node declares for itself. */
  function Own<N>(t: Tree<N>): LRect
  {
    LRect(t.pos, t.size)
  }

  /** `ShaderBounds.__init__`: `rendered` starts as the declared rectangle,
      whatever the children span. */
  function NewTree<N>(id: N, pos: (real, real), size: (real, real), drawable: bool, partial: bool,
                      kids: seq<Tree<N>>): (r: Tree<N>)
    ensures r.rendered == LRect(pos, size) == Own(r)
    ensures r.children == kids && r.drawable == drawable && r.partial == partial && r.id == id
  {
    Tree(id, pos, size, LRect(pos, size), drawable, partial, kids)
  }

  // ---------------------------------------------------------------------
  // The nodes of a tree, in pre-order

  /** The node and every node below it, each node before its descendants
      and children in order. */
  function Nodes<N>(t: Tree<N>): (r: seq<Tree<N>>)
    ensures |r| >= 1 && r[0] == t
    decreases t, 1
  {
    [t] + NodesOf(t.children, |t.children|)
  }

  /** The nodes under the first `n` of `kids`, in pre-order. */
  function NodesOf<N>(kids: seq<Tree<N>>, n: nat): seq<Tree<N>>
    requires n <= |kids|
    decreases kids, n
  {
    if n == 0 then [] else NodesOf(kids, n - 1) + Nodes(kids[n - 1])
  }

  /** A node lies under the first `n` children exactly when it lies in the
      subtree of one of them. */
  lemma {:induction false} NodesOfMember<N>(kids: seq<Tree<N>>, n: nat, s: Tree<N>)
    requires n <= |kids|
    ensures s in NodesOf(kids, n) <==> exists i :: 0 <= i < n && s in Nodes(kids[i])
  {
    if n > 0 {
      NodesOfMember(kids, n - 1, s);
      if s in Nodes(kids[n - 1]) {
        assert 0 <= n - 1 < n && s in Nodes(kids[n - 1]);
      }
    }
  }

  // ---------------------------------------------------------------------
  // calculate_child_bounds

  /** `r` unioned with the `rendered` of each of the first `n` of `kids`, in
      order. */
  function UnionUpTo<N>(r: LRect, kids: seq<Tree<N>>, n: nat): LRect
    requires n <= |kids|
  {
    if n == 0 then r else Union(UnionUpTo(r, kids, n - 1), kids[n - 1].rendered)
  }

  /** The union spans its start and every child's `rendered`, and every
      rectangle that spans all of those spans it: it is the bounding box. */
  lemma {:induction false} UnionUpToIsBoundingBox<N>(r: LRect, kids: seq<Tree<N>>, n: nat, c: LRect)
    requires n <= |kids|
    ensures Contains(UnionUpTo(r, kids, n), r)
    ensures forall i :: 0 <= i < n ==> Contains(UnionUpTo(r, kids, n), kids[i].rendered)
    ensures Contains(c, r) && (forall i :: 0 <= i < n ==> Contains(c, kids[i].rendered))
            ==> Contains(c, UnionUpTo(r, kids, n))
  {
    if n > 0 {
      UnionUpToIsBoundingBox(r, kids, n - 1, c);
      var u := UnionUpTo(r, kids, n - 1);
      forall i | 0 <= i < n - 1
        ensures Contains(UnionUpTo(r, kids, n), kids[i].rendered)
      {
        ContainsTransitive(UnionUpTo(r, kids, n), u, kids[i].rendered);
      }
      ContainsTransitive(UnionUpTo(r, kids, n), u, r);
      if Contains(c, r) && (forall i :: 0 <= i < n ==> Contains(c, kids[i].rendered)) {
        UnionIsSmallest(u, kids[n - 1].rendered, c);
      }
    }
  }

  /** A value met while Python's `sum` adds rectangles up: the integer 0
      it starts from, or a rectangle. */
  datatype Summand = IntZero | Rect(rect: LRect)

  /** `a + b` between summands. Only two rectangles add (`LRect.__add__`);
      `0 + LRect` finds no `__radd__` (`TypeError`) and `LRect + 0` reads
      `.pos` of an integer (`AttributeError`). */
  function PlusAsWritten(a: Summand, b: Summand): Option<Summand>
  {
    match (a, b)
    case (IntZero, IntZero) => Some(IntZero)
    case (Rect(x), Rect(y)) => Some(Rect(Union(x, y)))
    case _ => None
  }

  /** `sum(rs)`: a left fold from the integer 0; `None` once an addition
      raises. */
  function SumAsWritten(rs: seq<LRect>): Option<Summand>
  {
    if rs == [] then Some(IntZero)
    else match SumAsWritten(rs[..|rs| - 1])
      case None => None
      case Some(s) => PlusAsWritten(s, Rect(rs[|rs| - 1]))
  }

  /** Lines 116-117 as written: `rendered` is set to the declared
      rectangle `own`, then `rendered += sum(…)` over the children's
      rectangles `rs`. */
  function StoreAsWritten(own: LRect, rs: seq<LRect>): Option<LRect>
  {
    match SumAsWritten(rs)
    case None => None
    case Some(s) =>
      match PlusAsWritten(Rect(own), s)
      case Some(Rect(u)) => Some(u)
      case _ => None
  }

  /** The sum of one or more rectangles raises at its first addition. */
  lemma {:induction false} SumOfRectsFails(rs: seq<LRect>)
    requires rs != []
    ensures SumAsWritten(rs) == None
  {
    if |rs| > 1 {
      SumOfRectsFails(rs[..|rs| - 1]);
    } else {
      assert rs[..0] == [];
    }
  }

  /** As written, the final step of `calculate_child_bounds` raises for
      every node: with children the sum fails, without them the
      rectangle is added to the integer 0. */
  lemma StoreAsWrittenAlwaysFails(own: LRect, rs: seq<LRect>)
    ensures StoreAsWritten(own, rs) == None
  {
    if rs != [] {
      SumOfRectsFails(rs);
    }
  }

  /** `calculate_child_bounds`: every child first, then `rendered` becomes
      the declared rectangle unioned with each child's new `rendered`. */
  function Bounds<N>(t: Tree<N>): (r: Tree<N>)
    ensures r.id == t.id && r.pos == t.pos && r.size == t.size
    ensures r.drawable == t.drawable && r.partial == t.partial
    ensures |r.children| == |t.children|
    decreases t
  {
    var kids := seq(|t.children|, i requires 0 <= i < |t.children| => Bounds(t.children[i]));
    t.(children := kids, rendered := UnionUpTo(Own(t), kids, |kids|))
  }

  /** The invariant `calculate_child_bounds` establishes: every node's
      `rendered` spans its declared rectangle and each child's `rendered`. */
  predicate Covers<N>(t: Tree<N>)
    decreases t
  {
    Contains(t.rendered, Own(t)) &&
    forall i :: 0 <= i < |t.children| ==> Contains(t.rendered, t.children[i].rendered) && Covers(t.children[i])
  }

  /** After `calculate_child_bounds` the whole tree is covered, and each
      node's `rendered` is the smallest rectangle spanning its own and its
      children's. */
  lemma {:induction false} BoundsCovers<N>(t: Tree<N>)
    ensures Covers(Bounds(t))
    ensures forall c: LRect ::
      Contains(c, Own(t)) && (forall i :: 0 <= i < |t.children| ==> Contains(c, Bounds(t).children[i].rendered))
      ==> Contains(c, Bounds(t).rendered)
    decreases t
  {
    var b := Bounds(t);
    forall i | 0 <= i < |t.children|
      ensures Covers(b.children[i])
    {
      BoundsCovers(t.children[i]);
    }
    UnionUpToIsBoundingBox(Own(t), b.children, |b.children|, Own(t));
    forall c: LRect | Contains(c, Own(t)) && (forall i :: 0 <= i < |t.children| ==> Contains(c, b.children[i].rendered))
      ensures Contains(c, b.rendered)
    {
      UnionUpToIsBoundingBox(Own(t), b.children, |b.children|, c);
    }
  }

  /** Recomputing the bounds of a tree whose bounds are computed changes
      nothing. */
  lemma {:induction false} BoundsIdempotent<N>(t: Tree<N>)
    ensures Bounds(Bounds(t)) == Bounds(t)
    decreases t
  {
    var b := Bounds(t);
    forall i | 0 <= i < |t.children|
      ensures Bounds(b.children[i]) == b.children[i]
    {
      BoundsIdempotent(t.children[i]);
    }
    assert Bounds(b).children == b.children;
  }

  /** In a covered tree a node's `rendered` spans the declared rectangle of
      every node below it. */
  lemma {:induction false} CoversDescendants<N>(t: Tree<N>, s: Tree<N>)
    requires Covers(t) && s in Nodes(t)
    ensures Contains(t.rendered, Own(s))
    decreases t
  {
    if s != t {
      NodesOfMember(t.children, |t.children|, s);
      var i :| 0 <= i < |t.children| && s in Nodes(t.children[i]);
      CoversDescendants(t.children[i], s);
      ContainsTransitive(t.rendered, t.children[i].rendered, Own(s));
    }
  }

  /** `add_child`: the child goes last, then the bounds are recomputed. */
  function AddChildSpec<N>(t: Tree<N>, c: Tree<N>): (r: Tree<N>)
    ensures |r.children| == |t.children| + 1
  {
    Bounds(t.(children := t.children + [c]))
  }

  /** `remove_child`, once the child is found at `i`: it is taken out and
      the bounds are recomputed. */
  function RemoveChildSpec<N>(t: Tree<N>, i: nat): (r: Tree<N>)
    requires i < |t.children|
    ensures |r.children| == |t.children| - 1
  {
    Bounds(t.(children := t.children[..i] + t.children[i + 1..]))
  }

  /** After `add_child` the tree is covered and the new child, with its own
      bounds computed, is last and inside its parent's `rendered`. */
  lemma AddChildCovers<N>(t: Tree<N>, c: Tree<N>)
    ensures Covers(AddChildSpec(t, c))
    ensures AddChildSpec(t, c).children[|t.children|] == Bounds(c)
    ensures Contains(AddChildSpec(t, c).rendered, Bounds(c).rendered)
  {
    BoundsCovers(t.(children := t.children + [c]));
  }

  /** Removing the child just added gives back the tree with its bounds
      computed. */
  lemma {:induction false} RemoveUndoesAdd<N>(t: Tree<N>, c: Tree<N>)
    ensures RemoveChildSpec(AddChildSpec(t, c), |t.children|) == Bounds(t)
  {
    var a := AddChildSpec(t, c);
    var kids := a.children[..|t.children|];
    forall i | 0 <= i < |t.children|
      ensures Bounds(kids[i]) == Bounds(t).children[i]
    {
      BoundsIdempotent(t.children[i]);
    }
    assert a.children[..|t.children|] + a.children[|t.children| + 1..] == kids;
    assert Bounds(a.(children := kids)).children == Bounds(t).children;
  }

  // ---------------------------------------------------------------------
  // get_drawable_children

  /** `get_drawable_children`: for each child in order, the child if it is
      drawable, then the drawable nodes below it. */
  function Drawables<N>(t: Tree<N>): seq<Tree<N>>
    decreases t, 1
  {
    DrawablesOf(t.children, |t.children|)
  }

  /** The same over the first `n` of `kids`. */
  function DrawablesOf<N>(kids: seq<Tree<N>>, n: nat): seq<Tree<N>>
    requires n <= |kids|
    decreases kids, n
  {
    if n == 0 then []
    else DrawablesOf(kids, n - 1) + (if kids[n - 1].drawable then [kids[n - 1]] else []) + Drawables(kids[n - 1])
  }

  /** The drawable nodes of a list, in order. */
  function DrawableOnly<N>(s: seq<Tree<N>>): (r: seq<Tree<N>>)
    ensures |r| <= |s|
    ensures forall k :: 0 <= k < |r| ==> r[k].drawable
  {
    if s == [] then [] else (if s[0].drawable then [s[0]] else []) + DrawableOnly(s[1..])
  }

  lemma {:induction false} DrawableOnlyConcat<N>(a: seq<Tree<N>>, b: seq<Tree<N>>)
    ensures DrawableOnly(a + b) == DrawableOnly(a) + DrawableOnly(b)
  {
    if a != [] {
      assert (a + b)[1..] == a[1..] + b;
      DrawableOnlyConcat(a[1..], b);
    } else {
      assert a + b == b;
    }
  }

  lemma {:induction false} DrawableOnlyMember<N>(s: seq<Tree<N>>, x: Tree<N>)
    ensures x in DrawableOnly(s) <==> x in s && x.drawable
  {
    if s != [] {
      DrawableOnlyMember(s[1..], x);
      assert s == [s[0]] + s[1..];
    }
  }

  /** `get_drawable_children` lists exactly the drawable nodes strictly
      below the node, in pre-order: those under a non-drawable node
      included, the node itself not. */
  lemma {:induction false} DrawablesArePreorder<N>(t: Tree<N>)
    ensures Drawables(t) == DrawableOnly(Nodes(t)[1..])
    decreases t, 1
  {
    DrawablesOfArePreorder(t.children, |t.children|);
    assert Nodes(t)[1..] == NodesOf(t.children, |t.children|);
  }

  lemma {:induction false} DrawablesOfArePreorder<N>(kids: seq<Tree<N>>, n: nat)
    requires n <= |kids|
    ensures DrawablesOf(kids, n) == DrawableOnly(NodesOf(kids, n))
    decreases kids, n
  {
    if n > 0 {
      var k := kids[n - 1];
      var before, below := NodesOf(kids, n - 1), Nodes(k)[1..];
      var own := if k.drawable then [k] else [];
      assert Nodes(k) == [k] + below;
      assert NodesOf(kids, n) == before + Nodes(k);
      DrawablesOfArePreorder(kids, n - 1);
      DrawablesArePreorder(k);
      DrawableOnlyConcat(before, Nodes(k));
      DrawableOnlyConcat([k], below);
      assert DrawableOnly([k]) == own by {
        assert [k][1..] == [];
      }
      assert DrawableOnly(Nodes(k)) == own + Drawables(k);
      assert DrawablesOf(kids, n) == DrawablesOf(kids, n - 1) + own + Drawables(k);
    }
  }

  // ---------------------------------------------------------------------
  // check_reshade

  /** One line of the reshade list: a node, and `None` for "redraw all of
      it" or the list of regions of it to redraw. */
  datatype Entry<N> = Entry(node: Tree<N>, regions: Option<seq<LRect>>)

  /** A node to redraw in full. */
  function FullEntries<N>(ds: seq<Tree<N>>): (r: seq<Entry<N>>)
    ensures |r| == |ds| && forall k :: 0 <= k < |ds| ==> r[k] == Entry(ds[k], None)
  {
    seq(|ds|, k requires 0 <= k < |ds| => Entry(ds[k], None))
  }

  /** What one line of a child's list adds to a drawable parent's regions:
      the `rendered` of a node redrawn in full, or the regions of a node
      redrawn in part. */
  function Contribution<N>(e: Entry<N>): seq<LRect>
  {
    match e.regions
    case None => [e.node.rendered]
    case Some(rs) => rs
  }

  /** The regions a list of lines adds up to, in order. */
  function Contributions<N>(es: seq<Entry<N>>): seq<LRect>
  {
    if es == [] then [] else Contributions(es[..|es| - 1]) + Contribution(es[|es| - 1])
  }

  /** The lists of the first `n` of `kids`, one after the other
      (`reshade_temp`). */
  function ReshadeOf<N>(kids: seq<Tree<N>>, n: nat, point: (real, real)): seq<Entry<N>>
    requires n <= |kids|
    decreases kids, n
  {
    if n == 0 then [] else ReshadeOf(kids, n - 1, point) + Reshade(kids[n - 1], point)
  }

  /** `check_reshade(point)`. A node of no extent reports nothing. A node
      that draws itself in full and is hit reports itself and every
      drawable node below it in full, and looks no further. Any other node
      that is hit asks its children; if it draws, it reports itself first
      with the regions its children's lines add up to, provided there are
      any. A node that is not hit reports nothing. */
  function Reshade<N>(t: Tree<N>, point: (real, real)): seq<Entry<N>>
    decreases t, 1
  {
    if IsZero(t.rendered) then []
    else if t.drawable && !t.partial then
      if CollidesWith(t.rendered, point) then [Entry(t, None)] + FullEntries(Drawables(t)) else []
    else if CollidesWith(t.rendered, point) then
      var below := ReshadeOf(t.children, |t.children|, point);
      var regions := if t.drawable then Contributions(below) else [];
      (if t.drawable && |regions| > 0 then [Entry(t, Some(regions))] else []) + below
    else []
  }

  /** What stops `check_reshade` as written. */
  datatype Fault =
    | UnboundChildResult  // a node to search that has no children: the name on line 87 is never bound
    | TupleAppend         // a drawable node to search with a child that reported: regions start as a tuple

  /** `check_reshade` as written: a node searched through its children ends
      with the list of its LAST child only (line 87 extends by the loop
      variable, not by the gathered list), fails outright when it has no
      children, and a drawable one fails as soon as a child reports
      something. The zero-size guard of line 46 is absent: `is_zero`
      returns `None` as written (`IsZeroAsWritten`), so it never fires. */
  function ReshadeAsWritten<N>(t: Tree<N>, point: (real, real)): Result<seq<Entry<N>>, Fault>
    decreases t, 1
  {
    if t.drawable && !t.partial then
      if CollidesWith(t.rendered, point) then Ok([Entry(t, None)] + FullEntries(Drawables(t))) else Ok([])
    else if CollidesWith(t.rendered, point) then
      var last :- LastChildAsWritten(t.children, |t.children|, t.drawable, point);
      match last
      case None => Err(UnboundChildResult)
      case Some(es) => Ok(es)
    else Ok([])
  }

  /** The loop of lines 68-81 as written over the first `n` children: the
      list of the last child visited, if any. */
  function LastChildAsWritten<N>(kids: seq<Tree<N>>, n: nat, drawable: bool, point: (real, real)):
    Result<Option<seq<Entry<N>>>, Fault>
    requires n <= |kids|
    decreases kids, n
  {
    if n == 0 then Ok(None)
    else
      var _ :- LastChildAsWritten(kids, n - 1, drawable, point);
      var es :- ReshadeAsWritten(kids[n - 1], point);
      if |es| != 0 && drawable then Err(TupleAppend) else Ok(Some(es))
  }

  /** Two full-drawing children under a plain container, both hit: as
      written only the second is reported, while both need redrawing; and
      a plain leaf that is hit stops the search. */
  lemma ReshadeAsWrittenDropsChildren()
    ensures var a := NewTree(1, (0.0, 0.0), (10.0, 10.0), true, false, []);
      var b := NewTree(2, (0.0, 0.0), (10.0, 10.0), true, false, []);
      var root := NewTree(0, (0.0, 0.0), (10.0, 10.0), false, false, [a, b]);
      ReshadeAsWritten(root, (1.0, 1.0)) == Ok([Entry(b, None)]) &&
      Reshade(root, (1.0, 1.0)) == [Entry(a, None), Entry(b, None)]
    ensures var leaf := NewTree(3, (0.0, 0.0), (10.0, 10.0), false, false, []);
      ReshadeAsWritten(leaf, (1.0, 1.0)) == Err(UnboundChildResult) && Reshade(leaf, (1.0, 1.0)) == []
  {
    var a := NewTree(1, (0.0, 0.0), (10.0, 10.0), true, false, []);
    var b := NewTree(2, (0.0, 0.0), (10.0, 10.0), true, false, []);
    var root := NewTree(0, (0.0, 0.0), (10.0, 10.0), false, false, [a, b]);
    assert Drawables(a) == [] && Drawables(b) == [];
    assert Reshade(a, (1.0, 1.0)) == [Entry(a, None)];
    assert Reshade(b, (1.0, 1.0)) == [Entry(b, None)];
    assert ReshadeOf(root.children, 1, (1.0, 1.0)) == [Entry(a, None)];
    assert ReshadeOf(root.children, 2, (1.0, 1.0)) == [Entry(a, None), Entry(b, None)];
    assert ReshadeAsWritten(a, (1.0, 1.0)) == Ok([Entry(a, None)]);
    assert ReshadeAsWritten(b, (1.0, 1.0)) == Ok([Entry(b, None)]);
    assert LastChildAsWritten(root.children, 1, false, (1.0, 1.0)) == Ok(Some([Entry(a, None)]));
    assert LastChildAsWritten(root.children, 2, false, (1.0, 1.0)) == Ok(Some([Entry(b, None)]));
  }

  /** A line is well formed when its node draws, and a partial line names
      at least one region. */
  predicate WellFormed<N>(e: Entry<N>)
  {
    e.node.drawable && (e.regions.Some? ==> |e.regions.value| > 0)
  }

  /** Every line of a node's list is well formed and names a node of its
      subtree. */
  lemma {:induction false} ReshadeWellFormed<N>(t: Tree<N>, point: (real, real))
    ensures forall k :: 0 <= k < |Reshade(t, point)| ==>
      WellFormed(Reshade(t, point)[k]) && Reshade(t, point)[k].node in Nodes(t)
    decreases t, 1
  {
    if !IsZero(t.rendered) && CollidesWith(t.rendered, point) {
      if t.drawable && !t.partial {
        var ds := Drawables(t);
        DrawablesArePreorder(t);
        forall k | 0 <= k < |ds|
          ensures ds[k].drawable && ds[k] in Nodes(t)
        {
          DrawableOnlyMember(Nodes(t)[1..], ds[k]);
        }
      } else {
        ReshadeOfWellFormed(t.children, |t.children|, point);
        var below := ReshadeOf(t.children, |t.children|, point);
        forall k | 0 <= k < |below|
          ensures below[k].node in Nodes(t)
        {
          NodesOfMember(t.children, |t.children|, below[k].node);
        }
      }
    }
  }

  lemma {:induction false} ReshadeOfWellFormed<N>(kids: seq<Tree<N>>, n: nat, point: (real, real))
    requires n <= |kids|
    ensures forall k :: 0 <= k < |ReshadeOf(kids, n, point)| ==>
      WellFormed(ReshadeOf(kids, n, point)[k]) && ReshadeOf(kids, n, point)[k].node in NodesOf(kids, n)
    decreases kids, n
  {
    if n > 0 {
      ReshadeOfWellFormed(kids, n - 1, point);
      ReshadeWellFormed(kids[n - 1], point);
    }
  }

  /** The regions of two lists one after the other are the regions of each,
      one after the other. */
  lemma {:induction false} ContributionsConcat<N>(a: seq<Entry<N>>, b: seq<Entry<N>>)
    ensures Contributions(a + b) == Contributions(a) + Contributions(b)
    decreases |b|
  {
    if b != [] {
      var b' := b[..|b| - 1];
      assert (a + b)[..|a + b| - 1] == a + b';
      ContributionsConcat(a, b');
    } else {
      assert a + b == a;
    }
  }

  /** Each well-formed line adds at least one region. */
  lemma {:induction false} ContributionsCount<N>(es: seq<Entry<N>>)
    requires forall k :: 0 <= k < |es| ==> WellFormed(es[k])
    ensures |Contributions(es)| >= |es|
  {
    if es != [] {
      ContributionsCount(es[..|es| - 1]);
    }
  }

  /** A node that is not hit reports nothing, whatever it draws. */
  lemma ReshadeMiss<N>(t: Tree<N>, point: (real, real))
    requires !CollidesWith(t.rendered, point)
    ensures Reshade(t, point) == []
  {
  }

  /** The zero-size guard: a node of no extent reports nothing even where
      the point lies on it (the edges count as hits). */
  lemma ZeroNodeNotReshaded<N>(id: N, point: (real, real), drawable: bool, partial: bool, kids: seq<Tree<N>>)
    ensures CollidesWith(LRect(point, (0.0, 0.0)), point)
    ensures Reshade(NewTree(id, point, (0.0, 0.0), drawable, partial, kids), point) == []
  {
  }

  /** A node drawn in full that is hit reports itself and then, in
      pre-order, every drawable node strictly below it, all in full. */
  lemma ReshadeOpaque<N>(t: Tree<N>, point: (real, real))
    requires t.drawable && !t.partial && !IsZero(t.rendered) && CollidesWith(t.rendered, point)
    ensures Reshade(t, point) == [Entry(t, None)] + FullEntries(DrawableOnly(Nodes(t)[1..]))
  {
    DrawablesArePreorder(t);
  }

  /** A node that is hit and not drawn in full: its children's lists come
      in child order, after its own line; it has a line exactly when it
      draws and some child reported something, and that line's regions are
      the children's full nodes' `rendered` and partial nodes' regions. Its
      own rectangle is never a region by itself. */
  lemma ReshadePartial<N>(t: Tree<N>, point: (real, real))
    requires !(t.drawable && !t.partial) && !IsZero(t.rendered) && CollidesWith(t.rendered, point)
    ensures var below := ReshadeOf(t.children, |t.children|, point);
      Reshade(t, point) == (if t.drawable && below != [] then [Entry(t, Some(Contributions(below)))] else []) + below
  {
    var below := ReshadeOf(t.children, |t.children|, point);
    ReshadeOfWellFormed(t.children, |t.children|, point);
    ContributionsCount(below);
  }

  /** The list of several children is each child's list in turn. */
  lemma {:induction false} ReshadeOfChildren<N>(kids: seq<Tree<N>>, n: nat, point: (real, real), i: nat)
    requires i < n <= |kids|
    ensures forall e :: e in Reshade(kids[i], point) ==> e in ReshadeOf(kids, n, point)
    decreases n
  {
    if i < n - 1 {
      ReshadeOfChildren(kids, n - 1, point, i);
    }
  }

  /** Nothing of no extent below the node. */
  predicate NoneZero<N>(t: Tree<N>)
    decreases t
  {
    !IsZero(t.rendered) && forall i :: 0 <= i < |t.children| ==> NoneZero(t.children[i])
  }

  lemma {:induction false} NoneZeroDescendants<N>(t: Tree<N>, s: Tree<N>)
    requires NoneZero(t) && s in Nodes(t)
    ensures NoneZero(s)
    decreases t
  {
    if s != t {
      NodesOfMember(t.children, |t.children|, s);
      var i :| 0 <= i < |t.children| && s in Nodes(t.children[i]);
      NoneZeroDescendants(t.children[i], s);
    }
  }

  /** Redrawing covers the change: once the bounds are computed and no node
      has zero extent, every node that draws itself in full and whose
      declared rectangle the point hits is reported, in full. */
  lemma {:induction false} ReshadeReachesHitNode<N>(t: Tree<N>, point: (real, real), d: Tree<N>)
    requires Covers(t) && NoneZero(t)
    requires d in Nodes(t) && d.drawable && !d.partial && CollidesWith(Own(d), point)
    ensures Entry(d, None) in Reshade(t, point)
    decreases t
  {
    CoversDescendants(t, d);
    ContainsCollides(t.rendered, Own(d), point);
    if d == t {
      assert Reshade(t, point)[0] == Entry(d, None);
    } else {
      NodesOfMember(t.children, |t.children|, d);
      var i :| 0 <= i < |t.children| && d in Nodes(t.children[i]);
      if t.drawable && !t.partial {
        DrawablesArePreorder(t);
        DrawableOnlyMember(Nodes(t)[1..], d);
        var ds := Drawables(t);
        var k :| 0 <= k < |ds| && ds[k] == d;
        assert Reshade(t, point)[1 + k] == Entry(d, None);
      } else {
        ReshadeReachesHitNode(t.children[i], point, d);
        ReshadeOfChildren(t.children, |t.children|, point, i);
        assert Entry(d, None) in ReshadeOf(t.children, |t.children|, point);
      }
    }
  }
}
