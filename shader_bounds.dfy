/** `ShaderBounds` objects as the source keeps them: a tree of mutable
    nodes whose `rendered` box and child list change in place. Each method
    is proved to leave the tree as the matching function of ShaderSpec
    computes it from the tree before the call. */
module ShaderBounds {
  import opened Wrappers
  import opened Units
  import opened ShaderSpec

  /** `list.remove` of an object that is not in the list. */
  datatype ShaderError = NotAChild

  /** The nodes under a list of children. */
  ghost function Footprint(kids: seq<ShaderBounds>): (r: set<object>)
    reads kids
    ensures forall i :: 0 <= i < |kids| ==> kids[i].Repr <= r
  {
    if kids == [] then {} else Footprint(kids[..|kids| - 1]) + kids[|kids| - 1].Repr
  }

  /** The models of a list of nodes. */
  ghost function ModelsOf(kids: seq<ShaderBounds>): (r: seq<Tree<ShaderBounds?>>)
    reads kids
    ensures |r| == |kids| && forall i :: 0 <= i < |kids| ==> r[i] == kids[i].model
  {
    if kids == [] then [] else ModelsOf(kids[..|kids| - 1]) + [kids[|kids| - 1].model]
  }

  /** The pairs `check_reshade` returns stand for the lines of `es`: the
      same nodes, the same regions, and each node's `rendered` as the
      spec tree has it. */
  ghost predicate Reports(r: seq<(ShaderBounds, Option<seq<LRect>>)>, es: seq<Entry<ShaderBounds?>>)
    reads set k | 0 <= k < |r| :: r[k].0
  {
    |r| == |es| &&
    forall k :: 0 <= k < |r| ==>
      r[k].0 == es[k].node.id && r[k].1 == es[k].regions && r[k].0.rendered == es[k].node.rendered
  }

  /** The objects `r` are the nodes of `ds`, in order, with the same
      `rendered`. */
  ghost predicate Names(r: seq<ShaderBounds>, ds: seq<Tree<ShaderBounds?>>)
    reads r
  {
    |r| == |ds| && forall k :: 0 <= k < |r| ==> r[k] == ds[k].id && r[k].rendered == ds[k].rendered
  }

  lemma NamesConcat(a: seq<ShaderBounds>, da: seq<Tree<ShaderBounds?>>, b: seq<ShaderBounds>, db: seq<Tree<ShaderBounds?>>)
    requires Names(a, da) && Names(b, db)
    ensures Names(a + b, da + db)
  {
  }

  lemma ReportsConcat(a: seq<(ShaderBounds, Option<seq<LRect>>)>, ea: seq<Entry<ShaderBounds?>>,
                      b: seq<(ShaderBounds, Option<seq<LRect>>)>, eb: seq<Entry<ShaderBounds?>>)
    requires Reports(a, ea) && Reports(b, eb)
    ensures Reports(a + b, ea + eb)
  {
  }

  /** Lines 73-77: the regions of the child lines `sub` added after
      `regions`: a full node's `rendered`, a partial node's own regions. */
  method AddRegions(regions: seq<LRect>, sub: seq<(ShaderBounds, Option<seq<LRect>>)>,
                    ghost es: seq<Entry<ShaderBounds?>>) returns (out: seq<LRect>)
    requires Reports(sub, es)
    ensures out == regions + Contributions(es)
  {
    out := regions;
    for j := 0 to |sub|
      invariant out == regions + Contributions(es[..j])
    {
      assert es[..j + 1][..j] == es[..j];
      match sub[j].1
      case None =>
        out := out + [sub[j].0.rendered];
      case Some(rs) =>
        out := out + rs;
    }
    assert es[..|sub|] == es;
  }

  class ShaderBounds {
    /** Declared position and size. */
    const pos: (real, real)
    const size: (real, real)
    /** Whether the node draws, and whether it can redraw part of itself. */
    const drawable: bool
    const partial: bool
    /** The parent given at construction; nothing reads it. */
    const parent: ShaderBounds?
    /** The box the node and its children have drawn. */
    var rendered: LRect
    var children: seq<ShaderBounds>

    /** The tree this node stands for, naming each node by itself. */
    ghost var model: Tree<ShaderBounds?>
    /** This node and every node below it. */
    ghost var Repr: set<object>

    /** A tree of nodes whose models agree with their fields. */
    ghost predicate Valid()
      reads this, Repr
      decreases Repr, 2
    {
      Shape() && Linked()
    }

    /** The children's footprints lie inside this one's, do not hold this
        node and do not overlap, and every child is valid. */
    ghost predicate Shape()
      reads this`children, this`Repr, Repr - {this}
      decreases Repr, 0
    {
      this in Repr &&
      (forall i :: 0 <= i < |children| ==>
        children[i] in Repr && children[i] != this &&
        children[i].Repr <= Repr && this !in children[i].Repr && children[i].Valid()) &&
      (forall i, j :: 0 <= i < |children| && 0 <= j < |children| && i != j ==> children[i].Repr !! children[j].Repr)
    }

    /** The model holds this node's fields and its children's models. */
    ghost predicate Linked()
      requires Shape()
      reads this, Repr
      decreases Repr, 1
    {
      model.id == this && model.pos == pos && model.size == size && model.rendered == rendered &&
      model.drawable == drawable && model.partial == partial &&
      |model.children| == |children| &&
      forall i :: 0 <= i < |children| ==> model.children[i] == children[i].model
    }

    /** `ShaderBounds(pos, size, children=…, drawable=…, partial_shader=…,
        parent=…)`: `rendered` is the declared rectangle, not yet widened
        to the children. */
    constructor (p: (real, real), s: (real, real), kids: seq<ShaderBounds>, isDrawable: bool, isPartial: bool,
                 up: ShaderBounds?)
      requires forall i :: 0 <= i < |kids| ==> kids[i].Valid()
      requires forall i, j :: 0 <= i < |kids| && 0 <= j < |kids| && i != j ==> kids[i].Repr !! kids[j].Repr
      ensures Valid() && fresh(Repr - Footprint(kids))
      ensures children == kids && parent == up
      ensures model == NewTree(this, p, s, isDrawable, isPartial, ModelsOf(kids))
    {
      pos := p;
      size := s;
      rendered := LRect(p, s);
      drawable := isDrawable;
      partial := isPartial;
      parent := up;
      children := kids;
      Repr := {this} + Footprint(kids);
      model := NewTree(null, p, s, isDrawable, isPartial, ModelsOf(kids));
      new;
      model := model.(id := this);
      forall i | 0 <= i < |kids|
        ensures kids[i] in kids[i].Repr
      {
        assert kids[i].Shape();
      }
    }

    /** `get_drawable_children`: the drawable nodes below this one, in the
        order `Drawables` lists them. */
    method GetDrawableChildren() returns (r: seq<ShaderBounds>)
      requires Valid()
      ensures Names(r, Drawables(model))
      decreases Repr
    {
      ghost var K := model.children;
      r := [];
      for i := 0 to |children|
        invariant Names(r, DrawablesOf(K, i))
      {
        var x := children[i];
        assert x.Valid() && x.model == K[i];
        assert x.Linked();
        var sub := x.GetDrawableChildren();
        ghost var own := if x.drawable then [K[i]] else [];
        if x.drawable {
          NamesConcat(r, DrawablesOf(K, i), [x], own);
          r := r + [x];
        }
        NamesConcat(r, DrawablesOf(K, i) + own, sub, Drawables(K[i]));
        r := r + sub;
      }
    }

    /** `calculate_child_bounds`: every child recomputes its bounds, then
        `rendered` becomes the declared rectangle unioned with each
        child's `rendered`. */
    method CalculateChildBounds()
      requires Valid()
      modifies Repr
      ensures Valid() && Repr == old(Repr)
      ensures model == Bounds(old(model))
      decreases Repr, 1
    {
      ghost var M := model;
      assert Linked();
      BoundChildren();
      ghost var T := Bounds(M);
      assert forall k :: 0 <= k < |children| ==> children[k].model == T.children[k];
      assert T.rendered == UnionUpTo(LRect(pos, size), T.children, |T.children|);
      StoreBounds(T);
    }

    /** Line 117 once the children are done: `rendered` becomes the
        declared rectangle unioned with each child's `rendered`, which
        `T` has already. */
    method StoreBounds(ghost T: Tree<ShaderBounds?>)
      requires Shape() && |T.children| == |children|
      requires T.id == this && T.pos == pos && T.size == size && T.drawable == drawable && T.partial == partial
      requires forall k :: 0 <= k < |children| ==> children[k].model == T.children[k]
      requires T.rendered == UnionUpTo(LRect(pos, size), T.children, |T.children|)
      modifies this`rendered, this`model
      ensures Valid() && model == T
    {
      var u := UnionChildren(LRect(pos, size), T.children);
      rendered, model := u, T;
    }

    /** Lines 114-115: every child recomputes its bounds. */
    method BoundChildren()
      requires Valid()
      modifies Repr
      ensures Shape() && Repr == old(Repr) && children == old(children) && rendered == old(rendered)
      ensures model == old(model) && |model.children| == |children|
      ensures forall k :: 0 <= k < |children| ==> children[k].model == Bounds(model.children[k])
      decreases Repr, 0
    {
      ghost var K := model.children;
      for i := 0 to |children|
        invariant unchanged(this)
        invariant forall k :: 0 <= k < |children| ==> children[k].Repr == old(children[k].Repr) && children[k].Valid()
        invariant forall k :: 0 <= k < i ==> children[k].model == Bounds(K[k])
        invariant forall k :: i <= k < |children| ==> children[k].model == K[k]
      {
        children[i].CalculateChildBounds();
      }
    }

    /** Line 117: `start` unioned with each child's `rendered`, in order. */
    method UnionChildren(start: LRect, ghost B: seq<Tree<ShaderBounds?>>) returns (u: LRect)
      requires Shape() && |B| == |children|
      requires forall k :: 0 <= k < |children| ==> children[k].model == B[k]
      ensures u == UnionUpTo(start, B, |B|)
    {
      u := start;
      for i := 0 to |children|
        invariant u == UnionUpTo(start, B, i)
      {
        assert children[i].Valid() && children[i].Linked();
        u := Union(u, children[i].rendered);
      }
    }

    /** `add_child`: the child goes last and the bounds are recomputed. */
    method AddChild(c: ShaderBounds)
      requires Valid() && c.Valid() && c.Repr !! Repr
      modifies Repr, c.Repr
      ensures Valid() && Repr == old(Repr) + old(c.Repr)
      ensures model == AddChildSpec(old(model), old(c.model))
    {
      assert c in c.Repr;
      children := children + [c];
      Repr := Repr + c.Repr;
      model := model.(children := model.children + [c.model]);
      CalculateChildBounds();
    }

    /** `remove_child`: `NotAChild` when `c` is not a child, and nothing
        changes; otherwise `c` is taken out and the bounds are recomputed. */
    method RemoveChild(c: ShaderBounds) returns (r: Result<(), ShaderError>)
      requires Valid()
      modifies Repr
      ensures Valid()
      ensures c !in old(children) ==> r == Err(NotAChild) && model == old(model)
      ensures c in old(children) ==>
        r.Ok? && Repr == old(Repr) - old(c.Repr) &&
        exists i :: 0 <= i < |old(children)| && i < |old(model.children)| && old(children)[i] == c &&
          model == RemoveChildSpec(old(model), i)
    {
      var i := 0;
      while i < |children| && children[i] != c
        invariant 0 <= i <= |children|
        invariant c !in children[..i]
      {
        i := i + 1;
      }
      if i == |children| {
        assert children[..i] == children;
        return Err(NotAChild);
      }
      Detach(i);
      CalculateChildBounds();
      r := Ok(());
    }

    /** Line 107 once `c` is found at `i`: the child leaves the list and
        its nodes leave the footprint. */
    method Detach(i: nat)
      requires Valid() && i < |children|
      modifies this
      ensures Valid()
      ensures children == old(children[..i] + children[i + 1..])
      ensures Repr == old(Repr) - old(children[i].Repr)
      ensures i < old(|model.children|) && model == old(model.(children := model.children[..i] + model.children[i + 1..]))
    {
      assert Linked();
      var c := children[i];
      ghost var kids := children;
      assert forall j :: 0 <= j < |kids| && j != i ==> kids[j].Repr !! c.Repr && kids[j].Valid();
      Repr := Repr - c.Repr;
      children := children[..i] + children[i + 1..];
      model := model.(children := model.children[..i] + model.children[i + 1..]);
      forall j | 0 <= j < |children|
        ensures children[j] in Repr && children[j] != this && children[j].Repr <= Repr
        ensures this !in children[j].Repr && children[j].Valid()
      {
        var k := if j < i then j else j + 1;
        assert children[j] == kids[k] && k != i;
        assert kids[k] in kids[k].Repr by {
          assert kids[k].Shape();
        }
      }
      assert Shape();
    }

    /** `check_reshade(point)`: the pairs stand for the lines
        `Reshade(model, point)` lists. */
    method CheckReshade(point: (real, real)) returns (r: seq<(ShaderBounds, Option<seq<LRect>>)>)
      requires Valid()
      ensures Reports(r, Reshade(model, point))
      decreases Repr, 1
    {
      if IsZero(rendered) {
        return [];
      }
      assert Linked();
      if drawable && !partial {
        if CollidesWith(rendered, point) {
          var ds := GetDrawableChildren();
          var full := seq(|ds|, k requires 0 <= k < |ds| => (ds[k], None));
          ReportsConcat([(this, None)], [Entry(model, None)], full, FullEntries(Drawables(model)));
          r := [(this, None)] + full;
          assert Reshade(model, point) == [Entry(model, None)] + FullEntries(Drawables(model));
        } else {
          r := [];
          assert Reshade(model, point) == [];
        }
      } else if CollidesWith(rendered, point) {
        var below, regions := ReshadeChildren(point);
        ghost var es := ReshadeOf(model.children, |model.children|, point);
        if drawable && |regions| > 0 {
          ReportsConcat([(this, Some(regions))], [Entry(model, Some(regions))], below, es);
          r := [(this, Some(regions))] + below;
          assert Reshade(model, point) == [Entry(model, Some(regions))] + es;
        } else {
          r := below;
          assert Reshade(model, point) == es;
        }
      } else {
        r := [];
        assert Reshade(model, point) == [];
      }
    }

    /** Lines 64-81: each child's pairs in turn, and, for a drawable node,
        the regions they add up to. */
    method ReshadeChildren(point: (real, real)) returns (below: seq<(ShaderBounds, Option<seq<LRect>>)>,
                                                         regions: seq<LRect>)
      requires Valid()
      ensures Reports(below, ReshadeOf(model.children, |model.children|, point))
      ensures regions == if drawable then Contributions(ReshadeOf(model.children, |model.children|, point)) else []
      decreases Repr, 0
    {
      ghost var K := model.children;
      below, regions := [], [];
      for i := 0 to |children|
        invariant Reports(below, ReshadeOf(K, i, point))
        invariant regions == if drawable then Contributions(ReshadeOf(K, i, point)) else []
      {
        var x := children[i];
        assert x.Valid() && x.model == K[i];
        assert ReshadeOf(K, i + 1, point) == ReshadeOf(K, i, point) + Reshade(K[i], point);
        below, regions := Gather(drawable, x, point, below, regions, ReshadeOf(K, i, point), Reshade(K[i], point));
      }
    }
  }

  /** One pass of the loop on lines 64-81: the child `x` is asked, its
      pairs join `below` and, for a drawable parent, the regions they add
      join `regions`. */
  method Gather(drawable: bool, x: ShaderBounds, point: (real, real),
                below: seq<(ShaderBounds, Option<seq<LRect>>)>, regions: seq<LRect>,
                ghost before: seq<Entry<ShaderBounds?>>, ghost es: seq<Entry<ShaderBounds?>>)
    returns (below': seq<(ShaderBounds, Option<seq<LRect>>)>, regions': seq<LRect>)
    requires x.Valid() && es == Reshade(x.model, point)
    requires Reports(below, before) && regions == if drawable then Contributions(before) else []
    ensures Reports(below', before + es)
    ensures regions' == if drawable then Contributions(before + es) else []
    decreases x.Repr, 2
  {
    var sub := x.CheckReshade(point);
    regions' := regions;
    if |sub| != 0 && drawable {
      regions' := AddRegions(regions, sub, es);
    }
    ContributionsConcat(before, es);
    ReportsConcat(below, before, sub, es);
    below' := below + sub;
  }
}
