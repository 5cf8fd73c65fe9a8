/** The layout objects themselves: `LayoutObject`, `LayoutSimple` and
    `LayoutSequence` as one class whose `kind` says which of the three it
    is. The methods update the fields in place, as the source does, and
    each is proved to leave the tree in the state the matching function of
    LayoutSpec computes from the tree before the call. */
module Layout {
  import opened Wrappers
  import opened Utils
  import opened Units
  import opened Alignment
  import opened LayoutSpec

  /** The nodes under a list of children. */
  ghost function Footprint(kids: seq<LayoutNode>): (r: set<object>)
    ensures forall i :: 0 <= i < |kids| ==> kids[i].Repr <= r
    ensures forall o :: o in r ==> exists i :: 0 <= i < |kids| && o in kids[i].Repr
  {
    if kids == [] then {} else Footprint(kids[..|kids| - 1]) + kids[|kids| - 1].Repr
  }

  /** The nodes at positions `idx` of `nodes`, in the order of `idx`. */
  ghost function Select(nodes: seq<LayoutNode>, idx: seq<nat>): (r: seq<LayoutNode>)
    requires forall m :: 0 <= m < |idx| ==> idx[m] < |nodes|
    ensures |r| == |idx| && forall m :: 0 <= m < |idx| ==> r[m] == nodes[idx[m]]
  {
    if idx == [] then [] else Select(nodes, idx[..|idx| - 1]) + [nodes[idx[|idx| - 1]]]
  }

  class LayoutNode {
    /** Wanted dimensions. */
    const dim: LUnit2
    /** Base object, simple leaf or sequence (with its axes and alignments). */
    const kind: Kind
    /** A sequence's children, in order; empty for the other kinds. */
    const children: seq<LayoutNode>
    /** Rendered position. */
    var pos: Vec
    /** Rendered size. */
    var rendered: Vec
    /** Preferred minimum size per axis. */
    var preferred: Pref

    /** This node and every node below it. */
    ghost const Repr: set<object>

    /** The tree shape: the children's footprints lie inside this one's,
        do not contain this node and do not overlap, so that no node is
        reachable twice. It reads only constant fields, so no update
        changes it. */
    ghost predicate Valid()
      decreases Repr
    {
      this in Repr &&
      (kind.Sequence? || children == []) &&
      (forall i :: 0 <= i < |children| ==>
        children[i] in Repr && children[i].Repr <= Repr && this !in children[i].Repr && children[i].Valid()) &&
      (forall i, j :: 0 <= i < |children| && 0 <= j < |children| && i != j ==> children[i].Repr !! children[j].Repr)
    }

    /** The tree this object stands for. */
    ghost function Model(): (r: Node)
      requires Valid()
      reads Repr
      ensures r.dim == dim && r.pos == pos && r.rendered == rendered && r.preferred == preferred && r.kind == kind
      ensures r.children == Kids()
      decreases Repr, 1
    {
      Node(dim, pos, rendered, preferred, kind, Kids())
    }

    ghost function Kids(): (r: seq<Node>)
      requires Valid()
      reads Repr - {this}
      ensures |r| == |children|
      decreases Repr, 0
    {
      seq(|children|, i requires 0 <= i < |children| reads Repr - {this} => children[i].Model())
    }

    /** `LayoutObject()`: zero pixels everywhere, no preference. */
    constructor Object()
      ensures Valid() && fresh(Repr)
      ensures Model() == NewObject()
    {
      dim := Zero;
      kind := Kind.Object;
      children := [];
      pos := (0.0, 0.0);
      rendered := (0.0, 0.0);
      preferred := (None, None);
      Repr := {this};
    }

    /** `LayoutSimple(size, preferred)`. */
    constructor Simple(size: LUnit2, pref: Pref)
      ensures Valid() && fresh(Repr)
      ensures Model() == Node(size, (0.0, 0.0), (0.0, 0.0), pref, Kind.Simple, [])
    {
      dim := size;
      kind := Kind.Simple;
      children := [];
      pos := (0.0, 0.0);
      rendered := (0.0, 0.0);
      preferred := pref;
      Repr := {this};
    }

    /** `LayoutSequence(size, main_axis=…, cross_axis=…, …, children=…)`:
        the axes must be "x" and "y" in some order. The base constructor's
        assignment of the zero position goes through the `pos` setter,
        which moves every child by the zero position minus the zero
        position, that is, not at all. */
    constructor Sequence(size: LUnit2, mainAxis: string, crossAxis: string,
                         ma: MainAlign, ca: CrossAlign, kids: seq<LayoutNode>)
      requires AxisPair(mainAxis, crossAxis).Some?
      requires forall i :: 0 <= i < |kids| ==> kids[i].Valid()
      requires forall i, j :: 0 <= i < |kids| && 0 <= j < |kids| && i != j ==> kids[i].Repr !! kids[j].Repr
      ensures Valid()
      ensures fresh(Repr - Footprint(kids))
      ensures dim == size && pos == (0.0, 0.0) && rendered == (0.0, 0.0) && preferred == (None, None)
      ensures kind == Kind.Sequence(AxisPair(mainAxis, crossAxis).value, ma, ca)
      ensures children == kids
    {
      dim := size;
      kind := Kind.Sequence(AxisPair(mainAxis, crossAxis).value, ma, ca);
      children := kids;
      pos := (0.0, 0.0);
      rendered := (0.0, 0.0);
      preferred := (None, None);
      Repr := {this} + Footprint(kids);
      new;
      assert forall i :: 0 <= i < |kids| ==> kids[i] in kids[i].Repr;
    }

    /** The `pos` setter: a sequence first moves every child so that it
        keeps its place relative to the sequence, then stores the new
        position; other nodes just store it. */
    method SetPos(p: Vec)
      requires Valid()
      modifies Repr
      ensures Model() == SetPosSpec(old(Model()), p)
      decreases Repr
    {
      if kind.Sequence? {
        ghost var K := Kids();
        for i := 0 to |children|
          invariant unchanged(this)
          invariant forall k :: 0 <= k < |children| ==>
            children[k].Model() == if k < i then SetPosSpec(K[k], Plus(p, Minus(K[k].pos, pos))) else K[k]
        {
          children[i].SetPos(Plus(p, Minus(children[i].pos, pos)));
        }
        pos := p;
        assert Kids() == SetPosSpec(old(Model()), p).children;
      } else {
        pos := p;
      }
    }

    /** Assigning `rendered` directly, as the clamping step of a sequence
        does to a child. */
    method SetRendered(r: Vec)
      requires Valid()
      modifies this
      ensures Model() == old(Model()).(rendered := r)
    {
      rendered := r;
    }

    /** `prefer`: nothing for a base object; `LayoutSimple.prefer` for a
        leaf; for a sequence, every child prefers first and their
        preferences are summed along the main axis and maximised across
        it. */
    method Prefer()
      requires Valid()
      modifies Repr
      ensures Model() == PreferSpec(old(Model()))
      decreases Repr, 2
    {
      match kind
      case Object =>
      case Simple =>
        if dim.x.unit == Px {
          preferred := (Some(Max(dim.x.val, Float0(preferred.0))), Some(Float0(preferred.1)));
        }
        if dim.y.unit == Px {
          preferred := (Some(Float0(preferred.0)), Some(Max(dim.y.val, Float0(preferred.1))));
        }
      case Sequence(ax, _, _) =>
        PreferSequence(ax);
    }

    method PreferSequence(ax: Axis)
      requires Valid() && kind.Sequence? && kind.main == ax
      modifies Repr
      ensures Model() == PreferSpec(old(Model()))
      decreases Repr, 1
    {
      ghost var K := Kids();
      var totalMain, totalCross := PreferChildren(ax);
      ghost var P := Kids();
      preferred := PrefWith(PrefWith((None, None), ax, Some(totalMain)), Other(ax), Some(totalCross));
      if Along(dim, ax).unit == Px {
        preferred := PrefWith(preferred, ax, Some(Along(dim, ax).val));
      }
      if Along(dim, Other(ax)).unit == Px {
        preferred := PrefWith(preferred, Other(ax), Some(Along(dim, Other(ax)).val));
      }
      assert preferred == SequencePrefer(dim, ax, P);
      assert Kids() == P == PreferAll(K);
      assert old(Model()).children == K;
    }

    /** The loop of `LayoutSequence.prefer`: every child prefers, and the
        running main-axis sum and cross-axis maximum of their preferences
        are kept. */
    method PreferChildren(ax: Axis) returns (totalMain: real, totalCross: real)
      requires Valid() && kind.Sequence?
      modifies Repr - {this}
      ensures Kids() == PreferAll(old(Kids()))
      ensures totalMain == MainSum(Kids(), ax, |children|)
      ensures totalCross == CrossMax(Kids(), ax, |children|)
      decreases Repr, 0
    {
      ghost var K := Kids();
      ghost var P := PreferAll(K);
      totalMain := 0.0;
      totalCross := 0.0;
      for i := 0 to |children|
        invariant forall k :: 0 <= k < i ==> children[k].Model() == P[k]
        invariant forall k :: i <= k < |children| ==> children[k].Model() == K[k]
        invariant totalMain == MainSum(P, ax, i)
        invariant totalCross == CrossMax(P, ax, i)
      {
        children[i].Prefer();
        assert children[i].Model() == P[i];
        totalMain := totalMain + Float0(PrefAlong(children[i].preferred, ax));
        totalCross := Max(totalCross, Float0(PrefAlong(children[i].preferred, Other(ax))));
      }
      assert Kids() == P;
    }

    /** `render`: a base or leaf node resolves its size against the space
        and takes the offset as its position; a sequence lays out its
        children. */
    method Render(space: Vec, vp: LUnit2, off: Vec)
      requires Valid()
      modifies Repr
      ensures Model() == RenderSpec(old(Model()), space, vp, off)
      decreases Repr, 7
    {
      match kind
      case Sequence(ax, ma, ca) =>
        RenderSequence(ax, ma, ca, space, vp, off);
      case _ =>
        rendered := Resolve(dim, space, vp);
        pos := off;
    }

    /** `LayoutSequence.render`: resolve the own size, run the fixed pass
        and both flex rounds over the children, then align them. The
        sequence's own position is left as it was. */
    method RenderSequence(ax: Axis, ma: MainAlign, ca: CrossAlign, space: Vec, vp: LUnit2, off: Vec)
      requires Valid() && kind == Kind.Sequence(ax, ma, ca)
      modifies Repr
      ensures Model() == RenderSequenceSpec(old(Model()), ax, ma, ca, space, vp, off)
      decreases Repr, 6
    {
      rendered := Resolve(dim, space, vp);
      var own := rendered;
      ghost var K := Kids();
      var total := FixedPass(ax, own, vp, off, K);
      FlexRounds(ax, own, vp, off, K, total);
      AlignPass(ax, ma, ca, own, off);
      assert old(Model()).children == K;
    }

    /** The first loop of `render`: every child with a pixel, percent or
        viewport size along the main axis is rendered against the own
        size, clamped to what is left of the main size, and added to the
        running total, which never exceeds the main size. */
    method FixedPass(ax: Axis, own: Vec, vp: LUnit2, off: Vec, ghost K: seq<Node>) returns (total: real)
      requires Valid() && K == Kids()
      modifies Repr - {this}
      ensures forall k :: 0 <= k < |children| ==> children[k].Model() == FixedDone(K, k, ax, own, vp, off)
      ensures total == FixedTotal(K, |K|, ax, own, vp)
      decreases Repr, 3
    {
      total := 0.0;
      assert FixedUpTo(ax, own, vp, off, K, 0);
      for i := 0 to |children|
        invariant FixedUpTo(ax, own, vp, off, K, i)
        invariant total == FixedTotal(K, i, ax, own, vp)
      {
        total := FixedStep(ax, own, vp, off, K, i, total);
      }
    }

    /** The fixed pass has reached the first `i` children; the others are
        untouched. */
    ghost predicate FixedUpTo(ax: Axis, own: Vec, vp: LUnit2, off: Vec, K: seq<Node>, i: nat)
      requires Valid() && |K| == |children|
      reads Repr
    {
      forall k :: 0 <= k < |children| ==>
        children[k].Model() == if k < i then FixedDone(K, k, ax, own, vp, off) else K[k]
    }

    /** One child of the fixed pass. */
    method FixedStep(ax: Axis, own: Vec, vp: LUnit2, off: Vec, ghost K: seq<Node>, i: nat, total: real)
      returns (total': real)
      requires Valid() && i < |children| && |K| == |children|
      requires FixedUpTo(ax, own, vp, off, K, i)
      requires total == FixedTotal(K, i, ax, own, vp)
      modifies children[i].Repr
      ensures FixedUpTo(ax, own, vp, off, K, i + 1)
      ensures total' == FixedTotal(K, i + 1, ax, own, vp)
      decreases Repr, 2
    {
      total' := FixedRender(ax, own, vp, off, K, i, total);
    }

    /** The work of the fixed pass on the `i`-th child. */
    method FixedRender(ax: Axis, own: Vec, vp: LUnit2, off: Vec, ghost K: seq<Node>, i: nat, total: real)
      returns (total': real)
      requires Valid() && i < |children| && |K| == |children| && children[i].Model() == K[i]
      requires total == FixedTotal(K, i, ax, own, vp)
      modifies children[i].Repr
      ensures children[i].Model() == FixedDone(K, i, ax, own, vp, off)
      ensures total' == FixedTotal(K, i + 1, ax, own, vp)
      decreases Repr, 1
    {
      var main := Get(own, ax);
      total' := total;
      var c := children[i];
      var u := Along(c.dim, ax).unit;
      if u == Px || u == Percent || u == Vh || u == Vw {
        c.Render(own, vp, off);
        if total + Get(c.rendered, ax) > main {
          c.SetRendered(With(c.rendered, ax, main - total));
        }
        total' := Min(total + Get(c.rendered, ax), main);
      }
    }

    /** The flex rounds of `render`: sum the flex weights; with a non-zero
        weight, round 1 pins the children whose preference exceeds their
        share; when weight is left, round 2 gives each remaining flex
        child its share of the space left. */
    method FlexRounds(ax: Axis, own: Vec, vp: LUnit2, off: Vec, ghost K: seq<Node>, total: real)
      requires Valid() && |K| == |children|
      requires forall k :: 0 <= k < |children| ==> children[k].Model() == FixedDone(K, k, ax, own, vp, off)
      requires total == FixedTotal(K, |K|, ax, own, vp)
      modifies Repr - {this}
      ensures Kids() == Acted(K, ax, own, vp, off)
      decreases Repr, 5
    {
      var flexCount := FlexWeight(ax, K);
      var flexSpaceLeft := Get(own, ax) - total;
      if flexCount != 0.0 {
        WeightedRounds(ax, own, vp, off, K, flexCount, flexSpaceLeft);
      } else {
        assert forall k :: 0 <= k < |children| ==> children[k].Model() == RoundsDone(K, k, ax, own, vp, off);
      }
      PassesActAll(K, ax, own, vp, off, Kids());
    }

    /** The two flex rounds, run when the flex weight is not zero. */
    method WeightedRounds(ax: Axis, own: Vec, vp: LUnit2, off: Vec, ghost K: seq<Node>, weight: real, spaceLeft: real)
      requires Valid() && |K| == |children|
      requires forall k :: 0 <= k < |children| ==> children[k].Model() == FixedDone(K, k, ax, own, vp, off)
      requires weight == Weight(K, |K|, ax) && weight != 0.0
      requires spaceLeft == Get(own, ax) - FixedTotal(K, |K|, ax, own, vp)
      modifies Repr - {this}
      ensures forall k :: 0 <= k < |children| ==> children[k].Model() == RoundsDone(K, k, ax, own, vp, off)
      decreases Repr, 4
    {
      ghost var b := Plan(K, ax, own, vp);
      var flexUnit := spaceLeft / weight;
      PlanPools(K, ax, own, vp);
      assert flexUnit == b.unit;
      var flexCount, flexSpaceLeft, extensible, idx := PinRound(ax, own, vp, off, K, flexUnit, weight, spaceLeft);
      assert flexCount == b.count && flexSpaceLeft == b.left;
      SecondRound(ax, own, vp, off, K, flexUnit, flexCount, flexSpaceLeft, extensible, idx);
      assert forall k :: 0 <= k < |K| ==>
        RoundsDone(K, k, ax, own, vp, off)
        == (if flexCount > 0.0 then ExtendDone(K, k, ax, own, vp, off, flexUnit, flexSpaceLeft / flexCount)
            else PinDone(K, k, ax, own, vp, off, flexUnit));
    }

    /** Round 2 runs only when weight is left after round 1. */
    method SecondRound(ax: Axis, own: Vec, vp: LUnit2, off: Vec, ghost K: seq<Node>, flexUnit: real,
                       flexCount: real, flexSpaceLeft: real, extensible: seq<LayoutNode>, ghost idx: seq<nat>)
      requires Valid() && |K| == |children|
      requires forall k :: 0 <= k < |children| ==> children[k].Model() == PinDone(K, k, ax, own, vp, off, flexUnit)
      requires idx == Extensible(K, |K|, ax, flexUnit) && extensible == Select(children, idx)
      modifies Repr - {this}
      ensures forall k :: 0 <= k < |children| ==>
        children[k].Model()
        == (if flexCount > 0.0 then ExtendDone(K, k, ax, own, vp, off, flexUnit, flexSpaceLeft / flexCount)
            else PinDone(K, k, ax, own, vp, off, flexUnit))
      decreases Repr, 3
    {
      if flexCount > 0.0 {
        assert ExtendedAt(ax, own, vp, off, K, flexUnit, flexSpaceLeft / flexCount, {});
        ExtendRound(ax, own, vp, off, K, extensible, idx, flexUnit, flexSpaceLeft / flexCount);
      }
    }

    /** The loop summing the flex weights of the children. */
    method FlexWeight(ax: Axis, ghost K: seq<Node>) returns (flexCount: real)
      requires Valid() && |K| == |children|
      requires forall k :: 0 <= k < |children| ==> children[k].dim == K[k].dim
      ensures flexCount == Weight(K, |K|, ax)
    {
      flexCount := 0.0;
      for i := 0 to |children|
        invariant flexCount == Weight(K, i, ax)
      {
        var x := Along(children[i].dim, ax);
        if x.unit == F {
          flexCount := flexCount + x.val;
        }
      }
    }

    /** Round 1: a flex child whose preference exceeds `flexUnit` times its
        weight is rendered at its preference, and its weight and size
        leave the pool; the others are collected, in order, as
        extensible. */
    method PinRound(ax: Axis, own: Vec, vp: LUnit2, off: Vec, ghost K: seq<Node>,
                    flexUnit: real, weight: real, spaceLeft: real)
      returns (flexCount: real, flexSpaceLeft: real, extensible: seq<LayoutNode>, ghost idx: seq<nat>)
      requires Valid() && |K| == |children|
      requires forall k :: 0 <= k < |children| ==> children[k].Model() == FixedDone(K, k, ax, own, vp, off)
      modifies Repr - {this}
      ensures forall k :: 0 <= k < |children| ==> children[k].Model() == PinDone(K, k, ax, own, vp, off, flexUnit)
      ensures flexCount == weight - PinnedWeight(K, |K|, ax, flexUnit)
      ensures flexSpaceLeft == spaceLeft - PinnedSize(K, |K|, ax, flexUnit)
      ensures idx == Extensible(K, |K|, ax, flexUnit)
      ensures extensible == Select(children, idx)
      decreases Repr, 2
    {
      flexCount, flexSpaceLeft := weight, spaceLeft;
      extensible, idx := [], [];
      for i := 0 to |children|
        invariant PinnedUpTo(ax, own, vp, off, K, flexUnit, i)
        invariant flexCount == weight - PinnedWeight(K, i, ax, flexUnit)
        invariant flexSpaceLeft == spaceLeft - PinnedSize(K, i, ax, flexUnit)
        invariant idx == Extensible(K, i, ax, flexUnit)
        invariant extensible == Select(children, idx)
      {
        var extend;
        flexCount, flexSpaceLeft, extend := PinStep(ax, own, vp, off, K, i, flexUnit, weight, spaceLeft, flexCount, flexSpaceLeft);
        extensible, idx := Collect(ax, K, flexUnit, i, extend, extensible, idx);
      }
    }

    /** Round 1 has reached the first `i` children; the others are as the
        fixed pass left them. */
    ghost predicate PinnedUpTo(ax: Axis, own: Vec, vp: LUnit2, off: Vec, K: seq<Node>, unit: real, i: nat)
      requires Valid() && |K| == |children|
      reads Repr
    {
      forall k :: 0 <= k < |children| ==>
        children[k].Model() == if k < i then PinDone(K, k, ax, own, vp, off, unit) else FixedDone(K, k, ax, own, vp, off)
    }

    /** `extensible_objects.append(x)` for a child round 1 left
        extensible. */
    method Collect(ax: Axis, ghost K: seq<Node>, ghost flexUnit: real, i: nat, extend: bool,
                   extensible: seq<LayoutNode>, ghost idx: seq<nat>)
      returns (extensible': seq<LayoutNode>, ghost idx': seq<nat>)
      requires |K| == |children| && i < |children|
      requires idx == Extensible(K, i, ax, flexUnit) && extensible == Select(children, idx)
      requires Extensible(K, i + 1, ax, flexUnit) == Extensible(K, i, ax, flexUnit) + if extend then [i] else []
      ensures idx' == Extensible(K, i + 1, ax, flexUnit) && extensible' == Select(children, idx')
    {
      extensible', idx' := extensible, idx;
      if extend {
        assert (idx + [i])[..|idx|] == idx;
        extensible', idx' := extensible + [children[i]], idx + [i];
      }
    }

    /** One child of round 1, as the fixed pass left it; `extend` says
        the child is a flex child left for round 2. */
    method PinStep(ax: Axis, own: Vec, vp: LUnit2, off: Vec, ghost K: seq<Node>, i: nat,
                   flexUnit: real, ghost weight: real, ghost spaceLeft: real, flexCount: real, flexSpaceLeft: real)
      returns (flexCount': real, flexSpaceLeft': real, extend: bool)
      requires Valid() && |K| == |children| && i < |children|
      requires PinnedUpTo(ax, own, vp, off, K, flexUnit, i)
      requires flexCount == weight - PinnedWeight(K, i, ax, flexUnit)
      requires flexSpaceLeft == spaceLeft - PinnedSize(K, i, ax, flexUnit)
      modifies children[i].Repr
      ensures PinnedUpTo(ax, own, vp, off, K, flexUnit, i + 1)
      ensures flexCount' == weight - PinnedWeight(K, i + 1, ax, flexUnit)
      ensures flexSpaceLeft' == spaceLeft - PinnedSize(K, i + 1, ax, flexUnit)
      ensures Extensible(K, i + 1, ax, flexUnit) == Extensible(K, i, ax, flexUnit) + if extend then [i] else []
      decreases Repr, 1
    {
      PinDoneStep(K, i, ax, own, vp, off, flexUnit);
      ghost var C := FixedDone(K, i, ax, own, vp, off);
      var pinned;
      pinned, extend := PinRender(ax, own, vp, off, C, i, flexUnit);
      flexCount', flexSpaceLeft' := flexCount, flexSpaceLeft;
      if pinned {
        flexCount' := flexCount - Along(children[i].dim, ax).val;
        flexSpaceLeft' := flexSpaceLeft - Float0(PrefAlong(children[i].preferred, ax));
      }
    }

    /** Round 1's decision on one child whose current tree is `C`: a flex
        child whose preference exceeds `flexUnit` times its weight is
        rendered at its preference. */
    method PinRender(ax: Axis, own: Vec, vp: LUnit2, off: Vec, ghost C: Node, i: nat, flexUnit: real)
      returns (pinned: bool, extend: bool)
      requires Valid() && i < |children| && children[i].Model() == C
      modifies children[i].Repr
      ensures pinned == PinnedAt(C, ax, flexUnit)
      ensures children[i].Model()
           == if pinned then RenderSpec(C, With(own, ax, Float0(PrefAlong(C.preferred, ax))), vp, off) else C
      ensures extend <==> IsFlex(C, ax) && !pinned
      decreases Repr, 0
    {
      pinned, extend := false, false;
      var c := children[i];
      var x := Along(c.dim, ax);
      if x.unit == F {
        var pref := Float0(PrefAlong(c.preferred, ax));
        pinned := pref > flexUnit * x.val;
        if pinned {
          c.Render(With(own, ax, pref), vp, off);
        } else {
          extend := true;
        }
      }
    }

    /** Round 2: every extensible child is rendered with `flexUnit` times
        its weight along the main axis. */
    method ExtendRound(ax: Axis, own: Vec, vp: LUnit2, off: Vec, ghost K: seq<Node>,
                       extensible: seq<LayoutNode>, ghost idx: seq<nat>, ghost unit: real, flexUnit: real)
      requires Valid() && |K| == |children| && |extensible| == |idx|
      requires forall p :: 0 <= p < |idx| ==>
        idx[p] < |children| && extensible[p] == children[idx[p]] && IsFlex(K[idx[p]], ax) && !PinnedAt(K[idx[p]], ax, unit)
      requires forall a, b :: 0 <= a < b < |idx| ==> idx[a] != idx[b]
      requires forall k :: 0 <= k < |children| && IsFlex(K[k], ax) && !PinnedAt(K[k], ax, unit) ==> k in idx
      requires ExtendedAt(ax, own, vp, off, K, unit, flexUnit, {})
      modifies Repr - {this}
      ensures forall k :: 0 <= k < |children| ==> children[k].Model() == ExtendDone(K, k, ax, own, vp, off, unit, flexUnit)
      decreases Repr, 2
    {
      ghost var done: set<nat> := {};
      for m := 0 to |extensible|
        invariant forall p :: 0 <= p < m ==> idx[p] in done
        invariant forall p :: m <= p < |idx| ==> idx[p] !in done
        invariant ExtendedAt(ax, own, vp, off, K, unit, flexUnit, done)
      {
        ExtendStep(ax, own, vp, off, K, extensible[m], idx[m], unit, flexUnit, done);
        done := done + {idx[m]};
      }
      RoundTwoComplete(ax, own, vp, off, K, idx, unit, flexUnit, done);
    }

    /** Round 2 has rendered the children in `done`, and only those: the
        others are as round 1 left them. An index that is not extensible
        ends the same either way. */
    ghost predicate ExtendedAt(ax: Axis, own: Vec, vp: LUnit2, off: Vec, K: seq<Node>, unit: real, flexUnit: real,
                               done: set<nat>)
      requires Valid() && |K| == |children|
      reads Repr
    {
      forall k :: 0 <= k < |children| ==>
        children[k].Model() == if k in done then ExtendDone(K, k, ax, own, vp, off, unit, flexUnit)
                               else PinDone(K, k, ax, own, vp, off, unit)
    }

    /** Once every extensible index is done, every index is. */
    lemma RoundTwoComplete(ax: Axis, own: Vec, vp: LUnit2, off: Vec, K: seq<Node>, idx: seq<nat>,
                           unit: real, flexUnit: real, done: set<nat>)
      requires Valid() && |K| == |children|
      requires forall k :: 0 <= k < |children| && IsFlex(K[k], ax) && !PinnedAt(K[k], ax, unit) ==> k in idx
      requires forall p :: 0 <= p < |idx| ==> idx[p] in done
      requires ExtendedAt(ax, own, vp, off, K, unit, flexUnit, done)
      ensures forall k :: 0 <= k < |children| ==> children[k].Model() == ExtendDone(K, k, ax, own, vp, off, unit, flexUnit)
    {
      forall k | 0 <= k < |children| && k !in done
        ensures ExtendDone(K, k, ax, own, vp, off, unit, flexUnit) == PinDone(K, k, ax, own, vp, off, unit)
      {
        assert k !in idx;
      }
    }

    /** One extensible child `x`, the `j`-th child, of round 2. */
    method ExtendStep(ax: Axis, own: Vec, vp: LUnit2, off: Vec, ghost K: seq<Node>,
                      x: LayoutNode, ghost j: nat, ghost unit: real, flexUnit: real, ghost done: set<nat>)
      requires Valid() && |K| == |children| && j < |children| && x == children[j] && j !in done
      requires IsFlex(K[j], ax) && !PinnedAt(K[j], ax, unit)
      requires ExtendedAt(ax, own, vp, off, K, unit, flexUnit, done)
      modifies x.Repr
      ensures ExtendedAt(ax, own, vp, off, K, unit, flexUnit, done + {j})
      decreases Repr, 1
    {
      ExtendDoneAt(K, j, ax, own, vp, off, unit, flexUnit);
      assert x.Model() == K[j];
      x.Render(With(own, ax, Share(flexUnit, x.dim, ax)), vp, off);
    }

    /** The alignment step of `render`: the main offsets come from aligning
        every child's main size in the own main size, each cross offset
        from aligning the child alone across it; each child is moved
        through the `pos` setter to its position plus the offset plus
        those alignment offsets. */
    method AlignPass(ax: Axis, ma: MainAlign, ca: CrossAlign, own: Vec, off: Vec)
      requires Valid()
      modifies Repr - {this}
      ensures Kids() == Positioned(old(Kids()), ax, ma, ca, own, off)
      decreases Repr, 3
    {
      ghost var A := Kids();
      var sizes := seq(|children|, i requires 0 <= i < |children| reads children => Get(children[i].rendered, ax));
      assert sizes == MainSizes(A, ax);
      var offsets := AlignWith(ma, Get(own, ax), sizes);
      assert AlignedUpTo(ax, ma, ca, own, off, A, 0);
      for i := 0 to |children|
        invariant AlignedUpTo(ax, ma, ca, own, off, A, i)
      {
        AlignStep(ax, ma, ca, own, off, A, i, offsets[i]);
      }
      assert Kids() == Positioned(A, ax, ma, ca, own, off);
    }

    /** The alignment step has moved the first `i` children; the others
        are as the flex rounds left them. */
    ghost predicate AlignedUpTo(ax: Axis, ma: MainAlign, ca: CrossAlign, own: Vec, off: Vec, A: seq<Node>, i: nat)
      requires Valid() && |A| == |children|
      reads Repr
    {
      forall k :: 0 <= k < |children| ==>
        children[k].Model() == if k < i then Positioned(A, ax, ma, ca, own, off)[k] else A[k]
    }

    /** One child of the alignment step, given its main offset. */
    method AlignStep(ax: Axis, ma: MainAlign, ca: CrossAlign, own: Vec, off: Vec, ghost A: seq<Node>, i: nat,
                     mainOff: real)
      requires Valid() && i < |children| && |A| == |children|
      requires mainOff == Align(ma, Get(own, ax), MainSizes(A, ax))[i]
      requires AlignedUpTo(ax, ma, ca, own, off, A, i)
      modifies children[i].Repr
      ensures AlignedUpTo(ax, ma, ca, own, off, A, i + 1)
      decreases Repr, 2
    {
      AlignMove(ax, ca, own, off, A, i, mainOff);
    }

    /** Moving the `i`-th child to its aligned place. */
    method AlignMove(ax: Axis, ca: CrossAlign, own: Vec, off: Vec, ghost A: seq<Node>, i: nat, mainOff: real)
      requires Valid() && i < |children| && |A| == |children| && children[i].Model() == A[i]
      modifies children[i].Repr
      ensures children[i].Model()
           == SetPosSpec(A[i], Place(A[i], ax, mainOff, CrossOffset(ca, Get(own, Other(ax)), Get(A[i].rendered, Other(ax))), off))
      decreases Repr, 1
    {
      var c := children[i];
      var cross := AlignWith(CrossAsMain(ca), Get(own, Other(ax)), [Get(c.rendered, Other(ax))]);
      var p := if ax == X then (c.pos.0 + off.0 + mainOff, c.pos.1 + off.1 + cross[0])
               else (c.pos.0 + off.0 + cross[0], c.pos.1 + off.1 + mainOff);
      c.SetPos(p);
    }

    /** `calculate`: prefer, then render. */
    method Calculate(space: Vec, vp: LUnit2, off: Vec)
      requires Valid()
      modifies Repr
      ensures Model() == CalculateSpec(old(Model()), space, vp, off)
    {
      Prefer();
      Render(space, vp, off);
    }

    /** `collides_with`: the point lies in the rendered rectangle. */
    method CollidesWith(point: Vec) returns (b: bool)
      requires Valid()
      ensures b == Collides(Model(), point)
    {
      b := CollidesRect(point, pos, rendered);
    }
  }
}
