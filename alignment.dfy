/** The alignment policies of `cheeze/layout_manager/alignment.py`. Each policy
    maps the total space `S` and the ordered extents `e` of the items to the
    ordered offsets of the items. In the source each is a generator that
    yields a running position and then advances it by the item's extent and
    a fixed gap; `Cascade` is that sequence as a value and `Accumulate` is
    the loop. */
module Alignment {
  import opened Wrappers

  /** `MainAxisAlignment`. */
  datatype MainAlign = Start | Center | End | SpaceAround | SpaceBetween

  /** `CrossAxisAlignment`: only three policies. */
  datatype CrossAlign = CrossStart | CrossCenter | CrossEnd

  /** `align` looks the policy up by its member name, so a cross-axis
      alignment runs the main-axis policy of the same name; the two spacing
      policies are out of its reach. */
  function CrossAsMain(c: CrossAlign): (r: MainAlign)
    ensures r != SpaceAround && r != SpaceBetween
    ensures c == CrossStart <==> r == Start
    ensures c == CrossCenter <==> r == Center
  {
    match c
    case CrossStart => Start
    case CrossCenter => Center
    case CrossEnd => End
  }

  /** `sum(spaces)`. */
  function Sum(s: seq<real>): real
  {
    if s == [] then 0.0 else s[0] + Sum(s[1..])
  }

  /** Adding one more extent at the end adds it to the sum. */
  lemma {:induction false} SumSnoc(s: seq<real>, i: nat)
    requires i < |s|
    ensures Sum(s[..i + 1]) == Sum(s[..i]) + s[i]
  {
    if i > 0 {
      assert s[..i + 1][1..] == s[1..][..i];
      assert s[..i][1..] == s[1..][..i - 1];
      SumSnoc(s[1..], i - 1);
    }
  }

  /** The positions a policy's generator yields: the first is `first`, and
      each next one is the previous one plus the previous extent plus `gap`. */
  function Cascade(first: real, gap: real, spaces: seq<real>): (r: seq<real>)
    ensures |r| == |spaces|
    decreases |spaces|
  {
    if spaces == [] then [] else [first] + Cascade(first + spaces[0] + gap, gap, spaces[1..])
  }

  /** Closed form: item `i` sits after the first offset, the `i` extents
      before it and `i` gaps. */
  lemma {:induction false} CascadeAt(first: real, gap: real, spaces: seq<real>, i: nat)
    requires i < |spaces|
    ensures Cascade(first, gap, spaces)[i] == first + Sum(spaces[..i]) + i as real * gap
    decreases i
  {
    if i > 0 {
      CascadeAt(first + spaces[0] + gap, gap, spaces[1..], i - 1);
      assert spaces[..i][1..] == spaces[1..][..i - 1];
    }
  }

  /** Consecutive positions differ by the extent in between plus the gap. */
  lemma CascadeStep(first: real, gap: real, spaces: seq<real>, i: nat)
    requires i + 1 < |spaces|
    ensures Cascade(first, gap, spaces)[i + 1] == Cascade(first, gap, spaces)[i] + spaces[i] + gap
  {
    CascadeAt(first, gap, spaces, i);
    CascadeAt(first, gap, spaces, i + 1);
    SumSnoc(spaces, i);
  }

  /** Where the last item ends: after the first offset, all the extents and
      one gap fewer than there are items. */
  lemma CascadeLastEnd(first: real, gap: real, spaces: seq<real>)
    requires |spaces| > 0
    ensures Cascade(first, gap, spaces)[|spaces| - 1] + spaces[|spaces| - 1]
         == first + Sum(spaces) + (|spaces| - 1) as real * gap
  {
    var n := |spaces|;
    CascadeAt(first, gap, spaces, n - 1);
    SumSnoc(spaces, n - 1);
    assert spaces[..n] == spaces;
  }

  /** The shape of every cascade at once: it starts at `first`, steps by
      extent plus gap, and its last item ends after all extents and one gap
      fewer than there are items. */
  lemma CascadeShape(first: real, gap: real, spaces: seq<real>)
    requires |spaces| > 0
    ensures Cascade(first, gap, spaces)[0] == first
    ensures Cascade(first, gap, spaces)[|spaces| - 1] + spaces[|spaces| - 1]
         == first + Sum(spaces) + (|spaces| - 1) as real * gap
    ensures forall i :: 0 <= i < |spaces| - 1 ==>
      Cascade(first, gap, spaces)[i + 1] == Cascade(first, gap, spaces)[i] + spaces[i] + gap
  {
    CascadeLastEnd(first, gap, spaces);
    forall i | 0 <= i < |spaces| - 1
      ensures Cascade(first, gap, spaces)[i + 1] == Cascade(first, gap, spaces)[i] + spaces[i] + gap
    {
      CascadeStep(first, gap, spaces, i);
    }
  }

  /** The five policies, `space_between` as its doc-comment promises: a
      single item is centred. */
  function Align(kind: MainAlign, space: real, spaces: seq<real>): (r: seq<real>)
    ensures |r| == |spaces|
  {
    var n := |spaces|;
    var free := space - Sum(spaces);
    match kind
    case Start => Cascade(0.0, 0.0, spaces)
    case End => Cascade(free, 0.0, spaces)
    case Center => Cascade(free / 2.0, 0.0, spaces)
    case SpaceAround => Cascade(AroundGap(space, spaces), AroundGap(space, spaces), spaces)
    case SpaceBetween =>
      if n < 1 then []
      else if n == 1 then Cascade(free / 2.0, 0.0, spaces)
      else Cascade(0.0, BetweenGap(space, spaces), spaces)
  }

  /** The gap `space_around` leaves before, between and after the items:
      the free space cut into one share more than there are items. */
  function AroundGap(space: real, spaces: seq<real>): real
  {
    (space - Sum(spaces)) / (|spaces| + 1) as real
  }

  /** The gap `space_between` leaves between two items: the free space cut
      into one share fewer than there are items. */
  function BetweenGap(space: real, spaces: seq<real>): real
    requires |spaces| > 1
  {
    (space - Sum(spaces)) / (|spaces| - 1) as real
  }

  /** `align_space_between` as written: a generator, so nothing runs until
      the first item is asked for; no items yield nothing, and a single item
      divides by zero (`None` here). */
  function SpaceBetweenAsWritten(space: real, spaces: seq<real>): Option<seq<real>>
  {
    var n := |spaces|;
    if n < 1 then Some([])
    else if n == 1 then None
    else Some(Cascade(0.0, (space - Sum(spaces)) / (n - 1) as real, spaces))
  }

  /** One item of width 20 in 100: as written `ZeroDivisionError`; the
      corrected policy places it at 40, centred. */
  lemma SpaceBetweenSingleItem()
    ensures SpaceBetweenAsWritten(100.0, [20.0]) == None
    ensures Align(SpaceBetween, 100.0, [20.0]) == [40.0]
  {
  }

  /** A single item under the corrected `space_between` is centred, as the
      doc-comment draws it: the policy agrees with `center`, and the room
      before the item equals the room after it. */
  lemma SpaceBetweenCentresOne(space: real, e: real)
    ensures Align(SpaceBetween, space, [e]) == Align(Center, space, [e])
    ensures |Align(SpaceBetween, space, [e])| == 1
    ensures Align(SpaceBetween, space, [e])[0] == space - (Align(SpaceBetween, space, [e])[0] + e)
  {
    CenterBalanced(space, [e]);
  }

  /** Away from a single item, the corrected policy is the written one. */
  lemma SpaceBetweenAgrees(space: real, spaces: seq<real>)
    requires |spaces| != 1
    ensures SpaceBetweenAsWritten(space, spaces) == Some(Align(SpaceBetween, space, spaces))
  {
  }

  /** `align_start`: the first item at 0, each next one right after the
      previous one. */
  lemma StartPacks(space: real, spaces: seq<real>)
    ensures |spaces| > 0 ==> Align(Start, space, spaces)[0] == 0.0
    ensures forall i :: 0 <= i < |spaces| - 1 ==>
      Align(Start, space, spaces)[i + 1] == Align(Start, space, spaces)[i] + spaces[i]
  {
    assert Align(Start, space, spaces) == Cascade(0.0, 0.0, spaces);
    if |spaces| > 0 {
      CascadeShape(0.0, 0.0, spaces);
    }
  }

  /** `align_end`: packed like `start`, and the last item ends exactly at
      the end of the space. */
  lemma EndFinishesAtSpace(space: real, spaces: seq<real>)
    requires |spaces| > 0
    ensures Align(End, space, spaces)[0] == space - Sum(spaces)
    ensures Align(End, space, spaces)[|spaces| - 1] + spaces[|spaces| - 1] == space
    ensures forall i :: 0 <= i < |spaces| - 1 ==>
      Align(End, space, spaces)[i + 1] == Align(End, space, spaces)[i] + spaces[i]
  {
    var first := space - Sum(spaces);
    assert Align(End, space, spaces) == Cascade(first, 0.0, spaces);
    CascadeShape(first, 0.0, spaces);
    assert (|spaces| - 1) as real * 0.0 == 0.0;
  }

  /** `align_center`: packed, with equal room before the first item and
      after the last. */
  lemma CenterBalanced(space: real, spaces: seq<real>)
    requires |spaces| > 0
    ensures Align(Center, space, spaces)[0]
         == space - (Align(Center, space, spaces)[|spaces| - 1] + spaces[|spaces| - 1])
    ensures forall i :: 0 <= i < |spaces| - 1 ==>
      Align(Center, space, spaces)[i + 1] == Align(Center, space, spaces)[i] + spaces[i]
  {
    var first := (space - Sum(spaces)) / 2.0;
    assert Align(Center, space, spaces) == Cascade(first, 0.0, spaces);
    CascadeShape(first, 0.0, spaces);
    assert (|spaces| - 1) as real * 0.0 == 0.0;
  }

  /** With `k + 2` equal gaps filling `free`, the first gap, `k` more and
      a last one add up to it. */
  lemma AroundArith(free: real, k: real, gap: real)
    requires k >= 0.0 && gap == free / (k + 2.0)
    ensures gap + k * gap == free - gap
  {
    assert (k + 2.0) * gap == free;
  }

  /** `k` equal gaps of `free / k` fill `free`. */
  lemma BetweenArith(free: real, k: real, gap: real)
    requires k > 0.0 && gap == free / k
    ensures k * gap == free
  {
  }

  /** `align_space_around`: the free space cut into n + 1 equal gaps, one
      before the first item, one between each two, one after the last. */
  lemma SpaceAroundGaps(space: real, spaces: seq<real>)
    requires |spaces| > 0
    ensures Align(SpaceAround, space, spaces)[0] == AroundGap(space, spaces)
    ensures Align(SpaceAround, space, spaces)[|spaces| - 1] + spaces[|spaces| - 1]
         == space - AroundGap(space, spaces)
    ensures forall i :: 0 <= i < |spaces| - 1 ==>
      Align(SpaceAround, space, spaces)[i + 1]
      == Align(SpaceAround, space, spaces)[i] + spaces[i] + AroundGap(space, spaces)
  {
    var n := |spaces|;
    var free := space - Sum(spaces);
    var gap := AroundGap(space, spaces);
    assert Align(SpaceAround, space, spaces) == Cascade(gap, gap, spaces);
    CascadeShape(gap, gap, spaces);
    AroundArith(free, (n - 1) as real, gap);
  }

  /** `align_space_between` with two items or more: the first item at 0,
      the last ending at the end of the space, equal gaps in between. */
  lemma SpaceBetweenSpreads(space: real, spaces: seq<real>)
    requires |spaces| >= 2
    ensures Align(SpaceBetween, space, spaces)[0] == 0.0
    ensures Align(SpaceBetween, space, spaces)[|spaces| - 1] + spaces[|spaces| - 1] == space
    ensures forall i :: 0 <= i < |spaces| - 1 ==>
      Align(SpaceBetween, space, spaces)[i + 1]
      == Align(SpaceBetween, space, spaces)[i] + spaces[i] + BetweenGap(space, spaces)
  {
    var n := |spaces|;
    var free := space - Sum(spaces);
    var gap := BetweenGap(space, spaces);
    assert Align(SpaceBetween, space, spaces) == Cascade(0.0, gap, spaces);
    CascadeShape(0.0, gap, spaces);
    BetweenArith(free, (n - 1) as real, gap);
  }

  /** The loop every policy's generator runs: yield `pos`, then advance it
      by the item's extent and the gap. */
  method Accumulate(first: real, gap: real, spaces: seq<real>) returns (offsets: seq<real>)
    ensures offsets == Cascade(first, gap, spaces)
  {
    offsets := [];
    var pos := first;
    ghost var target := Cascade(first, gap, spaces);
    for i := 0 to |spaces|
      invariant offsets == target[..i]
      invariant i < |spaces| ==> pos == target[i]
    {
      offsets := offsets + [pos];
      if i + 1 < |spaces| {
        CascadeStep(first, gap, spaces, i);
      }
      pos := pos + spaces[i] + gap;
    }
    assert target[..|spaces|] == target;
  }

  /** `align` and the five `align_*` generators: each policy computes its
      starting position and gap, then runs the shared loop. */
  method AlignWith(kind: MainAlign, space: real, spaces: seq<real>) returns (offsets: seq<real>)
    ensures offsets == Align(kind, space, spaces)
  {
    var n := |spaces|;
    var free := space - Sum(spaces);
    match kind {
      case Start =>
        offsets := Accumulate(0.0, 0.0, spaces);
      case End =>
        offsets := Accumulate(free, 0.0, spaces);
      case Center =>
        offsets := Accumulate(free / 2.0, 0.0, spaces);
      case SpaceAround =>
        var spacer := free / (n + 1) as real;
        offsets := Accumulate(spacer, spacer, spaces);
      case SpaceBetween =>
        if n < 1 {
          offsets := [];
        } else if n == 1 {
          offsets := Accumulate(free / 2.0, 0.0, spaces);
        } else {
          offsets := Accumulate(0.0, free / (n - 1) as real, spaces);
        }
    }
  }
}
