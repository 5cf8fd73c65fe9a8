# cheeze layout core in Dafny

This project models the layout manager of the cheeze GUI toolkit and proves properties about it:

- **Units** (`units.py`): the unit-tagged measure `LUnit` (pixels, percent, flex, viewport width and height). This covers its text form `"<num> <suffix>"`, arithmetic that checks units, and resolution to pixels against the available space and the viewport. It also covers the pair `LUnit2` and the rectangle `LRect`.
- **Alignment** (`alignment.py`): the five main-axis policies and the three cross-axis ones. Each is a generator of positions.
- **Layout objects** (`layout_object.py`, `layout_simple.py`, `layout_sequence.py`):
  - A tree of layout objects asks for preferred minimum sizes (`prefer`).
  - It lays itself out (`render`): a fixed pass, two flex rounds, then alignment.
  - A sequence's position setter drags its children along.
- **Redraw bounds** (`shader_bounds.py`): a tree of `ShaderBounds` nodes computes the box each subtree has drawn (`calculate_child_bounds`). Given a point, it lists which nodes must be redrawn, and where (`check_reshade`).
- **Helpers**: `_float0` and `_collides_rect` (`utils.py`), and the bounding-box corner of a rotated rectangle (`rotate_newleft` in `animation/rotation.py`).

Each layout object and each shader node updates its fields in place, so each is a `class`:

- `Layout.LayoutNode` holds the three layout classes, with a `kind`.
- `ShaderBounds.ShaderBounds` is the shader node.

Each class carries a ghost value model of the tree it stands for:

- `Model()` for layout nodes.
- The `model` field for shader nodes.

Its methods are proved against pure specification functions in the modules `LayoutSpec` and `ShaderSpec`. The properties the toolkit promises are lemmas on those functions:

- When the sequence has flex children and some flex weight is left after round 1, the children's main sizes add up exactly to the sequence's main size (`LayoutSpec.RowFilled`). A row of fixed children only, or one whose flex children are all pinned, need not fill it.
- Pinned children get their preference.
- The bounds cover every descendant.
- Once bounds are computed and no node has zero extent, every node drawn in full that the point hits is redrawn in full (`ShaderSpec.ReshadeReachesHitNode`). A hit node that is partial appears only when it draws and one of its children reports something (`ShaderSpec.ReshadePartial`); a partial node with nothing to report below it is not listed.

Units, alignment and rotation are pure functions with lemmas. The generator loop shared by the alignment policies is also a method with a loop (`Alignment.AlignWith`) proved equal to its function.

Floating point is modelled as `real`. Positions, rendered sizes, spaces and offsets are pixel pairs `(real, real)`; the unit tags the source keeps on positions and offsets, and the unit-mismatch error their addition can raise, are listed under "## Left out".

## Model

| member | source | states |
|---|---|---|
| Utils.Float0 | cheeze/layout_manager/utils.py:1-5 | a present number is returned unchanged and a missing one counts as 0 |
| Utils.CollidesRect | cheeze/layout_manager/utils.py:7-8 | `_collides_rect`: the point lies between `pos` and `pos + size` on both axes, edges included |
| Utils.CollidesRectTranslate | cheeze/layout_manager/utils.py:7-8 | collision depends only on the point relative to the rectangle: shifting both by the same amount keeps the answer |
| Utils.CornersCollide | cheeze/layout_manager/utils.py:7-8 | edges are inclusive: both the top-left and the bottom-right corner of a rectangle of non-negative extent collide |
| Utils.NegativeExtentCollidesNothing | cheeze/layout_manager/utils.py:7-8 | a rectangle of negative width or height contains no point |
| Units.UnitOfSuffix | cheeze/layout_manager/units.py:15-21 | exactly the five suffixes `%`, `px`, `vw`, `vh`, `f` name a unit, and the named unit's suffix is the one looked up |
| Units.SuffixRoundTrip | cheeze/layout_manager/units.py:15-21 | looking up a unit's own suffix gives that unit back |
| Units.IndexOf | cheeze/layout_manager/units.py:39-42 | the first occurrence of a character: `None` exactly when it is absent, otherwise an index holding it with none before |
| Units.SplitAtSpace | cheeze/layout_manager/units.py:39-42 | `split(' ', 1)` into two names: fails exactly when there is no space; otherwise the parts joined by a space give the text back and the first part has no space |
| Units.SplitJoin | cheeze/layout_manager/units.py:39-42 | splitting undoes joining at the first space |
| Units.ParseNumber | cheeze/layout_manager/units.py:41 | `float(val)` on the numeric part: an optional `+` or `-`, then digits with at most one decimal point and at least one digit ("5", "2.5", ".5", "5."); any other text is the `ValueError` |
| Units.Parse | cheeze/layout_manager/units.py:39-42 | a literal without a space is refused with the unpacking error |
| Units.ParseRoundTrip | cheeze/layout_manager/units.py:39-42 | a number, a space and a unit's suffix parse back to that number in that unit |
| Units.ParseIsJoin | cheeze/layout_manager/units.py:39-42 | every literal that parses is a number, one space and the suffix of the unit it parsed to |
| Units.ParseUnknownSuffix | cheeze/layout_manager/units.py:39-42 | a well-formed number followed by a suffix not in the table is the lookup error |
| Units.ParseExamplePx | cheeze/layout_manager/units.py:39-42 | "10 px" is ten pixels |
| Units.ParseExampleVh | cheeze/layout_manager/units.py:39-42 | "2.5 vh" is 2.5 percent of the viewport height |
| Units.ParseExampleVw | cheeze/layout_manager/units.py:39-42 | "5.54 vw" is 5.54 percent of the viewport width |
| Units.ParseExamplePercent | cheeze/layout_manager/units.py:39-42 | "9 %" is nine percent; "1f", the layout sequence's default size, does not parse |
| Units.MakeUnitSuffixAlwaysFails | cheeze/layout_manager/units.py:52-55 | as written, a number with any valid suffix fails with a lookup error |
| Units.MakeUnitAsWritten | cheeze/layout_manager/units.py:35-61 | `LUnit.__init__` as written: a literal is parsed, a bare number is pixels, a number with a unit keeps it, an `LUnit` is copied, and a number with a suffix string is the `KeyError` of line 55 |
| Units.MakeUnit | cheeze/layout_manager/units.py:35-61 | a bare number is pixels; a number with a suffix is the literal of the two; an `LUnit` is copied |
| Units.MakeUnitSuffixCorrected | cheeze/layout_manager/units.py:52-55 | with the intended lookup, a number with a unit's suffix is that number in that unit |
| Units.MakeUnit2 | cheeze/layout_manager/units.py:123-140 | the pair succeeds exactly when both components do, holds those components, and reports the x component's error first; each component goes through the corrected `MakeUnit`, so a `(5, "px")` component succeeds here where line 131 reaches the `KeyError` of line 55 |
| Units.CheckMath | cheeze/layout_manager/units.py:64-68 | succeeds exactly when the right operand is a bare number or shares the left unit; a bare number takes the left unit |
| Units.Add | cheeze/layout_manager/units.py:73-75 | fails exactly when the units clash; otherwise the values are added in the left unit |
| Units.Sub | cheeze/layout_manager/units.py:77-79 | fails exactly when the units clash; otherwise the values are subtracted in the left unit |
| Units.Mul | cheeze/layout_manager/units.py:81-83 | fails exactly when the units clash; otherwise the values are multiplied in the left unit |
| Units.AddSubInverse | cheeze/layout_manager/units.py:73-79 | subtracting what was added gives the measure back |
| Units.AddCommutes | cheeze/layout_manager/units.py:64-75 | adding two measures fails on one side exactly when it fails on the other; when it succeeds, the order does not matter |
| Units.Add2 | cheeze/layout_manager/units.py:142-145 | componentwise addition, which succeeds exactly when both axes do |
| Units.Sub2 | cheeze/layout_manager/units.py:147-150 | componentwise subtraction, which succeeds exactly when both axes do |
| Units.Mul2 | cheeze/layout_manager/units.py:152-155 | componentwise multiplication, which succeeds exactly when both axes do |
| Units.Arithmetic2Examples | cheeze/layout_manager/units.py:142-155 | a pixel pair plus a pair holding a percent fails; plus (10,10) gives (110,110); times (11,11) scales each axis |
| Units.Abs | cheeze/layout_manager/units.py:89-111 | the result is in pixels and never exceeds a non-negative space; flex takes the whole space; pixels within the space are kept; 100 percent or more fills the space |
| Units.AbsIdempotent | cheeze/layout_manager/units.py:89-111 | resolving a resolved measure again against the same space changes nothing |
| Units.AbsExamples | cheeze/layout_manager/units.py:89-111 | 10 px in 100 is 10; 110 px is clamped to 100; 9 % is 9; 1 f is 100; 2.5 vh is 2.5; 5.54 vw of 1000 is 55.4; 130.4 of any unit in 100 is 100 |
| Units.AbsX | cheeze/layout_manager/units.py:162-164 | only the x component is resolved, to pixels; y is kept |
| Units.AbsY | cheeze/layout_manager/units.py:166-168 | only the y component is resolved, to pixels; x is kept |
| Units.Abs2 | cheeze/layout_manager/units.py:170-172 | resolving both is resolving x, then y, each against its own space; both end in pixels |
| Units.WithX | cheeze/layout_manager/units.py:174-176 | x is replaced and y is kept |
| Units.WithY | cheeze/layout_manager/units.py:178-180 | y is replaced and x is kept |
| Units.IsZeroAsWrittenMissesZero | cheeze/layout_manager/units.py:199-204 | a rectangle of no extent is zero by the intended test, but the method as written never reports it so |
| Units.IsZeroAsWritten | cheeze/layout_manager/units.py:199-204 | `is_zero` as written: `None` for every rectangle |
| Units.IsZero | cheeze/layout_manager/units.py:203 | `is_zero` as intended: both extents are zero |
| Units.CollidesWith | cheeze/layout_manager/units.py:196-197 | `LRect.collides_with`: `_collides_rect` of the point against the rectangle's corner and size |
| Units.Union | cheeze/layout_manager/units.py:218-227 | the sum of two rectangles spans both and has the smaller top-left corner and the larger right and bottom edges |
| Units.UnionIsSmallest | cheeze/layout_manager/units.py:218-227 | any rectangle spanning both operands spans their sum |
| Units.UnionCommutes | cheeze/layout_manager/units.py:218-227 | the sum of two rectangles does not depend on their order |
| Units.ContainsCollides | cheeze/layout_manager/units.py:196-197 | a point hitting a rectangle hits every rectangle spanning it |
| Units.ContainsTransitive | cheeze/layout_manager/units.py:218-227 | spanning is transitive, so bounding boxes nest |
| Alignment.CrossAsMain | cheeze/layout_manager/alignment.py:14-23 | a cross-axis policy runs the main policy of the same name: start to start, center to center, end to end, never a spacing policy |
| Alignment.Cascade | cheeze/layout_manager/alignment.py:25-83 | one position per item |
| Alignment.CascadeAt | cheeze/layout_manager/alignment.py:25-83 | item i sits at the first position plus the i extents before it plus i gaps |
| Alignment.CascadeStep | cheeze/layout_manager/alignment.py:25-83 | consecutive positions differ by the extent between them plus the gap |
| Alignment.CascadeLastEnd | cheeze/layout_manager/alignment.py:25-83 | the last item ends after the first position, all extents and one gap fewer than there are items |
| Alignment.CascadeShape | cheeze/layout_manager/alignment.py:25-83 | the generator starts at its first position, steps by extent plus gap, and ends where the extents and gaps add up |
| Alignment.Align | cheeze/layout_manager/alignment.py:22-83 | every policy yields one position per item |
| Alignment.SpaceBetweenSingleItem | cheeze/layout_manager/alignment.py:68-83 | one item of 20 in 100: as written the division by zero fails; the intended policy centres it at 40 |
| Alignment.SpaceBetweenAsWritten | cheeze/layout_manager/alignment.py:68-83 | `align_space_between` as written: no items yield nothing (the `return` on line 77 ends the generator), one item is the division by zero, two or more cascade from 0 with gap `(S - Σe)/(n - 1)` |
| Alignment.SpaceBetweenCentresOne | cheeze/layout_manager/alignment.py:73-74 | for every space and extent, the corrected policy places a single item as `center` does, with equal room before and after it |
| Alignment.SpaceBetweenAgrees | cheeze/layout_manager/alignment.py:68-83 | except for a single item, the corrected policy yields exactly what the written one does |
| Alignment.StartPacks | cheeze/layout_manager/alignment.py:25-34 | the first item is at 0 and each next one starts where the previous one ends |
| Alignment.EndFinishesAtSpace | cheeze/layout_manager/alignment.py:36-44 | the items are packed and the last one ends exactly at the end of the space |
| Alignment.CenterBalanced | cheeze/layout_manager/alignment.py:46-54 | the items are packed with equal room before the first and after the last |
| Alignment.SpaceAroundGaps | cheeze/layout_manager/alignment.py:56-66 | one equal gap before the first item, between each two and after the last |
| Alignment.SpaceBetweenSpreads | cheeze/layout_manager/alignment.py:68-83 | with two items or more, the first is at 0, the last ends at the space's end, and the gaps between them are equal |
| Alignment.Accumulate | cheeze/layout_manager/alignment.py:31-34 | the generator loop yields exactly the cascade of its start, gap and extents |
| Alignment.AlignWith | cheeze/layout_manager/alignment.py:22-83 | each policy's generator yields exactly the positions `Align` specifies |
| Rotation.RotateNewLeft | cheeze/animation/rotation.py:6-19 | the new bounding box has its centre on the rectangle's centre |
| Rotation.SameSizeStays | cheeze/animation/rotation.py:6-19 | a bounding box of the rectangle's own size keeps the rectangle's corner |
| Rotation.CentreDeterminesCorner | cheeze/animation/rotation.py:6-19 | any corner that puts the box's centre on the rectangle's centre is the computed one |
| Rotation.Translates | cheeze/animation/rotation.py:6-19 | moving the rectangle moves the new corner by as much |
| LayoutSpec.AxisPair | cheeze/layout_manager/layout_sequence.py:37-45 | the axes are accepted exactly when they are ("x","y") or ("y","x"), and the main axis is the first |
| LayoutSpec.NewObject | cheeze/layout_manager/layout_object.py:19-25 | a new object has zero pixel dimensions, zero position and rendered size, and no preference |
| LayoutSpec.Resolve | cheeze/layout_manager/layout_object.py:33 | each axis of the rendered size is that axis' dimension resolved against that axis' space |
| LayoutSpec.ResolveFits | cheeze/layout_manager/layout_object.py:33 | a rendered size fits a non-negative space, and a flex dimension takes it whole |
| LayoutSpec.SimplePrefer | cheeze/layout_manager/layout_simple.py:18-26 | `LayoutSimple.prefer`: the x axis, then the y axis, raised to the pixel size when in pixels, with the other preference's `None` read as 0 |
| LayoutSpec.SimplePreferRaises | cheeze/layout_manager/layout_simple.py:18-26 | a pixel axis ends with a preference at least its size and at least the old one; with no pixel axis nothing changes |
| LayoutSpec.SimplePreferIdempotent | cheeze/layout_manager/layout_simple.py:18-26 | asking a leaf for its preference twice gives the same as asking once |
| LayoutSpec.CrossMaxIsMax | cheeze/layout_manager/layout_sequence.py:53-62 | the cross total is at least 0 and every child's cross preference, and it is one of them or 0 |
| LayoutSpec.MainSumBounds | cheeze/layout_manager/layout_sequence.py:53-62 | with non-negative preferences, the main total is non-negative and at least each child's |
| LayoutSpec.SequencePrefer | cheeze/layout_manager/layout_sequence.py:53-82 | `LayoutSequence.prefer` on the children's preferences: the main sum and the cross maximum, each replaced by the sequence's own pixel size on that axis |
| LayoutSpec.SequencePreferAxes | cheeze/layout_manager/layout_sequence.py:64-82 | on each axis a sequence prefers its pixel size when it has one, and otherwise its children's sum (main) or maximum (cross) |
| LayoutSpec.PreferSpec | cheeze/layout_manager/layout_sequence.py:49-82 | asking for preferences changes only preferences: dimensions, position, rendered size, class and number of children stay |
| LayoutSpec.PreferAll | cheeze/layout_manager/layout_sequence.py:57-58 | every child is asked, and no child is added or lost |
| LayoutSpec.SetPosSpec | cheeze/layout_manager/layout_sequence.py:171-176 | the node ends at the new position, and nothing but positions changes |
| LayoutSpec.Translate | cheeze/layout_manager/layout_sequence.py:171-176 | moving a subtree moves its root by exactly the distance |
| LayoutSpec.SetPosTranslates | cheeze/layout_manager/layout_sequence.py:171-176 | setting the position moves the whole subtree rigidly by the distance from the old position, so relative positions are kept |
| LayoutSpec.SetPosSame | cheeze/layout_manager/layout_sequence.py:171-176 | setting the position a node already has changes nothing |
| LayoutSpec.Clamped | cheeze/layout_manager/layout_sequence.py:99-102 | a fixed child never pushes the total past the main size, never grows, and keeps its size when it fits |
| LayoutSpec.FixedTotal | cheeze/layout_manager/layout_sequence.py:90-102 | `total_size` after the first n children: each fixed child adds its clamped main size, capped at the main size; flex children add nothing |
| LayoutSpec.PinnedAt | cheeze/layout_manager/layout_sequence.py:124-127 | the round-1 test: a flex child whose preference (`None` as 0) exceeds the unit times its weight |
| LayoutSpec.Plan | cheeze/layout_manager/layout_sequence.py:89-137 | the render budget: main size, fixed total, flex weight, round-1 unit, and the weight and space round 2 works with |
| LayoutSpec.ActionOf | cheeze/layout_manager/layout_sequence.py:93-142 | what `render` does to child i: a fixed child is rendered and clamped to what the children before it left, a pinned flex child gets its preference, an extensible one the round-2 share times its weight, and any other is left alone |
| LayoutSpec.Extensible | cheeze/layout_manager/layout_sequence.py:122-132 | the extensible children are, in order and without repeats, exactly the flex children round 1 does not pin |
| LayoutSpec.ApplyAction | cheeze/layout_manager/layout_sequence.py:97-142 | rendering a child keeps its dimensions, preference, class and number of children |
| LayoutSpec.Place | cheeze/layout_manager/layout_sequence.py:155-165 | a child moves along the main axis by the offset plus its main alignment offset, and across by the offset plus its cross alignment offset |
| LayoutSpec.MainSizes | cheeze/layout_manager/layout_sequence.py:148-152 | the sizes fed to the alignment are the children's rendered main sizes |
| LayoutSpec.Positioned | cheeze/layout_manager/layout_sequence.py:148-165 | alignment moves children but keeps every child's main size |
| LayoutSpec.RenderSpec | cheeze/layout_manager/layout_object.py:27-34 | the rendered size is the resolved dimensions; dimensions, preference, class and number of children are kept |
| LayoutSpec.RenderSequenceSpec | cheeze/layout_manager/layout_sequence.py:84-165 | the sequence's rendered size is its resolved dimensions, and its own position is not changed |
| LayoutSpec.Laid | cheeze/layout_manager/layout_sequence.py:89-165 | every child is laid out, none added or lost |
| LayoutSpec.Acted | cheeze/layout_manager/layout_sequence.py:89-142 | every child is acted on, none added or lost |
| LayoutSpec.CalculateSpec | cheeze/layout_manager/layout_object.py:42-48 | after `calculate` the rendered size is the resolved dimensions and the preference is what `prefer` gives |
| LayoutSpec.FixedDone | cheeze/layout_manager/layout_sequence.py:93-102 | the fixed pass keeps each child's dimensions, preference and class |
| LayoutSpec.PinDone | cheeze/layout_manager/layout_sequence.py:122-132 | round 1 keeps each child's dimensions, preference and class |
| LayoutSpec.ExtendDone | cheeze/layout_manager/layout_sequence.py:140-142 | round 2 keeps each child's dimensions, preference and class |
| LayoutSpec.FixedTotalWithin | cheeze/layout_manager/layout_sequence.py:102 | with a non-negative main size, the fixed pass's running total never exceeds it |
| LayoutSpec.WeightSplits | cheeze/layout_manager/layout_sequence.py:105-132 | the flex weight is the pinned weight plus the weight left extensible |
| LayoutSpec.RenderedSizes | cheeze/layout_manager/layout_sequence.py:84-165 | a rendered sequence's children have the main sizes their actions give |
| LayoutSpec.RenderedChildren | cheeze/layout_manager/layout_sequence.py:84-165 | a rendered sequence's children are the acted children, aligned |
| LayoutSpec.ExtShareScales | cheeze/layout_manager/layout_sequence.py:136-142 | the extensible children take the share times their total weight |
| LayoutSpec.PlannedRoundSizes | cheeze/layout_manager/layout_sequence.py:114-142 | when both flex rounds run, each child is planned its round size |
| LayoutSpec.RowFilled | cheeze/layout_manager/layout_sequence.py:84-142 | with flex weight and weight left after round 1, the children's main sizes add up exactly to the sequence's main size |
| LayoutSpec.PlannedFill | cheeze/layout_manager/layout_sequence.py:105-142 | when both flex rounds run, the planned sizes add up to the main size |
| LayoutSpec.PoolsFill | cheeze/layout_manager/layout_sequence.py:105-142 | the fixed total, the pinned sizes and the extensible share make up the main size |
| LayoutSpec.FixedSizeAfter | cheeze/layout_manager/layout_sequence.py:97-102 | a fixed child ends clamped to what the children before it left of the main size |
| LayoutSpec.FixedRowFits | cheeze/layout_manager/layout_sequence.py:84-102 | a row of fixed children only adds up to the fixed total, which stays within a non-negative main size |
| LayoutSpec.PinnedGetsPreference | cheeze/layout_manager/layout_sequence.py:127-130 | a flex child whose preference exceeds its share is rendered at exactly its preferred main size |
| LayoutSpec.PinnedSizeAfter | cheeze/layout_manager/layout_sequence.py:127-130 | a pinned child's main size is its preference |
| LayoutSpec.ExtendedGetsShare | cheeze/layout_manager/layout_sequence.py:136-142 | an extensible child is rendered at the round-2 share times its weight |
| LayoutSpec.ExtendedSize | cheeze/layout_manager/layout_sequence.py:136-142 | an extensible child's main size is the share times its weight |
| LayoutSpec.LeafPlacedAtTwiceOffset | cheeze/layout_manager/layout_sequence.py:155-165 | a rendered base or leaf child ends at twice the offset plus its alignment offsets |
| LayoutSpec.ActedLeafPos | cheeze/layout_manager/layout_object.py:34 | a base or leaf child that was rendered sits at the offset |
| LayoutSpec.PositionedMain | cheeze/layout_manager/layout_sequence.py:148-165 | alignment moves child i along the main axis by the offset plus the policy's position for it |
| LayoutSpec.StartRowPacks | cheeze/layout_manager/layout_sequence.py:148-165 | in a start-aligned row of rendered leaves, each child begins where the previous one ends |
| Layout.LayoutNode.Model | cheeze/layout_manager/layout_object.py:19-25 | the value model holds the object's fields and its children's models |
| Layout.LayoutNode.Object | cheeze/layout_manager/layout_object.py:19-25 | a new base object is `NewObject` |
| Layout.LayoutNode.Simple | cheeze/layout_manager/layout_simple.py:13-16 | a new leaf has the given size and preference and is otherwise zero |
| Layout.LayoutNode.Sequence | cheeze/layout_manager/layout_sequence.py:16-45 | a new sequence holds the children, the axes the check accepted and the alignments, at position zero |
| Layout.LayoutNode.SetPos | cheeze/layout_manager/layout_sequence.py:171-176 | the new tree is `SetPosSpec` of the old one |
| Layout.LayoutNode.Prefer | cheeze/layout_manager/layout_simple.py:18-26 | the new tree is `PreferSpec` of the old one, for every class |
| Layout.LayoutNode.PreferSequence | cheeze/layout_manager/layout_sequence.py:49-82 | a sequence's new tree is `PreferSpec` of the old one |
| Layout.LayoutNode.PreferChildren | cheeze/layout_manager/layout_sequence.py:57-62 | every child has preferred, and the loop's totals are the main sum and the cross maximum |
| Layout.LayoutNode.Render | cheeze/layout_manager/layout_object.py:27-34 | the new tree is `RenderSpec` of the old one, for every class |
| Layout.LayoutNode.RenderSequence | cheeze/layout_manager/layout_sequence.py:84-165 | a sequence's new tree is `RenderSequenceSpec` of the old one |
| Layout.LayoutNode.FixedPass | cheeze/layout_manager/layout_sequence.py:89-102 | every child is as the fixed pass leaves it, and the total is the fixed total |
| Layout.LayoutNode.FixedRender | cheeze/layout_manager/layout_sequence.py:94-102 | child i is rendered and clamped as the fixed pass says |
| Layout.LayoutNode.SetRendered | cheeze/layout_manager/layout_sequence.py:101 | the clamp's assignment: only the rendered size changes |
| Layout.LayoutNode.FlexRounds | cheeze/layout_manager/layout_sequence.py:105-142 | after the flex rounds the children are the acted children |
| Layout.LayoutNode.WeightedRounds | cheeze/layout_manager/layout_sequence.py:114-142 | after both rounds every child is as the three passes leave it |
| Layout.LayoutNode.SecondRound | cheeze/layout_manager/layout_sequence.py:136-142 | round 2 runs exactly when weight is left, and renders the extensible children at the share |
| Layout.LayoutNode.FlexWeight | cheeze/layout_manager/layout_sequence.py:105-111 | the loop's count is the total flex weight |
| Layout.LayoutNode.PinRound | cheeze/layout_manager/layout_sequence.py:117-132 | round 1 leaves each child pinned or untouched, and leaves the pinned weight and size subtracted and the extensible children collected |
| Layout.LayoutNode.PinRender | cheeze/layout_manager/layout_sequence.py:124-132 | a child is pinned exactly when it is flex and its preference exceeds its share, and it is extensible when it is flex and not pinned |
| Layout.LayoutNode.ExtendRound | cheeze/layout_manager/layout_sequence.py:140-142 | every extensible child is rendered at the share, and no other child changes |
| Layout.LayoutNode.AlignPass | cheeze/layout_manager/layout_sequence.py:148-165 | the children are `Positioned` from the old children |
| Layout.LayoutNode.AlignMove | cheeze/layout_manager/layout_sequence.py:155-165 | child i is moved through its position setter to its placement |
| Layout.LayoutNode.Calculate | cheeze/layout_manager/layout_object.py:42-48 | the new tree is `CalculateSpec` of the old one |
| Layout.LayoutNode.CollidesWith | cheeze/layout_manager/layout_object.py:59-63 | the answer is whether the point lies in the rendered rectangle at the node's position |
| ShaderSpec.NewTree | cheeze/layout_manager/shader_bounds.py:17-30 | a new node's rendered box is its own rectangle |
| ShaderSpec.Nodes | cheeze/layout_manager/shader_bounds.py:91-100 | a node's subtree lists the node first |
| ShaderSpec.UnionUpToIsBoundingBox | cheeze/layout_manager/shader_bounds.py:116-117 | the fold spans its start and every child's box, and any rectangle spanning those spans it |
| ShaderSpec.SumAsWritten | cheeze/layout_manager/shader_bounds.py:117 | Python's `sum` over the children's rectangles as written: a left fold from the integer 0 that fails at the first `0 + LRect` |
| ShaderSpec.StoreAsWritten | cheeze/layout_manager/shader_bounds.py:116-117 | lines 116-117 as written: the own rectangle plus that sum, failing whenever an addition does |
| ShaderSpec.Bounds | cheeze/layout_manager/shader_bounds.py:110-117 | `calculate_child_bounds` as intended: children first, then the own rectangle unioned with each child's box; identity, rectangle, flags and number of children are kept |
| ShaderSpec.SumOfRectsFails | cheeze/layout_manager/shader_bounds.py:117 | `sum` over one or more rectangles, started at 0, always fails |
| ShaderSpec.StoreAsWrittenAlwaysFails | cheeze/layout_manager/shader_bounds.py:116-117 | as written, storing the bounds fails for every node, children or not |
| ShaderSpec.BoundsCovers | cheeze/layout_manager/shader_bounds.py:110-117 | after computing bounds the tree is covered, and each box is the smallest spanning its rectangle and its children's boxes |
| ShaderSpec.BoundsIdempotent | cheeze/layout_manager/shader_bounds.py:110-117 | computing bounds twice is computing them once |
| ShaderSpec.CoversDescendants | cheeze/layout_manager/shader_bounds.py:110-117 | in a covered tree a node's box spans the rectangle of every node below it |
| ShaderSpec.AddChildSpec | cheeze/layout_manager/shader_bounds.py:102-104 | adding a child adds exactly one child |
| ShaderSpec.RemoveChildSpec | cheeze/layout_manager/shader_bounds.py:106-108 | removing a child removes exactly one child |
| ShaderSpec.AddChildCovers | cheeze/layout_manager/shader_bounds.py:102-104 | after adding, the tree is covered, the new child comes last with its bounds, and the parent's box spans it |
| ShaderSpec.RemoveUndoesAdd | cheeze/layout_manager/shader_bounds.py:102-108 | removing the child just added gives back the tree with its bounds computed |
| ShaderSpec.Drawables | cheeze/layout_manager/shader_bounds.py:91-100 | `get_drawable_children`: for each child in order, the child when drawable, then its own drawable children |
| ShaderSpec.DrawablesOf | cheeze/layout_manager/shader_bounds.py:95-99 | the same loop over the first n children |
| ShaderSpec.DrawablesArePreorder | cheeze/layout_manager/shader_bounds.py:91-100 | the drawable children are the drawable nodes strictly below, in pre-order |
| ShaderSpec.ReshadeAsWrittenDropsChildren | cheeze/layout_manager/shader_bounds.py:61-87 | two hit full children under a container: as written only the last is reported, where both need redrawing; a hit plain leaf fails |
| ShaderSpec.ReshadeWellFormed | cheeze/layout_manager/shader_bounds.py:32-89 | every reported node draws, lies in the subtree, and names at least one region when partial |
| ShaderSpec.Reshade | cheeze/layout_manager/shader_bounds.py:32-89 | `check_reshade` as intended: nothing for a zero node or a miss; a hit full node and its drawable descendants in full; otherwise the node's own line with its children's regions, when it draws and they add any, then every child's lines in order |
| ShaderSpec.ReshadeAsWritten | cheeze/layout_manager/shader_bounds.py:49-89 | `check_reshade` as written, without the zero guard that never fires: a searched node ends with its last child's lines only, fails when it has no children, and a drawable one fails once a child reports |
| ShaderSpec.LastChildAsWritten | cheeze/layout_manager/shader_bounds.py:64-81 | the loop of lines 68-81 as written: the last child's lines, or the failure of the tuple `append` |
| ShaderSpec.ReshadeMiss | cheeze/layout_manager/shader_bounds.py:49-89 | a node the point misses reports nothing |
| ShaderSpec.ZeroNodeNotReshaded | cheeze/layout_manager/shader_bounds.py:46-47 | a node of no extent reports nothing, even where the point lies on it |
| ShaderSpec.ReshadeOpaque | cheeze/layout_manager/shader_bounds.py:51-58 | a hit node drawn in full reports itself and then every drawable node below it in pre-order, all in full |
| ShaderSpec.ReshadePartial | cheeze/layout_manager/shader_bounds.py:61-87 | any other hit node reports its children's lists in order, preceded by its own line exactly when it draws and a child reported, with those children's regions |
| ShaderSpec.ReshadeReachesHitNode | cheeze/layout_manager/shader_bounds.py:32-117 | once bounds are computed and no node is zero, every node drawn in full whose rectangle the point hits is reported in full |
| ShaderBounds.AddRegions | cheeze/layout_manager/shader_bounds.py:73-77 | the regions grow by exactly the regions of the child lines, in order |
| ShaderBounds.Gather | cheeze/layout_manager/shader_bounds.py:68-81 | after one child, the pairs stand for the lines so far plus the child's, and the regions follow them |
| ShaderBounds.ShaderBounds.constructor | cheeze/layout_manager/shader_bounds.py:17-30 | the new node's model is `NewTree` over its children's models, and its box is its own rectangle |
| ShaderBounds.ShaderBounds.GetDrawableChildren | cheeze/layout_manager/shader_bounds.py:91-100 | the result names the drawable nodes below, in the order `Drawables` lists them |
| ShaderBounds.ShaderBounds.CalculateChildBounds | cheeze/layout_manager/shader_bounds.py:110-117 | the new tree is `Bounds` of the old one |
| ShaderBounds.ShaderBounds.StoreBounds | cheeze/layout_manager/shader_bounds.py:116-117 | the node's box becomes its rectangle unioned with the children's boxes, and the model agrees |
| ShaderBounds.ShaderBounds.BoundChildren | cheeze/layout_manager/shader_bounds.py:114-115 | every child's tree is now its bounds, and this node is unchanged |
| ShaderBounds.ShaderBounds.UnionChildren | cheeze/layout_manager/shader_bounds.py:117 | the result is the start unioned with each child's box, in order |
| ShaderBounds.ShaderBounds.AddChild | cheeze/layout_manager/shader_bounds.py:102-104 | the new tree is `AddChildSpec` of the old one and the child |
| ShaderBounds.ShaderBounds.RemoveChild | cheeze/layout_manager/shader_bounds.py:106-108 | a non-child is the `ValueError` and nothing changes; otherwise the new tree is `RemoveChildSpec` at the child's place |
| ShaderBounds.ShaderBounds.Detach | cheeze/layout_manager/shader_bounds.py:107 | the child at i leaves the list, the model and the footprint, and the rest is kept in order |
| ShaderBounds.ShaderBounds.CheckReshade | cheeze/layout_manager/shader_bounds.py:32-89 | the returned pairs stand for exactly the lines `Reshade` lists |
| ShaderBounds.ShaderBounds.ReshadeChildren | cheeze/layout_manager/shader_bounds.py:64-81 | the pairs stand for the children's lists in order, and a drawable node's regions are theirs |

## Proof helpers

These members carry the inductions and loop steps behind the rows above and model nothing of their own:

- The flex passes, in `LayoutSpec`: `PinDoneStep`, `ExtendDoneAt`, `FixedAct`, `ExtendedAction`, `RoundStep`, `RoundPrefix`, `SizesAfter`, `ActedSize`, `RenderedSizeAt`, `PlannedSum`, `FixedPrefix`, `PassesAct`, `PassesActAll`, `PlanPools`.
- The loop bodies of `render`, in `Layout.LayoutNode`: `FixedStep`, `PinStep`, `ExtendStep`, `AlignStep`, `Collect`, `RoundTwoComplete`.
- The tree walks, in `ShaderSpec`: `NodesOfMember`, `DrawableOnlyConcat`, `DrawableOnlyMember`, `DrawablesOfArePreorder`, `ReshadeOfWellFormed`, `ContributionsConcat`, `ContributionsCount`, `ReshadeOfChildren`, `NoneZeroDescendants`.

## Left out

- Formatting is not modelled, because it only builds text: `__repr__`, `layout_representation`, `as_float` and `as_int`.
- `LUnit.__div__` is not modelled: Python 3 never calls `__div__`, so `/` on a measure raises `TypeError`.
- The `TypeError` branch of the `LUnit` constructor (line 61) is not modelled. The argument datatype `UnitArg` has one constructor for each shape on lines 39-59 that takes a `UNIT` member or a string as the unit: a literal, a bare number, a number with a `UNIT`, a number with a suffix string (which fails as written, see Findings), and an `LUnit`.
- Units.MakeUnitAsWritten: does not model an `int` (or a `bool`) passed as the unit, which line 52 accepts and stores as the unit unchanged. `+`, `-` and `*` between two such measures would still succeed, because line 67 compares the two integers. `abs` on one would raise the `TypeError` of line 111. `Units.Unit` has only the five `UNIT` members, so this shape is not modelled.
- Units.MakeUnit: the same integer-unit shape is not modelled, for the same reason.
- Units.Abs: is total over the five units. The `TypeError` of lines 110-111, reachable only through an integer unit, is not modelled.
- Units.MakeUnit2: models the pass-through of lines 130-131 and 139-140 only for an `LUnit` (`Copy`). `LUnit2.__init__` stores any other object unchanged there, which the typed model cannot express.
- `float()` parsing covers an optional `+` or `-` followed by decimal digits with at most one point (`5`, `2.5`, `.5`, `5.`). Exponents, underscores, surrounding blanks, `inf` and `nan` are not modelled.
- `LayoutSequence`'s default size `("1f", "1f")` is a tuple of strings that no unit method accepts (and "1f" has no separating space). `Layout.LayoutNode.Sequence` therefore takes an explicit `LUnit2`.
- Layout.LayoutNode.Sequence: requires the axis check on line 45 to pass, instead of modelling the `AssertionError`.
- Layout.LayoutNode.PinRound: a pinned flex child with no main preference is pinned at 0. As written, `with_x(None)` would raise instead. This needs a negative flex weight or space, since the preference (counted as 0) must exceed the share.
- The flex rounds' widths `with_x(...)` on a pixel pair are modelled as replacing one component of a pixel pair.
- Alignment.AlignWith: yields the corrected `space_between` positions for a single item (centred), where the generator as written divides by zero. `LayoutSpec.Positioned`, `Layout.LayoutNode.AlignPass` and `Layout.LayoutNode.RenderSequence` inherit this: a sequence with one child and `space_between` centres it, where the source's `render` raises `ZeroDivisionError` at its first `next` (layout_sequence.py:148-155, alignment.py:78-79). The written behaviour is kept in `Alignment.SpaceBetweenAsWritten`.
- LayoutSpec.Positioned: positions and offsets are pixel pairs without unit tags. In the source, `pos` and `offset` are `LUnit2` values, so the additions on layout_sequence.py:158, 164 and 174 raise the `_check_math` unit-mismatch error (units.py:64-68) when an offset or position is not in pixels. A uniform non-pixel offset also keeps its unit tag there. Neither the error path nor the non-pixel tags are modelled; `LayoutSpec.SetPosSpec` and `Layout.LayoutNode.RenderSequence` share this simplification.
- A sequence's `render` never sets its own `pos`, and a base or leaf child, whose own `render` set its position to the offset, ends at twice the offset plus its alignment. This is modelled as written (`LayoutSpec.LeafPlacedAtTwiceOffset`).
- `ShaderBounds.parent` is stored and never read, so no property concerns it.
- Layout.LayoutNode.Sequence: requires children whose footprints are pairwise disjoint. The source accepts any list, including one object listed twice or a child shared with another sequence; `render` would then lay such a child out twice and the position setter would move it twice. Shared or repeated children (aliasing) are not modelled.
- ShaderBounds.ShaderBounds.constructor: requires children whose footprints are pairwise disjoint. The source accepts any list, including one node listed twice or shared between parents, which `calculate_child_bounds` would visit twice. Shared or repeated children (aliasing) are not modelled.
- ShaderBounds.ShaderBounds.AddChild: requires a valid child whose nodes are disjoint from the tree's. Adding a node that is already in the tree (aliasing, cycles) is not modelled.
- ShaderBounds.ShaderBounds.CheckReshade: returns lists of regions where the source starts from a tuple, and uses each child's `rendered` rectangle where line 75 calls a `to_float` that `LRect` lacks. Those two defects are kept in `ShaderSpec.ReshadeAsWritten` and its lemma only.
- Shader regions are `LRect` values; the tuple-of-floats form is not modelled.
- The wall clock, drawing, the `App` that owns the shader tree, and the rest of `animation/` are not part of this model.

## Findings

| source | as written | input that shows it | evidently intended | confidence | as-written member | corrected member |
|---|---|---|---|---|---|---|
| cheeze/layout_manager/alignment.py:76-79 | the guard tests `len(spaces) < 1`, then divides by `len(spaces) - 1` | one item of width 20 in a space of 100: `ZeroDivisionError` | a single item is centred, as the doc-comment draws it (at 40); `Alignment.Align` uses this corrected policy, and so do `Alignment.AlignWith`, `LayoutSpec.Positioned`, `Layout.LayoutNode.AlignPass` and `Layout.LayoutNode.RenderSequence`, so a sequence with one child and `space_between` lays it out centred where the source's `render` raises `ZeroDivisionError` (layout_sequence.py:148-155) | high, not executed | Alignment.SpaceBetweenSingleItem | Alignment.SpaceBetweenCentresOne |
| cheeze/layout_manager/units.py:199-204 | the zero test's only branch is `pass`, so `is_zero` always returns `None` | `LRect((3, 4), (0, 0))`: not reported as zero, so `check_reshade` searches it | true when both extents are zero (the condition on line 203) | high, not executed | Units.IsZeroAsWrittenMissesZero | ShaderSpec.ZeroNodeNotReshaded |
| cheeze/layout_manager/units.py:55 | `_UNITS[1]` looks up the constant 1, not the suffix argument | `LUnit(5, "px")`: `KeyError` | `_UNITS[args[1]]`, giving 5 pixels; `Units.MakeUnit2` builds its components on the corrected `MakeUnit`, so `LUnit2((5, "px"), …)` succeeds in the model although line 131 reaches the same `KeyError` | high, not executed | Units.MakeUnitSuffixAlwaysFails | Units.MakeUnitSuffixCorrected |
| cheeze/layout_manager/shader_bounds.py:64-87 | line 87 extends by the last child's list instead of the gathered one; a childless node leaves that name unbound; the regions start as a tuple, which has no `append` | a root at (0,0) of size (10,10) with two full, drawable children at (0,0) of size (10,10), point (1,1): only the second child is reported | every hit child's list, in order, after the node's own line | high, not executed | ShaderSpec.ReshadeAsWrittenDropsChildren | ShaderSpec.ReshadeReachesHitNode |
| cheeze/layout_manager/shader_bounds.py:116-117 | `sum(...)` starts from the integer 0, and neither `0 + LRect` nor `LRect + 0` is defined | any node, e.g. one with no children: `LRect + 0` raises, so `add_child` and `remove_child` always fail | the node's rectangle unioned with each child's box | high, not executed | ShaderSpec.StoreAsWrittenAlwaysFails | ShaderSpec.BoundsCovers |
