/** Units of `cheeze/layout_manager/units.py`: the unit-tagged measure `LUnit`,
    the pair `LUnit2`, the rectangle `LRect`, and the text form `"<num> <suffix>"`. */
module Units {
  import opened Wrappers
  import opened Utils

  /** `UNIT`: pixels, percent of the available space, flex weight, and
      percent of the viewport width or height. */
  datatype Unit = Px | Percent | F | Vw | Vh

  /** The exceptions the unit code raises: a literal without the separating
      space (`ValueError` on unpacking), a numeric part `float` rejects, a
      suffix missing from `_UNITS` (`KeyError`), and arithmetic between two
      different units (the `AssertionError` of `_check_math`). */
  datatype UnitError = MissingSeparator | BadNumber | UnknownSuffix | UnitMismatch

  /** `LUnit`: a value tagged with its unit. */
  datatype LUnit = LUnit(val: real, unit: Unit)

  /** `LUnit2`: one `LUnit` per axis. */
  datatype LUnit2 = LUnit2(x: LUnit, y: LUnit)

  // ---------------------------------------------------------------------
  // The suffix table `_UNITS`

  /** The suffix `_UNITS` maps to each unit. */
  function SuffixOf(u: Unit): string
  {
    match u
    case Percent => "%"
    case Px => "px"
    case Vw => "vw"
    case Vh => "vh"
    case F => "f"
  }

  /** `_UNITS[s]`: the unit a suffix names, `None` where Python raises
      `KeyError`. Exactly the five suffixes are known, and each maps back to
      itself through `SuffixOf`. */
  function UnitOfSuffix(s: string): (r: Option<Unit>)
    ensures r.Some? <==> s == "%" || s == "px" || s == "vw" || s == "vh" || s == "f"
    ensures r.Some? ==> SuffixOf(r.value) == s
  {
    if s == "%" then Some(Percent)
    else if s == "px" then Some(Px)
    else if s == "vw" then Some(Vw)
    else if s == "vh" then Some(Vh)
    else if s == "f" then Some(F)
    else None
  }

  lemma SuffixRoundTrip(u: Unit)
    ensures UnitOfSuffix(SuffixOf(u)) == Some(u)
  {
  }

  // ---------------------------------------------------------------------
  // The numeric part: a decimal literal with optional sign and fraction

  predicate IsDigit(c: char) { '0' <= c <= '9' }

  predicate AllDigits(s: string) { forall i :: 0 <= i < |s| ==> IsDigit(s[i]) }

  function DigitsValue(s: string): nat
    requires AllDigits(s)
  {
    if s == [] then 0
    else DigitsValue(s[..|s| - 1]) * 10 + (s[|s| - 1] as int - '0' as int)
  }

  function Pow10(k: nat): (r: nat)
    ensures r >= 1
  {
    if k == 0 then 1 else 10 * Pow10(k - 1)
  }

  /** Index of the first occurrence of `c` in `s`. */
  function IndexOf(s: string, c: char): (r: Option<nat>)
    ensures r.None? <==> c !in s
    ensures r.Some? ==> r.value < |s| && s[r.value] == c && c !in s[..r.value]
  {
    if s == [] then None
    else if s[0] == c then Some(0)
    else match IndexOf(s[1..], c)
      case None => None
      case Some(i) =>
        assert s[1..][..i] == s[1..i + 1];
        assert s[..i + 1] == [s[0]] + s[1..i + 1];
        Some(i + 1)
  }

  /** An unsigned decimal: digits, or digits '.' digits with at least one
      digit on either side. */
  function ParseUnsigned(s: string): Option<real>
  {
    match IndexOf(s, '.')
    case None =>
      if s != [] && AllDigits(s) then Some(DigitsValue(s) as real) else None
    case Some(k) =>
      var whole, frac := s[..k], s[k + 1..];
      if AllDigits(whole) && AllDigits(frac) && |whole| + |frac| > 0
      then Some(DigitsValue(whole) as real + DigitsValue(frac) as real / Pow10(|frac|) as real)
      else None
  }

  /** `float(val)` on the numeric part of a literal. */
  function ParseNumber(s: string): Option<real>
  {
    if |s| > 0 && s[0] == '-' then
      match ParseUnsigned(s[1..])
      case None => None
      case Some(v) => Some(-v)
    else if |s| > 0 && s[0] == '+' then ParseUnsigned(s[1..])
    else ParseUnsigned(s)
  }

  // ---------------------------------------------------------------------
  // The literal "<num> <suffix>"

  /** `s.split(' ', 1)` unpacked into two parts: the text before the first
      space and everything after it; `None` where there is no space. */
  function SplitAtSpace(s: string): (r: Option<(string, string)>)
    ensures r.None? <==> ' ' !in s
    ensures r.Some? ==> s == r.value.0 + " " + r.value.1 && ' ' !in r.value.0
  {
    match IndexOf(s, ' ')
    case None => None
    case Some(i) =>
      assert s == s[..i] + " " + s[i + 1..];
      Some((s[..i], s[i + 1..]))
  }

  /** Splitting undoes joining at a space that is the first one. */
  lemma {:induction false} SplitJoin(a: string, b: string)
    requires ' ' !in a
    ensures SplitAtSpace(a + " " + b) == Some((a, b))
  {
    var s := a + " " + b;
    IndexOfFirst(s, ' ', |a|);
    assert s[..|a|] == a;
    assert s[|a| + 1..] == b;
  }

  lemma {:induction false} IndexOfFirst(s: string, c: char, k: nat)
    requires k < |s| && s[k] == c && c !in s[..k]
    ensures IndexOf(s, c) == Some(k)
  {
    if k > 0 {
      assert s[0] in s[..k];
      assert s[1..][..k - 1] == s[1..k];
      assert forall j :: 0 <= j < k - 1 ==> s[1..][j] == s[..k][j + 1];
      IndexOfFirst(s[1..], c, k - 1);
    }
  }

  /** The string constructor of `LUnit` (units.py:39-42): split at the first
      space, read the number, then look the suffix up. */
  function Parse(s: string): (r: Result<LUnit, UnitError>)
    ensures ' ' !in s ==> r == Err(MissingSeparator)
  {
    match SplitAtSpace(s)
    case None => Err(MissingSeparator)
    case Some((num, suffix)) =>
      match ParseNumber(num)
      case None => Err(BadNumber)
      case Some(v) =>
        match UnitOfSuffix(suffix)
        case None => Err(UnknownSuffix)
        case Some(u) => Ok(LUnit(v, u))
  }

  /** Writing a number and a unit's suffix with one space between them and
      parsing the text back gives that measure. */
  lemma ParseRoundTrip(num: string, u: Unit)
    requires ' ' !in num && ParseNumber(num).Some?
    ensures Parse(num + " " + SuffixOf(u)) == Ok(LUnit(ParseNumber(num).value, u))
  {
    SplitJoin(num, SuffixOf(u));
  }

  /** Every literal that parses is such a text: the number, one space, and
      the suffix of the unit it parsed to. */
  lemma ParseIsJoin(s: string)
    requires Parse(s).Ok?
    ensures exists num :: ' ' !in num && ParseNumber(num) == Some(Parse(s).value.val)
                           && s == num + " " + SuffixOf(Parse(s).value.unit)
  {
    var (num, suffix) := SplitAtSpace(s).value;
    assert s == num + " " + SuffixOf(Parse(s).value.unit);
  }

  /** A well-formed number followed by a suffix `_UNITS` lacks is a
      `KeyError`. */
  lemma ParseUnknownSuffix(num: string, suffix: string)
    requires ' ' !in num && ParseNumber(num).Some? && UnitOfSuffix(suffix).None?
    ensures Parse(num + " " + suffix) == Err(UnknownSuffix)
  {
    SplitJoin(num, suffix);
  }

  /** The literals of the test suite: "10 px", "2.5 vh", "5.54 vw" and
      "9 %" parse, and "1f" (the default size of `LayoutSequence`) lacks the
      separating space. */
  lemma ParseExamplePx()
    ensures Parse("10 px") == Ok(LUnit(10.0, Px))
  {
    assert ParseNumber("10") == Some(10.0) by {
      assert IndexOf("10", '.') == None;
      assert DigitsValue("1") == 1;
    }
    assert "10 px" == "10" + " " + SuffixOf(Px);
    ParseRoundTrip("10", Px);
  }

  lemma ParseExampleVh()
    ensures Parse("2.5 vh") == Ok(LUnit(2.5, Vh))
  {
    assert ParseNumber("2.5") == Some(2.5) by {
      IndexOfFirst("2.5", '.', 1);
      assert "2.5"[..1] == "2" && "2.5"[2..] == "5";
    }
    assert "2.5 vh" == "2.5" + " " + SuffixOf(Vh);
    ParseRoundTrip("2.5", Vh);
  }

  lemma ParseExampleVw()
    ensures Parse("5.54 vw") == Ok(LUnit(5.54, Vw))
  {
    assert ParseNumber("5.54") == Some(5.54) by {
      IndexOfFirst("5.54", '.', 1);
      assert "5.54"[..1] == "5" && "5.54"[2..] == "54";
      assert DigitsValue("54") == 54 by { assert "54"[..1] == "5"; }
    }
    assert "5.54 vw" == "5.54" + " " + SuffixOf(Vw);
    ParseRoundTrip("5.54", Vw);
  }

  lemma ParseExamplePercent()
    ensures Parse("9 %") == Ok(LUnit(9.0, Percent))
    ensures Parse("1f") == Err(MissingSeparator)
  {
    assert ParseNumber("9") == Some(9.0) by {
      assert IndexOf("9", '.') == None;
    }
    assert "9 %" == "9" + " " + SuffixOf(Percent);
    ParseRoundTrip("9", Percent);
  }

  // ---------------------------------------------------------------------
  // The other constructor forms of `LUnit`

  /** The argument shapes `LUnit(*args)` accepts: a literal, a bare number,
      a number with a `UNIT`, a number with a suffix string, or another
      `LUnit` to copy. */
  datatype UnitArg =
    | Text(s: string)
    | Number(v: real)
    | NumberWithUnit(v: real, u: Unit)
    | NumberWithSuffix(v: real, suffix: string)
    | Copy(m: LUnit)

  /** `LUnit.__init__` as written (units.py:35-61). A number with a suffix
      string looks up `_UNITS[1]`, the key 1 rather than the suffix, which
      is always a `KeyError`. */
  function MakeUnitAsWritten(arg: UnitArg): Result<LUnit, UnitError>
  {
    match arg
    case Text(s) => Parse(s)
    case Number(v) => Ok(LUnit(v, Px))
    case NumberWithUnit(v, u) => Ok(LUnit(v, u))
    case NumberWithSuffix(v, suffix) => Err(UnknownSuffix)
    case Copy(m) => Ok(m)
  }

  /** `LUnit(5, "px")` fails as written, although "px" is in `_UNITS`. */
  lemma MakeUnitSuffixAlwaysFails(v: real, u: Unit)
    ensures MakeUnitAsWritten(NumberWithSuffix(v, SuffixOf(u))) == Err(UnknownSuffix)
  {
  }

  /** `LUnit.__init__` with the evidently intended `_UNITS[args[1]]`. A bare
      number is in pixels, and a number with a suffix is read the same way
      as the literal of that number and suffix. */
  function MakeUnit(arg: UnitArg): (r: Result<LUnit, UnitError>)
    ensures arg.Number? ==> r == Ok(LUnit(arg.v, Px))
    ensures arg.NumberWithSuffix? ==>
      (r.Ok? <==> UnitOfSuffix(arg.suffix).Some?) &&
      (r.Ok? ==> r.value == LUnit(arg.v, UnitOfSuffix(arg.suffix).value))
    ensures arg.Copy? ==> r == Ok(arg.m)
  {
    match arg
    case Text(s) => Parse(s)
    case Number(v) => Ok(LUnit(v, Px))
    case NumberWithUnit(v, u) => Ok(LUnit(v, u))
    case NumberWithSuffix(v, suffix) =>
      (match UnitOfSuffix(suffix)
       case None => Err(UnknownSuffix)
       case Some(u) => Ok(LUnit(v, u)))
    case Copy(m) => Ok(m)
  }

  lemma MakeUnitSuffixCorrected(v: real, u: Unit)
    ensures MakeUnit(NumberWithSuffix(v, SuffixOf(u))) == Ok(LUnit(v, u))
  {
  }

  /** `LUnit2.__init__` (units.py:123-140): each component is built on its
      own from a literal, a tuple of constructor arguments, a number (in
      pixels) or an `LUnit`; the x component is built first. */
  function MakeUnit2(x: UnitArg, y: UnitArg): (r: Result<LUnit2, UnitError>)
    ensures r.Ok? <==> MakeUnit(x).Ok? && MakeUnit(y).Ok?
    ensures r.Ok? ==> r.value == LUnit2(MakeUnit(x).value, MakeUnit(y).value)
    ensures MakeUnit(x).Err? ==> r == Err(MakeUnit(x).error)
  {
    var ux :- MakeUnit(x);
    var uy :- MakeUnit(y);
    Ok(LUnit2(ux, uy))
  }

  // ---------------------------------------------------------------------
  // Arithmetic

  /** The right operand of `+ - *`: a bare number or another measure. */
  datatype Operand = Scalar(n: real) | Measure(m: LUnit)

  /** `_check_math`: a bare number takes the left operand's unit; two
      measures must share their unit. */
  function CheckMath(a: LUnit, b: Operand): (r: Result<LUnit, UnitError>)
    ensures r.Ok? <==> b.Scalar? || b.m.unit == a.unit
    ensures r.Ok? ==> r.value.unit == a.unit
    ensures b.Scalar? ==> r == Ok(LUnit(b.n, a.unit))
    ensures b.Measure? && r.Ok? ==> r.value == b.m
  {
    match b
    case Scalar(n) => Ok(LUnit(n, a.unit))
    case Measure(m) => if m.unit == a.unit then Ok(m) else Err(UnitMismatch)
  }

  function Add(a: LUnit, b: Operand): (r: Result<LUnit, UnitError>)
    ensures r.Ok? <==> CheckMath(a, b).Ok?
    ensures r.Ok? ==> r.value == LUnit(a.val + CheckMath(a, b).value.val, a.unit)
  {
    var o :- CheckMath(a, b);
    Ok(LUnit(a.val + o.val, a.unit))
  }

  function Sub(a: LUnit, b: Operand): (r: Result<LUnit, UnitError>)
    ensures r.Ok? <==> CheckMath(a, b).Ok?
    ensures r.Ok? ==> r.value == LUnit(a.val - CheckMath(a, b).value.val, a.unit)
  {
    var o :- CheckMath(a, b);
    Ok(LUnit(a.val - o.val, a.unit))
  }

  function Mul(a: LUnit, b: Operand): (r: Result<LUnit, UnitError>)
    ensures r.Ok? <==> CheckMath(a, b).Ok?
    ensures r.Ok? ==> r.value == LUnit(a.val * CheckMath(a, b).value.val, a.unit)
  {
    var o :- CheckMath(a, b);
    Ok(LUnit(a.val * o.val, a.unit))
  }

  /** Subtracting what was added gives the measure back. */
  lemma AddSubInverse(a: LUnit, b: Operand)
    requires Add(a, b).Ok?
    ensures Sub(Add(a, b).value, b) == Ok(a)
  {
  }

  /** Between two measures of one unit, `+` commutes; between different
      units it fails whichever side is on the left. */
  lemma AddCommutes(a: LUnit, b: LUnit)
    ensures Add(a, Measure(b)).Ok? <==> Add(b, Measure(a)).Ok?
    ensures Add(a, Measure(b)).Ok? ==> Add(a, Measure(b)) == Add(b, Measure(a))
  {
  }

  /** The right operand of `LUnit2`'s `+ - *`: a tuple, one operand per
      axis, or another `LUnit2`. */
  datatype Operand2 = Components(ox: Operand, oy: Operand) | Whole(v: LUnit2)

  function ComponentX(b: Operand2): Operand
  {
    match b
    case Components(ox, _) => ox
    case Whole(v) => Measure(v.x)
  }

  function ComponentY(b: Operand2): Operand
  {
    match b
    case Components(_, oy) => oy
    case Whole(v) => Measure(v.y)
  }

  /** `LUnit2.__add__`: componentwise, failing if either axis fails. */
  function Add2(a: LUnit2, b: Operand2): (r: Result<LUnit2, UnitError>)
    ensures r.Ok? <==> Add(a.x, ComponentX(b)).Ok? && Add(a.y, ComponentY(b)).Ok?
    ensures r.Ok? ==> r.value == LUnit2(Add(a.x, ComponentX(b)).value, Add(a.y, ComponentY(b)).value)
  {
    var x :- Add(a.x, ComponentX(b));
    var y :- Add(a.y, ComponentY(b));
    Ok(LUnit2(x, y))
  }

  /** `LUnit2.__sub__`. */
  function Sub2(a: LUnit2, b: Operand2): (r: Result<LUnit2, UnitError>)
    ensures r.Ok? <==> Sub(a.x, ComponentX(b)).Ok? && Sub(a.y, ComponentY(b)).Ok?
    ensures r.Ok? ==> r.value == LUnit2(Sub(a.x, ComponentX(b)).value, Sub(a.y, ComponentY(b)).value)
  {
    var x :- Sub(a.x, ComponentX(b));
    var y :- Sub(a.y, ComponentY(b));
    Ok(LUnit2(x, y))
  }

  /** `LUnit2.__mul__`. */
  function Mul2(a: LUnit2, b: Operand2): (r: Result<LUnit2, UnitError>)
    ensures r.Ok? <==> Mul(a.x, ComponentX(b)).Ok? && Mul(a.y, ComponentY(b)).Ok?
    ensures r.Ok? ==> r.value == LUnit2(Mul(a.x, ComponentX(b)).value, Mul(a.y, ComponentY(b)).value)
  {
    var x :- Mul(a.x, ComponentX(b));
    var y :- Mul(a.y, ComponentY(b));
    Ok(LUnit2(x, y))
  }

  /** The arithmetic test: (100,100) px plus (10 px, 20 %) fails, plus
      (10,10) gives (110,110), and times (11,11) scales each axis. */
  lemma Arithmetic2Examples()
    ensures Add2(LUnit2(LUnit(100.0, Px), LUnit(100.0, Px)),
                 Whole(LUnit2(LUnit(10.0, Px), LUnit(20.0, Percent)))) == Err(UnitMismatch)
    ensures Add2(LUnit2(LUnit(100.0, Px), LUnit(100.0, Px)),
                 Whole(LUnit2(LUnit(10.0, Px), LUnit(10.0, Px)))) == Ok(LUnit2(LUnit(110.0, Px), LUnit(110.0, Px)))
    ensures Mul2(LUnit2(LUnit(11.0, Px), LUnit(11.0, Px)),
                 Components(Scalar(11.0), Scalar(11.0))) == Ok(LUnit2(LUnit(121.0, Px), LUnit(121.0, Px)))
  {
  }

  // ---------------------------------------------------------------------
  // Resolution to pixels

  function Min(a: real, b: real): real { if a <= b then a else b }

  function Max(a: real, b: real): real { if a >= b then a else b }

  /** `LUnit.abs`: resolve to pixels against `space` and the viewport. Pixels
      are capped at the space, percent (capped at 100) scales the space,
      viewport units (capped at 100) scale the viewport axis and are capped
      at the space, and a flex unit takes the whole space. */
  function Abs(u: LUnit, space: real, viewport: LUnit2): (r: LUnit)
    ensures r.unit == Px
    ensures space >= 0.0 ==> r.val <= space
    ensures u.unit == F ==> r.val == space
    ensures u.unit == Px && u.val <= space ==> r.val == u.val
    ensures u.unit == Percent && u.val >= 100.0 ==> r.val == space
  {
    match u.unit
    case Px => LUnit(Min(u.val, space), Px)
    case Percent =>
      PercentWithin(Min(u.val, 100.0), space);
      LUnit(Min(u.val, 100.0) * space / 100.0, Px)
    case Vh => LUnit(Min(space, Min(u.val, 100.0) * viewport.y.val / 100.0), Px)
    case Vw => LUnit(Min(space, Min(u.val, 100.0) * viewport.x.val / 100.0), Px)
    case F => LUnit(space, Px)
  }

  lemma PercentWithin(p: real, space: real)
    requires p <= 100.0
    ensures space >= 0.0 ==> p * space / 100.0 <= space
  {
    if space >= 0.0 {
      assert p * space <= 100.0 * space;
    }
  }

  /** Resolving a resolved measure again against the same space changes
      nothing: the result is already in pixels and within the space. */
  lemma AbsIdempotent(u: LUnit, space: real, viewport: LUnit2)
    requires space >= 0.0
    ensures Abs(Abs(u, space, viewport), space, viewport) == Abs(u, space, viewport)
  {
  }

  /** The resolution test: 10 px and 110 px in 100, 9 %, 1 f, 2.5 vh with a
      viewport 100 high, 5.54 vw with one 1000 wide, and 130.4 of every
      unit in 100 (viewport 100 by 100) gives 100. */
  lemma AbsExamples()
    ensures Abs(LUnit(10.0, Px), 100.0, LUnit2(LUnit(100.0, Px), LUnit(100.0, Px))).val == 10.0
    ensures Abs(LUnit(110.0, Px), 100.0, LUnit2(LUnit(100.0, Px), LUnit(100.0, Px))).val == 100.0
    ensures Abs(LUnit(9.0, Percent), 100.0, LUnit2(LUnit(100.0, Px), LUnit(100.0, Px))).val == 9.0
    ensures Abs(LUnit(1.0, F), 100.0, LUnit2(LUnit(100.0, Px), LUnit(100.0, Px))).val == 100.0
    ensures Abs(LUnit(2.5, Vh), 100.0, LUnit2(LUnit(10.0, Px), LUnit(100.0, Px))).val == 2.5
    ensures Abs(LUnit(5.54, Vw), 100.0, LUnit2(LUnit(1000.0, Px), LUnit(100.0, Px))).val == 55.4
    ensures forall k: Unit :: Abs(LUnit(130.4, k), 100.0, LUnit2(LUnit(100.0, Px), LUnit(100.0, Px))).val == 100.0
  {
  }

  /** `LUnit2.abs_x`: resolve the x component only. */
  function AbsX(v: LUnit2, space: real, viewport: LUnit2): (r: LUnit2)
    ensures r.y == v.y && r.x.unit == Px
  {
    LUnit2(Abs(v.x, space, viewport), v.y)
  }

  /** `LUnit2.abs_y`: resolve the y component only. */
  function AbsY(v: LUnit2, space: real, viewport: LUnit2): (r: LUnit2)
    ensures r.x == v.x && r.y.unit == Px
  {
    LUnit2(v.x, Abs(v.y, space, viewport))
  }

  /** `LUnit2.abs`: each component against its own axis' space. */
  function Abs2(v: LUnit2, xSpace: real, ySpace: real, viewport: LUnit2): (r: LUnit2)
    ensures r == AbsY(AbsX(v, xSpace, viewport), ySpace, viewport)
    ensures r.x.unit == Px && r.y.unit == Px
  {
    LUnit2(Abs(v.x, xSpace, viewport), Abs(v.y, ySpace, viewport))
  }

  /** `LUnit2.with_x`: replace the x component, keep y. */
  function WithX(v: LUnit2, u: LUnit): (r: LUnit2)
    ensures r.x == u && r.y == v.y
  {
    LUnit2(u, v.y)
  }

  /** `LUnit2.with_y`: replace the y component, keep x. */
  function WithY(v: LUnit2, u: LUnit): (r: LUnit2)
    ensures r.x == v.x && r.y == u
  {
    LUnit2(v.x, u)
  }

  // ---------------------------------------------------------------------
  // Rectangles

  /** `LRect`: top-left corner and extent. */
  datatype LRect = LRect(pos: (real, real), size: (real, real))

  function Right(r: LRect): real { r.pos.0 + r.size.0 }

  function Bottom(r: LRect): real { r.pos.1 + r.size.1 }

  /** `outer` spans `inner` on both axes. */
  predicate Contains(outer: LRect, inner: LRect)
  {
    outer.pos.0 <= inner.pos.0 && Right(inner) <= Right(outer) &&
    outer.pos.1 <= inner.pos.1 && Bottom(inner) <= Bottom(outer)
  }

  /** `LRect.collides_with`: a point test, edges included. */
  predicate CollidesWith(r: LRect, point: (real, real))
  {
    CollidesRect(point, r.pos, r.size)
  }

  /** `LRect.is_zero` as written (units.py:199-204): its only branch is
      `pass`, so every call returns `None`. */
  function IsZeroAsWritten(r: LRect): Option<bool>
  {
    None
  }

  /** `LRect.is_zero` as its doc-comment and the condition on line 203 mean
      it: both extents are zero. */
  predicate IsZero(r: LRect)
  {
    r.size.0 == 0.0 && r.size.1 == 0.0
  }

  /** A rectangle of no extent is not reported as zero as written: `None`
      is falsy, so a guard on it never fires. */
  lemma IsZeroAsWrittenMissesZero()
    ensures IsZero(LRect((3.0, 4.0), (0.0, 0.0)))
    ensures IsZeroAsWritten(LRect((3.0, 4.0), (0.0, 0.0))) != Some(true)
  {
  }

  /** `LRect.__add__`: the bounding box. It spans both operands, and every
      rectangle that spans both spans it. */
  function Union(a: LRect, b: LRect): (r: LRect)
    ensures Contains(r, a) && Contains(r, b)
    ensures r.pos == (Min(a.pos.0, b.pos.0), Min(a.pos.1, b.pos.1))
    ensures Right(r) == Max(Right(a), Right(b)) && Bottom(r) == Max(Bottom(a), Bottom(b))
  {
    var left := Min(a.pos.0, b.pos.0);
    var top := Min(a.pos.1, b.pos.1);
    var right := Max(a.pos.0 + a.size.0, b.pos.0 + b.size.0);
    var bottom := Max(a.pos.1 + a.size.1, b.pos.1 + b.size.1);
    LRect((left, top), (right - left, bottom - top))
  }

  lemma UnionIsSmallest(a: LRect, b: LRect, c: LRect)
    requires Contains(c, a) && Contains(c, b)
    ensures Contains(c, Union(a, b))
  {
  }

  lemma UnionCommutes(a: LRect, b: LRect)
    ensures Union(a, b) == Union(b, a)
  {
  }

  /** A point that hits a rectangle also hits every rectangle spanning it. */
  lemma ContainsCollides(outer: LRect, inner: LRect, point: (real, real))
    requires Contains(outer, inner) && CollidesWith(inner, point)
    ensures CollidesWith(outer, point)
  {
  }

  lemma ContainsTransitive(a: LRect, b: LRect, c: LRect)
    requires Contains(a, b) && Contains(b, c)
    ensures Contains(a, c)
  {
  }
}
