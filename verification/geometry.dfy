/** Export geometry and naming from edit.go: the bounding box `FitImage`
    asks the converter to fit an export into, and the file name an export
    is saved under. Go's float64 is modelled by exact reals; the
    conversion `int(x)` truncates toward zero. */
module Geometry {
  import opened Paths

  /** `math.MaxInt` on a 64-bit platform: the "unconstrained" size. */
  const MaxInt: int := 0x7fff_ffff_ffff_ffff

  /** The smallest size a constrained axis is given. */
  const MinSide: int := 16

  datatype ExportSettings = ExportSettings(
    dng: bool,
    preview: string,
    lossy: bool,
    embed: bool,
    both: bool,
    resample: bool,
    quality: int,
    fit: string,
    long: real,
    short: real,
    width: real,
    height: real,
    dimUnit: string,
    density: int,
    denUnit: string,
    mpixels: real)

  /** The zero value `exportSettings{}`. */
  const NoSettings: ExportSettings :=
    ExportSettings(false, "", false, false, false, false, 0, "", 0.0, 0.0, 0.0, 0.0, "", 0, "", 0.0)

  datatype Point = Point(x: int, y: int)

  /** Go's float-to-int conversion: the integer part, toward zero. */
  function Trunc(x: real): (i: int)
    ensures x >= 0.0 ==> i as real <= x < i as real + 1.0
    ensures x < 0.0 ==> i as real - 1.0 < x <= i as real
  {
    if x >= 0.0 then x.Floor else -((-x).Floor)
  }

  /** The `round` closure of `FitImage`: 0 means no constraint; anything
      else is rounded half up and held to at least 16. */
  function Round(x: real): (i: int)
    ensures i >= MinSide
    ensures x == 0.0 ==> i == MaxInt
  {
    if x == 0.0 then MaxInt
    else
      var i := Trunc(x + 0.5);
      if i < MinSide then MinSide else i
  }

  /** Above the floor, Round gives the nearest integer, halves rounding up. */
  lemma RoundNearest(x: real)
    requires x >= MinSide as real - 0.5
    ensures Round(x) as real - 0.5 <= x < Round(x) as real + 0.5
  {
  }

  /** Below the floor, every non-zero value (negative ones included) gives 16. */
  lemma RoundSmall(x: real)
    requires x != 0.0 && x < MinSide as real - 0.5
    ensures Round(x) == MinSide
  {
  }

  /** Larger positive sizes never round to smaller boxes. */
  lemma RoundMonotone(x: real, y: real)
    requires 0.0 < x <= y
    ensures Round(x) <= Round(y)
  {
    assert Trunc(x + 0.5) <= Trunc(y + 0.5);
  }

  /** How many pixels one unit of the requested dimensions is. A unit that
      is neither "px" nor "in" is taken as centimetres, and a density unit
      other than "ppi" as pixels per centimetre. */
  function UnitMultiplier(ex: ExportSettings): (m: real)
    ensures ex.dimUnit == "px" ==> m == 1.0
    ensures ex.density > 0 ==> m > 0.0
  {
    if ex.dimUnit == "px" then 1.0
    else
      var density := ex.density as real;
      if ex.dimUnit == "in" then
        if ex.denUnit == "ppi" then density else density * 2.54
      else
        if ex.denUnit == "ppi" then density / 2.54 else density
  }

  /** An inch is 2.54 centimetres, whichever density unit is used. */
  lemma UnitMultiplierInchCm(ex: ExportSettings, cm: string)
    requires cm != "px" && cm != "in"
    ensures UnitMultiplier(ex.(dimUnit := "in")) == 2.54 * UnitMultiplier(ex.(dimUnit := cm))
  {
  }

  /** The long and short sides as `FitImage` uses them: swapped when the
      long side is positive but smaller than the short one. */
  function Sides(ex: ExportSettings): (s: (real, real))
    ensures s.0 > 0.0 && s.1 > 0.0 ==> s.0 >= s.1
    ensures 0.0 < ex.long < ex.short ==> s == (ex.short, ex.long)
    ensures !(0.0 < ex.long < ex.short) ==> s == (ex.long, ex.short)
  {
    if 0.0 < ex.long && ex.long < ex.short then (ex.short, ex.long) else (ex.long, ex.short)
  }

  /** `FitImage`. For "mpix" the scale factor (a square root of the
      requested pixel count over the image's) is an input; only the choice
      of the unconstrained axis is meaningful there. */
  function FitImage(ex: ExportSettings, size: Point, mpixScale: real): (fit: Point)
    ensures ex.fit == "mpix" ==> (if size.x > size.y then fit.x == MaxInt else fit.y == MaxInt)
    ensures ex.fit != "mpix" ==> fit.x >= MinSide && fit.y >= MinSide
  {
    var mul, sides := UnitMultiplier(ex), Sides(ex);
    FitOf(ex.fit, Pixels(mul, sides.0, sides.1, ex.width, ex.height), size, mpixScale)
  }

  /** The requested lengths in pixels: long side, short side, width and
      height. */
  datatype Lengths = Lengths(long: real, short: real, width: real, height: real)

  function Pixels(mul: real, long: real, short: real, width: real, height: real): Lengths {
    Lengths(mul * long, mul * short, mul * width, mul * height)
  }

  /** The box of `FitImage` from the fit mode and the lengths in pixels. */
  function FitOf(fit: string, px: Lengths, size: Point, mpixScale: real): Point {
    if fit == "mpix" then
      if size.x > size.y then Point(MaxInt, Trunc(mpixScale * size.y as real))
      else Point(Trunc(mpixScale * size.x as real), MaxInt)
    else if fit == "dims" then
      if size.x > size.y then Point(Round(px.long), Round(px.short))
      else Point(Round(px.short), Round(px.long))
    else Point(Round(px.width), Round(px.height))
  }

  lemma MulMonotone(m: real, a: real, b: real)
    requires m > 0.0 && 0.0 < a <= b
    ensures 0.0 < m * a <= m * b
  {
  }

  /** With both sides given, the long side goes along the image's longer
      axis: landscape images get a box at least as wide as tall, portrait
      and square ones a box at least as tall as wide. This holds for any
      unit and density; a zero or negative multiplier makes both sides
      equal. */
  lemma FitDimsOrientation(ex: ExportSettings, size: Point, mpixScale: real)
    requires ex.fit == "dims" && ex.long > 0.0 && ex.short > 0.0
    ensures var fit := FitImage(ex, size, mpixScale);
      if size.x > size.y then fit.x >= fit.y else fit.x <= fit.y
  {
    var mul, sides := UnitMultiplier(ex), Sides(ex);
    var px := Pixels(mul, sides.0, sides.1, ex.width, ex.height);
    if mul > 0.0 {
      MulMonotone(mul, sides.1, sides.0);
      FitOfOrientation(ex.fit, px, size, mpixScale);
    } else {
      assert sides.0 > 0.0 && sides.1 > 0.0;
      assert mul == 0.0 ==> px.long == 0.0 && px.short == 0.0;
      assert mul < 0.0 ==> px.long < 0.0 && px.short < 0.0;
      EqualSmallSides(px.long, px.short);
    }
  }

  /** Two zero sizes, or two negative ones, give the same side. */
  lemma EqualSmallSides(a: real, b: real)
    requires (a == 0.0 && b == 0.0) || (a < 0.0 && b < 0.0)
    ensures Round(a) == Round(b)
  {
    if a != 0.0 {
      RoundSmall(a);
      RoundSmall(b);
    }
  }

  lemma FitOfOrientation(fit: string, px: Lengths, size: Point, mpixScale: real)
    requires fit == "dims" && 0.0 < px.short <= px.long
    ensures var r := FitOf(fit, px, size, mpixScale);
      if size.x > size.y then r.x >= r.y else r.x <= r.y
  {
    RoundMonotone(px.short, px.long);
  }

  lemma SidesSwap(ex: ExportSettings)
    requires ex.long > 0.0 && ex.short > 0.0
    ensures Sides(ex) == Sides(ex.(long := ex.short, short := ex.long))
  {
  }

  /** Which of the two sides is called "long" does not matter. */
  lemma FitDimsSwap(ex: ExportSettings, size: Point, mpixScale: real)
    requires ex.fit == "dims" && ex.long > 0.0 && ex.short > 0.0
    ensures FitImage(ex, size, mpixScale) == FitImage(ex.(long := ex.short, short := ex.long), size, mpixScale)
  {
    var ex' := ex.(long := ex.short, short := ex.long);
    SidesSwap(ex);
    assert UnitMultiplier(ex') == UnitMultiplier(ex);
  }

  /** A width-and-height box is not turned to follow the image. */
  lemma FitBoxIgnoresOrientation(ex: ExportSettings, a: Point, b: Point, mpixScale: real)
    requires ex.fit != "mpix" && ex.fit != "dims"
    ensures FitImage(ex, a, mpixScale) == FitImage(ex, b, mpixScale)
  {
  }

  /** The settings in centimetres that say the same as `ex` in inches. */
  function InCentimetres(ex: ExportSettings, cm: string): ExportSettings {
    ex.(dimUnit := cm, long := ex.long * 2.54, short := ex.short * 2.54,
        width := ex.width * 2.54, height := ex.height * 2.54)
  }

  /** Asking in inches or in centimetres (2.54 times the number) gives the
      same box. */
  lemma FitUnitInvariance(ex: ExportSettings, cm: string, size: Point, mpixScale: real)
    requires ex.fit != "mpix" && ex.dimUnit == "in" && cm != "px" && cm != "in"
    ensures FitImage(ex, size, mpixScale) == FitImage(InCentimetres(ex, cm), size, mpixScale)
  {
    var ex' := InCentimetres(ex, cm);
    var m' := UnitMultiplier(ex');
    assert m' == UnitMultiplier(ex.(dimUnit := cm));
    UnitMultiplierInchCm(ex, cm);
    var m, sides := UnitMultiplier(ex), Sides(ex);
    assert m == 2.54 * m';
    assert Sides(ex') == (sides.0 * 2.54, sides.1 * 2.54);
    PixelsScaled(m', sides.0, sides.1, ex.width, ex.height);
  }

  /** Multiplying the pixels per unit by 2.54 is the same as multiplying
      every length by it. */
  lemma PixelsScaled(m: real, long: real, short: real, width: real, height: real)
    ensures Pixels(2.54 * m, long, short, width, height)
         == Pixels(m, long * 2.54, short * 2.54, width * 2.54, height * 2.54)
  {
    Scaled(m, long);
    Scaled(m, short);
    Scaled(m, width);
    Scaled(m, height);
  }

  lemma Scaled(m: real, v: real)
    ensures m * (v * 2.54) == (2.54 * m) * v
  {
  }

  // --------------------------------------------------------- export name

  /** `exportPath`: the path with its extension replaced by ".dng" or ".jpg". */
  function ExportPath(path: string, dng: bool): (r: string)
    ensures Ext(r) == (if dng then ".dng" else ".jpg")
    ensures Stem(r) == Stem(path)
  {
    var ext := if dng then ".dng" else ".jpg";
    var r := TrimSuffix(path, Ext(path)) + ext;
    ExtOfAppended(Stem(path), ext);
    assert Stem(r) + ext == Stem(path) + ext;
    assert Stem(r) == (Stem(r) + ext)[..|Stem(r)|];
    r
  }

  /** Exporting an export's name again changes nothing. */
  lemma ExportPathIdempotent(path: string, dng: bool)
    ensures ExportPath(ExportPath(path, dng), dng) == ExportPath(path, dng)
  {
  }

  /** Two paths export to the same name exactly when they agree once their
      extensions are removed. */
  lemma ExportPathSameIff(p: string, q: string, dng: bool)
    ensures ExportPath(p, dng) == ExportPath(q, dng) <==> Stem(p) == Stem(q)
  {
  }
}
