/** The scan area of the Apple backend: requested sizes are quantised, then shrunk until they fit. */
module AppleArea {
  import opened SaneBytes

  predicate Listed(res: nat, bpp: nat) {
    && (res == 75 || res == 100 || res == 150 || res == 200 || res == 300)
    && (Aligned(bpp) || bpp == 3 || bpp == 24)
  }

  /** Depths whose pixels fill bytes at every resolution; the others are BiColor and Color. */
  predicate Aligned(bpp: nat) { bpp == 1 || bpp == 4 || bpp == 8 }

  /** C defines the conversion to an unsigned number, towards zero, for numbers above -1 only. */
  predicate Converts(x: real) { x > -1.0 }

  /** Whole units of x, rounded up when asked and at least a tenth is left over. */
  function Units(x: real, up: bool): (t: nat)
    requires Converts(x)
    ensures x >= 0.0 && !up ==> t as real <= x < t as real + 1.0
    ensures x >= 0.0 && up ==> t as real - 0.9 <= x < t as real + 0.1
    ensures x < 0.0 ==> t == 0
  {
    var t := if x < 0.0 then 0 else x.Floor;
    if up && x - t as real >= 0.1 then t + 1 else t
  }

  /** Bytes in x inches of a line, and lines in y inches. */
  function ByteUnits(x: real, res: nat, bpp: nat): real { x * res as real * bpp as real / 8.0 }
  function LineUnits(y: real, res: nat): real { y * res as real }

  lemma NonNegativeUnits(x: real, res: nat, bpp: nat)
    requires x >= 0.0 && Listed(res, bpp)
    ensures ByteUnits(x, res, bpp) >= 0.0 && LineUnits(x, res) >= 0.0
  {
  }

  /** XQSTEP and YQSTEP, in 1/1200 inch. */
  function XStep(res: nat, bpp: nat): (s: nat)
    requires Listed(res, bpp)
    ensures 0 < s && (Aligned(bpp) ==> s * res * bpp == 9600)
  {
    match bpp
    case 1 => 9600 / res
    case 3 => 9600 / (res * 3)
    case 4 => 9600 / (res * 4)
    case 8 => 9600 / (res * 8)
    case _ => 9600 / (res * 24)
  }

  function YStep(res: nat): (s: nat)
    requires Listed(res, 1)
    ensures 0 < s && s * res == 1200
  {
    1200 / res
  }

  /** Width in 1/1200 inch of a whole number of bytes. */
  function XQuant(x: real, res: nat, bpp: nat, up: bool): (r: nat)
    requires Listed(res, bpp) && Converts(ByteUnits(x, res, bpp))
    ensures Aligned(bpp) ==> r % XStep(res, bpp) == 0
  {
    var t := Units(ByteUnits(x, res, bpp), up);
    QuantSteps(t, res, bpp);
    t * 8 * 1200 / (res * bpp)
  }

  /** A step is 9600 / (res * bpp), rounded down. */
  lemma XStepIs(res: nat, bpp: nat)
    requires Listed(res, bpp)
    ensures XStep(res, bpp) * (res * bpp) <= 9600 < (XStep(res, bpp) + 1) * (res * bpp)
  {
    RoundsDown(9600, res * bpp);
  }

  /** t is x in whole units, rounded down, or up when a tenth is left over. */
  predicate Rounds(t: int, x: real, up: bool) {
    if up then t as real - 0.9 <= x < t as real + 0.1 else t as real <= x < t as real + 1.0
  }

  /** q is x in steps. */
  predicate InSteps(q: int, step: nat, x: real, up: bool)
    requires 0 < step
  {
    q % step == 0 && Rounds(q / step, x, up)
  }

  /** x inches of a line are a whole number of bytes, rounded, and a byte is a step where steps are exact. */
  lemma XQuantIs(x: real, res: nat, bpp: nat, up: bool) returns (t: nat)
    requires Listed(res, bpp) && x >= 0.0
    ensures Converts(ByteUnits(x, res, bpp)) && Rounds(t, x * (res * bpp) as real / 8.0, up)
    ensures XQuant(x, res, bpp, up) * (res * bpp) <= t * 9600 < (XQuant(x, res, bpp, up) + 1) * (res * bpp)
    ensures Aligned(bpp) ==> InSteps(XQuant(x, res, bpp, up), XStep(res, bpp), x * (res * bpp) as real / 8.0, up)
    ensures Aligned(bpp) ==> XQuant(x, res, bpp, up) / XStep(res, bpp) == t
  {
    NonNegativeUnits(x, res, bpp);
    t := Units(ByteUnits(x, res, bpp), up);
    BytesIn(x, res, bpp);
    RoundsDown(t * 9600, res * bpp);
    if Aligned(bpp) {
      BytesToDots(t, res, bpp);
      DivOfMultiple(t, XStep(res, bpp));
    }
  }

  lemma BytesIn(x: real, res: nat, bpp: nat)
    ensures ByteUnits(x, res, bpp) == x * (res * bpp) as real / 8.0
  {
    assert (res * bpp) as real == res as real * bpp as real;
    assert x * res as real * bpp as real == x * (res as real * bpp as real);
  }

  /** y inches are a whole number of lines, rounded. */
  lemma YQuantIs(y: real, res: nat, up: bool)
    requires Listed(res, 1) && y >= 0.0
    ensures Converts(LineUnits(y, res)) && InSteps(YQuant(y, res, up), YStep(res), y * res as real, up)
  {
    NonNegativeUnits(y, res, 1);
    var t := Units(LineUnits(y, res), up);
    LinesToDots(t, res);
    DivOfMultiple(t, YStep(res));
  }

  lemma QuantSteps(t: nat, res: nat, bpp: nat)
    requires Listed(res, bpp)
    ensures 0 < res * bpp && 0 <= t * 8 * 1200 / (res * bpp)
    ensures Aligned(bpp) ==> t * 8 * 1200 / (res * bpp) % XStep(res, bpp) == 0
  {
    if Aligned(bpp) {
      BytesToDots(t, res, bpp);
      DivOfMultiple(t, XStep(res, bpp));
    }
  }

  lemma BytesToDots(t: nat, res: nat, bpp: nat)
    requires Listed(res, bpp) && Aligned(bpp)
    ensures t * 8 * 1200 / (res * bpp) == t * XStep(res, bpp)
  {
    var d := res * bpp;
    assert XStep(res, bpp) * d == 9600;
    Regroup(t, XStep(res, bpp), d);
    DivOfMultiple(t * XStep(res, bpp), d);
  }

  lemma Regroup(t: int, s: int, d: int)
    requires s * d == 9600
    ensures t * 8 * 1200 == (t * s) * d
  {
    assert (t * s) * d == t * (s * d);
  }

  function YQuant(y: real, res: nat, up: bool): (r: nat)
    requires Listed(res, 1) && Converts(LineUnits(y, res))
    ensures r % YStep(res) == 0
  {
    var t := Units(LineUnits(y, res), up);
    LinesToDots(t, res);
    DivOfMultiple(t, YStep(res));
    t * 1200 / res
  }

  lemma LinesToDots(t: nat, res: nat)
    requires Listed(res, 1)
    ensures t * 1200 / res == t * YStep(res)
  {
    var s := YStep(res);
    assert t * 1200 == (t * s) * res by { assert (t * s) * res == t * (s * res); }
    DivOfMultiple(t * s, res);
  }

  // ---------------------------------------------------------------- shrinking

  /** w is the largest size that is size0 less some steps and fits behind the corner. */
  ghost predicate Fitted(corner: nat, size0: nat, step: nat, max: nat, w: int) {
    && 0 < step && w <= size0 && corner + w <= max && (size0 - w) % step == 0
    && (w == size0 || corner + w + step > max)
  }

  /** How many steps that takes, and what they leave. */
  function Steps(corner: nat, size0: nat, step: nat, max: nat): nat
    requires 0 < step
  {
    if corner + size0 <= max then 0 else (corner + size0 - max + step - 1) / step
  }

  function Shrunk(corner: nat, size0: nat, step: nat, max: nat): int
    requires 0 < step
  {
    size0 - Steps(corner, size0, step, max) * step
  }

  /** A fitted size is determined by the request. */
  lemma FittedIs(corner: nat, size0: nat, step: nat, max: nat, w: int)
    requires Fitted(corner, size0, step, max, w)
    ensures w == Shrunk(corner, size0, step, max)
  {
    var k := (size0 - w) / step;
    MultipleOf(size0 - w, step);
    if corner + size0 <= max {
      if w < size0 {
        SplitMultiples(0, k, step);
      }
    } else {
      var over := corner + size0 - max;
      MulSucc(k, step);
      DivUnique(over + step - 1, step, k, over - 1 - (k - 1) * step);
    }
  }

  /** Both directions shrink in one loop, each by its own step. */
  method Shrink(ulx: nat, width0: nat, xstep: nat, maxWidth: nat, uly: nat, height0: nat, ystep: nat, maxHeight: nat)
    returns (width: int, height: int)
    requires 0 < xstep && 0 < ystep
    ensures Fitted(ulx, width0, xstep, maxWidth, width) && Fitted(uly, height0, ystep, maxHeight, height)
  {
    width, height := width0, height0;
    var outX, outY := true, true;
    while outX || outY
      invariant width <= width0 && (width0 - width) % xstep == 0 && (width == width0 || ulx + width + xstep > maxWidth)
      invariant height <= height0 && (height0 - height) % ystep == 0 && (height == height0 || uly + height + ystep > maxHeight)
      invariant !outX && !outY ==> ulx + width <= maxWidth && uly + height <= maxHeight
      decreases Over(ulx + width - maxWidth) + Over(uly + height - maxHeight), outX || outY
    {
      outX, outY := false, false;
      if ulx + width > maxWidth {
        outX := true;
        OneMoreStep(width0 - width, xstep);
        width := width - xstep;
      }
      if uly + height > maxHeight {
        outY := true;
        OneMoreStep(height0 - height, ystep);
        height := height - ystep;
      }
    }
  }

  function Over(x: int): nat { if x > 0 then x else 0 }

  lemma OneMoreStep(d: int, step: nat)
    requires step > 0 && d % step == 0
    ensures (d + step) % step == 0
  {
    DivAddMultiple(1, d, step);
  }

  lemma MultipleOf(x: int, step: nat)
    requires step > 0 && x % step == 0
    ensures x == (x / step) * step
  {
  }

  /** The shrunk size is non-negative if and only if what remains of the size after whole steps fits behind the corner. */
  lemma NonNegativeWindow(corner: nat, size0: nat, step: nat, max: nat, w: int)
    requires Fitted(corner, size0, step, max, w)
    ensures 0 <= w <==> corner + size0 % step <= max
  {
    var k, r := (size0 - w) / step, size0 % step;
    MultipleOf(size0 - w, step);
    DivAddMultiple(k, w, step);
    assert w % step == r;
    var q := w / step;
    assert w == q * step + r;
    if q < 0 {
      SplitProduct(q, 0, step);
    } else {
      NonNegative(q, step);
    }
  }

  /** With the corner inside, the shrunk size is the largest multiple of the step that fits. */
  lemma LargestWindow(corner: nat, size0: nat, step: nat, max: nat, w: int, v: nat)
    requires Fitted(corner, size0, step, max, w) && size0 % step == 0 && corner <= max
    ensures 0 <= w && w % step == 0
    ensures v % step == 0 && v <= size0 && corner + v <= max ==> v <= w
  {
    MultipleOf(size0, step);
    MultipleOf(size0 - w, step);
    var a, b := size0 / step, (size0 - w) / step;
    MulSub(a, b, step);
    DivOfMultiple(a - b, step);
    MultipleOf(w, step);
    if w < 0 {
      SplitMultiples(a - b, 0, step);
    }
    if v % step == 0 && w < v <= size0 && corner + v <= max {
      MultipleOf(v, step);
      SplitMultiples(a - b, v / step, step);
    }
  }

  lemma SplitMultiples(a: int, b: int, s: int)
    requires s > 0 && a * s < b * s
    ensures a * s + s <= b * s
  {
    if b <= a {
      OrderedMultiples(b, a, s);
    }
    SplitProduct(a, b, s);
  }

  lemma OrderedMultiples(a: int, b: int, s: int)
    requires s > 0 && a <= b
    ensures a * s <= b * s
  {
    if a < b {
      SplitProduct(a, b, s);
    }
  }

  /** A width of whole bytes gives pixels that fill whole bytes. */
  lemma PixelsFillBytes(width: nat, res: nat, bpp: nat)
    requires Listed(res, bpp) && Aligned(bpp) && width % XStep(res, bpp) == 0
    ensures width * res / 1200 * bpp == width / XStep(res, bpp) * 8
  {
    var s, k := XStep(res, bpp), width / XStep(res, bpp);
    MultipleOf(width, s);
    var ppb := 8 / bpp;
    assert s * res == 1200 * ppb;
    assert width * res == (k * ppb) * 1200 by { MulTriple(k, s, res, ppb); }
    DivOfMultiple(k * ppb, 1200);
    assert k * ppb * bpp == k * 8;
  }

  lemma MulTriple(k: int, s: int, res: int, ppb: int)
    requires s * res == 1200 * ppb
    ensures k * s * res == (k * ppb) * 1200
  {
    assert k * s * res == k * (s * res);
  }

  lemma LinesCount(height: nat, res: nat)
    requires Listed(res, 1) && height % YStep(res) == 0
    ensures height * res / 1200 == height / YStep(res)
  {
    var s, k := YStep(res), height / YStep(res);
    MultipleOf(height, s);
    assert height * res == k * 1200 by { assert k * s * res == k * (s * res); }
    DivOfMultiple(k, 1200);
  }

  /** C's division rounds towards zero. */
  function Truncated(a: int, d: nat): (r: int)
    requires d > 0
    ensures a >= 0 ==> r >= 0 && r * d <= a < (r + 1) * d
    ensures a <= 0 ==> r <= 0 && (r - 1) * d < a <= r * d
  {
    RoundsDown(if a >= 0 then a else -a, d);
    if a >= 0 then a / d else -(-a / d)
  }

  lemma RoundsDown(a: nat, d: nat)
    requires d > 0
    ensures 0 <= a / d && a / d * d <= a < (a / d + 1) * d
    ensures -(a / d) * d == -(a / d * d) && (-(a / d) - 1) * d == -((a / d + 1) * d)
  {
    MulSucc(a / d, d);
    MulSub(0, a / d, d);
    MulSub(0, a / d + 1, d);
    DivLess(a, d, 0);
  }

  /** The largest value of the option, 8.51 inches in 1/65536 mm, rounded down. */
  const RIGHTMOST := 14165868.0 / 65536.0 / 25.4

  /** At the largest corner the option allows, on a glass of 10200 dots: the width turns negative. */
  lemma CornerOutside()
    ensures Converts(ByteUnits(RIGHTMOST, 300, 8)) && XQuant(RIGHTMOST, 300, 8, false) == 10208 && 10208 > 10200
    ensures forall w :: Fitted(10208, 0, XStep(300, 8), 10200, w) ==> w < 0
  {
    assert 2552.0 <= ByteUnits(RIGHTMOST, 300, 8) < 2553.0;
    assert Units(ByteUnits(RIGHTMOST, 300, 8), false) == 2552;
  }

  // ---------------------------------------------------------------- bits and bytes

  lemma WholeBits(p: int)
    ensures p * 24 % 8 == 0
    ensures p * 3 % 8 == 0 <==> p % 8 == 0
  {
    DivOfMultiple(p * 3, 8);
    var q, r := p / 8, p % 8;
    DivAddMultiple(q * 3, r * 3, 8);
  }

  /** The pixels of x / 1200 fill bytes in BiColor mode exactly when x is little above a multiple of 9600. */
  lemma BiColorBits(x: nat)
    ensures x / 1200 * 3 % 8 == 0 <==> x % 9600 < 1200
  {
    var q, r := x / 9600, x % 9600;
    assert x / 1200 == 8 * q + r / 1200;
    WholeBits(x / 1200);
  }

  /** A BiColor window that is not shrunk fills bytes exactly when its units come in threes. */
  lemma BiColorThrees(t: nat, res: nat)
    requires Listed(res, 3)
    ensures 0 <= t * 8 * 1200 / (res * 3)
    ensures t * 8 * 1200 / (res * 3) * res % 9600 < 1200 <==> t % 3 == 0
  {
    var q, r, d := t / 3, t % 3, res * 3;
    assert t == 3 * q + r && d * (9600 / res) == 28800 && 9600 / res * res == 9600;
    ThreesAndRest(d, 9600 / res, res, q, r);
    RestOfThree(res, r);
  }

  lemma ThreesAndRest(d: nat, k: nat, res: nat, q: nat, r: nat)
    requires 0 < d && d * k == 28800 && k * res == 9600
    ensures 0 <= (3 * q + r) * 9600 / d && (3 * q + r) * 9600 / d * res % 9600 == r * 9600 / d * res % 9600
  {
    MulAssoc(q, k, d);
    assert (3 * q + r) * 9600 == (q * k) * d + r * 9600;
    DivAddMultiple(q * k, r * 9600, d);
    MulAdd(q * k, r * 9600 / d, res);
    MulAssoc(q, k, res);
    DivAddMultiple(q, r * 9600 / d * res, 9600);
    NonNegative(q, k);
  }

  lemma RestOfThree(res: nat, r: nat)
    requires Listed(res, 3) && r < 3
    ensures r * 9600 / (res * 3) * res % 9600 < 1200 <==> r == 0
  {
    assert r == 0 || r == 1 || r == 2;
  }

  /** In BiColor mode an inch at 75 dpi is a window of 77 pixels, whose 231 bits do not fill bytes. */
  lemma BiColorUnaligned()
    ensures Converts(ByteUnits(1.0, 75, 3)) && XQuant(1.0, 75, 3, true) == 1237 && 1237 * 75 / 1200 * 3 % 8 != 0
  {
    assert ByteUnits(1.0, 75, 3) == 28.125;
    assert Units(28.125, true) == 29;
  }

  /** The width that a request leaves, and whether BiColor lines of it fill bytes. */
  function Width(ulx: nat, wx: real, res: nat, bpp: nat, maxWidth: nat): int
    requires Listed(res, bpp) && Converts(ByteUnits(wx, res, bpp))
  {
    Shrunk(ulx, XQuant(wx, res, bpp, true), XStep(res, bpp), maxWidth)
  }

  predicate FillsBytes(ulx: nat, wx: real, res: nat, bpp: nat, maxWidth: nat)
    requires Listed(res, bpp) && Converts(ByteUnits(wx, res, bpp))
  {
    bpp != 3 || Width(ulx, wx, res, bpp, maxWidth) * res % 9600 < 1200
  }

  /** For a request that fits, the rounded number of bytes decides. */
  lemma FillsBytesUnshrunk(ulx: nat, wx: real, res: nat, maxWidth: nat)
    requires Listed(res, 3) && Converts(ByteUnits(wx, res, 3)) && ulx + XQuant(wx, res, 3, true) <= maxWidth
    ensures FillsBytes(ulx, wx, res, 3, maxWidth) <==> Units(ByteUnits(wx, res, 3), true) % 3 == 0
  {
    BiColorThrees(Units(ByteUnits(wx, res, 3), true), res);
  }

  // ---------------------------------------------------------------- the whole computation

  /** With exchanged corners the conversion may be undefined. */
  datatype Area = Area(ulx: nat, uly: nat, width: int, height: int, pixels: int, lines: int) | Undefined

  /** An inch from right to left is more than a byte, at every resolution. */
  lemma ExchangedCorners(res: nat, bpp: nat)
    requires Listed(res, bpp)
    ensures !Converts(ByteUnits(-1.0, res, bpp)) && !Converts(LineUnits(-1.0, res))
  {
  }

  /** calc_parameters: quantise the wanted window, shrink it into the glass, count pixels and lines. */
  method CalcArea(ulx: real, uly: real, wx: real, wy: real, res: nat, bpp: nat, maxWidth: nat, maxHeight: nat)
    returns (a: Area)
    requires ulx >= 0.0 && uly >= 0.0 && Listed(res, bpp)
    ensures a.Undefined? <==> !Converts(ByteUnits(wx, res, bpp)) || !Converts(LineUnits(wy, res))
    ensures Converts(ByteUnits(ulx, res, bpp)) && Converts(LineUnits(uly, res))
    ensures a.Area? ==>
      && a.ulx == XQuant(ulx, res, bpp, false) && a.uly == YQuant(uly, res, false)
      && Fitted(a.ulx, XQuant(wx, res, bpp, true), XStep(res, bpp), maxWidth, a.width)
      && Fitted(a.uly, YQuant(wy, res, true), YStep(res), maxHeight, a.height)
      && a.width == Width(a.ulx, wx, res, bpp, maxWidth)
      && (0 <= a.width <==> a.ulx + XQuant(wx, res, bpp, true) % XStep(res, bpp) <= maxWidth)
      && (Aligned(bpp) ==> (0 <= a.width <==> a.ulx <= maxWidth))
      && (0 <= a.height <==> a.uly <= maxHeight)
      && a.pixels == Truncated(a.width * res, 1200) && a.lines == Truncated(a.height * res, 1200)
      && (0 <= a.width && Aligned(bpp) ==> a.pixels * bpp == a.width / XStep(res, bpp) * 8)
      && (0 <= a.width ==> (a.pixels * bpp % 8 == 0 <==> FillsBytes(a.ulx, wx, res, bpp, maxWidth)))
      && (0 <= a.height ==> a.lines == a.height / YStep(res))
    ensures a.Area? ==>
      && InSteps(a.uly, YStep(res), uly * res as real, false)
      && (Aligned(bpp) ==> InSteps(a.ulx, XStep(res, bpp), ulx * (res * bpp) as real / 8.0, false))
      && (wy >= 0.0 && a.uly + YQuant(wy, res, true) <= maxHeight ==>
           InSteps(a.height, YStep(res), wy * res as real, true) && Rounds(a.lines, wy * res as real, true))
      && (wx >= 0.0 && Aligned(bpp) && a.ulx + XQuant(wx, res, bpp, true) <= maxWidth ==>
           && InSteps(a.width, XStep(res, bpp), wx * (res * bpp) as real / 8.0, true)
           && a.pixels * bpp % 8 == 0 && Rounds(a.pixels * bpp / 8, wx * (res * bpp) as real / 8.0, true))
  {
    NonNegativeUnits(ulx, res, bpp);
    NonNegativeUnits(uly, res, bpp);
    if !Converts(ByteUnits(wx, res, bpp)) || !Converts(LineUnits(wy, res)) {
      return Undefined;
    }
    var x, y := XQuant(ulx, res, bpp, false), YQuant(uly, res, false);
    var width0, height0 := XQuant(wx, res, bpp, true), YQuant(wy, res, true);
    var w, h := Shrink(x, width0, XStep(res, bpp), maxWidth, y, height0, YStep(res), maxHeight);
    var pixels := Truncated(w * res, 1200);
    FittedIs(x, width0, XStep(res, bpp), maxWidth, w);
    NonNegativeWindow(x, width0, XStep(res, bpp), maxWidth, w);
    if 0 <= w {
      FilledLines(x, wx, res, bpp, maxWidth, w, pixels);
    }
    if y <= maxHeight {
      LargestWindow(y, height0, YStep(res), maxHeight, h, 0);
      LinesCount(h, res);
    }
    var lines := Truncated(h * res, 1200);
    RequestedWindow(ulx, uly, wx, wy, res, bpp, maxWidth, maxHeight, x, y, w, h, pixels, lines);
    a := Area(x, y, w, h, pixels, lines);
  }

  /** A request that fits is granted, rounded to lines and bytes. */
  lemma RequestedWindow(ulx: real, uly: real, wx: real, wy: real, res: nat, bpp: nat, maxWidth: nat, maxHeight: nat,
                        x: nat, y: nat, w: int, h: int, pixels: int, lines: int)
    requires ulx >= 0.0 && uly >= 0.0 && Listed(res, bpp)
    requires Converts(ByteUnits(ulx, res, bpp)) && Converts(LineUnits(uly, res))
    requires Converts(ByteUnits(wx, res, bpp)) && Converts(LineUnits(wy, res))
    requires x == XQuant(ulx, res, bpp, false) && y == YQuant(uly, res, false)
    requires Fitted(x, XQuant(wx, res, bpp, true), XStep(res, bpp), maxWidth, w)
    requires Fitted(y, YQuant(wy, res, true), YStep(res), maxHeight, h)
    requires 0 <= w && Aligned(bpp) ==> pixels * bpp == w / XStep(res, bpp) * 8
    requires 0 <= h ==> lines == h / YStep(res)
    ensures InSteps(y, YStep(res), uly * res as real, false)
    ensures Aligned(bpp) ==> InSteps(x, XStep(res, bpp), ulx * (res * bpp) as real / 8.0, false)
    ensures wy >= 0.0 && y + YQuant(wy, res, true) <= maxHeight ==>
      InSteps(h, YStep(res), wy * res as real, true) && Rounds(lines, wy * res as real, true)
    ensures wx >= 0.0 && Aligned(bpp) && x + XQuant(wx, res, bpp, true) <= maxWidth ==>
      && InSteps(w, XStep(res, bpp), wx * (res * bpp) as real / 8.0, true)
      && pixels * bpp % 8 == 0 && Rounds(pixels * bpp / 8, wx * (res * bpp) as real / 8.0, true)
  {
    YQuantIs(uly, res, false);
    var t := XQuantIs(ulx, res, bpp, false);
    if wy >= 0.0 && y + YQuant(wy, res, true) <= maxHeight {
      FittedIs(y, YQuant(wy, res, true), YStep(res), maxHeight, h);
      YQuantIs(wy, res, true);
    }
    if wx >= 0.0 && Aligned(bpp) && x + XQuant(wx, res, bpp, true) <= maxWidth {
      FittedIs(x, XQuant(wx, res, bpp, true), XStep(res, bpp), maxWidth, w);
      var b := XQuantIs(wx, res, bpp, true);
      DivOfMultiple(w / XStep(res, bpp), 8);
    }
  }

  lemma FilledLines(x: nat, wx: real, res: nat, bpp: nat, maxWidth: nat, w: nat, pixels: int)
    requires Listed(res, bpp) && Converts(ByteUnits(wx, res, bpp)) && pixels == Truncated(w * res, 1200)
    requires Fitted(x, XQuant(wx, res, bpp, true), XStep(res, bpp), maxWidth, w)
    requires w == Width(x, wx, res, bpp, maxWidth)
    ensures Aligned(bpp) ==> pixels * bpp == w / XStep(res, bpp) * 8
    ensures pixels * bpp % 8 == 0 <==> FillsBytes(x, wx, res, bpp, maxWidth)
  {
    NonNegative(w, res);
    if Aligned(bpp) {
      LargestWindow(x, XQuant(wx, res, bpp, true), XStep(res, bpp), maxWidth, w, 0);
      PixelsFillBytes(w, res, bpp);
      DivOfMultiple(w / XStep(res, bpp), 8);
    } else {
      WholeBits(pixels);
      BiColorBits(w * res);
    }
  }
}
