/**
 The software scaler of the Avision reader, as a function of the whole image:
 output line n blends two neighbouring source lines, and every output byte blends
 four source samples.  Source coordinates are exact: floor(by) is the quotient and
 (by - floor(by)) * 256 the scaled remainder of an integer division.
 */
module AvisionScale {
  import opened SaneBytes
  import opened AvisionImage

  /** The geometry the scaler relies on; ScalableJob shows where it comes from. */
  predicate Scalable(job: Job) {
    && job.Valid() && job.Scaled()
    && 0 < job.outLines <= job.hwLines && 2 <= job.hwLines
    && (0 < job.outPixels ==> 2 <= job.hwPixels)
    && job.outPixels <= job.hwPixels
  }

  lemma ShrinksBy(n: nat, xres: nat, hwXres: nat)
    requires 0 < xres < hwXres
    ensures 0 <= n * xres / hwXres <= n
    ensures n * xres / hwXres > 0 ==> n >= 2
  {
    MulMono(xres, hwXres, n);
    DivLess(n * xres, hwXres, n + 1);
    MulSucc(n, hwXres);
    DivLess(n * xres, hwXres, 1);
    DivLess(n * xres, hwXres, 0);
  }

  /** A scaled job that announces at least one line is one the scaler can process. */
  lemma ScalableJob(job: Job)
    requires job.Valid() && job.Announced() && job.Scaled() && job.outLines > 0
    ensures Scalable(job)
  {
    ShrinksBy(job.hwLines, job.xres, job.hwXres);
    ShrinksBy(job.hwPixels, job.xres, job.hwXres);
  }

  // ---------------------------------------------------------------- one byte

  /** Weighted mean of four samples, as the reader computes it. */
  function Blend(a: Byte, b: Byte, c: Byte, d: Byte, xd: nat, yd: nat): (v: Byte)
    requires xd < 256 && yd < 256
  {
    BlendBetween(a, b, c, d, xd, yd, 0, 255);
    BlendSum(a, b, c, d, xd, yd) / (256 * 256)
  }

  function BlendSum(a: int, b: int, c: int, d: int, xd: int, yd: int): int {
    a * ((256 - xd) * (256 - yd)) + b * (xd * (256 - yd)) + c * ((256 - xd) * yd) + d * (xd * yd)
  }

  lemma ScaleBetween(a: int, w: int, lo: int, hi: int)
    requires lo <= a <= hi && w >= 0
    ensures lo * w <= a * w <= hi * w
  {
    NonNegative(a - lo, w);
    MulSub(a, lo, w);
    NonNegative(hi - a, w);
    MulSub(hi, a, w);
  }

  lemma WeightsSum(xd: int, yd: int)
    ensures (256 - xd) * (256 - yd) + xd * (256 - yd) + (256 - xd) * yd + xd * yd == 65536
  {
    MulAdd(256 - xd, xd, 256 - yd);
    MulAdd(256 - xd, xd, yd);
  }

  lemma Distribute(s: int, a: int, b: int, c: int, d: int)
    ensures s * a + s * b + s * c + s * d == s * (a + b + c + d)
  {
  }

  /** A mean with weights p, q, r and t. */
  lemma MeanBetween(a: int, b: int, c: int, d: int, p: int, q: int, r: int, t: int, lo: int, hi: int)
    requires p >= 0 && q >= 0 && r >= 0 && t >= 0 && p + q + r + t == 65536
    requires lo <= a <= hi && lo <= b <= hi && lo <= c <= hi && lo <= d <= hi
    ensures lo <= (a * p + b * q + c * r + d * t) / 65536 <= hi
  {
    ScaleBetween(a, p, lo, hi);
    ScaleBetween(b, q, lo, hi);
    ScaleBetween(c, r, lo, hi);
    ScaleBetween(d, t, lo, hi);
    Distribute(lo, p, q, r, t);
    Distribute(hi, p, q, r, t);
    QuotientBetween(a * p + b * q + c * r + d * t, lo, hi);
  }

  lemma QuotientBetween(sum: int, lo: int, hi: int)
    requires lo * 65536 <= sum <= hi * 65536
    ensures lo <= sum / 65536 <= hi
  {
  }

  /** A blended value lies between the smallest and the largest of its four sources. */
  lemma BlendBetween(a: int, b: int, c: int, d: int, xd: nat, yd: nat, lo: int, hi: int)
    requires xd < 256 && yd < 256
    requires lo <= a <= hi && lo <= b <= hi && lo <= c <= hi && lo <= d <= hi
    ensures lo <= BlendSum(a, b, c, d, xd, yd) / (256 * 256) <= hi
  {
    NonNegative(256 - xd, 256 - yd);
    NonNegative(xd, 256 - yd);
    NonNegative(256 - xd, yd);
    NonNegative(xd, yd);
    WeightsSum(xd, yd);
    MeanBetween(a, b, c, d, (256 - xd) * (256 - yd), xd * (256 - yd), (256 - xd) * yd, xd * yd, lo, hi);
  }

  /**
   v is the bilinear value of four samples, rounded down: interpolate on the upper line and on the
   lower line, xd / 256 of the way to the right, then yd / 256 of the way down.
   */
  ghost predicate IsBlend(v: int, a: int, b: int, c: int, d: int, xd: int, yd: int) {
    var upper, lower := a * (256 - xd) + b * xd, c * (256 - xd) + d * xd;
    v * 65536 <= upper * (256 - yd) + lower * yd < (v + 1) * 65536
  }

  lemma BlendIs(a: Byte, b: Byte, c: Byte, d: Byte, xd: nat, yd: nat)
    requires xd < 256 && yd < 256
    ensures IsBlend(Blend(a, b, c, d, xd, yd), a, b, c, d, xd, yd)
  {
    TwoWeights(a, b, xd, 256 - yd);
    TwoWeights(c, d, xd, yd);
  }

  lemma TwoWeights(a: int, b: int, xd: int, w: int)
    ensures a * ((256 - xd) * w) + b * (xd * w) == (a * (256 - xd) + b * xd) * w
  {
    MulAssoc(a, 256 - xd, w);
    MulAssoc(b, xd, w);
    MulAdd(a * (256 - xd), b * xd, w);
  }

  /** When the two lines are equal, only the horizontal distance counts. */
  lemma BlendAlongLine(a: Byte, b: Byte, xd: nat, yd: nat)
    requires xd < 256 && yd < 256
    ensures Blend(a, b, a, b, xd, yd) == (a * (256 - xd) + b * xd) / 256
  {
    BlendIs(a, b, a, b, xd, yd);
    SameWeights(a * (256 - xd) + b * xd, yd);
  }

  lemma SameWeights(x: int, yd: int)
    ensures x * (256 - yd) + x * yd == x * 256
  {
    MulSub(256, yd, x);
  }

  /** When left and right are equal, only the vertical distance counts. */
  lemma BlendAcrossLines(a: Byte, c: Byte, xd: nat, yd: nat)
    requires xd < 256 && yd < 256
    ensures Blend(a, a, c, c, xd, yd) == (a * (256 - yd) + c * yd) / 256
  {
    BlendIs(a, a, c, c, xd, yd);
    SameWeights(a, xd);
    SameWeights(c, xd);
    Scaled256(a, 256 - yd);
    Scaled256(c, yd);
  }

  lemma Scaled256(a: int, w: int)
    ensures (a * 256) * w == 256 * (a * w)
  {
    MulAssoc(a, 256, w);
  }

  // ---------------------------------------------------------------- coordinates

  /** floor((size - 1) * n / out): the first source position of output position n. */
  function Coord(size: nat, out: nat, n: nat): int
    requires out > 0
  {
    (size - 1) * n / out
  }

  function Dist(size: nat, out: nat, n: nat): (d: nat)
    requires out > 0
    ensures d < 256
  {
    var r := (size - 1) * n % out;
    DivLess(r * 256, out, 256);
    DivLess(r * 256, out, 0);
    r * 256 / out
  }

  /** Coord and Dist are the exact position (size - 1) * n / out, rounded down to 1/256. */
  lemma CoordIs(size: nat, out: nat, n: nat)
    requires out > 0
    ensures 0 <= (size - 1) * n * 256 - (Coord(size, out, n) * 256 + Dist(size, out, n)) * out < out
  {
    var x := (size - 1) * n;
    var q, r := x / out, x % out;
    var d, rest := r * 256 / out, r * 256 % out;
    assert x == q * out + r && r * 256 == d * out + rest;
    MulAdd(q * 256, d, out);
    assert (q * 256) * out == (q * out) * 256;
  }

  /** Both source positions of an output position are inside the source. */
  lemma CoordInside(size: nat, out: nat, n: nat)
    requires 2 <= size && n < out
    ensures 0 <= Coord(size, out, n) && Coord(size, out, n) + 1 < size
  {
    NonNegative(size - 1, n);
    SplitProduct(n, out, size - 1);
    DivLess((size - 1) * n, out, size - 1);
    DivLess((size - 1) * n, out, 0);
  }

  lemma CoordMono(size: nat, out: nat, m: nat, n: nat)
    requires 1 <= size && m <= n && out > 0
    ensures 0 <= Coord(size, out, m) <= Coord(size, out, n)
  {
    MulMono(m, n, size - 1);
    NonNegative(size - 1, m);
    var h := Coord(size, out, n) + 1;
    DivLess((size - 1) * n, out, h);
    DivLess((size - 1) * m, out, h);
    DivLess((size - 1) * m, out, 0);
  }

  // ---------------------------------------------------------------- lines

  function Offset(job: Job, x: nat, c: nat): nat {
    if job.channels == 1 then x else 3 * x + c
  }

  function PixelOf(job: Job, k: nat): nat { if job.channels == 1 then k else k / 3 }
  function ChannelOf(job: Job, k: nat): nat { if job.channels == 1 then 0 else k % 3 }

  /** Byte k of the line blended from two source lines. */
  function BlendByte(job: Job, top: seq<Byte>, bottom: seq<Byte>, yd: nat, k: nat): Byte
    requires Scalable(job) && |top| == |bottom| == job.bpl && yd < 256 && k < job.ScaledBpl()
  {
    var x, c := PixelOf(job, k), ChannelOf(job, k);
    CoordInside(job.hwPixels, job.outPixels, x);
    var sx, xd := Coord(job.hwPixels, job.outPixels, x), Dist(job.hwPixels, job.outPixels, x);
    Blend(top[Offset(job, sx, c)], top[Offset(job, sx + 1, c)],
          bottom[Offset(job, sx, c)], bottom[Offset(job, sx + 1, c)], xd, yd)
  }

  function BlendLine(job: Job, top: seq<Byte>, bottom: seq<Byte>, yd: nat): (r: seq<Byte>)
    requires Scalable(job) && |top| == |bottom| == job.bpl && yd < 256
    ensures |r| == job.ScaledBpl()
  {
    seq(job.ScaledBpl(), k requires 0 <= k < job.ScaledBpl() => BlendByte(job, top, bottom, yd, k))
  }

  function SrcLine(job: Job, n: nat): (l: nat)
    requires Scalable(job)
  {
    CoordMono(job.hwLines, job.outLines, n, n);
    Coord(job.hwLines, job.outLines, n)
  }

  function YDist(job: Job, n: nat): (d: nat)
    requires Scalable(job)
    ensures d < 256
  {
    Dist(job.hwLines, job.outLines, n)
  }

  /** Can output line n be made from the first `have` lines of the page? */
  predicate Avail(job: Job, n: nat, have: nat)
    requires Scalable(job)
  {
    && (job.FrontPass() ==> SrcLine(job, n) + 1 < job.hwLines)
    && SrcLine(job, n) + job.Skip() + 1 < have
  }

  lemma AvailMono(job: Job, m: nat, n: nat, have: nat, more: nat)
    requires Scalable(job) && m <= n && have <= more && Avail(job, n, have)
    ensures Avail(job, m, more)
  {
    CoordMono(job.hwLines, job.outLines, m, n);
  }

  function ScaledLine(job: Job, image: seq<Byte>, n: nat): (r: seq<Byte>)
    requires Scalable(job) && Avail(job, n, Lines(|image|, job.bpl))
    ensures |r| == job.ScaledBpl()
  {
    var l := SrcLine(job, n) + job.Skip();
    LineFits(|image|, job.bpl, l);
    LineFits(|image|, job.bpl, l + 1);
    BlendLine(job, LineOf(image, job.bpl, l), LineOf(image, job.bpl, l + 1), YDist(job, n))
  }

  lemma ScaledLineFrom(job: Job, image: seq<Byte>, n: nat, l: nat, top: seq<Byte>, bottom: seq<Byte>)
    requires Scalable(job) && Avail(job, n, Lines(|image|, job.bpl))
    requires l == SrcLine(job, n) + job.Skip()
    requires l * job.bpl + job.bpl <= |image| && (l + 1) * job.bpl + job.bpl <= |image|
    requires top == LineOf(image, job.bpl, l) && bottom == LineOf(image, job.bpl, l + 1)
    ensures ScaledLine(job, image, n) == BlendLine(job, top, bottom, YDist(job, n))
  {
  }

  /** The first n output lines of an image. */
  function ScaledLines(job: Job, image: seq<Byte>, n: nat): seq<Byte>
    requires Scalable(job)
    requires n > 0 ==> Avail(job, n - 1, Lines(|image|, job.bpl))
  {
    if n == 0 then []
    else
      assert n > 1 ==> Avail(job, n - 2, Lines(|image|, job.bpl)) by {
        if n > 1 { AvailMono(job, n - 2, n - 1, Lines(|image|, job.bpl), Lines(|image|, job.bpl)); }
      }
      ScaledLines(job, image, n - 1) + ScaledLine(job, image, n - 1)
  }

  /** More image does not change a line that could already be made. */
  lemma ScaledLineStable(job: Job, image: seq<Byte>, more: seq<Byte>, n: nat)
    requires Scalable(job) && image <= more && Avail(job, n, Lines(|image|, job.bpl))
    ensures Avail(job, n, Lines(|more|, job.bpl)) && ScaledLine(job, image, n) == ScaledLine(job, more, n)
  {
    QuotientMono(|image|, |more|, job.bpl);
    var l := SrcLine(job, n) + job.Skip();
    LineFits(|image|, job.bpl, l);
    LineFits(|image|, job.bpl, l + 1);
    LineOfPrefix(image, more, job.bpl, l);
    LineOfPrefix(image, more, job.bpl, l + 1);
  }

  lemma QuotientMono(a: nat, b: nat, w: nat)
    requires a <= b && w > 0
    ensures a / w <= b / w
  {
    DivLess(a, w, b / w + 1);
    DivLess(b, w, b / w + 1);
  }

  lemma {:induction false} ScaledLinesStable(job: Job, image: seq<Byte>, more: seq<Byte>, n: nat)
    requires Scalable(job) && image <= more
    requires n > 0 ==> Avail(job, n - 1, Lines(|image|, job.bpl))
    ensures n > 0 ==> Avail(job, n - 1, Lines(|more|, job.bpl))
    ensures ScaledLines(job, image, n) == ScaledLines(job, more, n)
    decreases n
  {
    if n > 0 {
      ScaledLineStable(job, image, more, n - 1);
      if n > 1 {
        AvailMono(job, n - 2, n - 1, Lines(|image|, job.bpl), Lines(|image|, job.bpl));
        ScaledLinesStable(job, image, more, n - 1);
      }
    }
  }

  lemma {:induction false} ScaledLinesLength(job: Job, image: seq<Byte>, n: nat)
    requires Scalable(job)
    requires n > 0 ==> Avail(job, n - 1, Lines(|image|, job.bpl))
    ensures |ScaledLines(job, image, n)| == n * job.ScaledBpl()
    decreases n
  {
    if n > 0 {
      MulSucc(n, job.ScaledBpl());
      if n > 1 {
        AvailMono(job, n - 2, n - 1, Lines(|image|, job.bpl), Lines(|image|, job.bpl));
        ScaledLinesLength(job, image, n - 1);
      }
    }
  }

  // ---------------------------------------------------------------- how many lines

  function CeilDiv(a: nat, d: nat): nat
    requires d > 0
  {
    (a + d - 1) / d
  }

  lemma CeilDivLess(a: nat, d: nat, l: nat)
    requires d > 0
    ensures l < CeilDiv(a, d) <==> l * d < a
  {
    DivLess(a + d - 1, d, l + 1);
    MulSucc(l, d);
  }

  /** The number of output lines that the first `have` lines of the page give. */
  function ScaledCount(job: Job, have: nat): nat
    requires Scalable(job)
  {
    var h := have - job.Skip() - 1;
    var limit := if job.FrontPass() then Min(h, job.hwLines - 1) else h;
    if limit <= 0 then 0
    else NonNegative(limit, job.outLines); CeilDiv(limit * job.outLines, job.hwLines - 1)
  }

  /** Exactly the first ScaledCount lines can be made. */
  lemma AvailCount(job: Job, n: nat, have: nat)
    requires Scalable(job)
    ensures Avail(job, n, have) <==> n < ScaledCount(job, have)
  {
    var h := have - job.Skip() - 1;
    var limit := if job.FrontPass() then Min(h, job.hwLines - 1) else h;
    assert Avail(job, n, have) <==> SrcLine(job, n) < limit;
    if limit > 0 {
      NonNegative(limit, job.outLines);
      CoordBelow(job.hwLines, job.outLines, n, limit);
    }
  }

  lemma CoordBelow(size: nat, out: nat, n: nat, limit: nat)
    requires 2 <= size && 0 < out && 0 <= limit * out
    ensures Coord(size, out, n) < limit <==> n < CeilDiv(limit * out, size - 1)
  {
    CeilDivLess(limit * out, size - 1, n);
    DivLess((size - 1) * n, out, limit);
  }

  /** A complete page gives exactly the announced number of lines. */
  lemma CompletePageCount(job: Job, have: nat)
    requires Scalable(job)
    requires have == job.hwLines + job.Skip() || (job.FrontPass() && have >= job.hwLines)
    ensures ScaledCount(job, have) == job.outLines
  {
    CeilDivMultiple(job.outLines, job.hwLines - 1);
  }

  lemma CeilDivMultiple(n: nat, d: nat)
    requires d > 0
    ensures 0 <= d * n && CeilDiv(d * n, d) == n
  {
    NonNegative(d, n);
    DivUnique(d * n + d - 1, d, n, d - 1);
  }
}
