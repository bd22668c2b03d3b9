/** What a run of the reader process means for the page: line counts, colours, sides. */
module AvisionTheorems {
  import opened SaneBytes
  import opened AvisionImage
  import opened AvisionScale
  import opened AvisionReader
  import opened AvisionRun
  import opened AvisionSamples

  // ---------------------------------------------------------------- flatbed line counts

  /** A simplex page of h lines never gives more lines than announced, and all of them when complete. */
  lemma LinesAnnounced(job: Job, h: nat)
    requires Runnable(job) && job.Announced() && job.deinterlace == Whole && h <= job.hwLines
    ensures LineCount(job, h) <= job.outLines
    ensures h == job.hwLines ==> LineCount(job, h) == job.outLines
  {
    if job.Scaled() {
      CompletePageCount(job, job.hwLines);
      CountMono(job, h, job.hwLines);
    } else {
      DivOfMultiple(job.hwLines, job.xres);
    }
  }

  /** The image of a simplex run has at most hwLines lines, and exactly those when all data came. */
  lemma SimplexLines(job: Job, device: seq<Byte>)
    requires job.Valid() && job.deinterlace == Whole && job.Carry() <= |device|
    ensures job.Carry() <= |RawPage(job, device)|
    ensures var h := Lines(|PageImage(job, device)|, job.bpl);
      && |PageImage(job, device)| == h * job.bpl && h <= job.hwLines
      && (job.Total() <= |device| ==> h == job.hwLines)
  {
    TotalCoversCarry(job);
    MulSub(job.TotalLines(), 2 * job.lineDiff, job.bpl);
    MulTwice(job.lineDiff, job.bpl);
    var n := Limit(job, device) - job.Carry();
    assert n <= job.hwLines * job.bpl;
    LinesBound(n, job.bpl, job.hwLines);
    WholePlus(WholeBytes(n, job.bpl), 0, job.bpl);
    LinesOf(Lines(n, job.bpl), 0, job.bpl);
    LinesOf(job.hwLines, 0, job.bpl);
  }

  lemma EmittedLength(job: Job, image: seq<Byte>, h: nat)
    requires Runnable(job) && |image| == h * job.bpl
    ensures |Emitted(job, image)| == LineCount(job, h) * job.OutBpl()
  {
    LinesOf(h, 0, job.bpl);
    if job.Scaled() {
      EmittedScaled(job, image, h, ScaledCount(job, h));
      ScaledLinesLength(job, image, ScaledCount(job, h));
    } else {
      CropLength(job, image, h);
    }
  }

  /**
   A flatbed run writes exactly the announced number of lines, however much data
   arrives; when all of it arrives, none of them is padding.
   */
  lemma FlatbedExact(job: Job, device: seq<Byte>)
    requires Runnable(job) && job.Announced() && job.deinterlace == Whole && !job.adf
    requires job.Carry() <= |device|
    ensures job.Carry() <= |RawPage(job, device)|
    ensures var image := PageImage(job, device);
      var line := LineCount(job, Lines(|image|, job.bpl));
      && |Written(job, device)| == job.ParamLines() * job.OutBpl()
      && (job.Total() <= |device| ==> line == job.ParamLines() && Padding(job, line) == [])
  {
    SimplexLines(job, device);
    var image := PageImage(job, device);
    var h := Lines(|image|, job.bpl);
    LinesAnnounced(job, h);
    EmittedLength(job, image, h);
    MulSub(job.ParamLines(), LineCount(job, h), job.OutBpl());
  }

  // ---------------------------------------------------------------- colours

  /** The page of a simplex run that gets all its data. */
  lemma CompleteSimplex(job: Job, device: seq<Byte>)
    requires job.Valid() && job.deinterlace == Whole && job.Total() <= |device|
    ensures job.hwLines * job.bpl + job.Carry() == job.Total() == |RawPage(job, device)|
    ensures RawPage(job, device) == device[..job.Total()]
    ensures CanPack(job, job.Total(), job.hwLines * job.bpl)
    ensures PageImage(job, device) == Packed(job, RawPage(job, device), job.hwLines * job.bpl)
  {
    TotalCoversCarry(job);
    MulSub(job.TotalLines(), 2 * job.lineDiff, job.bpl);
    MulTwice(job.lineDiff, job.bpl);
    LinesOf(job.hwLines, 0, job.bpl);
    DivOfMultiple(job.hwLines, job.bpl);
  }

  /**
   What an unscaled colour run writes: channel c of pixel q in line n is the byte the device
   sent for it c * lineDiff lines later.
   */
  lemma ColorRun(job: Job, device: seq<Byte>, n: nat, q: nat, c: nat)
    requires Runnable(job) && job.packing == ColorPack && !job.Scaled() && job.Total() <= |device|
    requires n < job.hwLines && q < job.hwPixels && c < 3
    ensures job.Carry() <= |RawPage(job, device)|
    ensures n * job.bpl + 3 * q + c < |Written(job, device)|
    ensures (n + c * job.lineDiff) * job.bpl + 3 * q + c < |device|
    ensures Written(job, device)[n * job.bpl + 3 * q + c] == device[(n + c * job.lineDiff) * job.bpl + 3 * q + c]
  {
    CompleteSimplex(job, device);
    ColorPackMeaning(job, RawPage(job, device), job.hwLines, n, q, c);
    assert Emitted(job, PageImage(job, device)) == PageImage(job, device);
  }

  /** Packing without carried lines works line by line. */
  lemma PackedLine(job: Job, raw: seq<Byte>, n: nat, l: nat)
    requires job.Valid() && job.Carry() == 0 && |raw| == n * job.bpl && l < n
    ensures CanPack(job, |raw|, |raw|) && l * job.bpl + job.bpl <= |raw|
    ensures CanPack(job, job.bpl, job.bpl)
    ensures LineOf(Packed(job, raw, |raw|), job.bpl, l) == Packed(job, LineOf(raw, job.bpl, l), job.bpl)
  {
    DivOfMultiple(n, job.bpl);
    DivOfMultiple(1, job.bpl);
    MulStrict(l, n, job.bpl);
    var a, b := LineOf(Packed(job, raw, |raw|), job.bpl, l), Packed(job, LineOf(raw, job.bpl, l), job.bpl);
    forall k: nat | k < job.bpl
      ensures a[k] == b[k]
    {
      PackedLineAt(job, raw, l, l * job.bpl, k);
    }
  }

  lemma PackedLineAt(job: Job, raw: seq<Byte>, l: nat, at: nat, k: nat)
    requires job.Valid() && job.Carry() == 0 && at == l * job.bpl && at + job.bpl <= |raw| && k < job.bpl
    requires CanPack(job, |raw|, |raw|) && CanPack(job, job.bpl, job.bpl)
    ensures Packed(job, raw, |raw|)[at + k] == Packed(job, raw[at..at + job.bpl], job.bpl)[k]
  {
    SrcShift(job, l, k);
    SrcInside(job, job.bpl, job.bpl, k);
    SrcInside(job, |raw|, |raw|, at + k);
  }

  /** The four source samples of channel c of output pixel x in output line n. */
  function Sources(job: Job, image: seq<Byte>, n: nat, x: nat, c: nat): (r: seq<Byte>)
    requires Scalable(job) && Avail(job, n, Lines(|image|, job.bpl)) && x < job.outPixels && c < job.channels
    ensures |r| == 4
  {
    var w, l, sx := job.bpl, SrcLine(job, n) + job.Skip(), Coord(job.hwPixels, job.outPixels, x);
    CoordInside(job.hwPixels, job.outPixels, x);
    LineFits(|image|, w, l);
    LineFits(|image|, w, l + 1);
    var top, bottom := LineOf(image, w, l), LineOf(image, w, l + 1);
    [top[Offset(job, sx, c)], top[Offset(job, sx + 1, c)], bottom[Offset(job, sx, c)], bottom[Offset(job, sx + 1, c)]]
  }

  /** A scaled byte lies between any bounds of its four source samples. */
  lemma ScaledByteBetween(job: Job, image: seq<Byte>, n: nat, x: nat, c: nat, lo: int, hi: int)
    requires Scalable(job) && Avail(job, n, Lines(|image|, job.bpl)) && x < job.outPixels && c < job.channels
    requires forall i :: 0 <= i < 4 ==> lo <= Sources(job, image, n, x, c)[i] <= hi
    ensures Offset(job, x, c) < job.ScaledBpl()
    ensures lo <= ScaledLine(job, image, n)[Offset(job, x, c)] <= hi
  {
    var s := Sources(job, image, n, x, c);
    var w, l := job.bpl, SrcLine(job, n) + job.Skip();
    LineFits(|image|, w, l);
    LineFits(|image|, w, l + 1);
    BlendLineAt(job, LineOf(image, w, l), LineOf(image, w, l + 1), YDist(job, n), x, c);
    BlendBetween(s[0], s[1], s[2], s[3], Dist(job.hwPixels, job.outPixels, x), YDist(job, n), lo, hi);
  }

  /** What an unscaled copy run writes for its page: the device's bytes, in order. */
  lemma CopyRun(job: Job, device: seq<Byte>, k: nat)
    requires Runnable(job) && job.deinterlace == Whole && job.packing == Copy && !job.Scaled()
    ensures job.Carry() <= |RawPage(job, device)|
    ensures |PageImage(job, device)| == if job.Total() <= |device| then job.hwLines * job.bpl else WholeBytes(|device|, job.bpl)
    ensures k < |PageImage(job, device)| ==> k < |device| && k < |Written(job, device)| && Written(job, device)[k] == device[k]
  {
    if job.Total() <= |device| {
      CompleteSimplex(job, device);
    }
    assert Emitted(job, PageImage(job, device)) == PageImage(job, device);
  }

  /** Every byte behind the page is 255 in the shaded modes and 0 in the others. */
  lemma PaddingIs(job: Job, device: seq<Byte>, k: nat)
    requires Runnable(job) && job.Carry() <= |RawPage(job, device)|
    requires |Emitted(job, PageImage(job, device))| <= k < |Written(job, device)|
    ensures Written(job, device)[k] == if job.shaded then 255 else 0
  {
  }

  /** What an unscaled run writes for sample (n, p, c). */
  lemma RunSample(job: Job, device: seq<Byte>, n: nat, p: nat, c: nat)
    requires Runnable(job) && job.deinterlace == Whole && !job.Scaled() && job.Total() <= |device|
    requires n < job.hwLines && p < job.hwPixels && c < job.channels
    ensures job.Carry() <= |RawPage(job, device)|
    ensures SameByte(Written(job, device), ImagePos(job, n, p, c), device, RawPos(job, n, p, c))
  {
    CompleteSimplex(job, device);
    PackedSample(job, RawPage(job, device), job.hwLines, n, p, c);
    assert Emitted(job, PageImage(job, device)) == PageImage(job, device);
  }

  /** What an unscaled line-pack run writes: byte c of pixel p is found in plane c of the device's line. */
  lemma LinePackRun(job: Job, device: seq<Byte>, n: nat, p: nat, c: nat, plane: nat, at: nat, from: nat)
    requires Runnable(job) && job.packing == LinePack && job.deinterlace == Whole && !job.Scaled() && job.Total() <= |device|
    requires n < job.hwLines && p < job.hwPixels && c < 3
    requires plane == if c == 0 then 0 else if c == 1 then job.hwPixels else 2 * job.hwPixels
    requires at == n * job.bpl + 3 * p + c && from == n * job.bpl + plane + p
    ensures job.Carry() <= |RawPage(job, device)| && at < |Written(job, device)| && from < |device|
    ensures Written(job, device)[at] == device[from]
  {
    PlanePlaces(job, n, p, c, plane, at, from);
    RunSampleAt(job, device, n, p, c, at, from);
  }

  lemma RunSampleAt(job: Job, device: seq<Byte>, n: nat, p: nat, c: nat, at: nat, from: nat)
    requires Runnable(job) && job.deinterlace == Whole && !job.Scaled() && job.Total() <= |device|
    requires n < job.hwLines && p < job.hwPixels && c < job.channels
    requires at == ImagePos(job, n, p, c) && from == RawPos(job, n, p, c)
    ensures job.Carry() <= |RawPage(job, device)| && SameByte(Written(job, device), at, device, from)
  {
    RunSample(job, device, n, p, c);
  }

  lemma PlanePlaces(job: Job, n: nat, p: nat, c: nat, plane: nat, at: nat, from: nat)
    requires job.channels == 3 && job.packing == LinePack && c < 3
    requires plane == if c == 0 then 0 else if c == 1 then job.hwPixels else 2 * job.hwPixels
    requires at == n * job.bpl + 3 * p + c && from == n * job.bpl + plane + p
    ensures ImagePos(job, n, p, c) == at && RawPos(job, n, p, c) == from
  {
  }

  // ---------------------------------------------------------------- sides of a sheet

  /** The raw line that holds line j of one side. */
  function SideLine(job: Job, rear: bool, j: nat): nat
    requires job.Valid()
  {
    match job.deinterlace
    case Whole => j
    case Line => 2 * j + if rear then 1 else 0
    case Half => j + if rear then job.TotalLines() / 2 else 0
    case Stripe =>
      var l := job.LinesPerStripe();
      Times(2 * Lines(j, l) + if rear then 1 else 0, l) + j % l
  }

  /** The raw line numbers, mode by mode. */
  lemma SideLineIs(job: Job, j: nat)
    requires job.Valid() && job.FrontPass()
    ensures job.deinterlace == Line ==> SideLine(job, false, j) == 2 * j && SideLine(job, true, j) == 2 * j + 1
    ensures job.deinterlace == Half ==>
      SideLine(job, false, j) == j && SideLine(job, true, j) == job.hwLines + job.rearOffset + j
    ensures var l := job.stripeLines; job.deinterlace == Stripe ==>
      && SideLine(job, false, j) == j / l * (2 * l) + j % l
      && SideLine(job, true, j) == j / l * (2 * l) + l + j % l
  {
    if job.deinterlace == Stripe {
      var l, p := job.stripeLines, j / job.stripeLines;
      assert job.LinesPerStripe() == l;
      TimesIs(2 * p, l);
      TimesIs(2 * p + 1, l);
      MulAssoc(p, 2, l);
      MulSucc(2 * p, l);
    }
  }

  lemma {:induction false} LineCountOf(job: Job, n: nat)
    requires job.Valid() && job.deinterlace == Line
    ensures SideCount(SideOf(job), n, true) == n / 2 && SideCount(SideOf(job), n, false) == (n + 1) / 2
  {
    if n > 0 {
      LineCountOf(job, n - 1);
    }
  }

  lemma {:induction false} HalfCountOf(job: Job, n: nat)
    requires job.Valid() && job.deinterlace == Half
    ensures var m := job.TotalLines() / 2;
      && SideCount(SideOf(job), n, false) == Min(n, m)
      && SideCount(SideOf(job), n, true) == if n < m then 0 else n - m
  {
    if n > 0 {
      HalfCountOf(job, n - 1);
    }
  }

  /** Stripes of one side among the first q. */
  function StripesOf(q: nat, rear: bool): nat { if rear then q / 2 else (q + 1) / 2 }

  lemma SideInStripe(job: Job, q: nat, i: nat)
    requires job.Valid() && job.deinterlace == Stripe && i < job.LinesPerStripe()
    ensures Sided(SideOf(job), job.LinesPerStripe(), q, i)
  {
    TimesIs(q, job.LinesPerStripe());
    StripeSide(job, q, i);
  }

  /** Line i of stripe q is on the side of its stripe. */
  predicate Sided(side: nat -> bool, l: nat, q: nat, i: nat) { side(Times(q, l) + i) == (q % 2 == 1) }

  /** Every other stripe of l lines is a rear stripe. */
  ghost predicate StripeWise(side: nat -> bool, l: nat) {
    forall q: nat, i: nat :: i < l ==> Sided(side, l, q, i)
  }

  lemma StripeModeIsStripeWise(job: Job)
    requires job.Valid() && job.deinterlace == Stripe
    ensures StripeWise(SideOf(job), job.LinesPerStripe())
  {
    forall q: nat, i: nat | i < job.LinesPerStripe()
      ensures Sided(SideOf(job), job.LinesPerStripe(), q, i)
    {
      SideInStripe(job, q, i);
    }
  }

  /** Within a stripe every line counts for the same side. */
  lemma {:induction false} InStripe(side: nat -> bool, l: nat, q: nat, i: nat, rear: bool)
    requires StripeWise(side, l) && i <= l
    ensures SideCount(side, Times(q, l) + i, rear)
         == SideCount(side, Times(q, l), rear) + if (q % 2 == 1) == rear then i else 0
    decreases i
  {
    if i > 0 {
      InStripe(side, l, q, i - 1, rear);
      assert Sided(side, l, q, i - 1);
    }
  }

  lemma {:induction false} StripeStart(side: nat -> bool, l: nat, q: nat, rear: bool)
    requires StripeWise(side, l)
    ensures SideCount(side, Times(q, l), rear) == Times(StripesOf(q, rear), l)
    decreases q
  {
    if q > 0 {
      StripeStart(side, l, q - 1, rear);
      InStripe(side, l, q - 1, l, rear);
      assert Times(q, l) == Times(q - 1, l) + l;
      assert StripesOf(q, rear) == StripesOf(q - 1, rear) + if (q % 2 == 0) == rear then 1 else 0;
    }
  }

  lemma StripeBaseCount(side: nat -> bool, l: nat, q: nat, i: nat, rear: bool)
    requires StripeWise(side, l) && i <= l
    ensures SideCount(side, Times(q, l) + i, rear)
         == Times(StripesOf(q, rear), l) + if (q % 2 == 1) == rear then i else 0
  {
    StripeStart(side, l, q, rear);
    InStripe(side, l, q, i, rear);
  }

  lemma StripeCountOf(job: Job, q: nat, i: nat, rear: bool)
    requires job.Valid() && job.deinterlace == Stripe && i <= job.LinesPerStripe()
    ensures SideCount(SideOf(job), Times(q, job.LinesPerStripe()) + i, rear)
         == Times(StripesOf(q, rear), job.LinesPerStripe()) + if (q % 2 == 1) == rear then i else 0
  {
    var l := job.LinesPerStripe();
    StripeModeIsStripeWise(job);
    StripeBaseCount(SideOf(job), l, q, i, rear);
  }

  /** SideLine enumerates each side in order. */
  lemma SideLineCorrect(job: Job, rear: bool, j: nat)
    requires job.Valid() && job.deinterlace != Whole
    requires job.deinterlace == Half && !rear ==> j < job.TotalLines() / 2
    ensures SideOf(job)(SideLine(job, rear, j)) == rear
    ensures SideCount(SideOf(job), SideLine(job, rear, j), rear) == j
  {
    var i := SideLine(job, rear, j);
    match job.deinterlace
    case Line => LineCountOf(job, i);
    case Half => HalfCountOf(job, i);
    case Stripe => StripeSideLine(job, rear, j);
  }

  lemma StripeSideLine(job: Job, rear: bool, j: nat)
    requires job.Valid() && job.deinterlace == Stripe
    ensures SideOf(job)(SideLine(job, rear, j)) == rear
    ensures SideCount(SideOf(job), SideLine(job, rear, j), rear) == j
  {
    var l := job.LinesPerStripe();
    StripeLineCorrect(job, rear, Lines(j, l), j % l);
    TimesIs(Lines(j, l), l);
    assert Times(Lines(j, l), l) == WholeBytes(j, l);
  }

  /** Line i of the p-th stripe of a side. */
  lemma StripeLineCorrect(job: Job, rear: bool, p: nat, i: nat)
    requires job.Valid() && job.deinterlace == Stripe && i < job.LinesPerStripe()
    ensures var k := Times(2 * p + (if rear then 1 else 0), job.LinesPerStripe()) + i;
      SideOf(job)(k) == rear && SideCount(SideOf(job), k, rear) == Times(p, job.LinesPerStripe()) + i
  {
    var q := 2 * p + if rear then 1 else 0;
    assert StripesOf(q, rear) == p;
    SideInStripe(job, q, i);
    StripeCountOf(job, q, i, rear);
  }

  lemma {:induction false} SideCountMono(side: nat -> bool, m: nat, n: nat, rear: bool)
    requires m <= n
    ensures SideCount(side, m, rear) <= SideCount(side, n, rear)
    decreases n - m
  {
    if m < n {
      SideCountMono(side, m, n - 1, rear);
    }
  }

  /** p pairs of stripes and 2r more lines give the rear side p stripes and what lies beyond the next one. */
  lemma StripePairs(side: nat -> bool, l: nat, p: nat, r: nat)
    requires StripeWise(side, l) && r < l
    ensures SideCount(side, 2 * (Times(p, l) + r), true) == Times(p, l) + if 2 * r <= l then 0 else 2 * r - l
  {
    PairOfStripes(p, l);
    if 2 * r <= l {
      StripeBaseCount(side, l, 2 * p, 2 * r, true);
    } else {
      StripeBaseCount(side, l, 2 * p + 1, 2 * r - l, true);
    }
  }

  lemma {:induction false} PairOfStripes(p: nat, l: nat)
    ensures Times(2 * p, l) == 2 * Times(p, l) && Times(2 * p + 1, l) == 2 * Times(p, l) + l
    ensures StripesOf(2 * p, true) == StripesOf(2 * p + 1, true) == p
  {
    if p > 0 {
      PairOfStripes(p - 1, l);
    }
  }

  /** In stripe mode both sides get m of 2m lines exactly when the stripe height divides m; the rear side never gets more. */
  lemma StripesBalanced(job: Job, m: nat)
    requires job.Valid() && job.deinterlace == Stripe
    ensures SideCount(SideOf(job), 2 * m, true) == m <==> m % job.LinesPerStripe() == 0
    ensures SideCount(SideOf(job), 2 * m, true) <= m
  {
    var l := job.LinesPerStripe();
    var p, r := Lines(m, l), m % l;
    TimesIs(p, l);
    assert m == Times(p, l) + r by { assert m == WholeBytes(m, l) + r; }
    StripeModeIsStripeWise(job);
    StripePairs(SideOf(job), l, p, r);
  }

  /** Do the two sides have the same number of lines? */
  predicate Balanced(job: Job, m: nat)
    requires job.stripeLines > 0
  {
    job.deinterlace == Stripe ==> m % job.LinesPerStripe() == 0
  }

  /** Of 2m lines the front side gets at least half, in every mode, and exactly half when they are balanced. */
  lemma FrontAtLeastHalf(job: Job, m: nat)
    requires job.Valid() && job.deinterlace != Whole && job.TotalLines() == 2 * m
    ensures SideCount(SideOf(job), 2 * m, true) <= m <= SideCount(SideOf(job), 2 * m, false)
    ensures SideCount(SideOf(job), 2 * m, true) == m <==> Balanced(job, m)
  {
    CountsSum(SideOf(job), 2 * m);
    match job.deinterlace
    case Line => LineCountOf(job, 2 * m);
    case Half => HalfCountOf(job, 2 * m);
    case Stripe => StripesBalanced(job, m);
  }

  /** Half of all the lines belong to each side. */
  lemma SidesBalanced(job: Job, m: nat)
    requires job.Valid() && job.deinterlace != Whole && job.TotalLines() == 2 * m
    requires job.deinterlace == Stripe ==> m % job.LinesPerStripe() == 0
    ensures SideCount(SideOf(job), 2 * m, true) == SideCount(SideOf(job), 2 * m, false) == m
  {
    match job.deinterlace
    case Line => LineCountOf(job, 2 * m);
    case Half => HalfCountOf(job, 2 * m);
    case Stripe =>
      StripesBalanced(job, m);
      CountsSum(SideOf(job), 2 * m);
  }

  /** A side of a complete sheet: m lines, the j-th of which is raw line SideLine(j). */
  lemma SideMeaning(job: Job, raw: seq<Byte>, m: nat, rear: bool, j: nat)
    requires job.Valid() && job.deinterlace != Whole && job.TotalLines() == 2 * m && |raw| == (2 * m) * job.bpl
    requires job.deinterlace == Stripe ==> m % job.LinesPerStripe() == 0
    requires j < m
    ensures var page, i := Keep(job.bpl, SideOf(job), 0, raw, rear), SideLine(job, rear, j);
      && |page| == m * job.bpl && j * job.bpl + job.bpl <= |page| && i * job.bpl + job.bpl <= |raw|
      && LineOf(page, job.bpl, j) == LineOf(raw, job.bpl, i)
  {
    var side, i := SideOf(job), SideLine(job, rear, j);
    SidesBalanced(job, m);
    SideSize(job.bpl, side, raw, 2 * m, rear);
    SideLineCorrect(job, rear, j);
    if 2 * m <= i {
      SideCountMono(side, 2 * m, i, rear);
    }
    SideLineFound(job, raw, 2 * m, rear, j);
  }

  /** A line of a side that is among the raw lines is line j of that side's page. */
  lemma SideLineFound(job: Job, raw: seq<Byte>, n: nat, rear: bool, j: nat)
    requires job.Valid() && job.deinterlace != Whole && |raw| == n * job.bpl && SideLine(job, rear, j) < n
    requires job.deinterlace == Half && !rear ==> j < job.TotalLines() / 2
    ensures var page, i := Keep(job.bpl, SideOf(job), 0, raw, rear), SideLine(job, rear, j);
      && j * job.bpl + job.bpl <= |page| && i * job.bpl + job.bpl <= |raw|
      && LineOf(page, job.bpl, j) == LineOf(raw, job.bpl, i)
  {
    SideLineCorrect(job, rear, j);
    SidesPartition(job.bpl, SideOf(job), raw, n, SideLine(job, rear, j));
  }

  /** The first half of the lines of a side comes from the raw lines, on the front side without any condition. */
  lemma FrontLineInside(job: Job, m: nat, j: nat)
    requires job.Valid() && job.deinterlace != Whole && j < m
    ensures SideLine(job, false, j) < 2 * m
  {
    if job.deinterlace == Stripe {
      var l := job.LinesPerStripe();
      var p := Lines(j, l);
      TimesIs(p, l);
      TimesAdd(p, p, l);
      assert Times(p, l) == WholeBytes(j, l);
    }
  }

  // ---------------------------------------------------------------- replaying the rear file

  lemma {:induction false} ChunkLinesShort(chunk: nat, w: nat, s: seq<Byte>)
    requires chunk > 0 && w > 0
    ensures |ChunkLines(chunk, w, s)| <= |s|
    decreases |s|
  {
    if |s| > chunk {
      ChunkLinesShort(chunk, w, s[chunk..]);
    }
  }

  lemma {:induction false} ChunkLinesAll(chunk: nat, w: nat, s: seq<Byte>)
    requires chunk > 0 && w > 0 && chunk % w == 0 && |s| % w == 0
    ensures ChunkLines(chunk, w, s) == s
    decreases |s|
  {
    WholePlus(|s|, 0, w);
    if |s| > chunk {
      WholePlus(chunk, 0, w);
      RemainderSub(|s|, chunk, w);
      ChunkLinesAll(chunk, w, s[chunk..]);
      assert s == s[..chunk] + s[chunk..];
    }
  }

  lemma RemainderSub(a: nat, b: nat, w: nat)
    requires w > 0 && a % w == 0 && b % w == 0 && b <= a
    ensures (a - b) % w == 0
  {
    MulSub(Lines(a, w), Lines(b, w), w);
    assert a == WholeBytes(a, w) && b == WholeBytes(b, w);
    DivOfMultiple(Lines(a, w) - Lines(b, w), w);
  }

  /** Reads of five bytes lose bytes of a file of two-byte lines. */
  lemma ReplayLosesBytes()
    ensures var file: seq<Byte> := [1, 2, 3, 4, 5, 6, 7, 8]; |ChunkLines(5, 2, file)| < |file|
  {
    var file: seq<Byte> := [1, 2, 3, 4, 5, 6, 7, 8];
    RearFileReplayed(5, 2, file);
    ChunkLinesShort(5, 2, file);
  }

  /** The rear file is replayed completely exactly when its chunks are whole lines or it is a single chunk. */
  lemma RearFileReplayed(chunk: nat, w: nat, file: seq<Byte>)
    requires chunk > 0 && w > 0 && |file| % w == 0
    ensures |ChunkLines(chunk, w, file)| == |file| <==> chunk % w == 0 || |file| <= chunk
    ensures chunk % w == 0 || |file| <= chunk ==> ChunkLines(chunk, w, file) == file
  {
    WholePlus(|file|, 0, w);
    if chunk % w == 0 {
      ChunkLinesAll(chunk, w, file);
    } else if |file| > chunk {
      ChunkLinesShort(chunk, w, file[chunk..]);
      assert WholeBytes(chunk, w) != chunk;
    }
  }

  // ---------------------------------------------------------------- an interlaced duplex sheet

  /** Output line j holds its line of the device. */
  ghost predicate SideLineAt(job: Job, device: seq<Byte>, out: seq<Byte>, rear: bool, j: nat)
    requires job.Valid()
  {
    var w, i := job.bpl, SideLine(job, rear, j + if rear then job.rearOffset else 0);
    && j * w + w <= |out| && i * w + w <= |device|
    && LineIs(job, LineOf(out, w, j), LineOf(device, w, i))
  }

  /** The output is exactly hwLines lines of one side, the rear side from its offset on. */
  ghost predicate IsSide(job: Job, device: seq<Byte>, out: seq<Byte>, rear: bool)
    requires job.Valid()
  {
    && |out| == job.hwLines * job.bpl
    && forall j: nat :: j < job.hwLines ==> SideLineAt(job, device, out, rear, j)
  }

  /** The device's byte for channel c of pixel p in line l of one side. */
  function DevicePos(job: Job, rear: bool, l: nat, p: nat, c: nat): nat
    requires job.Valid()
  {
    RawPos(job, SideLine(job, rear, l), p, c)
  }

  /** Blended from what the device sent for pixels p and p + 1 in lines l and l + 1. */
  ghost predicate BlendedFrom(job: Job, device: seq<Byte>, rear: bool, v: Byte, l: nat, p: nat, c: nat, xd: nat, yd: nat)
    requires job.Valid()
  {
    BlendsAt(v, device, DevicePos(job, rear, l, p, c), DevicePos(job, rear, l, p + 1, c),
             DevicePos(job, rear, l + 1, p, c), DevicePos(job, rear, l + 1, p + 1, c), xd, yd)
  }

  /** Sample (j, x, c) of the output is blended at its exact position (CoordIs), the rear side's behind its offset. */
  ghost predicate ScaledSampleAt(job: Job, device: seq<Byte>, out: seq<Byte>, rear: bool, j: nat, x: nat, c: nat)
    requires Scalable(job) && x < job.outPixels
  {
    CoordInside(job.hwPixels, job.outPixels, x);
    && OutPos(job, j, x, c) < |out|
    && BlendedFrom(job, device, rear, out[OutPos(job, j, x, c)], SrcLine(job, j) + (if rear then job.rearOffset else 0),
                   Coord(job.hwPixels, job.outPixels, x), c, Dist(job.hwPixels, job.outPixels, x), YDist(job, j))
  }

  function OutPos(job: Job, j: nat, x: nat, c: nat): nat {
    NonNegative(j, job.ScaledBpl());
    j * job.ScaledBpl() + Offset(job, x, c)
  }

  /** The output is exactly the announced lines of one side, each sample blended from the device's bytes. */
  ghost predicate IsScaledSide(job: Job, device: seq<Byte>, out: seq<Byte>, rear: bool) {
    && Scalable(job) && |out| == job.outLines * job.ScaledBpl()
    && forall j: nat, x: nat, c: nat :: j < job.outLines && x < job.outPixels && c < job.channels ==>
         ScaledSampleAt(job, device, out, rear, j, x, c)
  }

  /** Sample (l, p, c) of an image is the device's. */
  ghost predicate SampleFound(job: Job, image: seq<Byte>, device: seq<Byte>, rear: bool, l: nat, p: nat, c: nat)
    requires job.Valid()
  {
    SameByte(image, ImagePos(job, l, p, c), device, DevicePos(job, rear, l, p, c))
  }

  /** All samples of the first m lines. */
  ghost predicate SamplesFound(job: Job, image: seq<Byte>, device: seq<Byte>, rear: bool, m: nat)
    requires job.Valid()
  {
    forall l: nat, p: nat, c: nat :: l < m && p < job.hwPixels && c < job.channels ==>
      SampleFound(job, image, device, rear, l, p, c)
  }

  /** A byte of a scaled line is blended from the device's bytes; r is the job of this pass over the sheet. */
  lemma BlendedLine(job: Job, r: Job, image: seq<Byte>, device: seq<Byte>, rear: bool, m: nat, n: nat, x: nat, c: nat,
                    l: nat, p: nat, xd: nat, yd: nat)
    requires Scalable(r) && Avail(r, n, Lines(|image|, r.bpl)) && x < job.outPixels && c < job.channels
    requires job.Valid() && r == job.(rearValid := r.rearValid) && l == SrcLine(r, n) + r.Skip()
    requires p == Coord(r.hwPixels, r.outPixels, x) && p + 1 < r.hwPixels
    requires xd == Dist(r.hwPixels, r.outPixels, x) && yd == YDist(r, n)
    requires SamplesFound(job, image, device, rear, m) && l + 1 < m
    ensures Offset(job, x, c) < job.ScaledBpl()
    ensures BlendedFrom(job, device, rear, ScaledLine(r, image, n)[Offset(job, x, c)], l, p, c, xd, yd)
  {
    ScaledByteAt(r, image, n, x, c, l, p);
    SameImagePos(job, r, l, p, c);
    SameImagePos(job, r, l, p + 1, c);
    SameImagePos(job, r, l + 1, p, c);
    SameImagePos(job, r, l + 1, p + 1, c);
    SamplesMove(job, image, device, rear, m, ScaledLine(r, image, n)[Offset(job, x, c)], l, p, c, xd, yd, ImagePos(r, l, p, c),
                ImagePos(r, l, p + 1, c), ImagePos(r, l + 1, p, c), ImagePos(r, l + 1, p + 1, c));
  }

  lemma SameImagePos(job: Job, r: Job, l: nat, p: nat, c: nat)
    requires r == job.(rearValid := r.rearValid)
    ensures ImagePos(r, l, p, c) == ImagePos(job, l, p, c)
  {
  }

  lemma SamplesMove(job: Job, image: seq<Byte>, device: seq<Byte>, rear: bool, m: nat, v: Byte, l: nat, p: nat, c: nat,
                    xd: nat, yd: nat, i: nat, i': nat, j: nat, j': nat)
    requires job.Valid() && SamplesFound(job, image, device, rear, m) && l + 1 < m && p + 1 < job.hwPixels && c < job.channels
    requires i == ImagePos(job, l, p, c) && i' == ImagePos(job, l, p + 1, c)
    requires j == ImagePos(job, l + 1, p, c) && j' == ImagePos(job, l + 1, p + 1, c)
    requires BlendsAt(v, image, i, i', j, j', xd, yd)
    ensures BlendedFrom(job, device, rear, v, l, p, c, xd, yd)
  {
    assert SampleFound(job, image, device, rear, l, p, c) && SampleFound(job, image, device, rear, l, p + 1, c);
    assert SampleFound(job, image, device, rear, l + 1, p, c) && SampleFound(job, image, device, rear, l + 1, p + 1, c);
    BlendsElsewhere(v, image, device, i, i', j, j', DevicePos(job, rear, l, p, c), DevicePos(job, rear, l, p + 1, c),
                    DevicePos(job, rear, l + 1, p, c), DevicePos(job, rear, l + 1, p + 1, c), xd, yd);
  }

  /** A scaled page whose samples are the device's, line by line, is a scaled side. */
  lemma ScaledSideFrom(job: Job, r: Job, image: seq<Byte>, device: seq<Byte>, out: seq<Byte>, rear: bool, m: nat)
    requires Scalable(job) && IsScaledPage(r, image, out) && SamplesFound(job, image, device, rear, m)
    requires r == job.(rearValid := r.rearValid) && r.Skip() == if rear then job.rearOffset else 0
    requires forall n: nat :: n < job.outLines ==> SrcLine(r, n) + r.Skip() + 1 < m
    ensures IsScaledSide(job, device, out, rear)
  {
    forall j: nat, x: nat, c: nat | j < job.outLines && x < job.outPixels && c < job.channels
      ensures ScaledSampleAt(job, device, out, rear, j, x, c)
    {
      ScaledSampleFrom(job, r, image, device, out, rear, m, j, x, c);
    }
  }

  lemma ScaledSampleFrom(job: Job, r: Job, image: seq<Byte>, device: seq<Byte>, out: seq<Byte>, rear: bool, m: nat,
                         j: nat, x: nat, c: nat)
    requires Scalable(job) && Scalable(r) && ScaledLineAt(r, image, out, j) && SamplesFound(job, image, device, rear, m)
    requires r == job.(rearValid := r.rearValid) && r.Skip() == if rear then job.rearOffset else 0
    requires j < job.outLines && x < job.outPixels && c < job.channels && SrcLine(r, j) + r.Skip() + 1 < m
    ensures ScaledSampleAt(job, device, out, rear, j, x, c)
  {
    CoordInside(job.hwPixels, job.outPixels, x);
    var l, p: nat := SrcLine(r, j) + r.Skip(), Coord(job.hwPixels, job.outPixels, x);
    var xd, yd := Dist(job.hwPixels, job.outPixels, x), YDist(r, j);
    BlendedLine(job, r, image, device, rear, m, j, x, c, l, p, xd, yd);
    LineByte(out, job.ScaledBpl(), j, Offset(job, x, c));
    SampleIsAt(job, device, out, rear, j, x, c, ScaledLine(r, image, j)[Offset(job, x, c)], l, p, xd, yd);
  }

  lemma SampleIsAt(job: Job, device: seq<Byte>, out: seq<Byte>, rear: bool, j: nat, x: nat, c: nat,
                   v: Byte, l: nat, p: nat, xd: nat, yd: nat)
    requires Scalable(job) && x < job.outPixels && l == SrcLine(job, j) + if rear then job.rearOffset else 0
    requires p == Coord(job.hwPixels, job.outPixels, x) && xd == Dist(job.hwPixels, job.outPixels, x) && yd == YDist(job, j)
    requires OutPos(job, j, x, c) < |out| && out[OutPos(job, j, x, c)] == v
    requires BlendedFrom(job, device, rear, v, l, p, c, xd, yd)
    ensures ScaledSampleAt(job, device, out, rear, j, x, c)
  {
  }

  /** Exactly outLines lines, each of them blended from the lines of the image that belong to it. */
  ghost predicate IsScaledPage(job: Job, image: seq<Byte>, out: seq<Byte>) {
    && Scalable(job) && |out| == job.outLines * job.OutBpl()
    && forall j: nat :: j < job.outLines ==> ScaledLineAt(job, image, out, j)
  }

  ghost predicate ScaledLineAt(job: Job, image: seq<Byte>, out: seq<Byte>, j: nat)
    requires Scalable(job)
  {
    && Avail(job, j, Lines(|image|, job.bpl)) && j * job.OutBpl() + job.OutBpl() <= |out|
    && LineOf(out, job.OutBpl(), j) == ScaledLine(job, image, j)
  }

  /** A sheet whose data arrives completely. */
  ghost predicate CompleteSheet(job: Job, device: seq<Byte>, m: nat) {
    && Runnable(job) && job.Announced()
    && job.FrontPass() && job.Total() <= |device|
    && m == job.hwLines + job.rearOffset
  }

  /** A sheet whose two sides have the same number of lines. */
  ghost predicate Sheet(job: Job, device: seq<Byte>, m: nat) {
    CompleteSheet(job, device, m) && Balanced(job, m)
  }

  /** The front side: at least m lines, whatever the stripes do. */
  lemma FrontPage(job: Job, device: seq<Byte>, m: nat) returns (n: nat)
    requires CompleteSheet(job, device, m)
    ensures m <= n && |Keep(job.bpl, SideOf(job), 0, device[..job.Total()], false)| == n * job.bpl
  {
    n := SideCount(SideOf(job), 2 * m, false);
    FrontAtLeastHalf(job, m);
    SideSize(job.bpl, SideOf(job), device[..job.Total()], 2 * m, false);
  }

  lemma FrontLine(job: Job, device: seq<Byte>, m: nat, j: nat)
    requires CompleteSheet(job, device, m) && j < m
    ensures var page, i := Keep(job.bpl, SideOf(job), 0, device[..job.Total()], false), SideLine(job, false, j);
      && j * job.bpl + job.bpl <= |page| && i * job.bpl + job.bpl <= |device|
      && LineOf(page, job.bpl, j) == LineOf(device, job.bpl, i)
  {
    var raw := device[..job.Total()];
    FrontLineInside(job, m, j);
    SideLineFound(job, raw, 2 * m, false, j);
    LineOfPrefix(raw, device, job.bpl, SideLine(job, false, j));
  }

  /** A page that is long enough for its output: exactly, on the rear side. */
  predicate LongEnough(job: Job, m: nat) {
    if job.rearValid then m == job.hwLines + job.rearOffset else job.hwLines <= m
  }

  /**
   compute_parameters cuts an interlaced duplex window to whole stripes, so a stripe-wise
   sheet has equal sides exactly when its rear offset is whole stripes as well.
   */
  lemma WholeStripes(job: Job, device: seq<Byte>, windowLines: nat)
    requires Runnable(job) && job.Announced() && job.FrontPass() && job.Total() <= |device|
    requires job.hwLines == windowLines - windowLines % job.stripeLines
    ensures Sheet(job, device, job.hwLines + job.rearOffset)
      <==> (job.deinterlace == Stripe ==> job.rearOffset % job.stripeLines == 0)
  {
    var q := Lines(windowLines, job.stripeLines);
    assert job.hwLines == WholeBytes(windowLines, job.stripeLines);
    DivAddMultiple(q, job.rearOffset, job.stripeLines);
  }

  /** A duplex job at 300 dpi in stripes of 8 lines, with the rear side half an inch late. */
  const HALF_INCH := Job(1, 16, 16, 80, 300, 300, 16, 80, 0, 150, 8, 1024, false, Stripe, false, Copy, true, true)

  lemma HalfInchJob()
    ensures Runnable(HALF_INCH) && HALF_INCH.Announced() && HALF_INCH.deinterlace == Stripe
    ensures HALF_INCH.LinesPerStripe() == 8 && HALF_INCH.TotalLines() == 2 * 230
    ensures HALF_INCH.hwLines + HALF_INCH.rearOffset == 230
  {
  }

  lemma Unbalanced(job: Job)
    requires job.Valid() && job.deinterlace == Stripe && job.LinesPerStripe() == 8
    ensures SideCount(SideOf(job), 2 * 230, true) != 230
  {
    StripesBalanced(job, 230);
  }

  lemma HalfInchUnbalanced()
    ensures Runnable(HALF_INCH) && HALF_INCH.Announced()
    ensures SideCount(SideOf(HALF_INCH), HALF_INCH.TotalLines(), true) != HALF_INCH.hwLines + HALF_INCH.rearOffset
  {
    HalfInchJob();
    Unbalanced(HALF_INCH);
  }

  lemma SheetSide(job: Job, device: seq<Byte>, m: nat, rear: bool, j: nat)
    requires Sheet(job, device, m) && j < m
    ensures var page, i := Keep(job.bpl, SideOf(job), 0, device[..job.Total()], rear), SideLine(job, rear, j);
      && |page| == m * job.bpl && j * job.bpl + job.bpl <= |page| && i * job.bpl + job.bpl <= |device|
      && LineOf(page, job.bpl, j) == LineOf(device, job.bpl, i)
  {
    var raw := device[..job.Total()];
    SideMeaning(job, raw, m, rear, j);
    LineOfPrefix(raw, device, job.bpl, SideLine(job, rear, j));
  }

  lemma SheetSize(job: Job, device: seq<Byte>, m: nat, rear: bool)
    requires Sheet(job, device, m)
    ensures |Keep(job.bpl, SideOf(job), 0, device[..job.Total()], rear)| == m * job.bpl
  {
    SidesBalanced(job, m);
    SidesComplete(job.bpl, SideOf(job), device[..job.Total()], 2 * m);
  }

  /** Cropping the packed page leaves hwLines packed lines of it. */
  lemma CroppedPage(job: Job, page: seq<Byte>, m: nat)
    requires job.Valid() && job.deinterlace != Whole && |page| == m * job.bpl
    requires LongEnough(job, m)
    ensures CanPack(job, |page|, |page|) && CanPack(job, job.bpl, job.bpl)
    ensures |Crop(job, Packed(job, page, |page|))| == job.hwLines * job.bpl
    ensures forall j: nat :: j < job.hwLines ==> PackedAt(job, page, Crop(job, Packed(job, page, |page|)), j)
  {
    NoCarry(job);
    DivOfMultiple(m, job.bpl);
    DivOfMultiple(1, job.bpl);
    CroppedSize(job, Packed(job, page, |page|), m);
    var image := Packed(job, page, |page|);
    forall j: nat | j < job.hwLines
      ensures PackedAt(job, page, Crop(job, image), j)
    {
      PackedLine(job, page, m, j + job.Skip());
      CroppedLine(job, image, m, j);
    }
  }

  lemma CroppedSize(job: Job, image: seq<Byte>, m: nat)
    requires job.Valid() && job.deinterlace != Whole && |image| == m * job.bpl && LongEnough(job, m)
    ensures |Crop(job, image)| == job.hwLines * job.bpl
  {
    if job.rearValid {
      MulAdd(job.hwLines, job.rearOffset, job.bpl);
      NonNegative(job.hwLines, job.bpl);
    } else {
      MulMono(job.hwLines, m, job.bpl);
    }
  }

  /** Line j of the cropped image is line j + Skip() of the image. */
  lemma CroppedLine(job: Job, image: seq<Byte>, m: nat, j: nat)
    requires job.Valid() && |image| == m * job.bpl && LongEnough(job, m) && j < job.hwLines
    requires |Crop(job, image)| == job.hwLines * job.bpl
    ensures j * job.bpl + job.bpl <= |Crop(job, image)| && (j + job.Skip()) * job.bpl + job.bpl <= |image|
    ensures LineOf(Crop(job, image), job.bpl, j) == LineOf(image, job.bpl, j + job.Skip())
  {
    MulStrict(j, job.hwLines, job.bpl);
    MulStrict(j + job.Skip(), m, job.bpl);
    if job.rearValid && 0 < job.rearOffset {
      assert image == image[..job.rearOffset * job.bpl] + image[job.rearOffset * job.bpl..];
      LineOfShift(image[..job.rearOffset * job.bpl], image[job.rearOffset * job.bpl..], job.bpl, job.rearOffset, j);
    } else {
      assert Crop(job, image) <= image;
      LineOfPrefix(Crop(job, image), image, job.bpl, j);
    }
  }

  ghost predicate PackedAt(job: Job, page: seq<Byte>, out: seq<Byte>, j: nat)
    requires job.Valid() && CanPack(job, job.bpl, job.bpl)
  {
    var w, l := job.bpl, j + job.Skip();
    && j * w + w <= |out| && l * w + w <= |page|
    && LineOf(out, w, j) == Packed(job, LineOf(page, w, l), w)
  }

  lemma NoPadding(job: Job, m: nat)
    requires Runnable(job) && job.Announced() && job.deinterlace != Whole
    requires LongEnough(job, m)
    ensures LineCount(job, m) == job.outLines && Padding(job, LineCount(job, m)) == []
  {
    if job.Scaled() {
      CompletePageCount(job, m);
    } else {
      DivOfMultiple(job.hwLines, job.xres);
    }
  }

  lemma WrittenIs(job: Job, device: seq<Byte>, page: seq<Byte>, m: nat)
    requires Runnable(job) && job.Announced() && job.deinterlace != Whole
    requires page == RawPage(job, device) && |page| == m * job.bpl && LongEnough(job, m)
    ensures job.Carry() <= |RawPage(job, device)| && CanPack(job, |page|, |page|)
    ensures PageImage(job, device) == Packed(job, page, |page|)
    ensures Written(job, device) == Emitted(job, Packed(job, page, |page|))
  {
    NoCarry(job);
    DivOfMultiple(m, job.bpl);
    WholePlus(|page|, 0, job.bpl);
    LinesOf(m, 0, job.bpl);
    NoPadding(job, m);
  }

  /** The front run's output is the front side. */
  lemma FrontRun(job: Job, device: seq<Byte>, m: nat)
    requires CompleteSheet(job, device, m) && !job.Scaled()
    ensures job.Carry() <= |RawPage(job, device)| && IsSide(job, device, Written(job, device), false)
  {
    var n := FrontPage(job, device, m);
    var page := Keep(job.bpl, SideOf(job), 0, device[..job.Total()], false);
    assert page == RawPage(job, device);
    WrittenIs(job, device, page, n);
    CroppedPage(job, page, n);
    var out := Written(job, device);
    forall j: nat | j < job.hwLines
      ensures SideLineAt(job, device, out, false, j)
    {
      assert PackedAt(job, page, out, j);
      FrontLine(job, device, m, j);
      NoCarry(job);
      LineIsSame(job, LineOf(out, job.bpl, j), LineOf(device, job.bpl, SideLine(job, false, j)), LineOf(page, job.bpl, j));
    }
  }

  function RearJob(job: Job): Job { job.(rearValid := true) }

  lemma SamePacking(job: Job, raw: seq<Byte>, n: nat)
    requires job.Valid() && job.deinterlace != Whole && CanPack(job, |raw|, n)
    ensures CanPack(RearJob(job), |raw|, n) && Packed(RearJob(job), raw, n) == Packed(job, raw, n)
  {
    forall k | 0 <= k < n
      ensures Packed(RearJob(job), raw, n)[k] == Packed(job, raw, n)[k]
    {
      SrcInside(job, |raw|, n, k);
    }
  }

  lemma Replayed(job: Job, device: seq<Byte>, m: nat, file: seq<Byte>)
    requires Sheet(job, device, m) && file == RearFile(job, device[..job.Total()])
    requires Chunk(job) % job.bpl == 0 || m * job.bpl <= Chunk(job)
    ensures |file| == m * job.bpl && RawPage(RearJob(job), file) == file
  {
    SheetSize(job, device, m, true);
    DivOfMultiple(m, job.bpl);
    RearFileReplayed(Chunk(job), job.bpl, file);
    assert file[..Limit(RearJob(job), file)] == file;
  }

  /** The rear run over the saved file gives the rear side, from its offset on. */
  lemma RearRun(job: Job, device: seq<Byte>, m: nat, file: seq<Byte>)
    requires Sheet(job, device, m) && !job.Scaled() && file == RearFile(job, device[..job.Total()])
    requires Chunk(job) % job.bpl == 0 || m * job.bpl <= Chunk(job)
    ensures Runnable(RearJob(job)) && RearJob(job).Carry() <= |RawPage(RearJob(job), file)|
    ensures IsSide(job, device, Written(RearJob(job), file), true)
  {
    Replayed(job, device, m, file);
    var r := RearJob(job);
    WrittenIs(r, file, file, m);
    CroppedPage(r, file, m);
    var out := Written(r, file);
    forall j: nat | j < job.hwLines
      ensures SideLineAt(job, device, out, true, j)
    {
      assert PackedAt(r, file, out, j);
      RearLineAt(job, device, m, file, out, j);
    }
  }

  lemma RearLineAt(job: Job, device: seq<Byte>, m: nat, file: seq<Byte>, out: seq<Byte>, j: nat)
    requires Sheet(job, device, m) && file == RearFile(job, device[..job.Total()]) && j < job.hwLines
    requires CanPack(RearJob(job), job.bpl, job.bpl) && PackedAt(RearJob(job), file, out, j)
    ensures SideLineAt(job, device, out, true, j)
  {
    NoCarry(job);
    SheetSide(job, device, m, true, j + job.rearOffset);
    var line := LineOf(file, job.bpl, j + job.rearOffset);
    SamePacking(job, line, job.bpl);
    LineIsSame(job, LineOf(out, job.bpl, j), LineOf(device, job.bpl, SideLine(job, true, j + job.rearOffset)), line);
  }

  // ---------------------------------------------------------------- when the rear side is right

  /** The saved rear lines: at most m, and all m of them when the sides are balanced. */
  lemma SavedRear(job: Job, device: seq<Byte>, m: nat, file: seq<Byte>) returns (c: nat)
    requires CompleteSheet(job, device, m) && file == RearFile(job, device[..job.Total()])
    ensures c <= m && (c == m <==> Balanced(job, m)) && |file| == c * job.bpl
    ensures file[..Limit(RearJob(job), file)] == file
  {
    c := SideCount(SideOf(job), 2 * m, true);
    FrontAtLeastHalf(job, m);
    SideSize(job.bpl, SideOf(job), device[..job.Total()], 2 * m, true);
    MulMono(c, m, job.bpl);
  }

  /** Unless the sides are balanced and the file is replayed whole, lines are missing from the rear page. */
  lemma RearTooShort(job: Job, device: seq<Byte>, m: nat, file: seq<Byte>)
    requires CompleteSheet(job, device, m) && file == RearFile(job, device[..job.Total()])
    requires !(Balanced(job, m) && (Chunk(job) % job.bpl == 0 || m * job.bpl <= Chunk(job)))
    ensures |RawPage(RearJob(job), file)| < m * job.bpl
  {
    var c := SavedRear(job, device, m, file);
    DivOfMultiple(c, job.bpl);
    RearFileReplayed(Chunk(job), job.bpl, file);
    ChunkLinesShort(Chunk(job), job.bpl, file);
    if c < m {
      MulStrict(c, m, job.bpl);
    }
  }

  /** Then an ADF run, which does not pad, writes too few lines. */
  lemma TooFewLines(r: Job, file: seq<Byte>, m: nat)
    requires Runnable(r) && !r.Scaled() && r.deinterlace != Whole && r.rearValid && r.adf
    requires m == r.hwLines + r.rearOffset && 0 < r.hwLines && |RawPage(r, file)| < m * r.bpl
    ensures r.Carry() <= |RawPage(r, file)| && |Written(r, file)| < r.hwLines * r.bpl
  {
    NoCarry(r);
    var image := PageImage(r, file);
    var h := Lines(|RawPage(r, file)|, r.bpl);
    LinesOf(h, 0, r.bpl);
    DivLess(|RawPage(r, file)|, r.bpl, m);
    EmittedLength(r, image, h);
    MulStrict(LineCount(r, h), r.hwLines, r.bpl);
  }

  /**
   The rear side of an unscaled ADF sheet is written right if and only if the sides are
   balanced and every rear-file read is whole lines or the only one.
   */
  lemma RearSideExactly(job: Job, device: seq<Byte>, m: nat, file: seq<Byte>)
    requires CompleteSheet(job, device, m) && !job.Scaled() && job.adf && 0 < job.hwLines
    requires file == RearFile(job, device[..job.Total()])
    ensures Runnable(RearJob(job)) && RearJob(job).Carry() <= |RawPage(RearJob(job), file)|
    ensures IsSide(job, device, Written(RearJob(job), file), true)
      <==> Balanced(job, m) && (Chunk(job) % job.bpl == 0 || m * job.bpl <= Chunk(job))
  {
    if Balanced(job, m) && (Chunk(job) % job.bpl == 0 || m * job.bpl <= Chunk(job)) {
      RearRun(job, device, m, file);
    } else {
      RearTooShort(job, device, m, file);
      TooFewLines(RearJob(job), file, m);
    }
  }

  // ---------------------------------------------------------------- a scaled sheet

  lemma {:induction false} ScaledLinesAt(job: Job, image: seq<Byte>, n: nat, j: nat)
    requires Scalable(job) && j < n && Avail(job, n - 1, Lines(|image|, job.bpl))
    ensures Avail(job, j, Lines(|image|, job.bpl))
    ensures j * job.ScaledBpl() + job.ScaledBpl() <= |ScaledLines(job, image, n)|
    ensures LineOf(ScaledLines(job, image, n), job.ScaledBpl(), j) == ScaledLine(job, image, j)
    decreases n
  {
    var have := Lines(|image|, job.bpl);
    AvailMono(job, j, n - 1, have, have);
    if n > 1 {
      AvailMono(job, n - 2, n - 1, have, have);
    }
    var before, last := ScaledLines(job, image, n - 1), ScaledLine(job, image, n - 1);
    assert ScaledLines(job, image, n) == before + last;
    ScaledLinesLength(job, image, n - 1);
    LineOfAppend(before, last, job.ScaledBpl(), n - 1, j);
    if j < n - 1 {
      ScaledLinesAt(job, image, n - 1, j);
    }
  }

  /** What is written for a complete page is the scaled page. */
  lemma ScaledPage(job: Job, image: seq<Byte>, m: nat)
    requires Runnable(job) && job.Scaled() && job.deinterlace != Whole
    requires |image| == m * job.bpl && LongEnough(job, m)
    ensures IsScaledPage(job, image, Emitted(job, image))
  {
    CompletePageCount(job, m);
    ScaledPageLines(job, image, m);
  }

  lemma ScaledPageLines(job: Job, image: seq<Byte>, m: nat)
    requires Runnable(job) && job.Scaled() && |image| == m * job.bpl && ScaledCount(job, m) == job.outLines
    ensures IsScaledPage(job, image, Emitted(job, image))
  {
    var n, out := job.outLines, Emitted(job, image);
    LinesOf(m, 0, job.bpl);
    EmittedScaled(job, image, m, n);
    ScaledLinesLength(job, image, n);
    forall j: nat | j < n
      ensures ScaledLineAt(job, image, out, j)
    {
      ScaledLinesAt(job, image, n, j);
    }
  }

  /** The samples of a packed page are the device's when its lines are. */
  lemma PageSamples(job: Job, page: seq<Byte>, device: seq<Byte>, rear: bool, n: nat, m: nat)
    requires job.Valid() && job.deinterlace != Whole && |page| == n * job.bpl && m <= n
    requires forall l: nat :: l < m ==> LineFound(job, page, device, rear, l)
    ensures CanPack(job, |page|, |page|) && SamplesFound(job, Packed(job, page, |page|), device, rear, m)
  {
    NoCarry(job);
    DivOfMultiple(n, job.bpl);
    forall l: nat, p: nat, c: nat | l < m && p < job.hwPixels && c < job.channels
      ensures SampleFound(job, Packed(job, page, |page|), device, rear, l, p, c)
    {
      PackedSample(job, page, n, l, p, c);
      assert LineFound(job, page, device, rear, l);
      SampleOfLine(job, page, device, rear, l, p, c);
      SameByteTwice(Packed(job, page, |page|), ImagePos(job, l, p, c), page, RawPos(job, l, p, c),
                    device, DevicePos(job, rear, l, p, c));
    }
  }

  /** Line l of a page is the device's. */
  ghost predicate LineFound(job: Job, page: seq<Byte>, device: seq<Byte>, rear: bool, l: nat)
    requires job.Valid()
  {
    var w, i := job.bpl, SideLine(job, rear, l);
    l * w + w <= |page| && i * w + w <= |device| && LineOf(page, w, l) == LineOf(device, w, i)
  }

  lemma SampleOfLine(job: Job, page: seq<Byte>, device: seq<Byte>, rear: bool, l: nat, p: nat, c: nat)
    requires job.Valid() && job.packing != ColorPack && LineFound(job, page, device, rear, l)
    requires InLine(job, p, c) < job.bpl
    ensures SameByte(page, RawPos(job, l, p, c), device, DevicePos(job, rear, l, p, c))
  {
    LineByte(page, job.bpl, l, InLine(job, p, c));
    LineByte(device, job.bpl, SideLine(job, rear, l), InLine(job, p, c));
  }

  /** The source lines of all output lines are among the hwLines lines behind the offset. */
  lemma SourceLines(job: Job, r: Job)
    requires Scalable(job) && Scalable(r) && r == job.(rearValid := r.rearValid)
    ensures forall n: nat :: n < job.outLines ==> SrcLine(r, n) + 1 < job.hwLines
  {
    forall n: nat | n < job.outLines
      ensures SrcLine(r, n) + 1 < job.hwLines
    {
      CoordInside(job.hwLines, job.outLines, n);
    }
  }

  /** The scaled front pass writes the scaled front side. */
  lemma ScaledFrontRun(job: Job, device: seq<Byte>, m: nat)
    requires CompleteSheet(job, device, m) && job.Scaled()
    ensures job.Carry() <= |RawPage(job, device)| && IsScaledSide(job, device, Written(job, device), false)
  {
    var n := FrontPage(job, device, m);
    var page := Keep(job.bpl, SideOf(job), 0, device[..job.Total()], false);
    assert page == RawPage(job, device);
    WrittenIs(job, device, page, n);
    ScaledPage(job, Packed(job, page, |page|), n);
    FrontSamples(job, device, m, page, n);
    SourceLines(job, job);
    ScaledSideFrom(job, job, Packed(job, page, |page|), device, Written(job, device), false, m);
  }

  lemma FrontSamples(job: Job, device: seq<Byte>, m: nat, page: seq<Byte>, n: nat)
    requires CompleteSheet(job, device, m) && page == Keep(job.bpl, SideOf(job), 0, device[..job.Total()], false)
    requires |page| == n * job.bpl && m <= n
    ensures CanPack(job, |page|, |page|) && SamplesFound(job, Packed(job, page, |page|), device, false, m)
  {
    forall l: nat | l < m
      ensures LineFound(job, page, device, false, l)
    {
      FrontLine(job, device, m, l);
    }
    PageSamples(job, page, device, false, n, m);
  }

  /** The scaled later pass writes the scaled rear side. */
  lemma ScaledRearRun(job: Job, device: seq<Byte>, m: nat, file: seq<Byte>)
    requires Sheet(job, device, m) && job.Scaled() && file == RearFile(job, device[..job.Total()])
    requires Chunk(job) % job.bpl == 0 || m * job.bpl <= Chunk(job)
    ensures Runnable(RearJob(job)) && RearJob(job).Carry() <= |RawPage(RearJob(job), file)|
    ensures IsScaledSide(job, device, Written(RearJob(job), file), true)
  {
    Replayed(job, device, m, file);
    var r := RearJob(job);
    WrittenIs(r, file, file, m);
    ScaledPage(r, Packed(r, file, |file|), m);
    RearSamples(job, device, m, file);
    SourceLines(job, r);
    ScaledSideFrom(job, r, Packed(r, file, |file|), device, Written(r, file), true, m);
  }

  lemma RearSamples(job: Job, device: seq<Byte>, m: nat, file: seq<Byte>)
    requires Sheet(job, device, m) && file == RearFile(job, device[..job.Total()]) && |file| == m * job.bpl
    ensures CanPack(job, |file|, |file|) && CanPack(RearJob(job), |file|, |file|)
    ensures SamplesFound(job, Packed(RearJob(job), file, |file|), device, true, m)
  {
    forall l: nat | l < m
      ensures LineFound(job, file, device, true, l)
    {
      SheetSide(job, device, m, true, l);
    }
    PageSamples(job, file, device, true, m, m);
    SamePacking(job, file, |file|);
  }

  /** What a scaled simplex or flatbed run writes when all of its data arrives, in every packing. */
  lemma ScaledRun(job: Job, device: seq<Byte>)
    requires Runnable(job) && job.Announced() && job.deinterlace == Whole && job.Scaled() && job.Total() <= |device|
    ensures job.Carry() <= |RawPage(job, device)| && IsScaledSide(job, device, Written(job, device), false)
  {
    WholeWritten(job, device);
    WholePage(job, PageImage(job, device), job.hwLines);
    WholeSamples(job, device);
    SourceLines(job, job);
    ScaledSideFrom(job, job, PageImage(job, device), device, Written(job, device), false, job.hwLines);
  }

  lemma WholeWritten(job: Job, device: seq<Byte>)
    requires Runnable(job) && job.Announced() && job.deinterlace == Whole && job.Total() <= |device|
    ensures job.Carry() <= |RawPage(job, device)| && |PageImage(job, device)| == job.hwLines * job.bpl
    ensures Written(job, device) == Emitted(job, PageImage(job, device))
  {
    CompleteSimplex(job, device);
    LinesOf(job.hwLines, 0, job.bpl);
    LinesAnnounced(job, job.hwLines);
  }

  /** For gray: output pixel (n, x) is blended from pixels p and p + 1 of the device's lines l and l + 1. */
  lemma ScaledGrayRun(job: Job, device: seq<Byte>, n: nat, x: nat, l: nat, p: nat, at: nat, i: nat, j: nat)
    requires Runnable(job) && job.Announced() && job.deinterlace == Whole && job.Scaled() && job.Total() <= |device|
    requires job.channels == 1 && n < job.outLines && x < job.outPixels
    requires l == Coord(job.hwLines, job.outLines, n) && p == Coord(job.hwPixels, job.outPixels, x)
    requires at == n * job.outPixels + x && i == l * job.bpl + p && j == (l + 1) * job.bpl + p
    ensures job.Carry() <= |RawPage(job, device)| && at < |Written(job, device)| && i + 1 < |device| && j + 1 < |device|
    ensures IsBlend(Written(job, device)[at], device[i], device[i + 1], device[j], device[j + 1],
                    Dist(job.hwPixels, job.outPixels, x), Dist(job.hwLines, job.outLines, n))
  {
    ScaledRun(job, device);
    assert ScaledSampleAt(job, device, Written(job, device), false, n, x, 0);
    GrayPlaces(job, n, x, l, p, at, i, j);
    SampleAtPlaces(job, device, Written(job, device), n, x, 0, l, p, at, i, i + 1, j, j + 1);
  }

  lemma GrayPlaces(job: Job, n: nat, x: nat, l: nat, p: nat, at: nat, i: nat, j: nat)
    requires job.Valid() && job.channels == 1
    requires at == n * job.outPixels + x && i == l * job.bpl + p && j == (l + 1) * job.bpl + p
    ensures OutPos(job, n, x, 0) == at && RawPos(job, l, p, 0) == i && RawPos(job, l + 1, p, 0) == j
    ensures RawPos(job, l, p + 1, 0) == i + 1 && RawPos(job, l + 1, p + 1, 0) == j + 1
  {
  }

  /** The sample, with its places given. */
  lemma SampleAtPlaces(job: Job, device: seq<Byte>, out: seq<Byte>, n: nat, x: nat, c: nat, l: nat, p: nat,
                       at: nat, i: nat, i': nat, j: nat, j': nat)
    requires Scalable(job) && job.deinterlace == Whole && x < job.outPixels && ScaledSampleAt(job, device, out, false, n, x, c)
    requires l == Coord(job.hwLines, job.outLines, n) && p == Coord(job.hwPixels, job.outPixels, x)
    requires at == OutPos(job, n, x, c) && i == RawPos(job, l, p, c) && j == RawPos(job, l + 1, p, c)
    requires i' == RawPos(job, l, p + 1, c) && j' == RawPos(job, l + 1, p + 1, c)
    ensures at < |out|
    ensures BlendsAt(out[at], device, i, i', j, j', Dist(job.hwPixels, job.outPixels, x), Dist(job.hwLines, job.outLines, n))
  {
  }

  /** For colours sent at a line difference: colour c comes from the lines l and l + 1, c line differences later. */
  lemma ScaledColorRun(job: Job, device: seq<Byte>, n: nat, x: nat, c: nat, l: nat, p: nat, at: nat, i: nat, j: nat)
    requires Runnable(job) && job.Announced() && job.Scaled() && job.Total() <= |device|
    requires job.packing == ColorPack && n < job.outLines && x < job.outPixels && c < 3
    requires l == Coord(job.hwLines, job.outLines, n) && p == Coord(job.hwPixels, job.outPixels, x)
    requires at == n * (3 * job.outPixels) + 3 * x + c
    requires i == (l + c * job.lineDiff) * job.bpl + 3 * p + c && j == (l + 1 + c * job.lineDiff) * job.bpl + 3 * p + c
    ensures job.Carry() <= |RawPage(job, device)| && at < |Written(job, device)| && i + 3 < |device| && j + 3 < |device|
    ensures IsBlend(Written(job, device)[at], device[i], device[i + 3], device[j], device[j + 3],
                    Dist(job.hwPixels, job.outPixels, x), Dist(job.hwLines, job.outLines, n))
  {
    ScaledRun(job, device);
    assert ScaledSampleAt(job, device, Written(job, device), false, n, x, c);
    ColorPlaces(job, n, x, c, l, p, at, i, j);
    SampleAtPlaces(job, device, Written(job, device), n, x, c, l, p, at, i, i + 3, j, j + 3);
  }

  lemma ColorPlaces(job: Job, n: nat, x: nat, c: nat, l: nat, p: nat, at: nat, i: nat, j: nat)
    requires job.Valid() && job.packing == ColorPack && at == n * (3 * job.outPixels) + 3 * x + c
    requires i == (l + c * job.lineDiff) * job.bpl + 3 * p + c && j == (l + 1 + c * job.lineDiff) * job.bpl + 3 * p + c
    ensures OutPos(job, n, x, c) == at && RawPos(job, l, p, c) == i && RawPos(job, l + 1, p, c) == j
    ensures RawPos(job, l, p + 1, c) == i + 3 && RawPos(job, l + 1, p + 1, c) == j + 3
  {
  }

  lemma WholePage(job: Job, image: seq<Byte>, h: nat)
    requires Runnable(job) && job.Scaled() && job.deinterlace == Whole && |image| == h * job.bpl && h == job.hwLines
    ensures IsScaledPage(job, image, Emitted(job, image))
  {
    LinesOf(h, 0, job.bpl);
    CompletePageCount(job, h);
    ScaledPageLines(job, image, h);
  }

  lemma WholeSamples(job: Job, device: seq<Byte>)
    requires job.Valid() && job.deinterlace == Whole && job.Total() <= |device|
    ensures job.Carry() <= |RawPage(job, device)|
    ensures SamplesFound(job, PageImage(job, device), device, false, job.hwLines)
  {
    CompleteSimplex(job, device);
    forall l: nat, p: nat, c: nat | l < job.hwLines && p < job.hwPixels && c < job.channels
      ensures SampleFound(job, PageImage(job, device), device, false, l, p, c)
    {
      PackedSample(job, RawPage(job, device), job.hwLines, l, p, c);
    }
  }

  // ---------------------------------------------------------------- both sides

  /** With all the data of a sheet, a run writes the same whether it ends by end of file or by an error. */
  lemma SheetUnpadded(job: Job, device: seq<Byte>, page: seq<Byte>, m: nat)
    requires Runnable(job) && job.Announced() && job.deinterlace != Whole
    requires page == RawPage(job, device) && |page| == m * job.bpl && LongEnough(job, m)
    ensures job.Carry() <= |RawPage(job, device)| && Written(job, device) == Emitted(job, PageImage(job, device))
  {
    WrittenIs(job, device, page, m);
  }

  /** The output is one side, scaled or not. */
  ghost predicate SideWritten(job: Job, device: seq<Byte>, out: seq<Byte>, rear: bool)
    requires job.Valid()
  {
    if job.Scaled() then IsScaledSide(job, device, out, rear) else IsSide(job, device, out, rear)
  }

  /** The front pass: its output is the front side, and the file holds the rear side. */
  method ScanFront(job: Job, device: seq<Byte>, ending: Status, alreadyEof: bool, ghost m: nat)
    returns (front: seq<Byte>, file: seq<Byte>)
    requires CompleteSheet(job, device, m) && job.StripeSize() < TWO32 && ending != Good
    ensures SideWritten(job, device, front, false) && file == RearFile(job, device[..job.Total()])
  {
    NoCarry(job);
    ghost var n := FrontPage(job, device, m);
    SheetUnpadded(job, device, RawPage(job, device), n);
    if job.Scaled() { ScaledFrontRun(job, device, m); } else { FrontRun(job, device, m); }
    var overrun, status;
    ghost var reported;
    overrun, status, front, file, reported := ReaderProcess(job, device, ending, alreadyEof);
  }

  /** The later pass over the saved file. */
  method ScanRear(job: Job, ghost device: seq<Byte>, file: seq<Byte>, ghost m: nat) returns (rear: seq<Byte>)
    requires Sheet(job, device, m) && job.StripeSize() < TWO32 && file == RearFile(job, device[..job.Total()])
    requires Chunk(job) % job.bpl == 0 || m * job.bpl <= Chunk(job)
    ensures SideWritten(job, device, rear, true)
  {
    NoCarry(job);
    Replayed(job, device, m, file);
    SheetUnpadded(RearJob(job), file, file, m);
    DivOfMultiple(m, job.bpl);
    if job.Scaled() { ScaledRearRun(job, device, m, file); } else { RearRun(job, device, m, file); }
    var overrun, status, none;
    ghost var reported;
    overrun, status, rear, none, reported := ReaderProcess(RearJob(job), file, Eof, true);
  }

  /** Scan both sides of a sheet: the front pass saves the rear lines, the second pass replays them. */
  method ScanSheet(job: Job, device: seq<Byte>, ending: Status, alreadyEof: bool, ghost m: nat)
    returns (front: seq<Byte>, rear: seq<Byte>)
    requires Sheet(job, device, m) && job.StripeSize() < TWO32 && ending != Good
    requires Chunk(job) % job.bpl == 0 || m * job.bpl <= Chunk(job)
    ensures SideWritten(job, device, front, false) && SideWritten(job, device, rear, true)
  {
    var file;
    front, file := ScanFront(job, device, ending, alreadyEof, m);
    rear := ScanRear(job, device, file, m);
  }
}
