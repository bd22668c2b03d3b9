/**
 What a page scanned by the Avision backend is, as functions of the whole raw
 stream: which raw lines belong to which side of the sheet, where each byte of
 the packed image comes from, and how an image is cropped or scaled.  Nothing in
 this module knows about stripes; AvisionReader proves that the stripe-wise
 reader computes exactly these functions.
 */
module AvisionImage {
  import opened SaneBytes

  datatype Deinterlace = Whole | Stripe | Half | Line
  datatype Packing = Copy | ColorPack | LinePack

  /** One run of the reader: the scan dimensions and the device quirks it depends on. */
  datatype Job = Job(
    channels: nat,        // samples per pixel: 1 gray, 3 colour (8 bits each)
    hwPixels: nat,        // hardware pixels per line
    bpl: nat,             // hardware bytes per line
    hwLines: nat,
    xres: nat, hwXres: nat,
    outPixels: nat,       // pixels per line and lines after scaling
    outLines: nat,
    lineDiff: nat,        // colour line difference
    rearOffset: nat,
    stripeLines: nat,     // read_stripe_size
    maxRead: nat,
    averse64: bool,       // AV_NO_64BYTE_ALIGN
    deinterlace: Deinterlace,
    rearValid: bool,      // this run replays the stored rear page
    packing: Packing,
    adf: bool,
    shaded: bool          // gray or colour: padding is white (255)
  ) {
    predicate Scaled() { xres != hwXres }
    function ScaledBpl(): nat { if channels == 1 then outPixels else 3 * outPixels }
    function OutBpl(): nat { if Scaled() then ScaledBpl() else bpl }
    function ParamLines(): int { if adf then -1 else outLines }
    function LinesPerStripe(): nat { stripeLines + 2 * lineDiff }
    function ColorOffset(): nat { lineDiff * bpl }
    function Carry(): nat { 2 * ColorOffset() }
    function OutSize(): nat { stripeLines * bpl }
    function StripeSize(): nat { OutSize() + Carry() }
    predicate FrontPass() { deinterlace != Whole && !rearValid }

    function TotalLines(): nat {
      if FrontPass() then 2 * (hwLines + 2 * lineDiff + rearOffset) else hwLines + 2 * lineDiff + rearOffset
    }
    function Total(): nat { TotalLines() * bpl }

    /** Where line numbers of the page start: the rear page skips its offset. */
    function Skip(): nat { if rearValid then rearOffset else 0 }

    /** What compute_parameters and the device tables establish before a run. */
    predicate Valid() {
      && (channels == 1 || channels == 3)
      && bpl == (if channels == 1 then hwPixels else 3 * hwPixels)
      && 0 < bpl <= maxRead && stripeLines > 0
      && 0 < xres <= hwXres
      && (packing == ColorPack <==> lineDiff > 0)
      && (packing != Copy ==> channels == 3)
      && (deinterlace != Whole ==> lineDiff == 0)
      && (deinterlace == Whole ==> rearOffset == 0 && !rearValid)
    }

    /** The announced size of the output, as compute_parameters derives it. */
    predicate Announced()
      requires hwXres > 0
    {
      && outPixels == hwPixels * xres / hwXres
      && outLines == hwLines * xres / hwXres
    }
  }

  // ---------------------------------------------------------------- deinterlacing

  /** Does absolute raw line a carry the rear side? */
  predicate IsRear(job: Job, a: nat)
    requires job.stripeLines > 0
  {
    match job.deinterlace
    case Whole => false
    case Stripe => a % (2 * job.LinesPerStripe()) >= job.LinesPerStripe()
    case Half => a >= job.TotalLines() / 2
    case Line => a % 2 == 1
  }

  function SideOf(job: Job): nat -> bool
    requires job.stripeLines > 0
  {
    (a: nat) => IsRear(job, a)
  }

  /** The w-byte lines of s on one side, in order; s starts with raw line a. */
  function Keep(w: nat, side: nat -> bool, a: nat, s: seq<Byte>, rear: bool): seq<Byte>
    requires w > 0
    decreases |s|
  {
    if |s| < w then []
    else (if side(a) == rear then s[..w] else []) + Keep(w, side, a + 1, s[w..], rear)
  }

  /** How many of the first n raw lines belong to one side. */
  function SideCount(side: nat -> bool, n: nat, rear: bool): (c: nat)
    ensures c <= n
  {
    if n == 0 then 0
    else SideCount(side, n - 1, rear) + if side(n - 1) == rear then 1 else 0
  }

  lemma {:induction false} KeepAppend(w: nat, side: nat -> bool, a: nat, s: seq<Byte>, n: nat, t: seq<Byte>, rear: bool)
    requires w > 0 && |s| == n * w
    ensures Keep(w, side, a, s + t, rear) == Keep(w, side, a, s, rear) + Keep(w, side, a + n, t, rear)
    decreases n
  {
    if n == 0 {
      assert s + t == t;
    } else {
      MulSucc(n, w);
      MulMono(1, n, w);
      KeepAppend(w, side, a + 1, s[w..], n - 1, t, rear);
      KeepFirst(w, side, a, s, rear);
      KeepFirst(w, side, a, s + t, rear);
      assert (s + t)[..w] == s[..w];
      assert (s + t)[w..] == s[w..] + t;
      Associate(FirstLine(w, side, a, s, rear), Keep(w, side, a + 1, s[w..], rear), Keep(w, side, a + n, t, rear));
    }
  }

  function FirstLine(w: nat, side: nat -> bool, a: nat, s: seq<Byte>, rear: bool): seq<Byte>
    requires w <= |s|
  {
    if side(a) == rear then s[..w] else []
  }

  lemma KeepFirst(w: nat, side: nat -> bool, a: nat, s: seq<Byte>, rear: bool)
    requires 0 < w <= |s|
    ensures Keep(w, side, a, s, rear) == FirstLine(w, side, a, s, rear) + Keep(w, side, a + 1, s[w..], rear)
  {
  }

  lemma KeepOne(w: nat, side: nat -> bool, a: nat, s: seq<Byte>, n: nat, x: seq<Byte>, rear: bool)
    requires w > 0 && |s| == n * w && |x| == w
    ensures Keep(w, side, a, s + x, rear) == Keep(w, side, a, s, rear) + if side(a + n) == rear then x else []
  {
    KeepAppend(w, side, a, s, n, x, rear);
    assert x[..w] == x;
    assert Keep(w, side, a + n, x, rear) == if side(a + n) == rear then x else [];
  }

  lemma {:induction false} CountsSum(side: nat -> bool, n: nat)
    ensures SideCount(side, n, true) + SideCount(side, n, false) == n
  {
    if n > 0 {
      CountsSum(side, n - 1);
    }
  }

  /** Each side holds exactly the lines counted for it, and together they hold every line. */
  lemma {:induction false} SidesComplete(w: nat, side: nat -> bool, raw: seq<Byte>, n: nat)
    requires w > 0 && |raw| == n * w
    ensures forall rear :: |Keep(w, side, 0, raw, rear)| == SideCount(side, n, rear) * w
    ensures SideCount(side, n, true) + SideCount(side, n, false) == n
    decreases n
  {
    CountsSum(side, n);
    if n > 0 {
      var m := n - 1;
      MulSucc(n, w);
      var s, x := raw[..m * w], raw[m * w..];
      assert raw == s + x;
      SidesComplete(w, side, s, m);
      forall rear
        ensures |Keep(w, side, 0, raw, rear)| == SideCount(side, n, rear) * w
      {
        KeepOne(w, side, 0, s, m, x, rear);
        MulSucc(SideCount(side, m, rear), w);
      }
    }
  }

  lemma SideSize(w: nat, side: nat -> bool, raw: seq<Byte>, n: nat, rear: bool)
    requires w > 0 && |raw| == n * w
    ensures |Keep(w, side, 0, raw, rear)| == SideCount(side, n, rear) * w
  {
    SidesComplete(w, side, raw, n);
  }

  /**
   Deinterlacing is an order-preserving partition: raw line i appears on its own
   side at the position counted by the lines of that side before it.
   */
  lemma {:induction false} SidesPartition(w: nat, side: nat -> bool, raw: seq<Byte>, n: nat, i: nat)
    requires w > 0 && |raw| == n * w && i < n
    ensures var p := SideCount(side, i, side(i));
            var page := Keep(w, side, 0, raw, side(i));
            && p < SideCount(side, n, side(i))
            && p * w + w <= |page| && i * w + w <= |raw|
            && LineOf(page, w, p) == LineOf(raw, w, i)
    decreases n
  {
    var m, rear := n - 1, side(i);
    MulSucc(n, w);
    MulStrict(i, n, w);
    var s, x := raw[..m * w], raw[m * w..];
    assert raw == s + x;
    var page, p := Keep(w, side, 0, s, rear), SideCount(side, i, rear);
    KeepOne(w, side, 0, s, m, x, rear);
    SideSize(w, side, s, m, rear);
    if i < m {
      MulStrict(i, m, w);
      SidesPartition(w, side, s, m, i);
      LineOfPrefix(s, raw, w, i);
      assert page <= Keep(w, side, 0, raw, rear);
      LineOfPrefix(page, Keep(w, side, 0, raw, rear), w, p);
    } else {
      LineOfLast(s, x, w, i);
      assert Keep(w, side, 0, raw, rear) == page + x;
      LineOfLast(page, x, w, p);
    }
  }

  /** Within lines [a, a + n) no front line follows a rear line. */
  ghost predicate FrontsFirst(side: nat -> bool, a: nat, n: nat) {
    forall i: nat, j: nat :: a <= i <= j < a + n && side(i) ==> side(j)
  }

  lemma {:induction false} KeepLength(w: nat, side: nat -> bool, a: nat, s: seq<Byte>, n: nat)
    requires w > 0 && n * w <= |s| < n * w + w
    ensures |Keep(w, side, a, s, false)| + |Keep(w, side, a, s, true)| == n * w
    ensures |Keep(w, side, a, s, false)| % w == 0
    decreases n
  {
    if n > 0 {
      MulSucc(n, w);
      MulMono(1, n, w);
      KeepLength(w, side, a + 1, s[w..], n - 1);
      DivAddMultiple(1, |Keep(w, side, a + 1, s[w..], false)|, w);
    }
  }

  lemma {:induction false} KeepNoFront(w: nat, side: nat -> bool, a: nat, s: seq<Byte>, n: nat)
    requires w > 0 && n * w <= |s| < n * w + w
    requires forall i: nat :: a <= i < a + n ==> side(i)
    ensures Keep(w, side, a, s, false) == []
    decreases n
  {
    if n > 0 {
      MulSucc(n, w);
      MulMono(1, n, w);
      KeepNoFront(w, side, a + 1, s[w..], n - 1);
    }
  }

  /** When the front lines come first, the buffer already starts with the front page's part. */
  lemma {:induction false} KeepPrefix(w: nat, side: nat -> bool, a: nat, s: seq<Byte>, n: nat)
    requires w > 0 && n * w <= |s| < n * w + w && FrontsFirst(side, a, n)
    ensures Keep(w, side, a, s, false) <= s
    decreases n
  {
    if n > 0 {
      MulSucc(n, w);
      MulMono(1, n, w);
      if side(a) {
        KeepNoFront(w, side, a, s, n);
      } else {
        KeepPrefix(w, side, a + 1, s[w..], n - 1);
        assert s == s[..w] + s[w..];
      }
    }
  }

  /** The side of a line in stripe q depends only on the parity of q. */
  lemma StripeSide(job: Job, q: nat, i: nat)
    requires job.Valid() && job.deinterlace == Stripe && i < job.LinesPerStripe()
    ensures IsRear(job, q * job.LinesPerStripe() + i) <==> q % 2 == 1
  {
    var l, p := job.LinesPerStripe(), q / 2;
    var twice := 2 * l;
    assert q == 2 * p + q % 2;
    Regroup(p, q % 2, l);
    if q % 2 == 1 {
      DivUnique(q * l + i, twice, p, l + i);
    } else {
      DivUnique(q * l + i, twice, p, i);
    }
  }

  lemma Regroup(p: int, b: int, l: int)
    requires b == 0 || b == 1
    ensures (2 * p + b) * l == p * (2 * l) + (if b == 1 then l else 0)
  {
  }

  /** Buffers that start on a stripe boundary hold their front lines first, except line by line. */
  lemma BufferSides(job: Job, q: nat, n: nat)
    requires job.Valid() && job.deinterlace != Line && n <= job.LinesPerStripe()
    ensures FrontsFirst(SideOf(job), q * job.LinesPerStripe(), n)
  {
    var a := q * job.LinesPerStripe();
    if job.deinterlace == Stripe {
      forall i: nat, j: nat | a <= i <= j < a + n && SideOf(job)(i)
        ensures SideOf(job)(j)
      {
        StripeSide(job, q, i - a);
        StripeSide(job, q, j - a);
      }
    }
  }

  // ---------------------------------------------------------------- packing

  function Channel(k: nat, step: nat): nat {
    if k % 3 == 0 then 0 else if k % 3 == 1 then step else 2 * step
  }

  /** Byte k of pixel data, taken from lines of w bytes that hold three planes of px samples. */
  function PlaneSrc(w: nat, px: nat, k: nat): nat
    requires w > 0
  {
    WholeBytes(k, w) + Channel(k, px) + k % w / 3
  }

  /** The raw position that byte k of the packed image is taken from. */
  function Src(job: Job, k: nat): nat
    requires job.Valid()
  {
    match job.packing
    case Copy => k
    case ColorPack => k + Channel(k, job.ColorOffset())
    case LinePack => PlaneSrc(job.bpl, job.hwPixels, k)
  }

  /** A packed image needs the carried lines behind it; a line pack needs whole lines. */
  predicate CanPack(job: Job, rawLength: nat, n: nat)
    requires job.Valid()
  {
    n + job.Carry() <= rawLength && n % job.bpl == 0
  }

  lemma SrcInside(job: Job, rawLength: nat, n: nat, k: nat)
    requires job.Valid() && CanPack(job, rawLength, n) && k < n
    ensures Src(job, k) < rawLength
  {
    if job.packing == LinePack {
      PlaneSrcInside(job.bpl, job.hwPixels, n, k);
    }
  }

  lemma PlaneSrcInside(w: nat, px: nat, n: nat, k: nat)
    requires w == 3 * px && w > 0 && n % w == 0 && k < n
    ensures PlaneSrc(w, px, k) < n
  {
    var r := k % w;
    assert Channel(k, px) + r / 3 < w;
    assert n == WholeBytes(n, w);
    DivLess(k, w, Lines(n, w));
    LineFits(n, w, Lines(k, w));
    assert WholeBytes(k, w) == k - r;
  }

  /** The first n bytes of the packed image. */
  function Packed(job: Job, raw: seq<Byte>, n: nat): (r: seq<Byte>)
    requires job.Valid() && CanPack(job, |raw|, n)
    ensures |r| == n
  {
    seq(n, k requires 0 <= k < n => SrcInside(job, |raw|, n, k); raw[Src(job, k)])
  }

  /** Packing commutes with a shift by whole lines. */
  lemma SrcShift(job: Job, q: nat, k: nat)
    requires job.Valid()
    ensures Src(job, q * job.bpl + k) == q * job.bpl + Src(job, k)
  {
    var w := job.bpl;
    if job.packing != Copy {
      assert q * w == (q * job.hwPixels) * 3;
      DivAddMultiple(q * job.hwPixels, k, 3);
      DivAddMultiple(q, k, w);
    }
  }

  /** The image after b whole lines continues with the packing of the stream from there on. */
  lemma PackedExtend(job: Job, raw: seq<Byte>, q: nat, u: nat)
    requires job.Valid() && u % job.bpl == 0
    requires q * job.bpl + u + job.Carry() <= |raw|
    ensures CanPack(job, |raw|, q * job.bpl) && CanPack(job, |raw|, q * job.bpl + u)
    ensures CanPack(job, |raw| - q * job.bpl, u)
    ensures Packed(job, raw, q * job.bpl + u)
         == Packed(job, raw, q * job.bpl) + Packed(job, raw[q * job.bpl..], u)
  {
    var b := q * job.bpl;
    DivOfMultiple(q, job.bpl);
    DivAddMultiple(q, u, job.bpl);
    var l, r := Packed(job, raw, b + u), Packed(job, raw, b) + Packed(job, raw[b..], u);
    forall k | 0 <= k < b + u
      ensures l[k] == r[k]
    {
      if k < b {
        SrcInside(job, |raw|, b, k);
      } else {
        PackedBehind(job, raw, q, b, u, k - b);
      }
    }
  }

  lemma PackedBehind(job: Job, raw: seq<Byte>, q: nat, b: nat, u: nat, k: nat)
    requires job.Valid() && b == q * job.bpl && k < u && b <= |raw|
    requires CanPack(job, |raw|, b + u) && CanPack(job, |raw| - b, u)
    ensures Packed(job, raw, b + u)[b + k] == Packed(job, raw[b..], u)[k]
  {
    SrcShift(job, q, k);
    SrcInside(job, |raw|, b + u, b + k);
    SrcInside(job, |raw| - b, u, k);
  }

  /** Packing looks only at the raw bytes it needs. */
  lemma PackedPrefix(job: Job, raw: seq<Byte>, more: seq<Byte>, n: nat)
    requires job.Valid() && CanPack(job, |raw|, n) && raw <= more
    ensures Packed(job, raw, n) == Packed(job, more, n)
  {
    forall k | 0 <= k < n
      ensures Src(job, k) < |raw| && raw[Src(job, k)] == more[Src(job, k)]
    {
      SrcInside(job, |raw|, n, k);
    }
  }

  // ---------------------------------------------------------------- cropping

  function Take(s: seq<Byte>, n: nat): seq<Byte> { if n < |s| then s[..n] else s }
  function Drop(s: seq<Byte>, n: nat): seq<Byte> { if n < |s| then s[n..] else [] }

  /** Where a page is cut. */
  function CropAt(job: Job): nat { (if job.rearValid then job.rearOffset else job.hwLines) * job.bpl }

  /** The part of an unscaled page that is written out. */
  function Crop(job: Job, image: seq<Byte>): seq<Byte> {
    if job.deinterlace == Whole then image
    else if !job.rearValid then Take(image, CropAt(job))
    else Drop(image, CropAt(job))
  }

  predicate Cropped(job: Job, hwLine: nat) {
    && job.deinterlace != Whole
    && ((!job.rearValid && hwLine >= job.hwLines) || (job.rearValid && hwLine < job.rearOffset))
  }

  /** Cropping can be done line by line. */
  lemma CropLine(job: Job, image: seq<Byte>, h: nat, x: seq<Byte>)
    requires |image| == h * job.bpl && |x| == job.bpl
    ensures Crop(job, image + x) == Crop(job, image) + if Cropped(job, h) then [] else x
  {
    CropSide(job, h);
    TakeAppend(image, x, CropAt(job));
  }

  /** A line lies on one side of the cut. */
  lemma CropSide(job: Job, h: nat)
    ensures if h < (if job.rearValid then job.rearOffset else job.hwLines) then h * job.bpl + job.bpl <= CropAt(job)
            else CropAt(job) <= h * job.bpl
  {
    var limit := if job.rearValid then job.rearOffset else job.hwLines;
    if h < limit {
      MulStrict(h, limit, job.bpl);
    } else {
      MulMono(limit, h, job.bpl);
    }
  }

  lemma TakeAppend(s: seq<Byte>, x: seq<Byte>, n: nat)
    ensures |s| + |x| <= n ==> Take(s + x, n) == Take(s, n) + x && Drop(s + x, n) == Drop(s, n)
    ensures n <= |s| ==> Take(s + x, n) == Take(s, n) && Drop(s + x, n) == Drop(s, n) + x
  {
    if n < |s| {
      assert (s + x)[n..] == s[n..] + x;
    }
  }
}
