/**
 Single samples: where the raw stream holds a sample of the packed page, and which four
 samples of a page a scaled one is blended from.
 */
module AvisionSamples {
  import opened SaneBytes
  import opened AvisionImage
  import opened AvisionScale
  import opened AvisionReader

  // ---------------------------------------------------------------- packing

  /** Colour pack: channel c of pixel q in line n comes from raw line n + c * lineDiff. */
  lemma ColorPackMeaning(job: Job, raw: seq<Byte>, lines: nat, n: nat, q: nat, c: nat)
    requires job.Valid() && job.packing == ColorPack && n < lines && q < job.hwPixels && c < 3
    requires lines * job.bpl + job.Carry() <= |raw|
    ensures CanPack(job, |raw|, lines * job.bpl)
    ensures n * job.bpl + 3 * q + c < lines * job.bpl && (n + c * job.lineDiff) * job.bpl + 3 * q + c < |raw|
    ensures Packed(job, raw, lines * job.bpl)[n * job.bpl + 3 * q + c]
         == raw[(n + c * job.lineDiff) * job.bpl + 3 * q + c]
  {
    DivOfMultiple(lines, job.bpl);
    MulStrict(n, lines, job.bpl);
    var k := 3 * q + c;
    SrcShift(job, n, k);
    assert k % 3 == c;
    MulAdd(n, c * job.lineDiff, job.bpl);
    MulAssoc(c, job.lineDiff, job.bpl);
    assert Channel(k, job.ColorOffset()) == c * job.ColorOffset();
    SrcInside(job, |raw|, lines * job.bpl, n * job.bpl + k);
  }

  /** Which line and which byte of it the device sends for channel c of pixel p in line n. */
  function LateLines(job: Job, c: nat): nat { if job.packing == ColorPack then c * job.lineDiff else 0 }

  function InLine(job: Job, p: nat, c: nat): nat {
    if job.channels == 1 then p
    else if job.packing == LinePack then p + Channel(c, job.hwPixels)
    else 3 * p + c
  }

  function RawPos(job: Job, n: nat, p: nat, c: nat): nat {
    NonNegative(n + LateLines(job, c), job.bpl);
    (n + LateLines(job, c)) * job.bpl + InLine(job, p, c)
  }

  /** Where the packed page holds it. */
  function ImagePos(job: Job, n: nat, p: nat, c: nat): nat {
    NonNegative(n, job.bpl);
    n * job.bpl + Offset(job, p, c)
  }

  predicate SameByte(s: seq<Byte>, i: nat, t: seq<Byte>, j: nat) { i < |s| && j < |t| && s[i] == t[j] }

  lemma SameByteTwice(s: seq<Byte>, i: nat, t: seq<Byte>, j: nat, u: seq<Byte>, k: nat)
    requires SameByte(s, i, t, j) && SameByte(t, j, u, k)
    ensures SameByte(s, i, u, k)
  {
  }

  /** Whatever the packing, sample (n, p, c) of the page is the one the device sent for it. */
  lemma PackedSample(job: Job, raw: seq<Byte>, lines: nat, n: nat, p: nat, c: nat)
    requires job.Valid() && n < lines && p < job.hwPixels && c < job.channels
    requires lines * job.bpl + job.Carry() <= |raw|
    ensures CanPack(job, |raw|, lines * job.bpl) && InLine(job, p, c) < job.bpl
    ensures SameByte(Packed(job, raw, lines * job.bpl), ImagePos(job, n, p, c), raw, RawPos(job, n, p, c))
  {
    if job.packing == ColorPack {
      ColorPackMeaning(job, raw, lines, n, p, c);
    } else {
      InLineIs(job, p, c);
      PlainSample(job, raw, lines, n, Offset(job, p, c));
    }
  }

  lemma PlainSample(job: Job, raw: seq<Byte>, lines: nat, n: nat, k: nat)
    requires job.Valid() && job.packing != ColorPack && n < lines && k < job.bpl && lines * job.bpl <= |raw|
    ensures CanPack(job, |raw|, lines * job.bpl)
    ensures n * job.bpl + k < lines * job.bpl && n * job.bpl + Src(job, k) < |raw|
    ensures Packed(job, raw, lines * job.bpl)[n * job.bpl + k] == raw[n * job.bpl + Src(job, k)]
  {
    DivOfMultiple(lines, job.bpl);
    MulStrict(n, lines, job.bpl);
    SrcShift(job, n, k);
    SrcInside(job, |raw|, lines * job.bpl, n * job.bpl + k);
  }

  lemma InLineIs(job: Job, p: nat, c: nat)
    requires job.Valid() && job.packing != ColorPack && p < job.hwPixels && c < job.channels
    ensures Offset(job, p, c) < job.bpl
    ensures InLine(job, p, c) < job.bpl && Src(job, Offset(job, p, c)) == InLine(job, p, c)
  {
    var k := Offset(job, p, c);
    if job.packing == LinePack {
      assert k / 3 == p && k % 3 == c;
      DivUnique(k, job.bpl, 0, k);
    }
  }

  // ---------------------------------------------------------------- packed lines

  /** An output line holds a line of the device: the same bytes, or its three planes turned into pixels. */
  ghost predicate LineIs(job: Job, out: seq<Byte>, raw: seq<Byte>) {
    && |out| == |raw|
    && match job.packing
       case LinePack => |out| == 3 * job.hwPixels && forall p: nat :: p < job.hwPixels ==> PixelIs(out, raw, job.hwPixels, p)
       case _ => out == raw
  }

  ghost predicate PixelIs(out: seq<Byte>, raw: seq<Byte>, px: nat, p: nat)
    requires p < px && |out| == |raw| == 3 * px
  {
    out[3 * p] == raw[p] && out[3 * p + 1] == raw[px + p] && out[3 * p + 2] == raw[2 * px + p]
  }

  lemma PackedLineIs(job: Job, raw: seq<Byte>)
    requires job.Valid() && job.Carry() == 0 && |raw| == job.bpl && CanPack(job, job.bpl, job.bpl)
    ensures LineIs(job, Packed(job, raw, job.bpl), raw)
  {
    var out := Packed(job, raw, job.bpl);
    match job.packing
    case Copy =>
    case ColorPack => MulMono(1, job.lineDiff, job.bpl);
    case LinePack =>
      forall p: nat | p < job.hwPixels
        ensures PixelIs(out, raw, job.hwPixels, p)
      {
        PixelPacked(job, raw, p);
      }
  }

  lemma PixelPacked(job: Job, raw: seq<Byte>, p: nat)
    requires job.Valid() && job.packing == LinePack && job.Carry() == 0 && |raw| == job.bpl && CanPack(job, job.bpl, job.bpl)
    requires p < job.hwPixels
    ensures PixelIs(Packed(job, raw, job.bpl), raw, job.hwPixels, p)
  {
    ByteOfPlane(job, raw, p, 0, 3 * p, p);
    ByteOfPlane(job, raw, p, 1, 3 * p + 1, job.hwPixels + p);
    ByteOfPlane(job, raw, p, 2, 3 * p + 2, 2 * job.hwPixels + p);
  }

  lemma ByteOfPlane(job: Job, raw: seq<Byte>, p: nat, c: nat, k: nat, q: nat)
    requires job.Valid() && job.packing == LinePack && job.Carry() == 0 && |raw| == job.bpl && CanPack(job, job.bpl, job.bpl)
    requires p < job.hwPixels && c < 3 && k == Offset(job, p, c) && q == InLine(job, p, c)
    ensures k < job.bpl && q < job.bpl && Packed(job, raw, job.bpl)[k] == raw[q]
  {
    InLineIs(job, p, c);
  }

  lemma LineIsSame(job: Job, out: seq<Byte>, raw: seq<Byte>, line: seq<Byte>)
    requires job.Valid() && job.Carry() == 0 && |line| == job.bpl && CanPack(job, job.bpl, job.bpl)
    requires out == Packed(job, line, job.bpl) && raw == line
    ensures LineIs(job, out, raw)
  {
    PackedLineIs(job, line);
  }

  // ---------------------------------------------------------------- scaled samples

  /** v is the bilinear value of the four samples at the given places. */
  ghost predicate BlendsAt(v: Byte, s: seq<Byte>, a: nat, b: nat, c: nat, d: nat, xd: nat, yd: nat) {
    a < |s| && b < |s| && c < |s| && d < |s| && IsBlend(v, s[a], s[b], s[c], s[d], xd, yd)
  }

  lemma BlendsElsewhere(v: Byte, s: seq<Byte>, t: seq<Byte>, a: nat, b: nat, c: nat, d: nat, a': nat, b': nat, c': nat, d': nat,
                        xd: nat, yd: nat)
    requires BlendsAt(v, s, a, b, c, d, xd, yd)
    requires SameByte(s, a, t, a') && SameByte(s, b, t, b') && SameByte(s, c, t, c') && SameByte(s, d, t, d')
    ensures BlendsAt(v, t, a', b', c', d', xd, yd)
  {
  }

  lemma LineByte(s: seq<Byte>, w: nat, l: nat, k: nat)
    requires l * w + w <= |s| && k < w
    ensures l * w + k < |s| && LineOf(s, w, l)[k] == s[l * w + k]
  {
  }

  /** A byte of a scaled line is the bilinear value of the four samples at these places of the image. */
  lemma ScaledByteAt(job: Job, image: seq<Byte>, n: nat, x: nat, c: nat, l: nat, p: nat)
    requires Scalable(job) && Avail(job, n, Lines(|image|, job.bpl)) && x < job.outPixels && c < job.channels
    requires l == SrcLine(job, n) + job.Skip() && p == Coord(job.hwPixels, job.outPixels, x)
    ensures Offset(job, x, c) < job.ScaledBpl()
    ensures BlendsAt(ScaledLine(job, image, n)[Offset(job, x, c)], image, ImagePos(job, l, p, c), ImagePos(job, l, p + 1, c),
                     ImagePos(job, l + 1, p, c), ImagePos(job, l + 1, p + 1, c),
                     Dist(job.hwPixels, job.outPixels, x), YDist(job, n))
  {
    var w := job.bpl;
    LineFits(|image|, w, l);
    LineFits(|image|, w, l + 1);
    var top, bottom := LineOf(image, w, l), LineOf(image, w, l + 1);
    ScaledLineFrom(job, image, n, l, top, bottom);
    BlendLineIs(job, top, bottom, YDist(job, n), x, c, p);
    FourPlaces(job, ScaledLine(job, image, n)[Offset(job, x, c)], image, l, p, c, Dist(job.hwPixels, job.outPixels, x), YDist(job, n));
  }

  lemma BlendLineIs(job: Job, top: seq<Byte>, bottom: seq<Byte>, yd: nat, x: nat, c: nat, p: nat)
    requires Scalable(job) && |top| == |bottom| == job.bpl && yd < 256 && x < job.outPixels && c < job.channels
    requires p == Coord(job.hwPixels, job.outPixels, x)
    ensures Offset(job, x, c) < job.ScaledBpl() && Offset(job, p, c) < job.bpl && Offset(job, p + 1, c) < job.bpl
    ensures IsBlend(BlendLine(job, top, bottom, yd)[Offset(job, x, c)], top[Offset(job, p, c)], top[Offset(job, p + 1, c)],
                    bottom[Offset(job, p, c)], bottom[Offset(job, p + 1, c)], Dist(job.hwPixels, job.outPixels, x), yd)
  {
    BlendLineAt(job, top, bottom, yd, x, c);
    BlendIs(top[Offset(job, p, c)], top[Offset(job, p + 1, c)], bottom[Offset(job, p, c)], bottom[Offset(job, p + 1, c)],
            Dist(job.hwPixels, job.outPixels, x), yd);
  }

  lemma FourPlaces(job: Job, v: Byte, image: seq<Byte>, l: nat, p: nat, c: nat, xd: nat, yd: nat)
    requires l * job.bpl + job.bpl <= |image| && (l + 1) * job.bpl + job.bpl <= |image|
    requires Offset(job, p, c) < job.bpl && Offset(job, p + 1, c) < job.bpl
    requires var top, bottom := LineOf(image, job.bpl, l), LineOf(image, job.bpl, l + 1);
      IsBlend(v, top[Offset(job, p, c)], top[Offset(job, p + 1, c)], bottom[Offset(job, p, c)], bottom[Offset(job, p + 1, c)], xd, yd)
    ensures BlendsAt(v, image, ImagePos(job, l, p, c), ImagePos(job, l, p + 1, c),
                     ImagePos(job, l + 1, p, c), ImagePos(job, l + 1, p + 1, c), xd, yd)
  {
    LineByte(image, job.bpl, l, Offset(job, p, c));
    LineByte(image, job.bpl, l, Offset(job, p + 1, c));
    LineByte(image, job.bpl, l + 1, Offset(job, p, c));
    LineByte(image, job.bpl, l + 1, Offset(job, p + 1, c));
  }
}
