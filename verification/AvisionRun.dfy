/** A whole run of the reader process, and the two runs that make an interlaced duplex sheet. */
module AvisionRun {
  import opened SaneBytes
  import opened AvisionImage
  import opened AvisionScale
  import opened AvisionReader

  predicate Runnable(job: Job) { job.Valid() && (job.Scaled() ==> Scalable(job)) }

  /** Everything a run writes for an image, before padding. */
  function Emitted(job: Job, image: seq<Byte>): seq<Byte>
    requires Runnable(job)
  {
    if job.Scaled() then
      var have := Lines(|image|, job.bpl);
      CountedAvail(job, ScaledCount(job, have), have);
      ScaledLines(job, image, ScaledCount(job, have))
    else Crop(job, image)
  }

  lemma EmittedScaled(job: Job, image: seq<Byte>, have: nat, n: nat)
    requires Runnable(job) && job.Scaled() && have == Lines(|image|, job.bpl) && n == ScaledCount(job, have)
    ensures n > 0 ==> Avail(job, n - 1, have)
    ensures Emitted(job, image) == ScaledLines(job, image, n)
  {
    CountedAvail(job, n, have);
  }

  /** The last line of what has been read, kept in front of out_data for the next stripe. */
  ghost predicate History(w: nat, out: seq<Byte>, image: seq<Byte>) {
    |image| > 0 ==> w <= |image| && w <= |out| && out[..w] == image[|image| - w..]
  }

  method CopyHistory(out: array<Byte>, w: nat, useful: nat)
    requires useful + w <= out.Length
    modifies out
    ensures out[..w] == old(out[useful..useful + w])
  {
    forall k | 0 <= k < w {
      out[k] := out[useful + k];
    }
  }

  lemma HistoryNext(w: nat, out: seq<Byte>, image: seq<Byte>, useful: nat)
    requires History(w, out, image) && w + useful <= |out| && (useful == 0 || w <= useful)
    ensures out[useful..useful + w] == out[..w + useful][useful..]
    ensures var more := image + out[w..w + useful];
      |more| > 0 ==> w <= |more| && out[useful..useful + w] == more[|more| - w..]
  {
    if useful == 0 {
      assert image + out[w..w] == image;
    }
  }

  lemma WindowFrom(w: nat, out: seq<Byte>, image: seq<Byte>, h: nat, n: nat)
    requires w > 0 && |image| == h * w && n * w + w <= |out| && History(w, out, image)
    ensures Window(w, out, image + out[w..w + n * w], h, n)
  {
    if h > 0 {
      MulMono(1, h, w);
    }
  }

  /** What a stripe adds to the output, in terms of whole images. */
  lemma EmittedGrows(job: Job, image: seq<Byte>, more: seq<Byte>, h: nat, have: nat, n0: nat, n: nat, written: seq<Byte>)
    requires Runnable(job) && job.Scaled() && image <= more
    requires h == Lines(|image|, job.bpl) && have == Lines(|more|, job.bpl)
    requires n0 == ScaledCount(job, h) && n == ScaledCount(job, have)
    requires n > 0 ==> Avail(job, n - 1, have)
    requires n0 > 0 ==> Avail(job, n0 - 1, have)
    requires ScaledLines(job, more, n) == ScaledLines(job, more, n0) + written
    ensures Emitted(job, more) == Emitted(job, image) + written
  {
    EmittedScaled(job, image, h, n0);
    ScaledLinesStable(job, image, more, n0);
    EmittedScaled(job, more, have, n);
  }

  method EmitStripeScaled(job: Job, out: array<Byte>, n: nat, size: nat, hwLine: nat, line0: nat, ip: array<Byte>,
                          ghost image: seq<Byte>)
    returns (written: seq<Byte>, line: nat)
    requires Runnable(job) && job.Scaled() && ip != out && ip.Length == job.ScaledBpl()
    requires size == n * job.bpl && job.bpl + size <= out.Length
    requires |image| == hwLine * job.bpl && line0 == ScaledCount(job, hwLine) && History(job.bpl, out[..], image)
    modifies ip
    ensures line0 <= line == ScaledCount(job, hwLine + n)
    ensures Emitted(job, image + out[job.bpl..job.bpl + size]) == Emitted(job, image) + written
  {
    ghost var more := image + out[..][job.bpl..job.bpl + size];
    WindowFrom(job.bpl, out[..], image, hwLine, n);
    LinesOf(hwLine, 0, job.bpl);
    written, line := EmitScaled(job, out, n, hwLine, line0, ip, more);
    EmittedGrows(job, image, more, hwLine, hwLine + n, line0, line, written);
    SliceSlice(out[..], out.Length, job.bpl, job.bpl + size);
  }

  /** Crop or scale the new lines in out_data, and keep the last one for the next stripe. */
  method EmitStripe(job: Job, out: array<Byte>, base: nat, useful: nat, hwLine: nat, line0: nat, ip: array<Byte>,
                    ghost image: seq<Byte>)
    returns (written: seq<Byte>, line: nat)
    requires Runnable(job) && ip != out && ip.Length == job.ScaledBpl()
    requires base == (if job.Scaled() then job.bpl else 0) && base + useful <= out.Length
    requires |image| == hwLine * job.bpl
    requires job.Scaled() ==> line0 == ScaledCount(job, hwLine) && History(job.bpl, out[..], image)
    modifies out, ip
    ensures line0 <= line
    ensures if job.Scaled() then line == ScaledCount(job, hwLine + Lines(useful, job.bpl))
            else |written| == (line - line0) * job.bpl
    ensures var more := image + old(out[base..base + WholeBytes(useful, job.bpl)]);
      && Emitted(job, more) == Emitted(job, image) + written
      && (job.Scaled() && useful % job.bpl == 0 ==> History(job.bpl, out[..], more))
  {
    var n, size := Lines(useful, job.bpl), WholeBytes(useful, job.bpl);
    if !job.Scaled() {
      written, line := EmitUnscaled(job, out, n, hwLine, line0, image);
    } else {
      ghost var more := image + out[base..base + size];
      written, line := EmitStripeScaled(job, out, n, size, hwLine, line0, ip, image);
      SaveHistory(job.bpl, out, useful, image, more);
    }
  }

  method SaveHistory(w: nat, out: array<Byte>, useful: nat, ghost image: seq<Byte>, ghost more: seq<Byte>)
    requires w > 0 && w + useful <= out.Length && History(w, out[..], image)
    requires more == image + out[w..w + WholeBytes(useful, w)]
    modifies out
    ensures useful % w == 0 ==> History(w, out[..], more)
  {
    ghost var before := out[..];
    CopyHistory(out, w, useful);
    if useful % w == 0 {
      HistorySaved(w, before, out[..], image, useful);
    }
  }

  lemma HistorySaved(w: nat, before: seq<Byte>, after: seq<Byte>, image: seq<Byte>, useful: nat)
    requires w > 0 && w + useful <= |before| == |after| && History(w, before, image) && useful % w == 0
    requires after[..w] == before[useful..useful + w]
    ensures WholeBytes(useful, w) == useful && History(w, after, image + before[w..w + useful])
  {
    if 0 < useful {
      MulMono(1, Lines(useful, w), w);
    }
    HistoryNext(w, before, image, useful);
  }

  /**
   What a stripe leaves as history is its last line, whatever it holds, if and only if the
   stripe is a whole number of lines.
   */
  lemma HistoryIsLastLine(w: nat, useful: nat)
    requires w > 0
    ensures (forall out: seq<Byte> :: |out| == w + useful ==> KeepsLastLine(out, w, useful)) <==> useful % w == 0
  {
    var n := WholeBytes(useful, w);
    if useful % w == 0 {
      DivOfMultiple(Lines(useful, w), w);
    } else {
      var out: seq<Byte> := seq(w + useful, k => if k == useful then 1 else 0);
      assert out[useful..useful + w][0] != out[n..n + w][0];
      assert !KeepsLastLine(out, w, useful);
    }
  }

  ghost predicate KeepsLastLine(out: seq<Byte>, w: nat, useful: nat)
    requires w > 0 && |out| == w + useful
  {
    out[useful..useful + w] == out[WholeBytes(useful, w)..WholeBytes(useful, w) + w]
  }

  ghost predicate Buffers(job: Job, stripe: array<Byte>, out: array<Byte>, ip: array<Byte>, base: nat) {
    && Runnable(job)
    && base == (if job.Scaled() then job.bpl else 0)
    && stripe.Length == job.StripeSize() && out.Length == base + job.OutSize() && ip.Length == job.ScaledBpl()
    && stripe != out && stripe != ip && out != ip && job.StripeSize() < TWO32
  }

  /** What has been made of the raw page so far: hwLine packed lines. */
  ghost predicate Made(job: Job, page: seq<Byte>, image: seq<Byte>, hwLine: nat) {
    && job.Valid() && |image| == hwLine * job.bpl
    && CanPack(job, |page|, |image|) && image == Packed(job, page, |image|)
  }

  lemma MadeMore(job: Job, page: seq<Byte>, image: seq<Byte>, hwLine: nat, buffer: seq<Byte>, useful: nat)
    requires Made(job, page, image, hwLine) && |image| <= |page| && buffer == page[|image|..]
    requires useful + job.Carry() == |buffer|
    ensures CanPack(job, |buffer|, WholeBytes(useful, job.bpl))
    ensures Made(job, page, image + Packed(job, buffer, WholeBytes(useful, job.bpl)), hwLine + Lines(useful, job.bpl))
  {
    var n := WholeBytes(useful, job.bpl);
    MulAdd(hwLine, Lines(useful, job.bpl), job.bpl);
    PackedExtend(job, page, hwLine, n);
  }

  /** Pack the buffer and write out what it gives. */
  method ConvertStripe(job: Job, stripe: array<Byte>, fill: nat, out: array<Byte>, base: nat, ip: array<Byte>,
                       hwLine: nat, line0: nat, ghost page: seq<Byte>, ghost image: seq<Byte>)
    returns (useful: nat, written: seq<Byte>, line: nat, ghost more: seq<Byte>)
    requires Buffers(job, stripe, out, ip, base) && job.Carry() <= fill <= stripe.Length
    requires Made(job, page, image, hwLine) && |image| <= |page| && stripe[..fill] == page[|image|..]
    requires job.Scaled() ==> line0 == ScaledCount(job, hwLine) && History(job.bpl, out[..], image)
    modifies out, ip
    ensures useful == fill - job.Carry()
    ensures |more| == |image| + WholeBytes(useful, job.bpl)
    ensures Made(job, page, more, hwLine + Lines(useful, job.bpl))
    ensures Emitted(job, more) == Emitted(job, image) + written && line0 <= line
    ensures if job.Scaled() then line == ScaledCount(job, hwLine + Lines(useful, job.bpl))
            else |written| == (line - line0) * job.bpl
    ensures job.Scaled() && useful % job.bpl == 0 ==> History(job.bpl, out[..], more)
  {
    useful := fill - job.Carry();
    PackBuffer(job, stripe, fill, out, base, useful);
    MadeMore(job, page, image, hwLine, stripe[..fill], useful);
    more := image + out[base..base + WholeBytes(useful, job.bpl)];
    written, line := EmitStripe(job, out, base, useful, hwLine, line0, ip, image);
  }

  // ---------------------------------------------------------------- the rear file

  /** The whole lines of each chunk of a file that is read chunk by chunk. */
  function ChunkLines(chunk: nat, w: nat, s: seq<Byte>): seq<Byte>
    requires chunk > 0 && w > 0
    decreases |s|
  {
    if |s| <= chunk then s[..WholeBytes(|s|, w)]
    else s[..WholeBytes(chunk, w)] + ChunkLines(chunk, w, s[chunk..])
  }

  lemma {:induction false} ChunkAppend(chunk: nat, w: nat, s: seq<Byte>, q: nat, t: seq<Byte>)
    requires chunk > 0 && w > 0 && |s| == q * chunk && |t| <= chunk
    ensures ChunkLines(chunk, w, s + t) == ChunkLines(chunk, w, s) + t[..WholeBytes(|t|, w)]
    decreases q
  {
    if q == 0 {
      assert s + t == t && ChunkLines(chunk, w, s) == [];
    } else {
      MulSucc(q, chunk);
      ChunkAppend(chunk, w, s[chunk..], q - 1, t);
      ChunkSplit(chunk, w, s);
      assert (s + t)[chunk..] == s[chunk..] + t;
      var h := s[..WholeBytes(chunk, w)];
      assert (s + t)[..WholeBytes(chunk, w)] == h;
      ChunkSplit(chunk, w, s + t);
      assert h + (ChunkLines(chunk, w, s[chunk..]) + t[..WholeBytes(|t|, w)])
          == (h + ChunkLines(chunk, w, s[chunk..])) + t[..WholeBytes(|t|, w)];
    }
  }

  /** The recursive equation also holds when exactly one chunk is left. */
  lemma ChunkSplit(chunk: nat, w: nat, s: seq<Byte>)
    requires chunk > 0 && w > 0 && |s| >= chunk
    ensures ChunkLines(chunk, w, s) == s[..WholeBytes(chunk, w)] + ChunkLines(chunk, w, s[chunk..])
  {
    if |s| == chunk {
      assert s[chunk..] == [];
    }
  }

  // ---------------------------------------------------------------- one turn of the reading loop

  /** The locals of the reading loop. */
  datatype State = State(
    fill: nat, processed: nat, exit: Status, hidden: bool, hwLine: nat, line: nat, fp: seq<Byte>, rear: seq<Byte>)

  function Limit(job: Job, device: seq<Byte>): nat {
    if |device| < job.Total() then |device| else job.Total()
  }

  /** The most that one rear-file read delivers. */
  function Chunk(job: Job): (c: nat)
    requires job.Valid()
    ensures 0 < c
  {
    OutSizePositive(job);
    if job.StripeSize() < job.maxRead then job.StripeSize() else job.maxRead
  }

  /** Every rear-file read delivers whole lines: by its size, or because there is only one. */
  predicate WholeLineReads(job: Job, file: seq<Byte>)
    requires job.Valid()
  {
    Chunk(job) % job.bpl == 0 || (|file| <= Chunk(job) && |file| % job.bpl == 0)
  }

  /** Everything written so far is what the image so far gives. */
  ghost predicate Output(job: Job, st: State, image: seq<Byte>) {
    && Runnable(job) && st.fp == Emitted(job, image) && |st.fp| == st.line * job.OutBpl()
    && (job.Scaled() ==> st.line == ScaledCount(job, st.hwLine))
  }

  lemma OutputNext(job: Job, st: State, image: seq<Byte>, st': State, more: seq<Byte>, written: seq<Byte>)
    requires Output(job, st, image) && |more| == st'.hwLine * job.bpl
    requires Emitted(job, more) == Emitted(job, image) + written && st'.fp == st.fp + written && st.line <= st'.line
    requires if job.Scaled() then st'.line == ScaledCount(job, st'.hwLine)
             else |written| == (st'.line - st.line) * job.bpl
    ensures Output(job, st', more)
  {
    if job.Scaled() {
      LinesOf(st'.hwLine, 0, job.bpl);
      EmittedScaled(job, more, st'.hwLine, st'.line);
      ScaledLinesLength(job, more, st'.line);
    } else {
      MulAdd(st.line, st'.line - st.line, job.bpl);
    }
  }

  /** A simplex or flatbed run: the buffer holds the raw bytes behind the image. */
  ghost predicate InvWhole(job: Job, device: seq<Byte>, st: State, stripe: seq<Byte>, image: seq<Byte>) {
    && st.rear == [] && st.fill <= |stripe| && st.processed <= Limit(job, device) <= |device|
    && Made(job, device[..Limit(job, device)], image, st.hwLine)
    && Output(job, st, image)
    && if st.exit != Good then
         st.processed == |device| && |image| == WholeBytes(st.processed - job.Carry(), job.bpl)
       else
         && |image| + st.fill == st.processed && stripe[..st.fill] == device[|image|..st.processed]
         && (st.fill == job.Carry() || st.processed == 0)
  }

  lemma MadeCut(job: Job, device: seq<Byte>, m: nat, n: nat, image: seq<Byte>, hwLine: nat)
    requires m <= |device| && n <= |device| && Made(job, device[..m], image, hwLine) && |image| + job.Carry() <= n
    ensures Made(job, device[..n], image, hwLine)
  {
    PackedPrefix(job, device[..m], device, |image|);
    PackedPrefix(job, device[..n], device, |image|);
  }

  /** Unless the data ended early, a filled buffer is a whole number of lines. */
  lemma FilledAligned(job: Job, hwLine: nat, fill: nat, processed: nat)
    requires job.Valid() && !job.FrontPass() && hwLine * job.bpl + fill == processed
    requires fill == job.StripeSize() || (processed == job.Total() && job.Carry() <= fill && job.rearOffset == 0)
    ensures job.Carry() <= fill && (fill - job.Carry()) % job.bpl == 0
  {
    if fill == job.StripeSize() {
      DivOfMultiple(job.stripeLines, job.bpl);
    } else {
      var d := job.TotalLines() - 2 * job.lineDiff;
      MulSub(job.TotalLines(), 2 * job.lineDiff, job.bpl);
      MulTwice(job.lineDiff, job.bpl);
      MulSub(d, hwLine, job.bpl);
      DivOfMultiple(d - hwLine, job.bpl);
    }
  }

  lemma TotalCoversCarry(job: Job)
    requires job.Valid()
    ensures job.Carry() <= job.Total()
  {
    MulMono(2 * job.lineDiff, job.TotalLines(), job.bpl);
    MulTwice(job.lineDiff, job.bpl);
  }

  lemma OutSizePositive(job: Job)
    requires job.Valid()
    ensures 0 < job.OutSize()
  {
    MulMono(1, job.stripeLines, job.bpl);
  }

  /** Why a loop may have been left: not at all, end of file, or the data's own ending. */
  predicate Stopped(exit: Status, ending: Status) { exit == Good || exit == Eof || exit == ending }

  /** Before a turn: the invariant, or the very beginning when less than the carried lines will come. */
  ghost predicate Ready(job: Job, device: seq<Byte>, st: State, stripe: seq<Byte>, image: seq<Byte>) {
    if job.Carry() <= |device| then InvWhole(job, device, st, stripe, image)
    else job.Valid() && st.exit == Good && st.fill == st.processed == 0 && image == []
  }

  /** The bytes to convert, in the code's 32-bit unsigned arithmetic. */
  function UsefulBytes(job: Job, fill: nat): (u: nat)
    ensures u < TWO32
  {
    (fill - job.Carry()) % TWO32
  }

  /** They stay inside the output buffer if and only if the buffer holds the carried lines. */
  lemma UsefulInside(job: Job, fill: nat)
    requires fill <= job.StripeSize() < TWO32
    ensures UsefulBytes(job, fill) <= job.OutSize() <==> job.Carry() <= fill
    ensures job.Carry() <= fill ==> UsefulBytes(job, fill) == fill - job.Carry()
  {
    var d := fill - job.Carry();
    if d < 0 {
      assert (d + TWO32) % TWO32 == d % TWO32;
    }
  }

  /** Fill the buffer behind the image. */
  method FillWhole(job: Job, device: seq<Byte>, ending: Status, st: State, stripe: array<Byte>, ghost image: seq<Byte>)
    returns (fill: nat, processed: nat, exit: Status, hidden: bool, ghost reported: Status)
    requires stripe.Length == job.StripeSize() && job.deinterlace == Whole && ending != Good
    requires st.exit == Good && st.processed < job.Total() && Ready(job, device, st, stripe[..], image)
    modifies stripe
    ensures fill <= stripe.Length && (job.Carry() <= fill <==> job.Carry() <= |device|)
    ensures Stopped(exit, ending) && Tells(exit, reported)
    ensures job.Carry() <= fill ==>
      && st.processed <= processed <= Limit(job, device)
      && |image| + fill == processed && stripe[..fill] == device[|image|..processed]
      && if exit != Good then processed == |device|
         else processed > st.processed && (fill - job.Carry()) % job.bpl == 0
  {
    SliceSlice(stripe[..], stripe.Length, 0, st.fill);
    fill, processed, exit, hidden, reported :=
      FillFromDevice(device, ending, job.Total(), job.maxRead, job.bpl, job.averse64, false, st.hidden,
                     stripe, st.fill, st.processed);
    OutSizePositive(job);
    if job.Carry() <= |device| {
      FilledWhole(job, device, st, image, stripe[..fill], fill, processed, exit);
    }
  }

  lemma FilledWhole(job: Job, device: seq<Byte>, st: State, image: seq<Byte>, filled: seq<Byte>, fill: nat,
                    processed: nat, exit: Status)
    requires job.Valid() && job.deinterlace == Whole && job.Carry() <= |device| && 0 < job.OutSize()
    requires st.exit == Good && st.processed < job.Total() && |image| == st.hwLine * job.bpl
    requires |image| + st.fill == st.processed <= processed <= |device| && processed <= job.Total()
    requires (st.fill == job.Carry() || st.processed == 0) && fill - st.fill == processed - st.processed
    requires filled == device[|image|..st.processed] + device[st.processed..processed]
    requires if exit != Good then processed == |device| else fill == job.StripeSize() || processed == job.Total()
    ensures job.Carry() <= fill && |image| + fill == processed && filled == device[|image|..processed]
    ensures exit == Good ==> processed > st.processed && (fill - job.Carry()) % job.bpl == 0
  {
    TotalCoversCarry(job);
    Joined(device, |image|, st.processed, processed);
    if exit == Good {
      FilledAligned(job, st.hwLine, fill, processed);
    }
  }

  lemma Joined(s: seq<Byte>, i: nat, j: nat, k: nat)
    requires i <= j <= k <= |s|
    ensures s[i..k] == s[i..j] + s[j..k]
  {
  }

  lemma WholeNext(job: Job, device: seq<Byte>, st: State, image: seq<Byte>, filled: seq<Byte>, stripe: seq<Byte>,
                  fill: nat, useful: nat, st': State, more: seq<Byte>, written: seq<Byte>)
    requires Output(job, st, image) && st.rear == []
    requires st'.processed <= Limit(job, device) <= |device| && |image| + fill == st'.processed
    requires fill <= |filled| == |stripe| && filled[..fill] == device[|image|..st'.processed]
    requires useful + job.Carry() == fill && stripe == Moved(filled, 0, useful, fill - useful)
    requires Made(job, device[..Limit(job, device)], more, st'.hwLine)
    requires |more| == |image| + WholeBytes(useful, job.bpl) && |image| % job.bpl == 0
    requires Emitted(job, more) == Emitted(job, image) + written && st'.fp == st.fp + written && st.line <= st'.line
    requires if job.Scaled() then st'.line == ScaledCount(job, st'.hwLine)
             else |written| == (st'.line - st.line) * job.bpl
    requires st'.fill == fill - useful && st'.rear == st.rear
    requires if st'.exit != Good then st'.processed == |device| else useful % job.bpl == 0
    ensures InvWhole(job, device, st', stripe, more)
  {
    OutputNext(job, st, image, st', more, written);
    if st'.exit != Good {
      WholePlusMultiple(|image|, useful, job.bpl);
    } else {
      SliceSlice(filled, fill, useful, fill);
      assert stripe[..fill - useful] == filled[..fill][useful..];
      assert device[|image|..st'.processed][useful..] == device[|more|..st'.processed];
    }
  }

  lemma WholePlusMultiple(f: nat, r: nat, w: nat)
    requires w > 0 && f % w == 0
    ensures WholeBytes(f + r, w) == f + WholeBytes(r, w)
  {
    var q := Lines(f, w);
    assert f == q * w;
    DivAddMultiple(q, r, w);
  }

  /** One turn of the loop; an overrun means that the code would convert more bytes than it has. */
  method StepWhole(job: Job, device: seq<Byte>, ending: Status, st: State, stripe: array<Byte>, out: array<Byte>, ip: array<Byte>,
                   base: nat, ghost image: seq<Byte>)
    returns (overrun: bool, st': State, ghost more: seq<Byte>, ghost reported: Status)
    requires Buffers(job, stripe, out, ip, base) && job.deinterlace == Whole && ending != Good
    requires st.exit == Good && st.processed < job.Total() && Ready(job, device, st, stripe[..], image)
    requires job.Scaled() ==> History(job.bpl, out[..], image)
    modifies stripe, out, ip
    ensures overrun <==> |device| < job.Carry()
    ensures !overrun ==>
      && InvWhole(job, device, st', stripe[..], more) && Stopped(st'.exit, ending) && Tells(st'.exit, reported)
      && (st'.exit != Good || st'.processed > st.processed)
      && (job.Scaled() && st'.exit == Good ==> History(job.bpl, out[..], more))
  {
    var fill, processed, exit, hidden;
    fill, processed, exit, hidden, reported := FillWhole(job, device, ending, st, stripe, image);
    overrun := UsefulBytes(job, fill) > job.OutSize();
    assert overrun <==> |device| < job.Carry() by { UsefulInside(job, fill); }
    if overrun {
      return overrun, st, image, reported;
    }
    st', more := ConvertWhole(job, device, st, stripe, fill, processed, exit, hidden, out, ip, base, image);
  }

  /** Convert what the buffer holds and move the carried lines to its front. */
  method ConvertWhole(job: Job, device: seq<Byte>, st: State, stripe: array<Byte>, fill: nat, processed: nat,
                      exit: Status, hidden: bool, out: array<Byte>, ip: array<Byte>, base: nat, ghost image: seq<Byte>)
    returns (st': State, ghost more: seq<Byte>)
    requires Buffers(job, stripe, out, ip, base) && job.deinterlace == Whole && job.Carry() <= |device|
    requires st.rear == [] && Made(job, device[..Limit(job, device)], image, st.hwLine) && Output(job, st, image)
    requires job.Carry() <= fill <= stripe.Length
    requires processed <= Limit(job, device) <= |device|
    requires |image| + fill == processed && stripe[..fill] == device[|image|..processed]
    requires if exit != Good then processed == |device| else (fill - job.Carry()) % job.bpl == 0
    requires job.Scaled() ==> History(job.bpl, out[..], image)
    modifies stripe, out, ip
    ensures InvWhole(job, device, st', stripe[..], more) && st'.exit == exit && st'.processed == processed
    ensures job.Scaled() && st'.exit == Good ==> History(job.bpl, out[..], more)
  {
    MadeCut(job, device, Limit(job, device), processed, image, st.hwLine);
    SliceSlice(device, processed, |image|, processed);
    ghost var filled := stripe[..];
    assert filled[..fill] == device[|image|..processed] by { SliceSlice(filled, stripe.Length, 0, fill); }
    var useful, written, line;
    useful, written, line, more :=
      ConvertStripe(job, stripe, fill, out, base, ip, st.hwLine, st.line, device[..processed], image);
    MadeCut(job, device, processed, Limit(job, device), more, st.hwLine + Lines(useful, job.bpl));
    assert stripe[..] == filled;
    st' := State(fill - useful, processed, exit, hidden, st.hwLine + Lines(useful, job.bpl), line, st.fp + written, st.rear);
    CarryOver(job, device, st, stripe, fill, useful, st', image, more, written);
  }

  /** Move the carried lines to the front of the buffer. */
  method CarryOver(job: Job, ghost device: seq<Byte>, ghost st: State, stripe: array<Byte>, fill: nat, useful: nat,
                   ghost st': State, ghost image: seq<Byte>, ghost more: seq<Byte>, ghost written: seq<Byte>)
    requires Output(job, st, image) && st.rear == []
    requires st'.processed <= Limit(job, device) <= |device| && |image| + fill == st'.processed
    requires fill <= stripe.Length && stripe[..][..fill] == device[|image|..st'.processed]
    requires useful + job.Carry() == fill
    requires Made(job, device[..Limit(job, device)], more, st'.hwLine)
    requires |more| == |image| + WholeBytes(useful, job.bpl) && |image| % job.bpl == 0
    requires Emitted(job, more) == Emitted(job, image) + written && st'.fp == st.fp + written && st.line <= st'.line
    requires if job.Scaled() then st'.line == ScaledCount(job, st'.hwLine)
             else |written| == (st'.line - st.line) * job.bpl
    requires st'.fill == fill - useful && st'.rear == st.rear
    requires if st'.exit != Good then st'.processed == |device| else useful % job.bpl == 0
    modifies stripe
    ensures InvWhole(job, device, st', stripe[..], more)
  {
    ghost var filled := stripe[..];
    MoveDown(stripe, 0, useful, fill - useful);
    WholeNext(job, device, st, image, filled, stripe[..], fill, useful, st', more, written);
  }

  // ---------------------------------------------------------------- interlaced duplex runs

  /** The raw lines of this run's side among the bytes s taken so far. */
  function Page(job: Job, s: seq<Byte>): seq<Byte>
    requires job.Valid()
  {
    if job.FrontPass() then Keep(job.bpl, SideOf(job), 0, s, false) else ChunkLines(Chunk(job), job.bpl, s)
  }

  function RearFile(job: Job, s: seq<Byte>): seq<Byte>
    requires job.Valid()
  {
    if job.FrontPass() then Keep(job.bpl, SideOf(job), 0, s, true) else []
  }

  /** Bytes taken per turn. */
  function Unit(job: Job): nat requires job.Valid() { if job.FrontPass() then job.StripeSize() else Chunk(job) }

  /** A front or rear run: nothing is carried, the image is the side's lines taken so far. */
  ghost predicate InvPaged(job: Job, device: seq<Byte>, st: State, image: seq<Byte>, q: nat)
    requires job.Valid()
  {
    && st.fill == 0 && st.processed <= Limit(job, device) <= |device|
    && Made(job, Page(job, device[..st.processed]), image, st.hwLine)
    && |image| == |Page(job, device[..st.processed])|
    && st.rear == RearFile(job, device[..st.processed])
    && Output(job, st, image)
    && if st.exit != Good then st.processed == |device|
       else st.processed == job.Total() || st.processed == q * Unit(job)
  }

  lemma NoCarry(job: Job)
    requires job.Valid() && job.deinterlace != Whole
    ensures job.Carry() == 0 && job.LinesPerStripe() == job.stripeLines
    ensures 0 < job.StripeSize() == job.stripeLines * job.bpl
  {
    OutSizePositive(job);
  }

  /** One more buffer t extends the page by its own lines. */
  lemma PageGrows(job: Job, s: seq<Byte>, q: nat, t: seq<Byte>)
    requires job.Valid() && job.deinterlace != Whole && |s| == q * Unit(job)
    requires !job.FrontPass() ==> |t| <= Chunk(job)
    ensures job.FrontPass() ==>
      && Lines(|s|, job.bpl) == q * job.LinesPerStripe()
      && Page(job, s + t) == Page(job, s) + Keep(job.bpl, SideOf(job), q * job.LinesPerStripe(), t, false)
      && RearFile(job, s + t) == RearFile(job, s) + Keep(job.bpl, SideOf(job), q * job.LinesPerStripe(), t, true)
    ensures !job.FrontPass() ==> Page(job, s + t) == Page(job, s) + t[..WholeBytes(|t|, job.bpl)]
  {
    NoCarry(job);
    if job.FrontPass() {
      MulAssoc(q, job.stripeLines, job.bpl);
      LinesOf(q * job.stripeLines, 0, job.bpl);
      KeepAppend(job.bpl, SideOf(job), 0, s, q * job.stripeLines, t, false);
      KeepAppend(job.bpl, SideOf(job), 0, s, q * job.stripeLines, t, true);
    } else {
      ChunkAppend(Chunk(job), job.bpl, s, q, t);
    }
  }

  /** Fill an empty buffer from the device or from the rear file. */
  method FillUnit(job: Job, device: seq<Byte>, ending: Status, st: State, stripe: array<Byte>, ghost q: nat)
    returns (fill: nat, processed: nat, exit: Status, hidden: bool, ghost reported: Status)
    requires ending != Good && job.Valid() && job.deinterlace != Whole && stripe.Length == job.StripeSize()
    requires st.exit == Good && st.processed < job.Total() && st.processed <= Limit(job, device)
    requires st.processed == q * Unit(job)
    modifies stripe
    ensures st.processed <= processed <= Limit(job, device) && fill == processed - st.processed <= Unit(job)
    ensures fill <= stripe.Length && stripe[..fill] == device[st.processed..processed]
    ensures Stopped(exit, ending) && Tells(exit, reported) && (exit != Good ==> processed == |device|)
    ensures exit == Good ==> processed > st.processed && (processed == job.Total() || processed == (q + 1) * Unit(job))
    ensures exit == Good && (job.FrontPass() || WholeLineReads(job, device)) ==> fill % job.bpl == 0
  {
    NoCarry(job);
    MulSucc(q, Unit(job));
    if job.rearValid {
      hidden, reported := st.hidden, Good;
      fill, processed, exit := FillFromRear(device, job.Total(), job.maxRead, stripe, st.processed);
    } else {
      fill, processed, exit, hidden, reported :=
        FillFromDevice(device, ending, job.Total(), job.maxRead, job.bpl, job.averse64, job.deinterlace == Stripe, st.hidden,
                       stripe, 0, st.processed);
    }
    if exit == Good && (job.FrontPass() || WholeLineReads(job, device)) {
      PagedAligned(job, device, q, st.processed, processed);
    }
  }

  /** On the front pass, split the rear lines off the buffer. */
  method SplitSides(job: Job, stripe: array<Byte>, fill0: nat, a: nat, ghost q: nat)
    returns (fill: nat, saved: seq<Byte>)
    requires job.Valid() && job.deinterlace != Whole && fill0 <= stripe.Length == job.StripeSize()
    requires job.FrontPass() ==> a == q * job.LinesPerStripe()
    modifies stripe
    ensures fill <= fill0 && (fill0 % job.bpl == 0 ==> fill % job.bpl == 0)
    ensures stripe[..WholeBytes(fill, job.bpl)]
         == if job.FrontPass() then Keep(job.bpl, SideOf(job), a, old(stripe[..fill0]), false)
            else old(stripe[..fill0])[..WholeBytes(fill0, job.bpl)]
    ensures saved == if job.FrontPass() then Keep(job.bpl, SideOf(job), a, old(stripe[..fill0]), true) else []
  {
    NoCarry(job);
    if job.FrontPass() {
      LinesBound(fill0, job.bpl, job.stripeLines);
      if job.deinterlace != Line {
        BufferSides(job, q, Lines(fill0, job.bpl));
      }
      fill, saved := DeinterlaceBuffer(job.bpl, SideOf(job), job.deinterlace == Line, a, stripe, fill0);
    } else {
      fill, saved := fill0, [];
    }
  }

  /** Fill an empty buffer and split off the rear lines. */
  method FillPaged(job: Job, device: seq<Byte>, ending: Status, st: State, stripe: array<Byte>, ghost q: nat)
    returns (fill: nat, processed: nat, exit: Status, hidden: bool, saved: seq<Byte>, ghost reported: Status)
    requires ending != Good && job.Valid() && job.deinterlace != Whole && stripe.Length == job.StripeSize()
    requires st.exit == Good && st.processed < job.Total() && st.processed <= Limit(job, device)
    requires st.processed == q * Unit(job)
    modifies stripe
    ensures st.processed <= processed <= Limit(job, device) && fill <= stripe.Length
    ensures Page(job, device[..processed]) == Page(job, device[..st.processed]) + stripe[..WholeBytes(fill, job.bpl)]
    ensures RearFile(job, device[..processed]) == RearFile(job, device[..st.processed]) + saved
    ensures Stopped(exit, ending) && Tells(exit, reported) && (exit != Good ==> processed == |device|)
    ensures exit == Good ==> processed > st.processed && (processed == job.Total() || processed == (q + 1) * Unit(job))
    ensures exit == Good && (job.FrontPass() || WholeLineReads(job, device)) ==> fill % job.bpl == 0
  {
    fill, processed, exit, hidden, reported := FillUnit(job, device, ending, st, stripe, q);
    assert device[..processed] == device[..st.processed] + device[st.processed..processed];
    PageGrows(job, device[..st.processed], q, device[st.processed..processed]);
    fill, saved := SplitSides(job, stripe, fill, Lines(processed - fill, job.bpl), q);
  }

  lemma LinesBound(n: nat, w: nat, l: nat)
    requires w > 0 && n <= l * w
    ensures Lines(n, w) <= l
  {
    DivLess(n, w, l + 1);
    MulSucc(l, w);
  }

  lemma PagedAligned(job: Job, device: seq<Byte>, q: nat, from: nat, to: nat)
    requires job.Valid() && job.deinterlace != Whole && from == q * Unit(job) <= to <= |device|
    requires job.FrontPass() || WholeLineReads(job, device)
    requires to == job.Total() || to == (q + 1) * Unit(job)
    ensures (to - from) % job.bpl == 0
  {
    NoCarry(job);
    if job.FrontPass() || Chunk(job) % job.bpl == 0 {
      DivOfMultiple(job.stripeLines, job.bpl);
      AlignedUnits(job, q, to);
    } else {
      MulSucc(q, Chunk(job));
      if q > 0 {
        MulMono(1, q, Chunk(job));
      }
      OneChunk(job, Chunk(job), |device|, from, to);
    }
  }

  lemma AlignedUnits(job: Job, q: nat, to: nat)
    requires job.Valid() && Unit(job) % job.bpl == 0 && q * Unit(job) <= to
    requires to == job.Total() || to == (q + 1) * Unit(job)
    ensures (to - q * Unit(job)) % job.bpl == 0
  {
    var u := Lines(Unit(job), job.bpl);
    assert Unit(job) == u * job.bpl;
    MulSucc(q, Unit(job));
    MulAssoc(q, u, job.bpl);
    if to == job.Total() {
      MulSub(job.TotalLines(), q * u, job.bpl);
      DivOfMultiple(job.TotalLines() - q * u, job.bpl);
    }
  }

  /** In a file of one chunk, both turns take whole lines. */
  lemma OneChunk(job: Job, chunk: nat, size: nat, from: nat, to: nat)
    requires job.bpl > 0 && from <= to <= size <= chunk && size % job.bpl == 0
    requires from == 0 || chunk <= from
    requires to == job.Total() || to == from + chunk
    ensures (to - from) % job.bpl == 0
  {
    TotalIsLines(job);
  }

  lemma TotalIsLines(job: Job)
    requires job.bpl > 0
    ensures job.Total() % job.bpl == 0
  {
    DivOfMultiple(job.TotalLines(), job.bpl);
  }

  lemma PagedNext(job: Job, device: seq<Byte>, st: State, image: seq<Byte>, q: nat, page: seq<Byte>, useful: nat,
                  st': State, more: seq<Byte>, written: seq<Byte>)
    requires job.Valid() && job.deinterlace != Whole
    requires Output(job, st, image) && st'.fill == 0 && st'.processed <= Limit(job, device) <= |device|
    requires Page(job, device[..st'.processed]) <= page
    requires |Page(job, device[..st'.processed])| == |more| == |image| + WholeBytes(useful, job.bpl)
    requires Made(job, page, more, st'.hwLine)
    requires st'.rear == RearFile(job, device[..st'.processed])
    requires Emitted(job, more) == Emitted(job, image) + written && st'.fp == st.fp + written && st.line <= st'.line
    requires if job.Scaled() then st'.line == ScaledCount(job, st'.hwLine)
             else |written| == (st'.line - st.line) * job.bpl
    requires if st'.exit != Good then st'.processed == |device|
             else st'.processed == job.Total() || st'.processed == (q + 1) * Unit(job)
    ensures InvPaged(job, device, st', more, q + 1)
  {
    NoCarry(job);
    OutputNext(job, st, image, st', more, written);
    PackedPrefix(job, Page(job, device[..st'.processed]), page, |more|);
  }

  method StepPaged(job: Job, device: seq<Byte>, ending: Status, st: State, stripe: array<Byte>, out: array<Byte>, ip: array<Byte>,
                   base: nat, ghost image: seq<Byte>, ghost q: nat)
    returns (st': State, ghost more: seq<Byte>, ghost reported: Status)
    requires Buffers(job, stripe, out, ip, base) && job.deinterlace != Whole && ending != Good
    requires st.exit == Good && st.processed < job.Total() && InvPaged(job, device, st, image, q)
    requires job.Scaled() ==> History(job.bpl, out[..], image) && (job.rearValid ==> WholeLineReads(job, device))
    modifies stripe, out, ip
    ensures InvPaged(job, device, st', more, q + 1) && Stopped(st'.exit, ending) && Tells(st'.exit, reported)
    ensures st'.exit != Good || st'.processed > st.processed
    ensures job.Scaled() && st'.exit == Good ==> History(job.bpl, out[..], more)
  {
    NoCarry(job);
    ghost var before := Page(job, device[..st.processed]);
    var fill, processed, exit, hidden, saved;
    fill, processed, exit, hidden, saved, reported := FillPaged(job, device, ending, st, stripe, q);
    ghost var page := before + stripe[..fill];
    PackedPrefix(job, before, page, |image|);
    var useful, written, line;
    useful, written, line, more :=
      ConvertStripe(job, stripe, fill, out, base, ip, st.hwLine, st.line, page, image);
    st' := State(0, processed, exit, hidden, st.hwLine + Lines(useful, job.bpl), line, st.fp + written, st.rear + saved);
    PagedNext(job, device, st, image, q, page, useful, st', more, written);
  }

  // ---------------------------------------------------------------- the whole run

  /** The raw stream of this run's page: all bytes, or one side's lines. */
  function RawPage(job: Job, device: seq<Byte>): seq<Byte>
    requires job.Valid()
  {
    var taken := device[..Limit(job, device)];
    if job.deinterlace == Whole then taken else Page(job, taken)
  }

  /** The packed image of the page: its whole lines that have their colour lines behind them. */
  function PageImage(job: Job, device: seq<Byte>): seq<Byte>
    requires job.Valid() && job.Carry() <= |RawPage(job, device)|
  {
    var raw := RawPage(job, device);
    Packed(job, raw, WholeBytes(|raw| - job.Carry(), job.bpl))
  }

  function Padding(job: Job, line: nat): seq<Byte> {
    if line < job.ParamLines() then
      NonNegative(job.ParamLines() - line, job.OutBpl());
      White(job, (job.ParamLines() - line) * job.OutBpl())
    else []
  }

  lemma WholeDone(job: Job, device: seq<Byte>, st: State, stripe: seq<Byte>, image: seq<Byte>)
    requires job.Valid() && job.deinterlace == Whole && job.Carry() <= |device|
    requires InvWhole(job, device, st, stripe, image) && (st.exit != Good || st.processed >= job.Total())
    ensures job.Carry() <= |RawPage(job, device)| && image == PageImage(job, device)
    ensures st.rear == RearFile(job, device[..Limit(job, device)])
  {
    TotalCoversCarry(job);
    WholePlus(|image|, 0, job.bpl);
  }

  lemma PagedDone(job: Job, device: seq<Byte>, st: State, image: seq<Byte>, q: nat)
    requires job.Valid() && job.deinterlace != Whole
    requires InvPaged(job, device, st, image, q) && (st.exit != Good || st.processed >= job.Total())
    ensures job.Carry() <= |RawPage(job, device)| && image == PageImage(job, device)
    ensures st.rear == RearFile(job, device[..Limit(job, device)])
  {
    NoCarry(job);
    WholePlus(|image|, 0, job.bpl);
  }

  lemma StartOutput(job: Job, hidden: bool)
    requires Runnable(job)
    ensures Output(job, State(0, 0, Good, hidden, 0, 0, [], []), [])
  {
    assert Crop(job, []) == [];
    if job.Scaled() {
      LinesOf(0, 0, job.bpl);
      EmittedScaled(job, [], 0, 0);
    }
  }

  lemma StartMade(job: Job, page: seq<Byte>)
    requires job.Valid() && job.Carry() <= |page|
    ensures Made(job, page, [], 0)
  {
    LinesOf(0, 0, job.bpl);
  }

  method ReadWhole(job: Job, device: seq<Byte>, ending: Status, hidden: bool, stripe: array<Byte>, out: array<Byte>,
                   ip: array<Byte>, base: nat)
    returns (overrun: bool, st: State, ghost image: seq<Byte>, ghost reported: Status)
    requires Buffers(job, stripe, out, ip, base) && job.deinterlace == Whole && ending != Good
    modifies stripe, out, ip
    ensures overrun <==> |device| < job.Carry()
    ensures !overrun ==> Finished(job, device, ending, st, image) && Tells(st.exit, reported)
  {
    overrun, st, image, reported := false, State(0, 0, Good, hidden, 0, 0, [], []), [], Good;
    StartOutput(job, hidden);
    TotalCoversCarry(job);
    if job.Carry() <= |device| {
      StartMade(job, device[..Limit(job, device)]);
    }
    while st.exit == Good && st.processed < job.Total() && !overrun
      invariant overrun ==> |device| < job.Carry()
      invariant !overrun ==> Ready(job, device, st, stripe[..], image) && Stopped(st.exit, ending) && Tells(st.exit, reported)
      invariant job.Scaled() && st.exit == Good && !overrun ==> History(job.bpl, out[..], image)
      decreases !overrun, st.exit == Good, job.Total() - st.processed
    {
      overrun, st, image, reported := StepWhole(job, device, ending, st, stripe, out, ip, base, image);
    }
    if job.Carry() <= |device| {
      WholeDone(job, device, st, stripe[..], image);
    }
  }

  /** After a run: the image is the page's, and the output is what it gives. */
  ghost predicate Finished(job: Job, device: seq<Byte>, ending: Status, st: State, image: seq<Byte>) {
    && Output(job, st, image) && |image| == st.hwLine * job.bpl && Stopped(st.exit, ending)
    && (st.exit != Good ==> |device| <= job.Total())
    && job.Carry() <= |RawPage(job, device)| && image == PageImage(job, device)
    && st.rear == RearFile(job, device[..Limit(job, device)])
  }

  method ReadPaged(job: Job, device: seq<Byte>, ending: Status, hidden: bool, stripe: array<Byte>, out: array<Byte>,
                   ip: array<Byte>, base: nat)
    returns (st: State, ghost image: seq<Byte>, ghost reported: Status)
    requires Buffers(job, stripe, out, ip, base) && job.deinterlace != Whole && ending != Good
    requires job.Scaled() && job.rearValid ==> WholeLineReads(job, device)
    modifies stripe, out, ip
    ensures Finished(job, device, ending, st, image) && Tells(st.exit, reported)
  {
    st, image, reported := State(0, 0, Good, hidden, 0, 0, [], []), [], Good;
    NoCarry(job);
    StartOutput(job, hidden);
    assert Page(job, device[..0]) == [] == RearFile(job, device[..0]);
    StartMade(job, []);
    ghost var q: nat := 0;
    while st.exit == Good && st.processed < job.Total()
      invariant InvPaged(job, device, st, image, q) && Stopped(st.exit, ending) && Tells(st.exit, reported)
      invariant job.Scaled() && st.exit == Good ==> History(job.bpl, out[..], image)
      decreases st.exit == Good, job.Total() - st.processed
    {
      st, image, reported := StepPaged(job, device, ending, st, stripe, out, ip, base, image, q);
      q := q + 1;
    }
    PagedDone(job, device, st, image, q);
  }

  /** How many lines a run writes for a page of h lines, before padding. */
  function LineCount(job: Job, h: nat): nat
    requires Runnable(job)
  {
    if job.Scaled() then ScaledCount(job, h)
    else if job.deinterlace == Whole then h
    else if !job.rearValid then Min(h, job.hwLines)
    else if h < job.rearOffset then 0 else h - job.rearOffset
  }

  lemma MulCancel(a: nat, b: nat, w: nat)
    requires w > 0 && a * w == b * w
    ensures a == b
  {
    if a < b { MulStrict(a, b, w); }
    if b < a { MulStrict(b, a, w); }
  }

  lemma CropLength(job: Job, image: seq<Byte>, h: nat)
    requires Runnable(job) && !job.Scaled() && |image| == h * job.bpl
    ensures |Crop(job, image)| == LineCount(job, h) * job.bpl
  {
    if job.deinterlace != Whole {
      var limit := if job.rearValid then job.rearOffset else job.hwLines;
      if h < limit { MulStrict(h, limit, job.bpl); } else { MulMono(limit, h, job.bpl); }
      MulSub(h, limit, job.bpl);
    }
  }

  lemma OutputLines(job: Job, st: State, image: seq<Byte>)
    requires Output(job, st, image) && |image| == st.hwLine * job.bpl
    ensures st.line == LineCount(job, st.hwLine) && Lines(|image|, job.bpl) == st.hwLine
  {
    LinesOf(st.hwLine, 0, job.bpl);
    if !job.Scaled() {
      CropLength(job, image, st.hwLine);
      MulCancel(st.line, LineCount(job, st.hwLine), job.bpl);
    }
  }

  function White(job: Job, n: nat): (r: seq<Byte>)
    ensures |r| == n
  {
    seq(n, _ => if job.shaded then 255 else 0)
  }

  /** Write white lines until the announced number is reached. */
  method PadLines(job: Job, line0: nat, fp0: seq<Byte>) returns (fp: seq<Byte>)
    ensures fp == fp0 + Padding(job, line0)
  {
    fp := fp0;
    var line: int := line0;
    ghost var n := 0;
    while line < job.ParamLines()
      invariant line0 <= line && (line0 <= job.ParamLines() ==> line <= job.ParamLines())
      invariant n == (line - line0) * job.OutBpl() && n >= 0
      invariant line0 <= job.ParamLines() || line == line0
      invariant fp == fp0 + White(job, n)
    {
      MulSucc(line - line0, job.OutBpl());
      assert White(job, n + job.OutBpl()) == White(job, n) + White(job, job.OutBpl());
      fp := fp + White(job, job.OutBpl());
      n := n + job.OutBpl();
      line := line + 1;
    }
  }

  /** Everything a run writes: the cropped or scaled page, then padding. */
  function Written(job: Job, device: seq<Byte>): seq<Byte>
    requires Runnable(job) && job.Carry() <= |RawPage(job, device)|
  {
    var image := PageImage(job, device);
    Emitted(job, image) + Padding(job, LineCount(job, Lines(|image|, job.bpl)))
  }

  /**
   A run of the reader process: what it writes is a function of the whole page,
   whatever the stripe height, the read limit and the sizes of the device's answers.
   It overruns its buffers if and only if the data ends before the carried lines.
   Only an error that the device reported keeps it from padding, and is passed on.
   */
  method ReaderProcess(job: Job, device: seq<Byte>, ending: Status, alreadyEof: bool)
    returns (overrun: bool, status: Status, fp: seq<Byte>, rear: seq<Byte>, ghost reported: Status)
    requires Runnable(job) && job.StripeSize() < TWO32 && ending != Good
    requires job.Scaled() && job.rearValid ==> WholeLineReads(job, device)
    ensures overrun <==> |device| < job.Carry()
    ensures !overrun ==>
      && job.Carry() <= |RawPage(job, device)|
      && rear == RearFile(job, device[..Limit(job, device)])
      && fp == (if status == Eof then Written(job, device) else Emitted(job, PageImage(job, device)))
      && (status == Eof || (status == ending && |device| <= job.Total()))
      && status == (if reported == Good then Eof else reported)
  {
    var base := if job.Scaled() then job.bpl else 0;
    var stripe := new Byte[job.StripeSize()];
    var out := new Byte[base + job.OutSize()];
    var ip := new Byte[job.ScaledBpl()];
    var st;
    ghost var image;
    overrun := false;
    if job.deinterlace == Whole {
      overrun, st, image, reported := ReadWhole(job, device, ending, alreadyEof, stripe, out, ip, base);
      if overrun {
        return true, IoError, [], [], reported;
      }
    } else {
      NoCarry(job);
      st, image, reported := ReadPaged(job, device, ending, alreadyEof, stripe, out, ip, base);
    }
    OutputLines(job, st, image);
    status := if st.exit == Good then Eof else st.exit;
    rear, fp := st.rear, st.fp;
    if status == Eof {
      fp := PadLines(job, st.line, st.fp);
    }
  }

  /** A colour job, and a device that stops after one byte of it. */
  const SHORT_JOB := Job(3, 10, 30, 100, 300, 300, 10, 100, 2, 0, 8, 1024, false, Whole, false, ColorPack, false, true)

  lemma ShortDataOverruns()
    ensures Runnable(SHORT_JOB) && SHORT_JOB.StripeSize() < TWO32 && 1 < SHORT_JOB.Carry()
    ensures UsefulBytes(SHORT_JOB, 1) > SHORT_JOB.OutSize()
  {
    UsefulInside(SHORT_JOB, 1);
  }
}
