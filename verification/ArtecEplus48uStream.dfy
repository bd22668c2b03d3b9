/**
 What a read of the Artec E+48U backend delivers, as a function of the sizes of the
 device's answers.  Raw reads are padded to 64 bytes and their answers may be short,
 which the backend does not notice: it hands out its buffer as if it had been filled.
 */
module ArtecEplus48uStream {
  import opened SaneBytes

  /** (n + 63) & ~63 */
  function Pad64(n: nat): (r: nat)
    ensures n <= r < n + 64 && r % 64 == 0
    ensures n % 64 == 0 ==> r == n
  {
    (n + 63) / 64 * 64
  }

  lemma Pad64Fits(n: nat, b: nat)
    requires n <= b && b % 64 == 0
    ensures Pad64(n) <= b
  {
  }

  lemma PadBlock(block: nat, total: nat)
    requires block % 64 == 0 && block <= total
    ensures Pad64(total) == block + Pad64(total - block)
  {
    DivAddMultiple(block / 64, total - block + 63, 64);
  }

  /** Bytes on the wire for `total` payload bytes in blocks of at most `block`. */
  function RawSize(block: nat, total: nat): nat
    requires block > 0
    decreases total
  {
    if total <= block then Pad64(total) else Pad64(block) + RawSize(block, total - block)
  }

  /** The payload of a padded stream. */
  function Stripped(raw: seq<Byte>, block: nat, total: nat): (r: seq<Byte>)
    requires block > 0 && RawSize(block, total) <= |raw|
    ensures |r| == total
    decreases total
  {
    if total <= block then raw[..total]
    else raw[..block] + Stripped(raw[Pad64(block)..], block, total - block)
  }

  /** One block off the stream, also when it is the last one. */
  lemma StripBlock(raw: seq<Byte>, block: nat, total: nat)
    requires block > 0 && RawSize(block, total) <= |raw|
    ensures var b := if block < total then block else total;
      && b <= total && Pad64(b) + RawSize(block, total - b) <= |raw|
      && Stripped(raw, block, total) == raw[..b] + Stripped(raw[Pad64(b)..], block, total - b)
  {
    if total <= block {
      assert Stripped(raw[Pad64(total)..], block, 0) == [];
    }
  }

  lemma {:induction false} RawSizeIs(block: nat, total: nat)
    requires 0 < block && block % 64 == 0
    ensures RawSize(block, total) == Pad64(total)
    decreases total
  {
    if total > block {
      RawSizeIs(block, total - block);
      PadBlock(block, total);
    }
  }

  /** Blocks of a multiple of 64 bytes leave all the padding at the end. */
  lemma {:induction false} StrippedIs(raw: seq<Byte>, block: nat, total: nat)
    requires 0 < block && block % 64 == 0 && Pad64(total) <= |raw|
    ensures RawSize(block, total) <= |raw| && Stripped(raw, block, total) == raw[..total]
    decreases total
  {
    RawSizeIs(block, total);
    if total > block {
      PadBlock(block, total);
      RawSizeIs(block, total - block);
      StrippedIs(raw[block..], block, total - block);
      assert raw[..total] == raw[..block] + raw[block..][..total - block];
    }
  }

  /** A raw read: where on the wire, and how many bytes. */
  datatype Transfer = Transfer(pos: nat, size: nat)

  /** The raw reads that fetch `total` payload bytes from a position on. */
  function Plan(pos: nat, block: nat, total: nat): seq<Transfer>
    requires block > 0
    decreases total
  {
    if total == 0 then []
    else [Transfer(pos, Pad64(Want(block, total)))] + Plan(pos + Pad64(Want(block, total)), block, total - Want(block, total))
  }

  /** Payload bytes of the next raw read. */
  function Want(block: nat, left: nat): nat { if block < left then block else left }

  // ---------------------------------------------------------------- short answers

  /** The state of a read between raw reads. */
  datatype Wire = Wire(
    pos: nat,                 // position on the wire
    buffer: seq<Byte>,        // what is in the buffer, old bytes included
    left: nat,                // payload bytes still to be asked for
    out: seq<Byte>,           // what the buffer was taken to hold, so far
    log: seq<Transfer>        // the raw reads so far
  )

  function Opened(pos: nat, buffer: seq<Byte>, total: nat): Wire { Wire(pos, buffer, total, [], []) }

  /** The buffer is padded itself, and the stream is long enough. */
  predicate Fits(raw: seq<Byte>, w: Wire) {
    0 < |w.buffer| && |w.buffer| % 64 == 0 && w.pos + Pad64(w.left) <= |raw|
  }

  /** A raw read may deliver less than it was asked for. */
  predicate Takes(block: nat, left: nat, got: nat) { 0 < left && got <= Pad64(Want(block, left)) }

  /** A raw read that delivers `got` bytes leaves the rest of the buffer as it was; no one notices. */
  function After(raw: seq<Byte>, w: Wire, got: nat): (r: Wire)
    requires Fits(raw, w) && Takes(|w.buffer|, w.left, got)
    ensures Fits(raw, r) && |r.buffer| == |w.buffer| && r.left == w.left - Want(|w.buffer|, w.left)
  {
    var b := Want(|w.buffer|, w.left);
    Pad64Fits(b, |w.buffer|);
    PadWanted(|w.buffer|, w.left);
    Filled(raw, w, b, got)
  }

  lemma PadWanted(block: nat, left: nat)
    requires 0 < block && block % 64 == 0
    ensures Pad64(Want(block, left)) + Pad64(left - Want(block, left)) == Pad64(left)
  {
    if block <= left {
      PadBlock(block, left);
    }
  }

  function Filled(raw: seq<Byte>, w: Wire, b: nat, got: nat): Wire
    requires got <= |w.buffer| && b <= |w.buffer| && b <= w.left && w.pos + got <= |raw|
  {
    var buffer := raw[w.pos..w.pos + got] + w.buffer[got..];
    Wire(w.pos + got, buffer, w.left - b, w.out + buffer[..b], w.log + [Transfer(w.pos, Pad64(b))])
  }

  /** Possible sizes of the answers to the raw reads for `left` payload bytes, or to the first ones of them. */
  predicate Answers(block: nat, left: nat, gots: seq<nat>) {
    gots == [] || (Takes(block, left, gots[0]) && Answers(block, left - Want(block, left), gots[1..]))
  }

  function Run(raw: seq<Byte>, w: Wire, gots: seq<nat>): (r: Wire)
    requires Fits(raw, w) && Answers(|w.buffer|, w.left, gots)
    ensures Fits(raw, r) && |r.buffer| == |w.buffer|
    decreases |gots|
  {
    if gots == [] then w else Run(raw, After(raw, w, gots[0]), gots[1..])
  }

  /** One more raw read at the end. */
  lemma {:induction false} RunSnoc(raw: seq<Byte>, w: Wire, gots: seq<nat>, got: nat)
    requires Fits(raw, w) && Answers(|w.buffer|, w.left, gots)
    requires Takes(|w.buffer|, Run(raw, w, gots).left, got)
    ensures Answers(|w.buffer|, w.left, gots + [got])
    ensures Run(raw, w, gots + [got]) == After(raw, Run(raw, w, gots), got)
    decreases |gots|
  {
    if gots == [] {
      assert [got][1..] == [];
    } else {
      RunSnoc(raw, After(raw, w, gots[0]), gots[1..], got);
      assert (gots + [got])[1..] == gots[1..] + [got];
    }
  }

  /** The counts agree, whatever the answers hold. */
  lemma {:induction false} RunCounts(raw: seq<Byte>, w: Wire, gots: seq<nat>)
    requires Fits(raw, w) && Answers(|w.buffer|, w.left, gots)
    ensures var r := Run(raw, w, gots); r.left <= w.left && |r.out| == |w.out| + (w.left - r.left) && w.out <= r.out
    decreases |gots|
  {
    if gots != [] {
      RunCounts(raw, After(raw, w, gots[0]), gots[1..]);
    }
  }

  // ---------------------------------------------------------------- when the payload arrives

  /** Every answer brings at least the payload bytes that it was to bring. */
  predicate Enough(block: nat, left: nat, gots: seq<nat>) {
    gots == [] || (Want(block, left) <= gots[0] && Enough(block, left - Want(block, left), gots[1..]))
  }

  /** Then the bytes handed out are those on the wire. */
  lemma {:induction false} RunEnough(raw: seq<Byte>, w: Wire, gots: seq<nat>)
    requires Fits(raw, w) && Answers(|w.buffer|, w.left, gots) && Enough(|w.buffer|, w.left, gots)
    ensures var r := Run(raw, w, gots);
      && r.left <= w.left && w.pos + (w.left - r.left) <= |raw|
      && r.out == w.out + raw[w.pos..w.pos + (w.left - r.left)]
    decreases |gots|
  {
    if gots != [] {
      var b, w' := Want(|w.buffer|, w.left), After(raw, w, gots[0]);
      RunEnough(raw, w', gots[1..]);
      EnoughStep(raw, w, gots[0]);
      var r := Run(raw, w', gots[1..]);
      OneMoreSlice(raw, w.out, w.pos, b, w'.out, w'.pos, w'.left - r.left, r.out);
    }
  }

  lemma EnoughStep(raw: seq<Byte>, w: Wire, got: nat)
    requires Fits(raw, w) && Takes(|w.buffer|, w.left, got) && Want(|w.buffer|, w.left) <= got
    ensures var b, w' := Want(|w.buffer|, w.left), After(raw, w, got);
      && w.pos + b <= |raw| && w'.out == w.out + raw[w.pos..w.pos + b]
      && (w'.pos == w.pos + b || w'.left == 0)
  {
    var b := Want(|w.buffer|, w.left);
    Pad64Fits(b, |w.buffer|);
    var buffer := raw[w.pos..w.pos + got] + w.buffer[got..];
    assert buffer[..b] == raw[w.pos..w.pos + b];
  }

  lemma OneMoreSlice(raw: seq<Byte>, out: seq<Byte>, pos: nat, b: nat, out': seq<Byte>, pos': nat, d: nat, out'': seq<Byte>)
    requires pos + b <= |raw| && out' == out + raw[pos..pos + b]
    requires pos' + d <= |raw| && out'' == out' + raw[pos'..pos' + d]
    requires pos' == pos + b || d == 0
    ensures pos + (b + d) <= |raw| && out'' == out + raw[pos..pos + (b + d)]
  {
    if d > 0 {
      Joined(raw, pos, pos', pos' + d);
      Associate(out, raw[pos..pos'], raw[pos'..pos' + d]);
    }
  }

  /** And the raw reads done and still to come are the planned ones. */
  lemma {:induction false} RunPlanned(raw: seq<Byte>, w: Wire, gots: seq<nat>)
    requires Fits(raw, w) && Answers(|w.buffer|, w.left, gots) && Enough(|w.buffer|, w.left, gots)
    ensures var r := Run(raw, w, gots);
      r.log + Plan(r.pos, |w.buffer|, r.left) == w.log + Plan(w.pos, |w.buffer|, w.left)
    decreases |gots|
  {
    if gots != [] {
      PlanStep(raw, w, gots[0]);
      RunPlanned(raw, After(raw, w, gots[0]), gots[1..]);
    }
  }

  lemma PlanStep(raw: seq<Byte>, w: Wire, got: nat)
    requires Fits(raw, w) && Takes(|w.buffer|, w.left, got) && Want(|w.buffer|, w.left) <= got
    ensures var w' := After(raw, w, got);
      w'.log + Plan(w'.pos, |w.buffer|, w'.left) == w.log + Plan(w.pos, |w.buffer|, w.left)
  {
    var b, w' := Want(|w.buffer|, w.left), After(raw, w, got);
    Pad64Fits(b, |w.buffer|);
    var next := Plan(w.pos + Pad64(b), |w.buffer|, w.left - b);
    assert w'.left > 0 ==> w'.pos == w.pos + Pad64(b);
    assert w.log + ([Transfer(w.pos, Pad64(b))] + next) == w.log + [Transfer(w.pos, Pad64(b))] + next;
  }

  lemma Joined(s: seq<Byte>, i: nat, j: nat, k: nat)
    requires i <= j <= k <= |s|
    ensures s[i..k] == s[i..j] + s[j..k]
  {
  }

  /** The first payload byte that an answer fails to bring. */
  function Missed(block: nat, left: nat, gots: seq<nat>): nat
    requires !Enough(block, left, gots)
  {
    if gots[0] < Want(block, left) then gots[0]
    else Want(block, left) + Missed(block, left - Want(block, left), gots[1..])
  }

  /** With nothing but zeroes before that byte, a zero is handed out in its place. */
  lemma {:induction false} RunMissed(raw: seq<Byte>, w: Wire, gots: seq<nat>)
    requires Fits(raw, w) && Answers(|w.buffer|, w.left, gots) && !Enough(|w.buffer|, w.left, gots)
    requires forall i :: 0 <= i < |w.buffer| ==> w.buffer[i] == 0
    requires forall i :: w.pos <= i < w.pos + Missed(|w.buffer|, w.left, gots) && i < |raw| ==> raw[i] == 0
    ensures var m := Missed(|w.buffer|, w.left, gots);
      m < w.left && |w.out| + m < |Run(raw, w, gots).out| && Run(raw, w, gots).out[|w.out| + m] == 0
    decreases |gots|
  {
    var w' := After(raw, w, gots[0]);
    if gots[0] < Want(|w.buffer|, w.left) {
      RunCounts(raw, w', gots[1..]);
      MissedHere(raw, w, gots[0]);
    } else {
      ZeroesBefore(raw, w, gots[0]);
      RunMissed(raw, w', gots[1..]);
    }
  }

  lemma MissedHere(raw: seq<Byte>, w: Wire, got: nat)
    requires Fits(raw, w) && Takes(|w.buffer|, w.left, got) && got < Want(|w.buffer|, w.left)
    requires w.buffer[got] == 0
    ensures |w.out| + got < |After(raw, w, got).out| && After(raw, w, got).out[|w.out| + got] == 0
  {
  }

  lemma ZeroesBefore(raw: seq<Byte>, w: Wire, got: nat)
    requires Fits(raw, w) && Takes(|w.buffer|, w.left, got) && |w.buffer| <= w.left && |w.buffer| <= got
    requires forall i :: 0 <= i < |w.buffer| ==> w.buffer[i] == 0
    requires forall i :: w.pos <= i < w.pos + |w.buffer| && i < |raw| ==> raw[i] == 0
    ensures got == |w.buffer|
    ensures forall i :: 0 <= i < |w.buffer| ==> After(raw, w, got).buffer[i] == 0
  {
    Pad64Fits(Want(|w.buffer|, w.left), |w.buffer|);
  }

  /** What was handed out is a beginning of the payload; all of it when nothing is left. */
  predicate Delivers(raw: seq<Byte>, start: nat, buffer: seq<Byte>, total: nat, gots: seq<nat>)
    requires Fits(raw, Opened(start, buffer, total)) && Answers(|buffer|, total, gots)
  {
    RawSizeIs(|buffer|, total);
    Run(raw, Opened(start, buffer, total), gots).out <= Stripped(raw[start..], |buffer|, total)
  }

  lemma BeginsPayload(raw: seq<Byte>, start: nat, total: nat, done: nat)
    requires done <= total && start + total <= |raw|
    ensures raw[start..start + done] <= raw[start..][..total]
  {
  }

  lemma EnoughDelivers(raw: seq<Byte>, start: nat, buffer: seq<Byte>, total: nat, gots: seq<nat>)
    requires Fits(raw, Opened(start, buffer, total)) && Answers(|buffer|, total, gots) && Enough(|buffer|, total, gots)
    ensures Delivers(raw, start, buffer, total, gots)
  {
    var w := Opened(start, buffer, total);
    var done := total - Run(raw, w, gots).left;
    RunEnough(raw, w, gots);
    RawSizeIs(|buffer|, total);
    StrippedIs(raw[start..], |buffer|, total);
    BeginsPayload(raw, start, total, done);
  }

  /** A stream and a buffer for which an answer that is too short spoils the result. */
  lemma ShortReadSpoils(start: nat, block: nat, total: nat, gots: seq<nat>) returns (raw: seq<Byte>, buffer: seq<Byte>)
    requires 0 < block && block % 64 == 0 && Answers(block, total, gots) && !Enough(block, total, gots)
    ensures |buffer| == block && |raw| == start + Pad64(total) && !Delivers(raw, start, buffer, total, gots)
  {
    var m := Missed(block, total, gots);
    buffer := seq(block, _ => 0);
    raw := seq(start + Pad64(total), i => if i == start + m then 1 else 0);
    var w := Opened(start, buffer, total);
    RunMissed(raw, w, gots);
    RawSizeIs(block, total);
    StrippedIs(raw[start..], block, total);
    assert raw[start..][m] == 1;
  }

  /**
   The payload is handed out, whatever it is and whatever was in the buffer, if and only if
   every answer brings at least the payload bytes that it was to bring.
   */
  lemma PayloadExactly(start: nat, block: nat, total: nat, gots: seq<nat>)
    requires 0 < block && block % 64 == 0 && Answers(block, total, gots)
    ensures (forall raw: seq<Byte>, buffer: seq<Byte> ::
               |buffer| == block && start + Pad64(total) <= |raw| ==> Delivers(raw, start, buffer, total, gots))
       <==> Enough(block, total, gots)
  {
    if Enough(block, total, gots) {
      forall raw: seq<Byte>, buffer: seq<Byte> | |buffer| == block && start + Pad64(total) <= |raw|
        ensures Delivers(raw, start, buffer, total, gots)
      {
        EnoughDelivers(raw, start, buffer, total, gots);
      }
    } else {
      var raw, buffer := ShortReadSpoils(start, block, total, gots);
    }
  }

  /** A block of 64 bytes of which only one arrives is handed out with 63 old bytes. */
  lemma ShortReadStale() returns (raw: seq<Byte>, buffer: seq<Byte>)
    ensures |buffer| == 64 <= |raw| && Answers(64, 64, [1]) && !Delivers(raw, 0, buffer, 64, [1])
  {
    assert [1][1..] == [];
    raw, buffer := ShortReadSpoils(0, 64, 64, [1]);
  }

  /** A last read that misses padding only does no harm. */
  lemma PaddingMayMiss(raw: seq<Byte>, buffer: seq<Byte>)
    requires |buffer| == 64 <= |raw|
    ensures Answers(64, 1, [1]) && Delivers(raw, 0, buffer, 1, [1])
  {
    assert [1][1..] == [];
    EnoughDelivers(raw, 0, buffer, 1, [1]);
  }
}
