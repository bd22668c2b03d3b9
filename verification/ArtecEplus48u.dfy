/**
 The buffered USB reader of the Artec E+48U backend.  Transfers are padded to
 64 bytes; the reader hands out its buffer in pieces of any size, and setup_scan
 chooses line widths that need no padding at all.
 */
module ArtecEplus48u {
  import opened SaneBytes
  import opened ArtecEplus48uStream

  /** The account of a running read. */
  datatype Book = Book(
    first: Wire,              // before the first raw read
    gots: seq<nat>,           // what the raw reads delivered
    wire: Wire,               // after them
    delivered: seq<Byte>
  )

  /** The wire is what the raw reads make of the stream. */
  ghost predicate Accounted(raw: seq<Byte>, k: Book) {
    Fits(raw, k.first) && Answers(|k.first.buffer|, k.first.left, k.gots) && k.wire == Run(raw, k.first, k.gots)
  }

  /** The state of a running read: delivered and buffered bytes are what the raw reads make of the stream. */
  ghost predicate Sound(raw: seq<Byte>, rawPos: nat, left: nat, buffer: seq<Byte>, readPos: nat, inBuffer: nat, k: Book) {
    && Accounted(raw, k)
    && k.wire.pos == rawPos && k.wire.left == left && k.wire.buffer == buffer && readPos + inBuffer <= |buffer|
    && k.wire.out == k.delivered + buffer[readPos..readPos + inBuffer]
  }

  function Refilled(raw: seq<Byte>, k: Book, got: nat): Book
    requires Fits(raw, k.wire) && Takes(|k.wire.buffer|, k.wire.left, got)
  {
    k.(gots := k.gots + [got], wire := After(raw, k.wire, got))
  }

  lemma RefillAccounted(raw: seq<Byte>, k: Book, got: nat)
    requires Accounted(raw, k) && Takes(|k.wire.buffer|, k.wire.left, got)
    ensures Fits(raw, k.wire) && Accounted(raw, Refilled(raw, k, got))
  {
    RunSnoc(raw, k.first, k.gots, got);
  }

  /** A raw read that delivers got bytes, too few or not, is one more raw read of the account. */
  lemma RefillSound(raw: seq<Byte>, rawPos: nat, left: nat, before: seq<Byte>, readPos: nat, k: Book, got: nat, after: seq<Byte>)
    requires Sound(raw, rawPos, left, before, readPos, 0, k) && Takes(|before|, left, got) && got <= |before|
    requires rawPos + got <= |raw| && after == raw[rawPos..rawPos + got] + before[got..]
    ensures Fits(raw, k.wire) && Takes(|k.wire.buffer|, k.wire.left, got)
    ensures Sound(raw, rawPos + got, left - Want(|before|, left), after, 0, Want(|before|, left), Refilled(raw, k, got))
  {
    RefillAccounted(raw, k, got);
    AfterFields(raw, k.wire, got);
    NothingBuffered(before, readPos, k.delivered, k.wire.out);
    assert after[0..0 + Want(|before|, left)] == after[..Want(|before|, left)];
  }

  lemma NothingBuffered(buffer: seq<Byte>, readPos: nat, delivered: seq<Byte>, out: seq<Byte>)
    requires readPos <= |buffer| && out == delivered + buffer[readPos..readPos + 0]
    ensures out == delivered
  {
  }

  lemma AfterFields(raw: seq<Byte>, w: Wire, got: nat)
    requires Fits(raw, w) && Takes(|w.buffer|, w.left, got)
    ensures got <= |w.buffer| && w.pos + got <= |raw| && Want(|w.buffer|, w.left) <= |w.buffer|
    ensures var b, w' := Want(|w.buffer|, w.left), After(raw, w, got);
      && w'.pos == w.pos + got && w'.left == w.left - b && w'.out == w.out + w'.buffer[..b]
      && w'.buffer == raw[w.pos..w.pos + got] + w.buffer[got..]
  {
    Pad64Fits(Want(|w.buffer|, w.left), |w.buffer|);
    PadWanted(|w.buffer|, w.left);
  }

  lemma DrainSound(raw: seq<Byte>, rawPos: nat, left: nat, buffer: seq<Byte>, readPos: nat, inBuffer: nat, k: Book, n: nat,
                   out: seq<Byte>)
    requires n <= inBuffer && Sound(raw, rawPos, left, buffer, readPos, inBuffer, k) && out == buffer[readPos..readPos + n]
    ensures Sound(raw, rawPos, left, buffer, readPos + n, inBuffer - n, k.(delivered := k.delivered + out))
  {
    Joined(buffer, readPos, readPos + n, readPos + inBuffer);
    Associate(k.delivered, out, buffer[readPos + n..readPos + inBuffer]);
  }

  /** Nothing is left to fetch or to hand out. */
  ghost predicate Complete(k: Book) { k.wire.left == 0 && k.delivered == k.wire.out }

  lemma EmptiedComplete(raw: seq<Byte>, rawPos: nat, buffer: seq<Byte>, readPos: nat, k: Book)
    requires Sound(raw, rawPos, 0, buffer, readPos, 0, k)
    ensures Complete(k)
  {
    assert buffer[readPos..readPos + 0] == [];
  }

  lemma StartSound(raw: seq<Byte>, rawPos: nat, block: nat, count: nat, buffer: seq<Byte>)
    requires 0 < block == |buffer| && block % 64 == 0 && rawPos <= |raw| && RawSize(block, count) <= |raw| - rawPos
    ensures Sound(raw, rawPos, count, buffer, 0, 0, NewBook(rawPos, buffer, count))
  {
    RawSizeIs(block, count);
  }

  function NewBook(start: nat, buffer: seq<Byte>, count: nat): Book {
    Book(Opened(start, buffer, count), [], Opened(start, buffer, count), [])
  }

  /** The same read after `out` was delivered. */
  ghost predicate Continues(k: Book, k': Book, out: seq<Byte>) {
    k'.delivered == k.delivered + out && k'.first == k.first
  }

  lemma ContinuesOn(k: Book, k': Book, k'': Book, a: seq<Byte>, b: seq<Byte>)
    requires Continues(k, k', a) && Continues(k', k'', b)
    ensures Continues(k, k'', a + b)
  {
    Associate(k.delivered, a, b);
  }

  const DEFAULT_BUFFER_SIZE := 32768

  class Device {
    const raw: seq<Byte>           // everything the device will send
    var rawPos: nat
    var requested: nat             // requested_buffer_size
    var active: bool
    var buffer: array<Byte>
    var readPos: nat
    var inBuffer: nat
    var bytesLeft: nat
    ghost var book: Book

    ghost predicate Valid()
      reads this, buffer
    {
      && 0 < requested && requested % 64 == 0 && rawPos <= |raw|
      && (active ==> buffer.Length == requested && Sound(raw, rawPos, bytesLeft, buffer[..], readPos, inBuffer, book))
    }

    constructor (raw: seq<Byte>)
      ensures Valid() && !active && rawPos == 0 && requested == DEFAULT_BUFFER_SIZE && this.raw == raw && fresh(buffer)
    {
      this.raw := raw;
      rawPos, requested, active, readPos, inBuffer, bytesLeft := 0, DEFAULT_BUFFER_SIZE, false, 0, 0, 0;
      buffer := new Byte[0];
    }

    method SetReadBufferSize(size: nat) returns (status: Status)
      requires Valid()
      modifies this`requested
      ensures Valid()
      ensures status == Good <==> !active && 0 < size
      ensures requested == if status == Good then Pad64(size) else old(requested)
    {
      if active {
        return Inval;
      }
      var padded := Pad64(size);
      if padded > 0 {
        requested := padded;
        return Good;
      }
      return Inval;
    }

    method ReadPrepare(count: nat) returns (status: Status)
      requires Valid() && RawSize(requested, count) <= |raw| - rawPos
      modifies this`buffer, this`active, this`rawPos, this`readPos, this`inBuffer, this`bytesLeft, this`book
      ensures Valid() && active && (status == Good <==> !old(active)) && rawPos == old(rawPos)
      ensures status == Good ==> fresh(buffer) && book == NewBook(rawPos, buffer[..], count)
      ensures status != Good ==> status == Inval && buffer == old(buffer) && book == old(book)
    {
      if active {
        return Inval;
      }
      buffer := new Byte[requested];
      StartSound(raw, rawPos, requested, count, buffer[..]);
      active := true;
      Settle(rawPos, 0, 0, count, NewBook(rawPos, buffer[..], count));
      return Good;
    }

    method ReadFinish() returns (status: Status)
      requires Valid()
      modifies this`active
      ensures Valid() && !active && status == if old(active) then Good else Inval
    {
      if !active {
        return Inval;
      }
      active := false;
      return Good;
    }

    /** One padded raw read, which always fits the buffer; how much really arrives goes unnoticed. */
    method Fetch(block: nat) returns (got: nat)
      requires Valid() && active && 0 < block == Want(requested, bytesLeft)
      modifies buffer
      ensures got <= Pad64(block) <= buffer.Length && rawPos + got <= |raw|
      ensures buffer[..] == raw[rawPos..rawPos + got] + old(buffer[got..])
    {
      Pad64Fits(block, requested);
      got :| got <= Pad64(block) && rawPos + got <= |raw|;
      ReadRaw(buffer, raw, rawPos, got);
    }

    /** Refill the empty buffer. */
    method Refill()
      requires Valid() && active && inBuffer == 0 && 0 < bytesLeft
      modifies this`rawPos, this`readPos, this`inBuffer, this`bytesLeft, this`book, buffer
      ensures Valid() && 0 < inBuffer && Continues(old(book), book, [])
    {
      var block := if bytesLeft < requested then bytesLeft else requested;
      ghost var before := buffer[..];
      var got := Fetch(block);
      RefillSound(raw, rawPos, bytesLeft, before, readPos, book, got, buffer[..]);
      Settle(rawPos + got, 0, block, bytesLeft - block, Refilled(raw, book, got));
    }

    /** Take over the new state of the read. */
    method Settle(rawPos': nat, readPos': nat, inBuffer': nat, bytesLeft': nat, ghost book': Book)
      requires 0 < requested && requested % 64 == 0 && rawPos' <= |raw| && buffer.Length == requested
      requires Sound(raw, rawPos', bytesLeft', buffer[..], readPos', inBuffer', book')
      modifies this`rawPos, this`readPos, this`inBuffer, this`bytesLeft, this`book
      ensures Valid()
      ensures rawPos == rawPos' && readPos == readPos' && inBuffer == inBuffer' && bytesLeft == bytesLeft' && book == book'
    {
      rawPos, readPos, inBuffer, bytesLeft, book := rawPos', readPos', inBuffer', bytesLeft', book';
    }

    /** Copy n buffered bytes. */
    method Drain(n: nat) returns (out: seq<Byte>)
      requires Valid() && active && n <= inBuffer
      modifies this`rawPos, this`readPos, this`inBuffer, this`bytesLeft, this`book
      ensures Valid() && |out| == n && inBuffer == old(inBuffer) - n
      ensures book == old(book).(delivered := old(book).delivered + out)
    {
      out := Copy(buffer, readPos, n);
      ghost var book' := book.(delivered := book.delivered + out);
      DrainSound(raw, rawPos, bytesLeft, buffer[..], readPos, inBuffer, book, n, out);
      Settle(rawPos, readPos + n, inBuffer - n, bytesLeft, book');
    }

    /** The next piece of at most `want` bytes, refilling when nothing is buffered. */
    method Next(want: nat) returns (status: Status, part: seq<Byte>, ghost failed: bool)
      requires Valid() && active && 0 < want
      modifies this`rawPos, this`readPos, this`inBuffer, this`bytesLeft, this`book, buffer
      ensures Valid() && Continues(old(book), book, part) && |part| <= want
      ensures status == Good || status == Eof || status == IoError
      ensures status == Good <==> part != []
      ensures status == Eof ==> Complete(book)
      ensures status == IoError <==> failed
    {
      part, failed := [], false;
      if inBuffer == 0 {
        if bytesLeft == 0 {
          EmptiedComplete(raw, rawPos, buffer[..], readPos, book);
          return Eof, part, failed;
        }
        var ok: bool := *;               // the device's answer
        failed := !ok;
        if !ok {
          return IoError, part, failed;
        }
        Refill();
      }
      part := Drain(if want < inBuffer then want else inBuffer);
      status := Good;
    }

    /** artec48u_device_read: end of file only when all of the payload was asked for and handed out. */
    method Read(size: nat) returns (status: Status, out: seq<Byte>, ghost failed: bool)
      requires Valid()
      modifies this`rawPos, this`readPos, this`inBuffer, this`bytesLeft, this`book, buffer
      ensures Valid() && Continues(old(book), book, out) && |out| <= size
      ensures !active ==> status == Inval && out == []
      ensures active ==> status == Good || status == Eof || status == IoError
      ensures active && status == Good ==> 0 < |out| && (|out| < size ==> Complete(book))
      ensures active && status == Eof ==> out == [] && (0 < size ==> Complete(book))
      ensures status == IoError <==> failed
    {
      out, failed := [], false;
      if !active {
        return Inval, out, failed;
      }
      status := Good;
      while |out| < size && status == Good
        invariant Valid() && active && Continues(old(book), book, out) && |out| <= size
        invariant status == Good || status == Eof || status == IoError
        invariant status == Eof ==> Complete(book)
        invariant status == IoError <==> failed
        decreases size - |out|, status == Good
      {
        var part;
        ghost var k := book;
        status, part, failed := Next(size - |out|);
        ContinuesOn(old(book), k, book, out, part);
        out := out + part;
      }
      if status != IoError {
        status := if out == [] then Eof else Good;
      }
    }
  }

  method Copy(buffer: array<Byte>, from: nat, n: nat) returns (out: seq<Byte>)
    requires from + n <= buffer.Length
    ensures out == buffer[..][from..from + n]
  {
    out := buffer[from..from + n];
    assert out == buffer[..][from..from + n];
  }

  /** A raw read that delivers n bytes. */
  method ReadRaw(buffer: array<Byte>, raw: seq<Byte>, pos: nat, n: nat)
    requires n <= buffer.Length && pos + n <= |raw|
    modifies buffer
    ensures buffer[..] == raw[pos..pos + n] + old(buffer[n..])
  {
    ghost var whole := raw[pos..pos + n] + buffer[n..];
    forall k | 0 <= k < n { buffer[k] := raw[pos + k]; }
    assert forall k :: 0 <= k < buffer.Length ==> buffer[k] == whole[k];
  }

  // ---------------------------------------------------------------- line widths

  datatype Width = Width(scanXs: nat, bpl: nat) | Refused(status: Status)

  function Bytes(depth: nat, pixels: nat): nat { if depth == 16 then 2 * pixels else pixels }

  /** The smallest pixel count that spans a multiple of 64 bytes. */
  method PixelAlign(depth: nat) returns (align: nat)
    requires depth == 8 || depth == 16
    ensures align == if depth == 8 then 64 else 32
  {
    align := 32;
    while depth * align % 512 != 0
      invariant align == 32 || (depth == 8 && align == 64)
      decreases 64 - align
    {
      align := align * 2;
    }
  }

  function RoundUp(x: nat, align: nat): nat
    requires align == 32 || align == 64
  {
    if x % align == 0 then x else if align == 32 then (x / 32 + 1) * 32 else (x / 64 + 1) * 64
  }

  lemma RoundUpBytes(x: nat, depth: nat)
    requires depth == 8 || depth == 16
    ensures var r := RoundUp(x, if depth == 8 then 64 else 32);
      && x <= r && depth * r % 8 == 0 && depth * r / 8 == Bytes(depth, r) == Pad64(Bytes(depth, x))
  {
    if depth == 8 {
      RoundUpSingle(x);
      BitsToBytes(depth, RoundUp(x, 64));
    } else {
      RoundUpDouble(x);
      BitsToBytes(depth, RoundUp(x, 32));
    }
  }

  lemma BitsToBytes(depth: nat, r: nat)
    requires depth == 8 || depth == 16
    ensures depth * r % 8 == 0 && depth * r / 8 == Bytes(depth, r)
  {
    DivOfMultiple(Bytes(depth, r), 8);
  }

  lemma RoundUpSingle(x: nat)
    ensures x <= RoundUp(x, 64) == Pad64(x)
  {
    var q, rest := x / 64, x % 64;
    assert x == 64 * q + rest;
    if rest > 0 {
      assert (x + 63) / 64 == q + 1;
    }
  }

  lemma RoundUpDouble(x: nat)
    ensures x <= RoundUp(x, 32) && 2 * RoundUp(x, 32) == Pad64(2 * x)
  {
    var q, rest := x / 32, x % 32;
    assert x == 32 * q + rest;
    if rest > 0 {
      assert (2 * x + 63) / 64 == q + 1;
    } else {
      assert (2 * x + 63) / 64 == q;
    }
  }

  /** Lines wide enough for pixelXs pixels whose byte count is a multiple of 64. */
  method SetupWidth(depth: nat, pixelXs: nat) returns (r: Width)
    ensures r.Width? <==> (depth == 8 || depth == 16) && Pad64(Bytes(depth, pixelXs)) <= 15600
    ensures r.Width? ==> pixelXs <= r.scanXs && r.bpl == Bytes(depth, r.scanXs) == Pad64(Bytes(depth, pixelXs))
    ensures r.Refused? ==> r.status == if depth == 8 || depth == 16 then Inval else Unsupported
  {
    if depth != 8 && depth != 16 {
      return Refused(Unsupported);
    }
    var align := PixelAlign(depth);
    var scanXs := RoundUp(pixelXs, align);
    RoundUpBytes(pixelXs, depth);
    var bits := depth * scanXs;
    if bits % 8 != 0 {
      assert false;                    // cannot happen
      return Refused(Inval);
    }
    var bpl := bits / 8;
    if bpl % 64 != 0 {
      assert false;                    // cannot happen
      return Refused(Inval);
    }
    if bpl > 15600 {
      return Refused(Inval);
    }
    r := Width(scanXs, bpl);
  }

  /** The block size in force after asking for a buffer of `size` bytes: an empty one is refused. */
  function BlockSize(size: nat): (r: nat)
    ensures 0 < r && r % 64 == 0 && (size == 0 ==> r == DEFAULT_BUFFER_SIZE) && (0 < size ==> size <= r < size + 64)
  {
    if size == 0 then DEFAULT_BUFFER_SIZE else Pad64(size)
  }

  /**
   A whole read with requests of any sizes hands out what the raw reads make of the stream; that
   is the payload when every raw read brings enough, and for all streams only then (PayloadExactly).
   */
  method ReadStream(raw: seq<Byte>, bufferSize: nat, count: nat)
    returns (ok: bool, data: seq<Byte>, ghost buffer: seq<Byte>, ghost gots: seq<nat>, ghost log: seq<Transfer>, ghost failed: bool)
    requires RawSize(BlockSize(bufferSize), count) <= |raw|
    ensures |buffer| == BlockSize(bufferSize) && Fits(raw, Opened(0, buffer, count)) && Answers(|buffer|, count, gots)
    ensures data <= Run(raw, Opened(0, buffer, count), gots).out && log == Run(raw, Opened(0, buffer, count), gots).log
    ensures ok ==> data == Run(raw, Opened(0, buffer, count), gots).out && |data| == count
    ensures Enough(|buffer|, count, gots) ==>
      && data <= Stripped(raw, |buffer|, count) && (ok ==> data == Stripped(raw, |buffer|, count))
      && log <= Plan(0, |buffer|, count) && (ok ==> log == Plan(0, |buffer|, count))
    ensures ok <==> !failed
  {
    var d := new Device(raw);
    var status := d.SetReadBufferSize(bufferSize);
    status := d.ReadPrepare(count);
    buffer := d.buffer[..];
    data, ok, failed := [], true, false;
    ghost var first := Opened(0, buffer, count);
    while status == Good
      invariant d.Valid() && d.active && fresh(d) && fresh(d.buffer) && d.raw == raw
      invariant d.book.delivered == data && d.book.first == first
      invariant status != Good ==> (ok <==> status == Eof)
      invariant ok && status == Eof ==> Complete(d.book)
      invariant ok <==> !failed
      decreases count - |data|, status == Good
    {
      var size: nat :| 0 < size;
      var part;
      status, part, failed := d.Read(size);
      SoundCounts(raw, d.rawPos, d.bytesLeft, d.buffer[..], d.readPos, d.inBuffer, d.book);
      data := data + part;
      ok := status == Good || status == Eof;
    }
    gots, log := d.book.gots, d.book.wire.log;
    SoundCounts(raw, d.rawPos, d.bytesLeft, d.buffer[..], d.readPos, d.inBuffer, d.book);
    if Enough(|buffer|, count, gots) {
      StreamPayload(raw, buffer, count, gots);
    }
    status := d.ReadFinish();
  }

  lemma SoundCounts(raw: seq<Byte>, rawPos: nat, left: nat, buffer: seq<Byte>, readPos: nat, inBuffer: nat, k: Book)
    requires Sound(raw, rawPos, left, buffer, readPos, inBuffer, k)
    ensures |k.wire.out| == |k.first.out| + (k.first.left - left) && k.delivered <= k.wire.out
    ensures |k.delivered| <= |k.first.out| + k.first.left
  {
    RunCounts(raw, k.first, k.gots);
  }

  /** What the raw reads of a stream make of the payload. */
  lemma StreamPayload(raw: seq<Byte>, buffer: seq<Byte>, count: nat, gots: seq<nat>)
    requires Fits(raw, Opened(0, buffer, count)) && Answers(|buffer|, count, gots) && Enough(|buffer|, count, gots)
    requires RawSize(|buffer|, count) <= |raw|
    ensures var w := Run(raw, Opened(0, buffer, count), gots);
      && w.out <= Stripped(raw, |buffer|, count) && w.log <= Plan(0, |buffer|, count)
      && (w.left == 0 ==> w.out == Stripped(raw, |buffer|, count) && w.log == Plan(0, |buffer|, count))
  {
    RunCounts(raw, Opened(0, buffer, count), gots);
    StreamBytes(raw, buffer, count, gots);
    StreamReads(raw, buffer, count, gots);
  }

  lemma StreamBytes(raw: seq<Byte>, buffer: seq<Byte>, count: nat, gots: seq<nat>)
    requires Fits(raw, Opened(0, buffer, count)) && Answers(|buffer|, count, gots) && Enough(|buffer|, count, gots)
    requires RawSize(|buffer|, count) <= |raw|
    ensures Run(raw, Opened(0, buffer, count), gots).out <= Stripped(raw, |buffer|, count)
  {
    assert raw[0..] == raw;
    EnoughDelivers(raw, 0, buffer, count, gots);
  }

  lemma StreamReads(raw: seq<Byte>, buffer: seq<Byte>, count: nat, gots: seq<nat>)
    requires Fits(raw, Opened(0, buffer, count)) && Answers(|buffer|, count, gots) && Enough(|buffer|, count, gots)
    ensures var w := Run(raw, Opened(0, buffer, count), gots);
      w.log <= Plan(0, |buffer|, count) && (w.left == 0 ==> w.log == Plan(0, |buffer|, count))
  {
    var w := Run(raw, Opened(0, buffer, count), gots);
    RunPlanned(raw, Opened(0, buffer, count), gots);
    Begun(w.log, Plan(w.pos, |buffer|, w.left), Plan(0, |buffer|, count));
  }

  lemma Begun(log: seq<Transfer>, rest: seq<Transfer>, plan: seq<Transfer>)
    requires log + rest == [] + plan
    ensures log <= plan && (rest == [] ==> log == plan)
  {
    assert [] + plan == plan;
    assert (log + rest)[..|log|] == log;
    if rest == [] {
      assert log + rest == log;
    }
  }

  // ---------------------------------------------------------------- whole lines

  /** With a block of whole multiples of 64 bytes nothing is padded: the payload is the raw stream. */
  lemma UnpaddedLines(raw: seq<Byte>, bpl: nat, lines: nat)
    requires 0 < bpl && bpl % 64 == 0 && lines * bpl <= |raw|
    ensures RawSize(bpl, lines * bpl) == lines * bpl
    ensures Stripped(raw, bpl, lines * bpl) == raw[..lines * bpl]
  {
    WholeLinesPadded(bpl, lines);
    RawSizeIs(bpl, lines * bpl);
    StrippedIs(raw, bpl, lines * bpl);
  }

  lemma WholeLinesPadded(bpl: nat, lines: nat)
    requires bpl % 64 == 0
    ensures 0 <= lines * bpl && Pad64(lines * bpl) == lines * bpl
  {
    NonNegative(lines, bpl);
    LinesOf64(bpl / 64, lines);
    var n: nat := lines * bpl;
    assert n % 64 == 0;
  }

  lemma LinesOf64(q: nat, lines: nat)
    ensures (lines * (q * 64)) % 64 == 0
  {
    MulAssoc(lines, q, 64);
    DivOfMultiple(lines * q, 64);
  }

  /**
   The line reader of a scan: its buffer is one full line, which with the width that
   setup_scan chose needs no padding, so that raw read k is line k and nothing else.
   */
  method ReadLines(depth: nat, pixelXs: nat, color: bool, lines: nat, raw: seq<Byte>)
    returns (width: Width, ok: bool, data: seq<Byte>, ghost gots: seq<nat>, ghost log: seq<Transfer>, ghost failed: bool)
    requires lines * FullLine(depth, pixelXs, color) <= |raw|
    ensures width.Width? <==> (depth == 8 || depth == 16) && Pad64(Bytes(depth, pixelXs)) <= 15600
    ensures ok <==> width.Width? && !failed
    ensures width.Width? ==> FullLine(depth, pixelXs, color) == if color then 3 * width.bpl else width.bpl
    ensures ok ==> |data| == lines * FullLine(depth, pixelXs, color)
    ensures EachLineWhole(gots, FullLine(depth, pixelXs, color)) ==>
      && data <= raw[..lines * FullLine(depth, pixelXs, color)]
      && (ok ==> data == raw[..lines * FullLine(depth, pixelXs, color)])
      && LineByLine(log, FullLine(depth, pixelXs, color), lines)
      && (ok && 0 < FullLine(depth, pixelXs, color) ==> |log| == lines)
  {
    width := SetupWidth(depth, pixelXs);
    ok, data, gots, log, failed := false, [], [], [], false;
    if width.Width? {
      var full := if color then 3 * width.bpl else width.bpl;
      assert full == FullLine(depth, pixelXs, color);
      LinesUnpadded(raw, full, lines);
      ghost var buffer;
      ok, data, buffer, gots, log, failed := ReadStream(raw, full, lines * full);
      if 0 < full {
        WholeLinesEnough(full, lines, gots);
        if EachLineWhole(gots, full) {
          PlannedLines(log, full, lines);
        }
      } else {
        assert lines * full == 0;
      }
    }
  }

  /** Every raw read brought a whole line. */
  predicate EachLineWhole(gots: seq<nat>, full: nat) { forall k :: 0 <= k < |gots| ==> gots[k] == full }

  /** For whole lines, to bring enough means to bring the whole line. */
  lemma {:induction false} WholeLinesEnough(full: nat, lines: nat, gots: seq<nat>)
    requires 0 < full && full % 64 == 0 && Answers(full, lines * full, gots)
    ensures Enough(full, lines * full, gots) <==> EachLineWhole(gots, full)
    decreases |gots|
  {
    if gots != [] {
      SomeLine(full, lines);
      WholeLinesEnough(full, lines - 1, gots[1..]);
      assert EachLineWhole(gots, full) <==> gots[0] == full && EachLineWhole(gots[1..], full);
    }
  }

  lemma SomeLine(full: nat, lines: nat)
    requires lines * full > 0
    ensures 0 < lines && full <= lines * full && lines * full - full == (lines - 1) * full
  {
    MulSucc(lines, full);
    MulMono(1, lines, full);
  }

  /** Raw read k fetches line k, unpadded. */
  ghost predicate LineByLine(log: seq<Transfer>, full: nat, lines: nat) {
    |log| <= lines && forall k :: 0 <= k < |log| ==> log[k] == Transfer(Times(k, full), full)
  }

  lemma PlannedLines(log: seq<Transfer>, full: nat, lines: nat)
    requires 0 < full && full % 64 == 0 && 0 <= lines * full && log <= Plan(0, full, lines * full)
    ensures LineByLine(log, full, lines)
    ensures log == Plan(0, full, lines * full) ==> |log| == lines
  {
    var plan := Plan(0, full, lines * full);
    TimesIs(lines, full);
    PlanOfLines(full, lines, 0);
    forall k | 0 <= k < |log|
      ensures log[k] == Transfer(Times(k, full), full)
    {
      assert log[k] == plan[k] == Transfer(Times(0 + k, full), full);
    }
  }

  lemma {:induction false} PlanOfLines(full: nat, lines: nat, first: nat)
    requires 0 < full && full % 64 == 0
    ensures |Plan(Times(first, full), full, Times(lines, full))| == lines
    ensures forall k :: 0 <= k < lines ==>
      Plan(Times(first, full), full, Times(lines, full))[k] == Transfer(Times(first + k, full), full)
    decreases lines
  {
    if lines > 0 {
      TimesMono(1, lines, full);
      PlanOfLines(full, lines - 1, first + 1);
      PlanOfLine(full, lines, first);
    }
  }

  lemma PlanOfLine(full: nat, lines: nat, first: nat)
    requires 0 < full && full % 64 == 0 && 0 < lines
    ensures Plan(Times(first, full), full, Times(lines, full))
         == [Transfer(Times(first, full), full)] + Plan(Times(first + 1, full), full, Times(lines - 1, full))
  {
    assert Want(full, Times(lines, full)) == full;
  }

  /** Bytes of a line with all its colours, padded to 64. */
  function FullLine(depth: nat, pixelXs: nat, color: bool): (r: nat)
    ensures r % 64 == 0
  {
    var bpl := Pad64(Bytes(depth, pixelXs));
    ThreeColors(bpl);
    if color then 3 * bpl else bpl
  }

  lemma ThreeColors(bpl: nat)
    requires bpl % 64 == 0
    ensures 3 * bpl % 64 == 0
  {
    DivOfMultiple(3 * (bpl / 64), 64);
  }

  lemma LinesUnpadded(raw: seq<Byte>, full: nat, lines: nat)
    requires full % 64 == 0 && lines * full <= |raw|
    ensures RawSize(BlockSize(full), lines * full) == lines * full
    ensures Stripped(raw, BlockSize(full), lines * full) == raw[..lines * full]
  {
    if full > 0 {
      UnpaddedLines(raw, full, lines);
    } else {
      assert lines * full == 0;
    }
  }
}
