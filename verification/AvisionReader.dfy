/**
 The Avision reader process: a stripe buffer is filled by bounded reads, its rear
 lines are saved to a file, the rest is packed, cropped or scaled and written
 out, and the unused tail is carried to the next stripe.
 */
module AvisionReader {
  import opened SaneBytes
  import opened AvisionImage
  import opened AvisionScale

  // ---------------------------------------------------------------- filling

  /** The read sizes a 64-byte-averse device is asked for: never less than half of what is wanted. */
  function ReadConstrains(averse64: bool, n: nat): (r: nat)
    ensures 0 < n ==> 0 < r <= n
    ensures n / 2 <= r
    ensures averse64 ==> r % 64 != 0
    ensures !averse64 || n % 64 != 0 ==> r == n
  {
    if !averse64 then n
    else
      var h := if n % 64 == 0 then n / 2 else n;
      if h % 64 == 0 then h + 2 else h
  }

  /** One device read into buffer[at..]: some of what is asked for, nothing only at the end of the data. */
  method ReadData(device: seq<Byte>, pos: nat, buffer: array<Byte>, at: nat, count: nat) returns (got: nat)
    requires count > 0 && at + count <= buffer.Length && pos <= |device|
    modifies buffer
    ensures got <= count && pos + got <= |device|
    ensures got == 0 <==> pos == |device|
    ensures buffer[..at + got] == old(buffer[..at]) + device[pos..pos + got]
  {
    var most := if |device| - pos < count then |device| - pos else count;
    got :| got <= most && (got == 0 <==> most == 0);
    CopyIn(buffer, at, device, pos, got);
  }

  method CopyIn(buffer: array<Byte>, at: nat, source: seq<Byte>, pos: nat, n: nat)
    requires at + n <= buffer.Length && pos + n <= |source|
    modifies buffer
    ensures buffer[..at + n] == old(buffer[..at]) + source[pos..pos + n]
  {
    ghost var whole := buffer[..at] + source[pos..pos + n];
    forall k | at <= k < at + n {
      buffer[k] := source[pos + (k - at)];
    }
    forall k | 0 <= k < at + n
      ensures buffer[k] == whole[k]
    {
      if k >= at {
        assert whole[k] == source[pos + (k - at)];
      }
    }
  }

  /** The size of the next read: bounded by the buffer, the transport and the scan. */
  function NextRead(room: nat, maxRead: nat, w: nat, left: nat, averse64: bool): (r: nat)
    requires 0 < w <= maxRead && room > 0 && left > 0
    ensures 0 < r <= room && r <= left && r <= maxRead
    ensures averse64 ==> r % 64 != 0
    ensures !averse64 ==> r == left || (if room <= maxRead then r == room else r % w == 0 && maxRead < r + w)
  {
    RestOf(maxRead, w);
    var a := if room > maxRead then maxRead - maxRead % w else room;
    ReadConstrains(averse64, if a > left then left else a)
  }

  lemma RestOf(n: nat, w: nat)
    requires 0 < w <= n
    ensures 0 < n - n % w && (n - n % w) % w == 0
  {
    assert n - n % w == WholeBytes(n, w);
  }

  lemma Appended(a: seq<Byte>, s: seq<Byte>, i: nat, j: nat, k: nat)
    requires i <= j <= k <= |s|
    ensures a + s[i..j] + s[j..k] == a + s[i..k]
  {
    assert s[i..k] == s[i..j] + s[j..k];
  }

  /**
   What a device read reports: the data has ended, with end of file or some other ending,
   or a mark, an end of file between the pages of a sheet.
   */
  method ReadStatus(atEnd: bool, mark: bool, ending: Status) returns (status: Status)
    ensures status == Good || (atEnd && status == ending) || ((atEnd || mark) && status == Eof)
  {
    status := *;
    if status != Good && !(atEnd && status == ending) {
      status := if atEnd || mark then Eof else Good;
    }
  }

  /** The loop is left with what the device reported, if that is an error, and never with another error. */
  predicate Tells(exit: Status, reported: Status) {
    exit == reported || ((exit == Good || exit == Eof) && (reported == Good || reported == Eof))
  }

  /** One read of the device and what its status means for the loop. */
  method ReadPiece(device: seq<Byte>, ending: Status, hides: bool, hidden0: bool, stripe: array<Byte>, fill: nat,
                   processed: nat, ask: nat)
    returns (got: nat, exit: Status, hidden: bool, ghost reported: Status)
    requires 0 < ask && fill + ask <= stripe.Length && processed <= |device| && ending != Good
    modifies stripe
    ensures got <= ask && processed + got <= |device|
    ensures stripe[..fill + got] == old(stripe[..fill]) + device[processed..processed + got]
    ensures exit == Good || exit == Eof || exit == ending
    ensures if exit == Good then 0 < got else processed + got == |device|
    ensures hidden <==> hidden0 || (hides && reported == Eof)
    ensures exit == if reported != Good && (reported != Eof || !hides || hidden0) then reported else if got == 0 then Eof else Good
  {
    hidden, exit := hidden0, Good;
    got := ReadData(device, processed, stripe, fill, ask);
    var status := ReadStatus(processed + got == |device|, hides && !hidden, ending);
    reported := status;
    if status == Eof && hides && !hidden {
      status, hidden := Good, true;
    }
    if status == Eof || got == 0 {
      exit := Eof;
    }
    if status != Good {
      exit := status;
    }
  }

  /** Fill the stripe buffer with real data; stripe-wise, the first end of file is hidden. */
  method FillFromDevice(device: seq<Byte>, ending: Status, total: nat, maxRead: nat, w: nat, averse64: bool, hides: bool,
                        hidden0: bool, stripe: array<Byte>, fill0: nat, processed0: nat)
    returns (fill: nat, processed: nat, exit: Status, hidden: bool, ghost reported: Status)
    requires 0 < w <= maxRead && ending != Good
    requires fill0 <= stripe.Length && processed0 <= |device| && processed0 <= total
    modifies stripe
    ensures processed0 <= processed <= |device| && processed <= total && fill <= stripe.Length
    ensures fill - fill0 == processed - processed0
    ensures stripe[..fill] == old(stripe[..fill0]) + device[processed0..processed]
    ensures exit == Good || exit == Eof || exit == ending
    ensures if exit != Good then processed == |device| else fill == stripe.Length || processed == total
    ensures Tells(exit, reported) && (hidden0 ==> hidden) && (hidden ==> hidden0 || hides)
  {
    fill, processed, exit, hidden, reported := fill0, processed0, Good, hidden0, Good;
    while processed < total && fill < stripe.Length && exit == Good
      invariant processed0 <= processed <= |device| && processed <= total && fill <= stripe.Length
      invariant fill - fill0 == processed - processed0
      invariant stripe[..fill] == old(stripe[..fill0]) + device[processed0..processed]
      invariant exit == Good || exit == Eof || exit == ending
      invariant exit != Good ==> processed == |device|
      invariant Tells(exit, reported) && (hidden0 ==> hidden) && (hidden ==> hidden0 || hides)
      decreases stripe.Length - fill, exit == Good
    {
      var thisRead := NextRead(stripe.Length - fill, maxRead, w, total - processed, averse64);
      thisRead, exit, hidden, reported := ReadPiece(device, ending, hides, hidden, stripe, fill, processed, thisRead);
      Appended(old(stripe[..fill0]), device, processed0, processed, processed + thisRead);
      fill, processed := fill + thisRead, processed + thisRead;
    }
  }

  /** Fill the stripe buffer with the stored rear data: one bounded file read. */
  method FillFromRear(file: seq<Byte>, total: nat, maxRead: nat, stripe: array<Byte>, processed0: nat)
    returns (fill: nat, processed: nat, exit: Status)
    requires processed0 <= |file| && processed0 <= total
    modifies stripe
    ensures processed0 <= processed <= |file| && processed <= total
    ensures fill == processed - processed0 <= stripe.Length
    ensures stripe[..fill] == file[processed0..processed]
    ensures fill == Min(Min(stripe.Length, maxRead), Min(|file|, total) - processed0)
    ensures exit == Good || exit == Eof
    ensures exit != Good ==> processed == |file| < total
    ensures exit == Good && processed0 < total && 0 < maxRead && 0 < stripe.Length ==> 0 < fill
    ensures exit == Good ==> fill == Min(stripe.Length, maxRead) || processed == total
  {
    var thisRead := stripe.Length;
    if thisRead > maxRead {
      thisRead := maxRead;
    }
    if processed0 + thisRead > total {
      thisRead := total - processed0;
    }
    fill := if |file| - processed0 < thisRead then |file| - processed0 else thisRead;
    CopyIn(stripe, 0, file, processed0, fill);
    assert thisRead == Min(Min(stripe.Length, maxRead), total - processed0);
    assert fill == Min(thisRead, |file| - processed0);
    processed := processed0 + fill;
    exit := if fill != thisRead then Eof else Good;
  }

  // ---------------------------------------------------------------- deinterlacing

  function Moved(s: seq<Byte>, dst: nat, src: nat, n: nat): (r: seq<Byte>)
    requires dst <= src && src + n <= |s|
    ensures |r| == |s|
  {
    s[..dst] + s[src..src + n] + s[dst + n..]
  }

  /** memmove inside a buffer. */
  method MoveDown(buffer: array<Byte>, dst: nat, src: nat, n: nat)
    requires dst <= src && src + n <= buffer.Length
    modifies buffer
    ensures buffer[..] == Moved(old(buffer[..]), dst, src, n)
  {
    ghost var moved := Moved(buffer[..], dst, src, n);
    forall k | 0 <= k < n {
      buffer[dst + k] := buffer[src + k];
    }
    assert forall k :: 0 <= k < buffer.Length ==> buffer[k] == moved[k];
  }

  /** The first `done` bytes of s were split into front and back lines; buffer holds what is left. */
  ghost predicate Split(byLine: bool, s: seq<Byte>, done: nat, front: seq<Byte>, back: seq<Byte>,
                        buffer: seq<Byte>, ptr: nat, fill: nat)
  {
    && |front| + |back| == done <= |s| == fill + |back|
    && |s| <= |buffer|
    && if byLine then ptr == |front| && buffer[..fill] == front + s[done..]
       else ptr == done && buffer[..|s|] == s
  }

  lemma SplitHere(byLine: bool, s: seq<Byte>, done: nat, front: seq<Byte>, back: seq<Byte>,
                  buffer: seq<Byte>, ptr: nat, fill: nat, w: nat)
    requires Split(byLine, s, done, front, back, buffer, ptr, fill) && done + w <= |s|
    ensures ptr + w <= |buffer| && buffer[ptr..ptr + w] == s[done..done + w]
    ensures byLine ==> ptr + w <= fill && buffer[..ptr] == front && buffer[ptr + w..fill] == s[done + w..]
  {
    if byLine {
      SliceSlice(buffer, fill, 0, ptr);
      SliceSlice(buffer, fill, ptr, ptr + w);
      SliceSlice(buffer, fill, ptr + w, fill);
    } else {
      SliceSlice(buffer, |s|, ptr, ptr + w);
    }
  }

  lemma SplitBack(byLine: bool, s: seq<Byte>, done: nat, front: seq<Byte>, back: seq<Byte>,
                  buffer: seq<Byte>, ptr: nat, fill: nat, w: nat)
    requires Split(byLine, s, done, front, back, buffer, ptr, fill) && done + w <= |s| && w <= fill
    ensures byLine ==> ptr + w <= fill
    ensures Split(byLine, s, done + w, front, back + s[done..done + w],
                  if byLine then Moved(buffer, ptr, ptr + w, fill - ptr - w) else buffer,
                  if byLine then ptr else ptr + w, fill - w)
  {
    SplitHere(byLine, s, done, front, back, buffer, ptr, fill, w);
  }

  lemma SplitFront(byLine: bool, s: seq<Byte>, done: nat, front: seq<Byte>, back: seq<Byte>,
                   buffer: seq<Byte>, ptr: nat, fill: nat, w: nat)
    requires Split(byLine, s, done, front, back, buffer, ptr, fill) && done + w <= |s|
    ensures Split(byLine, s, done + w, front + s[done..done + w], back, buffer, ptr + w, fill)
  {
    assert front + s[done..] == front + s[done..done + w] + s[done + w..];
  }

  /** Save the rear line at ptr; line by line, close the gap it leaves. */
  method SaveRearLine(w: nat, byLine: bool, stripe: array<Byte>, ptr: nat, fill: nat,
                      ghost s: seq<Byte>, ghost done: nat, ghost front: seq<Byte>, ghost back: seq<Byte>)
    returns (next: nat, x: seq<Byte>)
    requires Split(byLine, s, done, front, back, stripe[..], ptr, fill) && done + w <= |s| && w <= fill
    modifies stripe
    ensures x == s[done..done + w]
    ensures Split(byLine, s, done + w, front, back + x, stripe[..], next, fill - w)
  {
    ghost var buffer := stripe[..];
    SplitHere(byLine, s, done, front, back, buffer, ptr, fill, w);
    SplitBack(byLine, s, done, front, back, buffer, ptr, fill, w);
    x := stripe[..][ptr..ptr + w];
    next := if byLine then ptr else ptr + w;
    CloseGap(byLine, stripe, ptr, w, fill);
  }

  method CloseGap(byLine: bool, stripe: array<Byte>, ptr: nat, w: nat, fill: nat)
    requires byLine ==> ptr + w <= fill <= stripe.Length
    modifies stripe
    ensures stripe[..] == if byLine then Moved(old(stripe[..]), ptr, ptr + w, fill - ptr - w) else old(stripe[..])
  {
    if byLine {
      MoveDown(stripe, ptr, ptr + w, fill - ptr - w);
    }
  }

  /** As Split, and the lines were split by side. */
  ghost predicate Deinterlaced(w: nat, side: nat -> bool, byLine: bool, a: nat, s: seq<Byte>, done: nat, front: seq<Byte>,
                               saved: seq<Byte>, buffer: seq<Byte>, ptr: nat, fill: nat)
    requires w > 0
  {
    && Split(byLine, s, done, front, saved, buffer, ptr, fill)
    && front == Keep(w, side, a, s[..done], false) && saved == Keep(w, side, a, s[..done], true)
  }

  /** Treat line i of the buffer: a rear line is saved, a front line stays. */
  method DeinterlaceLine(w: nat, side: nat -> bool, byLine: bool, a: nat, stripe: array<Byte>, i: nat,
                         ptr0: nat, fill0: nat, saved0: seq<Byte>, ghost s: seq<Byte>, ghost done: nat, ghost front0: seq<Byte>)
    returns (ptr: nat, fill: nat, saved: seq<Byte>, ghost front: seq<Byte>)
    requires w > 0 && done == i * w && done + w <= |s|
    requires Deinterlaced(w, side, byLine, a, s, done, front0, saved0, stripe[..], ptr0, fill0)
    modifies stripe
    ensures Deinterlaced(w, side, byLine, a, s, done + w, front, saved, stripe[..], ptr, fill)
  {
    KeepNext(w, side, a, s, i, done);
    if side(a + i) {
      var x;
      ptr, x := SaveRearLine(w, byLine, stripe, ptr0, fill0, s, done, front0, saved0);
      fill, saved, front := fill0 - w, saved0 + x, front0;
    } else {
      SplitFront(byLine, s, done, front0, saved0, stripe[..], ptr0, fill0, w);
      ptr, fill, saved, front := ptr0 + w, fill0, saved0, front0 + s[done..done + w];
    }
  }

  lemma DeinterlacedStart(w: nat, side: nat -> bool, byLine: bool, a: nat, s: seq<Byte>, buffer: seq<Byte>)
    requires w > 0 && s <= buffer
    ensures Deinterlaced(w, side, byLine, a, s, 0, [], [], buffer, 0, |s|)
  {
    assert s[..0] == [] && s[0..] == s;
  }

  lemma NextLine(size: nat, w: nat, n: nat, i: nat)
    requires w > 0 && n == Lines(size, w) && i < n
    ensures i * w + w <= size && (i + 1) * w == i * w + w
  {
    LineFits(size, w, i);
    MulSucc(i, w);
  }

  /** Split the whole lines of the buffer one after the other. */
  method SplitLines(w: nat, side: nat -> bool, byLine: bool, a: nat, stripe: array<Byte>, n: nat, fill0: nat)
    returns (fill: nat, saved: seq<Byte>, ghost ptr: nat, ghost front: seq<Byte>)
    requires w > 0 && fill0 <= stripe.Length && n == Lines(fill0, w)
    modifies stripe
    ensures Deinterlaced(w, side, byLine, a, old(stripe[..fill0]), n * w, front, saved, stripe[..], ptr, fill)
  {
    ghost var s := stripe[..fill0];
    fill, saved, front := fill0, [], [];
    var at: nat := 0;
    DeinterlacedStart(w, side, byLine, a, s, stripe[..]);
    ghost var done: nat := 0;
    for i := 0 to n
      invariant done == i * w && Deinterlaced(w, side, byLine, a, s, done, front, saved, stripe[..], at, fill)
    {
      NextLine(|s|, w, n, i);
      at, fill, saved, front := DeinterlaceLine(w, side, byLine, a, stripe, i, at, fill, saved, s, done, front);
      done := done + w;
    }
    ptr := at;
  }

  /** Deinterlace the buffer: rear lines are saved, the front lines stay at its start. */
  method DeinterlaceBuffer(w: nat, side: nat -> bool, byLine: bool, a: nat, stripe: array<Byte>, fill0: nat)
    returns (fill: nat, saved: seq<Byte>)
    requires w > 0 && fill0 <= stripe.Length
    requires !byLine ==> FrontsFirst(side, a, Lines(fill0, w))
    modifies stripe
    ensures saved == Keep(w, side, a, old(stripe[..fill0]), true)
    ensures fill <= fill0 && (fill0 % w == 0 ==> fill % w == 0)
    ensures stripe[..WholeBytes(fill, w)] == Keep(w, side, a, old(stripe[..fill0]), false)
  {
    ghost var s := stripe[..fill0];
    ghost var ptr, front;
    fill, saved, ptr, front := SplitLines(w, side, byLine, a, stripe, Lines(fill0, w), fill0);
    assert |s| == fill0 && Lines(fill0, w) * w <= |s|;
    SplitDone(w, side, a, s, byLine, stripe[..], ptr, fill, Lines(fill0, w), front, saved);
  }

  lemma KeepNext(w: nat, side: nat -> bool, a: nat, s: seq<Byte>, i: nat, done: nat)
    requires w > 0 && done == i * w && done + w <= |s|
    ensures forall rear :: (Keep(w, side, a, s[..done + w], rear)
         == Keep(w, side, a, s[..done], rear) + if side(a + i) == rear then s[done..done + w] else [])
  {
    assert s[..done + w] == s[..done] + s[done..done + w];
    forall rear {
      KeepOne(w, side, a, s[..done], i, s[done..done + w], rear);
    }
  }

  lemma KeepTail(w: nat, side: nat -> bool, a: nat, s: seq<Byte>, n: nat)
    requires w > 0 && n == Lines(|s|, w)
    ensures n * w <= |s|
    ensures forall rear :: Keep(w, side, a, s[..n * w], rear) == Keep(w, side, a, s, rear)
  {
    assert n * w == WholeBytes(|s|, w);
    assert s == s[..n * w] + s[n * w..];
    forall rear {
      KeepAppend(w, side, a, s[..n * w], n, s[n * w..], rear);
    }
  }

  lemma SplitDone(w: nat, side: nat -> bool, a: nat, s: seq<Byte>, byLine: bool, buffer: seq<Byte>,
                  ptr: nat, fill: nat, n: nat, front: seq<Byte>, back: seq<Byte>)
    requires w > 0 && n == Lines(|s|, w) && n * w <= |s|
    requires Deinterlaced(w, side, byLine, a, s, n * w, front, back, buffer, ptr, fill)
    requires !byLine ==> FrontsFirst(side, a, n)
    ensures back == Keep(w, side, a, s, true) && fill <= |buffer| && (|s| % w == 0 ==> fill % w == 0)
    ensures buffer[..WholeBytes(fill, w)] == Keep(w, side, a, s, false)
  {
    assert n * w == WholeBytes(|s|, w);
    KeepTail(w, side, a, s, n);
    KeepLength(w, side, a, s, n);
    if byLine {
      SliceSlice(buffer, fill, 0, |front|);
    } else {
      KeepPrefix(w, side, a, s, n);
      SliceSlice(buffer, |s|, 0, |front|);
    }
    WholePlus(|front|, |s| - n * w, w);
  }

  // ---------------------------------------------------------------- packing

  method CopyOut(stripe: array<Byte>, out: array<Byte>, base: nat, n: nat)
    requires n <= stripe.Length && base + n <= out.Length && stripe != out
    modifies out
    ensures out[..base] == old(out[..base])
    ensures forall k :: 0 <= k < n ==> out[base + k] == stripe[k]
  {
    forall k | 0 <= k < n {
      out[base + k] := stripe[k];
    }
  }

  method PutThree(out: array<Byte>, at: nat, x: Byte, y: Byte, z: Byte)
    requires at + 2 < out.Length
    modifies out
    ensures out[at] == x && out[at + 1] == y && out[at + 2] == z
    ensures forall k :: 0 <= k < out.Length && !(at <= k <= at + 2) ==> out[k] == old(out[k])
  {
    out[at] := x;
    out[at + 1] := y;
    out[at + 2] := z;
  }

  /** Gather red, green and blue from three places of the buffer, c bytes apart. */
  method ColorPackOut(c: nat, size: nat, stripe: array<Byte>, out: array<Byte>, base: nat, useful: nat)
    requires size % 3 == 0 && useful <= size
    requires stripe.Length == size + 2 * c && out.Length == base + size && stripe != out
    modifies out
    ensures out[..base] == old(out[..base])
    ensures forall k :: 0 <= k < useful ==> out[base + k] == stripe[k + Channel(k, c)]
  {
    var i, r, g, b := 0, 0, c + 1, 2 * c + 2;
    while i < useful
      invariant i % 3 == 0 && i <= size && r == i && g == i + c + 1 && b == i + 2 * c + 2
      invariant out[..base] == old(out[..base])
      invariant Gathered(c, stripe[..], out[..], base, i)
    {
      ghost var before := out[..];
      PutThree(out, base + i, stripe[r], stripe[g], stripe[b]);
      GatheredNext(c, stripe[..], before, out[..], base, i);
      assert out[..base] == before[..base];
      i, r, g, b := i + 3, r + 3, g + 3, b + 3;
    }
  }

  /** The first n bytes behind base were gathered from the three places. */
  ghost predicate Gathered(c: nat, stripe: seq<Byte>, out: seq<Byte>, base: nat, n: nat) {
    && base + n <= |out| && n + 2 * c <= |stripe|
    && forall k :: 0 <= k < n ==> out[base + k] == stripe[k + Channel(k, c)]
  }

  lemma GatheredNext(c: nat, stripe: seq<Byte>, before: seq<Byte>, out: seq<Byte>, base: nat, n: nat)
    requires n % 3 == 0 && Gathered(c, stripe, before, base, n) && base + n + 3 <= |out| == |before|
    requires n + 3 + 2 * c <= |stripe|
    requires out[base + n] == stripe[n] && out[base + n + 1] == stripe[n + c + 1] && out[base + n + 2] == stripe[n + 2 * c + 2]
    requires forall k :: 0 <= k < |out| && !(base + n <= k <= base + n + 2) ==> out[k] == before[k]
    ensures Gathered(c, stripe, out, base, n + 3)
  {
    ThreeChannels(n, c);
    forall k | 0 <= k < n + 3
      ensures out[base + k] == stripe[k + Channel(k, c)]
    {
      if k < n {
        assert out[base + k] == before[base + k];
      }
    }
  }

  lemma ThreeChannels(n: nat, c: nat)
    requires n % 3 == 0
    ensures Channel(n, c) == 0 && Channel(n + 1, c) == c && Channel(n + 2, c) == 2 * c
  {
  }

  /** One line of separate colour planes becomes a line of pixels. */
  method LinePackLine(px: nat, stripe: array<Byte>, from: nat, out: array<Byte>, at: nat)
    requires from + 3 * px <= stripe.Length && at + 3 * px <= out.Length && stripe != out
    modifies out
    ensures out[..at] == old(out[..at])
    ensures forall j :: 0 <= j < 3 * px ==> out[at + j] == stripe[from + Channel(j, px) + j / 3]
  {
    for p := 0 to px
      invariant out[..at] == old(out[..at])
      invariant forall j :: 0 <= j < 3 * p ==> out[at + j] == stripe[from + Channel(j, px) + j / 3]
    {
      var i := at + 3 * p;
      out[i] := stripe[from + p];
      out[i + 1] := stripe[from + px + p];
      out[i + 2] := stripe[from + 2 * px + p];
    }
  }

  lemma Regroup3(l: int, px: int)
    ensures l * (3 * px) == (l * px) * 3
  {
  }

  lemma PlaneSrcAt(w: nat, px: nat, l: nat, j: nat)
    requires w == 3 * px && j < w
    ensures PlaneSrc(w, px, l * w + j) == l * w + Channel(j, px) + j / 3
  {
    DivUnique(l * w + j, w, l, j);
    Regroup3(l, px);
    DivAddMultiple(l * px, j, 3);
  }

  /** The first n bytes behind base are pixels gathered from the planes. */
  ghost predicate PlanesPacked(w: nat, px: nat, stripe: seq<Byte>, out: seq<Byte>, base: nat, n: nat)
    requires w > 0
  {
    && base + n <= |out|
    && forall k :: 0 <= k < n ==> PlaneSrc(w, px, k) < |stripe| && out[base + k] == stripe[PlaneSrc(w, px, k)]
  }

  lemma PlanesNext(w: nat, px: nat, stripe: seq<Byte>, before: seq<Byte>, out: seq<Byte>, base: nat, l: nat, done: nat)
    requires w == 3 * px > 0 && done == l * w && done + w <= |stripe| && base + done + w <= |out| == |before|
    requires PlanesPacked(w, px, stripe, before, base, done) && out[..base + done] == before[..base + done]
    requires forall j :: 0 <= j < w ==> out[base + done + j] == stripe[done + Channel(j, px) + j / 3]
    ensures PlanesPacked(w, px, stripe, out, base, done + w)
  {
    forall k | 0 <= k < done + w
      ensures PlaneSrc(w, px, k) < |stripe| && out[base + k] == stripe[PlaneSrc(w, px, k)]
    {
      if k < done {
        assert out[..base + done][base + k] == before[..base + done][base + k];
      } else {
        PlaneByteAt(w, px, stripe, out, base, l, done, k - done);
      }
    }
  }

  lemma PlaneByteAt(w: nat, px: nat, stripe: seq<Byte>, out: seq<Byte>, base: nat, l: nat, done: nat, j: nat)
    requires w == 3 * px > 0 && done == l * w && done + w <= |stripe| && base + done + w <= |out| && j < w
    requires out[base + done + j] == stripe[done + Channel(j, px) + j / 3]
    ensures PlaneSrc(w, px, done + j) < |stripe| && out[base + (done + j)] == stripe[PlaneSrc(w, px, done + j)]
  {
    PlaneSrcAt(w, px, l, j);
  }

  /** Pack line l behind those that are packed already. */
  method LinePackNext(w: nat, px: nat, stripe: array<Byte>, out: array<Byte>, base: nat, l: nat, done: nat)
    requires w == 3 * px > 0 && done == l * w && done + w <= stripe.Length && base + done + w <= out.Length && stripe != out
    requires PlanesPacked(w, px, stripe[..], out[..], base, done)
    modifies out
    ensures out[..base] == old(out[..base]) && PlanesPacked(w, px, stripe[..], out[..], base, done + w)
  {
    ghost var before := out[..];
    LinePackLine(px, stripe, done, out, base + done);
    assert out[..base + done] == before[..base + done];
    assert out[..base] == before[..base + done][..base];
    PlanesNext(w, px, stripe[..], before, out[..], base, l, done);
  }

  method LinePackOut(w: nat, px: nat, stripe: array<Byte>, out: array<Byte>, base: nat, useful: nat)
    requires w == 3 * px > 0 && useful <= stripe.Length && base + useful <= out.Length && stripe != out
    modifies out
    ensures out[..base] == old(out[..base])
    ensures PlanesPacked(w, px, stripe[..], out[..], base, WholeBytes(useful, w))
  {
    var lines, done := Lines(useful, w), 0;
    for l := 0 to lines
      invariant done == l * w <= useful
      invariant out[..base] == old(out[..base])
      invariant PlanesPacked(w, px, stripe[..], out[..], base, done)
    {
      NextLine(useful, w, lines, l);
      LinePackNext(w, px, stripe, out, base, l, done);
      done := done + w;
    }
    assert done == WholeBytes(useful, w);
  }

  /** Pack the useful part of the buffer into out_data. */
  method PackBuffer(job: Job, stripe: array<Byte>, fill: nat, out: array<Byte>, base: nat, useful: nat)
    requires job.Valid() && useful + job.Carry() == fill <= stripe.Length
    requires stripe.Length == job.StripeSize() && out.Length == base + job.OutSize() && stripe != out
    modifies out
    ensures out[..base] == old(out[..base])
    ensures CanPack(job, fill, WholeBytes(useful, job.bpl))
    ensures out[base..base + WholeBytes(useful, job.bpl)] == Packed(job, stripe[..fill], WholeBytes(useful, job.bpl))
  {
    match job.packing
    case Copy => CopyOut(stripe, out, base, useful);
    case ColorPack =>
      SizeOfLines(job);
      ColorPackOut(job.ColorOffset(), job.OutSize(), stripe, out, base, useful);
    case LinePack =>
      LinePackOut(job.bpl, job.hwPixels, stripe, out, base, useful);
      TakenFromPlanes(job, stripe[..], out[..], base, WholeBytes(useful, job.bpl));
    PackedFrom(job, stripe[..], fill, out[..], base, useful);
  }

  lemma SizeOfLines(job: Job)
    requires job.Valid() && job.channels == 3
    ensures job.OutSize() % 3 == 0
  {
    assert job.OutSize() == 3 * (job.stripeLines * job.hwPixels);
  }

  /** The n bytes behind base are the bytes of the buffer that packing takes them from. */
  ghost predicate TakenFrom(job: Job, stripe: seq<Byte>, out: seq<Byte>, base: nat, n: nat)
    requires job.Valid()
  {
    base + n <= |out| && forall k :: 0 <= k < n ==> Src(job, k) < |stripe| && out[base + k] == stripe[Src(job, k)]
  }

  lemma TakenFromPlanes(job: Job, stripe: seq<Byte>, out: seq<Byte>, base: nat, n: nat)
    requires job.Valid() && job.packing == LinePack && PlanesPacked(job.bpl, job.hwPixels, stripe, out, base, n)
    ensures TakenFrom(job, stripe, out, base, n)
  {
  }

  lemma PackedFrom(job: Job, stripe: seq<Byte>, fill: nat, out: seq<Byte>, base: nat, useful: nat)
    requires job.Valid() && useful + job.Carry() == fill <= |stripe| && base + useful <= |out|
    requires TakenFrom(job, stripe, out, base, WholeBytes(useful, job.bpl))
    ensures CanPack(job, fill, WholeBytes(useful, job.bpl))
    ensures out[base..base + WholeBytes(useful, job.bpl)] == Packed(job, stripe[..fill], WholeBytes(useful, job.bpl))
  {
    var n := WholeBytes(useful, job.bpl);
    forall k | 0 <= k < n
      ensures out[base..base + n][k] == Packed(job, stripe[..fill], n)[k]
    {
      SrcInside(job, fill, n, k);
    }
  }

  // ---------------------------------------------------------------- writing unscaled lines

  /** Write the lines of out_data that are not cropped away. */
  method EmitUnscaled(job: Job, out: array<Byte>, lines: nat, hwLine: nat, line0: nat, ghost image: seq<Byte>)
    returns (written: seq<Byte>, line: nat)
    requires lines * job.bpl <= out.Length && |image| == hwLine * job.bpl
    ensures line0 <= line && |written| == (line - line0) * job.bpl
    ensures Crop(job, image + out[..lines * job.bpl]) == Crop(job, image) + written
  {
    written, line := [], line0;
    var src: nat := 0;
    assert image + out[..0] == image;
    for l := 0 to lines
      invariant src == l * job.bpl
      invariant src <= out.Length
      invariant line0 <= line && |written| == (line - line0) * job.bpl
      invariant Crop(job, image + out[..src]) == Crop(job, image) + written
    {
      MulStrict(l, lines, job.bpl);
      MulSucc(l, job.bpl);
      MulSucc(line - line0, job.bpl);
      EmitStep(job, image, hwLine, l, out[..], src);
      if !Cropped(job, hwLine + l) {
        written := written + out[src..src + job.bpl];
        line := line + 1;
      }
      src := src + job.bpl;
    }
  }

  lemma EmitStep(job: Job, image: seq<Byte>, hwLine: nat, l: nat, out: seq<Byte>, src: nat)
    requires |image| == hwLine * job.bpl && src == l * job.bpl && src + job.bpl <= |out|
    ensures Crop(job, image + out[..src + job.bpl])
         == Crop(job, image + out[..src]) + if Cropped(job, hwLine + l) then [] else out[src..src + job.bpl]
  {
    assert image + out[..src + job.bpl] == image + out[..src] + out[src..src + job.bpl];
    MulAdd(hwLine, l, job.bpl);
    CropLine(job, image + out[..src], hwLine + l, out[src..src + job.bpl]);
  }

  // ---------------------------------------------------------------- writing scaled lines

  lemma BlendLineAt(job: Job, top: seq<Byte>, bottom: seq<Byte>, yd: nat, x: nat, c: nat)
    requires Scalable(job) && |top| == |bottom| == job.bpl && yd < 256 && x < job.outPixels && c < job.channels
    ensures Offset(job, x, c) < job.ScaledBpl()
    ensures var sx := Coord(job.hwPixels, job.outPixels, x);
      && 0 <= sx && Offset(job, sx, c) < job.bpl && Offset(job, sx + 1, c) < job.bpl
      && BlendLine(job, top, bottom, yd)[Offset(job, x, c)]
         == Blend(top[Offset(job, sx, c)], top[Offset(job, sx + 1, c)],
                  bottom[Offset(job, sx, c)], bottom[Offset(job, sx + 1, c)],
                  Dist(job.hwPixels, job.outPixels, x), yd)
  {
    CoordInside(job.hwPixels, job.outPixels, x);
    assert PixelOf(job, Offset(job, x, c)) == x && ChannelOf(job, Offset(job, x, c)) == c;
  }

  /** The blend of the four samples that pixel x, channel c takes from the lines at top and bottom of a buffer. */
  function BlendAt(job: Job, s: seq<Byte>, top: nat, bottom: nat, yd: nat, x: nat, c: nat): Byte
    requires Scalable(job) && yd < 256 && x < job.outPixels && c < job.channels
    requires top + job.bpl <= |s| && bottom + job.bpl <= |s|
  {
    CoordInside(job.hwPixels, job.outPixels, x);
    var sx := Coord(job.hwPixels, job.outPixels, x);
    var o, o' := Offset(job, sx, c), Offset(job, sx + 1, c);
    Blend(s[top + o], s[top + o'], s[bottom + o], s[bottom + o'], Dist(job.hwPixels, job.outPixels, x), yd)
  }

  /** It is the sample of the blended line. */
  lemma BlendRowsAt(job: Job, s: seq<Byte>, top: nat, bottom: nat, yd: nat, x: nat, c: nat)
    requires Scalable(job) && yd < 256 && x < job.outPixels && c < job.channels
    requires top + job.bpl <= |s| && bottom + job.bpl <= |s|
    ensures Offset(job, x, c) < job.ScaledBpl()
    ensures BlendLine(job, s[top..top + job.bpl], s[bottom..bottom + job.bpl], yd)[Offset(job, x, c)]
         == BlendAt(job, s, top, bottom, yd, x, c)
  {
    BlendLineAt(job, s[top..top + job.bpl], s[bottom..bottom + job.bpl], yd, x, c);
  }

  /** Interpolate one sample. */
  method InterpolateSample(job: Job, out: array<Byte>, top: nat, bottom: nat, yd: nat, x: nat, c: nat) returns (v: Byte)
    requires Scalable(job) && yd < 256 && x < job.outPixels && c < job.channels
    requires top + job.bpl <= out.Length && bottom + job.bpl <= out.Length
    ensures v == BlendAt(job, out[..], top, bottom, yd, x, c)
  {
    CoordInside(job.hwPixels, job.outPixels, x);
    var sx, xd := Coord(job.hwPixels, job.outPixels, x), Dist(job.hwPixels, job.outPixels, x);
    var o, o' := Offset(job, sx, c), Offset(job, sx + 1, c);
    v := Blend(out[top + o], out[top + o'], out[bottom + o], out[bottom + o'], xd, yd);
  }

  /** Byte Offset(x, c) of a row is the blend that belongs there. */
  ghost predicate SampleIs(job: Job, s: seq<Byte>, top: nat, bottom: nat, yd: nat, row: seq<Byte>, x: nat, c: nat)
    requires Scalable(job) && yd < 256 && x < job.outPixels && c < job.channels
    requires top + job.bpl <= |s| && bottom + job.bpl <= |s|
  {
    Offset(job, x, c) < |row| && row[Offset(job, x, c)] == BlendAt(job, s, top, bottom, yd, x, c)
  }

  /** Interpolate one output line into ip from the source lines at offsets top and bottom. */
  method InterpolateLine(job: Job, out: array<Byte>, top: nat, bottom: nat, yd: nat, ip: array<Byte>)
    requires Scalable(job) && yd < 256 && ip.Length == job.ScaledBpl() && ip != out
    requires top + job.bpl <= out.Length && bottom + job.bpl <= out.Length
    modifies ip
    ensures ip[..] == BlendLine(job, out[..][top..top + job.bpl], out[..][bottom..bottom + job.bpl], yd)
  {
    ghost var row := BlendLine(job, out[..][top..top + job.bpl], out[..][bottom..bottom + job.bpl], yd);
    forall x: nat, c: nat | x < job.outPixels && c < job.channels
      ensures SampleIs(job, out[..], top, bottom, yd, row, x, c)
    {
      BlendRowsAt(job, out[..], top, bottom, yd, x, c);
    }
    PutRow(job, out, top, bottom, yd, ip, row);
  }

  method PutRow(job: Job, out: array<Byte>, top: nat, bottom: nat, yd: nat, ip: array<Byte>, ghost row: seq<Byte>)
    requires Scalable(job) && yd < 256 && ip.Length == job.ScaledBpl() == |row| && ip != out
    requires top + job.bpl <= out.Length && bottom + job.bpl <= out.Length
    requires forall x: nat, c: nat :: x < job.outPixels && c < job.channels ==> SampleIs(job, out[..], top, bottom, yd, row, x, c)
    modifies ip
    ensures ip[..] == row
  {
    for x := 0 to job.outPixels
      invariant forall k :: 0 <= k < Offset(job, x, 0) ==> ip[k] == row[k]
    {
      PutPixel(job, out, top, bottom, yd, ip, row, x);
    }
  }

  method PutPixel(job: Job, out: array<Byte>, top: nat, bottom: nat, yd: nat, ip: array<Byte>, ghost row: seq<Byte>, x: nat)
    requires Scalable(job) && yd < 256 && ip.Length == job.ScaledBpl() == |row| && ip != out && x < job.outPixels
    requires top + job.bpl <= out.Length && bottom + job.bpl <= out.Length
    requires forall c: nat :: c < job.channels ==> SampleIs(job, out[..], top, bottom, yd, row, x, c)
    requires forall k :: 0 <= k < Offset(job, x, 0) ==> ip[k] == row[k]
    modifies ip
    ensures forall k :: 0 <= k < Offset(job, x + 1, 0) ==> ip[k] == row[k]
  {
    OffsetSteps(job, x, job.channels);
    for c := 0 to job.channels
      invariant forall k :: 0 <= k < Offset(job, x, 0) + c ==> ip[k] == row[k]
    {
      assert SampleIs(job, out[..], top, bottom, yd, row, x, c);
      PutSample(job, out, top, bottom, yd, ip, row, x, c);
    }
  }

  lemma OffsetSteps(job: Job, x: nat, c: nat)
    requires Scalable(job) && c <= job.channels
    ensures Offset(job, x, 0) + c == if c == job.channels then Offset(job, x + 1, 0) else Offset(job, x, c)
  {
  }

  method PutSample(job: Job, out: array<Byte>, top: nat, bottom: nat, yd: nat, ip: array<Byte>, ghost row: seq<Byte>, x: nat, c: nat)
    requires Scalable(job) && yd < 256 && ip.Length == |row| && ip != out && x < job.outPixels && c < job.channels
    requires top + job.bpl <= out.Length && bottom + job.bpl <= out.Length
    requires SampleIs(job, out[..], top, bottom, yd, row, x, c)
    requires forall k :: 0 <= k < Offset(job, x, 0) + c ==> ip[k] == row[k]
    modifies ip
    ensures forall k :: 0 <= k < Offset(job, x, 0) + c + 1 ==> ip[k] == row[k]
  {
    OffsetSteps(job, x, c);
    var v := InterpolateSample(job, out, top, bottom, yd, x, c);
    ip[Offset(job, x, c)] := v;
  }

  /** out holds the history line and then n new lines; image ends with them. */
  ghost predicate Window(w: nat, out: seq<Byte>, image: seq<Byte>, hwLine: nat, n: nat) {
    && n * w + w <= |out| && |image| == hwLine * w + n * w
    && out[w..w + n * w] == image[hwLine * w..]
    && (hwLine > 0 ==> w <= hwLine * w && out[..w] == image[hwLine * w - w..hwLine * w])
  }

  /** The same in bytes: h bytes of the image come before the n lines, p bytes long. */
  lemma WindowSlice(w: nat, out: seq<Byte>, image: seq<Byte>, h: nat, p: nat, at: nat, from: nat)
    requires p + w <= |out| && |image| == h + p && out[w..w + p] == image[h..]
    requires at >= h || (at + w == h && out[..w] == image[h - w..h])
    requires at + w <= h + p && from == at + w - h
    ensures out[from..from + w] == image[at..at + w]
  {
    if at >= h {
      var i := at - h;
      SliceOfSlice(out, w, w + p, i, i + w);
      SliceOfSlice(image, h, |image|, i, i + w);
      assert image[h..|image|] == out[w..w + p];
    }
  }

  /** Source line l is found in the window, one line later than in the stripe. */
  lemma WindowLine(w: nat, out: seq<Byte>, image: seq<Byte>, hwLine: nat, n: nat, l: nat)
    requires Window(w, out, image, hwLine, n) && hwLine <= l + 1 && l < hwLine + n
    ensures l * w + w <= |image| && (l + 1 - hwLine) * w + w <= |out|
    ensures LineOf(out, w, l + 1 - hwLine) == LineOf(image, w, l)
  {
    LinePlace(w, hwLine, n, l);
    WindowSlice(w, out, image, hwLine * w, n * w, l * w, (l + 1 - hwLine) * w);
  }

  lemma LinePlace(w: nat, hwLine: nat, n: nat, l: nat)
    requires hwLine <= l + 1 && l < hwLine + n
    ensures if l + 1 == hwLine then l * w + w == hwLine * w else hwLine * w <= l * w
    ensures l * w + w <= hwLine * w + n * w
    ensures (l + 1 - hwLine) * w == l * w + w - hwLine * w
  {
    MulSub(l + 1, hwLine, w);
    MulSucc(l, w);
    MulAdd(hwLine, n, w);
    MulStrict(l, hwLine + n, w);
    if hwLine <= l {
      MulMono(hwLine, l, w);
    }
  }

  lemma WindowPair(w: nat, out: seq<Byte>, image: seq<Byte>, hwLine: nat, n: nat, l: nat)
    requires Window(w, out, image, hwLine, n) && hwLine <= l + 1 && l + 1 < hwLine + n
    ensures l * w + w <= |image| && (l + 1) * w + w <= |image|
    ensures (l + 1 - hwLine) * w + w <= |out| && (l + 1 - hwLine + 1) * w + w <= |out|
    ensures LineOf(out, w, l + 1 - hwLine) == LineOf(image, w, l)
    ensures LineOf(out, w, l + 1 - hwLine + 1) == LineOf(image, w, l + 1)
  {
    WindowLine(w, out, image, hwLine, n, l);
    WindowLine(w, out, image, hwLine, n, l + 1);
  }

  lemma WindowCount(w: nat, size: nat, hwLine: nat, n: nat)
    requires w > 0 && size == hwLine * w + n * w
    ensures Lines(size, w) == hwLine + n
  {
    MulAdd(hwLine, n, w);
    LinesOf(hwLine + n, 0, w);
  }

  lemma WindowRows(w: nat, out: seq<Byte>, image: seq<Byte>, hwLine: nat, n: nat, l: nat, at: nat)
    requires Window(w, out, image, hwLine, n) && hwLine <= l + 1 && l + 1 < hwLine + n
    requires at == (l + 1 - hwLine) * w
    ensures l * w + w <= |image| && (l + 1) * w + w <= |image| && at + w + w <= |out|
    ensures out[at..at + w] == LineOf(image, w, l) && out[at + w..at + w + w] == LineOf(image, w, l + 1)
  {
    WindowPair(w, out, image, hwLine, n, l);
    MulSucc(l + 1 - hwLine, w);
  }

  /** One more line, read from the window instead of the whole image. */
  lemma WindowScaled(job: Job, out: seq<Byte>, image: seq<Byte>, hwLine: nat, n: nat, line: nat, at: nat)
    requires Scalable(job) && Window(job.bpl, out, image, hwLine, n)
    requires line < ScaledCount(job, hwLine + n) && hwLine <= SrcLine(job, line) + job.Skip() + 1
    requires at == (SrcLine(job, line) + job.Skip() + 1 - hwLine) * job.bpl
    ensures Lines(|image|, job.bpl) == hwLine + n && Avail(job, line, hwLine + n) && at + job.bpl + job.bpl <= |out|
    ensures ScaledLine(job, image, line)
         == BlendLine(job, out[at..at + job.bpl], out[at + job.bpl..at + job.bpl + job.bpl], YDist(job, line))
  {
    var l := SrcLine(job, line) + job.Skip();
    WindowAvail(job, |image|, hwLine, n, line, l);
    WindowRows(job.bpl, out, image, hwLine, n, l, at);
    ScaledLineFrom(job, image, line, l, out[at..at + job.bpl], out[at + job.bpl..at + job.bpl + job.bpl]);
  }

  lemma WindowAvail(job: Job, size: nat, hwLine: nat, n: nat, line: nat, l: nat)
    requires Scalable(job) && size == hwLine * job.bpl + n * job.bpl
    requires line < ScaledCount(job, hwLine + n) && l == SrcLine(job, line) + job.Skip()
    ensures Lines(size, job.bpl) == hwLine + n && Avail(job, line, hwLine + n) && l + 1 < hwLine + n
  {
    WindowCount(job.bpl, size, hwLine, n);
    AvailCount(job, line, hwLine + n);
  }

  /** The next line is not before the history line. */
  lemma HistorySuffices(job: Job, hwLine: nat, line: nat)
    requires Scalable(job) && ScaledCount(job, hwLine) <= line
    requires job.FrontPass() ==> SrcLine(job, line) + 1 < job.hwLines
    ensures hwLine <= SrcLine(job, line) + job.Skip() + 1
  {
    AvailCount(job, line, hwLine);
  }

  /** Interpolate output line `line` from the window lines top and top + 1. */
  method InterpolateFrom(job: Job, out: array<Byte>, top: nat, n: nat, hwLine: nat, line: nat, ip: array<Byte>, ghost image: seq<Byte>)
    requires Scalable(job) && ip.Length == job.ScaledBpl() && ip != out
    requires Window(job.bpl, out[..], image, hwLine, n)
    requires line < ScaledCount(job, hwLine + n) && top == SrcLine(job, line) + job.Skip() + 1 - hwLine
    modifies ip
    ensures Lines(|image|, job.bpl) == hwLine + n && Avail(job, line, hwLine + n)
    ensures ip[..] == ScaledLine(job, image, line)
  {
    NonNegative(top, job.bpl);
    var at := top * job.bpl;
    WindowScaled(job, out[..], image, hwLine, n, line, at);
    InterpolateLine(job, out, at, at + job.bpl, YDist(job, line), ip);
  }

  lemma ScaledStep(job: Job, image: seq<Byte>, line: nat, start: seq<Byte>, written: seq<Byte>)
    requires Scalable(job) && Avail(job, line, Lines(|image|, job.bpl))
    requires line > 0 ==> Avail(job, line - 1, Lines(|image|, job.bpl))
    requires ScaledLines(job, image, line) == start + written
    ensures ScaledLines(job, image, line + 1) == start + (written + ScaledLine(job, image, line))
  {
    var x := ScaledLine(job, image, line);
    assert ScaledLines(job, image, line + 1) == ScaledLines(job, image, line) + x;
    assert (start + written) + x == start + (written + x);
  }

  /** Interpolate the next line of the scaled page. */
  method EmitLine(job: Job, out: array<Byte>, top: nat, n: nat, hwLine: nat, line: nat, ip: array<Byte>,
                  ghost image: seq<Byte>, ghost start: seq<Byte>, ghost written: seq<Byte>)
    requires Scalable(job) && ip.Length == job.ScaledBpl() && ip != out
    requires Window(job.bpl, out[..], image, hwLine, n)
    requires line < ScaledCount(job, hwLine + n) && top == SrcLine(job, line) + job.Skip() + 1 - hwLine
    requires line > 0 ==> Avail(job, line - 1, Lines(|image|, job.bpl))
    requires ScaledLines(job, image, line) == start + written
    modifies ip
    ensures Avail(job, line, Lines(|image|, job.bpl))
    ensures ScaledLines(job, image, line + 1) == start + (written + ip[..])
  {
    InterpolateFrom(job, out, top, n, hwLine, line, ip, image);
    ScaledStep(job, image, line, start, written);
  }

  /** Write every scaled line that the window makes available. */
  method EmitScaled(job: Job, out: array<Byte>, n: nat, hwLine: nat, line0: nat, ip: array<Byte>, ghost image: seq<Byte>)
    returns (written: seq<Byte>, line: nat)
    requires Scalable(job) && ip.Length == job.ScaledBpl() && ip != out
    requires Window(job.bpl, out[..], image, hwLine, n) && line0 == ScaledCount(job, hwLine)
    modifies ip
    ensures line == ScaledCount(job, hwLine + n) >= line0
    ensures Lines(|image|, job.bpl) == hwLine + n
    ensures line > 0 ==> Avail(job, line - 1, hwLine + n)
    ensures line0 > 0 ==> Avail(job, line0 - 1, hwLine + n)
    ensures ScaledLines(job, image, line) == ScaledLines(job, image, line0) + written
  {
    WindowCount(job.bpl, |image|, hwLine, n);
    CountMono(job, hwLine, hwLine + n);
    CountedAvail(job, line0, hwLine + n);
    ghost var end, start := ScaledCount(job, hwLine + n), ScaledLines(job, image, line0);
    written, line := [], line0;
    while true
      invariant line0 <= line <= end
      invariant line > 0 ==> Avail(job, line - 1, hwLine + n)
      invariant ScaledLines(job, image, line) == start + written
      decreases end - line
    {
      AvailCount(job, line, hwLine + n);
      var sy: int, syy := SrcLine(job, line), SrcLine(job, line) + 1;
      if job.FrontPass() && syy >= job.hwLines {
        break;
      }
      sy, syy := sy + job.Skip(), syy + job.Skip();
      if sy >= hwLine + n || syy >= hwLine + n {
        break;
      }
      HistorySuffices(job, hwLine, line);
      sy, syy := sy - hwLine, syy - hwLine;
      if sy < -1 {
        assert false;   // "need more history" cannot happen
        sy := -1;
      }
      EmitLine(job, out, sy + 1, n, hwLine, line, ip, image, start, written);
      written := written + ip[..];
      line := line + 1;
    }
  }

  lemma CountMono(job: Job, have: nat, more: nat)
    requires Scalable(job) && have <= more
    ensures ScaledCount(job, have) <= ScaledCount(job, more)
  {
    var c := ScaledCount(job, have);
    if c > 0 {
      AvailCount(job, c - 1, have);
      AvailCount(job, c - 1, more);
    }
  }

  lemma CountedAvail(job: Job, n: nat, have: nat)
    requires Scalable(job) && n <= ScaledCount(job, have)
    ensures n > 0 ==> Avail(job, n - 1, have)
  {
    if n > 0 {
      AvailCount(job, n - 1, have);
    }
  }
}
