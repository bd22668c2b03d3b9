/**
 Gray16 reads of the Apple and Abaton backends: every byte from the scanner holds
 two pixels and is expanded in place into two bytes, from the back of the buffer
 to the front.
 */
module NibbleRead {
  import opened SaneBytes

  /** The Apple scanner's pixels are inverted, the Abaton's are not. */
  function High(invert: bool, b: Byte): Byte {
    if invert then 255 - b / 16 * 16 else b / 16 * 16
  }

  function Low(invert: bool, b: Byte): Byte {
    if invert then 255 - b % 16 * 16 else b % 16 * 16
  }

  /** The left pixel's upper four bits are the byte's upper half, the right pixel's the lower half; the rest is 0, or 1 when inverted. */
  lemma PixelBits(invert: bool, b: Byte)
    ensures var left, right := High(invert, b), Low(invert, b);
      if invert then
        (255 - left) % 16 == 0 && (255 - right) % 16 == 0 && (255 - left) / 16 == b / 16 && (255 - right) / 16 == b % 16
      else left % 16 == 0 && right % 16 == 0 && left / 16 == b / 16 && right / 16 == b % 16
  {
  }

  /** Pixel 2i of the expansion is the upper half of byte i, pixel 2i + 1 the lower half. */
  lemma PixelsOf(invert: bool, s: seq<Byte>, i: nat)
    requires i < |s|
    ensures var left, right := Expand(invert, s)[2 * i], Expand(invert, s)[2 * i + 1];
      if invert then left == 255 - s[i] / 16 * 16 && right == 255 - s[i] % 16 * 16
      else left == s[i] / 16 * 16 && right == s[i] % 16 * 16
  {
    ExpandAt(invert, s, i);
    PixelBits(invert, s[i]);
  }

  /** Two pixels for every byte, left one first. */
  function Expand(invert: bool, s: seq<Byte>): (r: seq<Byte>)
    ensures |r| == 2 * |s|
  {
    if s == [] then [] else [High(invert, s[0]), Low(invert, s[0])] + Expand(invert, s[1..])
  }

  lemma {:induction false} ExpandAt(invert: bool, s: seq<Byte>, i: nat)
    requires i < |s|
    ensures Expand(invert, s)[2 * i] == High(invert, s[i]) && Expand(invert, s)[2 * i + 1] == Low(invert, s[i])
  {
    if i > 0 {
      ExpandAt(invert, s[1..], i - 1);
    }
  }

  lemma {:induction false} ExpandAppend(invert: bool, s: seq<Byte>, t: seq<Byte>)
    ensures Expand(invert, s + t) == Expand(invert, s) + Expand(invert, t)
  {
    if s == [] {
      assert s + t == t;
    } else {
      var h := [High(invert, s[0]), Low(invert, s[0])];
      ExpandAppend(invert, s[1..], t);
      assert (s + t)[1..] == s[1..] + t;
      Associate(h, Expand(invert, s[1..]), Expand(invert, t));
    }
  }

  /** The packed byte two pixels come from. */
  function Repack(invert: bool, high: Byte, low: Byte): int {
    if invert then 255 - high + (255 - low) / 16 else high + low / 16
  }

  /** Nothing is lost: the packed bytes can be put together again. */
  lemma ExpandLossless(invert: bool, s: seq<Byte>, i: nat)
    requires i < |s|
    ensures Repack(invert, Expand(invert, s)[2 * i], Expand(invert, s)[2 * i + 1]) == s[i]
  {
    ExpandAt(invert, s, i);
  }

  /** Expand n bytes at `offset` in place, last byte first. */
  method ExpandInPlace(invert: bool, buf: array<Byte>, offset: nat, n: nat)
    requires offset + 2 * n <= buf.Length
    modifies buf
    ensures buf[..offset] == old(buf[..offset])
    ensures buf[offset..offset + 2 * n] == Expand(invert, old(buf[offset..offset + n]))
  {
    ghost var s := buf[offset..offset + n];
    ghost var e := Expand(invert, s);
    var byte, pos := offset + n - 1, offset + 2 * n - 1;
    while byte >= offset
      invariant offset - 1 <= byte < offset + n || n == 0
      invariant pos == offset + 2 * (byte + 1 - offset) - 1 && byte >= offset - 1
      invariant forall k :: 0 <= k < byte + 1 ==> buf[k] == old(buf[k])
      invariant forall k :: pos + 1 <= k < offset + 2 * n ==> buf[k] == e[k - offset]
    {
      ExpandAt(invert, s, byte - offset);
      ExpandByte(invert, buf, byte, pos);
      pos, byte := pos - 2, byte - 1;
    }
  }

  /** The right pixel of a byte goes to pos, the left one before it. */
  method ExpandByte(invert: bool, buf: array<Byte>, byte: nat, pos: nat)
    requires byte < pos < buf.Length
    modifies buf
    ensures buf[pos - 1] == High(invert, old(buf[byte])) && buf[pos] == Low(invert, old(buf[byte]))
    ensures forall k :: 0 <= k < buf.Length && k != pos - 1 && k != pos ==> buf[k] == old(buf[k])
  {
    var b := buf[byte];
    buf[pos] := Low(invert, b);
    buf[pos - 1] := High(invert, b);
  }

  /** How many packed bytes to ask for when `available` are waiting and the buffer is full up to offset. */
  function Request(available: nat, maxLen: nat, offset: nat): (r: nat)
    requires offset <= maxLen
    ensures offset + 2 * r <= maxLen && r <= available
    ensures 0 < available ==> (r == 0 <==> maxLen - offset < 2)
    ensures r == available || maxLen < offset + 2 * r + 2
  {
    if 2 * available + offset > maxLen then (maxLen - offset) / 2 else available
  }

  /** A buffer of odd size can never be filled: with one byte left nothing is asked for any more. */
  lemma OddBufferStalls(available: nat, maxLen: nat, offset: nat)
    requires 0 < available && offset <= maxLen && offset % 2 == 0
    ensures offset < maxLen && Request(available, maxLen, offset) == 0 <==> maxLen % 2 == 1 && offset == maxLen - 1
  {
  }

  /** A read has taken `done` of n bytes and expanded them into a buffer of maxLen bytes. */
  predicate Reached(maxLen: nat, n: nat, done: nat) { done <= n && 2 * done <= maxLen }

  /** A read ends when its buffer is full or the data is through. */
  predicate Ended(maxLen: nat, n: nat, done: nat) { 2 * done == maxLen || done == n }

  /** When the buffer is even, or the data cannot fill it. */
  predicate CanEnd(maxLen: nat, n: nat) { maxLen % 2 == 0 || 2 * n < maxLen }

  /** A read has a state in which it ends if and only if the buffer is even or the data cannot fill it. */
  lemma ReadEnds(maxLen: nat, n: nat)
    ensures (exists done: nat :: Reached(maxLen, n, done) && Ended(maxLen, n, done)) <==> CanEnd(maxLen, n)
  {
    if CanEnd(maxLen, n) {
      var done := if 2 * n < maxLen then n else maxLen / 2;
      assert Reached(maxLen, n, done) && Ended(maxLen, n, done);
    }
  }

  /**
   sane_read in Gray16 mode: short answers are fine, since only the pixels of the
   bytes that arrived are kept.  The scanner reports data as long as it has some.
   Whatever the answers are, the read ends exactly when CanEnd says so; otherwise it
   is left asking for nothing, again and again.
   */
  method ReadGray16(invert: bool, device: seq<Byte>, pos0: nat, buf: array<Byte>, maxLen: nat)
    returns (offset: nat, pos: nat, stalled: bool)
    requires pos0 <= |device| && maxLen <= buf.Length
    modifies buf
    ensures pos0 <= pos <= |device| && offset <= maxLen
    ensures buf[..offset] == Expand(invert, device[pos0..pos])
    ensures !stalled <==> CanEnd(maxLen, |device| - pos0)
    ensures !stalled ==> offset == maxLen || pos == |device|
    ensures stalled ==> offset == maxLen - 1 && pos < |device|
    ensures stalled ==> forall available: nat :: Request(available, maxLen, offset) == 0
  {
    offset, pos, stalled := 0, pos0, false;
    while offset < maxLen && pos < |device| && !stalled
      invariant pos0 <= pos <= |device| && offset == 2 * (pos - pos0) && offset <= maxLen
      invariant buf[..offset] == Expand(invert, device[pos0..pos])
      invariant stalled ==> offset == maxLen - 1 && pos < |device|
      decreases |device| - pos, !stalled
    {
      if maxLen - offset < 2 {
        stalled := true;            // Request is 0 from here on
      } else {
        var size := ReadBlock(invert, device, pos0, pos, buf, offset, maxLen);
        offset, pos := offset + 2 * size, pos + size;
      }
    }
  }

  method ReadBlock(invert: bool, device: seq<Byte>, ghost pos0: nat, pos: nat, buf: array<Byte>, offset: nat, maxLen: nat)
    returns (size: nat)
    requires pos0 <= pos < |device| && offset + 2 <= maxLen <= buf.Length
    requires buf[..offset] == Expand(invert, device[pos0..pos])
    modifies buf
    ensures 1 <= size <= |device| - pos && offset + 2 * size <= maxLen
    ensures buf[..offset + 2 * size] == Expand(invert, device[pos0..pos + size])
  {
    size := ReadAndExpand(invert, device, pos, buf, offset, maxLen);
    ExpandSlices(invert, device, pos0, pos, pos + size);
  }

  /** One round: ask for what fits, take what comes, expand all that was asked for. */
  method ReadAndExpand(invert: bool, device: seq<Byte>, pos: nat, buf: array<Byte>, offset: nat, maxLen: nat)
    returns (size: nat)
    requires pos < |device| && offset + 2 <= maxLen <= buf.Length
    modifies buf
    ensures 1 <= size <= |device| - pos && offset + 2 * size <= maxLen
    ensures buf[..offset + 2 * size] == old(buf[..offset]) + Expand(invert, device[pos..pos + size])
  {
    var available: nat :| 1 <= available <= |device| - pos;
    var rread := Request(available, maxLen, offset);
    size :| 1 <= size <= rread;
    Deliver(buf, offset, device, pos, size);
    ghost var packed := buf[offset..offset + rread];
    assert packed[..size] == device[pos..pos + size];
    ExpandInPlace(invert, buf, offset, rread);
    ShortRead(invert, packed, size);
    SplitAt(buf[..], offset, 2 * size, 2 * rread);
  }

  method Deliver(buf: array<Byte>, offset: nat, device: seq<Byte>, pos: nat, size: nat)
    requires offset + size <= buf.Length && pos + size <= |device|
    modifies buf
    ensures buf[..offset] == old(buf[..offset])
    ensures buf[offset..offset + size] == device[pos..pos + size]
  {
    forall k | offset <= k < offset + size { buf[k] := device[pos + (k - offset)]; }
    ghost var a, b := buf[offset..offset + size], device[pos..pos + size];
    forall k | 0 <= k < size
      ensures a[k] == b[k]
    {
      assert a[k] == buf[offset + k];
    }
  }

  /** The pixels of the bytes that arrived come first. */
  lemma ShortRead(invert: bool, packed: seq<Byte>, size: nat)
    requires size <= |packed|
    ensures Expand(invert, packed)[..2 * size] == Expand(invert, packed[..size])
  {
    ExpandAppend(invert, packed[..size], packed[size..]);
    assert packed == packed[..size] + packed[size..];
  }

  lemma ExpandSlices(invert: bool, s: seq<Byte>, i: nat, j: nat, k: nat)
    requires i <= j <= k <= |s|
    ensures Expand(invert, s[i..k]) == Expand(invert, s[i..j]) + Expand(invert, s[j..k])
  {
    ExpandAppend(invert, s[i..j], s[j..k]);
    assert s[i..k] == s[i..j] + s[j..k];
  }

  lemma SplitAt(s: seq<Byte>, offset: nat, m: nat, n: nat)
    requires m <= n && offset + n <= |s|
    ensures s[..offset + m] == s[..offset] + s[offset..offset + n][..m]
  {
    assert s[offset..offset + n][..m] == s[offset..offset + m];
    assert s[..offset + m] == s[..offset] + s[offset..offset + m];
  }
}
