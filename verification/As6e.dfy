/**
 Reading from the AS6E driver.  The driver announces blocks on a control pipe and
 sends their bytes on a data pipe, then announces -1.  What does not fit into the
 frontend's buffer waits in a carryover buffer for the next read.  A cancelled driver
 announces 0 and then -1 instead of its next block.
 */
module As6e {
  import opened SaneBytes

  const SCAN_BUF_SIZE := 32768

  function SumTo(sizes: seq<nat>, n: nat): nat
    requires n <= |sizes|
  {
    if n == 0 then 0 else SumTo(sizes, n - 1) + sizes[n - 1]
  }

  lemma {:induction false} SumMono(sizes: seq<nat>, m: nat, n: nat)
    requires m <= n <= |sizes|
    ensures SumTo(sizes, m) <= SumTo(sizes, n)
    decreases n - m
  {
    if m < n {
      SumMono(sizes, m, n - 1);
    }
  }

  /** Read a block from the data pipe, in as many pieces as the pipe delivers it. */
  method ReadBlock(data: seq<Byte>, pos: nat, written: nat, line: array<Byte>)
    requires pos + written <= |data| && written <= line.Length
    modifies line
    ensures line[..written] == data[pos..pos + written]
  {
    var got: nat := 0;
    while got < written
      invariant got <= written && line[..got] == data[pos..pos + got]
    {
      var n: nat :| 1 <= n <= written - got;
      forall k | 0 <= k < n { line[got + k] := data[pos + got + k]; }
      assert data[pos..pos + got + n] == data[pos..pos + got] + data[pos + got..pos + got + n];
      got := got + n;
    }
  }

  /** Take the first n carried bytes and move the others to the front. */
  method TakeCarried(carry: array<Byte>, count: nat, n: nat) returns (out: seq<Byte>)
    requires n <= count <= carry.Length
    modifies carry
    ensures |out| == n && out + carry[..count - n] == old(carry[..count])
  {
    out := carry[..n];
    for i := n to count
      invariant forall k :: 0 <= k < i - n ==> carry[k] == old(carry[k + n])
      invariant forall k :: i - n <= k < carry.Length ==> carry[k] == old(carry[k])
    {
      carry[i - n] := carry[i];
    }
    assert carry[..count - n] == old(carry[n..count]);
  }

  /** Put the end of a block behind what is carried already. */
  method Carry(line: array<Byte>, from: nat, to: nat, carry: array<Byte>, count: nat)
    requires from <= to <= line.Length && count + (to - from) <= carry.Length && line != carry
    modifies carry
    ensures carry[..count + (to - from)] == old(carry[..count]) + line[from..to]
  {
    for i := from to to
      invariant forall k :: 0 <= k < count ==> carry[k] == old(carry[k])
      invariant forall k :: count <= k < count + (i - from) ==> carry[k] == line[from + k - count]
    {
      carry[count + i - from] := line[i];
    }
  }

  class Scan {
    const sizes: seq<nat>       // the announced block sizes, before -1
    const data: seq<Byte>       // everything on the data pipe
    const bytesToRead: nat
    const carry: array<Byte>    // scan_buffer
    const line: array<Byte>     // line_buffer
    var count: nat              // scan_buffer_count
    var imageCounter: nat
    var scanning: bool
    var announced: nat          // control messages consumed
    var pos: nat                // data bytes consumed
    var cancelled: bool
    ghost var stopped: bool     // a read has been told that the driver gave up
    ghost var markerLeft: bool  // the -1 is still in the control pipe, although the scan is over
    ghost var returned: seq<Byte>

    /** The driver's side: non-empty blocks that fit the buffers, no more than the image. */
    ghost predicate Protocol() {
      && (forall i :: 0 <= i < |sizes| ==> 0 < sizes[i] <= SCAN_BUF_SIZE)
      && SumTo(sizes, |sizes|) <= |data| && SumTo(sizes, |sizes|) <= bytesToRead
      && carry.Length == line.Length == SCAN_BUF_SIZE && carry != line
    }

    /** Blocks taken so far; the message after the last block is -1. */
    function Blocks(): nat
      reads this
    {
      if announced <= |sizes| then announced else |sizes|
    }

    ghost predicate Valid()
      reads this, carry
    {
      && Protocol() && announced <= |sizes| + 1 && count <= carry.Length
      && pos == SumTo(sizes, Blocks()) <= |data|
      && imageCounter == |returned|
      && (!scanning ==> count == 0)
      && (markerLeft ==> cancelled && !stopped && !scanning && Blocks() == |sizes|)
      && (stopped ==> cancelled && !scanning && returned <= data[..pos])
      && (!stopped ==> returned + carry[..count] == data[..pos] && (scanning <==> announced <= |sizes|))
    }

    constructor (sizes: seq<nat>, data: seq<Byte>, bytesToRead: nat)
      requires forall i :: 0 <= i < |sizes| ==> 0 < sizes[i] <= SCAN_BUF_SIZE
      requires SumTo(sizes, |sizes|) <= |data| && SumTo(sizes, |sizes|) <= bytesToRead
      ensures Valid() && returned == [] && scanning && !cancelled && announced == 0 && fresh(carry) && fresh(line)
      ensures this.sizes == sizes && this.data == data && this.bytesToRead == bytesToRead
    {
      this.sizes, this.data, this.bytesToRead := sizes, data, bytesToRead;
      carry := new Byte[SCAN_BUF_SIZE];
      line := new Byte[SCAN_BUF_SIZE];
      count, imageCounter, scanning, announced, pos, returned := 0, 0, true, 0, 0, [];
      cancelled, stopped, markerLeft := false, false, false;
    }

    /** sane_cancel: the signal may or may not reach the driver. */
    method Cancel()
      requires Valid()
      modifies `cancelled
      ensures Valid() && (cancelled ==> old(cancelled) || scanning) && (old(cancelled) ==> cancelled)
    {
      if scanning {
        var delivered: bool := *;
        if delivered {
          cancelled := true;
        }
      }
    }

    /** Everything the driver sent has been returned. */
    ghost predicate Complete()
      requires Protocol()
      reads this
    {
      returned == data[..SumTo(sizes, |sizes|)]
    }

    /**
     sane_read.  Whatever is taken from the driver is returned or carried, in order;
     end of file comes only when everything was returned, or after a cancelled read.  A driver
     that is cancelled behind its last block may have its 0 taken for the end marker.
     */
    method SaneRead(maxLen: nat) returns (status: Status, out: seq<Byte>)
      requires Valid()
      modifies this`count, this`imageCounter, this`scanning, this`announced, this`pos, this`returned, this`stopped, this`markerLeft, carry, line
      ensures Valid() && |out| <= maxLen && returned == old(returned) + out
      ensures status == Good || status == Eof || status == Cancelled
      ensures status != Good ==> out == [] && !scanning
      ensures status == Eof ==> if stopped then old(stopped) else Complete()
      ensures status == Cancelled <==> stopped && !old(stopped)
      ensures status == Good && scanning ==> |out| == maxLen
      ensures !old(scanning) ==> status == Eof
      ensures markerLeft && !old(markerLeft) ==> status == Eof && old(scanning)
      ensures old(announced) <= announced
    {
      if imageCounter >= bytesToRead {
        Finish();
        return Eof, [];
      }
      if count > maxLen {
        out := TakeSome(maxLen);
        return Good, out;
      }
      if count == 0 && !scanning {
        return Eof, [];
      }
      out := [];
      if count > 0 {
        out := carry[..count];
        count := 0;
        if count == maxLen {
          assert false;                    // the emptied carryover never equals a positive maxLen
        }
        assert carry[..0] == [];
      }
      status, out := Fill(maxLen, out);
      if status == Cancelled {
        out := [];
        return;
      }
      imageCounter := imageCounter + |out|;
      returned := returned + out;
    }

    /** The image is complete: take the driver's last message. */
    method Finish()
      requires Valid() && imageCounter >= bytesToRead
      modifies this`announced, this`scanning, this`markerLeft
      ensures Valid() && !scanning && (stopped || Complete()) && old(announced) <= announced
      ensures markerLeft && !old(markerLeft) ==> old(scanning)
    {
      if !stopped {
        AllReturned();
      }
      if scanning {
        announced := announced + 1;       // the -1 that ends the scan, or a cancelled driver's 0
        var gaveUp: bool := *;
        markerLeft := cancelled && gaveUp;
      }
      scanning := false;
    }

    /** The carryover alone fills the frontend's buffer. */
    method TakeSome(maxLen: nat) returns (out: seq<Byte>)
      requires Valid() && maxLen < count
      modifies this`count, this`imageCounter, this`returned, carry
      ensures Valid() && |out| == maxLen && returned == old(returned) + out
    {
      ghost var before := carry[..count];
      out := TakeCarried(carry, count, maxLen);
      count := count - maxLen;
      imageCounter := imageCounter + maxLen;
      Associate(returned, out, carry[..count]);
      returned := returned + out;
    }

    /** When the image is complete, nothing is carried and the driver has only -1 left. */
    lemma AllReturned()
      requires Valid() && imageCounter >= bytesToRead && !stopped
      ensures count == 0 && Blocks() == |sizes| && Complete()
    {
      SumMono(sizes, Blocks(), |sizes|);
      if Blocks() < |sizes| {
        SumMono(sizes, Blocks() + 1, |sizes|);
      }
      assert carry[..0] == [];
    }

    /** Whatever happened, a beginning of what the driver sent was returned. */
    lemma ReturnedPrefix()
      requires Valid()
      ensures returned <= data[..SumTo(sizes, |sizes|)]
    {
      SumMono(sizes, Blocks(), |sizes|);
    }

    /** Take blocks until the frontend's buffer is full or the driver is through. */
    method Fill(maxLen: nat, out0: seq<Byte>) returns (status: Status, out: seq<Byte>)
      requires Protocol() && !stopped && scanning && announced <= |sizes| && count <= carry.Length
      requires |out0| <= maxLen && (|out0| < maxLen ==> count == 0)
      requires pos == SumTo(sizes, announced) <= |data|
      requires returned + out0 + carry[..count] == data[..pos]
      modifies this`count, this`scanning, this`announced, this`pos, this`stopped, carry, line
      ensures status == Good || status == Cancelled
      ensures status == Cancelled <==> stopped
      ensures stopped ==> cancelled && !scanning && count == 0
      ensures announced <= |sizes| + 1 && count <= carry.Length && |out| <= maxLen
      ensures pos == SumTo(sizes, Blocks()) <= |data|
      ensures returned + out + carry[..count] == data[..pos]
      ensures !stopped ==> (scanning <==> announced <= |sizes|)
      ensures !scanning ==> count == 0
      ensures scanning ==> |out| == maxLen
      ensures old(announced) <= announced
    {
      out, status := out0, Good;
      while |out| < maxLen
        invariant status == Good && !stopped
        invariant scanning && old(announced) <= announced <= |sizes| && count <= carry.Length && |out| <= maxLen
        invariant |out| < maxLen ==> count == 0
        invariant pos == SumTo(sizes, announced) <= |data|
        invariant returned + out + carry[..count] == data[..pos]
        decreases |sizes| + 1 - announced
      {
        var gaveUp: bool := *;
        if cancelled && gaveUp {           // 0, then -1
          scanning, stopped := false, true;
          return Cancelled, out;
        }
        if announced == |sizes| {          // -1: the scanner is through
          announced := announced + 1;
          scanning := false;
          return;
        }
        out := TakeBlock(maxLen, out);
      }
    }

    /** Take one announced block: what fits goes out, the rest is carried. */
    method TakeBlock(maxLen: nat, out0: seq<Byte>) returns (out: seq<Byte>)
      requires Protocol() && announced < |sizes| && |out0| < maxLen && count == 0
      requires pos == SumTo(sizes, announced) <= |data| && returned + out0 == data[..pos]
      modifies this`count, this`announced, this`pos, carry, line
      ensures announced == old(announced) + 1 && count <= carry.Length && |out0| <= |out| <= maxLen
      ensures |out| < maxLen ==> count == 0
      ensures pos == SumTo(sizes, announced) <= |data|
      ensures returned + out + carry[..count] == data[..pos]
    {
      var written := sizes[announced];
      SumMono(sizes, announced + 1, |sizes|);
      announced := announced + 1;
      ReadBlock(data, pos, written, line);
      pos := pos + written;
      if written <= maxLen - |out0| {
        out := out0 + line[..written];
        WholeBlock(returned, out0, line[..written], data, pos - written);
      } else if maxLen > |out0| {
        var n := maxLen - |out0|;
        out := out0 + line[..n];
        Carry(line, n, written, carry, count);
        count := count + (written - n);
        SplitBlock(returned, out0, line[..], n, written, carry[..count], data, pos - written);
      } else {
        assert false;                      // everything into the carryover: never with a full buffer
        out := out0;
      }
    }
  }

  lemma WholeBlock(returned: seq<Byte>, out: seq<Byte>, block: seq<Byte>, data: seq<Byte>, pos: nat)
    requires pos + |block| <= |data|
    requires returned + out == data[..pos] && block == data[pos..pos + |block|]
    ensures returned + (out + block) + [] == data[..pos + |block|]
  {
    assert data[..pos + |block|] == data[..pos] + block;
  }

  lemma SplitBlock(returned: seq<Byte>, out: seq<Byte>, line: seq<Byte>, n: nat, written: nat, carried: seq<Byte>,
                   data: seq<Byte>, pos: nat)
    requires n <= written <= |line| && pos + written <= |data| && carried == line[n..written]
    requires returned + out == data[..pos] && line[..written] == data[pos..pos + written]
    ensures returned + (out + line[..n]) + carried == data[..pos + written]
  {
    assert line[..written] == line[..n] + line[n..written];
    assert returned + (out + line[..n]) + carried == (returned + out) + line[..written];
  }

  /**
   A whole scan, with reads of any sizes.  Unless it is cancelled, everything the driver sent is
   returned and every message consumed once; at any rate a beginning of it is returned.
   */
  method ReadImage(sizes: seq<nat>, data: seq<Byte>, bytesToRead: nat)
    returns (status: Status, image: seq<Byte>, messages: nat, cancelled: bool, ghost markerLeft: bool)
    requires forall i :: 0 <= i < |sizes| ==> 0 < sizes[i] <= SCAN_BUF_SIZE
    requires SumTo(sizes, |sizes|) <= |data| && SumTo(sizes, |sizes|) <= bytesToRead
    ensures status == Eof || (status == Cancelled && cancelled)
    ensures image <= data[..SumTo(sizes, |sizes|)]
    ensures status == Eof ==> image == data[..SumTo(sizes, |sizes|)] && messages == |sizes| + 1
    ensures markerLeft ==> status == Eof && cancelled
  {
    var s := new Scan(sizes, data, bytesToRead);
    image, status := [], Good;
    while status == Good
      invariant s.Valid() && fresh(s) && fresh(s.carry) && fresh(s.line)
      invariant s.sizes == sizes && s.data == data && s.returned == image
      invariant status == Good || (status == Eof && s.Complete() && !s.scanning) || (status == Cancelled && s.cancelled)
      invariant (s.stopped ==> status == Cancelled) && (s.markerLeft ==> status == Eof)
      decreases |data| - |image|, s.scanning, status == Good
    {
      var impatient: bool := *;
      if impatient {
        s.Cancel();
      }
      var maxLen: nat :| 0 < maxLen;
      var out;
      status, out := s.SaneRead(maxLen);
      image := image + out;
    }
    s.ReturnedPrefix();
    messages, cancelled, markerLeft := s.announced, s.cancelled, s.markerLeft;
  }
}
