/**
 Reading a one-pass colour scan with the Artec backend: artec_sane_read turns
 scanner rows into realigned rows, sane_read hands them out in pieces of any size.
 */
module ArtecRead {
  import opened SaneBytes
  import opened ArtecRealign

  /** Row n of the image: red from scanner row n, green and blue from later ones. */
  function OutRow(y: Layout, width: nat, offset: nat, rows: seq<seq<Byte>>, n: nat): (r: seq<Byte>)
    requires n + 2 * offset < |rows| && forall i :: 0 <= i < |rows| ==> |rows[i]| == 3 * width
    ensures |r| == 3 * width
  {
    Finish(y, width, Align(y, width, rows[n], rows[n + offset], rows[n + 2 * offset]))
  }

  /** The first n rows of the image. */
  function Image(y: Layout, width: nat, offset: nat, rows: seq<seq<Byte>>, n: nat): seq<Byte>
    requires (n > 0 ==> n - 1 + 2 * offset < |rows|) && forall i :: 0 <= i < |rows| ==> |rows[i]| == 3 * width
  {
    if n == 0 then [] else Image(y, width, offset, rows, n - 1) + OutRow(y, width, offset, rows, n - 1)
  }

  /** The FIFO ends with the rows taken so far, oldest first. */
  ghost predicate Holds(fifo: seq<seq<Byte>>, rows: seq<seq<Byte>>, taken: nat) {
    && taken <= |rows|
    && forall i :: 0 <= i < |fifo| && |fifo| <= taken + i ==> fifo[i] == rows[taken + i - |fifo|]
  }

  lemma HoldsPush(fifo: seq<seq<Byte>>, rows: seq<seq<Byte>>, taken: nat)
    requires fifo != [] && Holds(fifo, rows, taken) && taken < |rows|
    ensures Holds(Push(fifo, rows[taken]), rows, taken + 1)
  {
  }

  method LoadRow(row: seq<Byte>) returns (line: array<Byte>)
    ensures fresh(line) && line[..] == row
  {
    line := new Byte[|row|](k requires 0 <= k < |row| => row[k]);
  }

  /** Turn an aligned row into what the frontend gets. */
  method FinishRow(y: Layout, width: nat, row: seq<Byte>) returns (out: seq<Byte>)
    requires |row| == 3 * width
    ensures out == Finish(y, width, row)
  {
    var line := LoadRow(row);
    if y.planar {
      LineToPixels(line, width);
    }
    if y.reversed {
      ReverseLine(line, width);
    }
    out := line[..];
  }

  lemma AlignedRow(y: Layout, width: nat, offset: nat, rows: seq<seq<Byte>>, n: nat, fifo: seq<seq<Byte>>)
    requires 0 < offset && |fifo| == 2 * offset && Holds(fifo, rows, n) && 2 * offset <= n < |rows|
    requires forall i :: 0 <= i < |rows| ==> |rows[i]| == 3 * width
    ensures |fifo[0]| == |fifo[offset]| == 3 * width
    ensures Finish(y, width, Align(y, width, fifo[0], fifo[offset], rows[n])) == OutRow(y, width, offset, rows, n - 2 * offset)
  {
    assert fifo[0] == rows[n + 0 - |fifo|];
    assert fifo[offset] == rows[n + offset - |fifo|];
  }

  lemma UnalignedRow(y: Layout, width: nat, rows: seq<seq<Byte>>, n: nat)
    requires n < |rows| && forall i :: 0 <= i < |rows| ==> |rows[i]| == 3 * width
    ensures Finish(y, width, rows[n]) == OutRow(y, width, 0, rows, n)
  {
    AlignSame(y, width, rows[n]);
  }

  /** What the realigner makes of its n-th row. */
  ghost predicate Passed(y: Layout, width: nat, offset: nat, fifo: seq<seq<Byte>>, n: nat, row: seq<Byte>, out: seq<Byte>) {
    && |fifo| == 2 * offset && |row| == 3 * width
    && (offset == 0 ==> out == row)
    && (0 < offset && 2 * offset <= n ==>
         |fifo[0]| == |fifo[offset]| == 3 * width && out == Align(y, width, fifo[0], fifo[offset], row))
  }

  /** Pass one scanner row through the realigner. */
  method BufferRow(r: Realigner, row: seq<Byte>) returns (full: bool, out: seq<Byte>)
    requires r.Valid() && |row| == 3 * r.width
    modifies r`lines, r`curLine, r.buffers, r.tmp
    ensures r.Valid() && r.curLine == old(r.curLine) + 1
    ensures r.Fifo() == if r.offset == 0 then old(r.Fifo()) else Push(old(r.Fifo()), row)
    ensures full == (2 * r.offset <= old(r.curLine) && 0 < r.width)
    ensures Passed(r.layout, r.width, r.offset, old(r.Fifo()), old(r.curLine), row, out)
  {
    var line := LoadRow(row);
    var len := r.BufferLine(line);
    full, out := len > 0, line[..];
  }

  ghost predicate Rows(rows: seq<seq<Byte>>, width: nat) {
    forall i :: 0 <= i < |rows| ==> |rows[i]| == 3 * width
  }

  /** The image row that scanner row n completes. */
  function Completed(y: Layout, width: nat, offset: nat, rows: seq<seq<Byte>>, n: nat): seq<Byte>
    requires n < |rows| && forall i :: 0 <= i < |rows| ==> |rows[i]| == 3 * width
  {
    if n < 2 * offset then [] else OutRow(y, width, offset, rows, n - 2 * offset)
  }

  lemma CompletedRow(y: Layout, width: nat, offset: nat, rows: seq<seq<Byte>>, n: nat, fifo: seq<seq<Byte>>, out: seq<Byte>)
    requires |fifo| == 2 * offset && Holds(fifo, rows, n) && 2 * offset <= n < |rows| && Rows(rows, width)
    requires offset == 0 ==> out == rows[n]
    requires 0 < offset ==> |fifo[0]| == |fifo[offset]| == 3 * width && out == Align(y, width, fifo[0], fifo[offset], rows[n])
    ensures |out| == 3 * width && Finish(y, width, out) == Completed(y, width, offset, rows, n)
  {
    if 0 < offset {
      AlignedRow(y, width, offset, rows, n, fifo);
    } else {
      UnalignedRow(y, width, rows, n);
    }
  }

  /** Take one scanner row; full means that `aligned` becomes the image row it completes. */
  method TakeRow(r: Realigner, rows: seq<seq<Byte>>) returns (full: bool, aligned: seq<Byte>)
    requires r.Valid() && r.curLine < |rows| && Holds(r.Fifo(), rows, r.curLine) && Rows(rows, r.width) && 0 < r.width
    modifies r`lines, r`curLine, r.buffers, r.tmp
    ensures r.Valid() && r.curLine == old(r.curLine) + 1
    ensures Holds(r.Fifo(), rows, r.curLine)
    ensures full == (2 * r.offset <= old(r.curLine))
    ensures full ==>
      && |aligned| == 3 * r.width
      && Finish(r.layout, r.width, aligned) == Completed(r.layout, r.width, r.offset, rows, old(r.curLine))
  {
    ghost var n, fifo, y, w, offset := r.curLine, r.Fifo(), r.layout, r.width, r.offset;
    full, aligned := BufferRow(r, rows[r.curLine]);
    ghost var after := r.Fifo();
    assert after == if offset == 0 then fifo else Push(fifo, rows[n]);
    assert Passed(y, w, offset, fifo, n, rows[n], aligned);
    RowTaken(y, w, offset, rows, n, fifo, aligned);
  }

  lemma RowTaken(y: Layout, width: nat, offset: nat, rows: seq<seq<Byte>>, n: nat, fifo: seq<seq<Byte>>, out: seq<Byte>)
    requires Holds(fifo, rows, n) && n < |rows| && Rows(rows, width) && Passed(y, width, offset, fifo, n, rows[n], out)
    ensures Holds(if offset == 0 then fifo else Push(fifo, rows[n]), rows, n + 1)
    ensures 2 * offset <= n ==> |out| == 3 * width && Finish(y, width, out) == Completed(y, width, offset, rows, n)
  {
    if 0 < offset {
      HoldsPush(fifo, rows, n);
    }
    if 2 * offset <= n {
      CompletedRow(y, width, offset, rows, n, fifo, out);
    }
  }

  /** Take one scanner row; return the image row it completes, if any. */
  method NextRow(r: Realigner, rows: seq<seq<Byte>>) returns (out: seq<Byte>)
    requires r.Valid() && r.curLine < |rows| && Holds(r.Fifo(), rows, r.curLine) && Rows(rows, r.width) && 0 < r.width
    modifies r`lines, r`curLine, r.buffers, r.tmp
    ensures r.Valid() && r.curLine == old(r.curLine) + 1
    ensures Holds(r.Fifo(), rows, r.curLine)
    ensures out == Completed(r.layout, r.width, r.offset, rows, old(r.curLine))
  {
    var full, aligned := TakeRow(r, rows);
    out := [];
    if full {
      out := FinishRow(r.layout, r.width, aligned);
    }
  }

  lemma AlignSame(y: Layout, width: nat, row: seq<Byte>)
    requires |row| == 3 * width
    ensures Align(y, width, row, row, row) == row
  {
  }

  /** Image rows completed by the first n scanner rows. */
  function Done(offset: nat, n: nat): nat {
    if n < 2 * offset then 0 else n - 2 * offset
  }

  lemma ImageGrows(y: Layout, width: nat, offset: nat, rows: seq<seq<Byte>>, n: nat)
    requires n < |rows| && Rows(rows, width)
    ensures Image(y, width, offset, rows, Done(offset, n + 1))
         == Image(y, width, offset, rows, Done(offset, n)) + Completed(y, width, offset, rows, n)
  {
    if n < 2 * offset {
      assert Completed(y, width, offset, rows, n) == [];
    }
  }

  /** memcpy to the end of what the buffer already holds. */
  method Append(buffer: array<Byte>, at: nat, x: seq<Byte>)
    requires at + |x| <= buffer.Length
    modifies buffer
    ensures buffer[..at + |x|] == old(buffer[..at]) + x
  {
    forall k | 0 <= k < |x| { buffer[at + k] := x[k]; }
  }

  /** Rows to ask for next: what is left, what the buffer still takes, what the scanner has. */
  function RowsToRead(left: nat, maxRows: nat, rowsRead: nat, available: nat): (r: nat)
    requires rowsRead <= maxRows
    ensures r <= left && rowsRead + r <= maxRows && r <= available
    ensures r == left || rowsRead + r == maxRows || r == available
  {
    var l := if left <= maxRows then left else maxRows;
    var m := if maxRows - rowsRead < l then maxRows - rowsRead else l;
    if available < m then available else m
  }

  lemma RowsLeft(rows: nat, bpl: nat)
    requires bpl > 0
    ensures (rows * bpl + bpl - 1) / bpl == rows
  {
    DivUnique(rows * bpl + bpl - 1, bpl, rows, bpl - 1);
  }

  class Scan {
    const r: Realigner
    const rows: seq<seq<Byte>>     // what the scanner delivers
    const lines: nat               // rows of the image
    const temp: array<Byte>        // sane_read's buffer, max_read_size bytes
    var inBuf: nat
    var bytesToRead: nat
    var scanning: bool
    ghost var returned: seq<Byte>  // everything handed to the frontend so far

    ghost predicate Shape()
      reads this, r
    {
      && r.Valid() && 0 < r.width && 3 * r.width <= temp.Length
      && lines + 2 * r.offset <= |rows| && Rows(rows, r.width)
      && temp != r.tmp && temp !in r.buffers
      && r.curLine <= lines + 2 * r.offset
    }

    ghost function Finished(): seq<Byte>
      reads this, r
      requires Shape()
    {
      Image(r.layout, r.width, r.offset, rows, Done(r.offset, r.curLine))
    }

    /** Returned bytes and buffered bytes together are the rows completed so far. */
    ghost predicate Valid()
      reads this, r, r.lines, temp
    {
      && Shape() && inBuf <= temp.Length
      && if scanning || bytesToRead == 0 then
           && Holds(r.Fifo(), rows, r.curLine) && returned + temp[..inBuf] == Finished()
           && bytesToRead == (lines - Done(r.offset, r.curLine)) * (3 * r.width)
         else inBuf == 0 && returned <= Whole()
    }

    /** The image that the scan is to return. */
    ghost function Whole(): seq<Byte>
      reads this, r
      requires Shape()
    {
      Image(r.layout, r.width, r.offset, rows, lines)
    }

    lemma FinishedPrefix()
      requires Shape()
      ensures Finished() <= Whole()
    {
      ImagePrefix(r.layout, r.width, r.offset, rows, Done(r.offset, r.curLine), lines);
    }

    constructor (y: Layout, width: nat, offset: nat, lines: nat, maxRead: nat, rows: seq<seq<Byte>>)
      requires 0 < width && 3 * width <= maxRead && lines + 2 * offset <= |rows| && Rows(rows, width)
      ensures Valid() && returned == [] && r.curLine == 0 && scanning && fresh(r) && fresh(r.buffers) && fresh(r.tmp) && fresh(temp)
      ensures this.rows == rows && this.lines == lines && r.layout == y && r.width == width && r.offset == offset
    {
      this.rows, this.lines := rows, lines;
      r := new Realigner(y, width, offset);
      temp := new Byte[maxRead];
      inBuf, returned, bytesToRead, scanning := 0, [], lines * (3 * width), true;
    }

    /** Take `count` scanner rows and append the image rows they complete. */
    method ReadRows(count: nat, bytesRead0: nat, rowsRead0: nat) returns (bytesRead: nat, rowsRead: nat)
      requires Shape() && Holds(r.Fifo(), rows, r.curLine)
      requires r.curLine + count <= lines + 2 * r.offset
      requires bytesRead0 + Times(count, 3 * r.width) <= temp.Length && returned + temp[..bytesRead0] == Finished()
      modifies r`lines, r`curLine, r.buffers, r.tmp, temp
      ensures Shape() && Holds(r.Fifo(), rows, r.curLine)
      ensures r.curLine == old(r.curLine) + count
      ensures rowsRead - rowsRead0 == Done(r.offset, r.curLine) - Done(r.offset, old(r.curLine))
      ensures rowsRead0 <= rowsRead && bytesRead == bytesRead0 + Times(rowsRead - rowsRead0, 3 * r.width) <= temp.Length
      ensures returned + temp[..bytesRead] == Finished()
    {
      bytesRead, rowsRead := bytesRead0, rowsRead0;
      ghost var n: nat, bpl, first := 0, 3 * r.width, r.curLine;
      for line := 0 to count
        invariant Shape() && Holds(r.Fifo(), rows, r.curLine)
        invariant r.curLine == first + line && n <= line && rowsRead == rowsRead0 + n
        invariant n == Done(r.offset, r.curLine) - Done(r.offset, first)
        invariant bytesRead == bytesRead0 + Times(n, bpl) <= temp.Length
        invariant returned + temp[..bytesRead] == Finished()
      {
        TimesNext(n, count, bpl);
        bytesRead, rowsRead := ReadRow(bytesRead, rowsRead);
        n := if first + line < 2 * r.offset then n else n + 1;
      }
    }

    /** Take one scanner row; what it completes comes after what is already there. */
    method StepRow(ghost sofar: seq<Byte>) returns (out: seq<Byte>)
      requires Shape() && Holds(r.Fifo(), rows, r.curLine) && r.curLine < lines + 2 * r.offset && sofar == Finished()
      modifies r`lines, r`curLine, r.buffers, r.tmp
      ensures Shape() && Holds(r.Fifo(), rows, r.curLine)
      ensures r.curLine == old(r.curLine) + 1 && sofar + out == Finished()
      ensures if old(r.curLine) < 2 * r.offset then out == [] else |out| == 3 * r.width
    {
      ImageGrows(r.layout, r.width, r.offset, rows, r.curLine);
      out := NextRow(r, rows);
    }

    /** Copy a completed row into the buffer. */
    method StoreRow(at: nat, out: seq<Byte>)
      requires Shape() && at + |out| <= temp.Length && returned + temp[..at] + out == Finished()
      modifies temp
      ensures Shape() && r.Fifo() == old(r.Fifo()) && returned + temp[..at + |out|] == Finished()
    {
      ghost var fifo := r.Fifo();
      Append(temp, at, out);
      assert forall i :: 0 <= i < |r.lines| ==> r.lines[i] != temp;
      assert r.Fifo() == fifo;
    }

    method ReadRow(bytesRead0: nat, rowsRead0: nat) returns (bytesRead: nat, rowsRead: nat)
      requires Shape() && Holds(r.Fifo(), rows, r.curLine) && r.curLine < lines + 2 * r.offset
      requires bytesRead0 + 3 * r.width <= temp.Length && returned + temp[..bytesRead0] == Finished()
      modifies r`lines, r`curLine, r.buffers, r.tmp, temp
      ensures Shape() && Holds(r.Fifo(), rows, r.curLine)
      ensures r.curLine == old(r.curLine) + 1
      ensures if old(r.curLine) < 2 * r.offset then bytesRead == bytesRead0 && rowsRead == rowsRead0
              else bytesRead == bytesRead0 + 3 * r.width && rowsRead == rowsRead0 + 1
      ensures returned + temp[..bytesRead] == Finished()
    {
      var out := StepRow(returned + temp[..bytesRead0]);
      bytesRead, rowsRead := bytesRead0, rowsRead0;
      if out != [] {
        StoreRow(bytesRead, out);
        bytesRead, rowsRead := bytesRead + |out|, rowsRead + 1;
      }
    }

    /** artec_sane_read: fill the empty buffer with realigned rows. */
    method ReadBuffer() returns (status: Status, len: nat, ghost failed: bool)
      requires Valid() && inBuf == 0
      modifies r`lines, r`curLine, r.buffers, r.tmp, temp, `bytesToRead, `scanning
      ensures Shape() && len <= temp.Length && (scanning ==> old(scanning))
      ensures scanning || bytesToRead == 0 ==>
        && Holds(r.Fifo(), rows, r.curLine)
        && bytesToRead == (lines - Done(r.offset, r.curLine)) * (3 * r.width)
        && returned + temp[..len] == Finished()
      ensures status == Eof <==> old(bytesToRead) == 0
      ensures status == Eof ==> len == 0 && Done(r.offset, r.curLine) == lines && r.curLine == old(r.curLine)
      ensures status == Cancelled <==> old(bytesToRead) != 0 && !old(scanning)
      ensures status == Good ==> scanning && 0 < len
      ensures status != Good ==> !scanning && len == 0 && bytesToRead == old(bytesToRead)
      ensures status == Good || status == Eof || status == Cancelled || status == IoError
      ensures status == IoError <==> failed
    {
      if bytesToRead == 0 {
        ZeroRows(lines - Done(r.offset, r.curLine), 3 * r.width);
        scanning := false;
        return Eof, 0, false;
      }
      if !scanning {
        return Cancelled, 0, false;
      }
      status, len, failed := ReadMore();
    }

    /** The part of artec_sane_read behind its early returns. */
    method ReadMore() returns (status: Status, len: nat, ghost failed: bool)
      requires Valid() && inBuf == 0 && scanning && bytesToRead != 0
      modifies r`lines, r`curLine, r.buffers, r.tmp, temp, `bytesToRead, `scanning
      ensures Shape() && len <= temp.Length && (status == Good || status == IoError)
      ensures status == Good ==>
        && scanning && 0 < len && Holds(r.Fifo(), rows, r.curLine)
        && bytesToRead == (lines - Done(r.offset, r.curLine)) * (3 * r.width)
        && returned + temp[..len] == Finished()
      ensures status == IoError ==> !scanning && len == 0 && bytesToRead == old(bytesToRead)
      ensures status == IoError <==> failed
    {
      var bpl := 3 * r.width;
      ghost var done := Done(r.offset, r.curLine);
      MoreThanNone(lines - done, bpl);
      RowsLeft(lines - done, bpl);
      var remaining := (bytesToRead + bpl - 1) / bpl;
      var maxRows := Lines(temp.Length, bpl);
      var ok, bytesRead, rowsRead;
      ok, bytesRead, rowsRead, failed := FillRows(remaining, maxRows);
      if !ok {
        scanning := false;
        return IoError, 0, failed;
      }
      TimesIs(rowsRead, bpl);
      LeftAfter(lines - done, rowsRead, bpl);
      len := bytesRead;
      bytesToRead := bytesToRead - bytesRead;
      status := Good;
    }

    /** Rows are taken as the device delivers them; an error ends the scan. */
    method FillRows(remaining: nat, maxRows: nat) returns (ok: bool, bytesRead: nat, rowsRead: nat, ghost failed: bool)
      requires Shape() && Holds(r.Fifo(), rows, r.curLine) && returned + temp[..0] == Finished()
      requires remaining == lines - Done(r.offset, r.curLine) && 0 < remaining
      requires maxRows == Lines(temp.Length, 3 * r.width)
      modifies r`lines, r`curLine, r.buffers, r.tmp, temp
      ensures Shape() && Holds(r.Fifo(), rows, r.curLine)
      ensures rowsRead == Done(r.offset, r.curLine) - Done(r.offset, old(r.curLine)) <= remaining
      ensures bytesRead == Times(rowsRead, 3 * r.width) <= temp.Length && (ok ==> 0 < bytesRead)
      ensures returned + temp[..bytesRead] == Finished()
      ensures ok <==> !failed
      ensures ok ==> rowsRead == maxRows || rowsRead == remaining
    {
      ok, bytesRead, rowsRead, failed := true, 0, 0, false;
      while rowsRead < maxRows && rowsRead < remaining
        invariant Shape() && Holds(r.Fifo(), rows, r.curLine)
        invariant old(r.curLine) <= r.curLine
        invariant rowsRead == Done(r.offset, r.curLine) - Done(r.offset, old(r.curLine)) <= remaining
        invariant bytesRead == Times(rowsRead, 3 * r.width) && bytesRead <= temp.Length
        invariant rowsRead <= maxRows && returned + temp[..bytesRead] == Finished()
        invariant ok && !failed
        decreases lines + 2 * r.offset - r.curLine
      {
        ok := *;                         // the device's answer
        failed := !ok;
        if !ok {
          return;
        }
        var available: nat :| 0 < available;
        var lread := RowsToRead(remaining - rowsRead, maxRows, rowsRead, available);
        bytesRead, rowsRead := ReadPart(lread, bytesRead, rowsRead, maxRows);
      }
    }

    /** Read `count` more rows behind those that are in the buffer already. */
    method ReadPart(count: nat, bytesRead0: nat, rowsRead0: nat, ghost maxRows: nat) returns (bytesRead: nat, rowsRead: nat)
      requires Shape() && Holds(r.Fifo(), rows, r.curLine) && r.curLine + count <= lines + 2 * r.offset
      requires maxRows == Lines(temp.Length, 3 * r.width) && rowsRead0 + count <= maxRows
      requires bytesRead0 == Times(rowsRead0, 3 * r.width) <= temp.Length && returned + temp[..bytesRead0] == Finished()
      modifies r`lines, r`curLine, r.buffers, r.tmp, temp
      ensures Shape() && Holds(r.Fifo(), rows, r.curLine) && r.curLine == old(r.curLine) + count
      ensures rowsRead - rowsRead0 == Done(r.offset, r.curLine) - Done(r.offset, old(r.curLine))
      ensures bytesRead == Times(rowsRead, 3 * r.width) <= temp.Length && returned + temp[..bytesRead] == Finished()
    {
      RoomFor(temp.Length, 3 * r.width, rowsRead0, count, maxRows);
      bytesRead, rowsRead := ReadRows(count, bytesRead0, rowsRead0);
      TimesAdd(rowsRead0, rowsRead - rowsRead0, 3 * r.width);
    }

    /** sane_read: hand out up to maxLen bytes, refilling the buffer when it is empty. */
    method SaneRead(maxLen: nat) returns (status: Status, buf: seq<Byte>, ghost failed: bool)
      requires Valid()
      modifies this`inBuf, this`bytesToRead, this`scanning, this`returned, r`lines, r`curLine, r.buffers, r.tmp, temp
      ensures Valid() && returned == old(returned) + buf && |buf| <= maxLen && returned <= Whole()
      ensures status == Good || status == Eof || status == Cancelled || status == IoError
      ensures status == Good ==> scanning == old(scanning) && (0 < maxLen ==> 0 < |buf|) && (|buf| == maxLen || inBuf == 0)
      ensures status != Good ==> buf == [] && !scanning
      ensures status == Eof ==> Done(r.offset, r.curLine) == lines && returned == Whole()
      ensures status == Cancelled ==> !old(scanning)
      ensures status == IoError <==> failed
    {
      buf, failed := [], false;
      status := Good;
      if inBuf == 0 {
        if scanning || bytesToRead == 0 {
          FinishedPrefix();
        }
        var len;
        status, len, failed := ReadBuffer();
        if status != Good {
          return;
        }
        inBuf := len;
      }
      var n := if maxLen < inBuf then maxLen else inBuf;
      buf := HandOut(n);
      FinishedPrefix();
    }

    /** Copy n bytes out of the buffer and move the others to its front. */
    method HandOut(n: nat) returns (buf: seq<Byte>)
      requires Valid() && (scanning || bytesToRead == 0) && n <= inBuf
      modifies this`inBuf, this`returned, temp
      ensures Valid() && |buf| == n && returned == old(returned) + buf && inBuf == old(inBuf) - n
    {
      ghost var fifo, before := r.Fifo(), returned;
      buf := temp[..n];
      inBuf := inBuf - n;
      Shift(temp, n, inBuf);
      returned := returned + buf;
      Associate(before, buf, temp[..inBuf]);
      assert forall i :: 0 <= i < |r.lines| ==> r.lines[i] != temp;
      assert r.Fifo() == fifo;
    }
  }

  method Shift(temp: array<Byte>, n: nat, count: nat)
    requires n + count <= temp.Length
    modifies temp
    ensures old(temp[..n]) + temp[..count] == old(temp[..n + count])
  {
    for loop := 0 to count
      invariant forall k :: 0 <= k < loop ==> temp[k] == old(temp[k + n])
      invariant forall k :: loop <= k < temp.Length ==> temp[k] == old(temp[k])
    {
      temp[loop] := temp[loop + n];
    }
  }

  /**
   A whole scan with reads of any sizes: up to an error the frontend gets a beginning of the
   image; with end of file it has got exactly the image, and the scanner has been asked for
   exactly the rows that the window command announced.
   */
  method ScanAll(s: Scan) returns (status: Status, data: seq<Byte>, ghost failed: bool)
    requires s.Valid() && s.returned == [] && s.r.curLine == 0 && s.scanning
    modifies s`inBuf, s`bytesToRead, s`scanning, s`returned, s.r`lines, s.r`curLine, s.r.buffers, s.r.tmp, s.temp
    ensures status == if failed then IoError else Eof
    ensures data <= Image(s.r.layout, s.r.width, s.r.offset, s.rows, s.lines)
    ensures status == Eof ==> data == Image(s.r.layout, s.r.width, s.r.offset, s.rows, s.lines)
    ensures status == Eof && s.lines > 0 ==> s.r.curLine == s.lines + 2 * s.r.offset
  {
    data, status, failed := [], Good, false;
    ghost var whole := s.Whole();
    while status == Good
      invariant s.Valid() && s.returned == data <= whole && s.Whole() == whole
      invariant status == Good || status == Eof || status == IoError
      invariant status == IoError <==> failed
      invariant status == Good ==> s.scanning
      invariant status == Eof ==> Done(s.r.offset, s.r.curLine) == s.lines && data == whole
      decreases |whole| - |data|, status == Good
    {
      var maxLen: nat :| 0 < maxLen;
      var buf;
      status, buf, failed := s.SaneRead(maxLen);
      data := data + buf;
    }
  }

  /** Scan an image of `lines` rows; also report how many scanner rows were taken. */
  method ScanImage(y: Layout, width: nat, offset: nat, lines: nat, maxRead: nat, rows: seq<seq<Byte>>)
    returns (status: Status, data: seq<Byte>, taken: nat, ghost failed: bool)
    requires 0 < width && 3 * width <= maxRead && lines + 2 * offset <= |rows| && Rows(rows, width)
    ensures status == if failed then IoError else Eof
    ensures data <= Image(y, width, offset, rows, lines)
    ensures status == Eof ==> data == Image(y, width, offset, rows, lines)
    ensures status == Eof && 0 < lines ==> taken == lines + 2 * offset
  {
    var s := new Scan(y, width, offset, lines, maxRead, rows);
    status, data, failed := ScanAll(s);
    taken := s.r.curLine;
  }

  /** The concatenation of the first n rows g gives. */
  function Joined(g: nat -> seq<Byte>, n: nat): seq<Byte> {
    if n == 0 then [] else Joined(g, n - 1) + g(n - 1)
  }

  ghost function RowsFrom(y: Layout, width: nat, offset: nat, rows: seq<seq<Byte>>): nat -> seq<Byte>
    requires forall i :: 0 <= i < |rows| ==> |rows[i]| == 3 * width
  {
    (n: nat) => if n + 2 * offset < |rows| then OutRow(y, width, offset, rows, n) else []
  }

  lemma {:induction false} ImageJoins(y: Layout, width: nat, offset: nat, rows: seq<seq<Byte>>, n: nat)
    requires n + 2 * offset <= |rows| && Rows(rows, width)
    ensures Image(y, width, offset, rows, n) == Joined(RowsFrom(y, width, offset, rows), n)
  {
    if n > 0 {
      ImageJoins(y, width, offset, rows, n - 1);
      OneMoreJoined(y, width, offset, rows, n - 1, Image(y, width, offset, rows, n - 1), RowsFrom(y, width, offset, rows));
    }
  }

  lemma OneMoreJoined(y: Layout, width: nat, offset: nat, rows: seq<seq<Byte>>, m: nat, sofar: seq<Byte>, g: nat -> seq<Byte>)
    requires m + 2 * offset < |rows| && Rows(rows, width)
    requires sofar == Image(y, width, offset, rows, m) == Joined(g, m) && g == RowsFrom(y, width, offset, rows)
    ensures Image(y, width, offset, rows, m + 1) == Joined(g, m + 1)
  {
    ImageStep(y, width, offset, rows, m);
    RowsFromAt(y, width, offset, rows, m);
    JoinedStep(g, m + 1);
  }

  lemma RowsFromAt(y: Layout, width: nat, offset: nat, rows: seq<seq<Byte>>, n: nat)
    requires n + 2 * offset < |rows| && Rows(rows, width)
    ensures RowsFrom(y, width, offset, rows)(n) == OutRow(y, width, offset, rows, n)
  {
  }

  lemma JoinedStep(g: nat -> seq<Byte>, n: nat)
    requires n > 0
    ensures Joined(g, n) == Joined(g, n - 1) + g(n - 1)
  {
  }

  lemma {:induction false} JoinedPrefix(g: nat -> seq<Byte>, m: nat, n: nat)
    requires m <= n
    ensures Joined(g, m) <= Joined(g, n)
    decreases n - m
  {
    if m < n {
      JoinedPrefix(g, m, n - 1);
      PrefixAppend(Joined(g, m), Joined(g, n - 1), g(n - 1));
    }
  }

  lemma ImagePrefix(y: Layout, width: nat, offset: nat, rows: seq<seq<Byte>>, m: nat, n: nat)
    requires m <= n && n + 2 * offset <= |rows| && Rows(rows, width)
    ensures Image(y, width, offset, rows, m) <= Image(y, width, offset, rows, n)
  {
    ImageJoins(y, width, offset, rows, m);
    ImageJoins(y, width, offset, rows, n);
    JoinedPrefix(RowsFrom(y, width, offset, rows), m, n);
  }

  lemma LeftAfter(missing: nat, read: nat, bpl: nat)
    requires read <= missing
    ensures (missing - read) * bpl == missing * bpl - read * bpl && read * bpl <= missing * bpl
  {
    MulSub(missing, read, bpl);
    MulMono(read, missing, bpl);
  }

  lemma RoomFor(size: nat, bpl: nat, rowsRead: nat, more: nat, maxRows: nat)
    requires bpl > 0 && maxRows == Lines(size, bpl) && rowsRead + more <= maxRows
    ensures Times(rowsRead, bpl) + Times(more, bpl) <= size
  {
    TimesAdd(rowsRead, more, bpl);
    TimesMono(rowsRead + more, maxRows, bpl);
    TimesIs(maxRows, bpl);
    assert maxRows * bpl == WholeBytes(size, bpl);
  }

  lemma MoreThanNone(n: nat, bpl: nat)
    ensures n * bpl != 0 ==> 0 < n
  {
  }

  lemma ZeroRows(n: nat, bpl: nat)
    requires bpl > 0 && n * bpl == 0
    ensures n == 0
  {
    if n > 0 { MulMono(1, n, bpl); }
  }

  // ---------------------------------------------------------------- what the rows mean

  /** Where a scanner row holds byte c of pixel p. */
  function SampleAt(y: Layout, width: nat, p: nat, c: nat): nat {
    if y.planar then p + (if c == 0 then 0 else if c == 1 then width else 2 * width) else 3 * p + c
  }

  /** The pixel of a scanner row that becomes pixel p of the image. */
  function PixelFrom(y: Layout, width: nat, p: nat): nat
    requires p < width
  {
    if y.reversed then width - 1 - p else p
  }

  /** The colour that byte c of a pixel holds: a reversed scanner without planes sends blue first. */
  function ColorAt(y: Layout, c: nat): nat
    requires c < 3
  {
    if y.reversed && !y.planar then 2 - c else c
  }

  /** Byte c of pixel p of image row n: each colour k comes from scanner row n + k * offset. */
  lemma RowMeaning(y: Layout, width: nat, offset: nat, rows: seq<seq<Byte>>, n: nat, p: nat, c: nat)
    requires n + 2 * offset < |rows| && Rows(rows, width) && p < width && c < 3
    ensures ColorAt(y, c) * offset <= 2 * offset && SampleAt(y, width, PixelFrom(y, width, p), c) < 3 * width
    ensures OutRow(y, width, offset, rows, n)[3 * p + c]
         == rows[n + ColorAt(y, c) * offset][SampleAt(y, width, PixelFrom(y, width, p), c)]
  {
    RowMeaningAt(y, width, offset, rows, n, p, c);
    LateBy(ColorAt(y, c), offset);
  }

  /** The same, layout by layout. */
  lemma RowLocated(y: Layout, width: nat, offset: nat, rows: seq<seq<Byte>>, n: nat, p: nat, c: nat, q: nat, plane: nat)
    requires n + 2 * offset < |rows| && Rows(rows, width) && p < width && c < 3
    requires q == (if y.reversed then width - 1 - p else p) && plane == if c == 0 then 0 else if c == 1 then width else 2 * width
    ensures y.planar ==> OutRow(y, width, offset, rows, n)[3 * p + c] == RowLate(rows, n, c, offset)[plane + q]
    ensures !y.planar && !y.reversed ==> OutRow(y, width, offset, rows, n)[3 * p + c] == RowLate(rows, n, c, offset)[3 * q + c]
    ensures !y.planar && y.reversed ==> OutRow(y, width, offset, rows, n)[3 * p + c] == RowLate(rows, n, 2 - c, offset)[3 * q + c]
  {
    RowMeaningAt(y, width, offset, rows, n, p, c);
  }

  /** The scanner row that is k line offsets after row n. */
  function RowLate(rows: seq<seq<Byte>>, n: nat, k: nat, offset: nat): seq<Byte>
    requires k < 3 && n + 2 * offset < |rows|
  {
    if k == 0 then rows[n] else if k == 1 then rows[n + offset] else rows[n + 2 * offset]
  }

  /** How many rows a colour comes late. */
  function Late(k: nat, offset: nat): nat { if k == 0 then 0 else if k == 1 then offset else 2 * offset }

  lemma LateBy(k: nat, offset: nat)
    requires k < 3
    ensures k * offset == Late(k, offset)
  {
  }

  lemma RowMeaningAt(y: Layout, width: nat, offset: nat, rows: seq<seq<Byte>>, n: nat, p: nat, c: nat)
    requires n + 2 * offset < |rows| && Rows(rows, width) && p < width && c < 3
    ensures SampleAt(y, width, PixelFrom(y, width, p), c) < 3 * width
    ensures OutRow(y, width, offset, rows, n)[3 * p + c]
         == rows[n + Late(ColorAt(y, c), offset)][SampleAt(y, width, PixelFrom(y, width, p), c)]
  {
    var aligned := Align(y, width, rows[n], rows[n + offset], rows[n + 2 * offset]);
    AlignedAt(y, width, rows[n], rows[n + offset], rows[n + 2 * offset], PixelFrom(y, width, p), c);
    FinishedAt(y, width, aligned, p, c);
  }

  lemma FinishedAt(y: Layout, width: nat, s: seq<Byte>, p: nat, c: nat)
    requires |s| == 3 * width && p < width && c < 3
    ensures SampleAt(y, width, PixelFrom(y, width, p), c) < 3 * width
    ensures Finish(y, width, s)[3 * p + c] == s[SampleAt(y, width, PixelFrom(y, width, p), c)]
  {
    PlanesAt(y, width, s, PixelFrom(y, width, p), c);
    if y.reversed {
      MirroredAt(width, Pixels(y, width, s), p, c);
    }
  }

  lemma PlanesAt(y: Layout, width: nat, s: seq<Byte>, q: nat, c: nat)
    requires |s| == 3 * width && q < width && c < 3
    ensures SampleAt(y, width, q, c) < 3 * width
    ensures Pixels(y, width, s)[3 * q + c] == s[SampleAt(y, width, q, c)]
  {
    if y.planar {
      ToPixelsAt(width, s, q);
    }
  }

  lemma MirroredAt(width: nat, s: seq<Byte>, p: nat, c: nat)
    requires |s| == 3 * width && p < width && c < 3
    ensures Mirror(width, s)[3 * p + c] == s[3 * (width - 1 - p) + c]
  {
    MirrorAt(width, s, p);
  }

  lemma AlignedAt(y: Layout, width: nat, red: seq<Byte>, green: seq<Byte>, blue: seq<Byte>, p: nat, c: nat)
    requires |red| == |green| == |blue| == 3 * width && p < width && c < 3
    ensures SampleAt(y, width, p, c) < 3 * width
    ensures var k := ColorAt(y, c);
      Align(y, width, red, green, blue)[SampleAt(y, width, p, c)]
      == (if k == 0 then red else if k == 1 then green else blue)[SampleAt(y, width, p, c)]
  {
    assert ColorOf(y, width, SampleAt(y, width, p, c)) == ColorAt(y, c);
  }

  /** Joined rows of equal size can be told apart again. */
  lemma {:induction false} JoinedRows(g: nat -> seq<Byte>, w: nat, n: nat)
    requires forall i: nat :: i < n ==> |g(i)| == w
    ensures |Joined(g, n)| == n * w
    ensures forall i: nat :: i < n ==> i * w + w <= |Joined(g, n)| && LineOf(Joined(g, n), w, i) == g(i)
  {
    if n > 0 {
      JoinedRows(g, w, n - 1);
      MulSucc(n, w);
      forall i: nat | i < n
        ensures i * w + w <= |Joined(g, n)| && LineOf(Joined(g, n), w, i) == g(i)
      {
        LineOfAppend(Joined(g, n - 1), g(n - 1), w, n - 1, i);
      }
    }
  }

  lemma ImageLength(y: Layout, width: nat, offset: nat, rows: seq<seq<Byte>>, lines: nat)
    requires lines + 2 * offset <= |rows| && Rows(rows, width)
    ensures |Image(y, width, offset, rows, lines)| == lines * (3 * width)
  {
    ImageJoins(y, width, offset, rows, lines);
    JoinedRows(RowsFrom(y, width, offset, rows), 3 * width, lines);
  }

  /** Line n of the returned bytes is row n. */
  lemma ImageRows(y: Layout, width: nat, offset: nat, rows: seq<seq<Byte>>, lines: nat, n: nat)
    requires lines + 2 * offset <= |rows| && Rows(rows, width) && n < lines
    ensures n * (3 * width) + 3 * width <= |Image(y, width, offset, rows, lines)|
    ensures LineOf(Image(y, width, offset, rows, lines), 3 * width, n) == OutRow(y, width, offset, rows, n)
  {
    ImageJoins(y, width, offset, rows, lines);
    JoinedRows(RowsFrom(y, width, offset, rows), 3 * width, lines);
  }

  lemma ImageStep(y: Layout, width: nat, offset: nat, rows: seq<seq<Byte>>, m: nat)
    requires m + 1 + 2 * offset <= |rows| && Rows(rows, width)
    ensures Image(y, width, offset, rows, m + 1) == Image(y, width, offset, rows, m) + OutRow(y, width, offset, rows, m)
  {
  }

  function PixelRows(width: nat, rows: seq<seq<Byte>>): (r: seq<seq<Byte>>)
    requires forall i :: 0 <= i < |rows| ==> |rows[i]| == 3 * width
    ensures |r| == |rows|
  {
    seq(|rows|, i requires 0 <= i < |rows| => ToPixels(width, rows[i]))
  }

  /** Converting each planar row first and realigning pixels gives the same row. */
  lemma LayoutsAgreeRow(width: nat, offset: nat, rows: seq<seq<Byte>>, n: nat)
    requires n + 2 * offset < |rows| && Rows(rows, width)
    ensures OutRow(Layout(true, false), width, offset, rows, n)
         == OutRow(Layout(false, false), width, offset, PixelRows(width, rows), n)
  {
    var planar, chunky := Layout(true, false), Layout(false, false);
    var pix := PixelRows(width, rows);
    forall k | 0 <= k < 3 * width
      ensures OutRow(planar, width, offset, rows, n)[k] == OutRow(chunky, width, offset, pix, n)[k]
    {
      LayoutsAgreeAt(width, offset, rows, n, k / 3, k % 3);
    }
  }

  lemma LayoutsAgreeAt(width: nat, offset: nat, rows: seq<seq<Byte>>, n: nat, p: nat, c: nat)
    requires n + 2 * offset < |rows| && Rows(rows, width) && p < width && c < 3
    ensures OutRow(Layout(true, false), width, offset, rows, n)[3 * p + c]
         == OutRow(Layout(false, false), width, offset, PixelRows(width, rows), n)[3 * p + c]
  {
    var planar, chunky, pix := Layout(true, false), Layout(false, false), PixelRows(width, rows);
    var i := n + Late(c, offset);
    RowMeaningAt(planar, width, offset, rows, n, p, c);
    RowMeaningAt(chunky, width, offset, pix, n, p, c);
    PlanesAt(planar, width, rows[i], p, c);
    assert pix[i] == ToPixels(width, rows[i]);
  }

  /** Realigning planar lines then converting equals converting first and realigning pixels. */
  lemma {:induction false} LayoutsAgree(width: nat, offset: nat, rows: seq<seq<Byte>>, lines: nat)
    requires lines + 2 * offset <= |rows| && Rows(rows, width)
    ensures Image(Layout(true, false), width, offset, rows, lines)
         == Image(Layout(false, false), width, offset, PixelRows(width, rows), lines)
    decreases lines
  {
    if lines > 0 {
      var pix, m := PixelRows(width, rows), lines - 1;
      LayoutsAgree(width, offset, rows, m);
      LayoutsAgreeRow(width, offset, rows, m);
      ImageStep(Layout(true, false), width, offset, rows, m);
      ImageStep(Layout(false, false), width, offset, pix, m);
    }
  }
}
