/**
 Colour realignment in the Artec backend.  The three colours of a pixel row arrive
 `offset` scanner rows apart; a FIFO of 2 * offset line buffers, rotated by moving
 pointers, brings them together again.
 */
module ArtecRealign {
  import opened SaneBytes

  /** How the scanner delivers a colour row. */
  datatype Layout = Layout(
    planar: bool,     // ARTEC_FLAG_RGB_CHAR_SHIFT: three colour planes per row
    reversed: bool    // ARTEC_FLAG_IMAGE_REV_LR: rows and colours run backwards
  )

  /** The colour (0 red, 1 green, 2 blue) of byte k of a row of 3 * width bytes. */
  function ColorOf(y: Layout, width: nat, k: nat): nat {
    if y.planar then (if k < width then 0 else if k < 2 * width then 1 else 2)
    else if y.reversed then 2 - k % 3
    else k % 3
  }

  /** One realigned row: each byte from the row that holds its colour. */
  function Align(y: Layout, width: nat, red: seq<Byte>, green: seq<Byte>, blue: seq<Byte>): (r: seq<Byte>)
    requires |red| == |green| == |blue| == 3 * width
    ensures |r| == 3 * width
  {
    seq(3 * width, k requires 0 <= k < 3 * width =>
      match ColorOf(y, width, k) case 0 => red[k] case 1 => green[k] case _ => blue[k])
  }

  /** Where byte k of the pixels is found among three planes. */
  function PlaneByte(width: nat, k: nat): nat {
    k / 3 + if k % 3 == 0 then 0 else if k % 3 == 1 then width else 2 * width
  }

  /** Three planes become pixels. */
  function ToPixels(width: nat, s: seq<Byte>): (r: seq<Byte>)
    requires |s| == 3 * width
    ensures |r| == 3 * width
  {
    seq(3 * width, k requires 0 <= k < 3 * width => s[PlaneByte(width, k)])
  }

  /** The pixels of a row in opposite order. */
  function Mirror(width: nat, s: seq<Byte>): (r: seq<Byte>)
    requires |s| == 3 * width
    ensures |r| == 3 * width
  {
    seq(3 * width, k requires 0 <= k < 3 * width => s[3 * (width - 1 - k / 3) + k % 3])
  }

  /** An aligned row as pixels. */
  function Pixels(y: Layout, width: nat, s: seq<Byte>): (r: seq<Byte>)
    requires |s| == 3 * width
    ensures |r| == 3 * width
  {
    if y.planar then ToPixels(width, s) else s
  }

  /** What the host returns for three aligned scanner rows. */
  function Finish(y: Layout, width: nat, s: seq<Byte>): (r: seq<Byte>)
    requires |s| == 3 * width
    ensures |r| == 3 * width
  {
    if y.reversed then Mirror(width, Pixels(y, width, s)) else Pixels(y, width, s)
  }

  /** result takes pixel p from the bytes a, b and c of s. */
  ghost predicate Triple(result: seq<Byte>, p: nat, s: seq<Byte>, a: nat, b: nat, c: nat) {
    && 3 * p + 2 < |result| && a < |s| && b < |s| && c < |s|
    && result[3 * p] == s[a] && result[3 * p + 1] == s[b] && result[3 * p + 2] == s[c]
  }

  ghost predicate FromPlanes(width: nat, result: seq<Byte>, p: nat, s: seq<Byte>) {
    Triple(result, p, s, p, p + width, p + 2 * width)
  }

  ghost predicate FromBack(width: nat, result: seq<Byte>, p: nat, s: seq<Byte>) {
    p < width && var q := 3 * (width - 1 - p); Triple(result, p, s, q, q + 1, q + 2)
  }

  lemma ToPixelsAt(width: nat, s: seq<Byte>, p: nat)
    requires |s| == 3 * width && p < width
    ensures FromPlanes(width, ToPixels(width, s), p, s)
  {
    assert PlaneByte(width, 3 * p) == p;
    assert PlaneByte(width, 3 * p + 1) == p + width;
    assert PlaneByte(width, 3 * p + 2) == p + 2 * width;
  }

  lemma MirrorAt(width: nat, s: seq<Byte>, p: nat)
    requires |s| == 3 * width && p < width
    ensures FromBack(width, Mirror(width, s), p, s)
  {
    var m := Mirror(width, s);
    assert (3 * p) / 3 == p && (3 * p + 1) / 3 == p && (3 * p + 2) / 3 == p;
  }

  method PutPlanes(data: array<Byte>, width: nat, copy: seq<Byte>, ghost result: seq<Byte>)
    requires data.Length == 3 * width == |copy| == |result|
    requires forall p: nat :: p < width ==> FromPlanes(width, result, p, copy)
    modifies data
    ensures data[..] == result
  {
    for count := 0 to width
      invariant forall k :: 0 <= k < 3 * count ==> data[k] == result[k]
    {
      assert FromPlanes(width, result, count, copy);
      data[3 * count] := copy[count];
      data[3 * count + 1] := copy[count + width];
      data[3 * count + 2] := copy[count + 2 * width];
    }
  }

  /** artec_line_rgb_to_byte_rgb: rewrite the row in place from a copy. */
  method LineToPixels(data: array<Byte>, width: nat)
    requires data.Length == 3 * width
    modifies data
    ensures data[..] == ToPixels(width, old(data[..]))
  {
    var copy := data[..];
    forall p: nat | p < width
      ensures FromPlanes(width, ToPixels(width, copy), p, copy)
    {
      ToPixelsAt(width, copy, p);
    }
    PutPlanes(data, width, copy, ToPixels(width, copy));
  }

  method PutBackwards(data: array<Byte>, width: nat, copy: seq<Byte>, ghost result: seq<Byte>)
    requires data.Length == 3 * width == |copy| == |result|
    requires forall p: nat :: p < width ==> FromBack(width, result, p, copy)
    modifies data
    ensures data[..] == result
  {
    var to, from := 3 * width - 3, 0;
    ghost var p := width - 1;
    while to >= 0
      invariant -1 <= p && to == 3 * p && from == 3 * (width - 1 - p)
      invariant forall k :: to + 3 <= k < 3 * width ==> data[k] == result[k]
    {
      assert FromBack(width, result, p, copy);
      data[to] := copy[from];
      data[to + 1] := copy[from + 1];
      data[to + 2] := copy[from + 2];
      to, from, p := to - 3, from + 3, p - 1;
    }
  }

  /** artec_reverse_line for colour rows: from the front of a copy to the back of the row. */
  method ReverseLine(data: array<Byte>, width: nat)
    requires data.Length == 3 * width
    modifies data
    ensures data[..] == Mirror(width, old(data[..]))
  {
    var copy := data[..];
    forall p: nat | p < width
      ensures FromBack(width, Mirror(width, copy), p, copy)
    {
      MirrorAt(width, copy, p);
    }
    PutBackwards(data, width, copy, Mirror(width, copy));
  }

  /** The first line leaves the FIFO, the new one joins it. */
  function Push(fifo: seq<seq<Byte>>, x: seq<Byte>): (r: seq<seq<Byte>>)
    requires fifo != []
    ensures |r| == |fifo|
  {
    fifo[1..] + [x]
  }

  /** tmp holds the red bytes of one row and the green bytes of another. */
  ghost predicate Picked(y: Layout, width: nat, tmp: seq<Byte>, red: seq<Byte>, green: seq<Byte>) {
    && |tmp| == |red| == |green| == 3 * width
    && (forall k :: 0 <= k < 3 * width && ColorOf(y, width, k) == 0 ==> tmp[k] == red[k])
    && (forall k :: 0 <= k < 3 * width && ColorOf(y, width, k) == 1 ==> tmp[k] == green[k])
  }

  /** Separate line buffers of n bytes each, all of them among `buffers`. */
  ghost predicate Separate(lines: seq<array<Byte>>, n: nat, buffers: set<array<Byte>>) {
    && (forall i :: 0 <= i < |lines| ==> lines[i].Length == n && lines[i] in buffers)
    && (forall i, j :: 0 <= i < j < |lines| ==> lines[i] != lines[j])
  }

  function Rotated(lines: seq<array<Byte>>): seq<array<Byte>>
    requires lines != []
  {
    lines[1..] + [lines[0]]
  }

  lemma RotatedSeparate(lines: seq<array<Byte>>, n: nat, buffers: set<array<Byte>>)
    requires lines != [] && Separate(lines, n, buffers)
    ensures Separate(Rotated(lines), n, buffers)
  {
  }

  /** The contents of line buffers. */
  ghost function Contents(lines: seq<array<Byte>>): (f: seq<seq<Byte>>)
    reads lines
    ensures |f| == |lines|
  {
    seq(|lines|, i requires 0 <= i < |lines| reads lines => lines[i][..])
  }

  method CopyRow(to: array<Byte>, from: array<Byte>)
    requires to != from && to.Length == from.Length
    modifies to
    ensures to[..] == from[..]
  {
    forall k | 0 <= k < to.Length { to[k] := from[k]; }
  }

  class Realigner {
    const layout: Layout
    const width: nat
    const offset: nat
    const tmp: array<Byte>
    ghost const buffers: set<array<Byte>>
    var lines: seq<array<Byte>>   // the rotating buffer pointers
    var curLine: nat

    ghost predicate Valid()
      reads this
    {
      |lines| == 2 * offset && tmp.Length == 3 * width && Separate(lines, 3 * width, buffers) && tmp !in buffers
    }

    /** The buffered lines, oldest first. */
    ghost function Fifo(): (f: seq<seq<Byte>>)
      reads this, lines
      ensures |f| == |lines|
    {
      Contents(lines)
    }

    constructor (layout: Layout, width: nat, offset: nat)
      ensures Valid() && curLine == 0 && fresh(tmp) && fresh(buffers)
      ensures this.layout == layout && this.width == width && this.offset == offset
    {
      this.layout, this.width, this.offset, curLine := layout, width, offset, 0;
      var t := new Byte[3 * width];
      tmp := t;
      var ls: seq<array<Byte>> := [];
      ghost var all: set<array<Byte>> := {};
      for count := 0 to 2 * offset
        invariant |ls| == count && fresh(t) && fresh(all) && t !in all
        invariant Separate(ls, 3 * width, all)
      {
        var l := new Byte[3 * width];
        ls, all := ls + [l], all + {l};
      }
      lines, buffers := ls, all;
    }

    /** Move all buffered lines down by moving their pointers. */
    method Rotate()
      requires lines != []
      modifies this`lines
      ensures lines == Rotated(old(lines))
    {
      var first := lines[0];
      for count := 0 to |lines| - 1
        invariant |lines| == |old(lines)|
        invariant forall k :: 0 <= k < count ==> lines[k] == old(lines)[k + 1]
        invariant forall k :: count <= k < |lines| ==> lines[k] == old(lines)[k]
      {
        lines := lines[count := lines[count + 1]];
      }
      lines := lines[|lines| - 1 := first];
    }

    /** Collect red and green of the oldest lines in tmp. */
    method Collect()
      requires Valid() && 0 < offset
      modifies tmp
      ensures Picked(layout, width, tmp[..], Fifo()[0], Fifo()[offset])
    {
      var red, green := lines[0], lines[offset];
      if layout.planar {
        forall k | 0 <= k < width { tmp[k] := red[k]; }
        forall k | width <= k < 2 * width { tmp[k] := green[k]; }
      } else {
        forall k | 0 <= k < 3 * width { tmp[k] := red[k]; }
        for count := 0 to width
          invariant forall k :: 0 <= k < 3 * width ==> tmp[k] == if k % 3 == 1 && k < 3 * count then green[k] else red[k]
        {
          tmp[3 * count + 1] := green[3 * count + 1];
        }
      }
    }

    /** Put red and green from tmp beside the blue of the new row. */
    method Merge(data: array<Byte>)
      requires data.Length == 3 * width == tmp.Length && data != tmp
      modifies tmp, data
      ensures forall red, green :: Picked(layout, width, old(tmp[..]), red, green) ==>
        data[..] == Align(layout, width, red, green, old(data[..]))
    {
      if layout.planar {
        forall k | 0 <= k < 2 * width { data[k] := tmp[k]; }
      } else {
        var first := if layout.reversed then 0 else 2;
        for count := 0 to width
          invariant data[..] == old(data[..])
          invariant forall k :: 0 <= k < 3 * width ==>
            tmp[k] == if k % 3 == first && k < 3 * count then data[k] else old(tmp[k])
        {
          tmp[3 * count + first] := data[3 * count + first];
        }
        forall k | 0 <= k < 3 * width { data[k] := tmp[k]; }
      }
    }

    /** Put a new row at the end of the FIFO, into the buffer that just left its front. */
    method Enqueue(data: array<Byte>)
      requires Valid() && 0 < offset && data.Length == 3 * width && data !in buffers
      modifies `lines, buffers
      ensures lines == Rotated(old(lines)) && Fifo() == Push(old(Fifo()), old(data[..]))
    {
      Rotate();
      var last := lines[|lines| - 1];
      CopyRow(last, data);
      ghost var before, after := old(Fifo()), Fifo();
      forall i | 0 <= i < |after|
        ensures after[i] == Push(before, data[..])[i]
      {
        if i < |after| - 1 {
          assert lines[i] == old(lines)[i + 1];
        }
      }
    }

    /** With a full FIFO: red and green leave, the new row joins, and its blue completes the output. */
    method Exchange(data: array<Byte>)
      requires Valid() && 0 < offset && data.Length == 3 * width && data != tmp && data !in buffers
      modifies `lines, buffers, tmp, data
      ensures lines == Rotated(old(lines)) && Fifo() == Push(old(Fifo()), old(data[..]))
      ensures |old(Fifo())[0]| == |old(Fifo())[offset]| == 3 * width
      ensures data[..] == Align(layout, width, old(Fifo())[0], old(Fifo())[offset], old(data[..]))
    {
      ghost var red, green := Fifo()[0], Fifo()[offset];
      Collect();
      RotatedSeparate(lines, 3 * width, buffers);
      ghost var row, picked := data[..], tmp[..];
      Enqueue(data);
      assert data[..] == row && tmp[..] == picked;
      assert forall i :: 0 <= i < |lines| ==> lines[i] != data && lines[i] != tmp;
      ghost var fifo := Fifo();
      MergeRow(data, red, green);
      assert Fifo() == fifo;
    }

    /** Merge for the two rows whose bytes were collected. */
    method MergeRow(data: array<Byte>, ghost red: seq<Byte>, ghost green: seq<Byte>)
      requires data.Length == 3 * width == tmp.Length && data != tmp && Picked(layout, width, tmp[..], red, green)
      modifies tmp, data
      ensures data[..] == Align(layout, width, red, green, old(data[..]))
    {
      Merge(data);
    }

    /** artec_buffer_line_offset: take one row; once the FIFO is full, return a realigned one. */
    method BufferLine(data: array<Byte>) returns (len: nat)
      requires Valid() && data.Length == 3 * width && data != tmp && data !in buffers
      modifies `lines, `curLine, buffers, tmp, data
      ensures Valid() && curLine == old(curLine) + 1
      ensures if offset == 0 then data[..] == old(data[..]) && len == 3 * width && lines == old(lines)
              else Fifo() == Push(old(Fifo()), old(data[..]))
      ensures 0 < offset && old(curLine) < 2 * offset ==> len == 0
      ensures 0 < offset && 2 * offset <= old(curLine) ==>
        && len == 3 * width && |old(Fifo())[0]| == |old(Fifo())[offset]| == 3 * width
        && data[..] == Align(layout, width, old(Fifo())[0], old(Fifo())[offset], old(data[..]))
    {
      len := 3 * width;
      curLine := curLine + 1;
      if 2 * offset > 0 {
        RotatedSeparate(lines, 3 * width, buffers);
        if curLine > 2 * offset {
          Exchange(data);
        } else {
          Enqueue(data);
          len := 0;
        }
      }
    }
  }
}
