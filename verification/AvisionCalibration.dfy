/** Calibration of the Avision backend: chunked reads and the trimmed mean over a partial exchange sort. */
module AvisionCalibration {
  import opened SaneBytes
  import opened AvisionReader

  type Word = x: int | 0 <= x < 0x1_0000

  // ---------------------------------------------------------------- specification

  function Sum(s: seq<Word>): (r: nat)
    ensures r <= 0xFFFF * |s|
  {
    if s == [] then 0 else s[0] + Sum(s[1..])
  }

  predicate Sorted(s: seq<Word>) {
    forall p, q :: 0 <= p < q < |s| ==> s[p] <= s[q]
  }

  function Insert(x: Word, s: seq<Word>): (r: seq<Word>)
    requires Sorted(s)
    ensures Sorted(r) && |r| == |s| + 1
    ensures r != [] && (r[0] == x || (s != [] && r[0] == s[0]))
  {
    if s == [] || x <= s[0] then
      SortedCons(x, s);
      [x] + s
    else
      var t := Insert(x, s[1..]);
      SortedCons(s[0], t);
      [s[0]] + t
  }

  lemma {:induction false} InsertAdds(x: Word, s: seq<Word>)
    requires Sorted(s)
    ensures multiset(Insert(x, s)) == multiset(s) + multiset{x}
  {
    if s != [] && s[0] < x {
      InsertAdds(x, s[1..]);
      assert s == [s[0]] + s[1..];
    }
  }

  lemma SortedCons(x: Word, s: seq<Word>)
    requires Sorted(s) && (s != [] ==> x <= s[0])
    ensures Sorted([x] + s)
  {
    var t := [x] + s;
    forall p, q | 0 <= p < q < |t|
      ensures t[p] <= t[q]
    {
      assert t[q] == s[q - 1];
      if p > 0 {
        assert t[p] == s[p - 1];
      }
    }
  }

  /** The values in ascending order. */
  function SortedOf(s: seq<Word>): (r: seq<Word>)
    ensures Sorted(r) && multiset(r) == multiset(s) && |r| == |s|
  {
    if s == [] then []
    else
      InsertAdds(s[0], SortedOf(s[1..]));
      assert s == [s[0]] + s[1..];
      Insert(s[0], SortedOf(s[1..]))
  }

  function Mean(sum: nat, k: nat): Word
    requires k > 0 && sum <= 0xFFFF * k
  {
    MeanFits(sum, k);
    sum / k
  }

  /** The mean, rounded down, of all but the first third. */
  function TrimmedMean(s: seq<Word>): Word {
    if s == [] then 0 else Mean(Sum(s[|s| / 3..]), |s| - |s| / 3)
  }

  /** The mean, rounded down, of all but the smallest third. */
  function TopMean(s: seq<Word>): Word {
    TrimmedMean(SortedOf(s))
  }

  /** avg is the mean of s, rounded down. */
  ghost predicate IsMean(avg: int, s: seq<Word>) {
    if s == [] then avg == 0 else avg * |s| <= Sum(s) < (avg + 1) * |s|
  }

  lemma TopMeanIs(s: seq<Word>)
    ensures IsMean(TopMean(s), SortedOf(s)[|s| / 3..])
  {
    TrimmedMeanIs(SortedOf(s));
  }

  lemma TrimmedMeanIs(s: seq<Word>)
    ensures IsMean(TrimmedMean(s), s[|s| / 3..])
  {
    if s != [] {
      QuotientIs(Sum(s[|s| / 3..]), |s| - |s| / 3);
    }
  }

  lemma QuotientIs(a: nat, d: nat)
    requires d > 0
    ensures a / d * d <= a < (a / d + 1) * d
  {
    MulSucc(a / d, d);
  }

  lemma MeanFits(sum: nat, k: nat)
    requires k > 0 && sum <= 0xFFFF * k
    ensures 0 <= sum / k < 0x1_0000
  {
    DivLess(sum, k, 0x1_0000);
    DivLess(sum, k, 0);
  }

  /** The first n values are in order and none of the others is smaller. */
  predicate Selected(s: seq<Word>, n: nat) {
    forall p, q :: 0 <= p < n && p < q < |s| ==> s[p] <= s[q]
  }

  // ---------------------------------------------------------------- uniqueness

  lemma {:induction false} SumRemove(s: seq<Word>, k: nat)
    requires k < |s|
    ensures Sum(s) == s[k] + Sum(s[..k] + s[k + 1..])
    decreases k
  {
    if k == 0 {
      assert s[..0] + s[1..] == s[1..];
    } else {
      SumRemove(s[1..], k - 1);
      var t := s[..k] + s[k + 1..];
      assert t[1..] == s[1..][..k - 1] + s[1..][k..];
    }
  }

  lemma SumLast(s: seq<Word>, x: Word)
    ensures Sum(s + [x]) == Sum(s) + x
  {
    SumRemove(s + [x], |s|);
    assert (s + [x])[..|s|] + (s + [x])[|s| + 1..] == s;
  }

  lemma {:induction false} SumPermuted(s: seq<Word>, t: seq<Word>)
    requires multiset(s) == multiset(t)
    ensures Sum(s) == Sum(t)
    decreases |s|
  {
    if s == [] {
      assert |multiset(t)| == 0;
    } else {
      assert s[0] in multiset(t);
      var k :| 0 <= k < |t| && t[k] == s[0];
      SumRemove(t, k);
      RemoveBoth(s, t, k);
      SumPermuted(s[1..], t[..k] + t[k + 1..]);
    }
  }

  lemma RemoveBoth(s: seq<Word>, t: seq<Word>, k: nat)
    requires s != [] && k < |t| && t[k] == s[0] && multiset(s) == multiset(t)
    ensures multiset(s[1..]) == multiset(t[..k] + t[k + 1..])
  {
    assert s == [s[0]] + s[1..];
    assert t == t[..k] + [t[k]] + t[k + 1..];
    assert multiset(s[1..]) == multiset(s) - multiset{s[0]};
  }

  lemma TailMultiset(s: seq<Word>, t: seq<Word>, n: nat)
    requires n <= |s| && n <= |t| && s[..n] == t[..n] && multiset(s) == multiset(t)
    ensures multiset(s[n..]) == multiset(t[n..])
  {
    assert s == s[..n] + s[n..] && t == t[..n] + t[n..];
    assert multiset(s[n..]) == multiset(s) - multiset(s[..n]);
  }

  lemma SameSmallest(s: seq<Word>, t: seq<Word>)
    requires s != [] && t != [] && multiset(s) == multiset(t)
    requires Selected(s, 1) && Selected(t, 1)
    ensures s[0] == t[0]
  {
    assert s[0] in multiset(t) && t[0] in multiset(s);
    var i :| 0 <= i < |t| && t[i] == s[0];
    var j :| 0 <= j < |s| && s[j] == t[0];
  }

  /** The smallest n values in order are determined by the values alone. */
  lemma {:induction false} SelectedUnique(s: seq<Word>, t: seq<Word>, n: nat)
    requires multiset(s) == multiset(t) && |s| == |t| && n <= |s|
    requires Selected(s, n) && Selected(t, n)
    ensures s[..n] == t[..n] && multiset(s[n..]) == multiset(t[n..])
    decreases n
  {
    if n > 0 {
      SelectedUnique(s, t, n - 1);
      SameSmallest(s[n - 1..], t[n - 1..]);
      assert s[..n] == s[..n - 1] + [s[n - 1..][0]];
      assert t[..n] == t[..n - 1] + [t[n - 1..][0]];
    }
    TailMultiset(s, t, n);
  }

  /** There is one way only to put the values in order. */
  lemma SortedUnique(s: seq<Word>, t: seq<Word>)
    requires multiset(s) == multiset(t) && Sorted(s) && Sorted(t)
    ensures s == t
  {
    assert |multiset(s)| == |s| && |multiset(t)| == |t|;
    SelectedUnique(s, t, |s|);
    assert s[..|s|] == s && t[..|s|] == t;
  }

  /** The average does not depend on the order of the values. */
  lemma TopMeanOrderFree(s: seq<Word>, t: seq<Word>)
    requires multiset(s) == multiset(t)
    ensures TopMean(s) == TopMean(t)
  {
    SortedUnique(SortedOf(s), SortedOf(t));
  }

  /** Selecting the smallest third is enough to know the mean of the rest. */
  lemma SelectedMean(s: seq<Word>, t: seq<Word>)
    requires multiset(s) == multiset(t) && |s| == |t| && Selected(s, |t| / 3) && Selected(t, |t| / 3)
    ensures s[..|t| / 3] == t[..|t| / 3] && TrimmedMean(s) == TrimmedMean(t)
  {
    var n := |t| / 3;
    SelectedUnique(s, t, n);
    SumPermuted(s[n..], t[n..]);
  }

  // ---------------------------------------------------------------- the exchange sort

  lemma SwapKeeps(s: seq<Word>, i: nat, j: nat)
    requires i < j < |s|
    ensures multiset(s[i := s[j]][j := s[i]]) == multiset(s)
    ensures Selected(s, i) ==> Selected(s[i := s[j]][j := s[i]], i)
    ensures s[j] < s[i] && Least(s, i, j) ==> Least(s[i := s[j]][j := s[i]], i, j + 1)
  {
  }

  /** No value between i and j is below the i-th. */
  predicate Least(s: seq<Word>, i: nat, j: nat)
    requires i < j <= |s|
  {
    forall q :: i < q < j ==> s[i] <= s[q]
  }

  /** Bring the smallest of a[i..] to position i by exchanges. */
  method SelectSmallest(a: array<Word>, i: nat)
    requires i < a.Length && Selected(a[..], i)
    modifies a
    ensures multiset(a[..]) == old(multiset(a[..])) && Selected(a[..], i + 1)
  {
    for j := i + 1 to a.Length
      invariant multiset(a[..]) == old(multiset(a[..])) && Selected(a[..], i)
      invariant Least(a[..], i, j)
    {
      ghost var s := a[..];
      if a[i] > a[j] {
        SwapKeeps(s, i, j);
        a[i], a[j] := a[j], a[i];
        assert a[..] == s[i := s[j]][j := s[i]];
      } else {
        LeastOn(s, i, j);
      }
    }
    LeastSelected(a[..], i);
  }

  lemma LeastOn(s: seq<Word>, i: nat, j: nat)
    requires i < j < |s| && Least(s, i, j) && s[i] <= s[j]
    ensures Least(s, i, j + 1)
  {
  }

  lemma LeastSelected(s: seq<Word>, i: nat)
    requires i < |s| && Selected(s, i) && Least(s, i, |s|)
    ensures Selected(s, i + 1)
  {
  }

  method SumFrom(a: array<Word>, limit: nat) returns (sum: nat)
    requires limit <= a.Length
    ensures sum == Sum(a[limit..])
  {
    sum := 0;
    for i := limit to a.Length
      invariant sum == Sum(a[limit..i])
    {
      SumLast(a[limit..i], a[i]);
      assert a[limit..i + 1] == a[limit..i] + [a[i]];
      sum := sum + a[i];
    }
    assert a[limit..a.Length] == a[limit..];
  }

  /** Sort the smallest n values to the front. */
  method SortSmallest(a: array<Word>, n: nat)
    requires n <= a.Length
    modifies a
    ensures multiset(a[..]) == old(multiset(a[..])) && Selected(a[..], n)
  {
    for i := 0 to n
      invariant multiset(a[..]) == old(multiset(a[..])) && Selected(a[..], i)
    {
      SelectSmallest(a, i);
    }
  }

  lemma SelectedThird(s: seq<Word>, t: seq<Word>)
    requires multiset(s) == multiset(t) && Selected(s, |t| / 3) && |s| == |t|
    ensures s[..|t| / 3] == SortedOf(t)[..|t| / 3]
    ensures TopMean(t) == TrimmedMean(s)
  {
    SelectedMean(s, SortedOf(t));
  }

  method MeanFrom(a: array<Word>, limit: nat) returns (avg: Word)
    requires limit == a.Length / 3
    ensures avg == TrimmedMean(a[..])
  {
    if a.Length > 0 {
      var sum := SumFrom(a, limit);
      assert a[limit..] == a[..][limit..];
      avg := Mean(sum, a.Length - limit);
    } else {
      avg := 0;
    }
  }

  /** Sort the smallest third to the front and average the others. */
  method BubbleSort(a: array<Word>) returns (avg: Word)
    modifies a
    ensures multiset(a[..]) == old(multiset(a[..]))
    ensures a[..][..a.Length / 3] == SortedOf(old(a[..]))[..a.Length / 3]
    ensures avg == TopMean(old(a[..]))
    ensures var rest := SortedOf(old(a[..]))[a.Length / 3..];
      if rest == [] then avg == 0 else avg * |rest| <= Sum(rest) < (avg + 1) * |rest|
  {
    var limit := a.Length / 3;
    ghost var t := a[..];
    SortSmallest(a, limit);
    SelectedThird(a[..], t);
    avg := MeanFrom(a, limit);
    TopMeanIs(t);
  }

  // ---------------------------------------------------------------- averaging every element

  datatype Format = Format(elements: nat, lines: nat, wide: bool) {
    function Bpc(): nat { if wide then 2 else 1 }
    function Stride(): nat { Bpc() * elements }
    function Size(): nat { NonNegative(lines, Stride()); lines * Stride() }
  }

  /** Element i of line l, widened to 16 bits; two-byte samples are little-endian. */
  function Sample(f: Format, data: seq<Byte>, i: nat, l: nat): Word
    requires i < f.elements && l < f.lines && f.Size() <= |data|
  {
    SampleInside(f, i, l);
    var at := l * f.Stride() + f.Bpc() * i;
    var b: int := data[at];
    if f.wide then var h: int := data[at + 1]; b + 256 * h else 0xffff * b / 255
  }

  lemma SampleInside(f: Format, i: nat, l: nat)
    requires i < f.elements && l < f.lines
    ensures 0 <= l * f.Stride() && l * f.Stride() + f.Bpc() * i + f.Bpc() <= f.Size()
  {
    NonNegative(l, f.Stride());
    MulStrict(l, f.lines, f.Stride());
  }

  function Column(f: Format, data: seq<Byte>, i: nat): (r: seq<Word>)
    requires i < f.elements && f.Size() <= |data|
    ensures |r| == f.lines
  {
    seq(f.lines, l requires 0 <= l < f.lines => Sample(f, data, i, l))
  }

  /** Value l of column i: two bytes of line l, the lower one first, or one byte stretched to the whole range. */
  lemma ColumnIs(f: Format, data: seq<Byte>, i: nat, l: nat)
    requires i < f.elements && l < f.lines && f.Size() <= |data|
    ensures f.wide ==>
      && 0 <= l * (2 * f.elements) && l * (2 * f.elements) + 2 * i + 1 < |data|
      && var low: int, high: int := data[l * (2 * f.elements) + 2 * i], data[l * (2 * f.elements) + 2 * i + 1];
         Column(f, data, i)[l] == low + 256 * high
    ensures !f.wide ==>
      && 0 <= l * f.elements && l * f.elements + i < |data|
      && var b: int := data[l * f.elements + i]; Column(f, data, i)[l] == 257 * b
  {
    SampleInside(f, i, l);
  }

  /** What calibration makes of element i: it depends on that column alone. */
  function ColumnMean(f: Format, data: seq<Byte>, i: nat): Word
    requires i < f.elements && f.Size() <= |data|
  {
    TopMean(Column(f, data, i))
  }

  /** Copy all lines of element i into a linear array. */
  method LoadColumn(f: Format, data: seq<Byte>, i: nat) returns (a: array<Word>)
    requires i < f.elements && f.Size() <= |data|
    ensures fresh(a) && a[..] == Column(f, data, i)
  {
    a := new Word[f.lines];
    ghost var c := Column(f, data, i);
    for l := 0 to f.lines
      invariant forall k :: 0 <= k < l ==> a[k] == c[k]
    {
      a[l] := Sample(f, data, i, l);
    }
  }

  method AverageColumn(f: Format, data: seq<Byte>, i: nat) returns (mean: Word)
    requires i < f.elements && f.Size() <= |data|
    ensures mean == ColumnMean(f, data, i)
  {
    var a := LoadColumn(f, data, i);
    mean := BubbleSort(a);
  }

  function MeanOf(f: Format, data: seq<Byte>): nat -> Word
    requires f.Size() <= |data|
  {
    (i: nat) => if i < f.elements then ColumnMean(f, data, i) else 0
  }

  /** The first n values of g. */
  function FirstOf(g: nat -> Word, n: nat): seq<Word> {
    if n == 0 then [] else FirstOf(g, n - 1) + [g(n - 1)]
  }

  lemma {:induction false} FirstOfAt(g: nat -> Word, n: nat)
    ensures |FirstOf(g, n)| == n && forall i :: 0 <= i < n ==> FirstOf(g, n)[i] == g(i)
  {
    if n > 0 {
      FirstOfAt(g, n - 1);
    }
  }

  function ColumnMeans(f: Format, data: seq<Byte>): seq<Word>
    requires f.Size() <= |data|
  {
    FirstOf(MeanOf(f, data), f.elements)
  }

  /** Each element of the result averages its own column. */
  lemma ColumnMeansAt(f: Format, data: seq<Byte>, i: nat)
    requires i < f.elements && f.Size() <= |data|
    ensures |ColumnMeans(f, data)| == f.elements && ColumnMeans(f, data)[i] == ColumnMean(f, data, i)
  {
    FirstOfAt(MeanOf(f, data), f.elements);
  }

  method SortAndAverage(f: Format, data: seq<Byte>) returns (avg: seq<Word>)
    requires f.Size() <= |data|
    ensures avg == ColumnMeans(f, data) && |avg| == f.elements
    ensures forall i :: 0 <= i < f.elements ==> IsMean(avg[i], SortedOf(Column(f, data, i))[f.lines / 3..])
  {
    avg := [];
    for i := 0 to f.elements
      invariant avg == FirstOf(MeanOf(f, data), i)
    {
      var mean := AverageColumn(f, data, i);
      avg := avg + [mean];
    }
    forall i | 0 <= i < f.elements
      ensures |ColumnMeans(f, data)| == f.elements
      ensures IsMean(ColumnMeans(f, data)[i], SortedOf(Column(f, data, i))[f.lines / 3..])
    {
      ColumnMeansAt(f, data, i);
      TopMeanIs(Column(f, data, i));
    }
    FirstOfAt(MeanOf(f, data), f.elements);
  }

  // ---------------------------------------------------------------- chunked reads

  /**
   Read the calibration data in chunks.  Each request is cut to what is left and made
   fit for the device; a short answer also limits the following requests.  The first
   answer that is not good ends it.
   */
  method GetCalibData(device: seq<Byte>, buffer: array<Byte>, averse64: bool)
    returns (status: Status, ghost answers: seq<Status>)
    requires buffer.Length <= |device|
    modifies buffer
    ensures status == Good ==> buffer[..] == device[..buffer.Length]
    ensures status == Good ==> forall k :: 0 <= k < |answers| ==> answers[k] == Good
    ensures status != Good ==> answers != [] && status == answers[|answers| - 1]
    ensures forall k :: 0 <= k < |answers| - 1 ==> answers[k] == Good
  {
    var getSize, left, at := buffer.Length, buffer.Length, 0;
    status, answers := Good, [];
    while left > 0
      invariant at + left == buffer.Length && (left > 0 ==> 0 < getSize)
      invariant 0 <= left && 0 <= getSize
      invariant buffer[..at] == device[..at]
      invariant status == Good && forall k :: 0 <= k < |answers| ==> answers[k] == Good
      decreases left
    {
      if getSize > left {
        getSize := left;
      }
      getSize := ReadConstrains(averse64, getSize);
      assert averse64 ==> getSize % 64 != 0;
      status := *;
      answers := answers + [status];
      if status != Good {
        return;
      }
      getSize := ReadData(device, at, buffer, at, getSize);
      left, at := left - getSize, at + getSize;
    }
  }
}
