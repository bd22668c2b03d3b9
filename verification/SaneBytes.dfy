/** Bytes, statuses and the small arithmetic facts shared by the backend models. */
module SaneBytes {

  type Byte = x: int | 0 <= x < 256

  datatype Status = Good | Eof | Inval | Cancelled | IoError | DeviceBusy | Unsupported

  const TWO32 := 0x1_0000_0000

  function Min(a: int, b: int): int { if a < b then a else b }

  /** The l-th line of a buffer whose lines are w bytes wide. */
  function LineOf(s: seq<Byte>, w: nat, l: nat): (r: seq<Byte>)
    requires l * w + w <= |s|
    ensures |r| == w
  {
    s[l * w..l * w + w]
  }

  lemma SliceSlice(s: seq<Byte>, n: nat, i: nat, j: nat)
    requires i <= j <= n <= |s|
    ensures s[..n][i..j] == s[i..j]
  {
  }

  lemma SliceOfSlice(s: seq<Byte>, a: nat, b: nat, i: nat, j: nat)
    requires a <= b <= |s| && i <= j <= b - a
    ensures s[a..b][i..j] == s[a + i..a + j]
  {
    var l, r := s[a..b][i..j], s[a + i..a + j];
    forall k | 0 <= k < j - i
      ensures l[k] == r[k]
    {
      assert l[k] == s[a..b][i + k];
      assert r[k] == s[a + i + k];
    }
  }

  lemma Associate(a: seq<Byte>, b: seq<Byte>, c: seq<Byte>)
    ensures a + (b + c) == a + b + c
  {
  }

  lemma PrefixAppend(a: seq<Byte>, b: seq<Byte>, c: seq<Byte>)
    requires a <= b
    ensures a <= b + c
  {
  }

  lemma LineOfPrefix(s: seq<Byte>, t: seq<Byte>, w: nat, l: nat)
    requires s <= t && l * w + w <= |s|
    ensures LineOf(s, w, l) == LineOf(t, w, l)
  {
  }

  lemma LineOfShift(a: seq<Byte>, b: seq<Byte>, w: nat, q: nat, l: nat)
    requires |a| == q * w && l * w + w <= |b|
    ensures (q + l) * w + w <= |a + b| && LineOf(a + b, w, q + l) == LineOf(b, w, l)
  {
    MulAdd(q, l, w);
  }

  lemma LineOfLast(s: seq<Byte>, x: seq<Byte>, w: nat, l: nat)
    requires |s| == l * w && |x| == w
    ensures LineOf(s + x, w, l) == x
  {
  }

  lemma LineOfAppend(s: seq<Byte>, x: seq<Byte>, w: nat, m: nat, n: nat)
    requires |s| == m * w && |x| == w && n <= m
    ensures n * w + w <= |s + x| && (n < m ==> n * w + w <= |s|)
    ensures LineOf(s + x, w, n) == if n < m then LineOf(s, w, n) else x
  {
    if n < m {
      MulStrict(n, m, w);
      LineOfPrefix(s, s + x, w, n);
    } else {
      LineOfLast(s, x, w, n);
    }
  }

  lemma MulSucc(a: int, w: int)
    ensures (a + 1) * w == a * w + w
    ensures (a - 1) * w == a * w - w
  {
  }

  lemma MulAdd(a: int, b: int, w: int)
    ensures (a + b) * w == a * w + b * w
  {
  }

  lemma MulSub(a: int, b: int, w: int)
    ensures (a - b) * w == a * w - b * w
  {
  }

  lemma MulTwice(a: int, w: int)
    ensures (2 * a) * w == 2 * (a * w)
  {
  }

  lemma MulAssoc(a: int, b: int, c: int)
    ensures a * (b * c) == (a * b) * c
  {
  }

  lemma NonNegative(a: int, b: int)
    requires a >= 0 && b >= 0
    ensures a * b >= 0
  {
  }

  /** n * w by repeated addition, for proofs in which products would be in the way. */
  function Times(n: nat, w: nat): nat { if n == 0 then 0 else Times(n - 1, w) + w }

  lemma {:induction false} TimesIs(n: nat, w: nat)
    ensures Times(n, w) == n * w
  {
    if n > 0 {
      TimesIs(n - 1, w);
      MulSucc(n, w);
    }
  }

  lemma {:induction false} TimesAdd(m: nat, n: nat, w: nat)
    ensures Times(m + n, w) == Times(m, w) + Times(n, w)
  {
    if n > 0 {
      TimesAdd(m, n - 1, w);
    }
  }

  lemma TimesMono(m: nat, n: nat, w: nat)
    requires m <= n
    ensures Times(m, w) <= Times(n, w)
  {
    TimesAdd(m, n - m, w);
  }

  lemma TimesNext(n: nat, count: nat, w: nat)
    requires n < count
    ensures Times(n, w) + w == Times(n + 1, w) <= Times(count, w)
  {
    TimesMono(n + 1, count, w);
  }

  lemma MulMono(a: nat, b: nat, w: nat)
    requires a <= b
    ensures a * w <= b * w
  {
  }

  lemma MulStrict(a: nat, b: nat, w: nat)
    requires a < b
    ensures a * w + w <= b * w
  {
    MulMono(a + 1, b, w);
    MulSucc(a, w);
  }

  lemma SplitProduct(a: int, b: int, d: int)
    requires d > 0 && a < b
    ensures b * d >= a * d + d
  {
    NonNegative(b - (a + 1), d);
    MulSub(b, a + 1, d);
    MulSucc(a, d);
  }

  /** Euclid's division is unique. */
  lemma DivUnique(x: int, d: int, q: int, r: int)
    requires d > 0 && x == q * d + r && 0 <= r < d
    ensures x / d == q && x % d == r
  {
    var p, m := x / d, x % d;
    assert x == p * d + m;
    if p < q {
      SplitProduct(p, q, d);
    } else if q < p {
      SplitProduct(q, p, d);
    }
  }

  lemma DivOfMultiple(n: int, d: int)
    requires d > 0
    ensures (n * d) / d == n && (n * d) % d == 0
  {
    DivUnique(n * d, d, n, 0);
  }

  /** Adding a multiple of the divisor shifts the quotient and keeps the remainder. */
  lemma DivAddMultiple(n: int, x: int, d: int)
    requires d > 0
    ensures (n * d + x) / d == n + x / d && (n * d + x) % d == x % d
  {
    assert x == (x / d) * d + x % d;
    assert n * d + x == (n + x / d) * d + x % d by { assert (n + x / d) * d == n * d + (x / d) * d; }
    DivUnique(n * d + x, d, n + x / d, x % d);
  }

  /** Number of whole w-byte lines in n bytes, and the bytes they take. */
  function Lines(n: nat, w: nat): nat
    requires w > 0
  {
    n / w
  }

  function WholeBytes(n: nat, w: nat): (r: nat)
    requires w > 0
    ensures r == Lines(n, w) * w && r <= n < r + w
    ensures r % w == 0
  {
    DivOfMultiple(Lines(n, w), w);
    n - n % w
  }

  lemma LineFits(n: nat, w: nat, l: nat)
    requires w > 0 && l < Lines(n, w)
    ensures l * w + w <= WholeBytes(n, w)
  {
    MulStrict(l, Lines(n, w), w);
  }

  lemma LinesOf(l: nat, r: nat, w: nat)
    requires r < w
    ensures Lines(l * w + r, w) == l && WholeBytes(l * w + r, w) == l * w
  {
    DivUnique(l * w + r, w, l, r);
  }

  lemma WholePlus(f: nat, r: nat, w: nat)
    requires r < w && f % w == 0
    ensures WholeBytes(f + r, w) == f
  {
    assert f == Lines(f, w) * w;
    LinesOf(Lines(f, w), r, w);
  }

  /** floor(a / d) < h exactly when a < h * d. */
  lemma DivLess(a: int, d: int, h: int)
    requires d > 0
    ensures a / d < h <==> a < h * d
  {
    var q, r := a / d, a % d;
    assert a == q * d + r;
    if q < h {
      SplitProduct(q, h, d);
    } else if h < q {
      SplitProduct(h, q, d);
    }
  }
}
