/** The fix-up of an acceleration table: raise entries from the front until the total fits the base unit. */
module AvisionAcceleration {
  import opened SaneBytes

  function Total(s: seq<Byte>): nat {
    if s == [] then 0 else s[0] + Total(s[1..])
  }

  /** How much the entries except the last one can still grow. */
  function Headroom(s: seq<Byte>): nat {
    if |s| <= 1 then 0 else 255 - s[0] + Headroom(s[1..])
  }

  /** Add up to n to the entries, front first, none above 255, the last one untouched. */
  function Fill(s: seq<Byte>, n: nat): (r: seq<Byte>)
    ensures |r| == |s|
  {
    if |s| <= 1 then s else [s[0] + Raise(s[0], n)] + Fill(s[1..], n - Raise(s[0], n))
  }

  function Raise(x: Byte, n: nat): (d: nat)
    ensures d <= n && x + d <= 255
  {
    if 255 - x > n then n else 255 - x
  }

  /** No entry decreases, and the last one stays. */
  lemma {:induction false} FillRaises(s: seq<Byte>, n: nat, k: nat)
    requires k < |s|
    ensures s[k] <= Fill(s, n)[k] && (k == |s| - 1 ==> Fill(s, n)[k] == s[k])
  {
    if |s| > 1 && k > 0 {
      FillRaises(s[1..], n - Raise(s[0], n), k - 1);
    }
  }

  /** The entries are filled up from the front: an entry is raised only when those before it are full. */
  lemma {:induction false} FillFrontFirst(s: seq<Byte>, n: nat, i: nat, k: nat)
    requires i < k < |s| && s[k] < Fill(s, n)[k]
    ensures Fill(s, n)[i] == 255
  {
    var d := Raise(s[0], n);
    if i > 0 {
      FillFrontFirst(s[1..], n - d, i - 1, k - 1);
    } else if n - d == 0 {
      FillNothing(s[1..]);
    }
  }

  lemma {:induction false} FillTotal(s: seq<Byte>, n: nat)
    ensures Total(Fill(s, n)) == Total(s) + Min(n, Headroom(s))
  {
    if |s| > 1 {
      var d := Raise(s[0], n);
      FillTotal(s[1..], n - d);
      assert Fill(s, n)[1..] == Fill(s[1..], n - d);
    }
  }

  lemma {:induction false} FillNothing(s: seq<Byte>)
    ensures Fill(s, 0) == s
  {
    if |s| > 1 {
      FillNothing(s[1..]);
      assert s == [s[0]] + s[1..];
    }
  }

  // ---------------------------------------------------------------- the count to add

  /** Units missing to the next multiple of the base, as the 32-bit arithmetic computes it. */
  function Missing(total: nat, tableUnits: nat, baseUnits: nat): nat
    requires baseUnits > 0
  {
    var r := total * tableUnits % TWO32 % baseUnits;
    if r == 0 then 0 else baseUnits - r
  }

  /** With them, what the 32-bit product leaves is a multiple of the base; fewer would not do. */
  lemma MissingReaches(total: nat, tableUnits: nat, baseUnits: nat)
    requires baseUnits > 0
    ensures Missing(total, tableUnits, baseUnits) < baseUnits
    ensures (total * tableUnits % TWO32 + Missing(total, tableUnits, baseUnits)) % baseUnits == 0
  {
    var x := total * tableUnits % TWO32;
    var q, r := x / baseUnits, x % baseUnits;
    assert x == q * baseUnits + r;
    if r == 0 {
      DivUnique(x, baseUnits, q, 0);
    } else {
      MulSucc(q, baseUnits);
      DivUnique(x + baseUnits - r, baseUnits, q + 1, 0);
    }
  }

  /** The count that is added: the missing units in table units, as a signed word, at most 255. */
  function AddCount(missing: nat, tableUnits: nat): (c: int)
    requires missing > 0 ==> tableUnits > 0
    ensures c <= 255
  {
    if missing == 0 then 0
    else
      var q := missing / tableUnits;
      var signed := if q >= TWO32 / 2 then q - TWO32 else q;
      if signed > 255 then 255 else signed
  }

  lemma MissingNeedsUnits(total: nat, tableUnits: nat, baseUnits: nat)
    requires baseUnits > 0
    ensures Missing(total, tableUnits, baseUnits) > 0 ==> tableUnits > 0
  {
    if tableUnits == 0 {
      assert total * tableUnits == 0;
    }
  }

  function AddedTo(total: nat, tableUnits: nat, baseUnits: nat): (n: nat)
    requires baseUnits > 0
    ensures n <= 255
  {
    MissingNeedsUnits(total, tableUnits, baseUnits);
    NotNegative(AddCount(Missing(total, tableUnits, baseUnits), tableUnits))
  }

  function Added(s: seq<Byte>, tableUnits: nat, baseUnits: nat): nat
    requires baseUnits > 0
  {
    AddedTo(Total(s), tableUnits, baseUnits)
  }

  function NotNegative(c: int): nat { if c < 0 then 0 else c }

  lemma FillStep(s: seq<Byte>, i: nat, whole: seq<Byte>, done: seq<Byte>, left: nat)
    requires i + 1 < |s| && whole == done + Fill(s[i..], left)
    ensures whole == (done + [s[i] + Raise(s[i], left)]) + Fill(s[i + 1..], left - Raise(s[i], left))
  {
    var d := Raise(s[i], left);
    assert s[i..][1..] == s[i + 1..];
    assert Fill(s[i..], left) == [s[i] + d] + Fill(s[i + 1..], left - d);
  }

  lemma Raised(before: seq<Byte>, after: seq<Byte>, i: nat, s: seq<Byte>)
    requires i < |before| == |s| && before[i..] == s[i..] && |after| == |before| && after == before[i := after[i]]
    ensures after[..i + 1] == before[..i] + [after[i]] && after[i + 1..] == s[i + 1..]
  {
    assert after[i + 1..] == before[i..][1..];
  }

  /** Raise entry i as far as it goes. */
  method RaiseEntry(table: array<Byte>, i: nat, addCount: nat, ghost s: seq<Byte>, ghost whole: seq<Byte>) returns (left: nat)
    requires i + 1 < table.Length == |s| && Raising(s, whole, table[..], i, addCount)
    modifies table
    ensures Raising(s, whole, table[..], i + 1, left)
  {
    ghost var before := table[..];
    assert table[i] == table[i..][0];
    var temp := Raise(table[i], addCount);
    FillStep(s, i, whole, table[..i], addCount);
    table[i] := table[i] + temp;
    Raised(before, table[..], i, s);
    left := addCount - temp;
  }

  /** Raise the entries one after the other. */
  method RaiseEntries(table: array<Byte>, count: nat)
    modifies table
    ensures table[..] == Fill(old(table[..]), count)
  {
    ghost var s := table[..];
    ghost var whole := Fill(s, count);
    var i: nat, addCount: nat := 0, count;
    while i < table.Length - 1 && addCount > 0
      invariant |s| == table.Length && Raising(s, whole, table[..], i, addCount)
    {
      addCount := RaiseEntry(table, i, addCount, s, whole);
      i := i + 1;
    }
    AllRaised(s, whole, table[..], i, addCount);
  }

  /** The first i entries were raised, and `left` is still to be added to the others. */
  ghost predicate Raising(s: seq<Byte>, whole: seq<Byte>, table: seq<Byte>, i: nat, left: nat) {
    && i <= |table| == |s| && table[i..] == s[i..]
    && whole == table[..i] + Fill(s[i..], left)
  }

  lemma AllRaised(s: seq<Byte>, whole: seq<Byte>, table: seq<Byte>, i: nat, left: nat)
    requires Raising(s, whole, table, i, left) && (left == 0 || |s| - i <= 1)
    ensures table == whole
  {
    FillRest(s[i..], left);
    assert table == table[..i] + table[i..];
  }

  /** Nothing is filled any more when nothing is left to add, or only the last entry is left. */
  lemma FillRest(s: seq<Byte>, left: nat)
    requires left == 0 || |s| <= 1
    ensures Fill(s, left) == s
  {
    if left == 0 {
      FillNothing(s);
    }
  }

  method FixUp(table: array<Byte>, tableUnits: nat, baseUnits: nat)
    requires 0 < baseUnits < TWO32 && tableUnits < TWO32
    modifies table
    ensures table[..] == Fill(old(table[..]), Added(old(table[..]), tableUnits, baseUnits))
  {
    var total := TableTotal(table);
    MissingNeedsUnits(total, tableUnits, baseUnits);
    var addCount := AddCount(Missing(total, tableUnits, baseUnits), tableUnits);
    RaiseEntries(table, NotNegative(addCount));
  }

  method TableTotal(table: array<Byte>) returns (total: nat)
    ensures total == Total(table[..])
  {
    total := 0;
    for i := 0 to table.Length
      invariant total == Total(table[..i])
    {
      TotalLast(table[..i], table[i]);
      assert table[..i + 1] == table[..i] + [table[i]];
      total := total + table[i];
    }
    assert table[..table.Length] == table[..];
  }

  lemma {:induction false} TotalLast(s: seq<Byte>, x: Byte)
    ensures Total(s + [x]) == Total(s) + x
  {
    if s == [] {
      assert s + [x] == [x];
    } else {
      TotalLast(s[1..], x);
      assert (s + [x])[1..] == s[1..] + [x];
    }
  }

  // ---------------------------------------------------------------- when the table fits

  /** A remainder plus at most what is missing reaches the base only by the whole missing amount. */
  lemma ReachesBase(x: nat, y: nat, base: nat)
    requires base > 0 && x % base > 0 && y <= base - x % base
    ensures (x + y) % base == 0 <==> y == base - x % base
  {
    var q, r := x / base, x % base;
    assert x == q * base + r;
    MulSucc(q, base);
    if y == base - r {
      DivUnique(x + y, base, q + 1, 0);
    } else {
      DivUnique(x + y, base, q, r + y);
    }
  }

  lemma ExactQuotient(g: nat, u: nat, m: nat)
    requires u > 0 && g <= m / u
    ensures g * u <= m
    ensures g * u == m <==> m % u == 0 && g == m / u
  {
    MulMono(g, m / u, u);
    assert m == (m / u) * u + m % u;
    if g < m / u {
      MulStrict(g, m / u, u);
    }
  }

  lemma AddCountOf(missing: nat, u: nat)
    requires 0 < missing < TWO32 && u > 0
    ensures 0 <= missing / u <= missing
    ensures missing / u <= 255 ==> AddCount(missing, u) == missing / u
    ensures AddCount(missing, u) <= missing / u
    ensures AddCount(missing, u) == missing / u ==> missing / u <= 255
  {
    QuotientSmall(missing, u);
  }

  lemma MissingOf(t: nat, u: nat, base: nat)
    requires base > 0 && t * u < TWO32
    ensures var r := t * u % base; Missing(t, u, base) == if r == 0 then 0 else base - r
  {
    NonNegative(t, u);
  }

  /** Adding g table units, at most the whole quotient, reaches the base exactly by the whole quotient. */
  lemma ReachesBy(x: nat, g: nat, u: nat, base: nat)
    requires base > 0 && u > 0 && x % base > 0 && g <= (base - x % base) / u
    ensures (x + g * u) % base == 0 <==> (base - x % base) % u == 0 && g == (base - x % base) / u
  {
    ExactQuotient(g, u, base - x % base);
    NonNegative(g, u);
    ReachesBase(x, g * u, base);
  }

  /**
   After the fix-up the table's total is a multiple of the base exactly when it was
   before, or the missing amount is a whole number of table units, at most 255 of
   them, and the entries have room for them.
   */
  lemma FixUpFits(s: seq<Byte>, tableUnits: nat, baseUnits: nat)
    requires 0 < baseUnits < TWO32 && tableUnits < TWO32
    requires Total(s) * tableUnits < TWO32
    ensures var missing := Missing(Total(s), tableUnits, baseUnits);
      (Total(Fill(s, Added(s, tableUnits, baseUnits))) * tableUnits % baseUnits == 0
       <==> (missing == 0
             || (tableUnits > 0 && missing % tableUnits == 0 && missing / tableUnits <= Min(255, Headroom(s)))))
  {
    FillTotal(s, Added(s, tableUnits, baseUnits));
    ReachesWith(Total(s), tableUnits, baseUnits, Headroom(s));
  }

  /**
   How much the fix-up adds: the missing amount in table units, but at most 255, as far as the
   entries have room; nothing when it is too large for a signed word.
   */
  lemma FixUpAdds(s: seq<Byte>, tableUnits: nat, baseUnits: nat)
    requires 0 < baseUnits < TWO32 && tableUnits < TWO32
    ensures var missing := Missing(Total(s), tableUnits, baseUnits);
      && (missing > 0 ==> tableUnits > 0)
      && Total(Fill(s, Added(s, tableUnits, baseUnits))) - Total(s)
         == if missing == 0 then 0
            else Min(if missing / tableUnits < TWO32 / 2 then Min(missing / tableUnits, 255) else 0, Headroom(s))
  {
    var missing := Missing(Total(s), tableUnits, baseUnits);
    FillTotal(s, Added(s, tableUnits, baseUnits));
    MissingNeedsUnits(Total(s), tableUnits, baseUnits);
    MissingReaches(Total(s), tableUnits, baseUnits);
    if missing > 0 {
      QuotientSmall(missing, tableUnits);
    }
  }

  lemma ReachesWith(t: nat, u: nat, base: nat, room: nat)
    requires 0 < base < TWO32 && t * u < TWO32
    ensures var missing := Missing(t, u, base);
      ((t + Min(AddedTo(t, u, base), room)) * u % base == 0
       <==> (missing == 0 || (u > 0 && missing % u == 0 && missing / u <= Min(255, room))))
  {
    MissingNeedsUnits(t, u, base);
    MissingOf(t, u, base);
    NonNegative(t, u);
    var missing := Missing(t, u, base);
    var g := Min(AddedTo(t, u, base), room);
    MulAdd(t, g, u);
    if missing > 0 {
      AddCountOf(missing, u);
      ReachesBy(t * u, g, u, base);
    }
  }

  lemma QuotientSmall(m: nat, u: nat)
    requires u > 0
    ensures 0 <= m / u <= m
  {
    DivLess(m, u, m + 1);
    DivLess(m, u, 0);
    MulMono(1, u, m + 1);
  }

  /** When the table unit divides the base unit, only the limit and the room can stand in the way. */
  lemma UnitsDivide(t: nat, u: nat, k: nat)
    requires u > 0 && k > 0 && t * u < TWO32
    ensures Missing(t, u, k * u) % u == 0
  {
    MulMono(1, k, u);
    RemainderDivides(t, u, k);
    MissingOf(t, u, k * u);
    DifferenceDivides(k, u, t * u % (k * u));
  }

  lemma DifferenceDivides(k: int, u: int, r: int)
    requires u > 0 && r % u == 0
    ensures (k * u - r) % u == 0
  {
    assert r == r / u * u;
    MulSub(k, r / u, u);
    DivOfMultiple(k - r / u, u);
  }

  lemma RemainderDivides(t: nat, u: nat, k: nat)
    requires u > 0 && k > 0 && k * u > 0
    ensures (t * u % (k * u)) % u == 0
  {
    var base := k * u;
    var q, r := t * u / base, t * u % base;
    assert t * u == q * base + r;
    MulAssoc(q, k, u);
    MulSub(t, q * k, u);
    DivOfMultiple(t - q * k, u);
  }

  /** Otherwise a remainder can be left over: entries of 3 and 1, a unit of 2 and a base of 3. */
  lemma UnitsLeftOver()
    ensures var s: seq<Byte> := [3, 1];
      Total(Fill(s, Added(s, 2, 3))) * 2 % 3 != 0 && Headroom(s) == 252
  {
    var s: seq<Byte> := [3, 1];
    assert s[1..] == [1] && s[1..][1..] == [];
    assert Total(s[1..][1..]) == 0 && Total(s[1..]) == 1 && Total(s) == 4;
    assert Headroom(s[1..]) == 0;
    FillTotal(s, Added(s, 2, 3));
    assert Added(s, 2, 3) == 0;
  }
}
