/** Cost of range checks and the power of two it favours
    (circuits/scripts/foreign_params_gen.py, cost_range_check and next_cheapest_power_of_2). */
module RangeCost {
  import opened Numbers

  const NB_PARALLEL_LOOKUPS: nat := 4

  // ---------------------------------------------------------------- what the cost means

  /** One row checks c parallel lookups of b bits each. */
  ghost predicate OneRow(maxBitLen: nat, bits: nat) {
    exists c: nat, b: nat :: Lookup(maxBitLen, c, b) && bits == c * b
  }

  ghost predicate Lookup(maxBitLen: nat, c: nat, b: nat) {
    1 <= c <= NB_PARALLEL_LOOKUPS && 1 <= b <= maxBitLen
  }

  ghost function Total(rows: seq<nat>): nat {
    if |rows| == 0 then 0 else rows[0] + Total(rows[1..])
  }

  /** rows decomposes n bits into rows that the chip supports. */
  ghost predicate Decomposes(maxBitLen: nat, n: nat, rows: seq<nat>) {
    (forall i :: 0 <= i < |rows| ==> OneRow(maxBitLen, rows[i])) && Total(rows) == n
  }

  // ---------------------------------------------------------------- the recurrence

  function Cost(maxBitLen: nat, n: nat): nat
    decreases n, NB_PARALLEL_LOOKUPS + 1, 0
  {
    if n == 0 then 0 else Best(maxBitLen, n, NB_PARALLEL_LOOKUPS, maxBitLen) + 1
  }

  /** Smallest remaining cost over the rows (c', b') that precede and include (c, b). */
  function Best(maxBitLen: nat, n: nat, c: nat, b: nat): nat
    requires n > 0 && b <= maxBitLen
    decreases n, c, b
  {
    if c == 0 then n
    else if b == 0 then Best(maxBitLen, n, c - 1, maxBitLen)
    else
      var best := Best(maxBitLen, n, c, b - 1);
      RowPositive(c, b);
      if n < c * b then best
      else
        var sol := Cost(maxBitLen, n - c * b);
        if sol < best then sol else best
  }

  lemma RowPositive(c: nat, b: nat)
    requires c >= 1 && b >= 1
    ensures c * b >= 1
  {
    MulLe(b, 1, c);
  }

  /** Best is a lower bound of every choice and is attained. */
  lemma {:induction false} BestIsLeast(maxBitLen: nat, n: nat, c: nat, b: nat, c': nat, b': nat)
    requires n > 0 && b <= maxBitLen && c' >= 1 && 1 <= b' <= maxBitLen && c' * b' <= n
    requires c' < c || (c' == c && b' <= b)
    ensures c' * b' >= 1 && Best(maxBitLen, n, c, b) <= Cost(maxBitLen, n - c' * b')
    decreases c, b
  {
    RowPositive(c', b');
    if b == 0 {
      BestIsLeast(maxBitLen, n, c - 1, maxBitLen, c', b');
    } else if (c', b') != (c, b) {
      BestIsLeast(maxBitLen, n, c, b - 1, c', b');
    }
  }

  lemma {:induction false} BestIsAttained(maxBitLen: nat, n: nat, c: nat, b: nat)
    returns (c': nat, b': nat)
    requires n > 0 && b <= maxBitLen && c <= NB_PARALLEL_LOOKUPS
    ensures Best(maxBitLen, n, c, b) <= n
    ensures Best(maxBitLen, n, c, b) < n ==>
              Lookup(maxBitLen, c', b') && 1 <= c' * b' <= n && Best(maxBitLen, n, c, b) == Cost(maxBitLen, n - c' * b')
    decreases c, b
  {
    c', b' := 0, 0;
    if c > 0 {
      if b == 0 {
        c', b' := BestIsAttained(maxBitLen, n, c - 1, maxBitLen);
      } else {
        c', b' := BestIsAttained(maxBitLen, n, c, b - 1);
        RowPositive(c, b);
        if c * b <= n && Cost(maxBitLen, n - c * b) < Best(maxBitLen, n, c, b - 1) {
          c', b' := c, b;
        }
      }
    }
  }

  /** No decomposition uses fewer rows than the cost. */
  lemma {:induction false} CostIsLowerBound(maxBitLen: nat, n: nat, rows: seq<nat>)
    requires Decomposes(maxBitLen, n, rows)
    ensures Cost(maxBitLen, n) <= |rows|
    decreases |rows|
  {
    if |rows| > 0 {
      var c: nat, b: nat :| Lookup(maxBitLen, c, b) && rows[0] == c * b;
      RowPositive(c, b);
      assert forall i :: 0 <= i < |rows[1..]| ==> rows[1..][i] == rows[i + 1];
      CostIsLowerBound(maxBitLen, n - rows[0], rows[1..]);
      BestIsLeast(maxBitLen, n, NB_PARALLEL_LOOKUPS, maxBitLen, c, b);
    }
  }

  lemma {:induction false} CostAtMost(maxBitLen: nat, n: nat)
    requires maxBitLen >= 1
    ensures Cost(maxBitLen, n) <= n
  {
    if n > 0 {
      CostAtMost(maxBitLen, n - 1);
      assert 1 * 1 == 1;
      BestIsLeast(maxBitLen, n, NB_PARALLEL_LOOKUPS, maxBitLen, 1, 1);
    }
  }

  /** The cost is attained, so it is the minimum number of rows. */
  lemma {:induction false} CostIsAttained(maxBitLen: nat, n: nat) returns (rows: seq<nat>)
    requires maxBitLen >= 1
    ensures Decomposes(maxBitLen, n, rows) && |rows| == Cost(maxBitLen, n)
    decreases n
  {
    if n == 0 {
      rows := [];
    } else {
      CostAtMost(maxBitLen, n);
      var c, b := BestIsAttained(maxBitLen, n, NB_PARALLEL_LOOKUPS, maxBitLen);
      var rest := CostIsAttained(maxBitLen, n - c * b);
      rows := [c * b] + rest;
      assert rows[1..] == rest;
      assert OneRow(maxBitLen, c * b);
    }
  }

  /** One row suffices exactly for one to four lookups of equal width. */
  lemma OneRowWhen(maxBitLen: nat, n: nat)
    requires maxBitLen >= 1
    ensures Cost(maxBitLen, n) == 1 <==> exists c: nat, b: nat :: 1 <= c <= 4 && 1 <= b <= maxBitLen && n == c * b
  {
    if c: nat, b: nat :| 1 <= c <= 4 && 1 <= b <= maxBitLen && n == c * b {
      assert Lookup(maxBitLen, c, b) && OneRow(maxBitLen, n);
      RowPositive(c, b);
      assert [n][1..] == [];
      CostIsLowerBound(maxBitLen, n, [n]);
      CostPositive(maxBitLen, n);
    }
    if Cost(maxBitLen, n) == 1 {
      var rows := CostIsAttained(maxBitLen, n);
      assert |rows| == 1;
      assert rows[1..] == [] && Total(rows) == rows[0] + Total(rows[1..]);
      assert OneRow(maxBitLen, rows[0]);
      var c: nat, b: nat :| Lookup(maxBitLen, c, b) && rows[0] == c * b;
      assert n == c * b;
    }
  }

  lemma CostPositive(maxBitLen: nat, n: nat)
    ensures Cost(maxBitLen, n) == 0 <==> n == 0
  {}

  /** Without any lookup the recursion answers one more than its initial estimate. */
  lemma CostOfNoLookups(n: nat)
    requires n > 0
    ensures Cost(0, n) == n + 1
  {
    NoLookups(n, NB_PARALLEL_LOOKUPS);
  }

  lemma {:induction false} NoLookups(n: nat, c: nat)
    requires n > 0
    ensures Best(0, n, c, 0) == n
  {
    if c > 0 {
      NoLookups(n, c - 1);
    }
  }

  // ---------------------------------------------------------------- the memoised computation

  class CostTable {
    var entries: map<(nat, nat), nat>

    ghost predicate Valid()
      reads this
    {
      forall k :: k in entries ==> entries[k] == Cost(k.0, k.1)
    }

    constructor ()
      ensures Valid()
    {
      entries := map[];
    }

    /** The recursion with its memo table. */
    method CostRangeCheck(maxBitLen: nat, n: nat) returns (r: nat)
      requires Valid()
      modifies this
      ensures Valid() && r == Cost(maxBitLen, n)
      decreases n
    {
      if n == 0 {
        return 0;
      }
      if (maxBitLen, n) in entries {
        return entries[(maxBitLen, n)];
      }
      var best := n;
      var c := 1;
      while c <= NB_PARALLEL_LOOKUPS
        invariant 1 <= c <= NB_PARALLEL_LOOKUPS + 1 && Valid()
        invariant best == Best(maxBitLen, n, c - 1, maxBitLen)
      {
        var b := 1;
        while b <= maxBitLen
          invariant 1 <= b <= maxBitLen + 1 && Valid()
          invariant best == Best(maxBitLen, n, c, b - 1)
        {
          RowPositive(c, b);
          if c * b <= n {
            var sol := CostRangeCheck(maxBitLen, n - c * b);
            if sol < best {
              best := sol;
            }
          }
          b := b + 1;
        }
        c := c + 1;
      }
      entries := entries[(maxBitLen, n) := best + 1];
      r := best + 1;
    }
  }

  // ---------------------------------------------------------------- next cheapest power of two

  /** Number of characters of bin(y) after the two-character prefix; a sign adds one. */
  function BinLength(y: int): nat {
    if y < 0 then 1 + Digits(-y) else Digits(y)
  }

  function Digits(y: nat): nat {
    if y < 2 then 1 else 1 + Digits(y / 2)
  }

  /** Digits(y) is the least positive number of bits that holds y. */
  lemma {:induction false} DigitsBound(y: nat)
    ensures y < Pow2(Digits(y)) && Digits(y) >= 1
    ensures y >= 1 ==> y >= Pow2(Digits(y) - 1)
  {
    if y >= 2 {
      DigitsBound(y / 2);
    }
  }

  /** The length of bin(y) without its prefix: one for zero, and the sign of a negative number counts. */
  lemma BinLengthMeaning(y: int)
    ensures BinLength(0) == 1
    ensures y > 0 ==> BinLength(y) >= 1 && Pow2(BinLength(y) - 1) <= y < Pow2(BinLength(y))
    ensures y < 0 ==> BinLength(y) >= 2 && Pow2(BinLength(y) - 2) <= -y < Pow2(BinLength(y) - 1)
  {
    if y > 0 {
      DigitsBound(y);
    } else if y < 0 {
      DigitsBound(-y);
    }
  }

  const CANDIDATES: nat := 127

  /** The exponent kept after i candidates: each one adds to the exponent kept so far and must be cheaper. */
  function PickLog(maxBitLen: nat, start: nat, i: nat): nat {
    if i == 0 then start
    else
      var log := PickLog(maxBitLen, start, i - 1);
      if Cost(maxBitLen, log + i) < Cost(maxBitLen, log) then log + i else log
  }

  /** The power of two that the script chooses for x. */
  function NextCheapest(maxBitLen: nat, x: int): nat {
    Pow2(PickLog(maxBitLen, BinLength(x - 1), CANDIDATES))
  }

  /** Every exponent kept is at least the first one and no more expensive. */
  lemma {:induction false} PickLogImproves(maxBitLen: nat, start: nat, i: nat)
    ensures PickLog(maxBitLen, start, i) >= start && Cost(maxBitLen, PickLog(maxBitLen, start, i)) <= Cost(maxBitLen, start)
  {
    hide Cost;
    if i > 0 {
      PickLogImproves(maxBitLen, start, i - 1);
    }
  }

  /** The search is greedy: what it keeps is no more expensive than any of its candidates, a candidate being the
      exponent kept so far plus its position; an exponent other than the first is such a candidate, cheaper than
      what was kept before it. */
  lemma {:induction false} PickLogIsGreedy(maxBitLen: nat, start: nat, n: nat, i: nat)
    requires 1 <= i <= n
    ensures Cost(maxBitLen, PickLog(maxBitLen, start, n)) <= Cost(maxBitLen, PickLog(maxBitLen, start, i - 1) + i)
    ensures Cost(maxBitLen, PickLog(maxBitLen, start, n)) <= Cost(maxBitLen, PickLog(maxBitLen, start, i - 1))
    ensures PickLog(maxBitLen, start, 0) == start
    ensures PickLog(maxBitLen, start, i) != PickLog(maxBitLen, start, i - 1) ==>
              && PickLog(maxBitLen, start, i) == PickLog(maxBitLen, start, i - 1) + i
              && Cost(maxBitLen, PickLog(maxBitLen, start, i)) < Cost(maxBitLen, PickLog(maxBitLen, start, i - 1))
    decreases n
  {
    hide Cost;
    if i < n {
      PickLogIsGreedy(maxBitLen, start, n - 1, i);
    }
  }

  /** The power chosen covers x, and its range check costs no more than that of the tightest power. */
  lemma NextCheapestCovers(maxBitLen: nat, x: int)
    ensures NextCheapest(maxBitLen, x) >= x && NextCheapest(maxBitLen, x) >= 2
    ensures NextCheapest(maxBitLen, x) == Pow2(PickLog(maxBitLen, BinLength(x - 1), 127))
    ensures Cost(maxBitLen, PickLog(maxBitLen, BinLength(x - 1), 127)) <= Cost(maxBitLen, BinLength(x - 1))
  {
    var start := BinLength(x - 1);
    assert start >= 1;
    if x >= 1 {
      DigitsBound(x - 1);
    }
    hide Cost, PickLog, BinLength, Digits;
    PickLogImproves(maxBitLen, start, CANDIDATES);
    Pow2Mono(start, PickLog(maxBitLen, start, CANDIDATES));
    Pow2Mono(1, PickLog(maxBitLen, start, CANDIDATES));
  }

  method NextCheapestPowerOf2(table: CostTable, maxBitLen: nat, x: int) returns (r: nat)
    requires table.Valid()
    modifies table
    ensures table.Valid() && r == NextCheapest(maxBitLen, x)
  {
    var bestLog := BinLength(x - 1);
    var best := table.CostRangeCheck(maxBitLen, bestLog);
    for i := 1 to 128
      invariant table.Valid() && best == Cost(maxBitLen, bestLog)
      invariant bestLog == PickLog(maxBitLen, BinLength(x - 1), i - 1)
    {
      var cost := table.CostRangeCheck(maxBitLen, bestLog + i);
      if cost < best {
        best := cost;
        bestLog := bestLog + i;
      }
    }
    r := Pow2(bestLog);
  }
}
