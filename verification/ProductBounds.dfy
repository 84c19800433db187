/** Size bounds of the product and square columns, as their loops build them
    (circuits/src/biguint/biguint_gadget.rs, mul and square). */
module ProductBounds {
  import opened BigNat
  import opened LimbBounds

  /** Bounds after i full rows and the first j entries of row i. */
  ghost function MulBounds(a: seq<nat>, b: seq<nat>, i: nat, j: nat): (r: seq<nat>)
    requires |a| >= 1 && |b| >= 1 && j <= |b| && i <= |a| && (j > 0 ==> i < |a|)
    ensures |r| == |a| + |b| - 1
    decreases i, j
  {
    if j > 0 then
      var s := MulBounds(a, b, i, j - 1);
      s[i + j - 1 := BoundOfAddition(s[i + j - 1], a[i] + b[j - 1])]
    else if i > 0 then MulBounds(a, b, i - 1, |b|)
    else seq(|a| + |b| - 1, _ => 0)
  }

  ghost function ProductOf(a: seq<nat>, b: seq<nat>): (r: seq<nat>)
    requires |a| >= 1 && |b| >= 1
  {
    MulBounds(a, b, |a|, 0)
  }

  lemma {:induction false} MulBoundsPositive(a: seq<nat>, b: seq<nat>, i: nat, j: nat, k: nat)
    requires |a| >= 1 && |b| >= 1 && j <= |b| && i <= |a| && (j > 0 ==> i < |a|)
    requires forall m :: 0 <= m < |a| ==> a[m] >= 1
    requires (i > 0 && k < i - 1 + |b|) || i <= k < i + j
    ensures MulBounds(a, b, i, j)[k] >= 1
    decreases i, j
  {
    if j > 0 {
      if k != i + j - 1 {
        MulBoundsPositive(a, b, i, j - 1, k);
      }
    } else {
      MulBoundsPositive(a, b, i - 1, |b|, k);
    }
  }

  /** Rows among the first i that touch column k, for rows of n entries. */
  ghost function Rows(k: nat, i: nat, n: nat): (r: nat)
    ensures r <= i && r <= n && (r > 0 && i <= k + 1 ==> r + k + 1 <= n + i)
  {
    if i == 0 then 0 else Rows(k, i - 1, n) + (if i - 1 <= k < i - 1 + n then 1 else 0)
  }

  ghost predicate Small(bound: nat, single: nat, terms: nat) {
    if terms == 0 then bound == 0 else bound + 1 <= single + terms
  }

  /** A column of t terms of at most 192 bits has at most 191 + t bits. */
  lemma {:induction false} MulBoundsSmall(a: seq<nat>, b: seq<nat>, i: nat, j: nat, k: nat)
    requires |a| >= 1 && |b| >= 1 && j <= |b| && i <= |a| && (j > 0 ==> i < |a|) && k < |a| + |b| - 1
    requires Normalized(a) && Normalized(b)
    ensures Small(MulBounds(a, b, i, j)[k], 2 * LOG2_BASE, Rows(k, i, |b|) + (if i <= k < i + j then 1 else 0))
    decreases i, j
  {
    if j > 0 {
      MulBoundsSmall(a, b, i, j - 1, k);
    } else if i > 0 {
      MulBoundsSmall(a, b, i - 1, |b|, k);
    }
  }

  lemma ProductSmall(a: seq<nat>, b: seq<nat>, k: nat)
    requires |a| >= 1 && |b| >= 1 && k < |a| + |b| - 1 && Normalized(a) && Normalized(b)
    ensures ProductOf(a, b)[k] + 1 <= 2 * LOG2_BASE + (if |a| <= |b| then |a| else |b|)
  {
    hide MulBounds;
    MulBoundsSmall(a, b, |a|, 0, k);
  }

  /** Bounds after i full rows and the entries i..j of row i; row i starts at its diagonal. */
  ghost function SquareBounds(a: seq<nat>, i: nat, j: nat): (r: seq<nat>)
    requires |a| >= 1 && i <= j <= |a|
    ensures |r| == 2 * |a| - 1
    decreases i, j
  {
    if j > i then
      var s := SquareBounds(a, i, j - 1);
      s[i + j - 1 := BoundOfAddition(s[i + j - 1], if j - 1 == i then 2 * a[i] else 1 + a[i] + a[j - 1])]
    else if i > 0 then SquareBounds(a, i - 1, |a|)
    else seq(2 * |a| - 1, _ => 0)
  }

  ghost function SquareOf(a: seq<nat>): (r: seq<nat>)
    requires |a| >= 1
  {
    SquareBounds(a, |a|, |a|)
  }

  lemma {:induction false} SquareBoundsPositive(a: seq<nat>, i: nat, j: nat, k: nat)
    requires |a| >= 1 && i <= j <= |a| && forall m :: 0 <= m < |a| ==> a[m] >= 1
    requires (i > 0 && k < i - 1 + |a|) || 2 * i <= k < i + j
    ensures SquareBounds(a, i, j)[k] >= 1
    decreases i, j
  {
    if j > i {
      if k != i + j - 1 {
        SquareBoundsPositive(a, i, j - 1, k);
      }
    } else {
      SquareBoundsPositive(a, i - 1, |a|, k);
    }
  }

  lemma {:induction false} SquareBoundsSmall(a: seq<nat>, i: nat, j: nat, k: nat) returns (t: nat)
    requires |a| >= 1 && i <= j <= |a| && k < 2 * |a| - 1 && Normalized(a)
    ensures t <= i + (if 2 * i <= k < i + j then 1 else 0)
    ensures Small(SquareBounds(a, i, j)[k], 2 * LOG2_BASE + 1, t)
    decreases i, j
  {
    t := 0;
    if j > i {
      t := SquareBoundsSmall(a, i, j - 1, k);
      if k == i + j - 1 {
        t := t + 1;
      }
    } else if i > 0 {
      t := SquareBoundsSmall(a, i - 1, |a|, k);
    }
  }

  lemma SquareSmall(a: seq<nat>, k: nat)
    requires |a| >= 1 && k < 2 * |a| - 1 && Normalized(a)
    ensures SquareOf(a)[k] <= 2 * LOG2_BASE + |a|
  {
    hide SquareBounds;
    var t := SquareBoundsSmall(a, |a|, |a|, k);
  }

  // ---------------------------------------------------------------- the bounds, column by column

  /** The bounds of the terms of product column k with first index below n, added one after another. */
  ghost function ColumnBound(a: seq<nat>, b: seq<nat>, k: nat, n: nat): nat
    requires n <= |a|
  {
    if n == 0 then 0
    else BoundOfAddition(ColumnBound(a, b, k, n - 1), if n - 1 <= k < n - 1 + |b| then a[n - 1] + b[k - (n - 1)] else 0)
  }

  lemma {:induction false} MulBoundsColumn(a: seq<nat>, b: seq<nat>, i: nat, j: nat, k: nat)
    requires |a| >= 1 && |b| >= 1 && j <= |b| && i <= |a| && (j > 0 ==> i < |a|) && k < |a| + |b| - 1
    ensures MulBounds(a, b, i, j)[k] ==
            if i <= k < i + j then ColumnBound(a, b, k, i + 1) else ColumnBound(a, b, k, i)
    decreases i, j
  {
    if j > 0 {
      MulBoundsColumn(a, b, i, j - 1, k);
    } else if i > 0 {
      MulBoundsColumn(a, b, i - 1, |b|, k);
    }
  }

  /** Each product column is bounded by the sum of the bounds of its terms, a term by the sum of its factors' bounds. */
  lemma ProductColumn(a: seq<nat>, b: seq<nat>, k: nat)
    requires |a| >= 1 && |b| >= 1 && k < |a| + |b| - 1
    ensures ProductOf(a, b)[k] == ColumnBound(a, b, k, |a|)
  {
    MulBoundsColumn(a, b, |a|, 0, k);
  }

  /** The same for a square: only terms with first index at most the second, those off the diagonal doubled. */
  ghost function SquareColumnBound(a: seq<nat>, k: nat, n: nat): nat
    requires n <= |a|
  {
    if n == 0 then 0
    else
      var i := n - 1;
      BoundOfAddition(SquareColumnBound(a, k, i),
                      if k == 2 * i then a[i] + a[i] else if 2 * i < k < i + |a| then 1 + a[i] + a[k - i] else 0)
  }

  lemma {:induction false} SquareBoundsColumn(a: seq<nat>, i: nat, j: nat, k: nat)
    requires |a| >= 1 && i <= j <= |a| && k < 2 * |a| - 1
    ensures SquareBounds(a, i, j)[k] ==
            if i < |a| && 2 * i <= k < i + j then SquareColumnBound(a, k, i + 1) else SquareColumnBound(a, k, i)
    decreases i, j
  {
    if j > i {
      SquareBoundsColumn(a, i, j - 1, k);
    } else if i > 0 {
      SquareBoundsColumn(a, i - 1, |a|, k);
    }
  }

  lemma SquareColumn(a: seq<nat>, k: nat)
    requires |a| >= 1 && k < 2 * |a| - 1
    ensures SquareOf(a)[k] == SquareColumnBound(a, k, |a|)
  {
    SquareBoundsColumn(a, |a|, |a|, k);
  }
}
