/** Constraints over a prime field as seen by one assignment of the circuit's cells.
    Cells computed by a gate hold the value the gate forces. Free cells hold whatever the
    assignment says, or the value that the prover code computes when the assignment is honest. */
module Circuits {
  import opened Numbers
  import opened BigNat

  datatype Cell = Cell(id: nat, value: nat)

  ghost predicate Owned(cells: seq<nat>, c: Cell) {
    c.id < |cells| && cells[c.id] == c.value
  }

  /** The cell is the one kept for its constant. */
  ghost predicate Cached(fixed: map<nat, nat>, c: Cell) {
    c.value in fixed && fixed[c.value] == c.id
  }

  ghost predicate AllOwned(cells: seq<nat>, cs: seq<Cell>) {
    forall i :: 0 <= i < |cs| ==> Owned(cells, cs[i])
  }

  lemma OwnedGrows(cells: seq<nat>, more: seq<nat>, cs: seq<Cell>)
    requires cells <= more && AllOwned(cells, cs)
    ensures AllOwned(more, cs)
  {}

  function Values(cs: seq<Cell>): (vs: seq<nat>)
    ensures |vs| == |cs| && forall i :: 0 <= i < |cs| ==> vs[i] == cs[i].value
  {
    seq(|cs|, i requires 0 <= i < |cs| => cs[i].value)
  }

  class Circuit {
    /** The native modulus and its size, F::NUM_BITS. */
    const p: nat
    const numBits: nat
    const honest: bool
    /** Values that a dishonest assignment gives to free cells. */
    const assignment: nat -> nat
    var cells: seq<nat>
    /** Cells that hold constants, by value. */
    var fixed: map<nat, nat>
    /** All constraints so far hold. */
    var sat: bool

    ghost predicate Valid()
      reads this
    {
      && numBits > LOG2_BASE + 1 && Pow2(numBits - 1) <= p < Pow2(numBits)
      && (forall i :: 0 <= i < |cells| ==> cells[i] < p)
      && (forall k :: k in fixed ==> fixed[k] < |cells| && cells[fixed[k]] == k)
    }

    /** What every operation does: cells are only added and constraints only accumulate. */
    twostate predicate Step()
      reads this
    {
      Valid() && old(cells) <= cells && (sat ==> old(sat))
    }

    /** The modulus exceeds every number of fewer bits than its own size. */
    lemma Modulus()
      requires Valid()
      ensures p >= 2
    {
      Pow2Mono(1, numBits - 1);
    }

    constructor (p: nat, numBits: nat, honest: bool, assignment: nat -> nat)
      requires numBits > LOG2_BASE + 1 && Pow2(numBits - 1) <= p < Pow2(numBits)
      ensures Valid() && sat && cells == []
      ensures this.p == p && this.numBits == numBits && this.honest == honest && this.assignment == assignment
    {
      this.p, this.numBits, this.honest, this.assignment := p, numBits, honest, assignment;
      cells, fixed, sat := [], map[], true;
    }

    method Push(v: nat) returns (c: Cell)
      requires Valid() && v < p
      modifies this`cells
      ensures Step() && Owned(cells, c) && c.value == v && c.id == |old(cells)|
    {
      c := Cell(|cells|, v);
      cells := cells + [v];
    }

    /** A cell holding a constant; equal constants share a cell. */
    method AssignFixed(v: nat) returns (c: Cell)
      requires Valid() && v < p
      modifies this`cells, this`fixed
      ensures Step() && Owned(cells, c) && c.value == v
      ensures Cached(fixed, c) && forall k :: k in old(fixed) ==> k in fixed && fixed[k] == old(fixed)[k]
    {
      if v in fixed {
        c := Cell(fixed[v], v);
      } else {
        c := Push(v);
        fixed := fixed[v := c.id];
      }
    }

    method Add(x: Cell, y: Cell) returns (c: Cell)
      requires Valid()
      modifies this`cells
      ensures Step() && Owned(cells, c) && c.value == (x.value + y.value) % p
    {
      DivMod(x.value + y.value, p);
      c := Push((x.value + y.value) % p);
    }

    /** z + m * x * y */
    method AddMul(x: Cell, y: Cell, z: Cell, m: nat) returns (c: Cell)
      requires Valid()
      modifies this`cells
      ensures Step() && Owned(cells, c) && c.value == (z.value + m * (x.value * y.value)) % p
    {
      DivMod(z.value + m * (x.value * y.value), p);
      c := Push((z.value + m * (x.value * y.value)) % p);
    }

    /** base * x + y */
    method ShiftAdd(x: Cell, y: Cell) returns (c: Cell)
      requires Valid()
      modifies this`cells
      ensures Step() && Owned(cells, c) && c.value == (Base() * x.value + y.value) % p
    {
      hide Pow2;
      var v := Pow2(LOG2_BASE) * x.value + y.value;
      DivMod(v, p);
      c := Push(v % p);
    }

    /** A free cell constrained to be below the bound; value is what the prover code computes. */
    method AssignLowerThan(value: nat, bound: nat) returns (c: Cell)
      requires Valid()
      modifies this`cells, this`sat
      ensures Step() && Owned(cells, c) && c.id == |old(cells)|
      ensures c.value == (if honest then value % p else assignment(c.id) % p)
      ensures sat == (old(sat) && c.value < bound)
    {
      DivMod(value, p);
      DivMod(assignment(|cells|), p);
      c := Push(if honest then value % p else assignment(|cells|) % p);
      sat := sat && c.value < bound;
    }

    method AssertEqual(x: Cell, y: Cell)
      requires Valid()
      modifies this`sat
      ensures Step() && sat == (old(sat) && x.value == y.value)
    {
      sat := sat && x.value == y.value;
    }

    method AssertEqualToFixed(x: Cell, v: nat)
      requires Valid()
      modifies this`sat
      ensures Step() && sat == (old(sat) && x.value == v)
    {
      sat := sat && x.value == v;
    }

    /** A bit is what its gate computes, so it is modelled by its value. */
    method AssertBit(b: bool, v: bool)
      requires Valid()
      modifies this`sat
      ensures Step() && sat == (old(sat) && b == v)
    {
      sat := sat && b == v;
    }
  }
}
