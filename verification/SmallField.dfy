/** The hypotheses on curves, roots of unity and hash-to-curve settings can be met over the field of five elements;
    the curve is y^2 == x^3 + 1 with its six points. */
module SmallField {
  import opened Algebra
  import opened CurveModel
  import opened FftSpec
  import opened Sswu
  import opened Svdw
  import opened Wrappers
  import opened Numbers
  import opened EccGates

  type Five = x: int | 0 <= x < 5
  type Six = x: int | 0 <= x < 6

  function Add5(x: Five, y: Five): Five { if x + y < 5 then x + y else x + y - 5 }

  function Neg5(x: Five): Five { if x == 0 then 0 else 5 - x }

  function Mul5(x: Five, y: Five): Five {
    if x == 0 then 0
    else if x == 1 then y
    else if x == 2 then Add5(y, y)
    else if x == 3 then Neg5(Add5(y, y))
    else Neg5(y)
  }

  function Inv5(x: Five): Five { if x == 2 then 3 else if x == 3 then 2 else x }

  function FiveField(): Field<Five> {
    Field(0, 1, (x: Five, y: Five) => Add5(x, y), (x: Five, y: Five) => Mul5(x, y), (x: Five) => Neg5(x),
          (x: Five) => Inv5(x))
  }

  function Add6(x: Six, y: Six): Six { if x + y < 6 then x + y else x + y - 6 }

  function Neg6(x: Six): Six { if x == 0 then 0 else 6 - x }

  function SixGroup(): Group<Six> {
    Group(0, (x: Six, y: Six) => Add6(x, y), (x: Six) => Neg6(x))
  }

  /** The multiples of the point (2, 2). */
  function Multiple(n: Six): Coords<Five> {
    if n == 0 then Infinity
    else if n == 1 then At(2, 2)
    else if n == 2 then At(0, 4)
    else if n == 3 then At(4, 0)
    else if n == 4 then At(0, 1)
    else At(2, 3)
  }

  function Index(x: Five, y: Five): Six {
    if x == 4 then 3 else if x == 0 then (if y == 4 then 2 else 4) else if y == 2 then 1 else 5
  }

  function SixPoints(): Curve<Five, Six> {
    Curve(FiveField(), SixGroup(), 1, (n: Six) => Multiple(n), (x: Five, y: Five) => Index(x, y))
  }

  lemma Distributes(x: Five, y: Five, z: Five)
    ensures Mul5(x, Add5(y, z)) == Add5(Mul5(x, y), Mul5(x, z))
  {
    if x == 0 {
    } else if x == 1 {
    } else if x == 2 {
    } else if x == 3 {
    } else {
      assert x == 4;
    }
  }

  lemma Commutes(x: Five, y: Five)
    ensures Mul5(x, y) == Mul5(y, x)
  {
    if y == 0 {
    } else if y == 1 {
    } else if y == 2 {
    } else if y == 3 {
    } else {
      assert y == 4;
    }
  }

  lemma NegTimes(x: Five, y: Five)
    ensures Mul5(Neg5(x), y) == Neg5(Mul5(x, y))
  {}

  lemma Associates(x: Five, y: Five, z: Five)
    ensures Mul5(Mul5(x, y), z) == Mul5(x, Mul5(y, z))
  {
    Commutes(y, z);
    Commutes(Add5(y, y), z);
    Distributes(z, y, y);
    NegTimes(y, z);
    NegTimes(Add5(y, y), z);
    if x == 0 {
    } else if x == 1 {
    } else if x == 2 {
    } else if x == 3 {
    } else {
      assert x == 4;
    }
  }

  lemma Inverses(x: Five)
    ensures Mul5(x, 1) == x && (x != 0 ==> Mul5(x, Inv5(x)) == 1)
  {}

  lemma FiveSums()
    ensures IsGroup(FiveField().AddGroup())
  {}

  lemma FiveIsField()
    ensures IsField(FiveField())
  {
    var k := FiveField();
    FiveSums();
    hide Mul5, Add5, Neg5, Inv5, IsGroup;
    forall x: Five, y: Five, z: Five | At3(x, y, z)
      ensures k.mul(k.mul(x, y), z) == k.mul(x, k.mul(y, z)) && k.mul(x, k.add(y, z)) == k.add(k.mul(x, y), k.mul(x, z))
    {
      Associates(x, y, z);
      Distributes(x, y, z);
    }
    forall x: Five, y: Five | At2(x, y)
      ensures k.mul(x, y) == k.mul(y, x)
    {
      Commutes(x, y);
    }
    forall x: Five | At1(x)
      ensures k.mul(x, k.one) == x && (x != k.zero ==> k.mul(x, k.inv(x)) == k.one)
    {
      Inverses(x);
    }
  }

  lemma SixIsGroup()
    ensures IsGroup(SixGroup())
  {}

  /** The group adds by chord and tangent. */
  lemma AddsByChordAndTangent(p: Six, q: Six)
    ensures Multiple(Add6(p, q)) == ChordTangent(FiveField(), Multiple(p), Multiple(q))
  {
    if p == 0 || q == 0 {
    } else if p == 1 {
      Row1(q);
    } else if p == 2 {
      Row2(q);
    } else if p == 3 {
      Row3(q);
    } else if p == 4 {
      Row4(q);
    } else {
      Row5(q);
    }
  }

  lemma Row1(q: Six)
    requires q > 0
    ensures Multiple(Add6(1, q)) == ChordTangent(FiveField(), At(2, 2), Multiple(q))
  {
    if q == 1 {
    } else if q == 2 {
    } else if q == 3 {
    } else if q == 4 {
    } else {
      assert q == 5;
    }
  }

  lemma Row2(q: Six)
    requires q > 0
    ensures Multiple(Add6(2, q)) == ChordTangent(FiveField(), At(0, 4), Multiple(q))
  {}

  lemma Row3(q: Six)
    requires q > 0
    ensures Multiple(Add6(3, q)) == ChordTangent(FiveField(), At(4, 0), Multiple(q))
  {}

  lemma Row4(q: Six)
    requires q > 0
    ensures Multiple(Add6(4, q)) == ChordTangent(FiveField(), At(0, 1), Multiple(q))
  {
    if q == 1 {
    } else if q == 2 {
    } else if q == 3 {
    } else if q == 4 {
    } else {
      assert q == 5;
    }
  }

  lemma Row5(q: Six)
    requires q > 0
    ensures Multiple(Add6(5, q)) == ChordTangent(FiveField(), At(2, 3), Multiple(q))
  {
    if q == 1 {
    } else if q == 2 {
    } else if q == 3 {
    } else if q == 4 {
    } else {
      assert q == 5;
    }
  }

  lemma OnTheCurve(n: Six)
    ensures OnCurve(FiveField(), 1, Multiple(n))
  {}

  lemma AllPoints(x: Five, y: Five)
    requires OnCurve(FiveField(), 1, At(x, y))
    ensures Multiple(Index(x, y)) == At(x, y)
  {}

  lemma Different(p: Six, q: Six)
    ensures Multiple(p) == Multiple(q) ==> p == q
  {}

  lemma SixPointsAreACurve()
    ensures IsCurve(SixPoints())
  {
    var e := SixPoints();
    FiveIsField();
    SixIsGroup();
    assert e.coords(e.group.zero) == Infinity && e.field.add(e.field.one, e.field.one) == 2;
    hide IsField, IsGroup, Multiple, Index, Add6, Add5, Mul5, Neg5, Neg6, Inv5, OnCurve, ChordTangent;
    forall p: Six, q: Six | At2(p, q)
      ensures e.coords(p) == e.coords(q) ==> p == q
      ensures e.coords(e.group.add(p, q)) == ChordTangent(e.field, e.coords(p), e.coords(q))
    {
      AddsByChordAndTangent(p, q);
      Different(p, q);
    }
    forall n: Six | At1(n)
      ensures OnCurve(e.field, e.b, e.coords(n))
    {
      OnTheCurve(n);
    }
    forall x: Five, y: Five | At2(x, y) && OnCurve(e.field, e.b, At(x, y))
      ensures e.coords(e.fromXy(x, y)) == At(x, y)
    {
      AllPoints(x, y);
    }
  }

  // ---------------------------------------------------------------- other hypotheses

  /** 2, 4, 3, 1 are the powers of two. */
  lemma TwoHasOrderFour()
    ensures HasOrder(FiveField(), 2, 4)
  {
    var k := FiveField();
    PowStep(k, 2, 1);
    PowStep(k, 2, 2);
    PowStep(k, 2, 3);
    PowStep(k, 2, 4);
  }

  lemma PowStep(k: Field<Five>, x: Five, n: nat)
    requires n >= 1
    ensures Pow(k, x, n) == k.mul(Pow(k, x, n - 1), x) && Pow(k, x, 0) == k.one
  {}

  /** The squares are 0, 1 and 4. */
  function Root5(x: Five): Option<Five> {
    if x == 0 then Some(0) else if x == 1 then Some(1) else if x == 4 then Some(2) else None
  }

  function SmallSetting(z: Five, a: Five, b: Five): Setting<Five> {
    Setting(FiveField(), (x: Five) => Root5(x), (x: Five) => x % 2 == 1, z, a, b)
  }

  lemma SquaresOfFive(x: Five)
    ensures Root5(x).Some? <==> IsSquare(FiveField(), x)
    ensures Root5(x).Some? ==> FiveField().Sq(Root5(x).value) == x
  {
    var k := FiveField();
    if Root5(x).Some? {
      assert k.Sq(Root5(x).value) == x;
    }
    forall r: Five
      ensures Root5(k.Sq(r)).Some?
    {
      SquareOf(r);
    }
  }

  lemma SquareOf(r: Five)
    ensures Root5(FiveField().Sq(r)).Some?
  {}

  lemma SignFlips(x: Five)
    requires x != 0
    ensures (Neg5(x) % 2 == 1) != (x % 2 == 1)
  {}

  lemma RootsAndSignsOfFive(c: Setting<Five>)
    requires c == SmallSetting(c.z, c.a, c.b)
    ensures RootsAndSigns(c)
  {
    FiveIsField();
    hide IsField, IsSquare, Root5;
    forall x: Five | At1(x)
      ensures c.sqrt(x).Some? <==> IsSquare(c.k, x)
      ensures c.sqrt(x).Some? ==> c.k.Sq(c.sqrt(x).value) == x
      ensures x != c.k.zero ==> c.isOdd(c.k.neg(x)) != c.isOdd(x)
    {
      SquaresOfFive(x);
      if x != 0 {
        SignFlips(x);
      }
    }
    forall x: Five, y: Five | At2(x, y) && !IsSquare(c.k, x) && !IsSquare(c.k, y)
      ensures IsSquare(c.k, c.k.mul(x, y))
    {
      SquaresOfFive(x);
      SquaresOfFive(y);
      NonSquares(x, y);
      SquaresOfFive(c.k.mul(x, y));
    }
  }

  lemma NonSquares(x: Five, y: Five)
    requires Root5(x).None? && Root5(y).None?
    ensures Root5(Mul5(x, y)).Some?
  {}

  /** The simplified SWU map applies to y^2 == x^3 + x + 1 with Z = 2. */
  lemma SmallSswu()
    ensures Suitable(SmallSetting(2, 1, 1))
  {
    var c := SmallSetting(2, 1, 1);
    RootsAndSignsOfFive(c);
    SquaresOfFive(2);
    assert CurveRhs(c, c.k.mul(c.b, c.k.inv(c.k.mul(c.z, c.a)))) == 1;
    SquaresOfFive(1);
    hide RootsAndSigns, IsSquare;
  }

  /** The Shallue-van de Woestijne map applies to y^2 == x^3 + 1 with Z = 1; a half is 3. */
  lemma SmallSvdw()
    ensures SuitableSvdw(SmallSetting(1, 0, 1), 3)
  {
    var c := SmallSetting(1, 0, 1);
    RootsAndSignsOfFive(c);
    assert CurveRhs(c, c.z) == 2 && Slope(c) == 3;
    assert c.k.mul(c.k.neg(CurveRhs(c, c.z)), Slope(c)) == 4;
    assert CurveRhs(c, c.k.mul(c.k.neg(c.z), 3)) == 4;
    SquaresOfFive(4);
    hide RootsAndSigns, IsSquare;
  }

  // ---------------------------------------------------------------- reduction modulo five

  function Rem5(a: int): Five { a % 5 }

  lemma TableIsProduct(x: Five, y: Five)
    ensures Mul5(x, y) == Rem5(x * y)
  {
    if x == 0 {
    } else if x == 1 {
    } else if x == 2 {
    } else if x == 3 {
    } else {
      assert x == 4;
    }
  }

  lemma RemProduct(a: int, b: int)
    ensures Mul5(Rem5(a), Rem5(b)) == Rem5(a * b)
  {
    TableIsProduct(Rem5(a), Rem5(b));
    CongMod(a, 5);
    CongMod(b, 5);
    CongMul(a % 5, a, b % 5, b, 5);
    CongModEq(a % 5 * (b % 5), a * b, 5);
  }

  lemma RemSum(a: int, b: int)
    ensures Add5(Rem5(a), Rem5(b)) == Rem5(a + b) && (Rem5(a) == 0 <==> Cong(a, 0, 5))
  {}

  lemma RemLaws(a: int, b: int)
    ensures var k := FiveField();
            && Rem5(a + b) == k.add(Rem5(a), Rem5(b)) && Rem5(a * b) == k.mul(Rem5(a), Rem5(b))
            && (Rem5(a) == k.zero <==> Cong(a, 0, 5)) && k.one == 1
  {
    hide Mul5, Add5, Neg5, Inv5, Cong, Rem5;
    RemSum(a, b);
    RemProduct(a, b);
  }

  function Reduction(): int -> Five { (a: int) => Rem5(a) }

  function Lift(): Five -> nat { (x: Five) => x as nat }

  lemma RemRespects()
    ensures Respects(FiveField(), Reduction())
  {
    hide FiveField, Rem5;
    var k, phi := FiveField(), Reduction();
    forall a: int, b: int {:trigger At2(a, b)} | At2(a, b)
      ensures phi(a + b) == k.add(phi(a), phi(b)) && phi(a * b) == k.mul(phi(a), phi(b))
    {
      RemLaws(a, b);
    }
  }

  lemma RemVanishes()
    ensures Vanishes(FiveField(), 5, Reduction())
  {
    hide FiveField, Rem5, Cong;
    var k, phi := FiveField(), Reduction();
    forall a: int {:trigger At1(a)} | At1(a)
      ensures phi(a) == k.zero <==> Cong(a, 0, 5)
    {
      RemLaws(a, 0);
    }
  }

  /** The remainder modulo five is a reduction to the field of five elements. */
  lemma RemIsReduction()
    ensures IsReduction(FiveField(), 5, Reduction(), Lift())
  {
    hide IsField, Respects, Vanishes, Add5, Mul5, Neg5, Inv5;
    FiveIsField();
    RemRespects();
    RemVanishes();
  }
}
