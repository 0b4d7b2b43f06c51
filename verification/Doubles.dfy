/** Conversions between 64-bit integers and double-precision numbers, as far as sizes depend on them. */
module Doubles {
  const U64 := 0x1_0000_0000_0000_0000

  /** Up to here every integer is a double. */
  const EXACT := 0x20_0000_0000_0000

  const GRID := 0x10_0000_0000_0000

  /** The greatest double below 2^64, and the middle between the two. */
  const TOP := U64 - 2048
  const MIDDLE := U64 - 1024

  function Times(x: real, y: real): real {
    x * y
  }

  /** Rounding to nearest, ties to even, of non-negative numbers; only its laws are used. */
  datatype Rounding = Rounding(round: real -> real)
  {
    ghost predicate Representable(x: real) {
      x >= 0.0 && round(x) == x
    }

    ghost predicate Lawful() {
      && (forall x: real, y: real :: 0.0 <= x <= y ==> round(x) <= round(y))
      && (forall x: real :: x >= 0.0 ==> Representable(round(x)))
      && (forall x: real :: 0.0 <= x <= EXACT as real && x == x.Floor as real ==> Representable(x))
      // doubles from 2^53 on are integers, and none lies strictly between TOP and 2^64
      && (forall x: real :: x >= EXACT as real && Representable(x) ==> x == x.Floor as real)
      && Representable(U64 as real)
      && (forall x: real :: 0.0 <= x < MIDDLE as real ==> round(x) <= TOP as real)
      && (forall x: real :: x >= MIDDLE as real ==> round(x) >= U64 as real)
      // dividing by a double above one gives a smaller double
      && (forall x: real, m: real :: ShrinksAt(x, m))
      // between 2^53 and 2^54 the doubles are the even numbers, and ties go to multiples of four
      && (forall k: nat :: TiesAt(k))
      // up to 2^53 the error is less than one part in 2^52, or than 2^-52
      && (forall x: real :: NearAt(x))
    }

    ghost predicate NearAt(x: real) {
      0.0 <= x <= EXACT as real ==>
        var error := (if x < 1.0 then 1.0 else x) / GRID as real;
        x - error <= round(x) <= x + error
    }

    ghost predicate ShrinksAt(x: real, m: real) {
      x >= 1.0 && m > 1.0 && Representable(x) && Representable(m) ==> round(x / m) < x
    }

    ghost predicate TiesAt(k: nat) {
      EXACT <= 4 * k && 4 * k + 4 <= 2 * EXACT ==>
        round((4 * k + 1) as real) == (4 * k) as real && round((4 * k + 3) as real) == (4 * k + 4) as real
    }

    // ----- integers and back -----

    /** A conversion to a 64-bit integer truncates, and is defined for what fits. */
    predicate Defined(x: real) {
      0.0 <= x < U64 as real
    }

    /** x / m for an integer x and a double m. */
    function Quotient(x: nat, m: real): real
      requires m >= 1.0
    {
      round(round(x as real) / m)
    }

    function Product(x: nat, m: real): real {
      round(Times(round(x as real), m))
    }

    lemma RoundedInteger(x: nat)
      requires Lawful()
      ensures Representable(round(x as real)) && round(x as real) >= 0.0
      ensures x <= EXACT ==> round(x as real) == x as real
      ensures x < U64 ==> round(x as real) <= U64 as real
    {
      hide Lawful;
      RoundOrder(0.0, x as real);
      if x <= EXACT {
        SmallIntegers(x);
      }
      if x < U64 {
        TopIsDouble();
        RoundOrder(x as real, U64 as real);
      }
    }

    lemma SmallIntegers(x: nat)
      requires Lawful() && x <= EXACT
      ensures Representable(x as real)
    {
      assert (x as real).Floor == x;
    }

    lemma TiesNearExact()
      requires Lawful()
      ensures round((EXACT + 3) as real) == (EXACT + 4) as real && round((EXACT + 5) as real) == (EXACT + 4) as real
    {
      var k := EXACT / 4;
      assert EXACT == 4 * k;
      assert TiesAt(k) && TiesAt(k + 1);
    }

    lemma TopIsDouble()
      requires Lawful()
      ensures Representable(U64 as real)
    {
    }

    /** Truncating a double gives a double, at most TOP if it fits. */
    lemma TruncatedIsDouble(x: real)
      requires Lawful() && Representable(x) && Defined(x)
      ensures 0 <= x.Floor <= TOP && Representable(x.Floor as real)
    {
      if x < MIDDLE as real {
        assert round(x) <= TOP as real;
      }
      if x < EXACT as real {
        assert x.Floor <= EXACT;
      }
    }

    lemma QuotientBound(x: nat, m: real, bound: real)
      requires Lawful() && m >= 1.0 && Representable(bound) && round(x as real) <= bound
      ensures 0.0 <= Quotient(x, m) <= bound && Representable(Quotient(x, m))
    {
      hide Lawful;
      RoundedInteger(x);
      var y := round(x as real);
      DivisionShrinks(y, m);
      RoundOrder(y / m, bound);
    }

    lemma DivisionShrinks(y: real, m: real)
      requires y >= 0.0 && m >= 1.0
      ensures 0.0 <= y / m <= y
    {
      var q := y / m;
      assert q * m == y;
      assert q * (m - 1.0) >= 0.0;
    }

    /** The conversion of a quotient is defined exactly if the divisor exceeds one or the dividend is
        below the middle between TOP and 2^64. */
    lemma QuotientDefined(x: nat, m: real)
      requires Lawful() && x < U64 && m >= 1.0 && Representable(m)
      ensures Defined(Quotient(x, m)) <==> m > 1.0 || x < MIDDLE
    {
      RoundedInteger(x);
      var y := round(x as real);
      QuotientBound(x, m, U64 as real);
      if m > 1.0 {
        assert ShrinksAt(U64 as real, m);
        QuotientOrder(y, U64 as real, m);
        RoundOrder(y / m, U64 as real / m);
      } else {
        assert y / m == y;
        assert round(y) == y;
      }
    }

    lemma QuotientOrder(a: real, b: real, m: real)
      requires 0.0 <= a <= b && m >= 1.0
      ensures 0.0 <= a / m <= b / m
    {
      var p, q := a / m, b / m;
      assert p * m == a && q * m == b;
      assert (q - p) * m == b - a;
    }

    lemma RoundOrder(x: real, y: real)
      requires Lawful() && 0.0 <= x <= y
      ensures 0.0 <= round(x) <= round(y) && Representable(round(x)) && Representable(round(y))
    {
      assert Representable(0.0);
      assert round(0.0) <= round(x);
    }

    /** A product of doubles, the second at least one, is not below the first. */
    lemma ProductGrows(x: nat, m: real)
      requires Lawful() && m >= 1.0 && Representable(x as real)
      ensures Product(x, m) >= x as real && Representable(Product(x, m))
    {
      hide Lawful;
      var y := round(x as real);
      assert y == x as real;
      MultiplicationGrows(y, m);
      RoundOrder(y, Times(y, m));
    }

    lemma MultiplicationGrows(y: real, m: real)
      requires y >= 0.0 && m >= 1.0
      ensures Times(y, m) >= y
    {
      assert y * (m - 1.0) >= 0.0;
    }
  }

  // ----- the laws can be met -----

  /** Down to a multiple of 2^-52. */
  function Low(x: real): real {
    Times(x, GRID as real).Floor as real / GRID as real
  }

  /** To the nearest even number, ties to multiples of four. */
  function Even(x: real): real {
    var f := (x / 2.0).Floor;
    var r := x / 2.0 - f as real;
    if r < 0.5 || (r == 0.5 && f % 2 == 0) then (2 * f) as real else (2 * f + 2) as real
  }

  function Sample(x: real): real {
    if x < EXACT as real then Low(x)
    else if x < TOP as real then Even(x)
    else if x < MIDDLE as real then TOP as real
    else if x < U64 as real then U64 as real
    else Even(x)
  }

  lemma LowBelow(x: real)
    requires x >= 0.0
    ensures 0.0 <= Low(x) <= x
  {
    var y := Times(x, GRID as real);
    assert y.Floor as real <= y;
    assert y / GRID as real == x;
  }

  lemma LowOrder(x: real, y: real)
    requires 0.0 <= x <= y
    ensures Low(x) <= Low(y)
  {
    assert Times(x, GRID as real) <= Times(y, GRID as real);
  }

  lemma LowFixed(x: real)
    ensures Low(Low(x)) == Low(x)
    ensures x == x.Floor as real ==> Low(x) == x
  {
    var n := Times(x, GRID as real).Floor;
    assert Times(n as real / GRID as real, GRID as real) == n as real;
    if x == x.Floor as real {
      assert Times(x, GRID as real) == (x.Floor * GRID) as real;
    }
  }

  lemma EvenNear(x: real)
    ensures x - 1.0 <= Even(x) <= x + 1.0 && Even(x) == Even(x).Floor as real && Even(x).Floor % 2 == 0
  {
  }

  lemma EvenFixed(n: int)
    requires n % 2 == 0
    ensures Even(n as real) == n as real
  {
    assert (n as real / 2.0).Floor == n / 2;
  }

  lemma EvenOrder(x: real, y: real)
    requires x <= y
    ensures Even(x) <= Even(y)
  {
    var f, g := (x / 2.0).Floor, (y / 2.0).Floor;
    assert f <= g;
  }

  lemma SampleOrder(x: real, y: real)
    requires 0.0 <= x <= y
    ensures Sample(x) <= Sample(y)
  {
    EvenFixed(EXACT);
    EvenFixed(TOP);
    EvenFixed(U64);
    if x < EXACT as real {
      LowBelow(x);
      LowOrder(x, y);
    }
    if y >= EXACT as real {
      EvenOrder(EXACT as real, y);
    }
    if y >= U64 as real {
      EvenOrder(U64 as real, y);
    }
    if EXACT as real <= x < TOP as real {
      EvenOrder(x, TOP as real);
      EvenOrder(x, y);
    }
    if x >= U64 as real {
      EvenOrder(x, y);
    }
  }

  lemma SampleOfEven(n: int)
    requires (EXACT <= n <= TOP || n >= U64) && n % 2 == 0
    ensures Sample(n as real) == n as real
  {
    hide Even;
    EvenFixed(n);
  }

  /** From 2^53 on: even numbers outside the gap. */
  lemma SampleIsEven(x: real) returns (n: int)
    requires x >= EXACT as real
    ensures Sample(x) == n as real && n % 2 == 0 && (EXACT <= n <= TOP || n >= U64)
  {
    hide Even;
    EvenFixed(EXACT);
    EvenFixed(TOP);
    EvenFixed(U64);
    EvenNear(x);
    n := if x < TOP as real || x >= U64 as real then Even(x).Floor else if x < MIDDLE as real then TOP else U64;
    EvenOrder(EXACT as real, x);
    if x < TOP as real {
      EvenOrder(x, TOP as real);
    }
    if x >= U64 as real {
      EvenOrder(U64 as real, x);
    }
  }

  lemma SampleFixed(x: real)
    requires x >= 0.0
    ensures Sample(Sample(x)) == Sample(x) && Sample(x) >= 0.0
    ensures x >= EXACT as real ==>
              Sample(x) == Sample(x).Floor as real && Sample(x).Floor % 2 == 0 && Sample(x) >= EXACT as real
    ensures x == x.Floor as real && x <= EXACT as real ==> Sample(x) == x
  {
    hide Even, Low;
    if x < EXACT as real {
      LowFixed(x);
      LowBelow(x);
    } else {
      var n := SampleIsEven(x);
      SampleOfEven(n);
      EvenFixed(EXACT);
    }
  }

  lemma SampleShrinks(x: real, m: real)
    requires x >= 1.0 && m > 1.0 && Sample(x) == x && Sample(m) == m
    ensures Sample(x / m) < x
  {
    var y := x / m;
    SmallerQuotient(x, m);
    if x < EXACT as real {
      LowBelow(y);
    } else {
      SampleFixed(x);
      AboveOne(m);
      QuotientGap(x, m);
      NotUpTo(x, y);
    }
  }

  lemma SmallerQuotient(x: real, m: real)
    requires x > 0.0 && m > 1.0
    ensures 0.0 < x / m < x
  {
    var y := x / m;
    assert y * m == x;
    assert y > 0.0;
    assert y * (m - 1.0) > 0.0;
  }

  lemma QuotientGap(x: real, m: real)
    requires x > 0.0 && m > 1.0 && Times(m, GRID as real) >= (GRID + 1) as real
    ensures x / m * (GRID + 1) as real <= x * GRID as real
  {
    SmallerQuotient(x, m);
    var y := x / m;
    var g := GRID as real;
    assert y * m == x;
    assert x * g == y * m * g == y * (m * g);
    ProductOrder(y, (GRID + 1) as real, m * g);
  }

  lemma ProductOrder(y: real, a: real, b: real)
    requires y >= 0.0 && a <= b
    ensures y * a <= y * b
  {
    assert y * (b - a) >= 0.0;
  }

  lemma AboveOne(m: real)
    requires m > 1.0 && Sample(m) == m
    ensures Times(m, GRID as real) >= (GRID + 1) as real
  {
    if m < EXACT as real {
      assert Times(m, GRID as real) == Times(m, GRID as real).Floor as real;
    }
  }

  lemma NotUpTo(x: real, y: real)
    requires x >= EXACT as real && x == x.Floor as real && x.Floor % 2 == 0 && Sample(x) == x
    requires y >= 0.0 && y * (GRID + 1) as real <= x * GRID as real
    ensures Sample(y) < x
  {
    assert y < x - 1.0;
    EvenNear(y);
    if y < EXACT as real {
      LowBelow(y);
    } else if y >= MIDDLE as real {
      assert x > U64 as real;
    }
  }

  /** Nothing between TOP and 2^64. */
  lemma SampleGap(x: real)
    requires x >= 0.0
    ensures if x < MIDDLE as real then Sample(x) <= TOP as real else Sample(x) >= U64 as real
  {
    hide Even, Low;
    EvenFixed(TOP);
    EvenFixed(U64);
    if x < TOP as real {
      SampleOrder(x, TOP as real);
    } else if x >= U64 as real {
      SampleOrder(U64 as real, x);
    }
  }

  /** Some rounding meets the laws. */
  lemma LawsCanBeMet() returns (rd: Rounding)
    ensures rd.Lawful()
  {
    hide Sample;
    rd := Rounding(Sample);
    forall x: real, y: real | 0.0 <= x <= y ensures rd.round(x) <= rd.round(y) {
      SampleOrder(x, y);
    }
    forall x: real | x >= 0.0
      ensures rd.Representable(rd.round(x)) && (x >= EXACT as real && rd.Representable(x) ==> x == x.Floor as real)
      ensures x <= EXACT as real && x == x.Floor as real ==> rd.Representable(x)
    {
      SampleFixed(x);
    }
    SampleOfEven(U64);
    forall x: real | x >= 0.0
      ensures if x < MIDDLE as real then rd.round(x) <= TOP as real else rd.round(x) >= U64 as real
    {
      SampleGap(x);
    }
    forall x: real, m: real ensures rd.ShrinksAt(x, m) {
      if x >= 1.0 && m > 1.0 && Sample(x) == x && Sample(m) == m {
        SampleShrinks(x, m);
      }
    }
    forall x: real ensures rd.NearAt(x) {
      if 0.0 <= x <= EXACT as real {
        SampleNear(x);
      }
    }
    forall k: nat ensures rd.TiesAt(k) {
      if EXACT <= 4 * k && 4 * k + 4 <= 2 * EXACT {
        TieBreaks(k);
      }
    }
  }

  lemma SampleNear(x: real)
    requires 0.0 <= x <= EXACT as real
    ensures x - 1.0 / GRID as real <= Sample(x) <= x
  {
    EvenFixed(EXACT);
    if x < EXACT as real {
      LowBelow(x);
      var y := Times(x, GRID as real);
      assert y - 1.0 <= y.Floor as real;
      assert y / GRID as real == x && (y - 1.0) / GRID as real == x - 1.0 / GRID as real;
    }
  }

  lemma TieBreaks(k: nat)
    requires EXACT <= 4 * k && 4 * k + 4 <= 2 * EXACT
    ensures Sample((4 * k + 1) as real) == (4 * k) as real && Sample((4 * k + 3) as real) == (4 * k + 4) as real
  {
    assert ((4 * k + 1) as real / 2.0).Floor == 2 * k;
    assert ((4 * k + 3) as real / 2.0).Floor == 2 * k + 1;
  }
}
