/** `CalculateBaseBytes` with dynamic level sizes: the level that level 0 is compacted to, and the
    target size of each level. Sizes are 64-bit integers that are multiplied and divided as doubles. */
module LevelTargets {
  import opened Doubles

  datatype Options = Options(base: nat, multiplier: real, precludeSeconds: nat)
  {
    /** What the options demand: a positive base and a double of at least one. */
    ghost predicate Ok(rd: Rounding) {
      rd.Lawful() && 0 < base < U64 && multiplier >= 1.0 && rd.Representable(multiplier)
    }
  }

  /** The result. `asserts`: no assertion of the source failed on the way; `casts`: every conversion
      of a double to an integer was defined. The value of one that is not is arbitrary. */
  datatype Targets = Targets(baseLevel: nat, baseSize: nat, lowest: int, maxBytes: seq<nat>, asserts: bool, casts: bool)

  function Max(a: nat, b: nat): nat {
    if a > b then a else b
  }

  // ----- arithmetic -----

  function Divide(rd: Rounding, x: nat, m: real): (q: nat)
    requires m >= 1.0
    ensures q < U64
  {
    var y := rd.Quotient(x, m);
    if rd.Defined(y) then y.Floor else 0
  }

  /** A quotient that can be converted is a double again. */
  lemma DivideIsDouble(rd: Rounding, x: nat, m: real)
    requires rd.Lawful() && x < U64 && m >= 1.0 && rd.Defined(rd.Quotient(x, m))
    ensures Divide(rd, x, m) <= TOP && rd.Representable(Divide(rd, x, m) as real)
  {
    hide Rounding.Lawful;
    rd.RoundedInteger(x);
    rd.TopIsDouble();
    rd.QuotientBound(x, m, U64 as real);
    rd.TruncatedIsDouble(rd.Quotient(x, m));
  }

  /** It does not exceed a double that the dividend does not exceed. */
  lemma DivideBelow(rd: Rounding, x: nat, m: real, b: nat)
    requires rd.Lawful() && m >= 1.0 && x <= b && rd.Representable(b as real)
    ensures Divide(rd, x, m) <= b
  {
    hide Rounding.Lawful;
    rd.RoundOrder(x as real, b as real);
    rd.QuotientBound(x, m, b as real);
  }

  /** A product that does not fit leaves the first factor. */
  predicate Overflows(rd: Rounding, x: nat, m: real)
    requires x > 0
  {
    rd.round(((U64 - 1) / x) as real) < m
  }

  predicate MultiplyDefined(rd: Rounding, x: nat, m: real) {
    x == 0 || Overflows(rd, x, m) || rd.Defined(rd.Product(x, m))
  }

  function MultiplyCheckOverflow(rd: Rounding, x: nat, m: real): nat {
    if x == 0 then 0
    else if Overflows(rd, x, m) then x
    else if rd.Defined(rd.Product(x, m)) then rd.Product(x, m).Floor
    else 0
  }

  /** The size of the base level multiplied k times. */
  function Grown(rd: Rounding, size: nat, m: real, k: nat): nat {
    if k == 0 then size else MultiplyCheckOverflow(rd, Grown(rd, size, m, k - 1), m)
  }

  ghost predicate ProductsDefined(rd: Rounding, size: nat, m: real, k: nat) {
    forall j :: 0 <= j < k ==> MultiplyDefined(rd, Grown(rd, size, m, j), m)
  }

  /** A product can be converted exactly if it lies below the middle between TOP and 2^64. */
  lemma MultiplyDefinedExactly(rd: Rounding, x: nat, m: real)
    requires rd.Lawful() && x > 0 && m >= 1.0
    ensures MultiplyDefined(rd, x, m) <==> Overflows(rd, x, m) || Times(rd.round(x as real), m) < MIDDLE as real
  {
    rd.RoundedInteger(x);
    var y := rd.round(x as real);
    rd.MultiplicationGrows(y, m);
    rd.RoundOrder(y, Times(y, m));
  }

  lemma MultiplyGrows(rd: Rounding, x: nat, m: real)
    requires rd.Lawful() && x > 0 && m >= 1.0 && rd.Representable(x as real) && MultiplyDefined(rd, x, m)
    ensures MultiplyCheckOverflow(rd, x, m) >= x && rd.Representable(MultiplyCheckOverflow(rd, x, m) as real)
  {
    hide Rounding.Lawful;
    if !Overflows(rd, x, m) {
      rd.ProductGrows(x, m);
      rd.TruncatedIsDouble(rd.Product(x, m));
    }
  }

  lemma MultiplyOnce(rd: Rounding, x: nat, m: real)
    requires rd.Lawful() && x > 0 && m >= 1.0 && MultiplyDefined(rd, x, m)
    ensures var r := MultiplyCheckOverflow(rd, x, m);
            r > 0 && (rd.Representable(r as real) || (Overflows(rd, x, m) && r == x))
  {
    hide Rounding.Lawful;
    if !Overflows(rd, x, m) {
      var y := rd.round(x as real);
      rd.SmallIntegers(1);
      rd.RoundOrder(1.0, x as real);
      rd.MultiplicationGrows(y, m);
      rd.RoundOrder(1.0, Times(y, m));
      rd.TruncatedIsDouble(rd.Product(x, m));
    }
  }

  /** After the first multiplication sizes never decrease: they are doubles, or the same for good. */
  lemma {:induction false} GrownSteady(rd: Rounding, size: nat, m: real, k: nat)
    requires rd.Lawful() && size > 0 && m >= 1.0 && k >= 1 && ProductsDefined(rd, size, m, k)
    ensures Grown(rd, size, m, k) > 0
    ensures rd.Representable(Grown(rd, size, m, k) as real) || (Overflows(rd, size, m) && Grown(rd, size, m, k) == size)
    ensures k > 1 ==> Grown(rd, size, m, k) >= Grown(rd, size, m, k - 1)
    decreases k
  {
    hide Rounding.Lawful, Rounding.Representable, Overflows, MultiplyDefined;
    var before := Grown(rd, size, m, k - 1);
    assert MultiplyDefined(rd, before, m);
    if k == 1 {
      MultiplyOnce(rd, size, m);
    } else {
      GrownSteady(rd, size, m, k - 1);
      if rd.Representable(before as real) {
        MultiplyGrows(rd, before, m);
      }
    }
  }

  // ----- what products and quotients are -----

  function Power(m: nat, k: nat): nat {
    if k == 0 then 1 else m * Power(m, k - 1)
  }

  /** y is the product of x and m as far as doubles can tell: it is rounded, then truncated. A product that
      the test for overflow refuses leaves x. */
  ghost predicate Multiplied(rd: Rounding, x: nat, m: real, y: nat) {
    if x == 0 then y == 0
    else if rd.round(((U64 - 1) / x) as real) < m then y == x
    else
      var product := rd.round(rd.round(x as real) * m);
      0.0 <= product < U64 as real ==> y as real <= product < y as real + 1.0
  }

  lemma MultiplyTruncates(rd: Rounding, x: nat, m: real)
    ensures Multiplied(rd, x, m, MultiplyCheckOverflow(rd, x, m))
  {
    if x > 0 {
      assert Times(rd.round(x as real), m) == rd.round(x as real) * m;
    }
  }

  lemma DivideTruncates(rd: Rounding, x: nat, m: real)
    requires m >= 1.0
    ensures var quotient := rd.round(rd.round(x as real) / m);
            0.0 <= quotient < U64 as real ==>
              Divide(rd, x, m) as real <= quotient < Divide(rd, x, m) as real + 1.0
  {
  }

  /** For whole multipliers the test refuses exactly the products of 2^64 and more. */
  lemma OverflowsExactly(rd: Rounding, x: nat, m: nat)
    requires rd.Lawful() && 0 < x < U64 && 1 <= m <= EXACT
    ensures Overflows(rd, x, m as real) <==> x * m >= U64
  {
    hide Rounding.Lawful, Rounding.Representable;
    var q := (U64 - 1) / x;
    QuotientLeast(x, m);
    if q <= EXACT {
      rd.RoundedInteger(q);
    } else {
      rd.RoundedInteger(EXACT);
      rd.RoundOrder(EXACT as real, q as real);
    }
  }

  lemma QuotientLeast(x: nat, m: nat)
    requires x > 0
    ensures x * m >= U64 <==> m > (U64 - 1) / x
  {
    var q := (U64 - 1) / x;
    assert x * q <= U64 - 1 < x * q + x;
    if m > q {
      ProductAtLeast(x, q + 1, m);
    } else {
      ProductAtLeast(x, m, q);
    }
  }

  lemma ProductAtLeast(x: nat, a: nat, b: nat)
    requires a <= b
    ensures x * a <= x * b
  {
    assert x * (b - a) >= 0;
  }

  /** Up to 2^53 products by whole multipliers are exact. */
  lemma MultiplyExactly(rd: Rounding, x: nat, m: nat)
    requires rd.Lawful() && 0 < x && 1 <= m && x * m <= EXACT
    ensures MultiplyCheckOverflow(rd, x, m as real) == x * m && MultiplyDefined(rd, x, m as real)
  {
    hide Rounding.Lawful, Rounding.Representable;
    FactorsBelow(x, m);
    OverflowsExactly(rd, x, m);
    rd.RoundedInteger(x);
    rd.RoundedInteger(x * m);
    assert Times(x as real, m as real) == (x * m) as real;
  }

  lemma FactorsBelow(x: nat, m: nat)
    requires 0 < x && 1 <= m
    ensures x <= x * m && m <= x * m
  {
    ProductAtLeast(x, 1, m);
    ProductAtLeast(m, 1, x);
  }

  /** So level by level the size is multiplied. */
  lemma {:induction false} GrownExactly(rd: Rounding, size: nat, m: nat, k: nat)
    requires rd.Lawful() && 0 < size && 1 <= m && size * Power(m, k) <= EXACT
    ensures Grown(rd, size, m as real, k) == size * Power(m, k) && size * Power(m, k) > 0
    ensures ProductsDefined(rd, size, m as real, k)
    decreases k
  {
    hide Rounding.Lawful, MultiplyCheckOverflow, MultiplyDefined;
    if k > 0 {
      var before := size * Power(m, k - 1);
      assert size * Power(m, k) == before * m;
      PowerPositive(m, k - 1);
      FactorsBelow(size, Power(m, k - 1));
      FactorsBelow(before, m);
      GrownExactly(rd, size, m, k - 1);
      MultiplyExactly(rd, before, m);
    }
  }

  lemma {:induction false} PowerPositive(m: nat, k: nat)
    requires m >= 1
    ensures Power(m, k) >= 1
    decreases k
  {
    if k > 0 {
      PowerPositive(m, k - 1);
      FactorsBelow(m, Power(m, k - 1));
    }
  }

  /** Below 2^52 quotients by whole divisors are exact. */
  lemma DivideExactly(rd: Rounding, x: nat, m: nat)
    requires rd.Lawful() && x < GRID && 1 <= m < GRID
    ensures rd.Defined(rd.Quotient(x, m as real)) && Divide(rd, x, m as real) == x / m
  {
    hide Rounding.Lawful, Rounding.Representable;
    var q := x / m;
    var v := x as real / m as real;
    rd.RoundedInteger(x);
    QuotientRange(x, m);
    rd.RoundedInteger(q);
    rd.RoundOrder(q as real, v);
    RoundsBelow(rd, x, m);
  }

  lemma QuotientRange(x: nat, m: nat)
    requires m >= 1
    ensures x / m <= x
    ensures (x / m) as real <= x as real / m as real <= x as real
    ensures x as real / m as real <= (x / m + 1) as real - 1.0 / m as real
  {
    var q, n, v := x / m, m as real, x as real / m as real;
    DivisionBounds(x, m);
    assert Times(v, n) == x as real;
    WholeTimes(q, m);
    Cancel(q as real, v, n);
    WholeTimes(q + 1, m);
    LessOne((q + 1) as real, n);
    Cancel(v, (q + 1) as real - 1.0 / n, n);
    FactorsFrom(x, m);
    WholeTimes(x, m);
    Cancel(v, x as real, n);
  }

  lemma DivisionBounds(x: nat, m: nat)
    requires m >= 1
    ensures x / m * m <= x < x / m * m + m && (x / m + 1) * m == x / m * m + m && x / m <= x
  {
    FactorsFrom(x / m, m);
  }

  lemma FactorsFrom(x: nat, m: nat)
    requires m >= 1
    ensures x * m >= x
  {
    ProductAtLeast(x, 1, m);
  }

  lemma WholeTimes(a: nat, b: nat)
    ensures Times(a as real, b as real) == (a * b) as real
  {
  }

  lemma LessOne(a: real, n: real)
    requires n > 0.0
    ensures Times(a - 1.0 / n, n) == Times(a, n) - 1.0
  {
    assert 1.0 / n * n == 1.0;
  }

  lemma TimesMore(a: real, b: real, n: real)
    requires a < b && n > 0.0
    ensures Times(a, n) < Times(b, n)
  {
    assert (b - a) * n > 0.0;
  }

  lemma Cancel(a: real, b: real, n: real)
    requires n > 0.0
    ensures Times(a, n) <= Times(b, n) ==> a <= b
    ensures Times(a, n) < Times(b, n) ==> a < b
  {
    if b < a {
      TimesMore(b, a, n);
    }
  }

  /** The quotient does not round up to the next integer: that is farther than the error. */
  lemma RoundsBelow(rd: Rounding, x: nat, m: nat)
    requires rd.Lawful() && x < GRID && 1 <= m < GRID
    ensures rd.round(x as real / m as real) < (x / m + 1) as real
  {
    hide Rounding.Lawful, Times;
    var v := x as real / m as real;
    QuotientRange(x, m);
    ErrorBelow(x, m);
    Near(rd, v);
  }

  lemma Near(rd: Rounding, x: real)
    requires rd.Lawful()
    ensures rd.NearAt(x)
  {
  }

  lemma ErrorBelow(x: nat, m: nat)
    requires x < GRID && 1 <= m < GRID
    ensures 1.0 / GRID as real < 1.0 / m as real
    ensures x as real / m as real / GRID as real < 1.0 / m as real
  {
    hide Times;
    Inverse(m as real);
    GridBelow(1.0, m as real, m);
    Quotient(x as real, m as real);
    GridBelow(x as real / m as real, m as real, x);
  }

  lemma GridBelow(v: real, n: real, x: nat)
    requires n > 0.0 && Times(v, n) == x as real && x < GRID
    ensures v / GRID as real < 1.0 / n
  {
    hide Times;
    OverGrid(v, n, x as real);
    PartOfGrid(x);
    Inverse(n);
    Cancel(v / GRID as real, 1.0 / n, n);
  }

  lemma PartOfGrid(x: nat)
    requires x < GRID
    ensures x as real / GRID as real < 1.0
  {
  }

  lemma Inverse(n: real)
    requires n > 0.0
    ensures Times(1.0 / n, n) == 1.0 && Times(1.0, n) == n
  {
  }

  lemma Quotient(x: real, n: real)
    requires n > 0.0
    ensures Times(x / n, n) == x
  {
  }

  lemma OverGrid(v: real, n: real, x: real)
    requires Times(v, n) == x
    ensures Times(v / GRID as real, n) == x / GRID as real
  {
  }

  // ----- dividing by one, and by more -----

  lemma DivideByOne(rd: Rounding, x: nat)
    requires rd.Lawful() && x < MIDDLE
    ensures rd.Quotient(x, 1.0) == rd.round(x as real) && rd.Defined(rd.Quotient(x, 1.0))
    ensures Divide(rd, x, 1.0) as real == rd.round(x as real)
  {
    rd.RoundedInteger(x);
    var y := rd.round(x as real);
    assert y / 1.0 == y;
    if x > EXACT {
      rd.SmallIntegers(EXACT);
      rd.RoundOrder(EXACT as real, x as real);
    }
  }

  /** Dividing by more than one gives less, even if the conversion of the dividend rounds up. */
  lemma DivideByMore(rd: Rounding, x: nat, m: real)
    requires rd.Lawful() && 0 < x < U64 && m > 1.0 && rd.Representable(m)
    ensures Divide(rd, x, m) < x
  {
    rd.RoundedInteger(x);
    var y := rd.round(x as real);
    rd.SmallIntegers(1);
    rd.RoundOrder(1.0, x as real);
    assert rd.ShrinksAt(y, m);
    var q := rd.Quotient(x, m);
    rd.QuotientBound(x, m, y);
    if q >= x as real {
      rd.RoundOrder(x as real, q);
    }
  }

  // ----- where the data is -----

  ghost predicate NoData(sizes: seq<nat>) {
    forall i :: 1 <= i < |sizes| ==> sizes[i] == 0
  }

  /** The first level from an index on with data. */
  function First(sizes: seq<nat>, from: nat): (f: nat)
    requires from <= |sizes|
    ensures from <= f <= |sizes| && (f < |sizes| ==> sizes[f] > 0)
    ensures forall i :: from <= i < f ==> sizes[i] == 0
    decreases |sizes| - from
  {
    if from == |sizes| || sizes[from] > 0 then from else First(sizes, from + 1)
  }

  /** The greatest size of the levels below 0 and above n. */
  function Greatest(sizes: seq<nat>, n: nat): (g: nat)
    requires n <= |sizes|
    ensures forall i :: 1 <= i < n ==> sizes[i] <= g
    ensures g == 0 || exists i :: 1 <= i < n && sizes[i] == g
  {
    if n <= 1 then 0 else Max(Greatest(sizes, n - 1), sizes[n - 1])
  }

  lemma {:induction false} GreatestIsOne(sizes: seq<nat>, n: nat, limit: nat)
    requires n <= |sizes| && forall i :: 0 <= i < |sizes| ==> sizes[i] <= limit
    ensures Greatest(sizes, n) <= limit
  {
    if n > 1 {
      GreatestIsOne(sizes, n - 1, limit);
    }
  }

  lemma {:induction false} FirstStays(sizes: seq<nat>, from: nat, f: nat)
    requires from <= f < |sizes| && sizes[f] > 0 && forall i :: from <= i < f ==> sizes[i] == 0
    ensures First(sizes, from) == f
    decreases f - from
  {
    if from < f {
      FirstStays(sizes, from + 1, f);
    }
  }

  method Survey(sizes: seq<nat>) returns (first: int, greatest: nat)
    requires |sizes| >= 2
    ensures greatest == Greatest(sizes, |sizes|)
    ensures NoData(sizes) ==> greatest == 0
    ensures !NoData(sizes) ==> greatest > 0 && first == First(sizes, 1) && 1 <= first < |sizes|
  {
    first, greatest := -1, 0;
    for n := 1 to |sizes|
      invariant greatest == Greatest(sizes, n)
      invariant first == -1 ==> greatest == 0 && forall i :: 1 <= i < n ==> sizes[i] == 0
      invariant first != -1 ==> 1 <= first < n && sizes[first] > 0 && greatest > 0
      invariant first != -1 ==> forall i :: 1 <= i < first ==> sizes[i] == 0
    {
      var total := sizes[n];
      if total > 0 && first == -1 {
        first := n;
      }
      if total > greatest {
        greatest := total;
      }
    }
    if first != -1 {
      FirstStays(sizes, 1, first);
    }
  }

  // ----- the base level -----

  function BaseMin(rd: Rounding, o: Options): nat
    requires o.multiplier >= 1.0
  {
    Divide(rd, o.base, o.multiplier)
  }

  /** A size divided k times. */
  function Divided(rd: Rounding, x: nat, m: real, k: nat): nat
    requires m >= 1.0
  {
    if k == 0 then x else Divide(rd, Divided(rd, x, m, k - 1), m)
  }

  lemma {:induction false} DividedExactly(rd: Rounding, x: nat, m: nat, k: nat)
    requires rd.Lawful() && x < GRID && 1 <= m < GRID
    ensures Power(m, k) >= 1 && Divided(rd, x, m as real, k) == x / Power(m, k)
    decreases k
  {
    hide Rounding.Lawful, Divide;
    PowerPositive(m, k);
    if k > 0 {
      DividedExactly(rd, x, m, k - 1);
      var y := x / Power(m, k - 1);
      DivisionBounds(x, Power(m, k - 1));
      DivideExactly(rd, y, m);
      DivideTwice(x, Power(m, k - 1), m);
      assert Power(m, k) == Power(m, k - 1) * m;
    }
  }

  lemma DivideTwice(x: nat, a: nat, b: nat)
    requires a >= 1 && b >= 1
    ensures a * b >= 1 && x / a / b == x / (a * b)
  {
    FactorsBelow(a, b);
    var p, r := x / a, x % a;
    var q, t := p / b, p % b;
    DivisionParts(x, a);
    DivisionParts(p, b);
    Distribute(a, b, q, t);
    ProductAtLeast(a, t, b - 1);
    LessFactor(a, b);
    QuotientIs(x, a * b, q, a * t + r);
  }

  lemma DivisionParts(x: nat, a: nat)
    requires a >= 1
    ensures x == a * (x / a) + x % a && x % a < a
  {
  }

  lemma Distribute(a: nat, b: nat, q: nat, t: nat)
    ensures a * (b * q + t) == a * b * q + a * t
  {
    assert a * (b * q) == a * b * q;
  }

  lemma LessFactor(a: nat, b: nat)
    requires b >= 1
    ensures a * (b - 1) == a * b - a
  {
  }

  lemma QuotientIs(x: nat, n: nat, q: nat, r: nat)
    requires n >= 1 && r < n && x == n * q + r
    ensures x / n == q
  {
    var p, t := x / n, x % n;
    assert x == n * p + t && 0 <= t < n;
    if p < q {
      ProductAtLeast(n, p + 1, q);
    } else if p > q {
      ProductAtLeast(n, q + 1, p);
    }
  }

  /** The size of level b if the last of n levels is to have the greatest size. */
  function SizeAt(rd: Rounding, o: Options, n: nat, greatest: nat, b: nat): nat
    requires o.multiplier >= 1.0 && b < n
  {
    Divided(rd, greatest, o.multiplier, n - 1 - b)
  }

  /** A level whose size would not exceed the least size of the base level. The level above the last one is
      always necessary if recent data is kept out of the last. */
  predicate Unnecessary(rd: Rounding, o: Options, n: nat, greatest: nat, baseMin: nat, i: nat)
    requires o.multiplier >= 1.0 && i < n
  {
    SizeAt(rd, o, n, greatest, i) <= baseMin && (o.precludeSeconds == 0 || i < n - 2)
  }

  /** The lowest unnecessary level from the first one with data on, or -1. */
  ghost predicate LowestOf(rd: Rounding, o: Options, n: nat, first: nat, greatest: nat, baseMin: nat, lowest: int)
    requires o.multiplier >= 1.0
  {
    && (lowest == -1 || (first <= lowest <= n - 2 && Unnecessary(rd, o, n, greatest, baseMin, lowest)))
    && (forall i :: first <= i <= n - 2 && i > lowest ==> !Unnecessary(rd, o, n, greatest, baseMin, i))
  }

  /** Base level and its size: the first level with data, if its size would be too small; else the lowest level
      whose size does not exceed the configured one, or level 1 with the configured one if there is none. */
  ghost predicate BaseOf(rd: Rounding, o: Options, n: nat, first: nat, greatest: nat, base: nat, baseSize: nat)
    requires o.multiplier >= 1.0 && 1 <= first < n
  {
    if SizeAt(rd, o, n, greatest, first) <= BaseMin(rd, o) then base == first && baseSize == BaseMin(rd, o) + 1
    else
      && 1 <= base <= first && (forall b :: base < b <= first ==> SizeAt(rd, o, n, greatest, b) > o.base)
      && var size := SizeAt(rd, o, n, greatest, base);
         if size <= o.base then baseSize == Max(1, size) else base == 1 && baseSize == o.base
  }

  /** The same in whole numbers: with a whole multiplier and sizes below 2^52, levels shrink by the multiplier
      from the last one up. */
  ghost predicate WholeBaseOf(base0: nat, m: nat, n: nat, first: nat, greatest: nat, base: nat, baseSize: nat)
    requires m >= 1 && 1 <= first < n
  {
    if Share(m, n, greatest, first) <= base0 / m then base == first && baseSize == base0 / m + 1
    else
      && 1 <= base <= first && (forall b :: base < b <= first ==> Share(m, n, greatest, b) > base0)
      && var size := Share(m, n, greatest, base);
         if size <= base0 then baseSize == Max(1, size) else base == 1 && baseSize == base0
  }

  function Share(m: nat, n: nat, greatest: nat, b: nat): nat
    requires m >= 1 && b < n
  {
    PowerPositive(m, n - 1 - b);
    greatest / Power(m, n - 1 - b)
  }

  lemma BaseExactly(rd: Rounding, o: Options, m: nat, n: nat, first: nat, greatest: nat, base: nat, baseSize: nat)
    requires o.Ok(rd) && o.multiplier == m as real && 1 <= m < GRID && o.base < GRID && greatest < GRID
    requires 1 <= first < n
    ensures BaseOf(rd, o, n, first, greatest, base, baseSize)
        <==> WholeBaseOf(o.base, m, n, first, greatest, base, baseSize)
  {
    hide Rounding.Lawful, Rounding.Representable, Divided, Divide;
    DivideExactly(rd, o.base, m);
    forall b | 1 <= b < n ensures SizeAt(rd, o, n, greatest, b) == Share(m, n, greatest, b) {
      DividedExactly(rd, greatest, m, n - 1 - b);
    }
  }

  /** And so is the lowest unnecessary level: the last one whose share does not exceed the least base size. With a
      tier for recent data the level above the last is not looked at. */
  lemma LowestExactly(rd: Rounding, o: Options, m: nat, n: nat, first: nat, greatest: nat, lowest: int)
    requires o.Ok(rd) && o.multiplier == m as real && 1 <= m < GRID && o.base < GRID && greatest < GRID
    requires 1 <= first < n
    ensures var last := if o.precludeSeconds == 0 then n - 2 else n - 3;
            LowestOf(rd, o, n, first, greatest, BaseMin(rd, o), lowest)
            <==> && (lowest == -1 || (first <= lowest <= last && Share(m, n, greatest, lowest) <= o.base / m))
                 && forall i :: first <= i <= last && i > lowest ==> Share(m, n, greatest, i) > o.base / m
  {
    hide Rounding.Lawful, Rounding.Representable, Divided, Divide, Share;
    DivideExactly(rd, o.base, m);
    forall b | 1 <= b < n ensures SizeAt(rd, o, n, greatest, b) == Share(m, n, greatest, b) {
      ShareAt(rd, o, m, n, greatest, b);
    }
    assert forall i :: first <= i <= n - 2 ==>
      (Unnecessary(rd, o, n, greatest, BaseMin(rd, o), i)
       <==> Share(m, n, greatest, i) <= o.base / m && (o.precludeSeconds == 0 || i <= n - 3));
  }

  lemma ShareAt(rd: Rounding, o: Options, m: nat, n: nat, greatest: nat, b: nat)
    requires rd.Lawful() && o.multiplier == m as real && 1 <= m < GRID && greatest < GRID && b < n
    ensures SizeAt(rd, o, n, greatest, b) == Share(m, n, greatest, b)
  {
    DividedExactly(rd, greatest, m, n - 1 - b);
  }

  /** Dividing the greatest size down from the last level to the first one with data. */
  method DivideDown(rd: Rounding, o: Options, n: nat, first: nat, greatest: nat, baseMin: nat)
      returns (cur: nat, lowest: int, casts: bool)
    requires o.Ok(rd) && 1 <= first < n && greatest < U64
    ensures casts <==> (first <= n - 2 ==> rd.Defined(rd.Quotient(greatest, o.multiplier)))
    ensures cur < U64 && cur == SizeAt(rd, o, n, greatest, first) && (first == n - 1 ==> cur == greatest)
    ensures LowestOf(rd, o, n, first, greatest, baseMin, lowest)
    ensures casts && first <= n - 2 ==> cur <= TOP && rd.Representable(cur as real)
    ensures casts && first <= n - 2 && o.multiplier == 1.0 ==> cur == Divide(rd, greatest, 1.0)
    // two assertions of the source
    ensures cur <= baseMin ==> first == n - 1 || o.precludeSeconds > 0 || lowest != -1
    ensures casts && cur > baseMin && rd.Representable(baseMin as real) ==> lowest == -1
  {
    hide Rounding.Lawful, Rounding.Representable;
    cur, lowest, casts := greatest, -1, true;
    var i: int := n - 2;
    while i >= first
      invariant first - 1 <= i <= n - 2 && cur < U64
      invariant cur == SizeAt(rd, o, n, greatest, i + 1)
      invariant LowestOf(rd, o, n, i + 1, greatest, baseMin, lowest)
      invariant i == n - 2 ==> cur == greatest && casts && lowest == -1
      invariant i < n - 2 ==> (casts <==> rd.Defined(rd.Quotient(greatest, o.multiplier)))
      invariant i < n - 2 && casts ==> cur <= TOP && rd.Representable(cur as real)
      invariant i < n - 2 && casts && o.multiplier == 1.0 ==> cur == Divide(rd, greatest, 1.0)
      invariant i < n - 2 && cur <= baseMin ==> o.precludeSeconds > 0 || lowest != -1
      invariant casts && rd.Representable(baseMin as real) && lowest != -1 ==> cur <= baseMin
    {
      if casts {
        DividedOn(rd, o, cur, i < n - 2, baseMin);
      }
      casts := casts && rd.Defined(rd.Quotient(cur, o.multiplier));
      cur := Divide(rd, cur, o.multiplier);
      if lowest == -1 && cur <= baseMin && (o.precludeSeconds == 0 || i < n - 2) {
        lowest := i;
      }
      i := i - 1;
    }
  }

  /** A further division: defined if the dividend came from a division, and not above a double bound. */
  lemma DividedOn(rd: Rounding, o: Options, cur: nat, again: bool, b: nat)
    requires o.Ok(rd) && cur < U64 && (again ==> cur <= TOP && rd.Representable(cur as real))
    ensures again ==> rd.Defined(rd.Quotient(cur, o.multiplier))
    ensures again && o.multiplier == 1.0 ==> Divide(rd, cur, 1.0) == cur
    ensures rd.Defined(rd.Quotient(cur, o.multiplier)) ==>
      Divide(rd, cur, o.multiplier) <= TOP && rd.Representable(Divide(rd, cur, o.multiplier) as real)
    ensures rd.Representable(b as real) && cur <= b ==> Divide(rd, cur, o.multiplier) <= b
  {
    hide Rounding.Lawful;
    if again {
      rd.QuotientBound(cur, o.multiplier, cur as real);
      if o.multiplier == 1.0 {
        DivideByOne(rd, cur);
      }
    }
    if rd.Defined(rd.Quotient(cur, o.multiplier)) {
      DivideIsDouble(rd, cur, o.multiplier);
    }
    if rd.Representable(b as real) && cur <= b {
      DivideBelow(rd, cur, o.multiplier, b);
    }
  }

  /** The base level above the first level with data, while the target is too large. */
  method FindBase(rd: Rounding, o: Options, ghost n: nat, ghost greatest: nat, first: nat, cur0: nat)
      returns (base: nat, cur: nat, casts: bool)
    requires o.Ok(rd) && 1 <= first < n && cur0 < U64 && cur0 == SizeAt(rd, o, n, greatest, first)
    ensures 1 <= base <= first && cur == SizeAt(rd, o, n, greatest, base)
    ensures forall b :: base < b <= first ==> SizeAt(rd, o, n, greatest, b) > o.base
    ensures cur > o.base ==> base == 1
    ensures casts <==> (first > 1 && cur0 > o.base ==> rd.Defined(rd.Quotient(cur0, o.multiplier)))
  {
    hide Rounding.Lawful, Rounding.Representable;
    base, cur, casts := first, cur0, true;
    while base > 1 && cur > o.base
      invariant 1 <= base <= first && cur == SizeAt(rd, o, n, greatest, base)
      invariant forall b :: base < b <= first ==> SizeAt(rd, o, n, greatest, b) > o.base
      invariant base == first ==> cur == cur0 && casts
      invariant base < first ==> cur0 > o.base && (casts <==> rd.Defined(rd.Quotient(cur0, o.multiplier)))
      invariant base < first && casts ==> cur <= TOP && rd.Representable(cur as real)
    {
      if casts {
        DividedOn(rd, o, cur, base < first, 0);
      }
      casts := casts && rd.Defined(rd.Quotient(cur, o.multiplier));
      base := base - 1;
      cur := Divide(rd, cur, o.multiplier);
    }
  }

  /** Whether the greatest size is divided at all: by the first loop if a level above the last has data,
      else by the second if the base level can move up. */
  predicate DividesGreatest(rd: Rounding, o: Options, n: nat, first: nat, greatest: nat)
    requires o.multiplier >= 1.0
  {
    first + 2 <= n || (first > 1 && greatest > BaseMin(rd, o) && greatest > o.base)
  }

  /** When the conversions of quotients are defined. */
  predicate DivisionsDefined(rd: Rounding, o: Options, n: nat, first: nat, greatest: nat)
    requires o.multiplier >= 1.0
  {
    o.multiplier > 1.0 || (o.base < MIDDLE && (DividesGreatest(rd, o, n, first, greatest) ==> greatest < MIDDLE))
  }

  /** The base level gets a size above the configured one: the multiplier is one, the base rounds up or
      not at all, and the sizes do not exceed it. */
  ghost predicate BaseExceeded(rd: Rounding, o: Options, greatest: nat) {
    && o.multiplier == 1.0 && rd.round(greatest as real) <= rd.round(o.base as real)
    && o.base as real <= rd.round(o.base as real)
  }

  method ChooseBase(rd: Rounding, o: Options, n: nat, first: nat, greatest: nat)
      returns (base: nat, baseSize: nat, lowest: int, asserts: bool, casts: bool)
    requires o.Ok(rd) && 1 <= first < n && 0 < greatest < U64
    ensures 1 <= base <= first
    ensures casts ==> BaseOf(rd, o, n, first, greatest, base, baseSize)
    ensures casts ==> LowestOf(rd, o, n, first, greatest, BaseMin(rd, o), lowest)
    ensures casts <==> DivisionsDefined(rd, o, n, first, greatest)
    ensures casts ==> asserts && 0 < baseSize < U64
    ensures casts && base + 1 < n && baseSize > o.base ==> first + 2 <= n && BaseExceeded(rd, o, greatest)
    ensures casts && first + 2 <= n && BaseExceeded(rd, o, greatest) ==> base == first && baseSize == BaseMin(rd, o) + 1
  {
    hide Rounding.Lawful, Rounding.Representable, SizeAt, LowestOf, Divide;
    BaseMinFacts(rd, o);
    rd.QuotientDefined(greatest, o.multiplier);
    var baseMin := BaseMin(rd, o);
    casts := rd.Defined(rd.Quotient(o.base, o.multiplier));
    asserts := first >= 1;
    var cur, divided;
    cur, lowest, divided := DivideDown(rd, o, n, first, greatest, baseMin);
    if o.multiplier == 1.0 && greatest < MIDDLE {
      DivideByOne(rd, greatest);
    }
    if cur <= baseMin {
      asserts := asserts && (first == n - 1 || o.precludeSeconds > 0 || lowest != -1);
      base, baseSize := first, (baseMin + 1) % U64;
    } else {
      asserts := asserts && lowest == -1;
      if divided {
        DividedOn(rd, o, cur, first + 2 <= n, 0);
      }
      var found;
      base, cur, found := FindBase(rd, o, n, greatest, first, cur);
      divided := divided && found;
      if cur > o.base {
        asserts := asserts && base == 1;
        baseSize := o.base;
      } else {
        baseSize := Max(1, cur);
      }
    }
    casts := casts && divided;
    asserts := asserts && baseSize > 0;
  }

  lemma BaseMinFacts(rd: Rounding, o: Options)
    requires o.Ok(rd)
    ensures rd.Defined(rd.Quotient(o.base, o.multiplier)) <==> o.multiplier > 1.0 || o.base < MIDDLE
    ensures rd.Defined(rd.Quotient(o.base, o.multiplier)) ==>
      BaseMin(rd, o) <= TOP && rd.Representable(BaseMin(rd, o) as real)
    ensures o.multiplier > 1.0 ==> BaseMin(rd, o) < o.base
    ensures o.multiplier == 1.0 && o.base < MIDDLE ==> BaseMin(rd, o) as real == rd.round(o.base as real)
  {
    hide Rounding.Lawful;
    rd.QuotientDefined(o.base, o.multiplier);
    if rd.Defined(rd.Quotient(o.base, o.multiplier)) {
      DivideIsDouble(rd, o.base, o.multiplier);
    }
    if o.multiplier > 1.0 {
      DivideByMore(rd, o.base, o.multiplier);
    } else if o.base < MIDDLE {
      DivideByOne(rd, o.base);
    }
  }

  // ----- the targets -----

  /** Targets from the base level on, none below the configured base size. */
  method Fill(rd: Rounding, o: Options, prefilled: seq<nat>, base: nat, baseSize: nat)
    returns (maxBytes: seq<nat>, casts: bool)
    requires base < |prefilled| && o.Ok(rd)
    ensures |maxBytes| == |prefilled| && maxBytes[..base] == prefilled[..base]
    ensures forall i :: base <= i < |maxBytes| ==>
              maxBytes[i] == Max(Grown(rd, baseSize, o.multiplier, i - base), o.base)
    ensures casts <==> ProductsDefined(rd, baseSize, o.multiplier, |prefilled| - 1 - base)
  {
    hide Rounding.Lawful, MultiplyDefined, MultiplyCheckOverflow;
    maxBytes, casts := prefilled, true;
    var size := baseSize;
    for i := base to |prefilled|
      invariant |maxBytes| == |prefilled| && maxBytes[..base] == prefilled[..base]
      invariant size == if i == base then baseSize else Grown(rd, baseSize, o.multiplier, i - 1 - base)
      invariant forall j :: base <= j < i ==> maxBytes[j] == Max(Grown(rd, baseSize, o.multiplier, j - base), o.base)
      invariant casts <==> (i > base ==> ProductsDefined(rd, baseSize, o.multiplier, i - 1 - base))
    {
      if i > base {
        casts := casts && MultiplyDefined(rd, size, o.multiplier);
        size := MultiplyCheckOverflow(rd, size, o.multiplier);
      }
      maxBytes := maxBytes[i := Max(size, o.base)];
    }
  }

  /** The targets fall: the base level gets more than the configured size, one more than a double, which
      the first multiplication by one rounds down again. */
  ghost predicate Falls(rd: Rounding, o: Options, sizes: seq<nat>)
    requires |sizes| >= 2
  {
    && !NoData(sizes) && First(sizes, 1) + 2 <= |sizes| && BaseExceeded(rd, o, Greatest(sizes, |sizes|))
    && var size := rd.round(o.base as real) + 1.0; rd.round(size) < size
  }

  ghost predicate NonDecreasing(t: Targets) {
    forall i, j :: t.baseLevel <= i < j < |t.maxBytes| ==> t.maxBytes[i] <= t.maxBytes[j]
  }

  /** The sizes of the levels from the base level on, before they are raised to the base size. */
  ghost function LevelSizes(rd: Rounding, o: Options, n: nat, t: Targets): (s: seq<nat>)
    requires t.baseLevel < n
    ensures |s| == n - t.baseLevel
  {
    seq(n - t.baseLevel, k requires 0 <= k < n - t.baseLevel => Grown(rd, t.baseSize, o.multiplier, k))
  }

  lemma LevelSizesGrow(rd: Rounding, o: Options, n: nat, t: Targets)
    requires t.baseLevel < n
    ensures var s := LevelSizes(rd, o, n, t);
            s[0] == t.baseSize && forall k :: 0 <= k < |s| - 1 ==> Multiplied(rd, s[k], o.multiplier, s[k + 1])
  {
    hide MultiplyCheckOverflow, Multiplied;
    var s := LevelSizes(rd, o, n, t);
    forall k | 0 <= k < |s| - 1 ensures Multiplied(rd, s[k], o.multiplier, s[k + 1]) {
      MultiplyTruncates(rd, s[k], o.multiplier);
    }
  }

  /** With a whole multiplier each level has the target of the one above times the multiplier, up to 2^53. */
  ghost predicate Proportional(o: Options, t: Targets) {
    forall m: nat, k: nat :: o.multiplier == m as real && t.baseLevel + k < |t.maxBytes| ==>
      (t.baseSize * Power(m, k) <= EXACT ==> t.maxBytes[t.baseLevel + k] == Max(t.baseSize * Power(m, k), o.base))
  }

  lemma AreProportional(rd: Rounding, o: Options, t: Targets)
    requires rd.Lawful() && o.multiplier >= 1.0 && t.baseSize > 0
    requires forall i :: t.baseLevel <= i < |t.maxBytes| ==>
      t.maxBytes[i] == Max(Grown(rd, t.baseSize, o.multiplier, i - t.baseLevel), o.base)
    ensures Proportional(o, t)
  {
    hide Rounding.Lawful, Grown;
    forall m: nat, k: nat | o.multiplier == m as real && t.baseLevel + k < |t.maxBytes|
                            && t.baseSize * Power(m, k) <= EXACT
      ensures t.maxBytes[t.baseLevel + k] == Max(t.baseSize * Power(m, k), o.base)
    {
      GrownExactly(rd, t.baseSize, m, k);
    }
  }

  method CalculateBaseBytes(rd: Rounding, o: Options, sizes: seq<nat>) returns (t: Targets, ghost levels: seq<nat>)
    requires o.Ok(rd) && |sizes| >= 2 && forall i :: 0 <= i < |sizes| ==> sizes[i] < U64
    ensures |t.maxBytes| == |sizes| && 1 <= t.baseLevel <= |sizes| - 1
    ensures forall i :: 1 <= i < t.baseLevel ==> sizes[i] == 0
    ensures forall i :: 0 <= i < t.baseLevel ==> t.maxBytes[i] == U64 - 1
    ensures forall i :: t.baseLevel <= i < |sizes| ==> t.maxBytes[i] >= o.base
    ensures NoData(sizes) ==> t.baseLevel == |sizes| - 1 && t.maxBytes[t.baseLevel] == U64 - 1
    ensures !NoData(sizes) ==> forall i :: t.baseLevel <= i < |sizes| ==>
      t.maxBytes[i] == Max(Grown(rd, t.baseSize, o.multiplier, i - t.baseLevel), o.base)
    // each size is the one above it times the multiplier
    ensures !NoData(sizes) ==>
      && |levels| == |sizes| - t.baseLevel && levels[0] == t.baseSize
      && (forall k :: 0 <= k < |levels| - 1 ==> Multiplied(rd, levels[k], o.multiplier, levels[k + 1]))
      && (forall k :: 0 <= k < |levels| ==> t.maxBytes[t.baseLevel + k] == Max(levels[k], o.base))
    ensures !NoData(sizes) && t.casts ==> Proportional(o, t)
    // no assertion fails while every conversion is defined
    ensures t.casts ==> t.asserts
    // when they are defined
    ensures NoData(sizes) ==> t.casts
    ensures !NoData(sizes) ==>
      (t.casts <==>
         && DivisionsDefined(rd, o, |sizes|, First(sizes, 1), Greatest(sizes, |sizes|))
         && ProductsDefined(rd, t.baseSize, o.multiplier, |sizes| - 1 - t.baseLevel))
    // where the levels begin, and with what
    ensures !NoData(sizes) && DivisionsDefined(rd, o, |sizes|, First(sizes, 1), Greatest(sizes, |sizes|)) ==>
      && BaseOf(rd, o, |sizes|, First(sizes, 1), Greatest(sizes, |sizes|), t.baseLevel, t.baseSize)
      && LowestOf(rd, o, |sizes|, First(sizes, 1), Greatest(sizes, |sizes|), BaseMin(rd, o), t.lowest)
    // when the targets never decrease
    ensures t.casts ==> (NonDecreasing(t) <==> !Falls(rd, o, sizes))
  {
    hide Options.Ok, First, Greatest, DivisionsDefined, ProductsDefined, Falls, Grown, BaseOf, LowestOf, Multiplied;
    hide Proportional;
    var n := |sizes|;
    OptionsMultiplier(rd, o);
    GreatestIsOne(sizes, n, U64 - 1);
    var first, greatest := Survey(sizes);
    var prefilled: seq<nat> := seq(n, _ => U64 - 1);
    if greatest == 0 {
      t := Targets(n - 1, 0, -1, prefilled, true, true);
      levels := [];
      DoesNotFall(rd, o, sizes);
      return;
    }
    var base, baseSize, lowest, asserts, divided := ChooseBase(rd, o, n, first, greatest);
    var maxBytes, multiplied := Fill(rd, o, prefilled, base, baseSize);
    assert forall i :: 0 <= i < base ==> maxBytes[i] == maxBytes[..base][i] == prefilled[i];
    t := Targets(base, baseSize, lowest, maxBytes, asserts, divided && multiplied);
    levels := LevelSizes(rd, o, n, t);
    LevelSizesGrow(rd, o, n, t);
    if t.casts {
      AreProportional(rd, o, t);
      WhenTargetsFall(rd, o, sizes, first, greatest, t);
    }
  }

  lemma OptionsMultiplier(rd: Rounding, o: Options)
    requires o.Ok(rd)
    ensures o.multiplier >= 1.0 && 0 < o.base < U64 && rd.Lawful()
  {
  }

  lemma DoesNotFall(rd: Rounding, o: Options, sizes: seq<nat>)
    requires |sizes| >= 2 && NoData(sizes)
    ensures !Falls(rd, o, sizes)
  {
  }

  lemma WhenTargetsFall(rd: Rounding, o: Options, sizes: seq<nat>, first: nat, greatest: nat, t: Targets)
    requires o.Ok(rd) && |sizes| >= 2 && !NoData(sizes) && first == First(sizes, 1)
    requires greatest == Greatest(sizes, |sizes|)
    requires |t.maxBytes| == |sizes| && 1 <= t.baseLevel <= first < |sizes| && 0 < t.baseSize < U64
    requires forall i :: t.baseLevel <= i < |sizes| ==>
      t.maxBytes[i] == Max(Grown(rd, t.baseSize, o.multiplier, i - t.baseLevel), o.base)
    requires DivisionsDefined(rd, o, |sizes|, first, greatest)
    requires ProductsDefined(rd, t.baseSize, o.multiplier, |sizes| - 1 - t.baseLevel)
    requires t.baseLevel + 1 < |sizes| && t.baseSize > o.base ==> first + 2 <= |sizes| && BaseExceeded(rd, o, greatest)
    requires first + 2 <= |sizes| && BaseExceeded(rd, o, greatest) ==>
               t.baseLevel == first && t.baseSize == BaseMin(rd, o) + 1
    ensures NonDecreasing(t) <==> !Falls(rd, o, sizes)
  {
    hide Rounding.Lawful, Rounding.Representable, First, Greatest, ProductsDefined, Grown;
    BaseMinFacts(rd, o);
    var b := t.baseLevel;
    if b + 1 < |sizes| {
      FirstStepDecides(rd, o, t);
      if first + 2 <= |sizes| && BaseExceeded(rd, o, greatest) {
        FirstStepByOne(rd, o, t);
      }
    }
  }

  lemma {:induction false} GrownMonotone(rd: Rounding, size: nat, m: real, i: nat, j: nat)
    requires rd.Lawful() && size > 0 && m >= 1.0 && 1 <= i <= j && ProductsDefined(rd, size, m, j)
    ensures Grown(rd, size, m, i) <= Grown(rd, size, m, j)
    decreases j
  {
    hide Rounding.Lawful, Grown, MultiplyDefined;
    if i < j {
      GrownMonotone(rd, size, m, i, j - 1);
      GrownSteady(rd, size, m, j);
    }
  }

  /** Only the step from the base level to the next can be downwards. */
  lemma FirstStepDecides(rd: Rounding, o: Options, t: Targets)
    requires o.Ok(rd) && t.baseSize > 0 && t.baseLevel + 1 < |t.maxBytes|
    requires forall i :: t.baseLevel <= i < |t.maxBytes| ==>
      t.maxBytes[i] == Max(Grown(rd, t.baseSize, o.multiplier, i - t.baseLevel), o.base)
    requires ProductsDefined(rd, t.baseSize, o.multiplier, |t.maxBytes| - 1 - t.baseLevel)
    ensures NonDecreasing(t) <==> t.maxBytes[t.baseLevel] <= t.maxBytes[t.baseLevel + 1]
    ensures t.maxBytes[t.baseLevel] == Max(t.baseSize, o.base)
    ensures t.baseSize <= o.base ==> NonDecreasing(t)
  {
    hide Rounding.Lawful, MultiplyDefined;
    var b := t.baseLevel;
    forall i, j | b < i <= j < |t.maxBytes| ensures t.maxBytes[i] <= t.maxBytes[j] {
      LessDefined(rd, t.baseSize, o.multiplier, j - b, |t.maxBytes| - 1 - b);
      GrownMonotone(rd, t.baseSize, o.multiplier, i - b, j - b);
    }
  }

  lemma LessDefined(rd: Rounding, size: nat, m: real, i: nat, j: nat)
    requires i <= j && ProductsDefined(rd, size, m, j)
    ensures ProductsDefined(rd, size, m, i)
  {
  }

  lemma FirstStepByOne(rd: Rounding, o: Options, t: Targets)
    requires o.Ok(rd) && o.multiplier == 1.0 && 0 < t.baseSize <= TOP + 1 && t.baseLevel + 1 < |t.maxBytes|
    requires t.maxBytes[t.baseLevel + 1] == Max(Grown(rd, t.baseSize, 1.0, 1), o.base)
    ensures t.baseSize > o.base ==>
      (Max(t.baseSize, o.base) <= t.maxBytes[t.baseLevel + 1] <==> rd.round(t.baseSize as real) >= t.baseSize as real)
  {
    hide Rounding.Lawful, MultiplyCheckOverflow;
    MultiplyByOne(rd, t.baseSize);
    assert Grown(rd, t.baseSize, 1.0, 1) == MultiplyCheckOverflow(rd, Grown(rd, t.baseSize, 1.0, 0), 1.0);
  }

  lemma MultiplyByOne(rd: Rounding, x: nat)
    requires rd.Lawful() && 0 < x <= TOP + 1
    ensures MultiplyCheckOverflow(rd, x, 1.0) as real == rd.round(x as real)
  {
    hide Rounding.Lawful;
    DivideByOne(rd, x);
    var y := rd.round(x as real);
    assert Times(y, 1.0) == y;
    rd.RoundedInteger(x);
    assert rd.Product(x, 1.0) == y;
    var q := (U64 - 1) / x;
    assert q >= 1;
    rd.SmallIntegers(1);
    rd.RoundOrder(1.0, q as real);
  }

  // ----- inputs at which the promises end -----

  /** A base of 2^64 - 1024 with multiplier 1: its quotient cannot be converted. */
  lemma CastCanFail(rd: Rounding)
    requires rd.Lawful()
    ensures !rd.Defined(rd.Quotient(MIDDLE, 1.0))
    ensures forall n: nat, first: nat, greatest: nat ::
              !DivisionsDefined(rd, Options(MIDDLE, 1.0, 0), n, first, greatest)
  {
    rd.SmallIntegers(1);
    rd.QuotientDefined(MIDDLE, 1.0);
  }

  const TIE: Options := Options(EXACT + 3, 1.0, 0)

  /** A base of 2^53 + 3 with multiplier 1, and data in levels 1 and 2: every conversion is defined, the
      target of level 1 is 2^53 + 5 and that of level 2 is 2^53 + 4. */
  lemma TargetsCanFall(rd: Rounding)
    requires rd.Lawful()
    ensures TIE.Ok(rd) && Falls(rd, TIE, [0, 1, 1])
    ensures DivisionsDefined(rd, TIE, 3, 1, 1) && ProductsDefined(rd, EXACT + 5, 1.0, 1)
    ensures BaseMin(rd, TIE) + 1 == EXACT + 5 && BaseOf(rd, TIE, 3, 1, 1, 1, EXACT + 5)
    ensures MultiplyCheckOverflow(rd, EXACT + 5, 1.0) == EXACT + 4
  {
    hide Rounding.Lawful;
    rd.TiesNearExact();
    DivideByOne(rd, EXACT + 3);
    MultiplyByOne(rd, EXACT + 5);
    rd.SmallIntegers(1);
    DivideByOne(rd, 1);
    assert Divided(rd, 1, 1.0, 1) == Divide(rd, Divided(rd, 1, 1.0, 0), 1.0) == 1;
    OneProduct(rd, EXACT + 5);
    DataInBoth();
  }

  lemma OneProduct(rd: Rounding, size: nat)
    requires MultiplyDefined(rd, size, 1.0)
    ensures ProductsDefined(rd, size, 1.0, 1)
  {
    assert Grown(rd, size, 1.0, 0) == size;
  }

  /** The computation there: nothing undefined, no assertion fails, and the targets decrease. */
  method FallingTargets(rd: Rounding) returns (t: Targets)
    requires rd.Lawful()
    ensures t.casts && t.asserts && !NonDecreasing(t)
    ensures t.baseLevel == 1 && t.maxBytes == [U64 - 1, EXACT + 5, EXACT + 4]
  {
    hide Rounding.Lawful, Rounding.Representable, DivisionsDefined, Falls, Options.Ok, First, Greatest;
    TargetsCanFall(rd);
    DataInBoth();
    var sizes := [0, 1, 1];
    ghost var levels;
    t, levels := CalculateBaseBytes(rd, TIE, sizes);
    OnlyBase(rd, TIE, 3, 1, 1, t.baseLevel, t.baseSize, 1, EXACT + 5);
    assert Grown(rd, EXACT + 5, 1.0, 1) == MultiplyCheckOverflow(rd, Grown(rd, EXACT + 5, 1.0, 0), 1.0);
  }

  /** Base level and size are determined. */
  lemma OnlyBase(rd: Rounding, o: Options, n: nat, first: nat, greatest: nat, a: nat, x: nat, b: nat, y: nat)
    requires o.multiplier >= 1.0 && 1 <= first < n
    requires BaseOf(rd, o, n, first, greatest, a, x) && BaseOf(rd, o, n, first, greatest, b, y)
    ensures a == b && x == y
  {
    hide SizeAt, BaseMin;
  }

  lemma DataInBoth()
    ensures !NoData([0, 1, 1]) && First([0, 1, 1], 1) == 1 && Greatest([0, 1, 1], 3) == 1
  {
    var sizes := [0, 1, 1];
    assert sizes[1] > 0;
    assert Greatest(sizes, 2) == 1;
  }

  const ORDINARY: Options := Options(100, 10.0, 0)

  /** An ordinary case: 1000 bytes in the last of three levels, base 100 and multiplier 10. */
  method OrdinaryTargets(rd: Rounding) returns (t: Targets)
    requires rd.Lawful()
    ensures t.casts && t.asserts && t.baseLevel == 1 && t.maxBytes == [U64 - 1, 100, 1000]
  {
    hide Rounding.Lawful, Rounding.Representable, Falls, BaseOf, Multiplied, ProductsDefined, First, Greatest;
    var sizes := [0, 0, 1000];
    DataInLast();
    rd.SmallIntegers(10);
    ghost var levels;
    t, levels := CalculateBaseBytes(rd, ORDINARY, sizes);
    BaseExactly(rd, ORDINARY, 10, 3, 2, 1000, t.baseLevel, t.baseSize);
    PowersOfTen();
    GrownExactly(rd, 100, 10, 1);
    assert t.maxBytes[1] == 100 && t.maxBytes[2] == 1000;
  }

  lemma PowersOfTen()
    ensures Power(10, 0) == 1 && Power(10, 1) == 10
    ensures Share(10, 3, 1000, 2) == 1000 && Share(10, 3, 1000, 1) == 100
  {
    assert Power(10, 1) == 10 * Power(10, 0);
  }

  lemma DataInLast()
    ensures !NoData([0, 0, 1000]) && First([0, 0, 1000], 1) == 2 && Greatest([0, 0, 1000], 3) == 1000
  {
    var sizes := [0, 0, 1000];
    assert sizes[2] > 0;
    assert First(sizes, 2) == 2;
    assert Greatest(sizes, 2) == 0;
  }

  /** A product that passes the test for overflow and still does not fit: 1 times 2^64. */
  lemma ProductCanFail(rd: Rounding)
    requires rd.Lawful()
    ensures !MultiplyDefined(rd, 1, U64 as real)
  {
    rd.SmallIntegers(1);
    rd.TopIsDouble();
    rd.RoundedInteger(U64 - 1);
    assert rd.round((U64 - 1) as real) >= U64 as real;
    assert Times(1.0, U64 as real) == U64 as real;
  }
}
