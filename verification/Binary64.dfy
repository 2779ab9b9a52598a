// Arithmetic in the binary64 format of IEEE 754: every result is rounded to the nearest number of the format,
// and halfway to the even one. The format has no largest number here: what lies beyond it does not fit in 64 bits
// either, so a conversion to an integer says as little about it as about an infinity.
module Binary64 {
  import opened Numbers

  const TWO_52 := 0x10_0000_0000_0000
  const TWO_53 := 0x20_0000_0000_0000

  function Doubled(x: real, times: nat): real {
    if times == 0 then x else 2.0 * Doubled(x, times - 1)
  }

  function Halved(x: real, times: nat): real {
    if times == 0 then x else Halved(x, times - 1) / 2.0
  }

  // x is m, doubled e times, or halved if e is negative.
  predicate Scaled(x: real, m: int, e: int) {
    if e >= 0 then x == Doubled(m as real, e) else Doubled(x, -e) == m as real
  }

  // A number of the format: 53 binary digits, the last of them worth at least the -1074th power of two.
  ghost predicate IsFloat(x: real) {
    exists m, e :: -TWO_53 <= m <= TWO_53 && -1074 <= e && Scaled(x, m, e)
  }

  // Its last digit is zero.
  ghost predicate IsEven(x: real) {
    exists m, e :: -TWO_52 <= m <= TWO_52 && -1073 <= e && Scaled(x, m, e)
  }

  function Distance(x: real, y: real): real {
    if x <= y then y - x else x - y
  }

  // y is the number of the format that x is rounded to.
  ghost predicate IsNearest(x: real, y: real) {
    && IsFloat(y)
    && forall d | IsFloat(d) ::
         Distance(y, x) <= Distance(d, x) && (Distance(y, x) == Distance(d, x) && d != y ==> IsEven(y))
  }

  ghost predicate IsRounding(round: real -> real) {
    forall x :: IsNearest(x, round(x))
  }

  // Towards zero; any 64-bit integer where that one does not fit.
  ghost predicate IsConversion(convert: real -> int) {
    forall x :: InInt64(convert(x)) && (InInt64(Truncate(x)) ==> convert(x) == Truncate(x))
  }

  // The arithmetic of a machine: its rounding, and its conversion to 64-bit integers.
  datatype Arithmetic = Arithmetic(round: real -> real, convert: real -> int) {
    ghost predicate Valid() {
      IsRounding(round) && IsConversion(convert)
    }

    function FromInt(n: int): real {
      round(n as real)
    }

    function Times(x: real, y: real): real {
      round(x * y)
    }

    function Over(x: real, y: real): real
      requires y != 0.0
    {
      round(x / y)
    }
  }

  // ---- Doubling ----

  lemma {:induction false} DoubledSum(x: real, a: nat, b: nat)
    ensures Doubled(x, a + b) == Doubled(Doubled(x, a), b)
  {
    if b > 0 {
      DoubledSum(x, a, b - 1);
    }
  }

  lemma {:induction false} DoubledOrder(x: real, y: real, s: nat)
    ensures x < y <==> Doubled(x, s) < Doubled(y, s)
    ensures x == y <==> Doubled(x, s) == Doubled(y, s)
  {
    if s > 0 {
      DoubledOrder(x, y, s - 1);
    }
  }

  lemma {:induction false} DoubledDifference(x: real, y: real, s: nat)
    ensures Doubled(x - y, s) == Doubled(x, s) - Doubled(y, s)
  {
    if s > 0 {
      DoubledDifference(x, y, s - 1);
    }
  }

  lemma DoubledDistance(x: real, y: real, s: nat)
    ensures Doubled(Distance(x, y), s) == Distance(Doubled(x, s), Doubled(y, s))
  {
    DoubledOrder(x, y, s);
    DoubledDifference(x, y, s);
    DoubledDifference(y, x, s);
  }

  lemma Twice(n: int)
    ensures (2 * n) as real == 2.0 * n as real
  {
  }

  // A whole number stays one, an even one after the first time.
  lemma {:induction false} DoubledWhole(m: int, s: nat) returns (n: int)
    ensures Doubled(m as real, s) == n as real
    ensures if s == 0 then n == m else n % 2 == 0
  {
    n := m;
    if s > 0 {
      var half := DoubledWhole(m, s - 1);
      n := 2 * half;
      Twice(half);
    }
  }

  lemma {:induction false} DoubledHalved(x: real, s: nat)
    ensures Doubled(Halved(x, s), s) == x
  {
    if s > 0 {
      DoubledHalved(x, s - 1);
      DoubledSum(Halved(x, s), 1, s - 1);
      assert Doubled(Halved(x, s), 1) == Halved(x, s - 1);
    }
  }

  lemma {:induction false} DoubledGrows(x: real, s: nat)
    requires x >= 0.0 && s >= 1
    ensures Doubled(x, s) >= 2.0 * x
  {
    if s > 1 {
      DoubledGrows(x, s - 1);
    }
  }

  lemma {:induction false} DoubledNegative(x: real, s: nat)
    ensures Doubled(-x, s) == -Doubled(x, s)
  {
    if s > 0 {
      DoubledNegative(x, s - 1);
    }
  }

  // ---- What rounding keeps ----

  lemma FloatStays(round: real -> real, d: real)
    requires IsRounding(round) && IsFloat(d)
    ensures round(d) == d
  {
    assert IsNearest(d, round(d));
  }

  lemma IntIsFloat(n: int)
    requires -TWO_53 <= n <= TWO_53
    ensures IsFloat(n as real)
  {
    assert Scaled(n as real, n, 0);
  }

  lemma RoundMonotone(round: real -> real, x: real, y: real)
    requires IsRounding(round) && x <= y
    ensures round(x) <= round(y)
  {
    assert IsNearest(x, round(x)) && IsNearest(y, round(y));
  }

  // A number of n whole units of the s-th place.
  lemma UnitsOf(n: int, s: nat) returns (d: real)
    requires -TWO_53 <= n <= TWO_53 && s <= 1074
    ensures Doubled(d, s) == n as real && IsFloat(d)
  {
    d := Halved(n as real, s);
    DoubledHalved(n as real, s);
    var e := 0 - s;
    assert Scaled(d, n, e);
  }

  // Nearest, measured in units of the s-th place.
  lemma NoneNearer(round: real -> real, x: real, d: real, s: nat)
    requires IsRounding(round) && IsFloat(d)
    ensures var y := Distance(Doubled(round(x), s), Doubled(x, s));
            y <= Distance(Doubled(d, s), Doubled(x, s))
            && (y == Distance(Doubled(d, s), Doubled(x, s)) && d != round(x) ==> IsEven(round(x)))
  {
    assert IsNearest(x, round(x));
    DoubledDistance(round(x), x, s);
    DoubledDistance(d, x, s);
    DoubledOrder(Distance(round(x), x), Distance(d, x), s);
  }

  lemma NearestWhole(y: real, bound: int) returns (n: int)
    requires -bound as real <= y <= bound as real
    ensures 2.0 * Distance(n as real, y) <= 1.0 && -bound <= n <= bound
  {
    n := if 2.0 * (y - y.Floor as real) <= 1.0 then y.Floor else y.Floor + 1;
  }

  // Rounding is off by at most half a unit of any place at which the number has at most 53 digits.
  lemma HalfUnit(round: real -> real, x: real, s: nat)
    requires IsRounding(round) && s <= 1074
    requires -TWO_53 as real <= Doubled(x, s) <= TWO_53 as real
    ensures 2.0 * Distance(Doubled(round(x), s), Doubled(x, s)) <= 1.0
  {
    var n := NearestWhole(Doubled(x, s), TWO_53);
    var d := UnitsOf(n, s);
    NoneNearer(round, x, d, s);
  }

  // ---- Neighbours ----

  // Above `half` units of the s-th place, a number of at most one digit more is a whole number of units.
  lemma WholeUnits(x: real, s: nat, m: int, e: int, half: nat) returns (units: int)
    requires Scaled(x, m, e) && -2 * half <= m <= 2 * half
    requires Doubled(x, s) > half as real
    ensures e + s >= 0 && Doubled(x, s) == units as real
    ensures if e + s == 0 then units == m else units % 2 == 0
  {
    if e >= 0 {
      units := DoubledWhole(m, e + s);
      DoubledSum(m as real, e, s);
    } else if -e <= s {
      units := DoubledWhole(m, s + e);
      DoubledSum(x, -e, s + e);
    } else {
      TooFine(x, s, m, -e, half);
    }
  }

  lemma TooFine(x: real, s: nat, m: int, t: nat, half: nat)
    requires s < t && Doubled(x, t) == m as real && m <= 2 * half
    ensures Doubled(x, s) <= half as real
  {
    DoubledSum(x, s, t - s);
    if Doubled(x, s) > half as real {
      DoubledGrows(Doubled(x, s), t - s);
    }
  }

  // An odd number of units of 53 digits is not even.
  lemma OddUnits(x: real, n: int, s: nat)
    requires TWO_52 < n <= TWO_53 && n % 2 == 1 && Doubled(x, s) == n as real
    ensures !IsEven(x)
  {
    if IsEven(x) {
      var m, e :| -TWO_52 <= m <= TWO_52 && -1073 <= e && Scaled(x, m, e);
      var units := WholeUnits(x, s, m, e, TWO_52);
    }
  }

  lemma RoundedUnits(round: real -> real, x: real, s: nat) returns (units: int)
    requires IsRounding(round) && Doubled(round(x), s) > TWO_52 as real
    ensures Doubled(round(x), s) == units as real
  {
    assert IsNearest(x, round(x));
    var m, e :| -TWO_53 <= m <= TWO_53 && -1074 <= e && Scaled(round(x), m, e);
    units := WholeUnits(round(x), s, m, e, TWO_52);
  }

  // What is nearer to n units than half a unit is rounded to n.
  lemma RoundsTo(round: real -> real, x: real, n: int, s: nat)
    requires IsRounding(round) && TWO_52 < n <= TWO_53 && s <= 1074
    requires 2.0 * Distance(Doubled(x, s), n as real) < 1.0
    ensures Doubled(round(x), s) == n as real
  {
    var d := UnitsOf(n, s);
    NoneNearer(round, x, d, s);
    NearWhole(Doubled(round(x), s), Doubled(x, s), n);
    var units := RoundedUnits(round, x, s);
    SameWhole(units, n);
  }

  lemma NearWhole(y: real, x: real, n: int)
    requires Distance(y, x) <= Distance(n as real, x) && 2.0 * Distance(x, n as real) < 1.0 && n > TWO_52
    ensures (n - 1) as real < y < (n + 1) as real && y > TWO_52 as real
  {
  }

  lemma SameWhole(a: int, n: int)
    requires (n - 1) as real < a as real < (n + 1) as real
    ensures a == n
  {
  }

  lemma BoundedByUnits(round: real -> real, x: real, d: real, s: nat)
    requires IsRounding(round) && IsFloat(d)
    ensures Doubled(x, s) <= Doubled(d, s) ==> Doubled(round(x), s) <= Doubled(d, s)
    ensures Doubled(d, s) <= Doubled(x, s) ==> Doubled(d, s) <= Doubled(round(x), s)
  {
    FloatStays(round, d);
    DoubledOrder(d, x, s);
    DoubledOrder(round(x), d, s);
    if x <= d {
      RoundMonotone(round, x, d);
    }
    if d <= x {
      RoundMonotone(round, d, x);
    }
  }

  // A number is rounded to n units or more exactly from the middle between n and its lower neighbour on.
  lemma RoundReaches(round: real -> real, x: real, n: int, s: nat)
    requires IsRounding(round) && TWO_52 < n <= TWO_53 && n % 2 == 0 && s <= 1074
    ensures Doubled(round(x), s) >= n as real <==> 2.0 * Doubled(x, s) >= (2 * n - 1) as real
  {
    var at := UnitsOf(n, s);
    var below := UnitsOf(n - 1, s);
    OddUnits(below, n - 1, s);
    NoneNearer(round, x, at, s);
    NoneNearer(round, x, below, s);
    NoneBetween(round, x, n, s);
    DoubledOrder(round(x), below, s);
    DoubledOrder(at, below, s);
    AtOrBelow(Doubled(round(x), s), Doubled(x, s), n);
  }

  // Nothing of the format lies between n and n - 1 units.
  lemma NoneBetween(round: real -> real, x: real, n: int, s: nat)
    requires IsRounding(round) && TWO_52 < n <= TWO_53 && n % 2 == 0 && s <= 1074
    ensures var y := Doubled(round(x), s); y <= (n - 1) as real || y >= n as real
  {
    if Doubled(round(x), s) > (n - 1) as real {
      Above(Doubled(round(x), s), n - 1, TWO_52);
      var units := RoundedUnits(round, x, s);
      NextWhole(units, n);
    }
  }

  lemma Above(y: real, a: int, b: int)
    requires y > a as real && a >= b
    ensures y > b as real
  {
  }

  lemma NextWhole(units: int, n: int)
    requires units as real > (n - 1) as real
    ensures units >= n && units as real >= n as real
  {
    var gap := units - (n - 1);
    assert gap as real == units as real - (n - 1) as real;
    assert gap > 0;
  }

  // y is at least as near to x as n and n - 1, and not n - 1 if it is as far from x as n.
  lemma AtOrBelow(y: real, x: real, n: int)
    requires y <= (n - 1) as real || y >= n as real
    requires Distance(y, x) <= Distance(n as real, x) && Distance(y, x) <= Distance((n - 1) as real, x)
    requires Distance(y, x) == Distance(n as real, x) ==> y != (n - 1) as real
    ensures y >= n as real <==> 2.0 * x >= (2 * n - 1) as real
  {
  }

  // ---- The other way round zero ----

  function Mirror(round: real -> real): real -> real {
    x => -round(-x)
  }

  lemma ScaledNegated(x: real, m: int, e: int)
    requires Scaled(x, m, e)
    ensures Scaled(-x, -m, e)
  {
    if e >= 0 {
      DoubledNegative(m as real, e);
      assert (-m) as real == -(m as real);
    } else {
      DoubledNegative(x, -e);
    }
  }

  lemma FloatNegated(x: real)
    requires IsFloat(x)
    ensures IsFloat(-x)
  {
    var m, e :| -TWO_53 <= m <= TWO_53 && -1074 <= e && Scaled(x, m, e);
    ScaledNegated(x, m, e);
  }

  lemma EvenNegated(x: real)
    requires IsEven(x)
    ensures IsEven(-x)
  {
    var m, e :| -TWO_52 <= m <= TWO_52 && -1073 <= e && Scaled(x, m, e);
    ScaledNegated(x, m, e);
  }

  lemma NearestNegated(x: real, y: real)
    requires IsNearest(x, y)
    ensures IsNearest(-x, -y)
  {
    FloatNegated(y);
    forall d | IsFloat(d)
      ensures Distance(-y, -x) <= Distance(d, -x)
      ensures Distance(-y, -x) == Distance(d, -x) && d != -y ==> IsEven(-y)
    {
      FloatNegated(d);
      assert Distance(y, x) <= Distance(-d, x);
      if IsEven(y) {
        EvenNegated(y);
      }
    }
  }

  lemma Mirrored(round: real -> real)
    requires IsRounding(round)
    ensures IsRounding(Mirror(round))
  {
    forall x ensures IsNearest(x, Mirror(round)(x)) {
      assert IsNearest(-x, round(-x));
      NearestNegated(-x, round(-x));
    }
  }

  // ---- Places ----

  // At the s-th place n has 53 binary digits, the last of them zero.
  predicate IsPlace(n: nat, s: nat, units: int) {
    s <= 60 && Doubled(n as real, s) == units as real && TWO_52 < units <= TWO_53 && units % 2 == 0
  }

  // Every number from 1 to 2^52 has such a place.
  lemma PlaceOf(n: nat) returns (s: nat, units: int)
    requires 1 <= n <= TWO_52
    ensures IsPlace(n, s, units)
  {
    assert Doubled(n as real, 1) == (2 * n) as real;
    s, units := PlaceFrom(n, 1, 2 * n);
  }

  lemma {:induction false} PlaceFrom(n: nat, from: nat, now: nat) returns (s: nat, units: int)
    requires n >= 1 && Doubled(n as real, from) == now as real && now % 2 == 0 && from < now <= TWO_53
    ensures IsPlace(n, s, units)
    decreases TWO_53 - now
  {
    if now > TWO_52 {
      s, units := from, now;
      FewPlacesOf(n, from, now);
    } else {
      Twice(now);
      s, units := PlaceFrom(n, from + 1, 2 * now);
    }
  }

  lemma FewPlacesOf(n: nat, s: nat, units: nat)
    requires n >= 1 && Doubled(n as real, s) == units as real && units <= TWO_53
    ensures s <= 60
  {
    FewPlaces(n as real, s);
  }

  lemma FewPlaces(x: real, s: nat)
    requires x >= 1.0 && Doubled(x, s) <= TWO_53 as real
    ensures s <= 60
  {
    if s > 60 {
      Tens(x);
      DoubledSum(x, 50, 10);
      DoubledOfTen(Doubled(x, 50));
      DoubledSum(x, 60, s - 60);
      DoubledGrows(Doubled(x, 60), s - 60);
    }
  }

  lemma DoubledOfTen(x: real)
    ensures Doubled(x, 10) == 1024.0 * x
  {
    OneMore(x, 0);
    OneMore(x, 1);
    OneMore(x, 2);
    OneMore(x, 3);
    OneMore(x, 4);
    DoubledSum(x, 5, 5);
    var y := Doubled(x, 5);
    OneMore(y, 0);
    OneMore(y, 1);
    OneMore(y, 2);
    OneMore(y, 3);
    OneMore(y, 4);
  }

  lemma OneMore(x: real, s: nat)
    ensures Doubled(x, s + 1) == 2.0 * Doubled(x, s)
  {
  }

  lemma Tens(x: real)
    ensures Doubled(x, 10) == 1024.0 * x
    ensures Doubled(x, 20) == 1_048_576.0 * x
    ensures Doubled(x, 30) == 1_073_741_824.0 * x
    ensures Doubled(x, 40) == 1_099_511_627_776.0 * x
    ensures Doubled(x, 50) == 1_125_899_906_842_624.0 * x
  {
    DoubledOfTen(x);
    DoubledSum(x, 10, 10);
    DoubledOfTen(Doubled(x, 10));
    DoubledSum(x, 20, 10);
    DoubledOfTen(Doubled(x, 20));
    DoubledSum(x, 30, 10);
    DoubledOfTen(Doubled(x, 30));
    DoubledSum(x, 40, 10);
    DoubledOfTen(Doubled(x, 40));
  }

  // A number is rounded to n or more exactly if it falls short by at most half a unit of the place of n.
  lemma ProductReaches(round: real -> real, n: nat, s: nat, units: int, x: real)
    requires IsRounding(round) && IsPlace(n, s, units)
    ensures round(x) >= n as real <==> Doubled(n as real - x, s + 1) <= 1.0
  {
    RoundReaches(round, x, units, s);
    DoubledOrder(round(x), n as real, s);
    DoubledDifference(n as real, x, s);
  }

  // Dividing a number by 40 and multiplying by 40 again does not fall below it.
  lemma FortiethsComeBack(round: real -> real, n: nat)
    requires IsRounding(round) && 1 <= n <= TWO_52
    ensures round(round(n as real / 40.0) * 40.0) >= n as real
  {
    var s, units := PlaceOf(n);
    var x := n as real / 40.0;
    var q := round(x);
    DoubledFifths(n, s, units, x);
    QuotientShort(round, x, s, units);
    DoubledDifference(x, q, s + 5);
    Doubled40(x - q, s);
    assert 40.0 * (x - q) == n as real - q * 40.0;
    ProductReaches(round, n, s, units, q * 40.0);
  }

  lemma DoubledFifths(n: nat, s: nat, units: int, x: real)
    requires Doubled(n as real, s) == units as real && 40.0 * x == n as real
    ensures 5.0 * Doubled(x, s + 5) == (4 * units) as real
  {
    Doubled40(x, s);
  }

  lemma {:induction false} Doubled40(x: real, s: nat)
    ensures 5.0 * Doubled(x, s + 5) == 4.0 * Doubled(40.0 * x, s)
    ensures Doubled(40.0 * x, s + 1) == 2.0 * Doubled(40.0 * x, s)
  {
    if s == 0 {
      OneMore(x, 0);
      OneMore(x, 1);
      OneMore(x, 2);
      OneMore(x, 3);
      OneMore(x, 4);
    } else {
      Doubled40(x, s - 1);
    }
  }

  // The quotient falls short by at most two fifths of a unit, where it is counted in fifths.
  lemma QuotientShort(round: real -> real, x: real, s: nat, units: int)
    requires IsRounding(round) && s <= 60 && TWO_52 < units <= TWO_53
    requires 5.0 * Doubled(x, s + 5) == (4 * units) as real
    ensures 5.0 * (Doubled(x, s + 5) - Doubled(round(x), s + 5)) <= 2.0
  {
    if 4 * units <= 5 * TWO_52 {
      assert Doubled(x, s + 6) == 2.0 * Doubled(x, s + 5);
      HalfUnit(round, x, s + 6);
      assert Doubled(round(x), s + 6) == 2.0 * Doubled(round(x), s + 5);
    } else {
      HalfUnit(round, x, s + 5);
      var least := UnitsOf(TWO_52, s + 5);
      BoundedByUnits(round, x, least, s + 5);
      var y := TWO_52;
      if Doubled(round(x), s + 5) > TWO_52 as real {
        y := RoundedUnits(round, x, s + 5);
      }
      Fifths(units, y, Doubled(x, s + 5));
    }
  }

  lemma Fifths(units: int, y: int, x: real)
    requires 5.0 * x == (4 * units) as real && 2.0 * (x - y as real) <= 1.0
    ensures 5.0 * (x - y as real) <= 2.0
  {
    var fifths := 4 * units - 5 * y;
    assert 5.0 * (x - y as real) == fifths as real;
  }

  // ---- The three operations keep the order ----

  lemma FromIntMonotone(f: Arithmetic, m: int, n: int)
    requires f.Valid() && m <= n
    ensures f.FromInt(m) <= f.FromInt(n)
  {
    RoundMonotone(f.round, m as real, n as real);
  }

  lemma OverMonotone(f: Arithmetic, x: real, y: real, d: real)
    requires f.Valid() && x <= y && d > 0.0
    ensures f.Over(x, d) <= f.Over(y, d)
  {
    DivideMonotone(x, y, d);
    RoundMonotone(f.round, x / d, y / d);
  }

  lemma DivideMonotone(x: real, y: real, d: real)
    requires x <= y && d > 0.0
    ensures x / d <= y / d
  {
  }

  lemma TimesMonotone(f: Arithmetic, x: real, y: real, w: real)
    requires f.Valid() && x <= y && w > 0.0
    ensures f.Times(x, w) <= f.Times(y, w)
  {
    ProductMonotone(x, y, w);
    RoundMonotone(f.round, x * w, y * w);
  }

  lemma ProductMonotone(x: real, y: real, w: real)
    requires x <= y && w > 0.0
    ensures x * w <= y * w
  {
  }

  lemma FromIntExact(f: Arithmetic, n: int)
    requires f.Valid() && -TWO_53 <= n <= TWO_53
    ensures f.FromInt(n) == n as real
  {
    IntIsFloat(n);
    FloatStays(f.round, n as real);
  }

  lemma TruncateMonotone(x: real, y: real)
    requires x <= y
    ensures Truncate(x) <= Truncate(y)
  {
  }

  // ---- Such an arithmetic exists ----

  lemma NoFloatBetween(d: real, s: nat, n: nat)
    requires IsFloat(d) && s <= 1074 && (n >= TWO_52 || s == 1074)
    ensures Doubled(d, s) <= n as real || Doubled(d, s) >= (n + 1) as real
  {
    var m, e :| -TWO_53 <= m <= TWO_53 && -1074 <= e && Scaled(d, m, e);
    if Doubled(d, s) > n as real {
      var units := 0;
      if n >= TWO_52 {
        units := WholeUnits(d, s, m, e, TWO_52);
      } else if e >= 0 {
        units := DoubledWhole(m, e + s);
        DoubledSum(m as real, e, s);
      } else {
        units := DoubledWhole(m, s + e);
        DoubledSum(d, -e, s + e);
      }
      NextWhole(units, n + 1);
    }
  }

  lemma EvenUnits(d: real, n: nat, s: nat)
    requires Doubled(d, s) == n as real && n % 2 == 0 && n <= TWO_53 && s <= 1074
    ensures IsEven(d)
  {
    var half, e := n / 2, 1 - s;
    assert (2 * half) as real == 2.0 * half as real;
    if s <= 1 {
      assert s == 0 ==> Doubled(half as real, 1) == 2.0 * half as real;
    }
    assert Scaled(d, half, e);
  }

  // Nearest in units of a place is nearest.
  lemma NearestInUnits(x: real, y: real, d: real, s: nat)
    ensures var a, b := Distance(Doubled(y, s), Doubled(x, s)), Distance(Doubled(d, s), Doubled(x, s));
            (a <= b <==> Distance(y, x) <= Distance(d, x)) && (a == b <==> Distance(y, x) == Distance(d, x))
  {
    DoubledDistance(y, x, s);
    DoubledDistance(d, x, s);
    DoubledOrder(Distance(y, x), Distance(d, x), s);
  }

  lemma NearestAtPlace(x: real, s: nat) returns (y: real)
    requires s <= 1074 && 0.0 <= Doubled(x, s) < TWO_53 as real && (Doubled(x, s) >= TWO_52 as real || s == 1074)
    ensures IsNearest(x, y)
  {
    var z := Doubled(x, s);
    var n := z.Floor;
    var up := 2.0 * (z - n as real) > 1.0 || (2.0 * (z - n as real) == 1.0 && n % 2 == 1);
    var units := if up then n + 1 else n;
    y := UnitsOf(units, s);
    if units % 2 == 0 {
      EvenUnits(y, units, s);
    }
    forall d | IsFloat(d)
      ensures Distance(y, x) <= Distance(d, x) && (Distance(y, x) == Distance(d, x) && d != y ==> IsEven(y))
    {
      NoFloatBetween(d, s, n);
      NearestInUnits(x, y, d, s);
      DoubledOrder(d, y, s);
      NearerOf(z, n, units, Doubled(d, s));
    }
  }

  lemma NearerOf(z: real, n: nat, units: nat, d: real)
    requires n as real <= z < (n + 1) as real && (d <= n as real || d >= (n + 1) as real)
    requires units == if 2.0 * (z - n as real) > 1.0 || (2.0 * (z - n as real) == 1.0 && n % 2 == 1) then n + 1 else n
    ensures Distance(units as real, z) <= Distance(d, z)
    ensures Distance(units as real, z) == Distance(d, z) && d != units as real ==> units % 2 == 0
  {
  }

  lemma {:induction false} NearestBelow(x: real, s: nat) returns (y: real)
    requires s <= 1074 && 0.0 <= Doubled(x, s) < TWO_53 as real
    ensures IsNearest(x, y)
    decreases 1074 - s
  {
    if Doubled(x, s) >= TWO_52 as real || s == 1074 {
      y := NearestAtPlace(x, s);
    } else {
      y := NearestBelow(x, s + 1);
    }
  }

  // A number of the format, halved, is one again, or very small.
  lemma HalvedFloat(d: real, h: real)
    requires IsFloat(d) && d == 2.0 * h && !IsFloat(h)
    ensures -1.0 < h < 1.0
  {
    var m, e :| -TWO_53 <= m <= TWO_53 && -1074 <= e && Scaled(d, m, e);
    if e >= 1 {
      assert Scaled(h, m, e - 1);
    } else {
      HalvedScaled(h, d, m, -e);
      assert Scaled(h, m, e - 1);
      if h >= 1.0 {
        FewPlaces(h, 1 - e);
      } else if h <= -1.0 {
        DoubledNegative(h, 1 - e);
        FewPlaces(-h, 1 - e);
      }
    }
  }

  lemma HalvedScaled(h: real, d: real, m: int, t: nat)
    requires Doubled(d, t) == m as real && d == 2.0 * h
    ensures Doubled(h, t + 1) == m as real
  {
    DoubledSum(h, 1, t);
    assert Doubled(h, 1) == d;
  }

  lemma TwiceFloat(h: real)
    ensures IsFloat(h) ==> IsFloat(2.0 * h)
    ensures IsEven(h) ==> IsEven(2.0 * h)
  {
    if IsFloat(h) {
      var m, e :| -TWO_53 <= m <= TWO_53 && -1074 <= e && Scaled(h, m, e);
      TwiceScaled(h, m, e);
    }
    if IsEven(h) {
      var m, e :| -TWO_52 <= m <= TWO_52 && -1073 <= e && Scaled(h, m, e);
      TwiceScaled(h, m, e);
    }
  }

  lemma TwiceScaled(h: real, m: int, e: int)
    requires Scaled(h, m, e)
    ensures Scaled(2.0 * h, m, e + 1)
  {
    if e < 0 {
      DoubledSum(h, 1, -e - 1);
      assert Doubled(h, 1) == 2.0 * h;
    }
  }

  // What is nearest to a large number is so when both are doubled.
  lemma NearestTwice(x: real, y: real)
    requires x >= TWO_52 as real && IsNearest(x, y)
    ensures IsNearest(2.0 * x, 2.0 * y)
  {
    TwiceFloat(y);
    IntIsFloat(TWO_52);
    forall d | IsFloat(d)
      ensures Distance(2.0 * y, 2.0 * x) <= Distance(d, 2.0 * x)
      ensures Distance(2.0 * y, 2.0 * x) == Distance(d, 2.0 * x) && d != 2.0 * y ==> IsEven(2.0 * y)
    {
      var h := d / 2.0;
      if !IsFloat(h) {
        HalvedFloat(d, h);
        assert Distance(y, x) <= Distance(TWO_52 as real, x);
      }
    }
  }

  lemma {:induction false} NearestAbove(x: real, size: nat) returns (y: real)
    requires 0.0 <= x <= size as real
    ensures IsNearest(x, y)
    decreases size
  {
    if x < TWO_53 as real {
      y := NearestBelow(x, 0);
    } else {
      var h := NearestAbove(x / 2.0, size - 1);
      NearestTwice(x / 2.0, h);
      y := 2.0 * h;
    }
  }

  lemma NearestExists(x: real)
    ensures exists y :: IsNearest(x, y)
  {
    if x >= 0.0 {
      var y := NearestAbove(x, x.Floor + 1);
    } else {
      var y := NearestAbove(-x, (-x).Floor + 1);
      NearestNegated(-x, y);
    }
  }

  ghost function Nearest(x: real): (y: real)
    ensures IsNearest(x, y)
  {
    NearestExists(x);
    var y :| IsNearest(x, y);
    y
  }

  lemma ArithmeticExists()
    ensures exists f: Arithmetic :: f.Valid()
  {
    var f := Arithmetic(x => Nearest(x), x => if InInt64(Truncate(x)) then Truncate(x) else 0);
    assert f.Valid();
  }
}
