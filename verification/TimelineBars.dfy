// Drawing a deploy as a bar on the scale of a window.
module TimelineBars {
  import opened Binary64
  import opened Numbers
  import opened Wrappers

  const BAR_WIDTH := 40

  // The time from u to t in nanoseconds, held at the ends of a 64-bit integer.
  function Since(t: int, u: int): int {
    Max(INT64_MIN, Min(INT64_MAX, t - u))
  }

  // The place of time t in the window from since to until, in columns.
  function Place(f: Arithmetic, t: int, since: int, until: int): real
    requires f.Valid() && since < until
  {
    SpanPositive(f, Since(until, since));
    f.Times(f.Over(f.FromInt(Since(t, since)), f.FromInt(Since(until, since))), BAR_WIDTH as real)
  }

  lemma SpanPositive(f: Arithmetic, span: int)
    requires f.Valid() && span >= 1
    ensures f.FromInt(span) >= 1.0
  {
    FromIntExact(f, 1);
    FromIntMonotone(f, 1, span);
  }

  // The column of time t.
  function Column(f: Arithmetic, t: int, since: int, until: int): (c: int)
    requires f.Valid() && since < until
    ensures 0 <= c < BAR_WIDTH
  {
    Max(0, Min(BAR_WIDTH - 1, f.convert(Place(f, t, since, until))))
  }

  // The place of time t fits in a 64-bit integer.
  predicate Convertible(f: Arithmetic, t: int, since: int, until: int)
    requires f.Valid() && since < until
  {
    InInt64(Truncate(Place(f, t, since, until)))
  }

  lemma PlaceMonotone(f: Arithmetic, t: int, u: int, since: int, until: int)
    requires f.Valid() && since < until && t <= u
    ensures Place(f, t, since, until) <= Place(f, u, since, until)
  {
    var a, b, d := Since(t, since), Since(u, since), f.FromInt(Since(until, since));
    SpanPositive(f, Since(until, since));
    FromIntMonotone(f, a, b);
    OverMonotone(f, f.FromInt(a), f.FromInt(b), d);
    TimesMonotone(f, f.Over(f.FromInt(a), d), f.Over(f.FromInt(b), d), BAR_WIDTH as real);
  }

  // A later time is never drawn further left, as long as both places fit in a 64-bit integer.
  lemma ColumnMonotone(f: Arithmetic, t: int, u: int, since: int, until: int)
    requires f.Valid() && since < until && t <= u
    requires Convertible(f, t, since, until) && Convertible(f, u, since, until)
    ensures Column(f, t, since, until) <= Column(f, u, since, until)
  {
    PlaceMonotone(f, t, u, since, until);
    ConvertMonotone(f, Place(f, t, since, until), Place(f, u, since, until));
  }

  lemma ConvertMonotone(f: Arithmetic, x: real, y: real)
    requires f.Valid() && x <= y && InInt64(Truncate(x)) && InInt64(Truncate(y))
    ensures f.convert(x) <= f.convert(y)
  {
    TruncateMonotone(x, y);
  }

  // ---- Times outside the window ----

  lemma PlaceOfEnds(f: Arithmetic, since: int, until: int)
    requires f.Valid() && since < until
    ensures Place(f, since, since, until) == 0.0 && Place(f, until, since, until) == 40.0
  {
    FromIntExact(f, 0);
    FromIntExact(f, 1);
    FromIntExact(f, 40);
    DivideEnds(f.FromInt(Since(until, since)));
  }

  lemma DivideEnds(d: real)
    ensures d > 0.0 ==> 0.0 / d == 0.0 && d / d == 1.0
  {
  }

  // Column c is drawn at, whatever a conversion makes of numbers that do not fit.
  ghost predicate Certain(f: Arithmetic, t: int, since: int, until: int, c: int)
    requires f.Valid() && since < until
  {
    forall g: Arithmetic | g.Valid() && g.round == f.round :: Column(g, t, since, until) == c
  }

  // The column of a place that fits.
  lemma CertainIff(f: Arithmetic, t: int, since: int, until: int, c: int)
    requires f.Valid() && since < until
    requires c == Max(0, Min(BAR_WIDTH - 1, Truncate(Place(f, t, since, until))))
    ensures Certain(f, t, since, until, c) <==> Convertible(f, t, since, until)
  {
    if Convertible(f, t, since, until) {
      forall g: Arithmetic | g.Valid() && g.round == f.round ensures Column(g, t, since, until) == c {
        assert Place(g, t, since, until) == Place(f, t, since, until);
      }
    } else {
      NotCertain(f, t, since, until, c);
    }
  }

  // Times up to the start of the window are sure to be drawn in the first column, and times from its end on in
  // the last, exactly if their place fits in a 64-bit integer.
  lemma ColumnEnds(f: Arithmetic, t: int, since: int, until: int)
    requires f.Valid() && since < until
    ensures t <= since ==> (Certain(f, t, since, until, 0) <==> Convertible(f, t, since, until))
    ensures t >= until ==> (Certain(f, t, since, until, BAR_WIDTH - 1) <==> Convertible(f, t, since, until))
  {
    PlaceOfEnds(f, since, until);
    if t <= since {
      PlaceMonotone(f, t, since, since, until);
      TruncateMonotone(Place(f, t, since, until), 0.0);
      CertainIff(f, t, since, until, 0);
    }
    if t >= until {
      PlaceMonotone(f, until, t, since, until);
      TruncateMonotone(40.0, Place(f, t, since, until));
      CertainIff(f, t, since, until, BAR_WIDTH - 1);
    }
  }

  // A conversion that gives n for all that does not fit.
  function Otherwise(n: int): real -> int {
    x => if InInt64(Truncate(x)) then Truncate(x) else n
  }

  lemma NotCertain(f: Arithmetic, t: int, since: int, until: int, c: int)
    requires f.Valid() && since < until && !Convertible(f, t, since, until)
    ensures !Certain(f, t, since, until, c)
  {
    var n := if c == 0 then 1 else 0;
    var g := Arithmetic(f.round, Otherwise(n));
    assert IsConversion(Otherwise(n));
    assert Place(g, t, since, until) == Place(f, t, since, until);
    assert Column(g, t, since, until) == n;
  }

  // In a window of 64 nanoseconds or more every place fits.
  lemma WideWindowConverts(f: Arithmetic, t: int, since: int, until: int)
    requires f.Valid() && until - since >= 64
    ensures Convertible(f, t, since, until)
  {
    var a, d := f.FromInt(Since(t, since)), f.FromInt(Since(until, since));
    FromIntExact(f, 64);
    FromIntMonotone(f, 64, Since(until, since));
    Within(f, Since(t, since) as real, 0x20_0000_0000_0000);
    QuotientWithin(a, d);
    Within(f, a / d, 0x8000_0000_0000);
    Within(f, f.Over(a, d) * BAR_WIDTH as real, 0x14_0000_0000_0000);
    TruncateFits(Place(f, t, since, until));
  }

  lemma TruncateFits(x: real)
    requires -(0x5000_0000_0000_0000 as real) <= x <= 0x5000_0000_0000_0000 as real
    ensures InInt64(Truncate(x))
  {
  }

  lemma QuotientWithin(a: real, d: real)
    requires d >= 64.0 && -(0x8000_0000_0000_0000 as real) <= a <= 0x8000_0000_0000_0000 as real
    ensures -(0x200_0000_0000_0000 as real) <= a / d <= 0x200_0000_0000_0000 as real
  {
  }

  lemma Thousandfold(f: Arithmetic, m: int)
    requires f.Valid() && 0 <= m <= TWO_53
    ensures f.round((1024 * m) as real) == (1024 * m) as real && f.round(-((1024 * m) as real)) == -((1024 * m) as real)
  {
    var x := (1024 * m) as real;
    DoubledOfTen(m as real);
    assert Scaled(x, m, 10);
    assert IsFloat(x);
    FloatNegated(x);
    FloatStays(f.round, x);
    FloatStays(f.round, -x);
  }

  // Rounding does not lead out of a range with ends in the format.
  lemma Within(f: Arithmetic, x: real, m: int)
    requires f.Valid() && 0 <= m <= TWO_53 && -((1024 * m) as real) <= x <= (1024 * m) as real
    ensures -((1024 * m) as real) <= f.round(x) <= (1024 * m) as real
  {
    Thousandfold(f, m);
    RoundMonotone(f.round, x, (1024 * m) as real);
    RoundMonotone(f.round, -((1024 * m) as real), x);
  }

  // In a window of one nanosecond the place of a time 2^58 nanoseconds after its start does not fit.
  lemma NarrowWindowMayNot(f: Arithmetic, since: int)
    requires f.Valid()
    ensures !Convertible(f, since + 0x400_0000_0000_0000, since, since + 1)
  {
    var a := 0x400_0000_0000_0000 as real;
    FromIntExact(f, 1);
    Thousandfold(f, 0x1_0000_0000_0000);
    Thousandfold(f, TWO_53);
    RoundMonotone(f.round, (1024 * TWO_53) as real, a * BAR_WIDTH as real);
    assert f.Over(a, 1.0) == a;
    TooFarRight(Place(f, since + 0x400_0000_0000_0000, since, since + 1));
  }

  lemma TooFarRight(x: real)
    requires x >= (1024 * TWO_53) as real
    ensures !InInt64(Truncate(x))
  {
  }

  // ---- Times inside the window ----

  // The exact place of a time, a nanoseconds into a window of d.
  function Share(a: int, d: int): real
    requires d > 0
  {
    a as real / d as real * BAR_WIDTH as real
  }

  // The 2^-47th part of a column.
  const SLACK := 1.0 / 140_737_488_355_328.0

  lemma QuotientBelowOne(a: real, d: real)
    requires 0.0 <= a < d
    ensures 0.0 <= a / d < 1.0
  {
  }

  lemma DoubledBy47(x: real)
    ensures Doubled(x, 47) == 140_737_488_355_328.0 * x && Doubled(x, 53) == 9_007_199_254_740_992.0 * x
  {
    Tens(x);
    ThreeMore(x, 47);
    ThreeMore(x, 50);
  }

  lemma ThreeMore(x: real, s: nat)
    ensures Doubled(x, s + 3) == 8.0 * Doubled(x, s)
  {
    assert Doubled(x, s + 1) == 2.0 * Doubled(x, s);
    assert Doubled(x, s + 2) == 4.0 * Doubled(x, s);
  }

  // Half a unit of the 53rd place, and of the 47th.
  lemma ShareRounded(round: real -> real, x: real)
    requires IsRounding(round) && 0.0 <= x <= 1.0
    ensures Distance(round(x), x) <= SLACK / 128.0
  {
    DoubledBy47(x);
    DoubledBy47(round(x));
    HalfUnit(round, x, 53);
  }

  lemma PlaceRounded(round: real -> real, x: real)
    requires IsRounding(round) && 0.0 <= x <= 40.0
    ensures Distance(round(x), x) <= SLACK / 2.0
  {
    DoubledBy47(x);
    DoubledBy47(round(x));
    HalfUnit(round, x, 47);
  }

  lemma RoundedWithin(f: Arithmetic, x: real, bound: nat)
    requires f.Valid() && 0.0 <= x <= bound as real && bound <= 40
    ensures 0.0 <= f.round(x) <= bound as real
  {
    FromIntExact(f, 0);
    FromIntExact(f, bound);
    RoundMonotone(f.round, 0.0, x);
    RoundMonotone(f.round, x, bound as real);
  }

  // What the two roundings after the division may add up to.
  lemma TwoRoundings(f: Arithmetic, x: real)
    requires f.Valid() && 0.0 <= x < 1.0
    ensures var q := f.round(x);
            0.0 <= q <= 1.0 && 0.0 <= f.round(q * 40.0) && Distance(f.round(q * 40.0), x * 40.0) < SLACK
  {
    var q := f.round(x);
    RoundedWithin(f, x, 1);
    RoundedWithin(f, q * 40.0, 40);
    ShareRounded(f.round, x);
    PlaceRounded(f.round, q * 40.0);
  }

  lemma PlaceInside(f: Arithmetic, t: int, since: int, until: int, x: real)
    requires f.Valid() && since <= t < until && until - since <= TWO_53
    requires x == (t - since) as real / (until - since) as real
    ensures Place(f, t, since, until) == f.round(f.round(x) * 40.0)
  {
    FromIntExact(f, t - since);
    FromIntExact(f, until - since);
  }

  // What is k fortieths is not placed left of k.
  lemma FortiethPlace(round: real -> real, x: real, k: nat)
    requires IsRounding(round) && k < BAR_WIDTH && x == k as real / 40.0
    ensures k > 0 ==> round(round(x) * 40.0) >= k as real
  {
    if k > 0 {
      FortiethsComeBack(round, k);
    }
  }

  // p is near x of the bar, and not left of column k if x is where that begins.
  predicate WellPlaced(p: real, x: real, k: nat) {
    0.0 <= p && Distance(p, x * 40.0) < SLACK && (x == k as real / 40.0 ==> p >= k as real)
  }

  lemma RoundedIsWellPlaced(f: Arithmetic, x: real, k: nat)
    requires f.Valid() && 0.0 <= x < 1.0 && k < BAR_WIDTH
    ensures WellPlaced(f.round(f.round(x) * 40.0), x, k)
  {
    TwoRoundings(f, x);
    if x == k as real / 40.0 {
      FortiethPlace(f.round, x, k);
    }
  }

  // In windows up to 2^53 nanoseconds the place is off by less than SLACK, and not at all to the left of an edge.
  lemma PlaceIsClose(f: Arithmetic, t: int, since: int, until: int, x: real, k: nat)
    requires f.Valid() && since <= t < until && until - since <= TWO_53 && k < BAR_WIDTH
    requires x == (t - since) as real / (until - since) as real && 0.0 <= x < 1.0
    ensures WellPlaced(Place(f, t, since, until), x, k)
  {
    PlaceInside(f, t, since, until, x);
    RoundedIsWellPlaced(f, x, k);
  }

  lemma ShareWithin(a: int, d: int)
    requires 0 <= a < d
    ensures 0.0 <= Share(a, d) < 40.0
  {
    QuotientBelowOne(a as real, d as real);
  }

  // A place that is not negative is drawn in the column it lies in, or in the last.
  lemma ColumnOfPlace(f: Arithmetic, t: int, since: int, until: int, p: real)
    requires f.Valid() && since < until && p == Place(f, t, since, until) && 0.0 <= p < 41.0
    ensures Column(f, t, since, until) == Min(BAR_WIDTH - 1, p.Floor)
  {
  }

  // In windows up to 2^53 nanoseconds, 104 days, a time is drawn in the column it falls into, or in one it
  // misses by less than SLACK.
  lemma ColumnIsClose(f: Arithmetic, t: int, since: int, until: int)
    requires f.Valid() && since <= t < until && until - since <= TWO_53
    ensures var c, share := Column(f, t, since, until), Share(t - since, until - since);
            c as real - SLACK < share < (c + 1) as real + SLACK
  {
    var p := Place(f, t, since, until);
    QuotientBelowOne((t - since) as real, (until - since) as real);
    PlaceIsClose(f, t, since, until, (t - since) as real / (until - since) as real, 0);
    CloseColumn(t - since, until - since, p);
    ColumnOfPlace(f, t, since, until, p);
  }

  lemma CloseColumn(a: int, d: int, p: real)
    requires 0 <= a < d && WellPlaced(p, a as real / d as real, 0)
    ensures 0.0 <= p < 41.0
    ensures var c := Min(BAR_WIDTH - 1, p.Floor); c as real - SLACK < Share(a, d) < (c + 1) as real + SLACK
  {
    ShareWithin(a, d);
  }

  // In windows up to 30 days that is less than a nanosecond: the column is that of t, or one that begins or ends
  // less than a nanosecond from it.
  lemma ColumnWithinANanosecond(f: Arithmetic, t: int, since: int, until: int)
    requires f.Valid() && since <= t < until && until - since <= 30 * DAY
    ensures var c, a, d := Column(f, t, since, until), t - since, until - since;
            c * d < (a + 1) * BAR_WIDTH && (a - 1) * BAR_WIDTH < (c + 1) * d
  {
    ColumnIsClose(f, t, since, until);
    NextColumnsTouch(t - since, until - since, Column(f, t, since, until));
  }

  lemma NextColumnsTouch(a: int, d: int, c: int)
    requires 0 < d <= 30 * DAY && c as real - SLACK < Share(a, d) < (c + 1) as real + SLACK
    ensures c * d < (a + 1) * BAR_WIDTH && (a - 1) * BAR_WIDTH < (c + 1) * d
  {
    ShareTimes(a, d);
    EdgeTimes(c, d, Share(a, d), a * BAR_WIDTH);
    EdgeTimes(c + 1, d, Share(a, d), a * BAR_WIDTH);
    LessBy(c * d, a * BAR_WIDTH, d);
    LessBy(a * BAR_WIDTH, (c + 1) * d, d);
  }

  lemma LessBy(x: int, y: int, d: int)
    requires x as real < y as real + SLACK * d as real && d <= 30 * DAY
    ensures x < y + BAR_WIDTH
  {
  }

  // Comparing a share with the edge of column n, in nanoseconds times the width.
  lemma EdgeTimes(n: int, d: int, share: real, z: int)
    requires d > 0 && share * d as real == z as real
    ensures n as real - SLACK < share ==> (n * d) as real < z as real + SLACK * d as real
    ensures share < n as real + SLACK ==> z as real < (n * d) as real + SLACK * d as real
  {
    var w, x := d as real, n as real;
    Distribute(x, SLACK, w);
    assert x * w == (n * d) as real;
    if x - SLACK < share {
      ProductBelow(x - SLACK, share, w);
    }
    if share < x + SLACK {
      ProductBelow(share, x + SLACK, w);
    }
  }

  lemma Distribute(x: real, e: real, w: real)
    ensures (x - e) * w == x * w - e * w && (x + e) * w == x * w + e * w
  {
  }

  const DAY := 86_400_000_000_000

  lemma ProductBelow(x: real, y: real, d: real)
    requires x < y && d > 0.0
    ensures x * d < y * d
  {
  }

  lemma ShareTimes(a: int, d: int)
    requires d > 0
    ensures Share(a, d) * d as real == (a * BAR_WIDTH) as real
  {
    var q := a as real / d as real;
    assert q * d as real == a as real;
    Reorder(q, d as real);
  }

  lemma Reorder(q: real, w: real)
    ensures (q * 40.0) * w == (q * w) * 40.0
  {
  }

  // In windows up to 2^47 nanoseconds, 39 hours, a time is drawn in the column it falls into.
  lemma ColumnIsExact(f: Arithmetic, t: int, since: int, until: int)
    requires f.Valid() && since <= t < until && until - since <= 0x8000_0000_0000
    ensures FallsInto(t - since, until - since, Column(f, t, since, until))
  {
    var k := FullColumns(t - since, until - since);
    DrawnIn(f, t, since, until, k);
  }

  lemma DrawnIn(f: Arithmetic, t: int, since: int, until: int, k: nat)
    requires f.Valid() && since <= t < until && until - since <= 0x8000_0000_0000 && k < BAR_WIDTH
    requires FallsInto(t - since, until - since, k)
    ensures Column(f, t, since, until) == k
  {
    var p := Place(f, t, since, until);
    QuotientBelowOne((t - since) as real, (until - since) as real);
    PlaceIsClose(f, t, since, until, (t - since) as real / (until - since) as real, k);
    InColumn(t - since, until - since, k, p);
    ColumnOfPlace(f, t, since, until, p);
  }

  // A time a nanoseconds into a window of d lies in column k.
  predicate FallsInto(a: int, d: int, k: int) {
    k * d <= a * BAR_WIDTH < (k + 1) * d
  }

  lemma InColumn(a: int, d: int, k: nat, p: real)
    requires 0 <= a < d <= 0x8000_0000_0000 && k < BAR_WIDTH && FallsInto(a, d, k)
    requires WellPlaced(p, a as real / d as real, k)
    ensures k as real <= p < (k + 1) as real && p.Floor == k
  {
    BelowNext(a, d, k);
    if a * BAR_WIDTH == k * d {
      SameQuotient(a, d, k);
    } else {
      AboveEdge(a, d, k);
    }
  }

  lemma FullColumns(a: int, d: int) returns (k: int)
    requires 0 <= a < d
    ensures 0 <= k < BAR_WIDTH && FallsInto(a, d, k)
  {
    k := a * BAR_WIDTH / d;
    QuotientBounds(a * BAR_WIDTH, d);
    if k >= BAR_WIDTH {
      TimesAtLeastWidth(k, d);
    }
  }

  lemma QuotientBounds(x: int, d: int)
    requires 0 <= x && d > 0
    ensures 0 <= x / d && x / d * d <= x < (x / d + 1) * d
  {
  }

  lemma TimesAtLeastWidth(k: int, d: int)
    requires k >= BAR_WIDTH && d > 0
    ensures k * d >= BAR_WIDTH * d
  {
  }

  // A time before the next edge is so by a nanosecond.
  lemma BelowNext(a: int, d: int, k: int)
    requires 0 < d <= 0x8000_0000_0000 && a * BAR_WIDTH < (k + 1) * d
    ensures Share(a, d) <= (k + 1) as real - SLACK
  {
    ShareTimes(a, d);
    EdgeTimes(k + 1, d, Share(a, d), a * BAR_WIDTH);
    AtLeastOne(a * BAR_WIDTH, (k + 1) * d, d);
  }

  lemma AboveEdge(a: int, d: int, k: int)
    requires 0 < d <= 0x8000_0000_0000 && k * d < a * BAR_WIDTH
    ensures Share(a, d) >= k as real + SLACK
  {
    ShareTimes(a, d);
    EdgeTimes(k, d, Share(a, d), a * BAR_WIDTH);
    AtLeastOne(k * d, a * BAR_WIDTH, d);
  }

  lemma AtLeastOne(x: int, y: int, d: int)
    requires x < y && d <= 0x8000_0000_0000
    ensures x as real + SLACK * d as real <= y as real
  {
  }

  lemma SameQuotient(a: int, d: int, k: int)
    requires d > 0 && a * 40 == k * d
    ensures a as real / d as real == k as real / 40.0
  {
    var q := k as real / 40.0;
    assert (a * 40) as real == (k * d) as real;
    assert k as real * d as real == (k * d) as real;
    assert q * d as real == a as real;
  }

  method TimelineBar(f: Arithmetic, started: int, finished: Option<int>, since: int, until: int, glyph: char)
    returns (bar: array<char>)
    requires f.Valid() && glyph != ' '
    ensures fresh(bar) && bar.Length == BAR_WIDTH
    ensures until <= since ==> forall i | 0 <= i < BAR_WIDTH :: bar[i] == ' '
    ensures since < until ==>
              var end := if finished.Some? then finished.value else until;
              var from, to := Column(f, started, since, until), Column(f, end, since, until);
              forall i | 0 <= i < BAR_WIDTH :: bar[i] == if from <= i <= to then glyph else ' '
    ensures until - since >= 64 && started <= EndOf(finished, until) ==>
              exists i | 0 <= i < BAR_WIDTH :: bar[i] == glyph
    ensures bar.Length == 40 && (until - since >= 64 && finished.None? && started <= until ==> bar[39] == glyph)
  {
    if Since(until, since) <= 0 {
      bar := Paint(1, 0, glyph);
      return;
    }
    var end := EndOf(finished, until);
    var from := ColumnOf(f, started, since, until);
    var to := ColumnOf(f, end, since, until);
    bar := Paint(from, to, glyph);
    if until - since >= 64 && started <= end {
      WideWindowConverts(f, started, since, until);
      WideWindowConverts(f, end, since, until);
      ColumnMonotone(f, started, end, since, until);
      assert bar[from] == glyph;
      EndIsLast(f, since, until);
    }
  }

  // The end of the window is drawn in the last column.
  lemma EndIsLast(f: Arithmetic, since: int, until: int)
    requires f.Valid() && until - since >= 64
    ensures Column(f, until, since, until) == 39
  {
    WideWindowConverts(f, until, since, until);
    ColumnEnds(f, until, since, until);
    assert Certain(f, until, since, until, 39);
  }

  // A blank bar with a run of glyphs from one column to another, both included.
  method Paint(from: int, to: int, glyph: char) returns (bar: array<char>)
    requires 0 <= from && to < BAR_WIDTH
    ensures fresh(bar) && bar.Length == BAR_WIDTH
    ensures forall i | 0 <= i < BAR_WIDTH :: bar[i] == if from <= i <= to then glyph else ' '
  {
    bar := new char[BAR_WIDTH](_ => ' ');
    var i := from;
    while i <= to
      invariant from <= i <= Max(from, to + 1)
      invariant forall k | 0 <= k < BAR_WIDTH :: bar[k] == if from <= k < i then glyph else ' '
    {
      bar[i] := glyph;
      i := i + 1;
    }
  }

  method ColumnOf(f: Arithmetic, t: int, since: int, until: int) returns (p: int)
    requires f.Valid() && since < until
    ensures p == Column(f, t, since, until)
  {
    SpanPositive(f, Since(until, since));
    var share := f.Over(f.FromInt(Since(t, since)), f.FromInt(Since(until, since)));
    p := f.convert(f.Times(share, BAR_WIDTH as real));
    p := Max(0, Min(BAR_WIDTH - 1, p));
  }

  // An open deploy runs to the end of the window.
  function EndOf(finished: Option<int>, until: int): int {
    if finished.Some? then finished.value else until
  }
}
