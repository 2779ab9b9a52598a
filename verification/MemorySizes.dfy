// Memory sizes like "512Mi", in 64-bit integers.
module MemorySizes {
  import opened Binary64
  import opened Numbers
  import opened Wrappers

  const INT64 := 0x1_0000_0000_0000_0000
  const MI := 1_048_576
  const GI := 1_073_741_824

  // The value a 64-bit integer holds after an operation whose exact result is n.
  function Wrap(n: int): int {
    (n + INT64_MAX + 1) % INT64 - INT64_MAX - 1
  }

  lemma ModShift(a: int, m: int)
    ensures (a + m * INT64) % INT64 == a % INT64
  {
    var q := a / INT64;
    assert a == q * INT64 + a % INT64;
    assert a + m * INT64 == (q + m) * INT64 + a % INT64;
    ModUnique(a + m * INT64, q + m, a % INT64);
  }

  lemma ModUnique(x: int, q: int, r: int)
    requires x == q * INT64 + r && 0 <= r < INT64
    ensures x % INT64 == r
  {
  }

  // Wrapping in between does not matter.
  lemma WrapTwice(x: int, k: int)
    ensures Wrap(Wrap(x) * k) == Wrap(x * k)
  {
    var y := x + INT64_MAX + 1;
    var q := y / INT64;
    assert Wrap(x) == x - q * INT64;
    assert Wrap(x) * k == x * k - (q * INT64) * k == x * k + (-q * k) * INT64;
    ModShift(x * k + INT64_MAX + 1, -q * k);
  }

  predicate IsDigit(c: char) {
    '0' <= c <= '9'
  }

  function DigitValue(c: char): nat
    requires IsDigit(c)
  {
    (c - '0') as nat
  }

  predicate AllDigits(s: string) {
    forall i | 0 <= i < |s| :: IsDigit(s[i])
  }

  function Number(s: string): nat
    requires AllDigits(s)
  {
    if |s| == 0 then 0 else 10 * Number(s[..|s| - 1]) + DigitValue(s[|s| - 1])
  }

  // n in decimal.
  function Decimal(n: nat): string {
    if n < 10 then [('0' as int + n) as char] else Decimal(n / 10) + [('0' as int + n % 10) as char]
  }

  datatype Fault = NoNumberOrUnit | TooBig | BadUnit

  datatype Parsed = Bytes(n: int) | Fault(fault: Fault)

  function DigitsEnd(s: string, i: nat): (end: nat)
    requires i <= |s| && AllDigits(s[..i])
    ensures i <= end <= |s| && AllDigits(s[..end])
    ensures end < |s| ==> !IsDigit(s[end])
    decreases |s| - i
  {
    if i < |s| && IsDigit(s[i]) then
      assert s[..i + 1] == s[..i] + [s[i]];
      DigitsEnd(s, i + 1)
    else i
  }

  // The outcome for a text split into its digits and the rest.
  function Meaning(digits: string, unit: string): Parsed
    requires AllDigits(digits)
  {
    if |digits| == 0 || |unit| == 0 then Fault(NoNumberOrUnit)
    else if Number(digits) > INT64_MAX then Fault(TooBig)
    else if unit == "Mi" then Bytes(Wrap(Number(digits) * MI))
    else if unit == "Gi" then Bytes(Wrap(Number(digits) * GI))
    else Fault(BadUnit)
  }

  function ParseMemory(s: string): Parsed {
    var end := DigitsEnd(s, 0);
    Meaning(s[..end], s[end..])
  }

  // Reads a run of digits into a 64-bit integer; None when it does not fit.
  method ScanInt(digits: string) returns (num: Option<int>)
    requires AllDigits(digits)
    ensures num == if Number(digits) <= INT64_MAX then Some(Number(digits)) else None
  {
    var acc := 0;
    for i := 0 to |digits|
      invariant acc == Number(digits[..i])
    {
      assert digits[..i + 1][..i] == digits[..i];
      acc := 10 * acc + DigitValue(digits[i]);
    }
    assert digits[..|digits|] == digits;
    num := if acc <= INT64_MAX then Some(acc) else None;
  }

  method ParseMemoryBytes(s: string) returns (r: Parsed)
    ensures r == ParseMemory(s)
  {
    var digits := 0;
    while digits < |s| && '0' <= s[digits] <= '9'
      invariant 0 <= digits <= |s| && AllDigits(s[..digits])
      decreases |s| - digits
    {
      assert s[..digits + 1] == s[..digits] + [s[digits]];
      digits := digits + 1;
    }
    DigitsEndIs(s, 0, digits);
    if digits == 0 || digits == |s| {
      return Fault(NoNumberOrUnit);
    }
    var num := ScanInt(s[..digits]);
    if num.None? {
      return Fault(TooBig);
    }
    var unit := s[digits..];
    if unit == "Mi" {
      var bytes := TimesMi(num.value);
      return Bytes(bytes);
    }
    if unit == "Gi" {
      var bytes := TimesGi(num.value);
      return Bytes(bytes);
    }
    return Fault(BadUnit);
  }

  // Two 64-bit multiplications.
  method TimesMi(num: int) returns (bytes: int)
    ensures bytes == Wrap(num * MI)
  {
    WrapTwice(num * 1024, 1024);
    bytes := Wrap(Wrap(num * 1024) * 1024);
  }

  method TimesGi(num: int) returns (bytes: int)
    ensures bytes == Wrap(num * GI)
  {
    bytes := TimesMi(num);
    WrapTwice(num * MI, 1024);
    bytes := Wrap(bytes * 1024);
  }

  // ---- Print and read ----

  lemma {:induction false} DecimalReads(n: nat)
    ensures |Decimal(n)| > 0 && AllDigits(Decimal(n)) && Number(Decimal(n)) == n
  {
    var last := [('0' as int + n % 10) as char];
    if n < 10 {
      assert last == Decimal(n) && last[..0] == "";
      assert Number("") == 0;
    } else {
      DecimalReads(n / 10);
      var init := Decimal(n / 10);
      assert (init + last)[..|init|] == init && (init + last)[|init|] == last[0];
    }
  }

  lemma {:induction false} DigitsEndIs(s: string, i: nat, end: nat)
    requires i <= end <= |s| && AllDigits(s[..end]) && (end < |s| ==> !IsDigit(s[end]))
    ensures AllDigits(s[..i]) && DigitsEnd(s, i) == end
    decreases end - i
  {
    assert s[..i] == s[..end][..i];
    if i < end {
      assert s[i] == s[..end][i];
      DigitsEndIs(s, i + 1, end);
    }
  }

  lemma ParseSplit(digits: string, unit: string)
    requires AllDigits(digits) && (|unit| > 0 ==> !IsDigit(unit[0]))
    ensures ParseMemory(digits + unit) == Meaning(digits, unit)
  {
    var s := digits + unit;
    assert s[..|digits|] == digits && s[|digits|..] == unit;
    DigitsEndIs(s, 0, |digits|);
  }

  // What is wrong with a text that is refused, split into its digits and the rest.
  lemma FaultsSpelled(digits: string, unit: string)
    requires AllDigits(digits) && (|unit| > 0 ==> !('0' <= unit[0] <= '9'))
    ensures ParseMemory(digits + unit) == Fault(NoNumberOrUnit) <==> digits == "" || unit == ""
    ensures ParseMemory(digits + unit) == Fault(TooBig) <==>
              digits != "" && unit != "" && Number(digits) > 0x7fff_ffff_ffff_ffff
    ensures ParseMemory(digits + unit) == Fault(BadUnit) <==>
              digits != "" && unit !in {"", "Mi", "Gi"} && Number(digits) <= 0x7fff_ffff_ffff_ffff
  {
    ParseSplit(digits, unit);
  }

  function UnitOf(gi: bool): string {
    if gi then "Gi" else "Mi"
  }

  function BytesPer(gi: bool): nat {
    if gi then GI else MI
  }

  lemma WrapExact(n: nat)
    ensures Wrap(n) == n <==> n <= INT64_MAX
  {
  }

  // A printed size is read back exactly if and only if its bytes fit in 63 bits; a larger one is refused
  // only when the number alone does not fit, and otherwise read as some other size.
  lemma PrintedSizeRoundTrip(n: nat, gi: bool)
    ensures ParseMemory(Decimal(n) + UnitOf(gi)) == Bytes(n * BytesPer(gi)) <==> n * BytesPer(gi) <= INT64_MAX
    ensures ParseMemory(Decimal(n) + UnitOf(gi)).Fault? <==> n > INT64_MAX
  {
    DecimalReads(n);
    ParseSplit(Decimal(n), UnitOf(gi));
    if gi {
      WrapExact(n * GI);
    } else {
      WrapExact(n * MI);
    }
  }

  // One mebibyte is 1048576 bytes and one gibibyte 1073741824.
  lemma UnitsSpelled(n: nat)
    ensures n * 1_048_576 <= 0x7fff_ffff_ffff_ffff ==> ParseMemory(Decimal(n) + "Mi") == Bytes(n * 1_048_576)
    ensures n * 1_073_741_824 <= 0x7fff_ffff_ffff_ffff ==> ParseMemory(Decimal(n) + "Gi") == Bytes(n * 1_073_741_824)
  {
    PrintedSizeRoundTrip(n, false);
    PrintedSizeRoundTrip(n, true);
  }

  // 2^43 mebibytes are read as a negative number of bytes.
  lemma HugeSizeWraps()
    ensures ParseMemory(Decimal(8796093022208) + "Mi") == Bytes(-INT64_MAX - 1)
  {
    PrintedSizeRoundTrip(8796093022208, false);
    DecimalReads(8796093022208);
    ParseSplit(Decimal(8796093022208), UnitOf(false));
  }

  // Only a number directly followed by Mi or Gi is accepted.
  lemma OnlyTheseUnits(s: string)
    ensures ParseMemory(s).Bytes? ==>
              exists digits, gi ::
                && |digits| > 0 && AllDigits(digits)
                && s == digits + UnitOf(gi) && Number(digits) <= INT64_MAX
  {
    if ParseMemory(s).Bytes? {
      var end := DigitsEnd(s, 0);
      assert s == s[..end] + s[end..];
      assert s == s[..end] + UnitOf(s[end..] == "Gi");
    }
  }

  // ---- Exact sizes ----

  // What a size text means in bytes, without a 64-bit limit; None when it is not a size.
  function ExactBytes(s: string): Option<nat> {
    if s == "" then Some(0)
    else
      var end := DigitsEnd(s, 0);
      if end == 0 then None
      else if s[end..] == "Mi" then Some(Number(s[..end]) * MI)
      else if s[end..] == "Gi" then Some(Number(s[..end]) * GI)
      else None
  }

  // A limit that is not set is read as 0.
  function SizeOr0(s: string): Parsed {
    if s == "" then Bytes(0) else ParseMemory(s)
  }

  predicate Fits(s: string) {
    ExactBytes(s).Some? && ExactBytes(s).value <= INT64_MAX
  }

  // Whatever text is accepted is a size, and its exact bytes are stored up to a multiple of 2^64.
  lemma ReadsExactly(s: string)
    ensures SizeOr0(s).Bytes? ==>
              && ExactBytes(s).Some?
              && SizeOr0(s).n == Wrap(ExactBytes(s).value)
              && SizeOr0(s).n <= INT64_MAX
              && (SizeOr0(s).n == ExactBytes(s).value <==> Fits(s))
    ensures Fits(s) ==> SizeOr0(s).Bytes?
  {
    if ExactBytes(s).Some? {
      WrapExact(ExactBytes(s).value);
    }
  }

  lemma ExactPrinted(n: nat, gi: bool)
    ensures ExactBytes(Decimal(n) + UnitOf(gi)) == Some(n * BytesPer(gi))
  {
    var digits, unit := Decimal(n), UnitOf(gi);
    var s := digits + unit;
    DecimalReads(n);
    assert s[..|digits|] == digits && s[|digits|..] == unit;
    DigitsEndIs(s, 0, |digits|);
  }

  // ---- Resources ----

  datatype Resources = Resources(memory: string, cpu: real, swap: string, cpuSet: string)

  datatype Limits = Limits(memory: int, nanoCpus: int, swap: int, cpuSet: string)

  datatype LimitsResult = NoLimits | Set(limits: Limits) | BadSize(fault: Fault) | SwapBelowMemory

  // The product of the share and 10^9, as a 64-bit integer.
  function NanoCpus(f: Arithmetic, cpu: real): int {
    f.convert(f.Times(cpu, BILLION))
  }

  const BILLION := 1_000_000_000.0

  method ToServiceResources(f: Arithmetic, r: Option<Resources>) returns (out: LimitsResult)
    requires f.Valid()
    ensures out == if r.None? then NoLimits else Planned(f, r.value)
  {
    if r.None? {
      return NoLimits;
    }
    var res := r.value;
    var limits := Limits(0, 0, 0, "");
    if res.memory != "" {
      var m := ParseMemoryBytes(res.memory);
      if m.Fault? {
        return BadSize(m.fault);
      }
      limits := limits.(memory := m.n);
    }
    if res.cpu != 0.0 {
      limits := limits.(nanoCpus := NanoCpus(f, res.cpu));
    }
    NoShareIsZero(f);
    if res.swap != "" {
      var m := ParseMemoryBytes(res.swap);
      if m.Fault? {
        return BadSize(m.fault);
      }
      if m.n < limits.memory {
        return SwapBelowMemory;
      }
      limits := limits.(swap := m.n);
    }
    return Set(limits.(cpuSet := res.cpuSet));
  }

  lemma NoShareIsZero(f: Arithmetic)
    requires f.Valid()
    ensures NanoCpus(f, 0.0) == 0
  {
    IntIsFloat(0);
    FloatStays(f.round, 0.0);
  }

  function Planned(f: Arithmetic, r: Resources): LimitsResult {
    var m, w := SizeOr0(r.memory), SizeOr0(r.swap);
    if m.Fault? then BadSize(m.fault)
    else if w.Fault? then BadSize(w.fault)
    else if r.swap != "" && w.n < m.n then SwapBelowMemory
    else Set(Limits(m.n, NanoCpus(f, r.cpu), w.n, r.cpuSet))
  }

  // ---- CPU shares ----

  // A share between n and n + 1 billionths of a CPU arrives as one of the two.
  lemma CpuShareIsClose(f: Arithmetic, cpu: real, n: int)
    requires f.Valid() && -TWO_53 <= n < TWO_53
    requires n as real <= cpu * BILLION <= (n + 1) as real
    ensures NanoCpus(f, cpu) == n || NanoCpus(f, cpu) == n + 1
  {
    BetweenWholes(f, cpu * BILLION, n);
  }

  lemma BetweenWholes(f: Arithmetic, x: real, n: int)
    requires f.Valid() && -TWO_53 <= n < TWO_53
    requires n as real <= x <= (n + 1) as real
    ensures n as real <= f.round(x) <= (n + 1) as real
    ensures f.convert(f.round(x)) == n || f.convert(f.round(x)) == n + 1
  {
    IntIsFloat(n);
    IntIsFloat(n + 1);
    FloatStays(f.round, n as real);
    FloatStays(f.round, (n + 1) as real);
    RoundMonotone(f.round, n as real, x);
    RoundMonotone(f.round, x, (n + 1) as real);
    TruncateBetween(f.round(x), n);
  }

  lemma TruncateBetween(y: real, n: int)
    requires n as real <= y <= (n + 1) as real
    ensures Truncate(y) == n || Truncate(y) == n + 1
    ensures n >= 0 ==> (Truncate(y) == n + 1 <==> y == (n + 1) as real)
  {
  }

  // The share that n billionths are read as, times 10^9, is less than half a billionth off.
  lemma ShareOfBillionths(round: real -> real, n: nat)
    requires IsRounding(round) && n <= TWO_52
    ensures 2.0 * Distance(round(n as real / BILLION) * BILLION, n as real) < 1.0
  {
    var share := n as real / BILLION;
    Tens(share);
    Tens(round(share));
    HalfUnit(round, share, 30);
  }

  // Less than 4.5 million CPUs, written as n billionths and read as the nearest number of the format, arrive as n
  // if and only if the product falls short of n by at most half a unit of the place of n; and as n - 1 otherwise.
  lemma ShareArrivesIff(f: Arithmetic, n: nat, s: nat, units: int)
    requires f.Valid() && 1 <= n <= TWO_52 && IsPlace(n, s, units)
    ensures var share := f.round(n as real / BILLION);
            && (NanoCpus(f, share) == n <==> Doubled(n as real - share * BILLION, s + 1) <= 1.0)
            && (NanoCpus(f, share) != n ==> NanoCpus(f, share) == n - 1)
  {
    var x := f.round(n as real / BILLION) * BILLION;
    ShareOfBillionths(f.round, n);
    ProductReaches(f.round, n, s, units, x);
    if x < n as real {
      BetweenWholes(f, x, n - 1);
      TruncateBetween(f.round(x), n - 1);
    } else {
      HalfAboveStays(f, x, n);
    }
  }

  // What is less than half above n is not rounded up to n + 1.
  lemma HalfAboveStays(f: Arithmetic, x: real, n: nat)
    requires f.Valid() && n <= TWO_52 && n as real <= x && 2.0 * Distance(x, n as real) < 1.0
    ensures f.convert(f.round(x)) == n && f.round(x) >= n as real
  {
    BetweenWholes(f, x, n);
    IntIsFloat(n);
    assert IsNearest(x, f.round(x));
    TruncateBetween(f.round(x), n);
  }

  // The arithmetic on the other side of zero.
  function Opposite(f: Arithmetic): Arithmetic {
    Arithmetic(Mirror(f.round), x => if InInt64(Truncate(x)) then Truncate(x) else 0)
  }

  lemma OppositeValid(f: Arithmetic)
    requires f.Valid()
    ensures Opposite(f).Valid()
  {
    Mirrored(f.round);
  }

  // A negative product becomes the opposite of what the positive one becomes there.
  lemma NegativeProduct(f: Arithmetic, x: real, n: nat)
    requires f.Valid() && n <= TWO_52 && 2.0 * Distance(x, n as real) < 1.0
    ensures f.convert(f.round(-x)) == -Opposite(f).convert(Opposite(f).round(x))
  {
    OppositeValid(f);
    var below := WholeBelow(x, n);
    BetweenWholes(Opposite(f), x, below);
    ConvertOpposite(f, f.round(-x), below);
  }

  lemma WholeBelow(x: real, n: nat) returns (below: int)
    requires 2.0 * Distance(x, n as real) < 1.0
    ensures n - 1 <= below <= n && below as real <= x <= (below + 1) as real
  {
    below := if x < n as real then n - 1 else n;
  }

  lemma ConvertOpposite(f: Arithmetic, y: real, below: int)
    requires f.Valid() && -1 <= below <= TWO_52
    requires below as real <= -y <= (below + 1) as real
    ensures f.convert(y) == -Opposite(f).convert(-y)
  {
    TruncateBetween(-y, below);
    TruncateOpposite(y);
  }

  lemma TruncateOpposite(y: real)
    ensures Truncate(-y) == -Truncate(y)
  {
  }

  lemma NanoOpposite(f: Arithmetic, share: real, n: nat)
    requires f.Valid() && n <= TWO_52 && 2.0 * Distance(-share * BILLION, n as real) < 1.0
    ensures NanoCpus(f, share) == -NanoCpus(Opposite(f), -share)
  {
    var x := -share * BILLION;
    assert share * BILLION == -x by {
      NegativeTimes(share, BILLION);
    }
    assert NanoCpus(f, share) == f.convert(f.round(-x));
    assert NanoCpus(Opposite(f), -share) == Opposite(f).convert(Opposite(f).round(x));
    NegativeProduct(f, x, n);
  }

  // The same for a negative number of billionths.
  lemma NegativeShareArrivesIff(f: Arithmetic, n: nat, s: nat, units: int)
    requires f.Valid() && 1 <= n <= TWO_52 && IsPlace(n, s, units)
    ensures var share := f.round(-(n as real / BILLION));
            && (NanoCpus(f, share) == 0 - n <==> Doubled(n as real - -share * BILLION, s + 1) <= 1.0)
            && (NanoCpus(f, share) != 0 - n ==> NanoCpus(f, share) == 1 - n)
  {
    var share := f.round(-(n as real / BILLION));
    OppositeValid(f);
    assert Opposite(f).round(n as real / BILLION) == -share;
    ShareArrivesIff(Opposite(f), n, s, units);
    ShareOfBillionths(Opposite(f).round, n);
    NanoOpposite(f, share, n);
  }

  lemma NegativeTimes(x: real, y: real)
    ensures (-x) * y == -(x * y)
  {
  }

  // 4.1 CPUs arrive as 4.099999999.
  lemma CpuShareIsLost(f: Arithmetic)
    requires f.Valid()
    ensures NanoCpus(f, f.round(4.1)) == 4_099_999_999
  {
    var n, share := 4_100_000_000, f.round(4.1);
    assert n as real / BILLION == 4.1;
    Tens(4.1);
    Tens(share);
    RoundsTo(f.round, 4.1, 4_616_189_618_054_758, 50);
    DoubledBy21(n as real);
    DoubledBy21(n as real - share * BILLION);
    ShareArrivesIff(f, n, 21, 8_598_323_200_000_000);
  }

  lemma DoubledBy21(x: real)
    ensures Doubled(x, 21) == 2_097_152.0 * x && Doubled(x, 22) == 4_194_304.0 * x
  {
    Tens(x);
    assert Doubled(x, 21) == 2.0 * Doubled(x, 20);
  }

  // A limit is stored exactly if and only if it fits in 63 bits. Where both fit, the plan is refused exactly
  // when a swap limit is given that is below the memory limit.
  lemma LimitsAreExact(f: Arithmetic, r: Resources)
    ensures Planned(f, r).Set? ==>
              && ExactBytes(r.memory).Some? && ExactBytes(r.swap).Some?
              && (Planned(f, r).limits.memory == ExactBytes(r.memory).value <==> Fits(r.memory))
              && (Planned(f, r).limits.swap == ExactBytes(r.swap).value <==> Fits(r.swap))
    ensures Fits(r.memory) && Fits(r.swap) ==>
              && !Planned(f, r).BadSize?
              && (Planned(f, r).SwapBelowMemory? <==>
                    r.swap != "" && ExactBytes(r.swap).value < ExactBytes(r.memory).value)
  {
    ReadsExactly(r.memory);
    ReadsExactly(r.swap);
  }

  // Every swap limit that is accepted beside this memory limit is at least as large as it.
  ghost predicate SwapChecked(f: Arithmetic, memory: string) {
    forall swap, cpu, cpuSet |
      swap != "" && ExactBytes(memory).Some? && Planned(f, Resources(memory, cpu, swap, cpuSet)).Set? ::
      ExactBytes(swap).Some? && ExactBytes(swap).value >= ExactBytes(memory).value
  }

  // The swap check holds what it promises exactly for a memory limit that is refused, or that fits in 63 bits.
  lemma SwapCheckedIff(f: Arithmetic, memory: string)
    ensures SwapChecked(f, memory) <==> SizeOr0(memory).Fault? || Fits(memory)
  {
    ReadsExactly(memory);
    if SizeOr0(memory).Bytes? && !Fits(memory) {
      var swap := SwapThatPasses(f, memory);
      assert Planned(f, Resources(memory, 0.0, swap, "")).Set?;
    } else {
      forall swap, cpu, cpuSet |
        swap != "" && ExactBytes(memory).Some? && Planned(f, Resources(memory, cpu, swap, cpuSet)).Set?
        ensures ExactBytes(swap).Some? && ExactBytes(swap).value >= ExactBytes(memory).value
      {
        ReadsExactly(swap);
      }
    }
  }

  // Beside a memory limit that wraps, the size it wraps to is accepted, or 0 if that is negative.
  lemma SwapThatPasses(f: Arithmetic, memory: string) returns (swap: string)
    requires SizeOr0(memory).Bytes? && !Fits(memory)
    ensures swap != "" && Planned(f, Resources(memory, 0.0, swap, "")).Set?
    ensures ExactBytes(swap).Some? && ExactBytes(swap).value < ExactBytes(memory).value
  {
    ReadsExactly(memory);
    var units := UnitsOf(memory);
    var stored := WrapMultiple(units);
    var n := if stored < 0 then 0 else stored;
    swap := Decimal(n) + UnitOf(false);
    DecimalReads(n);
    ExactPrinted(n, false);
    ReadsExactly(swap);
  }

  // A size in whole mebibytes.
  lemma UnitsOf(s: string) returns (units: nat)
    requires ExactBytes(s).Some?
    ensures ExactBytes(s).value == units * MI
  {
    units := 0;
    if s != "" {
      var number := Number(s[..DigitsEnd(s, 0)]);
      units := if ExactBytes(s).value == number * MI then number else number * 1024;
    }
  }

  // A whole number of mebibytes wraps to one.
  lemma WrapMultiple(units: nat) returns (wrapped: int)
    ensures Wrap(units * MI) == wrapped * MI
  {
    var shifted := units + 0x800_0000_0000;
    var q, r := shifted / 0x1000_0000_0000, shifted % 0x1000_0000_0000;
    assert units * MI + INT64_MAX + 1 == shifted * MI;
    assert shifted * MI == q * INT64 + r * MI;
    ModUnique(shifted * MI, q, r * MI);
    wrapped := r - 0x800_0000_0000;
  }

  // 2^43 mebibytes of memory pass the check beside one mebibyte of swap.
  lemma WrappedMemoryPassesTheCheck(f: Arithmetic)
    ensures var memory, swap := Decimal(8796093022208) + "Mi", Decimal(1) + "Mi";
            && ExactBytes(memory) == Some(8796093022208 * MI) && ExactBytes(swap) == Some(MI)
            && Planned(f, Resources(memory, 0.0, swap, "")) == Set(Limits(-INT64_MAX - 1, NanoCpus(f, 0.0), MI, ""))
  {
    HugeSizeWraps();
    ExactPrinted(8796093022208, false);
    ExactPrinted(1, false);
    DecimalReads(8796093022208);
    DecimalReads(1);
    ReadsExactly(Decimal(1) + "Mi");
  }
}
