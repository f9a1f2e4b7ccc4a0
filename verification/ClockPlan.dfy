/**
 * Frequency planning for the Si5351: divider, PLL ratio, fixed-width arithmetic, register packing, and the output it
 * yields.
 */
module ClockPlan {
  import opened Words

  const XTAL := 27_000_000
  const MAX_VCO := 900_000_000
  const DENOM := 1_048_575
  const R_DIV_2 := 0x10

  // Output A doubles while below 1 MHz, output B while not above it.
  const LIMIT_A := 1_000_000
  const LIMIT_B := 1_000_001

  datatype Plan = Plan(frequency: nat, doublings: nat, divider: nat, mult: nat, num: nat)

  // ---- the plan ----------------------------------------------------------------------------

  /** How often the request is doubled before it reaches the limit. */
  function Doublings(f: nat, limit: nat): nat
    requires f > 0
    decreases if f < limit then limit - f else 0
  {
    if f < limit then 1 + Doublings(2 * f, limit) else 0
  }

  function EvenDivider(frequency: nat): nat
    requires frequency > 0
  {
    var d := MAX_VCO / frequency;
    if d % 2 == 1 then d - 1 else d
  }

  function PlanFor(f: nat, limit: nat): Plan
    requires f > 0
  {
    var k := Doublings(f, limit);
    Grows(f, Pow2(k));
    var frequency := f * Pow2(k);
    var vco := EvenDivider(frequency) * frequency;
    Plan(frequency, k, EvenDivider(frequency), vco / XTAL, vco % XTAL * DENOM / XTAL)
  }

  lemma {:induction false} DoublingsReach(f: nat, limit: nat)
    requires f > 0
    ensures f * Pow2(Doublings(f, limit)) >= limit
    ensures f < limit ==> f * Pow2(Doublings(f, limit)) < 2 * limit
    ensures f >= limit ==> Doublings(f, limit) == 0
    decreases if f < limit then limit - f else 0
  {
    if f < limit {
      DoublingsReach(2 * f, limit);
      Regroup(f, Pow2(Doublings(2 * f, limit)));
    }
  }

  lemma {:induction false} Regroup(f: nat, p: nat)
    ensures f * (2 * p) == 2 * f * p
  {
  }

  /** The doubling count is at most n exactly when n doublings reach the limit. */
  lemma {:induction false} DoublingsAtMost(f: nat, limit: nat, n: nat)
    requires f > 0
    ensures Doublings(f, limit) <= n <==> f * Pow2(n) >= limit
    decreases n
  {
    if n > 0 {
      if f < limit {
        DoublingsAtMost(2 * f, limit, n - 1);
        Regroup(f, Pow2(n - 1));
      } else {
        Grows(f, Pow2(n));
      }
    }
  }

  /** No 32-bit request needs more than 20 doublings. */
  lemma {:induction false} DoublingsBound(f: nat, limit: nat)
    requires f > 0 && limit <= LIMIT_B
    ensures Doublings(f, limit) <= 20
  {
    assert Pow2(5) == 32;
    assert Pow2(10) == 1024;
    assert Pow2(15) == 32_768;
    assert Pow2(20) == 1_048_576;
    Scales(f, Pow2(20));
    DoublingsAtMost(f, limit, 20);
  }

  lemma {:induction false} Scales(f: nat, p: nat)
    requires f > 0
    ensures f * p >= p
  {
  }

  lemma {:induction false} Grows(f: nat, p: nat)
    requires p > 0
    ensures f * p >= f
  {
  }

  /** k doublings take f to the limit, and no fewer do. */
  predicate DoubledTo(f: nat, k: nat, limit: nat) {
    f * Pow2(k) >= limit && (k > 0 ==> f * Pow2(k - 1) < limit)
  }

  /**
   * The plan, in numbers and with no division: the request is doubled as often as it takes to reach 1 MHz, for output B
   * to exceed it; the divider is the largest even one that keeps the VCO at 900 MHz or less; and the PLL ratio is that
   * VCO over 27 MHz, its fraction cut to 1048575ths.
   */
  lemma {:induction false} PlanMeans(f: nat, limit: nat)
    requires f > 0 && (limit == LIMIT_A || limit == LIMIT_B)
    ensures LIMIT_A == 1_000_000 && LIMIT_B == 1_000_001
    ensures var p := PlanFor(f, limit); var vco := p.divider * p.frequency;
            && DoubledTo(f, p.doublings, limit) && p.frequency == f * Pow2(p.doublings)
            && p.divider % 2 == 0 && vco <= 900_000_000 < vco + 2 * p.frequency
            && 27_000_000 * p.mult <= vco < 27_000_000 * (p.mult + 1)
            && 27_000_000 * p.num <= (vco - 27_000_000 * p.mult) * 1_048_575 < 27_000_000 * (p.num + 1)
  {
    var p := PlanFor(f, limit);
    DoublingsAtMost(f, limit, p.doublings);
    if p.doublings > 0 {
      DoublingsAtMost(f, limit, p.doublings - 1);
    }
    DoublingsReach(f, limit);
    VcoBounds(p.frequency);
    NumBelow(p.divider * p.frequency % XTAL);
    EvenIs(p.frequency);
  }

  lemma {:induction false} EvenIs(frequency: nat)
    requires frequency > 0
    ensures EvenDivider(frequency) % 2 == 0
  {
  }

  predicate InRange(f: nat) {
    7813 <= f <= 150_000_000
  }

  /** What the chip accepts: an R divider of at most 128 and an even MultiSynth divider of 6 to 900. */
  predicate Accepted(p: Plan) {
    p.doublings <= 7 && 6 <= p.divider <= 900 && p.divider % 2 == 0
  }

  lemma {:induction false} QuotientBounds(n: nat, d: nat)
    requires d > 0
    ensures n / d * d <= n < n / d * d + d
  {
  }

  lemma {:induction false} QuotientAtLeast(n: nat, d: nat, q: nat)
    requires d > 0 && q * d <= n
    ensures q <= n / d
  {
    QuotientBounds(n, d);
    if n / d < q {
      Monotone(n / d + 1, q, d);
      assert false;
    }
  }

  lemma {:induction false} QuotientBelow(n: nat, d: nat, q: nat)
    requires d > 0 && n < q * d
    ensures n / d < q
  {
  }

  lemma {:induction false} Monotone(a: nat, b: nat, d: nat)
    requires a <= b
    ensures a * d <= b * d
  {
  }

  /**
   * The target VCO, divider times doubled request: at most 900 MHz, and above 675 MHz while the divider is at least 6.
   */
  lemma {:induction false} VcoBounds(frequency: nat)
    requires frequency > 0
    ensures EvenDivider(frequency) * frequency <= 900_000_000 < EvenDivider(frequency) * frequency + 2 * frequency
    ensures EvenDivider(frequency) >= 6 ==> 675_000_000 < EvenDivider(frequency) * frequency
  {
  }

  lemma {:induction false} DividerRange(frequency: nat)
    requires frequency >= 1_000_000
    ensures EvenDivider(frequency) <= 900 && EvenDivider(frequency) % 2 == 0
    ensures EvenDivider(frequency) >= 6 <==> frequency <= 150_000_000
  {
    Monotone(1_000_000, frequency, 901);
    QuotientBelow(MAX_VCO, frequency, 901);
    if frequency <= 150_000_000 {
      Monotone(frequency, 150_000_000, 6);
      QuotientAtLeast(MAX_VCO, frequency, 6);
    } else {
      Monotone(150_000_001, frequency, 6);
      QuotientBelow(MAX_VCO, frequency, 6);
    }
  }

  /** A plan is one the chip accepts exactly for requests from 7813 Hz to 150 MHz. */
  lemma {:induction false} AcceptedIff(f: nat, limit: nat)
    requires 0 < f && (limit == LIMIT_A || limit == LIMIT_B)
    ensures Accepted(PlanFor(f, limit)) <==> InRange(f)
  {
    DoublingsReach(f, limit);
    DoublingsAtMost(f, limit, 7);
    assert Pow2(7) == 128;
    DividerRange(f * Pow2(Doublings(f, limit)));
    if f >= limit {
      assert f * Pow2(0) == f;
    }
  }

  /** For those requests: the doubled frequency, the VCO and the multiplier stay inside the PLL's limits. */
  lemma {:induction false} PlanInRange(f: nat, limit: nat)
    requires InRange(f) && (limit == LIMIT_A || limit == LIMIT_B)
    ensures var p := PlanFor(f, limit);
            && Accepted(p)
            && 1_000_000 <= p.frequency <= 150_000_000
            && 675_000_000 < p.divider * p.frequency <= 900_000_000
            && 25 <= p.mult <= 33 && p.num < 1_048_575
  {
    AcceptedIff(f, limit);
    DoublingsReach(f, limit);
    var p := PlanFor(f, limit);
    if f >= limit {
      assert f * Pow2(0) == f;
    }
    VcoBounds(p.frequency);
    NumBelow(p.divider * p.frequency % XTAL);
  }

  lemma {:induction false} NumBelow(l: nat)
    requires l < XTAL
    ensures l * DENOM / XTAL < DENOM
    ensures l * DENOM / XTAL * XTAL <= l * DENOM < (l * DENOM / XTAL + 1) * XTAL
  {
  }

  // ---- register fields ---------------------------------------------------------------------

  /** The three synthesiser parameters and the R-divider bits that share their third byte. */
  datatype Fields = Fields(p1: nat, p2: nat, p3: nat, r: nat)

  /** `P1`, `P2`, `P3` of SetupPLL in 32-bit arithmetic. */
  function PllFields(mult: nat, num: nat, denom: nat): Fields
    requires denom > 0
  {
    Fields(Wrap(128 * mult + 128 * num / denom - 512), Wrap(128 * num - denom * (128 * num / denom)), denom, 0)
  }

  /** `P1`, `P2`, `P3` of SetupMultisynth: an integer divider, with the R bits truncated to a byte. */
  function SynthFields(divider: nat, doublings: nat): Fields {
    Fields(Wrap(128 * divider - 512), 0, 1, R_DIV_2 * doublings % 256)
  }

  /** The eight bytes; the fields that are or-ed together occupy different bits, so they add. */
  function Pack(x: Fields): (d: seq<Octet>)
    requires x.r < 256 && x.r % 16 == 0
    ensures |d| == 8
  {
    PackThird(x.p1, x.r);
    [x.p3 / 256 % 256,
     x.p3 % 256,
     x.p1 / 65536 % 4 + x.r,
     x.p1 / 256 % 256,
     x.p1 % 256,
     x.p3 / 65536 % 16 * 16 + x.p2 / 65536 % 16,
     x.p2 / 256 % 256,
     x.p2 % 256]
  }

  lemma {:induction false} PackThird(p1: nat, r: nat)
    requires r < 256 && r % 16 == 0
    ensures p1 / 65536 % 4 + r < 256
  {
  }

  /** What the chip reads back out of the eight bytes. */
  function Unpack(d: seq<Octet>): Fields
    requires |d| == 8
  {
    Fields(Number(d[2] % 4, d[3], d[4]), Number(d[5] % 16, d[6], d[7]), Number(d[5] / 16, d[0], d[1]), d[2] / 16 * 16)
  }

  function Number(high: nat, middle: nat, low: nat): nat {
    high * 65536 + middle * 256 + low
  }

  lemma {:induction false} Split(n: nat)
    ensures Number(n / 65536, n / 256 % 256, n % 256) == n
  {
    var a := n / 256;
    assert n == 65536 * (a / 256) + (256 * (a % 256) + n % 256);
    QuotientIs(n, 65536, a / 256, 256 * (a % 256) + n % 256);
  }

  lemma {:induction false} SharedThird(p: nat, r: nat)
    requires p < 4 && r % 16 == 0
    ensures (p + r) % 4 == p && (p + r) / 16 * 16 == r
  {
    MultipleOf16(p, r / 16);
  }

  lemma {:induction false} MultipleOf16(p: nat, q: nat)
    requires p < 4
    ensures (p + 16 * q) % 4 == p && (p + 16 * q) / 16 == q
  {
    QuotientIs(p + 16 * q, 4, 4 * q, p);
    QuotientIs(p + 16 * q, 16, q, p);
  }

  lemma {:induction false} SharedSixth(p3: nat, p2: nat)
    requires p2 < 16
    ensures (p3 * 16 + p2) % 16 == p2 && (p3 * 16 + p2) / 16 == p3
  {
  }

  predicate FieldWidths(x: Fields) {
    x.p1 < 0x4_0000 && x.p2 < 0x10_0000 && x.p3 < 0x10_0000 && x.r < 256 && x.r % 16 == 0
  }

  /** The bytes that carry a field alone, and the two that are shared. */
  lemma {:induction false} PackedBytes(x: Fields, d: seq<Octet>)
    requires FieldWidths(x) && d == Pack(x)
    ensures d[0] == x.p3 / 256 % 256 && d[1] == x.p3 % 256 && d[3] == x.p1 / 256 % 256 && d[4] == x.p1 % 256
    ensures d[6] == x.p2 / 256 % 256 && d[7] == x.p2 % 256
    ensures d[2] == x.p1 / 65536 + x.r && d[5] == x.p3 / 65536 * 16 + x.p2 / 65536 && x.p1 / 65536 < 4
            && x.p2 / 65536 < 16
  {
    HighPart(x.p1, 4);
    HighPart(x.p2, 16);
    HighPart(x.p3, 16);
  }

  lemma {:induction false} FieldsBack(x: Fields, d: seq<Octet>)
    requires FieldWidths(x) && d == Pack(x)
    ensures d[2] % 4 == x.p1 / 65536 && d[2] / 16 * 16 == x.r && d[5] % 16 == x.p2 / 65536 && d[5] / 16 == x.p3 / 65536
  {
    PackedBytes(x, d);
    SharedThird(x.p1 / 65536, x.r);
    SharedSixth(x.p3 / 65536, x.p2 / 65536);
  }

  /** Packing loses nothing of an 18-bit P1, 20-bit P2 and P3, and the R bits. */
  lemma {:induction false} PackRoundTrip(x: Fields)
    requires FieldWidths(x)
    ensures Unpack(Pack(x)) == x
  {
    PackedBytes(x, Pack(x));
    FieldsBack(x, Pack(x));
    Split(x.p1);
    Split(x.p2);
    Split(x.p3);
  }

  /** Which byte holds what, in numbers. */
  lemma {:induction false} PackedNumbers(x: Fields, d: seq<nat>)
    requires FieldWidths(x) && d == Pack(x)
    ensures |d| == 8
    ensures x.p1 == d[2] % 4 * 65536 + d[3] * 256 + d[4] && x.p2 == d[5] % 16 * 65536 + d[6] * 256 + d[7]
    ensures x.p3 == d[5] / 16 * 65536 + d[0] * 256 + d[1] && x.r == d[2] / 16 * 16
  {
    PackRoundTrip(x);
    var y := Unpack(Pack(x));
    assert y.p1 == d[2] % 4 * 65536 + d[3] * 256 + d[4];
    assert y.p2 == d[5] % 16 * 65536 + d[6] * 256 + d[7];
    assert y.p3 == d[5] / 16 * 65536 + d[0] * 256 + d[1];
    assert y.r == d[2] / 16 * 16;
  }

  lemma {:induction false} HighPart(n: nat, width: nat)
    requires n < 65536 * width
    ensures n / 65536 < width && n / 65536 % width == n / 65536
  {
  }

  /** The PLL fields stand for the ratio mult + num/denom exactly, and fit their registers. */
  lemma {:induction false} PllFieldsExact(mult: nat, num: nat)
    requires 4 <= mult <= 255 && num < DENOM
    ensures var x := PllFields(mult, num, DENOM);
            && (x.p1 + 512) * x.p3 + x.p2 == 128 * (mult * 1_048_575 + num)
            && x.p1 < 0x4_0000 && x.p2 < x.p3 == 1_048_575 < 0x10_0000 && x.r == 0
  {
  }

  lemma {:induction false} SynthFieldsExact(divider: nat, doublings: nat)
    requires 4 <= divider <= 2000 && doublings <= 7
    ensures var x := SynthFields(divider, doublings);
            x.p1 + 512 == 128 * divider && x.p1 < 0x4_0000 && x.r == 16 * doublings
  {
  }

  // ---- the output --------------------------------------------------------------------------

  /** The frequency the chip generates from the bytes in its PLL and MultiSynth registers. */
  function OutputNumerator(pll: Fields, ms: Fields): nat {
    27_000_000 * ((pll.p1 + 512) * pll.p3 + pll.p2) * (128 * ms.p3)
  }

  function OutputDenominator(pll: Fields, ms: Fields): nat {
    128 * pll.p3 * ((ms.p1 + 512) * ms.p3 + ms.p2) * Pow2(ms.r / 16)
  }

  /** As decoded from the bytes in the two register groups. */
  function Output(pll: Fields, ms: Fields): real
    requires OutputDenominator(pll, ms) > 0
  {
    OutputNumerator(pll, ms) as real / OutputDenominator(pll, ms) as real
  }

  function PllBytes(p: Plan): seq<Octet> {
    Pack(PllFields(p.mult, p.num, DENOM))
  }

  function SynthBytes(p: Plan): seq<Octet> {
    RBits(p.doublings);
    Pack(SynthFields(p.divider, p.doublings))
  }

  lemma {:induction false} RBits(doublings: nat)
    ensures R_DIV_2 * doublings % 256 % 16 == 0
  {
  }

  /** The fraction written to the PLL is below the target ratio by less than one step of the denominator. */
  lemma {:induction false} RatioError(vco: nat)
    ensures var mult, num := vco / XTAL, vco % XTAL * DENOM / XTAL;
            XTAL * (mult * DENOM + num) <= vco * DENOM < XTAL * (mult * DENOM + num) + XTAL
  {
  }

  /** The target VCO is the request times the whole division. */
  lemma {:induction false} TargetVco(f: nat, p2k: nat, divider: nat)
    ensures divider * (f * p2k) == f * (divider * p2k)
  {
  }

  lemma {:induction false} Fractions(a: nat, d: nat, pll: Fields, ms: Fields, divider: nat)
    requires (pll.p1 + 512) * pll.p3 + pll.p2 == 128 * a && pll.p3 == DENOM
    requires ms.p1 + 512 == 128 * divider && ms.p2 == 0 && ms.p3 == 1 && d == divider * Pow2(ms.r / 16)
    ensures OutputNumerator(pll, ms) == 16384 * (XTAL * a)
    ensures OutputDenominator(pll, ms) == 16384 * (DENOM * d)
  {
  }

  /** The output never exceeds f and falls short by less than 27 MHz / (1048575 * d). */
  ghost predicate CloseBelow(f: nat, d: nat, pll: Fields, ms: Fields) {
    && d > 0 && OutputDenominator(pll, ms) > 0
    && Output(pll, ms) <= f as real < Output(pll, ms) + 27_000_000.0 / (1_048_575 * d) as real
  }

  /**
   * The whole chain, from request to the signal decoded from the packed bytes: for every request in range the
   * output never exceeds it and falls short by less than 27 MHz / (1048575 * total division).
   */
  lemma {:induction false} OutputError(f: nat, limit: nat)
    requires InRange(f) && (limit == LIMIT_A || limit == LIMIT_B)
    ensures var p := PlanFor(f, limit);
            CloseBelow(f, p.divider * Pow2(p.doublings), Unpack(PllBytes(p)), Unpack(SynthBytes(p)))
  {
    var p := PlanFor(f, limit);
    PlanInRange(f, limit);
    PlanRatio(f, limit);
    PllDecodes(p);
    SynthDecodes(p);
    FieldsClose(f, p, Unpack(PllBytes(p)), Unpack(SynthBytes(p)));
  }

  lemma {:induction false} PlanRatio(f: nat, limit: nat)
    requires InRange(f) && (limit == LIMIT_A || limit == LIMIT_B)
    ensures var p := PlanFor(f, limit);
            var a, d := p.mult * DENOM + p.num, p.divider * Pow2(p.doublings);
            XTAL * a <= f * d * DENOM < XTAL * a + XTAL
  {
    var p := PlanFor(f, limit);
    RatioError(p.divider * p.frequency);
    TargetVco(f, Pow2(p.doublings), p.divider);
  }

  lemma {:induction false} PllDecodes(p: Plan)
    requires 4 <= p.mult <= 255 && p.num < DENOM
    ensures var x := Unpack(PllBytes(p));
            (x.p1 + 512) * x.p3 + x.p2 == 128 * (p.mult * DENOM + p.num) && x.p3 == DENOM
  {
    PllFieldsExact(p.mult, p.num);
    PackRoundTrip(PllFields(p.mult, p.num, DENOM));
  }

  lemma {:induction false} SynthDecodes(p: Plan)
    requires Accepted(p)
    ensures var x := Unpack(SynthBytes(p));
            x.p1 + 512 == 128 * p.divider && x.p2 == 0 && x.p3 == 1 && x.r == 16 * p.doublings
  {
    SynthFieldsExact(p.divider, p.doublings);
    RBits(p.doublings);
    PackRoundTrip(SynthFields(p.divider, p.doublings));
  }

  lemma {:induction false} FieldsClose(f: nat, p: Plan, pll: Fields, ms: Fields)
    requires (pll.p1 + 512) * pll.p3 + pll.p2 == 128 * (p.mult * DENOM + p.num) && pll.p3 == DENOM
    requires ms.p1 + 512 == 128 * p.divider && ms.p2 == 0 && ms.p3 == 1 && ms.r == 16 * p.doublings && p.divider > 0
    requires var a, d := p.mult * DENOM + p.num, p.divider * Pow2(p.doublings);
             XTAL * a <= f * d * DENOM < XTAL * a + XTAL
    ensures CloseBelow(f, p.divider * Pow2(p.doublings), pll, ms)
  {
    var a, d := p.mult * DENOM + p.num, p.divider * Pow2(p.doublings);
    assert ms.r / 16 == p.doublings;
    Grows(p.divider, Pow2(p.doublings));
    Fractions(a, d, pll, ms, p.divider);
    FractionClose(f, d, a);
  }

  lemma {:induction false} FractionClose(f: nat, d: nat, a: nat)
    requires d > 0 && XTAL * a <= f * d * DENOM < XTAL * a + XTAL
    ensures var n, m := 16384 * (XTAL * a), 16384 * (DENOM * d);
            m > 0 && n as real / m as real <= f as real < n as real / m as real + XTAL as real / (DENOM * d) as real
  {
  }
}
