/** DivU64x32 of gnu-efi/lib/ia32/math.c: 64 shift-compare-subtract steps on a 32-bit remainder. */
module Division {

  const TWO31 := 0x8000_0000
  const TWO32 := 0x1_0000_0000
  const TWO64 := 0x1_0000_0000_0000_0000

  type U32 = x: int | 0 <= x < TWO32
  type U64 = x: int | 0 <= x < TWO64

  function Pow2(n: nat): (p: nat)
    ensures p >= 1
  {
    if n == 0 then 1 else 2 * Pow2(n - 1)
  }

  lemma {:induction false} Pow2Sum(m: nat, n: nat)
    ensures Pow2(m) * Pow2(n) == Pow2(m + n)
  {
    if m != 0 {
      Pow2Sum(m - 1, n);
      var a, b := Pow2(m - 1), Pow2(n);
      assert (2 * a) * b == 2 * (a * b);
    }
  }

  lemma Pow2Is64()
    ensures Pow2(64) == TWO64 && Pow2(63) == TWO64 / 2
  {
    assert Pow2(8) == 0x100 && Pow2(16) == 0x1_0000;
    Pow2Sum(16, 16);
    Pow2Sum(32, 32);
  }

  /** One pass of the assembly loop. `dividend` gives up its top bit to `rem` and takes a quotient bit
      at the bottom; the bit that `rcl` pushes out of the 32-bit `rem` is lost. */
  function Step(dividend: U64, rem: U32, divisor: U32): (r: (U64, U32)) {
    var carry := dividend / (TWO64 / 2);
    var shifted: U64 := 2 * dividend % TWO64;
    var rem2: U32 := (2 * rem + carry) % TWO32;
    if rem2 >= divisor then (shifted + 1, rem2 - divisor) else (shifted, rem2)
  }

  function Steps(dividend: U64, divisor: U32, n: nat): (r: (U64, U32)) {
    if n == 0 then (dividend, 0) else
      var prev := Steps(dividend, divisor, n - 1);
      Step(prev.0, prev.1, divisor)
  }

  /** One pass in numbers: the dividend is doubled and the remainder takes its top bit; a remainder of 33 bits loses
      the highest, and one that is not below the divisor gives up the divisor for a quotient bit. */
  lemma StepMeans(dividend: nat, rem: nat, divisor: nat, n: nat)
    requires dividend < 0x1_0000_0000_0000_0000 && rem < 0x1_0000_0000 && divisor < 0x1_0000_0000
    ensures var top := if dividend < 0x8000_0000_0000_0000 then 0 else 1;
      var full, shifted := 2 * rem + top, 2 * dividend - top * 0x1_0000_0000_0000_0000;
      var kept := if full < 0x1_0000_0000 then full else full - 0x1_0000_0000;
      Step(dividend, rem, divisor) == if kept >= divisor then (shifted + 1, kept - divisor) else (shifted, kept)
    ensures Steps(dividend, divisor, 0) == (dividend, 0)
    ensures Steps(dividend, divisor, n + 1) ==
      Step(Steps(dividend, divisor, n).0, Steps(dividend, divisor, n).1, divisor)
  {
    var top := dividend / 0x8000_0000_0000_0000;
    assert top == if dividend < 0x8000_0000_0000_0000 then 0 else 1;
    ModOnce(2 * dividend, 0x1_0000_0000_0000_0000);
    ModOnce(2 * rem + top, 0x1_0000_0000);
  }

  lemma ModOnce(x: nat, m: nat)
    requires m > 0 && x < 2 * m
    ensures x % m == if x < m then x else x - m
  {}

  /** Part way through: the top bits of the dividend, worth `h`, have gone into quotient `q` and
      remainder `r`; the lower part `rest` still fills the register above `q`. */
  datatype Progress = Progress(w: nat, k: nat, h: nat, rest: nat, q: nat)

  ghost predicate Halfway(dividend: U64, divisor: U32, p: Progress, d: U64, r: U32) {
    && p.w * p.k == TWO64
    && dividend == p.h * p.w + p.rest && p.rest < p.w
    && d == p.rest * p.k + p.q && p.q < p.k
    && p.h == p.q * divisor + r && r < divisor
  }

  lemma MulOrder(d: nat, a: nat, b: nat)
    requires a <= b
    ensures d * a <= d * b
  {}

  lemma QuotientUnique(d: nat, q: nat, r: nat, q': nat, r': nat)
    requires d * q + r == d * q' + r' && r < d && r' < d
    ensures q == q' && r == r'
  {
    if q < q' {
      MulOrder(d, q + 1, q');
    } else if q' < q {
      MulOrder(d, q' + 1, q);
    }
  }

  lemma DivModUnique(x: nat, d: nat, q: nat, r: nat)
    requires x == d * q + r && r < d
    ensures x / d == q && x % d == r
  {
    var q', r' := x / d, x % d;
    assert x == d * q' + r';
    QuotientUnique(d, q, r, q', r');
  }

  /** The top bit of the dividend register is the next bit of the dividend. */
  lemma TopBit(rest: nat, k: nat, w: nat, q: nat)
    requires w * k == TWO64 / 2 && rest < 2 * w && q < k
    ensures rest * k + q < TWO64
    ensures rest * k + q >= TWO64 / 2 <==> rest >= w
    ensures 2 * (rest * k + q) - (if rest >= w then TWO64 else 0)
      == (if rest >= w then rest - w else rest) * (2 * k) + 2 * q
  {
    var low := if rest >= w then rest - w else rest;
    MulOrder(k, low, w - 1);
    assert k * (w - 1) == TWO64 / 2 - k;
    assert rest >= w ==> rest * k == low * k + TWO64 / 2;
    assert low * (2 * k) == 2 * (low * k);
  }

  lemma HalveWidth(w: nat, k: nat)
    requires w * k == TWO64 && w > 1 && w % 2 == 0
    ensures (w / 2) * (2 * k) == TWO64 && (w / 2) * k == TWO64 / 2
  {
    var half := w / 2;
    assert w == 2 * half;
    assert w * k == 2 * (half * k);
  }

  function Advance(p: Progress, divisor: U32, r: U32): Progress {
    var half := p.w / 2;
    var bit := if p.rest >= half then 1 else 0;
    var up := if 2 * r + bit >= divisor then 1 else 0;
    Progress(half, 2 * p.k, 2 * p.h + bit, if bit == 1 then p.rest - half else p.rest, 2 * p.q + up)
  }

  /** What the top bit sends into the remainder. */
  function BitOf(p: Progress): nat {
    if p.rest >= p.w / 2 then 1 else 0
  }

  lemma NextRegister(p: Progress, d: U64)
    requires p.w * p.k == TWO64 && p.w % 2 == 0 && p.w > 1 && p.rest < p.w && p.q < p.k && d == p.rest * p.k + p.q
    ensures d / (TWO64 / 2) == BitOf(p)
    ensures 2 * d % TWO64 == (p.rest - BitOf(p) * (p.w / 2)) * (2 * p.k) + 2 * p.q
    ensures (p.w / 2) * (2 * p.k) == TWO64
  {
    HalveWidth(p.w, p.k);
    TopBit(p.rest, p.k, p.w / 2, p.q);
    TopBitOut(d, BitOf(p));
  }

  lemma TopBitOut(d: nat, bit: nat)
    requires d < TWO64 && bit < 2 && (d >= TWO64 / 2 <==> bit == 1)
    ensures d / (TWO64 / 2) == bit && 2 * d % TWO64 == 2 * d - bit * TWO64
  {
    DivModUnique(d, TWO64 / 2, bit, d - bit * (TWO64 / 2));
    DivModUnique(2 * d, TWO64, bit, 2 * d - bit * TWO64);
  }

  /** One step carries the relation on as long as the doubled remainder fits 32 bits. */
  lemma StepAdvances(dividend: U64, divisor: U32, p: Progress, d: U64, r: U32)
    requires Halfway(dividend, divisor, p, d, r) && p.w % 2 == 0 && p.w > 1
    requires 2 * r + BitOf(p) < TWO32
    ensures var next := Step(d, r, divisor); Halfway(dividend, divisor, Advance(p, divisor, r), next.0, next.1)
  {
    NextRegister(p, d);
    HighBits(p.h, p.w, p.w / 2, p.rest, BitOf(p));
    Remainder(p.q, divisor, r, p.h, BitOf(p));
    NextStep(divisor, p, d, r);
    var next, n := Step(d, r, divisor), Advance(p, divisor, r);
    hide Step, Advance;
  }

  /** The step's numbers, with the arithmetic done. */
  lemma NextStep(divisor: U32, p: Progress, d: U64, r: U32)
    requires d / (TWO64 / 2) == BitOf(p) && 2 * r + BitOf(p) < TWO32 && r < divisor && p.w > 1 && p.w % 2 == 0
    ensures var next, n, rem := Step(d, r, divisor), Advance(p, divisor, r), 2 * r + BitOf(p);
      && n.w == p.w / 2 && n.k == 2 * p.k && n.h == 2 * p.h + BitOf(p) && n.rest == p.rest - BitOf(p) * (p.w / 2)
      && n.q == (if rem >= divisor then 2 * p.q + 1 else 2 * p.q)
      && next.0 == 2 * d % TWO64 + (if rem >= divisor then 1 else 0)
      && next.1 == (if rem >= divisor then rem - divisor else rem) < divisor
  {}

  lemma HighBits(h: nat, w: nat, half: nat, rest: nat, bit: nat)
    requires w == 2 * half && bit < 2
    ensures h * w + rest == (2 * h + bit) * half + (rest - bit * half)
  {}

  lemma Remainder(q: nat, divisor: nat, r: nat, h: nat, bit: nat)
    requires h == q * divisor + r
    ensures 2 * h + bit == (2 * q) * divisor + (2 * r + bit)
    ensures 2 * h + bit == (2 * q + 1) * divisor + (2 * r + bit - divisor)
  {}

  lemma StartHalfway(dividend: U64, divisor: U32)
    requires divisor > 0
    ensures Halfway(dividend, divisor, Progress(TWO64, 1, 0, dividend, 0), dividend, 0)
  {}

  lemma RemainderFits(dividend: U64, divisor: U32, p: Progress, d: U64, r: U32)
    requires Halfway(dividend, divisor, p, d, r)
    ensures r < divisor
  {}

  lemma StepsNext(dividend: U64, divisor: U32, n: nat, w: nat)
    requires 0 < n <= 64 && w == Pow2(65 - n)
    ensures var prev := Steps(dividend, divisor, n - 1); Steps(dividend, divisor, n) == Step(prev.0, prev.1, divisor)
    ensures w % 2 == 0 && w > 1 && w / 2 == Pow2(64 - n)
  {
    assert w == 2 * Pow2(64 - n);
  }

  lemma {:induction false} StepsDivide(dividend: U64, divisor: U32, n: nat) returns (p: Progress)
    requires n <= 64 && 0 < divisor <= TWO31
    ensures var s := Steps(dividend, divisor, n); Halfway(dividend, divisor, p, s.0, s.1)
    ensures p.w == Pow2(64 - n)
  {
    hide Halfway, Step;
    if n == 0 {
      Pow2Is64();
      StartHalfway(dividend, divisor);
      p := Progress(TWO64, 1, 0, dividend, 0);
    } else {
      var p0 := StepsDivide(dividend, divisor, n - 1);
      var s := Steps(dividend, divisor, n - 1);
      StepsNext(dividend, divisor, n, p0.w);
      hide Steps, Pow2;
      RemainderFits(dividend, divisor, p0, s.0, s.1);
      StepAdvances(dividend, divisor, p0, s.0, s.1);
      p := Advance(p0, divisor, s.1);
    }
  }

  /** With no bits left the relation is the division itself. */
  lemma HalfwayEnds(dividend: U64, divisor: U32, p: Progress, d: U64, r: U32)
    requires Halfway(dividend, divisor, p, d, r) && p.w == 1
    ensures dividend == divisor * p.q + r && r < divisor && d == p.q
  {
    var q := p.q;
    assert q * divisor == divisor * q;
  }

  lemma DivisorUpTo31Bits(dividend: U64, divisor: U32)
    requires 0 < divisor <= 0x8000_0000
    ensures Steps(dividend, divisor, 64) == (dividend / divisor, dividend % divisor)
  {
    var p := StepsDivide(dividend, divisor, 64);
    assert p.w == 1;
    hide Steps, Halfway, Pow2;
    var s := Steps(dividend, divisor, 64);
    HalfwayEnds(dividend, divisor, p, s.0, s.1);
    DivModUnique(dividend, divisor, p.q, s.1);
  }

  method DivU64x32(dividend: U64, divisor: U32) returns (quotient: U64, remainder: U32)
    ensures (quotient, remainder) == Steps(dividend, divisor, 64)
    ensures 0 < divisor <= 0x8000_0000 ==> quotient == dividend / divisor && remainder == dividend % divisor
  {
    quotient, remainder := dividend, 0;
    for bit := 0 to 64
      invariant (quotient, remainder) == Steps(dividend, divisor, bit)
    {
      var s := Step(quotient, remainder, divisor);
      quotient, remainder := s.0, s.1;
    }
    if 0 < divisor <= TWO31 {
      DivisorUpTo31Bits(dividend, divisor);
    }
  }

  // ----- larger divisors -----

  /** While the bits seen so far are worth less than the divisor, the steps only move bits across. */
  lemma {:induction false} StepsBelow(dividend: U64, divisor: U32, n: nat) returns (p: Progress)
    requires n <= 63 && divisor > TWO31 && dividend <= 2 * divisor - 1
    ensures var s := Steps(dividend, divisor, n); Halfway(dividend, divisor, p, s.0, s.1)
    ensures p.w == Pow2(64 - n) && p.q == 0
  {
    hide Halfway, Step, Advance, BitOf;
    if n == 0 {
      Pow2Is64();
      StartHalfway(dividend, divisor);
      p := Progress(TWO64, 1, 0, dividend, 0);
    } else {
      var p0 := StepsBelow(dividend, divisor, n - 1);
      var s := Steps(dividend, divisor, n - 1);
      StepsNext(dividend, divisor, n, p0.w);
      FourBitsLeft(n, p0.w);
      hide Steps, Pow2;
      BitsSeen(dividend, divisor, p0, s.0, s.1);
      AdvanceBelow(p0, divisor, s.1);
      StepAdvances(dividend, divisor, p0, s.0, s.1);
      p := Advance(p0, divisor, s.1);
    }
  }

  lemma FourBitsLeft(n: nat, w: nat)
    requires 0 < n <= 63 && w == Pow2(65 - n)
    ensures w % 4 == 0 && w > 2
  {
    assert Pow2(64 - n) == 2 * Pow2(63 - n);
  }

  lemma AdvanceBelow(p: Progress, divisor: U32, r: U32)
    requires p.q == 0 && 2 * r + BitOf(p) < divisor
    ensures Advance(p, divisor, r).w == p.w / 2 && Advance(p, divisor, r).q == 0
  {}

  lemma QuotientZero(dividend: U64, divisor: U32, p: Progress, d: U64, r: U32)
    requires Halfway(dividend, divisor, p, d, r) && p.q == 0
    ensures p.h == r && dividend == p.h * p.w + p.rest && p.rest < p.w
  {}

  lemma BitsSeen(dividend: U64, divisor: U32, p: Progress, d: U64, r: U32)
    requires Halfway(dividend, divisor, p, d, r) && p.q == 0 && p.w > 2 && p.w % 4 == 0 && dividend <= 2 * divisor - 1
    ensures 2 * r + BitOf(p) < divisor
  {
    QuotientZero(dividend, divisor, p, d, r);
    var half, low := LowBits(p);
    hide *;
    HighBits(p.h, p.w, half, p.rest, BitOf(p));
    SumBelow(2 * p.h + BitOf(p), half, low, divisor);
  }

  lemma LowBits(p: Progress) returns (half: nat, low: nat)
    requires p.w > 2 && p.w % 4 == 0 && p.rest < p.w
    ensures p.w == 2 * half && half >= 2 && BitOf(p) < 2 && low == p.rest - BitOf(p) * half
  {
    half := p.w / 2;
    low := if BitOf(p) == 1 then p.rest - half else p.rest;
  }

  lemma SumBelow(sum: nat, half: nat, low: nat, divisor: nat)
    requires half >= 2 && sum * half + low <= 2 * divisor - 1
    ensures sum < divisor
  {
    MulOrder(sum, 2, half);
  }

  /** The dividend 2 * (divisor - 1) has quotient 1; the lost carry makes the loop answer 0. */
  lemma LargeDivisorFails(divisor: U32)
    requires divisor > 0x8000_0000
    ensures var dividend := 2 * (divisor - 1);
      Steps(dividend, divisor, 64).0 == 0 && dividend / divisor == 1
  {
    var dividend: U64 := 2 * (divisor - 1);
    var p := StepsBelow(dividend, divisor, 63);
    var s := Steps(dividend, divisor, 63);
    assert p.w == 2 by { assert Pow2(1) == 2; }
    hide Pow2;
    AllBitsIn(dividend, divisor, p, s.0, s.1);
    assert Steps(dividend, divisor, 64) == Step(0, divisor - 1, divisor);
    hide Steps, Halfway;
    DivModUnique(dividend, divisor, 1, divisor - 2);
  }

  lemma AllBitsIn(dividend: U64, divisor: U32, p: Progress, d: U64, r: U32)
    requires Halfway(dividend, divisor, p, d, r) && p.q == 0 && p.w == 2 && dividend == 2 * (divisor - 1)
    ensures d == 0 && r == divisor - 1
  {
    var k := p.k;
    assert p.rest == 0 && p.h == divisor - 1;
    assert p.rest * k == 0;
  }

  /** The loop divides correctly, whatever the dividend, exactly for nonzero divisors up to 2^31. */
  lemma DividesIff(divisor: U32)
    requires divisor != 0
    ensures (forall dividend: U64 :: Steps(dividend, divisor, 64) == (dividend / divisor, dividend % divisor))
      <==> divisor <= 0x8000_0000
  {
    if 0 < divisor <= TWO31 {
      forall dividend: U64
        ensures Steps(dividend, divisor, 64) == (dividend / divisor, dividend % divisor)
      {
        DivisorUpTo31Bits(dividend, divisor);
      }
    } else if divisor > TWO31 {
      LargeDivisorFails(divisor);
    }
  }
}
