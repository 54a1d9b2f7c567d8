/** Decimal numerals and exact decimal numbers: what the scripts read with
    `parseFloat` and write with `Number.prototype.toFixed`, without the
    binary floating point in between. */
module Numerals {
  import opened Text

  function Pow10(k: nat): (r: nat)
    ensures r >= 1
  {
    if k == 0 then 1 else 10 * Pow10(k - 1)
  }

  function DigitValue(c: char): nat
    requires IsDigit(c)
  {
    c as int - '0' as int
  }

  function DigitChar(d: nat): (c: char)
    requires d < 10
    ensures IsDigit(c) && DigitValue(c) == d
  {
    ('0' as int + d) as char
  }

  /** The number a string of decimal digits denotes, most significant first. */
  function DigitsValue(ds: string): nat
    requires AllDigits(ds)
  {
    if ds == [] then 0 else 10 * DigitsValue(ds[..|ds| - 1]) + DigitValue(ds[|ds| - 1])
  }

  /** Reading `a + b` is reading `a`, shifted left by the length of `b`, plus `b`. */
  lemma {:induction false} DigitsValueConcat(a: string, b: string)
    requires AllDigits(a) && AllDigits(b)
    ensures AllDigits(a + b)
    ensures DigitsValue(a + b) == Shifted(DigitsValue(a), |b|) + DigitsValue(b)
  {
    assert AllDigits(a + b) by {
      forall i | 0 <= i < |a + b| ensures IsDigit((a + b)[i]) {
        if i < |a| { assert (a + b)[i] == a[i]; } else { assert (a + b)[i] == b[i - |a|]; }
      }
    }
    if b == [] {
      assert a + b == a;
    } else {
      var b' := b[..|b| - 1];
      assert (a + b)[..|a + b| - 1] == a + b';
      assert (a + b)[|a + b| - 1] == b[|b| - 1];
      DigitsValueConcat(a, b');
    }
  }

  /** The length of the run of digits at the start of `s`. */
  function DigitRun(s: string): (r: nat)
    ensures r <= |s| && AllDigits(s[..r])
    ensures r < |s| ==> !IsDigit(s[r])
  {
    if s != [] && IsDigit(s[0]) then
      var r := 1 + DigitRun(s[1..]);
      assert s[..r] == [s[0]] + s[1..][..r - 1];
      r
    else 0
  }

  /** The digits at the start of `s`. */
  function LeadingDigits(s: string): (r: string)
    ensures AllDigits(r) && r <= s
  {
    s[..DigitRun(s)]
  }

  lemma {:induction false} LeadingDigitsOf(ds: string, rest: string)
    requires AllDigits(ds) && (rest == [] || !IsDigit(rest[0]))
    ensures LeadingDigits(ds + rest) == ds
  {
    if ds == [] {
      assert ds + rest == rest;
    } else {
      assert (ds + rest)[1..] == ds[1..] + rest;
      LeadingDigitsOf(ds[1..], rest);
      assert (ds + rest)[..|ds|] == ds;
    }
  }

  /** `m` followed by `k` zeros: `m * 10^k`. */
  function Shifted(m: nat, k: nat): nat {
    if k == 0 then m else 10 * Shifted(m, k - 1)
  }

  lemma {:induction false} ShiftedIs(m: nat, k: nat)
    ensures Shifted(m, k) == m * Pow10(k)
  {
    if k > 0 {
      ShiftedIs(m, k - 1);
      TenTimes(m, Pow10(k - 1));
    }
  }

  lemma TenTimes(m: int, p: int)
    ensures 10 * (m * p) == m * (10 * p)
  {
  }

  /** `n` without its last `k` decimal digits: `n / 10^k` rounded down. */
  function Dropped(n: nat, k: nat): nat {
    if k == 0 then n else Dropped(n / 10, k - 1)
  }

  /** The shortest decimal numeral of `n` ("0" for zero). */
  function NatDigits(n: nat): (r: string)
    ensures |r| >= 1 && AllDigits(r)
  {
    if n < 10 then [DigitChar(n)] else NatDigits(n / 10) + [DigitChar(n % 10)]
  }

  /** The numeral reads back as `n` and has no leading zero. */
  lemma {:induction false} NatDigitsValue(n: nat)
    ensures DigitsValue(NatDigits(n)) == n
    ensures |NatDigits(n)| > 1 ==> NatDigits(n)[0] != '0'
  {
    if n >= 10 {
      var r := NatDigits(n);
      assert r[..|r| - 1] == NatDigits(n / 10);
      NatDigitsValue(n / 10);
    }
  }

  /** The last `w` decimal digits of `v`, zero-padded on the left. */
  function PadDigits(v: nat, w: nat): (r: string)
    ensures |r| == w && AllDigits(r)
  {
    if w == 0 then "" else PadDigits(v / 10, w - 1) + [DigitChar(v % 10)]
  }

  /** The padded digits are what `Dropped` drops: together they make `v`,
      and they read as less than `10^w`. */
  lemma {:induction false} PadDigitsSplit(v: nat, w: nat)
    ensures Shifted(Dropped(v, w), w) + DigitsValue(PadDigits(v, w)) == v
    ensures DigitsValue(PadDigits(v, w)) < Shifted(1, w)
  {
    if w > 0 {
      var r := PadDigits(v, w);
      assert r[..|r| - 1] == PadDigits(v / 10, w - 1);
      PadDigitsSplit(v / 10, w - 1);
    }
  }

  lemma Doubled(n: int, q: int)
    ensures (2 * n + 1) * q == 2 * (n * q) + q
    ensures (2 * n - 1) * q == 2 * (n * q) - q
    ensures (2 * q) * n == 2 * (n * q)
  {
  }

  /** An exact decimal number: `mantissa` divided by ten to the `scale`. */
  datatype Decimal = Decimal(mantissa: int, scale: nat)

  const ZERO := Decimal(0, 0)

  predicate IsZero(d: Decimal) {
    d.mantissa == 0
  }

  /** `d >= n` for an integer `n`. */
  predicate AtLeast(d: Decimal, n: int) {
    d.mantissa >= n * Pow10(d.scale)
  }

  /** `a <= b`. */
  predicate Le(a: Decimal, b: Decimal) {
    a.mantissa * Pow10(b.scale) <= b.mantissa * Pow10(a.scale)
  }

  /** A larger number is at least every bound a smaller one is at least. */
  lemma AtLeastMonotone(a: Decimal, b: Decimal, n: int)
    requires Le(a, b) && AtLeast(a, n)
    ensures AtLeast(b, n)
  {
    var pa, pb := Pow10(a.scale), Pow10(b.scale);
    assert n * pb * pa <= a.mantissa * pb by {
      MulLe(n * pa, a.mantissa, pb);
    }
    assert (n * pb) * pa <= b.mantissa * pa;
    if n * pb > b.mantissa {
      MulLt(b.mantissa, n * pb, pa);
    }
  }

  lemma MulLe(x: int, y: int, k: nat)
    requires x <= y
    ensures x * k <= y * k
  {
  }

  lemma MulLt(x: int, y: int, k: nat)
    requires x < y && k > 0
    ensures x * k < y * k
  {
  }

  /** The integer `n` nearest to `m * 10^f / 10^s`, the larger one on a tie:
      the rounding `toFixed(f)` applies to a non-negative number held exactly.
      Halving first and dropping `s` digits after is dividing by `2 * 10^s`. */
  function RoundScaled(m: nat, s: nat, f: nat): nat {
    Dropped((2 * Shifted(m, f) + Pow10(s)) / 2, s)
  }

  /** `RoundScaled` is within half a unit of the exact value, and a tie goes
      up. */
  lemma RoundScaledBounds(m: nat, s: nat, f: nat)
    ensures var n := RoundScaled(m, s, f);
            && 2 * (m * Pow10(f)) < (2 * n + 1) * Pow10(s)
            && (2 * n - 1) * Pow10(s) <= 2 * (m * Pow10(f))
  {
    var q := Pow10(s);
    var y := (2 * Shifted(m, f) + q) / 2;
    var n := Dropped(y, s);
    assert RoundScaled(m, s, f) == n;
    PadDigitsSplit(y, s);
    ShiftedIs(m, f);
    ShiftedIs(n, s);
    ShiftedIs(1, s);
    Doubled(n, q);
    HalfUnit(m * Pow10(f), y, n * q, DigitsValue(PadDigits(y, s)), q);
  }

  /** Halving `2 * x + q` and splitting the half into `nq + r` with `r < q`
      leaves `2 * x` within `q` of `2 * nq`. */
  lemma HalfUnit(x: int, y: int, nq: int, r: int, q: int)
    requires y == (2 * x + q) / 2 && y == nq + r && 0 <= r < q
    ensures 2 * x < 2 * nq + q && 2 * nq - q <= 2 * x
  {
  }

  /** `n / 10^f` written with exactly `f` digits after the point, as
      `toFixed(f)` writes a non-negative number below 10^21. */
  function FormatFixed(n: nat, f: nat): string {
    NatDigits(Dropped(n, f)) + (if f == 0 then "" else "." + PadDigits(n, f))
  }

  /** The shape of `FormatFixed(n, f)` for `f > 0`: an integer part without a
      leading zero, the point, exactly `f` fraction digits, and together
      they spell `n`. */
  lemma FormatFixedShape(n: nat, f: nat) returns (ip: string, fp: string)
    requires f > 0
    ensures FormatFixed(n, f) == ip + "." + fp
    ensures |ip| >= 1 && AllDigits(ip) && |fp| == f && AllDigits(fp)
    ensures |ip| > 1 ==> ip[0] != '0'
    ensures AllDigits(ip + fp) && DigitsValue(ip + fp) == n
  {
    ip, fp := NatDigits(Dropped(n, f)), PadDigits(n, f);
    DigitsValueConcat(ip, fp);
    NatDigitsValue(Dropped(n, f));
    PadDigitsSplit(n, f);
  }
}
