/** The baud-rate divisor split of driver/pl011.rs.  Section 3.3.6 of the
    PrimeCell UART (PL011) Technical Reference Manual defines the divisor
    as the reference clock over sixteen times the baud rate, held as a
    16-bit integer part (UARTIBRD) and a 6-bit fraction of 64ths
    (UARTFBRD). */
module Pl011 {
  import opened Bits

  const CLOCK_BASE: nat := 24_000_000
  const BAUDRATE: nat := 115_200

  /** `calculate_d(clock, baud)`: the divisor in 64ths, `4 * clock / baud`
      (a usize product that must not overflow; the division panics on a
      zero rate), split into the fraction, its low six bits, and the
      integer part, the next sixteen, each passed through a u32. */
  function CalculateD(clock: nat, baud: nat): (r: (nat, nat))
    requires baud > 0 && 4 * clock < WORD
    ensures r.0 < 64 && r.1 < 0x1_0000
    ensures r.0 == (4 * clock / baud) % 64
    ensures 4 * clock / baud < 0x40_0000 ==> r.1 * 64 + r.0 == 4 * clock / baud
  {
    var d := 4 * clock / baud;
    SplitFields(d);
    ((d % 0x1_0000_0000) % 64, ((d / 64) % 0x1_0000_0000) % 0x1_0000)
  }

  /** The u32 truncation keeps the low six bits, and below 2^22 the whole
      of the upper sixteen. */
  lemma SplitFields(d: nat)
    ensures (d % 0x1_0000_0000) % 64 == d % 64
    ensures d < 0x40_0000 ==> ((d / 64) % 0x1_0000_0000) % 0x1_0000 == d / 64
    ensures (d / 64) * 64 + d % 64 == d
  {
    var q := d / 0x1_0000_0000;
    var m := d % 0x1_0000_0000;
    DivModUnique(d, 64, q * 0x400_0000 + m / 64, m % 64);
  }

  /** Against the manual's divisor: when it fits sixteen integer bits, the
      integer part is the clock over sixteen times the rate, and the
      fraction is the 64ths left over, rounded down. */
  lemma DivisorSplit(clock: nat, baud: nat)
    requires baud > 0 && 4 * clock < WORD && 4 * clock / baud < 0x40_0000
    ensures var (frac, whole) := CalculateD(clock, baud);
      whole == clock / (16 * baud) &&
      (whole * 64 + frac) * baud <= 4 * clock < (whole * 64 + frac + 1) * baud
  {
    var d := 4 * clock / baud;
    var (frac, whole) := CalculateD(clock, baud);
    assert whole * 64 + frac == d;
    DivBounds(4 * clock, baud);
    WholeBounds(clock, baud, d, whole);
    DivBetween(clock, 16 * baud, whole);
  }

  lemma DivBounds(x: nat, b: nat)
    requires b > 0
    ensures (x / b) * b <= x < (x / b + 1) * b
  {}

  /** Dropping the six fraction bits divides the bounds by 64. */
  lemma WholeBounds(clock: nat, baud: nat, d: nat, whole: nat)
    requires baud > 0 && d * baud <= 4 * clock < (d + 1) * baud
    requires whole == d / 64
    ensures whole * (16 * baud) <= clock < (whole + 1) * (16 * baud)
  {
    assert whole * 64 <= d < whole * 64 + 64;
    MulLe(whole * 64, d, baud);
    MulLe(d + 1, whole * 64 + 64, baud);
    Regroup(whole, baud);
    Regroup(whole + 1, baud);
    assert (whole * 64 + 64) * baud == ((whole + 1) * 64) * baud;
  }

  /** Sixty-four times a rate is four times sixteen times it. */
  lemma Regroup(w: nat, b: nat)
    ensures (w * 64) * b == 4 * (w * (16 * b))
  {}

  lemma MulLe(a: nat, b: nat, c: nat)
    requires a <= b
    ensures a * c <= b * c
  {}

  lemma DivBetween(x: nat, d: nat, q: nat)
    requires d > 0 && q * d <= x < (q + 1) * d
    ensures x / d == q
  {
    DivModUnique(x, d, q, x - q * d);
  }

  /** The console's 24 MHz clock and 115200 baud: FBRD 1, IBRD 13. */
  lemma ConsoleDivisor()
    ensures CalculateD(CLOCK_BASE, BAUDRATE) == (1, 13)
  {}
}
