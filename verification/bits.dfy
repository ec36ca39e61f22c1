/** Unsigned 64-bit words as natural numbers, with the bitwise operators the
    kernel applies to them.  Every operator is defined one binary digit at a
    time (halving), so proofs about masks and shifts go by induction on the
    bit position and never divide by a symbolic power of two. */
module Bits {

  const WORD: nat := 0x1_0000_0000_0000_0000
  const WORD_MAX: nat := 0xffff_ffff_ffff_ffff

  /** A Rust `u64` (and a 64-bit `usize`). */
  type u64 = x: int | 0 <= x < 0x1_0000_0000_0000_0000

  function Pow2(k: nat): (r: nat)
    ensures r > 0
  {
    if k == 0 then 1 else 2 * Pow2(k - 1)
  }

  /** `x >> k`: the bits of `x` from position `k` upwards. */
  function Hi(x: nat, k: nat): nat {
    if k == 0 then x else Hi(x / 2, k - 1)
  }

  /** `x & ((1 << k) - 1)`: the bits of `x` below position `k`. */
  function Lo(x: nat, k: nat): nat {
    if k == 0 then 0 else 2 * Lo(x / 2, k - 1) + x % 2
  }

  /** Bit `i` of `a` is set. */
  predicate TestBit(a: nat, i: nat) {
    Hi(a, i) % 2 == 1
  }

  /** Bitwise OR. */
  function Or(a: nat, b: nat): nat
    decreases a + b
  {
    if a == 0 then b
    else if b == 0 then a
    else 2 * Or(a / 2, b / 2) + (if a % 2 == 1 || b % 2 == 1 then 1 else 0)
  }

  /** Bitwise AND. */
  function And(a: nat, b: nat): nat
    decreases a + b
  {
    if a == 0 || b == 0 then 0
    else 2 * And(a / 2, b / 2) + (if a % 2 == 1 && b % 2 == 1 then 1 else 0)
  }

  /** `!a` on a 64-bit word: all 64 bits flipped. */
  function Not(a: u64): (r: u64)
    ensures r + a == WORD_MAX
  {
    WORD_MAX - a
  }

  // ---------------------------------------------------------------------
  // Powers of two, and splitting a number at a bit position
  // ---------------------------------------------------------------------

  lemma {:induction false} Pow2Add(a: nat, b: nat)
    ensures Pow2(a + b) == Pow2(a) * Pow2(b)
    decreases a
  {
    if a > 0 {
      Pow2Add(a - 1, b);
      Mul2(Pow2(a - 1), Pow2(b));
    }
  }

  lemma {:induction false} Pow2Monotone(a: nat, b: nat)
    requires a <= b
    ensures Pow2(a) <= Pow2(b)
    decreases b
  {
    if a < b {
      Pow2Monotone(a, b - 1);
    }
  }

  /** Sixty-four binary digits make a word. */
  lemma Pow2Word()
    ensures Pow2(64) == WORD
  {
    Pow2Constants();
  }

  lemma Pow2Constants()
    ensures Pow2(1) == 2 && Pow2(9) == 512 && Pow2(12) == 0x1000
    ensures Pow2(16) == 0x1_0000 && Pow2(18) == 0x4_0000 && Pow2(21) == 0x20_0000
    ensures Pow2(27) == 0x800_0000 && Pow2(30) == 0x4000_0000 && Pow2(36) == 0x10_0000_0000
    ensures Pow2(39) == 0x80_0000_0000 && Pow2(48) == 0x1_0000_0000_0000
    ensures Pow2(52) == 0x10_0000_0000_0000 && Pow2(64) == WORD
  {
    Pow2Add(9, 9);
    Pow2Add(18, 9);
    Pow2Add(27, 9);
    Pow2Add(36, 3);
    Pow2Add(36, 12);
    Pow2Add(48, 4);
    Pow2Add(48, 16);
    Pow2Add(12, 9);
    Pow2Add(18, 12);
    Pow2Add(12, 4);
  }

  lemma Mul2(q: int, p: int)
    ensures 2 * (q * p) == q * (2 * p)
  {}

  lemma MulSign(d: int, t: int)
    requires d > 0
    ensures t >= 1 ==> d * t >= d
    ensures t <= -1 ==> d * t <= -d
  {}

  /** Quotient and remainder are determined by any valid pair. */
  lemma DivModUnique(x: int, d: int, q: int, r: int)
    requires d > 0 && 0 <= r < d && x == d * q + r
    ensures x / d == q && x % d == r
  {
    var q0, r0 := x / d, x % d;
    var t := q0 - q;
    assert d * t == r - r0;
    MulSign(d, t);
  }

  lemma {:induction false} LoBound(x: nat, k: nat)
    ensures Lo(x, k) < Pow2(k)
    decreases k
  {
    if k > 0 {
      LoBound(x / 2, k - 1);
    }
  }

  /** One bit off the bottom of a low part. */
  lemma LoStep(x: nat, k: nat)
    requires k > 0
    ensures Lo(x, k) / 2 == Lo(x / 2, k - 1) && Lo(x, k) % 2 == x % 2
  {
    DivModUnique(Lo(x, k), 2, Lo(x / 2, k - 1), x % 2);
  }

  /** A number is its high part shifted back plus its low part. */
  lemma {:induction false} HiLoJoin(x: nat, k: nat)
    ensures x == Hi(x, k) * Pow2(k) + Lo(x, k)
    decreases k
  {
    if k > 0 {
      HiLoJoin(x / 2, k - 1);
      Mul2(Hi(x / 2, k - 1), Pow2(k - 1));
    }
  }

  /** Reading back the two halves of `h * 2^k + l`. */
  lemma {:induction false} HiLoOfJoin(h: nat, l: nat, k: nat)
    requires l < Pow2(k)
    ensures Hi(h * Pow2(k) + l, k) == h && Lo(h * Pow2(k) + l, k) == l
    decreases k
  {
    if k > 0 {
      var p := Pow2(k - 1);
      Mul2(h, p);
      assert (h * Pow2(k) + l) / 2 == h * p + l / 2;
      assert (h * Pow2(k) + l) % 2 == l % 2;
      HiLoOfJoin(h, l / 2, k - 1);
    }
  }

  /** A number is rebuilt from known halves. */
  lemma JoinParts(x: nat, k: nat, h: nat, l: nat)
    requires Hi(x, k) == h && Lo(x, k) == l
    ensures x == h * Pow2(k) + l
  {
    HiLoJoin(x, k);
  }

  /** A number below `2^k` is all low part. */
  lemma Small(x: nat, k: nat)
    requires x < Pow2(k)
    ensures Hi(x, k) == 0 && Lo(x, k) == x
  {
    HiLoOfJoin(0, x, k);
  }

  /** `h * 2^k` has no low part. */
  lemma Multiple(h: nat, k: nat)
    ensures Hi(h * Pow2(k), k) == h && Lo(h * Pow2(k), k) == 0
  {
    HiLoOfJoin(h, 0, k);
  }

  /** The shift and the mask are Euclidean division and remainder. */
  lemma HiLoDivMod(x: nat, k: nat)
    ensures Hi(x, k) == x / Pow2(k) && Lo(x, k) == x % Pow2(k)
  {
    HiLoJoin(x, k);
    LoBound(x, k);
    DivModUnique(x, Pow2(k), Hi(x, k), Lo(x, k));
  }

  lemma LoIsMod(x: nat, k: nat)
    ensures Lo(x, k) == x % Pow2(k)
  {
    HiLoDivMod(x, k);
  }

  lemma HiIsDiv(x: nat, k: nat)
    ensures Hi(x, k) == x / Pow2(k)
  {
    HiLoDivMod(x, k);
  }

  /** Shifting right by `a` and then by `b` is shifting right by `a + b`. */
  lemma {:induction false} HiHi(x: nat, a: nat, b: nat)
    ensures Hi(Hi(x, a), b) == Hi(x, a + b)
    decreases a
  {
    if a > 0 {
      HiHi(x / 2, a - 1, b);
    }
  }

  /** A number below `2^(a + b)` has fewer than `b` bits above position `a`. */
  lemma {:induction false} HiBound(x: nat, a: nat, b: nat)
    requires x < Pow2(a + b)
    ensures Hi(x, a) < Pow2(b)
    decreases a
  {
    if a > 0 {
      HiBound(x / 2, a - 1, b);
    }
  }

  /** Shifting right never increases a number. */
  lemma {:induction false} HiLe(x: nat, k: nat)
    ensures Hi(x, k) <= x
    decreases k
  {
    if k > 0 {
      HiLe(x / 2, k - 1);
    }
  }

  // ---------------------------------------------------------------------
  // OR and AND
  // ---------------------------------------------------------------------

  lemma OrStep(a: nat, b: nat)
    ensures Or(a, b) % 2 == (if a % 2 == 1 || b % 2 == 1 then 1 else 0)
    ensures Or(a, b) / 2 == Or(a / 2, b / 2)
  {
    if a == 0 {
      assert Or(a / 2, b / 2) == b / 2;
    } else if b == 0 {
      assert Or(a / 2, b / 2) == a / 2;
    } else {
      var y := Or(a / 2, b / 2);
      var bit := if a % 2 == 1 || b % 2 == 1 then 1 else 0;
      assert Or(a, b) == 2 * y + bit;
    }
  }

  lemma AndStep(a: nat, b: nat)
    ensures And(a, b) % 2 == (if a % 2 == 1 && b % 2 == 1 then 1 else 0)
    ensures And(a, b) / 2 == And(a / 2, b / 2)
  {
    if a == 0 || b == 0 {
      assert And(a / 2, b / 2) == 0;
    } else {
      var y := And(a / 2, b / 2);
      var bit := if a % 2 == 1 && b % 2 == 1 then 1 else 0;
      assert And(a, b) == 2 * y + bit;
    }
  }

  lemma OrRebuild(a: nat, b: nat)
    ensures Or(a, b) == 2 * Or(a / 2, b / 2) + (if a % 2 == 1 || b % 2 == 1 then 1 else 0)
  {
    OrStep(a, b);
  }

  lemma AndRebuild(a: nat, b: nat)
    ensures And(a, b) == 2 * And(a / 2, b / 2) + (if a % 2 == 1 && b % 2 == 1 then 1 else 0)
  {
    AndStep(a, b);
  }

  /** An AND is no larger than either operand. */
  lemma {:induction false} AndLe(a: nat, b: nat)
    ensures And(a, b) <= a && And(a, b) <= b
    decreases a + b
  {
    if a != 0 && b != 0 {
      AndLe(a / 2, b / 2);
    }
  }

  /** An OR is no smaller than either operand. */
  lemma {:induction false} OrGe(a: nat, b: nat)
    ensures a <= Or(a, b) && b <= Or(a, b)
    decreases a + b
  {
    if a != 0 && b != 0 {
      OrGe(a / 2, b / 2);
    }
  }

  /** An OR of two `k`-bit numbers has `k` bits. */
  lemma {:induction false} OrBound(a: nat, b: nat, k: nat)
    requires a < Pow2(k) && b < Pow2(k)
    ensures Or(a, b) < Pow2(k)
    decreases k
  {
    if k > 0 && a != 0 && b != 0 {
      OrBound(a / 2, b / 2, k - 1);
    } else if k == 0 {
      assert a == 0 && b == 0;
    }
  }

  lemma OrZero(a: nat)
    ensures Or(a, 0) == a && Or(0, a) == a
  {}

  lemma AndZero(a: nat)
    ensures And(a, 0) == 0 && And(0, a) == 0
  {}

  /** The low `k` bits of an OR are the OR of the low `k` bits. */
  lemma {:induction false} OrLo(a: nat, b: nat, k: nat)
    ensures Lo(Or(a, b), k) == Or(Lo(a, k), Lo(b, k))
    decreases k
  {
    if k > 0 {
      OrStep(a, b);
      OrLo(a / 2, b / 2, k - 1);
      OrRebuild(Lo(a, k), Lo(b, k));
    }
  }

  /** The bits of an OR above position `k` are the OR of the bits above `k`. */
  lemma {:induction false} OrHi(a: nat, b: nat, k: nat)
    ensures Hi(Or(a, b), k) == Or(Hi(a, k), Hi(b, k))
    decreases k
  {
    if k > 0 {
      OrStep(a, b);
      OrHi(a / 2, b / 2, k - 1);
    }
  }

  lemma {:induction false} AndLo(a: nat, b: nat, k: nat)
    ensures Lo(And(a, b), k) == And(Lo(a, k), Lo(b, k))
    decreases k
  {
    if k > 0 {
      var x, y := Lo(a, k), Lo(b, k);
      LoStep(a, k);
      LoStep(b, k);
      AndStep(a, b);
      AndLo(a / 2, b / 2, k - 1);
      AndRebuild(x, y);
      assert And(x, y) == 2 * And(Lo(a / 2, k - 1), Lo(b / 2, k - 1)) + (if a % 2 == 1 && b % 2 == 1 then 1 else 0);
    }
  }

  lemma {:induction false} AndHi(a: nat, b: nat, k: nat)
    ensures Hi(And(a, b), k) == And(Hi(a, k), Hi(b, k))
    decreases k
  {
    if k > 0 {
      AndStep(a, b);
      AndHi(a / 2, b / 2, k - 1);
    }
  }

  /** OR and AND act on each bit separately. */
  lemma OrBit(a: nat, b: nat, i: nat)
    ensures TestBit(Or(a, b), i) <==> TestBit(a, i) || TestBit(b, i)
  {
    OrHi(a, b, i);
    OrStep(Hi(a, i), Hi(b, i));
  }

  lemma AndBit(a: nat, b: nat, i: nat)
    ensures TestBit(And(a, b), i) <==> TestBit(a, i) && TestBit(b, i)
  {
    AndHi(a, b, i);
    AndStep(Hi(a, i), Hi(b, i));
  }

  // ---------------------------------------------------------------------
  // Masks
  // ---------------------------------------------------------------------

  lemma AndOddStep(a: nat, p: nat)
    requires p > 0
    ensures And(a, 2 * p - 1) == 2 * And(a / 2, p - 1) + a % 2
  {
    var m := 2 * p - 1;
    assert m / 2 == p - 1 && m % 2 == 1;
    AndRebuild(a, m);
  }

  lemma OrOddStep(a: nat, p: nat)
    requires p > 0
    ensures Or(a, 2 * p - 1) == 2 * Or(a / 2, p - 1) + 1
  {
    var m := 2 * p - 1;
    assert m / 2 == p - 1 && m % 2 == 1;
    OrRebuild(a, m);
  }

  /** `a & ((1 << k) - 1)` keeps the low `k` bits. */
  lemma {:induction false} AndLowOnes(a: nat, k: nat)
    ensures And(a, Pow2(k) - 1) == Lo(a, k)
    decreases k
  {
    if k > 0 {
      AndLowOnes(a / 2, k - 1);
      AndOddStep(a, Pow2(k - 1));
    }
  }

  lemma FillOnes(h: int, p: int, q: int)
    requires q == 2 * p
    ensures 2 * (h * p + p - 1) + 1 == h * q + q - 1
  {
    Mul2(h, p);
  }

  /** `a | ((1 << k) - 1)` sets the low `k` bits. */
  lemma {:induction false} OrLowOnes(a: nat, k: nat)
    ensures Or(a, Pow2(k) - 1) == Hi(a, k) * Pow2(k) + Pow2(k) - 1
    decreases k
  {
    if k > 0 {
      var p, q, h := Pow2(k - 1), Pow2(k), Hi(a / 2, k - 1);
      assert q == 2 * p && Hi(a, k) == h;
      assert Or(a / 2, p - 1) == h * p + p - 1 by { OrLowOnes(a / 2, k - 1); }
      assert Or(a, q - 1) == 2 * Or(a / 2, p - 1) + 1 by { OrOddStep(a, p); }
      FillOnes(h, p, q);
    }
  }

  /** OR of numbers whose bits do not overlap is their sum: `l` below bit
      `k`, `h * 2^k` at bit `k` and above. */
  lemma OrDisjoint(l: nat, h: nat, k: nat)
    requires l < Pow2(k)
    ensures Or(l, h * Pow2(k)) == h * Pow2(k) + l
  {
    Multiple(h, k);
    Small(l, k);
    OrLo(l, h * Pow2(k), k);
    OrHi(l, h * Pow2(k), k);
    JoinParts(Or(l, h * Pow2(k)), k, h, l);
  }

  lemma AndFieldParts(a: nat, m: nat, w: nat, s: nat)
    requires Hi(m, s) == Pow2(w) - 1 && Lo(m, s) == 0
    ensures Hi(And(a, m), s) == Lo(Hi(a, s), w) && Lo(And(a, m), s) == 0
  {
    AndLo(a, m, s);
    AndHi(a, m, s);
    AndLowOnes(Hi(a, s), w);
  }

  /** AND with the contiguous mask of `w` ones starting at bit `s`. */
  lemma AndField(a: nat, w: nat, s: nat, m: nat)
    requires m == (Pow2(w) - 1) * Pow2(s)
    ensures And(a, m) == Lo(Hi(a, s), w) * Pow2(s)
  {
    Multiple(Pow2(w) - 1, s);
    AndFieldParts(a, m, w, s);
    var x, h := And(a, m), Lo(Hi(a, s), w);
    JoinParts(x, s, h, 0);
  }

  /** `!((1 << k) - 1)` is the mask of the 64 - k bits from position `k`. */
  lemma NotLowOnes(k: nat)
    requires k <= 64
    ensures Pow2(k) - 1 < WORD
    ensures Not(Pow2(k) - 1) == (Pow2(64 - k) - 1) * Pow2(k)
  {
    Pow2Constants();
    Pow2Monotone(k, 64);
    Pow2Add(64 - k, k);
    MulSubOne(Pow2(64 - k), Pow2(k));
  }

  lemma MulSubOne(a: int, b: int)
    ensures (a - 1) * b == a * b - b
  {}

  /** `a & !((1 << k) - 1)` clears the low `k` bits of a word. */
  lemma AndNotLowOnes(a: u64, k: nat)
    requires k <= 64
    ensures Pow2(k) - 1 < WORD
    ensures And(a, Not(Pow2(k) - 1)) == Hi(a, k) * Pow2(k)
  {
    NotLowOnes(k);
    AndField(a, 64 - k, k, Not(Pow2(k) - 1));
    Pow2Constants();
    HiBound(a, k, 64 - k);
    Small(Hi(a, k), 64 - k);
  }
}
