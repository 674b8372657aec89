/** Machine words as natural numbers.

    Every bitwise operator of the source works on an unsigned word, so a word is a
    `nat` below a power of two and each operator is defined on the binary digits.
    The lemmas say what the digits of a result are, and turn the source's masks into
    arithmetic.
 */
module Bits {
  type byte = x: nat | x < 0x100
  type u16 = x: nat | x < 0x1_0000
  type u32 = x: nat | x < 0x1_0000_0000
  type u64 = x: nat | x < 0x1_0000_0000_0000_0000

  function Pow2(n: nat): (p: nat)
    ensures p >= 1
  {
    if n == 0 then 1 else 2 * Pow2(n - 1)
  }

  /** Digit `k` of `x`, the least significant digit being digit 0. */
  predicate Bit(x: nat, k: nat) {
    if k == 0 then x % 2 == 1 else Bit(x / 2, k - 1)
  }

  function Digit(b: bool): nat {
    if b then 1 else 0
  }

  function And(x: nat, y: nat): nat {
    if x == 0 || y == 0 then 0
    else 2 * And(x / 2, y / 2) + Digit(x % 2 == 1 && y % 2 == 1)
  }

  function Or(x: nat, y: nat): nat {
    if x == 0 then y
    else 2 * Or(x / 2, y / 2) + Digit(x % 2 == 1 || y % 2 == 1)
  }

  function Xor(x: nat, y: nat): nat {
    if x == 0 then y
    else 2 * Xor(x / 2, y / 2) + Digit((x % 2 == 1) != (y % 2 == 1))
  }

  /** `~x` on `n` bits. */
  function Not(n: nat, x: nat): nat
    requires x < Pow2(n)
  {
    Pow2(n) - 1 - x
  }

  // ----- digits of the results

  lemma {:induction false} ZeroBits(k: nat)
    ensures !Bit(0, k)
  {
    if k > 0 { ZeroBits(k - 1); }
  }

  lemma {:induction false} AndBit(x: nat, y: nat, k: nat)
    ensures Bit(And(x, y), k) <==> Bit(x, k) && Bit(y, k)
  {
    ZeroBits(k);
    if x != 0 && y != 0 && k > 0 { AndBit(x / 2, y / 2, k - 1); }
  }

  lemma {:induction false} OrBit(x: nat, y: nat, k: nat)
    ensures Bit(Or(x, y), k) <==> Bit(x, k) || Bit(y, k)
  {
    ZeroBits(k);
    if x != 0 && k > 0 { OrBit(x / 2, y / 2, k - 1); }
  }

  lemma {:induction false} NotBit(n: nat, x: nat, k: nat)
    requires x < Pow2(n) && k < n
    ensures Bit(Not(n, x), k) <==> !Bit(x, k)
  {
    if k > 0 {
      assert Not(n, x) / 2 == Not(n - 1, x / 2);
      NotBit(n - 1, x / 2, k - 1);
    }
  }

  lemma {:induction false} Pow2Bit(n: nat, k: nat)
    ensures Bit(Pow2(n), k) <==> k == n
  {
    if k > 0 {
      if n == 0 { ZeroBits(k - 1); } else { Pow2Bit(n - 1, k - 1); }
    }
  }

  lemma SetDigit(x: nat, a: nat, b: nat)
    ensures Bit(Or(x, Pow2(a)), b) <==> b == a || Bit(x, b)
  {
    OrBit(x, Pow2(a), b);
    Pow2Bit(a, b);
  }

  lemma {:induction false} Pow2Mono(a: nat, b: nat)
    requires a < b
    ensures 2 * Pow2(a) <= Pow2(b)
  {
    if a + 1 < b { Pow2Mono(a, b - 1); }
  }

  lemma Pow2Six(n: nat)
    ensures Pow2(n + 6) == 64 * Pow2(n)
  {
    assert Pow2(n + 2) == 4 * Pow2(n) && Pow2(n + 4) == 4 * Pow2(n + 2);
  }

  lemma Pow2Eight(n: nat)
    ensures Pow2(n + 8) == 0x100 * Pow2(n)
  {
    Pow2Six(n);
  }

  lemma Pow2Small()
    ensures Pow2(6) == 64 && Pow2(8) == 0x100 && Pow2(13) == 0x2000
    ensures Pow2(16) == 0x1_0000 && Pow2(22) == 0x40_0000
  {
    Pow2Six(0); Pow2Eight(0); Pow2Eight(8); Pow2Six(16);
    assert Pow2(5) == 32 && Pow2(13) == 0x100 * Pow2(5) by { Pow2Eight(5); }
  }

  lemma Pow2Literals()
    ensures Pow2(6) == 64 && Pow2(8) == 0x100 && Pow2(13) == 0x2000
    ensures Pow2(22) == 0x40_0000 && Pow2(31) == 0x8000_0000 && Pow2(32) == 0x1_0000_0000
    ensures Pow2(64) == 0x1_0000_0000_0000_0000
  {
    Pow2Small();
    Pow2Eight(16); Pow2Eight(24);
    Pow2Eight(32); Pow2Eight(40); Pow2Eight(48); Pow2Eight(56);
    assert Pow2(31) == 2 * Pow2(30) by { Pow2Six(24); }
  }

  /** `1ULL << k`. */
  function One(k: nat): u64
    requires k < 64
  {
    Pow2Literals();
    Pow2Mono(k, 64);
    Pow2(k)
  }

  lemma ClearDigit(x: u64, a: nat, b: nat)
    requires a < 64 && b < 64
    ensures One(a) < Pow2(64)
    ensures Bit(And(x, Not(64, One(a))), b) <==> b != a && Bit(x, b)
  {
    Pow2Literals();
    AndBit(x, Not(64, One(a)), b);
    NotBit(64, One(a), b);
    Pow2Bit(a, b);
  }

  lemma {:induction false} OrBelow(n: nat, x: nat, y: nat)
    requires x < Pow2(n) && y < Pow2(n)
    ensures Or(x, y) < Pow2(n)
  {
    if x != 0 { OrBelow(n - 1, x / 2, y / 2); }
  }

  lemma {:induction false} AndBelow(x: nat, y: nat)
    ensures And(x, y) <= x
  {
    if x != 0 && y != 0 { AndBelow(x / 2, y / 2); }
  }

  // ----- masks as arithmetic

  lemma MulMono(d: nat, a: nat, b: nat)
    requires a <= b
    ensures d * a <= d * b
  {
  }

  lemma ModUnique(x: nat, d: nat, q: nat, r: nat)
    requires d > 0 && r < d && x == d * q + r
    ensures x % d == r && x / d == q
  {
    var q', r' := x / d, x % d;
    assert d * q + r == d * q' + r';
    if q < q' {
      MulMono(d, q + 1, q');
    } else if q > q' {
      MulMono(d, q' + 1, q);
    }
  }

  lemma HalveMod(x: nat, h: nat)
    requires h >= 1
    ensures x % (2 * h) == 2 * (x / 2 % h) + x % 2
  {
    var q, r := x / 2 / h, x / 2 % h;
    assert x == (2 * h) * q + (2 * r + x % 2);
    ModUnique(x, 2 * h, q, 2 * r + x % 2);
  }

  lemma AndOdd(x: nat, y: nat)
    requires x > 0 && y % 2 == 1
    ensures And(x, y) == 2 * And(x / 2, y / 2) + x % 2
  {
  }

  lemma MaskStep(x: nat, h: nat)
    requires x > 0 && h >= 1
    requires And(x / 2, h - 1) == x / 2 % h
    ensures And(x, 2 * h - 1) == x % (2 * h)
  {
    hide And;
    assert (2 * h - 1) / 2 == h - 1 && (2 * h - 1) % 2 == 1;
    AndOdd(x, 2 * h - 1);
    HalveMod(x, h);
  }

  /** `x & (2^k - 1)` keeps the low `k` digits: the source's replacement for `%`. */
  lemma {:induction false} AndMaskIsMod(x: nat, k: nat)
    ensures And(x, Pow2(k) - 1) == x % Pow2(k)
  {
    if x == 0 {
      ModUnique(0, Pow2(k), 0, 0);
    } else if k > 0 {
      AndMaskIsMod(x / 2, k - 1);
      MaskStep(x, Pow2(k - 1));
    }
  }

  /** `x & 2^k` is non-zero exactly when digit `k` of `x` is set. */
  lemma {:induction false} AndPow2(x: nat, k: nat)
    ensures And(x, Pow2(k)) != 0 <==> Bit(x, k)
  {
    if x == 0 {
      ZeroBits(k);
    } else if k > 0 {
      AndPow2(x / 2, k - 1);
    }
  }

  /** `2^k | x` adds the tag when `x` lies below it. */
  lemma {:induction false} OrPow2(k: nat, x: nat)
    requires x < Pow2(k)
    ensures Or(Pow2(k), x) == Pow2(k) + x
  {
    if k > 0 { OrPow2(k - 1, x / 2); }
  }

  lemma {:induction false} TopBit(k: nat, x: nat)
    requires x < 2 * Pow2(k)
    ensures Bit(x, k) <==> x >= Pow2(k)
  {
    if k > 0 { TopBit(k - 1, x / 2); }
  }

  /** A word with one tag bit above `k` index bits splits back into tag and index. */
  lemma SplitTag(k: nat, x: nat)
    requires x < 2 * Pow2(k)
    ensures And(x, Pow2(k) - 1) == if x >= Pow2(k) then x - Pow2(k) else x
    ensures And(x, Pow2(k)) != 0 <==> x >= Pow2(k)
  {
    AndMaskIsMod(x, k);
    AndPow2(x, k);
    TopBit(k, x);
    if x >= Pow2(k) { ModUnique(x, Pow2(k), 1, x - Pow2(k)); } else { ModUnique(x, Pow2(k), 0, x); }
  }

  // ----- exclusive or

  lemma {:induction false} XorZero(x: nat)
    ensures Xor(x, 0) == x
    ensures Xor(x, x) == 0
  {
    if x != 0 { XorZero(x / 2); }
  }

  lemma XorHalves(x: nat, y: nat)
    ensures Xor(x, y) / 2 == Xor(x / 2, y / 2)
    ensures Xor(x, y) % 2 == Digit((x % 2 == 1) != (y % 2 == 1))
  {
  }

  /** Equal operands on both sides cancel; a lone operand moves out. */
  lemma {:induction false} XorCancel(x: nat, y: nat, p: nat)
    ensures Xor(Xor(x, p), Xor(y, p)) == Xor(x, y)
    ensures Xor(Xor(x, p), y) == Xor(Xor(x, y), p)
    ensures Xor(x, Xor(y, p)) == Xor(Xor(x, y), p)
    decreases x + y + p
  {
    XorHalves(x, y); XorHalves(x, p); XorHalves(y, p);
    XorHalves(Xor(x, p), Xor(y, p)); XorHalves(Xor(x, p), y); XorHalves(x, Xor(y, p)); XorHalves(Xor(x, y), p);
    if x + y + p > 0 { XorCancel(x / 2, y / 2, p / 2); }
  }

  /** The larger of two words keeps its top digit. */
  lemma {:induction false} XorTop(n: nat, x: nat, y: nat)
    requires x < Pow2(n) <= y < 2 * Pow2(n)
    ensures Pow2(n) <= Xor(x, y) < 2 * Pow2(n)
  {
    if x != 0 && n > 0 { XorTop(n - 1, x / 2, y / 2); }
  }

  lemma {:induction false} XorBelow(n: nat, x: nat, y: nat)
    requires x < Pow2(n) && y < Pow2(n)
    ensures Xor(x, y) < Pow2(n)
  {
    if x != 0 { XorBelow(n - 1, x / 2, y / 2); }
  }

  lemma {:induction false} XorEqual(x: nat, y: nat)
    requires Xor(x, y) == 0
    ensures x == y
  {
    if x != 0 { XorEqual(x / 2, y / 2); }
  }

  // ----- a word as its digits, least significant first

  function Digits(n: nat, x: nat): (s: seq<bool>)
    ensures |s| == n
  {
    if n == 0 then [] else [x % 2 == 1] + Digits(n - 1, x / 2)
  }

  lemma {:induction false} ZeroDigits(n: nat)
    ensures Digits(n, 0) == seq(n, _ => false)
  {
    if n > 0 { ZeroDigits(n - 1); }
  }

  /** `x >> m`. */
  function Shr(x: nat, m: nat): nat {
    if m == 0 then x else Shr(x / 2, m - 1)
  }

  lemma {:induction false} DigitsSplit(m: nat, n: nat, x: nat)
    ensures Digits(m + n, x) == Digits(m, x) + Digits(n, Shr(x, m))
  {
    if m > 0 {
      DigitsSplit(m - 1, n, x / 2);
      assert Digits(m + n, x) == [x % 2 == 1] + (Digits(m - 1, x / 2) + Digits(n, Shr(x / 2, m - 1)));
    }
  }

  lemma {:induction false} DigitsMod(n: nat, x: nat)
    ensures Digits(n, x % Pow2(n)) == Digits(n, x)
  {
    if n > 0 {
      HalveMod(x, Pow2(n - 1));
      DigitsMod(n - 1, x / 2);
    }
  }

  lemma {:induction false} DigitsInjective(n: nat, x: nat, y: nat)
    requires x < Pow2(n) && y < Pow2(n)
    requires Digits(n, x) == Digits(n, y)
    ensures x == y
  {
    if n > 0 {
      assert Digits(n, x)[0] == Digits(n, y)[0];
      assert Digits(n, x)[1..] == Digits(n - 1, x / 2) && Digits(n, y)[1..] == Digits(n - 1, y / 2);
      DigitsInjective(n - 1, x / 2, y / 2);
    }
  }
}
