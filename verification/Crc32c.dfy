/** The checksum of a log frame: CRC32C (section 12.1 of RFC 3720) in its reflected,
    bit-serial form, with initial value 0 and no final complement, as the
    `_mm_crc32_u64` and `_mm_crc32_u32` instructions compute it.
 */
module Crc32c {
  import opened Bits
  import opened Bytes
  import opened Gf2

  const POLYNOMIAL: u32 := 0x82F6_3B78

  function FeedBack(c: u32): (r: u32)
    ensures r >= 0x8000_0000
  {
    Pow2Literals();
    XorTop(31, c / 2, POLYNOMIAL);
    Xor(c / 2, POLYNOMIAL)
  }

  /** Feed one message bit into the register. */
  function Feed(c: u32, b: bool): u32 {
    if b == (c % 2 == 1) then c / 2 else FeedBack(c)
  }

  function FeedAll(c: u32, bits: seq<bool>): u32
    decreases |bits|
  {
    if bits == [] then c else FeedAll(Feed(c, bits[0]), bits[1..])
  }

  /** `_mm_crc32_u64` and `_mm_crc32_u32`. */
  function Crc32U64(c: u32, w: u64): u32 { FeedAll(c, Digits(64, w)) }
  function Crc32U32(c: u32, w: u32): u32 { FeedAll(c, Digits(32, w)) }

  /** `calculate_crc32`: seven 64-bit words, then one 32-bit word. */
  function CalculateCrc32(data: seq<byte>): u32
    requires |data| >= 60
  {
    var c1 := Crc32U64(0, LoadU64(data, 0));
    var c2 := Crc32U64(c1, LoadU64(data, 8));
    var c3 := Crc32U64(c2, LoadU64(data, 16));
    var c4 := Crc32U64(c3, LoadU64(data, 24));
    var c5 := Crc32U64(c4, LoadU64(data, 32));
    var c6 := Crc32U64(c5, LoadU64(data, 40));
    var c7 := Crc32U64(c6, LoadU64(data, 48));
    Crc32U32(c7, LoadU32(data, 56))
  }

  // ----- the checksum is a serial division of the 480 message bits

  lemma {:induction false} FeedSplit(c: u32, a: seq<bool>, b: seq<bool>)
    ensures FeedAll(c, a + b) == FeedAll(FeedAll(c, a), b)
    decreases |a|
  {
    if a == [] {
      assert a + b == b;
    } else {
      FeedSplit(Feed(c, a[0]), a[1..], b);
      assert (a + b)[1..] == a[1..] + b;
    }
  }

  lemma FeedU64(c: u32, data: seq<byte>, offset: nat)
    requires offset + 8 <= |data|
    requires c == FeedAll(0, BitsOf(data[..offset]))
    ensures Crc32U64(c, LoadU64(data, offset)) == FeedAll(0, BitsOf(data[..offset + 8]))
  {
    var head, word := data[..offset], data[offset..offset + 8];
    assert data[..offset + 8] == head + word;
    BitsOfSplit(head, word);
    BitsOfLoad(word);
    FeedSplit(0, BitsOf(head), BitsOf(word));
  }

  lemma FeedU32(c: u32, data: seq<byte>, offset: nat)
    requires offset + 4 <= |data|
    requires c == FeedAll(0, BitsOf(data[..offset]))
    ensures Crc32U32(c, LoadU32(data, offset)) == FeedAll(0, BitsOf(data[..offset + 4]))
  {
    var head, word := data[..offset], data[offset..offset + 4];
    assert data[..offset + 4] == head + word;
    BitsOfSplit(head, word);
    BitsOfLoad(word);
    FeedSplit(0, BitsOf(head), BitsOf(word));
  }

  /** The unrolled word-at-a-time routine is the plain bit-serial checksum of the
      first 60 bytes. */
  lemma CalculateIsBitSerial(data: seq<byte>)
    requires |data| >= 60
    ensures CalculateCrc32(data) == FeedAll(0, BitsOf(data[..60]))
  {
    assert data[..0] == [];
    FeedU64(0, data, 0);
    var c1 := Crc32U64(0, LoadU64(data, 0));
    FeedU64(c1, data, 8);
    var c2 := Crc32U64(c1, LoadU64(data, 8));
    FeedU64(c2, data, 16);
    var c3 := Crc32U64(c2, LoadU64(data, 16));
    FeedU64(c3, data, 24);
    var c4 := Crc32U64(c3, LoadU64(data, 24));
    FeedU64(c4, data, 32);
    var c5 := Crc32U64(c4, LoadU64(data, 32));
    FeedU64(c5, data, 40);
    var c6 := Crc32U64(c5, LoadU64(data, 40));
    FeedU64(c6, data, 48);
    FeedU32(Crc32U64(c6, LoadU64(data, 48)), data, 56);
  }

  // ----- the checksum is the remainder of a polynomial division

  lemma TwoDigits(n: nat, x: nat)
    ensures Digits(2 + n, x) == [x % 2 == 1, x / 2 % 2 == 1] + Digits(n, x / 4)
  {
    assert Digits(1 + n, x / 2) == [x / 2 % 2 == 1] + Digits(n, x / 2 / 2);
  }

  lemma FourDigits(n: nat, x: nat)
    ensures Digits(4 + n, x) == [x % 2 == 1, x / 2 % 2 == 1, x / 4 % 2 == 1, x / 8 % 2 == 1] + Digits(n, x / 16)
  {
    hide Digits;
    TwoDigits(2 + n, x);
    TwoDigits(n, x / 4);
  }

  /** The digits of the feedback word are the generator's coefficients below x^32, that of
      x^31 first. */
  lemma PolynomialDigits(j: nat)
    requires j < 32
    ensures Digits(32, POLYNOMIAL)[j] <==> 31 - j in EXPONENTS
  {
    hide Digits;
    FourDigits(28, 0x82F63B78);
    FourDigits(24, 0x82F63B7);
    FourDigits(20, 0x82F63B);
    FourDigits(16, 0x82F63);
    FourDigits(12, 0x82F6);
    FourDigits(8, 0x82F);
    FourDigits(4, 0x82);
    FourDigits(0, 0x8);
  }

  lemma {:induction false} XorDigits(n: nat, x: nat, y: nat, j: nat)
    requires j < n
    ensures Digits(n, Xor(x, y))[j] == (Digits(n, x)[j] != Digits(n, y)[j])
  {
    XorHalves(x, y);
    if j > 0 { XorDigits(n - 1, x / 2, y / 2, j - 1); }
  }

  lemma {:induction false} HalfDigits(n: nat, x: nat, j: nat)
    requires j < n && x < Pow2(n)
    ensures Digits(n, x / 2)[j] == (j + 1 < n && Digits(n, x)[j + 1])
  {
    if j > 0 {
      HalfDigits(n - 1, x / 2, j - 1);
    } else if n > 1 {
      assert Digits(n, x)[1] == Digits(n - 1, x / 2)[0];
    }
  }

  lemma FirstDigit(n: nat, x: nat)
    requires n > 0
    ensures Digits(n, x)[0] == (x % 2 == 1)
  {
  }

  /** One message bit moves the digits down by one and adds the generator's. */
  lemma FeedDigits(c: u32, b: bool, j: nat)
    requires j < 32
    ensures Digits(32, Feed(c, b))[j] ==
            ((j < 31 && Digits(32, c)[j + 1]) != (b != Digits(32, c)[0] && 31 - j in EXPONENTS))
  {
    hide Digits;
    Pow2Literals();
    HalfDigits(32, c, j);
    XorDigits(32, c / 2, POLYNOMIAL, j);
    PolynomialDigits(j);
    FirstDigit(32, c);
  }

  /** What is still to be divided: the message bits to come times x^32, plus the register
      under the leading ones. */
  function ToDivide(c: u32, bits: seq<bool>): (p: seq<bool>)
    ensures |p| == |bits| + 32
  {
    Plus(bits + Zero(32), Digits(32, c) + Zero(|bits|))
  }

  lemma ToDivideAt(c: u32, bits: seq<bool>, k: nat)
    requires k < |bits| + 32
    ensures ToDivide(c, bits)[k] == ((k < |bits| && bits[k]) != (k < 32 && Digits(32, c)[k]))
  {
    hide Digits;
  }

  lemma FeedReducesAt(c: u32, bits: seq<bool>, k: nat)
    requires bits != [] && k < |bits| + 31
    ensures Reduced(ToDivide(c, bits))[k] == ToDivide(Feed(c, bits[0]), bits[1..])[k]
  {
    hide Digits, Feed, Reduced, ToDivide;
    ToDivideAt(c, bits, 0);
    ToDivideAt(c, bits, k + 1);
    ToDivideAt(Feed(c, bits[0]), bits[1..], k);
    if k < 32 { FeedDigits(c, bits[0], k); }
  }

  lemma FeedReduces(c: u32, bits: seq<bool>)
    requires bits != []
    ensures Reduced(ToDivide(c, bits)) == ToDivide(Feed(c, bits[0]), bits[1..])
  {
    hide Feed, Reduced, ToDivide;
    forall k | 0 <= k < |bits| + 31
      ensures Reduced(ToDivide(c, bits))[k] == ToDivide(Feed(c, bits[0]), bits[1..])[k]
    {
      FeedReducesAt(c, bits, k);
    }
  }

  lemma {:induction false} FeedDivides(c: u32, bits: seq<bool>)
    ensures Digits(32, FeedAll(c, bits)) == Remainder(ToDivide(c, bits))
    decreases |bits|
  {
    hide Digits, Feed, Reduced;
    if bits == [] {
      assert ToDivide(c, bits) == Digits(32, c);
    } else {
      FeedReduces(c, bits);
      FeedDivides(Feed(c, bits[0]), bits[1..]);
    }
  }

  /** The checksum, least significant digit first, is the remainder of the 480 message bits
      times x^32 on division by the generator. */
  lemma ChecksumIsRemainder(data: seq<byte>)
    requires |data| >= 60
    ensures Digits(32, CalculateCrc32(data)) == Remainder(BitsOf(data[..60]) + Zero(32))
  {
    hide CalculateCrc32, FeedAll, BitsOf, Remainder;
    CalculateIsBitSerial(data);
    var bits := BitsOf(data[..60]);
    FeedDivides(0, bits);
    ZeroDigits(32);
    assert ToDivide(0, bits) == bits + Zero(32);
  }

  // ----- linearity

  lemma {:induction false} XorBelow32(c: u32, d: u32)
    ensures Xor(c, d) < 0x1_0000_0000
  {
    Pow2Literals();
    XorBelow(32, c, d);
  }

  lemma FeedLinear(c: u32, d: u32, a: bool, b: bool)
    ensures Xor(c, d) < 0x1_0000_0000
    ensures Xor(Feed(c, a), Feed(d, b)) == Feed(Xor(c, d), a != b)
  {
    XorBelow32(c, d);
    XorHalves(c, d);
    XorCancel(c / 2, d / 2, POLYNOMIAL);
  }

  lemma {:induction false} FeedAllLinear(c: u32, d: u32, a: seq<bool>, b: seq<bool>)
    requires |a| == |b|
    ensures Xor(c, d) < 0x1_0000_0000
    ensures Xor(FeedAll(c, a), FeedAll(d, b)) == FeedAll(Xor(c, d), Plus(a, b))
    decreases |a|
  {
    XorBelow32(c, d);
    if a != [] {
      FeedLinear(c, d, a[0], b[0]);
      FeedAllLinear(Feed(c, a[0]), Feed(d, b[0]), a[1..], b[1..]);
      assert Plus(a, b)[1..] == Plus(a[1..], b[1..]);
    }
  }

  // ----- burst detection

  /** A register at or above 2^n stays non-zero while `n` arbitrary bits pass and
      then any number of zeros. */
  lemma {:induction false} StaysNonZero(c: u32, e: seq<bool>, n: nat)
    requires n <= 31 && c >= Pow2(n)
    requires forall k :: n <= k < |e| ==> !e[k]
    ensures FeedAll(c, e) != 0
    decreases |e|
  {
    if e != [] {
      Pow2Literals();
      if n == 0 {
        StaysNonZero(Feed(c, e[0]), e[1..], 0);
      } else {
        if n < 31 { Pow2Mono(n, 31); }
        StaysNonZero(Feed(c, e[0]), e[1..], n - 1);
      }
    }
  }

  /** An error pattern confined to 32 consecutive bits and leaving the register at
      zero is no error at all. */
  lemma {:induction false} BurstIsVisible(e: seq<bool>, i: nat)
    requires forall k :: 0 <= k < |e| && e[k] ==> i <= k < i + 32
    requires FeedAll(0, e) == 0
    ensures forall k :: 0 <= k < |e| ==> !e[k]
    decreases |e|
  {
    if e != [] {
      if e[0] {
        Pow2Literals();
        StaysNonZero(Feed(0, true), e[1..], 31);
        assert false;
      } else {
        BurstIsVisible(e[1..], if i == 0 then 0 else i - 1);
        assert forall k :: 1 <= k < |e| ==> e[k] == e[1..][k - 1];
      }
    }
  }

  /** Feeding a register its own digits shifts it out. */
  lemma {:induction false} SelfFeed(c: u32, n: nat)
    requires c < Pow2(n)
    ensures FeedAll(c, Digits(n, c)) == 0
    decreases n
  {
    if n > 0 {
      SelfFeed(c / 2, n - 1);
      assert Digits(n, c)[1..] == Digits(n - 1, c / 2);
    }
  }

  /** The register after a message determines the register before it. */
  lemma SameRegister(c: u32, d: u32, bits: seq<bool>)
    requires FeedAll(c, bits) == FeedAll(d, bits)
    ensures c == d
  {
    FeedAllLinear(c, d, bits, bits);
    XorZero(FeedAll(c, bits));
    var x := Xor(c, d);
    if x != 0 {
      StaysNonZero(x, Plus(bits, bits), 0);
    }
    XorEqual(c, d);
  }

  lemma SumMatches(c: u32, s: u32)
    ensures Crc32U32(c, s) == 0 <==> c == s
  {
    Pow2Literals();
    SelfFeed(s, 32);
    if Crc32U32(c, s) == 0 {
      SameRegister(c, s, Digits(32, s));
    }
  }

  /** A frame passes the checksum test exactly when its 512 bits, checksum included,
      leave the register at zero. */
  lemma IntactIsZeroRegister(frame: seq<byte>)
    requires |frame| == 64
    ensures CalculateCrc32(frame) == LoadU32(frame, 60) <==> FeedAll(0, BitsOf(frame)) == 0
  {
    CalculateIsBitSerial(frame);
    FeedU32(CalculateCrc32(frame), frame, 60);
    assert frame[..64] == frame;
    SumMatches(CalculateCrc32(frame), LoadU32(frame, 60));
  }

  ghost predicate DifferOnlyWithin(f: seq<byte>, g: seq<byte>, i: nat, n: nat) {
    && |f| == |g|
    && forall k :: 0 <= k < 8 * |f| && BitsOf(f)[k] != BitsOf(g)[k] ==> i <= k < i + n
  }

  /** Two intact frames that differ only within 32 consecutive bits, anywhere in the
      frame and at any alignment, are equal: every such burst is detected. */
  lemma BurstDetected(f: seq<byte>, g: seq<byte>, i: nat)
    requires |f| == 64 && |g| == 64 && DifferOnlyWithin(f, g, i, 32)
    requires CalculateCrc32(f) == LoadU32(f, 60) && CalculateCrc32(g) == LoadU32(g, 60)
    ensures f == g
  {
    IntactIsZeroRegister(f);
    IntactIsZeroRegister(g);
    var a, b := BitsOf(f), BitsOf(g);
    FeedAllLinear(0, 0, a, b);
    BurstIsVisible(Plus(a, b), i);
    assert a == b;
    BitsOfInjective(f, g);
  }
}
