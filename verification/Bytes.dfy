/** Byte strings as numbers: the host's little-endian loads, the wire's big-endian
    fields, and the byte swap that leads from one to the other.
 */
module Bytes {
  import opened Bits

  /** The bytes of one message, frame payload or order packet. */
  datatype Message = Message(bytes: seq<byte>)

  function Pow256(n: nat): (p: nat)
    ensures p >= 1
  {
    if n == 0 then 1 else 256 * Pow256(n - 1)
  }

  /** A little-endian load: what copying the bytes into a host word yields. */
  function FromLE(s: seq<byte>): (x: nat)
    ensures x < Pow256(|s|)
  {
    if s == [] then 0 else s[0] + 256 * FromLE(s[1..])
  }

  lemma Pow256Literals()
    ensures Pow256(1) == 0x100 && Pow256(2) == 0x1_0000 && Pow256(4) == 0x1_0000_0000
    ensures Pow256(6) == 0x1_0000_0000_0000 && Pow256(8) == 0x1_0000_0000_0000_0000
  {
    assert Pow256(2) == 256 * Pow256(1) && Pow256(4) == 256 * Pow256(3);
    assert Pow256(6) == 256 * Pow256(5) && Pow256(5) == 256 * Pow256(4);
    assert Pow256(8) == 256 * Pow256(7);
  }

  function LoadU16(s: seq<byte>, offset: nat): u16
    requires offset + 2 <= |s|
  {
    Pow256Literals();
    FromLE(s[offset..offset + 2])
  }

  function LoadU32(s: seq<byte>, offset: nat): u32
    requires offset + 4 <= |s|
  {
    Pow256Literals();
    FromLE(s[offset..offset + 4])
  }

  function LoadU64(s: seq<byte>, offset: nat): u64
    requires offset + 8 <= |s|
  {
    Pow256Literals();
    FromLE(s[offset..offset + 8])
  }

  function ToLE(n: nat, x: nat): (s: seq<byte>)
    ensures |s| == n
  {
    if n == 0 then [] else [x % 256] + ToLE(n - 1, x / 256)
  }

  /** Network byte order, most significant byte first. */
  function FromBE(s: seq<byte>): nat {
    if s == [] then 0 else 256 * FromBE(s[..|s| - 1]) + s[|s| - 1]
  }

  function ToBE(n: nat, x: nat): (s: seq<byte>)
    ensures |s| == n
  {
    if n == 0 then [] else ToBE(n - 1, x / 256) + [x % 256]
  }

  function Reversed(s: seq<byte>): (r: seq<byte>)
    ensures |r| == |s|
  {
    if s == [] then [] else Reversed(s[1..]) + [s[0]]
  }

  /** `__builtin_bswap` on an `n`-byte word. */
  function Bswap(n: nat, x: nat): nat {
    FromLE(Reversed(ToLE(n, x)))
  }

  lemma {:induction false} ReversedBelow(n: nat, x: nat)
    ensures Bswap(n, x) < Pow256(n)
  {
  }

  function Bswap16(x: u16): u16 {
    Pow256Literals();
    ReversedBelow(2, x);
    Bswap(2, x)
  }

  function Bswap32(x: u32): u32 {
    Pow256Literals();
    ReversedBelow(4, x);
    Bswap(4, x)
  }

  function Bswap64(x: u64): u64 {
    Pow256Literals();
    ReversedBelow(8, x);
    Bswap(8, x)
  }

  function Zeros(n: nat): (s: seq<byte>)
    ensures |s| == n && forall k :: 0 <= k < n ==> s[k] == 0
  {
    seq(n, k => 0)
  }

  lemma {:induction false} ToLEFromLE(s: seq<byte>)
    ensures ToLE(|s|, FromLE(s)) == s
  {
    if s != [] {
      ToLEFromLE(s[1..]);
      var x := FromLE(s);
      assert x % 256 == s[0] && x / 256 == FromLE(s[1..]);
      assert s == [s[0]] + s[1..];
    }
  }

  lemma {:induction false} FromLEToLE(n: nat, x: nat)
    requires x < Pow256(n)
    ensures FromLE(ToLE(n, x)) == x
  {
    if n > 0 {
      FromLEToLE(n - 1, x / 256);
      assert ToLE(n, x)[1..] == ToLE(n - 1, x / 256);
    }
  }

  lemma {:induction false} FromBEToBE(n: nat, x: nat)
    requires x < Pow256(n)
    ensures FromBE(ToBE(n, x)) == x
  {
    if n > 0 {
      FromBEToBE(n - 1, x / 256);
      assert ToBE(n, x)[..n - 1] == ToBE(n - 1, x / 256);
    }
  }

  lemma {:induction false} ReversedLast(s: seq<byte>)
    requires s != []
    ensures Reversed(s) == [s[|s| - 1]] + Reversed(s[..|s| - 1])
  {
    if |s| > 1 {
      ReversedLast(s[1..]);
      assert s[1..][..|s| - 2] == s[..|s| - 1][1..];
    }
  }

  lemma {:induction false} BEIsReversedLE(s: seq<byte>)
    ensures FromLE(Reversed(s)) == FromBE(s)
    decreases |s|
  {
    if s != [] {
      var t := s[..|s| - 1];
      BEIsReversedLE(t);
      ReversedLast(s);
    }
  }

  /** Load, then swap: the field as it stood on the wire. */
  lemma SwapOfLoad(s: seq<byte>)
    ensures Bswap(|s|, FromLE(s)) == FromBE(s)
  {
    ToLEFromLE(s);
    BEIsReversedLE(s);
  }

  /** Six bytes copied into a zeroed 64-bit word, swapped and shifted right by 16
      are the 48-bit field: the source's way to read a timestamp. */
  lemma SwapOfShortLoad(s: seq<byte>)
    requires |s| == 6
    ensures Bswap(8, FromLE(s + [0, 0])) / 0x1_0000 == FromBE(s)
  {
    SwapOfLoad(s + [0, 0]);
    assert (s + [0, 0])[..7] == s + [0] && (s + [0])[..6] == s;
    assert FromBE(s + [0]) == 256 * FromBE(s);
  }

  lemma Wire16(raw: seq<byte>, offset: nat)
    requires offset + 2 <= |raw|
    ensures Bswap16(LoadU16(raw, offset)) == FromBE(raw[offset..offset + 2])
  {
    SwapOfLoad(raw[offset..offset + 2]);
  }

  lemma Field16(raw: seq<byte>, offset: nat, x: u16)
    requires offset + 2 <= |raw| && raw[offset..offset + 2] == ToBE(2, x)
    ensures Bswap16(LoadU16(raw, offset)) == x
  {
    Pow256Literals();
    Wire16(raw, offset);
    FromBEToBE(2, x);
  }

  lemma Wire32(raw: seq<byte>, offset: nat)
    requires offset + 4 <= |raw|
    ensures Bswap32(LoadU32(raw, offset)) == FromBE(raw[offset..offset + 4])
  {
    SwapOfLoad(raw[offset..offset + 4]);
  }

  lemma Field32(raw: seq<byte>, offset: nat, x: u32)
    requires offset + 4 <= |raw| && raw[offset..offset + 4] == ToBE(4, x)
    ensures Bswap32(LoadU32(raw, offset)) == x
  {
    Pow256Literals();
    Wire32(raw, offset);
    FromBEToBE(4, x);
  }

  lemma Wire64(raw: seq<byte>, offset: nat)
    requires offset + 8 <= |raw|
    ensures Bswap64(LoadU64(raw, offset)) == FromBE(raw[offset..offset + 8])
  {
    SwapOfLoad(raw[offset..offset + 8]);
  }

  lemma Field64(raw: seq<byte>, offset: nat, x: u64)
    requires offset + 8 <= |raw| && raw[offset..offset + 8] == ToBE(8, x)
    ensures Bswap64(LoadU64(raw, offset)) == x
  {
    Pow256Literals();
    Wire64(raw, offset);
    FromBEToBE(8, x);
  }

  /** Cutting a concatenation at its seams gives the parts back. */
  lemma Seams(a: seq<byte>, b: seq<byte>, c: seq<byte>)
    ensures (a + b + c)[|a|..|a| + |b|] == b
  {
  }

  // ----- the bits of a byte string, least significant bit of the first byte first

  function DigitsOf(w: nat, s: seq<nat>): (b: seq<bool>)
    ensures |b| == w * |s|
  {
    if s == [] then [] else Digits(w, s[0]) + DigitsOf(w, s[1..])
  }

  function BitsOf(s: seq<byte>): (b: seq<bool>)
    ensures |b| == 8 * |s|
  {
    DigitsOf(8, s)
  }

  lemma SeqAssoc<T>(a: seq<T>, b: seq<T>, c: seq<T>)
    ensures a + b + c == a + (b + c)
  {
  }

  lemma {:induction false} DigitsOfSplit(w: nat, s: seq<nat>, t: seq<nat>)
    ensures DigitsOf(w, s + t) == DigitsOf(w, s) + DigitsOf(w, t)
  {
    if s == [] {
      assert s + t == t;
    } else {
      DigitsOfSplit(w, s[1..], t);
      assert (s + t)[1..] == s[1..] + t;
      SeqAssoc(Digits(w, s[0]), DigitsOf(w, s[1..]), DigitsOf(w, t));
    }
  }

  lemma BitsOfSplit(s: seq<byte>, t: seq<byte>)
    ensures BitsOf(s + t) == BitsOf(s) + BitsOf(t)
  {
    DigitsOfSplit(8, s, t);
  }

  lemma ShrTwo(x: nat, m: nat)
    requires m >= 2
    ensures Shr(x, m) == Shr(x / 4, m - 2)
  {
    assert Shr(x, m) == Shr(x / 2, m - 1);
  }

  lemma ShrEight(x: nat)
    ensures Shr(x, 8) == x / 256
  {
    ShrTwo(x, 8); ShrTwo(x / 4, 6); ShrTwo(x / 16, 4); ShrTwo(x / 64, 2);
  }

  lemma DigitsByte(n: nat, b: byte, x: nat)
    ensures Digits(8 + n, b + 256 * x) == Digits(8, b) + Digits(n, x)
  {
    var y := b + 256 * x;
    DigitsSplit(8, n, y);
    DigitsMod(8, y);
    Pow2Small();
    ShrEight(y);
    assert y % 256 == b && y / 256 == x;
  }

  /** The bits of the bytes are the digits of the word they load as. */
  lemma {:induction false} BitsOfLoad(s: seq<byte>)
    ensures BitsOf(s) == Digits(8 * |s|, FromLE(s))
  {
    if s != [] {
      BitsOfLoad(s[1..]);
      DigitsByte(8 * |s[1..]|, s[0], FromLE(s[1..]));
    }
  }

  lemma {:induction false} DigitsOfInjective(w: nat, s: seq<nat>, t: seq<nat>)
    requires |s| == |t| && DigitsOf(w, s) == DigitsOf(w, t)
    requires forall k :: 0 <= k < |s| ==> s[k] < Pow2(w) && t[k] < Pow2(w)
    ensures s == t
  {
    if s != [] {
      assert DigitsOf(w, s)[..w] == Digits(w, s[0]) && DigitsOf(w, t)[..w] == Digits(w, t[0]);
      assert DigitsOf(w, s)[w..] == DigitsOf(w, s[1..]) && DigitsOf(w, t)[w..] == DigitsOf(w, t[1..]);
      DigitsInjective(w, s[0], t[0]);
      DigitsOfInjective(w, s[1..], t[1..]);
      assert s == [s[0]] + s[1..] && t == [t[0]] + t[1..];
    }
  }

  lemma BitsOfInjective(s: seq<byte>, t: seq<byte>)
    requires |s| == |t| && BitsOf(s) == BitsOf(t)
    ensures s == t
  {
    Pow2Small();
    DigitsOfInjective(8, s, t);
  }
}
