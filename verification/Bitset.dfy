/** `HierarchicalBitset`: three levels of 64-bit words, most significant bit first,
    over the price ticks. A bit of an upper level is set exactly when the word below it
    is non-zero, so three count-zero instructions find the lowest or highest tick.
 */
module Bitset {
  import opened Bits

  const NO_TICK: u64 := 0xFFFF_FFFF_FFFF_FFFF // size_t(-1)
  const TICK_LIMIT: nat := 64 * 64 * 64

  /** Bit `i` of a word, counted from the most significant end. */
  predicate Has(w: u64, i: nat)
    requires i < 64
  {
    Bit(w, 63 - i)
  }

  lemma ZeroHasNothing(i: nat)
    requires i < 64
    ensures !Has(0, i)
  {
    ZeroBits(63 - i);
  }

  lemma WithBitFits(w: u64, i: nat)
    requires i < 64
    ensures Or(w, One(63 - i)) < 0x1_0000_0000_0000_0000
  {
    Pow2Literals();
    OrBelow(64, w, One(63 - i));
  }

  /** `w |= 1ULL << (63 - i)`. */
  function WithBit(w: u64, i: nat): u64
    requires i < 64
  {
    WithBitFits(w, i);
    Or(w, One(63 - i))
  }

  lemma WithBitHas(w: u64, i: nat, j: nat)
    requires i < 64 && j < 64
    ensures Has(WithBit(w, i), j) <==> j == i || Has(w, j)
  {
    SetDigit(w, 63 - i, 63 - j);
  }

  /** `w &= ~(1ULL << (63 - i))`. */
  function WithoutBit(w: u64, i: nat): u64
    requires i < 64
  {
    Pow2Literals();
    AndBelow(w, Not(64, One(63 - i)));
    And(w, Not(64, One(63 - i)))
  }

  lemma WithoutBitHas(w: u64, i: nat, j: nat)
    requires i < 64 && j < 64
    ensures Has(WithoutBit(w, i), j) <==> j != i && Has(w, j)
  {
    ClearDigit(w, 63 - i, 63 - j);
  }

  // ----- __builtin_clzll and __builtin_ctzll

  function LeadingZeros(n: nat, w: nat): (z: nat)
    requires 0 < w < Pow2(n)
    ensures z < n && Bit(w, n - 1 - z)
    ensures forall k :: 0 <= k < n && Bit(w, k) ==> k <= n - 1 - z
  {
    TopBit(n - 1, w);
    if w >= Pow2(n - 1) then 0 else 1 + LeadingZeros(n - 1, w)
  }

  function Clz(w: u64): (z: nat)
    requires w != 0
    ensures z < 64 && Has(w, z)
    ensures forall i :: 0 <= i < 64 && Has(w, i) ==> z <= i
  {
    Pow2Literals();
    LeadingZeros(64, w)
  }

  function TrailingZeros(n: nat, w: nat): (z: nat)
    requires 0 < w < Pow2(n)
    ensures z < n && Bit(w, z)
    ensures forall k :: 0 <= k && Bit(w, k) ==> z <= k
  {
    if w % 2 == 1 then 0 else 1 + TrailingZeros(n - 1, w / 2)
  }

  function Ctz(w: u64): (z: nat)
    requires w != 0
    ensures z < 64 && Has(w, 63 - z)
    ensures forall i :: 0 <= i < 64 && Has(w, i) ==> i <= 63 - z
  {
    Pow2Literals();
    TrailingZeros(64, w)
  }

  // ----- one level over the next

  /** Each bit of `up` tells whether the word of `down` it stands for is non-zero. */
  ghost predicate Summary(up: seq<u64>, down: seq<u64>) {
    && |down| <= 64 * |up|
    && forall v, i :: 0 <= v < |up| && 0 <= i < 64 ==>
         (Has(up[v], i) <==> 64 * v + i < |down| && down[64 * v + i] != 0)
  }

  /** The words of `f` hold exactly the ticks of the set. */
  ghost predicate Leaves(f: seq<u64>, ticks: set<nat>) {
    && (forall k :: k in ticks ==> k < 64 * |f|)
    && (forall w, i :: 0 <= w < |f| && 0 <= i < 64 ==> (Has(f[w], i) <==> 64 * w + i in ticks))
  }

  ghost predicate IsFirst(s: seq<u64>, w: nat) {
    w < |s| && s[w] != 0 && forall x :: 0 <= x < |s| && s[x] != 0 ==> w <= x
  }

  ghost predicate IsLast(s: seq<u64>, w: nat) {
    w < |s| && s[w] != 0 && forall x :: 0 <= x < |s| && s[x] != 0 ==> x <= w
  }

  ghost predicate IsLeast(ticks: set<nat>, m: nat) {
    m in ticks && forall k :: k in ticks ==> m <= k
  }

  ghost predicate IsGreatest(ticks: set<nat>, m: nat) {
    m in ticks && forall k :: k in ticks ==> k <= m
  }

  /** A non-zero word shows in the level above. */
  lemma ShowsAbove(up: seq<u64>, down: seq<u64>, w: nat)
    requires Summary(up, down) && w < |down| && down[w] != 0
    ensures w / 64 < |up| && Has(up[w / 64], w % 64) && up[w / 64] != 0
  {
    assert 64 * (w / 64) + w % 64 == w;
    ZeroHasNothing(w % 64);
  }

  lemma TickShows(f: seq<u64>, ticks: set<nat>, k: nat)
    requires Leaves(f, ticks) && k in ticks
    ensures k / 64 < |f| && Has(f[k / 64], k % 64) && f[k / 64] != 0
  {
    assert 64 * (k / 64) + k % 64 == k;
    ZeroHasNothing(k % 64);
  }

  /** From the first non-zero word of a level, counting leading zeros leads to the first
      non-zero word of the level below. */
  lemma DescendFirst(up: seq<u64>, down: seq<u64>, a: nat)
    requires Summary(up, down) && IsFirst(up, a)
    ensures IsFirst(down, 64 * a + Clz(up[a]))
  {
    forall x | 0 <= x < |down| && down[x] != 0 ensures 64 * a + Clz(up[a]) <= x {
      ShowsAbove(up, down, x);
    }
  }

  lemma DescendLast(up: seq<u64>, down: seq<u64>, a: nat)
    requires Summary(up, down) && IsLast(up, a)
    ensures IsLast(down, 64 * a + 63 - Ctz(up[a]))
  {
    var b := 63 - Ctz(up[a]);
    assert Has(up[a], b);
    forall x | 0 <= x < |down| && down[x] != 0 ensures x <= 64 * a + b {
      ShowsAbove(up, down, x);
    }
  }

  lemma LeafFirst(f: seq<u64>, ticks: set<nat>, w: nat)
    requires Leaves(f, ticks) && IsFirst(f, w)
    ensures IsLeast(ticks, 64 * w + Clz(f[w]))
  {
    forall k | k in ticks ensures 64 * w + Clz(f[w]) <= k {
      TickShows(f, ticks, k);
    }
  }

  lemma LeafLast(f: seq<u64>, ticks: set<nat>, w: nat)
    requires Leaves(f, ticks) && IsLast(f, w)
    ensures IsGreatest(ticks, 64 * w + 63 - Ctz(f[w]))
  {
    var c := 63 - Ctz(f[w]);
    assert Has(f[w], c);
    forall k | k in ticks ensures k <= 64 * w + c {
      TickShows(f, ticks, k);
    }
  }

  // ----- updates

  lemma LeafSet(f: seq<u64>, ticks: set<nat>, w: nat, c: nat)
    requires Leaves(f, ticks) && w < |f| && c < 64
    ensures Leaves(f[w := WithBit(f[w], c)], ticks + {64 * w + c})
    ensures WithBit(f[w], c) != 0
  {
    forall i | 0 <= i < 64 ensures Has(WithBit(f[w], c), i) <==> i == c || Has(f[w], i) {
      WithBitHas(f[w], c, i);
    }
    ZeroHasNothing(c);
  }

  lemma LeafClear(f: seq<u64>, ticks: set<nat>, w: nat, c: nat)
    requires Leaves(f, ticks) && w < |f| && c < 64
    ensures Leaves(f[w := WithoutBit(f[w], c)], ticks - {64 * w + c})
  {
    forall i | 0 <= i < 64 ensures Has(WithoutBit(f[w], c), i) <==> i != c && Has(f[w], i) {
      WithoutBitHas(f[w], c, i);
    }
  }

  /** A word below became, or stays, non-zero: set its bit. */
  lemma SummarySet(up: seq<u64>, down: seq<u64>, v: nat, b: nat, x: u64)
    requires Summary(up, down) && v < |up| && b < 64 && 64 * v + b < |down| && x != 0
    ensures Summary(up[v := WithBit(up[v], b)], down[64 * v + b := x])
    ensures WithBit(up[v], b) != 0
  {
    forall i | 0 <= i < 64 ensures Has(WithBit(up[v], b), i) <==> i == b || Has(up[v], i) {
      WithBitHas(up[v], b, i);
    }
    ZeroHasNothing(b);
  }

  /** A word below became zero: clear its bit. */
  lemma SummaryClear(up: seq<u64>, down: seq<u64>, v: nat, b: nat)
    requires Summary(up, down) && v < |up| && b < 64 && 64 * v + b < |down|
    ensures Summary(up[v := WithoutBit(up[v], b)], down[64 * v + b := 0])
  {
    forall i | 0 <= i < 64 ensures Has(WithoutBit(up[v], b), i) <==> i != b && Has(up[v], i) {
      WithoutBitHas(up[v], b, i);
    }
  }

  /** A word below changed without becoming or ceasing to be zero. */
  lemma SummaryKeep(up: seq<u64>, down: seq<u64>, w: nat, x: u64)
    requires Summary(up, down) && w < |down| && down[w] != 0 && x != 0
    ensures Summary(up, down[w := x])
  {
  }

  // ----- three levels, one set

  datatype Words = Words(first: seq<u64>, second: seq<u64>, third: u64)

  ghost predicate Levels(words: Words, ticks: set<nat>) {
    match words
    case Words(f, s, t) => Leaves(f, ticks) && Summary(s, f) && Summary([t], s)
  }

  lemma LevelsSet(f: seq<u64>, s: seq<u64>, t: u64, ticks: set<nat>, v: nat, b: nat, c: nat)
    requires Levels(Words(f, s, t), ticks)
    requires v < |s| && b < 64 && c < 64 && 64 * v + b < |f|
    ensures v < 64
    ensures var w := 64 * v + b;
            Levels(Words(f[w := WithBit(f[w], c)], s[v := WithBit(s[v], b)], WithBit(t, v)), ticks + {64 * w + c})
  {
    var w := 64 * v + b;
    LeafSet(f, ticks, w, c);
    SummarySet(s, f, v, b, WithBit(f[w], c));
    SummarySet([t], s, 0, v, WithBit(s[v], b));
    assert [t][0 := WithBit(t, v)] == [WithBit(t, v)];
  }

  lemma LevelsClear(f: seq<u64>, s: seq<u64>, t: u64, ticks: set<nat>, v: nat, b: nat, c: nat)
    requires Levels(Words(f, s, t), ticks)
    requires v < |s| && b < 64 && c < 64 && 64 * v + b < |f|
    ensures v < 64
    ensures var w := 64 * v + b;
            var x := WithoutBit(f[w], c);
            var y := WithoutBit(s[v], b);
            Levels(Words(f[w := x],
                         if x == 0 then s[v := y] else s,
                         if x == 0 && y == 0 then WithoutBit(t, v) else t),
                   ticks - {64 * w + c})
  {
    var w := 64 * v + b;
    var x, y := WithoutBit(f[w], c), WithoutBit(s[v], b);
    LeafClear(f, ticks, w, c);
    if x != 0 {
      SummaryKeep(s, f, w, x);
    } else {
      SummaryClear(s, f, v, b);
      if y != 0 {
        SummaryKeep([t], s, v, y);
      } else {
        SummaryClear([t], s, 0, v);
        assert [t][0 := WithoutBit(t, v)] == [WithoutBit(t, v)];
      }
    }
  }

  /** `x & 63`. */
  function Low6(x: nat): (r: nat)
    ensures r == x % 64
  {
    Pow2Small();
    AndMaskIsMod(x, 6);
    And(x, 63)
  }

  class HierarchicalBitset {
    const maxTicks: nat
    const first: array<u64>
    const second: array<u64>
    var third: u64
    ghost var ticks: set<nat>

    ghost predicate Valid()
      reads this, first, second
    {
      && maxTicks <= TICK_LIMIT
      && first != second
      && first.Length == (maxTicks + 63) / 64
      && second.Length == (first.Length + 63) / 64
      && (forall k :: k in ticks ==> k < maxTicks)
      && Levels(Words(first[..], second[..], third), ticks)
    }

    constructor (maxTicks: nat)
      requires maxTicks <= 262144
      ensures this.maxTicks == maxTicks && fresh(first) && fresh(second)
      ensures Valid() && ticks == {}
    {
      this.maxTicks := maxTicks;
      var words := (maxTicks + 63) / 64;
      first := new u64[words](_ => 0);
      second := new u64[(words + 63) / 64](_ => 0);
      third := 0;
      ticks := {};
      new;
      forall i | 0 <= i < 64 ensures !Has(0, i) { ZeroHasNothing(i); }
    }

    method SetPriceLevel(tick: nat)
      requires Valid() && tick < maxTicks
      modifies this, first, second
      ensures Valid() && ticks == old(ticks) + {tick}
    {
      hide Levels, WithBit, WithoutBit, Low6;
      ghost var f, s := first[..], second[..];
      var w, c := tick / 64, Low6(tick);
      var v, b := w / 64, Low6(w);
      LevelsSet(f, s, third, ticks, v, b, c);
      first[w] := WithBit(first[w], c);
      second[v] := WithBit(second[v], b);
      third := WithBit(third, Low6(v));
      ticks := ticks + {tick};
      assert first[..] == f[w := WithBit(f[w], c)] && second[..] == s[v := WithBit(s[v], b)];
    }

    method ClearPriceLevel(tick: nat)
      requires Valid() && tick < maxTicks
      modifies this, first, second
      ensures Valid() && ticks == old(ticks) - {tick}
    {
      hide Levels, WithBit, WithoutBit, Low6;
      ghost var f, s := first[..], second[..];
      var w, c := tick / 64, Low6(tick);
      LevelsClear(f, s, third, ticks, w / 64, Low6(w), c);
      var x := WithoutBit(first[w], c);
      first[w] := x;
      assert first[..] == f[w := x];
      ticks := ticks - {tick};
      if x == 0 {
        var v, b := w / 64, Low6(w);
        var y := WithoutBit(second[v], b);
        second[v] := y;
        assert second[..] == s[v := y];
        if y == 0 {
          third := WithoutBit(third, Low6(v));
        }
      }
    }

    lemma NoTicks()
      requires Valid() && third == 0
      ensures ticks == {}
    {
      forall k ensures k !in ticks {
        if k in ticks {
          TickShows(first[..], ticks, k);
          ShowsAbove(second[..], first[..], k / 64);
          ShowsAbove([third], second[..], k / 64 / 64);
        }
      }
    }

    function GetBestOffer(): (r: u64)
      requires Valid()
      reads this, first, second
      ensures if ticks == {} then r == NO_TICK else IsLeast(ticks, r)
    {
      if third == 0 then
        NoTicks();
        NO_TICK
      else
        DescendFirst([third], second[..], 0);
        var a := Clz(third);
        DescendFirst(second[..], first[..], a);
        var b := Clz(second[a]);
        LeafFirst(first[..], ticks, b + 64 * a);
        var c := Clz(first[b + 64 * a]);
        c + 64 * b + 4096 * a
    }

    function GetBestBid(): (r: u64)
      requires Valid()
      reads this, first, second
      ensures if ticks == {} then r == NO_TICK else IsGreatest(ticks, r)
    {
      if third == 0 then
        NoTicks();
        NO_TICK
      else
        DescendLast([third], second[..], 0);
        var a := 63 - Ctz(third);
        DescendLast(second[..], first[..], a);
        var b := 63 - Ctz(second[a]);
        LeafLast(first[..], ticks, b + 64 * a);
        var c := 63 - Ctz(first[b + 64 * a]);
        c + 64 * b + 4096 * a
    }
  }
}
