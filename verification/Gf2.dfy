/** Polynomials over the two-element field, and division by the generator of CRC32C.

    A polynomial is its sequence of coefficients, highest power first. Nothing here knows of
    registers or machine words.
 */
module Gf2 {
  /** The powers of the generator polynomial of section 12.1 of RFC 3720. */
  const EXPONENTS: set<nat> := {32, 28, 27, 26, 25, 23, 22, 20, 19, 18, 14, 13, 11, 10, 9, 8, 6, 0}

  function Zero(n: nat): (p: seq<bool>)
    ensures |p| == n && forall k :: 0 <= k < n ==> !p[k]
  {
    seq(n, _ => false)
  }

  /** Sum and difference are one operation. */
  function Plus(a: seq<bool>, b: seq<bool>): (e: seq<bool>)
    requires |a| == |b|
    ensures |e| == |a| && forall k :: 0 <= k < |a| ==> e[k] == (a[k] != b[k])
  {
    seq(|a|, k requires 0 <= k < |a| => a[k] != b[k])
  }

  /** The generator times the power of x that gives it `n` coefficients. */
  function Aligned(n: nat): (p: seq<bool>)
    requires n >= 33
    ensures |p| == n && forall k :: 0 <= k < n ==> p[k] == (k <= 32 && 32 - k in EXPONENTS)
  {
    seq(n, k => k <= 32 && 32 - k in EXPONENTS)
  }

  /** One step of long division: the generator is subtracted where it has its leading
      coefficient under that of `p`, and the leading coefficient, now 0, is dropped. */
  function Reduced(p: seq<bool>): (r: seq<bool>)
    requires |p| >= 33
    ensures |r| == |p| - 1
    ensures forall k :: 0 <= k < |r| ==> r[k] == (p[k + 1] != (p[0] && Aligned(|p|)[k + 1]))
  {
    (if p[0] then Plus(p, Aligned(|p|)) else p)[1..]
  }

  function Remainder(p: seq<bool>): (r: seq<bool>)
    ensures |r| == if |p| <= 32 then |p| else 32
    decreases |p|
  {
    if |p| <= 32 then p else Remainder(Reduced(p))
  }

  function Quotient(p: seq<bool>): (q: seq<bool>)
    requires |p| >= 32
    ensures |q| == |p| - 32
    decreases |p|
  {
    if |p| == 32 then [] else [p[0]] + Quotient(Reduced(p))
  }

  /** `q` times the generator. */
  function Multiple(q: seq<bool>): (p: seq<bool>)
    ensures |p| == |q| + 32
  {
    if q == [] then Zero(32)
    else Plus(if q[0] then Aligned(|q| + 32) else Zero(|q| + 32), [false] + Multiple(q[1..]))
  }

  lemma MultipleStep(b: bool, q: seq<bool>, k: nat)
    requires k < |q| + 33
    ensures Multiple([b] + q)[k] == ((b && Aligned(|q| + 33)[k]) != (k > 0 && Multiple(q)[k - 1]))
  {
    hide Aligned;
    assert ([b] + q)[1..] == q;
  }

  lemma LeadingOne(n: nat)
    requires n >= 33
    ensures Aligned(n)[0]
  {
  }

  lemma NoMultiple()
    ensures Multiple([]) == Zero(32)
  {
  }

  /** Long division does divide: a polynomial is a multiple of the generator plus a remainder
      of lower degree. */
  lemma {:induction false} DivisionIdentity(p: seq<bool>)
    requires |p| >= 32
    ensures p == Plus(Multiple(Quotient(p)), Zero(|p| - 32) + Remainder(p))
    decreases |p|
  {
    hide Multiple, Aligned, Reduced;
    if |p| == 32 {
      assert forall k :: 0 <= k < 32 ==> !Multiple([])[k] by { NoMultiple(); }
    } else {
      var r := Reduced(p);
      DivisionIdentity(r);
      var q := Quotient(r);
      var rest, rest' := Zero(|p| - 32) + Remainder(r), Zero(|r| - 32) + Remainder(r);
      forall k | 0 <= k < |p| ensures p[k] == (Multiple([p[0]] + q)[k] != rest[k]) {
        MultipleStep(p[0], q, k);
        if k > 0 {
          assert rest[k] == rest'[k - 1];
          assert r[k - 1] == (Multiple(q)[k - 1] != rest'[k - 1]);
        } else {
          LeadingOne(|p|);
        }
      }
    }
  }
}
