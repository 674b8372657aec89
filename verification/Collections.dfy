/** Counting facts about finite sets, maps and sequences that the standing pigeonhole
    arguments need.
 */
module Collections {
  datatype Option<+T> = None | Some(value: T)

  function Range(n: nat): (s: set<nat>)
    ensures forall k :: k in s <==> 0 <= k < n
  {
    if n == 0 then {} else Range(n - 1) + {n - 1}
  }

  lemma {:induction false} RangeSize(n: nat)
    ensures |Range(n)| == n
  {
    if n > 0 { RangeSize(n - 1); }
  }

  lemma {:induction false} SubsetSize<T>(a: set<T>, b: set<T>)
    requires a <= b
    ensures |a| <= |b|
    ensures |a| == |b| <==> a == b
  {
    assert b == a + (b - a);
  }

  /** An injective map onto a set has as many keys as the set has members. */
  lemma {:induction false} BijectionSize<K, V>(m: map<K, V>, s: set<V>)
    requires forall k, l :: k in m && l in m && m[k] == m[l] ==> k == l
    requires forall k :: k in m ==> m[k] in s
    requires forall v :: v in s ==> exists k :: k in m && m[k] == v
    ensures |m| == |s|
    decreases |s|
  {
    if s == {} {
      assert m.Keys == {};
    } else {
      var v :| v in s;
      var k :| k in m && m[k] == v;
      var rest := m - {k};
      assert m.Keys == rest.Keys + {k};
      forall w | w in s - {v} ensures exists l :: l in rest && rest[l] == w {
        var l :| l in m && m[l] == w;
        assert l in rest;
      }
      BijectionSize(rest, s - {v});
    }
  }

  ghost predicate NoDup<T>(s: seq<T>) {
    forall i, j :: 0 <= i < j < |s| ==> s[i] != s[j]
  }

  lemma {:induction false} NoDupSize<T>(s: seq<T>, m: set<T>)
    requires NoDup(s)
    requires forall x :: x in s <==> x in m
    ensures |s| == |m|
    decreases |s|
  {
    if s == [] {
      assert m == {};
    } else {
      var t := s[..|s| - 1];
      var x := s[|s| - 1];
      assert s == t + [x];
      NoDupSize(t, m - {x});
    }
  }

  /** `s` without the element at `k`. */
  function Without<T>(s: seq<T>, k: nat): (r: seq<T>)
    requires k < |s|
  {
    s[..k] + s[k + 1..]
  }

  lemma WithoutMembers<T>(s: seq<T>, k: nat)
    requires k < |s| && NoDup(s)
    ensures NoDup(Without(s, k))
    ensures forall x :: x in Without(s, k) <==> x in s && x != s[k]
  {
    forall x | x in s && x != s[k] ensures x in Without(s, k) {
      var j :| 0 <= j < |s| && s[j] == x;
      if j < k {
        assert Without(s, k)[j] == x;
      } else {
        assert Without(s, k)[j - 1] == x;
      }
    }
  }
}
