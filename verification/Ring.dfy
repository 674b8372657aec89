/** Running numbers and the slots of a ring they fall into.
 */
module Ring {
  import opened Bits

  /** The slot of the item with running number `c`. */
  function Slot(c: nat, n: nat): (i: nat)
    requires n > 0
    ensures i < n
  {
    c % n
  }

  lemma SlotPlus(a: nat, d: nat, n: nat)
    requires d <= n && n > 0
    ensures Slot(a + d, n) == if Slot(a, n) + d < n then Slot(a, n) + d else Slot(a, n) + d - n
  {
    var q, r := a / n, a % n;
    if r + d < n {
      ModUnique(a + d, n, q, r + d);
    } else {
      assert n * q + n == n * (q + 1);
      ModUnique(a + d, n, q + 1, r + d - n);
    }
  }

  lemma SlotsDiffer(a: nat, b: nat, n: nat)
    requires n > 0 && a <= b < a + n
    ensures Slot(a, n) == Slot(b, n) <==> a == b
  {
    hide Slot;
    SlotPlus(a, b - a, n);
  }

  /** The next index meets the head seen exactly when the ring is full. */
  lemma RingFull(a: nat, b: nat, n: nat)
    requires n > 0 && a < b <= a + n
    ensures Slot(a, n) == Slot(b, n) <==> b == a + n
  {
    hide Slot;
    SlotPlus(a, b - a, n);
  }

  lemma SlotZero(n: nat)
    requires n > 0
    ensures Slot(0, n) == 0
  {
    ModUnique(0, n, 0, 0);
  }

  /** `(i + 1) % n` on the slot of `c`. */
  lemma SlotSuccessor(c: nat, n: nat)
    requires n > 0
    ensures (Slot(c, n) + 1) % n == Slot(c + 1, n)
  {
    var i := Slot(c, n);
    SlotZero(n);
    SlotPlus(c, 1, n);
    SlotPlus(0, i, n);
    SlotPlus(i, 1, n);
  }

  lemma SlotOffset(c: nat, d: nat, n: nat)
    requires n > 0 && d <= n
    ensures Slot(Slot(c, n) + d, n) == Slot(c + d, n)
  {
    var i := Slot(c, n);
    SlotZero(n);
    SlotPlus(0, i, n);
    hide Slot;
    SlotPlus(c, d, n);
    SlotPlus(i, d, n);
  }
}
