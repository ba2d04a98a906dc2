/** The size-class pool of byte slices: pkg/buffer/bytebufferpool.go. */
module BytePool {
  import opened Bytes

  const MIN_SHIFT: nat := 6
  const MAX_SHIFT: nat := 15
  const ERR_SLOT: int := -1

  function Pow2(n: nat): nat {
    if n == 0 then 1 else 2 * Pow2(n - 1)
  }

  lemma {:induction false} Pow2Increases(m: nat, n: nat)
    requires m < n
    ensures 0 < Pow2(m) < Pow2(n)
  {
    if m == 0 {
      if n > 1 { Pow2Increases(0, n - 1); }
    } else {
      Pow2Increases(m - 1, n - 1);
    }
  }

  lemma Twice(n: nat)
    requires n > 0
    ensures Pow2(n) == 2 * Pow2(n - 1)
  {
  }

  lemma Pow2Bounds()
    ensures Pow2(MIN_SHIFT) == 64 && Pow2(MAX_SHIFT) == 32768
  {
    assert Pow2(10) == 1024;
  }

  /** Whether a slice of this size is pooled at all. */
  predicate Pooled(size: int) {
    64 < size <= 32768
  }

  type Slots = seq<multiset<array<byte>>>

  /** A slot only holds arrays of its exact capacity. */
  ghost predicate ValidSlots(slots: Slots) {
    && |slots| == MAX_SHIFT - MIN_SHIFT + 1
    && forall i, a :: 0 <= i < |slots| && a in slots[i] ==> a.Length == Pow2(i + MIN_SHIFT)
  }

  ghost predicate DistinctSlots(slots: Slots) {
    forall i, a :: 0 <= i < |slots| && a in slots[i] ==> slots[i][a] == 1
  }

  ghost function Held(slots: Slots): set<array<byte>> {
    set i, a | 0 <= i < |slots| && a in slots[i] :: a
  }

  /** An array lies in no slot but its own. */
  lemma OwnSlot(slots: Slots, slot: nat, b: array<byte>)
    requires ValidSlots(slots) && slot < |slots| && b.Length == Pow2(slot + MIN_SHIFT)
    ensures b in Held(slots) <==> b in slots[slot]
  {
    hide Pow2;
    forall i | 0 <= i < |slots| && b in slots[i]
      ensures i == slot
    {
      if i < slot { Pow2Increases(i + MIN_SHIFT, slot + MIN_SHIFT); }
      if i > slot { Pow2Increases(slot + MIN_SHIFT, i + MIN_SHIFT); }
    }
  }

  lemma AfterTake(slots: Slots, slot: nat, b: array<byte>)
    requires ValidSlots(slots) && slot < |slots| && b in slots[slot]
    ensures var after := slots[slot := slots[slot] - multiset{b}];
            && ValidSlots(after) && Held(after) <= Held(slots) && b in Held(slots)
            && (DistinctSlots(slots) ==> DistinctSlots(after) && b !in Held(after))
  {
    hide Pow2;
    var after := slots[slot := slots[slot] - multiset{b}];
    assert forall i :: 0 <= i < |slots| ==> after[i] <= slots[i];
    OwnSlot(after, slot, b);
  }

  lemma AfterGive(slots: Slots, slot: nat, b: array<byte>)
    requires ValidSlots(slots) && slot < |slots| && b.Length == Pow2(slot + MIN_SHIFT)
    ensures var after := slots[slot := slots[slot] + multiset{b}];
            && ValidSlots(after) && Held(after) == Held(slots) + {b}
            && (DistinctSlots(slots) ==> (DistinctSlots(after) <==> b !in Held(slots)))
  {
    hide Pow2;
    var after := slots[slot := slots[slot] + multiset{b}];
    assert forall i :: 0 <= i < |slots| && i != slot ==> after[i] == slots[i];
    assert forall a :: a in after[slot] <==> a == b || a in slots[slot];
    assert after[slot][b] == slots[slot][b] + 1;
    OwnSlot(slots, slot, b);
  }

  /** One pool of arrays per power of two from 2^6 to 2^15; sync.Pool may hand back any array put, or none. */
  class ByteBufferPool {
    var slots: Slots

    ghost predicate Valid()
      reads this
    {
      ValidSlots(slots)
    }

    /** No array lies in the pool twice, so none can be handed out to two users. */
    ghost predicate Distinct()
      reads this
    {
      DistinctSlots(slots)
    }

    /** The arrays that lie in the pool, free to be handed out. */
    ghost function Free(): set<array<byte>>
      reads this
    {
      Held(slots)
    }

    constructor ()
      ensures Valid() && Distinct() && Free() == {}
    {
      slots := seq(MAX_SHIFT - MIN_SHIFT + 1, _ => multiset{});
    }

    /** The size class: the least power of two that is at least the size. */
    method Slot(size: int) returns (slot: int)
      ensures !Pooled(size) ==> slot == ERR_SLOT
      ensures Pooled(size) ==> 0 < slot <= MAX_SHIFT - MIN_SHIFT
                               && Pow2(slot + MIN_SHIFT - 1) < size <= Pow2(slot + MIN_SHIFT)
    {
      if size > 32768 || size <= 64 {
        return ERR_SLOT;
      }
      var rest, shift := size - 1, 0;
      while rest > 0
        invariant rest >= 0 && shift >= 0
        invariant rest * Pow2(shift) <= size - 1 < (rest + 1) * Pow2(shift)
        invariant shift > 0 ==> Pow2(shift - 1) <= size - 1
        decreases rest
      {
        HalvingStep(rest, Pow2(shift), size - 1);
        rest := rest / 2;
        shift := shift + 1;
      }
      Pow2Bounds();
      if shift <= MIN_SHIFT {
        if shift < MIN_SHIFT { Pow2Increases(shift, MIN_SHIFT); }
        assert false;
      }
      if shift > MAX_SHIFT {
        if shift - 1 > MAX_SHIFT { Pow2Increases(MAX_SHIFT, shift - 1); }
        assert false;
      }
      slot := shift - MIN_SHIFT;
    }

    /** Unless an array was given back twice, what is taken is out of the pool. */
    method Take(size: nat) returns (b: array<byte>)
      requires Valid()
      modifies this
      ensures Valid() && b.Length >= size && (!Pooled(size) ==> b.Length == size)
      ensures Pooled(size) ==> b.Length < 2 * size
      ensures fresh(b) || b in old(Free())
      ensures Free() <= old(Free())
      ensures old(Distinct()) ==> Distinct() && b !in Free()
    {
      hide Pow2, DistinctSlots;
      var slot := Slot(size);
      if slot == ERR_SLOT {
        b := new byte[size];
        return;
      }
      Twice(slot + MIN_SHIFT);
      if * {
        // the pool had nothing to give
        b := new byte[Pow2(slot + MIN_SHIFT)];
      } else if slots[slot] != multiset{} {
        b :| b in slots[slot];
        AfterTake(slots, slot, b);
        slots := slots[slot := slots[slot] - multiset{b}];
      } else {
        b := new byte[Pow2(slot + MIN_SHIFT)];
      }
    }

    /** The pool keeps the array if its capacity is pooled, even one it holds already. */
    method Give(b: array<byte>)
      requires Valid()
      modifies this
      ensures Valid()
      ensures var kept := Pooled(b.Length) && IsPow2(b.Length);
              && Free() == old(Free()) + (if kept then {b} else {})
              && (old(Distinct()) ==> (Distinct() <==> !kept || b !in old(Free())))
    {
      hide Pow2, Held, DistinctSlots;
      var size := b.Length;
      var slot := Slot(size);
      if slot == ERR_SLOT {
        return;
      }
      if size != Pow2(slot + MIN_SHIFT) {
        NotBetween(size, slot + MIN_SHIFT);
        return;
      }
      assert IsPow2(size);
      AfterGive(slots, slot, b);
      slots := slots[slot := slots[slot] + multiset{b}];
    }
  }

  predicate IsPow2(n: nat) {
    exists k :: 0 <= k <= MAX_SHIFT && n == Pow2(k)
  }

  /** Strictly between two successive powers of two there is none. */
  lemma NotBetween(n: nat, m: nat)
    requires m > 0 && Pow2(m - 1) < n < Pow2(m)
    ensures !IsPow2(n)
  {
    hide Pow2;
    forall k | 0 <= k <= MAX_SHIFT
      ensures n != Pow2(k)
    {
      if k < m - 1 { Pow2Increases(k, m - 1); }
      if k > m { Pow2Increases(m, k); }
    }
  }

  lemma Spread(x: nat, p: nat)
    ensures (x + 1) * p == x * p + p && (x > 0 ==> p <= x * p)
  {
    if x > 0 {
      assert x * p == (x - 1) * p + p;
    }
  }

  lemma HalvingStep(rest: nat, p: nat, n: nat)
    requires rest > 0 && rest * p <= n < (rest + 1) * p
    ensures (rest / 2) * (2 * p) <= n < (rest / 2 + 1) * (2 * p)
    ensures p <= n
  {
    var h := rest / 2;
    var d := 2 * h;
    assert h * (2 * p) == d * p && (h + 1) * (2 * p) == (d + 2) * p;
    Spread(d, p);
    Spread(d + 1, p);
    Spread(rest, p);
  }
}
