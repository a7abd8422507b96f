/** The search for a free command slot in disk.c. */
module AhciSlots {
  import opened CInt

  function Shr(s: nat, k: nat): nat {
    if k == 0 then s else Shr(s / 2, k - 1)
  }

  predicate BitSet(s: nat, k: nat) {
    Shr(s, k) % 2 == 1
  }

  function TrailingOnes(s: nat): nat {
    if s % 2 == 1 then 1 + TrailingOnes(s / 2) else 0
  }

  /** What the search gives: the number of trailing one bits, while it is below what is left of the word. */
  function FoundSlot(slots: nat): (slot: int)
    ensures slot >= -1
  {
    var t := TrailingOnes(slots);
    if t < Shr(slots, t) then t else -1
  }

  /** The trailing ones end at the lowest clear bit. */
  lemma {:induction false} LowestClearBit(s: nat, k: nat)
    ensures k < TrailingOnes(s) ==> BitSet(s, k)
    ensures k == TrailingOnes(s) ==> !BitSet(s, k)
  {
    if k > 0 && s % 2 == 1 {
      LowestClearBit(s / 2, k - 1);
    }
  }

  lemma {:induction false} ShrSmaller(s: nat, k: nat)
    ensures Shr(s, k) <= s
  {
    if k > 0 {
      ShrSmaller(s / 2, k - 1);
    }
  }

  function Pow2(k: nat): nat {
    if k == 0 then 1 else 2 * Pow2(k - 1)
  }

  lemma {:induction false} TrailingOnesBound(s: nat, n: nat)
    requires s < Pow2(n)
    ensures TrailingOnes(s) <= n
    ensures Shr(s, TrailingOnes(s)) < Pow2(n - TrailingOnes(s))
    decreases n
  {
    if s % 2 == 1 {
      TrailingOnesBound(s / 2, n - 1);
    }
  }

  lemma PowersOfTwo()
    ensures Pow2(32) == TWO_32
    ensures Pow2(0) == 1 && Pow2(1) == 2 && Pow2(2) == 4 && Pow2(3) == 8 && Pow2(4) == 16
  {
    assert Pow2(8) == 256;
    assert Pow2(16) == Pow2(8) * 256;
    assert Pow2(24) == Pow2(16) * 256;
    assert Pow2(32) == Pow2(24) * 256;
  }

  /** A slot that is returned is free, is the lowest free one, and is below 28. */
  lemma FoundSlotIsFree(slots: Uint32)
    requires FoundSlot(slots) >= 0
    ensures
      var t := FoundSlot(slots);
      t < 28 && !BitSet(slots, t) && forall k :: 0 <= k < t ==> BitSet(slots, k)
  {
    var t := TrailingOnes(slots);
    LowestClearBit(slots, t);
    forall k | 0 <= k < t
      ensures BitSet(slots, k)
    {
      LowestClearBit(slots, k);
    }
    PowersOfTwo();
    TrailingOnesBound(slots, 32);
    hide TrailingOnes, Shr, Pow2;
  }

  lemma {:induction false} SomeBit(s: nat)
    requires s > 0
    ensures exists j: nat :: BitSet(s, j)
    decreases s
  {
    if s % 2 == 1 {
      assert BitSet(s, 0);
    } else {
      SomeBit(s / 2);
      var j: nat :| BitSet(s / 2, j);
      assert BitSet(s, j + 1);
    }
  }

  lemma {:induction false} ShrShr(s: nat, j: nat, k: nat)
    ensures Shr(Shr(s, j), k) == Shr(s, j + k)
    decreases j
  {
    if j > 0 {
      ShrShr(s / 2, j - 1, k);
    }
  }

  /** The lowest free slot is found only when some slot above it is in use. */
  lemma FoundBelowABusySlot(slots: nat)
    requires FoundSlot(slots) >= 0
    ensures exists j: nat :: j > FoundSlot(slots) && BitSet(slots, j)
  {
    var t := TrailingOnes(slots);
    LowestClearBit(slots, t);
    SomeBit(Shr(slots, t));
    var j: nat :| BitSet(Shr(slots, t), j);
    ShrShr(slots, t, j);
    assert BitSet(slots, t + j);
    assert j != 0;
  }

  lemma QuotientIs(x: nat, p: nat, q: nat, r: nat)
    requires p > 0 && r < p && x == q * p + r
    ensures x / p == q
  {
    var d: int := x / p - q;
    assert x == x / p * p + x % p;
    assert d * p == r - x % p;
    if d != 0 {
      NoSmallMultiple(d, p);
    }
  }

  lemma HalvedTwice(s: nat, p: nat)
    requires p > 0
    ensures s / 2 / p == s / (2 * p)
  {
    var q, r := s / 2 / p, s / 2 % p;
    assert s / 2 == q * p + r;
    assert s == q * (2 * p) + (2 * r + s % 2);
    QuotientIs(s, 2 * p, q, 2 * r + s % 2);
  }

  lemma {:induction false} ShrDivides(s: nat, k: nat)
    ensures Pow2(k) > 0 && Shr(s, k) == s / Pow2(k)
    decreases k
  {
    if k > 0 {
      ShrDivides(s / 2, k - 1);
      HalvedTwice(s, Pow2(k - 1));
    }
  }

  /** Bit `k` of the word is set. */
  predicate Taken(slots: nat, k: nat) {
    Pow2(k) > 0 && slots / Pow2(k) % 2 == 1
  }

  /** When the search finds anything: it finds the lowest free slot iff its number is below what is left of
      the word when that slot's bit has come to the bottom. */
  lemma FoundIff(slots: nat, t: nat)
    requires !Taken(slots, t) && forall k :: 0 <= k < t ==> Taken(slots, k)
    ensures Pow2(t) > 0 && FoundSlot(slots) == if t < slots / Pow2(t) then t else -1
  {
    hide Shr, Pow2;
    var ones := TrailingOnes(slots);
    LowestClearBit(slots, t);
    LowestClearBit(slots, ones);
    ShrDivides(slots, t);
    ShrDivides(slots, ones);
    var taken := Taken(slots, ones);
  }

  /** With the low slots busy and all others free nothing is found; in particular on an idle port. */
  lemma {:induction false} FirstFreeIsMissed(n: nat)
    ensures Pow2(n) >= 1 && FoundSlot(Pow2(n) - 1) == -1
    ensures FoundSlot(0) == -1
  {
    OnesOnly(n);
  }

  lemma {:induction false} OnesOnly(n: nat)
    ensures Pow2(n) >= 1
    ensures TrailingOnes(Pow2(n) - 1) == n && Shr(Pow2(n) - 1, n) == 0
  {
    if n > 0 {
      OnesOnly(n - 1);
      assert (Pow2(n) - 1) / 2 == Pow2(n - 1) - 1;
    }
  }

  lemma OnesStep(s: nat)
    requires s % 2 == 1
    ensures TrailingOnes(s) == 1 + TrailingOnes(s / 2)
  {
  }

  lemma ShrStep(s: nat, k: nat)
    ensures Shr(s, k + 1) == Shr(s / 2, k)
  {
  }

  /** One round of the search loop keeps the answer. */
  lemma SearchStep(s: nat)
    requires s % 2 == 1
    ensures TrailingOnes(s) == TrailingOnes(s / 2) + 1
    ensures Shr(s, TrailingOnes(s)) == Shr(s / 2, TrailingOnes(s / 2))
  {
    hide TrailingOnes, Shr;
    OnesStep(s);
    ShrStep(s, TrailingOnes(s / 2));
  }

  /** The slots that are set in either register. */
  function InUse(sact: bv32, ci: bv32): Uint32 {
    (sact | ci) as int
  }

  /** `find_cmdslot`: the bound of the loop is the word that the loop itself shifts. */
  method FindCmdslot(sact: bv32, ci: bv32) returns (slot: int)
    ensures slot == FoundSlot(InUse(sact, ci)) && slot < 28
  {
    hide InUse;
    ghost var all := InUse(sact, ci);
    var slots: nat := InUse(sact, ci);
    var i := 0;
    while i < slots
      invariant 0 <= i
      invariant TrailingOnes(all) == i + TrailingOnes(slots)
      invariant Shr(all, TrailingOnes(all)) == Shr(slots, TrailingOnes(slots))
      decreases slots - i
    {
      if slots % 2 == 0 {
        FoundSlotIsFree(all);
        return i;
      }
      SearchStep(slots);
      slots := slots / 2;
      i := i + 1;
    }
    ShrSmaller(slots, TrailingOnes(slots));
    return -1;
  }
}
