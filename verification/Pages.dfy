/** The first-fit page allocator of system.c. */
module Pages {
  import opened CInt

  const PAGE_SIZE: nat := 0x1000
  const MAX_PAGES: nat := 0x1000
  const PHYS_MEM_SIZE: nat := 0x100_0000

  // ---------- Specification: sets of used pages ----------

  datatype Op = Alloc | Free(ptr: nat)

  /** The lowest page from `i` on that is not used, or MAX_PAGES. */
  function FirstFree(used: set<nat>, i: nat): (p: nat)
    requires i <= MAX_PAGES
    ensures i <= p <= MAX_PAGES
    ensures p < MAX_PAGES ==> p !in used
    ensures forall x :: i <= x < p ==> x in used
    decreases MAX_PAGES - i
  {
    if i == MAX_PAGES || i !in used then i else FirstFree(used, i + 1)
  }

  lemma FirstFreeStep(used: set<nat>, i: nat)
    requires i <= MAX_PAGES
    ensures FirstFree(used, i) == if i < MAX_PAGES && i in used then FirstFree(used, i + 1) else i
  {
  }

  function AddressOf(base: nat, page: nat): nat {
    base + page * PAGE_SIZE
  }

  function Step(base: nat, used: set<nat>, op: Op): set<nat> {
    match op
    case Alloc => if FirstFree(used, 0) < MAX_PAGES then used + {FirstFree(used, 0)} else used
    case Free(ptr) => set p | p in used && AddressOf(base, p) != ptr
  }

  // ---------- Runs ----------

  function After(base: nat, ops: seq<Op>): set<nat> {
    if ops == [] then {} else Step(base, After(base, ops[..|ops| - 1]), ops[|ops| - 1])
  }

  /** The k-th operation was an allocation, and it handed out page `p`. */
  predicate Grants(base: nat, ops: seq<Op>, k: nat, p: nat) {
    k < |ops| && ops[k].Alloc? && p == FirstFree(After(base, ops[..k]), 0) && p < MAX_PAGES
  }

  predicate FreedSince(base: nat, ops: seq<Op>, k: nat, p: nat) {
    exists j :: k < j < |ops| && ops[j] == Free(AddressOf(base, p))
  }

  /** Page `p` was handed out by operation `k` and has not been given back since. */
  predicate Live(base: nat, ops: seq<Op>, k: nat, p: nat) {
    Grants(base, ops, k, p) && !FreedSince(base, ops, k, p)
  }

  lemma LiveBefore(base: nat, ops: seq<Op>, k: nat, p: nat)
    requires ops != [] && k < |ops| - 1
    ensures Live(base, ops, k, p) <==> Live(base, ops[..|ops| - 1], k, p) && ops[|ops| - 1] != Free(AddressOf(base, p))
  {
    var init := ops[..|ops| - 1];
    assert init[..k] == ops[..k];
    if Grants(base, ops, k, p) && FreedSince(base, ops, k, p) && ops[|ops| - 1] != Free(AddressOf(base, p)) {
      var j :| k < j < |ops| && ops[j] == Free(AddressOf(base, p));
      assert init[j] == ops[j];
    }
    if FreedSince(base, init, k, p) {
      var j :| k < j < |init| && init[j] == Free(AddressOf(base, p));
      assert ops[j] == init[j];
    }
  }

  /** The bitmap holds exactly the pages handed out and not yet freed. */
  lemma {:induction false} UsedIsLive(base: nat, ops: seq<Op>, p: nat)
    ensures p in After(base, ops) <==> exists k: nat :: Live(base, ops, k, p)
    decreases |ops|
  {
    if ops != [] {
      var n := |ops| - 1;
      var init := ops[..n];
      UsedIsLive(base, init, p);
      if p in After(base, ops) {
        if p in After(base, init) {
          var k: nat :| Live(base, init, k, p);
          LiveBefore(base, ops, k, p);
        } else {
          assert Live(base, ops, n, p);
        }
      }
      if k: nat :| Live(base, ops, k, p) {
        if k < n {
          LiveBefore(base, ops, k, p);
        }
      }
    }
  }

  lemma LiveInPrefix(base: nat, ops: seq<Op>, j: nat, p: nat, k: nat)
    requires j < k <= |ops| && Live(base, ops, j, p)
    ensures Live(base, ops[..k], j, p)
  {
    assert ops[..k][..j] == ops[..j];
    assert forall i :: j < i < k ==> ops[..k][i] == ops[i];
  }

  /** No page is handed out while an earlier grant of it is live, so live pages never overlap. */
  lemma LivePagesDisjoint(base: nat, ops: seq<Op>, j: nat, k: nat, p: nat, q: nat)
    requires j < k && Live(base, ops, j, p) && Live(base, ops, k, q)
    ensures p != q && AddressOf(base, p) == base + 0x1000 * p && AddressOf(base, q) == base + 0x1000 * q
    ensures AddressOf(base, p) + PAGE_SIZE <= AddressOf(base, q) || AddressOf(base, q) + PAGE_SIZE <= AddressOf(base, p)
  {
    if p == q {
      var before := ops[..k];
      assert before[..j] == ops[..j];
      LiveInPrefix(base, ops, j, p, k);
      UsedIsLive(base, before, p);
    }
  }

  lemma FullWhenAllUsed(used: set<nat>)
    ensures FirstFree(used, 0) == 4096 <==> forall p :: 0 <= p < 4096 ==> p in used
  {
  }

  /** With 32-bit wrapping, an offset is a whole page number below MAX_PAGES only for page addresses. */
  lemma OffsetOfPage(base: nat, ptr: nat, offset: nat)
    requires base + PHYS_MEM_SIZE <= TWO_32 && ptr < TWO_32
    requires offset == (ptr - base) % TWO_32
    ensures
      var hit := offset % PAGE_SIZE == 0 && offset / PAGE_SIZE < MAX_PAGES;
      forall p :: 0 <= p < MAX_PAGES ==> (AddressOf(base, p) == ptr <==> hit && p == offset / PAGE_SIZE)
  {
    assert offset == if ptr >= base then ptr - base else ptr - base + TWO_32;
  }

  // ---------- The allocator ----------

  class PageAllocator {
    const physicalMemory: nat  // where the linker put the pages
    const bitmap: array<bool>

    ghost predicate Valid() {
      bitmap.Length == MAX_PAGES && 0 < physicalMemory && physicalMemory + PHYS_MEM_SIZE <= TWO_32
    }

    ghost function Used(): set<nat>
      requires Valid()
      reads bitmap
    {
      set p: nat | p < MAX_PAGES && bitmap[p]
    }

    constructor (address: nat)
      requires 0 < address && address + PHYS_MEM_SIZE <= TWO_32
      ensures Valid() && fresh(bitmap) && physicalMemory == address && Used() == {}
    {
      physicalMemory := address;
      bitmap := new bool[MAX_PAGES](_ => false);
    }

    /** The lowest free page; NULL (0) exactly when there is none. */
    method AllocPage() returns (ptr: nat)
      requires Valid()
      modifies bitmap
      ensures Used() == Step(physicalMemory, old(Used()), Alloc)
      ensures
        var p := FirstFree(old(Used()), 0);
        ptr == if p < MAX_PAGES then AddressOf(physicalMemory, p) else 0
    {
      hide FirstFree;
      ghost var used := Used();
      var i := 0;
      while i < MAX_PAGES
        invariant i <= MAX_PAGES && FirstFree(used, i) == FirstFree(used, 0)
        invariant Used() == used
      {
        FirstFreeStep(used, i);
        assert i in used <==> bitmap[i];
        if !bitmap[i] {
          bitmap[i] := true;
          return physicalMemory + i * PAGE_SIZE;
        }
        i := i + 1;
      }
      FirstFreeStep(used, i);
      return 0;
    }

    method FreePage(ptr: Uint32)
      requires Valid()
      modifies bitmap
      ensures Used() == Step(physicalMemory, old(Used()), Free(ptr))
    {
      var offset := (ptr as int - physicalMemory) % TWO_32;
      OffsetOfPage(physicalMemory, ptr, offset);
      if offset % PAGE_SIZE != 0 {
        return;
      }
      var index := offset / PAGE_SIZE;
      if index < MAX_PAGES {
        bitmap[index] := false;
      }
    }
  }
}
