/** The bump heap, the string copies and the mapping table of system.c. */
module Heap {
  import opened CInt
  import opened Text
  import opened Wrappers

  const HEAP_SIZE: nat := 0x10_0000
  const MAX_MAPPINGS: nat := 256

  datatype Mapping = Mapping(addr: nat, size: nat, inUse: bool)

  /** Addresses are offsets into the heap; `index` is where the next block starts. */
  datatype State = State(mem: string, index: nat, maps: seq<Mapping>)

  // ---------- Specification of each operation ----------

  /** The size is added in 32 bits before it is compared. */
  function Granted(index: nat, size: nat): bool {
    (index + size) % TWO_32 <= HEAP_SIZE
  }

  function Bump(st: State, size: nat): State {
    if Granted(st.index, size) then st.(index := (st.index + size) % TWO_32) else st
  }

  /** `text` written into memory at `at`. */
  function Written(mem: string, at: nat, text: string): string
    requires at + |text| <= |mem|
  {
    mem[..at] + text + mem[at + |text|..]
  }

  lemma WrittenParts(mem: string, at: nat, text: string)
    requires at + |text| <= |mem|
    ensures |Written(mem, at, text)| == |mem|
    ensures Written(mem, at, text)[..at] == mem[..at]
    ensures Written(mem, at, text)[at..at + |text|] == text
  {
  }

  lemma NothingWritten(mem: string, at: nat)
    requires at <= |mem|
    ensures Written(mem, at, "") == mem
  {
  }

  function Terminated(s: string): string {
    s + [NUL]
  }

  function Prefix(s: string, n: nat): (p: string)
    ensures |p| <= n && |p| <= |s|
  {
    if n <= |s| then s[..n] else s
  }

  /** The slot `munmap` works on, or the number of slots. */
  function MapIndex(maps: seq<Mapping>, addr: nat): (i: nat)
    ensures i <= |maps|
    ensures i < |maps| ==> maps[i].addr == addr && maps[i].inUse
    ensures forall j :: 0 <= j < i ==> !(maps[j].addr == addr && maps[j].inUse)
  {
    if maps == [] || (maps[0].addr == addr && maps[0].inUse) then 0 else 1 + MapIndex(maps[1..], addr)
  }

  datatype Request =
    | Malloc(size: Uint32)
    | Free(ptr: nat)
    | Strdup(s: string)
    | Strndup(s: string, n: Uint32)
    | Mmap(length: Uint32)
    | Munmap(addr: nat)

  /** The bytes a request needs, if it gets as far as asking for them. */
  function Needed(st: State, r: Request): Option<nat> {
    match r
    case Malloc(size) => Some(size)
    case Strdup(s) => Some(|s| + 1)
    case Strndup(s, n) => Some(n + 1)
    case Mmap(length) => if |st.maps| < MAX_MAPPINGS then Some(length) else None
    case _ => None
  }

  /** What it asks for: that number in 32 bits. */
  function Asked(st: State, r: Request): Uint32
    requires Needed(st, r).Some?
  {
    Needed(st, r).value % TWO_32
  }

  predicate Serves(st: State, r: Request) {
    Needed(st, r).Some? && Granted(st.index, Asked(st, r))
  }

  /** The text a request copies into its block. */
  function Copied(r: Request): string {
    match r
    case Strdup(s) => Terminated(s)
    case Strndup(s, n) => Terminated(Prefix(s, n))
    case _ => ""
  }

  /** The text copied by a request that is served stays inside the heap. */
  predicate Fits(st: State, r: Request) {
    Serves(st, r) ==> st.index + |Copied(r)| <= HEAP_SIZE
  }

  function Step(st: State, r: Request): (next: State)
    requires |st.mem| == HEAP_SIZE && Fits(st, r)
    ensures |next.mem| == HEAP_SIZE && (st.index <= HEAP_SIZE ==> next.index <= HEAP_SIZE)
  {
    if Serves(st, r) then
      var size := Asked(st, r);
      var maps := if r.Mmap? then st.maps + [Mapping(st.index, size, true)] else st.maps;
      State(Written(st.mem, st.index, Copied(r)), (st.index + size) % TWO_32, maps)
    else if r.Munmap? && MapIndex(st.maps, r.addr) < |st.maps| then
      var i := MapIndex(st.maps, r.addr);
      st.(maps := st.maps[i := st.maps[i].(inUse := false)])
    else st
  }

  // ---------- malloc and the wrap ----------

  /** The block `malloc` grants lies inside the heap exactly when the sum does not wrap. */
  lemma GrantInsideHeap(index: nat, size: nat)
    requires index <= HEAP_SIZE && size < TWO_32 && Granted(index, size)
    ensures index + size <= HEAP_SIZE <==> index + size < TWO_32
  {
  }

  /** When a block is granted: it ends within the heap, or the sum wraps and what is left of it does. */
  lemma GrantedIff(index: nat, size: nat)
    requires index <= 0x10_0000 && size < 0x1_0000_0000
    ensures Granted(index, size) <==>
              || index + size <= 0x10_0000
              || 0x1_0000_0000 <= index + size <= 0x1_0000_0000 + 0x10_0000
  {
  }

  /** A request of almost 2^32 bytes is granted, and the next one gets the first block's address again. */
  lemma WrapReusesBlocks(mem: string)
    requires |mem| == HEAP_SIZE
    ensures
      var one := Bump(State(mem, 0, []), 1);
      var two := Bump(one, TWO_32 - 1);
      Granted(one.index, TWO_32 - 1) && one.index == 1 && two.index == 0
  {
  }

  // ---------- Runs ----------

  /** The state after a run of requests, from the empty heap. */
  function Exec(mem: string, rs: seq<Request>): (st: State)
    requires |mem| == HEAP_SIZE && Feasible(mem, rs)
    ensures |st.mem| == HEAP_SIZE && st.index <= HEAP_SIZE
    decreases |rs|, 1
  {
    hide Step, Fits;
    if rs == [] then State(mem, 0, [])
    else Step(Exec(mem, rs[..|rs| - 1]), rs[|rs| - 1])
  }

  /** No copy of the run is written outside the heap. */
  predicate Feasible(mem: string, rs: seq<Request>)
    requires |mem| == HEAP_SIZE
    decreases |rs|, 0
  {
    rs != [] ==> Feasible(mem, rs[..|rs| - 1]) && Fits(Exec(mem, rs[..|rs| - 1]), rs[|rs| - 1])
  }

  /** The 32-bit sums of a request that is served do not wrap. */
  predicate NoWrap(st: State, r: Request) {
    Serves(st, r) ==> st.index + Needed(st, r).value < TWO_32
  }

  predicate NoWraps(mem: string, rs: seq<Request>)
    requires |mem| == HEAP_SIZE && Feasible(mem, rs)
    decreases |rs|
  {
    rs != [] ==> NoWraps(mem, rs[..|rs| - 1]) && NoWrap(Exec(mem, rs[..|rs| - 1]), rs[|rs| - 1])
  }

  /** Without a wrap every copy lands in the heap. */
  lemma NoWrapFits(st: State, r: Request)
    requires NoWrap(st, r)
    ensures Fits(st, r)
  {
  }

  /** A granted block and the text copied into it. */
  datatype Block = Block(start: nat, size: nat, text: string)

  /** The block a request is granted, if any. */
  function NewBlock(st: State, r: Request): seq<Block> {
    if Serves(st, r) then [Block(st.index, Asked(st, r), Copied(r))] else []
  }

  /** The blocks a run has granted, in order. */
  function Blocks(mem: string, rs: seq<Request>): seq<Block>
    requires |mem| == HEAP_SIZE && Feasible(mem, rs)
    decreases |rs|
  {
    if rs == [] then []
    else Blocks(mem, rs[..|rs| - 1]) + NewBlock(Exec(mem, rs[..|rs| - 1]), rs[|rs| - 1])
  }

  function TotalSize(bs: seq<Block>): nat {
    if bs == [] then 0 else TotalSize(bs[..|bs| - 1]) + bs[|bs| - 1].size
  }

  /** Blocks lie one after the other from 0 to `end`, and each still holds the text copied into it. */
  predicate Packed(mem: string, bs: seq<Block>, end: nat)
    decreases |bs|
  {
    && end <= |mem|
    && if bs == [] then end == 0
       else
         var b := bs[|bs| - 1];
         && b.start + b.size == end && |b.text| <= b.size
         && mem[b.start..b.start + |b.text|] == b.text
         && Packed(mem, bs[..|bs| - 1], b.start)
  }

  lemma {:induction false} PackedFrame(mem: string, mem': string, bs: seq<Block>, end: nat)
    requires Packed(mem, bs, end) && |mem'| == |mem| && mem'[..end] == mem[..end]
    ensures Packed(mem', bs, end)
    decreases |bs|
  {
    if bs != [] {
      var b := bs[|bs| - 1];
      assert mem'[b.start..b.start + |b.text|] == mem'[..end][b.start..b.start + |b.text|];
      assert mem[b.start..b.start + |b.text|] == mem[..end][b.start..b.start + |b.text|];
      assert mem'[..b.start] == mem'[..end][..b.start];
      assert mem[..b.start] == mem[..end][..b.start];
      PackedFrame(mem, mem', bs[..|bs| - 1], b.start);
    }
  }

  /** The block of a request lies right after the others, which keep their texts, unless its sums wrap. */
  lemma StepPacks(st: State, r: Request, bs: seq<Block>)
    requires |st.mem| == HEAP_SIZE && st.index <= HEAP_SIZE && Fits(st, r)
    ensures Packed(Step(st, r).mem, bs + NewBlock(st, r), Step(st, r).index)
            <==> Packed(st.mem, bs, st.index) && NoWrap(st, r)
  {
    if Serves(st, r) {
      ServedPacks(st, r, bs);
    } else {
      assert bs + [] == bs;
    }
  }

  lemma ServedPacks(st: State, r: Request, bs: seq<Block>)
    requires |st.mem| == HEAP_SIZE && st.index <= HEAP_SIZE && Fits(st, r) && Serves(st, r)
    ensures Packed(Step(st, r).mem, bs + NewBlock(st, r), Step(st, r).index)
            <==> Packed(st.mem, bs, st.index) && NoWrap(st, r)
  {
    hide Packed, Written, NoWrap, Asked, Step, Fits, Granted, Copied;
    StepServed(st, r);
    SizesTell(st, r);
    WrittenParts(st.mem, st.index, Copied(r));
    var mem', b := Step(st, r).mem, Block(st.index, Asked(st, r), Copied(r));
    PackedAppend(mem', bs, b, Step(st, r).index);
    SamePacked(st.mem, mem', bs, st.index);
  }

  lemma StepServed(st: State, r: Request)
    requires |st.mem| == HEAP_SIZE && st.index <= HEAP_SIZE && Fits(st, r) && Serves(st, r)
    ensures st.index + |Copied(r)| <= |st.mem| && Step(st, r).mem == Written(st.mem, st.index, Copied(r))
    ensures Step(st, r).index == (st.index + Asked(st, r)) % TWO_32 <= HEAP_SIZE
    ensures NewBlock(st, r) == [Block(st.index, Asked(st, r), Copied(r))]
  {
    hide Written, Copied, Asked;
  }

  lemma SamePacked(mem: string, mem': string, bs: seq<Block>, end: nat)
    requires end <= |mem| && |mem'| == |mem| && mem'[..end] == mem[..end]
    ensures Packed(mem', bs, end) <==> Packed(mem, bs, end)
  {
    hide Packed;
    if Packed(mem, bs, end) {
      PackedFrame(mem, mem', bs, end);
    }
    if Packed(mem', bs, end) {
      PackedFrame(mem', mem, bs, end);
    }
  }

  lemma PackedAppend(mem: string, bs: seq<Block>, b: Block, end: nat)
    ensures Packed(mem, bs + [b], end)
            <==> && end <= |mem| && b.start + b.size == end && |b.text| <= b.size
                 && mem[b.start..b.start + |b.text|] == b.text
                 && Packed(mem, bs, b.start)
  {
    assert (bs + [b])[..|bs|] == bs;
  }

  /** A wrap shows in the new block: it does not end at the new index, or it is too small for its text. */
  lemma SizesTell(st: State, r: Request)
    requires st.index <= HEAP_SIZE && Serves(st, r)
    ensures NoWrap(st, r)
            <==> st.index + Asked(st, r) == (st.index + Asked(st, r)) % TWO_32 && |Copied(r)| <= Asked(st, r)
  {
  }

  /** Over any run: the blocks tile the heap from 0 to `index`, so that they never overlap and never
      leave it, and no copy is ever clobbered, exactly as long as no sum has wrapped. */
  lemma {:induction false} RunPacks(mem: string, rs: seq<Request>)
    requires |mem| == HEAP_SIZE && Feasible(mem, rs)
    ensures
      var st := Exec(mem, rs);
      Packed(st.mem, Blocks(mem, rs), st.index) <==> NoWraps(mem, rs)
    decreases |rs|
  {
    hide Packed, NoWrap, Step;
    if rs != [] {
      var init, r := rs[..|rs| - 1], rs[|rs| - 1];
      RunPacks(mem, init);
      StepPacks(Exec(mem, init), r, Blocks(mem, init));
    } else {
      EmptyPacks(mem);
    }
  }

  lemma EmptyPacks(mem: string)
    ensures Packed(mem, [], 0)
  {
  }

  /** The index of a packed heap is the sum of the granted sizes. */
  lemma {:induction false} PackedTotal(mem: string, bs: seq<Block>, end: nat)
    requires Packed(mem, bs, end)
    ensures end == TotalSize(bs)
    decreases |bs|
  {
    if bs != [] {
      PackedTotal(mem, bs[..|bs| - 1], bs[|bs| - 1].start);
    }
  }

  lemma {:induction false} PackedApart(mem: string, bs: seq<Block>, end: nat, j: nat, k: nat)
    requires Packed(mem, bs, end) && j <= k < |bs|
    ensures j < k ==> bs[j].start + bs[j].size <= bs[k].start
    ensures bs[k].start + bs[k].size <= end
    ensures |bs[j].text| <= bs[j].size && mem[bs[j].start..bs[j].start + |bs[j].text|] == bs[j].text
    decreases |bs|
  {
    var n := |bs| - 1;
    if k < n {
      PackedApart(mem, bs[..n], bs[n].start, j, k);
    } else if j < n {
      PackedApart(mem, bs[..n], bs[n].start, j, j);
    }
  }

  /** The block that request `i` of a run was granted is still the one after the blocks granted before it. */
  lemma {:induction false} BlockOf(mem: string, rs: seq<Request>, i: nat)
    requires |mem| == HEAP_SIZE && Feasible(mem, rs) && i < |rs|
    ensures Feasible(mem, rs[..i])
    ensures
      var st, bs := Exec(mem, rs[..i]), Blocks(mem, rs);
      Serves(st, rs[i]) ==>
        var n := |Blocks(mem, rs[..i])|;
        n < |bs| && bs[n] == Block(st.index, Asked(st, rs[i]), Copied(rs[i]))
    decreases |rs|
  {
    hide Step, Fits, Serves, Copied, Asked;
    var init := rs[..|rs| - 1];
    if i < |init| {
      BlockOf(mem, init, i);
      assert init[..i] == rs[..i] && init[i] == rs[i];
    }
  }

  /** A text stands in memory as a C string. */
  predicate StringAt(mem: string, at: nat, text: string) {
    at + |text| < |mem| && (forall i :: 0 <= i < |text| ==> mem[at + i] == text[i]) && mem[at + |text|] == '\0'
  }

  lemma CopyStands(mem: string, at: nat, text: string)
    requires at + |text| + 1 <= |mem| && mem[at..at + |text| + 1] == text + [NUL]
    ensures StringAt(mem, at, text)
  {
    var copy := mem[at..at + |text| + 1];
    assert forall i :: 0 <= i < |text| ==> mem[at + i] == copy[i] && copy[i] == text[i];
    assert mem[at + |text|] == copy[|text|];
  }

  /** Whatever is asked for later, a string that `strdup` has copied stands where it was put, and of one that
      `strndup` has copied the first `n` characters. */
  lemma CopiesLast(mem: string, rs: seq<Request>, i: nat)
    requires |mem| == HEAP_SIZE && Feasible(mem, rs) && NoWraps(mem, rs) && i < |rs|
    ensures Feasible(mem, rs[..i])
    ensures
      var st, later := Exec(mem, rs[..i]), Exec(mem, rs).mem;
      Serves(st, rs[i]) ==>
        match rs[i]
        case Strdup(s) => StringAt(later, st.index, s)
        case Strndup(s, n) => StringAt(later, st.index, if n <= |s| then s[..n] else s)
        case _ => true
  {
    hide Packed, Asked, Serves, Copied, StringAt, Step, Fits, NoWraps;
    BlockOf(mem, rs, i);
    RunPacks(mem, rs);
    var st, later, bs := Exec(mem, rs[..i]), Exec(mem, rs).mem, Blocks(mem, rs);
    if Serves(st, rs[i]) {
      var n := |Blocks(mem, rs[..i])|;
      PackedApart(later, bs, Exec(mem, rs).index, n, n);
      CopiedStands(later, st.index, rs[i]);
    }
  }

  lemma CopiedStands(mem: string, at: nat, r: Request)
    requires at + |Copied(r)| <= |mem| && mem[at..at + |Copied(r)|] == Copied(r)
    ensures
      match r
      case Strdup(s) => StringAt(mem, at, s)
      case Strndup(s, n) => StringAt(mem, at, if n <= |s| then s[..n] else s)
      case _ => true
  {
    match r
    case Strdup(s) => CopyStands(mem, at, s);
    case Strndup(s, n) => CopyStands(mem, at, Prefix(s, n));
    case _ =>
  }

  // ---------- Mappings over runs ----------

  /** Slots are in the order of their addresses, and every mapped block lies below `end`. */
  predicate MapsInOrder(maps: seq<Mapping>, end: nat) {
    && (forall k :: 0 <= k < |maps| ==> maps[k].addr + maps[k].size <= end)
    && (forall j, k :: 0 <= j < k < |maps| ==> maps[j].addr + maps[j].size <= maps[k].addr)
  }

  /** How often an `mmap` of the run has returned `addr`. */
  function MapsAt(mem: string, rs: seq<Request>, addr: nat): nat
    requires |mem| == HEAP_SIZE && Feasible(mem, rs)
    decreases |rs|
  {
    if rs == [] then 0
    else
      var init, r := rs[..|rs| - 1], rs[|rs| - 1];
      MapsAt(mem, init, addr) + OneIf(r.Mmap? && Serves(Exec(mem, init), r) && Exec(mem, init).index == addr)
  }

  /** How often a `munmap` of `addr` has succeeded in the run. */
  function UnmapsAt(mem: string, rs: seq<Request>, addr: nat): nat
    requires |mem| == HEAP_SIZE && Feasible(mem, rs)
    decreases |rs|
  {
    if rs == [] then 0
    else
      var init, r := rs[..|rs| - 1], rs[|rs| - 1];
      var maps := Exec(mem, init).maps;
      UnmapsAt(mem, init, addr) + OneIf(r == Munmap(addr) && MapIndex(maps, addr) < |maps|)
  }

  function OneIf(b: bool): nat {
    if b then 1 else 0
  }

  /** All successful `mmap`s of the run. */
  function Successes(mem: string, rs: seq<Request>): nat
    requires |mem| == HEAP_SIZE && Feasible(mem, rs)
    decreases |rs|
  {
    if rs == [] then 0
    else
      var init, r := rs[..|rs| - 1], rs[|rs| - 1];
      Successes(mem, init) + OneIf(r.Mmap? && Serves(Exec(mem, init), r))
  }

  /** What a request does to the slots: a new one in use, the first one in use at an address ended, or nothing. */
  lemma StepMaps(st: State, r: Request)
    requires |st.mem| == HEAP_SIZE && Fits(st, r)
    ensures
      var maps := Step(st, r).maps;
      match r
      case Mmap(length) =>
        maps == if Serves(st, r) then st.maps + [Mapping(st.index, length, true)] else st.maps
      case Munmap(addr) => maps == Ended(st.maps, addr)
      case _ => maps == st.maps
  {
    hide Written;
  }

  lemma StepMmap(st: State, length: Uint32)
    requires |st.mem| == HEAP_SIZE && st.index <= HEAP_SIZE
    ensures
      Step(st, Mmap(length)) ==
      if |st.maps| < MAX_MAPPINGS && Granted(st.index, length)
      then State(st.mem, (st.index + length) % TWO_32, st.maps + [Mapping(st.index, length, true)])
      else st
  {
    hide Step, Serves, Granted, Written;
    var r := Request.Mmap(length);
    ServesMmap(st, length);
    if Serves(st, r) {
      StepServed(st, r);
      StepMaps(st, r);
      NothingWritten(st.mem, st.index);
    } else {
      StepRefused(st, r);
    }
  }

  lemma StepRefused(st: State, r: Request)
    requires |st.mem| == HEAP_SIZE && !Serves(st, r) && !r.Munmap?
    ensures Step(st, r) == st
  {
    hide Written;
  }

  lemma ServesMmap(st: State, length: Uint32)
    ensures Serves(st, Mmap(length)) <==> |st.maps| < 256 && Granted(st.index, length)
  {
  }

  function Ended(maps: seq<Mapping>, addr: nat): seq<Mapping> {
    var i := MapIndex(maps, addr);
    if i < |maps| then maps[i := maps[i].(inUse := false)] else maps
  }

  /** At most 256 mmaps ever succeed; each takes one slot, and a failed one takes none. */
  lemma {:induction false} MmapsBounded(mem: string, rs: seq<Request>)
    requires |mem| == HEAP_SIZE && Feasible(mem, rs)
    ensures |Exec(mem, rs).maps| == Successes(mem, rs) <= 256
    decreases |rs|
  {
    if rs != [] {
      MmapsBounded(mem, rs[..|rs| - 1]);
      StepMaps(Exec(mem, rs[..|rs| - 1]), rs[|rs| - 1]);
      hide Step, MapIndex, Feasible;
    }
  }

  lemma StepInOrder(st: State, r: Request)
    requires |st.mem| == HEAP_SIZE && st.index <= HEAP_SIZE && Fits(st, r) && NoWrap(st, r)
    requires MapsInOrder(st.maps, st.index)
    ensures MapsInOrder(Step(st, r).maps, Step(st, r).index)
  {
    StepMaps(st, r);
    StepIndex(st, r);
    hide Step, Fits, Serves, MapIndex;
  }

  lemma StepIndex(st: State, r: Request)
    requires |st.mem| == HEAP_SIZE && st.index <= HEAP_SIZE && Fits(st, r) && NoWrap(st, r)
    ensures Step(st, r).index == st.index + if Serves(st, r) then Needed(st, r).value else 0
  {
    hide Step, Fits, Granted, Asked;
    if Serves(st, r) {
      StepServed(st, r);
      NoWrapAsked(st, r);
    } else {
      RefusedIndex(st, r);
    }
  }

  lemma NoWrapAsked(st: State, r: Request)
    requires Serves(st, r) && NoWrap(st, r)
    ensures Asked(st, r) == Needed(st, r).value && (st.index + Asked(st, r)) % TWO_32 == st.index + Asked(st, r)
  {
  }

  lemma RefusedIndex(st: State, r: Request)
    requires |st.mem| == HEAP_SIZE && !Serves(st, r)
    ensures Step(st, r).index == st.index
  {
    hide Written, Serves;
  }

  /** What each request takes from the heap if it is granted: `strndup` its limit, however short the text is,
      and the others nothing. */
  lemma TakesBytes(st: State, r: Request)
    requires |st.mem| == HEAP_SIZE && st.index <= HEAP_SIZE && Fits(st, r) && NoWrap(st, r)
    ensures
      var taken := Step(st, r).index - st.index;
      match r
      case Malloc(size) => taken == if st.index + size <= 0x10_0000 then size else 0
      case Strdup(s) => taken == if st.index + |s| + 1 <= 0x10_0000 then |s| + 1 else 0
      case Strndup(s, n) => taken == if st.index + n + 1 <= 0x10_0000 then n + 1 else 0
      case Mmap(length) => taken == if |st.maps| < 256 && st.index + length <= 0x10_0000 then length else 0
      case _ => taken == 0
  {
    StepIndex(st, r);
    hide Step, Fits;
  }

  /** As long as no sum wraps, slots are in the order of their addresses and do not overlap. */
  lemma {:induction false} RunInOrder(mem: string, rs: seq<Request>)
    requires |mem| == HEAP_SIZE && Feasible(mem, rs) && NoWraps(mem, rs)
    ensures MapsInOrder(Exec(mem, rs).maps, Exec(mem, rs).index)
    decreases |rs|
  {
    hide Step, Fits, NoWrap;
    if rs != [] {
      RunInOrder(mem, rs[..|rs| - 1]);
      StepInOrder(Exec(mem, rs[..|rs| - 1]), rs[|rs| - 1]);
    }
  }

  function InUseAt(maps: seq<Mapping>, addr: nat): nat {
    if maps == [] then 0 else (if maps[0].addr == addr && maps[0].inUse then 1 else 0) + InUseAt(maps[1..], addr)
  }

  /** `munmap` succeeds exactly while a mapping at the address is in use, and each success ends one of them. */
  lemma {:induction false} EachUnmapEndsOne(maps: seq<Mapping>, addr: nat)
    ensures
      var i := MapIndex(maps, addr);
      && (i < |maps| <==> InUseAt(maps, addr) > 0)
      && (i < |maps| ==> InUseAt(maps[i := maps[i].(inUse := false)], addr) == InUseAt(maps, addr) - 1)
    decreases |maps|
  {
    var i := MapIndex(maps, addr);
    if maps != [] && i > 0 {
      EachUnmapEndsOne(maps[1..], addr);
      if i < |maps| {
        assert maps[i := maps[i].(inUse := false)][1..] == maps[1..][i - 1 := maps[i].(inUse := false)];
      }
    } else if maps != [] {
      assert maps[0 := maps[0].(inUse := false)][1..] == maps[1..];
    }
  }

  lemma {:induction false} InUseAppend(maps: seq<Mapping>, m: Mapping, addr: nat)
    ensures InUseAt(maps + [m], addr) == InUseAt(maps, addr) + OneIf(m.addr == addr && m.inUse)
    decreases |maps|
  {
    if maps == [] {
      assert maps + [m] == [m];
    } else {
      InUseAppend(maps[1..], m, addr);
      assert (maps + [m])[1..] == maps[1..] + [m];
    }
  }

  lemma {:induction false} InUseElsewhere(maps: seq<Mapping>, i: nat, addr: nat)
    requires i < |maps| && maps[i].addr != addr
    ensures InUseAt(maps[i := maps[i].(inUse := false)], addr) == InUseAt(maps, addr)
    decreases |maps|
  {
    var ended := maps[i := maps[i].(inUse := false)];
    if i == 0 {
      assert ended[1..] == maps[1..];
    } else {
      InUseElsewhere(maps[1..], i - 1, addr);
      assert ended[1..] == maps[1..][i - 1 := maps[i].(inUse := false)];
    }
  }

  /** Over every run, wraps or not: what has been mapped at an address is what has been unmapped there
      and what is still in use there. */
  lemma {:induction false} UnmapsBalance(mem: string, rs: seq<Request>, addr: nat)
    requires |mem| == HEAP_SIZE && Feasible(mem, rs)
    ensures MapsAt(mem, rs, addr) == UnmapsAt(mem, rs, addr) + InUseAt(Exec(mem, rs).maps, addr)
    decreases |rs|
  {
    hide Step, InUseAt, Fits, Serves;
    if rs != [] {
      var init, r := rs[..|rs| - 1], rs[|rs| - 1];
      UnmapsBalance(mem, init, addr);
      StepBalance(Exec(mem, init), r, addr);
    } else {
      NoneInUse(addr);
    }
  }

  lemma NoneInUse(addr: nat)
    ensures InUseAt([], addr) == 0
  {
  }

  lemma StepBalance(st: State, r: Request, addr: nat)
    requires |st.mem| == HEAP_SIZE && Fits(st, r)
    ensures
      var mapped := r.Mmap? && Serves(st, r) && st.index == addr;
      var unmapped := r == Munmap(addr) && MapIndex(st.maps, addr) < |st.maps|;
      InUseAt(Step(st, r).maps, addr) + OneIf(unmapped) == InUseAt(st.maps, addr) + OneIf(mapped)
  {
    StepMaps(st, r);
    hide Step, InUseAt, Fits, Serves;
    match r
    case Mmap(length) => InUseAppend(st.maps, Mapping(st.index, length, true), addr);
    case Munmap(a) =>
      var i := MapIndex(st.maps, a);
      if a == addr {
        EachUnmapEndsOne(st.maps, addr);
      } else if i < |st.maps| {
        InUseElsewhere(st.maps, i, addr);
      }
    case _ =>
  }

  /** Of the mappings at one address the oldest end first. */
  predicate OldestEndFirst(maps: seq<Mapping>) {
    forall j, k :: 0 <= j < k < |maps| && maps[j].addr == maps[k].addr && maps[j].inUse ==> maps[k].inUse
  }

  lemma {:induction false} RunEndsOldestFirst(mem: string, rs: seq<Request>)
    requires |mem| == HEAP_SIZE && Feasible(mem, rs)
    ensures OldestEndFirst(Exec(mem, rs).maps)
    decreases |rs|
  {
    hide Step, Fits, OldestEndFirst;
    if rs != [] {
      RunEndsOldestFirst(mem, rs[..|rs| - 1]);
      StepEndsOldestFirst(Exec(mem, rs[..|rs| - 1]), rs[|rs| - 1]);
    } else {
      NothingOrdered();
    }
  }

  lemma NothingOrdered()
    ensures OldestEndFirst([])
  {
  }

  lemma StepEndsOldestFirst(st: State, r: Request)
    requires |st.mem| == HEAP_SIZE && Fits(st, r) && OldestEndFirst(st.maps)
    ensures OldestEndFirst(Step(st, r).maps)
  {
    StepMaps(st, r);
    hide Step, Fits, Serves;
  }

  lemma {:induction false} InUseSomewhere(maps: seq<Mapping>, k: nat)
    requires k < |maps| && maps[k].inUse
    ensures InUseAt(maps, maps[k].addr) > 0
  {
    if k > 0 {
      InUseSomewhere(maps[1..], k - 1);
    }
  }

  /** Two mappings can share an address only if the earlier one has length zero. */
  lemma SharedAddress(maps: seq<Mapping>, end: nat, j: nat, k: nat)
    requires MapsInOrder(maps, end) && j < k < |maps| && maps[j].addr == maps[k].addr
    ensures maps[j].size == 0
  {
    assert maps[j].addr + maps[j].size <= maps[k].addr;
  }

  /** A call of `munmap` ends the mapping in slot `k` exactly when no older mapping at its address is in
      use; after a run without wraps such a mapping has length zero. */
  lemma EndsThisOne(mem: string, rs: seq<Request>, k: nat)
    requires |mem| == HEAP_SIZE && Feasible(mem, rs)
    requires k < |Exec(mem, rs).maps| && Exec(mem, rs).maps[k].inUse
    ensures
      var maps := Exec(mem, rs).maps;
      && (MapIndex(maps, maps[k].addr) == k
          <==> forall j :: 0 <= j < k ==> !(maps[j].addr == maps[k].addr && maps[j].inUse))
      && (NoWraps(mem, rs) ==> forall j :: 0 <= j < k && maps[j].addr == maps[k].addr ==> maps[j].size == 0)
  {
    var maps, end := Exec(mem, rs).maps, Exec(mem, rs).index;
    if NoWraps(mem, rs) {
      RunInOrder(mem, rs);
      forall j | 0 <= j < k && maps[j].addr == maps[k].addr
        ensures maps[j].size == 0
      {
        SharedAddress(maps, end, j, k);
      }
    }
  }

  /** A mapping of positive length is the last one at its address to go: it is in use exactly until
      `munmap` has succeeded there as often as `mmap` has returned that address, and while a call succeeds. */
  lemma PositiveEndsLast(mem: string, rs: seq<Request>, k: nat)
    requires |mem| == HEAP_SIZE && Feasible(mem, rs) && NoWraps(mem, rs)
    requires k < |Exec(mem, rs).maps| && Exec(mem, rs).maps[k].size > 0
    ensures
      var maps := Exec(mem, rs).maps;
      var addr := maps[k].addr;
      && (maps[k].inUse <==> UnmapsAt(mem, rs, addr) < MapsAt(mem, rs, addr))
      && (maps[k].inUse <==> MapIndex(maps, addr) < |maps|)
  {
    var maps, end := Exec(mem, rs).maps, Exec(mem, rs).index;
    var addr := maps[k].addr;
    RunInOrder(mem, rs);
    RunEndsOldestFirst(mem, rs);
    UnmapsBalance(mem, rs, addr);
    EachUnmapEndsOne(maps, addr);
    hide Exec, Feasible, NoWraps, InUseAt, UnmapsAt, MapsAt;
    if maps[k].inUse {
      InUseSomewhere(maps, k);
    } else if InUseAt(maps, addr) > 0 {
      var j := MapIndex(maps, addr);
      if k < j {
        SharedAddress(maps, end, k, j);
      }
    }
  }

  /** The empty mapping goes first: with a mapping of length zero before it at the same address, a first
      `munmap` leaves the five bytes mapped and a second one succeeds too. */
  lemma EmptyMappingGoesFirst(mem: string)
    requires |mem| == HEAP_SIZE
    ensures
      var st := Step(Step(State(mem, 0, []), Request.Mmap(0)), Request.Mmap(5));
      var first := Step(st, Request.Munmap(0));
      && st.maps == [Mapping(0, 0, true), Mapping(0, 5, true)]
      && first.maps == [Mapping(0, 0, false), Mapping(0, 5, true)]
      && Step(first, Request.Munmap(0)).maps == [Mapping(0, 0, false), Mapping(0, 5, false)]
  {
    hide Written;
    NothingWritten(mem, 0);
    var st := Step(Step(State(mem, 0, []), Request.Mmap(0)), Request.Mmap(5));
    var first := Step(st, Request.Munmap(0));
    MapIndexIs(st.maps, 0, 0);
    MapIndexIs(first.maps, 0, 1);
  }

  /** Later slots: the old ones are still there and no ended one has come back into use. */
  predicate SlotsKept(now: seq<Mapping>, later: seq<Mapping>) {
    && |now| <= |later|
    && forall j :: 0 <= j < |now| ==>
         && later[j].addr == now[j].addr && later[j].size == now[j].size
         && (later[j].inUse ==> now[j].inUse)
  }

  lemma StepKeepsSlots(st: State, r: Request)
    requires |st.mem| == HEAP_SIZE && Fits(st, r)
    ensures SlotsKept(st.maps, Step(st, r).maps)
  {
    StepMaps(st, r);
    hide Step, Fits, Serves;
  }

  lemma {:induction false} RunKeepsSlots(mem: string, rs: seq<Request>, more: seq<Request>)
    requires |mem| == HEAP_SIZE && Feasible(mem, rs) && Feasible(mem, rs + more)
    ensures SlotsKept(Exec(mem, rs).maps, Exec(mem, rs + more).maps)
    decreases |more|
  {
    hide Step, Fits;
    if more == [] {
      assert rs + more == rs;
    } else {
      var init := more[..|more| - 1];
      assert (rs + more)[..|rs + more| - 1] == rs + init;
      RunKeepsSlots(mem, rs, init);
      StepKeepsSlots(Exec(mem, rs + init), more[|more| - 1]);
    }
  }

  /** Whatever comes later, the address of a positive-length mapping is not mapped again, and a mapping
      that is gone stays gone. */
  lemma NeverMappedAgain(mem: string, rs: seq<Request>, more: seq<Request>, k: nat)
    requires |mem| == HEAP_SIZE && Feasible(mem, rs) && Feasible(mem, rs + more) && NoWraps(mem, rs + more)
    requires k < |Exec(mem, rs).maps| && Exec(mem, rs).maps[k].size > 0
    ensures
      var now, later := Exec(mem, rs).maps, Exec(mem, rs + more).maps;
      && SlotsKept(now, later)
      && forall j :: |now| <= j < |later| ==> later[j].addr != now[k].addr
  {
    RunKeepsSlots(mem, rs, more);
    RunInOrder(mem, rs + more);
    var now, later, end := Exec(mem, rs).maps, Exec(mem, rs + more).maps, Exec(mem, rs + more).index;
    hide Exec, Feasible, NoWraps;
    forall j | |now| <= j < |later|
      ensures later[j].addr != now[k].addr
    {
      assert later[k].addr + later[k].size <= later[j].addr;
    }
  }

  /** Once a positive-length mapping has been unmapped, no later `munmap` of its address succeeds. */
  lemma UnmapOnce(mem: string, rs: seq<Request>, more: seq<Request>, k: nat)
    requires |mem| == HEAP_SIZE && Feasible(mem, rs) && Feasible(mem, rs + more) && NoWraps(mem, rs + more)
    requires k < |Exec(mem, rs).maps| && Exec(mem, rs).maps[k].size > 0 && !Exec(mem, rs).maps[k].inUse
    ensures MapIndex(Exec(mem, rs + more).maps, Exec(mem, rs).maps[k].addr) == |Exec(mem, rs + more).maps|
  {
    RunKeepsSlots(mem, rs, more);
    PositiveEndsLast(mem, rs + more, k);
  }

  // ---------- The heap in memory ----------

  class KernelHeap {
    const heap: array<char>
    var heapIndex: nat
    const mappings: array<Mapping>
    var nextMapping: nat

    ghost predicate Valid()
      reads this
    {
      heap.Length == HEAP_SIZE && heapIndex <= HEAP_SIZE
      && mappings.Length == MAX_MAPPINGS && nextMapping <= MAX_MAPPINGS
    }

    ghost function Abs(): State
      requires Valid()
      reads this, heap, mappings
    {
      State(heap[..], heapIndex, mappings[..nextMapping])
    }

    constructor ()
      ensures Valid() && fresh(heap) && fresh(mappings)
      ensures heapIndex == 0 && nextMapping == 0
    {
      heap := new char[HEAP_SIZE];
      mappings := new Mapping[MAX_MAPPINGS];
      heapIndex, nextMapping := 0, 0;
    }

    method Malloc(size: Uint32) returns (ptr: Option<nat>)
      requires Valid()
      modifies this`heapIndex
      ensures Valid() && Abs() == Bump(old(Abs()), size)
      ensures ptr == if Granted(old(heapIndex), size) then Some(old(heapIndex)) else None
    {
      if (heapIndex + size) % TWO_32 > HEAP_SIZE {
        return None;
      }
      ptr := Some(heapIndex);
      heapIndex := (heapIndex + size) % TWO_32;
    }

    /** `strdup` of a string of `|s|` characters. */
    method Strdup(s: string) returns (copy: Option<nat>)
      requires Valid() && IsText(s) && Fits(Abs(), Request.Strdup(s))
      modifies this`heapIndex, heap
      ensures Valid() && Abs() == Step(old(Abs()), Request.Strdup(s))
      ensures copy == if Serves(old(Abs()), Request.Strdup(s)) then Some(old(heapIndex)) else None
    {
      var len := (|s| + 1) % TWO_32;
      copy := Malloc(len);
      if copy.Some? {
        WriteText(copy.value, s + [NUL]);
      }
    }

    /** `strndup`: at most `n` characters, and then the terminator. */
    method Strndup(s: string, n: Uint32) returns (dup: Option<nat>)
      requires Valid() && IsText(s) && Fits(Abs(), Request.Strndup(s, n))
      modifies this`heapIndex, heap
      ensures Valid() && Abs() == Step(old(Abs()), Request.Strndup(s, n))
      ensures dup == if Serves(old(Abs()), Request.Strndup(s, n)) then Some(old(heapIndex)) else None
    {
      hide Prefix, Written;
      dup := Malloc((n + 1) % TWO_32);
      if dup.None? {
        return;
      }
      CopyUpTo(dup.value, s, n);
    }

    /** The copying loop of `strndup`. */
    method CopyUpTo(at: nat, s: string, n: nat)
      requires IsText(s) && at + |Prefix(s, n)| < heap.Length
      modifies heap
      ensures heap[..] == Written(old(heap[..]), at, Terminated(Prefix(s, n)))
    {
      var i := 0;
      while i < n && At(s, i) != NUL
        invariant i <= |Prefix(s, n)|
        invariant forall x :: 0 <= x < heap.Length ==> heap[x] == if at <= x < at + i then s[x - at] else old(heap[x])
      {
        heap[at + i] := s[i];
        i := i + 1;
      }
      heap[at + i] := NUL;
    }

    /** The byte copy behind `strdup`. */
    method WriteText(at: nat, text: string)
      requires at + |text| <= heap.Length
      modifies heap
      ensures heap[..] == Written(old(heap[..]), at, text)
    {
      var i := 0;
      while i < |text|
        invariant i <= |text|
        invariant forall x :: 0 <= x < heap.Length ==>
                    heap[x] == if at <= x < at + i then text[x - at] else old(heap[x])
      {
        heap[at + i] := text[i];
        i := i + 1;
      }
    }

    method Mmap(length: Uint32) returns (addr: Option<nat>)
      requires Valid()
      modifies this, mappings
      ensures Valid() && Abs() == Step(old(Abs()), Request.Mmap(length))
      ensures addr == if Serves(old(Abs()), Request.Mmap(length)) then Some(old(heapIndex)) else None
    {
      hide Step, Serves, Granted;
      StepMmap(Abs(), length);
      ServesMmap(Abs(), length);
      if nextMapping >= MAX_MAPPINGS {
        return None;
      }
      addr := Malloc(length);
      if addr.None? {
        return;
      }
      mappings[nextMapping] := Mapping(addr.value, length, true);
      nextMapping := nextMapping + 1;
    }

    /** 0 for success, -1 when no allocated mapping has the address. */
    method Munmap(addr: nat) returns (status: int)
      requires Valid()
      modifies mappings
      ensures Valid() && Abs() == Step(old(Abs()), Request.Munmap(addr))
      ensures status == if MapIndex(old(Abs()).maps, addr) < nextMapping then 0 else -1
    {
      var i := 0;
      while i < nextMapping
        invariant i <= nextMapping
        invariant forall j :: 0 <= j < i ==> !(mappings[j].addr == addr && mappings[j].inUse)
      {
        if mappings[i].addr == addr && mappings[i].inUse {
          ghost var maps := mappings[..nextMapping];
          assert maps[i] == mappings[i];
          MapIndexIs(maps, addr, i);
          mappings[i] := mappings[i].(inUse := false);
          return 0;
        }
        i := i + 1;
      }
      MapIndexIs(mappings[..nextMapping], addr, i);
      return -1;
    }
  }

  lemma {:induction false} MapIndexIs(maps: seq<Mapping>, addr: nat, i: nat)
    requires i <= |maps|
    requires forall j :: 0 <= j < i ==> !(maps[j].addr == addr && maps[j].inUse)
    requires i < |maps| ==> maps[i].addr == addr && maps[i].inUse
    ensures MapIndex(maps, addr) == i
  {
    var m := MapIndex(maps, addr);
    if i > 0 {
      MapIndexIs(maps[1..], addr, i - 1);
    }
  }
}
