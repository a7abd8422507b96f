/** Building and issuing a read command (disk.c) in the memory of a rebased port. */
module AhciRead {
  import opened CInt
  import opened AhciLayout
  import AhciSlots

  const TABLE_HEAD: nat := 144  // sizeof(HBA_CMD_TBL): command FIS, ATAPI command, reserved, one PRDT entry
  const PRDT_START: nat := 128
  const PRDT_ENTRY: nat := 16
  const FIS_DWORDS: nat := 5    // sizeof(FIS_REG_H2D) in 32-bit words
  const MAX_SPIN: nat := 1_000_000

  /** The arguments of `read`. */
  datatype Request = Request(startl: Uint32, starth: Uint32, count: Uint32, buf: Uint32)

  // ---------- Sizes ----------

  /** PRDT entries, in the 16 bits of the header field. */
  function Prdtl(count: Uint32): nat {
    ((count - 1) % TWO_32 / 16 % 0x1_0000 + 1) % 0x1_0000
  }

  /** How much is cleared from the start of the table on; without entries it is one entry less. */
  function ClearedSize(prdtl: nat): nat {
    TABLE_HEAD + (prdtl - 1) * PRDT_ENTRY
  }

  const MAX_SECTORS: nat := 0xF_FFF0  // sixteen for each of at most 65535 entries

  /** Sixteen sectors an entry, rounded up. */
  lemma PrdtlIsCeiling(count: Uint32)
    requires 1 <= count <= MAX_SECTORS
    ensures Prdtl(count) == (count + 15) / 16 && 1 <= Prdtl(count) < 0x1_0000
  {
    var q := (count - 1) / 16;
    assert (count - 1) % TWO_32 == count - 1;
    assert q < 0xFFFF && q % 0x1_0000 == q;
    assert (q + 1) % 0x1_0000 == q + 1;
    assert (count + 15) / 16 == q + 1;
  }

  /** For larger requests the clearing runs into the next slot's table, unless the 16-bit field wraps. */
  lemma ClearingFits(count: Uint32)
    ensures ClearedSize(Prdtl(count)) <= TABLE_SIZE <==>
              (count - 1) % TWO_32 / 16 % 0x1_0000 < 8 || (count - 1) % TWO_32 / 16 % 0x1_0000 == 0xFFFF
  {
  }

  /** One sector more than 128 is enough: the table's 256 bytes and one entry of the next slot's are cleared. */
  lemma ClearingLeavesTheTable()
    ensures ClearedSize(Prdtl(128)) == TABLE_SIZE && ClearedSize(Prdtl(129)) == TABLE_SIZE + PRDT_ENTRY
  {
  }

  /** What is cleared for the command lies in the memory of the ports. */
  predicate InRegion(port: nat, slot: nat, count: Uint32) {
    TableAt(port, slot) + ClearedSize(Prdtl(count)) <= REGION_SIZE
  }

  // ---------- What is written ----------

  /** The first byte of the header: FIS length 5 and direction 0, with the other two bits kept. */
  function FlagsByte(was: Byte): Byte {
    FIS_DWORDS + was / 32 % 2 * 32 + was / 128 * 128
  }

  /** The command FIS: register FIS, command bit, READ DMA EXT, 48-bit LBA and sector count. */
  function FisByte(r: Request, k: nat): Byte {
    match k
    case 0 => 0x27
    case 1 => 0x80
    case 2 => 0x25
    case 4 => LeByte(r.startl, 0)
    case 5 => LeByte(r.startl, 1)
    case 6 => LeByte(r.startl, 2)
    case 7 => 0x40
    case 8 => LeByte(r.startl, 3)
    case 9 => LeByte(r.starth, 0)
    case 10 => LeByte(r.starth, 1)
    case 12 => LeByte(r.count, 0)
    case 13 => LeByte(r.count, 1)
    case _ => 0
  }

  /** Byte count minus one, in 22 bits. */
  function ByteCountField(count: Uint32): nat {
    (count * 512 - 1) % 0x40_0000
  }

  /** The fourth word of an entry: the byte count, the interrupt bit, and the reserved bits as they were. */
  function CountWord(count: Uint32, was: Uint32): Uint32 {
    ByteCountField(count) + was / 0x40_0000 % 512 * 0x40_0000 + 0x8000_0000
  }

  function Cleared(mem: Memory, table: nat, size: nat, at: nat): Byte
    requires at < REGION_SIZE
  {
    if table <= at < table + size then 0 else mem[at]
  }

  /** The loop meant to fill the entries is never entered but leaves its index at 1, so it is entry 1 that
      gets the buffer and the whole count. */
  const FILLED: nat := PRDT_START + PRDT_ENTRY

  /** Byte `at` of the region after the command has been built. */
  function BuiltByte(mem: Memory, port: nat, slot: nat, r: Request, at: nat): Byte
    requires port < PORTS && slot < SLOTS && at < REGION_SIZE
  {
    var h, t := HeaderAt(port, slot), TableAt(port, slot);
    var size := ClearedSize(Prdtl(r.count));
    if at == h then FlagsByte(mem[at])
    else if h + 2 <= at < h + 4 then LeByte(Prdtl(r.count), at - h - 2)
    else if t <= at < t + 20 then FisByte(r, at - t)
    else if t + FILLED <= at < t + FILLED + 4 then LeByte(r.buf, at - t - FILLED)
    else if t + FILLED + 12 <= at < t + FILLED + 16 then
      LeByte(CountWord(r.count, ClearedWord(mem, t, size, t + FILLED + 12)), at - t - FILLED - 12)
    else if t <= at < t + size then 0
    else mem[at]
  }

  function ClearedWord(mem: Memory, table: nat, size: nat, at: nat): Uint32 {
    if at + 4 <= REGION_SIZE then
      FromLe(Cleared(mem, table, size, at), Cleared(mem, table, size, at + 1),
             Cleared(mem, table, size, at + 2), Cleared(mem, table, size, at + 3))
    else 0
  }

  predicate Built(mem: Memory, mem': Memory, port: nat, slot: nat, r: Request) {
    && port < PORTS && slot < SLOTS && InRegion(port, slot, r.count)
    && forall at :: 0 <= at < REGION_SIZE ==> mem'[at] == BuiltByte(mem, port, slot, r, at)
  }

  /** After the header has been written and the table cleared. */
  function HeaderStep(mem: Memory, h: nat, table: nat, count: Uint32, at: nat): Byte
    requires at < REGION_SIZE
  {
    if at == h then FlagsByte(mem[at])
    else if h + 2 <= at < h + 4 then LeByte(Prdtl(count), at - h - 2)
    else Cleared(mem, table, ClearedSize(Prdtl(count)), at)
  }

  /** After the entry and the FIS have been written as well. */
  function TableStep(mem: Memory, table: nat, r: Request, at: nat): Byte
    requires table + TABLE_SIZE <= REGION_SIZE && at < REGION_SIZE
  {
    if table <= at < table + 20 then FisByte(r, at - table)
    else if table + FILLED <= at < table + FILLED + 4 then LeByte(r.buf, at - table - FILLED)
    else if table + FILLED + 12 <= at < table + FILLED + 16 then
      LeByte(CountWord(r.count, Word32(mem, table + FILLED + 12)), at - table - FILLED - 12)
    else mem[at]
  }

  lemma StepsBuild(mem: Memory, mid: Memory, end: Memory, port: nat, slot: nat, r: Request)
    requires port < PORTS && slot < SLOTS && InRegion(port, slot, r.count)
    requires TableAt(port, slot) + TABLE_SIZE <= REGION_SIZE
    requires forall at :: 0 <= at < REGION_SIZE ==>
               mid[at] == HeaderStep(mem, HeaderAt(port, slot), TableAt(port, slot), r.count, at)
    requires forall at :: 0 <= at < REGION_SIZE ==> end[at] == TableStep(mid, TableAt(port, slot), r, at)
    ensures Built(mem, end, port, slot, r)
  {
    hide FlagsByte, LeByte, FisByte, CountWord, ClearedWord, Word32, ClearedSize, Prdtl, TableAt, HeaderAt;
    HeaderBelowTable(port, slot);
    SizeOfHead(Prdtl(r.count));
    CountWordOfMid(mem, mid, HeaderAt(port, slot), TableAt(port, slot), r.count);
    forall at | 0 <= at < REGION_SIZE
      ensures end[at] == BuiltByte(mem, port, slot, r, at)
    {
      assert mid[at] == HeaderStep(mem, HeaderAt(port, slot), TableAt(port, slot), r.count, at);
    }
  }

  lemma CountWordOfMid(mem: Memory, mid: Memory, h: nat, table: nat, count: Uint32)
    requires h + HEADER_SIZE <= table && table + TABLE_SIZE <= REGION_SIZE
    requires forall at :: 0 <= at < REGION_SIZE ==> mid[at] == HeaderStep(mem, h, table, count, at)
    ensures ClearedWord(mem, table, ClearedSize(Prdtl(count)), table + FILLED + 12) == Word32(mid, table + FILLED + 12)
  {
    hide FlagsByte, LeByte, FromLe, ClearedSize, Prdtl;
  }

  lemma SizeOfHead(prdtl: nat)
    ensures 128 <= ClearedSize(prdtl)
  {
  }

  lemma HeaderBelowTable(port: nat, slot: nat)
    requires port < PORTS && slot < SLOTS
    ensures HeaderAt(port, slot) + HEADER_SIZE <= TABLE_START <= TableAt(port, slot)
    ensures TableAt(port, slot) + TABLE_SIZE <= REGION_SIZE
  {
  }

  // ---------- What that means ----------

  /** Outside the slot's own header and table nothing changes as long as the clearing stays in the table;
      otherwise exactly what it covers of the tables behind is cleared as well. */
  lemma OnlyOwnSlot(mem: Memory, mem': Memory, port: nat, slot: nat, r: Request, at: nat)
    requires Built(mem, mem', port, slot, r) && at < REGION_SIZE
    requires !(HeaderAt(port, slot) <= at < HeaderAt(port, slot) + HEADER_SIZE)
    requires !(TableAt(port, slot) <= at < TableAt(port, slot) + TABLE_SIZE)
    ensures
      var t := TableAt(port, slot);
      mem'[at] == if t + TABLE_SIZE <= at < t + ClearedSize(Prdtl(r.count)) then 0 else mem[at]
  {
    hide LeByte, FisByte, CountWord, FlagsByte, ClearedWord, ClearedSize, Prdtl, HeaderAt, TableAt;
  }

  /** Byte `k` of the slot's table. */
  function TableByte(mem: Memory, t: nat, r: Request, k: nat): Byte
    requires t + TABLE_SIZE <= REGION_SIZE && k < TABLE_SIZE
  {
    var size := ClearedSize(Prdtl(r.count));
    if k < 20 then FisByte(r, k)
    else if FILLED <= k < FILLED + 4 then LeByte(r.buf, k - FILLED)
    else if FILLED + 12 <= k < FILLED + 16 then
      LeByte(CountWord(r.count, ClearedWord(mem, t, size, t + FILLED + 12)), k - FILLED - 12)
    else if k < size then 0
    else mem[t + k]
  }

  lemma BuiltTable(mem: Memory, mem': Memory, port: nat, slot: nat, r: Request) returns (t: nat)
    requires Built(mem, mem', port, slot, r)
    ensures t == TableAt(port, slot) && t + TABLE_SIZE <= REGION_SIZE
    ensures forall k :: 0 <= k < TABLE_SIZE ==> mem'[t + k] == TableByte(mem, t, r, k)
  {
    HeaderBelowTable(port, slot);
    hide LeByte, FisByte, CountWord, FlagsByte, ClearedWord, ClearedSize, Prdtl, HeaderAt, TableAt;
    t := TableAt(port, slot);
  }

  lemma BuiltFis(mem: Memory, mem': Memory, port: nat, slot: nat, r: Request, k: nat)
    requires Built(mem, mem', port, slot, r) && k < 20
    ensures TableAt(port, slot) + 20 <= REGION_SIZE && mem'[TableAt(port, slot) + k] == FisByte(r, k)
  {
    hide TableAt, Built, FisByte, ClearedSize, Prdtl, CountWord, ClearedWord;
    var t := BuiltTable(mem, mem', port, slot, r);
    assert mem'[t + k] == TableByte(mem, t, r, k);
  }

  lemma LbaBytes(mem: Memory, mem': Memory, port: nat, slot: nat, r: Request)
    requires Built(mem, mem', port, slot, r)
    ensures
      var t := TableAt(port, slot);
      && t + 20 <= REGION_SIZE
      && FromLe(mem'[t + 4], mem'[t + 5], mem'[t + 6], mem'[t + 8]) == r.startl
      && FromLe(mem'[t + 9], mem'[t + 10], 0, 0) == r.starth % 0x1_0000
  {
    LeRoundTrip(r.startl);
    LowHalf(r.starth);
    hide LeByte, FromLe, TableAt, Built;
    BuiltFis(mem, mem', port, slot, r, 4);
    BuiltFis(mem, mem', port, slot, r, 5);
    BuiltFis(mem, mem', port, slot, r, 6);
    BuiltFis(mem, mem', port, slot, r, 8);
    BuiltFis(mem, mem', port, slot, r, 9);
    BuiltFis(mem, mem', port, slot, r, 10);
  }

  lemma CountBytes(mem: Memory, mem': Memory, port: nat, slot: nat, r: Request)
    requires Built(mem, mem', port, slot, r)
    ensures
      var t := TableAt(port, slot);
      && t + 20 <= REGION_SIZE
      && FromLe(mem'[t + 12], mem'[t + 13], 0, 0) == r.count % 0x1_0000
  {
    LowHalf(r.count);
    hide LeByte, FromLe, TableAt, Built;
    BuiltFis(mem, mem', port, slot, r, 12);
    BuiltFis(mem, mem', port, slot, r, 13);
  }

  /** The six LBA bytes give the sector back, up to 48 bits, and the two count bytes the count, up to 16. */
  lemma FisDecodes(mem: Memory, mem': Memory, port: nat, slot: nat, r: Request)
    requires Built(mem, mem', port, slot, r)
    ensures
      var t := TableAt(port, slot);
      && t + 20 <= REGION_SIZE
      && mem'[t + 0] == 0x27 && mem'[t + 1] == 0x80 && mem'[t + 2] == 0x25 && mem'[t + 7] == 0x40
      && FromLe(mem'[t + 4], mem'[t + 5], mem'[t + 6], mem'[t + 8]) == r.startl
      && FromLe(mem'[t + 9], mem'[t + 10], 0, 0) == r.starth % 0x1_0000
      && FromLe(mem'[t + 12], mem'[t + 13], 0, 0) == r.count % 0x1_0000
  {
    hide LeByte, FromLe, TableAt, Built;
    LbaBytes(mem, mem', port, slot, r);
    CountBytes(mem, mem', port, slot, r);
    BuiltFis(mem, mem', port, slot, r, 0);
    BuiltFis(mem, mem', port, slot, r, 1);
    BuiltFis(mem, mem', port, slot, r, 2);
    BuiltFis(mem, mem', port, slot, r, 7);
  }

  /** The other bytes of the command FIS are zero. */
  lemma FisRest(mem: Memory, mem': Memory, port: nat, slot: nat, r: Request, k: nat)
    requires Built(mem, mem', port, slot, r) && (k == 3 || k == 11 || 14 <= k < 20)
    ensures TableAt(port, slot) + 20 <= REGION_SIZE && mem'[TableAt(port, slot) + k] == 0
  {
    hide LeByte, TableAt, Built;
    BuiltFis(mem, mem', port, slot, r, k);
  }

  lemma LowHalf(v: Uint32)
    ensures FromLe(LeByte(v, 0), LeByte(v, 1), 0, 0) == v % 0x1_0000
  {
    var q := v / 256;
    assert v == 256 * q + LeByte(v, 0);
    assert q == 256 * (q / 256) + LeByte(v, 1);
  }

  /** The bytes of the slot's header. */
  lemma BuiltHeader(mem: Memory, mem': Memory, port: nat, slot: nat, r: Request) returns (h: nat)
    requires Built(mem, mem', port, slot, r)
    ensures h == HeaderAt(port, slot) && h + HEADER_SIZE <= REGION_SIZE
    ensures mem'[h] == FlagsByte(mem[h]) && mem'[h + 1] == mem[h + 1]
    ensures mem'[h + 2] == LeByte(Prdtl(r.count), 0) && mem'[h + 3] == LeByte(Prdtl(r.count), 1)
    ensures mem'[h + 4..h + HEADER_SIZE] == mem[h + 4..h + HEADER_SIZE]
  {
    HeaderBelowTable(port, slot);
    hide LeByte, FisByte, CountWord, FlagsByte, ClearedWord, ClearedSize, Prdtl, HeaderAt, TableAt;
    h := HeaderAt(port, slot);
  }

  lemma FlagsMean(was: Byte)
    ensures FlagsByte(was) % 32 == 5 && FlagsByte(was) / 64 % 2 == 0
    ensures FlagsByte(was) / 32 % 2 == was / 32 % 2 && FlagsByte(was) / 128 == was / 128
  {
  }

  lemma PrdtlInField(count: Uint32)
    ensures FromLe(LeByte(Prdtl(count), 0), LeByte(Prdtl(count), 1), 0, 0) == Prdtl(count)
  {
    hide Prdtl, LeByte, FromLe;
    PrdtlRange(count);
    LowHalf(Prdtl(count));
  }

  lemma SameWord(mem: Memory, mem': Memory, from: nat, to: nat, at: nat)
    requires from <= at <= at + 4 <= to <= REGION_SIZE && mem'[from..to] == mem[from..to]
    ensures Word32(mem', at) == Word32(mem, at)
  {
    assert mem'[from..to][at - from] == mem[from..to][at - from];
    assert mem'[from..to][at + 1 - from] == mem[from..to][at + 1 - from];
    assert mem'[from..to][at + 2 - from] == mem[from..to][at + 2 - from];
    assert mem'[from..to][at + 3 - from] == mem[from..to][at + 3 - from];
    hide FromLe;
  }

  /** The header holds the FIS length, the direction and the number of entries, and keeps its table address. */
  lemma HeaderCounts(mem: Memory, mem': Memory, port: nat, slot: nat, r: Request)
    requires Built(mem, mem', port, slot, r)
    ensures
      var h := HeaderAt(port, slot);
      && h + HEADER_SIZE <= REGION_SIZE
      && Word16(mem', h + 2) == Prdtl(r.count)
      && (1 <= r.count <= MAX_SECTORS ==> Word16(mem', h + 2) == (r.count + 15) / 16)
      && mem'[h] % 32 == 5 && mem'[h] / 64 % 2 == 0
      && Word32(mem', h + 8) == Word32(mem, h + 8)
  {
    hide Prdtl, LeByte, FromLe, FlagsByte, HeaderAt, Built;
    var h := BuiltHeader(mem, mem', port, slot, r);
    if 1 <= r.count <= MAX_SECTORS {
      PrdtlIsCeiling(r.count);
    }
    FlagsMean(mem[h]);
    PrdtlInField(r.count);
    SameWord(mem, mem', h + 4, h + HEADER_SIZE, h + 8);
  }

  /** The other bits of the header's first two bytes (ATAPI, prefetchable, reset, BIST, clear busy, port
      multiplier) and everything behind the entry count stay as they were. */
  lemma HeaderKeeps(mem: Memory, mem': Memory, port: nat, slot: nat, r: Request)
    requires Built(mem, mem', port, slot, r)
    ensures
      var h := HeaderAt(port, slot);
      && h + HEADER_SIZE <= REGION_SIZE
      && mem'[h] / 32 % 2 == mem[h] / 32 % 2 && mem'[h] / 128 == mem[h] / 128 && mem'[h + 1] == mem[h + 1]
      && mem'[h + 4..h + HEADER_SIZE] == mem[h + 4..h + HEADER_SIZE]
  {
    hide Prdtl, LeByte, FlagsByte, HeaderAt, Built;
    var h := BuiltHeader(mem, mem', port, slot, r);
    FlagsMean(mem[h]);
  }

  lemma OnlyLength(b: Byte, was: Byte)
    requires b % 32 == 5 && b / 32 % 2 == was / 32 % 2 && b / 64 % 2 == 0 && b / 128 == was / 128 && was == 0
    ensures b == 5
  {
  }

  /** So on a port as `port_rebase` leaves it the first byte says FIS length 5 and nothing else. */
  lemma FreshHeader(mem: Memory, mem': Memory, port: nat, slot: nat, r: Request)
    requires Built(mem, mem', port, slot, r) && PortReady(mem, port)
    ensures
      var h := HeaderAt(port, slot);
      h + HEADER_SIZE <= REGION_SIZE && mem'[h] == 5 && mem'[h + 1] == 0
  {
    ReadyFlags(mem, port, slot);
    hide HeaderAt, Built, PortReady, Prdtl, Word16, Word32;
    HeaderCounts(mem, mem', port, slot, r);
    HeaderKeeps(mem, mem', port, slot, r);
    var h := HeaderAt(port, slot);
    OnlyLength(mem'[h], mem[h]);
  }

  lemma ReadyFlags(mem: Memory, port: nat, slot: nat)
    requires port < PORTS && slot < SLOTS && PortReady(mem, port)
    ensures
      var h := HeaderAt(port, slot);
      h + HEADER_SIZE <= REGION_SIZE && mem[h] == 0 && mem[h + 1] == 0
  {
    HeaderBelowTable(port, slot);
    hide HeaderAt, TableAt, Word16, Word32, CommandTableAddress;
    assert HeaderReady(mem, port, slot);
  }

  lemma HeadersApart(port: nat, slot: nat, other: nat)
    requires port < PORTS && slot < SLOTS && other < SLOTS && slot != other
    ensures
      var h, g := HeaderAt(port, slot), HeaderAt(port, other);
      h + HEADER_SIZE <= g || g + HEADER_SIZE <= h
  {
  }

  lemma OtherHeader(mem: Memory, mem': Memory, port: nat, slot: nat, r: Request, other: nat)
    requires Built(mem, mem', port, slot, r) && other < SLOTS && other != slot
    ensures
      var g := HeaderAt(port, other);
      g + HEADER_SIZE <= REGION_SIZE && mem'[g..g + HEADER_SIZE] == mem[g..g + HEADER_SIZE]
  {
    hide HeaderAt, TableAt, BuiltByte, ClearedSize, Prdtl;
    HeadersApart(port, slot, other);
    HeaderBelowTable(port, slot);
    HeaderBelowTable(port, other);
    var g := HeaderAt(port, other);
    forall at | g <= at < g + HEADER_SIZE
      ensures mem'[at] == mem[at]
    {
      OnlyOwnSlot(mem, mem', port, slot, r, at);
    }
  }

  /** Every header of the port still points to its table. */
  lemma TablesStayLinked(mem: Memory, mem': Memory, port: nat, slot: nat, r: Request, other: nat)
    requires Built(mem, mem', port, slot, r) && other < SLOTS
    ensures
      var at := HeaderAt(port, other) + 8;
      at + 4 <= REGION_SIZE && Word32(mem', at) == Word32(mem, at)
  {
    hide HeaderAt, Built, FromLe, Word32;
    if other == slot {
      HeaderCounts(mem, mem', port, slot, r);
    } else {
      OtherHeader(mem, mem', port, slot, r, other);
      var g := HeaderAt(port, other);
      SameWord(mem, mem', g, g + HEADER_SIZE, g + 8);
    }
  }

  /** The byte count that entry `i` of a table describes to the controller. */
  function EntryBytes(mem: Memory, table: nat, i: nat): nat {
    var at := table + PRDT_START + i * PRDT_ENTRY + 12;
    if at + 4 <= REGION_SIZE then Word32(mem, at) % 0x40_0000 + 1 else 0
  }

  function TotalBytes(mem: Memory, table: nat, n: nat): nat {
    if n == 0 then 0 else TotalBytes(mem, table, n - 1) + EntryBytes(mem, table, n - 1)
  }

  lemma CountWordCounts(count: Uint32, was: Uint32)
    ensures CountWord(count, was) % 0x40_0000 == ByteCountField(count)
  {
  }

  lemma FilledEntry(mem: Memory, mem': Memory, port: nat, slot: nat, r: Request)
    requires Built(mem, mem', port, slot, r)
    ensures EntryBytes(mem', TableAt(port, slot), 1) == ByteCountField(r.count) + 1
  {
    hide LeByte, FromLe, TableAt, ClearedWord, Built, CountWord, FisByte, Prdtl, ClearedSize, ByteCountField;
    var t := BuiltTable(mem, mem', port, slot, r);
    var was := ClearedWord(mem, t, ClearedSize(Prdtl(r.count)), t + FILLED + 12);
    CountWordCounts(r.count, was);
    LeRoundTrip(CountWord(r.count, was));
    assert mem'[t + 156] == TableByte(mem, t, r, 156) && mem'[t + 157] == TableByte(mem, t, r, 157);
    assert mem'[t + 158] == TableByte(mem, t, r, 158) && mem'[t + 159] == TableByte(mem, t, r, 159);
  }

  /** The number in four bytes of memory, lowest first. */
  function FourAt(mem: Memory, at: nat): int
    requires at + 4 <= REGION_SIZE
  {
    mem[at] as int + 0x100 * (mem[at + 1] as int) + 0x1_0000 * (mem[at + 2] as int) + 0x100_0000 * (mem[at + 3] as int)
  }

  lemma FourIs(mem: Memory, at: nat, v: Uint32)
    requires at + 4 <= REGION_SIZE
    requires forall k :: 0 <= k < 4 ==> mem[at + k] == LeByte(v, k)
    ensures FourAt(mem, at) == v
  {
    LeRoundTrip(v);
    hide LeByte;
    assert mem[at + 0] == LeByte(v, 0) && mem[at + 1] == LeByte(v, 1);
    assert mem[at + 2] == LeByte(v, 2) && mem[at + 3] == LeByte(v, 3);
  }

  /** The bits of the count word. */
  lemma CountWordBits(count: Uint32, was: Uint32)
    ensures
      var w := CountWord(count, was);
      w % 0x40_0000 == (count * 512 - 1) % 0x40_0000 && w / 0x40_0000 % 512 == was / 0x40_0000 % 512
      && w / 0x8000_0000 == 1
  {
    var low, mid := (count * 512 - 1) % 0x40_0000, was / 0x40_0000 % 512;
    assert CountWord(count, was) == low + 0x40_0000 * (mid + 512);
    assert (mid + 512) % 512 == mid;
  }

  /** The entry that is filled: the buffer's address, the whole byte count less one, the interrupt bit; its
      reserved bits are those that stood there after the clearing. */
  lemma EntryFields(mem: Memory, mem': Memory, port: nat, slot: nat, r: Request)
    requires Built(mem, mem', port, slot, r)
    ensures
      var e := TableAt(port, slot) + 144;
      && e + 16 <= REGION_SIZE
      && FourAt(mem', e) == r.buf
      && FourAt(mem', e + 12) % 0x40_0000 == (r.count * 512 - 1) % 0x40_0000
      && FourAt(mem', e + 12) / 0x8000_0000 == 1
      && FourAt(mem', e + 12) / 0x40_0000 % 512 ==
           if Prdtl(r.count) >= 2 then 0 else FourAt(mem, e + 12) / 0x40_0000 % 512
  {
    hide LeByte, FromLe, TableAt, ClearedWord, Built, CountWord, FisByte, Prdtl, ClearedSize, FourAt;
    var t := BuiltTable(mem, mem', port, slot, r);
    var size := ClearedSize(Prdtl(r.count));
    var was := ClearedWord(mem, t, size, t + 156);
    forall k | 0 <= k < 4
      ensures mem'[t + 144 + k] == LeByte(r.buf, k) && mem'[t + 156 + k] == LeByte(CountWord(r.count, was), k)
    {
      assert mem'[t + (144 + k)] == TableByte(mem, t, r, 144 + k);
      assert mem'[t + (156 + k)] == TableByte(mem, t, r, 156 + k);
    }
    FourIs(mem', t + 144, r.buf);
    FourIs(mem', t + 156, CountWord(r.count, was));
    CountWordBits(r.count, was);
    ReservedBits(mem, t, Prdtl(r.count));
  }

  lemma ReservedBits(mem: Memory, t: nat, prdtl: nat)
    requires t + TABLE_SIZE <= REGION_SIZE
    ensures
      ClearedWord(mem, t, ClearedSize(prdtl), t + 156) / 0x40_0000 % 512 ==
        if prdtl >= 2 then 0 else FourAt(mem, t + 156) / 0x40_0000 % 512
  {
    hide ClearedWord, FourAt;
    WordAfterClearing(mem, t, prdtl);
  }

  lemma WordAfterClearing(mem: Memory, t: nat, prdtl: nat)
    requires t + TABLE_SIZE <= REGION_SIZE
    ensures ClearedWord(mem, t, ClearedSize(prdtl), t + 156) == if prdtl >= 2 then 0 else FourAt(mem, t + 156)
  {
    ClearedFrom(prdtl);
    hide ClearedSize;
  }

  lemma ClearedFrom(prdtl: nat)
    ensures if prdtl >= 2 then ClearedSize(prdtl) >= 160 else ClearedSize(prdtl) <= 144
  {
  }

  /** For 1 to 8192 sectors the count of the filled entry is exactly the size of the request. */
  lemma FilledWithAll(mem: Memory, mem': Memory, port: nat, slot: nat, r: Request)
    requires Built(mem, mem', port, slot, r) && 1 <= r.count <= 8192
    ensures
      var e := TableAt(port, slot) + 144;
      e + 16 <= REGION_SIZE && FourAt(mem', e + 12) % 0x40_0000 + 1 == r.count * 512
  {
    hide FourAt, Built, TableAt;
    EntryFields(mem, mem', port, slot, r);
  }

  lemma ClearedByte(mem: Memory, mem': Memory, port: nat, slot: nat, r: Request, k: nat)
    requires Built(mem, mem', port, slot, r)
    requires 20 <= k < ClearedSize(Prdtl(r.count)) && !(FILLED <= k < FILLED + 16)
    ensures TableAt(port, slot) + k < REGION_SIZE && mem'[TableAt(port, slot) + k] == 0
  {
    HeaderBelowTable(port, slot);
    hide LeByte, HeaderAt, TableAt, ClearedWord, CountWord, FisByte, FlagsByte, Prdtl, ClearedSize;
    var at := TableAt(port, slot) + k;
    assert mem'[at] == BuiltByte(mem, port, slot, r, at);
  }

  lemma EmptyEntry(mem: Memory, mem': Memory, port: nat, slot: nat, r: Request, i: nat)
    requires Built(mem, mem', port, slot, r) && i < Prdtl(r.count) && i != 1
    ensures EntryBytes(mem', TableAt(port, slot), i) == 1
  {
    hide TableAt, Built, BuiltByte, Prdtl, ClearedSize, FromLe;
    var k := PRDT_START + i * PRDT_ENTRY + 12;
    EntryRange(r.count, i);
    FromZeros();
    ClearedByte(mem, mem', port, slot, r, k);
    ClearedByte(mem, mem', port, slot, r, k + 1);
    ClearedByte(mem, mem', port, slot, r, k + 2);
    ClearedByte(mem, mem', port, slot, r, k + 3);
  }

  lemma FromZeros()
    ensures FromLe(0, 0, 0, 0) == 0
  {
  }

  lemma EntryRange(count: Uint32, i: nat)
    requires i < Prdtl(count)
    ensures
      var k := PRDT_START + i * PRDT_ENTRY + 12;
      k + 4 <= ClearedSize(Prdtl(count)) && (i != 1 ==> k + 4 <= FILLED || FILLED + 16 <= k)
  {
    hide Prdtl;
  }

  lemma {:induction false} TotalOfEntries(mem: Memory, table: nat, n: nat, filled: nat)
    requires forall i :: 0 <= i < n ==> EntryBytes(mem, table, i) == if i == 1 then filled else 1
    ensures TotalBytes(mem, table, n) == if n < 2 then n else n - 1 + filled
  {
    hide EntryBytes;
    if n > 0 {
      TotalOfEntries(mem, table, n - 1, filled);
    }
  }

  lemma EachEntry(mem: Memory, mem': Memory, port: nat, slot: nat, r: Request, i: nat)
    requires Built(mem, mem', port, slot, r) && i < Prdtl(r.count)
    ensures EntryBytes(mem', TableAt(port, slot), i) == if i == 1 then ByteCountField(r.count) + 1 else 1
  {
    hide Built, TableAt, Prdtl, EntryBytes, ByteCountField;
    if i == 1 {
      FilledEntry(mem, mem', port, slot, r);
    } else {
      EmptyEntry(mem, mem', port, slot, r, i);
    }
  }

  /** `n` entries, all but one of them empty, cannot add up to a request that is not empty. */
  lemma NotTheSum(count: Uint32, n: nat)
    requires n < 0x1_0000 && (count == 0 ==> n == 0)
    ensures (if n < 2 then n else n + ByteCountField(count)) == count * 512 <==> count == 0
  {
    if count > 0 && n >= 2 {
      var q := (count * 512 - 1) / 0x40_0000;
      assert count * 512 - 1 == q * 0x40_0000 + ByteCountField(count);
      assert q == 0 || q >= 1;
    }
  }

  lemma PrdtlRange(count: Uint32)
    ensures Prdtl(count) < 0x1_0000 && (count == 0 ==> Prdtl(count) == 0)
  {
  }

  /** What the entries in use describe is never the size of the request, unless that is zero: because of
      the skipped loop the first entry is left empty and the rest of the request sits in the second one. */
  lemma NeverDescribesTheRequest(mem: Memory, mem': Memory, port: nat, slot: nat, r: Request)
    requires Built(mem, mem', port, slot, r)
    ensures TotalBytes(mem', TableAt(port, slot), Prdtl(r.count)) == r.count * 512 <==> r.count == 0
  {
    hide Built, BuiltByte, TableAt, Prdtl, EntryBytes, TotalBytes, ByteCountField;
    var n := Prdtl(r.count);
    forall i | 0 <= i < n
      ensures EntryBytes(mem', TableAt(port, slot), i) == if i == 1 then ByteCountField(r.count) + 1 else 1
    {
      EachEntry(mem, mem', port, slot, r, i);
    }
    TotalOfEntries(mem', TableAt(port, slot), n, ByteCountField(r.count) + 1);
    PrdtlRange(r.count);
    NotTheSum(r.count, n);
  }

  lemma PrdtlIs(count: Uint32)
    ensures Prdtl(count) == ((count - 1) % TWO_32 / 16 % 0x1_0000 + 1) % 0x1_0000
  {
  }

  lemma ClearedSizeIs(prdtl: nat)
    ensures ClearedSize(prdtl) == TABLE_HEAD + (prdtl - 1) * PRDT_ENTRY
  {
  }

  lemma FisIsCleared(mem: Memory, mid: Memory, h: nat, table: nat, count: Uint32)
    requires h + HEADER_SIZE <= table && table + TABLE_SIZE <= REGION_SIZE
    requires forall at :: 0 <= at < REGION_SIZE ==> mid[at] == HeaderStep(mem, h, table, count, at)
    ensures forall at :: table <= at < table + 20 ==> mid[at] == 0
  {
    SizeOfHead(Prdtl(count));
    hide ClearedSize, Prdtl, FlagsByte, LeByte;
  }

  // ---------- The loop as it was meant (repaired, not the code) ----------

  const SECTORS_PER_ENTRY: nat := 16

  /** Sectors before entry `i`, when each entry takes sixteen and the last one takes the rest. */
  function SectorsBefore(count: nat, i: nat): nat {
    if i * SECTORS_PER_ENTRY < count then i * SECTORS_PER_ENTRY else count
  }

  datatype Stretch = Stretch(address: nat, bytes: nat)

  function RepairedEntry(r: Request, i: nat): Stretch {
    Stretch(r.buf + SectorsBefore(r.count, i) * 512, (SectorsBefore(r.count, i + 1) - SectorsBefore(r.count, i)) * 512)
  }

  function RepairedTotal(r: Request, n: nat): nat {
    if n == 0 then 0 else RepairedTotal(r, n - 1) + RepairedEntry(r, n - 1).bytes
  }

  /** With the loop repaired the entries lie end to end from the buffer on, none is longer than 8K, and
      together they are the request. */
  lemma {:induction false} RepairedEntriesTile(r: Request, n: nat)
    requires 1 <= r.count <= MAX_SECTORS
    ensures RepairedEntry(r, n).address == r.buf + RepairedTotal(r, n)
    ensures RepairedEntry(r, n).bytes <= 0x2000
    ensures n == Prdtl(r.count) ==> RepairedTotal(r, n) == r.count * 512
  {
    if n > 0 {
      RepairedEntriesTile(r, n - 1);
    }
    PrdtlIsCeiling(r.count);
  }

  // ---------- Building and issuing ----------

  class CommandPort {
    const number: nat
    const mem: array<Byte>
    var clb: nat
    var sact: bv32
    var ci: bv32
    var issued: seq<nat>  // the slots whose bits have been written to CI
    var pending: bool     // CI still shows the bit of the last slot issued
    var taskError: bool   // PxIS shows a task file error
    var busyPolls: nat    // how often the drive has been found busy
    var patience: nat     // how many more polls may find the command neither finished nor failed

    /** The port has been rebased: its list is where the register says, and each header points to its table. */
    ghost predicate Valid()
      reads this, mem
    {
      && number < PORTS && mem.Length == REGION_SIZE && clb == AHCI_BASE + ListAt(number)
      && forall slot :: 0 <= slot < SLOTS ==>
           Word32(mem[..], HeaderAt(number, slot) + 8) == CommandTableAddress(number, slot)
    }

    /** The slots that are taken. */
    ghost function Busy(): Uint32
      reads this
    {
      AhciSlots.InUse(sact, ci)
    }

    method StoreBytes(from: nat, bytes: seq<Byte>)
      requires mem.Length == REGION_SIZE && from + |bytes| <= REGION_SIZE
      modifies mem
      ensures forall at :: 0 <= at < REGION_SIZE ==>
                mem[at] == if from <= at < from + |bytes| then bytes[at - from] else old(mem[at])
    {
      var i := 0;
      while i < |bytes|
        invariant i <= |bytes|
        invariant forall at :: 0 <= at < REGION_SIZE ==>
                    mem[at] == if from <= at < from + i then bytes[at - from] else old(mem[at])
      {
        mem[from + i] := bytes[i];
        i := i + 1;
      }
    }

    /** `memset(cmdtbl, 0, ..)`. */
    method Clear(from: nat, len: nat)
      requires mem.Length == REGION_SIZE && from + len <= REGION_SIZE
      modifies mem
      ensures forall at :: 0 <= at < REGION_SIZE ==> mem[at] == if from <= at < from + len then 0 else old(mem[at])
    {
      var i := 0;
      while i < len
        invariant i <= len
        invariant forall at :: 0 <= at < REGION_SIZE ==> mem[at] == if from <= at < from + i then 0 else old(mem[at])
      {
        mem[from + i] := 0;
        i := i + 1;
      }
    }

    method TableOf(slot: nat) returns (h: nat, table: nat)
      requires Valid() && slot < SLOTS
      ensures h == HeaderAt(number, slot) && table == TableAt(number, slot)
      ensures h + HEADER_SIZE <= table && table + TABLE_SIZE <= REGION_SIZE
    {
      h := clb - AHCI_BASE + slot * HEADER_SIZE;
      AreasDisjoint(List(number), Table(number, slot));
      assert h == HeaderAt(number, slot) && h + HEADER_SIZE <= ListAt(number) + LIST_SIZE;
      assert Word32(mem[..], h + 8) == CommandTableAddress(number, slot);
      table := FromLe(mem[h + 8], mem[h + 9], mem[h + 10], mem[h + 11]) - AHCI_BASE;
    }

    /** The writes to the header, and the clearing of the table. */
    method FillHeader(h: nat, table: nat, count: Uint32)
      requires mem.Length == REGION_SIZE && h + HEADER_SIZE <= table && table + TABLE_SIZE <= REGION_SIZE
      requires table + ClearedSize(Prdtl(count)) <= REGION_SIZE
      modifies mem
      ensures forall at :: 0 <= at < REGION_SIZE ==> mem[at] == HeaderStep(old(mem[..]), h, table, count, at)
    {
      var prdtl := ((count - 1) % TWO_32 / 16 % 0x1_0000 + 1) % 0x1_0000;
      var size := TABLE_HEAD + (prdtl - 1) * PRDT_ENTRY;
      hide FlagsByte, LeByte, Prdtl, ClearedSize;
      PrdtlIs(count);
      ClearedSizeIs(prdtl);
      StoreBytes(h, [FlagsByte(mem[h])]);
      StoreBytes(h + 2, [LeByte(prdtl, 0), LeByte(prdtl, 1)]);
      Clear(table, size);
    }

    /** The PRDT entry and the command FIS. */
    method FillTable(table: nat, r: Request)
      requires mem.Length == REGION_SIZE && table + TABLE_SIZE <= REGION_SIZE
      requires forall at :: table <= at < table + 20 ==> mem[at] == 0
      modifies mem
      ensures forall at :: 0 <= at < REGION_SIZE ==> mem[at] == TableStep(old(mem[..]), table, r, at)
    {
      hide CountWord, FromLe, LeByte, FisByte;
      // for (i<cmdheader->prdtl-1; i++;): the test reads 0 and the index becomes 1.
      var i := 1;
      var e := table + PRDT_START + i * PRDT_ENTRY;
      var w := CountWord(r.count, FromLe(mem[e + 12], mem[e + 13], mem[e + 14], mem[e + 15]));
      StoreBytes(e, [LeByte(r.buf, 0), LeByte(r.buf, 1), LeByte(r.buf, 2), LeByte(r.buf, 3)]);
      StoreBytes(e + 12, [LeByte(w, 0), LeByte(w, 1), LeByte(w, 2), LeByte(w, 3)]);
      FillFis(table, r);
    }

    method FillFis(table: nat, r: Request)
      requires mem.Length == REGION_SIZE && table + TABLE_SIZE <= REGION_SIZE
      requires forall at :: table <= at < table + 20 ==> mem[at] == 0
      modifies mem
      ensures forall at :: 0 <= at < REGION_SIZE ==>
                mem[at] == if table <= at < table + 20 then FisByte(r, at - table) else old(mem[at])
    {
      hide LeByte;
      StoreBytes(table, [0x27, 0x80, 0x25]);
      StoreBytes(table + 4, [LeByte(r.startl, 0), LeByte(r.startl, 1), LeByte(r.startl, 2), 0x40]);
      StoreBytes(table + 8, [LeByte(r.startl, 3), LeByte(r.starth, 0), LeByte(r.starth, 1)]);
      StoreBytes(table + 12, [LeByte(r.count, 0), LeByte(r.count, 1)]);
    }

    /** All the writes for one command. */
    method Build(slot: nat, r: Request)
      requires Valid() && slot < SLOTS && InRegion(number, slot, r.count)
      modifies mem
      ensures Valid() && Built(old(mem[..]), mem[..], number, slot, r)
    {
      ghost var before := mem[..];
      var h, table := TableOf(slot);
      hide Prdtl, ClearedSize, HeaderStep, TableStep, TableAt, HeaderAt, BuiltByte;
      FillHeader(h, table, r.count);
      ghost var mid := mem[..];
      FisIsCleared(before, mid, h, table, r.count);
      FillTable(table, r);
      StepsBuild(before, mid, mem[..], number, slot, r);
      hide Built, Word32;
      forall other | 0 <= other < SLOTS
        ensures Word32(mem[..], HeaderAt(number, other) + 8) == CommandTableAddress(number, other)
      {
        TablesStayLinked(before, mem[..], number, slot, r, other);
      }
    }

    /** One read of the drive's status, which may go either way. */
    method IsBusy() returns (busy: bool)
      modifies this`busyPolls
      ensures busyPolls == old(busyPolls) + if busy then 1 else 0
    {
      busy := *;
      busyPolls := busyPolls + if busy then 1 else 0;
    }

    /** The bounded wait for the drive to become ready, whatever each read of its status says. */
    method SpinWhileBusy() returns (spin: nat)
      modifies this`busyPolls
      ensures spin <= MAX_SPIN && old(busyPolls) + spin <= busyPolls <= old(busyPolls) + spin + 1
      ensures spin < MAX_SPIN ==> busyPolls == old(busyPolls) + spin
    {
      spin := 0;
      var busy := IsBusy();
      while busy && spin < MAX_SPIN
        invariant spin <= MAX_SPIN
        invariant busyPolls == old(busyPolls) + spin + if busy then 1 else 0
      {
        spin := spin + 1;
        busy := IsBusy();
      }
    }

    /** The device moves before every poll: it may finish the command, or report a task file error that stays. */
    method DeviceTurn()
      modifies this`pending, this`taskError, this`patience
      ensures old(taskError) ==> taskError
      ensures pending ==> old(pending)
      ensures pending && !taskError ==> patience < old(patience)
    {
      var finish: bool := *;
      var fail: bool := *;
      if patience == 0 {
        finish := true;
      } else {
        patience := patience - 1;
      }
      pending := pending && !finish;
      taskError := taskError || fail;
    }

    method Issue(slot: nat)
      modifies this`issued, this`pending
      ensures issued == old(issued) + [slot] && pending
    {
      issued := issued + [slot];
      pending := true;
    }

    /** The polling loop after the command has been issued: it ends, and reports success only for a command
        that is finished and has not failed. */
    method WaitForCompletion() returns (ok: bool)
      modifies this`pending, this`taskError, this`patience
      ensures ok ==> !pending && !taskError
      ensures !ok ==> taskError
    {
      while true
        decreases patience
      {
        DeviceTurn();
        if !pending {
          break;
        }
        if taskError {
          return false;
        }
      }
      ok := !taskError;
    }

    /** `read`: without a free slot nothing happens; otherwise the slot's command is built and, unless the
        drive is found busy a million times, issued, and then the result says whether it finished without a
        task file error. */
    method Read(r: Request) returns (ok: bool)
      requires Valid()
      requires var slot := AhciSlots.FoundSlot(Busy()); slot >= 0 ==> InRegion(number, slot, r.count)
      modifies mem, this`issued, this`pending, this`taskError, this`busyPolls, this`patience
      ensures Valid()
      ensures
        var slot := AhciSlots.FoundSlot(old(Busy()));
        if slot < 0 then !ok && mem[..] == old(mem[..]) && issued == old(issued) && busyPolls == old(busyPolls)
        else
          && Built(old(mem[..]), mem[..], number, slot, r)
          && if busyPolls >= old(busyPolls) + 1_000_000 then !ok && issued == old(issued)
             else issued == old(issued) + [slot] && (ok <==> !taskError) && (ok ==> !pending)
    {
      hide Built, AhciSlots.FoundSlot, AhciSlots.InUse;
      taskError := false;
      var slot := AhciSlots.FindCmdslot(sact, ci);
      if slot == -1 {
        return false;
      }
      Build(slot, r);
      var spin := SpinWhileBusy();
      if spin == MAX_SPIN {
        return false;
      }
      Issue(slot);
      ok := WaitForCompletion();
    }
  }
}
