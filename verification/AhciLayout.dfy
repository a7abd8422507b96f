/** The memory that `port_rebase` hands to an AHCI controller (disk.c), as bytes from AHCI_BASE on. */
module AhciLayout {
  import opened CInt

  const AHCI_BASE: nat := 0x40_0000
  const FIS_START: nat := 0x8000
  const TABLE_START: nat := 0xA000
  const REGION_SIZE: nat := 0x4_A000
  const PORTS: nat := 32
  const SLOTS: nat := 32
  const LIST_SIZE: nat := 1024
  const HEADER_SIZE: nat := 32
  const FIS_SIZE: nat := 256
  const TABLE_SIZE: nat := 256

  type Memory = m: seq<Byte> | |m| == REGION_SIZE witness seq(REGION_SIZE, _ => 0)

  // Offsets from AHCI_BASE.

  function ListAt(port: nat): nat {
    port * LIST_SIZE
  }

  function HeaderAt(port: nat, slot: nat): nat {
    ListAt(port) + slot * HEADER_SIZE
  }

  function FisAt(port: nat): nat {
    FIS_START + port * FIS_SIZE
  }

  function TableAt(port: nat, slot: nat): nat {
    TABLE_START + port * SLOTS * TABLE_SIZE + slot * TABLE_SIZE
  }

  // ---------- The areas ----------

  datatype Area = List(port: nat) | Fis(port: nat) | Table(port: nat, slot: nat)

  predicate IsArea(a: Area) {
    a.port < PORTS && (a.Table? ==> a.slot < SLOTS)
  }

  function Start(a: Area): nat {
    match a
    case List(p) => ListAt(p)
    case Fis(p) => FisAt(p)
    case Table(p, i) => TableAt(p, i)
  }

  function Size(a: Area): nat {
    match a
    case List(_) => LIST_SIZE
    case Fis(_) => FIS_SIZE
    case Table(_, _) => TABLE_SIZE
  }

  /** Different areas do not overlap, whatever ports and slots they belong to, and all are in the region. */
  lemma AreasDisjoint(a: Area, b: Area)
    requires IsArea(a) && IsArea(b) && a != b
    ensures Start(a) + Size(a) <= Start(b) || Start(b) + Size(b) <= Start(a)
    ensures Start(a) + Size(a) <= REGION_SIZE
  {
  }

  /** Command lists are on 1K boundaries, received-FIS areas on 256 bytes, command tables on 128. */
  lemma AreasAligned(a: Area)
    requires IsArea(a)
    ensures a.List? ==> (AHCI_BASE + Start(a)) % 1024 == 0
    ensures a.Fis? ==> (AHCI_BASE + Start(a)) % 256 == 0
    ensures a.Table? ==> (AHCI_BASE + Start(a)) % 128 == 0
    ensures AHCI_BASE + Start(a) + Size(a) < TWO_32
  {
  }

  /** The port a byte of the region belongs to. */
  function Owner(at: nat): nat
    requires at < REGION_SIZE
  {
    if at < FIS_START then at / LIST_SIZE
    else if at < TABLE_START then (at - FIS_START) / FIS_SIZE
    else (at - TABLE_START) / (SLOTS * TABLE_SIZE)
  }

  lemma OwnerOfArea(a: Area, at: nat)
    requires IsArea(a) && Start(a) <= at < Start(a) + Size(a)
    ensures at < REGION_SIZE && Owner(at) == a.port
  {
  }

  /** The addresses, in the shifts they are written with: 1K and 8K a port, 256 bytes a slot. */
  lemma Places(port: nat, slot: nat)
    requires port < PORTS && slot < SLOTS
    ensures AHCI_BASE + ListAt(port) == 0x40_0000 + port * 0x400
    ensures AHCI_BASE + FisAt(port) == 0x40_0000 + 32 * 0x400 + port * 0x100
    ensures CommandTableAddress(port, slot) == 0x40_0000 + 40 * 0x400 + port * 0x2000 + slot * 0x100
  {
  }

  // ---------- What rebasing a port leaves in memory ----------

  function CommandTableAddress(port: nat, slot: nat): nat {
    AHCI_BASE + TableAt(port, slot)
  }

  /** Byte `b` of a fresh command header: eight PRDT entries, and the address of its own table. */
  function HeaderByte(port: nat, slot: nat, b: nat): Byte {
    if b == 2 then 8
    else if 8 <= b < 12 then LeByte(CommandTableAddress(port, slot), b - 8)
    else 0
  }

  function RebasedByte(port: nat, at: nat, was: Byte): Byte
    requires at < REGION_SIZE
  {
    if Owner(at) != port then was
    else if at < FIS_START then HeaderByte(port, at % LIST_SIZE / HEADER_SIZE, at % HEADER_SIZE)
    else 0
  }

  function Rebased(mem: Memory, port: nat): Memory {
    seq(REGION_SIZE, at requires 0 <= at < REGION_SIZE => RebasedByte(port, at, mem[at]))
  }

  function Word16(mem: Memory, at: nat): nat
    requires at + 2 <= REGION_SIZE
  {
    FromLe(mem[at], mem[at + 1], 0, 0)
  }

  function Word32(mem: Memory, at: nat): Uint32
    requires at + 4 <= REGION_SIZE
  {
    FromLe(mem[at], mem[at + 1], mem[at + 2], mem[at + 3])
  }

  predicate ZeroFrom(mem: Memory, from: nat, len: nat)
    requires from + len <= REGION_SIZE
  {
    forall at :: from <= at < from + len ==> mem[at] == 0
  }

  /** A header says eight entries, points to its own table below 4G, and is zero elsewhere. */
  predicate HeaderReady(mem: Memory, port: nat, slot: nat)
    requires port < PORTS && slot < SLOTS
  {
    var h := HeaderAt(port, slot);
    && Word16(mem, h + 2) == 8
    && Word32(mem, h + 8) == CommandTableAddress(port, slot)
    && ZeroFrom(mem, h, 2) && ZeroFrom(mem, h + 4, 4) && ZeroFrom(mem, h + 12, 20)
  }

  predicate PortReady(mem: Memory, port: nat)
    requires port < PORTS
  {
    && (forall slot :: 0 <= slot < SLOTS ==>
          HeaderReady(mem, port, slot) && ZeroFrom(mem, TableAt(port, slot), TABLE_SIZE))
    && ZeroFrom(mem, FisAt(port), FIS_SIZE)
  }

  /** `mem` and `mem'` agree on everything that belongs to a port. */
  predicate SamePort(mem: Memory, mem': Memory, port: nat) {
    forall at :: 0 <= at < REGION_SIZE && Owner(at) == port ==> mem[at] == mem'[at]
  }

  lemma HeaderBytes(mem: Memory, port: nat, slot: nat, b: nat)
    requires port < PORTS && slot < SLOTS && b < HEADER_SIZE
    ensures HeaderAt(port, slot) + b < REGION_SIZE
    ensures Rebased(mem, port)[HeaderAt(port, slot) + b] == HeaderByte(port, slot, b)
  {
    var at := HeaderAt(port, slot) + b;
    OwnerOfArea(List(port), at);
    assert at % LIST_SIZE == slot * HEADER_SIZE + b;
    assert at % LIST_SIZE / HEADER_SIZE == slot && at % HEADER_SIZE == b;
  }

  lemma HeaderBytesReady(mem: Memory, port: nat, slot: nat)
    requires port < PORTS && slot < SLOTS
    requires
      var h := HeaderAt(port, slot);
      forall at :: h <= at < h + HEADER_SIZE ==> mem[at] == HeaderByte(port, slot, at - h)
    ensures HeaderReady(mem, port, slot)
  {
    var h := HeaderAt(port, slot);
    var a := CommandTableAddress(port, slot);
    assert a < TWO_32;
    LeRoundTrip(a);
    hide CommandTableAddress, LeByte, FromLe, HeaderAt;
    assert mem[h + 8] == LeByte(a, 0) && mem[h + 9] == LeByte(a, 1);
    assert mem[h + 10] == LeByte(a, 2) && mem[h + 11] == LeByte(a, 3);
    assert Word16(mem, h + 2) == FromLe(8, 0, 0, 0);
    FromSmall(8);
  }

  lemma FromSmall(b: Byte)
    ensures FromLe(b, 0, 0, 0) == b
  {
  }

  lemma RebasedHeader(mem: Memory, port: nat, slot: nat)
    requires port < PORTS && slot < SLOTS
    ensures HeaderReady(Rebased(mem, port), port, slot)
  {
    var h := HeaderAt(port, slot);
    forall at | h <= at < h + HEADER_SIZE
      ensures at < REGION_SIZE && Rebased(mem, port)[at] == HeaderByte(port, slot, at - h)
    {
      HeaderBytes(mem, port, slot, at - h);
    }
    hide Rebased, HeaderByte;
    HeaderBytesReady(Rebased(mem, port), port, slot);
  }

  lemma RebasedZeros(mem: Memory, a: Area)
    requires IsArea(a) && !a.List?
    ensures Start(a) + Size(a) <= REGION_SIZE && ZeroFrom(Rebased(mem, a.port), Start(a), Size(a))
  {
    forall at | Start(a) <= at < Start(a) + Size(a)
      ensures at < REGION_SIZE && Rebased(mem, a.port)[at] == 0
    {
      OwnerOfArea(a, at);
    }
  }

  /** One call sets its port up and leaves every byte of the others alone. */
  lemma RebaseOne(mem: Memory, port: nat)
    requires port < PORTS
    ensures PortReady(Rebased(mem, port), port)
    ensures forall other :: 0 <= other < PORTS && other != port ==> SamePort(mem, Rebased(mem, port), other)
  {
    forall slot | 0 <= slot < SLOTS
      ensures HeaderReady(Rebased(mem, port), port, slot)
      ensures ZeroFrom(Rebased(mem, port), TableAt(port, slot), TABLE_SIZE)
    {
      RebasedHeader(mem, port, slot);
      RebasedZeros(mem, Table(port, slot));
    }
    RebasedZeros(mem, Fis(port));
  }

  /** A port's readiness depends on its own bytes only. */
  lemma ReadyFrame(mem: Memory, mem': Memory, port: nat)
    requires port < PORTS && PortReady(mem, port) && SamePort(mem, mem', port)
    ensures PortReady(mem', port)
  {
    forall a, at | IsArea(a) && a.port == port && Start(a) <= at < Start(a) + Size(a)
      ensures at < REGION_SIZE && mem[at] == mem'[at]
    {
      OwnerOfArea(a, at);
    }
    forall slot | 0 <= slot < SLOTS
      ensures HeaderReady(mem', port, slot) && ZeroFrom(mem', TableAt(port, slot), TABLE_SIZE)
    {
      var h := HeaderAt(port, slot);
      assert Start(List(port)) <= h && h + HEADER_SIZE <= Start(List(port)) + LIST_SIZE;
      assert forall at :: h <= at < h + HEADER_SIZE ==> mem[at] == mem'[at];
      assert Start(Table(port, slot)) == TableAt(port, slot);
    }
    assert Start(Fis(port)) == FisAt(port);
  }

  function RebaseAll(mem: Memory, ports: seq<nat>): Memory {
    if ports == [] then mem else Rebased(RebaseAll(mem, ports[..|ports| - 1]), ports[|ports| - 1])
  }

  /** After any calls, in any order and with repeats: every rebased port is set up, all others are untouched. */
  lemma {:induction false} RebaseMany(mem: Memory, ports: seq<nat>, port: nat)
    requires port < PORTS && forall k :: 0 <= k < |ports| ==> ports[k] < PORTS
    ensures port in ports ==> PortReady(RebaseAll(mem, ports), port)
    ensures port !in ports ==> SamePort(mem, RebaseAll(mem, ports), port)
    decreases |ports|
  {
    hide PortReady, Rebased, SamePort;
    if ports == [] {
      SamePortReflexive(mem, port);
    } else {
      var init, last := ports[..|ports| - 1], ports[|ports| - 1];
      var before := RebaseAll(mem, init);
      RebaseMany(mem, init, port);
      RebaseOne(before, last);
      if port != last {
        assert port in ports <==> port in init;
        if port in init {
          ReadyFrame(before, Rebased(before, last), port);
        } else {
          SamePortTransitive(mem, before, Rebased(before, last), port);
        }
      }
    }
  }

  lemma SamePortReflexive(mem: Memory, port: nat)
    ensures SamePort(mem, mem, port)
  {
  }

  lemma SamePortTransitive(m0: Memory, m1: Memory, m2: Memory, port: nat)
    requires SamePort(m0, m1, port) && SamePort(m1, m2, port)
    ensures SamePort(m0, m2, port)
  {
  }
}
