/** The driver's side of disk.c, working on a port's registers and on the memory it shares with the controller.
    Every access of the port is a move of the protocol of AhciProtocol. */
module AhciDriver {
  import opened CInt
  import opened AhciLayout
  import P = AhciProtocol

  /** What one read of the command register shows. */
  datatype Command = Command(st: bool, fre: bool, fr: bool, cr: bool)

  // ---------- How far the set-up has come ----------

  /** Byte `at` when the lists and the FIS area are zeroed and the first `n` slots are set up. */
  function StageByte(port: nat, n: nat, at: nat, was: Byte): Byte
    requires at < REGION_SIZE
  {
    if Owner(at) != port then was
    else if at < FIS_START then
      if at % LIST_SIZE / HEADER_SIZE < n then HeaderByte(port, at % LIST_SIZE / HEADER_SIZE, at % HEADER_SIZE) else 0
    else if at < TABLE_START || (at - TableAt(port, 0)) / TABLE_SIZE < n then 0
    else was
  }

  lemma StageStep(port: nat, n: nat, at: nat, was: Byte)
    requires port < PORTS && n < SLOTS && at < REGION_SIZE
    ensures
      StageByte(port, n + 1, at, was) ==
        if HeaderAt(port, n) <= at < HeaderAt(port, n) + HEADER_SIZE then HeaderByte(port, n, at - HeaderAt(port, n))
        else if TableAt(port, n) <= at < TableAt(port, n) + TABLE_SIZE then 0
        else StageByte(port, n, at, was)
    ensures HeaderAt(port, n) <= at < HeaderAt(port, n) + HEADER_SIZE ==> StageByte(port, n, at, was) == 0
  {
    hide HeaderByte;
    if Owner(at) == port {
      if at < FIS_START {
        assert at == port * LIST_SIZE + at % LIST_SIZE;
        assert at % LIST_SIZE == at % LIST_SIZE / HEADER_SIZE * HEADER_SIZE + at % HEADER_SIZE;
      } else if at >= TABLE_START {
        var b := at - TableAt(port, 0);
        assert b == b / TABLE_SIZE * TABLE_SIZE + b % TABLE_SIZE;
      }
    }
  }

  lemma LastStage(port: nat, at: nat, was: Byte)
    requires port < PORTS && at < REGION_SIZE
    ensures StageByte(port, SLOTS, at, was) == RebasedByte(port, at, was)
  {
    hide HeaderByte;
    if Owner(at) == port && at >= TABLE_START {
      assert at - TableAt(port, 0) < SLOTS * TABLE_SIZE;
    }
  }

  /** Before the first slot: only the list and the FIS area have changed. */
  lemma FirstStage(port: nat, at: nat, was: Byte)
    requires port < PORTS && at < REGION_SIZE
    ensures
      StageByte(port, 0, at, was) ==
        if ListAt(port) <= at < ListAt(port) + LIST_SIZE || FisAt(port) <= at < FisAt(port) + FIS_SIZE then 0 else was
  {
    if Owner(at) == port && at >= TABLE_START {
      assert at >= TableAt(port, 0);
    }
  }

  /** All bytes of the memory are at the stage with `n` slots set up. */
  predicate Staged(port: nat, n: nat, was: Memory, now: Memory) {
    forall at :: 0 <= at < REGION_SIZE ==> now[at] == StageByte(port, n, at, was[at])
  }

  lemma FirstStages(port: nat, was: Memory, now: Memory)
    requires port < PORTS
    requires forall at :: 0 <= at < REGION_SIZE ==>
               now[at] ==
                 if ListAt(port) <= at < ListAt(port) + LIST_SIZE || FisAt(port) <= at < FisAt(port) + FIS_SIZE then 0
                 else was[at]
    ensures Staged(port, 0, was, now)
  {
    hide StageByte, ListAt, FisAt;
    forall at | 0 <= at < REGION_SIZE
      ensures now[at] == StageByte(port, 0, at, was[at])
    {
      FirstStage(port, at, was[at]);
    }
  }

  lemma HeaderIsZero(port: nat, n: nat, was: Memory, now: Memory)
    requires port < PORTS && n < SLOTS && Staged(port, n, was, now)
    ensures HeaderAt(port, n) + HEADER_SIZE <= REGION_SIZE
    ensures forall at :: HeaderAt(port, n) <= at < HeaderAt(port, n) + HEADER_SIZE ==> now[at] == 0
  {
    HeaderInRegion(port, n);
    hide StageByte, HeaderAt, TableAt;
    forall at | HeaderAt(port, n) <= at < HeaderAt(port, n) + HEADER_SIZE
      ensures now[at] == 0
    {
      StageStep(port, n, at, was[at]);
    }
  }

  lemma NextStages(port: nat, n: nat, was: Memory, now: Memory, next: Memory)
    requires port < PORTS && n < SLOTS && Staged(port, n, was, now)
    requires forall at :: 0 <= at < REGION_SIZE ==>
               next[at] ==
                 if HeaderAt(port, n) <= at < HeaderAt(port, n) + HEADER_SIZE then
                   HeaderByte(port, n, at - HeaderAt(port, n))
                 else if TableAt(port, n) <= at < TableAt(port, n) + TABLE_SIZE then 0
                 else now[at]
    ensures Staged(port, n + 1, was, next)
  {
    hide StageByte, HeaderByte, HeaderAt, TableAt;
    forall at | 0 <= at < REGION_SIZE
      ensures next[at] == StageByte(port, n + 1, at, was[at])
    {
      StageStep(port, n, at, was[at]);
    }
  }

  lemma LastStages(port: nat, was: Memory, now: Memory)
    requires port < PORTS && Staged(port, SLOTS, was, now)
    ensures now == Rebased(was, port)
  {
    hide StageByte, RebasedByte;
    forall at | 0 <= at < REGION_SIZE
      ensures now[at] == RebasedByte(port, at, was[at])
    {
      LastStage(port, at, was[at]);
    }
  }

  // ---------- The port in the protocol ----------

  /** Where the driver is after `n` set-up writes. */
  function PointAfter(n: nat): P.Point {
    if n < P.SETUP_WRITES then P.SetUp(n) else P.PollStart
  }

  /** A set-up write finds the port idle. */
  lemma SetUpPoint(p: P.Port)
    requires p.at.SetUp? && P.Invariant(p)
    ensures P.Idle(p) && p.at.done < P.SETUP_WRITES
    ensures P.Next(p.at, false, false) == PointAfter(p.at.done + 1)
  {
  }

  lemma StartPoint(p: P.Port)
    requires p.at.PollStart? && P.Invariant(p)
    ensures P.Idle(p)
  {
  }

  lemma NoCopy(point: P.Point)
    requires P.Writes(point)
    ensures !P.Copies(point)
  {
  }

  // ---------- The port ----------

  class HbaPort {
    const number: nat
    const mem: array<Byte>
    var st: bool
    var fre: bool
    var fr: bool
    var cr: bool
    var clb: nat
    var clbu: nat
    var fb: nat
    var fbu: nat
    /** For how many more turns the controller may keep FR or CR up after the driver has withdrawn FRE or ST. */
    var patience: nat

    // The protocol's side: where the driver is, what it read last, and the moves since the call began at `first`.
    ghost var point: P.Point
    ghost var copySt: bool
    ghost var copyFre: bool
    ghost var first: P.Port
    ghost var moves: seq<P.Move>

    ghost predicate Valid() {
      number < PORTS && mem.Length == REGION_SIZE
    }

    ghost function State(): P.Port
      reads this
    {
      P.Port(point, copySt, copyFre, st, fre, fr, cr)
    }

    /** The port is where the protocol comes to by the moves made so far. */
    ghost predicate InProtocol()
      reads this
    {
      first.at == P.ReadToClearSt && State() == P.After(first, moves)
    }

    lemma ProtocolInvariant()
      requires InProtocol()
      ensures P.Invariant(State())
      ensures P.RaisesSt(State()) ==> fre && !cr
    {
      P.InvariantHolds(first, moves);
      P.SafeInEveryInterleaving(first, moves);
    }

    /** The controller moves before every access of the driver: its bits may fall at any time, FR rises only
        under FRE and CR only under ST, and it lets go of a stopped port before its patience is used up. */
    method ControllerTurn()
      requires InProtocol()
      modifies this`fr, this`cr, this`patience, this`moves
      ensures InProtocol() && State() == P.ControllerStep(old(State()), fr, cr)
      ensures patience <= old(patience)
      ensures (fr && !fre) || (cr && !st) ==> patience < old(patience)
    {
      hide P.After;
      var wantFr: bool := *;
      var wantCr: bool := *;
      if patience > 0 {
        patience := patience - 1;
        fr := wantFr && (fr || fre);
        cr := wantCr && (cr || st);
      } else {
        fr := wantFr && fre;
        cr := wantCr && st;
      }
      P.AfterAppend(first, moves, P.Controller(fr, cr));
      moves := moves + [P.Controller(fr, cr)];
    }

    /** The protocol's side of an access that does not write the command register. */
    ghost method Access()
      requires InProtocol() && !P.Writes(point)
      modifies this`point, this`copySt, this`copyFre, this`moves
      ensures InProtocol() && point == P.Next(old(point), fr, cr)
      ensures copySt == (if P.Copies(old(point)) then st else old(copySt))
      ensures copyFre == (if P.Copies(old(point)) then fre else old(copyFre))
    {
      hide P.After, P.Next, P.Writes, P.Copies;
      P.AfterAppend(first, moves, P.Driver);
      if P.Copies(point) {
        copySt, copyFre := st, fre;
      }
      point, moves := P.Next(point, fr, cr), moves + [P.Driver];
    }

    method ReadCmd() returns (c: Command)
      requires InProtocol() && (P.Copies(point) || P.Polls(point))
      modifies this`fr, this`cr, this`patience, this`moves, this`point, this`copySt, this`copyFre
      ensures InProtocol() && point == P.Next(old(point), fr, cr)
      ensures copySt == (if P.Copies(old(point)) then st else old(copySt))
      ensures copyFre == (if P.Copies(old(point)) then fre else old(copyFre))
      ensures patience <= old(patience)
      ensures (fr && !fre) || (cr && !st) ==> patience < old(patience)
      ensures c == Command(st, fre, fr, cr)
    {
      hide InProtocol, P.Next;
      ControllerTurn();
      c := Command(st, fre, fr, cr);
      Access();
    }

    /** Writing the command register; ST is raised only with FRE set and CR clear. */
    method WriteCmd(newSt: bool, newFre: bool)
      requires InProtocol() && P.Writes(point)
      requires newSt == P.StoredSt(point, copySt) && newFre == P.StoredFre(point, copyFre)
      modifies this`fr, this`cr, this`patience, this`moves, this`point, this`st, this`fre
      ensures InProtocol() && point == P.Next(old(point), fr, cr)
      ensures st == newSt && fre == newFre
      ensures newSt && !old(st) ==> old(fre) && !cr
      ensures patience <= old(patience)
    {
      hide P.After, P.Next, P.Writes, P.Copies, P.StoredSt, P.StoredFre;
      ControllerTurn();
      ProtocolInvariant();
      NoCopy(point);
      P.AfterAppend(first, moves, P.Driver);
      point, moves := P.Next(point, fr, cr), moves + [P.Driver];
      st, fre := newSt, newFre;
    }

    /** The turn of one set-up write, which finds all four bits clear. */
    method SetUpTurn()
      requires InProtocol() && point.SetUp?
      modifies this`fr, this`cr, this`patience, this`moves, this`point, this`copySt, this`copyFre
      ensures InProtocol() && old(P.Idle(State())) && old(point.done) < P.SETUP_WRITES
      ensures point == PointAfter(old(point.done) + 1)
    {
      hide InProtocol, P.Invariant;
      ProtocolInvariant();
      SetUpPoint(State());
      ControllerTurn();
      Access();
    }

    /** Writing the address registers. */
    method WriteClb(low: nat, high: nat)
      requires InProtocol() && point == P.SetUp(0)
      modifies this`fr, this`cr, this`patience, this`moves, this`point, this`copySt, this`copyFre, this`clb, this`clbu
      ensures InProtocol() && point == P.SetUp(2) && clb == low && clbu == high
    {
      SetUpTurn();
      clb := low;
      SetUpTurn();
      clbu := high;
    }

    method WriteFb(low: nat, high: nat)
      requires InProtocol() && point == P.SetUp(3)
      modifies this`fr, this`cr, this`patience, this`moves, this`point, this`copySt, this`copyFre, this`fb, this`fbu
      ensures InProtocol() && point == P.SetUp(5) && fb == low && fbu == high
    {
      SetUpTurn();
      fb := low;
      SetUpTurn();
      fbu := high;
    }

    /** `memset(.., 0, ..)` on memory the controller uses. */
    method Zero(from: nat, len: nat)
      requires InProtocol() && point.SetUp? && from + len <= mem.Length
      modifies mem, this`fr, this`cr, this`patience, this`moves, this`point, this`copySt, this`copyFre
      ensures InProtocol() && point == PointAfter(old(point.done) + 1)
      ensures forall at :: 0 <= at < mem.Length ==> mem[at] == if from <= at < from + len then 0 else old(mem[at])
    {
      hide InProtocol;
      SetUpTurn();
      var i := 0;
      while i < len
        invariant i <= len && InProtocol() && point == PointAfter(old(point.done) + 1)
        invariant forall at :: 0 <= at < mem.Length ==> mem[at] == if from <= at < from + i then 0 else old(mem[at])
      {
        mem[from + i] := 0;
        i := i + 1;
      }
    }

    /** A little-endian field of `len` bytes in memory the controller uses. */
    method WriteField(from: nat, value: nat, len: nat)
      requires InProtocol() && point.SetUp? && from + len <= mem.Length
      modifies mem, this`fr, this`cr, this`patience, this`moves, this`point, this`copySt, this`copyFre
      ensures InProtocol() && point == PointAfter(old(point.done) + 1)
      ensures forall at :: 0 <= at < mem.Length ==>
                mem[at] == if from <= at < from + len then LeByte(value, at - from) else old(mem[at])
    {
      hide InProtocol, LeByte;
      SetUpTurn();
      var i := 0;
      while i < len
        invariant i <= len && InProtocol() && point == PointAfter(old(point.done) + 1)
        invariant forall at :: 0 <= at < mem.Length ==>
                    mem[at] == if from <= at < from + i then LeByte(value, at - from) else old(mem[at])
      {
        mem[from + i] := LeByte(value, i);
        i := i + 1;
      }
    }

    /** The protocol's record of a call starts in the state the port is in. */
    ghost method BeginCall()
      modifies this`point, this`first, this`moves
      ensures InProtocol() && first == old(State()).(at := P.ReadToClearSt) && point.ReadToClearSt?
    {
      point := P.ReadToClearSt;
      first, moves := State(), [];
    }

    /** The first half of `stop_cmd`: ST and then FRE are withdrawn, one read and one write each. */
    method Withdraw()
      requires InProtocol() && point.ReadToClearSt?
      modifies this`fr, this`cr, this`patience, this`moves, this`point, this`copySt, this`copyFre, this`st, this`fre
      ensures InProtocol() && point.PollFr? && !st && !fre
    {
      hide InProtocol;
      var c := ReadCmd();
      WriteCmd(false, c.fre);
      c := ReadCmd();
      WriteCmd(c.st, false);
    }

    /** `stop_cmd`: the polling loop ends, with all four bits clear. */
    method StopCmd()
      requires InProtocol() && point.ReadToClearSt?
      modifies this`fr, this`cr, this`patience, this`moves, this`point, this`copySt, this`copyFre, this`st, this`fre
      ensures InProtocol() && point == P.SetUp(0) && P.Idle(State())
    {
      hide InProtocol, P.Invariant;
      Withdraw();
      while true
        invariant InProtocol() && point.PollFr? && !st && !fre
        decreases patience
      {
        var c := ReadCmd();
        if c.fr {
          continue;
        }
        c := ReadCmd();
        if c.cr {
          continue;
        }
        break;
      }
      ProtocolInvariant();
      SetUpPoint(State());
    }

    /** `start_cmd` on a port that has been stopped. */
    method StartCmd()
      requires InProtocol() && point.PollStart?
      modifies this`fr, this`cr, this`patience, this`moves, this`point, this`copySt, this`copyFre, this`st, this`fre
      ensures InProtocol() && point.Finished? && st && fre
    {
      hide InProtocol, P.Invariant;
      ProtocolInvariant();
      StartPoint(State());
      var c := ReadCmd();
      while c.cr
        invariant InProtocol() && !st && c.cr == cr
        invariant if c.cr then point.PollStart? else point.ReadToSetFre?
        decreases patience, c.cr
      {
        c := ReadCmd();
      }
      c := ReadCmd();
      WriteCmd(c.st, true);
      c := ReadCmd();
      WriteCmd(true, c.fre);
    }

    /** One round of the header loop. */
    method SetUpSlot(i: nat)
      requires Valid() && InProtocol() && point == P.SetUp(6 + 4 * i)
      requires i < SLOTS && clb == AHCI_BASE + ListAt(number)
      requires forall at :: HeaderAt(number, i) <= at < HeaderAt(number, i) + HEADER_SIZE ==> mem[at] == 0
      modifies mem, this`fr, this`cr, this`patience, this`moves, this`point, this`copySt, this`copyFre
      ensures InProtocol() && point == PointAfter(10 + 4 * i)
      ensures forall at :: 0 <= at < REGION_SIZE ==>
                mem[at] ==
                  if HeaderAt(number, i) <= at < HeaderAt(number, i) + HEADER_SIZE then
                    HeaderByte(number, i, at - HeaderAt(number, i))
                  else if TableAt(number, i) <= at < TableAt(number, i) + TABLE_SIZE then 0
                  else old(mem[at])
    {
      hide InProtocol, LeByte, ListAt, HeaderAt, TableAt;
      SlotPlaces(number, i);
      SmallBytes();
      var cmdheader := clb - AHCI_BASE + i * HEADER_SIZE;
      var ctba := AHCI_BASE + TABLE_START + number * SLOTS * TABLE_SIZE + i * TABLE_SIZE;
      WriteField(cmdheader + 2, 8, 2);
      WriteField(cmdheader + 8, ctba, 4);
      WriteField(cmdheader + 12, 0, 4);
      Zero(ctba - AHCI_BASE, TABLE_SIZE);
    }

    /** `port_rebase`: exactly this port's memory is laid out anew, the port runs on it, and all that happened
        on the way is one run of the protocol from the state the port was in. */
    method PortRebase()
      requires Valid()
      modifies this, mem
      ensures InProtocol() && first == old(State()).(at := P.ReadToClearSt) && point.Finished?
      ensures mem[..] == Rebased(old(mem[..]), number)
      ensures clb == AHCI_BASE + ListAt(number) && fb == AHCI_BASE + FisAt(number) && clbu == fbu == 0
      ensures st && fre
    {
      hide InProtocol, State, Staged, HeaderByte, HeaderAt, TableAt, Rebased, P.Next, P.Idle;
      ghost var was, start := mem[..], State().(at := P.ReadToClearSt);
      BeginCall();
      StopCmd();
      WriteClb(AHCI_BASE + number * 1024, 0);
      Zero(clb - AHCI_BASE, 1024);
      WriteFb(AHCI_BASE + FIS_START + number * 256, 0);
      Zero(fb - AHCI_BASE, 256);
      FirstStages(number, was, mem[..]);
      var i := 0;
      while i < SLOTS
        invariant i <= SLOTS && InProtocol() && point == PointAfter(6 + 4 * i)
        invariant first == start
        invariant clb == AHCI_BASE + ListAt(number) && fb == AHCI_BASE + FisAt(number) && clbu == fbu == 0
        invariant Staged(number, i, was, mem[..])
      {
        ghost var now := mem[..];
        HeaderIsZero(number, i, was, now);
        assert forall at :: 0 <= at < REGION_SIZE ==> mem[at] == now[at];
        SetUpSlot(i);
        NextStages(number, i, was, now, mem[..]);
        i := i + 1;
      }
      LastStages(number, was, mem[..]);
      StartCmd();
    }
  }

  lemma HeaderInRegion(port: nat, slot: nat)
    requires port < PORTS && slot < SLOTS
    ensures HeaderAt(port, slot) + HEADER_SIZE <= REGION_SIZE
  {
  }

  /** Where the driver's address arithmetic finds a slot's header and table. */
  lemma SlotPlaces(port: nat, slot: nat)
    requires port < PORTS && slot < SLOTS
    ensures ListAt(port) + slot * HEADER_SIZE == HeaderAt(port, slot)
    ensures TABLE_START + port * SLOTS * TABLE_SIZE + slot * TABLE_SIZE == TableAt(port, slot)
    ensures HeaderAt(port, slot) + HEADER_SIZE <= TABLE_START <= TableAt(port, slot)
    ensures TableAt(port, slot) + TABLE_SIZE <= REGION_SIZE
  {
  }

  lemma SmallBytes()
    ensures LeByte(8, 0) == 8 && LeByte(8, 1) == 0
    ensures forall k :: 0 <= k < 4 ==> LeByte(0, k) == 0
  {
  }
}
