/** Stop, rebase, start (disk.c) as a protocol between the driver and the controller, one register access
    or memory write at a time, in any interleaving (AHCI 1.3.1, sections 3.3.7 and 10.3). */
module AhciProtocol {

  /** Where the driver is in `port_rebase`. Each read-modify-write of the command register is two accesses. */
  datatype Point =
    | ReadToClearSt | WriteStClear
    | ReadToClearFre | WriteFreClear
    | PollFr | PollCr
    | SetUp(done: nat)  // writes to clb, clbu, fb, fbu, the headers and the tables
    | PollStart
    | ReadToSetFre | WriteFreSet
    | ReadToSetSt | WriteStSet
    | Finished

  /** The set-up writes: four registers, the list, the FIS area, and 32 headers of three fields and a table. */
  const SETUP_WRITES: nat := 134

  /** ST and FRE belong to the driver, FR and CR to the controller; `copy` is the driver's last read. */
  datatype Port = Port(at: Point, copySt: bool, copyFre: bool, st: bool, fre: bool, fr: bool, cr: bool)

  /** The access is a read that a write will be based on. */
  predicate Copies(at: Point) {
    at.ReadToClearSt? || at.ReadToClearFre? || at.ReadToSetFre? || at.ReadToSetSt?
  }

  predicate Polls(at: Point) {
    at.PollFr? || at.PollCr? || at.PollStart?
  }

  /** Where the driver goes from there; only its polls look at the controller's bits. */
  function Next(at: Point, fr: bool, cr: bool): Point {
    match at
    case ReadToClearSt => WriteStClear
    case WriteStClear => ReadToClearFre
    case ReadToClearFre => WriteFreClear
    case WriteFreClear => PollFr
    case PollFr => if fr then PollFr else PollCr
    case PollCr => if cr then PollFr else SetUp(0)
    case SetUp(n) => if n + 1 < SETUP_WRITES then SetUp(n + 1) else PollStart
    case PollStart => if cr then PollStart else ReadToSetFre
    case ReadToSetFre => WriteFreSet
    case WriteFreSet => ReadToSetSt
    case ReadToSetSt => WriteStSet
    case WriteStSet => Finished
    case Finished => Finished
  }

  predicate Writes(at: Point) {
    at.WriteStClear? || at.WriteFreClear? || at.WriteFreSet? || at.WriteStSet?
  }

  /** What the write at a point stores: the copy it was based on with one bit changed. */
  function StoredSt(at: Point, copySt: bool): bool
    requires Writes(at)
  {
    if at.WriteStClear? then false else if at.WriteStSet? then true else copySt
  }

  function StoredFre(at: Point, copyFre: bool): bool
    requires Writes(at)
  {
    if at.WriteFreClear? then false else if at.WriteFreSet? then true else copyFre
  }

  /** The driver's next access. Writing the register leaves the controller's bits alone. */
  function DriverStep(p: Port): Port {
    Port(Next(p.at, p.fr, p.cr),
         if Copies(p.at) then p.st else p.copySt,
         if Copies(p.at) then p.fre else p.copyFre,
         if Writes(p.at) then StoredSt(p.at, p.copySt) else p.st,
         if Writes(p.at) then StoredFre(p.at, p.copyFre) else p.fre,
         p.fr, p.cr)
  }

  /** The controller may drop FR and CR at any time, but raises FR only under FRE and CR only under ST. */
  function ControllerStep(p: Port, fr: bool, cr: bool): Port {
    p.(fr := fr && (p.fr || p.fre), cr := cr && (p.cr || p.st))
  }

  /** One move of either party; the controller chooses what it wants its bits to be. */
  datatype Move = Driver | Controller(fr: bool, cr: bool)

  function Apply(p: Port, m: Move): Port {
    match m
    case Driver => DriverStep(p)
    case Controller(fr, cr) => ControllerStep(p, fr, cr)
  }

  function After(p: Port, moves: seq<Move>): Port {
    if moves == [] then p else Apply(After(p, moves[..|moves| - 1]), moves[|moves| - 1])
  }

  lemma AfterAppend(p: Port, moves: seq<Move>, m: Move)
    ensures After(p, moves + [m]) == Apply(After(p, moves), m)
  {
    assert (moves + [m])[..|moves|] == moves;
  }

  // ---------- Safety ----------

  predicate Idle(p: Port) {
    !p.st && !p.fre && !p.fr && !p.cr
  }

  /** The next access is a write to an address register or to the memory the controller works in. */
  predicate WritesSetup(p: Port) {
    p.at.SetUp?
  }

  /** The next access turns ST on. */
  predicate RaisesSt(p: Port) {
    !p.st && DriverStep(p).st
  }

  predicate Invariant(p: Port) {
    match p.at
    case ReadToClearSt => true
    case WriteStClear => p.copySt == p.st && p.copyFre == p.fre
    case ReadToClearFre => !p.st
    case WriteFreClear => !p.st && !p.copySt && p.copyFre == p.fre
    case PollFr => !p.st && !p.fre
    case PollCr => !p.st && !p.fre && !p.fr
    case SetUp(n) => Idle(p) && n < SETUP_WRITES
    case PollStart => Idle(p)
    case ReadToSetFre => Idle(p)
    case WriteFreSet => Idle(p) && !p.copySt && !p.copyFre
    case ReadToSetSt => !p.st && p.fre && !p.cr
    case WriteStSet => !p.st && p.fre && !p.cr && !p.copySt && p.copyFre
    case Finished => p.st && p.fre
  }

  lemma InvariantAtStart(p: Port)
    requires p.at == ReadToClearSt
    ensures Invariant(p)
  {
  }

  lemma InvariantStep(p: Port, m: Move)
    requires Invariant(p)
    ensures Invariant(Apply(p, m))
  {
    match m
    case Driver => InvariantAccess(p);
    case Controller(_, _) =>
  }

  lemma InvariantAccess(p: Port)
    requires Invariant(p)
    ensures Invariant(DriverStep(p))
  {
    match p.at
    case ReadToClearSt =>
    case WriteStClear =>
    case ReadToClearFre =>
    case WriteFreClear =>
    case PollFr =>
    case PollCr =>
    case SetUp(n) =>
    case PollStart =>
    case ReadToSetFre =>
    case WriteFreSet =>
    case ReadToSetSt =>
    case WriteStSet =>
    case Finished =>
  }

  lemma {:induction false} InvariantHolds(p: Port, moves: seq<Move>)
    requires p.at == ReadToClearSt
    ensures Invariant(After(p, moves))
    decreases |moves|
  {
    if moves != [] {
      hide Apply, Invariant;
      InvariantHolds(p, moves[..|moves| - 1]);
      InvariantStep(After(p, moves[..|moves| - 1]), moves[|moves| - 1]);
    } else {
      InvariantAtStart(p);
    }
  }

  /** From any port state and in any interleaving: set-up writes happen only with all four bits clear, and ST
      is raised only with FRE set and CR clear. */
  lemma SafeInEveryInterleaving(p: Port, moves: seq<Move>)
    requires p.at == ReadToClearSt
    ensures WritesSetup(After(p, moves)) ==> Idle(After(p, moves))
    ensures RaisesSt(After(p, moves)) ==> After(p, moves).fre && !After(p, moves).cr
    ensures After(p, moves).at == Finished ==> After(p, moves).st && After(p, moves).fre
  {
    InvariantHolds(p, moves);
    InvariantMeans(After(p, moves));
    hide Invariant, DriverStep, WritesSetup, RaisesSt, After;
  }

  lemma InvariantMeans(p: Port)
    requires Invariant(p)
    ensures WritesSetup(p) ==> Idle(p)
    ensures RaisesSt(p) ==> p.fre && !p.cr
    ensures p.at == Finished ==> p.st && p.fre
  {
  }

  // ---------- Progress ----------

  predicate Polling(p: Port) {
    p.at.PollFr? || p.at.PollCr?
  }

  function DriverMoves(moves: seq<Move>): nat {
    if moves == [] then 0
    else DriverMoves(moves[..|moves| - 1]) + if moves[|moves| - 1].Driver? then 1 else 0
  }

  /** The accesses left from a point of the call on, when no poll has to be repeated. */
  function Left(at: Point): nat {
    match at
    case ReadToClearSt => SETUP_WRITES + 11
    case WriteStClear => SETUP_WRITES + 10
    case ReadToClearFre => SETUP_WRITES + 9
    case WriteFreClear => SETUP_WRITES + 8
    case PollFr => SETUP_WRITES + 7
    case PollCr => SETUP_WRITES + 6
    case SetUp(n) => if n < SETUP_WRITES then SETUP_WRITES - n + 5 else 5
    case PollStart => 5
    case ReadToSetFre => 4
    case WriteFreSet => 3
    case ReadToSetSt => 2
    case WriteStSet => 1
    case Finished => 0
  }

  /** What one move costs on top: a poll that finds FR up is repeated, and one that finds CR up takes the
      poll of FR before it along. */
  function Repeated(p: Port, m: Move): nat {
    if m.Driver? && p.at.PollFr? && p.fr then 1
    else if m.Driver? && p.at.PollCr? && p.cr then 2
    else 0
  }

  function Repeats(p: Port, moves: seq<Move>): nat {
    if moves == [] then 0
    else Repeats(p, moves[..|moves| - 1]) + Repeated(After(p, moves[..|moves| - 1]), moves[|moves| - 1])
  }

  lemma StepCost(p: Port, m: Move)
    requires Invariant(p)
    ensures Left(Apply(p, m).at) + (if m.Driver? && p.at != Finished then 1 else 0) == Left(p.at) + Repeated(p, m)
  {
  }

  /** From any point of the call and in any interleaving: every access of the driver is one of those left or
      the repetition of a poll, so the call is over exactly when that many have been made. */
  lemma {:induction false} AccessesOfTheCall(p: Port, moves: seq<Move>)
    requires Invariant(p)
    ensures Invariant(After(p, moves))
    ensures
      var q := After(p, moves);
      && (q.at != Finished ==> DriverMoves(moves) + Left(q.at) == Left(p.at) + Repeats(p, moves))
      && (q.at == Finished <==> DriverMoves(moves) >= Left(p.at) + Repeats(p, moves))
    decreases |moves|
  {
    hide Invariant, Apply, Repeated, Left;
    if moves != [] {
      var init, m := moves[..|moves| - 1], moves[|moves| - 1];
      AccessesOfTheCall(p, init);
      InvariantStep(After(p, init), m);
      StepCost(After(p, init), m);
      NothingLeft(After(p, init).at);
      NothingLeft(After(p, moves).at);
      FinishedStays(After(p, init), m);
    } else {
      NothingLeft(p.at);
    }
  }

  lemma NothingLeft(at: Point)
    ensures Left(at) == 0 <==> at == Finished
  {
  }

  lemma FinishedStays(p: Port, m: Move)
    ensures p.at == Finished ==> Apply(p, m).at == Finished
  {
  }

  /** The controller has let go of the port, if the driver is waiting for that. */
  predicate LetGo(p: Port) {
    Invariant(p) && (Polling(p) ==> !p.fr && !p.cr)
  }

  /** The four accesses before the first poll. */
  predicate IsFirstHalf(at: Point) {
    at.ReadToClearSt? || at.WriteStClear? || at.ReadToClearFre? || at.WriteFreClear?
  }

  predicate SecondHalf(p: Port) {
    !IsFirstHalf(p.at)
  }

  lemma StepStaysLetGo(p: Port, m: Move)
    requires LetGo(p) && SecondHalf(p)
    ensures LetGo(Apply(p, m)) && SecondHalf(Apply(p, m)) && Repeated(p, m) == 0
  {
    if m.Driver? {
      LetGoDriver(p);
    }
    InvariantStep(p, m);
  }

  lemma LetGoDriver(p: Port)
    requires LetGo(p) && SecondHalf(p)
    ensures Polling(DriverStep(p)) ==> !p.fr && !p.cr
    ensures SecondHalf(DriverStep(p)) && Repeated(p, Driver) == 0
  {
  }

  lemma {:induction false} StaysLetGo(p: Port, moves: seq<Move>)
    requires LetGo(p) && SecondHalf(p)
    ensures LetGo(After(p, moves)) && SecondHalf(After(p, moves)) && Repeats(p, moves) == 0
    decreases |moves|
  {
    hide LetGo, SecondHalf, Apply, Repeated;
    if moves != [] {
      StaysLetGo(p, moves[..|moves| - 1]);
      StepStaysLetGo(After(p, moves[..|moves| - 1]), moves[|moves| - 1]);
    }
  }

  lemma AfterConcat(p: Port, before: seq<Move>, moves: seq<Move>)
    ensures After(p, before + moves) == After(After(p, before), moves)
    decreases |moves|
  {
    if moves == [] {
      assert before + moves == before;
    } else {
      assert (before + moves)[..|before + moves| - 1] == before + moves[..|moves| - 1];
      AfterConcat(p, before, moves[..|moves| - 1]);
    }
  }

  /** The whole call: whatever has happened from its first access on, once the driver waits no longer for a
      bit that is up, the remaining accesses and no others bring the call to its end, whatever the
      controller does meanwhile. */
  lemma FinishesOnceLetGo(start: Port, before: seq<Move>, moves: seq<Move>)
    requires start.at == ReadToClearSt && DriverMoves(before) >= 4 && LetGo(After(start, before))
    ensures
      var p, q := After(start, before), After(start, before + moves);
      && SecondHalf(p)
      && Left(q.at) == (if DriverMoves(moves) < Left(p.at) then Left(p.at) - DriverMoves(moves) else 0)
      && (q.at == Finished <==> DriverMoves(moves) >= Left(p.at))
  {
    hide Invariant, Apply, After, LetGo, Left;
    var p := After(start, before);
    FourAccesses(start, before);
    AfterConcat(start, before, moves);
    StaysLetGo(p, moves);
    LetGoInvariant(p);
    AccessesOfTheCall(p, moves);
    NothingLeft(After(p, moves).at);
  }

  lemma LetGoInvariant(p: Port)
    requires LetGo(p)
    ensures Invariant(p)
  {
  }

  /** Four accesses bring the driver to its polls: none of them waits for anything. */
  lemma {:induction false} FourAccesses(start: Port, moves: seq<Move>)
    requires start.at == ReadToClearSt
    ensures !SecondHalf(After(start, moves)) ==>
              DriverMoves(moves) < 4 && Left(After(start, moves).at) == SETUP_WRITES + 11 - DriverMoves(moves)
    decreases |moves|
  {
    hide Left, DriverStep;
    if moves != [] {
      var p := After(start, moves[..|moves| - 1]);
      FourAccesses(start, moves[..|moves| - 1]);
      FirstFour(After(start, moves).at);
      if SecondHalf(p) {
        SecondHalfStep(p);
      } else {
        FirstHalfStep(p);
      }
    } else {
      FirstAccess(start);
    }
  }

  lemma FirstAccess(p: Port)
    requires p.at == ReadToClearSt
    ensures Left(p.at) == SETUP_WRITES + 11
  {
  }

  lemma FirstHalfStep(p: Port)
    requires IsFirstHalf(p.at)
    ensures Left(DriverStep(p).at) == Left(p.at) - 1
  {
  }

  lemma SecondHalfStep(p: Port)
    requires SecondHalf(p)
    ensures SecondHalf(DriverStep(p))
  {
    match p.at
    case PollFr =>
    case PollCr =>
    case SetUp(n) =>
    case PollStart =>
    case ReadToSetFre =>
    case WriteFreSet =>
    case ReadToSetSt =>
    case WriteStSet =>
    case Finished =>
  }

  lemma FirstFour(at: Point)
    ensures Left(at) > SETUP_WRITES + 7 <==> IsFirstHalf(at)
  {
  }

  /** While it waits the bits can only fall, so a controller that drops both within some moves has let go for good. */
  lemma {:induction false} BitsOnlyFall(p: Port, moves: seq<Move>)
    requires Invariant(p) && Polling(p) && Polling(After(p, moves))
    requires forall n :: 0 <= n <= |moves| ==> Polling(After(p, moves[..n]))
    ensures !p.fr ==> !After(p, moves).fr
    ensures !p.cr ==> !After(p, moves).cr
    ensures Invariant(After(p, moves))
    decreases |moves|
  {
    if moves != [] {
      var init := moves[..|moves| - 1];
      assert After(p, init) == After(p, moves[..|moves| - 1]);
      forall n | 0 <= n <= |init|
        ensures Polling(After(p, init[..n]))
      {
        assert init[..n] == moves[..n];
      }
      BitsOnlyFall(p, init);
    }
  }

  datatype Bit = FR | CR

  predicate Up(p: Port, bit: Bit) {
    match bit
    case FR => p.fr
    case CR => p.cr
  }

  predicate Holds(m: Move, bit: Bit) {
    m.Controller? ==> if bit == FR then m.fr else m.cr
  }

  /** A controller that holds on to either bit keeps the driver polling: no write to its memory is reached. */
  lemma {:induction false} WaitsWhileHeld(p: Port, moves: seq<Move>, bit: Bit)
    requires Invariant(p) && Polling(p) && Up(p, bit)
    requires forall k :: 0 <= k < |moves| ==> Holds(moves[k], bit)
    ensures Invariant(After(p, moves)) && Polling(After(p, moves)) && Up(After(p, moves), bit)
    decreases |moves|
  {
    if moves != [] {
      WaitsWhileHeld(p, moves[..|moves| - 1], bit);
      HeldStep(After(p, moves[..|moves| - 1]), moves[|moves| - 1], bit);
      hide Invariant, Apply;
    }
  }

  lemma HeldStep(p: Port, m: Move, bit: Bit)
    requires Invariant(p) && Polling(p) && Up(p, bit) && Holds(m, bit)
    ensures Invariant(Apply(p, m)) && Polling(Apply(p, m)) && Up(Apply(p, m), bit)
  {
  }
}
