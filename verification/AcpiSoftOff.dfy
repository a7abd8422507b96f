/** `initAcpi` (acpi.c): from the root pointer to the sleep types in the DSDT's `\_S5` package. */
module AcpiSoftOff {
  import opened CInt
  import opened Wrappers
  import opened Acpi

  // ---------- Decoding the package ----------

  const NAME_OP: Byte := 0x08
  const ROOT: Byte := 0x5C
  const PACKAGE_OP: Byte := 0x12
  const BYTE_PREFIX: Byte := 0x0A

  /** The name is declared, possibly at the root, and a package follows it. */
  predicate IsPackage(m: Ram, at: int) {
    (m(at - 1) == NAME_OP || (m(at - 2) == NAME_OP && m(at - 1) == ROOT)) && m(at + 4) == PACKAGE_OP
  }

  /** The first element: past the name, the package code, the length with its 0 to 3 further bytes, and the count. */
  function FirstElement(m: Ram, at: int): int {
    at + 5 + m(at + 5) / 64 + 2
  }

  lemma FirstElementIs(m: Ram, at: int)
    ensures FirstElement(m, at) == at + 5 + m(at + 5) / 64 + 2
  {
  }

  function SkipPrefix(m: Ram, at: int): int {
    if m(at) == BYTE_PREFIX then at + 1 else at
  }

  /** `*(S5Addr)<<10` in the 16 bits of a `word`. */
  function Shifted(b: Byte): nat {
    b * 1024 % 0x1_0000
  }

  /** The two sleep types, shifted into place. */
  datatype SleepTypes = SleepTypes(a: nat, b: nat)

  function Decode(m: Ram, at: int): SleepTypes {
    var first := SkipPrefix(m, FirstElement(m, at));
    var second := SkipPrefix(m, first + 1);
    SleepTypes(Shifted(m(first)), Shifted(m(second)))
  }

  lemma DecodeIs(m: Ram, at: int)
    ensures
      var first := SkipPrefix(m, FirstElement(m, at));
      Decode(m, at) == SleepTypes(Shifted(m(first)), Shifted(m(SkipPrefix(m, first + 1))))
  {
  }

  // ---------- Encoding it ----------

  /** One element: a small constant as its own byte, any byte behind the prefix (ACPI 6.4, 20.2.3). */
  datatype Element = Raw(v: Byte) | Prefixed(v: Byte)

  predicate Encodable(e: Element) {
    e.v < 8 && (e.Raw? ==> e.v <= 1)
  }

  function EncodeElement(e: Element): seq<Byte> {
    match e
    case Raw(v) => [v]
    case Prefixed(v) => [BYTE_PREFIX, v]
  }

  /** `lead` and `follow` are the PkgLength: the top two bits of the first byte count the others. */
  datatype Package = Package(root: bool, lead: Byte, follow: seq<Byte>, count: Byte, first: Element, second: Element)

  predicate WellFormed(p: Package) {
    |p.follow| == p.lead / 64 && Encodable(p.first) && Encodable(p.second)
  }

  function NamePrefix(p: Package): seq<Byte> {
    if p.root then [NAME_OP, ROOT] else [NAME_OP]
  }

  function Body(p: Package): seq<Byte> {
    S5 + [PACKAGE_OP, p.lead] + p.follow + [p.count] + EncodeElement(p.first) + EncodeElement(p.second)
  }

  /** `bytes` are stored from `at` on. */
  predicate Stored(m: Ram, at: int, bytes: seq<Byte>) {
    forall i :: 0 <= i < |bytes| ==> m(at + i) == bytes[i]
  }

  lemma StoredSplit(m: Ram, at: int, x: seq<Byte>, y: seq<Byte>)
    requires Stored(m, at, x + y)
    ensures Stored(m, at, x) && Stored(m, at + |x|, y)
  {
    forall i | 0 <= i < |x|
      ensures m(at + i) == x[i]
    {
      assert (x + y)[i] == x[i];
    }
    forall i | 0 <= i < |y|
      ensures m(at + |x| + i) == y[i]
    {
      assert (x + y)[|x| + i] == y[i];
    }
  }

  /** Reading one element gives its value, and the next position is just behind it. */
  lemma ReadElement(m: Ram, at: int, e: Element)
    requires Encodable(e) && Stored(m, at, EncodeElement(e))
    ensures m(SkipPrefix(m, at)) == e.v && SkipPrefix(m, at) + 1 == at + |EncodeElement(e)|
  {
    assert m(at + 0) == EncodeElement(e)[0];
    if e.Prefixed? {
      assert m(at + 1) == EncodeElement(e)[1];
    }
  }

  /** Decoding what was encoded gives the two values back, whatever the length encoding and the name's form. */
  lemma DecodeEncoded(m: Ram, at: int, p: Package)
    requires WellFormed(p)
    requires Stored(m, at - |NamePrefix(p)|, NamePrefix(p)) && Stored(m, at, Body(p))
    ensures Matches(m, at, S5) && IsPackage(m, at)
    ensures Decode(m, at) == SleepTypes(p.first.v * 1024, p.second.v * 1024)
  {
    hide Stored, EncodeElement, Body, NamePrefix, SkipPrefix, Shifted;
    BodyParts(m, at, p);
    NameInFront(m, at, p);
    var first := at + 7 + |p.follow|;
    ReadElement(m, first, p.first);
    ReadElement(m, first + |EncodeElement(p.first)|, p.second);
    SmallShift(p.first);
    SmallShift(p.second);
  }

  /** Where the parts of a stored package are. */
  lemma BodyParts(m: Ram, at: int, p: Package)
    requires Stored(m, at, Body(p))
    ensures Matches(m, at, S5) && m(at + 4) == PACKAGE_OP && m(at + 5) == p.lead
    ensures
      var first := at + 7 + |p.follow|;
      && Stored(m, first, EncodeElement(p.first))
      && Stored(m, first + |EncodeElement(p.first)|, EncodeElement(p.second))
  {
    hide Stored, EncodeElement;
    var a, b := EncodeElement(p.first), EncodeElement(p.second);
    var head := S5 + [PACKAGE_OP, p.lead];
    StoredSplit(m, at, head + p.follow + [p.count] + a, b);
    StoredSplit(m, at, head + p.follow + [p.count], a);
    StoredSplit(m, at, head + p.follow, [p.count]);
    StoredSplit(m, at, head, p.follow);
    StoredSplit(m, at, S5, [PACKAGE_OP, p.lead]);
    NameStored(m, at);
    StoredAt(m, at + 4, [PACKAGE_OP, p.lead], 0);
    StoredAt(m, at + 4, [PACKAGE_OP, p.lead], 1);
  }

  lemma StoredAt(m: Ram, at: int, bytes: seq<Byte>, i: nat)
    requires Stored(m, at, bytes) && i < |bytes|
    ensures m(at + i) == bytes[i]
  {
  }

  lemma NameStored(m: Ram, at: int)
    requires Stored(m, at, S5)
    ensures Matches(m, at, S5)
  {
  }

  lemma NameInFront(m: Ram, at: int, p: Package)
    requires Stored(m, at - |NamePrefix(p)|, NamePrefix(p))
    ensures m(at - 1) == NAME_OP || (m(at - 2) == NAME_OP && m(at - 1) == ROOT)
  {
    var n := |NamePrefix(p)|;
    StoredAt(m, at - n, NamePrefix(p), 0);
    StoredAt(m, at - n, NamePrefix(p), n - 1);
    hide Stored;
  }

  lemma SmallShift(e: Element)
    requires Encodable(e)
    ensures Shifted(e.v) == e.v * 1024
  {
  }

  const SLP_EN: nat := 0x2000

  /** A shifted sleep type below 8 leaves the enable bit free. */
  lemma DisjointFromEnable(v: Byte)
    requires v < 8
    ensures Shifted(v) == v * 1024 && Shifted(v) / SLP_EN % 2 == 0 && Shifted(v) < 0x2000
  {
  }

  // ---------- Finding it ----------

  predicate NameHere(m: Ram, from: int, k: nat) {
    Matches(m, from + k, S5)
  }

  /** The first of `n` positions from `from` on where the name stands, or `n`. */
  function FirstName(m: Ram, from: int, n: nat): (k: nat)
    ensures k <= n
    ensures k < n ==> NameHere(m, from, k)
    ensures forall j :: 0 <= j < k ==> !NameHere(m, from, j)
  {
    if n == 0 then 0
    else
      var k := FirstName(m, from, n - 1);
      if k < n - 1 || NameHere(m, from, k) then k else n
  }

  lemma FirstNameIs(m: Ram, from: int, n: nat, k: nat)
    requires k <= n && (k < n ==> NameHere(m, from, k))
    requires forall j :: 0 <= j < k ==> !NameHere(m, from, j)
    ensures FirstName(m, from, n) == k
  {
    hide NameHere;
    var f := FirstName(m, from, n);
  }

  /** The body of a definition block: its length without the header, as the `int` it is computed in. */
  function BodyLength(m: Ram, dsdt: int): nat {
    var n := Wrap32(Word(m, dsdt + 4) - HEADER_SIZE);
    if n > 0 then n else 0
  }

  /** The name's position in the body, if it is there and not at the very last byte. */
  function NameAt(m: Ram, dsdt: int): Option<int> {
    var n := BodyLength(m, dsdt);
    var k := FirstName(m, dsdt + HEADER_SIZE, n);
    if k + 1 < n then Some(dsdt + HEADER_SIZE + k) else None
  }

  /** What a fixed description table gives: the sleep types of its definition block. */
  function FromFacp(m: Ram, facp: int): Option<SleepTypes> {
    var dsdt := Word(m, facp + 40);
    if !IsTable(m, dsdt, DSDT) then None
    else
      match NameAt(m, dsdt)
      case None => None
      case Some(at) => if IsPackage(m, at) then Some(Decode(m, at)) else None
  }

  /** The k-th table that the root table points to. */
  function Entry(m: Ram, rsdt: int, k: nat): Uint32 {
    Word(m, rsdt + HEADER_SIZE + 4 * k)
  }

  predicate FacpAt(m: Ram, rsdt: int, k: nat) {
    IsTable(m, Entry(m, rsdt, k), FACP)
  }

  /** The first of `n` entries of the root table that is a fixed description table, or `n`. */
  function FirstFacp(m: Ram, rsdt: int, n: nat): (k: nat)
    ensures k <= n
  {
    hide FacpAt;
    if n == 0 then 0
    else
      var k := FirstFacp(m, rsdt, n - 1);
      if k < n - 1 || FacpAt(m, rsdt, k) then k else n
  }

  /** It is one, if it is not `n`, and none before it is. */
  lemma {:induction false} FacpIsFirst(m: Ram, rsdt: int, n: nat)
    ensures FirstFacp(m, rsdt, n) < n ==> FacpAt(m, rsdt, FirstFacp(m, rsdt, n))
    ensures forall j :: 0 <= j < FirstFacp(m, rsdt, n) ==> !FacpAt(m, rsdt, j)
  {
    hide FacpAt;
    if n > 0 {
      FacpIsFirst(m, rsdt, n - 1);
    }
  }

  lemma FirstFacpIs(m: Ram, rsdt: int, n: nat, k: nat)
    requires k <= n && (k < n ==> FacpAt(m, rsdt, k))
    requires forall j :: 0 <= j < k ==> !FacpAt(m, rsdt, j)
    ensures FirstFacp(m, rsdt, n) == k
  {
    hide FacpAt, FirstFacp;
    FacpIsFirst(m, rsdt, n);
  }

  function EntryCount(m: Ram, rsdt: int): nat {
    var n := CDiv(Wrap32(Word(m, rsdt + 4)) - HEADER_SIZE, 4);
    if n > 0 then n else 0
  }

  /** Only the first fixed description table counts, whether or not its definition block is good. */
  function SoftOff(m: Ram): Option<(int, SleepTypes)> {
    var rsdt := RootAddress(m);
    if rsdt == 0 || !IsTable(m, rsdt, RSDT) then None
    else
      var n := EntryCount(m, rsdt);
      var k := FirstFacp(m, rsdt, n);
      if k == n then None
      else
        var facp := Entry(m, rsdt, k);
        match FromFacp(m, facp)
        case None => None
        case Some(t) => Some((facp, t))
  }

  /** The description table points to a good definition block, and the first occurrence of the name in its
      body, at offset `k`, is the encoded package `p`. */
  predicate Defines(m: Ram, facp: int, k: nat, p: Package) {
    var dsdt := Word(m, facp + 40);
    var body := dsdt + HEADER_SIZE;
    var at := body + k;
    && WellFormed(p) && IsTable(m, dsdt, DSDT) && k + |Body(p)| <= BodyLength(m, dsdt)
    && (forall j :: 0 <= j < k ==> !NameHere(m, body, j))
    && Stored(m, at - |NamePrefix(p)|, NamePrefix(p)) && Stored(m, at, Body(p))
  }

  /** Then exactly the package's two values come out. */
  lemma BodyRoundTrip(m: Ram, facp: int, k: nat, p: Package)
    requires Defines(m, facp, k, p)
    ensures FromFacp(m, facp) == Some(SleepTypes(p.first.v * 1024, p.second.v * 1024))
  {
    hide Matches, Stored, IsTable, Word, Wrap32, Decode, IsPackage;
    var dsdt := Word(m, facp + 40);
    DecodeEncoded(m, dsdt + HEADER_SIZE + k, p);
    FirstNameIs(m, dsdt + HEADER_SIZE, BodyLength(m, dsdt), k);
  }

  /** The whole way: if the first fixed description table that the root table points to defines such a
      package, its address and the two values come out, and `InitAcpi` takes exactly these. */
  lemma SoftOffRoundTrip(m: Ram, rsdt: Uint32, i: nat, k: nat, p: Package)
    requires RootAddress(m) == rsdt != 0 && IsTable(m, rsdt, RSDT) && i < EntryCount(m, rsdt)
    requires FacpAt(m, rsdt, i) && forall j :: 0 <= j < i ==> !FacpAt(m, rsdt, j)
    requires Defines(m, Entry(m, rsdt, i), k, p)
    ensures SoftOff(m) == Some((Entry(m, rsdt, i) as int, SleepTypes(p.first.v * 1024, p.second.v * 1024)))
  {
    hide RootAddress, IsTable, EntryCount, FacpAt, FromFacp, Defines, Entry;
    BodyRoundTrip(m, Entry(m, rsdt, i), k, p);
    FirstFacpIs(m, rsdt, EntryCount(m, rsdt), i);
  }

  // ---------- initAcpi ----------

  /** The values of a fixed description table that the kernel keeps. */
  datatype Registers = Registers(
    smiCmd: Uint32,
    acpiEnable: Byte,
    acpiDisable: Byte,
    pm1aCnt: Uint32,
    pm1bCnt: Uint32,
    pm1CntLen: Byte)

  function Named(m: Ram, facp: int): Registers {
    Registers(Word(m, facp + 48), m(facp + 52), m(facp + 53), Word(m, facp + 64), Word(m, facp + 68), m(facp + 89))
  }

  class AcpiState {
    var smiCmd: Uint32
    var acpiEnable: Byte
    var acpiDisable: Byte
    var pm1aCnt: Uint32
    var pm1bCnt: Uint32
    var pm1CntLen: Byte
    var slpTypA: nat
    var slpTypB: nat
    var slpEn: nat
    var sciEn: nat

    /** The search loop for the name. */
    method FindName(m: Ram, dsdt: int) returns (at: Option<int>)
      ensures at == NameAt(m, dsdt)
    {
      hide Word, Wrap32, Matches;
      var s5Addr := dsdt + HEADER_SIZE;
      var dsdtLength: int := Wrap32(Word(m, dsdt + 4) - HEADER_SIZE);
      ghost var body, n := s5Addr, BodyLength(m, dsdt);
      ghost var k := 0;
      while 0 < dsdtLength
        invariant k <= n && s5Addr == body + k
        invariant dsdtLength == n - k || (n == k == 0 && dsdtLength <= 0)
        invariant forall j :: 0 <= j < k ==> !NameHere(m, body, j)
        decreases dsdtLength
      {
        dsdtLength := dsdtLength - 1;
        var differ := MemCmp(m, s5Addr, S5, 4);
        assert S5[..4] == S5;
        if differ == 0 {
          FirstNameIs(m, body, n, k);
          return if dsdtLength > 0 then Some(s5Addr) else None;
        }
        s5Addr := s5Addr + 1;
        k := k + 1;
      }
      FirstNameIs(m, body, n, n);
      return None;
    }

    /** The registers are the ones that the fixed description table names. */
    ghost predicate NamedBy(m: Ram, facp: int)
      reads this
    {
      && Named(m, facp) == Registers(smiCmd, acpiEnable, acpiDisable, pm1aCnt, pm1bCnt, pm1CntLen)
      && slpEn == SLP_EN && sciEn == 1
    }

    /** The registers named by the table, for a package that has been found. */
    method TakeOver(m: Ram, facp: int, at: int)
      modifies this
      ensures SleepTypes(slpTypA, slpTypB) == Decode(m, at)
      ensures NamedBy(m, facp)
    {
      hide Word, Shifted, FirstElement, Decode;
      DecodeIs(m, at);
      var s5Addr := at + 5;
      s5Addr := s5Addr + m(s5Addr) / 64 + 2;
      FirstElementIs(m, at);
      if m(s5Addr) == BYTE_PREFIX {
        s5Addr := s5Addr + 1;
      }
      slpTypA := Shifted(m(s5Addr));
      s5Addr := s5Addr + 1;
      if m(s5Addr) == BYTE_PREFIX {
        s5Addr := s5Addr + 1;
      }
      slpTypB := Shifted(m(s5Addr));
      smiCmd := Word(m, facp + 48);
      acpiEnable, acpiDisable := m(facp + 52), m(facp + 53);
      pm1aCnt, pm1bCnt := Word(m, facp + 64), Word(m, facp + 68);
      pm1CntLen := m(facp + 89);
      slpEn, sciEn := SLP_EN, 1;
    }

    /** One fixed description table. */
    method UseFacp(m: Ram, facp: int) returns (found: bool)
      modifies this
      ensures found == FromFacp(m, facp).Some?
      ensures found ==> SleepTypes(slpTypA, slpTypB) == FromFacp(m, facp).value && NamedBy(m, facp)
      ensures !found ==> unchanged(this)
    {
      hide IsTable, Decode, Word;
      var dsdt := Word(m, facp + 40);
      var status := CheckHeader(m, dsdt, DSDT);
      if status != 0 {
        return false;
      }
      var at := FindName(m, dsdt);
      if at.None? {
        return false;
      }
      var a := at.value;
      if (m(a - 1) == NAME_OP || (m(a - 2) == NAME_OP && m(a - 1) == ROOT)) && m(a + 4) == PACKAGE_OP {
        TakeOver(m, facp, a);
        return true;
      }
      return false;
    }

    /** `initAcpi`: 0 exactly when the first fixed description table leads to a well-formed package. */
    method InitAcpi(m: Ram) returns (status: int)
      modifies this
      ensures status == if SoftOff(m).Some? then 0 else -1
      ensures status == 0 ==>
                var (facp, types) := SoftOff(m).value;
                SleepTypes(slpTypA, slpTypB) == types && NamedBy(m, facp)
      ensures status != 0 ==> unchanged(this)
    {
      hide IsTable, FromFacp, Word, RootAddress;
      var rsdt := GetRsdPtr(m);
      if rsdt == 0 {
        return -1;
      }
      status := CheckHeader(m, rsdt, RSDT);
      if status != 0 {
        return -1;
      }
      var entries: int := CDiv(Wrap32(Word(m, rsdt + 4)) - HEADER_SIZE, 4);
      var ptr := rsdt + HEADER_SIZE;
      ghost var n := EntryCount(m, rsdt);
      ghost var k := 0;
      while 0 < entries
        invariant k <= n && ptr == rsdt + HEADER_SIZE + 4 * k
        invariant entries == n - k || (n == k == 0 && entries <= 0)
        invariant forall j :: 0 <= j < k ==> !FacpAt(m, rsdt, j)
        invariant unchanged(this)
        decreases entries
      {
        entries := entries - 1;
        status := CheckHeader(m, Word(m, ptr), FACP);
        assert FacpAt(m, rsdt, k) <==> status == 0;
        if status == 0 {
          FirstFacpIs(m, rsdt, n, k);
          var found := UseFacp(m, Word(m, ptr));
          return if found then 0 else -1;
        }
        ptr := ptr + 4;
        k := k + 1;
      }
      FirstFacpIs(m, rsdt, n, n);
      return -1;
    }
  }
}
