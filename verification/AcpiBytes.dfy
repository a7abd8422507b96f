/** The ACPI structures as firmware stores them, byte by byte, and what the kernel takes from them. */
module AcpiBytes {
  import opened CInt
  import opened Wrappers
  import opened Acpi
  import opened AcpiSoftOff

  // ---------- Bytes ----------

  /** A field of four bytes. */
  type Field = b: seq<Byte> | |b| == 4 witness [0, 0, 0, 0]

  /** The number it holds, lowest byte first. */
  function ValueOf(b: Field): Uint32 {
    b[0] as int + 0x100 * (b[1] as int) + 0x1_0000 * (b[2] as int) + 0x100_0000 * (b[3] as int)
  }

  function Chars(s: string): (bytes: seq<Byte>)
    requires forall i :: 0 <= i < |s| ==> s[i] < 128 as char
    ensures |bytes| == |s|
  {
    seq(|s|, i requires 0 <= i < |s| => s[i] as int)
  }

  function SumOf(bytes: seq<Byte>): nat {
    if bytes == [] then 0 else SumOf(bytes[..|bytes| - 1]) + bytes[|bytes| - 1]
  }

  /** `n` bytes of memory from `at` on. */
  function Block(m: Ram, at: int, n: nat): (bytes: seq<Byte>)
    ensures |bytes| == n && forall i :: 0 <= i < n ==> bytes[i] == m(at + i)
  {
    seq(n, i requires 0 <= i < n => m(at + i))
  }

  function FieldAt(m: Ram, at: int): Field {
    Block(m, at, 4)
  }

  lemma WordIs(m: Ram, at: int)
    ensures Word(m, at) == ValueOf(FieldAt(m, at))
  {
  }

  lemma StoredIsBlock(m: Ram, at: int, bytes: seq<Byte>)
    requires Stored(m, at, bytes)
    ensures Block(m, at, |bytes|) == bytes
  {
  }

  lemma {:induction false} SumOfBlock(m: Ram, at: int, n: nat)
    ensures SumOf(Block(m, at, n)) == Sum(m, at, n)
    decreases n
  {
    if n > 0 {
      SumOfBlock(m, at, n - 1);
      assert Block(m, at, n)[..n - 1] == Block(m, at, n - 1);
    }
  }

  lemma Signatures()
    ensures Chars("RSD PTR ") == RSD_PTR && Chars("RSDT") == RSDT && Chars("FACP") == FACP
    ensures Chars("DSDT") == DSDT && Chars("_S5_") == S5
  {
  }

  // ---------- The root pointer ----------

  /** Section 5.2.5.3 of ACPI 6.4, revision 0: signature, checksum, OEM id, revision, RSDT address. */
  datatype Root = Root(checksum: Byte, oem: seq<Byte>, revision: Byte, rsdt: Field)

  function EncodeRoot(p: Root): seq<Byte> {
    Chars("RSD PTR ") + [p.checksum] + p.oem + [p.revision] + p.rsdt
  }

  /** A structure the search may take: six OEM bytes, zero sum, and an address that is not null. */
  predicate GoodRoot(p: Root) {
    |p.oem| == 6 && SumOf(EncodeRoot(p)) % 256 == 0 && ValueOf(p.rsdt) != 0
  }

  /** Such a structure is stored at the k-th 16-byte step from `from` on. */
  predicate RootAt(m: Ram, from: int, k: nat, p: Root) {
    GoodRoot(p) && Stored(m, from + 16 * k, EncodeRoot(p))
  }

  ghost predicate AnyRootAt(m: Ram, from: int, k: nat) {
    exists p :: RootAt(m, from, k, p)
  }

  /** Reading an encoded structure gives its address. */
  lemma RootDecodes(m: Ram, from: int, k: nat, p: Root)
    requires RootAt(m, from, k, p)
    ensures RsdtAt(m, from + 16 * k) == ValueOf(p.rsdt)
  {
    hide ValueOf, SumOf, FromLe;
    var at := from + 16 * k;
    RootParts(m, at, p);
    StoredIsBlock(m, at, EncodeRoot(p));
    SumOfBlock(m, at, 20);
    StoredIsBlock(m, at + 16, p.rsdt);
    WordIs(m, at + 16);
    Signatures();
  }

  lemma RootParts(m: Ram, at: int, p: Root)
    requires |p.oem| == 6 && Stored(m, at, EncodeRoot(p))
    ensures |EncodeRoot(p)| == 20 && Stored(m, at, Chars("RSD PTR ")) && Stored(m, at + 16, p.rsdt)
  {
    hide Stored, Chars;
    StoredSplit(m, at, Chars("RSD PTR ") + [p.checksum] + p.oem + [p.revision], p.rsdt);
    StoredSplit(m, at, Chars("RSD PTR ") + [p.checksum] + p.oem, [p.revision]);
    StoredSplit(m, at, Chars("RSD PTR ") + [p.checksum], p.oem);
    StoredSplit(m, at, Chars("RSD PTR "), [p.checksum]);
  }

  /** Whatever the search takes for a structure is an encoded one. */
  lemma RootEncodes(m: Ram, from: int, k: nat)
    requires RsdtAt(m, from + 16 * k) != 0
    ensures AnyRootAt(m, from, k)
  {
    hide ValueOf, SumOf, FromLe;
    var at := from + 16 * k;
    var p := Root(m(at + 8), Block(m, at + 9, 6), m(at + 15), FieldAt(m, at + 16));
    Signatures();
    SignatureBlock(m, at);
    assert EncodeRoot(p) == Block(m, at, 20);
    SumOfBlock(m, at, 20);
    WordIs(m, at + 16);
    assert RootAt(m, from, k, p);
  }

  lemma SignatureBlock(m: Ram, at: int)
    requires Matches(m, at, RSD_PTR)
    ensures Block(m, at, 8) == RSD_PTR
  {
  }

  /** A step is a candidate iff it holds an encoded structure. */
  lemma CandidateIff(m: Ram, from: int, k: nat)
    ensures Candidate(m, from, k) <==> AnyRootAt(m, from, k)
  {
    hide RsdtAt, RootAt;
    if Candidate(m, from, k) {
      RootEncodes(m, from, k);
    }
    if p :| RootAt(m, from, k, p) {
      RootDecodes(m, from, k, p);
      GoodAddress(m, from, k, p);
    }
  }

  lemma GoodAddress(m: Ram, from: int, k: nat, p: Root)
    requires RootAt(m, from, k, p)
    ensures ValueOf(p.rsdt) != 0
  {
  }

  /** The first structure among `n` steps: encoded at step `k`, and none below it. */
  ghost predicate FirstRootAt(m: Ram, from: int, n: nat, k: nat, p: Root) {
    k < n && RootAt(m, from, k, p) && forall j :: 0 <= j < k ==> !AnyRootAt(m, from, j)
  }

  ghost predicate NoRootAt(m: Ram, from: int, n: nat) {
    forall j :: 0 <= j < n ==> !AnyRootAt(m, from, j)
  }

  lemma SearchFinds(m: Ram, from: int, n: nat, k: nat)
    requires k <= n && (k < n ==> AnyRootAt(m, from, k))
    requires forall j :: 0 <= j < k ==> !AnyRootAt(m, from, j)
    ensures FirstCandidate(m, from, n) == k
  {
    hide Candidate, AnyRootAt;
    CandidateIff(m, from, k);
    forall j | 0 <= j < k
      ensures !Candidate(m, from, j)
    {
      CandidateIff(m, from, j);
    }
    FirstCandidateIs(m, from, n, k);
  }

  /** The range below one megabyte, in steps of 16 bytes. */
  const BIOS: int := 0xE_0000
  const BIOS_COUNT: nat := 0x2000

  /** Where the real-mode segment at 0x40E points to. */
  function Ebda(m: Ram): int {
    (m(0x40E) + 0x100 * m(0x40F)) * 16
  }

  /** The first structure of the BIOS range decides, whatever the EBDA holds. */
  lemma RootInBios(m: Ram, k: nat, p: Root)
    requires FirstRootAt(m, BIOS, BIOS_COUNT, k, p)
    ensures RootAddress(m) == ValueOf(p.rsdt)
  {
    hide RootAt, RsdtAt, ValueOf, FirstCandidate;
    assert AnyRootAt(m, BIOS, k);
    SearchFinds(m, BIOS, BIOS_COUNT, k);
    RootDecodes(m, BIOS, k, p);
  }

  /** Without one there, the first structure of the EBDA's first kilobyte does. */
  lemma RootInEbda(m: Ram, k: nat, p: Root)
    requires NoRootAt(m, BIOS, BIOS_COUNT) && FirstRootAt(m, Ebda(m), 64, k, p)
    ensures RootAddress(m) == ValueOf(p.rsdt)
  {
    hide RootAt, RsdtAt, ValueOf, FirstCandidate, EbdaAddress, Ebda;
    assert AnyRootAt(m, Ebda(m), k);
    SearchFinds(m, BIOS, BIOS_COUNT, BIOS_COUNT);
    EbdaIs(m);
    SearchFinds(m, Ebda(m), 64, k);
    RootDecodes(m, Ebda(m), k, p);
  }

  /** Without any there is no root table. */
  lemma NoRoot(m: Ram)
    requires NoRootAt(m, BIOS, BIOS_COUNT) && NoRootAt(m, Ebda(m), 64)
    ensures RootAddress(m) == 0
  {
    hide RsdtAt, FirstCandidate, EbdaAddress, Ebda, AnyRootAt;
    SearchFinds(m, BIOS, BIOS_COUNT, BIOS_COUNT);
    EbdaIs(m);
    SearchFinds(m, Ebda(m), 64, 64);
  }

  lemma EbdaIs(m: Ram)
    ensures EbdaAddress(m) == Ebda(m)
  {
    SignExtensionIsHarmless(m);
  }

  /** Where the search finds its root table. */
  ghost predicate FindsRoot(m: Ram, rsdt: Uint32) {
    || (exists k: nat, p :: FirstRootAt(m, BIOS, BIOS_COUNT, k, p) && ValueOf(p.rsdt) == rsdt)
    || (NoRootAt(m, BIOS, BIOS_COUNT)
        && exists k: nat, p :: FirstRootAt(m, Ebda(m), 64, k, p) && ValueOf(p.rsdt) == rsdt)
  }

  lemma FoundRoot(m: Ram, rsdt: Uint32)
    requires FindsRoot(m, rsdt)
    ensures RootAddress(m) == rsdt != 0
  {
    hide FirstRootAt, NoRootAt, ValueOf, RootAddress, Ebda;
    if k: nat, p :| FirstRootAt(m, BIOS, BIOS_COUNT, k, p) && ValueOf(p.rsdt) == rsdt {
      RootInBios(m, k, p);
      FirstIsGood(m, BIOS, BIOS_COUNT, k, p);
    } else {
      var k: nat, p :| FirstRootAt(m, Ebda(m), 64, k, p) && ValueOf(p.rsdt) == rsdt;
      RootInEbda(m, k, p);
      FirstIsGood(m, Ebda(m), 64, k, p);
    }
  }

  lemma FirstIsGood(m: Ram, from: int, n: nat, k: nat, p: Root)
    requires FirstRootAt(m, from, n, k, p)
    ensures ValueOf(p.rsdt) != 0
  {
  }

  // ---------- Tables ----------

  /** The four characters, and bytes that sum to zero over the length in the next field; from 2^31 on that
      length is negative and the sum is empty. */
  predicate Accepted(m: Ram, at: int, sig: seq<Byte>) {
    var length := ValueOf(FieldAt(m, at + 4));
    && Block(m, at, |sig|) == sig
    && (length >= 0x8000_0000 || SumOf(Block(m, at, length)) % 256 == 0)
  }

  lemma AcceptedIff(m: Ram, at: int, sig: seq<Byte>)
    ensures IsTable(m, at, sig) <==> Accepted(m, at, sig)
  {
    hide ValueOf, Word, SumOf, Sum;
    WordIs(m, at + 4);
    var length := ValueOf(FieldAt(m, at + 4));
    SumOfBlock(m, at, length);
    NoSum(m, at);
    LengthIs(m, at);
    assert Matches(m, at, sig) <==> Block(m, at, |sig|) == sig by {
      if Block(m, at, |sig|) == sig {
        forall i | 0 <= i < |sig|
          ensures m(at + i) == sig[i]
        {
          assert Block(m, at, |sig|)[i] == sig[i];
        }
      }
    }
  }

  lemma LengthIs(m: Ram, at: int)
    ensures TableLength(m, at) == if Word(m, at + 4) < 0x8000_0000 then Word(m, at + 4) else 0
  {
    hide Word;
  }

  lemma NoSum(m: Ram, at: int)
    ensures Sum(m, at, 0) == 0
  {
  }

  // ---------- The fixed description table ----------

  datatype Description = Description(
    header: seq<Byte>,
    firmware: Field,
    dsdt: Field,
    reserved1: Field,
    smiCmd: Field,
    acpiEnable: Byte,
    acpiDisable: Byte,
    reserved2: seq<Byte>,
    pm1aCnt: Field,
    pm1bCnt: Field,
    reserved3: seq<Byte>,
    pm1CntLen: Byte)

  function FirstHalf(d: Description): seq<Byte> {
    d.header + d.firmware + d.dsdt + d.reserved1 + d.smiCmd
  }

  function SecondHalf(d: Description): seq<Byte> {
    [d.acpiEnable, d.acpiDisable] + d.reserved2 + d.pm1aCnt + d.pm1bCnt + d.reserved3 + [d.pm1CntLen]
  }

  /** Section 5.2.9 of ACPI 6.4, up to PM1_CNT_LEN. */
  predicate DescribedAt(m: Ram, at: int, d: Description) {
    && |d.header| == 36 && |d.reserved2| == 10 && |d.reserved3| == 17
    && Stored(m, at, FirstHalf(d) + SecondHalf(d))
  }

  lemma FieldStored(m: Ram, at: int, b: Field)
    requires Stored(m, at, b)
    ensures Word(m, at) == ValueOf(b)
  {
    hide Word, ValueOf;
    StoredIsBlock(m, at, b);
    WordIs(m, at);
  }

  lemma FirstFields(m: Ram, at: int, d: Description)
    requires |d.header| == 36 && Stored(m, at, FirstHalf(d))
    ensures Word(m, at + 40) == ValueOf(d.dsdt) && Word(m, at + 48) == ValueOf(d.smiCmd)
  {
    hide Stored, Word, ValueOf;
    StoredSplit(m, at, d.header + d.firmware + d.dsdt + d.reserved1, d.smiCmd);
    StoredSplit(m, at, d.header + d.firmware + d.dsdt, d.reserved1);
    StoredSplit(m, at, d.header + d.firmware, d.dsdt);
    FieldStored(m, at + 40, d.dsdt);
    FieldStored(m, at + 48, d.smiCmd);
  }

  lemma SecondFields(m: Ram, at: int, d: Description)
    requires |d.reserved2| == 10 && |d.reserved3| == 17 && Stored(m, at, SecondHalf(d))
    ensures m(at) == d.acpiEnable && m(at + 1) == d.acpiDisable && m(at + 37) == d.pm1CntLen
    ensures Word(m, at + 12) == ValueOf(d.pm1aCnt) && Word(m, at + 16) == ValueOf(d.pm1bCnt)
  {
    hide Stored, Word, ValueOf;
    var bits := [d.acpiEnable, d.acpiDisable];
    StoredSplit(m, at, bits + d.reserved2 + d.pm1aCnt + d.pm1bCnt + d.reserved3, [d.pm1CntLen]);
    StoredSplit(m, at, bits + d.reserved2 + d.pm1aCnt + d.pm1bCnt, d.reserved3);
    StoredSplit(m, at, bits + d.reserved2 + d.pm1aCnt, d.pm1bCnt);
    StoredSplit(m, at, bits + d.reserved2, d.pm1aCnt);
    StoredSplit(m, at, bits, d.reserved2);
    StoredAt(m, at, bits, 0);
    StoredAt(m, at, bits, 1);
    StoredAt(m, at + 37, [d.pm1CntLen], 0);
    FieldStored(m, at + 12, d.pm1aCnt);
    FieldStored(m, at + 16, d.pm1bCnt);
  }

  /** Every field comes out of the encoded table as it went in. */
  lemma DescriptionDecodes(m: Ram, at: int, d: Description)
    requires DescribedAt(m, at, d)
    ensures Word(m, at + 40) == ValueOf(d.dsdt)
    ensures
      Named(m, at) ==
        Registers(ValueOf(d.smiCmd), d.acpiEnable, d.acpiDisable, ValueOf(d.pm1aCnt), ValueOf(d.pm1bCnt), d.pm1CntLen)
  {
    hide Stored, Word, ValueOf, FirstHalf, SecondHalf;
    StoredSplit(m, at, FirstHalf(d), SecondHalf(d));
    HalfLength(d);
    FirstFields(m, at, d);
    SecondFields(m, at + 52, d);
  }

  lemma HalfLength(d: Description)
    requires |d.header| == 36
    ensures |FirstHalf(d)| == 52
  {
  }

  // ---------- From the root pointer to the sleep types ----------

  /** Entry `j` lies within the length that the root table gives for itself. */
  predicate EntryFits(m: Ram, rsdt: int, j: nat) {
    var length := ValueOf(FieldAt(m, rsdt + 4));
    length < 0x8000_0000 && 36 + 4 * (j + 1) <= length
  }

  /** Entry `j` of the root table does not point to a fixed description table. */
  predicate OtherEntry(m: Ram, rsdt: int, j: nat) {
    !Accepted(m, ValueOf(FieldAt(m, rsdt + 36 + 4 * j)), Chars("FACP"))
  }

  /** How many bytes of a definition block are searched for the name; the length less the header is an `int`. */
  function BodySize(m: Ram, dsdt: int): nat {
    var length := ValueOf(FieldAt(m, dsdt + 4));
    if 36 <= length < 36 + 0x8000_0000 then length - 36 else 0
  }

  /** The body of the definition block at `dsdt` has the encoded package `p` at offset `k`, where the name
      occurs for the first time. */
  predicate PackageIn(m: Ram, dsdt: int, k: nat, p: Package) {
    var at := dsdt + 36 + k;
    && WellFormed(p) && k + |Body(p)| <= BodySize(m, dsdt)
    && (forall j :: 0 <= j < k ==> NotNamed(m, dsdt, j))
    && Stored(m, at - |NamePrefix(p)|, NamePrefix(p)) && Stored(m, at, Body(p))
  }

  predicate NotNamed(m: Ram, dsdt: int, j: nat) {
    Block(m, dsdt + 36 + j, 4) != Chars("_S5_")
  }

  /** All the bytes that `initAcpi` follows, from the root pointer to the package. */
  ghost predicate Chain(m: Ram, rsdt: Uint32, i: nat, d: Description, k: nat, p: Package) {
    var facp := ValueOf(FieldAt(m, rsdt + 36 + 4 * i));
    && FindsRoot(m, rsdt)
    && Accepted(m, rsdt, Chars("RSDT")) && EntryFits(m, rsdt, i)
    && (forall j :: 0 <= j < i ==> OtherEntry(m, rsdt, j))
    && Accepted(m, facp, Chars("FACP")) && DescribedAt(m, facp, d)
    && Accepted(m, ValueOf(d.dsdt), Chars("DSDT")) && PackageIn(m, ValueOf(d.dsdt), k, p)
  }

  lemma CountedIff(m: Ram, rsdt: int, j: nat)
    ensures j < EntryCount(m, rsdt) <==> EntryFits(m, rsdt, j)
  {
    hide Word, ValueOf;
    WordIs(m, rsdt + 4);
  }

  lemma PackageDefined(m: Ram, facp: int, k: nat, p: Package)
    requires Accepted(m, Word(m, facp + 40), Chars("DSDT")) && PackageIn(m, Word(m, facp + 40), k, p)
    ensures Defines(m, facp, k, p)
  {
    hide Word, ValueOf, Accepted, IsTable, Stored, Body, NamePrefix, WellFormed, Chars, NameHere, BodyLength;
    var dsdt := Word(m, facp + 40);
    var body := dsdt + HEADER_SIZE;
    AcceptedIff(m, dsdt, DSDT);
    Signatures();
    BodyLengthIs(m, dsdt);
    forall j | 0 <= j < k
      ensures !NameHere(m, body, j)
    {
      assert NotNamed(m, dsdt, j);
      NameBlock(m, dsdt, j);
    }
  }

  lemma BodyLengthIs(m: Ram, dsdt: int)
    ensures BodyLength(m, dsdt) == BodySize(m, dsdt)
  {
    hide Word, ValueOf;
    WordIs(m, dsdt + 4);
  }

  lemma NameBlock(m: Ram, dsdt: int, j: nat)
    ensures NameHere(m, dsdt + HEADER_SIZE, j) ==> Block(m, dsdt + 36 + j, 4) == S5
  {
  }

  lemma EntryIff(m: Ram, rsdt: int, j: nat)
    ensures FacpAt(m, rsdt, j) <==> !OtherEntry(m, rsdt, j)
    ensures Entry(m, rsdt, j) == ValueOf(FieldAt(m, rsdt + 36 + 4 * j))
  {
    hide Word, ValueOf, Accepted, IsTable, Chars;
    Signatures();
    WordIs(m, rsdt + 36 + 4 * j);
    AcceptedIff(m, Entry(m, rsdt, j), FACP);
  }

  /** `initAcpi` succeeds on such a machine, with the two sleep types of the package and the registers of the
      description table: from bytes to bytes, the whole way. */
  lemma SoftOffFromBytes(m: Ram, rsdt: Uint32, i: nat, d: Description, k: nat, p: Package)
    requires Chain(m, rsdt, i, d, k, p)
    ensures
      var facp := ValueOf(FieldAt(m, rsdt + 36 + 4 * i));
      && SoftOff(m) == Some((facp as int, SleepTypes(p.first.v * 1024, p.second.v * 1024)))
      && Named(m, facp) ==
           Registers(
             ValueOf(d.smiCmd), d.acpiEnable, d.acpiDisable, ValueOf(d.pm1aCnt), ValueOf(d.pm1bCnt), d.pm1CntLen)
  {
    hide EntryFits, FindsRoot, Accepted, ValueOf, Word, IsTable, DescribedAt, PackageIn, Chars, OtherEntry, FacpAt;
    hide RootAddress, EntryCount, SoftOff, Named, Defines;
    var facp := ValueOf(FieldAt(m, rsdt + 36 + 4 * i));
    Signatures();
    FoundRoot(m, rsdt);
    AcceptedIff(m, rsdt, RSDT);
    CountedIff(m, rsdt, i);
    forall j | 0 <= j < i
      ensures !FacpAt(m, rsdt, j)
    {
      EntryIff(m, rsdt, j);
    }
    WordIs(m, rsdt + 36 + 4 * i);
    AcceptedIff(m, facp, FACP);
    IsFacp(m, rsdt, i, facp);
    DescriptionDecodes(m, facp, d);
    PackageDefined(m, facp, k, p);
    SoftOffRoundTrip(m, rsdt, i, k, p);
  }

  // ---------- Exactly when there is a soft-off ----------

  lemma NamedIff(m: Ram, dsdt: int, j: nat)
    ensures NameHere(m, dsdt + HEADER_SIZE, j) <==> !NotNamed(m, dsdt, j)
  {
    hide Chars;
    Signatures();
    var b := Block(m, dsdt + 36 + j, 4);
    if b == S5 {
      assert forall i :: 0 <= i < 4 ==> b[i] == S5[i];
    }
  }

  /** Entry `i` of the root table is the first that points to a fixed description table. */
  predicate FirstDescription(m: Ram, rsdt: int, i: nat) {
    EntryFits(m, rsdt, i) && !OtherEntry(m, rsdt, i) && forall j :: 0 <= j < i ==> OtherEntry(m, rsdt, j)
  }

  /** The name stands in the body of the definition block at `dsdt`, for the first time at offset `k`. */
  predicate FirstNamed(m: Ram, dsdt: int, k: nat) {
    k < BodySize(m, dsdt) && !NotNamed(m, dsdt, k) && forall j :: 0 <= j < k ==> NotNamed(m, dsdt, j)
  }

  /** There is a name declaration, possibly of a name at the root, and a package behind the name. */
  predicate IsDeclared(m: Ram, at: int) {
    (m(at - 1) == 0x08 || (m(at - 2) == 0x08 && m(at - 1) == 0x5C)) && m(at + 4) == 0x12
  }

  /** All that `initAcpi` asks of the bytes, step by step: the root table, the first fixed description table,
      its definition block, and the package at the name's first occurrence, which must not be the last byte. */
  ghost predicate Leads(m: Ram, rsdt: Uint32, i: nat, facp: Uint32, k: nat) {
    var dsdt := ValueOf(FieldAt(m, facp + 40));
    && FindsRoot(m, rsdt) && Accepted(m, rsdt, Chars("RSDT"))
    && FirstDescription(m, rsdt, i) && facp == ValueOf(FieldAt(m, rsdt + 36 + 4 * i))
    && Accepted(m, dsdt, Chars("DSDT"))
    && FirstNamed(m, dsdt, k) && k + 1 < BodySize(m, dsdt) && IsDeclared(m, dsdt + 36 + k)
  }

  ghost predicate AnyLeads(m: Ram) {
    exists rsdt, i, facp, k :: Leads(m, rsdt, i, facp, k)
  }

  /** The search through the root table's entries. */
  lemma FirstFacpIff(m: Ram, rsdt: int, i: nat)
    ensures FirstDescription(m, rsdt, i) <==> i < EntryCount(m, rsdt) && FirstFacp(m, rsdt, EntryCount(m, rsdt)) == i
  {
    hide EntryCount, FacpAt, OtherEntry, EntryFits, FirstFacp, Entry, ValueOf;
    var n := EntryCount(m, rsdt);
    CountedIff(m, rsdt, i);
    EntryIff(m, rsdt, i);
    forall j | 0 <= j < i
      ensures FacpAt(m, rsdt, j) <==> !OtherEntry(m, rsdt, j)
    {
      EntryIff(m, rsdt, j);
    }
    FacpIsFirst(m, rsdt, n);
    if FirstDescription(m, rsdt, i) {
      FirstFacpIs(m, rsdt, n, i);
    }
  }

  /** The search through the definition block's body. */
  lemma NameAtIff(m: Ram, dsdt: int, k: nat)
    ensures FirstNamed(m, dsdt, k) && k + 1 < BodySize(m, dsdt) <==> NameAt(m, dsdt) == Some(dsdt + 36 + k)
  {
    hide BodySize, Chars, NameHere, BodyLength, NotNamed;
    var body, n := dsdt + HEADER_SIZE, BodyLength(m, dsdt);
    BodyLengthIs(m, dsdt);
    forall j | 0 <= j < n
      ensures NameHere(m, body, j) <==> !NotNamed(m, dsdt, j)
    {
      NamedIff(m, dsdt, j);
    }
    if FirstNamed(m, dsdt, k) {
      FirstNameIs(m, body, n, k);
    }
  }

  /** What is found is behind the header. */
  lemma NameBehindHeader(m: Ram, dsdt: int)
    requires NameAt(m, dsdt).Some?
    ensures NameAt(m, dsdt).value >= dsdt + 36
  {
    hide NameHere, BodyLength;
  }

  /** The root table is found only as `FindsRoot` says. */
  lemma RootFound(m: Ram)
    requires RootAddress(m) != 0
    ensures FindsRoot(m, RootAddress(m))
  {
    hide FirstRootAt, NoRootAt, RootAddress, ValueOf, Ebda;
    if !NoRootAt(m, BIOS, BIOS_COUNT) {
      var k, p := FirstRoot(m, BIOS, BIOS_COUNT);
      RootInBios(m, k, p);
    } else if !NoRootAt(m, Ebda(m), 64) {
      var k, p := FirstRoot(m, Ebda(m), 64);
      RootInEbda(m, k, p);
    } else {
      NoRoot(m);
    }
  }

  lemma FirstRoot(m: Ram, from: int, n: nat) returns (k: nat, p: Root)
    requires !NoRootAt(m, from, n)
    ensures FirstRootAt(m, from, n, k, p)
  {
    hide RootAt, Candidate, AnyRootAt;
    forall j: nat
      ensures Candidate(m, from, j) <==> AnyRootAt(m, from, j)
    {
      CandidateIff(m, from, j);
    }
    k := FirstCandidate(m, from, n);
    p := WitnessRoot(m, from, k);
  }

  lemma WitnessRoot(m: Ram, from: int, k: nat) returns (p: Root)
    requires AnyRootAt(m, from, k)
    ensures RootAt(m, from, k, p)
  {
    hide RootAt;
    p :| RootAt(m, from, k, p);
  }

  /** Where the bytes lead, `initAcpi` goes, to this description table and the package at this name. */
  lemma LeadsThere(m: Ram, rsdt: Uint32, i: nat, facp: Uint32, k: nat)
    requires Leads(m, rsdt, i, facp, k)
    ensures SoftOff(m) == Some((facp as int, Decode(m, Word(m, facp + 40) + 36 + k)))
  {
    hide FindsRoot, FirstDescription, FirstNamed, Accepted, ValueOf, Word, IsTable, Chars, RootAddress, EntryCount;
    hide FirstFacp, Decode, NameAt, BodySize;
    Signatures();
    FoundRoot(m, rsdt);
    AcceptedIff(m, rsdt, RSDT);
    FirstFacpIff(m, rsdt, i);
    EntryIff(m, rsdt, i);
    WordIs(m, facp + 40);
    AcceptedIff(m, Word(m, facp + 40), DSDT);
    NameAtIff(m, Word(m, facp + 40), k);
  }

  /** And it finds a soft-off only where they do. */
  lemma LedThere(m: Ram)
    requires SoftOff(m).Some?
    ensures AnyLeads(m)
  {
    hide FindsRoot, FirstDescription, FirstNamed, Accepted, ValueOf, Word, IsTable, Chars, RootAddress, EntryCount;
    hide FirstFacp, Decode, NameAt, BodySize;
    Signatures();
    var rsdt := RootAddress(m);
    RootFound(m);
    AcceptedIff(m, rsdt, RSDT);
    var i := FirstFacp(m, rsdt, EntryCount(m, rsdt));
    FirstFacpIff(m, rsdt, i);
    EntryIff(m, rsdt, i);
    var facp: Uint32 := Entry(m, rsdt, i);
    var dsdt := Word(m, facp + 40);
    WordIs(m, facp + 40);
    AcceptedIff(m, dsdt, DSDT);
    NameBehindHeader(m, dsdt);
    var k := NameAt(m, dsdt).value - dsdt - 36;
    NameAtIff(m, dsdt, k);
    assert Leads(m, rsdt, i, facp, k);
  }

  /** `initAcpi` succeeds on exactly the machines whose bytes lead from a root structure to a package. */
  lemma SoftOffIff(m: Ram)
    ensures SoftOff(m).Some? <==> AnyLeads(m)
  {
    hide SoftOff, Leads, Decode;
    if rsdt, i, facp, k :| Leads(m, rsdt, i, facp, k) {
      LeadsThere(m, rsdt, i, facp, k);
    }
    if SoftOff(m).Some? {
      LedThere(m);
    }
  }

  lemma IsFacp(m: Ram, rsdt: int, i: nat, facp: Uint32)
    requires IsTable(m, facp, FACP) && facp == Word(m, rsdt + 36 + 4 * i)
    ensures FacpAt(m, rsdt, i) && Entry(m, rsdt, i) == facp
  {
  }
}
