/** The search for ACPI tables and the decoding of the soft-off package (acpi.c). */
module Acpi {
  import opened CInt

  /** What physical memory reads as, at any address. */
  type Ram = int -> Byte

  function Word(m: Ram, at: int): Uint32 {
    FromLe(m(at), m(at + 1), m(at + 2), m(at + 3))
  }

  // ---------- Signatures and checksums ----------

  predicate Matches(m: Ram, at: int, sig: seq<Byte>) {
    forall i :: 0 <= i < |sig| ==> m(at + i) == sig[i]
  }

  function Sum(m: Ram, at: int, n: nat): nat {
    if n == 0 then 0 else Sum(m, at, n - 1) + m(at + n - 1)
  }

  /** One more byte in an 8-bit running sum. */
  lemma SumStep(m: Ram, at: int, n: nat)
    ensures (Sum(m, at, n) % 256 + m(at + n)) % 256 == Sum(m, at, n + 1) % 256
  {
  }

  const RSD_PTR: seq<Byte> := [0x52, 0x53, 0x44, 0x20, 0x50, 0x54, 0x52, 0x20]
  const RSDT: seq<Byte> := [0x52, 0x53, 0x44, 0x54]
  const FACP: seq<Byte> := [0x46, 0x41, 0x43, 0x50]
  const DSDT: seq<Byte> := [0x44, 0x53, 0x44, 0x54]
  const S5: seq<Byte> := [0x5F, 0x53, 0x35, 0x5F]

  const RSDP_SIZE: nat := 20
  const HEADER_SIZE: nat := 36

  /** Section 5.2.5.3 of ACPI 6.4: the pointer structure with its signature and a zero sum. */
  predicate IsRsdp(m: Ram, at: int) {
    Matches(m, at, RSD_PTR) && Sum(m, at, RSDP_SIZE) % 256 == 0
  }

  /** The length field of a table as the `int` it is read into; a negative one makes the sum empty. */
  function TableLength(m: Ram, at: int): nat {
    var len := Wrap32(Word(m, at + 4));
    if len > 0 then len else 0
  }

  predicate IsTable(m: Ram, at: int, sig: seq<Byte>) {
    Matches(m, at, sig) && Sum(m, at, TableLength(m, at)) % 256 == 0
  }

  lemma {:induction false} SumWithOneChange(m: Ram, m': Ram, at: int, n: nat, x: int)
    requires forall y :: at <= y < at + n && y != x ==> m(y) == m'(y)
    ensures Sum(m', at, n) == Sum(m, at, n) + if at <= x < at + n then m'(x) - m(x) else 0
  {
    if n > 0 {
      SumWithOneChange(m, m', at, n - 1, x);
      assert at + n - 1 != x ==> m(at + n - 1) == m'(at + n - 1);
    }
  }

  lemma NotBothDivisible(a: nat, b: nat)
    requires a != b && a - 256 < b < a + 256
    ensures a % 256 != 0 || b % 256 != 0
  {
  }

  /** Two tables of the same length that differ in exactly one byte are never both accepted. */
  lemma OneByteIsNoticed(m: Ram, m': Ram, at: int, sig: seq<Byte>, x: int)
    requires TableLength(m, at) == TableLength(m', at) && at <= x < at + TableLength(m, at)
    requires m(x) != m'(x) && forall y :: at <= y < at + TableLength(m, at) && y != x ==> m(y) == m'(y)
    ensures !(IsTable(m, at, sig) && IsTable(m', at, sig))
  {
    hide TableLength, Sum, Matches;
    var n := TableLength(m, at);
    SumWithOneChange(m, m', at, n, x);
    NotBothDivisible(Sum(m, at, n), Sum(m', at, n));
  }

  // ---------- The search for the root pointer ----------

  const BIOS_START: int := 0xE_0000
  const BIOS_END: int := 0x10_0000

  /** The RSDT address of a valid structure at `at`, or zero. */
  function RsdtAt(m: Ram, at: int): Uint32 {
    if IsRsdp(m, at) then Word(m, at + 16) else 0
  }

  /** A 16-byte step of the range from `from` holds a structure with a non-null address. */
  predicate Candidate(m: Ram, from: int, k: nat) {
    RsdtAt(m, from + 16 * k) != 0
  }

  /** The lowest of `n` steps that is a candidate, or `n`. */
  function FirstCandidate(m: Ram, from: int, n: nat): (k: nat)
    ensures k <= n
    ensures k < n ==> Candidate(m, from, k)
    ensures forall j :: 0 <= j < k ==> !Candidate(m, from, j)
  {
    if n == 0 then 0
    else
      var k := FirstCandidate(m, from, n - 1);
      if k < n - 1 || Candidate(m, from, k) then k else n
  }

  /** The real-mode segment of the EBDA as the signed 16-bit value it is read into. */
  function EbdaSegment(m: Ram): int {
    var s := m(0x40E) + 0x100 * m(0x40F);
    if s < 0x8000 then s else s - 0x1_0000
  }

  /** `ebda*0x10 & 0x000FFFFF` on two's complement. */
  function EbdaAddress(m: Ram): int {
    EbdaSegment(m) * 16 % 0x10_0000
  }

  /** The sign extension does not matter: the address is the segment times 16, below one megabyte. */
  lemma SignExtensionIsHarmless(m: Ram)
    ensures EbdaAddress(m) == (m(0x40E) + 0x100 * m(0x40F)) * 16
  {
  }

  const BIOS_STEPS: nat := 0x2000
  const EBDA_STEPS: nat := 64

  /** First the BIOS range, and only if it has none the first kilobyte of the EBDA. */
  function RootAddress(m: Ram): Uint32 {
    var b := FirstCandidate(m, BIOS_START, BIOS_STEPS);
    var e := FirstCandidate(m, EbdaAddress(m), EBDA_STEPS);
    if b < BIOS_STEPS then RsdtAt(m, BIOS_START + 16 * b)
    else if e < EBDA_STEPS then RsdtAt(m, EbdaAddress(m) + 16 * e)
    else 0
  }

  method MemCmp(m: Ram, at: int, sig: seq<Byte>, n: nat) returns (r: int)
    requires n <= |sig|
    ensures r == 0 <==> Matches(m, at, sig[..n])
  {
    var i := 0;
    while i < n
      invariant i <= n
      invariant forall j :: 0 <= j < i ==> m(at + j) == sig[j]
    {
      if m(at + i) != sig[i] {
        assert sig[..n][i] == sig[i];
        return m(at + i) as int - sig[i] as int;
      }
      i := i + 1;
    }
    return 0;
  }

  method CheckRsdPtr(m: Ram, ptr: int) returns (rsdt: Uint32)
    ensures rsdt == RsdtAt(m, ptr)
  {
    var differ := MemCmp(m, ptr, RSD_PTR, 8);
    assert RSD_PTR[..8] == RSD_PTR;
    if differ == 0 {
      var check: Byte := 0;
      var i := 0;
      while i < RSDP_SIZE
        invariant i <= RSDP_SIZE && check == Sum(m, ptr, i) % 256
      {
        SumStep(m, ptr, i);
        check := (check + m(ptr + i)) % 256;
        i := i + 1;
      }
      if check == 0 {
        return Word(m, ptr + 16);
      }
    }
    return 0;
  }

  lemma FirstCandidateIs(m: Ram, from: int, n: nat, k: nat)
    requires k <= n && (k < n ==> Candidate(m, from, k))
    requires forall j :: 0 <= j < k ==> !Candidate(m, from, j)
    ensures FirstCandidate(m, from, n) == k
  {
    hide Candidate;
    var f := FirstCandidate(m, from, n);
  }

  /** One of the two scanning loops, in steps of 16 bytes. */
  method Scan(m: Ram, from: int, n: nat) returns (rsdt: Uint32)
    ensures
      var k := FirstCandidate(m, from, n);
      rsdt == if k < n then RsdtAt(m, from + 16 * k) else 0
  {
    hide RsdtAt;
    var addr := from;
    ghost var k := 0;
    while addr < from + 16 * n
      invariant k <= n && addr == from + 16 * k
      invariant forall j :: 0 <= j < k ==> !Candidate(m, from, j)
      decreases n - k
    {
      rsdt := CheckRsdPtr(m, addr);
      if rsdt != 0 {
        FirstCandidateIs(m, from, n, k);
        return;
      }
      addr := addr + 16;
      k := k + 1;
    }
    FirstCandidateIs(m, from, n, n);
    return 0;
  }

  method GetRsdPtr(m: Ram) returns (rsdt: Uint32)
    ensures rsdt == RootAddress(m)
  {
    hide RsdtAt, FirstCandidate;
    rsdt := Scan(m, BIOS_START, (BIOS_END - BIOS_START) / 16);
    if rsdt != 0 {
      return;
    }
    var ebda := EbdaSegment(m);
    ebda := ebda * 16 % 0x10_0000;
    rsdt := Scan(m, ebda, 1024 / 16);
  }

  method CheckHeader(m: Ram, ptr: int, sig: seq<Byte>) returns (status: int)
    requires |sig| == 4
    ensures status == if IsTable(m, ptr, sig) then 0 else -1
  {
    var differ := MemCmp(m, ptr, sig, 4);
    assert sig[..4] == sig;
    if differ == 0 {
      var len: int := Wrap32(Word(m, ptr + 4));
      var checkPtr := ptr;
      var check: Byte := 0;
      while 0 < len
        invariant 0 <= checkPtr - ptr <= TableLength(m, ptr)
        invariant len == Wrap32(Word(m, ptr + 4)) - (checkPtr - ptr)
        invariant check == Sum(m, ptr, checkPtr - ptr) % 256
      {
        SumStep(m, ptr, checkPtr - ptr);
        len := len - 1;
        check := (check + m(checkPtr)) % 256;
        checkPtr := checkPtr + 1;
      }
      if check == 0 {
        return 0;
      }
    }
    return -1;
  }
}
