/**
 * The two-level TLB: 16-line instruction and data TLBs over a shared 64-line
 * second level, all direct mapped. `lookup` is the number of second-level lines
 * the lookup indexes over: the code masks with 4 bits (16 lines), although it
 * inserts and invalidates with 6 (64 lines), which is what the design calls for.
 */
module TlbHierarchy {
  import opened Machine
  import opened Address
  import opened PageTables

  const L1_LINES := 16
  const L1_LINES_BITS := 4
  const L2_LINES := 64
  const L2_LINES_BITS := 6
  const CODE_LOOKUP: Lookup := 16
  const DESIGN_LOOKUP: Lookup := 64

  type Lookup = n: int | n == 16 || n == 64 witness 16
  type Bits30 = x: int | 0 <= x < 0x4000_0000

  datatype L1Entry = L1Entry(v: bool, tag: Word, page: Bits20)
  datatype L2Entry = L2Entry(v: bool, tag: Bits30, page: Bits20)

  const EMPTY_L1 := L1Entry(false, 0, 0)
  const EMPTY_L2 := L2Entry(false, 0, 0)

  type L1Table = t: seq<L1Entry> | |t| == L1_LINES witness seq(L1_LINES, _ => EMPTY_L1)
  type L2Table = t: seq<L2Entry> | |t| == L2_LINES witness seq(L2_LINES, _ => EMPTY_L2)

  datatype Hierarchy = Hierarchy(l1i: L1Table, l1d: L1Table, l2: L2Table)
  {
    function L1(access: Access): L1Table {
      match access case Instruction => l1i case Data => l1d
    }

    function WithL1(access: Access, table: L1Table): Hierarchy {
      match access case Instruction => this.(l1i := table) case Data => this.(l1d := table)
    }
  }

  function Other(access: Access): Access {
    match access case Instruction => Data case Data => Instruction
  }

  function L1Tag(vpn: Bits36): Word { vpn / L1_LINES }

  function L2Tag(vpn: Bits36): Bits30 { vpn / L2_LINES }

  function L1Index(vpn: Bits36): (i: nat)
    ensures i < L1_LINES
  {
    vpn % L1_LINES
  }

  function L2Index(vpn: Bits36): (i: nat)
    ensures i < L2_LINES
  {
    vpn % L2_LINES
  }

  function LookupIndex(lookup: Lookup, vpn: Bits36): (i: nat)
    ensures i < L2_LINES
  {
    vpn % lookup
  }

  function L1Vpn(tag: Word, index: nat): Bits36
    requires index < L1_LINES
  {
    tag * L1_LINES + index
  }

  function L2Vpn(tag: Bits30, index: nat): Bits36
    requires index < L2_LINES
  {
    tag * L2_LINES + index
  }

  function Low32(x: Bits36): Word { x % 0x1_0000_0000 }

  predicate HoldsL1(t: L1Table, vpn: Bits36) {
    t[L1Index(vpn)].v && t[L1Index(vpn)].tag == L1Tag(vpn)
  }

  predicate HoldsL2(t: L2Table, vpn: Bits36) {
    t[L2Index(vpn)].v && t[L2Index(vpn)].tag == L2Tag(vpn)
  }

  /** The lookup's own hit test: HoldsL2, if it looks at the right line. */
  predicate LookupL2(lookup: Lookup, t: L2Table, vpn: Bits36) {
    t[LookupIndex(lookup, vpn)].v && t[LookupIndex(lookup, vpn)].tag == L2Tag(vpn)
  }

  /** Tag and index determine the page number at either level, and are determined by it. */
  lemma TagAndIndex(x: Bits36, y: Bits36)
    ensures L1Vpn(L1Tag(x), L1Index(x)) == x == L2Vpn(L2Tag(x), L2Index(x))
    ensures x == 16 * L1Tag(x) + L1Index(x) == 64 * L2Tag(x) + L2Index(x)
    ensures L1Tag(x) == L1Tag(y) && L1Index(x) == L1Index(y) ==> x == y
    ensures L2Tag(x) == L2Tag(y) && L2Index(x) == L2Index(y) ==> x == y
  {
  }

  lemma SplitL1(tag: Word, index: nat)
    requires index < L1_LINES
    ensures L1Tag(L1Vpn(tag, index)) == tag && L1Index(L1Vpn(tag, index)) == index
  {
  }

  lemma SplitL2(tag: Bits30, index: nat)
    requires index < L2_LINES
    ensures L2Tag(L2Vpn(tag, index)) == tag && L2Index(L2Vpn(tag, index)) == index
  {
  }

  /** The low 32 bits decide the second-level index, which decides the other two. */
  lemma IndicesNest(x: Bits36, y: Bits36, lookup: Lookup)
    ensures Low32(x) == Low32(y) ==> L2Index(x) == L2Index(y)
    ensures L2Index(x) == L2Index(y) ==> L1Index(x) == L1Index(y) && LookupIndex(lookup, x) == LookupIndex(lookup, y)
  {
    hide Low32, L1Index, L2Index, LookupIndex;
    NestIndices(x, lookup);
    NestIndices(y, lookup);
  }

  lemma NestIndices(x: Bits36, lookup: Lookup)
    ensures L2Index(x) == Low32(x) % 64
    ensures L1Index(x) == L2Index(x) % 16 && LookupIndex(lookup, x) == L2Index(x) % lookup
  {
    Nest64(x);
    Nest16(x);
  }

  lemma Nest64(x: nat)
    ensures x % 0x1_0000_0000 % 64 == x % 64
  {
    var q, r := x / 0x1_0000_0000, x % 0x1_0000_0000;
    assert x == 64 * (0x400_0000 * q + r / 64) + r % 64;
    Remainder(x, 64, 0x400_0000 * q + r / 64, r % 64);
  }

  lemma Nest16(x: nat)
    ensures x % 64 % 16 == x % 16
  {
    var q, r := x / 64, x % 64;
    assert x == 16 * (4 * q + r / 16) + r % 16;
    Remainder(x, 16, 4 * q + r / 16, r % 16);
  }

  /** A quotient and a remainder in range are the quotient and the remainder. */
  lemma Remainder(x: nat, d: nat, q: nat, r: nat)
    requires (d == 16 || d == 64) && x == d * q + r && r < d
    ensures x / d == q && x % d == r
  {
  }

  /** The entry for vpn overwrites its first-level line. */
  ghost function InsertL1(h: Hierarchy, access: Access, vpn: Bits36, page: Bits20): Hierarchy {
    h.WithL1(access, h.L1(access)[L1Index(vpn) := L1Entry(true, L1Tag(vpn), page)])
  }

  /** The page number in the second-level line a refill for vpn takes over. */
  function Evicted(h: Hierarchy, vpn: Bits36): Bits36 {
    L2Vpn(h.l2[L2Index(vpn)].tag, L2Index(vpn))
  }

  /**
   * The page numbers in the line about to be replaced and in the other first
   * level's line are rebuilt in 32-bit arithmetic, which loses their top bits;
   * the second level's valid bit is not looked at.
   */
  predicate InvalidationFires(h: Hierarchy, access: Access, vpn: Bits36) {
    var line1 := h.L1(Other(access))[L1Index(vpn)];
    line1.v && Low32(L1Vpn(line1.tag, L1Index(vpn))) == Low32(Evicted(h, vpn))
  }

  ghost function Invalidate(h: Hierarchy, access: Access, vpn: Bits36): Hierarchy {
    var table := h.L1(Other(access));
    var i := L1Index(vpn);
    if InvalidationFires(h, access, vpn) then h.WithL1(Other(access), table[i := table[i].(v := false)]) else h
  }

  ghost function Refill(h: Hierarchy, access: Access, vpn: Bits36, page: Bits20): Hierarchy {
    var h1 := Invalidate(h, access, vpn);
    InsertL1(h1.(l2 := h1.l2[L2Index(vpn) := L2Entry(true, L2Tag(vpn), page)]), access, vpn, page)
  }

  ghost function Ask(lookup: Lookup, mem: PhysMem, h: Hierarchy, access: Access, vaddr: VirtAddr): Answer {
    var vpn := PageNumber(vaddr);
    if HoldsL1(h.L1(access), vpn) then Answer(Ok(PhyAddr(h.L1(access)[L1Index(vpn)].page, vaddr.offset)), true)
    else if LookupL2(lookup, h.l2, vpn) then
      Answer(Ok(PhyAddr(h.l2[LookupIndex(lookup, vpn)].page, vaddr.offset)), true)
    else Answer(Walk(mem, vaddr), false)
  }

  ghost function Next(lookup: Lookup, mem: PhysMem, h: Hierarchy, access: Access, vaddr: VirtAddr): Hierarchy {
    var vpn := PageNumber(vaddr);
    if HoldsL1(h.L1(access), vpn) then h
    else if LookupL2(lookup, h.l2, vpn) then InsertL1(h, access, vpn, h.l2[LookupIndex(lookup, vpn)].page)
    else
      match Walk(mem, vaddr)
      case Ok(paddr) => Refill(h, access, vpn, paddr.page)
      case Err(_) => h
  }

  class Tlbs {
    const l1i: array<L1Entry>
    const l1d: array<L1Entry>
    const l2: array<L2Entry>

    ghost predicate Valid() {
      l1i.Length == L1_LINES && l1d.Length == L1_LINES && l2.Length == L2_LINES && l1i != l1d
    }

    ghost function View(): Hierarchy
      requires Valid()
      reads l1i, l1d, l2
    {
      Hierarchy(l1i[..], l1d[..], l2[..])
    }

    function L1(access: Access): array<L1Entry> {
      match access case Instruction => l1i case Data => l1d
    }

    constructor ()
      ensures Valid() && fresh(l1i) && fresh(l1d) && fresh(l2)
      ensures View() == Hierarchy(seq(16, _ => EMPTY_L1), seq(16, _ => EMPTY_L1), seq(64, _ => EMPTY_L2))
    {
      l1i := new L1Entry[16](_ => EMPTY_L1);
      l1d := new L1Entry[16](_ => EMPTY_L1);
      l2 := new L2Entry[64](_ => EMPTY_L2);
    }

    /**
     * tlb_flush bounds its loop by the number of index bits, not of lines, so it
     * empties the table iff the lines from the fifth on are already invalid.
     */
    method FlushL1(access: Access)
      requires Valid()
      modifies L1(access)
      ensures forall i :: 0 <= i < 16 ==>
        L1(access)[i] == if i < L1_LINES_BITS then EMPTY_L1 else old(L1(access)[i])
      ensures (forall i :: 0 <= i < 16 ==> !L1(access)[i].v) <==> old(forall i :: 4 <= i < 16 ==> !L1(access)[i].v)
    {
      var table := L1(access);
      for i := 0 to L1_LINES_BITS
        invariant forall k :: 0 <= k < 16 ==> table[k] == if k < i then EMPTY_L1 else old(table[k])
      {
        table[i] := EMPTY_L1;
      }
    }

    method FlushL2()
      requires Valid()
      modifies l2
      ensures forall i :: 0 <= i < 64 ==> l2[i] == if i < L2_LINES_BITS then EMPTY_L2 else old(l2[i])
      ensures (forall i :: 0 <= i < 64 ==> !l2[i].v) <==> old(forall i :: 6 <= i < 64 ==> !l2[i].v)
    {
      for i := 0 to L2_LINES_BITS
        invariant forall k :: 0 <= k < 64 ==> l2[k] == if k < i then EMPTY_L2 else old(l2[k])
      {
        l2[i] := EMPTY_L2;
      }
    }

    method HitL1(access: Access, vaddr: VirtAddr) returns (paddr: Option<PhyAddr>)
      requires Valid()
      ensures paddr.Some? <==> HoldsL1(View().L1(access), PageNumber(vaddr))
      ensures paddr.Some? ==>
        paddr.value == PhyAddr(View().L1(access)[L1Index(PageNumber(vaddr))].page, vaddr.offset)
    {
      var addr := PageNumber(vaddr);
      var line := L1(access)[addr % 16];
      paddr := if addr / 16 == line.tag && line.v then Some(PhyAddr(line.page, vaddr.offset)) else None;
    }

    method HitL2(vaddr: VirtAddr) returns (paddr: Option<PhyAddr>)
      requires Valid()
      ensures paddr.Some? <==> LookupL2(CODE_LOOKUP, View().l2, PageNumber(vaddr))
      ensures paddr.Some? ==>
        paddr.value == PhyAddr(View().l2[LookupIndex(CODE_LOOKUP, PageNumber(vaddr))].page, vaddr.offset)
    {
      var addr := PageNumber(vaddr);
      var line := l2[addr % 16];
      paddr := if addr / 64 == line.tag && line.v then Some(PhyAddr(line.page, vaddr.offset)) else None;
    }

    method PutL1(access: Access, vpn: Bits36, paddr: PhyAddr)
      requires Valid()
      modifies L1(access)
      ensures View() == InsertL1(old(View()), access, vpn, paddr.page)
    {
      L1(access)[vpn % 16] := L1Entry(true, vpn / 16, paddr.page);
    }

    method Invalidation(access: Access, vpn: Bits36)
      requires Valid()
      modifies L1(Other(access))
      ensures View() == Invalidate(old(View()), access, vpn)
    {
      var index2 := vpn % 64;
      var oldVaddr2 := (l2[index2].tag * 64 + index2) % 0x1_0000_0000;
      var index1 := vpn % 16;
      var other := L1(Other(access));
      var oldVaddr1 := (other[index1].tag * 16 + index1) % 0x1_0000_0000;
      if other[index1].v && oldVaddr1 == oldVaddr2 {
        other[index1] := other[index1].(v := false);
      }
    }

    method TlbSearch(mem: PhysMem, access: Access, vaddr: VirtAddr) returns (answer: Answer)
      requires Valid()
      modifies l1i, l1d, l2
      ensures answer == Ask(CODE_LOOKUP, mem, old(View()), access, vaddr)
      ensures View() == Next(CODE_LOOKUP, mem, old(View()), access, vaddr)
    {
      var found := HitL1(access, vaddr);
      if found.Some? {
        return Answer(Ok(found.value), true);
      }
      var addr := PageNumber(vaddr);
      found := HitL2(vaddr);
      if found.Some? {
        PutL1(access, addr, found.value);
        return Answer(Ok(found.value), true);
      }
      var walked := PageWalk(mem, vaddr);
      if walked.Ok? {
        Invalidation(access, addr);
        l2[addr % 64] := L2Entry(true, addr / 64, walked.value.page);
        PutL1(access, addr, walked.value);
      }
      answer := Answer(walked, false);
    }
  }
}
