/**
 * Exactly when the two-level TLB as written translates correctly, and evicts
 * correctly: the lookup in the second level masks the page number with 4 bits where
 * insertion uses 6.
 */
module TlbLookupMask {
  import opened Machine
  import opened Address
  import opened PageTables
  import opened TlbHierarchy
  import opened TlbHierarchyRuns

  ghost predicate SameMemory(mem: PhysMem, reqs: seq<Request>) {
    forall i :: 0 <= i < |reqs| ==> reqs[i].mem == mem
  }

  ghost predicate Right(lookup: Lookup, mem: PhysMem, reqs: seq<Request>, access: Access, vaddr: VirtAddr) {
    Ask(lookup, mem, Run(lookup, reqs), access, vaddr).result == Walk(mem, vaddr)
  }

  /** Over any memory, after any requests, every address of the page is answered as the page walk answers it. */
  ghost predicate AlwaysRight(lookup: Lookup, vpn: Bits36) {
    forall mem, reqs, access, offset ::
      SameMemory(mem, reqs) ==> Right(lookup, mem, reqs, access, OfPageNumber(vpn, offset))
  }

  /** The second level changes by a translated miss only. */
  lemma NextL2(lookup: Lookup, mem: PhysMem, h: Hierarchy, access: Access, vaddr: VirtAddr)
    ensures var h', x := Next(lookup, mem, h, access, vaddr), PageNumber(vaddr);
      || h'.l2 == h.l2
      || (Walk(mem, vaddr).Ok? && h'.l2 == h.l2[L2Index(x) := L2Entry(true, L2Tag(x), Walk(mem, vaddr).value.page)])
  {
  }

  /** Even with the code's lookup, the second level only ever holds true translations. */
  lemma {:induction false} SecondLevelIsTrue(lookup: Lookup, mem: PhysMem, reqs: seq<Request>, x: Bits36)
    requires SameMemory(mem, reqs) && HoldsL2(Run(lookup, reqs).l2, x)
    ensures Translate(mem, x) == Some(Run(lookup, reqs).l2[L2Index(x)].page)
  {
    hide L1Index, L2Index, LookupIndex, L1Tag, L2Tag, Next, Walk;
    var before, r := reqs[..|reqs| - 1], reqs[|reqs| - 1];
    var h, h' := Run(lookup, before), Run(lookup, reqs);
    NextL2(lookup, mem, h, r.access, r.vaddr);
    TagAndIndex(x, PageNumber(r.vaddr));
    WalkByPageNumber(mem, r.vaddr);
    if h'.l2[L2Index(x)] == h.l2[L2Index(x)] {
      SecondLevelIsTrue(lookup, mem, before, x);
    }
  }

  lemma IndexedIsRight(lookup: Lookup, mem: PhysMem, reqs: seq<Request>, access: Access, vaddr: VirtAddr)
    requires SameMemory(mem, reqs) && Indexed(lookup, PageNumber(vaddr))
    ensures Right(lookup, mem, reqs, access, vaddr)
  {
    hide L1Index, L2Index, LookupIndex, L1Tag, L2Tag;
    var h, x := Run(lookup, reqs), PageNumber(vaddr);
    Inclusion(lookup, reqs);
    assert Included(lookup, h, access, x);
    WalkByPageNumber(mem, vaddr);
    if HoldsL2(h.l2, x) {
      SecondLevelIsTrue(lookup, mem, reqs, x);
    }
  }

  /** The page number the code mistakes for vpn: same second-level tag, index cut to 4 bits. */
  function Lookalike(vpn: Bits36): Bits36 {
    vpn - vpn % 64 + vpn % 16
  }

  lemma LookalikeCollides(vpn: Bits36)
    requires !Indexed(CODE_LOOKUP, vpn)
    ensures var c := Lookalike(vpn);
      && c != vpn && L2Tag(c) == L2Tag(vpn) && L1Index(c) == L1Index(vpn)
      && L2Index(c) == LookupIndex(CODE_LOOKUP, vpn)
  {
    var q, r := vpn / 64, vpn % 64;
    Nest16(vpn);
    assert Lookalike(vpn) == 64 * q + r % 16;
    Remainder(Lookalike(vpn), 64, q, r % 16);
    Nest16(Lookalike(vpn));
  }

  /** Page tables that map vpn to page 5 and its lookalike to page 4. */
  ghost function Tables(vpn: Bits36): PhysMem {
    var v, c := OfPageNumber(vpn, 0), OfPageNumber(Lookalike(vpn), 0);
    seq(MEM_WORDS, _ => 0)
      [v.pgd := 0x1000][1024 + v.pud := 0x2000][2048 + v.pmd := 0x3000]
      [3072 + v.pte := 0x5000][3072 + c.pte := 0x4000]
  }

  lemma LookalikeFields(vpn: Bits36)
    ensures var v, c := OfPageNumber(vpn, 0), OfPageNumber(Lookalike(vpn), 0);
      v.pgd == c.pgd && v.pud == c.pud && v.pmd == c.pmd
    ensures Lookalike(vpn) != vpn ==> OfPageNumber(vpn, 0).pte != OfPageNumber(Lookalike(vpn), 0).pte
  {
    var q, r := vpn / 512, vpn % 512;
    Within512(vpn);
    LowBitsKept(r);
    var low := r - r % 64 + r % 16;
    assert Lookalike(vpn) == 512 * q + low;
    Divide512(q, low);
    SharedHighFields(vpn, Lookalike(vpn));
  }

  lemma Within512(x: nat)
    ensures x % 64 == x % 512 % 64 && x % 16 == x % 512 % 16
  {
    var q, r := x / 512, x % 512;
    assert x == 64 * (8 * q + r / 64) + r % 64;
    Remainder(x, 64, 8 * q + r / 64, r % 64);
    assert x == 16 * (32 * q + r / 16) + r % 16;
    Remainder(x, 16, 32 * q + r / 16, r % 16);
  }

  lemma LowBitsKept(r: nat)
    ensures 0 <= r - r % 64 + r % 16 <= r
  {
    var q := r / 64;
    assert r % 16 == r % 64 % 16 by {
      assert r == 16 * (4 * q + r % 64 / 16) + r % 64 % 16;
    }
  }

  lemma Divide512(q: nat, r: nat)
    requires r < 512
    ensures (512 * q + r) / 512 == q && (512 * q + r) % 512 == r
  {
  }

  lemma SharedHighFields(x: Bits36, y: Bits36)
    requires x / 512 == y / 512
    ensures x / 0x4_0000 == y / 0x4_0000 && x / 0x800_0000 == y / 0x800_0000
  {
    DivideThrice(x);
    DivideThrice(y);
  }

  lemma TablesMap(vpn: Bits36, offset: Bits12)
    requires Lookalike(vpn) != vpn
    ensures Walk(Tables(vpn), OfPageNumber(vpn, offset)) == Ok(PhyAddr(5, offset))
    ensures Walk(Tables(vpn), OfPageNumber(Lookalike(vpn), offset)) == Ok(PhyAddr(4, offset))
  {
    hide OfPageNumber, Lookalike;
    LookalikeFields(vpn);
    OffsetOnly(vpn, offset);
    OffsetOnly(Lookalike(vpn), offset);
    var mem, v, c := Tables(vpn), OfPageNumber(vpn, offset), OfPageNumber(Lookalike(vpn), offset);
    assert PudTable(mem, v) == Some(0x1000) == PudTable(mem, c);
    assert PmdTable(mem, v) == Some(0x2000) == PmdTable(mem, c);
    assert PteTable(mem, v) == Some(0x3000) == PteTable(mem, c);
    assert Page(mem, v) == Some(0x5000) && Page(mem, c) == Some(0x4000);
  }

  lemma OffsetOnly(vpn: Bits36, offset: Bits12)
    ensures OfPageNumber(vpn, offset) == OfPageNumber(vpn, 0).(offset := offset)
  {
  }

  /** One request for the lookalike is enough to make the code answer vpn with the wrong page. */
  lemma LookalikeBreaksCode(vpn: Bits36, access: Access)
    requires !Indexed(CODE_LOOKUP, vpn)
    ensures var mem, reqs := Tables(vpn), [Request(Tables(vpn), access, OfPageNumber(Lookalike(vpn), 0))];
      && Ask(CODE_LOOKUP, mem, Run(CODE_LOOKUP, reqs), access, OfPageNumber(vpn, 0)) == Answer(Ok(PhyAddr(4, 0)), true)
      && !Right(CODE_LOOKUP, mem, reqs, access, OfPageNumber(vpn, 0))
  {
    hide L1Index, L2Index, LookupIndex, L1Tag, L2Tag, Lookalike, Tables, Walk;
    var c := Lookalike(vpn);
    LookalikeCollides(vpn);
    TablesMap(vpn, 0);
    PageNumberOfFields(vpn, 0);
    PageNumberOfFields(c, 0);
    TagAndIndex(vpn, c);
    AfterOne(CODE_LOOKUP, Tables(vpn), access, OfPageNumber(c, 0));
  }

  lemma AfterOne(lookup: Lookup, mem: PhysMem, access: Access, vaddr: VirtAddr)
    requires Walk(mem, vaddr).Ok?
    ensures var x, page := PageNumber(vaddr), Walk(mem, vaddr).value.page;
      var h := Run(lookup, [Request(mem, access, vaddr)]);
      && h.l2[L2Index(x)] == L2Entry(true, L2Tag(x), page)
      && h.L1(access)[L1Index(x)] == L1Entry(true, L1Tag(x), page)
  {
    hide L1Index, L2Index, LookupIndex, L1Tag, L2Tag, Walk, PageNumber;
    var reqs := [Request(mem, access, vaddr)];
    assert reqs[..|reqs| - 1] == [];
    assert Run(lookup, []) == Empty();
    assert Run(lookup, reqs) == Next(lookup, mem, Empty(), access, vaddr);
  }

  /** The code translates a page correctly, whatever else is asked, iff its number is below 16 modulo 64. */
  lemma CodeRightIff(vpn: Bits36)
    ensures AlwaysRight(CODE_LOOKUP, vpn) <==> vpn % 64 < 16
  {
    IndexedIffReached(CODE_LOOKUP, vpn);
    if vpn % 64 < 16 {
      forall mem, reqs, access, offset | SameMemory(mem, reqs)
        ensures Right(CODE_LOOKUP, mem, reqs, access, OfPageNumber(vpn, offset))
      {
        PageNumberOfFields(vpn, offset);
        IndexedIsRight(CODE_LOOKUP, mem, reqs, access, OfPageNumber(vpn, offset));
      }
    } else {
      LookalikeBreaksCode(vpn, Data);
      var reqs := [Request(Tables(vpn), Data, OfPageNumber(Lookalike(vpn), 0))];
      assert SameMemory(Tables(vpn), reqs);
      assert !Right(CODE_LOOKUP, Tables(vpn), reqs, Data, OfPageNumber(vpn, 0));
    }
  }

  /** With the 6-bit lookup of the design every page is translated correctly. */
  lemma DesignAlwaysRight(vpn: Bits36)
    ensures AlwaysRight(DESIGN_LOOKUP, vpn)
  {
    forall mem, reqs, access, offset | SameMemory(mem, reqs)
      ensures Right(DESIGN_LOOKUP, mem, reqs, access, OfPageNumber(vpn, offset))
    {
      IndexedIsRight(DESIGN_LOOKUP, mem, reqs, access, OfPageNumber(vpn, offset));
    }
  }

  // Invalidation under the code's lookup.

  /** Should a request for vpn get as far as evicting, it invalidates exactly what it evicts. */
  ghost predicate EvictsExactly(lookup: Lookup, h: Hierarchy, access: Access, vpn: Bits36) {
    !HoldsL1(h.L1(access), vpn) && !LookupL2(lookup, h.l2, vpn) ==>
      var e := Evicted(h, vpn);
      InvalidationFires(h, access, vpn) <==> HoldsL2(h.l2, e) && HoldsL1(h.L1(Other(access)), e)
  }

  ghost predicate AlwaysEvictsExactly(lookup: Lookup, vpn: Bits36) {
    forall reqs, access :: EvictsExactly(lookup, Run(lookup, reqs), access, vpn)
  }

  /**
   * Page r, found in the second-level line of r % 16, has got into a first level; its own
   * second-level line has never been valid, but has its tag 0.
   */
  ghost predicate Strayed(h: Hierarchy, r: nat)
    requires 16 <= r < 64
  {
    && h.l1d[r % 16] == L1Entry(true, r / 16, 0) && h.l2[r] == EMPTY_L2
    && h.l1i == Empty().l1i && h.l2[r % 16] == L2Entry(true, 0, 0)
  }

  ghost function ZeroTables(): PhysMem {
    seq(MEM_WORDS, _ => 0)
  }

  lemma ZeroWalk(v: VirtAddr)
    ensures Walk(ZeroTables(), v) == Ok(PhyAddr(0, v.offset))
  {
    var mem := ZeroTables();
    assert PudTable(mem, v) == Some(0);
    assert PmdTable(mem, v) == Some(0);
    assert PteTable(mem, v) == Some(0);
    assert Page(mem, v) == Some(0);
  }

  ghost function Ask0(access: Access, vpn: Bits36): Request {
    Request(ZeroTables(), access, OfPageNumber(vpn, 0))
  }

  ghost function Straying(r: nat): seq<Request>
    requires 16 <= r < 64
  {
    [Ask0(Data, r % 16), Ask0(Data, r)]
  }

  lemma RunStep(lookup: Lookup, reqs: seq<Request>, access: Access, vpn: Bits36)
    ensures var h, h' := Run(lookup, reqs), Run(lookup, reqs + [Ask0(access, vpn)]);
      h' == if HoldsL1(h.L1(access), vpn) then h
            else if LookupL2(lookup, h.l2, vpn) then InsertL1(h, access, vpn, h.l2[LookupIndex(lookup, vpn)].page)
            else Refill(h, access, vpn, 0)
  {
    hide HoldsL1, LookupL2, InsertL1, Refill, Walk, PageNumber, OfPageNumber;
    var r := Ask0(access, vpn);
    assert (reqs + [r])[..|reqs|] == reqs;
    PageNumberOfFields(vpn, 0);
    ZeroWalk(r.vaddr);
  }

  /** Tags and indices of the three pages used. */
  lemma SmallPages(r: nat)
    requires 16 <= r < 64
    ensures var c := r % 16;
      && c < 16 && c != r && L1Vpn(r / 16, c) == r
      && L1Index(r) == c && L2Index(r) == r && LookupIndex(CODE_LOOKUP, r) == c && 0 < L1Tag(r) == r / 16 < 4
      && L2Tag(r) == 0 == L2Tag(c) == L1Tag(c) && L1Index(c) == L2Index(c) == LookupIndex(CODE_LOOKUP, c) == c
      && L1Index(c + 64) == L2Index(c + 64) == LookupIndex(CODE_LOOKUP, c + 64) == c
      && L1Tag(c + 64) == 4 && L2Tag(c + 64) == 1
      && Low32(r) == r && Low32(c) == c
  {
    Remainder(r % 16 + 64, 16, 4, r % 16);
  }

  lemma StrayingStrays(r: nat)
    requires 16 <= r < 64
    ensures Strayed(Run(CODE_LOOKUP, Straying(r)), r)
  {
    hide L1Index, L2Index, LookupIndex, L1Tag, L2Tag, Low32;
    SmallPages(r);
    assert Straying(r) == [Ask0(Data, r % 16)] + [Ask0(Data, r)];
    assert [Ask0(Data, r % 16)] == [] + [Ask0(Data, r % 16)];
    assert Run(CODE_LOOKUP, []) == Empty();
    hide Run;
    RunStep(CODE_LOOKUP, [], Data, r % 16);
    RunStep(CODE_LOOKUP, [Ask0(Data, r % 16)], Data, r);
  }

  /** Then evicting that invalid line invalidates the page, though the second level held nothing there. */
  lemma StrayedIsInexact(h: Hierarchy, vpn: Bits36)
    requires vpn % 64 >= 16
    requires h.l1d[vpn % 64 % 16] == L1Entry(true, vpn % 64 / 16, 0) && h.l2[vpn % 64] == EMPTY_L2
    requires !HoldsL1(h.l1i, vpn) && !LookupL2(CODE_LOOKUP, h.l2, vpn)
    ensures !EvictsExactly(CODE_LOOKUP, h, Instruction, vpn)
  {
    var r := vpn % 64;
    SmallPages(r);
    Nest16(vpn);
    assert L1Index(vpn) == r % 16 && L2Index(vpn) == r && Evicted(h, vpn) == r;
    hide L1Index, L2Index, L1Tag, L2Tag, Low32, L1Vpn, L2Vpn;
    assert InvalidationFires(h, Instruction, vpn);
  }

  lemma StrayBreaksCode(vpn: Bits36) returns (reqs: seq<Request>)
    requires vpn % 64 >= 16
    ensures !EvictsExactly(CODE_LOOKUP, Run(CODE_LOOKUP, reqs), Instruction, vpn)
  {
    var r, k := vpn % 64, vpn / 64;
    SmallPages(r);
    Nest16(vpn);
    StrayingStrays(r);
    reqs := Straying(r);
    if k == 0 {
      RunStep(CODE_LOOKUP, reqs, Instruction, r % 16 + 64);
      reqs := reqs + [Ask0(Instruction, r % 16 + 64)];
    }
    assert L1Index(vpn) == LookupIndex(CODE_LOOKUP, vpn) == r % 16 && L2Tag(vpn) == k && (k == 0 ==> vpn == r);
    hide Run, L1Index, L2Index, LookupIndex, L1Tag, L2Tag, Low32, L1Vpn, L2Vpn;
    StrayedIsInexact(Run(CODE_LOOKUP, reqs), vpn);
  }

  /**
   * Under the code's lookup, evictions made for a page number are always exact iff it is
   * below 16 modulo 64: for the others an invalid second-level line can be mistaken for
   * the page with its tag, which a first level holds on its own.
   */
  lemma EvictionExactIff(vpn: Bits36)
    ensures AlwaysEvictsExactly(CODE_LOOKUP, vpn) <==> vpn % 64 < 16
  {
    if vpn % 64 < 16 {
      IndexedIffReached(CODE_LOOKUP, vpn);
      forall reqs, access ensures EvictsExactly(CODE_LOOKUP, Run(CODE_LOOKUP, reqs), access, vpn) {
        Inclusion(CODE_LOOKUP, reqs);
        InvalidationIsExact(CODE_LOOKUP, Run(CODE_LOOKUP, reqs), access, vpn);
      }
    } else {
      var reqs := StrayBreaksCode(vpn);
      assert !EvictsExactly(CODE_LOOKUP, Run(CODE_LOOKUP, reqs), Instruction, vpn);
    }
  }
}
