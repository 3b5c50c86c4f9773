/**
 * Virtual and physical addresses and the bit packing between their fields and
 * flat integers. Shifts and masks are written as multiplications, divisions and
 * remainders by powers of two; OrIsPlus justifies reading `|` as `+`.
 */
module Address {
  import opened Machine

  datatype VirtAddr = VirtAddr(reserved: U16, pgd: Bits9, pud: Bits9, pmd: Bits9, pte: Bits9, offset: Bits12)

  datatype PhyAddr = PhyAddr(page: Bits20, offset: Bits12)

  const PAGE_SIZE := 4096
  const PD_ENTRIES := 512

  /** Or-ing a field into the zeroes left by a shift is addition. */
  lemma OrIsPlus(hi: bv64, field: bv64)
    ensures field < 0x200 ==> (hi << 9) | field == (hi << 9) + field
    ensures field < 0x1000 ==> (hi << 12) | field == (hi << 12) + field
  {
  }

  function PageNumber(v: VirtAddr): Bits36
  {
    var number := v.pgd;
    var number := number * PD_ENTRIES + v.pud;
    var number := number * PD_ENTRIES + v.pmd;
    number * PD_ENTRIES + v.pte
  }

  function ToUint64(v: VirtAddr): U64
  {
    PageNumber(v) * PAGE_SIZE + v.offset
  }

  /** The fields the page number packs, most significant first. */
  function OfPageNumber(vpn: Bits36, offset: Bits12): VirtAddr
  {
    VirtAddr(0, vpn / 0x800_0000 % 512, vpn / 0x4_0000 % 512, vpn / 512 % 512, vpn % 512, offset)
  }

  lemma PageNumberOfFields(vpn: Bits36, offset: Bits12)
    ensures PageNumber(OfPageNumber(vpn, offset)) == vpn
  {
    var q1, q2, q3 := vpn / 512, vpn / 0x4_0000, vpn / 0x800_0000;
    assert q2 == q1 / 512 && q3 == q2 / 512;
  }

  /** Only the reserved bits are lost by packing. */
  lemma FieldsOfPageNumber(v: VirtAddr)
    ensures OfPageNumber(PageNumber(v), v.offset) == v.(reserved := 0)
  {
    var q1 := v.pgd * 512 + v.pud;
    var q2 := q1 * 512 + v.pmd;
    var vpn := PageNumber(v);
    assert vpn == q2 * 512 + v.pte;
    assert vpn / 512 == q2 && vpn / 0x4_0000 == q1 && vpn / 0x800_0000 == v.pgd;
  }

  /** Fails when an argument has bits beyond its field's width. */
  method InitVirtAddr(pgd: U16, pud: U16, pmd: U16, pte: U16, offset: U16) returns (vaddr: Result<VirtAddr>)
    ensures vaddr.Ok? <==> pgd < 512 && pud < 512 && pmd < 512 && pte < 512 && offset < 4096
    ensures vaddr.Ok? ==>
      ToUint64(vaddr.value) == pgd * 0x80_0000_0000 + pud * 0x4000_0000 + pmd * 0x20_0000 + pte * 0x1000 + offset
  {
    if pgd / 512 == 0 && pud / 512 == 0 && pmd / 512 == 0 && pte / 512 == 0 && offset / 4096 == 0 {
      vaddr := Ok(VirtAddr(0, pgd, pud, pmd, pte, offset));
    } else {
      vaddr := Err(BadParameter);
    }
  }

  function OfUint64(a: U64): VirtAddr
  {
    VirtAddr(0,
             a / 0x80_0000_0000 % 0x1_0000 % 512,
             a / 0x4000_0000 % 0x1_0000 % 512,
             a / 0x20_0000 % 0x1_0000 % 512,
             a / 0x1000 % 0x1_0000 % 512,
             a % 0x1_0000 % 4096)
  }

  /** Each field is cut out of the argument on its own; together they keep its low 48 bits. */
  method InitVirtAddr64(a: U64) returns (vaddr: VirtAddr)
    ensures vaddr == OfUint64(a)
    ensures ToUint64(vaddr) == a % 0x1_0000_0000_0000
  {
    vaddr := OfUint64(a);
    PackKeepsLow48(a);
  }

  lemma PackKeepsLow48(a: U64)
    ensures ToUint64(OfUint64(a)) == a % 0x1_0000_0000_0000
  {
    FieldsAreThoseOfPageNumber(a);
    PackedPageNumber(a / 0x1000 % 0x10_0000_0000, a % 4096);
    Low48(a);
  }

  lemma PackedPageNumber(vpn: Bits36, offset: Bits12)
    ensures ToUint64(OfPageNumber(vpn, offset)) == vpn * 4096 + offset
  {
    PageNumberOfFields(vpn, offset);
  }

  lemma Low48(a: U64)
    ensures (a / 0x1000 % 0x10_0000_0000) * 4096 + a % 4096 == a % 0x1_0000_0000_0000
  {
    var high, low := a / 0x1_0000_0000_0000, a % 0x1_0000_0000_0000;
    assert a / 0x1000 == high * 0x10_0000_0000 + low / 0x1000;
    assert a % 4096 == low % 4096;
  }

  /** The casts to 16 bits before the masks take nothing from the fields. */
  lemma CastThenMask(x: nat)
    ensures x % 0x1_0000 % 512 == x % 512
    ensures x % 0x1_0000 % 4096 == x % 4096
  {
    var q, r := x / 0x1_0000, x % 0x1_0000;
    MultipleIgnored(128 * q, r);
    PageMultipleIgnored(16 * q, r);
  }

  /** Bits beyond the 36 of a page number do not reach its fields. */
  lemma HighBitsIgnored(n: nat)
    ensures var low := n % 0x10_0000_0000;
      && low / 0x800_0000 % 512 == n / 0x800_0000 % 512
      && low / 0x4_0000 % 512 == n / 0x4_0000 % 512
      && low / 512 % 512 == n / 512 % 512
      && low % 512 == n % 512
  {
    var high, low := n / 0x10_0000_0000, n % 0x10_0000_0000;
    var low1 := low / 512;
    var low2 := low1 / 512;
    var low3 := low2 / 512;
    DivideMultiple(0x800_0000 * high, low);
    DivideMultiple(0x4_0000 * high, low1);
    DivideMultiple(512 * high, low2);
    MultipleIgnored(high, low3);
    MultipleIgnored(512 * high, low2);
    MultipleIgnored(0x4_0000 * high, low1);
    MultipleIgnored(0x800_0000 * high, low);
    DivideThrice(low);
    DivideThrice(n);
  }

  lemma DivideThrice(n: nat)
    ensures n / 512 / 512 == n / 0x4_0000
    ensures n / 512 / 512 / 512 == n / 0x800_0000
  {
  }

  lemma DivideMultiple(q: nat, r: nat)
    ensures (512 * q + r) / 512 == q + r / 512
  {
  }

  lemma MultipleIgnored(q: nat, r: nat)
    ensures (512 * q + r) % 512 == r % 512
  {
    assert 512 * q + r == 512 * (q + r / 512) + r % 512;
  }

  lemma PageMultipleIgnored(q: nat, r: nat)
    ensures (4096 * q + r) % 4096 == r % 4096
  {
    assert 4096 * q + r == 4096 * (q + r / 4096) + r % 4096;
  }

  lemma FieldsAreThoseOfPageNumber(a: U64)
    ensures OfUint64(a) == OfPageNumber(a / 0x1000 % 0x10_0000_0000, a % 4096)
  {
    var n := a / 0x1000;
    assert a / 0x20_0000 == n / 512 && a / 0x4000_0000 == n / 0x4_0000 && a / 0x80_0000_0000 == n / 0x800_0000;
    HighBitsIgnored(n);
    CastThenMask(a);
    CastThenMask(n);
    CastThenMask(n / 512);
    CastThenMask(n / 0x4_0000);
    CastThenMask(n / 0x800_0000);
  }

  /** Unpacking a packed address loses the reserved bits and nothing else. */
  lemma UnpackPacked(v: VirtAddr)
    ensures OfUint64(ToUint64(v)) == v.(reserved := 0)
    ensures OfUint64(ToUint64(v)) == v <==> v.reserved == 0
  {
    FieldsOfPageNumber(v);
    UnpackPageNumber(PageNumber(v), v.offset);
  }

  lemma UnpackPageNumber(vpn: Bits36, offset: Bits12)
    ensures OfUint64(vpn * 4096 + offset) == OfPageNumber(vpn, offset)
  {
    SplitPacked(vpn, offset);
    FieldsAreThoseOfPageNumber(vpn * 4096 + offset);
  }

  lemma SplitPacked(vpn: Bits36, offset: Bits12)
    ensures (vpn * 4096 + offset) / 0x1000 % 0x10_0000_0000 == vpn
    ensures (vpn * 4096 + offset) % 4096 == offset
  {
  }

  method InitPhyAddr(pageBegin: Word, offset: Word) returns (paddr: Result<PhyAddr>)
    ensures paddr.Ok? <==> offset < 4096 && pageBegin % PAGE_SIZE == 0
    ensures paddr.Ok? ==> PhyToWord(paddr.value) == pageBegin + offset
  {
    if offset / 4096 != 0 || pageBegin % PAGE_SIZE != 0 {
      return Err(BadParameter);
    }
    paddr := Ok(PhyAddr(pageBegin / PAGE_SIZE, offset % 0x1000));
  }

  function PhyToWord(p: PhyAddr): Word
  {
    p.page * PAGE_SIZE + p.offset
  }
}
