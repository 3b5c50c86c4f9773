/**
 * The four-level page walk. Memory is the 2^30 page-table words of a 32-bit
 * physical address space; the root table starts at address 0.
 */
module PageTables {
  import opened Machine
  import opened Address

  /** What a TLB reports: a translation, and whether it needed the walk. */
  datatype Answer = Answer(result: Result<PhyAddr>, hit: bool)

  const MEM_WORDS := 0x4000_0000

  type PhysMem = m: seq<Word> | |m| == MEM_WORDS ghost witness seq(MEM_WORDS, _ => 0)

  predicate Aligned(a: Word) {
    a % PAGE_SIZE == 0
  }

  /** Index of the table word that holds entry `index` of the table at `pageStart`. */
  function EntryIndex(pageStart: Word, index: Bits9): (i: nat)
    requires Aligned(pageStart)
    ensures i < MEM_WORDS
  {
    pageStart / 4 + index
  }

  function ReadPageEntry(mem: PhysMem, pageStart: Word, index: Bits9): Word
    requires Aligned(pageStart)
  {
    mem[EntryIndex(pageStart, index)]
  }

  /** Every word read on the way must be a page address; the last one is the page itself. */
  method PageWalk(mem: PhysMem, vaddr: VirtAddr) returns (r: Result<PhyAddr>)
    ensures r == Walk(mem, vaddr)
  {
    var pud := ReadPageEntry(mem, 0, vaddr.pgd);
    if !Aligned(pud) { return Err(BadParameter); }
    var pmd := ReadPageEntry(mem, pud, vaddr.pud);
    if !Aligned(pmd) { return Err(BadParameter); }
    var pte := ReadPageEntry(mem, pmd, vaddr.pmd);
    if !Aligned(pte) { return Err(BadParameter); }
    var physical := ReadPageEntry(mem, pte, vaddr.pte);
    if !Aligned(physical) { return Err(BadParameter); }
    assert Page(mem, vaddr) == Some(physical);
    r := InitPhyAddr(physical, vaddr.offset);
    assert physical / PAGE_SIZE * PAGE_SIZE == physical;
  }

  /** The page an entry points at, if the table is there and the entry is aligned. */
  function Entry(mem: PhysMem, table: Option<Word>, index: Bits9): (r: Option<Word>)
    ensures r.Some? ==> Aligned(r.value)
  {
    if table.Some? && Aligned(table.value) && Aligned(ReadPageEntry(mem, table.value, index))
    then Some(ReadPageEntry(mem, table.value, index))
    else None
  }

  function PudTable(mem: PhysMem, v: VirtAddr): Option<Word> {
    Entry(mem, Some(0), v.pgd)
  }

  function PmdTable(mem: PhysMem, v: VirtAddr): Option<Word> {
    Entry(mem, PudTable(mem, v), v.pud)
  }

  function PteTable(mem: PhysMem, v: VirtAddr): Option<Word> {
    Entry(mem, PmdTable(mem, v), v.pmd)
  }

  function Page(mem: PhysMem, v: VirtAddr): (r: Option<Word>)
    ensures r.Some? ==> Aligned(r.value)
  {
    Entry(mem, PteTable(mem, v), v.pte)
  }

  function Walk(mem: PhysMem, v: VirtAddr): Result<PhyAddr> {
    match Page(mem, v)
    case Some(page) => Ok(PhyAddr(page / PAGE_SIZE, v.offset))
    case None => Err(BadParameter)
  }

  /** The four table words that map v, each pointing at the next table and the last at the page. */
  ghost predicate Maps(mem: PhysMem, v: VirtAddr, pud: Word, pmd: Word, pte: Word, page: Word) {
    && mem[v.pgd] == pud && pud % 4096 == 0
    && mem[pud / 4 + v.pud] == pmd && pmd % 4096 == 0
    && mem[pmd / 4 + v.pmd] == pte && pte % 4096 == 0
    && mem[pte / 4 + v.pte] == page && page % 4096 == 0
  }

  /** A walk succeeds iff the tables map the address, and gives the page they map it to. */
  lemma WalkIffMapped(mem: PhysMem, v: VirtAddr)
    ensures Walk(mem, v).Ok? <==>
      exists pud: Word, pmd: Word, pte: Word, page: Word :: Maps(mem, v, pud, pmd, pte, page)
    ensures forall pud: Word, pmd: Word, pte: Word, page: Word :: Maps(mem, v, pud, pmd, pte, page) ==>
      Walk(mem, v) == Ok(PhyAddr(page / 4096, v.offset))
  {
    if Walk(mem, v).Ok? {
      assert Maps(mem, v, PudTable(mem, v).value, PmdTable(mem, v).value, PteTable(mem, v).value, Page(mem, v).value);
    }
  }

  /** The page number a virtual page number maps to. */
  function Translate(mem: PhysMem, vpn: Bits36): Option<Bits20> {
    match Page(mem, OfPageNumber(vpn, 0))
    case Some(page) => Some(page / PAGE_SIZE)
    case None => None
  }

  /** The walk depends on the page number alone and carries the offset over. */
  lemma WalkByPageNumber(mem: PhysMem, v: VirtAddr)
    ensures Walk(mem, v) ==
      match Translate(mem, PageNumber(v))
      case Some(page) => Ok(PhyAddr(page, v.offset))
      case None => Err(BadParameter)
  {
    var u := OfPageNumber(PageNumber(v), 0);
    FieldsOfPageNumber(v);
    assert u == v.(reserved := 0, offset := 0);
    assert Page(mem, u) == Page(mem, v);
  }

  /** The table words a walk of v looks at: at most four. */
  function TableWords(mem: PhysMem, v: VirtAddr): set<nat>
  {
    {EntryIndex(0, v.pgd)}
    + (if PudTable(mem, v).Some? then {EntryIndex(PudTable(mem, v).value, v.pud)} else {})
    + (if PmdTable(mem, v).Some? then {EntryIndex(PmdTable(mem, v).value, v.pmd)} else {})
    + (if PteTable(mem, v).Some? then {EntryIndex(PteTable(mem, v).value, v.pte)} else {})
  }

  /** Memory that agrees on those words gives the same walk, and the same words again. */
  lemma WalkFrame(mem: PhysMem, mem': PhysMem, v: VirtAddr)
    requires forall i :: i in TableWords(mem, v) ==> mem'[i] == mem[i]
    ensures Page(mem', v) == Page(mem, v)
    ensures TableWords(mem', v) == TableWords(mem, v)
  {
    assert EntryIndex(0, v.pgd) in TableWords(mem, v);
    assert PudTable(mem', v) == PudTable(mem, v);
    assert PudTable(mem, v).Some? ==> EntryIndex(PudTable(mem, v).value, v.pud) in TableWords(mem, v);
    assert PmdTable(mem', v) == PmdTable(mem, v);
    assert PmdTable(mem, v).Some? ==> EntryIndex(PmdTable(mem, v).value, v.pmd) in TableWords(mem, v);
    assert PteTable(mem', v) == PteTable(mem, v);
    assert PteTable(mem, v).Some? ==> EntryIndex(PteTable(mem, v).value, v.pte) in TableWords(mem, v);
  }
}
