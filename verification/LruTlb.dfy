/**
 * The fully-associative TLB. Its lines are an array; the list holds the line
 * numbers from least to most recently used. Search is the functional form the
 * methods are proved against.
 */
module LruTlb {
  import opened Machine
  import opened Address
  import opened PageTables
  import opened NodeList

  const TLB_LINES := 128

  datatype TlbEntry = TlbEntry(v: bool, tag: Bits36, page: Bits20)

  datatype Tlb = Tlb(lines: seq<TlbEntry>, order: seq<Word>)

  const EMPTY_ENTRY := TlbEntry(false, 0, 0)

  /** What the code needs to stay within the array and the list. */
  ghost predicate Usable(t: Tlb) {
    t.order != [] && forall p :: 0 <= p < |t.order| ==> t.order[p] < |t.lines|
  }

  ghost predicate Holds(t: Tlb, p: nat, vpn: Bits36)
    requires Usable(t) && p < |t.order|
  {
    t.lines[t.order[p]].v && t.lines[t.order[p]].tag == vpn
  }

  /** The last position before n whose line holds vpn. */
  ghost function LastHolding(t: Tlb, vpn: Bits36, n: nat): (r: Option<nat>)
    requires Usable(t) && n <= |t.order|
    ensures r.Some? ==> r.value < n && Holds(t, r.value, vpn)
    ensures forall p :: (if r.Some? then r.value else -1) < p < n ==> !Holds(t, p, vpn)
  {
    if n == 0 then None
    else if Holds(t, n - 1, vpn) then Some(n - 1)
    else LastHolding(t, vpn, n - 1)
  }

  ghost function Find(t: Tlb, vpn: Bits36): Option<nat>
    requires Usable(t)
  {
    LastHolding(t, vpn, |t.order|)
  }

  ghost function Touch(t: Tlb, p: nat): Tlb
    requires p < |t.order|
  {
    t.(order := MoveToEnd(t.order, p))
  }

  ghost function Fill(t: Tlb, vpn: Bits36, page: Bits20): Tlb
    requires Usable(t)
  {
    Touch(t.(lines := t.lines[t.order[0] := TlbEntry(true, vpn, page)]), 0)
  }

  ghost function Ask(mem: PhysMem, t: Tlb, vaddr: VirtAddr): Answer
    requires Usable(t)
  {
    match Find(t, PageNumber(vaddr))
    case Some(p) => Answer(Ok(PhyAddr(t.lines[t.order[p]].page, vaddr.offset)), true)
    case None => Answer(Walk(mem, vaddr), false)
  }

  /** A hit moves its line to the back; a translated miss refills the front line; a failed walk changes nothing. */
  ghost function Next(mem: PhysMem, t: Tlb, vaddr: VirtAddr): Tlb
    requires Usable(t)
  {
    match Find(t, PageNumber(vaddr))
    case Some(p) => Touch(t, p)
    case None =>
      match Walk(mem, vaddr)
      case Ok(paddr) => Fill(t, PageNumber(vaddr), paddr.page)
      case Err(_) => t
  }

  ghost function View(tlb: array<TlbEntry>, policy: List): Tlb
    reads tlb, policy, policy.nodes
  {
    Tlb(tlb[..], policy.Values())
  }

  method TlbFlush(tlb: array<TlbEntry>)
    modifies tlb
    ensures tlb[..] == seq(tlb.Length, _ => EMPTY_ENTRY)
  {
    for i := 0 to tlb.Length
      invariant forall k :: 0 <= k < i ==> tlb[k] == EMPTY_ENTRY
    {
      tlb[i] := EMPTY_ENTRY;
    }
  }

  method TlbEntryInit(vaddr: VirtAddr, paddr: PhyAddr) returns (entry: TlbEntry)
    ensures entry.v && OfPageNumber(entry.tag, vaddr.offset) == vaddr.(reserved := 0) && entry.page == paddr.page
    ensures entry.tag == PageNumber(vaddr)
  {
    entry := TlbEntry(true, PageNumber(vaddr), paddr.page);
    FieldsOfPageNumber(vaddr);
  }

  method TlbInsert(lineIndex: Word, entry: TlbEntry, tlb: array<TlbEntry>) returns (err: Option<Error>)
    modifies tlb
    ensures err.None? <==> lineIndex < tlb.Length
    ensures tlb[..] == if lineIndex < tlb.Length then old(tlb[..])[lineIndex := entry] else old(tlb[..])
  {
    if lineIndex >= tlb.Length {
      return Some(BadParameter);
    }
    tlb[lineIndex] := entry;
    err := None;
  }

  /** The policy of a hit: the line found becomes the newest. */
  method MoveToNewest(ghost was: Tlb, tlb: array<TlbEntry>, policy: List, node: Node, ghost p: nat)
    requires policy.Valid() && was == View(tlb, policy) && p < |policy.nodes| && policy.nodes[p] == node
    modifies policy, policy.nodes
    ensures policy.Valid() && forall n :: n in policy.nodes && n !in old(policy.nodes) ==> fresh(n)
    ensures View(tlb, policy) == Touch(was, p)
  {
    policy.MoveBack(node, p);
  }

  method TlbHit(vaddr: VirtAddr, tlb: array<TlbEntry>, policy: List) returns (hit: bool, paddr: Option<PhyAddr>)
    requires policy.Valid() && Usable(View(tlb, policy))
    modifies policy, policy.nodes
    ensures policy.Valid() && forall n :: n in policy.nodes && n !in old(policy.nodes) ==> fresh(n)
    ensures hit == old(Find(View(tlb, policy), PageNumber(vaddr)).Some?)
    ensures hit ==> var was := old(View(tlb, policy)); var p := Find(was, PageNumber(vaddr)).value;
      && View(tlb, policy) == Touch(was, p)
      && paddr == Some(PhyAddr(was.lines[was.order[p]].page, vaddr.offset))
    ensures !hit ==> View(tlb, policy) == old(View(tlb, policy)) && policy.nodes == old(policy.nodes) && paddr == None
  {
    var virtPageNum := PageNumber(vaddr);
    ghost var was := View(tlb, policy);
    var node := policy.back;
    ghost var p := |policy.nodes|;
    while node != null
      invariant 0 <= p <= |policy.nodes|
      invariant if p == 0 then node == null else node == policy.nodes[p - 1]
      invariant Find(was, virtPageNum) == LastHolding(was, virtPageNum, p)
      decreases p
    {
      assert node.value == was.order[p - 1];
      var line := tlb[node.value];
      if virtPageNum == line.tag && line.v {
        assert Find(was, virtPageNum) == Some(p - 1);
        MoveToNewest(was, tlb, policy, node, p - 1);
        return true, Some(PhyAddr(line.page, vaddr.offset));
      }
      node := node.previous;
      p := p - 1;
    }
    hit, paddr := false, None;
  }

  /** The tail of a miss: overwrite the line at the front of the list and make it the newest. */
  method Refill(vaddr: VirtAddr, paddr: PhyAddr, tlb: array<TlbEntry>, policy: List)
    requires policy.Valid() && Usable(View(tlb, policy))
    modifies tlb, policy, policy.nodes
    ensures policy.Valid() && forall n :: n in policy.nodes && n !in old(policy.nodes) ==> fresh(n)
    ensures View(tlb, policy) == old(Fill(View(tlb, policy), PageNumber(vaddr), paddr.page))
  {
    ghost var was := View(tlb, policy);
    var entry := TlbEntryInit(vaddr, paddr);
    var front := policy.front;
    assert front.value == was.order[0];
    var err := TlbInsert(front.value, entry, tlb);
    assert View(tlb, policy) == was.(lines := was.lines[was.order[0] := entry]);
    policy.MoveBack(front, 0);
  }

  method TlbSearch(mem: PhysMem, vaddr: VirtAddr, tlb: array<TlbEntry>, policy: List) returns (answer: Answer)
    requires policy.Valid() && Usable(View(tlb, policy))
    modifies tlb, policy, policy.nodes
    ensures policy.Valid() && forall n :: n in policy.nodes && n !in old(policy.nodes) ==> fresh(n)
    ensures answer == Ask(mem, old(View(tlb, policy)), vaddr)
    ensures View(tlb, policy) == Next(mem, old(View(tlb, policy)), vaddr)
  {
    var hit, paddr := TlbHit(vaddr, tlb, policy);
    if hit {
      return Answer(Ok(paddr.value), true);
    }
    var walked := PageWalk(mem, vaddr);
    if walked.Ok? {
      Refill(vaddr, walked.value, tlb, policy);
    }
    answer := Answer(walked, false);
  }
}
