/**
 * Whole runs of the two-level TLB from the all-invalid state, for either lookup.
 * A page number is Indexed for a lookup when the lookup looks at the line insertion
 * uses: always with the design's 64 lines, iff vpn % 64 < 16 with the code's 16.
 * Everything is proved for indexed page numbers after any run whatsoever, other
 * page numbers included.
 */
module TlbHierarchyRuns {
  import opened Machine
  import opened Address
  import opened PageTables
  import opened TlbHierarchy

  /** Memory may differ from one request to the next. */
  datatype Request = Request(mem: PhysMem, access: Access, vaddr: VirtAddr)

  datatype Use = Use(access: Access, vpn: Bits36)

  predicate Indexed(lookup: Lookup, vpn: Bits36) {
    LookupIndex(lookup, vpn) == L2Index(vpn)
  }

  ghost function Empty(): Hierarchy {
    Hierarchy(seq(16, _ => EMPTY_L1), seq(16, _ => EMPTY_L1), seq(64, _ => EMPTY_L2))
  }

  ghost function Run(lookup: Lookup, reqs: seq<Request>): Hierarchy {
    if reqs == [] then Empty()
    else
      var r := reqs[|reqs| - 1];
      Next(lookup, r.mem, Run(lookup, reqs[..|reqs| - 1]), r.access, r.vaddr)
  }

  /** The requests answered with a translation, in order. */
  ghost function Served(lookup: Lookup, reqs: seq<Request>): seq<Use> {
    if reqs == [] then []
    else
      var before, r := reqs[..|reqs| - 1], reqs[|reqs| - 1];
      var served := Served(lookup, before);
      if Ask(lookup, r.mem, Run(lookup, before), r.access, r.vaddr).result.Ok?
      then served + [Use(r.access, PageNumber(r.vaddr))] else served
  }

  /** What a first-level table holds, the second level holds too, with the same page. */
  ghost predicate Included(lookup: Lookup, h: Hierarchy, access: Access, x: Bits36) {
    Indexed(lookup, x) && HoldsL1(h.L1(access), x) ==>
      HoldsL2(h.l2, x) && h.l2[L2Index(x)].page == h.L1(access)[L1Index(x)].page
  }

  ghost predicate Inclusive(lookup: Lookup, h: Hierarchy) {
    forall access, x: Bits36 :: Included(lookup, h, access, x)
  }

  /**
   * Truncation and the missing valid test do no harm: the invalidation fires
   * exactly when the other first level holds the full page number being evicted,
   * and then the second level really held it.
   */
  lemma InvalidationIsExact(lookup: Lookup, h: Hierarchy, access: Access, vpn: Bits36)
    requires Inclusive(lookup, h) && Indexed(lookup, vpn)
    ensures InvalidationFires(h, access, vpn) <==> HoldsL1(h.L1(Other(access)), Evicted(h, vpn))
    ensures InvalidationFires(h, access, vpn) ==> HoldsL2(h.l2, Evicted(h, vpn))
  {
    hide L1Index, L2Index, LookupIndex, L1Tag, L2Tag, L1Vpn, L2Vpn, Low32;
    var i, e := L1Index(vpn), Evicted(h, vpn);
    var line := h.L1(Other(access))[i];
    var z := L1Vpn(line.tag, i);
    SplitL2(h.l2[L2Index(vpn)].tag, L2Index(vpn));
    SplitL1(line.tag, i);
    IndicesNest(e, vpn, lookup);
    if InvalidationFires(h, access, vpn) {
      IndicesNest(z, e, lookup);
      IndicesNest(z, vpn, lookup);
      assert Included(lookup, h, Other(access), z);
      TagAndIndex(z, e);
    }
    if HoldsL1(h.L1(Other(access)), e) {
      TagAndIndex(e, z);
    }
  }

  /** What each first-level table holds after a refill. */
  lemma RefillHolds(lookup: Lookup, h: Hierarchy, access: Access, vpn: Bits36, page: Bits20, x: Bits36)
    requires Inclusive(lookup, h) && Indexed(lookup, x)
    ensures HoldsL1(Refill(h, access, vpn, page).L1(access), x) <==>
      x == vpn || (L1Index(x) != L1Index(vpn) && HoldsL1(h.L1(access), x))
    ensures HoldsL1(Refill(h, access, vpn, page).L1(Other(access)), x) <==>
      L2Index(x) != L2Index(vpn) && HoldsL1(h.L1(Other(access)), x)
  {
    hide L1Index, L2Index, LookupIndex, L1Tag, L2Tag, L1Vpn, L2Vpn, Low32;
    TagAndIndex(x, vpn);
    var other := h.L1(Other(access));
    assert Included(lookup, h, Other(access), x);
    var e := Evicted(h, vpn);
    SplitL2(h.l2[L2Index(vpn)].tag, L2Index(vpn));
    IndicesNest(x, vpn, lookup);
    IndicesNest(x, e, lookup);
    TagAndIndex(x, e);
  }

  lemma PutIncluded(lookup: Lookup, h: Hierarchy, access: Access, vpn: Bits36, page: Bits20,
                    a: Access, x: Bits36)
    requires Included(lookup, h, a, x)
    requires Indexed(lookup, vpn) ==> HoldsL2(h.l2, vpn) && h.l2[L2Index(vpn)].page == page
    ensures Included(lookup, InsertL1(h, access, vpn, page), a, x)
  {
    hide L1Index, L2Index, LookupIndex, L1Tag, L2Tag;
    TagAndIndex(x, vpn);
  }

  lemma RefillIncluded(lookup: Lookup, h: Hierarchy, access: Access, vpn: Bits36, page: Bits20,
                       a: Access, x: Bits36)
    requires Inclusive(lookup, h)
    ensures Included(lookup, Refill(h, access, vpn, page), a, x)
  {
    hide L1Index, L2Index, LookupIndex, L1Tag, L2Tag, L1Vpn, L2Vpn, Low32, InvalidationFires;
    if Indexed(lookup, x) {
      RefillHolds(lookup, h, access, vpn, page, x);
      assert Included(lookup, h, a, x);
      IndicesNest(x, vpn, lookup);
      TagAndIndex(x, vpn);
    }
  }

  /** Inclusion is kept by every request, for either lookup. */
  lemma InclusionStep(lookup: Lookup, h: Hierarchy, r: Request)
    requires Inclusive(lookup, h)
    ensures Inclusive(lookup, Next(lookup, r.mem, h, r.access, r.vaddr))
  {
    var vpn := PageNumber(r.vaddr);
    var h' := Next(lookup, r.mem, h, r.access, r.vaddr);
    forall a, x: Bits36 ensures Included(lookup, h', a, x) {
      assert Included(lookup, h, a, x);
      if HoldsL1(h.L1(r.access), vpn) {
      } else if LookupL2(lookup, h.l2, vpn) {
        PutIncluded(lookup, h, r.access, vpn, h.l2[LookupIndex(lookup, vpn)].page, a, x);
      } else if Walk(r.mem, r.vaddr).Ok? {
        RefillIncluded(lookup, h, r.access, vpn, Walk(r.mem, r.vaddr).value.page, a, x);
      }
    }
  }

  lemma {:induction false} Inclusion(lookup: Lookup, reqs: seq<Request>)
    ensures Inclusive(lookup, Run(lookup, reqs))
  {
    if reqs != [] {
      Inclusion(lookup, reqs[..|reqs| - 1]);
      InclusionStep(lookup, Run(lookup, reqs[..|reqs| - 1]), reqs[|reqs| - 1]);
    }
  }

  // The reference: a single direct-mapped TLB of 64 lines.

  ghost function DirectAsk(mem: PhysMem, t: L2Table, vaddr: VirtAddr): Answer {
    var vpn := PageNumber(vaddr);
    if HoldsL2(t, vpn) then Answer(Ok(PhyAddr(t[L2Index(vpn)].page, vaddr.offset)), true)
    else Answer(Walk(mem, vaddr), false)
  }

  ghost function DirectNext(mem: PhysMem, t: L2Table, vaddr: VirtAddr): L2Table {
    var vpn := PageNumber(vaddr);
    if HoldsL2(t, vpn) then t
    else
      match Walk(mem, vaddr)
      case Ok(paddr) => t[L2Index(vpn) := L2Entry(true, L2Tag(vpn), paddr.page)]
      case Err(_) => t
  }

  ghost function DirectRun(reqs: seq<Request>): L2Table {
    if reqs == [] then Empty().l2
    else DirectNext(reqs[|reqs| - 1].mem, DirectRun(reqs[..|reqs| - 1]), reqs[|reqs| - 1].vaddr)
  }

  /** Second-level lines the lookup can reach by their own index. */
  predicate Reached(lookup: Lookup, i: nat) {
    i < lookup
  }

  ghost predicate AgreeWhereReached(lookup: Lookup, s: L2Table, t: L2Table) {
    forall i :: 0 <= i < L2_LINES && Reached(lookup, i) ==> s[i] == t[i]
  }

  lemma IndexedIffReached(lookup: Lookup, vpn: Bits36)
    ensures Indexed(lookup, vpn) <==> Reached(lookup, L2Index(vpn))
  {
    Nest16(vpn);
  }

  /** One request for an indexed page number is answered as the direct-mapped TLB answers it. */
  lemma AnswersAsDirect(lookup: Lookup, h: Hierarchy, t: L2Table, mem: PhysMem, access: Access, vaddr: VirtAddr)
    requires Inclusive(lookup, h) && AgreeWhereReached(lookup, h.l2, t) && Indexed(lookup, PageNumber(vaddr))
    ensures Ask(lookup, mem, h, access, vaddr) == DirectAsk(mem, t, vaddr)
  {
    hide L1Index, L2Index, LookupIndex, L1Tag, L2Tag;
    IndexedIffReached(lookup, PageNumber(vaddr));
    assert Included(lookup, h, access, PageNumber(vaddr));
  }

  lemma DirectStep(lookup: Lookup, h: Hierarchy, t: L2Table, r: Request)
    requires Inclusive(lookup, h) && AgreeWhereReached(lookup, h.l2, t)
    ensures AgreeWhereReached(lookup, Next(lookup, r.mem, h, r.access, r.vaddr).l2, DirectNext(r.mem, t, r.vaddr))
  {
    hide L1Index, L2Index, LookupIndex, L1Tag, L2Tag;
    IndexedIffReached(lookup, PageNumber(r.vaddr));
    if Indexed(lookup, PageNumber(r.vaddr)) {
      AnswersAsDirect(lookup, h, t, r.mem, r.access, r.vaddr);
    }
  }

  /**
   * Refinement: after any run, an indexed page number gets the same hit-or-miss
   * and the same translation as from one 64-line direct-mapped TLB.
   */
  lemma {:induction false} RefinesDirectMapped(lookup: Lookup, reqs: seq<Request>,
                                               mem: PhysMem, access: Access, vaddr: VirtAddr)
    ensures AgreeWhereReached(lookup, Run(lookup, reqs).l2, DirectRun(reqs))
    ensures Indexed(lookup, PageNumber(vaddr)) ==>
      Ask(lookup, mem, Run(lookup, reqs), access, vaddr) == DirectAsk(mem, DirectRun(reqs), vaddr)
  {
    if reqs != [] {
      var before, r := reqs[..|reqs| - 1], reqs[|reqs| - 1];
      RefinesDirectMapped(lookup, before, mem, access, vaddr);
      Inclusion(lookup, before);
      DirectStep(lookup, Run(lookup, before), DirectRun(before), r);
    }
    Inclusion(lookup, reqs);
    if Indexed(lookup, PageNumber(vaddr)) {
      AnswersAsDirect(lookup, Run(lookup, reqs), DirectRun(reqs), mem, access, vaddr);
    }
  }

  /** The last served page number with second-level index i. */
  ghost function LastAt(trace: seq<Use>, i: nat): Option<Bits36> {
    if trace == [] then None
    else if L2Index(trace[|trace| - 1].vpn) == i then Some(trace[|trace| - 1].vpn)
    else LastAt(trace[..|trace| - 1], i)
  }

  lemma LastAtStep(trace: seq<Use>, u: Use, i: nat)
    ensures LastAt(trace + [u], i) == if L2Index(u.vpn) == i then Some(u.vpn) else LastAt(trace, i)
  {
    assert (trace + [u])[..|trace|] == trace;
  }

  /** A reachable second-level line holds x iff x was the last page number served with that index. */
  lemma {:induction false} SecondLevelHistory(lookup: Lookup, reqs: seq<Request>, x: Bits36)
    requires Indexed(lookup, x)
    ensures HoldsL2(Run(lookup, reqs).l2, x) <==> LastAt(Served(lookup, reqs), L2Index(x)) == Some(x)
  {
    if reqs != [] {
      var before, r := reqs[..|reqs| - 1], reqs[|reqs| - 1];
      SecondLevelHistory(lookup, before, x);
      Inclusion(lookup, before);
      SecondLevelStep(lookup, Run(lookup, before), r, Served(lookup, before), x);
    }
  }

  lemma SecondLevelStep(lookup: Lookup, h: Hierarchy, r: Request, trace: seq<Use>, x: Bits36)
    requires Inclusive(lookup, h) && Indexed(lookup, x)
    requires HoldsL2(h.l2, x) <==> LastAt(trace, L2Index(x)) == Some(x)
    ensures var trace' := if Ask(lookup, r.mem, h, r.access, r.vaddr).result.Ok?
                          then trace + [Use(r.access, PageNumber(r.vaddr))] else trace;
      HoldsL2(Next(lookup, r.mem, h, r.access, r.vaddr).l2, x) <==> LastAt(trace', L2Index(x)) == Some(x)
  {
    hide L1Index, L2Index, LookupIndex, L1Tag, L2Tag, LastAt;
    var vpn := PageNumber(r.vaddr);
    LastAtStep(trace, Use(r.access, vpn), L2Index(x));
    TagAndIndex(x, vpn);
    IndicesNest(x, vpn, lookup);
    assert Included(lookup, h, r.access, vpn);
  }

  /** A request for an indexed page number hits iff it was the last one served with its index. */
  lemma HitIffLast(lookup: Lookup, reqs: seq<Request>, mem: PhysMem, access: Access, vaddr: VirtAddr)
    requires Indexed(lookup, PageNumber(vaddr))
    ensures Ask(lookup, mem, Run(lookup, reqs), access, vaddr).hit <==>
      LastAt(Served(lookup, reqs), L2Index(PageNumber(vaddr))) == Some(PageNumber(vaddr))
  {
    hide L1Index, L2Index, LookupIndex, L1Tag, L2Tag, LastAt;
    Inclusion(lookup, reqs);
    SecondLevelHistory(lookup, reqs, PageNumber(vaddr));
    assert Included(lookup, Run(lookup, reqs), access, PageNumber(vaddr));
  }

  /** Use u leaves x where it is in the first-level table for `access`. */
  ghost predicate Spares(u: Use, access: Access, x: Bits36) {
    && (u.access == access ==> L1Index(u.vpn) != L1Index(x))
    && (L2Index(u.vpn) == L2Index(x) ==> u.vpn == x)
  }

  /**
   * x was used through `access`, no later use through it has x's first-level index,
   * and no later use at all has x's second-level index unless it is x itself.
   */
  ghost predicate Kept(trace: seq<Use>, access: Access, x: Bits36) {
    exists k :: 0 <= k < |trace| && KeptSince(trace, k, access, x)
  }

  ghost predicate KeptSince(trace: seq<Use>, k: nat, access: Access, x: Bits36)
    requires k < |trace|
  {
    trace[k] == Use(access, x) && forall j :: k < j < |trace| ==> Spares(trace[j], access, x)
  }

  lemma KeptStep(trace: seq<Use>, u: Use, access: Access, x: Bits36)
    ensures Kept(trace + [u], access, x) <==>
      u == Use(access, x) || (Kept(trace, access, x) && Spares(u, access, x))
  {
    hide Spares;
    var t := trace + [u];
    if u == Use(access, x) {
      assert KeptSince(t, |trace|, access, x);
    }
    if Kept(trace, access, x) && Spares(u, access, x) {
      var k :| 0 <= k < |trace| && KeptSince(trace, k, access, x);
      assert KeptSince(t, k, access, x);
    }
    if Kept(t, access, x) && u != Use(access, x) {
      var k :| 0 <= k < |t| && KeptSince(t, k, access, x);
      assert Spares(t[|trace|], access, x);
      assert forall j :: k < j < |trace| ==> t[j] == trace[j];
      assert KeptSince(trace, k, access, x);
    }
  }

  /** What one served request does to a page number in either first-level table. */
  lemma FirstLevelStep(lookup: Lookup, h: Hierarchy, r: Request, access: Access, x: Bits36)
    requires Inclusive(lookup, h) && Indexed(lookup, x)
    requires Ask(lookup, r.mem, h, r.access, r.vaddr).result.Ok?
    ensures var u := Use(r.access, PageNumber(r.vaddr));
      HoldsL1(Next(lookup, r.mem, h, r.access, r.vaddr).L1(access), x) <==>
        u == Use(access, x) || (HoldsL1(h.L1(access), x) && Spares(u, access, x))
  {
    hide L1Index, L2Index, LookupIndex, L1Tag, L2Tag, InvalidationFires;
    var vpn := PageNumber(r.vaddr);
    TagAndIndex(x, vpn);
    IndicesNest(x, vpn, lookup);
    assert Included(lookup, h, r.access, vpn) && Included(lookup, h, access, x);
    if !HoldsL1(h.L1(r.access), vpn) && !LookupL2(lookup, h.l2, vpn) {
      hide Refill;
      RefillHolds(lookup, h, r.access, vpn, Walk(r.mem, r.vaddr).value.page, x);
    }
  }

  /**
   * Exact first-level history: a first-level table holds an indexed page number
   * iff the trace says so.
   */
  lemma {:induction false} FirstLevelHistory(lookup: Lookup, reqs: seq<Request>, access: Access, x: Bits36)
    requires Indexed(lookup, x)
    ensures HoldsL1(Run(lookup, reqs).L1(access), x) <==> Kept(Served(lookup, reqs), access, x)
  {
    hide HoldsL1, Kept, Indexed, Inclusive;
    if reqs == [] {
      NothingKept(access, x);
    } else {
      var before, r := reqs[..|reqs| - 1], reqs[|reqs| - 1];
      FirstLevelHistory(lookup, before, access, x);
      Inclusion(lookup, before);
      if Ask(lookup, r.mem, Run(lookup, before), r.access, r.vaddr).result.Ok? {
        FirstLevelStep(lookup, Run(lookup, before), r, access, x);
        KeptStep(Served(lookup, before), Use(r.access, PageNumber(r.vaddr)), access, x);
      }
    }
  }

  lemma NothingKept(access: Access, x: Bits36)
    ensures !HoldsL1(Empty().L1(access), x) && !Kept([], access, x)
  {
  }
}
