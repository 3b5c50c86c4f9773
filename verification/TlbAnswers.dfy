/**
 * Every answer of the two-level TLB, for every page number and either lookup, out of
 * the answers before it. Nothing here needs the lookup to look at the line insertion
 * uses.
 */
module TlbAnswers {
  import opened Machine
  import opened Address
  import opened PageTables
  import opened TlbHierarchy
  import opened TlbHierarchyRuns

  /** An answered request, as seen from outside. */
  datatype Reply = Reply(access: Access, vpn: Bits36, page: Bits20, walked: bool)

  ghost function ReplyTo(r: Request, a: Answer): Reply
    requires a.result.Ok?
  {
    Reply(r.access, PageNumber(r.vaddr), a.result.value.page, !a.hit)
  }

  ghost function Replies(lookup: Lookup, reqs: seq<Request>): seq<Reply> {
    if reqs == [] then []
    else
      var before, r := reqs[..|reqs| - 1], reqs[|reqs| - 1];
      var a := Ask(lookup, r.mem, Run(lookup, before), r.access, r.vaddr);
      Replies(lookup, before) + if a.result.Ok? then [ReplyTo(r, a)] else []
  }

  /** The last walk for a page number with second-level index i. */
  ghost function LastWalk(trace: seq<Reply>, i: nat): (u: Option<Reply>)
    ensures u.Some? ==> L2Index(u.value.vpn) == i
  {
    if trace == [] then None
    else
      var u := trace[|trace| - 1];
      if u.walked && L2Index(u.vpn) == i then Some(u) else LastWalk(trace[..|trace| - 1], i)
  }

  /** Its page number; a line never filled reads as the page with tag 0. */
  ghost function Walked(trace: seq<Reply>, i: nat): Bits36
    requires i < L2_LINES
  {
    match LastWalk(trace, i) case Some(u) => u.vpn case None => i
  }

  /**
   * A reply ends x's stay in the first level of `access`: it takes the same line there,
   * or it walked for the other kind of access and the number it evicted looks like x.
   */
  ghost predicate Displaces(trace: seq<Reply>, u: Reply, access: Access, x: Bits36) {
    && L1Index(u.vpn) == L1Index(x)
    && (u.access == access || (u.walked && Low32(Walked(trace, L2Index(u.vpn))) == Low32(x)))
  }

  /** x was answered with this page through `access`, at k, and nothing since displaced it. */
  ghost predicate StaysSince(trace: seq<Reply>, k: nat, access: Access, x: Bits36, page: Bits20)
    requires k < |trace|
  {
    && trace[k].access == access && trace[k].vpn == x && trace[k].page == page
    && forall j :: k < j < |trace| ==> !Displaces(trace[..j], trace[j], access, x)
  }

  ghost predicate Stays(trace: seq<Reply>, access: Access, x: Bits36, page: Bits20) {
    exists k :: 0 <= k < |trace| && StaysSince(trace, k, access, x, page)
  }

  lemma StaysStep(trace: seq<Reply>, u: Reply, access: Access, x: Bits36, page: Bits20)
    ensures Stays(trace + [u], access, x, page) <==>
      (u.access == access && u.vpn == x && u.page == page)
      || (Stays(trace, access, x, page) && !Displaces(trace, u, access, x))
  {
    hide Displaces;
    var t := trace + [u];
    assert t[..|trace|] == trace;
    assert forall j :: 0 <= j < |trace| ==> t[j] == trace[j] && t[..j] == trace[..j];
    if u.access == access && u.vpn == x && u.page == page {
      assert StaysSince(t, |trace|, access, x, page);
    }
    if Stays(trace, access, x, page) && !Displaces(trace, u, access, x) {
      var k :| 0 <= k < |trace| && StaysSince(trace, k, access, x, page);
      assert StaysSince(t, k, access, x, page);
    }
    if Stays(t, access, x, page) {
      StayedBefore(trace, u, access, x, page);
    }
  }

  lemma StayedBefore(trace: seq<Reply>, u: Reply, access: Access, x: Bits36, page: Bits20)
    requires Stays(trace + [u], access, x, page)
    ensures (u.access == access && u.vpn == x && u.page == page)
         || (Stays(trace, access, x, page) && !Displaces(trace, u, access, x))
  {
    hide Displaces;
    var t := trace + [u];
    var k :| 0 <= k < |t| && StaysSince(t, k, access, x, page);
    if k < |trace| {
      assert t[..|trace|] == trace && !Displaces(t[..|trace|], t[|trace|], access, x);
      forall j | k < j < |trace| ensures !Displaces(trace[..j], trace[j], access, x) {
        assert t[..j] == trace[..j] && !Displaces(t[..j], t[j], access, x);
      }
      assert StaysSince(trace, k, access, x, page);
    }
  }

  /** The second level holds the last walk of each line. */
  ghost predicate HoldsWalks(h: Hierarchy, trace: seq<Reply>) {
    forall i :: 0 <= i < L2_LINES ==>
      h.l2[i] == match LastWalk(trace, i) case Some(u) => L2Entry(true, L2Tag(u.vpn), u.page) case None => EMPTY_L2
  }

  lemma LastWalkStep(trace: seq<Reply>, u: Reply, i: nat)
    ensures LastWalk(trace + [u], i) == if u.walked && L2Index(u.vpn) == i then Some(u) else LastWalk(trace, i)
  {
    assert (trace + [u])[..|trace|] == trace;
  }

  lemma WalksStep(lookup: Lookup, h: Hierarchy, trace: seq<Reply>, r: Request)
    requires HoldsWalks(h, trace) && Ask(lookup, r.mem, h, r.access, r.vaddr).result.Ok?
    ensures HoldsWalks(Next(lookup, r.mem, h, r.access, r.vaddr),
                       trace + [ReplyTo(r, Ask(lookup, r.mem, h, r.access, r.vaddr))])
  {
    hide L1Index, L2Index, LookupIndex, L1Tag, L2Tag, LastWalk, InvalidationFires;
    var u := ReplyTo(r, Ask(lookup, r.mem, h, r.access, r.vaddr));
    forall i
      ensures LastWalk(trace + [u], i) == if u.walked && L2Index(u.vpn) == i then Some(u) else LastWalk(trace, i)
    {
      LastWalkStep(trace, u, i);
    }
  }

  lemma EvictedIsWalked(h: Hierarchy, trace: seq<Reply>, vpn: Bits36)
    requires HoldsWalks(h, trace)
    ensures Evicted(h, vpn) == Walked(trace, L2Index(vpn))
  {
    hide L2Index, L2Tag;
    var i := L2Index(vpn);
    if LastWalk(trace, i).Some? {
      var u := LastWalk(trace, i).value;
      TagAndIndex(u.vpn, u.vpn);
    }
  }

  ghost predicate HoldsPage(h: Hierarchy, access: Access, x: Bits36, page: Bits20) {
    HoldsL1(h.L1(access), x) && h.L1(access)[L1Index(x)].page == page
  }

  lemma PageStep(lookup: Lookup, h: Hierarchy, trace: seq<Reply>, r: Request,
                 access: Access, x: Bits36, page: Bits20)
    requires HoldsWalks(h, trace) && Ask(lookup, r.mem, h, r.access, r.vaddr).result.Ok?
    ensures var u := ReplyTo(r, Ask(lookup, r.mem, h, r.access, r.vaddr));
      HoldsPage(Next(lookup, r.mem, h, r.access, r.vaddr), access, x, page) <==>
        (u.access == access && u.vpn == x && u.page == page)
        || (HoldsPage(h, access, x, page) && !Displaces(trace, u, access, x))
  {
    hide L1Index, L2Index, LookupIndex, L1Tag, L2Tag, L1Vpn, Low32, Walked, Evicted;
    var vpn := PageNumber(r.vaddr);
    TagAndIndex(x, vpn);
    TagAndIndex(x, x);
    EvictedIsWalked(h, trace, vpn);
  }

  /** Both levels, for every page number, out of the replies so far. */
  lemma {:induction false} LevelsAreHistory(lookup: Lookup, reqs: seq<Request>, access: Access, x: Bits36, page: Bits20)
    ensures HoldsWalks(Run(lookup, reqs), Replies(lookup, reqs))
    ensures HoldsPage(Run(lookup, reqs), access, x, page) <==> Stays(Replies(lookup, reqs), access, x, page)
  {
    hide HoldsPage, HoldsWalks, Stays, Displaces, Ask, Next;
    if reqs == [] {
      NothingYet(lookup, access, x, page);
    } else {
      var before, r := reqs[..|reqs| - 1], reqs[|reqs| - 1];
      var h, trace := Run(lookup, before), Replies(lookup, before);
      LevelsAreHistory(lookup, before, access, x, page);
      if Ask(lookup, r.mem, h, r.access, r.vaddr).result.Ok? {
        WalksStep(lookup, h, trace, r);
        PageStep(lookup, h, trace, r, access, x, page);
        StaysStep(trace, ReplyTo(r, Ask(lookup, r.mem, h, r.access, r.vaddr)), access, x, page);
      } else {
        FailureChangesNothing(lookup, h, r);
        assert trace + [] == trace;
      }
    }
  }

  lemma NothingYet(lookup: Lookup, access: Access, x: Bits36, page: Bits20)
    ensures HoldsWalks(Run(lookup, []), []) && !HoldsPage(Run(lookup, []), access, x, page)
    ensures !Stays([], access, x, page) && Replies(lookup, []) == []
  {
  }

  lemma FailureChangesNothing(lookup: Lookup, h: Hierarchy, r: Request)
    requires Ask(lookup, r.mem, h, r.access, r.vaddr).result.Err?
    ensures Next(lookup, r.mem, h, r.access, r.vaddr) == h
  {
  }

  /**
   * The answer to any request after any run: the page x was last answered with through
   * the same kind of access, while nothing has displaced it; else the page of the last
   * walk in the line looked at, if its tag is x's; else a walk.
   */
  lemma AnswerIsHistory(lookup: Lookup, reqs: seq<Request>, mem: PhysMem, access: Access, vaddr: VirtAddr)
    ensures var a := Ask(lookup, mem, Run(lookup, reqs), access, vaddr);
      var trace, x := Replies(lookup, reqs), PageNumber(vaddr);
      var last := LastWalk(trace, LookupIndex(lookup, x));
      && (forall page: Bits20 :: Stays(trace, access, x, page) ==> a == Answer(Ok(PhyAddr(page, vaddr.offset)), true))
      && ((forall page: Bits20 :: !Stays(trace, access, x, page)) ==>
            a == if last.Some? && L2Tag(last.value.vpn) == L2Tag(x)
                 then Answer(Ok(PhyAddr(last.value.page, vaddr.offset)), true)
                 else Answer(Walk(mem, vaddr), false))
  {
    hide L1Index, L2Index, LookupIndex, L1Tag, L2Tag, Walk, PageNumber, Stays, LastWalk;
    var h, x := Run(lookup, reqs), PageNumber(vaddr);
    var trace := Replies(lookup, reqs);
    forall page: Bits20
      ensures HoldsWalks(h, trace) && (HoldsPage(h, access, x, page) <==> Stays(trace, access, x, page))
    {
      LevelsAreHistory(lookup, reqs, access, x, page);
    }
    var here := h.L1(access)[L1Index(x)].page;
    LevelsAreHistory(lookup, reqs, access, x, here);
  }
}
