/**
 * Whole runs of the fully-associative TLB: requests interleaved with stores to
 * memory, from a flushed TLB whose list is 0..n-1.
 */
module LruTlbRuns {
  import opened Machine
  import opened Address
  import opened PageTables
  import opened NodeList
  import opened Recency
  import opened LruTlb

  type LineCount = n: int | 0 < n <= 0x1_0000_0000 witness TLB_LINES

  datatype Event = Request(vaddr: VirtAddr) | Store(index: nat, word: Word)

  datatype System = System(mem: PhysMem, tlb: Tlb)

  ghost function Flushed(n: LineCount): (t: Tlb)
    ensures Usable(t)
  {
    Tlb(seq(n, _ => EMPTY_ENTRY), seq(n, i => i))
  }

  ghost function Step(s: System, e: Event): (r: System)
    requires Usable(s.tlb)
    ensures Usable(r.tlb)
  {
    match e
    case Request(vaddr) => s.(tlb := Next(s.mem, s.tlb, vaddr))
    case Store(i, w) => if i < MEM_WORDS then s.(mem := s.mem[i := w]) else s
  }

  ghost function Run(n: LineCount, mem: PhysMem, events: seq<Event>): (s: System)
    ensures Usable(s.tlb)
  {
    if events == [] then System(mem, Flushed(n))
    else Step(Run(n, mem, events[..|events| - 1]), events[|events| - 1])
  }

  /** The page numbers of the requests answered with a translation, in order. */
  ghost function Translated(n: LineCount, mem: PhysMem, events: seq<Event>): seq<Bits36> {
    if events == [] then []
    else
      var before, e := events[..|events| - 1], events[|events| - 1];
      var s := Run(n, mem, before);
      var trace := Translated(n, mem, before);
      if e.Request? && Ask(s.mem, s.tlb, e.vaddr).result.Ok? then trace + [PageNumber(e.vaddr)] else trace
  }

  /**
   * The list is a permutation of the n line numbers: first the untouched lines,
   * still in their initial order and invalid, then the lines holding `held`.
   */
  ghost predicate Ordered(t: Tlb, n: LineCount, held: seq<Bits36>) {
    && Usable(t) && |t.lines| == |t.order| == n && |held| <= n
    && Distinct(t.order)
    && (forall l :: 0 <= l < n ==> l in t.order)
    && (forall p :: 0 <= p < n - |held| ==> t.order[p] == |held| + p && !t.lines[t.order[p]].v)
    && (forall p :: n - |held| <= p < n ==>
          t.lines[t.order[p]].v && t.lines[t.order[p]].tag == held[p - (n - |held|)])
  }

  lemma FindHeld(t: Tlb, n: LineCount, held: seq<Bits36>, vpn: Bits36)
    requires Ordered(t, n, held)
    ensures Find(t, vpn).Some? <==> vpn in held
    ensures Find(t, vpn).Some? ==>
      n - |held| <= Find(t, vpn).value && held[Find(t, vpn).value - (n - |held|)] == vpn
  {
    if vpn in held {
      var q :| 0 <= q < |held| && held[q] == vpn;
      assert t.order[n - |held| + q] < n;
      assert Holds(t, n - |held| + q, vpn);
    }
  }

  lemma MoveToEndMembers<T>(s: seq<T>, p: nat, x: T)
    requires p < |s|
    ensures x in MoveToEnd(s, p) <==> x in s
  {
    assert s == s[..p] + [s[p]] + s[p + 1..];
  }

  lemma TouchOrdered(t: Tlb, n: LineCount, held: seq<Bits36>, q: nat)
    requires Ordered(t, n, held) && Distinct(held) && q < |held|
    ensures Ordered(Touch(t, n - |held| + q), n, LruStep(held, held[q], n))
  {
    var p := n - |held| + q;
    WithoutAt(held, q);
    assert LruStep(held, held[q], n) == MoveToEnd(held, q);
    forall l | 0 <= l < n ensures l in MoveToEnd(t.order, p) {
      MoveToEndMembers(t.order, p, l);
    }
  }

  lemma FillOrdered(t: Tlb, n: LineCount, held: seq<Bits36>, vpn: Bits36, page: Bits20)
    requires Ordered(t, n, held) && vpn !in held
    ensures Ordered(Fill(t, vpn, page), n, LruStep(held, vpn, n))
  {
    FillOrder(t, n, held, vpn, page);
    hide Fill, LruStep, Distinct;
    var t', held' := Fill(t, vpn, page), LruStep(held, vpn, n);
    FreshStep(held, vpn, n);
    forall p | n - |held'| <= p < n - 1
      ensures t'.lines[t'.order[p]].v && t'.lines[t'.order[p]].tag == held'[p - (n - |held'|)]
    {
      assert t'.order[p] == t.order[p + 1] != t.order[0];
      assert held'[p - (n - |held'|)] == held[p + 1 - (n - |held|)];
    }
    forall p | 0 <= p < n - |held'| ensures t'.order[p] == |held'| + p && !t'.lines[t'.order[p]].v {
      assert t'.order[p] == t.order[p + 1] != t.order[0];
    }
  }

  /** Using a value not held adds it at the end, at the expense of the first when full. */
  lemma FreshStep(held: seq<Bits36>, vpn: Bits36, n: LineCount)
    requires vpn !in held && |held| <= n
    ensures LruStep(held, vpn, n) == (if |held| < n then held else held[1..]) + [vpn]
  {
  }

  lemma FillOrder(t: Tlb, n: LineCount, held: seq<Bits36>, vpn: Bits36, page: Bits20)
    requires Ordered(t, n, held)
    ensures Fill(t, vpn, page).lines == t.lines[t.order[0] := TlbEntry(true, vpn, page)]
    ensures var order := Fill(t, vpn, page).order;
      && order == t.order[1..] + [t.order[0]] && order[n - 1] == t.order[0]
      && Distinct(order) && forall l :: 0 <= l < n ==> l in order
  {
    forall l | 0 <= l < n ensures l in MoveToEnd(t.order, 0) {
      MoveToEndMembers(t.order, 0, l);
    }
  }

  /** One request keeps the list in order of last use. */
  lemma NextOrdered(mem: PhysMem, t: Tlb, n: LineCount, held: seq<Bits36>, vaddr: VirtAddr)
    requires Ordered(t, n, held) && Distinct(held)
    ensures Ask(mem, t, vaddr).hit <==> PageNumber(vaddr) in held
    ensures Ordered(Next(mem, t, vaddr), n,
                    if Ask(mem, t, vaddr).result.Ok? then LruStep(held, PageNumber(vaddr), n) else held)
  {
    hide Touch, Fill, LruStep, Distinct, PageNumber, Walk;
    var vpn := PageNumber(vaddr);
    FindHeld(t, n, held, vpn);
    if vpn in held {
      TouchOrdered(t, n, held, Find(t, vpn).value - (n - |held|));
    } else if Walk(mem, vaddr).Ok? {
      FillOrdered(t, n, held, vpn, Walk(mem, vaddr).value.page);
    }
  }

  /**
   * The state is the history: after any run the list is the untouched lines
   * followed by the lines of the min(n, d) most recently translated distinct
   * page numbers, least recent first.
   */
  lemma {:induction false} History(n: LineCount, mem: PhysMem, events: seq<Event>)
    ensures Ordered(Run(n, mem, events).tlb, n, Newest(Order(Translated(n, mem, events)), n))
  {
    hide Ordered, Order, Newest;
    if events == [] {
      FlushedOrdered(n);
    } else {
      var before, e := events[..|events| - 1], events[|events| - 1];
      History(n, mem, before);
      if e.Request? {
        AccessOrdered(Run(n, mem, before), n, Translated(n, mem, before), e.vaddr);
      }
    }
  }

  lemma FlushedOrdered(n: LineCount)
    ensures Ordered(Flushed(n), n, [])
  {
    forall l | 0 <= l < n ensures l in Flushed(n).order {
      assert Flushed(n).order[l] == l;
    }
  }

  lemma AccessOrdered(s: System, n: LineCount, trace: seq<Bits36>, vaddr: VirtAddr)
    requires Ordered(s.tlb, n, Newest(Order(trace), n))
    ensures var trace' := if Ask(s.mem, s.tlb, vaddr).result.Ok? then trace + [PageNumber(vaddr)] else trace;
      Ordered(Next(s.mem, s.tlb, vaddr), n, Newest(Order(trace'), n))
  {
    hide Ordered, Order, Newest, LruStep;
    OrderDistinct(trace);
    NewestDistinct(Order(trace), n);
    NextOrdered(s.mem, s.tlb, n, Newest(Order(trace), n), vaddr);
    NewestStep(trace, PageNumber(vaddr), n);
  }

  ghost predicate Cached(t: Tlb, vpn: Bits36) {
    exists l :: 0 <= l < |t.lines| && t.lines[l].v && t.lines[l].tag == vpn
  }

  lemma OrderedCaches(t: Tlb, n: LineCount, held: seq<Bits36>)
    requires Ordered(t, n, held) && Distinct(held)
    ensures forall x: Bits36 :: Cached(t, x) <==> x in held
    ensures forall k, l :: 0 <= k < l < n && t.lines[k].v && t.lines[l].v ==> t.lines[k].tag != t.lines[l].tag
  {
    forall x: Bits36 ensures Cached(t, x) <==> x in held {
      if Cached(t, x) {
        var l :| 0 <= l < n && t.lines[l].v && t.lines[l].tag == x;
        assert l in t.order;
        var p :| 0 <= p < n && t.order[p] == l;
      }
      if x in held {
        var q :| 0 <= q < |held| && held[q] == x;
        assert t.order[n - |held| + q] < n;
      }
    }
    forall k, l | 0 <= k < l < n && t.lines[k].v && t.lines[l].v ensures t.lines[k].tag != t.lines[l].tag {
      assert k in t.order && l in t.order;
      var p :| 0 <= p < n && t.order[p] == k;
      var q :| 0 <= q < n && t.order[q] == l;
    }
  }

  /** A page number is cached iff it was translated and fewer than n others were since; never in two lines. */
  lemma CachedIffRecent(n: LineCount, mem: PhysMem, events: seq<Event>)
    ensures var t, trace := Run(n, mem, events).tlb, Translated(n, mem, events);
      && |t.lines| == n
      && (forall x: Bits36 :: Cached(t, x) <==> x in trace && |Since(trace, x)| < n)
      && (forall k, l :: 0 <= k < l < n && t.lines[k].v && t.lines[l].v ==> t.lines[k].tag != t.lines[l].tag)
  {
    var t, trace := Run(n, mem, events).tlb, Translated(n, mem, events);
    History(n, mem, events);
    OrderDistinct(trace);
    OrderedCaches(t, n, Newest(Order(trace), n));
    forall x: Bits36 ensures Cached(t, x) <==> x in trace && |Since(trace, x)| < n {
      NewestIsHistory(trace, n, x);
    }
  }

  /** Every valid line agrees with the page tables. */
  ghost predicate Coherent(mem: PhysMem, t: Tlb) {
    forall l :: 0 <= l < |t.lines| && t.lines[l].v ==> Translate(mem, t.lines[l].tag) == Some(t.lines[l].page)
  }

  /** A store that misses every table word of every cached page number. */
  ghost predicate StoreApart(mem: PhysMem, t: Tlb, index: nat) {
    forall l :: 0 <= l < |t.lines| && t.lines[l].v ==> index !in TableWords(mem, OfPageNumber(t.lines[l].tag, 0))
  }

  ghost predicate StoresApart(n: LineCount, mem: PhysMem, events: seq<Event>) {
    events != [] ==>
      var before, e := events[..|events| - 1], events[|events| - 1];
      && StoresApart(n, mem, before)
      && (e.Store? ==> StoreApart(Run(n, mem, before).mem, Run(n, mem, before).tlb, e.index))
  }

  lemma AnswerIsWalk(mem: PhysMem, t: Tlb, vaddr: VirtAddr)
    requires Usable(t) && Coherent(mem, t)
    ensures Ask(mem, t, vaddr).result == Walk(mem, vaddr)
    ensures Coherent(mem, Next(mem, t, vaddr))
    ensures Walk(mem, vaddr).Err? ==> Next(mem, t, vaddr) == t
  {
    WalkByPageNumber(mem, vaddr);
  }

  lemma StoreKeepsCoherence(mem: PhysMem, t: Tlb, index: nat, word: Word)
    requires Coherent(mem, t) && StoreApart(mem, t, index) && index < MEM_WORDS
    ensures Coherent(mem[index := word], t)
  {
    forall l | 0 <= l < |t.lines| && t.lines[l].v
      ensures Translate(mem[index := word], t.lines[l].tag) == Some(t.lines[l].page)
    {
      WalkFrame(mem, mem[index := word], OfPageNumber(t.lines[l].tag, 0));
    }
  }

  /**
   * Translation transparency: as long as stores stay off the table words of the
   * cached pages, after any run the TLB answers every address as the walk would.
   */
  lemma {:induction false} Transparent(n: LineCount, mem: PhysMem, events: seq<Event>)
    requires StoresApart(n, mem, events)
    ensures var s := Run(n, mem, events);
      && Coherent(s.mem, s.tlb)
      && forall vaddr :: Ask(s.mem, s.tlb, vaddr).result == Walk(s.mem, vaddr)
  {
    if events != [] {
      var before, e := events[..|events| - 1], events[|events| - 1];
      Transparent(n, mem, before);
      var s := Run(n, mem, before);
      match e {
        case Request(vaddr) => AnswerIsWalk(s.mem, s.tlb, vaddr);
        case Store(i, w) => if i < MEM_WORDS { StoreKeepsCoherence(s.mem, s.tlb, i, w); }
      }
    }
    var s := Run(n, mem, events);
    forall vaddr ensures Ask(s.mem, s.tlb, vaddr).result == Walk(s.mem, vaddr) {
      AnswerIsWalk(s.mem, s.tlb, vaddr);
    }
  }

  lemma {:induction false} SameMemory(m: LineCount, n: LineCount, mem: PhysMem, events: seq<Event>)
    ensures Run(m, mem, events).mem == Run(n, mem, events).mem
  {
    if events != [] {
      SameMemory(m, n, mem, events[..|events| - 1]);
    }
  }

  /** TLBs of different sizes translate the same requests, and what suits the larger suits the smaller. */
  lemma {:induction false} SameTranslations(m: LineCount, n: LineCount, mem: PhysMem, events: seq<Event>)
    requires m <= n && StoresApart(n, mem, events)
    ensures StoresApart(m, mem, events)
    ensures Translated(m, mem, events) == Translated(n, mem, events)
  {
    if events != [] {
      var before, e := events[..|events| - 1], events[|events| - 1];
      SameTranslations(m, n, mem, before);
      SameMemory(m, n, mem, before);
      Transparent(m, mem, before);
      Transparent(n, mem, before);
      if e.Store? {
        Nested(m, n, mem, before);
        var s, t := Run(m, mem, before).tlb, Run(n, mem, before).tlb;
        forall l | 0 <= l < |s.lines| && s.lines[l].v
          ensures e.index !in TableWords(Run(m, mem, before).mem, OfPageNumber(s.lines[l].tag, 0))
        {
          assert Cached(s, s.lines[l].tag);
        }
      }
    }
  }

  lemma Nested(m: LineCount, n: LineCount, mem: PhysMem, events: seq<Event>)
    requires m <= n && Translated(m, mem, events) == Translated(n, mem, events)
    ensures forall x: Bits36 :: Cached(Run(m, mem, events).tlb, x) ==> Cached(Run(n, mem, events).tlb, x)
  {
    CachedIffRecent(m, mem, events);
    CachedIffRecent(n, mem, events);
  }

  /** Stack property: a larger TLB holds whatever a smaller one does, so it hits whenever the smaller one hits. */
  lemma StackProperty(m: LineCount, n: LineCount, mem: PhysMem, events: seq<Event>, vaddr: VirtAddr)
    requires m <= n && StoresApart(n, mem, events)
    ensures var s, t := Run(m, mem, events), Run(n, mem, events);
      && (forall x: Bits36 :: Cached(s.tlb, x) ==> Cached(t.tlb, x))
      && (Ask(s.mem, s.tlb, vaddr).hit ==> Ask(t.mem, t.tlb, vaddr).hit)
  {
    SameTranslations(m, n, mem, events);
    Nested(m, n, mem, events);
    HitIffCached(m, mem, events, vaddr);
    HitIffCached(n, mem, events, vaddr);
  }

  /** A request hits iff its page number is among the n most recently translated ones. */
  lemma HitIffRecent(n: LineCount, mem: PhysMem, events: seq<Event>, vaddr: VirtAddr)
    ensures var s := Run(n, mem, events);
      Ask(s.mem, s.tlb, vaddr).hit <==> PageNumber(vaddr) in Newest(Order(Translated(n, mem, events)), n)
  {
    hide Ordered, Order, Newest;
    var s, trace := Run(n, mem, events), Translated(n, mem, events);
    History(n, mem, events);
    OrderDistinct(trace);
    NewestDistinct(Order(trace), n);
    NextOrdered(s.mem, s.tlb, n, Newest(Order(trace), n), vaddr);
  }

  lemma HitIffCached(n: LineCount, mem: PhysMem, events: seq<Event>, vaddr: VirtAddr)
    ensures var s := Run(n, mem, events);
      Ask(s.mem, s.tlb, vaddr).hit <==> Cached(s.tlb, PageNumber(vaddr))
  {
    HitIffRecent(n, mem, events, vaddr);
    NewestIsHistory(Translated(n, mem, events), n, PageNumber(vaddr));
    CachedIffRecent(n, mem, events);
  }

  /** The page the last refill for x got from the tables as they then were. */
  ghost function LastRefill(n: LineCount, mem: PhysMem, events: seq<Event>, x: Bits36): Option<Bits20> {
    if events == [] then None
    else
      var before, e := events[..|events| - 1], events[|events| - 1];
      var s := Run(n, mem, before);
      if e.Request? && PageNumber(e.vaddr) == x && !Ask(s.mem, s.tlb, e.vaddr).hit && Walk(s.mem, e.vaddr).Ok?
      then Some(Walk(s.mem, e.vaddr).value.page)
      else LastRefill(n, mem, before, x)
  }

  ghost predicate LinesRefilled(t: Tlb, n: LineCount, mem: PhysMem, events: seq<Event>) {
    forall l :: 0 <= l < |t.lines| && t.lines[l].v ==>
      LastRefill(n, mem, events, t.lines[l].tag) == Some(t.lines[l].page)
  }

  lemma {:induction false} LinesAreRefills(n: LineCount, mem: PhysMem, events: seq<Event>)
    ensures LinesRefilled(Run(n, mem, events).tlb, n, mem, events)
  {
    hide Walk, PageNumber, Find;
    if events != [] {
      var before, e := events[..|events| - 1], events[|events| - 1];
      var s, t := Run(n, mem, before), Run(n, mem, events).tlb;
      LinesAreRefills(n, mem, before);
      if e.Request? {
        HitIffCached(n, mem, before, e.vaddr);
        var refilled := !Ask(s.mem, s.tlb, e.vaddr).hit && Walk(s.mem, e.vaddr).Ok?;
        forall l | 0 <= l < |t.lines| && t.lines[l].v
          ensures LastRefill(n, mem, events, t.lines[l].tag) == Some(t.lines[l].page)
        {
          assert t.lines[l] == s.tlb.lines[l] || (refilled && l == s.tlb.order[0]);
          assert t.lines[l] == s.tlb.lines[l] && refilled ==> Cached(s.tlb, t.lines[l].tag);
        }
      }
    }
  }

  /** Whatever is stored meanwhile, a hit answers with the page its refill got, not with what the tables now say. */
  lemma HitIsLastRefill(n: LineCount, mem: PhysMem, events: seq<Event>, vaddr: VirtAddr)
    ensures var s := Run(n, mem, events);
      var page := LastRefill(n, mem, events, PageNumber(vaddr));
      Ask(s.mem, s.tlb, vaddr).hit ==>
        page.Some? && Ask(s.mem, s.tlb, vaddr).result == Ok(PhyAddr(page.value, vaddr.offset))
  {
    hide Walk, PageNumber;
    LinesAreRefills(n, mem, events);
  }
}
