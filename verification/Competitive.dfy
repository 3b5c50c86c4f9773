/**
 * How far LRU can be from the best possible replacement. The request sequence is
 * cut into phases of at most n distinct values: LRU misses at most once per value
 * of a phase, and any store of k lines must miss n - k + 1 times between the first
 * request of one phase and the first request of the next.
 */
module Competitive {
  import opened Machine
  import opened PageTables
  import opened Recency
  import opened LruTlb
  import opened LruTlbRuns

  /** Misses of the n-line LRU store: requests outside the n most recently used values. */
  ghost function LruMisses<T(!new)>(trace: seq<T>, n: nat): nat {
    if trace == [] then 0
    else
      var before, x := trace[..|trace| - 1], trace[|trace| - 1];
      LruMisses(before, n) + if x in Newest(Order(before), n) then 0 else 1
  }

  /**
   * The contents of any k-line demand store over the requests, from empty: after a
   * request it holds the value asked for and nothing it did not hold before. It may
   * have been chosen with the whole sequence in view.
   */
  ghost predicate DemandStore<T(!new)>(trace: seq<T>, contents: seq<set<T>>, k: nat) {
    && |contents| == |trace| + 1 && contents[0] == {}
    && forall i :: 0 <= i < |trace| ==> DemandStep(contents[i], trace[i], contents[i + 1], k)
  }

  ghost predicate DemandStep<T(!new)>(before: set<T>, x: T, after: set<T>, k: nat) {
    x in after && after <= before + {x} && |after| <= k
  }

  ghost function DemandMisses<T(!new)>(trace: seq<T>, contents: seq<set<T>>): nat
    requires |contents| == |trace| + 1
  {
    if trace == [] then 0
    else
      var last := |trace| - 1;
      DemandMisses(trace[..last], contents[..last + 1]) + if trace[last] in contents[last] then 0 else 1
  }

  datatype Phase<T> = Phase(number: nat, seen: set<T>, start: set<T>)

  /** A value outside a full phase opens the next one. `start` is the rival's content at the opening request. */
  ghost function PhaseOf<T(!new)>(trace: seq<T>, contents: seq<set<T>>, n: nat): (p: Phase<T>)
    requires |contents| == |trace| + 1
    ensures p.number == 0 <==> trace == []
  {
    if trace == [] then Phase(0, {}, {})
    else
      var last := |trace| - 1;
      Advance(PhaseOf(trace[..last], contents[..last + 1], n), trace[last], contents[last + 1], n)
  }

  ghost function Advance<T(!new)>(p: Phase<T>, x: T, after: set<T>, n: nat): Phase<T> {
    if p.number == 0 || (x !in p.seen && |p.seen| == n) then Phase(p.number + 1, {x}, after)
    else p.(seen := p.seen + {x})
  }

  /** Within a phase, whatever was used since one of its values belongs to the phase. */
  lemma {:induction false} PhaseIsRecent<T(!new)>(trace: seq<T>, contents: seq<set<T>>, n: nat)
    requires 0 < n && |contents| == |trace| + 1
    ensures var p := PhaseOf(trace, contents, n);
      && |p.seen| <= n
      && (trace != [] ==> p.seen != {})
      && forall x :: x in p.seen ==> x in trace && Since(trace, x) <= p.seen
  {
    if trace != [] {
      var last := |trace| - 1;
      var before, y := trace[..last], trace[last];
      assert before + [y] == trace;
      PhaseIsRecent(before, contents[..last + 1], n);
      var p := PhaseOf(trace, contents, n);
      forall x | x in p.seen ensures x in trace && Since(trace, x) <= p.seen {
        SinceStep(before, y, x);
      }
    }
  }

  lemma SeenIsHit<T(!new)>(trace: seq<T>, contents: seq<set<T>>, n: nat, x: T)
    requires 0 < n && |contents| == |trace| + 1 && x in PhaseOf(trace, contents, n).seen
    ensures x in Newest(Order(trace), n)
  {
    var p := PhaseOf(trace, contents, n);
    PhaseIsRecent(trace, contents, n);
    NewestIsHistory(trace, n, x);
    assert x !in Since(trace, x);
    assert Since(trace, x) <= p.seen - {x};
    SubsetSize(Since(trace, x), p.seen - {x});
  }

  /** LRU misses each value of a phase at most once. */
  lemma {:induction false} LruMissesPerPhase<T(!new)>(trace: seq<T>, contents: seq<set<T>>, n: nat)
    requires 0 < n && |contents| == |trace| + 1 && trace != []
    ensures var p := PhaseOf(trace, contents, n);
      LruMisses(trace, n) <= (p.number - 1) * n + |p.seen|
  {
    hide Newest, Order, Since, Advance;
    var last := |trace| - 1;
    var before, y, earlier := trace[..last], trace[last], contents[..last + 1];
    var p := PhaseOf(before, earlier, n);
    var missed := LruMisses(trace, n) - LruMisses(before, n);
    if before == [] {
      FirstPhase(p, y, contents[last + 1], n);
    } else {
      LruMissesPerPhase(before, earlier, n);
      PhaseIsRecent(before, earlier, n);
      if y in p.seen {
        SeenIsHit(before, earlier, n, y);
      }
      AdvanceCost(p, y, contents[last + 1], n, LruMisses(before, n), missed);
    }
  }

  lemma FirstPhase<T(!new)>(p: Phase<T>, y: T, after: set<T>, n: nat)
    requires p.number == 0
    ensures Advance(p, y, after, n) == Phase(1, {y}, after)
  {
  }

  lemma AdvanceCost<T(!new)>(p: Phase<T>, y: T, after: set<T>, n: nat, misses: nat, missed: nat)
    requires 0 < p.number && |p.seen| <= n
    requires misses <= (p.number - 1) * n + |p.seen| && missed <= if y in p.seen then 0 else 1
    ensures var q := Advance(p, y, after, n);
      misses + missed <= (q.number - 1) * n + |q.seen|
  {
    OneMore(p.number, n);
    if y in p.seen {
      assert p.seen + {y} == p.seen;
    }
  }

  lemma OneMore(m: nat, c: nat)
    requires 0 < m
    ensures m * c == (m - 1) * c + c
  {
  }

  ghost predicate RivalPaid<T(!new)>(p: Phase<T>, content: set<T>, misses: nat, n: nat, k: nat)
    requires 0 < k <= n
  {
    && 0 < p.number && |p.start| <= k && content <= p.start + p.seen
    && misses >= (p.number - 1) * (n - k + 1) + 1 + |p.seen - p.start|
  }

  /** Between the openings of two phases the rival misses at least n - k + 1 times. */
  lemma {:induction false} DemandMissesPerPhase<T(!new)>(trace: seq<T>, contents: seq<set<T>>, n: nat, k: nat)
    requires 0 < k <= n && trace != [] && DemandStore(trace, contents, k)
    ensures RivalPaid(PhaseOf(trace, contents, n), contents[|trace|], DemandMisses(trace, contents), n, k)
  {
    hide RivalPaid, Advance;
    var last := |trace| - 1;
    var before, y, earlier := trace[..last], trace[last], contents[..last + 1];
    var p := PhaseOf(before, earlier, n);
    assert DemandStep(contents[last], y, contents[last + 1], k);
    if before == [] {
      FirstPhasePaid(p, y, contents[last + 1], n, k);
    } else {
      assert forall i :: 0 <= i < last ==> before[i] == trace[i] && earlier[i] == contents[i];
      DemandMissesPerPhase(before, earlier, n, k);
      AdvancePaid(p, y, contents[last], contents[last + 1], n, k, DemandMisses(before, earlier));
    }
  }

  lemma FirstPhasePaid<T(!new)>(p: Phase<T>, y: T, after: set<T>, n: nat, k: nat)
    requires 0 < k <= n && p.number == 0 && DemandStep({}, y, after, k)
    ensures RivalPaid(Advance(p, y, after, n), after, 1, n, k)
  {
    assert {y} - after == {};
  }

  lemma AdvancePaid<T(!new)>(p: Phase<T>, y: T, content: set<T>, after: set<T>, n: nat, k: nat, misses: nat)
    requires 0 < k <= n && RivalPaid(p, content, misses, n, k) && DemandStep(content, y, after, k)
    ensures RivalPaid(Advance(p, y, after, n), after, misses + if y in content then 0 else 1, n, k)
  {
    if y !in p.seen && |p.seen| == n {
      PhaseCost(p.seen, p.start, y, n, k);
      OneMore(p.number, n - k + 1);
      assert {y} - after == {};
    } else {
      PhaseGrows(p.seen, p.start, y);
    }
  }

  lemma PhaseGrows<T>(seen: set<T>, start: set<T>, y: T)
    ensures |(seen + {y}) - start| == |seen - start| + if y in start || y in seen then 0 else 1
  {
    if y in start || y in seen {
      assert (seen + {y}) - start == seen - start;
    } else {
      assert (seen + {y}) - start == (seen - start) + {y};
    }
  }

  lemma PhaseCost<T>(seen: set<T>, start: set<T>, y: T, n: nat, k: nat)
    requires |seen| == n && |start| <= k <= n && y !in seen
    ensures |seen - start| + (if y in start then 0 else 1) >= n - k + 1
  {
    assert seen == (seen - start) + (seen * start);
    if y in start {
      SubsetSize(seen * start, start - {y});
    } else {
      SubsetSize(seen * start, start);
    }
  }

  /**
   * Competitive bound: for any k-line demand store, offline ones included, with
   * 1 <= k <= n lines. For k == n it reads: LRU misses at most n times as often.
   */
  lemma LruIsCompetitive<T(!new)>(trace: seq<T>, contents: seq<set<T>>, n: nat, k: nat)
    requires 0 < k <= n && DemandStore(trace, contents, k)
    ensures (n - k + 1) * LruMisses(trace, n) <= n * DemandMisses(trace, contents) + (n - k) * (k - 1)
    ensures k == n ==> LruMisses(trace, n) <= n * DemandMisses(trace, contents)
  {
    hide Times;
    FoldedBound(trace, contents, n, k);
    Unfold(n, k, LruMisses(trace, n), DemandMisses(trace, contents));
  }

  lemma FoldedBound<T(!new)>(trace: seq<T>, contents: seq<set<T>>, n: nat, k: nat)
    requires 0 < k <= n && DemandStore(trace, contents, k)
    ensures Times(n - k + 1, LruMisses(trace, n)) <= Times(n, DemandMisses(trace, contents)) + Times(n - k, k - 1)
  {
    hide Times;
    if trace == [] {
      Commute(n - k + 1, 0);
      Units(n - k + 1);
      return;
    }
    hide LruMisses, DemandMisses;
    var m, seen, outside := BothCounts(trace, contents, n, k);
    CountBound(n, k, m, seen, outside, LruMisses(trace, n), DemandMisses(trace, contents));
  }

  lemma BothCounts<T(!new)>(trace: seq<T>, contents: seq<set<T>>, n: nat, k: nat)
    returns (m: nat, seen: nat, outside: nat)
    requires 0 < k <= n && trace != [] && DemandStore(trace, contents, k)
    ensures seen <= n && seen - k <= outside
    ensures LruMisses(trace, n) <= Times(m, n) + seen
    ensures DemandMisses(trace, contents) >= Times(m, n - k + 1) + 1 + outside
  {
    hide LruMisses, DemandMisses, PhaseOf, Since;
    var p := PhaseOf(trace, contents, n);
    PhaseIsRecent(trace, contents, n);
    LruMissesPerPhase(trace, contents, n);
    DemandMissesPerPhase(trace, contents, n, k);
    m, seen, outside := p.number - 1, |p.seen|, |p.seen - p.start|;
    assert p.seen == (p.seen - p.start) + (p.seen * p.start);
    SubsetSize(p.seen * p.start, p.start);
  }

  // The arithmetic, with products kept folded.

  ghost function Times(a: nat, b: nat): nat {
    a * b
  }

  lemma Unfold(n: nat, k: nat, lru: nat, rival: nat)
    requires 0 < k <= n && Times(n - k + 1, lru) <= Times(n, rival) + Times(n - k, k - 1)
    ensures (n - k + 1) * lru <= n * rival + (n - k) * (k - 1)
    ensures k == n ==> lru <= n * rival
  {
  }

  lemma CountBound(n: nat, k: nat, m: nat, seen: nat, outside: nat, lru: nat, rival: nat)
    requires 0 < k <= n && seen <= n && seen - k <= outside
    requires lru <= Times(m, n) + seen && rival >= Times(m, n - k + 1) + 1 + outside
    ensures Times(n - k + 1, lru) <= Times(n, rival) + Times(n - k, k - 1)
  {
    hide Times;
    var gap := n - k + 1;
    LruCount(n, k, m, seen, outside, lru);
    RivalCount(n, Times(m, gap), outside, rival);
    GapTimesK(n, k);
  }

  lemma LruCount(n: nat, k: nat, m: nat, seen: nat, outside: nat, lru: nat)
    requires 0 < k <= n && seen - k <= outside && lru <= Times(m, n) + seen
    ensures Times(n - k + 1, lru) <=
      Times(n, Times(m, n - k + 1)) + Times(n - k + 1, k) + Times(n, outside)
  {
    hide Times;
    var gap := n - k + 1;
    TimesMono(gap, lru, Times(m, n) + seen);
    Distribute(gap, Times(m, n), seen);
    Rotate(gap, m, n);
    SeenBound(n, k, seen, outside);
  }

  lemma RivalCount(n: nat, paid: nat, outside: nat, rival: nat)
    requires rival >= paid + 1 + outside
    ensures Times(n, rival) >= Times(n, paid) + n + Times(n, outside)
  {
    hide Times;
    TimesMono(n, paid + 1 + outside, rival);
    Distribute(n, paid + 1, outside);
    Distribute(n, paid, 1);
    Commute(n, 1);
    Units(n);
  }

  lemma GapTimesK(n: nat, k: nat)
    requires 0 < k <= n
    ensures Times(n - k + 1, k) == n + Times(n - k, k - 1)
  {
    hide Times;
    Commute(n - k + 1, k);
    Distribute(k, n - k, 1);
    Commute(k, n - k);
    Commute(k, 1);
    Units(k);
    Distribute(n - k, k - 1, 1);
    Commute(n - k, 1);
    Units(n - k);
  }

  lemma SeenBound(n: nat, k: nat, seen: nat, outside: nat)
    requires 0 < k <= n && seen - k <= outside
    ensures Times(n - k + 1, seen) <= Times(n - k + 1, k) + Times(n, outside)
  {
    hide Times;
    var gap := n - k + 1;
    if seen <= k {
      TimesMono(gap, seen, k);
    } else {
      Distribute(gap, k, seen - k);
      Commute(gap, seen - k);
      TimesMono(seen - k, gap, n);
      Commute(seen - k, n);
      TimesMono(n, seen - k, outside);
    }
  }

  lemma Distribute(c: nat, a: nat, b: nat)
    ensures Times(c, a + b) == Times(c, a) + Times(c, b)
  {
  }

  lemma Rotate(a: nat, b: nat, c: nat)
    ensures Times(a, Times(b, c)) == Times(c, Times(b, a))
  {
    assert a * (b * c) == (a * b) * c;
    assert c * (b * a) == (b * a) * c;
  }

  lemma Commute(a: nat, b: nat)
    ensures Times(a, b) == Times(b, a)
  {
  }

  lemma Units(a: nat)
    ensures Times(1, a) == a && Times(0, a) == 0
  {
  }

  lemma TimesMono(c: nat, a: nat, b: nat)
    requires a <= b
    ensures Times(c, a) <= Times(c, b)
  {
  }

  /** Translated requests of a run that had to walk. */
  ghost function TlbMisses(n: LineCount, mem: PhysMem, events: seq<Event>): nat {
    if events == [] then 0
    else
      var before, e := events[..|events| - 1], events[|events| - 1];
      var s := Run(n, mem, before);
      TlbMisses(n, mem, before)
      + if e.Request? && Ask(s.mem, s.tlb, e.vaddr).result.Ok? && !Ask(s.mem, s.tlb, e.vaddr).hit then 1 else 0
  }

  lemma {:induction false} TlbMissesAreLru(n: LineCount, mem: PhysMem, events: seq<Event>)
    ensures TlbMisses(n, mem, events) == LruMisses(Translated(n, mem, events), n)
  {
    if events != [] {
      var before, e := events[..|events| - 1], events[|events| - 1];
      TlbMissesAreLru(n, mem, before);
      var s, trace := Run(n, mem, before), Translated(n, mem, before);
      if e.Request? && Ask(s.mem, s.tlb, e.vaddr).result.Ok? {
        HitIffRecent(n, mem, before, e.vaddr);
        assert Translated(n, mem, events)[..|trace|] == trace;
      }
    }
  }

  /** The TLB's misses against those of any k-line demand TLB serving the same requests. */
  lemma TlbIsCompetitive(n: LineCount, k: nat, mem: PhysMem, events: seq<Event>, contents: seq<set<Bits36>>)
    requires 0 < k <= n && DemandStore(Translated(n, mem, events), contents, k)
    ensures var rival := DemandMisses(Translated(n, mem, events), contents);
      && (n - k + 1) * TlbMisses(n, mem, events) <= n * rival + (n - k) * (k - 1)
      && (k == n ==> TlbMisses(n, mem, events) <= n * rival)
  {
    TlbMissesAreLru(n, mem, events);
    LruIsCompetitive(Translated(n, mem, events), contents, n, k);
  }
}
