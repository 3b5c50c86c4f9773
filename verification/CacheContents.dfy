/**
 * What the first level holds after a run of the code as written, told from the
 * addresses accessed alone: which accesses hit, and what a full set gives up.
 */
module CacheContents {
  import opened Machine
  import opened FlatMemory
  import opened CacheSets
  import opened ExclusiveCache
  import opened CacheAsWritten
  import opened CacheWritesAsWritten
  import LruAges
  import LruHistory

  /** The first m distinct lines of a trace, in order. */
  function Firsts(trace: seq<LineNo>, m: nat): (f: seq<LineNo>)
    ensures |f| <= m && forall n :: n in f ==> n in trace
  {
    if trace == [] then []
    else
      var f, n := Firsts(trace[..|trace| - 1], m), trace[|trace| - 1];
      if n in f || |f| == m then f else f + [n]
  }

  /** The last line of a trace that is none of these. */
  function LastOther(trace: seq<LineNo>, f: seq<LineNo>): (n: Option<LineNo>)
    ensures n.Some? ==> n.value in trace && n.value !in f
    ensures n.None? ==> forall x :: x in trace ==> x in f
  {
    if trace == [] then None
    else if trace[|trace| - 1] !in f then Some(trace[|trace| - 1])
    else LastOther(trace[..|trace| - 1], f)
  }

  /** The first three lines of the set stay for good; a fourth is whatever other line came last. */
  function Stayed(trace: seq<LineNo>): seq<LineNo> {
    var f := Firsts(trace, 3);
    match LastOther(trace, f) case Some(n) => f + [n] case None => f
  }

  lemma {:induction false} FewAreAll(trace: seq<LineNo>, m: nat)
    requires |Firsts(trace, m)| < m
    ensures forall n :: n in trace ==> n in Firsts(trace, m)
  {
    if trace != [] {
      FewAreAll(trace[..|trace| - 1], m);
    }
  }

  lemma NoOther(trace: seq<LineNo>, f: seq<LineNo>)
    requires forall n :: n in trace ==> n in f
    ensures LastOther(trace, f).None?
  {
  }

  /** One more line: nothing new, or a new one into the first free place, else into the last. */
  lemma StayedStep(trace: seq<LineNo>, n: LineNo)
    ensures var s := Stayed(trace);
      && |s| <= 4
      && Stayed(trace + [n]) == if n in s then s else if |s| < 4 then s + [n] else s[3 := n]
  {
    var t, f := trace + [n], Firsts(trace, 3);
    assert t[..|trace|] == trace;
    if |f| < 3 {
      FewAreAll(trace, 3);
      NoOther(trace, f);
      FewOrFull(t);
    }
  }

  lemma FewOrFull(t: seq<LineNo>)
    requires t != [] && |Firsts(t[..|t| - 1], 3)| < 3
    ensures LastOther(t, Firsts(t, 3)).None?
  {
    var f := Firsts(t[..|t| - 1], 3);
    FewAreAll(t[..|t| - 1], 3);
    assert forall n :: n in t ==> n in t[..|t| - 1] || n == t[|t| - 1];
    NoOther(t, Firsts(t, 3));
  }

  /** Set i holds these lines, in these ways, and no others. */
  ghost predicate InWays(s: CacheSet, i: nat, ways: seq<LineNo>) {
    && |ways| <= |s| == 4
    && (forall j, k :: 0 <= j < k < |ways| ==> ways[j] != ways[k])
    && (forall j :: 0 <= j < |ways| ==> Index(L1, ways[j]) == i && s[j].v && s[j].tag == Tag(L1, ways[j]))
    && forall j :: |ways| <= j < 4 ==> !s[j].v
  }

  lemma SameWays(s: CacheSet, r: CacheSet, i: nat, ways: seq<LineNo>)
    requires InWays(s, i, ways) && |r| == 4
    requires forall w :: 0 <= w < 4 ==> r[w].v == s[w].v && r[w].tag == s[w].tag
    ensures InWays(r, i, ways)
  {
  }

  lemma {:induction false} ScanWaysFrom(s: CacheSet, i: nat, ways: seq<LineNo>, n: LineNo, j: nat)
    requires InWays(s, i, ways) && Index(L1, n) == i && j <= |ways| && n !in ways[..j]
    ensures match ScanFrom(s, Tag(L1, n), j)
      case Some(w) => w < |ways| && ways[w] == n
      case None => n !in ways
    decreases |ways| - j
  {
    hide Index, Tag;
    if j == |ways| {
      assert ways[..j] == ways;
    } else {
      Naming(L1, n);
      Naming(L1, ways[j]);
      if ways[j] != n {
        assert ways[..j + 1] == ways[..j] + [ways[j]];
        ScanWaysFrom(s, i, ways, n, j + 1);
      }
    }
  }

  /** A line of the set is found iff it is one of those. */
  lemma ScanWays(s: CacheSet, i: nat, ways: seq<LineNo>, n: LineNo)
    requires InWays(s, i, ways) && Index(L1, n) == i
    ensures match Scan(s, Tag(L1, n)) case Some(w) => w < |ways| && ways[w] == n case None => n !in ways
  {
    ScanWaysFrom(s, i, ways, n, 0);
  }

  lemma RoomInWays(s: CacheSet, i: nat, ways: seq<LineNo>)
    requires InWays(s, i, ways)
    ensures FirstInvalid(s) == if |ways| < 4 then Some(|ways|) else None
    ensures |ways| < 4 ==> Chosen(s) == |ways|
  {
    UniqueInvalid(s, if |ways| < 4 then Some(|ways|) else None);
  }

  /** r is s with line n put in way w. */
  lemma PutInWays(s: CacheSet, r: CacheSet, i: nat, ways: seq<LineNo>, n: LineNo, w: nat)
    requires InWays(s, i, ways) && Index(L1, n) == i && n !in ways && |r| == 4
    requires w == |ways| || w == 3 == |ways| - 1
    requires w < 4 && r[w].v && r[w].tag == Tag(L1, n)
    requires forall x :: 0 <= x < 4 && x != w ==> r[x].v == s[x].v && r[x].tag == s[x].tag
    ensures InWays(r, i, if |ways| < 4 then ways + [n] else ways[3 := n])
  {
    hide Index, Tag;
  }

  // Runs of reads.

  /** The lines of set i read through one first level, in order. */
  function LinesRead(reqs: seq<Read>, access: Access, i: nat): seq<LineNo> {
    if reqs == [] then []
    else
      var before, r := LinesRead(reqs[..|reqs| - 1], access, i), reqs[|reqs| - 1];
      if r.access == access && Index(L1, LineOf(r.phy)) == i then before + [LineOf(r.phy)] else before
  }

  lemma ReadInWays(mem: Memory, t: Table, phy: Phy, ways: seq<LineNo>)
    requires TableOk(L1, t) && Ageless(t) && InWays(t[Index(L1, LineOf(phy))], Index(L1, LineOf(phy)), ways)
    ensures var i, n := Index(L1, LineOf(phy)), LineOf(phy);
      InWays(ReadL1(mem, t, phy)[i], i, if n in ways then ways else if |ways| < 4 then ways + [n] else ways[3 := n])
  {
    hide Index, Tag, RawLine;
    var n := LineOf(phy);
    var i := Index(L1, n);
    var s, r := t[i], ReadL1(mem, t, phy)[i];
    ScanWays(s, i, ways, n);
    RoomInWays(s, i, ways);
    if n in ways {
      SameWays(s, r, i, ways);
    } else {
      if |ways| == 4 {
        assert s[3].age == 0 && s[Oldest(s)].age == 0;
      }
      PutInWays(s, r, i, ways, n, Chosen(s));
    }
  }

  /** From flushed caches, after any reads, set i holds the lines that stayed. */
  lemma {:induction false} SetsAfterReads(mem: Memory, reqs: seq<Read>, access: Access, i: nat)
    requires i < 64
    ensures InWays(CacheAsWritten.Run(mem, reqs).L1Of(access)[i], i, Stayed(LinesRead(reqs, access, i)))
  {
    hide Index, Tag, ReadL1, Stayed, InWays;
    if reqs == [] {
      NothingInWays(access, i);
    } else {
      var before, r := reqs[..|reqs| - 1], reqs[|reqs| - 1];
      var h := CacheAsWritten.Run(mem, before);
      SetsAfterReads(mem, before, access, i);
      RunShape(mem, mem, before);
      NoSecondHit(mem, h, r);
      if r.access == access {
        var n := LineOf(r.phy);
        ReadsNeverAge(mem, before);
        if Index(L1, n) == i {
          ReadInWays(mem, h.L1Of(access), r.phy, Stayed(LinesRead(before, access, i)));
          StayedStep(LinesRead(before, access, i), n);
        } else {
          OtherSetKept(mem, h.L1Of(access), r.phy, i);
        }
      }
    }
  }

  lemma OtherSetKept(mem: Memory, t: Table, phy: Phy, i: nat)
    requires TableOk(L1, t) && i < 64 && Index(L1, LineOf(phy)) != i
    ensures ReadL1(mem, t, phy)[i] == t[i]
  {
    hide Index, Tag;
  }

  lemma NothingInWays(access: Access, i: nat)
    requires i < 64
    ensures InWays(Flushed().L1Of(access)[i], i, Stayed([]))
  {
  }

  /**
   * Which reads hit: those of the first three lines of their set that were read, and of
   * the last one read besides those.
   */
  lemma ReadHitsIff(mem: Memory, reqs: seq<Read>, r: Read)
    ensures var n := LineOf(r.phy);
      var trace := LinesRead(reqs, r.access, Index(L1, n));
      FirstLevelMiss(CacheAsWritten.Run(mem, reqs).L1Of(r.access), r.phy) <==>
        n !in Firsts(trace, 3) && LastOther(trace, Firsts(trace, 3)) != Some(n)
  {
    var n := LineOf(r.phy);
    var i := Index(L1, n);
    var trace := LinesRead(reqs, r.access, i);
    SetsAfterReads(mem, reqs, r.access, i);
    ScanWays(CacheAsWritten.Run(mem, reqs).L1Of(r.access)[i], i, Stayed(trace), n);
    InStayed(trace, n);
    hide Index, Tag, Firsts, LastOther, Stayed, LinesRead, CacheAsWritten.Run, InWays;
  }

  lemma InStayed(trace: seq<LineNo>, n: LineNo)
    ensures n in Stayed(trace) <==> n in Firsts(trace, 3) || LastOther(trace, Firsts(trace, 3)) == Some(n)
  {
  }

  /** Every read that hits none of the lines its set still holds is at the start of a line. */
  predicate FetchesAligned(reqs: seq<Read>) {
    reqs != [] ==>
      var before, r := reqs[..|reqs| - 1], reqs[|reqs| - 1];
      && FetchesAligned(before)
      && (LineOf(r.phy) !in Stayed(LinesRead(before, r.access, Index(L1, LineOf(r.phy)))) ==> r.phy % 16 == 0)
  }

  lemma {:induction false} FetchesAreMisses(mem: Memory, reqs: seq<Read>)
    ensures FetchesAligned(reqs) <==> MissesAligned(mem, reqs)
  {
    hide FirstLevelMiss, Index;
    if reqs != [] {
      FetchesAreMisses(mem, reqs[..|reqs| - 1]);
      ReadHitsIff(mem, reqs[..|reqs| - 1], reqs[|reqs| - 1]);
    }
  }

  /** So a run of reads is right on every memory iff its addresses, and nothing else, say so. */
  lemma ReadsRightByAddress(reqs: seq<Read>)
    ensures (forall mem: Memory :: AllReadsRight(mem, reqs)) <==> FetchesAligned(reqs)
  {
    hide AllReadsRight;
    var mem := Zeroes();
    FetchesAreMisses(mem, reqs);
    ReadsRightIff(mem, reqs);
  }

  /** The address line n was last fetched at, through one first level. */
  function FetchedAt(reqs: seq<Read>, access: Access, n: LineNo): Phy {
    if reqs == [] then 0
    else
      var before, r := reqs[..|reqs| - 1], reqs[|reqs| - 1];
      if r.access == access && LineOf(r.phy) == n && n !in Stayed(LinesRead(before, access, Index(L1, n)))
      then r.phy else FetchedAt(before, access, n)
  }

  ghost predicate HoldsRaw(mem: Memory, s: CacheSet, n: LineNo, phy: Phy) {
    forall w: nat :: Holds(s, Tag(L1, n), w) ==> s[w].line == RawLine(mem, phy)
  }

  lemma ReadHoldsRaw(mem: Memory, t: Table, phy: Phy, ways: seq<LineNo>, n: LineNo, at: Phy)
    requires TableOk(L1, t) && Index(L1, n) == Index(L1, LineOf(phy))
    requires InWays(t[Index(L1, n)], Index(L1, n), ways)
    requires HoldsRaw(mem, t[Index(L1, n)], n, at)
    ensures HoldsRaw(mem, ReadL1(mem, t, phy)[Index(L1, n)], n, if LineOf(phy) == n && n !in ways then phy else at)
  {
    hide Index, Tag, RawLine;
    var i, m := Index(L1, n), LineOf(phy);
    ScanWays(t[i], i, ways, m);
    if m == n && n !in ways {
      NotInWays(t[i], i, ways, n);
    } else if m != n {
      Naming(L1, m);
      Naming(L1, n);
    }
  }

  lemma NotInWays(s: CacheSet, i: nat, ways: seq<LineNo>, n: LineNo)
    requires InWays(s, i, ways) && Index(L1, n) == i && n !in ways
    ensures forall w: nat :: !Holds(s, Tag(L1, n), w)
  {
    hide Index, Tag;
    Naming(L1, n);
    forall w: nat ensures !Holds(s, Tag(L1, n), w) {
      if w < |ways| { Naming(L1, ways[w]); }
    }
  }

  lemma {:induction false} LinesAreFetched(mem: Memory, reqs: seq<Read>, access: Access, n: LineNo)
    ensures HoldsRaw(mem, CacheAsWritten.Run(mem, reqs).L1Of(access)[Index(L1, n)], n, FetchedAt(reqs, access, n))
  {
    hide Index, Tag, ReadL1, Stayed, InWays, RawLine, HoldsRaw, LinesRead;
    var i := Index(L1, n);
    if reqs == [] {
      NothingHeld(mem, access, n);
    } else {
      var before, r := reqs[..|reqs| - 1], reqs[|reqs| - 1];
      var h := CacheAsWritten.Run(mem, before);
      LinesAreFetched(mem, before, access, n);
      RunShape(mem, mem, before);
      NoSecondHit(mem, h, r);
      if r.access == access {
        if Index(L1, LineOf(r.phy)) == i {
          SetsAfterReads(mem, before, access, i);
          ReadHoldsRaw(mem, h.L1Of(access), r.phy, Stayed(LinesRead(before, access, i)), n,
                       FetchedAt(before, access, n));
        } else {
          OtherSetKept(mem, h.L1Of(access), r.phy, i);
        }
      }
    }
  }

  lemma NothingHeld(mem: Memory, access: Access, n: LineNo)
    ensures HoldsRaw(mem, Flushed().L1Of(access)[Index(L1, n)], n, 0)
  {
  }

  /**
   * What every read returns, right or wrong: the word at its slot from the address its
   * line was fetched at, which is its own if it misses.
   */
  lemma ReadValue(mem: Memory, reqs: seq<Read>, r: Read)
    ensures var h, n := CacheAsWritten.Run(mem, reqs), LineOf(r.phy);
      var at := if n in Stayed(LinesRead(reqs, r.access, Index(L1, n))) then FetchedAt(reqs, r.access, n) else r.phy;
      ReadOutcome(mem, h.L1Of(r.access), h.l2, r.phy) == Value(WordAt(mem, at + 4 * Slot(r.phy)))
  {
    hide Index, CacheAsWritten.Run, Stayed, LinesRead, FetchedAt, InWays, HoldsRaw, ReadOutcome;
    var h, n := CacheAsWritten.Run(mem, reqs), LineOf(r.phy);
    RunShape(mem, mem, reqs);
    SetsAfterReads(mem, reqs, r.access, Index(L1, n));
    LinesAreFetched(mem, reqs, r.access, n);
    ValueRead(mem, h.L1Of(r.access), h.l2, r.phy, Stayed(LinesRead(reqs, r.access, Index(L1, n))),
              FetchedAt(reqs, r.access, n));
  }

  lemma ValueRead(mem: Memory, l1: Table, l2: Table, phy: Phy, ways: seq<LineNo>, at: Phy)
    requires TableOk(L1, l1) && TableOk(L2, l2) && Vacant(l2)
    requires var n := LineOf(phy);
      InWays(l1[Index(L1, n)], Index(L1, n), ways) && HoldsRaw(mem, l1[Index(L1, n)], n, at)
    ensures ReadOutcome(mem, l1, l2, phy) ==
      Value(WordAt(mem, (if LineOf(phy) in ways then at else phy) + 4 * Slot(phy)))
  {
    hide Index, Tag, InWays, RawLine, Slot, WordAt;
    var n := LineOf(phy);
    VacantMisses(l2, n);
    ScanWays(l1[Index(L1, n)], Index(L1, n), ways, n);
    RawWord(mem, at, Slot(phy));
    RawWord(mem, phy, Slot(phy));
  }

  lemma RawWord(mem: Memory, phy: Phy, j: nat)
    requires j < 4
    ensures RawLine(mem, phy)[j] == WordAt(mem, phy + 4 * j)
  {
  }

  // Runs of data reads and writes, until a write evicts.

  /** The lines of set i accessed, in order. */
  function LinesTouched(ops: seq<Op>, i: nat): seq<LineNo> {
    if ops == [] then []
    else
      var before, n := LinesTouched(ops[..|ops| - 1], i), LineOf(ops[|ops| - 1].phy);
      if Index(L1, n) == i then before + [n] else before
  }

  lemma FirstsStep(trace: seq<LineNo>, n: LineNo, m: nat)
    ensures var f := Firsts(trace, m);
      Firsts(trace + [n], m) == if n in f || |f| == m then f else f + [n]
  {
    assert (trace + [n])[..|trace|] == trace;
  }

  /** At most four distinct lines of the set. */
  predicate Few(trace: seq<LineNo>) {
    |Firsts(trace, 5)| <= 4
  }

  /** Whatever the access, a hit keeps a set's lines and a miss in a set with room adds one. */
  lemma StepInWays(st: DataState, op: Op, ways: seq<LineNo>)
    requires TablesOk(st) && Vacant(st.l2)
    requires InWays(st.l1[Index(L1, LineOf(op.phy))], Index(L1, LineOf(op.phy)), ways)
    requires LineOf(op.phy) in ways || |ways| < 4
    ensures var n := LineOf(op.phy);
      InWays(Step(st, op).0.l1[Index(L1, n)], Index(L1, n), if n in ways then ways else ways + [n])
  {
    hide Index, Tag, RawLine, StoreLine;
    var n := LineOf(op.phy);
    var i := Index(L1, n);
    var s, r := st.l1[i], Step(st, op).0.l1[i];
    VacantMisses(st.l2, n);
    ScanWays(s, i, ways, n);
    RoomInWays(s, i, ways);
    if n in ways {
      SameWays(s, r, i, ways);
    } else {
      PutInWays(s, r, i, ways, n, |ways|);
    }
  }

  lemma StepOtherSet(st: DataState, op: Op, i: nat)
    requires TablesOk(st) && i < 64 && Index(L1, LineOf(op.phy)) != i
    ensures Step(st, op).0.l1[i] == st.l1[i]
  {
    hide Index, Tag, RawLine, StoreLine;
  }

  lemma {:induction false} SetsAfterOps(mem: Memory, ops: seq<Op>, i: nat)
    requires i < 64 && Few(LinesTouched(ops, i))
    ensures InWays(DataRun(mem, ops).l1[i], i, Firsts(LinesTouched(ops, i), 5)) && Vacant(DataRun(mem, ops).l2)
  {
    hide Index, Tag, Step, InWays, Firsts, Vacant;
    RunsAlike(mem, ops, mem, ops);
    if ops == [] {
      NoneTouched(mem, i);
    } else {
      var before, op := ops[..|ops| - 1], ops[|ops| - 1];
      var n, trace := LineOf(op.phy), LinesTouched(before, i);
      FirstsStep(trace, n, 5);
      SetsAfterOps(mem, before, i);
      if Index(L1, n) == i {
        StepInWays(DataRun(mem, before), op, Firsts(trace, 5));
      } else {
        StepOtherSet(DataRun(mem, before), op, i);
      }
    }
  }

  lemma NoneTouched(mem: Memory, i: nat)
    requires i < 64
    ensures InWays(DataRun(mem, []).l1[i], i, Firsts([], 5))
  {
  }

  /**
   * Every access, aligned or not, read or write, leaves its line in the first level:
   * while a run has touched at most four lines of a set, an access to the set hits iff
   * its line is one of them.
   */
  lemma HitIffTouched(mem: Memory, ops: seq<Op>, phy: Phy)
    requires NoEviction(mem, ops) && Few(LinesTouched(ops, Index(L1, LineOf(phy))))
    ensures FirstLevelMiss(DataRun(mem, ops).l1, phy) <==>
      LineOf(phy) !in LinesTouched(ops, Index(L1, LineOf(phy)))
  {
    hide DataRun, NoEviction, Index, Tag;
    var n := LineOf(phy);
    var i := Index(L1, n);
    var trace := LinesTouched(ops, i);
    SetsAfterOps(mem, ops, i);
    ScanWays(DataRun(mem, ops).l1[i], i, Firsts(trace, 5), n);
    FewAreAll(trace, 5);
  }

  // Sets whose lines were all brought in by writes age as the policy says.

  /** The first access to each line of set i is a write. */
  predicate BroughtByWrites(ops: seq<Op>, i: nat) {
    ops != [] ==>
      var before, op := ops[..|ops| - 1], ops[|ops| - 1];
      && BroughtByWrites(before, i)
      && (Index(L1, LineOf(op.phy)) == i && !op.WriteAt? ==> LineOf(op.phy) in LinesTouched(before, i))
  }

  lemma TracksByShape(s: CacheSet, r: CacheSet, i: nat, trace: seq<LineNo>)
    requires LruHistory.Tracks(s, i, trace) && SameSet(s, r)
    ensures LruHistory.Tracks(r, i, trace)
  {
    forall w | 0 <= w < |r| ensures LruHistory.WayExact(r, trace, w) {
      assert LruHistory.WayExact(s, trace, w);
    }
    forall n: LineNo | Index(L1, n) == i ensures LruHistory.LineExact(r, trace, n) {
      assert LruHistory.LineExact(s, trace, n);
      assert forall w: nat :: LruHistory.Keeps(s, n, w) <==> LruHistory.Keeps(r, n, w);
    }
  }

  /** With valid ways in front and at most four lines ever, what was accessed is found and nothing else is. */
  lemma TrackedHits(s: CacheSet, i: nat, trace: seq<LineNo>, n: LineNo)
    requires |s| == 4 && LruHistory.Tracks(s, i, trace) && LruAges.Count(trace) <= 4 && Index(L1, n) == i
    ensures LruHistory.Kept(s, n) <==> n in trace
    ensures match Scan(s, Tag(L1, n)) case Some(w) => LruHistory.Keeps(s, n, w) && n in trace case None => n !in trace
  {
    hide Index, Tag, LruAges.Depth, LruAges.Count;
    assert LruHistory.LineExact(s, trace, n);
    LruAges.DepthBound(trace, n);
    forall w | 0 <= w < 4 ensures s[w].v <==> w < LruAges.Count(trace) {
      assert LruHistory.WayExact(s, trace, w);
    }
    ScanFindsIff(s, Tag(L1, n));
    if n in trace {
      var w :| LruHistory.Keeps(s, n, w);
      assert Find(s, Tag(L1, n)).Some?;
    }
    if Scan(s, Tag(L1, n)).Some? {
      assert LruHistory.Keeps(s, n, Scan(s, Tag(L1, n)).value);
    }
  }

  lemma HitTracks(st: DataState, op: Op, trace: seq<LineNo>)
    requires TablesOk(st)
    requires var n := LineOf(op.phy);
      LruHistory.Tracks(st.l1[Index(L1, n)], Index(L1, n), trace) && LruAges.Count(trace) <= 4 && n in trace
    ensures var n := LineOf(op.phy);
      LruHistory.Tracks(Step(st, op).0.l1[Index(L1, n)], Index(L1, n), trace + [n])
  {
    hide Index, Tag, RawLine, StoreLine, LruAges.Count, LruHistory.Tracks, Refreshed;
    var n := LineOf(op.phy);
    var i := Index(L1, n);
    var s, r := st.l1[i], Step(st, op).0.l1[i];
    TrackedHits(s, i, trace, n);
    var w := Scan(s, Tag(L1, n)).value;
    LruHistory.RefreshTracks(s, i, trace, n, w);
    if op.WriteAt? {
      RefreshedTag(s, w);
      RewriteShape(Refreshed(s, w), w, s[w].line[Slot(op.phy) := op.word]);
      TracksByShape(Refreshed(s, w), r, i, trace + [n]);
    }
  }

  lemma RefreshedTag(s: CacheSet, w: nat)
    requires w < |s|
    ensures Refreshed(s, w)[w] == s[w].(age := 0)
  {
  }

  /** Entering a line over its own refreshed entry changes its words only. */
  lemma RewriteShape(s: CacheSet, w: nat, line: seq<Word>)
    requires w < |s| && s[w].v && s[w].age == 0
    ensures SameSet(s, Entered(s, w, s[w].tag, line))
  {
  }

  lemma FillTracks(st: DataState, phy: Phy, word: Word, trace: seq<LineNo>)
    requires TablesOk(st) && Vacant(st.l2) && WriteStep(st, phy, word).1 != EvictingWrite
    requires var n := LineOf(phy);
      LruHistory.Tracks(st.l1[Index(L1, n)], Index(L1, n), trace) && LruAges.Count(trace) <= 4 && n !in trace
    ensures var n := LineOf(phy);
      && LruHistory.Tracks(WriteStep(st, phy, word).0.l1[Index(L1, n)], Index(L1, n), trace + [n])
      && LruAges.Count(trace + [n]) <= 4
  {
    hide Index, Tag, RawLine, StoreLine, LruAges.Count, LruHistory.Tracks;
    var n := LineOf(phy);
    var i := Index(L1, n);
    var s, r := st.l1[i], WriteStep(st, phy, word).0;
    VacantMisses(st.l2, n);
    TrackedHits(s, i, trace, n);
    var w, line := FirstInvalid(s).value, RawLine(r.mem, phy);
    LruHistory.ChosenWay(s, i, trace, w);
    LruAges.CountStep(trace, n);
    LruHistory.PlaceTracks(s, i, trace, n, w, line);
    assert r.l1[i] == Placed(s, w, Tag(L1, n), line);
  }

  /** Then, until a write evicts, each way's age is the number of distinct lines of the set accessed since. */
  lemma {:induction false} WritesTrackUses(mem: Memory, ops: seq<Op>, i: nat)
    requires i < 64 && NoEviction(mem, ops) && BroughtByWrites(ops, i)
    ensures LruHistory.Tracks(DataRun(mem, ops).l1[i], i, LinesTouched(ops, i))
    ensures LruAges.Count(LinesTouched(ops, i)) <= 4
  {
    hide Index, Tag, Step, LruHistory.Tracks, LruAges.Count, Vacant;
    if ops == [] {
      NoneTracked(mem, i);
    } else {
      var before, op := ops[..|ops| - 1], ops[|ops| - 1];
      var st, n, trace := DataRun(mem, before), LineOf(op.phy), LinesTouched(before, i);
      WritesTrackUses(mem, before, i);
      RunsAlike(mem, before, mem, before);
      if Index(L1, n) != i {
        StepOtherSet(st, op, i);
      } else if n in trace {
        HitTracks(st, op, trace);
        LruAges.CountStep(trace, n);
      } else {
        WriteIsStep(st, op);
        FillTracks(st, op.phy, op.word, trace);
      }
    }
  }

  lemma WriteIsStep(st: DataState, op: Op)
    requires TablesOk(st) && op.WriteAt?
    ensures Step(st, op) == WriteStep(st, op.phy, op.word)
  {
  }

  lemma NoneTracked(mem: Memory, i: nat)
    requires i < 64
    ensures LruHistory.Tracks(DataRun(mem, []).l1[i], i, []) && LruAges.Count([]) == 0
  {
  }

  /** The line entered is there, and what was there stays, unless it was in the way of greatest age. */
  lemma EnteredKeeps(s: CacheSet, i: nat, trace: seq<LineNo>, n: LineNo, m: LineNo, line: seq<Word>)
    requires |s| == 4 && i < 64 && LruHistory.Tracks(s, i, trace) && LruAges.Count(trace) <= 4
    requires n !in trace && Index(L1, n) == i == Index(L1, m)
    ensures LruHistory.Kept(Entered(s, Chosen(s), Tag(L1, n), line), m) <==>
      m == n || (m in trace && (LruAges.Count(trace) == 4 ==> LruAges.Depth(trace, m) < 3))
  {
    hide Index, Tag, LruAges.Count, LruAges.Depth, LruHistory.Kept;
    var w := Chosen(s);
    var r := Entered(s, w, Tag(L1, n), line);
    TrackedHits(s, i, trace, m);
    LruHistory.ChosenWay(s, i, trace, w);
    assert LruHistory.WayExact(s, trace, w);
    assert LruHistory.LineExact(s, trace, m);
    LruAges.DepthBound(trace, m);
    if m == n {
      KeptBy(r, n, w);
    } else {
      if Tag(L1, m) == Tag(L1, n) { LruHistory.SameName(m, n); }
      forall x: nat ensures LruHistory.Keeps(r, m, x) <==> LruHistory.Keeps(s, m, x) && x != w {
      }
      KeptOrNot(s, r, m, w);
    }
  }

  lemma KeptBy(s: CacheSet, n: LineNo, w: nat)
    ensures LruHistory.Keeps(s, n, w) ==> LruHistory.Kept(s, n)
  {
  }

  lemma KeptOrNot(s: CacheSet, r: CacheSet, m: LineNo, w: nat)
    requires forall x: nat :: LruHistory.Keeps(r, m, x) <==> LruHistory.Keeps(s, m, x) && x != w
    requires forall x: nat, y: nat :: LruHistory.Keeps(s, m, x) && LruHistory.Keeps(s, m, y) ==> x == y
    ensures LruHistory.Kept(r, m) <==> LruHistory.Kept(s, m) && !LruHistory.Keeps(s, m, w)
    ensures LruHistory.Kept(s, m) ==> exists x :: LruHistory.Keeps(s, m, x)
  {
    hide LruHistory.Keeps;
    if LruHistory.Kept(s, m) && !LruHistory.Keeps(s, m, w) {
      var x :| LruHistory.Keeps(s, m, x);
      assert LruHistory.Keeps(r, m, x);
    }
  }

  /** So when such a set is full, the next line read into it replaces the one least recently used. */
  lemma ReadReplacesLru(mem: Memory, ops: seq<Op>, phy: Phy, m: LineNo)
    requires NoEviction(mem, ops) && Index(L1, m) == Index(L1, LineOf(phy))
    requires BroughtByWrites(ops, Index(L1, LineOf(phy))) && LineOf(phy) !in LinesTouched(ops, Index(L1, LineOf(phy)))
    ensures var n, trace := LineOf(phy), LinesTouched(ops, Index(L1, LineOf(phy)));
      LruHistory.Kept(Step(DataRun(mem, ops), ReadAt(phy)).0.l1[Index(L1, n)], m) <==>
        m == n || (m in trace && (LruAges.Count(trace) == 4 ==> LruAges.Depth(trace, m) < 3))
  {
    hide Index, Tag, RawLine, LruAges.Count, LruAges.Depth, DataRun, NoEviction, BroughtByWrites;
    var n := LineOf(phy);
    var i, st := Index(L1, n), DataRun(mem, ops);
    var s, trace := st.l1[i], LinesTouched(ops, i);
    WritesTrackUses(mem, ops, i);
    RunsAlike(mem, ops, mem, ops);
    VacantMisses(st.l2, n);
    TrackedHits(s, i, trace, n);
    EnteredKeeps(s, i, trace, n, m, RawLine(st.mem, phy));
  }
}
