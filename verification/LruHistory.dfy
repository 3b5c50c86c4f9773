/**
 * With least-recently-used replacement, each first-level set holds exactly the
 * four lines of the set used last, and a line's age is the number of distinct
 * lines of its set used since.
 */
module LruHistory {
  import opened Machine
  import opened FlatMemory
  import opened Recency
  import opened CacheSets
  import opened LruAges
  import opened ExclusiveCache
  import opened TransparentMemory

  /** Way w holds line n, given that n belongs to the set. */
  ghost predicate Keeps(s: CacheSet, n: LineNo, w: nat) {
    Holds(s, Tag(L1, n), w)
  }

  ghost predicate Kept(s: CacheSet, n: LineNo) {
    exists w :: Keeps(s, n, w)
  }

  ghost predicate WayExact(s: CacheSet, trace: seq<LineNo>, w: nat)
    requires w < |s|
  {
    if s[w].v then w < Count(trace) && s[w].age < |s| && s[w].age < Count(trace) && TagFits(L1, s[w].tag)
    else Count(trace) <= w && s[w].age == Count(trace)
  }

  ghost predicate LineExact(s: CacheSet, trace: seq<LineNo>, n: LineNo) {
    && (forall w: nat :: Keeps(s, n, w) ==> n in trace && s[w].age == Depth(trace, n))
    && (forall x: nat, y: nat :: Keeps(s, n, x) && Keeps(s, n, y) ==> x == y)
    && (n in trace && Depth(trace, n) < |s| ==> Kept(s, n))
  }

  /**
   * Set i after the uses in trace: the valid ways are a prefix as long as there
   * are distinct lines to fill it; they hold the lines used last, aged by depth.
   */
  ghost predicate Tracks(s: CacheSet, i: nat, trace: seq<LineNo>) {
    && (forall n :: n in trace ==> Index(L1, n) == i)
    && (forall w :: 0 <= w < |s| ==> WayExact(s, trace, w))
    && (forall n: LineNo :: Index(L1, n) == i ==> LineExact(s, trace, n))
  }

  lemma SameName(n: LineNo, m: LineNo)
    requires Index(L1, n) == Index(L1, m) && Tag(L1, n) == Tag(L1, m)
    ensures n == m
  {
  }

  /** Every depth below the number of distinct values is some value's depth. */
  lemma SomeoneAt(trace: seq<LineNo>, d: nat) returns (n: LineNo)
    requires d < Count(trace)
    ensures n in trace && Depth(trace, n) == d
  {
    var values: seq<nat> := trace;
    var order := Order(values);
    OrderDistinct(values);
    DistinctCount(order);
    assert Elements(order) == Elements(values);
    OrderIsHistory(values, |order| - 1 - d);
    assert order[|order| - 1 - d] in trace;
    n := order[|order| - 1 - d];
  }

  /** A refreshed line gets depth 0, and the lines it passes are those used since. */
  lemma RefreshLine(s: CacheSet, trace: seq<LineNo>, n: LineNo, w: nat, m: LineNo)
    requires LineExact(s, trace, n) && LineExact(s, trace, m) && Keeps(s, n, w)
    requires m != n ==> Tag(L1, m) != Tag(L1, n)
    ensures LineExact(Refreshed(s, w), trace + [n], m)
  {
    hide Index, Tag, Depth;
    var r := Refreshed(s, w);
    DepthStep(trace, n, m);
    assert forall x: nat :: Keeps(r, m, x) <==> Keeps(s, m, x);
    if Kept(s, m) {
      var x :| Keeps(s, m, x);
      assert Keeps(r, m, x);
    }
    assert m == n ==> Keeps(r, m, w);
  }

  lemma RefreshTracks(s: CacheSet, i: nat, trace: seq<LineNo>, n: LineNo, w: nat)
    requires Tracks(s, i, trace) && Index(L1, n) == i && Keeps(s, n, w)
    ensures Tracks(Refreshed(s, w), i, trace + [n])
  {
    hide Index, Tag, Depth, Count, LineExact;
    assert n in trace by { assert LineExact(s, trace, n); NeedsTrace(s, trace, n, w); }
    CountStep(trace, n);
    var r := Refreshed(s, w);
    forall x | 0 <= x < |s| ensures WayExact(r, trace + [n], x) {
      assert WayExact(s, trace, x) && WayExact(s, trace, w);
    }
    forall m: LineNo | Index(L1, m) == i ensures LineExact(r, trace + [n], m) {
      if Tag(L1, m) == Tag(L1, n) { SameName(m, n); }
      RefreshLine(s, trace, n, w, m);
    }
  }

  lemma NeedsTrace(s: CacheSet, trace: seq<LineNo>, n: LineNo, w: nat)
    requires LineExact(s, trace, n) && Keeps(s, n, w)
    ensures n in trace && s[w].age == Depth(trace, n)
  {
  }

  /** A line not in the set is new, or was pushed out by at least as many others as there are ways. */
  lemma JoinLine(s: CacheSet, trace: seq<LineNo>, n: LineNo, w: nat, r: CacheSet, m: LineNo)
    requires LineExact(s, trace, n) && LineExact(s, trace, m) && !Kept(s, n)
    requires m != n ==> Tag(L1, m) != Tag(L1, n)
    requires w < |s| == |r| && r[w].v && r[w].tag == Tag(L1, n) && r[w].age == 0
    requires forall x :: 0 <= x < |s| && x != w ==>
      r[x].v == s[x].v && r[x].tag == s[x].tag && (s[x].v ==> r[x].age == s[x].age + 1)
    requires forall x :: 0 <= x < |s| && s[x].v ==> s[x].age < |s|
    requires s[w].v ==> Keeps(s, m, w) ==> s[w].age + 1 == |s|
    ensures LineExact(r, trace + [n], m)
  {
    hide Index, Tag, Depth;
    DepthStep(trace, n, m);
    if m == n {
      assert Keeps(r, n, w);
      assert forall x: nat :: Keeps(r, n, x) && x != w ==> Keeps(s, n, x);
    } else {
      assert forall x: nat :: Keeps(r, m, x) <==> Keeps(s, m, x) && x != w;
      if Kept(s, m) {
        var x :| Keeps(s, m, x);
        assert x != w ==> Keeps(r, m, x);
      }
    }
  }

  lemma LineInWay(s: CacheSet, i: nat, trace: seq<LineNo>, w: nat) returns (n: LineNo)
    requires Tracks(s, i, trace) && i < 64 && w < |s| && s[w].v
    ensures Index(L1, n) == i && Keeps(s, n, w) && n in trace && s[w].age == Depth(trace, n)
  {
    hide Index, Tag, Depth, Count;
    assert WayExact(s, trace, w);
    n := Join(L1, s[w].tag, i);
    Unnaming(L1, s[w].tag, i);
    assert LineExact(s, trace, n);
  }

  /** Filling starts where the distinct lines end; a full set's oldest way is one younger than its size. */
  lemma ChosenWay(s: CacheSet, i: nat, trace: seq<LineNo>, w: nat)
    requires s != [] && Tracks(s, i, trace) && i < 64 && w == Chosen(s)
    ensures !s[w].v ==> w == Count(trace)
    ensures s[w].v ==> s[w].age == |s| - 1 && forall x :: 0 <= x < |s| && x != w ==> s[x].v && s[x].age < |s| - 1
  {
    hide Index, Tag, Depth, Count, LineExact;
    assert forall x :: 0 <= x < |s| ==> WayExact(s, trace, x);
    if !s[w].v {
      assert FirstInvalid(s) == Some(w) && WayExact(s, trace, w);
      var k := Count(trace);
      assert k < |s| ==> WayExact(s, trace, k) && !s[k].v;
    } else {
      assert WayExact(s, trace, |s| - 1);
      OldestAge(s, i, trace, w);
      var m := LineInWay(s, i, trace, w);
      forall x | 0 <= x < |s| && x != w ensures s[x].v && s[x].age < |s| - 1 {
        var m' := LineInWay(s, i, trace, x);
        OneWay(s, trace, m, w, x);
        DepthStep(trace, m, m');
      }
    }
  }

  lemma OneWay(s: CacheSet, trace: seq<LineNo>, n: LineNo, x: nat, y: nat)
    requires Tracks(s, Index(L1, n), trace)
    ensures Keeps(s, n, x) && Keeps(s, n, y) ==> x == y
  {
    assert LineExact(s, trace, n);
  }

  lemma OldestAge(s: CacheSet, i: nat, trace: seq<LineNo>, w: nat)
    requires s != [] && Tracks(s, i, trace) && |s| <= Count(trace) && IsOldest(s, w) && s[w].v
    ensures s[w].age == |s| - 1
  {
    hide Index, Tag, Depth, Count;
    assert WayExact(s, trace, w);
    var m := SomeoneAt(trace, |s| - 1);
    assert LineExact(s, trace, m);
  }

  lemma PlaceTracks(s: CacheSet, i: nat, trace: seq<LineNo>, n: LineNo, w: nat, line: seq<Word>)
    requires s != [] && Tracks(s, i, trace) && i < 64 && Index(L1, n) == i && !Kept(s, n) && w == Chosen(s)
    ensures Tracks(Placed(s, w, Tag(L1, n), line), i, trace + [n])
  {
    hide Index, Tag, Depth, Count, LineExact, Kept;
    var r := Placed(s, w, Tag(L1, n), line);
    ChosenWay(s, i, trace, w);
    CountStep(trace, n);
    Naming(L1, n);
    NotInTrace(s, i, trace, n);
    forall x | 0 <= x < |s|
      ensures WayExact(r, trace + [n], x)
      ensures x != w ==>
        && r[x].v == s[x].v && r[x].tag == s[x].tag
        && (s[x].v ==> r[x].age == s[x].age + 1 && s[x].age < |s|)
    {
      assert WayExact(s, trace, x) && WayExact(s, trace, w);
    }
    forall m: LineNo | Index(L1, m) == i ensures LineExact(r, trace + [n], m) {
      if Tag(L1, m) == Tag(L1, n) { SameName(m, n); }
      JoinLine(s, trace, n, w, r, m);
    }
  }

  lemma NotInTrace(s: CacheSet, i: nat, trace: seq<LineNo>, n: LineNo)
    requires Tracks(s, i, trace) && Index(L1, n) == i && !Kept(s, n)
    ensures Count(trace) < |s| ==> n !in trace
    ensures n in trace ==> |s| <= Depth(trace, n)
  {
    hide Index, Tag, Kept;
    assert LineExact(s, trace, n);
    DepthBound(trace, n);
  }

  /** The way a line would enter the first level by is the LRU one. */
  ghost predicate LruChoice(st: State, n: LineNo, c: Choice)
    requires StateOk(st)
  {
    c.way1 == Chosen(st.l1[Index(L1, n)])
  }

  ghost predicate LruChoices(mem: Memory, reqs: seq<Request>) {
    reqs != [] ==>
      var before, r := reqs[..|reqs| - 1], reqs[|reqs| - 1];
      LruChoices(mem, before) && LruChoice(Run(mem, before), LineOf(r.op.a), r.choice)
  }

  /** The lines of set i in order of access; writing a byte reads the word first. */
  function Uses(reqs: seq<Request>, i: nat): (trace: seq<LineNo>) {
    if reqs == [] then []
    else
      var op := reqs[|reqs| - 1].op;
      var trace := Uses(reqs[..|reqs| - 1], i);
      var n := LineOf(op.a);
      if Index(L1, n) != i then trace
      else if op.WriteByte? then trace + [n] + [n]
      else trace + [n]
  }

  function Used(trace: seq<LineNo>, n: LineNo, i: nat): seq<LineNo> {
    if Index(L1, n) == i then trace + [n] else trace
  }

  lemma KeptIsPresent(t: Table, n: LineNo)
    requires TableOk(L1, t)
    ensures Kept(t[Index(L1, n)], n) <==> Present(L1, t, n)
  {
    hide Index, Tag;
    if Present(L1, t, n) {
      var w :| HoldsLine(L1, t, n, w);
      assert Keeps(t[Index(L1, n)], n, w);
    }
    if Kept(t[Index(L1, n)], n) {
      var w :| Keeps(t[Index(L1, n)], n, w);
      assert HoldsLine(L1, t, n, w);
    }
  }

  lemma BringTracks(st: State, n: LineNo, c: Choice, i: nat, trace: seq<LineNo>)
    requires StateOk(st) && i < 64 && Tracks(st.l1[i], i, trace)
    requires WayOf(L1, st.l1, n).None? ==> LruChoice(st, n, c)
    ensures Tracks(Bring(st, n, c).l1[i], i, Used(trace, n, i))
  {
    hide Index, Tag, Tracks;
    if Index(L1, n) == i {
      WayOfPresent(L1, st.l1, n);
      KeptIsPresent(st.l1, n);
      match WayOf(L1, st.l1, n)
      case Some(w) => RefreshTracks(st.l1[i], i, trace, n, w);
      case None => PlaceTracks(st.l1[i], i, trace, n, c.way1, FetchedLine(st, n));
    }
  }

  lemma OverwriteTracks(st: State, a: Word, word: Word, i: nat, trace: seq<LineNo>)
    requires StateOk(st) && i < 64 && Tracks(st.l1[i], i, trace)
    ensures Tracks(Overwrite(st, a, word).l1[i], i, trace)
  {
    hide Index, Tag, Depth, Count;
    var s, s' := st.l1[i], Overwrite(st, a, word).l1[i];
    assert forall w :: 0 <= w < |s| ==> s'[w].v == s[w].v && s'[w].age == s[w].age && s'[w].tag == s[w].tag;
    forall w | 0 <= w < |s'| ensures WayExact(s', trace, w) {
      assert WayExact(s, trace, w);
    }
    forall n: LineNo | Index(L1, n) == i ensures LineExact(s', trace, n) {
      assert LineExact(s, trace, n);
      assert forall w: nat :: Keeps(s', n, w) <==> Keeps(s, n, w);
      if Kept(s, n) {
        var w :| Keeps(s, n, w);
        assert Keeps(s', n, w);
      }
    }
  }

  lemma StepTracks(st: State, op: Op, c: Choice, i: nat, trace: seq<LineNo>)
    requires StateOk(st) && i < 64 && Tracks(st.l1[i], i, trace) && LruChoice(st, LineOf(op.a), c)
    ensures var once := Used(trace, LineOf(op.a), i);
      Tracks(Step(st, op, c).0.l1[i], i, if op.WriteByte? then Used(once, LineOf(op.a), i) else once)
  {
    hide Index, Tag, Tracks, Used, Bring, Overwrite, WordIn;
    var n, near := LineOf(op.a), Bring(st, LineOf(op.a), c);
    BringTracks(st, n, c, i, trace);
    match op {
      case ReadWord(a) =>
      case ReadByte(a) =>
      case WriteWord(a, w) => OverwriteTracks(near, a, w, i, Used(trace, n, i));
      case WriteByte(a, b) =>
        NearAfterBring(st, n, c);
        BringTracks(near, n, c, i, Used(trace, n, i));
        OverwriteTracks(Bring(near, n, c), a, SetByte(WordIn(near, a), a % 4, b), i, Used(Used(trace, n, i), n, i));
    }
  }

  /** Right after an access the line is in the first level, so a second access evicts nothing. */
  lemma NearAfterBring(st: State, n: LineNo, c: Choice)
    requires StateOk(st)
    ensures WayOf(L1, Bring(st, n, c).l1, n).Some?
  {
    hide Index, Tag;
    var near := Bring(st, n, c);
    WayOfPresent(L1, st.l1, n);
    WayOfPresent(L1, near.l1, n);
    match WayOf(L1, st.l1, n)
    case Some(w) => assert HoldsLine(L1, near.l1, n, w);
    case None => assert HoldsLine(L1, near.l1, n, c.way1);
  }

  lemma {:induction false} SetsTrackUses(mem: Memory, reqs: seq<Request>, i: nat)
    requires i < 64
    ensures LruChoices(mem, reqs) ==> Tracks(Run(mem, reqs).l1[i], i, Uses(reqs, i))
  {
    hide Index, Tag, Tracks, Step;
    if reqs == [] {
      FlushedTracks(mem, i);
    } else if LruChoices(mem, reqs) {
      var before, r := reqs[..|reqs| - 1], reqs[|reqs| - 1];
      SetsTrackUses(mem, before, i);
      StepTracks(Run(mem, before), r.op, r.choice, i, Uses(before, i));
    }
  }

  lemma FlushedTracks(mem: Memory, i: nat)
    requires i < 64
    ensures Tracks(Flushed(mem).l1[i], i, [])
  {
    assert Elements<nat>([]) == {};
  }

  /**
   * The first level as a history: a line is in it iff it was accessed and fewer than
   * four other lines of its set were accessed since; its age is the number of those;
   * and the valid ways of its set are a prefix, so the scan finds what is there.
   */
  lemma FirstLevelIsLru(mem: Memory, reqs: seq<Request>, n: LineNo, tag: nat)
    ensures LruChoices(mem, reqs) ==>
      var t, trace := Run(mem, reqs).l1, Uses(reqs, Index(L1, n));
      && (Present(L1, t, n) <==> n in trace && |Since(trace, n)| < 4)
      && (forall w: nat :: HoldsLine(L1, t, n, w) ==> t[Index(L1, n)][w].age == |Since(trace, n)|)
      && Scan(t[Index(L1, n)], tag) == Find(t[Index(L1, n)], tag)
  {
    hide Index, Tag, Tracks, Kept, Depth, Run, Uses;
    var i, t := Index(L1, n), Run(mem, reqs).l1;
    SetsTrackUses(mem, reqs, i);
    if LruChoices(mem, reqs) {
      KeptIsPresent(t, n);
      WhatTracksMeans(t[i], i, Uses(reqs, i), n, tag);
      DepthIsSince(Uses(reqs, i), n);
      forall w: nat | HoldsLine(L1, t, n, w) ensures t[i][w].age == |Since(Uses(reqs, i), n)| {
        assert Keeps(t[i], n, w);
      }
    }
  }

  lemma WhatTracksMeans(s: CacheSet, i: nat, trace: seq<LineNo>, n: LineNo, tag: nat)
    requires Tracks(s, i, trace) && Index(L1, n) == i
    ensures Kept(s, n) <==> n in trace && Depth(trace, n) < |s|
    ensures forall w: nat :: Keeps(s, n, w) ==> s[w].age == Depth(trace, n)
    ensures Scan(s, tag) == Find(s, tag)
  {
    hide Index, Tag, Count, Depth;
    assert LineExact(s, trace, n);
    if Kept(s, n) {
      var w :| Keeps(s, n, w);
      assert WayExact(s, trace, w);
    }
    ScanFindsIff(s, tag);
    if Find(s, tag).Some? {
      assert WayExact(s, trace, Find(s, tag).value);
      forall j | 0 <= j < Find(s, tag).value ensures s[j].v {
        assert WayExact(s, trace, j);
      }
    }
  }

  lemma DepthIsSince(trace: seq<LineNo>, n: LineNo)
    ensures Depth(trace, n) == |Since(trace, n)|
  {
    assert Since<nat>(trace, n) == Since<LineNo>(trace, n);
  }
}
