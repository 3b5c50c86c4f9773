/**
 * The documented policy of the data caches: a 4-way, 64-set first level and an
 * 8-way, 512-set second level that holds only what the first level evicts, both
 * written through. The ways replaced are given by a Choice, so that what is
 * proved here holds for any victim selection.
 */
module ExclusiveCache {
  import opened Machine
  import opened FlatMemory
  import opened CacheSets

  datatype Level = L1 | L2

  function Lines(level: Level): nat {
    match level case L1 => 64 case L2 => 512
  }

  function Ways(level: Level): nat {
    match level case L1 => 4 case L2 => 8
  }

  function Index(level: Level, n: LineNo): (i: nat)
    ensures i < Lines(level)
  {
    match level case L1 => n % 64 case L2 => n % 512
  }

  function Tag(level: Level, n: LineNo): nat {
    match level case L1 => n / 64 case L2 => n / 512
  }

  /** The tag field is 22 bits wide in the first level and 19 in the second. */
  predicate TagFits(level: Level, tag: nat) {
    match level case L1 => tag < 0x40_0000 case L2 => tag < 0x8_0000
  }

  function Join(level: Level, tag: nat, index: nat): (n: LineNo)
    requires TagFits(level, tag) && index < Lines(level)
  {
    match level case L1 => tag * 64 + index case L2 => tag * 512 + index
  }

  /** Tag and index name a line, at either level. */
  lemma Naming(level: Level, n: LineNo)
    ensures TagFits(level, Tag(level, n)) && Join(level, Tag(level, n), Index(level, n)) == n
  {
  }

  /** The four bits below select a byte; 6 or 9 bits of index and the tag follow. */
  lemma AddressParts(a: Word)
    ensures a == 16 * (64 * Tag(L1, LineOf(a)) + Index(L1, LineOf(a))) + a % 16 && Index(L1, LineOf(a)) < 64
    ensures a == 16 * (512 * Tag(L2, LineOf(a)) + Index(L2, LineOf(a))) + a % 16 && Index(L2, LineOf(a)) < 512
  {
    var n := a / 16;
  }

  lemma Unnaming(level: Level, tag: nat, index: nat)
    requires TagFits(level, tag) && index < Lines(level)
    ensures Tag(level, Join(level, tag, index)) == tag && Index(level, Join(level, tag, index)) == index
  {
  }

  /** A first-level line's second-level tag and index, in the shifts and masks of the code. */
  lemma Renaming(tag: nat, index: nat)
    requires TagFits(L1, tag) && index < 64
    ensures var n := Join(L1, tag, index);
      Tag(L2, n) == tag / 8 && Index(L2, n) == tag % 8 * 64 + index
  {
    assert tag * 64 + index == 512 * (tag / 8) + (tag % 8 * 64 + index);
  }

  type Table = seq<CacheSet>

  ghost predicate TableOk(level: Level, t: Table) {
    && |t| == Lines(level)
    && (forall i :: 0 <= i < |t| ==> |t[i]| == Ways(level))
    && forall i, w :: 0 <= i < |t| && 0 <= w < |t[i]| && t[i][w].v ==>
         TagFits(level, t[i][w].tag) && |t[i][w].line| == LINE_WORDS
  }

  ghost predicate HoldsLine(level: Level, t: Table, n: LineNo, w: nat)
    requires |t| == Lines(level)
  {
    Holds(t[Index(level, n)], Tag(level, n), w)
  }

  ghost predicate Present(level: Level, t: Table, n: LineNo)
    requires |t| == Lines(level)
  {
    exists w :: HoldsLine(level, t, n, w)
  }

  /** The line a way holds, if any. */
  function Occupant(level: Level, t: Table, index: nat, w: nat): Option<LineNo>
    requires TableOk(level, t) && index < |t| && w < |t[index]|
  {
    if t[index][w].v then Some(Join(level, t[index][w].tag, index)) else None
  }

  lemma OccupantHolds(level: Level, t: Table, index: nat, w: nat, n: LineNo)
    requires TableOk(level, t) && index < |t| && w < |t[index]|
    ensures Occupant(level, t, index, w) == Some(n) <==> Index(level, n) == index && HoldsLine(level, t, n, w)
  {
    hide Index, Tag, Join;
    Naming(level, n);
    if t[index][w].v {
      Unnaming(level, t[index][w].tag, index);
    }
  }

  // The three things that happen to a table.

  function Touch(level: Level, t: Table, n: LineNo, w: nat): (r: Table)
    requires TableOk(level, t) && w < Ways(level)
    ensures TableOk(level, r)
  {
    t[Index(level, n) := Refreshed(t[Index(level, n)], w)]
  }

  function Put(level: Level, t: Table, n: LineNo, w: nat, line: seq<Word>): (r: Table)
    requires TableOk(level, t) && w < Ways(level) && |line| == LINE_WORDS
    ensures TableOk(level, r)
  {
    t[Index(level, n) := Placed(t[Index(level, n)], w, Tag(level, n), line)]
  }

  function Drop(level: Level, t: Table, n: LineNo, w: nat): (r: Table)
    requires TableOk(level, t) && w < Ways(level)
    ensures TableOk(level, r)
  {
    var s := t[Index(level, n)];
    t[Index(level, n) := s[w := s[w].(v := false)]]
  }

  /** No line is in two ways of the table, and each line held is memory's. */
  ghost predicate Sound(level: Level, t: Table, mem: Memory) {
    && TableOk(level, t)
    && (forall n: LineNo, x: nat, y: nat :: HoldsLine(level, t, n, x) && HoldsLine(level, t, n, y) ==> x == y)
    && (forall n: LineNo, x: nat :: HoldsLine(level, t, n, x) ==> t[Index(level, n)][x].line == LineAt(mem, n))
  }

  lemma TouchSound(level: Level, t: Table, n: LineNo, w: nat, mem: Memory)
    requires Sound(level, t, mem) && w < Ways(level)
    ensures var r := Touch(level, t, n, w);
      Sound(level, r, mem) && forall m: LineNo, x: nat :: HoldsLine(level, r, m, x) <==> HoldsLine(level, t, m, x)
  {
    hide Index, Tag;
    var r := Touch(level, t, n, w);
    assert forall m: LineNo, x: nat :: HoldsLine(level, r, m, x) <==> HoldsLine(level, t, m, x);
  }

  lemma DropAt(level: Level, t: Table, n: LineNo, w: nat, mem: Memory, m: LineNo, x: nat)
    requires Sound(level, t, mem) && HoldsLine(level, t, n, w) && w < Ways(level)
    ensures HoldsLine(level, Drop(level, t, n, w), m, x) <==> m != n && HoldsLine(level, t, m, x)
  {
    hide Index, Tag;
    if m == n {
      assert HoldsLine(level, t, n, x) ==> x == w;
    } else if Index(level, m) == Index(level, n) && x == w {
      Naming(level, m);
      Naming(level, n);
    }
  }

  /** Dropping a line takes it, and only it, out of the table. */
  lemma DropSound(level: Level, t: Table, n: LineNo, w: nat, mem: Memory)
    requires Sound(level, t, mem) && HoldsLine(level, t, n, w) && w < Ways(level)
    ensures var r := Drop(level, t, n, w);
      && Sound(level, r, mem)
      && forall m: LineNo, x: nat :: HoldsLine(level, r, m, x) <==> m != n && HoldsLine(level, t, m, x)
  {
    hide Index, Tag;
    var r := Drop(level, t, n, w);
    forall m: LineNo, x: nat ensures HoldsLine(level, r, m, x) <==> m != n && HoldsLine(level, t, m, x) {
      DropAt(level, t, n, w, mem, m, x);
    }
  }

  /** r is t with line n entered in way w; ages are left open. */
  ghost predicate EntersAt(level: Level, t: Table, r: Table, n: LineNo, w: nat, line: seq<Word>)
    requires |t| == Lines(level)
  {
    var i := Index(level, n);
    && |r| == |t| && (forall k :: 0 <= k < |t| && k != i ==> r[k] == t[k])
    && |r[i]| == |t[i]| && w < |t[i]|
    && r[i][w].v && r[i][w].tag == Tag(level, n) && r[i][w].line == line
    && forall x :: 0 <= x < |t[i]| && x != w ==>
         r[i][x].v == t[i][x].v && r[i][x].tag == t[i][x].tag && r[i][x].line == t[i][x].line
  }

  lemma EnterAt(level: Level, t: Table, r: Table, n: LineNo, w: nat, line: seq<Word>, mem: Memory,
                m: LineNo, x: nat)
    requires Sound(level, t, mem) && w < Ways(level) && !Present(level, t, n)
    requires EntersAt(level, t, r, n, w, line)
    ensures HoldsLine(level, r, m, x) <==>
      (m == n && x == w) || (HoldsLine(level, t, m, x) && Occupant(level, t, Index(level, n), w) != Some(m))
    ensures HoldsLine(level, r, m, x) ==>
      r[Index(level, m)][x].line == if m == n then line else t[Index(level, m)][x].line
  {
    hide Index, Tag, Join;
    OccupantHolds(level, t, Index(level, n), w, m);
    Naming(level, n);
    Naming(level, m);
    assert !HoldsLine(level, t, n, x);
    assert HoldsLine(level, t, m, x) && HoldsLine(level, t, m, w) ==> x == w;
  }

  /** Entering an absent line replaces what its way held, and nothing else. */
  lemma EnterSound(level: Level, t: Table, r: Table, n: LineNo, w: nat, line: seq<Word>, mem: Memory)
    requires Sound(level, t, mem) && w < Ways(level) && !Present(level, t, n) && line == LineAt(mem, n)
    requires EntersAt(level, t, r, n, w, line)
    ensures Sound(level, r, mem)
    ensures forall m: LineNo, x: nat :: HoldsLine(level, r, m, x) <==>
      (m == n && x == w) || (HoldsLine(level, t, m, x) && Occupant(level, t, Index(level, n), w) != Some(m))
  {
    hide Index, Tag;
    forall m: LineNo, x: nat ensures HoldsLine(level, r, m, x) <==>
      (m == n && x == w) || (HoldsLine(level, t, m, x) && Occupant(level, t, Index(level, n), w) != Some(m))
    {
      EnterAt(level, t, r, n, w, line, mem, m, x);
    }
    Naming(level, n);
    assert TableOk(level, r);
    forall m: LineNo, x: nat | HoldsLine(level, r, m, x)
      ensures r[Index(level, m)][x].line == LineAt(mem, m)
    {
      EnterAt(level, t, r, n, w, line, mem, m, x);
    }
    forall m: LineNo, x: nat, y: nat | HoldsLine(level, r, m, x) && HoldsLine(level, r, m, y) ensures x == y {
      EnterAt(level, t, r, n, w, line, mem, m, x);
      EnterAt(level, t, r, n, w, line, mem, m, y);
      assert m == n ==> !HoldsLine(level, t, n, x) && !HoldsLine(level, t, n, y);
    }
  }

  lemma PutEnters(level: Level, t: Table, n: LineNo, w: nat, line: seq<Word>)
    requires TableOk(level, t) && w < Ways(level) && |line| == LINE_WORDS
    ensures EntersAt(level, t, Put(level, t, n, w, line), n, w, line)
  {
  }

  datatype State = State(mem: Memory, l1: Table, l2: Table)

  ghost predicate StateOk(st: State) {
    TableOk(L1, st.l1) && TableOk(L2, st.l2)
  }

  /** Sound levels that share no line. */
  ghost predicate Inv(st: State) {
    && Sound(L1, st.l1, st.mem) && Sound(L2, st.l2, st.mem)
    && forall n: LineNo :: !(Present(L1, st.l1, n) && Present(L2, st.l2, n))
  }

  type Way1 = w: nat | w < 4
  type Way2 = w: nat | w < 8

  /** Where a line entering each level goes, should one have to. */
  datatype Choice = Choice(way1: Way1, way2: Way2)

  function WayOf(level: Level, t: Table, n: LineNo): (w: Option<nat>)
    requires TableOk(level, t)
    ensures w.Some? ==> w.value < Ways(level)
  {
    Find(t[Index(level, n)], Tag(level, n))
  }

  lemma WayOfPresent(level: Level, t: Table, n: LineNo)
    requires TableOk(level, t)
    ensures WayOf(level, t, n).Some? <==> Present(level, t, n)
    ensures WayOf(level, t, n).Some? ==> HoldsLine(level, t, n, WayOf(level, t, n).value)
  {
    if WayOf(level, t, n).Some? {
      assert HoldsLine(level, t, n, WayOf(level, t, n).value);
    }
    if Present(level, t, n) {
      var w :| HoldsLine(level, t, n, w);
      assert Holds(t[Index(level, n)], Tag(level, n), w);
    }
  }

  /** Valid ways come first in every set. */
  ghost predicate Prefixed(t: Table) {
    forall i :: 0 <= i < |t| ==> PrefixedSet(t[i])
  }

  /** With valid ways in front, the scan as written finds what is there. */
  lemma ScanIsFind(t: Table, n: LineNo)
    requires TableOk(L1, t) && Prefixed(t)
    ensures Scan(t[Index(L1, n)], Tag(L1, n)) == WayOf(L1, t, n)
  {
    ScanFindsIff(t[Index(L1, n)], Tag(L1, n));
    assert PrefixedSet(t[Index(L1, n)]);
  }

  /** The second level once line n has moved out of it, if it was there. */
  function L2Without(st: State, n: LineNo): (t: Table)
    requires StateOk(st)
    ensures TableOk(L2, t)
  {
    match WayOf(L2, st.l2, n)
    case Some(w) => Drop(L2, Touch(L2, st.l2, n, w), n, w)
    case None => st.l2
  }

  function FetchedLine(st: State, n: LineNo): (line: seq<Word>)
    requires StateOk(st)
    ensures |line| == LINE_WORDS
  {
    match WayOf(L2, st.l2, n)
    case Some(w) => st.l2[Index(L2, n)][w].line
    case None => LineAt(st.mem, n)
  }

  /** The line an access to n evicts from the first level. */
  function Victim(st: State, n: LineNo, c: Choice): Option<LineNo>
    requires StateOk(st)
  {
    if WayOf(L1, st.l1, n).Some? then None else Occupant(L1, st.l1, Index(L1, n), c.way1)
  }

  /** The line that in turn drops out of the second level. */
  function Lost(st: State, n: LineNo, c: Choice): Option<LineNo>
    requires StateOk(st)
  {
    match Victim(st, n, c)
    case Some(v) => Occupant(L2, L2Without(st, n), Index(L2, v), c.way2)
    case None => None
  }

  /**
   * One data access to line n: a first-level hit is refreshed; otherwise the line
   * moves in from the second level or memory, and what it replaces moves to the
   * second level.
   */
  function Bring(st: State, n: LineNo, c: Choice): (r: State)
    requires StateOk(st)
    ensures StateOk(r) && r.mem == st.mem
  {
    match WayOf(L1, st.l1, n)
    case Some(w) => st.(l1 := Touch(L1, st.l1, n, w))
    case None =>
      var l2 := L2Without(st, n);
      State(st.mem, Put(L1, st.l1, n, c.way1, FetchedLine(st, n)),
            match Victim(st, n, c)
            case Some(v) => Put(L2, l2, v, c.way2, st.l1[Index(L1, n)][c.way1].line)
            case None => l2)
  }

  lemma FetchSound(st: State, n: LineNo)
    requires Inv(st)
    ensures var t := L2Without(st, n);
      && Sound(L2, t, st.mem) && FetchedLine(st, n) == LineAt(st.mem, n)
      && forall m: LineNo, x: nat :: HoldsLine(L2, t, m, x) <==> m != n && HoldsLine(L2, st.l2, m, x)
  {
    hide Index, Tag;
    WayOfPresent(L2, st.l2, n);
    if WayOf(L2, st.l2, n).Some? {
      var w := WayOf(L2, st.l2, n).value;
      TouchSound(L2, st.l2, n, w, st.mem);
      DropSound(L2, Touch(L2, st.l2, n, w), n, w, st.mem);
    }
  }

  /** The victim was in the first level only, and its line is memory's. */
  lemma VictimFacts(st: State, n: LineNo, c: Choice)
    requires Inv(st) && Victim(st, n, c).Some?
    ensures var v := Victim(st, n, c).value;
      && v != n && HoldsLine(L1, st.l1, v, c.way1) && !Present(L2, L2Without(st, n), v)
      && st.l1[Index(L1, n)][c.way1].line == LineAt(st.mem, v)
  {
    hide Index, Tag;
    var v := Victim(st, n, c).value;
    OccupantHolds(L1, st.l1, Index(L1, n), c.way1, v);
    WayOfPresent(L1, st.l1, n);
    FetchSound(st, n);
    assert Present(L1, st.l1, v);
    assert !Present(L2, st.l2, v);
    PresentAfterFetch(st, n, v);
  }

  /** What each level holds after an access. */
  ghost predicate Conserved(st: State, n: LineNo, c: Choice, m: LineNo)
    requires StateOk(st)
  {
    var r := Bring(st, n, c);
    && (Present(L1, r.l1, m) <==> m == n || (Present(L1, st.l1, m) && Victim(st, n, c) != Some(m)))
    && (Present(L2, r.l2, m) <==>
          Victim(st, n, c) == Some(m) || (Present(L2, st.l2, m) && m != n && Lost(st, n, c) != Some(m)))
  }

  lemma BringHit(st: State, n: LineNo, c: Choice)
    requires Inv(st) && Present(L1, st.l1, n)
    ensures Inv(Bring(st, n, c)) && forall m: LineNo :: Conserved(st, n, c, m)
  {
    hide Index, Tag;
    WayOfPresent(L1, st.l1, n);
    TouchSound(L1, st.l1, n, WayOf(L1, st.l1, n).value, st.mem);
    var r := Bring(st, n, c);
    forall m: LineNo ensures Present(L1, r.l1, m) <==> Present(L1, st.l1, m) {
      if Present(L1, st.l1, m) {
        var x :| HoldsLine(L1, st.l1, m, x);
        assert HoldsLine(L1, r.l1, m, x);
      }
    }
  }

  lemma PresentAfterPut(level: Level, t: Table, r: Table, n: LineNo, w: nat, gone: Option<LineNo>, m: LineNo)
    requires |t| == |r| == Lines(level)
    requires forall k: LineNo, x: nat :: HoldsLine(level, r, k, x) <==>
      (k == n && x == w) || (HoldsLine(level, t, k, x) && gone != Some(k))
    ensures Present(level, r, m) <==> m == n || (Present(level, t, m) && gone != Some(m))
  {
    hide Index, Tag;
    if m == n {
      assert HoldsLine(level, r, m, w);
    } else if Present(level, t, m) {
      var x :| HoldsLine(level, t, m, x);
      assert HoldsLine(level, r, m, x) <==> gone != Some(m);
    }
  }

  lemma PresentAfterFetch(st: State, n: LineNo, m: LineNo)
    requires Inv(st)
    ensures Present(L2, L2Without(st, n), m) <==> m != n && Present(L2, st.l2, m)
  {
    hide Index, Tag;
    FetchSound(st, n);
    if m != n && Present(L2, st.l2, m) {
      var x :| HoldsLine(L2, st.l2, m, x);
      assert HoldsLine(L2, L2Without(st, n), m, x);
    }
  }

  lemma BringMiss(st: State, n: LineNo, c: Choice)
    requires Inv(st) && !Present(L1, st.l1, n)
    ensures Inv(Bring(st, n, c)) && forall m: LineNo :: Conserved(st, n, c, m)
  {
    hide Index, Tag;
    WayOfPresent(L1, st.l1, n);
    FetchSound(st, n);
    var r, l2, victim := Bring(st, n, c), L2Without(st, n), Victim(st, n, c);
    PutEnters(L1, st.l1, n, c.way1, FetchedLine(st, n));
    EnterSound(L1, st.l1, r.l1, n, c.way1, FetchedLine(st, n), st.mem);
    if victim.Some? {
      VictimFacts(st, n, c);
      PutEnters(L2, l2, victim.value, c.way2, st.l1[Index(L1, n)][c.way1].line);
      EnterSound(L2, l2, r.l2, victim.value, c.way2, st.l1[Index(L1, n)][c.way1].line, st.mem);
    }
    forall m: LineNo ensures Conserved(st, n, c, m) {
      PresentAfterPut(L1, st.l1, r.l1, n, c.way1, victim, m);
      PresentAfterFetch(st, n, m);
      if victim.Some? {
        PresentAfterPut(L2, l2, r.l2, victim.value, c.way2, Lost(st, n, c), m);
      }
    }
    forall m: LineNo ensures !(Present(L1, r.l1, m) && Present(L2, r.l2, m)) {
      assert Conserved(st, n, c, m);
    }
  }

  /**
   * Exclusivity and conservation, for any victim choice: no line is ever in two
   * places; the first level gains the accessed line; the second level gains only
   * the line evicted from the first, and at most one line leaves the pair.
   */
  lemma AccessConserves(st: State, n: LineNo, c: Choice)
    requires Inv(st)
    ensures Inv(Bring(st, n, c)) && Present(L1, Bring(st, n, c).l1, n)
    ensures forall m: LineNo :: Conserved(st, n, c, m)
    ensures forall m: LineNo ::
      var r := Bring(st, n, c);
      (Present(L1, r.l1, m) || Present(L2, r.l2, m)) <==>
        m == n || ((Present(L1, st.l1, m) || Present(L2, st.l2, m)) && Lost(st, n, c) != Some(m))
  {
    assert StateOk(st);
    hide Index, Tag, Bring, Victim, Lost;
    if Present(L1, st.l1, n) {
      BringHit(st, n, c);
    } else {
      BringMiss(st, n, c);
    }
    assert Conserved(st, n, c, n);
    if Lost(st, n, c).Some? {
      LostIsElsewhere(st, n, c);
    }
    if Victim(st, n, c).Some? {
      VictimFacts(st, n, c);
    }
    forall m: LineNo
      ensures var r := Bring(st, n, c);
        (Present(L1, r.l1, m) || Present(L2, r.l2, m)) <==>
          m == n || ((Present(L1, st.l1, m) || Present(L2, st.l2, m)) && Lost(st, n, c) != Some(m))
    {
      assert Conserved(st, n, c, m);
    }
  }

  /** The line that drops out is neither the accessed line nor in the first level. */
  lemma LostIsElsewhere(st: State, n: LineNo, c: Choice)
    requires Inv(st) && Lost(st, n, c).Some?
    ensures var l := Lost(st, n, c).value;
      l != n && !Present(L1, st.l1, l) && Present(L2, st.l2, l)
  {
    hide Index, Tag;
    var v, l := Victim(st, n, c).value, Lost(st, n, c).value;
    FetchSound(st, n);
    OccupantHolds(L2, L2Without(st, n), Index(L2, v), c.way2, l);
    assert HoldsLine(L2, st.l2, l, c.way2);
  }
}
