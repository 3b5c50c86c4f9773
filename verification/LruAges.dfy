/**
 * What the ages of one set mean: the age of a way is the number of distinct ways
 * touched since it was, from a flushed set on, under hits and installations that
 * fill the first invalid way or replace the oldest line.
 */
module LruAges {
  import opened Machine
  import opened Recency
  import opened CacheSets

  datatype SetOp = HitWay(way: nat) | Install(tag: nat, line: seq<Word>)

  /** A hit needs a valid way; anything else leaves the set alone. */
  function Touches(s: CacheSet, op: SetOp): (w: Option<nat>)
    requires s != []
    ensures w.Some? ==> w.value < |s|
  {
    match op
    case HitWay(w) => if w < |s| && s[w].v then Some(w) else None
    case Install(_, _) => Some(Chosen(s))
  }

  function SetStep(s: CacheSet, op: SetOp): (r: CacheSet)
    requires s != []
    ensures |r| == |s|
  {
    match Touches(s, op)
    case None => s
    case Some(w) => if op.HitWay? then Refreshed(s, w) else Placed(s, w, op.tag, op.line)
  }

  function SetRun(ways: nat, ops: seq<SetOp>): (s: CacheSet)
    requires 0 < ways
    ensures |s| == ways
  {
    if ops == [] then seq(ways, _ => EMPTY_ENTRY)
    else SetStep(SetRun(ways, ops[..|ops| - 1]), ops[|ops| - 1])
  }

  function Touched(ways: nat, ops: seq<SetOp>): seq<nat>
    requires 0 < ways
  {
    if ops == [] then []
    else
      var before := Touched(ways, ops[..|ops| - 1]);
      match Touches(SetRun(ways, ops[..|ops| - 1]), ops[|ops| - 1])
      case Some(w) => before + [w]
      case None => before
  }

  /** Stack distance: how many distinct ways were touched since w was (all of them, if it never was). */
  ghost function Depth(trace: seq<nat>, w: nat): nat {
    |Since(trace, w)|
  }

  ghost function Count(trace: seq<nat>): nat {
    |Elements(trace)|
  }

  lemma CountStep(trace: seq<nat>, y: nat)
    ensures Count(trace + [y]) == Count(trace) + if y in trace then 0 else 1
  {
    assert Elements(trace + [y]) == Elements(trace) + {y};
    if y in trace {
      assert Elements(trace) + {y} == Elements(trace);
    }
  }

  lemma DepthStep(trace: seq<nat>, y: nat, w: nat)
    ensures Depth(trace + [y], w) ==
      if w == y then 0
      else if y in trace && Depth(trace, y) < Depth(trace, w) then Depth(trace, w)
      else Depth(trace, w) + 1
    ensures y in trace && w != y ==> Depth(trace, y) != Depth(trace, w)
  {
    SinceStep(trace, y, w);
    if w != y {
      if y in trace {
        DistanceIsRecency(trace, w, y);
      } else {
        assert y !in Since(trace, w);
      }
      var since := Since(trace, w);
      assert y in since ==> since + {y} == since;
      assert y !in since ==> |since + {y}| == |since| + 1;
    }
  }

  lemma DepthBound(trace: seq<nat>, w: nat)
    ensures if w in trace then Depth(trace, w) < Count(trace) else Depth(trace, w) == Count(trace)
  {
    if w in trace {
      assert w !in Since(trace, w);
      ProperSubsetSize(Since(trace, w), Elements(trace), w);
    } else {
      SinceAbsent(trace, w);
    }
  }

  /**
   * The first k ways are the touched ones and the valid ones; every age is a stack
   * distance (k for a way never touched), so no age is ever out of its bit field.
   */
  ghost predicate Exact(s: CacheSet, trace: seq<nat>) {
    && Count(trace) <= |s|
    && (forall w: nat :: w in trace <==> w < Count(trace))
    && (forall w :: 0 <= w < |s| ==> (s[w].v <==> w < Count(trace)))
    && (forall w :: 0 <= w < |s| ==> s[w].age == Depth(trace, w) < |s|)
  }

  /** Touching a valid way keeps ages exact: the ways it passes are those touched before it. */
  lemma RefreshExact(s: CacheSet, trace: seq<nat>, w: nat)
    requires Exact(s, trace) && w < |s| && s[w].v
    ensures Exact(Refreshed(s, w), trace + [w])
  {
    hide Depth, Count;
    assert w in trace;
    var r := Refreshed(s, w);
    DepthStep(trace, w, w);
    CountStep(trace, w);
    forall i | 0 <= i < |s| ensures r[i].age == Depth(trace + [w], i) < |s| {
      DepthStep(trace, w, i);
    }
  }

  /** Filling the first invalid way keeps ages exact, and no valid age wraps. */
  lemma JoinExact(s: CacheSet, trace: seq<nat>, w: nat, e: Entry)
    requires Exact(s, trace) && FirstInvalid(s) == Some(w) && e.v
    ensures Exact(Joined(s[w := e], w), trace + [w])
    ensures forall i :: 0 <= i < w ==> Joined(s[w := e], w)[i].age == s[i].age + 1
  {
    hide Depth, Count;
    var k := Count(trace);
    assert k < |s| ==> !s[k].v;
    assert w == k && w !in trace;
    var r := Joined(s[w := e], w);
    DepthStep(trace, w, w);
    CountStep(trace, w);
    forall i | 0 <= i < |s|
      ensures r[i].age == Depth(trace + [w], i) < |s|
      ensures i < w ==> r[i].age == s[i].age + 1
    {
      DepthStep(trace, w, i);
      DepthBound(trace, i);
      assert i in trace <==> i < k;
    }
  }

  lemma PlaceExact(s: CacheSet, trace: seq<nat>, w: nat, tag: nat, line: seq<Word>)
    requires s != [] && Exact(s, trace) && w == Chosen(s)
    ensures Exact(Placed(s, w, tag, line), trace + [w])
  {
    hide Depth, Count, Refreshed, Joined;
    if s[w].v {
      var s' := s[w := Entry(true, s[w].age, tag, line)];
      assert Exact(s', trace);
      RefreshExact(s', trace, w);
    } else {
      JoinExact(s, trace, w, Entry(true, 0, tag, line));
    }
  }

  /** Age is stack distance, on every run of one set. */
  lemma {:induction false} AgeIsStackDistance(ways: nat, ops: seq<SetOp>)
    requires 0 < ways
    ensures Exact(SetRun(ways, ops), Touched(ways, ops))
  {
    hide Exact, Refreshed, Placed, Chosen;
    if ops == [] {
      ExactStart(ways);
    } else {
      var before, op := ops[..|ops| - 1], ops[|ops| - 1];
      AgeIsStackDistance(ways, before);
      var s, trace := SetRun(ways, before), Touched(ways, before);
      if Touches(s, op).Some? {
        if op.HitWay? {
          RefreshExact(s, trace, Touches(s, op).value);
        } else {
          PlaceExact(s, trace, Touches(s, op).value, op.tag, op.line);
        }
      }
    }
  }

  lemma ExactStart(ways: nat)
    requires 0 < ways
    ensures Exact(SetRun(ways, []), [])
  {
    assert Elements<nat>([]) == {};
    forall w: nat ensures Depth([], w) == 0 {
      DepthBound([], w);
    }
  }

  /**
   * On every run: the valid ways form a prefix, so the early exit of the scan loses
   * nothing; valid ages are all different and below the number of valid ways; and
   * in a full set every other way was touched since the one LRU picks.
   */
  lemma AgePolicy(ways: nat, ops: seq<SetOp>, tag: nat)
    requires 0 < ways
    ensures var s, trace := SetRun(ways, ops), Touched(ways, ops);
      && (forall i, j :: 0 <= i < j < ways && s[j].v ==> s[i].v && s[i].age != s[j].age)
      && (forall i :: 0 <= i < ways && s[i].v ==> s[i].age < |Elements(trace)| <= ways)
      && Scan(s, tag) == Find(s, tag)
      && (FirstInvalid(s).None? ==> forall i :: 0 <= i < ways && i != Oldest(s) ==> i in Since(trace, Oldest(s)))
  {
    AgeIsStackDistance(ways, ops);
    var s, trace := SetRun(ways, ops), Touched(ways, ops);
    ExactScan(s, trace, tag);
    ExactAges(s, trace);
    ExactVictim(s, trace);
  }

  lemma ExactScan(s: CacheSet, trace: seq<nat>, tag: nat)
    requires Exact(s, trace)
    ensures Scan(s, tag) == Find(s, tag)
  {
    ScanFindsIff(s, tag);
  }

  lemma ExactAges(s: CacheSet, trace: seq<nat>)
    requires Exact(s, trace)
    ensures forall i, j :: 0 <= i < j < |s| && s[j].v ==> s[i].v && s[i].age != s[j].age
    ensures forall i :: 0 <= i < |s| && s[i].v ==> s[i].age < |Elements(trace)| <= |s|
  {
    forall i, j | 0 <= i < j < |s| && s[j].v ensures s[i].age != s[j].age {
      DepthStep(trace, j, i);
    }
    forall i | 0 <= i < |s| && s[i].v ensures s[i].age < |Elements(trace)| {
      DepthBound(trace, i);
    }
  }

  lemma ExactVictim(s: CacheSet, trace: seq<nat>)
    requires s != [] && Exact(s, trace)
    ensures FirstInvalid(s).None? ==> forall i :: 0 <= i < |s| && i != Oldest(s) ==> i in Since(trace, Oldest(s))
  {
    if FirstInvalid(s).None? {
      forall i | 0 <= i < |s| && i != Oldest(s) ensures i in Since(trace, Oldest(s)) {
        assert s[i].v && i in trace;
        DistanceIsRecency(trace, Oldest(s), i);
      }
    }
  }

  /** The way touched last has age 0. */
  lemma NewestWay(s: CacheSet, trace: seq<nat>) returns (w: nat)
    requires s != [] && Exact(s, trace) && s[0].v
    ensures w < |s| && s[w].v && s[w].age == 0
  {
    assert 0 in trace;
    w := trace[|trace| - 1];
    assert w in trace;
    assert trace == trace[..|trace| - 1] + [w];
    DepthStep(trace[..|trace| - 1], w, w);
  }

  /**
   * None of this survives a line leaving the set, as lines of the second level do: when
   * the hole it leaves in a full set is filled, the oldest line's age wraps to 0, and it
   * counts as the newest.
   */
  lemma HoleForgetsOldest(ways: nat, ops: seq<SetOp>, w: nat, tag: nat, line: seq<Word>)
    requires 0 < ways && w < ways && FirstInvalid(SetRun(ways, ops)).None? && w != Oldest(SetRun(ways, ops))
    ensures var s := SetRun(ways, ops);
      var hole := Refreshed(s, w)[w := Refreshed(s, w)[w].(v := false)];
      Chosen(hole) == w && Placed(hole, w, tag, line)[Oldest(s)].age == 0
  {
    var s, trace := SetRun(ways, ops), Touched(ways, ops);
    AgeIsStackDistance(ways, ops);
    OldestIsLast(s, trace);
    var hole := Refreshed(s, w)[w := Refreshed(s, w)[w].(v := false)];
    UniqueInvalid(hole, Some(w));
  }

  /** In a full set all ways were touched, and every other one since the oldest. */
  lemma OldestIsLast(s: CacheSet, trace: seq<nat>)
    requires s != [] && Exact(s, trace) && FirstInvalid(s).None?
    ensures s[Oldest(s)].age == |s| - 1
  {
    var o := Oldest(s);
    ExactVictim(s, trace);
    SubsetSize(Below(|s|) - {o}, Since(trace, o));
  }

  ghost function Below(n: nat): (r: set<nat>)
    ensures |r| == n && forall i: nat :: i in r <==> i < n
  {
    if n == 0 then {} else Below(n - 1) + {n - 1}
  }
}
