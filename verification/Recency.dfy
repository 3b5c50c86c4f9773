/**
 * Order of last use. Both the fully-associative TLB (over page numbers) and the
 * ages of a cache set (over ways) keep an LRU stack; this module says what that
 * stack is in terms of the history alone.
 */
module Recency {

  ghost predicate Distinct<T(!new)>(s: seq<T>) {
    forall i, j :: 0 <= i < j < |s| ==> s[i] != s[j]
  }

  ghost function Elements<T(!new)>(s: seq<T>): set<T> {
    set x | x in s
  }

  /** The values used after the last use of x; every value used, when x never was. */
  ghost function Since<T(!new)>(trace: seq<T>, x: T): set<T> {
    set j | 0 <= j < |trace| && x !in trace[j..] :: trace[j]
  }

  /** s without any occurrence of x, in the same order. */
  function Without<T(==,!new)>(s: seq<T>, x: T): (r: seq<T>)
    ensures forall y :: y in r <==> y in s && y != x
    ensures |r| <= |s|
  {
    if s == [] then []
    else if s[0] == x then Without(s[1..], x)
    else [s[0]] + Without(s[1..], x)
  }

  /** The distinct values of the trace, in order of last use, most recent last. */
  function Order<T(==,!new)>(trace: seq<T>): (r: seq<T>)
    ensures forall y :: y in r <==> y in trace
    ensures |r| <= |trace|
  {
    if trace == [] then []
    else
      var last := |trace| - 1;
      assert trace == trace[..last] + [trace[last]];
      Without(Order(trace[..last]), trace[last]) + [trace[last]]
  }

  /** The last min(n, |s|) values of s. */
  function Newest<T(!new)>(s: seq<T>, n: nat): (r: seq<T>)
    ensures |r| == if |s| < n then |s| else n
    ensures forall i :: 0 <= i < |r| ==> r[i] == s[|s| - |r| + i]
  {
    if |s| <= n then s else s[|s| - n..]
  }

  /** One step of an n-place LRU store: a hit moves x to the end, a miss drops the oldest if full. */
  function LruStep<T(==,!new)>(held: seq<T>, x: T, n: nat): seq<T>
  {
    if x in held then Without(held, x) + [x]
    else if |held| < n then held + [x]
    else if held == [] then []
    else held[1..] + [x]
  }

  lemma {:induction false} WithoutAbsent<T(!new)>(s: seq<T>, x: T)
    requires x !in s
    ensures Without(s, x) == s
  {
    if s != [] {
      WithoutAbsent(s[1..], x);
    }
  }

  lemma {:induction false} WithoutAppend<T(!new)>(s: seq<T>, t: seq<T>, x: T)
    ensures Without(s + t, x) == Without(s, x) + Without(t, x)
  {
    if s == [] {
      assert s + t == t;
    } else {
      assert (s + t)[1..] == s[1..] + t;
      WithoutAppend(s[1..], t, x);
    }
  }

  /** Removing from a duplicate-free sequence takes out exactly one position. */
  lemma {:induction false} WithoutAt<T(!new)>(s: seq<T>, p: nat)
    requires Distinct(s) && p < |s|
    ensures Without(s, s[p]) == s[..p] + s[p + 1..]
  {
    if p == 0 {
      WithoutAbsent(s[1..], s[0]);
    } else {
      var t := s[1..];
      assert Without(s, s[p]) == [s[0]] + Without(t, t[p - 1]);
      WithoutAt(t, p - 1);
      assert s[..p] == [s[0]] + t[..p - 1];
      assert s[p + 1..] == t[p..];
    }
  }

  lemma WithoutDistinct<T(!new)>(s: seq<T>, x: T)
    requires Distinct(s)
    ensures Distinct(Without(s, x))
  {
    if x in s {
      var p :| 0 <= p < |s| && s[p] == x;
      WithoutAt(s, p);
    } else {
      WithoutAbsent(s, x);
    }
  }

  lemma {:induction false} OrderDistinct<T(!new)>(trace: seq<T>)
    ensures Distinct(Order(trace))
  {
    if trace != [] {
      var last := |trace| - 1;
      OrderDistinct(trace[..last]);
      var older := Without(Order(trace[..last]), trace[last]);
      WithoutDistinct(Order(trace[..last]), trace[last]);
      assert Order(trace) == older + [trace[last]] && trace[last] !in older;
    }
  }

  lemma SinceStep<T(!new)>(trace: seq<T>, y: T, x: T)
    ensures Since(trace + [y], x) == if x == y then {} else Since(trace, x) + {y}
  {
    var t := trace + [y];
    assert forall j :: 0 <= j < |trace| ==> t[j..] == trace[j..] + [y];
    assert t[|trace|..] == [y];
    if x != y {
      forall z | z in Since(trace, x) + {y} ensures z in Since(t, x) {
        if z in Since(trace, x) {
          var j :| 0 <= j < |trace| && x !in trace[j..] && trace[j] == z;
          assert x !in t[j..] && t[j] == z;
        } else {
          assert x !in t[|trace|..] && t[|trace|] == z;
        }
      }
    }
  }

  lemma SinceAbsent<T(!new)>(trace: seq<T>, x: T)
    requires x !in trace
    ensures Since(trace, x) == Elements(trace)
  {
    forall y | y in trace ensures y in Since(trace, x) {
      var j :| 0 <= j < |trace| && trace[j] == y;
      assert x !in trace[j..];
    }
  }

  lemma SinceNests<T(!new)>(trace: seq<T>, x: T, y: T)
    requires y in Since(trace, x)
    ensures Since(trace, y) <= Since(trace, x) - {y}
  {
    var m :| 0 <= m < |trace| && x !in trace[m..] && trace[m] == y;
    forall z | z in Since(trace, y) ensures z in Since(trace, x) {
      var j :| 0 <= j < |trace| && y !in trace[j..] && trace[j] == z;
      assert forall i :: j <= i < |trace| ==> trace[i] in trace[j..];
      assert trace[j..] == trace[m..][j - m..];
    }
  }

  /** Of two values, one used, the later one was used since the other. */
  lemma {:induction false} OneWasLater<T(!new)>(trace: seq<T>, x: T, y: T)
    requires x != y && y in trace
    ensures y in Since(trace, x) || x in Since(trace, y)
  {
    var last := |trace| - 1;
    assert trace == trace[..last] + [trace[last]];
    SinceStep(trace[..last], trace[last], x);
    SinceStep(trace[..last], trace[last], y);
    if trace[last] != x && trace[last] != y {
      OneWasLater(trace[..last], x, y);
    }
  }

  /** Stack distances order values by last use, without ties. */
  lemma DistanceIsRecency<T(!new)>(trace: seq<T>, x: T, y: T)
    requires x != y && y in trace
    ensures y in Since(trace, x) <==> |Since(trace, y)| < |Since(trace, x)|
    ensures y !in Since(trace, x) <==> |Since(trace, x)| < |Since(trace, y)|
  {
    OneWasLater(trace, x, y);
    if y in Since(trace, x) {
      SinceNests(trace, x, y);
      ProperSubsetSize(Since(trace, y), Since(trace, x), y);
    } else {
      SinceNests(trace, y, x);
      ProperSubsetSize(Since(trace, x), Since(trace, y), x);
    }
  }

  lemma {:induction false} ProperSubsetSize<T>(a: set<T>, b: set<T>, x: T)
    requires a <= b - {x} && x in b
    ensures |a| < |b|
  {
    SubsetSize(a, b - {x});
  }

  lemma {:induction false} SubsetSize<T>(a: set<T>, b: set<T>)
    requires a <= b
    ensures |a| <= |b|
  {
    if a != {} {
      var x :| x in a;
      SubsetSize(a - {x}, b - {x});
    }
  }

  /** What follows the first x in s. */
  function After<T(==,!new)>(s: seq<T>, x: T): (r: seq<T>)
    requires x in s
  {
    if s[0] == x then s[1..] else After(s[1..], x)
  }

  lemma {:induction false} AfterIndex<T(!new)>(s: seq<T>, p: nat)
    requires Distinct(s) && p < |s|
    ensures After(s, s[p]) == s[p + 1..]
  {
    if p != 0 {
      AfterIndex(s[1..], p - 1);
    }
  }

  /** Using y again moves it above x and disturbs nothing else above x. */
  lemma {:induction false} AfterMove<T(!new)>(s: seq<T>, x: T, y: T)
    requires x in s && x != y
    ensures x in Without(s, y) + [y]
    ensures After(Without(s, y) + [y], x) == Without(After(s, x), y) + [y]
  {
    var moved := Without(s, y) + [y];
    if s[0] == x {
      assert moved[1..] == Without(s[1..], y) + [y];
    } else {
      AfterMove(s[1..], x, y);
      if s[0] != y {
        assert moved[1..] == Without(s[1..], y) + [y];
      }
    }
  }

  lemma {:induction false} AfterIsSince<T(!new)>(trace: seq<T>, x: T)
    requires x in trace
    ensures Elements(After(Order(trace), x)) == Since(trace, x)
  {
    var last := |trace| - 1;
    var init, y := trace[..last], trace[last];
    assert init + [y] == trace;
    SinceStep(init, y, x);
    if x == y {
      AfterIndexLast(Without(Order(init), y), y);
    } else {
      AfterIsSince(init, x);
      AfterMove(Order(init), x, y);
    }
  }

  lemma {:induction false} AfterIndexLast<T(!new)>(s: seq<T>, y: T)
    requires y !in s
    ensures After(s + [y], y) == []
  {
    if s != [] {
      assert (s + [y])[1..] == s[1..] + [y];
      AfterIndexLast(s[1..], y);
    }
  }

  /**
   * The LRU stack is the history: whatever lies above x in the order of last use
   * is what was used since x, so x's depth is its stack distance.
   */
  lemma OrderIsHistory<T(!new)>(trace: seq<T>, p: nat)
    requires p < |Order(trace)|
    ensures Elements(Order(trace)[p + 1..]) == Since(trace, Order(trace)[p])
    ensures |Order(trace)| - 1 - p == |Since(trace, Order(trace)[p])|
  {
    OrderDistinct(trace);
    AfterIndex(Order(trace), p);
    AfterIsSince(trace, Order(trace)[p]);
    DistinctCount(Order(trace)[p + 1..]);
  }

  lemma {:induction false} DistinctCount<T(!new)>(s: seq<T>)
    requires Distinct(s)
    ensures |Elements(s)| == |s|
  {
    if s != [] {
      DistinctCount(s[1..]);
      assert s == [s[0]] + s[1..];
      assert Elements(s) == Elements(s[1..]) + {s[0]};
    }
  }

  lemma NewestDistinct<T(!new)>(s: seq<T>, n: nat)
    requires Distinct(s)
    ensures Distinct(Newest(s, n))
  {
  }

  /** x is among the n most recently used values iff fewer than n others were used since x. */
  lemma NewestIsHistory<T(!new)>(trace: seq<T>, n: nat, x: T)
    ensures x in Newest(Order(trace), n) <==> x in trace && |Since(trace, x)| < n
  {
    var order := Order(trace);
    OrderDistinct(trace);
    if x in trace {
      var p :| 0 <= p < |order| && order[p] == x;
      OrderIsHistory(trace, p);
      var r := Newest(order, n);
      if |order| - 1 - p < n {
        assert r[p - (|order| - |r|)] == x;
      }
    }
  }

  /** Forgetting all but the n most recent values commutes with one more use. */
  lemma NewestStep<T(!new)>(trace: seq<T>, x: T, n: nat)
    requires 0 < n
    ensures Newest(Order(trace + [x]), n) == LruStep(Newest(Order(trace), n), x, n)
  {
    OrderDistinct(trace);
    assert (trace + [x])[..|trace|] == trace;
    NewestOfStep(Order(trace), x, n);
  }

  lemma NewestOfStep<T(!new)>(order: seq<T>, x: T, n: nat)
    requires Distinct(order) && 0 < n
    ensures Newest(Without(order, x) + [x], n) == LruStep(Newest(order, n), x, n)
  {
    var held := Newest(order, n);
    var rest := order[..|order| - |held|];
    assert order == rest + held;
    WithoutAppend(rest, held, x);
    if x in held {
      NewestAfterHit(rest, held, x, n);
    } else {
      WithoutAbsent(held, x);
      NewestAfterMiss(Without(rest, x), held, x, n);
    }
  }

  lemma NewestAfterHit<T(!new)>(rest: seq<T>, held: seq<T>, x: T, n: nat)
    requires Distinct(rest + held) && x in held && (|held| == n || (rest == [] && |held| < n))
    ensures Newest(Without(rest, x) + Without(held, x) + [x], n) == LruStep(held, x, n)
  {
    HeldOnce(rest, held, x);
    WithoutAbsent(rest, x);
    NewestSuffix(rest, Without(held, x) + [x], n);
    Regroup(rest, Without(held, x), [x]);
  }

  lemma HeldOnce<T(!new)>(rest: seq<T>, held: seq<T>, x: T)
    requires Distinct(rest + held) && x in held
    ensures x !in rest && |Without(held, x)| == |held| - 1
  {
    var q :| 0 <= q < |held| && held[q] == x;
    assert (rest + held)[|rest| + q] == x;
    assert forall i :: 0 <= i < |rest| ==> (rest + held)[i] == rest[i];
    assert held == (rest + held)[|rest|..];
    WithoutAt(held, q);
  }

  lemma NewestSuffix<T(!new)>(a: seq<T>, b: seq<T>, n: nat)
    requires |b| == n || (a == [] && |b| <= n)
    ensures Newest(a + b, n) == b
  {
  }

  lemma NewestAfterMiss<T(!new)>(rest: seq<T>, held: seq<T>, x: T, n: nat)
    requires 0 < n && x !in held && (|held| == n || (rest == [] && |held| < n))
    ensures Newest(rest + held + [x], n) == LruStep(held, x, n)
  {
    if |held| < n {
      NewestSuffix(rest, held + [x], n);
      Regroup(rest, held, [x]);
    } else {
      NewestSuffix(rest + held[..1], held[1..] + [x], n);
      Regroup(rest + held[..1], held[1..], [x]);
      Regroup(rest, held[..1], held[1..]);
      assert held[..1] + held[1..] == held;
    }
  }

  lemma Regroup<T>(a: seq<T>, b: seq<T>, c: seq<T>)
    ensures a + b + c == a + (b + c)
  {
  }
}
