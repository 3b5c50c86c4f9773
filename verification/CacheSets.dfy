/**
 * One cache of the hierarchy: an array of sets, each a fixed number of ways. The
 * primitives are the code's, loops included; the functions say what they do to
 * one set.
 */
module CacheSets {
  import opened Machine

  const LINE_WORDS := 4

  /** `age` is a bit field just wide enough for the number of ways. */
  datatype Entry = Entry(v: bool, age: nat, tag: nat, line: seq<Word>)

  type CacheSet = seq<Entry>

  const EMPTY_ENTRY := Entry(false, 0, 0, [0, 0, 0, 0])

  /** Every way younger than w ages by one, and w becomes the youngest. */
  function Refreshed(s: CacheSet, w: nat): (r: CacheSet)
    requires w < |s|
    ensures |r| == |s|
  {
    seq(|s|, i requires 0 <= i < |s| =>
      if i == w then s[i].(age := 0)
      else if s[i].age < s[w].age then s[i].(age := s[i].age + 1)
      else s[i])
  }

  /** Adding one in a bit field that counts from 0 to ways - 1. */
  function Bumped(age: nat, ways: nat): nat {
    if age + 1 == ways then 0 else age + 1
  }

  /** Every way ages by one, wrapping in its bit field, and w becomes the youngest. */
  function Joined(s: CacheSet, w: nat): (r: CacheSet)
    requires w < |s|
    ensures |r| == |s|
  {
    seq(|s|, i requires 0 <= i < |s| =>
      if i == w then s[i].(age := 0)
      else if s[i].age <= |s| - 1 then s[i].(age := Bumped(s[i].age, |s|))
      else s[i])
  }

  /** Every age fits its bit field. */
  ghost predicate AgesFit(s: CacheSet) {
    forall i :: 0 <= i < |s| ==> s[i].age < |s|
  }

  /** Both updates keep ages in their bit fields; the one for fills counts modulo the number of ways. */
  lemma AgesStayInField(s: CacheSet, w: nat)
    requires AgesFit(s) && w < |s|
    ensures AgesFit(Refreshed(s, w)) && AgesFit(Joined(s, w))
    ensures forall i :: 0 <= i < |s| && i != w ==> Joined(s, w)[i].age == (s[i].age + 1) % |s|
  {
    forall i | 0 <= i < |s| && i != w ensures Joined(s, w)[i].age == (s[i].age + 1) % |s| {
      WrapsAround(s[i].age, |s|);
    }
  }

  lemma WrapsAround(age: nat, ways: nat)
    requires age < ways
    ensures (age + 1) % ways == if age + 1 == ways then 0 else age + 1
  {
  }

  ghost predicate IsOldest(s: CacheSet, w: nat) {
    w < |s| && forall i :: 0 <= i < |s| ==> s[i].age <= s[w].age && (i > w ==> s[i].age < s[w].age)
  }

  ghost predicate IsFirstInvalid(s: CacheSet, w: Option<nat>) {
    match w
    case Some(i) => i < |s| && !s[i].v && forall j :: 0 <= j < i ==> s[j].v
    case None => forall j :: 0 <= j < |s| ==> s[j].v
  }

  ghost predicate Holds(s: CacheSet, tag: nat, w: nat) {
    w < |s| && s[w].v && s[w].tag == tag
  }

  /** The first way that holds the tag, wherever it is: what cache_hit is documented to find. */
  ghost predicate IsFound(s: CacheSet, tag: nat, w: Option<nat>) {
    match w
    case Some(i) => Holds(s, tag, i) && forall j :: 0 <= j < i ==> !Holds(s, tag, j)
    case None => forall j :: 0 <= j < |s| ==> !Holds(s, tag, j)
  }

  function FindFrom(s: CacheSet, tag: nat, i: nat): (w: Option<nat>)
    requires i <= |s| && forall j :: 0 <= j < i ==> !Holds(s, tag, j)
    ensures IsFound(s, tag, w)
    decreases |s| - i
  {
    if i == |s| then None
    else if s[i].v && s[i].tag == tag then Some(i)
    else FindFrom(s, tag, i + 1)
  }

  function Find(s: CacheSet, tag: nat): (w: Option<nat>)
    ensures IsFound(s, tag, w)
  {
    FindFrom(s, tag, 0)
  }

  function InvalidFrom(s: CacheSet, i: nat): (w: Option<nat>)
    requires i <= |s| && forall j :: 0 <= j < i ==> s[j].v
    ensures IsFirstInvalid(s, w)
    decreases |s| - i
  {
    if i == |s| then None else if !s[i].v then Some(i) else InvalidFrom(s, i + 1)
  }

  function FirstInvalid(s: CacheSet): (w: Option<nat>)
    ensures IsFirstInvalid(s, w)
  {
    InvalidFrom(s, 0)
  }

  function OldestFrom(s: CacheSet, i: nat, best: nat): (w: nat)
    requires 0 < i <= |s| && best < i
    requires forall j :: 0 <= j < i ==> s[j].age <= s[best].age && (j > best ==> s[j].age < s[best].age)
    ensures IsOldest(s, w)
    decreases |s| - i
  {
    if i == |s| then best
    else OldestFrom(s, i + 1, if s[i].age >= s[best].age then i else best)
  }

  function Oldest(s: CacheSet): (w: nat)
    requires s != []
    ensures IsOldest(s, w)
  {
    OldestFrom(s, 1, 0)
  }

  lemma UniqueInvalid(s: CacheSet, w: Option<nat>)
    requires IsFirstInvalid(s, w)
    ensures w == FirstInvalid(s)
  {
  }

  lemma UniqueOldest(s: CacheSet, w: nat)
    requires s != [] && IsOldest(s, w)
    ensures w == Oldest(s)
  {
  }

  /** The code's scan from way i on: it gives up at the first invalid way. */
  function ScanFrom(s: CacheSet, tag: nat, i: nat): (w: Option<nat>)
    requires i <= |s|
    ensures w.Some? ==> Holds(s, tag, w.value)
    decreases |s| - i
  {
    if i == |s| || !s[i].v then None
    else if s[i].tag == tag then Some(i)
    else ScanFrom(s, tag, i + 1)
  }

  function Scan(s: CacheSet, tag: nat): (w: Option<nat>)
    ensures w.Some? ==> Holds(s, tag, w.value)
  {
    ScanFrom(s, tag, 0)
  }

  /** Giving up early is harmless iff no way before the one that holds the tag is invalid. */
  lemma ScanFindsIff(s: CacheSet, tag: nat)
    ensures Scan(s, tag) == Find(s, tag) <==>
      forall j :: 0 <= j < |s| && Find(s, tag).Some? && j < Find(s, tag).value ==> s[j].v
  {
    ScanUpTo(s, tag, 0);
  }

  lemma {:induction false} ScanUpTo(s: CacheSet, tag: nat, i: nat)
    requires i <= |s| && forall j :: 0 <= j < i ==> s[j].v && !Holds(s, tag, j)
    ensures ScanFrom(s, tag, i) == Find(s, tag) <==>
      forall j :: 0 <= j < |s| && Find(s, tag).Some? && j < Find(s, tag).value ==> s[j].v
    decreases |s| - i
  {
    var found := Find(s, tag);
    if i < |s| {
      if !s[i].v {
        assert found.Some? ==> i < found.value;
      } else if s[i].tag == tag {
        assert Holds(s, tag, i);
      } else {
        ScanUpTo(s, tag, i + 1);
      }
    }
  }

  ghost predicate PrefixedSet(s: CacheSet) {
    forall x, y :: 0 <= x < y < |s| && s[y].v ==> s[x].v
  }

  /** The way a new line goes to: the first invalid one, else the oldest. */
  function Chosen(s: CacheSet): (w: nat)
    requires s != []
    ensures w < |s|
  {
    match FirstInvalid(s) case Some(i) => i case None => Oldest(s)
  }

  /** A line entering way w; a line it replaces hands over its age until the update. */
  function Placed(s: CacheSet, w: nat, tag: nat, line: seq<Word>): (r: CacheSet)
    requires w < |s|
    ensures |r| == |s|
  {
    if s[w].v then Refreshed(s[w := Entry(true, s[w].age, tag, line)], w)
    else Joined(s[w := Entry(true, 0, tag, line)], w)
  }

  lemma PlacedPrefixed(s: CacheSet, tag: nat, line: seq<Word>)
    requires s != [] && PrefixedSet(s)
    ensures PrefixedSet(Placed(s, Chosen(s), tag, line))
  {
    var w, r := Chosen(s), Placed(s, Chosen(s), tag, line);
    assert forall x :: 0 <= x < |s| ==> (r[x].v <==> s[x].v || x == w);
  }

  function Cleared(e: Entry, first: bool): Entry {
    Entry(false, 0, 0, if first then [0, 0, 0, 0] else e.line)
  }

  class Cache {
    const ways: nat
    const sets: array<CacheSet>

    ghost predicate Valid()
      reads sets
    {
      0 < ways && forall i :: 0 <= i < sets.Length ==> |sets[i]| == ways
    }

    /** A zeroed cache, which flushing would leave as it is. */
    constructor (lines: nat, ways: nat)
      requires 0 < ways
      ensures Valid() && this.ways == ways && fresh(sets)
      ensures sets[..] == seq(lines, _ => seq(ways, _ => EMPTY_ENTRY))
    {
      this.ways := ways;
      var empty := seq(ways, _ => EMPTY_ENTRY);
      sets := new CacheSet[lines](_ => empty);
    }

    /** cache_flush: every entry is invalidated, but only the very first one has its line cleared. */
    method Flush()
      requires Valid()
      modifies sets
      ensures Valid()
      ensures forall i, w :: 0 <= i < sets.Length && 0 <= w < ways ==>
        sets[i][w] == Cleared(old(sets[i][w]), i == 0 && w == 0)
      ensures forall i, w :: 0 <= i < sets.Length && 0 <= w < ways ==> !sets[i][w].v && sets[i][w].age == 0
      ensures forall i, tag :: 0 <= i < sets.Length ==> Scan(sets[i], tag).None? && Find(sets[i], tag).None?
    {
      for i := 0 to sets.Length
        invariant forall k :: 0 <= k < sets.Length ==> |sets[k]| == ways
        invariant forall k :: i <= k < sets.Length ==> sets[k] == old(sets[k])
        invariant forall k, w :: 0 <= k < i && 0 <= w < ways ==>
          sets[k][w] == Cleared(old(sets[k][w]), k == 0 && w == 0)
      {
        var s := sets[i];
        sets[i] := seq(ways, w requires 0 <= w < ways && |s| == ways => Cleared(s[w], i == 0 && w == 0));
      }
    }

    method Insert(index: nat, way: nat, entry: Entry) returns (err: Option<Error>)
      requires Valid()
      modifies sets
      ensures Valid() && (err.None? <==> index < sets.Length && way < ways)
      ensures sets[..] == if err.None? then old(sets[..])[index := old(sets[index])[way := entry]] else old(sets[..])
    {
      if index >= sets.Length || way >= ways {
        return Some(BadParameter);
      }
      sets[index] := sets[index][way := entry];
      err := None;
    }

    method LruAgeUpdate(index: nat, way: nat)
      requires Valid() && index < sets.Length && way < ways
      modifies sets
      ensures Valid() && sets[..] == old(sets[..])[index := Refreshed(old(sets[index]), way)]
    {
      ghost var s := sets[index];
      var max := sets[index][way].age;
      for i := 0 to ways
        invariant Valid() && forall k :: 0 <= k < sets.Length && k != index ==> sets[k] == old(sets[k])
        invariant forall k :: 0 <= k < ways ==>
          sets[index][k] == if k < i && s[k].age < max then s[k].(age := s[k].age + 1) else s[k]
      {
        if sets[index][i].age < max {
          sets[index] := sets[index][i := sets[index][i].(age := sets[index][i].age + 1)];
        }
      }
      sets[index] := sets[index][way := sets[index][way].(age := 0)];
      assert sets[index] == Refreshed(s, way);
    }

    method LruAgeIncrease(index: nat, way: nat)
      requires Valid() && index < sets.Length && way < ways
      modifies sets
      ensures Valid() && sets[..] == old(sets[..])[index := Joined(old(sets[index]), way)]
    {
      ghost var s := sets[index];
      for i := 0 to ways
        invariant Valid() && forall k :: 0 <= k < sets.Length && k != index ==> sets[k] == old(sets[k])
        invariant forall k :: 0 <= k < ways ==>
          sets[index][k] == if k < i && s[k].age <= ways - 1 then s[k].(age := Bumped(s[k].age, ways)) else s[k]
      {
        if sets[index][i].age <= ways - 1 {
          sets[index] := sets[index][i := sets[index][i].(age := Bumped(sets[index][i].age, ways))];
        }
      }
      sets[index] := sets[index][way := sets[index][way].(age := 0)];
      assert sets[index] == Joined(s, way);
    }

    /** Ties go to the last way: the comparison is >=. */
    method LruWay(index: nat) returns (way: nat)
      requires Valid() && index < sets.Length
      ensures IsOldest(sets[index], way)
    {
      var ageMax := 0;
      way := 0;
      for i := 0 to ways
        invariant if i == 0 then way == 0 && ageMax == 0 else way < i && ageMax == sets[index][way].age
        invariant forall k :: 0 <= k < i ==> sets[index][k].age <= ageMax && (k > way ==> sets[index][k].age < ageMax)
      {
        if sets[index][i].age >= ageMax {
          way := i;
          ageMax := sets[index][i].age;
        }
      }
    }

    method InvalidWay(index: nat) returns (way: Option<nat>)
      requires Valid() && index < sets.Length
      ensures IsFirstInvalid(sets[index], way)
    {
      for i := 0 to ways
        invariant forall k :: 0 <= k < i ==> sets[index][k].v
      {
        if !sets[index][i].v {
          return Some(i);
        }
      }
      way := None;
    }

    /** cache_hit as written: it stops at the first invalid way, and a hit refreshes the way's age. */
    method Hit(index: nat, tag: nat) returns (way: Option<nat>)
      requires Valid() && index < sets.Length
      modifies sets
      ensures Valid() && way == Scan(old(sets[index]), tag)
      ensures sets[..] == if way.Some? then old(sets[..])[index := Refreshed(old(sets[index]), way.value)]
                          else old(sets[..])
    {
      ghost var s := sets[index];
      for i := 0 to ways
        invariant sets[..] == old(sets[..])
        invariant Scan(s, tag) == ScanFrom(s, tag, i)
      {
        if !sets[index][i].v {
          return None;
        }
        if tag == sets[index][i].tag {
          LruAgeUpdate(index, i);
          return Some(i);
        }
      }
      way := None;
    }

    /** cache_hit as documented: every way is looked at. */
    method Lookup(index: nat, tag: nat) returns (way: Option<nat>)
      requires Valid() && index < sets.Length
      modifies sets
      ensures Valid() && way == Find(old(sets[index]), tag)
      ensures sets[..] == if way.Some? then old(sets[..])[index := Refreshed(old(sets[index]), way.value)]
                          else old(sets[..])
    {
      ghost var s := sets[index];
      for i := 0 to ways
        invariant sets[..] == old(sets[..])
        invariant forall k :: 0 <= k < i ==> !Holds(s, tag, k)
      {
        if sets[index][i].v && tag == sets[index][i].tag {
          assert Holds(s, tag, i);
          assert Find(s, tag) == Some(i);
          LruAgeUpdate(index, i);
          return Some(i);
        }
      }
      way := None;
    }
  }
}
