/**
 * The data caches in place: cache_read, cache_write and their byte variants as
 * documented, over the primitives of CacheSets. First-level lookups use the scan
 * as written; the second level, whose valid ways need not form a prefix once lines
 * move out of it, is searched in full.
 */
module DataCaches {
  import opened Machine
  import opened FlatMemory
  import opened CacheSets
  import opened ExclusiveCache
  import opened TransparentMemory
  import LruHistory

  /** The ways invalid_way and LRU_way pick for an access to line n. */
  ghost function LruWays(st: State, n: LineNo): Choice
    requires StateOk(st)
  {
    var way1: Way1 := Chosen(st.l1[Index(L1, n)]);
    match Victim(st, n, Choice(way1, 0))
    case Some(v) => Choice(way1, Chosen(L2Without(st, n)[Index(L2, v)]))
    case None => Choice(way1, 0)
  }

  /** Enter a line into a set the way every miss path does, and hand back what it replaced. */
  method Enter(cache: Cache, index: nat, tag: nat, line: seq<Word>) returns (way: nat, evicted: Option<Entry>)
    requires cache.Valid() && index < cache.sets.Length
    modifies cache.sets
    ensures cache.Valid() && way == Chosen(old(cache.sets[index])) && way < cache.ways
    ensures cache.sets[..] == old(cache.sets[..])[index := Placed(old(cache.sets[index]), way, tag, line)]
    ensures evicted == if old(cache.sets[index])[way].v then Some(old(cache.sets[index])[way]) else None
  {
    ghost var s := cache.sets[index];
    var invalid := cache.InvalidWay(index);
    UniqueInvalid(s, invalid);
    if invalid.Some? {
      way := invalid.value;
      var err := cache.Insert(index, way, Entry(true, 0, tag, line));
      cache.LruAgeIncrease(index, way);
      evicted := None;
    } else {
      way := cache.LruWay(index);
      UniqueOldest(s, way);
      var oldest := cache.sets[index][way];
      var err := cache.Insert(index, way, Entry(true, oldest.age, tag, line));
      cache.LruAgeUpdate(index, way);
      evicted := Some(oldest);
    }
  }

  /** Bringing a line in the LRU way leaves the first level's valid ways in front. */
  lemma BringPrefixed(st: State, n: LineNo)
    requires StateOk(st) && Prefixed(st.l1)
    ensures Prefixed(Bring(st, n, LruWays(st, n)).l1)
  {
    hide Index, Tag;
    var i := Index(L1, n);
    assert PrefixedSet(st.l1[i]);
    match WayOf(L1, st.l1, n)
    case Some(w) => assert PrefixedSet(Refreshed(st.l1[i], w));
    case None => PlacedPrefixed(st.l1[i], Tag(L1, n), FetchedLine(st, n));
  }

  /** After an access the line is where it was, or in the way it was put into. */
  lemma WayAfterBring(st: State, n: LineNo, c: Choice)
    requires StateOk(st)
    ensures WayOf(L1, Bring(st, n, c).l1, n)
         == if WayOf(L1, st.l1, n).Some? then WayOf(L1, st.l1, n) else Some(c.way1)
  {
    hide Index, Tag;
    LruHistory.NearAfterBring(st, n, c);
    var s, s' := st.l1[Index(L1, n)], Bring(st, n, c).l1[Index(L1, n)];
    var tag := Tag(L1, n);
    if WayOf(L1, st.l1, n).Some? {
      assert forall w: nat :: Holds(s', tag, w) <==> Holds(s, tag, w);
    } else {
      assert forall w: nat :: Holds(s', tag, w) ==> w == c.way1 || Holds(s, tag, w);
      assert IsFound(s, tag, None);
    }
  }

  /** A sequence of operations with the ways the methods below choose. */
  ghost function LruRequests(mem: Memory, ops: seq<Op>): seq<Request> {
    if ops == [] then []
    else
      var before, op := LruRequests(mem, ops[..|ops| - 1]), ops[|ops| - 1];
      before + [Request(op, LruWays(Run(mem, before), LineOf(op.a)))]
  }

  /** Those ways are least recently used ones throughout, so the first level is an LRU history. */
  lemma {:induction false} MethodsFollowLru(mem: Memory, ops: seq<Op>)
    ensures LruHistory.LruChoices(mem, LruRequests(mem, ops))
  {
    if ops != [] {
      MethodsFollowLru(mem, ops[..|ops| - 1]);
      var before, reqs := LruRequests(mem, ops[..|ops| - 1]), LruRequests(mem, ops);
      assert reqs[..|reqs| - 1] == before;
    }
  }

  ghost predicate OldestInSet(s: CacheSet, w: nat) {
    w < |s| && s[w].v
    && forall x :: 0 <= x < |s| && x != w ==> s[x].age < s[w].age || (s[x].age == s[w].age && x < w)
  }

  /**
   * What leaves the pair: nothing while the second-level set the first level's victim
   * moves to has an invalid way; otherwise the line in its oldest way, the last such.
   */
  lemma OldestIsLost(st: State, n: LineNo)
    requires StateOk(st)
    ensures var c, l2 := LruWays(st, n), L2Without(st, n);
      match Victim(st, n, c)
      case None => Lost(st, n, c).None?
      case Some(v) =>
        var s := l2[Index(L2, v)];
        if exists w :: 0 <= w < 8 && !s[w].v then Lost(st, n, c).None?
        else exists w :: 0 <= w < 8 && Lost(st, n, c) == Occupant(L2, l2, Index(L2, v), w) && OldestInSet(s, w)
  {
    hide Index, Tag, Join, L2Without;
    var c := LruWays(st, n);
    if Victim(st, n, c).Some? {
      var s := L2Without(st, n)[Index(L2, Victim(st, n, c).value)];
      if FirstInvalid(s).None? {
        assert c.way2 == Oldest(s) && OldestInSet(s, c.way2);
      }
    }
  }

  class Caches {
    const l1: Cache
    const l2: Cache
    const mem: array<Byte>

    ghost predicate Valid()
      reads l1.sets, l2.sets, mem
    {
      && l1.Valid() && l2.Valid() && l1.sets != l2.sets
      && l1.ways == 4 && l2.ways == 8 && mem.Length == MEM_BYTES
      && TableOk(L1, l1.sets[..]) && TableOk(L2, l2.sets[..]) && Prefixed(l1.sets[..])
    }

    ghost function View(): (st: State)
      requires Valid()
      reads l1.sets, l2.sets, mem
      ensures StateOk(st)
    {
      State(mem[..], l1.sets[..], l2.sets[..])
    }

    /** Flushed caches in front of a given memory. */
    constructor (mem: array<Byte>)
      requires mem.Length == MEM_BYTES
      ensures Valid() && this.mem == mem && fresh(l1.sets) && fresh(l2.sets) && View() == Flushed(mem[..])
    {
      this.mem := mem;
      l1 := new Cache(64, 4);
      l2 := new Cache(512, 8);
    }

    /** A line missing from the first level: out of the second level if it is there, else out of memory. */
    method Fetch(n: LineNo) returns (line: seq<Word>)
      requires Valid()
      modifies l2.sets
      ensures Valid()
      ensures line == FetchedLine(old(View()), n) && View() == old(View()).(l2 := L2Without(old(View()), n))
    {
      ghost var st := View();
      var index := n % 512;
      var way := l2.Lookup(index, n / 512);
      if way.Some? {
        line := l2.sets[index][way.value].line;
        l2.sets[index] := l2.sets[index][way.value := l2.sets[index][way.value].(v := false)];
        assert l2.sets[..] == L2Without(st, n);
      } else {
        line := LineAt(mem[..], n);
        assert l2.sets[..] == st.l2;
      }
    }

    /** Put a fetched line into the first level, and what it replaces into the second. */
    method Install(n: LineNo, line: seq<Word>, ghost st: State) returns (way: nat)
      requires Valid() && StateOk(st) && Prefixed(st.l1) && WayOf(L1, st.l1, n).None?
      requires View() == st.(l2 := L2Without(st, n)) && line == FetchedLine(st, n)
      modifies l1.sets, l2.sets
      ensures Valid() && View() == Bring(st, n, LruWays(st, n)) && way == LruWays(st, n).way1
    {
      BringPrefixed(st, n);
      ghost var c := LruWays(st, n);
      var index := n % 64;
      var evicted;
      way, evicted := Enter(l1, index, n / 64, line);
      assert l1.sets[..] == Put(L1, st.l1, n, c.way1, line);
      if evicted.Some? {
        var victim := evicted.value;
        Renaming(victim.tag, index);
        ghost var v := Join(L1, victim.tag, index);
        assert Victim(st, n, c) == Some(v);
        assert l2.sets[..] == L2Without(st, n);
        var way2, lost := Enter(l2, victim.tag % 8 * 64 + index, victim.tag / 8, victim.line);
        assert l2.sets[..] == Put(L2, L2Without(st, n), v, c.way2, victim.line);
      }
    }

    /** The common part of a read and a write: afterwards the line is in way `way` of the first level. */
    method Access(n: LineNo) returns (way: nat)
      requires Valid()
      modifies l1.sets, l2.sets
      ensures Valid() && View() == Bring(old(View()), n, LruWays(old(View()), n))
      ensures WayOf(L1, View().l1, n) == Some(way)
    {
      ghost var st := View();
      ScanIsFind(st.l1, n);
      BringPrefixed(st, n);
      WayAfterBring(st, n, LruWays(st, n));
      var hit := l1.Hit(n % 64, n / 64);
      if hit.Some? {
        assert l1.sets[..] == Touch(L1, st.l1, n, hit.value);
        return hit.value;
      }
      assert l1.sets[..] == st.l1;
      var line := Fetch(n);
      way := Install(n, line, st);
    }

    method CacheRead(a: Word) returns (word: Word)
      requires Valid()
      modifies l1.sets, l2.sets
      ensures Valid() && (View(), word) == Step(old(View()), ReadWord(a), LruWays(old(View()), LineOf(a)))
    {
      var way := Access(a / 16);
      word := l1.sets[a / 16 % 64][way].line[a / 4 % 4];
    }

    method CacheReadByte(a: Word) returns (byte: Byte)
      requires Valid()
      modifies l1.sets, l2.sets
      ensures Valid() && (View(), byte) == Step(old(View()), ReadByte(a), LruWays(old(View()), LineOf(a)))
    {
      var word := CacheRead(a);
      byte := ByteOf(word, a % 4);
    }

    method CacheWrite(a: Word, word: Word)
      requires Valid()
      modifies l1.sets, l2.sets, mem
      ensures Valid() && View() == Step(old(View()), WriteWord(a, word), LruWays(old(View()), LineOf(a))).0
    {
      var way := Access(a / 16);
      WriteThrough(a, way, word);
    }

    /** Write-through of one word whose line is in way `way` of the first level. */
    method WriteThrough(a: Word, way: nat, word: Word)
      requires Valid() && WayOf(L1, View().l1, LineOf(a)) == Some(way)
      modifies l1.sets, mem
      ensures Valid() && View() == Overwrite(old(View()), a, word)
    {
      ghost var st := View();
      var index := a / 16 % 64;
      var entry := l1.sets[index][way];
      var err := l1.Insert(index, way, entry.(line := entry.line[a / 4 % 4 := word]));
      assert l1.sets[..] == Overwrite(st, a, word).l1;
      assert PrefixedSet(st.l1[index]);
      StoreInPlace(mem, WordBase(a), word);
    }

    method CacheWriteByte(a: Word, byte: Byte)
      requires Valid()
      modifies l1.sets, l2.sets, mem
      ensures Valid() && View() == Step(old(View()), WriteByte(a, byte), LruWays(old(View()), LineOf(a))).0
    {
      ghost var st := View();
      ghost var near := Bring(st, LineOf(a), LruWays(st, LineOf(a)));
      LruHistory.NearAfterBring(st, LineOf(a), LruWays(st, LineOf(a)));
      var word := CacheRead(a);
      assert View() == near;
      CacheWrite(a, SetByte(word, a % 4, byte));
    }
  }
}
