/**
 * cache_read as written, where it departs from the policy, and exactly when its
 * results are right all the same. It fills a line from the requested address itself,
 * not from the start of its 16-byte line, drops what it evicts and, as long as nothing
 * is written, never lets lines age.
 */
module CacheAsWritten {
  import opened Machine
  import opened FlatMemory
  import opened CacheSets
  import opened ExclusiveCache
  import LruAges

  /** Addresses whose 16 bytes are all in memory. */
  type Phy = x: Word | x + 15 < MEM_BYTES

  /** The four words from an address on: what cache_entry_init copies. */
  function RawLine(mem: Memory, phy: Phy): (line: seq<Word>)
    ensures |line| == LINE_WORDS
  {
    [WordAt(mem, phy), WordAt(mem, phy + 4), WordAt(mem, phy + 8), WordAt(mem, phy + 12)]
  }

  /** A read found in the second level runs into mismatched strides and is not followed further. */
  datatype Outcome = Value(word: Word) | SecondLevelHit

  function ReadOutcome(mem: Memory, l1: Table, l2: Table, phy: Phy): Outcome
    requires TableOk(L1, l1) && TableOk(L2, l2)
  {
    var n := LineOf(phy);
    match Scan(l1[Index(L1, n)], Tag(L1, n))
    case Some(w) => Value(l1[Index(L1, n)][w].line[Slot(phy)])
    case None =>
      if Scan(l2[Index(L2, n)], Tag(L2, n)).Some? then SecondLevelHit
      else Value(RawLine(mem, phy)[Slot(phy)])
  }

  /** A line entering: its age is written before the update, which then finds nothing younger. */
  function Entered(s: CacheSet, w: nat, tag: nat, line: seq<Word>): CacheSet
    requires w < |s|
  {
    Refreshed(s[w := Entry(true, 0, tag, line)], w)
  }

  /** The first level after a read that does not hit in the second. */
  function ReadL1(mem: Memory, l1: Table, phy: Phy): (r: Table)
    requires TableOk(L1, l1)
    ensures TableOk(L1, r)
  {
    var n := LineOf(phy);
    var i := Index(L1, n);
    match Scan(l1[i], Tag(L1, n))
    case Some(w) => l1[i := Refreshed(l1[i], w)]
    case None => l1[i := Entered(l1[i], Chosen(l1[i]), Tag(L1, n), RawLine(mem, phy))]
  }

  method CacheRead(mem: array<Byte>, l1: Cache, l2: Cache, phy: Phy) returns (out: Outcome)
    requires mem.Length == MEM_BYTES
    requires l1.Valid() && l2.Valid() && l1.sets != l2.sets && l1.ways == 4 && l2.ways == 8
    requires TableOk(L1, l1.sets[..]) && TableOk(L2, l2.sets[..])
    modifies l1.sets, l2.sets
    ensures out == ReadOutcome(mem[..], old(l1.sets[..]), old(l2.sets[..]), phy)
    ensures out.Value? ==> l2.sets[..] == old(l2.sets[..]) && l1.sets[..] == ReadL1(mem[..], old(l1.sets[..]), phy)
  {
    ghost var t := l1.sets[..];
    var n := phy / 16;
    var index := n % 64;
    var hit := l1.Hit(index, n / 64);
    if hit.Some? {
      assert l1.sets[..] == ReadL1(mem[..], t, phy);
      return Value(l1.sets[index][hit.value].line[phy / 4 % 4]);
    }
    var hit2 := l2.Hit(n % 512, n / 512);
    if hit2.Some? {
      return SecondLevelHit;
    }
    var line := RawLine(mem[..], phy);
    var way := FreeOrOldest(l1, index);
    var err := l1.Insert(index, way, Entry(true, 0, n / 64, line));
    l1.LruAgeUpdate(index, way);
    assert l1.sets[..] == ReadL1(mem[..], t, phy);
    out := Value(l1.sets[index][way].line[phy / 4 % 4]);
  }

  /** cache_read_byte as written: one byte of the word read. */
  method CacheReadByte(mem: array<Byte>, l1: Cache, l2: Cache, phy: Phy) returns (out: Option<Byte>)
    requires mem.Length == MEM_BYTES
    requires l1.Valid() && l2.Valid() && l1.sets != l2.sets && l1.ways == 4 && l2.ways == 8
    requires TableOk(L1, l1.sets[..]) && TableOk(L2, l2.sets[..])
    modifies l1.sets, l2.sets
    ensures out == match ReadOutcome(mem[..], old(l1.sets[..]), old(l2.sets[..]), phy)
                   case Value(word) => Some(ByteOf(word, phy % 4))
                   case SecondLevelHit => None
    ensures out.Some? ==> l2.sets[..] == old(l2.sets[..]) && l1.sets[..] == ReadL1(mem[..], old(l1.sets[..]), phy)
  {
    var read := CacheRead(mem, l1, l2, phy);
    match read {
      case Value(word) => out := Some(ByteOf(word, phy % 4));
      case SecondLevelHit => out := None;
    }
  }

  method FreeOrOldest(cache: Cache, index: nat) returns (way: nat)
    requires cache.Valid() && index < cache.sets.Length
    ensures way == Chosen(cache.sets[index]) && way < cache.ways
  {
    var invalid := cache.InvalidWay(index);
    if invalid.Some? {
      way := invalid.value;
    } else {
      way := cache.LruWay(index);
    }
  }

  // Runs of reads, instructions through one first level and data through another.

  datatype Read = Read(access: Access, phy: Phy)

  datatype Levels = Levels(l1i: Table, l1d: Table, l2: Table)
  {
    function L1Of(access: Access): Table {
      match access case Instruction => l1i case Data => l1d
    }
  }

  ghost predicate LevelsOk(h: Levels) {
    TableOk(L1, h.l1i) && TableOk(L1, h.l1d) && TableOk(L2, h.l2)
  }

  function Flushed(): (h: Levels)
    ensures LevelsOk(h)
  {
    var l1: Table := seq(64, _ => seq(4, _ => EMPTY_ENTRY));
    Levels(l1, l1, seq(512, _ => seq(8, _ => EMPTY_ENTRY)))
  }

  /** One read; were it to hit in the second level, what follows would not be modelled. */
  function ReadStep(mem: Memory, h: Levels, r: Read): (h': Levels)
    requires LevelsOk(h)
    ensures LevelsOk(h') && h'.l2 == h.l2
  {
    if ReadOutcome(mem, h.L1Of(r.access), h.l2, r.phy).SecondLevelHit? then h
    else
      match r.access
      case Instruction => h.(l1i := ReadL1(mem, h.l1i, r.phy))
      case Data => h.(l1d := ReadL1(mem, h.l1d, r.phy))
  }

  function Run(mem: Memory, reqs: seq<Read>): (h: Levels)
    ensures LevelsOk(h)
  {
    if reqs == [] then Flushed()
    else ReadStep(mem, Run(mem, reqs[..|reqs| - 1]), reqs[|reqs| - 1])
  }

  predicate FirstLevelMiss(l1: Table, phy: Phy)
    requires |l1| == 64
  {
    Scan(l1[Index(L1, LineOf(phy))], Tag(L1, LineOf(phy))).None?
  }

  /** Every read of the run that misses its first level is at the start of a line. */
  predicate MissesAligned(mem: Memory, reqs: seq<Read>) {
    reqs != [] ==>
      var before, r := reqs[..|reqs| - 1], reqs[|reqs| - 1];
      && MissesAligned(mem, before)
      && (FirstLevelMiss(Run(mem, before).L1Of(r.access), r.phy) ==> r.phy % 16 == 0)
  }

  predicate ReadRight(mem: Memory, h: Levels, r: Read)
    requires LevelsOk(h)
  {
    ReadOutcome(mem, h.L1Of(r.access), h.l2, r.phy) == Value(WordAt(mem, WordBase(r.phy)))
  }

  /** Every read of the run returns the word its address falls in. */
  predicate AllReadsRight(mem: Memory, reqs: seq<Read>) {
    reqs != [] ==>
      var before, r := reqs[..|reqs| - 1], reqs[|reqs| - 1];
      AllReadsRight(mem, before) && ReadRight(mem, Run(mem, before), r)
  }

  // What a table looks like without its lines: all that decides hits and victims.

  ghost predicate SameSet(s: CacheSet, s': CacheSet) {
    |s| == |s'| && forall w :: 0 <= w < |s| ==> s[w].v == s'[w].v && s[w].age == s'[w].age && s[w].tag == s'[w].tag
  }

  ghost predicate SameShape(t: Table, t': Table) {
    |t| == |t'| && forall i :: 0 <= i < |t| ==> SameSet(t[i], t'[i])
  }

  lemma {:induction false} ScanByShape(s: CacheSet, s': CacheSet, tag: nat, i: nat)
    requires SameSet(s, s') && i <= |s|
    ensures ScanFrom(s, tag, i) == ScanFrom(s', tag, i)
    decreases |s| - i
  {
    if i < |s| {
      ScanByShape(s, s', tag, i + 1);
    }
  }

  lemma WaysByShape(s: CacheSet, s': CacheSet)
    requires SameSet(s, s')
    ensures FirstInvalid(s) == FirstInvalid(s')
    ensures s != [] ==> Oldest(s) == Oldest(s') && Chosen(s) == Chosen(s')
  {
    UniqueInvalid(s, FirstInvalid(s'));
    if s != [] {
      UniqueOldest(s, Oldest(s'));
    }
  }

  lemma ReadShape(mem: Memory, t: Table, mem': Memory, t': Table, phy: Phy)
    requires TableOk(L1, t) && TableOk(L1, t') && SameShape(t, t')
    ensures FirstLevelMiss(t, phy) <==> FirstLevelMiss(t', phy)
    ensures SameShape(ReadL1(mem, t, phy), ReadL1(mem', t', phy))
  {
    hide Index, Tag, RawLine, Refreshed, Entered, Chosen, SameSet;
    var n := LineOf(phy);
    var i := Index(L1, n);
    var s, s', tag := t[i], t'[i], Tag(L1, n);
    assert SameSet(s, s');
    assert |s| == |s'| == 4;
    ScanByShape(s, s', tag, 0);
    WaysByShape(s, s');
    match Scan(s, tag) {
      case Some(w) => RefreshedShape(s, s', w);
      case None => EnteredShape(s, s', Chosen(s), tag, RawLine(mem, phy), RawLine(mem', phy));
    }
  }

  lemma RefreshedShape(s: CacheSet, s': CacheSet, w: nat)
    requires SameSet(s, s') && w < |s|
    ensures SameSet(Refreshed(s, w), Refreshed(s', w))
  {
  }

  lemma EnteredShape(s: CacheSet, s': CacheSet, w: nat, tag: nat, line: seq<Word>, line': seq<Word>)
    requires SameSet(s, s') && w < |s|
    ensures SameSet(Entered(s, w, tag, line), Entered(s', w, tag, line'))
  {
    hide Refreshed;
    RefreshedShape(s[w := Entry(true, 0, tag, line)], s'[w := Entry(true, 0, tag, line')], w);
  }

  ghost predicate Vacant(t: Table) {
    forall i, w :: 0 <= i < |t| && 0 <= w < |t[i]| ==> !t[i][w].v
  }

  lemma VacantMisses(t: Table, n: LineNo)
    requires TableOk(L2, t) && Vacant(t)
    ensures Scan(t[Index(L2, n)], Tag(L2, n)).None?
  {
  }

  ghost predicate Alike(h: Levels, h': Levels) {
    && LevelsOk(h) && LevelsOk(h') && Vacant(h.l2) && h'.l2 == h.l2
    && SameShape(h.l1i, h'.l1i) && SameShape(h.l1d, h'.l1d)
  }

  lemma StepAlike(mem: Memory, h: Levels, mem': Memory, h': Levels, r: Read)
    requires Alike(h, h')
    ensures FirstLevelMiss(h.L1Of(r.access), r.phy) <==> FirstLevelMiss(h'.L1Of(r.access), r.phy)
    ensures Alike(ReadStep(mem, h, r), ReadStep(mem', h', r))
  {
    hide ReadL1, SameShape, FirstLevelMiss, TableOk, Vacant;
    ReadShape(mem, h.L1Of(r.access), mem', h'.L1Of(r.access), r.phy);
    NoSecondHit(mem, h, r);
    NoSecondHit(mem', h', r);
  }

  lemma NoSecondHit(mem: Memory, h: Levels, r: Read)
    requires LevelsOk(h) && Vacant(h.l2)
    ensures !ReadOutcome(mem, h.L1Of(r.access), h.l2, r.phy).SecondLevelHit?
  {
    hide Index, Tag;
    VacantMisses(h.l2, LineOf(r.phy));
  }

  /** Reading never fills the second level, and what it does to the first does not depend on memory. */
  lemma {:induction false} RunShape(mem: Memory, mem': Memory, reqs: seq<Read>)
    ensures Alike(Run(mem, reqs), Run(mem', reqs))
    ensures MissesAligned(mem, reqs) <==> MissesAligned(mem', reqs)
  {
    hide ReadStep, Alike, FirstLevelMiss;
    if reqs == [] {
      FlushedAlike();
    } else {
      var before, r := reqs[..|reqs| - 1], reqs[|reqs| - 1];
      RunShape(mem, mem', before);
      StepAlike(mem, Run(mem, before), mem', Run(mem', before), r);
    }
  }

  lemma FlushedAlike()
    ensures Alike(Flushed(), Flushed())
  {
  }

  /** Lines held are memory's. */
  ghost predicate Truthful(t: Table, mem: Memory) {
    TableOk(L1, t) && forall n: LineNo, w: nat :: HoldsLine(L1, t, n, w) ==> t[Index(L1, n)][w].line == LineAt(mem, n)
  }

  lemma AlignedLine(mem: Memory, phy: Word)
    requires phy % 16 == 0
    ensures phy + 15 < MEM_BYTES && RawLine(mem, phy) == LineAt(mem, LineOf(phy))
    ensures Slot(phy) == 0 && WordBase(phy) == phy
  {
    var n := phy / 16;
    assert phy == 16 * n;
  }

  lemma ReadKeepsTruthful(mem: Memory, t: Table, phy: Phy)
    requires Truthful(t, mem) && (FirstLevelMiss(t, phy) ==> phy % 16 == 0)
    ensures Truthful(ReadL1(mem, t, phy), mem)
  {
    hide Index, Tag, RawLine, Chosen;
    var n, r := LineOf(phy), ReadL1(mem, t, phy);
    if FirstLevelMiss(t, phy) {
      AlignedLine(mem, phy);
    }
    forall m: LineNo, w: nat | HoldsLine(L1, r, m, w) ensures r[Index(L1, m)][w].line == LineAt(mem, m) {
      assert HoldsLine(L1, t, m, w) || (w == Chosen(t[Index(L1, n)]) && Index(L1, m) == Index(L1, n));
      Naming(L1, n);
      Naming(L1, m);
    }
  }

  lemma TruthfulReads(mem: Memory, t: Table, l2: Table, phy: Phy)
    requires Truthful(t, mem) && TableOk(L2, l2) && Vacant(l2) && (FirstLevelMiss(t, phy) ==> phy % 16 == 0)
    ensures ReadOutcome(mem, t, l2, phy) == Value(WordAt(mem, WordBase(phy)))
  {
    hide Index, Tag, RawLine;
    var n := LineOf(phy);
    SlotIsWord(mem, phy);
    VacantMisses(l2, n);
    match Scan(t[Index(L1, n)], Tag(L1, n)) {
      case Some(w) => assert HoldsLine(L1, t, n, w);
      case None => AlignedLine(mem, phy);
    }
  }

  lemma {:induction false} AlignedMissesAreRight(mem: Memory, reqs: seq<Read>)
    requires MissesAligned(mem, reqs)
    ensures Truthful(Run(mem, reqs).l1i, mem) && Truthful(Run(mem, reqs).l1d, mem) && AllReadsRight(mem, reqs)
  {
    hide Truthful, ReadL1, ReadOutcome, FirstLevelMiss;
    if reqs == [] {
      FlushedTruthful(mem);
    } else {
      var before, r := reqs[..|reqs| - 1], reqs[|reqs| - 1];
      AlignedMissesAreRight(mem, before);
      RunShape(mem, mem, before);
      var h := Run(mem, before);
      ReadKeepsTruthful(mem, h.L1Of(r.access), r.phy);
      TruthfulReads(mem, h.L1Of(r.access), h.l2, r.phy);
    }
  }

  lemma FlushedTruthful(mem: Memory)
    ensures Truthful(Flushed().l1i, mem) && Truthful(Flushed().l1d, mem)
  {
  }

  /** A read that misses both levels takes its word from beyond the address, unless that starts a line. */
  lemma MissReads(mem: Memory, l1: Table, l2: Table, phy: Phy)
    requires TableOk(L1, l1) && TableOk(L2, l2)
    requires FirstLevelMiss(l1, phy) && Scan(l2[Index(L2, LineOf(phy))], Tag(L2, LineOf(phy))).None?
    ensures ReadOutcome(mem, l1, l2, phy) == Value(WordAt(mem, phy + 4 * Slot(phy)))
  {
    hide Index, Tag, Slot, WordAt;
  }

  /** Memory of zeroes but for the first byte of one word. */
  ghost function MarkAt(a: Word): Memory {
    seq(MEM_BYTES, i => if i == a then 1 else 0)
  }

  lemma MarkedWord(a: Word, b: Word)
    requires a <= b && b + 3 < MEM_BYTES
    ensures WordAt(MarkAt(a), b) == if a == b then 1 else 0
  {
  }

  lemma PastTheWord(phy: Word)
    requires phy % 16 != 0
    ensures WordBase(phy) < phy + 4 * Slot(phy)
  {
    WordBaseIsAligned(phy);
    assert phy / 16 == phy / 4 / 4;
  }

  lemma UnalignedMissIsWrong(l1: Table, l2: Table, phy: Phy)
    requires TableOk(L1, l1) && TableOk(L2, l2) && phy % 16 != 0
    requires FirstLevelMiss(l1, phy) && Scan(l2[Index(L2, LineOf(phy))], Tag(L2, LineOf(phy))).None?
    ensures var mem := MarkAt(WordBase(phy));
      ReadOutcome(mem, l1, l2, phy) != Value(WordAt(mem, WordBase(phy)))
  {
    hide ReadOutcome, FirstLevelMiss, WordBase, Slot, MarkAt, WordAt;
    MissReads(MarkAt(WordBase(phy)), l1, l2, phy);
    PastTheWord(phy);
    MarkedWord(WordBase(phy), WordBase(phy));
    MarkedWord(WordBase(phy), phy + 4 * Slot(phy));
  }

  /** Whatever the levels hold, a read that misses both is right for every memory iff its address starts a line. */
  lemma MissRightIff(l1: Table, l2: Table, phy: Phy)
    requires TableOk(L1, l1) && TableOk(L2, l2)
    requires FirstLevelMiss(l1, phy) && Scan(l2[Index(L2, LineOf(phy))], Tag(L2, LineOf(phy))).None?
    ensures phy % 16 == 0 <==>
      forall mem: Memory :: ReadOutcome(mem, l1, l2, phy) == Value(WordAt(mem, WordBase(phy)))
  {
    hide ReadOutcome, FirstLevelMiss;
    if phy % 16 == 0 {
      forall mem: Memory ensures ReadOutcome(mem, l1, l2, phy) == Value(WordAt(mem, WordBase(phy))) {
        MissReads(mem, l1, l2, phy);
        AlignedLine(mem, phy);
      }
    } else {
      UnalignedMissIsWrong(l1, l2, phy);
    }
  }

  /** A memory on which a run with a misplaced miss returns a wrong word. */
  lemma {:induction false} WrongMemory(mem0: Memory, reqs: seq<Read>) returns (mem: Memory)
    requires !MissesAligned(mem0, reqs)
    ensures !AllReadsRight(mem, reqs)
  {
    hide ReadOutcome, FirstLevelMiss, MarkAt, SameShape;
    var before, r := reqs[..|reqs| - 1], reqs[|reqs| - 1];
    if !MissesAligned(mem0, before) {
      mem := WrongMemory(mem0, before);
    } else {
      mem := MarkAt(WordBase(r.phy));
      RunShape(mem0, mem, before);
      var h, h' := Run(mem0, before), Run(mem, before);
      ReadShape(mem0, h.L1Of(r.access), mem, h'.L1Of(r.access), r.phy);
      VacantMisses(h'.l2, LineOf(r.phy));
      UnalignedMissIsWrong(h'.L1Of(r.access), h'.l2, r.phy);
    }
  }

  /**
   * Reads as written, from flushed caches, of code and data, whatever the first levels
   * evict: a run is right on every memory iff each of its reads that misses the first
   * level is at the start of a line. Which reads miss does not depend on memory.
   */
  lemma ReadsRightIff(mem0: Memory, reqs: seq<Read>)
    ensures (forall mem: Memory :: AllReadsRight(mem, reqs)) <==> MissesAligned(mem0, reqs)
  {
    if MissesAligned(mem0, reqs) {
      forall mem: Memory ensures AllReadsRight(mem, reqs) {
        RunShape(mem0, mem, reqs);
        AlignedMissesAreRight(mem, reqs);
      }
    } else {
      var mem := WrongMemory(mem0, reqs);
    }
  }

  // Ages, as written.

  ghost predicate Ageless(t: Table) {
    forall i, w :: 0 <= i < |t| && 0 <= w < |t[i]| ==> t[i][w].age == 0
  }

  lemma {:induction false} ReadsNeverAge(mem: Memory, reqs: seq<Read>)
    ensures Ageless(Run(mem, reqs).l1i) && Ageless(Run(mem, reqs).l1d)
  {
    hide ReadL1, ReadOutcome, Ageless;
    if reqs == [] {
      FlushedAgeless();
    } else {
      var h, r := Run(mem, reqs[..|reqs| - 1]), reqs[|reqs| - 1];
      ReadsNeverAge(mem, reqs[..|reqs| - 1]);
      ReadKeepsAgeless(mem, h.L1Of(r.access), r.phy);
    }
  }

  lemma FlushedAgeless()
    ensures Ageless(Flushed().l1i) && Ageless(Flushed().l1d)
  {
  }

  lemma ReadKeepsAgeless(mem: Memory, t: Table, phy: Phy)
    requires TableOk(L1, t) && Ageless(t)
    ensures Ageless(ReadL1(mem, t, phy))
  {
    hide Index, Tag, RawLine, Chosen;
    var i: nat, r: Table := Index(L1, LineOf(phy)), ReadL1(mem, t, phy);
    forall w: nat | w < 4 ensures r[i][w].age == 0 {
      assert t[i][w].age == 0;
    }
  }

  /** LRU does not happen: over any run of reads no line ages, and a full set always gives up its last way. */
  lemma LastWayIsVictim(mem: Memory, reqs: seq<Read>, access: Access, i: nat)
    requires i < 64 && FirstInvalid(Run(mem, reqs).L1Of(access)[i]).None?
    ensures Chosen(Run(mem, reqs).L1Of(access)[i]) == 3
  {
    ReadsNeverAge(mem, reqs);
    var s := Run(mem, reqs).L1Of(access)[i];
    assert s[3].age == 0 && s[Oldest(s)].age == 0;
  }

  /** Valid ways in front, their ages all different, the newest of them at age 0. */
  ghost predicate Ranked(s: CacheSet) {
    && PrefixedSet(s)
    && (forall i, j :: 0 <= i < j < |s| && s[j].v ==> s[i].age != s[j].age)
    && (s != [] && s[0].v ==> exists i :: 0 <= i < |s| && s[i].v && s[i].age == 0)
  }

  /** The documented policy keeps every set so. */
  lemma PolicyIsRanked(ways: nat, ops: seq<LruAges.SetOp>)
    requires 0 < ways
    ensures Ranked(LruAges.SetRun(ways, ops))
  {
    var s, trace := LruAges.SetRun(ways, ops), LruAges.Touched(ways, ops);
    LruAges.AgeIsStackDistance(ways, ops);
    LruAges.ExactAges(s, trace);
    if s[0].v {
      var w := LruAges.NewestWay(s, trace);
      assert s[w].v;
    }
  }

  /**
   * A read fill as written, into an invalid way or over the oldest: the new entry's age
   * is 0 before the update, which then ages nobody. The order survives iff the set was
   * empty or has a single way.
   */
  lemma FillKeepsOrderIff(s: CacheSet, tag: nat, line: seq<Word>)
    requires s != [] && Ranked(s)
    ensures Ranked(Entered(s, Chosen(s), tag, line)) <==> !s[0].v || |s| == 1
  {
    var w, r := Chosen(s), Entered(s, Chosen(s), tag, line);
    assert forall i :: 0 <= i < |s| ==> r[i].age == if i == w then 0 else s[i].age;
    assert forall i :: 0 <= i < |s| ==> (r[i].v <==> s[i].v || i == w);
    if s[0].v && |s| > 1 {
      var newest :| 0 <= newest < |s| && s[newest].v && s[newest].age == 0;
      assert w != newest;
      assert r[newest].age == r[w].age && r[newest].v && r[w].v;
    }
  }
}
