/**
 * cache_write as written, together with cache_read and cache_read_byte on the data
 * side. All copy 16 bytes at the address itself. A write that misses both levels and
 * finds its set full builds a second-level entry whose valid bit is never set; what
 * happens from there on is not followed.
 */
module CacheWritesAsWritten {
  import opened Machine
  import opened FlatMemory
  import opened CacheSets
  import opened ExclusiveCache
  import opened CacheAsWritten

  datatype DataState = DataState(mem: Memory, l1: Table, l2: Table)

  datatype Op = ReadAt(phy: Phy) | ReadByteAt(phy: Phy) | WriteAt(phy: Phy, word: Word)

  datatype Ending = Returned(word: Word) | ReturnedByte(byte: Byte) | Done | SecondLevel | EvictingWrite

  ghost predicate TablesOk(st: DataState) {
    TableOk(L1, st.l1) && TableOk(L2, st.l2)
  }

  /** Sixteen bytes copied to memory at an address. */
  function StoreLine(mem: Memory, phy: Phy, line: seq<Word>): Memory
    requires |line| == LINE_WORDS
  {
    StoreWord(StoreWord(StoreWord(StoreWord(mem, phy, line[0]), phy + 4, line[1]), phy + 8, line[2]), phy + 12, line[3])
  }

  function Step(st: DataState, op: Op): (r: (DataState, Ending))
    requires TablesOk(st)
    ensures TablesOk(r.0) && r.0.l2 == st.l2
  {
    match op
    case ReadAt(phy) => DataRead(st, phy, false)
    case ReadByteAt(phy) => DataRead(st, phy, true)
    case WriteAt(phy, word) => WriteStep(st, phy, word)
  }

  /** A byte read is a word read of which one byte is kept. */
  function DataRead(st: DataState, phy: Phy, byte: bool): (r: (DataState, Ending))
    requires TablesOk(st)
    ensures TablesOk(r.0) && r.0.mem == st.mem && r.0.l2 == st.l2
  {
    match ReadOutcome(st.mem, st.l1, st.l2, phy)
    case Value(word) =>
      (st.(l1 := ReadL1(st.mem, st.l1, phy)), if byte then ReturnedByte(ByteOf(word, phy % 4)) else Returned(word))
    case SecondLevelHit => (st, SecondLevel)
  }

  function WriteStep(st: DataState, phy: Phy, word: Word): (r: (DataState, Ending))
    requires TablesOk(st)
    ensures TablesOk(r.0) && r.0.l2 == st.l2
  {
    var n := LineOf(phy);
    var i := Index(L1, n);
    var s := st.l1[i];
    match Scan(s, Tag(L1, n))
    case Some(w) =>
      var line := s[w].line[Slot(phy) := word];
      (DataState(StoreLine(st.mem, phy, line), st.l1[i := Entered(Refreshed(s, w), w, s[w].tag, line)], st.l2), Done)
    case None =>
      if Scan(st.l2[Index(L2, n)], Tag(L2, n)).Some? then (st, SecondLevel)
      else
        var mem := StoreLine(st.mem, phy, RawLine(st.mem, phy)[Slot(phy) := word]);
        match FirstInvalid(s)
        case Some(w) =>
          var entry := Entry(true, 0, Tag(L1, n), RawLine(mem, phy));
          (DataState(mem, st.l1[i := Joined(s[w := entry], w)], st.l2), Done)
        case None => (st.(mem := mem), EvictingWrite)
  }

  /** cache_write over the primitives; what an evicting write does to the second level is left out. */
  method CacheWrite(mem: array<Byte>, l1: Cache, l2: Cache, phy: Phy, word: Word) returns (end: Ending)
    requires mem.Length == MEM_BYTES
    requires l1.Valid() && l2.Valid() && l1.sets != l2.sets && l1.ways == 4 && l2.ways == 8
    requires TableOk(L1, l1.sets[..]) && TableOk(L2, l2.sets[..])
    modifies mem, l1.sets, l2.sets
    ensures var (r, expected) := WriteStep(old(DataState(mem[..], l1.sets[..], l2.sets[..])), phy, word);
      end == expected && (end != SecondLevel ==> r == DataState(mem[..], l1.sets[..], l2.sets[..]))
  {
    hide StoreLine, RawLine;
    ghost var st := DataState(mem[..], l1.sets[..], l2.sets[..]);
    var n, w_select := phy / 16, phy / 4 % 4;
    var index := n % 64;
    var hit := l1.Hit(index, n / 64);
    if hit.Some? {
      var entry := l1.sets[index][hit.value];
      var line := entry.line[w_select := word];
      var err := l1.Insert(index, hit.value, Entry(true, 0, entry.tag, line));
      l1.LruAgeUpdate(index, hit.value);
      CopyToMemory(mem, phy, line);
      assert l1.sets[..] == WriteStep(st, phy, word).0.l1;
      return Done;
    }
    var hit2 := l2.Hit(n % 512, n / 512);
    if hit2.Some? {
      return SecondLevel;
    }
    var line := RawLine(mem[..], phy)[w_select := word];
    CopyToMemory(mem, phy, line);
    var way := l1.InvalidWay(index);
    assert way == FirstInvalid(st.l1[index]);
    if way.None? {
      return EvictingWrite;
    }
    var err := l1.Insert(index, way.value, Entry(true, 0, n / 64, RawLine(mem[..], phy)));
    l1.LruAgeIncrease(index, way.value);
    assert l1.sets[..] == WriteStep(st, phy, word).0.l1;
    end := Done;
  }

  method CopyToMemory(mem: array<Byte>, phy: Phy, line: seq<Word>)
    requires mem.Length == MEM_BYTES && |line| == LINE_WORDS
    modifies mem
    ensures mem[..] == StoreLine(old(mem[..]), phy, line)
  {
    StoreInPlace(mem, phy, line[0]);
    StoreInPlace(mem, phy + 4, line[1]);
    StoreInPlace(mem, phy + 8, line[2]);
    StoreInPlace(mem, phy + 12, line[3]);
  }

  /** A first level equal to memory, no line twice, valid ways in front; nothing in the second. */
  ghost predicate Good(st: DataState) {
    Sound(L1, st.l1, st.mem) && Prefixed(st.l1) && TableOk(L2, st.l2) && Vacant(st.l2)
  }

  lemma StoreBack(m: Memory, a: nat)
    requires a + 3 < MEM_BYTES
    ensures StoreWord(m, a, WordAt(m, a)) == m
  {
    ComposeBytes(m[a], m[a + 1], m[a + 2], m[a + 3]);
  }

  /** On a line boundary, copying back a line with its first word replaced stores that word. */
  lemma AlignedStore(mem: Memory, phy: Word, line: seq<Word>, word: Word)
    requires phy % 16 == 0 && phy + 15 < MEM_BYTES && line == LineAt(mem, LineOf(phy))
    ensures StoreLine(mem, phy, line[Slot(phy) := word]) == StoreWord(mem, phy, word)
  {
    hide StoreWord, WordAt;
    AlignedLine(mem, phy);
    var m, n := StoreWord(mem, phy, word), LineOf(phy);
    assert 16 * (phy / 16) == phy;
    LineAfterStore(mem, phy, word, n);
    StoreBack(m, phy + 4);
    StoreBack(m, phy + 8);
    StoreBack(m, phy + 12);
  }

  /** Lines other than n keep equal to memory when only n's words change. */
  lemma AbsentLineChanges(t: Table, mem: Memory, phy: Word, word: Word)
    requires Sound(L1, t, mem) && !Present(L1, t, LineOf(phy))
    ensures Sound(L1, t, StoreWord(mem, WordBase(phy), word))
  {
    hide Index, Tag, StoreWord;
    forall m: LineNo, x: nat | HoldsLine(L1, t, m, x)
      ensures t[Index(L1, m)][x].line == LineAt(StoreWord(mem, WordBase(phy), word), m)
    {
      assert Present(L1, t, m);
      LineAfterStore(mem, phy, word, m);
    }
  }

  /** The table after its line n, in way w, is rewritten together with memory. */
  lemma RewriteSound(t: Table, r: Table, w: nat, mem: Memory, phy: Word, word: Word)
    requires Sound(L1, t, mem) && HoldsLine(L1, t, LineOf(phy), w)
    requires EntersAt(L1, t, r, LineOf(phy), w, t[Index(L1, LineOf(phy))][w].line[Slot(phy) := word])
    ensures Sound(L1, r, StoreWord(mem, WordBase(phy), word))
  {
    hide Index, Tag, StoreWord;
    var n, mem' := LineOf(phy), StoreWord(mem, WordBase(phy), word);
    Naming(L1, n);
    assert forall m: LineNo, x: nat :: HoldsLine(L1, r, m, x) <==> HoldsLine(L1, t, m, x);
    forall m: LineNo, x: nat | HoldsLine(L1, r, m, x) ensures r[Index(L1, m)][x].line == LineAt(mem', m) {
      LineAfterStore(mem, phy, word, m);
      Naming(L1, m);
    }
  }

  lemma ReadIsRight(st: DataState, phy: Phy, byte: bool)
    requires Good(st) && (FirstLevelMiss(st.l1, phy) ==> phy % 16 == 0)
    ensures var (r, end) := DataRead(st, phy, byte);
      && Good(r)
      && end == if byte then ReturnedByte(st.mem[phy]) else Returned(WordAt(st.mem, WordBase(phy)))
  {
    hide Index, Tag, WordAt, WordBase;
    TruthfulReads(st.mem, st.l1, st.l2, phy);
    ByteInWord(st.mem, phy);
    ReadKeepsGood(st, phy);
  }

  lemma ReadKeepsGood(st: DataState, phy: Phy)
    requires Good(st) && (FirstLevelMiss(st.l1, phy) ==> phy % 16 == 0)
    ensures Good(st.(l1 := ReadL1(st.mem, st.l1, phy)))
  {
    hide Index, Tag, WordAt, RawLine;
    var n := LineOf(phy);
    var i := Index(L1, n);
    ScanIsFind(st.l1, n);
    WayOfPresent(L1, st.l1, n);
    var r := ReadL1(st.mem, st.l1, phy);
    assert PrefixedSet(st.l1[i]);
    match WayOf(L1, st.l1, n) {
      case Some(w) =>
        TouchSound(L1, st.l1, n, w, st.mem);
        assert r == Touch(L1, st.l1, n, w);
      case None =>
        AlignedLine(st.mem, phy);
        var w := Chosen(st.l1[i]);
        EnterSound(L1, st.l1, r, n, w, LineAt(st.mem, n), st.mem);
        assert forall x :: 0 <= x < 4 ==> (r[i][x].v <==> st.l1[i][x].v || x == w);
    }
  }

  lemma WriteIsRight(st: DataState, phy: Phy, word: Word)
    requires Good(st) && phy % 16 == 0
    ensures var (r, end) := WriteStep(st, phy, word);
      && r.mem == StoreWord(st.mem, phy, word)
      && end == (if !Present(L1, st.l1, LineOf(phy)) && FirstInvalid(st.l1[Index(L1, LineOf(phy))]).None?
                 then EvictingWrite else Done)
      && (end == Done ==> Good(r))
  {
    hide Index, Tag, WordAt, StoreWord, StoreLine;
    AlignedLine(st.mem, phy);
    var n := LineOf(phy);
    var i := Index(L1, n);
    var s := st.l1[i];
    ScanIsFind(st.l1, n);
    WayOfPresent(L1, st.l1, n);
    assert Scan(st.l2[Index(L2, n)], Tag(L2, n)).None?;
    assert PrefixedSet(s);
    AlignedStore(st.mem, phy, LineAt(st.mem, n), word);
    var r := WriteStep(st, phy, word).0;
    match WayOf(L1, st.l1, n) {
      case Some(w) =>
        RewriteSound(st.l1, r.l1, w, st.mem, phy, word);
        assert forall x :: 0 <= x < 4 ==> (r.l1[i][x].v <==> s[x].v);
      case None =>
        AbsentLineChanges(st.l1, st.mem, phy, word);
        AlignedLine(r.mem, phy);
        if FirstInvalid(s).Some? {
          var w := FirstInvalid(s).value;
          EnterSound(L1, st.l1, r.l1, n, w, LineAt(r.mem, n), r.mem);
          assert forall x :: 0 <= x < 4 ==> (r.l1[i][x].v <==> s[x].v || x == w);
        }
    }
  }

  /** What an operation is for: reads return what memory holds, writes change their word of it and nothing else. */
  ghost predicate RightStep(st: DataState, op: Op)
    requires TablesOk(st)
  {
    var (r, end) := Step(st, op);
    match op
    case ReadAt(phy) => end == Returned(WordAt(st.mem, WordBase(phy)))
    case ReadByteAt(phy) => end == ReturnedByte(st.mem[phy])
    case WriteAt(phy, word) => end != SecondLevel && r.mem == StoreWord(st.mem, WordBase(phy), word)
  }

  /** At the start of a line, unless a read that hits. */
  predicate WellPlaced(st: DataState, op: Op)
    requires |st.l1| == 64
  {
    op.phy % 16 == 0 || (!op.WriteAt? && !FirstLevelMiss(st.l1, op.phy))
  }

  lemma PlacedIsRight(st: DataState, op: Op)
    requires Good(st) && WellPlaced(st, op)
    ensures RightStep(st, op)
    ensures Step(st, op).1 != EvictingWrite ==> Good(Step(st, op).0)
    ensures op.WriteAt? || Step(st, op).0.mem == st.mem
  {
    hide Good, DataRead, WriteStep, StoreWord, WordAt, FirstLevelMiss;
    match op {
      case ReadAt(phy) => ReadIsRight(st, phy, false);
      case ReadByteAt(phy) => ReadIsRight(st, phy, true);
      case WriteAt(phy, word) =>
        AlignedLine(st.mem, phy);
        WriteIsRight(st, phy, word);
    }
  }

  // Misplaced operations: one memory, and 1 for the word written, tells each of them wrong.

  ghost function Zeroes(): Memory {
    seq(MEM_BYTES, _ => 0)
  }

  ghost function Telling(op: Op): Memory {
    match op
    case ReadAt(phy) => MarkAt(WordBase(phy))
    case ReadByteAt(phy) => MarkAt(phy)
    case WriteAt(_, _) => Zeroes()
  }

  lemma MisplacedIsWrong(st: DataState, op: Op)
    requires Good(st) && !WellPlaced(st, op)
    requires st.mem == Telling(op) && (op.WriteAt? ==> op.word == 1)
    ensures !RightStep(st, op)
  {
    hide Prefixed, ReadOutcome, WriteStep, StoreWord, WordAt, FirstLevelMiss, MarkAt, Zeroes;
    match op {
      case ReadAt(phy) =>
        GoodMisses(st, phy);
        UnalignedMissIsWrong(st.l1, st.l2, phy);
      case ReadByteAt(phy) =>
        GoodMisses(st, phy);
        MissReads(st.mem, st.l1, st.l2, phy);
        ByteBeyond(phy);
      case WriteAt(phy, _) => MisplacedWrite(st, phy);
    }
  }

  lemma GoodMisses(st: DataState, phy: Phy)
    requires Good(st)
    ensures Scan(st.l2[Index(L2, LineOf(phy))], Tag(L2, LineOf(phy))).None?
  {
    VacantMisses(st.l2, LineOf(phy));
  }

  lemma ByteOfWord(m: Memory, a: nat, i: nat)
    requires a + 3 < MEM_BYTES && i < 4
    ensures ByteOf(WordAt(m, a), i) == m[a + i]
  {
    ComposeBytes(m[a], m[a + 1], m[a + 2], m[a + 3]);
  }

  lemma PastTheByte(phy: Phy)
    requires phy % 16 != 0
    ensures phy < phy + 4 * Slot(phy) + phy % 4 < MEM_BYTES
  {
    PastTheWord(phy);
    WordBaseIsAligned(phy);
  }

  lemma ByteBeyond(phy: Phy)
    requires phy % 16 != 0
    ensures ByteOf(WordAt(MarkAt(phy), phy + 4 * Slot(phy)), phy % 4) != MarkAt(phy)[phy]
  {
    hide Slot, WordAt;
    PastTheByte(phy);
    ByteOfWord(MarkAt(phy), phy + 4 * Slot(phy), phy % 4);
  }

  /** What a write copies back: the line held, or the 16 bytes at the address, with one word replaced. */
  lemma LineWritten(st: DataState, phy: Phy, word: Word)
    requires Good(st)
    ensures WriteStep(st, phy, word).0.mem ==
      var line := if FirstLevelMiss(st.l1, phy) then RawLine(st.mem, phy) else LineAt(st.mem, LineOf(phy));
      StoreLine(st.mem, phy, line[Slot(phy) := word])
  {
    hide Index, Tag, Slot, StoreLine, RawLine;
    var n := LineOf(phy);
    GoodMisses(st, phy);
    var found := Scan(st.l1[Index(L1, n)], Tag(L1, n));
    assert found.Some? ==> HoldsLine(L1, st.l1, n, found.value);
  }

  lemma ZeroLines(phy: Phy)
    ensures RawLine(Zeroes(), phy) == [0, 0, 0, 0] == LineAt(Zeroes(), LineOf(phy))
  {
    hide WordAt, Zeroes;
    var n: nat := LineOf(phy);
    ZeroWord(phy);
    ZeroWord(phy + 4);
    ZeroWord(phy + 8);
    ZeroWord(phy + 12);
    ZeroWord(16 * n);
    ZeroWord(16 * n + 4);
    ZeroWord(16 * n + 8);
    ZeroWord(16 * n + 12);
  }

  lemma ZeroWord(a: nat)
    requires a + 3 < MEM_BYTES
    ensures WordAt(Zeroes(), a) == 0
  {
  }

  /** Hit or miss, writing 1 to zeroed memory off a line boundary leaves the byte it should set at 0. */
  lemma MisplacedWrite(st: DataState, phy: Phy)
    requires Good(st) && st.mem == Zeroes() && phy % 16 != 0
    ensures WriteStep(st, phy, 1).0.mem != StoreWord(Zeroes(), WordBase(phy), 1)
  {
    hide WriteStep, Good, WordBase, Slot, StoreLine, StoreWord, Zeroes;
    LineWritten(st, phy, 1);
    ZeroLines(phy);
    PastTheWord(phy);
    BelowSlotKept(phy, 1, WordBase(phy));
    FirstByte(Zeroes(), WordBase(phy), 1);
  }

  lemma FirstByte(m: Memory, a: nat, w: Word)
    requires a + 3 < MEM_BYTES
    ensures StoreWord(m, a, w)[a] == w % 0x100
  {
  }

  /** A copy back of zeroes with one word set leaves zeroes below that word. */
  lemma BelowSlotKept(phy: Phy, word: Word, b: nat)
    requires b < phy + 4 * Slot(phy)
    ensures StoreLine(Zeroes(), phy, [0, 0, 0, 0][Slot(phy) := word])[b] == 0
  {
    hide Slot;
    var line := [0, 0, 0, 0][Slot(phy) := word];
    var m1 := StoreWord(Zeroes(), phy, line[0]);
    var m2 := StoreWord(m1, phy + 4, line[1]);
    var m3 := StoreWord(m2, phy + 8, line[2]);
    assert m1[b] == 0;
    assert m2[b] == 0;
    assert m3[b] == 0;
  }

  // Conditions that do not depend on memory or on the words written.

  predicate SameAddress(op: Op, op': Op) {
    op.phy == op'.phy && (op.ReadAt? <==> op'.ReadAt?) && (op.WriteAt? <==> op'.WriteAt?)
  }

  predicate SameAddresses(ops: seq<Op>, ops': seq<Op>) {
    |ops| == |ops'| && forall i :: 0 <= i < |ops| ==> SameAddress(ops[i], ops'[i])
  }

  ghost predicate StatesAlike(st: DataState, st': DataState) {
    TablesOk(st) && TablesOk(st') && SameShape(st.l1, st'.l1) && st'.l2 == st.l2 && Vacant(st.l2)
  }

  lemma StepsAlike(st: DataState, op: Op, st': DataState, op': Op)
    requires StatesAlike(st, st') && SameAddress(op, op')
    ensures StatesAlike(Step(st, op).0, Step(st', op').0)
    ensures Step(st, op).1 == EvictingWrite <==> Step(st', op').1 == EvictingWrite
    ensures WellPlaced(st, op) <==> WellPlaced(st', op')
  {
    hide Index, Tag, StoreLine, RawLine, SameShape, ReadL1;
    var n, phy := LineOf(op.phy), op.phy;
    VacantMisses(st.l2, n);
    ReadShape(st.mem, st.l1, st'.mem, st'.l1, phy);
    if op.WriteAt? {
      WritesAlike(st, op.word, st', op'.word, phy);
    }
  }

  lemma WritesAlike(st: DataState, word: Word, st': DataState, word': Word, phy: Phy)
    requires StatesAlike(st, st')
    ensures SameShape(WriteStep(st, phy, word).0.l1, WriteStep(st', phy, word').0.l1)
    ensures WriteStep(st, phy, word).1 == WriteStep(st', phy, word').1
  {
    hide Index, Tag, StoreLine, RawLine, Refreshed, Entered, Joined, SameSet;
    var n := LineOf(phy);
    var i := Index(L1, n);
    var s, s', tag := st.l1[i], st'.l1[i], Tag(L1, n);
    VacantMisses(st.l2, n);
    assert SameSet(s, s') && |s| == |s'| == 4;
    ScanByShape(s, s', tag, 0);
    WaysByShape(s, s');
    var r, r' := WriteStep(st, phy, word).0, WriteStep(st', phy, word').0;
    match Scan(s, tag) {
      case Some(w) =>
        RefreshedShape(s, s', w);
        assert s[w].tag == tag == s'[w].tag;
        EnteredShape(Refreshed(s, w), Refreshed(s', w), w, tag,
                     s[w].line[Slot(phy) := word], s'[w].line[Slot(phy) := word']);
      case None =>
        if FirstInvalid(s).Some? {
          JoinedShape(s, s', FirstInvalid(s).value, tag, RawLine(r.mem, phy), RawLine(r'.mem, phy));
        }
    }
    assert SameSet(r.l1[i], r'.l1[i]);
  }

  lemma JoinedShape(s: CacheSet, s': CacheSet, w: nat, tag: nat, line: seq<Word>, line': seq<Word>)
    requires SameSet(s, s') && w < |s|
    ensures SameSet(Joined(s[w := Entry(true, 0, tag, line)], w), Joined(s'[w := Entry(true, 0, tag, line')], w))
  {
  }

  /** The same ways hold the same lines, filled from another memory. */
  ghost function Retold(t: Table, mem: Memory): (r: Table)
    requires TableOk(L1, t)
    ensures TableOk(L1, r) && SameShape(t, r)
  {
    seq(64, i requires 0 <= i < 64 && TableOk(L1, t) => seq(4, w requires 0 <= w < 4 && TableOk(L1, t) && 0 <= i < 64 =>
      if t[i][w].v then t[i][w].(line := LineAt(mem, Join(L1, t[i][w].tag, i))) else t[i][w]))
  }

  lemma RetoldGood(st: DataState, mem: Memory)
    requires Good(st)
    ensures Good(DataState(mem, Retold(st.l1, mem), st.l2))
    ensures StatesAlike(st, DataState(mem, Retold(st.l1, mem), st.l2))
  {
    hide Index, Tag, Join, LineAt;
    var r := Retold(st.l1, mem);
    forall n: LineNo, x: nat ensures HoldsLine(L1, r, n, x) ==>
      HoldsLine(L1, st.l1, n, x) && r[Index(L1, n)][x].line == LineAt(mem, n)
    {
      Naming(L1, n);
    }
    forall i | 0 <= i < 64 ensures PrefixedSet(r[i]) {
      assert PrefixedSet(st.l1[i]);
    }
  }

  /**
   * One operation, whatever the first level holds: it comes out right for every memory
   * and word written iff it is well placed, by hit and by miss.
   */
  lemma StepRightIff(st: DataState, op: Op)
    requires Good(st)
    ensures WellPlaced(st, op) <==>
      forall st', op' :: Good(st') && StatesAlike(st, st') && SameAddress(op, op') ==> RightStep(st', op')
  {
    hide RightStep, WellPlaced, Telling;
    if WellPlaced(st, op) {
      forall st', op' | Good(st') && StatesAlike(st, st') && SameAddress(op, op') ensures RightStep(st', op') {
        StepsAlike(st, op, st', op');
        PlacedIsRight(st', op');
      }
    } else {
      var op' := if op.WriteAt? then op.(word := 1) else op;
      var st' := DataState(Telling(op'), Retold(st.l1, Telling(op')), st.l2);
      RetoldGood(st, Telling(op'));
      StepsAlike(st, op, st', op');
      MisplacedIsWrong(st', op');
    }
  }

  // Runs from flushed caches, up to the first evicting write.

  function DataRun(mem: Memory, ops: seq<Op>): (st: DataState)
    ensures TablesOk(st)
  {
    if ops == [] then DataState(mem, Flushed().l1d, Flushed().l2)
    else Step(DataRun(mem, ops[..|ops| - 1]), ops[|ops| - 1]).0
  }

  predicate NoEviction(mem: Memory, ops: seq<Op>) {
    ops != [] ==>
      NoEviction(mem, ops[..|ops| - 1])
      && Step(DataRun(mem, ops[..|ops| - 1]), ops[|ops| - 1]).1 != EvictingWrite
  }

  predicate AllPlaced(mem: Memory, ops: seq<Op>) {
    ops != [] ==>
      AllPlaced(mem, ops[..|ops| - 1]) && WellPlaced(DataRun(mem, ops[..|ops| - 1]), ops[|ops| - 1])
  }

  ghost predicate AllRight(mem: Memory, ops: seq<Op>) {
    ops != [] ==>
      AllRight(mem, ops[..|ops| - 1]) && RightStep(DataRun(mem, ops[..|ops| - 1]), ops[|ops| - 1])
  }

  lemma {:induction false} RunsAlike(mem: Memory, ops: seq<Op>, mem': Memory, ops': seq<Op>)
    requires SameAddresses(ops, ops')
    ensures StatesAlike(DataRun(mem, ops), DataRun(mem', ops'))
    ensures NoEviction(mem, ops) <==> NoEviction(mem', ops')
    ensures AllPlaced(mem, ops) <==> AllPlaced(mem', ops')
  {
    hide Step, WellPlaced, StatesAlike, SameAddress;
    if ops == [] {
      FlushedStates(mem, mem');
    } else {
      var before, before' := ops[..|ops| - 1], ops'[..|ops| - 1];
      RunsAlike(mem, before, mem', before');
      StepsAlike(DataRun(mem, before), ops[|ops| - 1], DataRun(mem', before'), ops'[|ops| - 1]);
    }
  }

  /** Until a write evicts, nothing is ever found in the second level: not even an unaligned run gets there. */
  lemma SecondLevelStaysEmpty(mem: Memory, ops: seq<Op>, op: Op)
    requires NoEviction(mem, ops)
    ensures Vacant(DataRun(mem, ops).l2) && Step(DataRun(mem, ops), op).1 != SecondLevel
  {
    hide Index, Tag, StoreLine, RawLine, DataRun;
    RunsAlike(mem, ops, mem, ops);
    VacantMisses(DataRun(mem, ops).l2, LineOf(op.phy));
  }

  lemma FlushedStates(mem: Memory, mem': Memory)
    ensures StatesAlike(DataRun(mem, []), DataRun(mem', []))
  {
    FlushedAlike();
  }

  lemma FlushedGood(mem: Memory)
    ensures Good(DataState(mem, Flushed().l1d, Flushed().l2))
  {
  }

  lemma {:induction false} PlacedRunIsRight(mem: Memory, ops: seq<Op>)
    requires AllPlaced(mem, ops) && (ops == [] || NoEviction(mem, ops[..|ops| - 1]))
    ensures AllRight(mem, ops) && (NoEviction(mem, ops) ==> Good(DataRun(mem, ops)))
  {
    hide Step, WellPlaced, Good, RightStep;
    if ops == [] {
      FlushedGood(mem);
    } else {
      var before, op := ops[..|ops| - 1], ops[|ops| - 1];
      PlacedRunIsRight(mem, before);
      PlacedIsRight(DataRun(mem, before), op);
    }
  }

  /** The same run, every write writing what memory already holds. */
  ghost function Quiet(mem: Memory, ops: seq<Op>): (r: seq<Op>)
    ensures SameAddresses(ops, r)
  {
    seq(|ops|, i requires 0 <= i < |ops| =>
      if ops[i].WriteAt? then ops[i].(word := WordAt(mem, WordBase(ops[i].phy))) else ops[i])
  }

  lemma {:induction false} QuietRun(mem: Memory, ops: seq<Op>)
    requires AllPlaced(mem, Quiet(mem, ops)) && NoEviction(mem, Quiet(mem, ops))
    ensures DataRun(mem, Quiet(mem, ops)).mem == mem && Good(DataRun(mem, Quiet(mem, ops)))
  {
    hide Step, WellPlaced, Good, StoreWord, WordAt, WordBase;
    var quiet := Quiet(mem, ops);
    PlacedRunIsRight(mem, quiet);
    if ops != [] {
      var before, op := quiet[..|ops| - 1], quiet[|ops| - 1];
      assert before == Quiet(mem, ops[..|ops| - 1]);
      QuietRun(mem, ops[..|ops| - 1]);
      PlacedIsRight(DataRun(mem, before), op);
      StoreBack(mem, WordBase(op.phy));
    }
  }

  /** A memory, and words to write, on which a run with a misplaced operation goes wrong. */
  lemma {:induction false} WrongRun(mem0: Memory, ops: seq<Op>) returns (mem: Memory, ops': seq<Op>)
    requires !AllPlaced(mem0, ops) && (ops == [] || NoEviction(mem0, ops[..|ops| - 1]))
    ensures SameAddresses(ops, ops') && !AllRight(mem, ops')
  {
    hide Step, WellPlaced, SameAddress, RightStep;
    var before, op := ops[..|ops| - 1], ops[|ops| - 1];
    var before': seq<Op>, op' := before, op;
    if !AllPlaced(mem0, before) {
      mem, before' := WrongRun(mem0, before);
      SameOp(op);
    } else {
      mem, before', op' := WrongLast(mem0, before, op);
    }
    ops' := before' + [op'];
    assert ops'[..|ops'| - 1] == before';
  }

  lemma SameOp(op: Op)
    ensures SameAddress(op, op)
  {
  }

  /** Writes before the last operation can be made to change nothing, so that it finds the memory that tells. */
  lemma WrongLast(mem0: Memory, before: seq<Op>, op: Op) returns (mem: Memory, before': seq<Op>, op': Op)
    requires AllPlaced(mem0, before) && NoEviction(mem0, before) && !WellPlaced(DataRun(mem0, before), op)
    ensures SameAddresses(before, before') && SameAddress(op, op')
    ensures !RightStep(DataRun(mem, before'), op')
  {
    hide WellPlaced, Good, RightStep, Telling, DataRun, AllPlaced, NoEviction;
    op' := if op.WriteAt? then op.(word := 1) else op;
    mem := Telling(op');
    before' := Quiet(mem, before);
    RunsAlike(mem0, before, mem, before');
    QuietRun(mem, before);
    StepsAlike(DataRun(mem0, before), op, DataRun(mem, before'), op');
    MisplacedIsWrong(DataRun(mem, before'), op');
  }

  /**
   * The code as written, from flushed caches and until a write has evicted: a run of
   * data reads, byte reads and writes comes out right, for every memory and all words
   * written, iff every write and every read that misses is at the start of a line.
   */
  lemma RunsRightIff(mem0: Memory, ops: seq<Op>)
    requires ops == [] || NoEviction(mem0, ops[..|ops| - 1])
    ensures AllPlaced(mem0, ops) <==>
      forall mem, ops' :: SameAddresses(ops, ops') ==> AllRight(mem, ops')
  {
    hide Step, NoEviction, AllPlaced, AllRight, SameAddress;
    if AllPlaced(mem0, ops) {
      forall mem, ops' | SameAddresses(ops, ops') ensures AllRight(mem, ops') {
        RunsAlike(mem0, ops, mem, ops');
        if ops != [] {
          RunsAlike(mem0, ops[..|ops| - 1], mem, ops'[..|ops| - 1]);
        }
        PlacedRunIsRight(mem, ops');
      }
    } else {
      var mem, ops' := WrongRun(mem0, ops);
    }
  }

  /** The word memory holds at an address after the run's writes: the last one written there, if any. */
  function LastWritten(mem: Memory, ops: seq<Op>, a: Word): Word
    requires a + 3 < MEM_BYTES
  {
    if ops == [] then WordAt(mem, a)
    else
      var op := ops[|ops| - 1];
      if op.WriteAt? && op.phy == a then op.word else LastWritten(mem, ops[..|ops| - 1], a)
  }

  /** On such a run a well-placed read returns the last word written to its address, or what was there at first. */
  lemma ReadsLastWritten(mem: Memory, ops: seq<Op>, phy: Phy)
    requires NoEviction(mem, ops) && AllPlaced(mem, ops) && WellPlaced(DataRun(mem, ops), ReadAt(phy))
    ensures Step(DataRun(mem, ops), ReadAt(phy)).1 == Returned(LastWritten(mem, ops, WordBase(phy)))
  {
    hide Good, WellPlaced, LastWritten;
    PlacedRunIsRight(mem, ops);
    MemoryIsLastWritten(mem, ops, phy);
    PlacedIsRight(DataRun(mem, ops), ReadAt(phy));
  }

  lemma {:induction false} MemoryIsLastWritten(mem: Memory, ops: seq<Op>, phy: Word)
    requires NoEviction(mem, ops) && AllPlaced(mem, ops)
    ensures WordAt(DataRun(mem, ops).mem, WordBase(phy)) == LastWritten(mem, ops, WordBase(phy))
  {
    hide Step, Good, FirstLevelMiss, WordAt, StoreWord, WordBase;
    if ops != [] {
      var before, op := ops[..|ops| - 1], ops[|ops| - 1];
      MemoryIsLastWritten(mem, before, phy);
      PlacedRunIsRight(mem, before);
      PlacedIsRight(DataRun(mem, before), op);
      if op.WriteAt? {
        StoredWord(DataRun(mem, before).mem, op.phy, op.word, phy);
      }
    }
  }

  lemma StoredWord(m: Memory, p: Word, word: Word, phy: Word)
    requires p % 16 == 0
    ensures WordAt(StoreWord(m, WordBase(p), word), WordBase(phy)) ==
      if p == WordBase(phy) then word else WordAt(m, WordBase(phy))
  {
    hide WordAt, StoreWord;
    AlignedLine(m, p);
    WordAfterStore(m, LineOf(p), 0, word, LineOf(phy), Slot(phy));
  }

  // What an evicting write calls the line it moves down.

  /** After a miss: the victim's tag shifted by 10 - 4 bits, at the new line's second-level index. */
  function NamedAfterMiss(victim: LineNo, n: LineNo): LineNo {
    Join(L2, Tag(L1, victim) / 64, Index(L2, n))
  }

  /** After a second-level hit: the new line's own tag and index. */
  function NamedAfterHit(n: LineNo): LineNo {
    Join(L2, Tag(L1, n) / 8, Index(L2, n))
  }

  /** A miss names its victim iff both tags agree modulo 8 and the victim's is below 8. */
  lemma MissNamesVictimIff(victim: LineNo, n: LineNo)
    requires Index(L1, victim) == Index(L1, n)
    ensures NamedAfterMiss(victim, n) == victim <==>
      Tag(L1, victim) < 8 && Tag(L1, n) % 8 == Tag(L1, victim) % 8
  {
    hide Join;
    SecondName(victim);
    SecondName(n);
    Naming(L2, victim);
    Unnaming(L2, Tag(L1, victim) / 64, Index(L2, n));
  }

  lemma SecondName(n: LineNo)
    ensures Tag(L2, n) == Tag(L1, n) / 8 && Index(L2, n) == Tag(L1, n) % 8 * 64 + Index(L1, n)
  {
    Naming(L1, n);
    Renaming(Tag(L1, n), Index(L1, n));
  }

  /** Line 512, evicted for line 0 of the same set, would be entered as line 0. */
  lemma MissMisnames()
    ensures Index(L1, 512) == Index(L1, 0) && NamedAfterMiss(512, 0) == 0
  {
  }

  /** A second-level hit always names the line that has just moved up, never its victim. */
  lemma HitNamesNewLine(n: LineNo)
    ensures NamedAfterHit(n) == n
  {
    SecondName(n);
    Naming(L2, n);
  }
}
