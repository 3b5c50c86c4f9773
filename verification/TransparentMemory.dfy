/**
 * Reads and writes through the exclusive caches against flat memory: whatever the
 * caches hold and whatever ways are chosen, the program sees memory.
 */
module TransparentMemory {
  import opened Machine
  import opened FlatMemory
  import opened CacheSets
  import opened ExclusiveCache

  datatype Op = ReadWord(a: Word) | ReadByte(a: Word) | WriteWord(a: Word, w: Word) | WriteByte(a: Word, b: Byte)

  /** What the operation does to flat memory, and what it returns (0 for a write). */
  function FlatStep(mem: Memory, op: Op): (Memory, Word) {
    match op
    case ReadWord(a) => (mem, WordAt(mem, WordBase(a)))
    case ReadByte(a) => (mem, mem[a])
    case WriteWord(a, w) => (StoreWord(mem, WordBase(a), w), 0)
    case WriteByte(a, b) => (mem[a := b], 0)
  }

  /** The word of the first-level line an address falls in. */
  function WordIn(st: State, a: Word): Word
    requires StateOk(st)
  {
    match WayOf(L1, st.l1, LineOf(a))
    case Some(w) => st.l1[Index(L1, LineOf(a))][w].line[Slot(a)]
    case None => 0
  }

  /** Write-through: the word goes into the first-level line and into memory. */
  function Overwrite(st: State, a: Word, word: Word): (r: State)
    requires StateOk(st)
    ensures StateOk(r)
  {
    match WayOf(L1, st.l1, LineOf(a))
    case Some(w) =>
      var i := Index(L1, LineOf(a));
      var e := st.l1[i][w];
      State(StoreWord(st.mem, WordBase(a), word),
            st.l1[i := st.l1[i][w := e.(line := e.line[Slot(a) := word])]],
            st.l2)
    case None => st
  }

  function Step(st: State, op: Op, c: Choice): (r: (State, Word))
    requires StateOk(st)
    ensures StateOk(r.0)
  {
    var near := Bring(st, LineOf(op.a), c);
    match op
    case ReadWord(a) => (near, WordIn(near, a))
    case ReadByte(a) => (near, ByteOf(WordIn(near, a), a % 4))
    case WriteWord(a, w) => (Overwrite(near, a, w), 0)
    case WriteByte(a, b) =>
      // a read followed by a write of the same word, like cache_write_byte
      (Overwrite(Bring(near, LineOf(a), c), a, SetByte(WordIn(near, a), a % 4, b)), 0)
  }

  lemma WordInIsMemory(st: State, a: Word)
    requires Inv(st) && Present(L1, st.l1, LineOf(a))
    ensures WordIn(st, a) == WordAt(st.mem, WordBase(a))
  {
    hide Index, Tag, WordAt;
    WayOfPresent(L1, st.l1, LineOf(a));
    SlotIsWord(st.mem, a);
  }

  lemma OverwriteHolds(st: State, a: Word, word: Word, n: LineNo, x: nat)
    requires StateOk(st)
    ensures var r := Overwrite(st, a, word);
      && (HoldsLine(L1, r.l1, n, x) <==> HoldsLine(L1, st.l1, n, x))
      && (Present(L1, r.l1, n) <==> Present(L1, st.l1, n))
  {
    hide Index, Tag;
    var r := Overwrite(st, a, word);
    assert forall y: nat :: HoldsLine(L1, r.l1, n, y) <==> HoldsLine(L1, st.l1, n, y);
  }

  /** The write keeps both levels equal to memory: the line written is nowhere else. */
  lemma OverwriteKeepsInv(st: State, a: Word, word: Word)
    requires Inv(st) && Present(L1, st.l1, LineOf(a))
    ensures Inv(Overwrite(st, a, word))
    ensures Overwrite(st, a, word).mem == StoreWord(st.mem, WordBase(a), word)
  {
    hide Index, Tag, StoreWord, LineAt;
    var r, n := Overwrite(st, a, word), LineOf(a);
    WayOfPresent(L1, st.l1, n);
    forall m: LineNo, x: nat | HoldsLine(L1, r.l1, m, x)
      ensures r.l1[Index(L1, m)][x].line == LineAt(r.mem, m)
    {
      OverwriteHolds(st, a, word, m, x);
      LineAfterStore(st.mem, a, word, m);
      Naming(L1, m);
      Naming(L1, n);
    }
    forall m: LineNo, x: nat | HoldsLine(L2, r.l2, m, x)
      ensures r.l2[Index(L2, m)][x].line == LineAt(r.mem, m)
    {
      assert Present(L2, st.l2, m);
      LineAfterStore(st.mem, a, word, m);
    }
    forall m: LineNo, x: nat, y: nat | HoldsLine(L1, r.l1, m, x) && HoldsLine(L1, r.l1, m, y) ensures x == y {
      OverwriteHolds(st, a, word, m, x);
      OverwriteHolds(st, a, word, m, y);
    }
    forall m: LineNo ensures !(Present(L1, r.l1, m) && Present(L2, r.l2, m)) {
      OverwriteHolds(st, a, word, m, 0);
    }
  }

  /** One operation is what flat memory would do, and keeps the caches exclusive and true. */
  lemma StepIsFlat(st: State, op: Op, c: Choice)
    requires Inv(st)
    ensures var (r, out) := Step(st, op, c);
      Inv(r) && (r.mem, out) == FlatStep(st.mem, op)
  {
    hide Bring, WordIn, Overwrite, Inv;
    assert StateOk(st) by { InvOk(st); }
    var near := Bring(st, LineOf(op.a), c);
    AccessConserves(st, LineOf(op.a), c);
    WordInIsMemory(near, op.a);
    match op {
      case ReadWord(a) =>
      case ReadByte(a) => ByteInWord(st.mem, a);
      case WriteWord(a, w) => OverwriteKeepsInv(near, a, w);
      case WriteByte(a, b) =>
        AccessConserves(near, LineOf(a), c);
        OverwriteKeepsInv(Bring(near, LineOf(a), c), a, SetByte(WordIn(near, a), a % 4, b));
        StoreByte(st.mem, a, b);
    }
  }

  lemma InvOk(st: State)
    requires Inv(st)
    ensures StateOk(st)
  {
  }

  // Whole runs from flushed caches.

  function Flushed(mem: Memory): (st: State)
    ensures StateOk(st)
  {
    State(mem, seq(64, _ => seq(4, _ => EMPTY_ENTRY)), seq(512, _ => seq(8, _ => EMPTY_ENTRY)))
  }

  datatype Request = Request(op: Op, choice: Choice)

  function Run(mem: Memory, reqs: seq<Request>): (st: State)
    ensures StateOk(st)
  {
    if reqs == [] then Flushed(mem)
    else Step(Run(mem, reqs[..|reqs| - 1]), reqs[|reqs| - 1].op, reqs[|reqs| - 1].choice).0
  }

  function Outputs(mem: Memory, reqs: seq<Request>): seq<Word> {
    if reqs == [] then []
    else
      var before, r := reqs[..|reqs| - 1], reqs[|reqs| - 1];
      Outputs(mem, before) + [Step(Run(mem, before), r.op, r.choice).1]
  }

  function FlatRun(mem: Memory, reqs: seq<Request>): Memory {
    if reqs == [] then mem
    else FlatStep(FlatRun(mem, reqs[..|reqs| - 1]), reqs[|reqs| - 1].op).0
  }

  function FlatOutputs(mem: Memory, reqs: seq<Request>): seq<Word> {
    if reqs == [] then []
    else
      var before, r := reqs[..|reqs| - 1], reqs[|reqs| - 1];
      FlatOutputs(mem, before) + [FlatStep(FlatRun(mem, before), r.op).1]
  }

  lemma FlushedInv(mem: Memory)
    ensures Inv(Flushed(mem))
  {
  }

  /**
   * Transparent memory: over any interleaving of word and byte reads and writes,
   * and any choice of ways, every value read and the memory left behind are those
   * of flat memory; and every line is in at most one place, equal to memory.
   */
  lemma {:induction false} CachesAreTransparent(mem: Memory, reqs: seq<Request>)
    ensures Inv(Run(mem, reqs))
    ensures Run(mem, reqs).mem == FlatRun(mem, reqs) && Outputs(mem, reqs) == FlatOutputs(mem, reqs)
  {
    hide Step, FlatStep, Inv;
    if reqs == [] {
      FlushedInv(mem);
    } else {
      var before, r := reqs[..|reqs| - 1], reqs[|reqs| - 1];
      CachesAreTransparent(mem, before);
      StepIsFlat(Run(mem, before), r.op, r.choice);
    }
  }
}
