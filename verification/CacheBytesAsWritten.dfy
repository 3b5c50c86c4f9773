/**
 * cache_write_byte as written: it refuses the byte 0, reads the word at the address,
 * ors the shifted byte into it and writes the result at the same address.
 */
module CacheBytesAsWritten {
  import opened Machine
  import opened FlatMemory
  import opened CacheSets
  import opened ExclusiveCache
  import opened CacheAsWritten
  import opened CacheWritesAsWritten

  function PowerOfTwo(k: nat): nat {
    if k == 0 then 1 else 2 * PowerOfTwo(k - 1)
  }

  /** The or of the k low bits of two numbers. */
  function OrBits(x: nat, y: nat, k: nat): (r: nat)
    ensures r < PowerOfTwo(k)
  {
    if k == 0 then 0
    else 2 * OrBits(x / 2, y / 2, k - 1) + if x % 2 == 1 || y % 2 == 1 then 1 else 0
  }

  /** Every one of the k low bits set in x is set in y. */
  predicate BitsWithin(x: nat, y: nat, k: nat) {
    k == 0 || ((x % 2 == 1 ==> y % 2 == 1) && BitsWithin(x / 2, y / 2, k - 1))
  }

  lemma {:induction false} OrBitsIff(x: nat, y: nat, k: nat)
    requires y < PowerOfTwo(k)
    ensures OrBits(x, y, k) == y <==> BitsWithin(x, y, k)
  {
    if k != 0 {
      OrBitsIff(x / 2, y / 2, k - 1);
    }
  }

  lemma {:induction false} ZeroWithin(y: nat, k: nat)
    ensures BitsWithin(0, y, k)
  {
    if k != 0 {
      ZeroWithin(y / 2, k - 1);
    }
  }

  lemma {:induction false} OrCommutes(x: nat, y: nat, k: nat)
    ensures OrBits(x, y, k) == OrBits(y, x, k)
  {
    if k != 0 {
      OrCommutes(x / 2, y / 2, k - 1);
    }
  }

  lemma EightBits()
    ensures PowerOfTwo(8) == 0x100
  {
    assert PowerOfTwo(4) == 16;
    assert PowerOfTwo(6) == 64;
  }

  function OrByte(x: Byte, y: Byte): Byte {
    EightBits();
    OrBits(x, y, 8)
  }

  predicate Within(x: Byte, y: Byte) {
    BitsWithin(x, y, 8)
  }

  lemma OrByteIff(x: Byte, y: Byte)
    ensures OrByte(x, y) == y <==> Within(x, y)
  {
    EightBits();
    OrBitsIff(x, y, 8);
  }

  lemma OrZero(x: Byte)
    ensures OrByte(x, 0) == x == OrByte(0, x)
  {
    ZeroWithin(x, 8);
    OrByteIff(0, x);
    OrCommutes(x, 0, 8);
  }

  /** Or works on the bytes of a word one by one. */
  function OrWord(w: Word, v: Word): Word {
    Compose(OrByte(ByteOf(w, 0), ByteOf(v, 0)), OrByte(ByteOf(w, 1), ByteOf(v, 1)),
            OrByte(ByteOf(w, 2), ByteOf(v, 2)), OrByte(ByteOf(w, 3), ByteOf(v, 3)))
  }

  /** A byte shifted left by i bytes. */
  function Shifted(byte: Byte, i: nat): Word
    requires i < 4
  {
    match i
    case 0 => byte
    case 1 => 0x100 * byte
    case 2 => 0x1_0000 * byte
    case _ => 0x100_0000 * byte
  }

  lemma ShiftedBytes(byte: Byte, i: nat)
    requires i < 4
    ensures forall j :: 0 <= j < 4 ==> ByteOf(Shifted(byte, i), j) == if j == i then byte else 0
  {
    hide ByteOf;
    match i {
      case 0 =>
        assert Shifted(byte, i) == Compose(byte, 0, 0, 0);
        ComposeBytes(byte, 0, 0, 0);
      case 1 =>
        assert Shifted(byte, i) == Compose(0, byte, 0, 0);
        ComposeBytes(0, byte, 0, 0);
      case 2 =>
        assert Shifted(byte, i) == Compose(0, 0, byte, 0);
        ComposeBytes(0, 0, byte, 0);
      case _ =>
        assert Shifted(byte, i) == Compose(0, 0, 0, byte);
        ComposeBytes(0, 0, 0, byte);
    }
  }

  /** Or-ing in a shifted byte changes that byte of the word only. */
  lemma OrShifted(w: Word, byte: Byte, i: nat)
    requires i < 4
    ensures OrWord(w, Shifted(byte, i)) == SetByte(w, i, OrByte(ByteOf(w, i), byte))
  {
    hide ByteOf, Shifted, OrByte;
    ShiftedBytes(byte, i);
    OrZero(ByteOf(w, 0));
    OrZero(ByteOf(w, 1));
    OrZero(ByteOf(w, 2));
    OrZero(ByteOf(w, 3));
  }

  /** Stopped: a second-level hit or an evicting write, neither of which is followed. */
  datatype ByteEnding = Written | Refused | Stopped

  function WriteByteStep(st: DataState, phy: Phy, byte: Byte): (r: (DataState, ByteEnding))
    requires TablesOk(st)
    ensures TablesOk(r.0)
  {
    if byte == 0 then (st, Refused)
    else
      var (after, end) := Step(st, ReadAt(phy));
      if !end.Returned? then (st, Stopped)
      else
        var (r, done) := WriteStep(after, phy, OrWord(end.word, Shifted(byte, phy % 4)));
        (r, if done == Done then Written else Stopped)
  }

  method CacheWriteByte(mem: array<Byte>, l1: Cache, l2: Cache, phy: Phy, byte: Byte) returns (end: ByteEnding)
    requires mem.Length == MEM_BYTES
    requires l1.Valid() && l2.Valid() && l1.sets != l2.sets && l1.ways == 4 && l2.ways == 8
    requires TableOk(L1, l1.sets[..]) && TableOk(L2, l2.sets[..])
    modifies mem, l1.sets, l2.sets
    ensures var (r, expected) := WriteByteStep(old(DataState(mem[..], l1.sets[..], l2.sets[..])), phy, byte);
      end == expected && (end != Stopped ==> r == DataState(mem[..], l1.sets[..], l2.sets[..]))
  {
    hide OrWord, Shifted, WriteStep, ReadL1, ReadOutcome;
    if byte == 0 {
      return Refused;
    }
    ghost var st := DataState(mem[..], l1.sets[..], l2.sets[..]);
    var out := CacheRead(mem, l1, l2, phy);
    if out.SecondLevelHit? {
      return Stopped;
    }
    assert DataState(mem[..], l1.sets[..], l2.sets[..]) == Step(st, ReadAt(phy)).0;
    var done := CacheWrite(mem, l1, l2, phy, OrWord(out.word, Shifted(byte, phy % 4)));
    end := if done == Done then Written else Stopped;
  }

  /** The 16 bytes a write at phy works on: its line if held, else what the read before it copied. */
  function Copied(st: DataState, phy: Phy): (line: seq<Word>)
    requires TablesOk(st)
    ensures |line| == LINE_WORDS
  {
    if FirstLevelMiss(st.l1, phy) then RawLine(st.mem, phy) else LineAt(st.mem, LineOf(phy))
  }

  /** After the read the line is there, so the write hits it. */
  lemma ReadThenHolds(st: DataState, phy: Phy)
    requires Good(st)
    ensures var t, n := ReadL1(st.mem, st.l1, phy), LineOf(phy);
      var found := Scan(t[Index(L1, n)], Tag(L1, n));
      found.Some? && t[Index(L1, n)][found.value].line == Copied(st, phy)
  {
    hide Index, Tag, RawLine, WordAt;
    var n := LineOf(phy);
    var i, t := Index(L1, n), ReadL1(st.mem, st.l1, phy);
    ScanIsFind(st.l1, n);
    WayOfPresent(L1, st.l1, n);
    assert PrefixedSet(st.l1[i]);
    if FirstLevelMiss(st.l1, phy) {
      var w := Chosen(st.l1[i]);
      var line := RawLine(st.mem, phy);
      EnterAt(L1, st.l1, t, n, w, line, st.mem, n, w);
      assert forall x :: 0 <= x < 4 ==> (t[i][x].v <==> st.l1[i][x].v || x == w);
      ScanIsFind(t, n);
      WayOfPresent(L1, t, n);
      assert Present(L1, t, n);
      EnterAt(L1, st.l1, t, n, w, line, st.mem, n, WayOf(L1, t, n).value);
    } else {
      ReadKeepsGood(st, phy);
      ScanIsFind(t, n);
      WayOfPresent(L1, t, n);
      HitStays(st, phy);
    }
  }

  lemma HitStays(st: DataState, phy: Phy)
    requires Good(st) && !FirstLevelMiss(st.l1, phy)
    ensures Present(L1, ReadL1(st.mem, st.l1, phy), LineOf(phy))
  {
    hide Index, Tag;
    var n := LineOf(phy);
    var w := Scan(st.l1[Index(L1, n)], Tag(L1, n)).value;
    assert HoldsLine(L1, ReadL1(st.mem, st.l1, phy), n, w);
  }

  /** With the byte not 0, one word of those 16 bytes gets the byte or-ed in, and they are copied to phy. */
  lemma ByteWritten(st: DataState, phy: Phy, byte: Byte)
    requires Good(st) && byte != 0
    ensures var (r, end) := WriteByteStep(st, phy, byte);
      var line := Copied(st, phy);
      && end == Written
      && r.mem == StoreLine(st.mem, phy, line[Slot(phy) := OrWord(line[Slot(phy)], Shifted(byte, phy % 4))])
  {
    hide Index, Tag, Slot, RawLine, OrWord, Shifted, StoreLine, ReadL1;
    ReadThenHolds(st, phy);
    ReadIsCopied(st, phy);
  }

  lemma ReadIsCopied(st: DataState, phy: Phy)
    requires Good(st)
    ensures ReadOutcome(st.mem, st.l1, st.l2, phy) == Value(Copied(st, phy)[Slot(phy)])
  {
    hide Index, Tag, Slot, RawLine, WordAt;
    var n := LineOf(phy);
    GoodMisses(st, phy);
    var found := Scan(st.l1[Index(L1, n)], Tag(L1, n));
    assert found.Some? ==> HoldsLine(L1, st.l1, n, found.value);
  }

  /** The write comes out right: it returns, and changes its byte of memory and nothing else. */
  ghost predicate ByteRight(st: DataState, phy: Phy, byte: Byte)
    requires TablesOk(st)
  {
    var (r, end) := WriteByteStep(st, phy, byte);
    end == Written && r.mem == st.mem[phy := byte]
  }

  /** At the start of a line the byte left in memory is the or of the two, and the first level stays good. */
  lemma AlignedByte(st: DataState, phy: Phy, byte: Byte)
    requires Good(st) && phy % 16 == 0 && byte != 0
    ensures var (r, end) := WriteByteStep(st, phy, byte);
      end == Written && r.mem == st.mem[phy := OrByte(st.mem[phy], byte)] && Good(r)
  {
    hide Prefixed, OrWord, Shifted, StoreLine, StoreWord, WordAt, Copied, WriteByteStep;
    AlignedLine(st.mem, phy);
    ByteWritten(st, phy, byte);
    AlignedByteGood(st, phy, byte);
    var word := WordAt(st.mem, phy);
    AlignedWrite(st, phy, OrWord(word, Shifted(byte, 0)));
    OrShifted(word, byte, 0);
    ByteInWord(st.mem, phy);
    StoreByte(st.mem, phy, OrByte(st.mem[phy], byte));
  }

  lemma AlignedWrite(st: DataState, phy: Phy, word: Word)
    requires TablesOk(st) && phy % 16 == 0
    ensures Slot(phy) == 0 && Copied(st, phy)[0] == WordAt(st.mem, phy)
    ensures StoreLine(st.mem, phy, Copied(st, phy)[0 := word]) == StoreWord(st.mem, phy, word)
  {
    hide StoreLine, StoreWord, FirstLevelMiss;
    AlignedLine(st.mem, phy);
    AlignedStore(st.mem, phy, LineAt(st.mem, LineOf(phy)), word);
    SlotIsWord(st.mem, phy);
  }

  lemma AlignedByteGood(st: DataState, phy: Phy, byte: Byte)
    requires Good(st) && phy % 16 == 0 && byte != 0
    ensures Good(WriteByteStep(st, phy, byte).0)
  {
    hide Prefixed, OrWord, Shifted, StoreWord, WordAt, WriteStep, DataRead;
    ByteWritten(st, phy, byte);
    ReadIsRight(st, phy, false);
    var (after, end) := Step(st, ReadAt(phy));
    WriteIsRight(after, phy, OrWord(end.word, Shifted(byte, phy % 4)));
  }

  /** So there it is right iff the byte is not 0 and the old one has no bit outside it. */
  lemma AlignedByteIff(st: DataState, phy: Phy, byte: Byte)
    requires Good(st) && phy % 16 == 0
    ensures ByteRight(st, phy, byte) <==> byte != 0 && Within(st.mem[phy], byte)
    ensures Good(WriteByteStep(st, phy, byte).0)
  {
    hide Good, Within;
    if byte != 0 {
      hide WriteByteStep;
      AlignedByte(st, phy, byte);
      OrByteIff(st.mem[phy], byte);
      var m := st.mem;
      assert m[phy := OrByte(m[phy], byte)][phy] == OrByte(m[phy], byte) && m[phy := byte][phy] == byte;
    }
  }

  /** Byte b of word j of a line copied to memory at phy. */
  lemma CopiedByte(mem: Memory, phy: Phy, line: seq<Word>, j: nat, b: nat)
    requires |line| == LINE_WORDS && j < 4 && b < 4
    ensures StoreLine(mem, phy, line)[phy + 4 * j + b] == ByteOf(line[j], b)
  {
    hide ByteOf;
    var m1 := StoreWord(mem, phy, line[0]);
    var m2 := StoreWord(m1, phy + 4, line[1]);
    var m3 := StoreWord(m2, phy + 8, line[2]);
    var m4 := StoreWord(m3, phy + 12, line[3]);
    var a := phy + 4 * j + b;
    if j == 0 {
      assert m1[a] == m2[a] == m3[a] == m4[a];
    } else if j == 1 {
      assert m2[a] == m3[a] == m4[a];
    } else if j == 2 {
      assert m3[a] == m4[a];
    }
  }

  /** Zeroes but for one byte. */
  ghost function OnlyAt(a: Word, byte: Byte): Memory {
    Zeroes()[a := byte]
  }

  lemma SetBytes(w: Word, i: nat, byte: Byte)
    requires i < 4
    ensures forall k :: 0 <= k < 4 ==> ByteOf(SetByte(w, i, byte), k) == if k == i then byte else ByteOf(w, k)
  {
    hide ByteOf;
    ComposeBytes(if i == 0 then byte else ByteOf(w, 0), if i == 1 then byte else ByteOf(w, 1),
                 if i == 2 then byte else ByteOf(w, 2), if i == 3 then byte else ByteOf(w, 3));
  }

  /** Any of the 16 bytes after the write. */
  lemma ByteLeft(st: DataState, phy: Phy, byte: Byte, j: nat, b: nat)
    requires Good(st) && byte != 0 && j < 4 && b < 4
    ensures var was := ByteOf(Copied(st, phy)[j], b);
      WriteByteStep(st, phy, byte).0.mem[phy + 4 * j + b] ==
        if j == Slot(phy) && b == phy % 4 then OrByte(was, byte) else was
  {
    hide Prefixed, WriteByteStep, StoreLine, Slot, ByteOf, OrWord, Shifted, Copied, SetByte, OrByte;
    var slot, line := Slot(phy), Copied(st, phy);
    ByteWritten(st, phy, byte);
    OrShifted(line[slot], byte, phy % 4);
    SetBytes(line[slot], phy % 4, OrByte(ByteOf(line[slot], phy % 4), byte));
    CopiedByte(st.mem, phy, line[slot := OrWord(line[slot], Shifted(byte, phy % 4))], j, b);
  }

  /** Off a line boundary, on a miss: the byte lands beyond its address. */
  lemma MissedByte(st: DataState, phy: Phy, byte: Byte)
    requires Good(st) && phy % 16 != 0 && byte != 0 && FirstLevelMiss(st.l1, phy)
    requires st.mem == OnlyAt(phy, st.mem[phy])
    ensures phy < phy + 4 * Slot(phy) + phy % 4 < MEM_BYTES
    ensures WriteByteStep(st, phy, byte).0.mem[phy + 4 * Slot(phy) + phy % 4] == byte
    ensures st.mem[phy + 4 * Slot(phy) + phy % 4] == 0
  {
    hide Good, FirstLevelMiss, WriteByteStep, Slot, ByteOf, WordAt, OrByte;
    PastTheByte(phy);
    RawByte(st.mem, phy, Slot(phy), phy % 4);
    OrZero(byte);
    ByteLeft(st, phy, byte, Slot(phy), phy % 4);
  }

  lemma RawByte(mem: Memory, phy: Phy, j: nat, b: nat)
    requires j < 4 && b < 4
    ensures ByteOf(RawLine(mem, phy)[j], b) == mem[phy + 4 * j + b]
  {
    ByteOfWord(mem, phy + 4 * j, b);
  }

  /** Off a line boundary, on a hit: the start of the line is copied over the byte. */
  lemma HitByte(st: DataState, phy: Phy, byte: Byte)
    requires Good(st) && phy % 16 != 0 && byte != 0 && !FirstLevelMiss(st.l1, phy)
    requires st.mem == OnlyAt(phy, st.mem[phy])
    ensures WriteByteStep(st, phy, byte).0.mem[phy] == 0
  {
    hide Good, FirstLevelMiss, WriteByteStep, Slot, ByteOf, WordAt, OrByte;
    var n: nat := LineOf(phy);
    PastTheByte(phy);
    assert 16 * n != phy;
    ByteOfWord(st.mem, 16 * n, 0);
    ByteLeft(st, phy, byte, 0, 0);
  }

  /**
   * cache_write_byte, whatever the first level holds: for a given old byte it comes out
   * right on every memory iff the address starts a line, the byte is not 0 and the old
   * byte has no bit outside it.
   */
  lemma ByteWriteRightIff(st: DataState, phy: Phy, byte: Byte, was: Byte)
    requires Good(st)
    ensures phy % 16 == 0 && byte != 0 && Within(was, byte) <==>
      forall st' :: Good(st') && StatesAlike(st, st') && st'.mem[phy] == was ==> ByteRight(st', phy, byte)
  {
    hide StatesAlike, WriteByteStep, FirstLevelMiss, Within, OnlyAt, Retold;
    if phy % 16 == 0 && byte != 0 && Within(was, byte) {
      forall st' | Good(st') && StatesAlike(st, st') && st'.mem[phy] == was ensures ByteRight(st', phy, byte) {
        AlignedByteIff(st', phy, byte);
      }
    } else {
      var mem := OnlyAt(phy, was);
      var st' := DataState(mem, Retold(st.l1, mem), st.l2);
      RetoldGood(st, mem);
      OldByte(phy, was);
      WrongByte(st', phy, byte);
    }
  }

  /** The same after any well-placed run from flushed caches, over all memories and words written. */
  lemma ByteAfterRunIff(mem0: Memory, ops: seq<Op>, phy: Phy, byte: Byte, was: Byte)
    requires NoEviction(mem0, ops) && AllPlaced(mem0, ops)
    ensures phy % 16 == 0 && byte != 0 && Within(was, byte) <==>
      forall mem, ops' :: SameAddresses(ops, ops') && DataRun(mem, ops').mem[phy] == was ==>
        ByteRight(DataRun(mem, ops'), phy, byte)
  {
    hide NoEviction, AllPlaced, SameAddresses, DataRun, ByteRight, Within, Good, OnlyAt;
    if phy % 16 == 0 && byte != 0 && Within(was, byte) {
      forall mem, ops' | SameAddresses(ops, ops') && DataRun(mem, ops').mem[phy] == was
        ensures ByteRight(DataRun(mem, ops'), phy, byte)
      {
        RunsAlike(mem0, ops, mem, ops');
        PlacedIsGood(mem, ops');
        AlignedByteIff(DataRun(mem, ops'), phy, byte);
      }
    } else {
      var mem := OnlyAt(phy, was);
      var quiet := Quiet(mem, ops);
      RunsAlike(mem0, ops, mem, quiet);
      QuietRun(mem, ops);
      OldByte(phy, was);
      WrongByte(DataRun(mem, quiet), phy, byte);
    }
  }

  lemma PlacedIsGood(mem: Memory, ops: seq<Op>)
    requires NoEviction(mem, ops) && AllPlaced(mem, ops)
    ensures Good(DataRun(mem, ops))
  {
    PlacedRunIsRight(mem, ops);
  }

  lemma OldByte(phy: Phy, was: Byte)
    ensures OnlyAt(phy, was)[phy] == was
  {
  }

  lemma WrongByte(st: DataState, phy: Phy, byte: Byte)
    requires Good(st) && st.mem == OnlyAt(phy, st.mem[phy])
    requires !(phy % 16 == 0 && byte != 0 && Within(st.mem[phy], byte))
    ensures !ByteRight(st, phy, byte)
  {
    hide Within, FirstLevelMiss;
    if byte != 0 {
      hide WriteByteStep;
      if phy % 16 == 0 {
        AlignedByteIff(st, phy, byte);
      } else if FirstLevelMiss(st.l1, phy) {
        MissedByte(st, phy, byte);
      } else {
        HitByte(st, phy, byte);
      }
    }
  }

  /** On zeroed memory and flushed caches, writing 1 at address 1 leaves that byte 0 and sets the next one. */
  lemma ByteGoesAstray()
    ensures var st := DataState(Zeroes(), Flushed().l1d, Flushed().l2);
      var (r, end) := WriteByteStep(st, 1, 1);
      Within(st.mem[1], 1) && end == Written && r.mem[1] == 0 && r.mem[2] == 1
  {
    hide WriteByteStep, ByteOf, WordAt, OrByte, Zeroes;
    var st := DataState(Zeroes(), Flushed().l1d, Flushed().l2);
    FlushedGood(Zeroes());
    FlushedMiss(1);
    ZeroWithin(1, 8);
    OrZero(1);
    ZeroBytes(1);
    ZeroBytes(2);
    RawByte(Zeroes(), 1, 0, 0);
    RawByte(Zeroes(), 1, 0, 1);
    ByteWritten(st, 1, 1);
    ByteLeft(st, 1, 1, 0, 0);
    ByteLeft(st, 1, 1, 0, 1);
  }

  lemma ZeroBytes(a: Word)
    ensures Zeroes()[a] == 0
  {
  }

  lemma FlushedMiss(phy: Phy)
    ensures FirstLevelMiss(Flushed().l1d, phy)
  {
  }
}
