/** Byte-addressed, little-endian memory, and the words and 16-byte lines in it. */
module FlatMemory {
  import opened Machine

  const MEM_BYTES := 0x1_0000_0000

  type Memory = m: seq<Byte> | |m| == MEM_BYTES ghost witness seq(MEM_BYTES, _ => 0)

  /** Address bits above the 4 that select a byte of a line. */
  type LineNo = x: int | 0 <= x < 0x1000_0000

  function Compose(b0: Byte, b1: Byte, b2: Byte, b3: Byte): Word {
    b0 + 0x100 * b1 + 0x1_0000 * b2 + 0x100_0000 * b3
  }

  function ByteOf(w: Word, i: nat): Byte
    requires i < 4
  {
    match i
    case 0 => w % 0x100
    case 1 => w / 0x100 % 0x100
    case 2 => w / 0x1_0000 % 0x100
    case _ => w / 0x100_0000
  }

  lemma ComposeBytes(b0: Byte, b1: Byte, b2: Byte, b3: Byte)
    ensures var w := Compose(b0, b1, b2, b3);
      ByteOf(w, 0) == b0 && ByteOf(w, 1) == b1 && ByteOf(w, 2) == b2 && ByteOf(w, 3) == b3
  {
    var w := Compose(b0, b1, b2, b3);
    assert w / 0x100 == b1 + 0x100 * b2 + 0x1_0000 * b3;
    assert w / 0x1_0000 == b2 + 0x100 * b3;
  }

  lemma BytesCompose(w: Word)
    ensures Compose(ByteOf(w, 0), ByteOf(w, 1), ByteOf(w, 2), ByteOf(w, 3)) == w
  {
    var q := w / 0x100;
    var r := q / 0x100;
    assert r == w / 0x1_0000 && r / 0x100 == w / 0x100_0000;
  }

  /** The word whose byte i is b and whose other bytes are those of w. */
  function SetByte(w: Word, i: nat, b: Byte): Word
    requires i < 4
  {
    Compose(if i == 0 then b else ByteOf(w, 0), if i == 1 then b else ByteOf(w, 1),
            if i == 2 then b else ByteOf(w, 2), if i == 3 then b else ByteOf(w, 3))
  }

  function WordAt(m: Memory, a: nat): Word
    requires a + 3 < MEM_BYTES
  {
    Compose(m[a], m[a + 1], m[a + 2], m[a + 3])
  }

  function StoreWord(m: Memory, a: nat, w: Word): Memory
    requires a + 3 < MEM_BYTES
  {
    m[a := ByteOf(w, 0)][a + 1 := ByteOf(w, 1)][a + 2 := ByteOf(w, 2)][a + 3 := ByteOf(w, 3)]
  }

  /** The four bytes of a word, least significant first. */
  method StoreInPlace(mem: array<Byte>, a: nat, w: Word)
    requires mem.Length == MEM_BYTES && a + 3 < MEM_BYTES
    modifies mem
    ensures mem[..] == StoreWord(old(mem[..]), a, w)
  {
    mem[a], mem[a + 1], mem[a + 2], mem[a + 3] := ByteOf(w, 0), ByteOf(w, 1), ByteOf(w, 2), ByteOf(w, 3);
  }

  function LineAt(m: Memory, n: LineNo): (r: seq<Word>)
    ensures |r| == 4
  {
    [WordAt(m, 16 * n), WordAt(m, 16 * n + 4), WordAt(m, 16 * n + 8), WordAt(m, 16 * n + 12)]
  }

  function LineOf(a: Word): LineNo { a / 16 }

  /** Which of its line's four words an address falls in. */
  function Slot(a: Word): (i: nat)
    ensures i < 4
  {
    a / 4 % 4
  }

  /** The address of that word. */
  function WordBase(a: Word): (b: Word)
    ensures b + 3 < MEM_BYTES
  {
    16 * LineOf(a) + 4 * Slot(a)
  }

  lemma WordBaseIsAligned(a: Word)
    ensures WordBase(a) == a - a % 4
  {
    var q := a / 4;
    assert a / 16 == q / 4;
  }

  lemma SlotIsWord(m: Memory, a: Word)
    ensures LineAt(m, LineOf(a))[Slot(a)] == WordAt(m, WordBase(a))
  {
  }

  lemma WordAfterStore(m: Memory, p: LineNo, j: nat, w: Word, n: LineNo, i: nat)
    requires i < 4 && j < 4
    ensures WordAt(StoreWord(m, 16 * p + 4 * j, w), 16 * n + 4 * i)
         == if p == n && j == i then w else WordAt(m, 16 * n + 4 * i)
  {
    BytesCompose(w);
  }

  /** Storing a word changes that word of its line and no other line. */
  lemma LineAfterStore(m: Memory, a: Word, w: Word, n: LineNo)
    ensures LineAt(StoreWord(m, WordBase(a), w), n)
         == if n == LineOf(a) then LineAt(m, n)[Slot(a) := w] else LineAt(m, n)
  {
    hide StoreWord, WordAt, LineOf, Slot;
    WordAfterStore(m, LineOf(a), Slot(a), w, n, 0);
    WordAfterStore(m, LineOf(a), Slot(a), w, n, 1);
    WordAfterStore(m, LineOf(a), Slot(a), w, n, 2);
    WordAfterStore(m, LineOf(a), Slot(a), w, n, 3);
  }

  lemma ByteInWord(m: Memory, a: Word)
    ensures ByteOf(WordAt(m, WordBase(a)), a % 4) == m[a]
  {
    WordBaseIsAligned(a);
    var b := WordBase(a);
    ComposeBytes(m[b], m[b + 1], m[b + 2], m[b + 3]);
  }

  /** Replacing a byte of the word in memory is replacing that byte of memory. */
  lemma StoreByte(m: Memory, a: Word, x: Byte)
    ensures StoreWord(m, WordBase(a), SetByte(WordAt(m, WordBase(a)), a % 4, x)) == m[a := x]
  {
    WordBaseIsAligned(a);
    var b, i := WordBase(a), a % 4;
    ComposeBytes(m[b], m[b + 1], m[b + 2], m[b + 3]);
    ComposeBytes(if i == 0 then x else m[b], if i == 1 then x else m[b + 1],
                 if i == 2 then x else m[b + 2], if i == 3 then x else m[b + 3]);
  }
}
