/**
 * The command language: the program listing, its printer and its reader. A FILE
 * is the characters still to be read; a read past the end sets `eof` and leaves the
 * character read last in place, as fscanf does.
 */
module Commands {
  import opened Machine
  import opened Address

  datatype Order = READ | WRITE

  datatype Command = Command(order: Order, kind: Access, size: nat, data: Word, vaddr: VirtAddr)

  const WORD_SIZE := 4
  const NO_COMMAND := Command(READ, Instruction, 0, 0, VirtAddr(0, 0, 0, 0, 0, 0))

  /** The commands program_add_command takes. Write data is capped at 0xff even for words. */
  predicate Accepted(c: Command) {
    && (c.size == 0 || c.size == 1 || c.size % WORD_SIZE == 0)
    && (c.order == READ ==> c.data == 0)
    && match c.kind
       case Instruction => c.order == READ && c.size == 0
       case Data => c.size != 0 && (c.order == WRITE ==> c.data <= 0xff)
  }

  /** The listing, grown by doubling. */
  class Program {
    var listing: array<Command>
    var nbLines: nat
    var capacity: nat

    ghost predicate Valid()
      reads this
    {
      0 < capacity <= listing.Length && nbLines <= capacity
    }

    ghost function Contents(): seq<Command>
      requires Valid()
      reads this, listing
    {
      listing[..nbLines]
    }

    /** program_init: room for ten, of which it counts eight, the size of an address. */
    constructor ()
      ensures Valid() && Contents() == [] && fresh(listing)
      ensures capacity == 8 && listing.Length == 10
    {
      nbLines := 0;
      capacity := 8;
      listing := new Command[10](_ => NO_COMMAND);
    }

    method AddCommand(c: Command) returns (err: Option<Error>)
      requires Valid()
      modifies this, listing
      ensures Valid() && (listing == old(listing) || fresh(listing))
      ensures err.None? <==> Accepted(c)
      ensures Contents() == if Accepted(c) then old(Contents()) + [c] else old(Contents())
      ensures capacity == if Accepted(c) && old(nbLines == capacity) then 2 * old(capacity) else old(capacity)
    {
      if c.size != 0 && c.size != 1 && c.size % WORD_SIZE != 0 { return Some(BadParameter); }
      if c.order == READ && c.data != 0 { return Some(BadParameter); }
      if c.kind == Instruction {
        if c.order == WRITE || c.size != 0 { return Some(BadParameter); }
      } else {
        if c.size == 0 { return Some(BadParameter); }
        if c.order == WRITE && c.data > 0xff { return Some(BadParameter); }
      }
      if nbLines == capacity {
        capacity := 2 * capacity;
        Reallocate(capacity);
      }
      listing[nbLines] := c;
      nbLines := nbLines + 1;
      err := None;
    }

    method Reallocate(size: nat)
      requires nbLines <= size && nbLines <= listing.Length
      modifies this`listing
      ensures fresh(listing) && listing.Length == size && listing[..nbLines] == old(listing[..nbLines])
    {
      var kept := listing;
      var grown := new Command[size](_ => NO_COMMAND);
      for i := 0 to nbLines
        invariant listing == kept && nbLines <= kept.Length && grown[..i] == kept[..i]
        invariant kept[..] == old(listing[..])
      {
        grown[i] := kept[i];
      }
      listing := grown;
    }

    /** The exact room needed; an empty listing keeps room for ten. */
    method Shrink()
      requires Valid()
      modifies this
      ensures Valid() && Contents() == old(Contents())
      ensures capacity == listing.Length == if nbLines > 0 then nbLines else 10
    {
      capacity := if nbLines > 0 then nbLines else 10;
      Reallocate(capacity);
    }
  }

  // Printing.

  function HexDigit(d: nat): char
    requires d < 16
  {
    "0123456789ABCDEF"[d]
  }

  /** %0<width>X: zero padded to the width, longer if need be. */
  function Hex(n: nat, width: nat): (r: string)
    ensures 1 <= |r|
    decreases n, width
  {
    if n < 16 && width <= 1 then [HexDigit(n)]
    else Hex(n / 16, if width == 0 then 0 else width - 1) + [HexDigit(n % 16)]
  }

  function OrderChar(o: Order): char {
    if o == READ then 'R' else 'W'
  }

  function SizeChar(size: nat): char {
    if size == 1 then 'B' else 'W'
  }

  function KindText(c: Command): string {
    if c.kind == Instruction then " I" else [' ', 'D', SizeChar(c.size)]
  }

  /** Only a data write prints its data. */
  function DataText(c: Command): string {
    if c.kind == Data && c.order == WRITE then " 0x" + Hex(c.data, if c.size == 1 then 2 else 8) else ""
  }

  function AddressText(v: VirtAddr): string {
    " @0x" + Hex(ToUint64(v), 16)
  }

  function PrintLine(c: Command): string {
    [OrderChar(c.order)] + KindText(c) + DataText(c) + AddressText(c.vaddr) + "\n"
  }

  function Print(cs: seq<Command>): string {
    if cs == [] then "" else PrintLine(cs[0]) + Print(cs[1..])
  }

  method ProgramPrint(program: Program) returns (text: string)
    requires program.Valid()
    ensures text == Print(program.Contents())
  {
    hide PrintLine;
    text := "";
    ghost var cs := program.Contents();
    for i := 0 to program.nbLines
      invariant text + Print(cs[i..]) == Print(cs)
    {
      var line := program.listing[i];
      assert cs[i..][1..] == cs[i + 1..];
      assert text + (PrintLine(line) + Print(cs[i + 1..])) == text + PrintLine(line) + Print(cs[i + 1..]);
      text := text + PrintLine(line);
    }
    assert cs[|cs|..] == [];
  }

  // Reading.

  datatype Scanner = Scanner(rest: string, eof: bool, ch: char)

  /** Endless: a loop that skips blanks meets the end of the file on a blank and never leaves. */
  datatype Scan<T> = Got(value: T, s: Scanner) | Bad | Endless

  predicate IsSpace(c: char) {
    c == ' ' || c == '\t' || c == '\n' || c == '\U{b}' || c == '\U{c}' || c == '\r'
  }

  function Next(s: Scanner): Scanner {
    if s.rest == [] then s.(eof := true) else Scanner(s.rest[1..], s.eof, s.rest[0])
  }

  /** Nothing, when the end of the file is met on a blank. */
  function SkipSpaces(s: Scanner): (r: Option<Scanner>)
    ensures r.Some? ==> |r.value.rest| <= |s.rest| && (s.eof ==> r.value.eof)
    decreases |s.rest|
  {
    if !IsSpace(s.ch) then Some(s)
    else if s.rest == [] then None
    else SkipSpaces(Next(s))
  }

  predicate IsHex(c: char) {
    '0' <= c <= '9' || 'A' <= c <= 'F' || 'a' <= c <= 'f'
  }

  function HexValueOf(c: char): nat
    requires IsHex(c)
  {
    if c <= '9' then (c - '0') as int else if c <= 'F' then (c - 'A') as int + 10 else (c - 'a') as int + 10
  }

  /** How many hexadecimal digits r starts with. */
  function HexRun(r: string): (k: nat)
    ensures k <= |r| && forall i :: 0 <= i < k ==> IsHex(r[i])
    ensures k < |r| ==> !IsHex(r[k])
  {
    if r == [] || !IsHex(r[0]) then 0 else 1 + HexRun(r[1..])
  }

  function HexNumber(digits: string): nat
    requires forall i :: 0 <= i < |digits| ==> IsHex(digits[i])
  {
    if digits == [] then 0
    else HexNumber(digits[..|digits| - 1]) * 16 + HexValueOf(digits[|digits| - 1])
  }

  function DropSpaces(r: string): (t: string)
    ensures |t| <= |r|
  {
    if r != [] && IsSpace(r[0]) then DropSpaces(r[1..]) else r
  }

  function DropSign(r: string): (t: string)
    ensures |t| <= |r|
  {
    if r != [] && (r[0] == '-' || r[0] == '+') then r[1..] else r
  }

  function DropPrefix(r: string): (t: string)
    ensures |t| <= |r|
  {
    if |r| >= 2 && r[0] == '0' && (r[1] == 'x' || r[1] == 'X') then r[2..] else r
  }

  const ULONG := 0x1_0000_0000_0000_0000

  function Fit(n: nat, negative: bool): U64 {
    var clamped := if n < ULONG then n else ULONG - 1;
    if negative then (ULONG - clamped) % ULONG else clamped
  }

  /**
   * The %x conversion: blanks, an optional sign, an optional 0x and the longest run
   * of digits; with no digits the target keeps its initial 0. Numbers saturate at 64
   * bits, a minus sign negates modulo 2^64.
   */
  function ScanHex(s: Scanner): (r: (U64, Scanner))
    ensures |r.1.rest| <= |s.rest| && (s.eof ==> r.1.eof) && r.1.ch == s.ch
  {
    var r0 := DropSpaces(s.rest);
    var negative := r0 != [] && r0[0] == '-';
    var r2 := DropPrefix(DropSign(r0));
    var k := HexRun(r2);
    (Fit(HexNumber(r2[..k]), negative), Scanner(r2[k..], s.eof || r2[k..] == [], s.ch))
  }

  function ReadOrder(s: Scanner): (r: Scan<Order>)
    ensures r.Got? ==> |r.s.rest| <= |s.rest| && (s.eof ==> r.s.eof)
  {
    match SkipSpaces(s)
    case None => Endless
    case Some(s1) =>
      if s1.ch == 'W' then Got(WRITE, s1) else if s1.ch == 'R' then Got(READ, s1) else Bad
  }

  /** Kind and data size; the scanner has moved to the first character that is not blank. */
  function ReadKind(s: Scanner): (r: Scan<(Access, nat)>)
    ensures r.Got? ==> |r.s.rest| <= |s.rest| && (s.eof ==> r.s.eof)
  {
    match SkipSpaces(Next(s))
    case None => Endless
    case Some(s1) =>
      if s1.ch == 'I' then Got((Instruction, 0), s1)
      else if s1.ch == 'D' then
        var s2 := Next(s1);
        if s2.ch == 'W' then Got((Data, WORD_SIZE), s2)
        else if s2.ch == 'B' then Got((Data, 1), s2)
        else Bad
      else Bad
  }

  function ReadData(s: Scanner, order: Order): (r: Scan<Word>)
    ensures r.Got? ==> |r.s.rest| <= |s.rest| && (s.eof ==> r.s.eof)
  {
    match SkipSpaces(Next(s))
    case None => Endless
    case Some(s1) =>
      if order == READ then Got(0, s1)
      else if s1.ch != '0' || Next(s1).ch != 'x' then Bad
      else
        var (n, s2) := ScanHex(Next(s1));
        match SkipSpaces(Next(s2))
        case None => Endless
        case Some(s3) => Got(n % 0x1_0000_0000, s3)
  }

  function ReadAddress(s: Scanner): (r: Scan<VirtAddr>)
    ensures r.Got? ==> |r.s.rest| <= |s.rest| && (s.eof ==> r.s.eof)
  {
    if s.ch != '@' || Next(s).ch != '0' || Next(Next(s)).ch != 'x' then Bad
    else
      var (n, s1) := ScanHex(Next(Next(s)));
      Got(OfUint64(n), s1)
  }

  function ReadCommand(s: Scanner): (r: Scan<Command>)
    ensures r.Got? ==> |r.s.rest| <= |s.rest| && (s.eof ==> r.s.eof)
  {
    match ReadOrder(s)
    case Bad => Bad
    case Endless => Endless
    case Got(order, s1) =>
      match ReadKind(s1)
      case Bad => Bad
      case Endless => Endless
      case Got((kind, size), s2) =>
        match ReadData(s2, order)
        case Bad => Bad
        case Endless => Endless
        case Got(data, s3) =>
          match ReadAddress(s3)
          case Bad => Bad
          case Endless => Endless
          case Got(vaddr, s4) => Got(Command(order, kind, size, data, vaddr), s4)
  }

  datatype Ending = Finished | Rejected | Looping

  function Room(s: Scanner): nat {
    |s.rest| + if s.eof then 0 else 1
  }

  /** The commands read from s on, and how reading ends. What AddCommand refuses is skipped in silence. */
  function ReadFrom(s: Scanner): (Ending, seq<Command>)
    decreases Room(s)
  {
    if s.eof then (Finished, [])
    else
      match ReadCommand(s)
      case Bad => (Rejected, [])
      case Endless => (Looping, [])
      case Got(c, s1) =>
        var (ending, cs) := ReadFrom(Next(Next(s1)));
        (ending, (if Accepted(c) then [c] else []) + cs)
  }

  /** Before the first read the character is indeterminate; at the end of an empty file it is never used. */
  function ReadAll(text: string): (Ending, seq<Command>) {
    ReadFrom(Next(Scanner(text, false, '\0')))
  }

  /** The blank-skipping loop, stopped where that of program_read would never stop. */
  method SkipBlanks(s: Scanner) returns (r: Option<Scanner>)
    ensures r == SkipSpaces(s)
  {
    var t := s;
    while IsSpace(t.ch)
      invariant SkipSpaces(t) == SkipSpaces(s)
      decreases |t.rest|
    {
      if t.rest == [] {
        return None;
      }
      t := Next(t);
    }
    r := Some(t);
  }

  method ReadOneCommand(start: Scanner) returns (r: Scan<Command>)
    ensures r == ReadCommand(start)
  {
    var c := NO_COMMAND;
    var skipped := SkipBlanks(start);
    if skipped.None? { return Endless; }
    var s := skipped.value;
    if s.ch != 'W' && s.ch != 'R' { return Bad; }
    c := c.(order := if s.ch == 'W' then WRITE else READ);

    skipped := SkipBlanks(Next(s));
    if skipped.None? { return Endless; }
    s := skipped.value;
    if s.ch == 'I' {
      c := c.(kind := Instruction, size := 0);
    } else if s.ch == 'D' {
      s := Next(s);
      if s.ch != 'W' && s.ch != 'B' { return Bad; }
      c := c.(kind := Data, size := if s.ch == 'B' then 1 else WORD_SIZE);
    } else {
      return Bad;
    }
    assert ReadKind(ReadOrder(start).s) == Got((c.kind, c.size), s);

    skipped := SkipBlanks(Next(s));
    if skipped.None? { return Endless; }
    s := skipped.value;
    if c.order == WRITE {
      if s.ch != '0' { return Bad; }
      s := Next(s);
      if s.ch != 'x' { return Bad; }
      var (n, after) := ScanHex(s);
      c := c.(data := n % 0x1_0000_0000);
      skipped := SkipBlanks(Next(after));
      if skipped.None? { return Endless; }
      s := skipped.value;
    }

    if s.ch != '@' { return Bad; }
    s := Next(s);
    if s.ch != '0' { return Bad; }
    s := Next(s);
    if s.ch != 'x' { return Bad; }
    var (n, after) := ScanHex(s);
    c := c.(vaddr := OfUint64(n));
    r := Got(c, after);
  }

  /** One turn of the loop: what is left to read once a command has been read. */
  lemma ReadFromStep(s: Scanner, so: seq<Command>)
    requires !s.eof && ReadCommand(s).Got?
    ensures var c, rest := ReadCommand(s).value, ReadFrom(Next(Next(ReadCommand(s).s)));
      && Room(Next(Next(ReadCommand(s).s))) < Room(s)
      && ReadFrom(s).0 == rest.0
      && so + ReadFrom(s).1 == (if Accepted(c) then so + [c] else so) + rest.1
  {
    hide ReadCommand, Accepted;
    var c, rest := ReadCommand(s).value, ReadFrom(Next(Next(ReadCommand(s).s)));
    assert so + ([c] + rest.1) == so + [c] + rest.1;
    assert so + ([] + rest.1) == so + rest.1;
  }

  method ProgramRead(text: string) returns (ending: Ending, program: Program)
    ensures program.Valid() && fresh(program)
    ensures (ending, program.Contents()) == ReadAll(text)
  {
    hide ReadCommand, Accepted;
    program := new Program();
    var s := Next(Scanner(text, false, '\0'));
    while !s.eof
      invariant program.Valid() && fresh(program) && fresh(program.listing)
      invariant ReadAll(text).0 == ReadFrom(s).0
      invariant ReadAll(text).1 == program.Contents() + ReadFrom(s).1
      decreases Room(s)
    {
      assert program.Contents() + [] == program.Contents();
      var read := ReadOneCommand(s);
      match read {
        case Bad => return Rejected, program;
        case Endless => return Looping, program;
        case Got(_, _) =>
      }
      ReadFromStep(s, program.Contents());
      hide ReadFrom, Room, Next;
      var ignored := program.AddCommand(read.value);
      s := Next(Next(read.s));
    }
    assert program.Contents() + [] == program.Contents();
    ending := Finished;
  }
}
