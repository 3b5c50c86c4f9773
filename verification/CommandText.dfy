/**
 * What program_read makes of text, on its own terms: any blanks or none between
 * fields, numbers in either case, padded or not, with the sign and prefix that scanf
 * allows, and anything at all after the lines read.
 */
module CommandText {
  import opened Machine
  import opened Address
  import opened Commands

  // Numbers.

  lemma DigitBack(d: nat)
    requires d < 16
    ensures HexDigit(d) == "0123456789ABCDEF"[d]
    ensures IsHex(HexDigit(d)) && HexValueOf(HexDigit(d)) == d
    ensures IsHex("0123456789abcdef"[d]) && HexValueOf("0123456789abcdef"[d]) == d
  {
    assert "0123456789ABCDEF"[d] == if d < 10 then '0' + d as char else 'A' + (d - 10) as char;
    assert "0123456789abcdef"[d] == if d < 10 then '0' + d as char else 'a' + (d - 10) as char;
  }

  lemma DigitAppended(high: string, d: nat)
    requires d < 16 && forall i :: 0 <= i < |high| ==> IsHex(high[i])
    ensures forall i :: 0 <= i <= |high| ==> IsHex((high + [HexDigit(d)])[i])
    ensures HexNumber(high + [HexDigit(d)]) == HexNumber(high) * 16 + d
  {
    DigitBack(d);
    hide HexDigit, HexValueOf;
    assert (high + [HexDigit(d)])[..|high|] == high;
  }

  /** Printed numbers are digits that read back as the number, whatever the padding. */
  lemma {:induction false} HexBack(n: nat, width: nat)
    ensures forall i :: 0 <= i < |Hex(n, width)| ==> IsHex(Hex(n, width)[i])
    ensures HexNumber(Hex(n, width)) == n
    decreases n, width
  {
    if n < 16 && width <= 1 {
      DigitAppended("", n);
      assert "" + [HexDigit(n)] == Hex(n, width);
    } else {
      var width' := if width == 0 then 0 else width - 1;
      HexBack(n / 16, width');
      DigitAppended(Hex(n / 16, width'), n % 16);
    }
  }

  /** The same digits, letters in either case. */
  predicate EitherCase(t: string, digits: string) {
    && |t| == |digits|
    && forall i :: 0 <= i < |t| ==>
         t[i] == digits[i] || ('A' <= digits[i] <= 'F' && t[i] as int == digits[i] as int - 'A' as int + 'a' as int)
  }

  lemma {:induction false} CaseIsNoMatter(t: string, digits: string)
    requires EitherCase(t, digits) && forall i :: 0 <= i < |digits| ==> IsHex(digits[i])
    ensures forall i :: 0 <= i < |t| ==> IsHex(t[i])
    ensures HexNumber(t) == HexNumber(digits)
  {
    if t != [] {
      CaseIsNoMatter(t[..|t| - 1], digits[..|t| - 1]);
      assert forall i :: 0 <= i < |t| - 1 ==> t[i] == t[..|t| - 1][i];
    }
  }

  /** A number as %x takes it, written with at least the given width. */
  datatype Numeral = Numeral(blanks: string, sign: string, prefix: string, digits: string, n: nat, width: nat)

  predicate Blank(text: string) {
    forall i :: 0 <= i < |text| ==> IsSpace(text[i])
  }

  predicate GoodNumeral(x: Numeral) {
    && Blank(x.blanks) && (x.sign == "" || x.sign == "+" || x.sign == "-")
    && (x.prefix == "" || x.prefix == "0x" || x.prefix == "0X") && EitherCase(x.digits, Hex(x.n, x.width))
  }

  /** Its text, and what comes after it. */
  function NumeralText(x: Numeral, after: string): string {
    x.blanks + (x.sign + (x.prefix + (x.digits + after)))
  }

  /** Saturating at 64 bits; a minus sign negates modulo 2^64. */
  function NumeralValue(x: Numeral): U64 {
    var n := if x.n < ULONG then x.n else ULONG - 1;
    if x.sign == "-" then (ULONG - n) % ULONG else n
  }

  /** Nothing that would be taken for part of a number. */
  predicate Ends(after: string) {
    after == "" || (!IsHex(after[0]) && after[0] != 'x' && after[0] != 'X')
  }

  lemma {:induction false} RunStops(digits: string, after: string)
    requires forall i :: 0 <= i < |digits| ==> IsHex(digits[i])
    requires Ends(after)
    ensures HexRun(digits + after) == |digits|
  {
    if digits == [] {
      assert digits + after == after;
    } else {
      assert (digits + after)[1..] == digits[1..] + after;
      RunStops(digits[1..], after);
    }
  }

  lemma {:induction false} BlanksDropped(blanks: string, t: string)
    requires Blank(blanks) && t != "" && !IsSpace(t[0])
    ensures DropSpaces(blanks + t) == t
  {
    if blanks == "" {
      assert blanks + t == t;
    } else {
      assert (blanks + t)[1..] == blanks[1..] + t;
      BlanksDropped(blanks[1..], t);
    }
  }

  lemma SignDropped(sign: string, t: string)
    requires sign == "" || sign == "+" || sign == "-"
    requires t != "" && t[0] != '+' && t[0] != '-' && !IsSpace(t[0])
    ensures DropSign(sign + t) == t
    ensures sign + t != "" && !IsSpace((sign + t)[0]) && ((sign + t)[0] == '-' <==> sign == "-")
  {
    if sign == "" {
      assert sign + t == t;
    } else {
      assert (sign + t)[1..] == t;
    }
  }

  lemma PrefixDropped(prefix: string, digits: string, after: string)
    requires prefix == "" || prefix == "0x" || prefix == "0X"
    requires digits != "" && (forall i :: 0 <= i < |digits| ==> IsHex(digits[i])) && Ends(after)
    ensures DropPrefix(prefix + (digits + after)) == digits + after
    ensures var t := prefix + (digits + after);
      t != "" && t[0] != '+' && t[0] != '-' && !IsSpace(t[0])
  {
    var t := digits + after;
    assert IsHex(t[0]);
    if prefix == "" {
      assert prefix + t == t;
      assert |t| > 1 ==> t[1] == if |digits| > 1 then digits[1] else after[0];
    } else {
      assert (prefix + t)[2..] == t;
    }
  }

  lemma StartDropped(x: Numeral, after: string)
    requires GoodNumeral(x) && Ends(after)
    ensures var r := DropSpaces(NumeralText(x, after));
      && r != "" && (r[0] == '-' <==> x.sign == "-")
      && DropPrefix(DropSign(r)) == x.digits + after
  {
    DigitsValue(x);
    hide Hex, HexNumber, DropSpaces, DropSign, DropPrefix, IsHex, IsSpace, Blank, EitherCase, Ends;
    PrefixDropped(x.prefix, x.digits, after);
    SignDropped(x.sign, x.prefix + (x.digits + after));
    BlanksDropped(x.blanks, x.sign + (x.prefix + (x.digits + after)));
  }

  lemma DigitsValue(x: Numeral)
    requires GoodNumeral(x)
    ensures x.digits != "" && HexNumber.requires(x.digits) && HexNumber(x.digits) == x.n
  {
    HexBack(x.n, x.width);
    CaseIsNoMatter(x.digits, Hex(x.n, x.width));
  }

  lemma ValueFits(x: Numeral)
    ensures NumeralValue(x) == Fit(x.n, x.sign == "-")
  {
  }

  /** %x takes the longest number there is and stops at what follows it. */
  lemma ScanNumeral(s: Scanner, x: Numeral, after: string)
    requires GoodNumeral(x) && Ends(after) && s.rest == NumeralText(x, after)
    ensures ScanHex(s) == (NumeralValue(x), Scanner(after, s.eof || after == "", s.ch))
  {
    DigitsValue(x);
    StartDropped(x, after);
    RunStops(x.digits, after);
    ValueFits(x);
    hide HexNumber, HexRun, DropSpaces, DropSign, DropPrefix, IsHex, GoodNumeral, NumeralText, Ends, Fit, NumeralValue;
    var r := x.digits + after;
    assert r[..|x.digits|] == x.digits && r[|x.digits|..] == after;
  }

  // Lines.

  /** A command as it may be written, with the blanks before each field and one character after the line. */
  datatype Line = Line(lead: string, order: Order, gap1: string, kind: Access, word: bool, gap2: string,
                       data: Numeral, gap3: string, address: Numeral, end: char)

  predicate GoodLine(l: Line) {
    && Blank(l.lead) && Blank(l.gap1) && Blank(l.gap2) && Blank(l.gap3)
    && GoodNumeral(l.data) && GoodNumeral(l.address) && Ends([l.end])
  }

  function AddressField(l: Line, after: string): string {
    "@" + ("0" + ("x" + NumeralText(l.address, after)))
  }

  /** Every write has data, even one of an instruction. */
  function DataField(l: Line, after: string): string {
    if l.order == READ then AddressField(l, after)
    else "0" + ("x" + NumeralText(l.data, l.gap3 + AddressField(l, after)))
  }

  function KindField(l: Line, after: string): string {
    match l.kind
    case Instruction => "I" + (l.gap2 + DataField(l, after))
    case Data => "D" + ((if l.word then "W" else "B") + (l.gap2 + DataField(l, after)))
  }

  function LineText(l: Line, after: string): string {
    l.lead + ((if l.order == READ then "R" else "W") + (l.gap1 + KindField(l, after)))
  }

  function LineCommand(l: Line): Command {
    Command(l.order, l.kind,
            if l.kind == Instruction then 0 else if l.word then 4 else 1,
            if l.order == READ then 0 else NumeralValue(l.data) % 0x1_0000_0000,
            OfUint64(NumeralValue(l.address)))
  }

  /** The character read last and all that is still to be read. */
  function Ahead(s: Scanner): string {
    [s.ch] + s.rest
  }

  lemma AheadNext(s: Scanner)
    requires s.rest != ""
    ensures Ahead(Next(s)) == s.rest && Next(s).eof == s.eof
  {
  }

  lemma AheadIs(s: Scanner, c: string, r: string)
    requires |c| == 1 && Ahead(s) == c + r
    ensures s == Scanner(r, s.eof, c[0])
  {
    assert Ahead(s)[0] == s.ch && Ahead(s)[1..] == s.rest;
    assert (c + r)[0] == c[0] && (c + r)[1..] == r;
  }

  lemma {:induction false} BlanksSkipped(s: Scanner, blanks: string, c: string, r: string)
    requires Blank(blanks) && |c| == 1 && !IsSpace(c[0]) && Ahead(s) == blanks + (c + r)
    ensures SkipSpaces(s) == Some(Scanner(r, s.eof, c[0]))
    decreases |blanks|
  {
    if blanks == "" {
      assert blanks + (c + r) == c + r;
      AheadIs(s, c, r);
    } else {
      assert Ahead(s)[0] == blanks[0] && Ahead(s)[1..] == blanks[1..] + (c + r) == s.rest;
      AheadNext(s);
      BlanksSkipped(Next(s), blanks[1..], c, r);
    }
  }

  lemma ReadAddressField(s: Scanner, l: Line, after: string)
    requires GoodNumeral(l.address) && Ends(after) && Ahead(s) == AddressField(l, after)
    ensures ReadAddress(s) == Got(OfUint64(NumeralValue(l.address)), Scanner(after, s.eof || after == "", 'x'))
  {
    hide ScanHex, NumeralText, NumeralValue, OfUint64, GoodNumeral;
    var number := NumeralText(l.address, after);
    AheadIs(s, "@", "0" + ("x" + number));
    assert Next(s) == Scanner("x" + number, s.eof, '0');
    assert Next(Next(s)) == Scanner(number, s.eof, 'x');
    ScanNumeral(Next(Next(s)), l.address, after);
  }

  lemma ReadDataField(s: Scanner, l: Line, after: string)
    requires GoodLine(l) && s.rest == l.gap2 + DataField(l, after)
    ensures ReadData(s, l.order).Got? && ReadData(s, l.order).value == LineCommand(l).data
    ensures Ahead(ReadData(s, l.order).s) == AddressField(l, after) && ReadData(s, l.order).s.eof == s.eof
  {
    hide ScanHex, NumeralText, NumeralValue, OfUint64, SkipSpaces, GoodNumeral, Blank;
    var tail := "0" + ("x" + NumeralText(l.address, after));
    AheadNext(s);
    if l.order == READ {
      BlanksSkipped(Next(s), l.gap2, "@", tail);
    } else {
      var number := NumeralText(l.data, l.gap3 + ("@" + tail));
      BlanksSkipped(Next(s), l.gap2, "0", "x" + number);
      var s1 := Scanner("x" + number, s.eof, '0');
      assert Next(s1) == Scanner(number, s.eof, 'x');
      GapEnds(l.gap3, tail);
      ScanNumeral(Next(s1), l.data, l.gap3 + ("@" + tail));
      var s2 := Scanner(l.gap3 + ("@" + tail), s.eof, 'x');
      AheadNext(s2);
      BlanksSkipped(Next(s2), l.gap3, "@", tail);
    }
  }

  lemma GapEnds(gap: string, tail: string)
    requires Blank(gap)
    ensures gap + ("@" + tail) != "" && Ends(gap + ("@" + tail))
  {
    var t := gap + ("@" + tail);
    assert t[0] == if gap == "" then '@' else gap[0];
  }

  lemma ReadKindField(s: Scanner, l: Line, after: string)
    requires GoodLine(l) && s.rest == l.gap1 + KindField(l, after)
    ensures ReadKind(s).Got? && ReadKind(s).value == (l.kind, LineCommand(l).size)
    ensures ReadKind(s).s.rest == l.gap2 + DataField(l, after) && ReadKind(s).s.eof == s.eof
  {
    hide NumeralText, NumeralValue, OfUint64, SkipSpaces, DataField, GoodNumeral, Blank;
    var tail := l.gap2 + DataField(l, after);
    AheadNext(s);
    if l.kind == Instruction {
      BlanksSkipped(Next(s), l.gap1, "I", tail);
    } else {
      var letter := if l.word then "W" else "B";
      BlanksSkipped(Next(s), l.gap1, "D", letter + tail);
      assert Next(Scanner(letter + tail, s.eof, 'D')) == Scanner(tail, s.eof, letter[0]);
    }
  }

  /** A line is read as its command, up to its last digit. */
  lemma ReadLine(s: Scanner, l: Line, after: string)
    requires GoodLine(l) && Ends(after) && Ahead(s) == LineText(l, after)
    ensures ReadCommand(s) == Got(LineCommand(l), Scanner(after, s.eof || after == "", 'x'))
  {
    hide ReadKind, ReadData, ReadAddress, SkipSpaces, KindField, DataField, AddressField, NumeralValue, OfUint64;
    BlanksSkipped(s, l.lead, if l.order == READ then "R" else "W", l.gap1 + KindField(l, after));
    var s1 := ReadOrder(s).s;
    ReadKindField(s1, l, after);
    var s2 := ReadKind(s1).s;
    ReadDataField(s2, l, after);
    ReadAddressField(ReadData(s2, l.order).s, l, after);
  }

  // Conversely.

  lemma {:induction false} SkippedBlanks(s: Scanner) returns (blanks: string)
    requires SkipSpaces(s).Some?
    ensures Blank(blanks) && Ahead(s) == blanks + Ahead(SkipSpaces(s).value)
    decreases |s.rest|
  {
    if IsSpace(s.ch) {
      var more := SkippedBlanks(Next(s));
      blanks := [s.ch] + more;
      AheadNext(s);
    } else {
      blanks := "";
    }
  }

  /** Past the end of the text a read leaves the character where it was. */
  lemma SkippedNext(s: Scanner) returns (blanks: string)
    requires SkipSpaces(Next(s)).Some? && !IsSpace(s.ch)
    ensures var r := SkipSpaces(Next(s)).value;
      Blank(blanks) && if s.rest == "" then r.ch == s.ch && r.rest == "" else s.rest == blanks + Ahead(r)
  {
    blanks := SkippedBlanks(Next(s));
    if s.rest != "" {
      AheadNext(s);
    }
  }

  predicate Suffix(t: string, r: string) {
    |t| <= |r| && r[|r| - |t|..] == t
  }

  lemma SuffixOfSuffix(t: string, r: string, q: string)
    requires Suffix(t, r) && Suffix(r, q)
    ensures Suffix(t, q)
  {
    assert q[|q| - |t|..] == q[|q| - |r|..][|r| - |t|..];
  }

  lemma {:induction false} SpacesFirst(r: string)
    ensures Suffix(DropSpaces(r), r)
  {
    if r != [] && IsSpace(r[0]) {
      SpacesFirst(r[1..]);
      SuffixOfSuffix(DropSpaces(r), r[1..], r);
    }
  }

  lemma SignFirst(r: string)
    ensures Suffix(DropSign(r), r) && Suffix(DropPrefix(r), r)
  {
  }

  lemma NumeralFirst(s: Scanner) returns (numeral: string)
    ensures s.rest == numeral + ScanHex(s).1.rest && ScanHex(s).1.ch == s.ch
  {
    var r0 := DropSpaces(s.rest);
    var r1 := DropSign(r0);
    var r2, t := DropPrefix(r1), ScanHex(s).1.rest;
    SpacesFirst(s.rest);
    SignFirst(r0);
    SignFirst(r1);
    assert Suffix(t, r2) by { hide DropSpaces, DropSign, DropPrefix, HexNumber, Fit; }
    hide *;
    SuffixOfSuffix(r2, r1, r0);
    SuffixOfSuffix(r2, r0, s.rest);
    SuffixOfSuffix(t, r2, s.rest);
    numeral := Before(s.rest, t);
  }

  function Before(r: string, t: string): (b: string)
    requires Suffix(t, r)
    ensures r == b + t
  {
    r[..|r| - |t|]
  }

  lemma OnlyKind(s: Scanner) returns (gap: string)
    requires ReadKind(s).Got? && (s.ch == 'R' || s.ch == 'W')
    ensures var (kind, size) := ReadKind(s).value;
      && Blank(gap) && (size == if kind == Instruction then 0 else if size == 1 then 1 else 4)
      && s.rest == gap + ((if kind == Instruction then "I" else if size == 1 then "DB" else "DW") + ReadKind(s).s.rest)
      && (ReadKind(s).s.ch == 'I' || ReadKind(s).s.ch == 'B' || ReadKind(s).s.ch == 'W')
  {
    hide SkipSpaces;
    gap := SkippedNext(s);
    var s1 := SkipSpaces(Next(s)).value;
    if s1.ch == 'D' {
      assert s1.rest != "";
      assert Ahead(s1) == ['D'] + ([s1.rest[0]] + s1.rest[1..]);
      assert [s1.rest[0]] + s1.rest[1..] == s1.rest;
    }
  }

  lemma OnlyData(s: Scanner, order: Order) returns (gap: string, data: string, gap3: string)
    requires ReadData(s, order).Got? && ReadData(s, order).s.ch == '@'
    requires s.ch == 'I' || s.ch == 'B' || s.ch == 'W'
    ensures Blank(gap) && Blank(gap3) && (order == READ ==> ReadData(s, order).value == 0)
    ensures s.rest == gap + ((if order == READ then "" else "0x" + (data + gap3)) + Ahead(ReadData(s, order).s))
  {
    hide SkipSpaces, ScanHex, Blank;
    gap := SkippedNext(s);
    data, gap3 := "", gap;
    var s1, at := SkipSpaces(Next(s)).value, Ahead(ReadData(s, order).s);
    if order == READ {
      assert "" + at == at;
    } else {
      assert s1.rest != "";
      var s2 := ScanHex(Next(s1)).1;
      data := NumeralFirst(Next(s1));
      gap3 := SkippedNext(s2);
      assert s2.rest != "";
      assert Ahead(s1) == "0" + ("x" + (data + (gap3 + at)));
      assert "0x" == "0" + "x";
      assert "0" + ("x" + (data + (gap3 + at))) == ("0x" + (data + gap3)) + at;
    }
  }

  lemma OnlyAddress(s: Scanner) returns (address: string)
    requires ReadAddress(s).Got?
    ensures Ahead(s) == "@0x" + (address + ReadAddress(s).s.rest)
  {
    hide ScanHex;
    address := NumeralFirst(Next(Next(s)));
    var tail := address + ReadAddress(s).s.rest;
    assert s.rest != "" && Next(s).rest != "";
    assert Ahead(s) == "@" + ("0" + ("x" + tail));
    assert "@0x" == "@" + ("0" + "x");
    assert "@" + ("0" + ("x" + tail)) == "@0x" + tail;
  }

  /** A command is read only from its fields in order, whatever is taken for the numbers. */
  lemma OnlyLinesRead(s: Scanner)
    returns (lead: string, gap1: string, gap2: string, data: string, gap3: string, address: string)
    requires ReadCommand(s).Got?
    ensures var c := ReadCommand(s).value;
      && Blank(lead) && Blank(gap1) && Blank(gap2) && Blank(gap3)
      && (c.order == READ ==> c.data == 0)
      && (c.size == if c.kind == Instruction then 0 else if c.size == 1 then 1 else 4)
      && Ahead(s) == lead + ((if c.order == READ then "R" else "W") + (gap1 + (
           (if c.kind == Instruction then "I" else if c.size == 1 then "DB" else "DW") + (gap2 + (
             (if c.order == READ then "" else "0x" + (data + gap3)) + ("@0x" + (address + ReadCommand(s).s.rest)))))))
  {
    hide SkipSpaces, ReadKind, ReadData, ReadAddress, Blank;
    lead := SkippedBlanks(s);
    var s1 := ReadOrder(s).s;
    gap1 := OnlyKind(s1);
    var s2 := ReadKind(s1).s;
    var s3 := ReadData(s2, ReadOrder(s).value).s;
    AddressStarts(s3);
    gap2, data, gap3 := OnlyData(s2, ReadOrder(s).value);
    address := OnlyAddress(s3);
  }

  lemma AddressStarts(s: Scanner)
    requires ReadAddress(s).Got?
    ensures s.ch == '@'
  {
  }

  // Which commands program_add_command takes.

  lemma InstructionAcceptedIff(order: Order, size: nat, data: Word, vaddr: VirtAddr)
    ensures Accepted(Command(order, Instruction, size, data, vaddr)) <==> order == READ && size == 0 && data == 0
  {
  }

  /** Data has the size of a byte or of one or more words; what is written fits a byte. */
  lemma DataAcceptedIff(order: Order, size: nat, data: Word, vaddr: VirtAddr)
    ensures Accepted(Command(order, Data, size, data, vaddr)) <==>
      (size == 1 || (0 < size && size % 4 == 0)) && data <= if order == READ then 0 else 0xff
  {
  }

  /** A line's command is lost iff it writes an instruction or more than a byte. */
  predicate Takes(l: Line) {
    l.order == WRITE ==> l.kind == Data && NumeralValue(l.data) % 0x1_0000_0000 <= 0xff
  }

  lemma AcceptedIffTakes(l: Line)
    ensures Accepted(LineCommand(l)) <==> Takes(l)
  {
    hide NumeralValue, OfUint64;
    var c := LineCommand(l);
    InstructionAcceptedIff(c.order, c.size, c.data, c.vaddr);
    DataAcceptedIff(c.order, c.size, c.data, c.vaddr);
  }

  function Taken(ls: seq<Line>): seq<Command> {
    if ls == [] then [] else (if Takes(ls[0]) then [LineCommand(ls[0])] else []) + Taken(ls[1..])
  }

  /** Lines one after the other, each with its last character, and what comes after them. */
  function TextOf(ls: seq<Line>, tail: string): string {
    if ls == [] then tail else LineText(ls[0], [ls[0].end] + TextOf(ls[1..], tail))
  }

  lemma LineStarts(l: Line, after: string)
    ensures LineText(l, after) != ""
  {
  }

  lemma ReadOneLine(l: Line, rest: string, ch: char)
    requires GoodLine(l)
    ensures ReadFrom(Next(Scanner(LineText(l, [l.end] + rest), false, ch)))
         == (ReadFrom(Next(Scanner(rest, false, l.end))).0,
             (if Takes(l) then [LineCommand(l)] else []) + ReadFrom(Next(Scanner(rest, false, l.end))).1)
  {
    var after := [l.end] + rest;
    LineStarts(l, after);
    var s := Next(Scanner(LineText(l, after), false, ch));
    AheadNext(Scanner(LineText(l, after), false, ch));
    ReadLine(s, l, after);
    assert Next(Scanner(after, false, 'x')) == Scanner(rest, false, l.end);
    AcceptedIffTakes(l);
    ReadFromStep(s, []);
    hide ReadFrom, ReadCommand, LineText, Accepted, Takes, LineCommand, Room;
    assert [] + ReadFrom(s).1 == ReadFrom(s).1;
    assert [] + [LineCommand(l)] == [LineCommand(l)];
  }

  lemma {:induction false} ReadLinesFrom(ls: seq<Line>, tail: string, ch: char)
    requires forall i :: 0 <= i < |ls| ==> GoodLine(ls[i])
    ensures ReadFrom(Next(Scanner(TextOf(ls, tail), false, ch)))
         == (ReadAll(tail).0, Taken(ls) + ReadAll(tail).1)
  {
    hide ReadFrom, ReadAll, LineText, Takes, LineCommand, GoodLine;
    if ls == [] {
      assert [] + ReadAll(tail).1 == ReadAll(tail).1;
      AtEnd(tail, ch);
    } else {
      ReadOneLine(ls[0], TextOf(ls[1..], tail), ch);
      ReadLinesFrom(ls[1..], tail, ls[0].end);
      var first := if Takes(ls[0]) then [LineCommand(ls[0])] else [];
      assert first + (Taken(ls[1..]) + ReadAll(tail).1) == first + Taken(ls[1..]) + ReadAll(tail).1;
    }
  }

  /** The character read before an empty text is never looked at. */
  lemma AtEnd(text: string, ch: char)
    ensures ReadFrom(Next(Scanner(text, false, ch))) == ReadAll(text)
  {
    hide ReadCommand;
    if text != "" {
      assert Next(Scanner(text, false, ch)) == Next(Scanner(text, false, '\0'));
    }
  }

  /** Whatever follows them, lines give their commands, less those program_add_command refuses. */
  lemma ReadLines(ls: seq<Line>, tail: string)
    requires forall i :: 0 <= i < |ls| ==> GoodLine(ls[i])
    ensures ReadAll(TextOf(ls, tail)) == (ReadAll(tail).0, Taken(ls) + ReadAll(tail).1)
  {
    ReadLinesFrom(ls, tail, '\0');
  }

  /** The last line needs no character after it. */
  lemma ReadLastLine(l: Line)
    requires GoodLine(l)
    ensures ReadAll(LineText(l, "")) == (Finished, Taken([l]))
  {
    LineStarts(l, "");
    var s := Next(Scanner(LineText(l, ""), false, '\0'));
    AheadNext(Scanner(LineText(l, ""), false, '\0'));
    ReadLine(s, l, "");
    AcceptedIffTakes(l);
    ReadFromStep(s, []);
    hide ReadCommand, LineText, Accepted, Takes, LineCommand;
    assert ReadFrom(Scanner("", true, 'x')) == (Finished, []);
    assert [l][1..] == [];
  }

  lemma {:induction false} BlanksNeverEnd(s: Scanner)
    requires IsSpace(s.ch) && Blank(s.rest)
    ensures SkipSpaces(s).None?
    decreases |s.rest|
  {
    if s.rest != [] {
      BlanksNeverEnd(Next(s));
    }
  }

  /** After the lines: nothing, and reading ends; blanks, and it never does; anything but R or W, and it fails. */
  lemma TailDecides(blanks: string, c: char, rest: string)
    requires Blank(blanks) && !IsSpace(c) && c != 'R' && c != 'W'
    ensures ReadAll("") == (Finished, [])
    ensures blanks != "" ==> ReadAll(blanks) == (Looping, [])
    ensures ReadAll(blanks + ([c] + rest)) == (Rejected, [])
  {
    hide IsSpace, SkipSpaces;
    if blanks != "" {
      BlanksNeverEnd(Next(Scanner(blanks, false, '\0')));
    }
    var text := blanks + ([c] + rest);
    assert text != "";
    AheadNext(Scanner(text, false, '\0'));
    BlanksSkipped(Next(Scanner(text, false, '\0')), blanks, [c], rest);
  }
}
