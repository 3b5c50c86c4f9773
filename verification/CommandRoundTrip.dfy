/** Printing a program and reading the text back. */
module CommandRoundTrip {
  import opened Machine
  import opened Address
  import opened Commands
  import opened CommandText

  function Power16(width: nat): nat {
    if width == 0 then 1 else 16 * Power16(width - 1)
  }

  /** A number that fits is padded to the width exactly. */
  lemma {:induction false} HexWidth(n: nat, width: nat)
    requires 0 < width && n < Power16(width)
    ensures |Hex(n, width)| == width
  {
    if width > 1 {
      HexWidth(n / 16, width - 1);
    }
  }

  /** The lines of accepted commands have one length per form. */
  lemma LineLength(c: Command)
    requires Accepted(c)
    ensures |PrintLine(c)| ==
      if c.kind == Instruction then 24
      else if c.order == READ then 25
      else if c.size == 1 then 30 else 36
  {
    hide Hex;
    assert Power16(2) == 0x100;
    assert Power16(8) == Power16(2) * Power16(2) * Power16(2) * Power16(2);
    assert Power16(16) == Power16(8) * Power16(8);
    HexWidth(ToUint64(c.vaddr), 16);
    if c.order == WRITE {
      HexWidth(c.data, if c.size == 1 then 2 else 8);
    }
  }

  /** What reading gives for a printed command: a size other than 1 counts as a word, data is kept for data writes. */
  function Normal(c: Command): Command {
    Command(c.order, c.kind,
            if c.kind == Instruction then 0 else if c.size == 1 then 1 else WORD_SIZE,
            if c.order == WRITE then c.data else 0,
            c.vaddr.(reserved := 0))
  }

  /** An instruction write prints without data but is read as if it had some; every other command reads back. */
  predicate Printable(c: Command) {
    c.kind == Data || c.order == READ
  }

  function PrintedNumeral(n: nat, width: nat): (x: Numeral)
    ensures GoodNumeral(x)
  {
    Numeral("", "", "", Hex(n, width), n, width)
  }

  /** The line printed for a command. */
  function PrintedAs(c: Command): (l: Line)
    ensures GoodLine(l)
  {
    Line("", c.order, " ", c.kind, c.size != 1, " ", PrintedNumeral(c.data, if c.size == 1 then 2 else 8), " ",
         PrintedNumeral(ToUint64(c.vaddr), 16), '\n')
  }

  lemma NumeralPrinted(n: nat, width: nat, after: string)
    ensures NumeralText(PrintedNumeral(n, width), after) == Hex(n, width) + after
  {
    hide Hex;
    var t := Hex(n, width) + after;
    assert "" + t == t;
  }

  lemma AddressPrinted(c: Command, after: string)
    ensures " " + AddressField(PrintedAs(c), after) == AddressText(c.vaddr) + after
  {
    hide Hex;
    var h := Hex(ToUint64(c.vaddr), 16);
    NumeralPrinted(ToUint64(c.vaddr), 16, after);
    assert " @0x" == " " + ("@" + ("0" + "x"));
    assert " " + ("@" + ("0" + ("x" + (h + after)))) == " @0x" + h + after;
  }

  lemma DataPrinted(c: Command, after: string)
    requires Printable(c)
    ensures " " + DataField(PrintedAs(c), after) == DataText(c) + (AddressText(c.vaddr) + after)
  {
    hide Hex, AddressText, AddressField, NumeralText, ToUint64;
    var address := AddressText(c.vaddr) + after;
    AddressPrinted(c, after);
    if c.order == READ {
      assert "" + address == address;
    } else {
      var width := if c.size == 1 then 2 else 8;
      var h := Hex(c.data, width);
      NumeralPrinted(c.data, width, address);
      assert " 0x" == " " + ("0" + "x");
      assert " " + ("0" + ("x" + (h + address))) == (" 0x" + h) + address;
    }
  }

  lemma LinePrinted(c: Command, rest: string)
    requires Printable(c)
    ensures LineText(PrintedAs(c), ['\n'] + rest) == PrintLine(c) + rest
  {
    hide KindField, KindText, DataField, DataText, AddressText;
    var after := "\n" + rest;
    DataPrinted(c, after);
    var kind := if c.kind == Instruction then "I" else "D" + (if c.size == 1 then "B" else "W");
    var data := DataText(c) + (AddressText(c.vaddr) + after);
    KindPrinted(c, after, data);
    var order := [OrderChar(c.order)];
    assert order == if c.order == READ then "R" else "W";
    var t := order + (KindText(c) + data);
    assert "" + t == t;
    Regroup(order, KindText(c), DataText(c), AddressText(c.vaddr), "\n", rest);
  }

  lemma Regroup(a: string, b: string, c: string, d: string, e: string, f: string)
    ensures a + (b + (c + (d + (e + f)))) == a + b + c + d + e + f
  {
    assert a + b + c + d + e + f == a + b + c + d + (e + f) == a + b + c + (d + (e + f));
    assert a + b + c + (d + (e + f)) == a + b + (c + (d + (e + f)));
  }

  lemma KindPrinted(c: Command, after: string, data: string)
    requires " " + DataField(PrintedAs(c), after) == data
    ensures " " + KindField(PrintedAs(c), after) == KindText(c) + data
  {
    hide DataField;
    var d := DataField(PrintedAs(c), after);
    if c.kind == Instruction {
      assert " " + ("I" + (" " + d)) == " I" + (" " + d);
    } else {
      var letter := if c.size == 1 then "B" else "W";
      assert [' ', 'D', SizeChar(c.size)] == " " + ("D" + letter);
      assert " " + ("D" + (letter + (" " + d))) == " " + ("D" + letter) + (" " + d);
    }
  }

  /** A printed command is read back in its normal form. */
  lemma CommandPrinted(c: Command)
    requires Printable(c)
    ensures LineCommand(PrintedAs(c)) == Normal(c) && (Takes(PrintedAs(c)) <==> (c.order == WRITE ==> c.data <= 0xff))
  {
    hide Hex, ToUint64, OfUint64;
    UnpackPacked(c.vaddr);
  }

  /** The listing after reading: the normal forms of all commands but the writes of more than a byte. */
  function ReadBack(cs: seq<Command>): seq<Command> {
    if cs == [] then []
    else (if cs[0].order == WRITE && cs[0].data > 0xff then [] else [Normal(cs[0])]) + ReadBack(cs[1..])
  }

  function LinesOf(cs: seq<Command>): (ls: seq<Line>)
    ensures |ls| == |cs| && forall i :: 0 <= i < |ls| ==> GoodLine(ls[i])
  {
    seq(|cs|, i requires 0 <= i < |cs| => PrintedAs(cs[i]))
  }

  lemma {:induction false} PrintedIsText(cs: seq<Command>, tail: string)
    requires forall i :: 0 <= i < |cs| ==> Printable(cs[i])
    ensures Print(cs) + tail == TextOf(LinesOf(cs), tail) && Taken(LinesOf(cs)) == ReadBack(cs)
  {
    hide PrintLine, LineText, PrintedAs, Normal, LineCommand, Takes;
    if cs == [] {
      assert "" + tail == tail;
    } else {
      assert LinesOf(cs)[1..] == LinesOf(cs[1..]);
      PrintedIsText(cs[1..], tail);
      LinePrinted(cs[0], Print(cs[1..]) + tail);
      EndsWithNewline(cs[0]);
      CommandPrinted(cs[0]);
      assert PrintLine(cs[0]) + (Print(cs[1..]) + tail) == PrintLine(cs[0]) + Print(cs[1..]) + tail;
    }
  }

  lemma EndsWithNewline(c: Command)
    ensures PrintedAs(c).end == '\n'
  {
  }

  /**
   * Reading printed text, whatever follows it, gives each command's normal form, except
   * that writes of more than a byte are lost without an error.
   */
  lemma PrintedReadsBack(cs: seq<Command>, tail: string)
    requires forall i :: 0 <= i < |cs| ==> Printable(cs[i])
    ensures ReadAll(Print(cs) + tail) == (ReadAll(tail).0, ReadBack(cs) + ReadAll(tail).1)
  {
    hide ReadAll, ReadBack, TextOf, Taken, Print;
    PrintedIsText(cs, tail);
    ReadLines(LinesOf(cs), tail);
  }

  /** With nothing after it, reading takes it all and ends. */
  lemma PrintThenRead(cs: seq<Command>)
    requires forall i :: 0 <= i < |cs| ==> Printable(cs[i])
    ensures ReadAll(Print(cs)) == (Finished, ReadBack(cs))
  {
    PrintedReadsBack(cs, "");
    TailDecides("", '?', "");
    hide ReadAll, ReadBack, Print;
    assert Print(cs) + "" == Print(cs);
    assert ReadBack(cs) + [] == ReadBack(cs);
  }

  /** One blank after the last line, and program_read never returns, whatever it has read so far. */
  lemma TrailingBlanksLoop(cs: seq<Command>, blanks: string)
    requires forall i :: 0 <= i < |cs| ==> Printable(cs[i])
    requires Blank(blanks) && blanks != ""
    ensures ReadAll(Print(cs) + blanks) == (Looping, ReadBack(cs))
  {
    PrintedReadsBack(cs, blanks);
    TailDecides(blanks, '?', "");
    hide ReadAll, ReadBack, Print;
    assert ReadBack(cs) + [] == ReadBack(cs);
  }

  lemma {:induction false} AcceptedReadBack(cs: seq<Command>)
    requires forall i :: 0 <= i < |cs| ==> Accepted(cs[i])
    ensures |ReadBack(cs)| == |cs| && forall i :: 0 <= i < |cs| ==> ReadBack(cs)[i] == Normal(cs[i])
  {
    if cs != [] {
      AcceptedReadBack(cs[1..]);
    }
  }

  /**
   * The round trip: a program of accepted commands reads back as it was iff no data
   * size exceeds a word and no reserved address bit is set.
   */
  lemma RoundTripIff(cs: seq<Command>)
    requires forall i :: 0 <= i < |cs| ==> Accepted(cs[i])
    ensures ReadAll(Print(cs)) == (Finished, cs) <==>
      forall i :: 0 <= i < |cs| ==> cs[i].size <= WORD_SIZE && cs[i].vaddr.reserved == 0
  {
    hide Accepted, ReadBack, Normal, Print, ReadAll;
    AllPrintable(cs);
    PrintThenRead(cs);
    AcceptedReadBack(cs);
    forall i | 0 <= i < |cs|
      ensures ReadBack(cs)[i] == cs[i] <==> cs[i].size <= WORD_SIZE && cs[i].vaddr.reserved == 0
    {
      NormalIff(cs[i]);
    }
    var back := ReadBack(cs);
    assert ReadAll(Print(cs)) == (Finished, cs) <==> back == cs;
    assert back == cs <==> forall i :: 0 <= i < |cs| ==> back[i] == cs[i];
  }

  lemma AllPrintable(cs: seq<Command>)
    requires forall i :: 0 <= i < |cs| ==> Accepted(cs[i])
    ensures forall i :: 0 <= i < |cs| ==> Printable(cs[i])
  {
  }

  lemma NormalIff(c: Command)
    requires Accepted(c)
    ensures Normal(c) == c <==> c.size <= WORD_SIZE && c.vaddr.reserved == 0
  {
    assert c.size <= WORD_SIZE && c.size % WORD_SIZE == 0 ==> c.size == 0 || c.size == WORD_SIZE;
  }
}
