/**
  * The ASA carriage-control converter `AsaStreamState` of native/c/zds.cpp, and the printer it
  * writes for: blank lines become spacing, a form feed becomes a new page.
  */
module AsaText {
  import opened Common

  const SINGLE: byte := BLANK  // ' ': advance one row
  const DOUBLE: byte := ZERO   // '0': advance two rows
  const TRIPLE: byte := MINUS  // '-': advance three rows
  const PAGE: byte := ZERO + 1 // '1': first row of the next page
  const TRIPLE_SPACE_LINES := 3

  datatype PrepareResult = PrepareResult(skipLine: bool, overflowRecords: nat, asaChar: byte)

  // ---------- the converter as a function of its blank count ----------

  predicate StartsPage(line: seq<byte>) { line != [] && line[0] == FORM_FEED }

  /** The line without the form feed in front of it. */
  function Content(line: seq<byte>): seq<byte> {
    if StartsPage(line) then line[1..] else line
  }

  predicate IsBlank(line: seq<byte>) { line == [] }

  function BlanksAfter(blanks: nat, line: seq<byte>): nat {
    if IsBlank(line) then blanks + 1 else 0
  }

  function Spacing(blanks: nat): byte
    requires blanks < TRIPLE_SPACE_LINES
  {
    if blanks == 0 then SINGLE else if blanks == 1 then DOUBLE else TRIPLE
  }

  function Prepared(blanks: nat, line: seq<byte>): PrepareResult {
    if IsBlank(line) then PrepareResult(true, 0, 0)
    else PrepareResult(false, blanks / TRIPLE_SPACE_LINES,
                       if StartsPage(line) then PAGE else Spacing(blanks % TRIPLE_SPACE_LINES))
  }

  class AsaStreamState {
    var blankCount: nat
    var isFirstLine: bool

    constructor ()
      ensures blankCount == 0 && isFirstLine
    {
      blankCount, isFirstLine := 0, true;
    }

    method HasOverflowBlanks() returns (overflow: bool)
      modifies this`blankCount
      ensures overflow <==> old(blankCount) >= TRIPLE_SPACE_LINES
      ensures blankCount == old(blankCount) - if overflow then TRIPLE_SPACE_LINES else 0
    {
      if blankCount >= TRIPLE_SPACE_LINES {
        blankCount := blankCount - TRIPLE_SPACE_LINES;
        return true;
      }
      return false;
    }

    method GetAsaCharAndReset(hasFormfeed: bool) returns (asaChar: byte)
      requires blankCount < TRIPLE_SPACE_LINES
      modifies this
      ensures asaChar == if hasFormfeed then PAGE else Spacing(old(blankCount))
      ensures blankCount == 0 && !isFirstLine
    {
      asaChar := SINGLE;
      if hasFormfeed {
        asaChar := PAGE;
      } else if blankCount == 1 {
        asaChar := DOUBLE;
      } else if blankCount == 2 {
        asaChar := TRIPLE;
      }
      blankCount := 0;
      isFirstLine := false;
    }

    method PrepareLine(line: seq<byte>) returns (result: PrepareResult, content: seq<byte>)
      modifies this
      ensures result == Prepared(old(blankCount), line) && content == Content(line)
      ensures blankCount == BlanksAfter(old(blankCount), line)
    {
      content := line;
      var hasFormfeed := |line| > 0 && line[0] == FORM_FEED;
      if hasFormfeed {
        content := line[1..];
      }
      if content == [] && !hasFormfeed {
        blankCount := blankCount + 1;
        return PrepareResult(true, 0, 0), content;
      }
      var overflowRecords := 0;
      var more := HasOverflowBlanks();
      while more
        invariant more ==> blankCount + TRIPLE_SPACE_LINES * (overflowRecords + 1) == old(blankCount)
        invariant !more ==> blankCount + TRIPLE_SPACE_LINES * overflowRecords == old(blankCount) &&
                            blankCount < TRIPLE_SPACE_LINES
        decreases more, blankCount
      {
        overflowRecords := overflowRecords + 1;
        more := HasOverflowBlanks();
      }
      var asaChar := GetAsaCharAndReset(hasFormfeed);
      result := PrepareResult(false, overflowRecords, asaChar);
    }
  }

  // ---------- the records of a text ----------

  /** A record: its control character and the text behind it. */
  datatype Record = Record(asa: byte, text: seq<byte>)

  function Overflow(n: nat): seq<Record> { seq(n, i => Record(TRIPLE, [])) }

  function LineRecords(blanks: nat, line: seq<byte>): seq<Record> {
    var p := Prepared(blanks, line);
    if p.skipLine then [] else Overflow(p.overflowRecords) + [Record(p.asaChar, Content(line))]
  }

  function BlanksAfterAll(lines: seq<seq<byte>>): nat {
    if lines == [] then 0 else BlanksAfter(BlanksAfterAll(lines[..|lines| - 1]), lines[|lines| - 1])
  }

  function Records(lines: seq<seq<byte>>): seq<Record> {
    if lines == [] then []
    else
      var init := lines[..|lines| - 1];
      Records(init) + LineRecords(BlanksAfterAll(init), lines[|lines| - 1])
  }

  // ---------- the printer and the page the author meant ----------

  datatype Position = Position(page: nat, row: nat)

  const TOP := Position(0, 0)

  /** Text printed somewhere. */
  datatype Mark = Mark(at: Position, text: seq<byte>)

  /** The printer: `1` begins a page, blank, `0` and `-` move down one, two and three rows. */
  function Advance(p: Position, asa: byte): Position {
    if asa == 0xF1 then Position(p.page + 1, 1)
    else Position(p.page, p.row + if asa == 0x40 then 1 else if asa == 0xF0 then 2 else if asa == 0x60 then 3 else 0)
  }

  function PrintedEnd(rs: seq<Record>): Position {
    if rs == [] then TOP else Advance(PrintedEnd(rs[..|rs| - 1]), rs[|rs| - 1].asa)
  }

  function Printed(rs: seq<Record>): seq<Mark> {
    if rs == [] then []
    else
      var last := rs[|rs| - 1];
      Printed(rs[..|rs| - 1]) + if last.text == [] then [] else [Mark(PrintedEnd(rs), last.text)]
  }

  /** In the source every line takes the next row, or the first row of the next page. */
  function SourceEnd(lines: seq<seq<byte>>): Position {
    if lines == [] then TOP
    else
      After(SourceEnd(lines[..|lines| - 1]), lines[|lines| - 1])
  }

  function After(before: Position, line: seq<byte>): Position {
    if StartsPage(line) then Position(before.page + 1, 1) else Position(before.page, before.row + 1)
  }

  /** What a line puts on the page, where the lines before it end at `before`. */
  function MarkOf(before: Position, line: seq<byte>): seq<Mark> {
    if Content(line) == [] then [] else [Mark(After(before, line), Content(line))]
  }

  function SourceMarks(lines: seq<seq<byte>>): seq<Mark> {
    if lines == [] then []
    else
      var init := lines[..|lines| - 1];
      SourceMarks(init) + MarkOf(SourceEnd(init), lines[|lines| - 1])
  }

  lemma {:induction false} PrintedSnoc(rs: seq<Record>, r: Record)
    ensures PrintedEnd(rs + [r]) == Advance(PrintedEnd(rs), r.asa)
    ensures Printed(rs + [r]) == Printed(rs) + if r.text == [] then [] else [Mark(Advance(PrintedEnd(rs), r.asa), r.text)]
  {
    assert (rs + [r])[..|rs|] == rs;
  }

  /** Overflow records move down three rows each and print nothing. */
  lemma {:induction false} PrintedOverflow(rs: seq<Record>, n: nat)
    ensures Printed(rs + Overflow(n)) == Printed(rs)
    ensures PrintedEnd(rs + Overflow(n)) == Position(PrintedEnd(rs).page, PrintedEnd(rs).row + 3 * n)
  {
    if n == 0 {
      assert rs + Overflow(0) == rs;
    } else {
      var dash := Record(TRIPLE, []);
      PrintedOverflow(rs, n - 1);
      PrintedSnoc(rs + Overflow(n - 1), dash);
      assert Overflow(n) == Overflow(n - 1) + [dash];
      AppendAssoc(rs, Overflow(n - 1), [dash]);
    }
  }

  /** The records of one line, printed where the printer is `blanks` rows behind the source. */
  lemma {:induction false} PrintedLine(rs: seq<Record>, blanks: nat, line: seq<byte>, before: Position)
    requires !IsBlank(line)
    requires PrintedEnd(rs).page == before.page && PrintedEnd(rs).row + blanks == before.row
    ensures PrintedEnd(rs + LineRecords(blanks, line)) == After(before, line)
    ensures Printed(rs + LineRecords(blanks, line)) == Printed(rs) + MarkOf(before, line)
  {
    var p := Prepared(blanks, line);
    PrintedOverflow(rs, p.overflowRecords);
    PrintedSnoc(rs + Overflow(p.overflowRecords), Record(p.asaChar, Content(line)));
    AppendAssoc(rs, Overflow(p.overflowRecords), [Record(p.asaChar, Content(line))]);
  }

  /**
    * The printer stays on the page of the source, and the rows it is behind are the blank
    * lines still being counted, and nothing else: so only blank rows before a page end or
    * the end of the data can be lost.
    */
  lemma {:induction false} BehindByBlankRowsOnly(lines: seq<seq<byte>>)
    ensures PrintedEnd(Records(lines)).page == SourceEnd(lines).page
    ensures PrintedEnd(Records(lines)).row + BlanksAfterAll(lines) == SourceEnd(lines).row
  {
    if lines != [] {
      var init, last := lines[..|lines| - 1], lines[|lines| - 1];
      BehindByBlankRowsOnly(init);
      if IsBlank(last) {
        assert Records(lines) == Records(init);
      } else {
        PrintedLine(Records(init), BlanksAfterAll(init), last, SourceEnd(init));
      }
    }
  }

  lemma {:induction false} BlankLast(lines: seq<seq<byte>>)
    requires lines != [] && IsBlank(lines[|lines| - 1])
    ensures Records(lines) == Records(lines[..|lines| - 1])
    ensures SourceMarks(lines) == SourceMarks(lines[..|lines| - 1])
  {
  }

  /**
    * Every non-blank line is printed on the page and row where the source has it, for any
    * number of blank lines in between.
    */
  lemma {:induction false} PrintsWhereTheSourceHasIt(lines: seq<seq<byte>>)
    ensures Printed(Records(lines)) == SourceMarks(lines)
  {
    if lines != [] {
      PrintsWhereTheSourceHasIt(lines[..|lines| - 1]);
      var init, last := lines[..|lines| - 1], lines[|lines| - 1];
      if IsBlank(last) {
        BlankLast(lines);
      } else {
        BehindByBlankRowsOnly(init);
        PrintedLine(Records(init), BlanksAfterAll(init), last, SourceEnd(init));
      }
    }
  }
}
