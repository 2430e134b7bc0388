/**
  * From the lines an author wrote, with either line ending, to the records of a member and the
  * pages they print: said over the text itself and the bytes it is written with.
  */
module BpamLines {
  import opened Common
  import opened AsaText
  import opened BpamText
  import opened BpamPages

  // ---------- texts with either line ending ----------

  datatype Ending = Newline | ReturnNewline

  function EndingBytes(e: Ending, newline: byte): seq<byte> {
    match e case Newline => [newline] case ReturnNewline => [0x0D, newline]
  }

  /** Each line with its ending, and what stands behind the last ending. */
  function Typed(ls: seq<seq<byte>>, ends: seq<Ending>, newline: byte, tail: seq<byte>): seq<byte>
    requires |ends| == |ls|
  {
    if ls == [] then tail else ls[0] + EndingBytes(ends[0], newline) + Typed(ls[1..], ends[1..], newline, tail)
  }

  /** A line that neither holds a newline nor ends with a carriage return. */
  predicate IsLine(line: seq<byte>, newline: byte) {
    newline !in line && (line == [] || line[|line| - 1] != 0x0D)
  }

  predicate AreLines(ls: seq<seq<byte>>, newline: byte) { forall k :: 0 <= k < |ls| ==> IsLine(ls[k], newline) }

  /** The last line, without a newline, possibly with a carriage return; an empty one is none. */
  function LastTyped(last: seq<byte>, withReturn: bool): seq<byte> { if withReturn then last + [0x0D] else last }

  function WithLast(ls: seq<seq<byte>>, last: seq<byte>): seq<seq<byte>> { if last == [] then ls else ls + [last] }

  /** The lines as the search for newlines finds them. */
  function Raw(ls: seq<seq<byte>>, ends: seq<Ending>): (raw: seq<seq<byte>>)
    requires |ends| == |ls|
    ensures |raw| == |ls|
  {
    if ls == [] then [] else [LastTyped(ls[0], ends[0].ReturnNewline?)] + Raw(ls[1..], ends[1..])
  }

  lemma {:induction false} NoNewlineInLine(line: seq<byte>, newline: byte, withReturn: bool)
    requires IsLine(line, newline) && newline != 0x0D
    ensures newline !in LastTyped(line, withReturn) && WithoutReturn(LastTyped(line, withReturn)) == line
  {
  }

  lemma {:induction false} LinesOfTyped(ls: seq<seq<byte>>, ends: seq<Ending>, newline: byte, tail: seq<byte>)
    requires |ends| == |ls| && AreLines(ls, newline) && newline != 0x0D && newline !in tail
    ensures var text := Typed(ls, ends, newline, tail);
            Complete(text, newline) == Raw(ls, ends) && Tail(text, newline) == tail
  {
    if ls != [] {
      var raw := LastTyped(ls[0], ends[0].ReturnNewline?);
      var rest := Typed(ls[1..], ends[1..], newline, tail);
      LinesOfTyped(ls[1..], ends[1..], newline, tail);
      NoNewlineInLine(ls[0], newline, ends[0].ReturnNewline?);
      FirstLineOf(raw, newline, rest);
      assert ls[0] + EndingBytes(ends[0], newline) == raw + [newline];
    }
  }

  lemma {:induction false} RawStripped(ls: seq<seq<byte>>, ends: seq<Ending>, newline: byte, k: nat)
    requires |ends| == |ls| && AreLines(ls, newline) && newline != 0x0D && k < |ls|
    ensures WithoutReturn(Raw(ls, ends)[k]) == ls[k]
  {
    if k == 0 {
      NoNewlineInLine(ls[0], newline, ends[0].ReturnNewline?);
    } else {
      RawStripped(ls[1..], ends[1..], newline, k - 1);
    }
  }

  /** Whatever endings they are written with, the lines of a text are those that were written. */
  lemma {:induction false} LogicalLinesOfTyped(ls: seq<seq<byte>>, ends: seq<Ending>, newline: byte, last: seq<byte>, withReturn: bool)
    requires |ends| == |ls| && AreLines(ls, newline) && IsLine(last, newline) && newline != 0x0D
    ensures LogicalLines(Typed(ls, ends, newline, LastTyped(last, withReturn)), newline) == WithLast(ls, last)
  {
    NoNewlineInLine(last, newline, withReturn);
    LinesOfTyped(ls, ends, newline, LastTyped(last, withReturn));
    forall k | 0 <= k < |ls|
      ensures WithoutReturn(Raw(ls, ends)[k]) == ls[k]
    {
      RawStripped(ls, ends, newline, k);
    }
    assert Stripped(Raw(ls, ends)) == ls;
    assert ls + [] == ls;
  }

  // ---------- without control characters ----------

  /** One item for each line, with nothing but the line. */
  predicate PlainItems(items: seq<Item>, ls: seq<seq<byte>>) {
    |items| == |ls| && forall k :: 0 <= k < |ls| ==> items[k] == Item(0, ls[k], 0)
  }

  lemma {:induction false} PlainLinesCollect(f: Format, raw: seq<seq<byte>>)
    requires !f.isAsa
    ensures PlainItems(AfterLines(f, START, raw).items, Stripped(raw))
  {
    if raw != [] {
      var init, last := raw[..|raw| - 1], raw[|raw| - 1];
      PlainLinesCollect(f, init);
      LastLine(f, init, last);
      assert init + [last] == raw;
      PlainNext(f, AfterLines(f, START, init), Stripped(init), last);
      assert Stripped(raw) == Stripped(init) + [WithoutReturn(last)];
    }
  }

  lemma {:induction false} PlainNext(f: Format, p: Progress, ls: seq<seq<byte>>, raw: seq<byte>)
    requires !f.isAsa && PlainItems(p.items, ls)
    ensures PlainItems(AfterLine(f, p, raw).items, ls + [WithoutReturn(raw)])
  {
  }

  lemma {:induction false} PlainText(f: Format, text: seq<byte>)
    requires !f.isAsa
    ensures PlainItems(AfterText(f, text).items, LogicalLines(text, f.newline))
  {
    var raw, tail := Complete(text, f.newline), Tail(text, f.newline);
    PlainLinesCollect(f, raw);
    if WithoutReturn(tail) == [] {
      assert Stripped(raw) + [] == Stripped(raw);
    } else {
      PlainNext(f, AfterLines(f, START, raw), Stripped(raw), tail);
    }
  }

  lemma {:induction false} PlainRecords(items: seq<Item>, ls: seq<seq<byte>>)
    requires PlainItems(items, ls)
    ensures OneShotRecords(items) == ls
  {
    if items != [] {
      var n := |items| - 1;
      PlainRecords(items[..n], ls[..n]);
      assert items[n] == Item(0, ls[n], 0);
      assert ls == ls[..n] + Dashes(0) + [ls[n]];
    }
  }

  /** The lines that are longer than the records can be, counted from one. */
  predicate TooLong(f: Format, ls: seq<seq<byte>>, n: nat) { 1 <= n <= |ls| && |ls[n - 1]| > f.maxLen }

  lemma {:induction false} NumbersAre(f: Format, items: seq<Item>, ls: seq<seq<byte>>)
    requires !f.isAsa && PlainItems(items, ls)
    ensures forall n :: n in Numbers(f, items) <==> TooLong(f, ls, n)
  {
    if items != [] {
      var k := |items| - 1;
      NumbersAre(f, items[..k], ls[..k]);
      assert items[k] == Item(0, ls[k], 0);
      assert forall n :: TooLong(f, ls, n) <==> TooLong(f, ls[..k], n) || (n == k + 1 && |ls[k]| > f.maxLen);
    }
  }

  /**
    * Without control characters, for all lines and whatever endings they are written with: both
    * writers write exactly these lines, in this order, and report exactly those that are too long.
    */
  lemma {:induction false} PlainLinesAreWritten(f: Format, ls: seq<seq<byte>>, ends: seq<Ending>, last: seq<byte>, withReturn: bool)
    requires !f.isAsa && f.newline != 0x0D
    requires |ends| == |ls| && AreLines(ls, f.newline) && IsLine(last, f.newline)
    ensures var p := AfterText(f, Typed(ls, ends, f.newline, LastTyped(last, withReturn)));
            && PlainItems(p.items, WithLast(ls, last))
            && OneShotRecords(p.items) == WithLast(ls, last)
            && StreamedRecords(p.items) == WithLast(ls, last)
            && forall n :: n in p.truncated <==> TooLong(f, WithLast(ls, last), n)
  {
    var text := Typed(ls, ends, f.newline, LastTyped(last, withReturn));
    var items := AfterText(f, text).items;
    LogicalLinesOfTyped(ls, ends, f.newline, last, withReturn);
    PlainText(f, text);
    PlainRecords(items, WithLast(ls, last));
    TextCollects(f, text);
    SameRecordsExactly(f, items);
    TextNumbered(f, text);
    NumbersAre(f, items, WithLast(ls, last));
  }

  /** A line with a carriage return and a newline behind it is the record `[c]`. */
  lemma {:induction false} WindowsLine(f: Format, c: byte)
    requires !f.isAsa && f.newline == 0x15 && c != 0x15 && c != 0x0D
    ensures AfterText(f, [c, 0x0D, 0x15]).items == [Item(0, [c], 0)]
  {
    var ls, ends := [[c]], [ReturnNewline];
    assert ls[1..] == [] && ends[1..] == [];
    assert Typed(ls, ends, 0x15, []) == [c, 0x0D, 0x15];
    assert LastTyped([], false) == [];
    PlainLinesAreWritten(f, ls, ends, [], false);
  }

  // ---------- with control characters ----------

  /** A line of a document: where it begins a page, a form feed stands in front of its text. */
  datatype Row = Row(newPage: bool, text: seq<byte>)

  function RowLine(r: Row): seq<byte> { if r.newPage then [0x0C] + r.text else r.text }

  predicate IsRow(r: Row, newline: byte) {
    IsLine(RowLine(r), newline) && (!r.newPage ==> r.text == [] || r.text[0] != 0x0C)
  }

  function RowLines(doc: seq<Row>): (ls: seq<seq<byte>>)
    ensures |ls| == |doc|
  {
    seq(|doc|, k requires 0 <= k < |doc| => RowLine(doc[k]))
  }

  /** How many pages the first `n` rows begin. */
  function PagesBegun(doc: seq<Row>, n: nat): nat
    requires n <= |doc|
  {
    if n == 0 then 0 else PagesBegun(doc, n - 1) + if doc[n - 1].newPage then 1 else 0
  }

  /** The row the page of row `k` starts with: the last one that begins a page, or the first of all. */
  function PageStart(doc: seq<Row>, k: nat): (j: nat)
    requires k < |doc|
    ensures j <= k && (j == 0 || doc[j].newPage) && forall i :: j < i <= k ==> !doc[i].newPage
  {
    if k == 0 || doc[k].newPage then k else PageStart(doc, k - 1)
  }

  function PlaceOf(doc: seq<Row>, k: nat): Position
    requires k < |doc|
  {
    Position(PagesBegun(doc, k + 1), k - PageStart(doc, k) + 1)
  }

  /** Every row that has text, at its place. */
  function Pages(doc: seq<Row>, n: nat): seq<Mark>
    requires n <= |doc|
  {
    if n == 0 then []
    else Pages(doc, n - 1) + if doc[n - 1].text == [] then [] else [Mark(PlaceOf(doc, n - 1), doc[n - 1].text)]
  }

  lemma {:induction false} RowLineIs(r: Row, newline: byte)
    requires IsRow(r, newline)
    ensures StartsPage(RowLine(r)) <==> r.newPage
    ensures Content(RowLine(r)) == r.text
  {
  }

  lemma {:induction false} RowsBefore(doc: seq<Row>, n: nat)
    requires n < |doc|
    ensures RowLines(doc)[..n + 1] == RowLines(doc)[..n] + [RowLine(doc[n])]
  {
  }

  lemma {:induction false} OneLineFurther(init: seq<seq<byte>>, line: seq<byte>)
    ensures SourceEnd(init + [line]) == After(SourceEnd(init), line)
    ensures SourceMarks(init + [line]) == SourceMarks(init) + MarkOf(SourceEnd(init), line)
  {
    assert (init + [line])[..|init|] == init;
  }

  predicate AreRows(doc: seq<Row>, newline: byte) { forall k :: 0 <= k < |doc| ==> IsRow(doc[k], newline) }

  /** Where the first `n` rows end. */
  function EndOf(doc: seq<Row>, n: nat): Position
    requires n <= |doc|
  {
    if n == 0 then Position(0, 0) else PlaceOf(doc, n - 1)
  }

  lemma {:induction false} RowEnds(doc: seq<Row>, n: nat, newline: byte)
    requires n < |doc| && IsRow(doc[n], newline)
    ensures After(EndOf(doc, n), RowLine(doc[n])) == EndOf(doc, n + 1)
    ensures MarkOf(EndOf(doc, n), RowLine(doc[n])) ==
            if doc[n].text == [] then [] else [Mark(PlaceOf(doc, n), doc[n].text)]
  {
    RowLineIs(doc[n], newline);
  }

  /** The lines are the first `n` rows to the source: they end there, and print their texts. */
  predicate AreFirstRows(ls: seq<seq<byte>>, doc: seq<Row>, n: nat)
    requires n <= |doc|
  {
    SourceEnd(ls) == EndOf(doc, n) && SourceMarks(ls) == Pages(doc, n)
  }

  lemma {:induction false} NoRows(doc: seq<Row>)
    ensures AreFirstRows([], doc, 0)
  {
  }

  lemma {:induction false} RowFurther(doc: seq<Row>, n: nat, newline: byte, ls: seq<seq<byte>>)
    requires n < |doc| && IsRow(doc[n], newline) && AreFirstRows(ls, doc, n)
    ensures AreFirstRows(ls + [RowLine(doc[n])], doc, n + 1)
  {
    OneLineFurther(ls, RowLine(doc[n]));
    RowEnds(doc, n, newline);
  }

  lemma {:induction false} SourceMarksAre(doc: seq<Row>, n: nat, newline: byte, ls: seq<seq<byte>>)
    requires n <= |doc| && AreRows(doc, newline) && ls == RowLines(doc)[..n]
    ensures AreFirstRows(ls, doc, n)
  {
    if n == 0 {
      NoRows(doc);
    } else {
      var init := RowLines(doc)[..n - 1];
      SourceMarksAre(doc, n - 1, newline, init);
      RowsBefore(doc, n - 1);
      RowFurther(doc, n - 1, newline, init);
    }
  }

  /** A written record as the printer takes it: the control character, and the text behind it. */
  function ReadBack(written: seq<seq<byte>>): seq<Record> {
    if written == [] then []
    else
      var last := written[|written| - 1];
      ReadBack(written[..|written| - 1]) + if last == [] then [] else [Record(last[0], last[1..])]
  }

  lemma {:induction false} ReadBackWritten(rs: seq<Record>)
    ensures ReadBack(WithControl(rs)) == rs
  {
    if rs != [] {
      var init, last := rs[..|rs| - 1], rs[|rs| - 1];
      ReadBackWritten(init);
      var one := [last.asa] + last.text;
      assert WithControl(rs)[..|WithControl(rs)| - 1] == WithControl(init);
      assert one[1..] == last.text;
    }
  }

  /** What the document is as a text. */
  function TypedDocument(doc: seq<Row>, ends: seq<Ending>, newline: byte, last: Row, withReturn: bool): seq<byte>
    requires |ends| == |doc|
  {
    Typed(RowLines(doc), ends, newline, LastTyped(RowLine(last), withReturn))
  }

  lemma {:induction false} DocumentLines(doc: seq<Row>, ends: seq<Ending>, newline: byte, last: Row, withReturn: bool)
    requires newline != 0x0D && |ends| == |doc| && IsRow(last, newline) && AreRows(doc, newline)
    ensures LogicalLines(TypedDocument(doc, ends, newline, last, withReturn), newline) ==
            RowLines(if RowLine(last) == [] then doc else doc + [last])
  {
    var ls := RowLines(doc);
    assert AreLines(ls, newline) by {
      forall k | 0 <= k < |ls|
        ensures IsLine(ls[k], newline)
      {
        assert IsRow(doc[k], newline);
      }
    }
    LogicalLinesOfTyped(ls, ends, newline, RowLine(last), withReturn);
    assert RowLines(doc + [last]) == ls + [RowLine(last)];
  }

  lemma {:induction false} PagesOf(doc: seq<Row>, newline: byte)
    requires AreRows(doc, newline)
    ensures SourceMarks(RowLines(doc)) == Pages(doc, |doc|)
  {
    assert RowLines(doc)[..|doc|] == RowLines(doc);
    SourceMarksAre(doc, |doc|, newline, RowLines(doc));
  }

  lemma {:induction false} LinesArePrinted(f: Format, text: seq<byte>, ls: seq<seq<byte>>, marks: seq<Mark>)
    requires f.isAsa && LogicalLines(text, f.newline) == ls && SourceMarks(ls) == marks
    ensures Printed(ReadBack(OneShotRecords(AfterText(f, text).items))) == marks
  {
    OneShotPrintsTheText(f, text);
    ReadBackWritten(Records(ls));
  }

  /**
    * A document of pages and rows, typed with either line ending and sent to the one-shot writer: a
    * printer that obeys the control characters puts every text on its page and row.
    */
  lemma {:induction false} DocumentIsPrinted(f: Format, doc: seq<Row>, ends: seq<Ending>, last: Row, withReturn: bool)
    requires f.isAsa && f.newline != 0x0D && |ends| == |doc| && IsRow(last, f.newline) && AreRows(doc, f.newline)
    ensures var whole := if RowLine(last) == [] then doc else doc + [last];
            var text := TypedDocument(doc, ends, f.newline, last, withReturn);
            Printed(ReadBack(OneShotRecords(AfterText(f, text).items))) == Pages(whole, |whole|)
  {
    var whole := if RowLine(last) == [] then doc else doc + [last];
    var text := TypedDocument(doc, ends, f.newline, last, withReturn);
    DocumentLines(doc, ends, f.newline, last, withReturn);
    PagesOf(whole, f.newline);
    LinesArePrinted(f, text, RowLines(whole), Pages(whole, |whole|));
  }
}
