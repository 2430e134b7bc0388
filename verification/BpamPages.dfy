/**
  * What an ASA member shows its reader: where the one-shot and the streamed writer print the lines
  * of a text, in which order they write the records, and which lines the reported numbers mean.
  */
module BpamPages {
  import opened Common
  import opened AsaText
  import opened BpamText

  // ---------- the lines that become records ----------

  /** The indices of the non-blank lines. */
  function Heads(ls: seq<seq<byte>>): (h: seq<nat>)
    ensures forall k :: 0 <= k < |h| ==> h[k] < |ls|
  {
    if ls == [] then []
    else Heads(ls[..|ls| - 1]) + if IsBlank(ls[|ls| - 1]) then [] else [|ls| - 1]
  }

  /** The first line behind the `k`-th non-blank line from the front; the blank lines before the next start here. */
  function Behind(h: seq<nat>, k: nat): nat
    requires k <= |h|
  {
    if k == 0 then 0 else h[k - 1] + 1
  }

  function ItemsOf(ls: seq<seq<byte>>): seq<Item> {
    if ls == [] then []
    else
      var init, last := ls[..|ls| - 1], ls[|ls| - 1];
      ItemsOf(init) + if IsBlank(last) then [] else [ItemOf(BlanksAfterAll(init), last)]
  }

  function ItemOf(blanks: nat, line: seq<byte>): Item {
    Item(blanks / TRIPLE_SPACE_LINES, Content(line), Prepared(blanks, line).asaChar)
  }

  /** Item and line: the text, the page start, and the blank lines in front. */
  predicate StandsFor(item: Item, h: seq<nat>, k: nat, ls: seq<seq<byte>>)
    requires k < |h| && h[k] < |ls|
  {
    && Behind(h, k) <= h[k]
    && item.line == Content(ls[h[k]])
    && item.overflow == (h[k] - Behind(h, k)) / TRIPLE_SPACE_LINES
    && (item.asa == PAGE <==> StartsPage(ls[h[k]]))
  }

  lemma {:induction false} CountHeads(ls: seq<seq<byte>>)
    ensures |ItemsOf(ls)| == |Heads(ls)| && Behind(Heads(ls), |Heads(ls)|) + BlanksAfterAll(ls) == |ls|
  {
    if ls != [] {
      CountHeads(ls[..|ls| - 1]);
    }
  }

  lemma {:induction false} HeadItem(ls: seq<seq<byte>>, k: nat)
    requires k < |Heads(ls)|
    ensures k < |ItemsOf(ls)| && StandsFor(ItemsOf(ls)[k], Heads(ls), k, ls)
  {
    var init := ls[..|ls| - 1];
    CountHeads(init);
    if k < |Heads(init)| {
      HeadItem(init, k);
      StandsStill(ItemsOf(init)[k], Heads(init), Heads(ls), k, init, ls);
    } else {
      LastHead(ls);
    }
  }

  lemma {:induction false} StandsStill(item: Item, g: seq<nat>, h: seq<nat>, k: nat, init: seq<seq<byte>>, ls: seq<seq<byte>>)
    requires k < |g| <= |h| && g == h[..|g|] && g[k] < |init| <= |ls| && init == ls[..|init|]
    requires StandsFor(item, g, k, init)
    ensures StandsFor(item, h, k, ls)
  {
    assert ls[h[k]] == init[g[k]] && Behind(h, k) == Behind(g, k);
  }

  lemma {:induction false} LastHead(ls: seq<seq<byte>>)
    requires ls != [] && !IsBlank(ls[|ls| - 1])
    ensures var n := |Heads(ls)| - 1; n < |ItemsOf(ls)| && StandsFor(ItemsOf(ls)[n], Heads(ls), n, ls)
  {
    var init := ls[..|ls| - 1];
    CountHeads(init);
    assert Behind(Heads(ls), |Heads(init)|) == Behind(Heads(init), |Heads(init)|);
  }

  lemma {:induction false} AllHeads(ls: seq<seq<byte>>)
    ensures |Heads(ls)| <= |ls|
    ensures |Heads(ls)| == |ls| <==> forall i :: 0 <= i < |ls| ==> !IsBlank(ls[i])
  {
    if ls != [] {
      AllHeads(ls[..|ls| - 1]);
      assert forall i :: 0 <= i < |ls| - 1 ==> ls[..|ls| - 1][i] == ls[i];
    }
  }

  /** A non-blank line keeps its number among the non-blank ones exactly when no blank line comes before it. */
  lemma {:induction false} HeadsInPlace(ls: seq<seq<byte>>, k: nat)
    requires k < |Heads(ls)|
    ensures Heads(ls)[k] == k <==> forall i :: 0 <= i < Heads(ls)[k] ==> !IsBlank(ls[i])
  {
    var init := ls[..|ls| - 1];
    if k < |Heads(init)| {
      HeadsInPlace(init, k);
      assert Heads(ls)[k] == Heads(init)[k];
    } else {
      AllHeads(init);
    }
    assert forall i :: 0 <= i < |init| ==> init[i] == ls[i];
  }

  /** What the writers collect from the lines of an ASA text. */
  predicate Collects(f: Format, raw: seq<seq<byte>>) {
    && AfterLines(f, START, raw).blanks == BlanksAfterAll(Stripped(raw))
    && AfterLines(f, START, raw).items == ItemsOf(Stripped(raw))
  }

  lemma {:induction false} CollectsLast(f: Format, init: seq<seq<byte>>, last: seq<byte>)
    requires f.isAsa && Collects(f, init)
    ensures Collects(f, init + [last])
  {
    LastLine(f, init, last);
    AsaLineCollects(f, AfterLines(f, START, init), last);
    ItemsOfLast(Stripped(init), WithoutReturn(last));
    assert Stripped(init + [last]) == Stripped(init) + [WithoutReturn(last)];
  }

  lemma {:induction false} AsaLineCollects(f: Format, p: Progress, raw: seq<byte>)
    requires f.isAsa
    ensures var line, next := WithoutReturn(raw), AfterLine(f, p, raw);
            && next.blanks == BlanksAfter(p.blanks, line)
            && next.items == p.items + if IsBlank(line) then [] else [ItemOf(p.blanks, line)]
  {
  }

  lemma {:induction false} ItemsOfLast(init: seq<seq<byte>>, last: seq<byte>)
    ensures BlanksAfterAll(init + [last]) == BlanksAfter(BlanksAfterAll(init), last)
    ensures ItemsOf(init + [last]) == ItemsOf(init) + if IsBlank(last) then [] else [ItemOf(BlanksAfterAll(init), last)]
  {
    assert (init + [last])[..|init|] == init;
  }

  lemma {:induction false} LinesCollect(f: Format, raw: seq<seq<byte>>)
    requires f.isAsa
    ensures Collects(f, raw)
  {
    if raw != [] {
      LinesCollect(f, raw[..|raw| - 1]);
      LastSplit(raw);
      OneLineMore(f, raw, raw[..|raw| - 1], raw[|raw| - 1]);
    }
  }

  lemma {:induction false} LastSplit<T>(s: seq<T>)
    requires s != []
    ensures s == s[..|s| - 1] + [s[|s| - 1]]
  {
  }

  lemma {:induction false} OneLineMore(f: Format, raw: seq<seq<byte>>, init: seq<seq<byte>>, last: seq<byte>)
    requires f.isAsa && raw == init + [last] && Collects(f, init)
    ensures Collects(f, raw)
  {
    CollectsLast(f, init, last);
  }

  lemma {:induction false} ItemsOfText(f: Format, text: seq<byte>)
    requires f.isAsa
    ensures AfterText(f, text).items == ItemsOf(LogicalLines(text, f.newline))
  {
    var raw, tail := Complete(text, f.newline), Tail(text, f.newline);
    LinesCollect(f, raw);
    if WithoutReturn(tail) == [] {
      assert Stripped(raw) + [] == Stripped(raw);
    } else {
      CollectsLast(f, raw, tail);
      LastLine(f, raw, tail);
      assert Stripped(raw + [tail]) == Stripped(raw) + [WithoutReturn(tail)];
    }
  }

  // ---------- texts written from lines ----------

  function Joined(ls: seq<seq<byte>>, newline: byte): seq<byte> {
    if ls == [] then [] else ls[0] + [newline] + Joined(ls[1..], newline)
  }

  predicate PlainLines(ls: seq<seq<byte>>, newline: byte) {
    forall line :: line in ls ==> newline !in line && RETURN !in line
  }

  lemma {:induction false} LinesOfJoined(ls: seq<seq<byte>>, newline: byte)
    requires PlainLines(ls, newline)
    ensures Complete(Joined(ls, newline), newline) == ls && Tail(Joined(ls, newline), newline) == []
  {
    if ls != [] {
      LinesOfJoined(ls[1..], newline);
      FirstLineOf(ls[0], newline, Joined(ls[1..], newline));
      assert ls == [ls[0]] + ls[1..];
    }
  }

  lemma {:induction false} FirstLineOf(line: seq<byte>, newline: byte, rest: seq<byte>)
    requires newline !in line
    ensures var text := line + [newline] + rest;
            Complete(text, newline) == [line] + Complete(rest, newline) && Tail(text, newline) == Tail(rest, newline)
  {
    var text := line + [newline] + rest;
    assert text[..|line|] == line && text[|line|] == newline && text[|line| + 1..] == rest;
    FirstIndexUnique(text, newline, |line|);
  }

  lemma {:induction false} LogicalLinesOfJoined(ls: seq<seq<byte>>, newline: byte)
    requires PlainLines(ls, newline)
    ensures LogicalLines(Joined(ls, newline), newline) == ls
  {
    LinesOfJoined(ls, newline);
    forall i | 0 <= i < |ls|
      ensures WithoutReturn(ls[i]) == ls[i]
    {
      assert ls[i] in ls;
    }
    assert Stripped(ls) == ls;
  }

  // ---------- the order of the records ----------

  /** Three blank lines or more between two lines that are not blank. */
  predicate LongGap(ls: seq<seq<byte>>) {
    var h := Heads(ls);
    exists k :: 1 <= k < |h| && LongGapAt(h, k)
  }

  predicate LongGapAt(h: seq<nat>, k: nat)
    requires 1 <= k < |h|
  {
    h[k] - h[k - 1] > TRIPLE_SPACE_LINES
  }

  /** The two writers of an ASA text write their records in the same order exactly when no such gap occurs. */
  lemma {:induction false} SameOrderExactly(f: Format, text: seq<byte>)
    requires f.isAsa
    ensures var items := AfterText(f, text).items;
            StreamedRecords(items) == OneShotRecords(items) <==> !LongGap(LogicalLines(text, f.newline))
  {
    var ls := LogicalLines(text, f.newline);
    var items := ItemsOf(ls);
    ItemsOfText(f, text);
    TextCollects(f, text);
    SameRecordsExactly(f, items);
    OverflowIsGap(ls);
  }

  lemma {:induction false} OverflowIsGap(ls: seq<seq<byte>>)
    ensures NoLateOverflow(ItemsOf(ls)) <==> !LongGap(ls)
  {
    var items, h := ItemsOf(ls), Heads(ls);
    CountHeads(ls);
    forall k | 1 <= k < |h|
      ensures items[k].overflow == 0 <==> !LongGapAt(h, k)
    {
      HeadItem(ls, k);
    }
  }

  // ---------- which lines the reported numbers mean ----------

  /** The numbers, from one, of the items that are reported. */
  function Numbers(f: Format, items: seq<Item>): (ns: seq<nat>)
    ensures forall n :: n in ns <==> 1 <= n <= |items| && Reported(f, items[n - 1])
  {
    if items == [] then []
    else
      var init, last := items[..|items| - 1], items[|items| - 1];
      Numbers(f, init) + if Reported(f, last) then [|items|] else []
  }

  predicate Numbered(f: Format, p: Progress) { p.lineNum == |p.items| && p.truncated == Numbers(f, p.items) }

  lemma {:induction false} LineNumbered(f: Format, p: Progress, raw: seq<byte>)
    requires Numbered(f, p)
    ensures Numbered(f, AfterLine(f, p, raw))
  {
    var items := AfterLine(f, p, raw).items;
    assert items != p.items ==> items[..|items| - 1] == p.items;
  }

  lemma {:induction false} LinesNumbered(f: Format, p: Progress, lines: seq<seq<byte>>)
    requires Numbered(f, p)
    ensures Numbered(f, AfterLines(f, p, lines))
    decreases |lines|
  {
    if lines != [] {
      LineNumbered(f, p, lines[0]);
      LinesNumbered(f, AfterLine(f, p, lines[0]), lines[1..]);
    }
  }

  lemma {:induction false} TextNumbered(f: Format, text: seq<byte>)
    ensures Numbered(f, AfterText(f, text))
  {
    LinesNumbered(f, START, Complete(text, f.newline));
    LineNumbered(f, AfterLines(f, START, Complete(text, f.newline)), Tail(text, f.newline));
  }

  /** The line a number among the non-blank ones means, and when it is the number of that line. */
  predicate Means(f: Format, ls: seq<seq<byte>>, h: seq<nat>, n: nat) {
    && 1 <= n <= |h| && h[n - 1] < |ls| && |Content(ls[h[n - 1]])| + 1 > f.maxLen
    && (h[n - 1] + 1 == n <==> forall i :: 0 <= i < h[n - 1] ==> !IsBlank(ls[i]))
  }

  lemma {:induction false} ItemMeans(f: Format, ls: seq<seq<byte>>, h: seq<nat>, item: Item, n: nat)
    requires f.isAsa && 1 <= n <= |h| && h[n - 1] < |ls| && StandsFor(item, h, n - 1, ls) && Reported(f, item)
    requires h[n - 1] == n - 1 <==> forall i :: 0 <= i < h[n - 1] ==> !IsBlank(ls[i])
    ensures Means(f, ls, h, n)
  {
  }

  lemma {:induction false} NumberMeans(f: Format, ls: seq<seq<byte>>, n: nat)
    requires f.isAsa && n in Numbers(f, ItemsOf(ls))
    ensures Means(f, ls, Heads(ls), n)
  {
    CountHeads(ls);
    HeadItem(ls, n - 1);
    HeadsInPlace(ls, n - 1);
    ItemMeans(f, ls, Heads(ls), ItemsOf(ls)[n - 1], n);
  }

  /**
    * A number reported for an ASA text counts the lines that are not blank: it is the number of
    * the line in the text exactly when no blank line comes before it.
    */
  lemma {:induction false} ReportedNumberExactly(f: Format, text: seq<byte>, n: nat)
    requires f.isAsa && n in AfterText(f, text).truncated
    ensures Means(f, LogicalLines(text, f.newline), Heads(LogicalLines(text, f.newline)), n)
  {
    TextNumbered(f, text);
    ItemsOfText(f, text);
    NumberMeans(f, LogicalLines(text, f.newline), n);
  }

  // ---------- where the streamed writer prints the lines ----------

  function RecordOf(item: Item): Record { Record(item.asa, item.line) }

  /** The records of the first `n` items as the one-shot writer emits them. */
  function InOrder(items: seq<Item>, n: nat): seq<Record>
    requires n <= |items|
  {
    if n == 0 then []
    else InOrder(items, n - 1) + Overflow(items[n - 1].overflow) + [RecordOf(items[n - 1])]
  }

  /** What the streamed writer has emitted when it holds back the `n`-th item. */
  function HeldBack(items: seq<Item>, n: nat): seq<Record>
    requires n <= |items|
  {
    if n == 0 then []
    else
      HeldBack(items, n - 1) + Overflow(items[n - 1].overflow)
      + if n == 1 then [] else [RecordOf(items[n - 2])]
  }

  function StreamedOrder(items: seq<Item>): seq<Record> {
    HeldBack(items, |items|) + if items == [] then [] else [RecordOf(items[|items| - 1])]
  }

  predicate WithAsa(items: seq<Item>) {
    forall i :: 0 <= i < |items| ==> items[i].asa != NO_ASA && (items[i].line == [] ==> items[i].asa == PAGE)
  }

  lemma {:induction false} OneRecord(item: Item)
    requires item.asa != NO_ASA
    ensures WithControl([RecordOf(item)]) == [Payload(item)]
  {
    var r := [RecordOf(item)];
    assert r[..0] == [];
  }

  lemma {:induction false} HeldBytes(rs: seq<Record>, n: nat, held: seq<Record>)
    ensures WithControl(rs + Overflow(n) + held) == WithControl(rs) + Dashes(n) + WithControl(held)
  {
    WithControlOverflow(n);
    WithControlAppend(rs, Overflow(n));
    WithControlAppend(rs + Overflow(n), held);
  }

  predicate SameHeldBytes(items: seq<Item>, n: nat)
    requires n <= |items|
  {
    StreamedSoFar(items[..n]) == WithControl(HeldBack(items, n))
  }

  lemma {:induction false} NextHeldBytes(items: seq<Item>, n: nat)
    requires 1 <= n <= |items| && WithAsa(items) && SameHeldBytes(items, n - 1)
    ensures SameHeldBytes(items, n)
  {
    StreamedNext(items, n);
    HeldBytes(HeldBack(items, n - 1), items[n - 1].overflow, if n == 1 then [] else [RecordOf(items[n - 2])]);
    if n > 1 {
      OneRecord(items[n - 2]);
    }
  }

  /** The bytes the streamed writer hands on are those records. */
  lemma {:induction false} HeldBackBytes(items: seq<Item>, n: nat)
    requires n <= |items| && WithAsa(items)
    ensures SameHeldBytes(items, n)
  {
    if n > 0 {
      HeldBackBytes(items, n - 1);
      NextHeldBytes(items, n);
    }
  }

  lemma {:induction false} StreamedNext(items: seq<Item>, n: nat)
    requires 1 <= n <= |items|
    ensures StreamedSoFar(items[..n]) ==
            StreamedSoFar(items[..n - 1]) + Dashes(items[n - 1].overflow) + if n == 1 then [] else [Payload(items[n - 2])]
  {
    assert items[..n][..n - 1] == items[..n - 1];
  }

  lemma {:induction false} StreamedBytes(items: seq<Item>)
    requires WithAsa(items)
    ensures StreamedRecords(items) == WithControl(StreamedOrder(items))
  {
    var n := |items|;
    HeldBackBytes(items, n);
    assert items[..n] == items;
    if n > 0 {
      OneRecord(items[n - 1]);
      WithControlAppend(HeldBack(items, n), [RecordOf(items[n - 1])]);
    } else {
      assert WithControl([]) + [] == WithControl([]);
    }
  }

  /** And those of the one-shot writer. */
  lemma {:induction false} InOrderBytes(items: seq<Item>, n: nat)
    requires n <= |items| && WithAsa(items)
    ensures OneShotRecords(items[..n]) == WithControl(InOrder(items, n))
  {
    if n > 0 {
      InOrderBytes(items, n - 1);
      OneShotNext(items, n);
      HeldBytes(InOrder(items, n - 1), items[n - 1].overflow, [RecordOf(items[n - 1])]);
      OneRecord(items[n - 1]);
    }
  }

  lemma {:induction false} OneShotNext(items: seq<Item>, n: nat)
    requires 1 <= n <= |items|
    ensures OneShotRecords(items[..n]) ==
            OneShotRecords(items[..n - 1]) + Dashes(items[n - 1].overflow) + [Payload(items[n - 1])]
  {
    assert items[..n][..n - 1] == items[..n - 1];
  }

  /** The one-shot records are those of the converter. */
  lemma {:induction false} InOrderIsConverted(ls: seq<seq<byte>>)
    ensures InOrder(ItemsOf(ls), |ItemsOf(ls)|) == Records(ls)
  {
    if ls != [] {
      var init, last := ls[..|ls| - 1], ls[|ls| - 1];
      InOrderIsConverted(init);
      if IsBlank(last) {
        assert ItemsOf(init) + [] == ItemsOf(init) && Records(init) + [] == Records(init);
      } else {
        var items, item := ItemsOf(init), ItemOf(BlanksAfterAll(init), last);
        InOrderLast(items, item);
        AppendAssoc(Records(init), Overflow(item.overflow), [RecordOf(item)]);
      }
    }
  }

  lemma {:induction false} InOrderLast(items: seq<Item>, item: Item)
    ensures InOrder(items + [item], |items| + 1) ==
            InOrder(items, |items|) + Overflow(item.overflow) + [RecordOf(item)]
  {
    InOrderPrefix(items, item, |items|);
  }

  lemma {:induction false} InOrderPrefix(items: seq<Item>, item: Item, n: nat)
    requires n <= |items|
    ensures InOrder(items + [item], n) == InOrder(items, n)
  {
    if n > 0 {
      InOrderPrefix(items, item, n - 1);
    }
  }

  /**
    * The one-shot writer of an ASA data set writes the records of the converter, so what it
    * prints is the text: every non-blank line on its page and row.
    */
  lemma {:induction false} OneShotPrintsTheText(f: Format, text: seq<byte>)
    requires f.isAsa
    ensures var rs := Records(LogicalLines(text, f.newline));
            && OneShotRecords(AfterText(f, text).items) == WithControl(rs)
            && Printed(rs) == SourceMarks(LogicalLines(text, f.newline))
  {
    var ls := LogicalLines(text, f.newline);
    var items := ItemsOf(ls);
    ItemsOfText(f, text);
    ItemsWithAsa(ls);
    InOrderBytes(items, |items|);
    assert items[..|items|] == items;
    InOrderIsConverted(ls);
    PrintsWhereTheSourceHasIt(ls);
  }

  // ---------- the rows on which it prints ----------

  /** The overflow records between item `j` and the next. */
  function OverflowBehind(items: seq<Item>, j: nat): nat
    requires j < |items|
  {
    if j + 1 < |items| then items[j + 1].overflow else 0
  }

  /** The overflow records in front of the first item behind the page start that governs item `j`. */
  function FirstOnPage(items: seq<Item>, j: nat): nat
    requires j < |items|
  {
    if j == 0 then 0 else if items[j - 1].asa == PAGE then items[j].overflow else FirstOnPage(items, j - 1)
  }

  /** The overflow record counts that leave item `j` on its row. */
  predicate OnItsRow(items: seq<Item>, j: nat)
    requires j < |items|
  {
    items[j].asa == PAGE || OverflowBehind(items, j) == FirstOnPage(items, j)
  }

  predicate AllOnTheirRows(items: seq<Item>) { forall j :: 0 <= j < |items| ==> OnItsRow(items, j) }

  /** How many rows further down the streamed records have led when the `n`-th item is held back. */
  function RowsAhead(items: seq<Item>, n: nat): int
    requires 1 <= n <= |items|
  {
    if n == 1 then 3 * items[0].overflow
    else if items[n - 2].asa == PAGE then 0
    else RowsAhead(items, n - 1) + 3 * items[n - 1].overflow - 3 * items[n - 2].overflow
  }

  lemma {:induction false} RowsAheadExactly(items: seq<Item>, n: nat)
    requires 2 <= n <= |items|
    ensures items[n - 2].asa != PAGE ==>
              RowsAhead(items, n) == 3 * items[n - 1].overflow - 3 * FirstOnPage(items, n - 2)
    ensures RowsAhead(items, n) == 0 <==> OnItsRow(items, n - 2)
  {
    if n > 2 {
      RowsAheadExactly(items, n - 1);
    }
  }

  lemma {:induction false} EndOfRecord(rs: seq<Record>, n: nat, r: Record)
    ensures var end := PrintedEnd(rs);
            var at := Advance(Position(end.page, end.row + 3 * n), r.asa);
            && PrintedEnd(rs + Overflow(n) + [r]) == at
            && Printed(rs + Overflow(n) + [r]) == Printed(rs) + MarkAt(at, r)
  {
    PrintedOverflow(rs, n);
    PrintedSnoc(rs + Overflow(n), r);
  }

  function MarkAt(at: Position, r: Record): seq<Mark> {
    if r.text == [] then [] else [Mark(at, r.text)]
  }

  /** The same record behind different numbers of overflow records. */
  lemma {:induction false} BothAdvance(a: seq<Record>, b: seq<Record>, d: int, x: nat, y: nat, r: Record)
    requires PrintedEnd(a).page == PrintedEnd(b).page && PrintedEnd(a).row == PrintedEnd(b).row + d
    ensures var p, q := PrintedEnd(a + Overflow(x) + [r]), PrintedEnd(b + Overflow(y) + [r]);
            p.page == q.page && p.row == q.row + if r.asa == PAGE then 0 else d + 3 * x - 3 * y
  {
    EndOfRecord(a, x, r);
    EndOfRecord(b, y, r);
  }

  lemma {:induction false} FirstHeldBack(items: seq<Item>)
    requires items != []
    ensures PrintedEnd(HeldBack(items, 1)) == Position(0, 3 * items[0].overflow) && Printed(HeldBack(items, 1)) == []
  {
    PrintedOverflow([], items[0].overflow);
    assert HeldBack(items, 1) == [] + Overflow(items[0].overflow);
  }

  /** Same page, and the rows ahead. */
  predicate Ahead(items: seq<Item>, n: nat)
    requires 1 <= n <= |items|
  {
    var a, b := PrintedEnd(HeldBack(items, n)), PrintedEnd(InOrder(items, n - 1));
    a.page == b.page && a.row == b.row + RowsAhead(items, n)
  }

  lemma {:induction false} RowsAheadAre(items: seq<Item>, n: nat)
    requires 1 <= n <= |items|
    ensures Ahead(items, n)
  {
    if n == 1 {
      FirstHeldBack(items);
    } else {
      RowsAheadAre(items, n - 1);
      NextAhead(items, n);
    }
  }

  lemma {:induction false} NextAhead(items: seq<Item>, n: nat)
    requires 2 <= n <= |items| && Ahead(items, n - 1)
    ensures Ahead(items, n)
  {
    BothAdvance(HeldBack(items, n - 1), InOrder(items, n - 2), RowsAhead(items, n - 1),
                items[n - 1].overflow, items[n - 2].overflow, RecordOf(items[n - 2]));
  }

  lemma {:induction false} MarksAppend(a: seq<Mark>, b: seq<Mark>, p: Position, q: Position, r: Record)
    requires |a| == |b|
    ensures a + MarkAt(p, r) == b + MarkAt(q, r) <==> a == b && (r.text == [] || p == q)
  {
    if r.text == [] {
      assert a + [] == a && b + [] == b;
    } else {
      assert (a + MarkAt(p, r))[..|a|] == a && (b + MarkAt(q, r))[..|b|] == b;
      assert (a + MarkAt(p, r))[|a|] == Mark(p, r.text) && (b + MarkAt(q, r))[|b|] == Mark(q, r.text);
    }
  }

  /** One more record, in the streamed and in the one-shot order. */
  lemma {:induction false} MarksOfNext(a: seq<Record>, b: seq<Record>, x: nat, y: nat, r: Record)
    requires |Printed(a)| == |Printed(b)|
    ensures |Printed(a + Overflow(x) + [r])| == |Printed(b + Overflow(y) + [r])|
    ensures Printed(a + Overflow(x) + [r]) == Printed(b + Overflow(y) + [r]) <==>
            Printed(a) == Printed(b) &&
            (r.text == [] || PrintedEnd(a + Overflow(x) + [r]) == PrintedEnd(b + Overflow(y) + [r]))
  {
    EndOfRecord(a, x, r);
    EndOfRecord(b, y, r);
    MarksAppend(Printed(a), Printed(b), PrintedEnd(a + Overflow(x) + [r]), PrintedEnd(b + Overflow(y) + [r]), r);
  }

  /** The mark of item `j`, held back until item `j + 1`, is where it should be. */
  predicate Unmoved(items: seq<Item>, j: nat)
    requires j + 1 < |items|
  {
    items[j].line == [] || RowsAhead(items, j + 2) == 0
  }

  predicate AllUnmoved(items: seq<Item>, n: nat)
    requires n < |items|
  {
    n == 0 || (AllUnmoved(items, n - 1) && Unmoved(items, n - 1))
  }

  /**
    * The marks of the first `n - 1` items in the two orders: as many, and the same exactly when none
    * of these items has moved.
    */
  predicate RightExactly(items: seq<Item>, n: nat)
    requires 1 <= n <= |items|
  {
    var held, right := Printed(HeldBack(items, n)), Printed(InOrder(items, n - 1));
    |held| == |right| && (held == right <==> AllUnmoved(items, n - 1))
  }

  lemma {:induction false} NextRightExactly(items: seq<Item>, n: nat)
    requires 2 <= n <= |items| && RightExactly(items, n - 1)
    ensures RightExactly(items, n)
  {
    RowsAheadAre(items, n);
    MarksOfNext(HeldBack(items, n - 1), InOrder(items, n - 2), items[n - 1].overflow, items[n - 2].overflow,
                RecordOf(items[n - 2]));
  }

  lemma {:induction false} HeldBackMarks(items: seq<Item>, n: nat)
    requires 1 <= n <= |items|
    ensures RightExactly(items, n)
  {
    if n == 1 {
      FirstHeldBack(items);
    } else {
      HeldBackMarks(items, n - 1);
      NextRightExactly(items, n);
    }
  }

  lemma {:induction false} AllUnmovedAre(items: seq<Item>, n: nat)
    requires n < |items| && WithAsa(items)
    ensures AllUnmoved(items, n) <==> forall j :: 0 <= j < n ==> OnItsRow(items, j)
  {
    if n > 0 {
      AllUnmovedAre(items, n - 1);
      RowsAheadExactly(items, n + 1);
    }
  }

  lemma {:induction false} StreamedSplit(items: seq<Item>)
    requires items != []
    ensures StreamedOrder(items) == HeldBack(items, |items|) + Overflow(0) + [RecordOf(items[|items| - 1])]
  {
    assert HeldBack(items, |items|) + Overflow(0) == HeldBack(items, |items|);
  }

  /** The last item, written when the text has ended. */
  lemma {:induction false} LastOnItsRow(items: seq<Item>)
    requires items != []
    ensures var n := |items|;
            PrintedEnd(StreamedOrder(items)) == PrintedEnd(InOrder(items, n)) <==> OnItsRow(items, n - 1)
  {
    var n := |items|;
    RowsAheadAre(items, n);
    StreamedSplit(items);
    BothAdvance(HeldBack(items, n), InOrder(items, n - 1), RowsAhead(items, n), 0, items[n - 1].overflow, RecordOf(items[n - 1]));
    LastRowsExactly(items);
  }

  lemma {:induction false} LastMark(items: seq<Item>)
    requires items != [] && WithAsa(items) && RightExactly(items, |items|)
    ensures Printed(StreamedOrder(items)) == Printed(InOrder(items, |items|)) <==>
            AllUnmoved(items, |items| - 1) && OnItsRow(items, |items| - 1)
  {
    var n := |items|;
    LastOnItsRow(items);
    StreamedSplit(items);
    MarksOfNext(HeldBack(items, n), InOrder(items, n - 1), 0, items[n - 1].overflow, RecordOf(items[n - 1]));
  }

  lemma {:induction false} LastRowsExactly(items: seq<Item>)
    requires items != []
    ensures var n := |items|;
            items[n - 1].asa == PAGE || RowsAhead(items, n) == 3 * items[n - 1].overflow <==> OnItsRow(items, n - 1)
  {
    var n := |items|;
    if n > 1 {
      RowsAheadExactly(items, n);
    }
  }

  lemma {:induction false} StreamedMarks(items: seq<Item>)
    requires WithAsa(items)
    ensures Printed(StreamedOrder(items)) == Printed(InOrder(items, |items|)) <==> AllOnTheirRows(items)
  {
    if items != [] {
      HeldBackMarks(items, |items|);
      LastMark(items);
      AllUnmovedAre(items, |items| - 1);
    }
  }

  /**
    * A streamed ASA member prints every non-blank line on its page and row exactly when in front of
    * the line behind each line that starts no page there are as many overflow records as in front
    * of the first line of that page, and none at the end of the text.
    */
  lemma {:induction false} StreamedPrintsExactly(f: Format, chunks: seq<seq<byte>>)
    requires f.isAsa
    ensures var ls := LogicalLines(Flatten(chunks), f.newline);
            var items := AfterText(f, Flatten(chunks)).items;
            && items == ItemsOf(ls)
            && StreamedRecords(items) == WithControl(StreamedOrder(items))
            && (Printed(StreamedOrder(items)) == SourceMarks(ls) <==> AllOnTheirRows(items))
  {
    var ls := LogicalLines(Flatten(chunks), f.newline);
    ItemsOfText(f, Flatten(chunks));
    ItemsWithAsa(ls);
    StreamedBytes(ItemsOf(ls));
    StreamedMarks(ItemsOf(ls));
    InOrderIsConverted(ls);
    PrintsWhereTheSourceHasIt(ls);
  }

  lemma {:induction false} ItemsWithAsa(ls: seq<seq<byte>>)
    ensures WithAsa(ItemsOf(ls))
  {
    if ls != [] {
      ItemsWithAsa(ls[..|ls| - 1]);
    }
  }

  // ---------- long gaps and form feeds ----------

  /** Without long gaps, and with overflow records only in front of the first line, nothing moves. */
  lemma {:induction false} InOrderStays(items: seq<Item>)
    requires NoLateOverflow(items)
    ensures AllOnTheirRows(items)
  {
    forall j | 0 <= j < |items|
      ensures OnItsRow(items, j)
    {
      NoFirstOnPage(items, j);
    }
  }

  lemma {:induction false} NoFirstOnPage(items: seq<Item>, j: nat)
    requires j < |items|
    requires (forall i :: 1 <= i < |items| ==> items[i].overflow == 0) || (forall i :: 0 <= i < |items| ==> items[i].asa != PAGE)
    ensures FirstOnPage(items, j) == 0
  {
    if j > 0 && items[j - 1].asa != PAGE {
      NoFirstOnPage(items, j - 1);
    }
  }

  /** In a text without form feeds a line moves exactly when there is a long gap. */
  lemma {:induction false} WithoutFormFeeds(ls: seq<seq<byte>>)
    requires forall line :: line in ls ==> !StartsPage(line)
    ensures AllOnTheirRows(ItemsOf(ls)) <==> !LongGap(ls)
  {
    var items := ItemsOf(ls);
    CountHeads(ls);
    forall j | 0 <= j < |items|
      ensures items[j].asa != PAGE
    {
      HeadItem(ls, j);
    }
    forall j | 0 <= j < |items|
      ensures OnItsRow(items, j) <==> OverflowBehind(items, j) == 0
    {
      NoFirstOnPage(items, j);
    }
    OverflowIsGap(ls);
    if AllOnTheirRows(items) {
      forall i | 1 <= i < |items|
        ensures items[i].overflow == 0
      {
        assert OnItsRow(items, i - 1);
      }
    }
  }

  // ---------- concrete texts ----------

  const BLANK_LINE: seq<byte> := []

  /** Three blank lines behind whatever came before. */
  lemma {:induction false} ThreeBlankLines(init: seq<seq<byte>>)
    requires BlanksAfterAll(init) == 0
    ensures var ls := init + [BLANK_LINE] + [BLANK_LINE] + [BLANK_LINE];
            ItemsOf(ls) == ItemsOf(init) && BlanksAfterAll(ls) == 3
  {
    ItemsOfLast(init, BLANK_LINE);
    ItemsOfLast(init + [BLANK_LINE], BLANK_LINE);
    ItemsOfLast(init + [BLANK_LINE] + [BLANK_LINE], BLANK_LINE);
  }

  function GapLines(): seq<seq<byte>> { [[CAPITAL_A]] + [BLANK_LINE] + [BLANK_LINE] + [BLANK_LINE] + [[CAPITAL_B]] }

  lemma {:induction false} GapItems()
    ensures ItemsOf(GapLines()) == [Item(0, [CAPITAL_A], SINGLE), Item(1, [CAPITAL_B], SINGLE)]
  {
    ItemsOfLast([], [CAPITAL_A]);
    assert [] + [[CAPITAL_A]] == [[CAPITAL_A]];
    GapAndLine([[CAPITAL_A]], [CAPITAL_B]);
  }

  /** A, three blank lines, B: streamed, A comes out three rows too low. */
  lemma {:induction false} GapTextDiffers(f: Format)
    requires f.isAsa && f.newline == NEWLINE
    ensures var items := AfterText(f, Joined(GapLines(), NEWLINE)).items;
            && OneShotRecords(items) == [[SINGLE, CAPITAL_A], [TRIPLE], [SINGLE, CAPITAL_B]]
            && StreamedRecords(items) == [[TRIPLE], [SINGLE, CAPITAL_A], [SINGLE, CAPITAL_B]]
  {
    LogicalLinesOfJoined(GapLines(), NEWLINE);
    ItemsOfText(f, Joined(GapLines(), NEWLINE));
    GapItems();
    TwoItems(Item(0, [CAPITAL_A], SINGLE), Item(1, [CAPITAL_B], SINGLE));
    SinglePayload(0, CAPITAL_A);
    SinglePayload(1, CAPITAL_B);
  }

  lemma {:induction false} SinglePayload(overflow: nat, c: byte)
    ensures Payload(Item(overflow, [c], SINGLE)) == [SINGLE, c]
  {
  }

  lemma {:induction false} OneItem(a: Item)
    requires a.overflow == 0
    ensures OneShotRecords([a]) == [Payload(a)] && StreamedSoFar([a]) == []
  {
    assert [a][..0] == [] && Dashes(0) == [];
  }

  lemma {:induction false} TwoItems(a: Item, b: Item)
    requires a.overflow == 0 && b.overflow == 1
    ensures OneShotRecords([a, b]) == [Payload(a), DASH_RECORD, Payload(b)]
    ensures StreamedRecords([a, b]) == [DASH_RECORD, Payload(a), Payload(b)]
  {
    OneItem(a);
    assert [a, b][..1] == [a] && Dashes(1) == [DASH_RECORD];
  }

  function PageItems(): seq<Item> {
    [Item(0, [CAPITAL_A], PAGE), Item(1, [CAPITAL_B], SINGLE), Item(1, [CAPITAL_E], PAGE)]
  }

  function PageLines(): seq<seq<byte>> {
    [[FORM_FEED, CAPITAL_A]] + [BLANK_LINE] + [BLANK_LINE] + [BLANK_LINE] + [[CAPITAL_B]]
    + [BLANK_LINE] + [BLANK_LINE] + [BLANK_LINE] + [[FORM_FEED, CAPITAL_E]]
  }

  /** A long gap need not move a line: the one before the next page start makes up for it. */
  lemma {:induction false} PagesMakeUp()
    ensures ItemsOf(PageLines()) == PageItems() && LongGap(PageLines()) && AllOnTheirRows(PageItems())
  {
    ItemsOfPages();
    OverflowIsGap(PageLines());
    assert PageItems()[1].overflow == 1;
  }

  lemma {:induction false} ItemsOfPages()
    ensures ItemsOf(PageLines()) == PageItems()
  {
    var one := [[FORM_FEED, CAPITAL_A]];
    ItemsOfLast([], [FORM_FEED, CAPITAL_A]);
    assert [] + one == one;
    var two := one + [BLANK_LINE] + [BLANK_LINE] + [BLANK_LINE] + [[CAPITAL_B]];
    GapAndLine(one, [CAPITAL_B]);
    GapAndLine(two, [FORM_FEED, CAPITAL_E]);
  }

  lemma {:induction false} GapAndLine(init: seq<seq<byte>>, line: seq<byte>)
    requires BlanksAfterAll(init) == 0 && !IsBlank(line)
    ensures var ls := init + [BLANK_LINE] + [BLANK_LINE] + [BLANK_LINE] + [line];
            ItemsOf(ls) == ItemsOf(init) + [ItemOf(3, line)] && BlanksAfterAll(ls) == 0
  {
    ThreeBlankLines(init);
    ItemsOfLast(init + [BLANK_LINE] + [BLANK_LINE] + [BLANK_LINE], line);
  }

  function LateLines(): seq<seq<byte>> { [BLANK_LINE] + [[CAPITAL_A, CAPITAL_B]] }

  lemma {:induction false} LateItems()
    ensures ItemsOf(LateLines()) == [Item(0, [CAPITAL_A, CAPITAL_B], DOUBLE)]
  {
    ItemsOfLast([], BLANK_LINE);
    assert [] + [BLANK_LINE] == [BLANK_LINE];
    ItemsOfLast([BLANK_LINE], [CAPITAL_A, CAPITAL_B]);
  }

  /** A blank line, then one of two characters where one fits: reported as line 1. */
  lemma {:induction false} SecondLineReportedAsFirst(f: Format)
    requires f.isAsa && f.newline == NEWLINE && f.maxLen == 1
    ensures AfterText(f, Joined(LateLines(), NEWLINE)).truncated == [1]
  {
    LogicalLinesOfJoined(LateLines(), NEWLINE);
    LateItems();
    OneItemReported(f, Joined(LateLines(), NEWLINE), LateLines(), Item(0, [CAPITAL_A, CAPITAL_B], DOUBLE));
  }

  lemma {:induction false} OneItemReported(f: Format, text: seq<byte>, ls: seq<seq<byte>>, item: Item)
    requires f.isAsa && LogicalLines(text, f.newline) == ls && ItemsOf(ls) == [item] && Reported(f, item)
    ensures AfterText(f, text).truncated == [1]
  {
    ItemsOfText(f, text);
    TextNumbered(f, text);
    OneReported(f, item);
  }

  lemma {:induction false} OneReported(f: Format, item: Item)
    requires Reported(f, item)
    ensures Numbers(f, [item]) == [1]
  {
    assert [item][..0] == [];
  }
}
