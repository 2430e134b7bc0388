/**
  * Writing text into a member (native/c/zds.cpp): the one-shot writer, which collects all
  * records first, and the streamed writer, which takes chunks from a pipe, carries partial
  * lines over and holds back the line before. No code page conversion takes place here.
  */
module BpamText {
  import opened Common
  import opened AsaText
  import opened BpamRecords
  import BpamWriter

  const NO_ASA: byte := 0

  // ---------- lines ----------

  function FirstIndex(s: seq<byte>, c: byte): (i: Option<nat>)
    ensures i.Some? ==> i.value < |s| && s[i.value] == c && c !in s[..i.value]
    ensures i.None? ==> c !in s
  {
    if s == [] then None
    else if s[0] == c then Some(0)
    else
      var rest := FirstIndex(s[1..], c);
      assert s == [s[0]] + s[1..];
      if rest.None? then None else assert s[..rest.value + 1] == [s[0]] + s[1..][..rest.value]; Some(rest.value + 1)
  }

  /** The lines of `s` that are ended by a newline. */
  function Complete(s: seq<byte>, newline: byte): seq<seq<byte>>
    decreases |s|
  {
    var i := FirstIndex(s, newline);
    if i.None? then [] else [s[..i.value]] + Complete(s[i.value + 1..], newline)
  }

  /** What follows the last newline of `s`. */
  function Tail(s: seq<byte>, newline: byte): (t: seq<byte>)
    ensures newline !in t
    decreases |s|
  {
    var i := FirstIndex(s, newline);
    if i.None? then s else Tail(s[i.value + 1..], newline)
  }

  lemma {:induction false} FirstIndexUnique(s: seq<byte>, c: byte, k: nat)
    requires k < |s| && s[k] == c && c !in s[..k]
    ensures FirstIndex(s, c) == Some(k)
  {
  }

  /** Splitting `a + b` is splitting `a`, and then its tail with `b`. */
  predicate SplitsOn(a: seq<byte>, b: seq<byte>, newline: byte) {
    && Complete(a + b, newline) == Complete(a, newline) + Complete(Tail(a, newline) + b, newline)
    && Tail(a + b, newline) == Tail(Tail(a, newline) + b, newline)
  }

  lemma {:induction false} LinesOfConcatenation(a: seq<byte>, b: seq<byte>, newline: byte)
    ensures SplitsOn(a, b, newline)
    decreases |a|
  {
    var i := FirstIndex(a, newline);
    if i.None? {
      assert [] + Complete(a + b, newline) == Complete(a + b, newline);
    } else {
      LinesOfConcatenation(a[i.value + 1..], b, newline);
      OneMoreLine(a, b, newline, i.value);
    }
  }

  lemma {:induction false} OneMoreLine(a: seq<byte>, b: seq<byte>, newline: byte, k: nat)
    requires FirstIndex(a, newline) == Some(k) && SplitsOn(a[k + 1..], b, newline)
    ensures SplitsOn(a, b, newline)
  {
    var rest := a[k + 1..];
    FirstLineOfConcatenation(a, b, newline, k);
    AppendAssoc([a[..k]], Complete(rest, newline), Complete(Tail(rest, newline) + b, newline));
  }

  lemma {:induction false} FirstLineOfConcatenation(a: seq<byte>, b: seq<byte>, newline: byte, k: nat)
    requires FirstIndex(a, newline) == Some(k)
    ensures Complete(a + b, newline) == [a[..k]] + Complete(a[k + 1..] + b, newline)
    ensures Tail(a + b, newline) == Tail(a[k + 1..] + b, newline)
  {
    assert (a + b)[..k] == a[..k] && (a + b)[k] == a[k];
    FirstIndexUnique(a + b, newline, k);
    assert (a + b)[k + 1..] == a[k + 1..] + b;
  }

  function WithoutReturn(line: seq<byte>): seq<byte> {
    if line != [] && line[|line| - 1] == RETURN then line[..|line| - 1] else line
  }

  // ---------- what a writer makes of its lines ----------

  datatype Format = Format(isAsa: bool, newline: byte, maxLen: int)

  /** A line ready to be written, and the empty `-` records that belong in front of it. */
  datatype Item = Item(overflow: nat, line: seq<byte>, asa: byte)

  /** The state of either writer between lines. */
  datatype Progress = Progress(blanks: nat, lineNum: nat, truncated: seq<nat>, items: seq<Item>)

  const START := Progress(0, 0, [], [])

  function Added(f: Format, p: Progress, item: Item): Progress {
    Progress(0, p.lineNum + 1,
             if |item.line| + (if f.isAsa then 1 else 0) > f.maxLen then p.truncated + [p.lineNum + 1] else p.truncated,
             p.items + [item])
  }

  /** One line, without its newline, possibly with a carriage return. */
  function AfterLine(f: Format, p: Progress, raw: seq<byte>): Progress {
    var line := WithoutReturn(raw);
    if !f.isAsa then Added(f, p, Item(0, line, NO_ASA)).(blanks := p.blanks)
    else
      var r := Prepared(p.blanks, line);
      if r.skipLine then p.(blanks := BlanksAfter(p.blanks, line))
      else Added(f, p, Item(r.overflowRecords, Content(line), r.asaChar))
  }

  /** The text after the last newline counts only if there is any. */
  function AfterTail(f: Format, p: Progress, raw: seq<byte>): Progress {
    if WithoutReturn(raw) == [] then p else AfterLine(f, p, raw)
  }

  function AfterLines(f: Format, p: Progress, lines: seq<seq<byte>>): Progress
    decreases |lines|
  {
    if lines == [] then p else AfterLines(f, AfterLine(f, p, lines[0]), lines[1..])
  }

  /** The rest of a text, from a point between two lines. */
  function AfterRest(f: Format, p: Progress, rest: seq<byte>): Progress {
    AfterTail(f, AfterLines(f, p, Complete(rest, f.newline)), Tail(rest, f.newline))
  }

  function AfterText(f: Format, text: seq<byte>): Progress { AfterRest(f, START, text) }

  lemma {:induction false} AfterLinesAppend(f: Format, p: Progress, a: seq<seq<byte>>, b: seq<seq<byte>>)
    ensures AfterLines(f, p, a + b) == AfterLines(f, AfterLines(f, p, a), b)
    decreases |a|
  {
    if a == [] {
      assert a + b == b;
    } else {
      assert (a + b)[1..] == a[1..] + b;
      AfterLinesAppend(f, AfterLine(f, p, a[0]), a[1..], b);
    }
  }

  // ---------- the records of the two writers ----------

  const DASH_RECORD: seq<byte> := [TRIPLE]

  /** zds_write_output_bpam: the control character, if any, in front of the text. */
  function Payload(item: Item): seq<byte> {
    if item.asa != NO_ASA then [item.asa] + item.line else item.line
  }

  function Dashes(n: nat): (r: seq<seq<byte>>)
    ensures |r| == n && forall i :: 0 <= i < n ==> r[i] == DASH_RECORD
  {
    seq(n, i => DASH_RECORD)
  }

  /** Overflow records, then the line they belong to. */
  function OneShotRecords(items: seq<Item>): seq<seq<byte>> {
    if items == [] then []
    else
      var last := items[|items| - 1];
      OneShotRecords(items[..|items| - 1]) + Dashes(last.overflow) + [Payload(last)]
  }

  /** What the streamed writer has written while it holds back the last line of `items`. */
  function StreamedSoFar(items: seq<Item>): seq<seq<byte>> {
    if items == [] then []
    else
      var init := items[..|items| - 1];
      StreamedSoFar(init) + Dashes(items[|items| - 1].overflow)
      + if init == [] then [] else [Payload(init[|init| - 1])]
  }

  function StreamedRecords(items: seq<Item>): seq<seq<byte>> {
    StreamedSoFar(items) + if items == [] then [] else [Payload(items[|items| - 1])]
  }

  // ---------- one-shot writer ----------

  /** `data.find(newline, pos)`. */
  ghost predicate IsNext(data: seq<byte>, newline: byte, pos: nat, at: Option<nat>)
    requires pos <= |data|
  {
    if at.None? then FirstIndex(data[pos..], newline).None?
    else pos <= at.value < |data| && FirstIndex(data[pos..], newline) == Some(at.value - pos)
  }

  method FindNewline(data: seq<byte>, newline: byte, pos: nat) returns (at: Option<nat>)
    requires pos <= |data|
    ensures IsNext(data, newline, pos, at)
  {
    var i := pos;
    while i < |data|
      invariant pos <= i <= |data|
      invariant newline !in data[pos..i]
    {
      if data[i] == newline {
        assert data[pos..][..i - pos] == data[pos..i];
        FirstIndexUnique(data[pos..], newline, i - pos);
        return Some(i);
      }
      assert data[pos..i + 1] == data[pos..i] + [data[i]];
      i := i + 1;
    }
    assert data[pos..i] == data[pos..];
    at := None;
  }

  method StripReturn(line: seq<byte>) returns (r: seq<byte>)
    ensures r == WithoutReturn(line)
  {
    r := line;
    if |line| > 0 && line[|line| - 1] == RETURN {
      r := line[..|line| - 1];
    }
  }

  ghost predicate Tracks(f: Format, p: Progress, asa: AsaStreamState, lineNum: nat, truncated: seq<nat>)
    reads asa
  {
    asa.blankCount == p.blanks && lineNum == p.lineNum && truncated == p.truncated
  }

  /** The per-line part of both loops. */
  method ProcessLine(f: Format, raw: seq<byte>, asa: AsaStreamState, lineNum: nat, truncated: seq<nat>,
                     ghost p: Progress)
    returns (item: Option<Item>, lineNum': nat, truncated': seq<nat>)
    requires Tracks(f, p, asa, lineNum, truncated)
    modifies asa
    ensures Tracks(f, AfterLine(f, p, raw), asa, lineNum', truncated')
    ensures AfterLine(f, p, raw).items == p.items + if item.Some? then [item.value] else []
  {
    item, lineNum', truncated' := None, lineNum, truncated;
    var line := StripReturn(raw);
    var asaChar, overflow := NO_ASA, 0;
    if f.isAsa {
      var result;
      result, line := asa.PrepareLine(line);
      if result.skipLine {
        return;
      }
      asaChar, overflow := result.asaChar, result.overflowRecords;
    }
    lineNum' := lineNum + 1;
    if |line| + (if f.isAsa then 1 else 0) > f.maxLen {
      truncated' := truncated + [lineNum'];
    }
    item := Some(Item(overflow, line, asaChar));
  }

  /** process_bpam_trailing_line: what follows the last newline. */
  method ProcessTrailingLine(f: Format, raw: seq<byte>, asa: AsaStreamState, lineNum: nat, truncated: seq<nat>,
                             ghost p: Progress)
    returns (item: Option<Item>, lineNum': nat, truncated': seq<nat>)
    requires Tracks(f, p, asa, lineNum, truncated)
    modifies asa
    ensures Tracks(f, AfterTail(f, p, raw), asa, lineNum', truncated')
    ensures AfterTail(f, p, raw).items == p.items + if item.Some? then [item.value] else []
  {
    item, lineNum', truncated' := None, lineNum, truncated;
    var line := StripReturn(raw);
    if line == [] {
      return;
    }
    var asaChar, overflow := NO_ASA, 0;
    if f.isAsa {
      var result;
      result, line := asa.PrepareLine(line);
      if result.skipLine {
        return;
      }
      overflow, asaChar := result.overflowRecords, result.asaChar;
    }
    lineNum' := lineNum + 1;
    if |line| + (if f.isAsa && asaChar != NO_ASA then 1 else 0) > f.maxLen {
      truncated' := truncated + [lineNum'];
    }
    item := Some(Item(overflow, line, asaChar));
  }

  /** Adds the overflow records and the line to what is to be written. */
  method Collect(lines: seq<Item>, item: Item, ghost items: seq<Item>) returns (lines': seq<Item>)
    requires PayloadsOf(lines) == OneShotRecords(items)
    ensures PayloadsOf(lines') == OneShotRecords(items + [item])
  {
    lines' := lines;
    for i := 0 to item.overflow
      invariant PayloadsOf(lines') == PayloadsOf(lines) + Dashes(i)
    {
      PayloadsSnoc(lines', Item(0, [], TRIPLE));
      lines' := lines' + [Item(0, [], TRIPLE)];
      assert Payload(Item(0, [], TRIPLE)) == DASH_RECORD;
      assert Dashes(i + 1) == Dashes(i) + [DASH_RECORD];
    }
    PayloadsSnoc(lines', item);
    lines' := lines' + [item];
    assert (items + [item])[..|items|] == items;
  }

  function PayloadsOf(lines: seq<Item>): (r: seq<seq<byte>>)
    ensures |r| == |lines|
  {
    seq(|lines|, i requires 0 <= i < |lines| => Payload(lines[i]))
  }

  lemma {:induction false} PayloadsSnoc(lines: seq<Item>, item: Item)
    ensures PayloadsOf(lines + [item]) == PayloadsOf(lines) + [Payload(item)]
  {
  }

  lemma {:induction false} NextLine(data: seq<byte>, newline: byte, pos: nat, at: nat)
    requires pos <= at < |data| && FirstIndex(data[pos..], newline) == Some(at - pos)
    ensures Complete(data[pos..], newline) == [data[pos..at]] + Complete(data[at + 1..], newline)
    ensures Tail(data[pos..], newline) == Tail(data[at + 1..], newline)
  {
    assert data[pos..][at - pos + 1..] == data[at + 1..];
    assert data[pos..][..at - pos] == data[pos..at];
  }

  lemma {:induction false} RestStep(f: Format, p: Progress, data: seq<byte>, pos: nat, at: nat)
    requires pos <= at < |data| && FirstIndex(data[pos..], f.newline) == Some(at - pos)
    ensures AfterRest(f, p, data[pos..]) == AfterRest(f, AfterLine(f, p, data[pos..at]), data[at + 1..])
  {
    NextLine(data, f.newline, pos, at);
    var lines := Complete(data[pos..], f.newline);
    assert lines[1..] == Complete(data[at + 1..], f.newline);
  }

  /** One turn of the loop over the lines. */
  method CollectLine(f: Format, raw: seq<byte>, asa: AsaStreamState, lineNum: nat, truncated: seq<nat>,
                     lines: seq<Item>, ghost p: Progress)
    returns (lines': seq<Item>, lineNum': nat, truncated': seq<nat>)
    requires Tracks(f, p, asa, lineNum, truncated) && PayloadsOf(lines) == OneShotRecords(p.items)
    modifies asa
    ensures Tracks(f, AfterLine(f, p, raw), asa, lineNum', truncated')
    ensures PayloadsOf(lines') == OneShotRecords(AfterLine(f, p, raw).items)
  {
    var item;
    item, lineNum', truncated' := ProcessLine(f, raw, asa, lineNum, truncated, p);
    lines' := lines;
    if item.Some? {
      lines' := Collect(lines, item.value, p.items);
    }
  }

  method CollectTrailingLine(f: Format, raw: seq<byte>, asa: AsaStreamState, lineNum: nat, truncated: seq<nat>,
                             lines: seq<Item>, ghost p: Progress)
    returns (lines': seq<Item>, lineNum': nat, truncated': seq<nat>)
    requires Tracks(f, p, asa, lineNum, truncated) && PayloadsOf(lines) == OneShotRecords(p.items)
    modifies asa
    ensures truncated' == AfterTail(f, p, raw).truncated
    ensures PayloadsOf(lines') == OneShotRecords(AfterTail(f, p, raw).items)
  {
    var item;
    item, lineNum', truncated' := ProcessTrailingLine(f, raw, asa, lineNum, truncated, p);
    lines' := lines;
    if item.Some? {
      lines' := Collect(lines, item.value, p.items);
    }
  }

  lemma {:induction false} RestOfText(f: Format, p: Progress, data: seq<byte>)
    ensures AfterText(f, data) == AfterRest(f, START, data[0..])
    ensures FirstIndex(data, f.newline).None? ==> AfterRest(f, p, data) == AfterTail(f, p, data)
  {
    assert data[0..] == data;
  }

  method TakeLineOf(f: Format, data: seq<byte>, pos: nat, at: nat, asa: AsaStreamState, lineNum: nat,
                    truncated: seq<nat>, lines: seq<Item>, ghost p: Progress)
    returns (lines': seq<Item>, lineNum': nat, truncated': seq<nat>, ghost p': Progress)
    requires Tracks(f, p, asa, lineNum, truncated) && PayloadsOf(lines) == OneShotRecords(p.items)
    requires pos <= at < |data| && IsNext(data, f.newline, pos, Some(at))
    modifies asa
    ensures Tracks(f, p', asa, lineNum', truncated') && PayloadsOf(lines') == OneShotRecords(p'.items)
    ensures AfterRest(f, p, data[pos..]) == AfterRest(f, p', data[at + 1..])
  {
    RestStep(f, p, data, pos, at);
    p' := AfterLine(f, p, data[pos..at]);
    lines', lineNum', truncated' := CollectLine(f, data[pos..at], asa, lineNum, truncated, lines, p);
  }

  /** zds_write_member_bpam: all lines first, then one write for each. */
  method OneShot(f: Format, data: seq<byte>) returns (records: seq<seq<byte>>, truncated: seq<nat>)
    ensures records == OneShotRecords(AfterText(f, data).items)
    ensures truncated == AfterText(f, data).truncated
  {
    var asa := new AsaStreamState();
    var lineNum: nat := 0;
    truncated := [];
    var lines: seq<Item> := [];
    ghost var p := START;
    var pos: nat := 0;
    ghost var whole := AfterText(f, data);
    RestOfText(f, p, data);
    var newlinePos := FindNewline(data, f.newline, pos);
    while newlinePos.Some?
      invariant pos <= |data|
      invariant IsNext(data, f.newline, pos, newlinePos)
      invariant Tracks(f, p, asa, lineNum, truncated)
      invariant PayloadsOf(lines) == OneShotRecords(p.items)
      invariant whole == AfterRest(f, p, data[pos..])
      invariant fresh(asa)
      decreases |data| - pos
    {
      var at := newlinePos.value;
      lines, lineNum, truncated, p := TakeLineOf(f, data, pos, at, asa, lineNum, truncated, lines, p);
      pos := at + 1;
      newlinePos := FindNewline(data, f.newline, pos);
    }
    RestOfText(f, p, data[pos..]);
    if pos < |data| {
      lines, lineNum, truncated := CollectTrailingLine(f, data[pos..], asa, lineNum, truncated, lines, p);
    }
    records := WriteAll(lines);
  }

  method WriteAll(lines: seq<Item>) returns (records: seq<seq<byte>>)
    ensures records == PayloadsOf(lines)
  {
    records := [];
    for i := 0 to |lines|
      invariant records == PayloadsOf(lines[..i])
    {
      PayloadsSnoc(lines[..i], lines[i]);
      assert lines[..i + 1] == lines[..i] + [lines[i]];
      records := records + [Payload(lines[i])];
    }
    assert lines[..|lines|] == lines;
  }

  // ---------- streamed writer ----------

  /** write_asa_overflow_records. */
  method WriteOverflow(records: seq<seq<byte>>, count: nat) returns (more: seq<seq<byte>>)
    ensures more == records + Dashes(count)
  {
    more := records;
    for i := 0 to count
      invariant more == records + Dashes(i)
    {
      assert Dashes(i + 1) == Dashes(i) + [DASH_RECORD];
      more := more + [DASH_RECORD];
    }
  }

  /** The whole lines of a text taken in, and the partial line left. */
  function AfterWholeLines(f: Format, p: Progress, text: seq<byte>): (Progress, seq<byte>) {
    (AfterLines(f, p, Complete(text, f.newline)), Tail(text, f.newline))
  }

  lemma {:induction false} NoMoreLines(f: Format, p: Progress, rest: seq<byte>)
    requires FirstIndex(rest, f.newline).None?
    ensures AfterWholeLines(f, p, rest) == (p, rest)
  {
  }

  /** What is left of the buffer from `pos` on leads to `end`. */
  ghost predicate LeadsTo(f: Format, p: Progress, buffer: seq<byte>, pos: nat, end: (Progress, seq<byte>)) {
    pos <= |buffer| && end == AfterWholeLines(f, p, buffer[pos..])
  }

  lemma {:induction false} WholeLinesStep(f: Format, p: Progress, data: seq<byte>, pos: nat, at: nat)
    requires pos <= at < |data| && FirstIndex(data[pos..], f.newline) == Some(at - pos)
    ensures AfterWholeLines(f, p, data[pos..]) ==
            AfterWholeLines(f, AfterLine(f, p, data[pos..at]), data[at + 1..])
  {
    NextLine(data, f.newline, pos, at);
    var lines := Complete(data[pos..], f.newline);
    assert lines[1..] == Complete(data[at + 1..], f.newline);
  }

  lemma {:induction false} WholeLinesOfChunk(f: Format, text: seq<byte>, chunk: seq<byte>)
    ensures AfterWholeLines(f, START, text + chunk) ==
            AfterWholeLines(f, AfterWholeLines(f, START, text).0, AfterWholeLines(f, START, text).1 + chunk)
  {
    LinesOfConcatenation(text, chunk, f.newline);
    AfterLinesAppend(f, START, Complete(text, f.newline), Complete(Tail(text, f.newline) + chunk, f.newline));
  }

  /** zds_write_member_bpam_streamed: its variables, and what it has handed to the writer. */
  class StreamedWriter {
    const f: Format
    const asa: AsaStreamState
    var lineNum: nat
    var truncated: seq<nat>
    var lineBuffer: seq<byte>
    var prev: Item
    var hasPrev: bool
    var records: seq<seq<byte>>
    ghost var p: Progress

    ghost predicate Valid()
      reads this, asa
    {
      && Tracks(f, p, asa, lineNum, truncated)
      && records == StreamedSoFar(p.items)
      && (hasPrev <==> p.items != [])
      && (hasPrev ==> prev == p.items[|p.items| - 1])
    }

    constructor (f: Format)
      ensures Valid() && fresh(asa) && this.f == f
      ensures p == START && lineBuffer == []
    {
      this.f := f;
      asa := new AsaStreamState();
      lineNum, truncated, lineBuffer := 0, [], [];
      prev, hasPrev, records := Item(0, [], NO_ASA), false, [];
      p := START;
    }

    /** Writes the overflow records, then the line held back, and holds back the new one. */
    method HoldBack(item: Item, ghost q: Progress)
      requires records == StreamedSoFar(p.items)
      requires (hasPrev <==> p.items != []) && (hasPrev ==> prev == p.items[|p.items| - 1])
      requires q.items == p.items + [item] && Tracks(f, q, asa, lineNum, truncated)
      modifies this`prev, this`hasPrev, this`records, this`p
      ensures Valid() && p == q
    {
      assert q.items[..|q.items| - 1] == p.items;
      records := WriteOverflow(records, item.overflow);
      if hasPrev {
        records := records + [Payload(prev)];
      } else {
        assert records == records + [];
      }
      prev := item;
      hasPrev := true;
      p := q;
    }

    method TakeLine(raw: seq<byte>)
      requires Valid()
      modifies this`lineNum, this`truncated, this`prev, this`hasPrev, this`records, this`p, asa
      ensures Valid() && p == AfterLine(f, old(p), raw)
    {
      var item;
      item, lineNum, truncated := ProcessLine(f, raw, asa, lineNum, truncated, p);
      if item.Some? {
        HoldBack(item.value, AfterLine(f, p, raw));
      } else {
        p := AfterLine(f, p, raw);
      }
    }

    /** One turn of the loop over the newlines of the buffer. */
    method TakeNext(buffer: seq<byte>, pos: nat, at: nat, ghost end: (Progress, seq<byte>))
      requires Valid() && pos <= at < |buffer|
      requires IsNext(buffer, f.newline, pos, Some(at))
      requires LeadsTo(f, p, buffer, pos, end)
      modifies this`lineNum, this`truncated, this`prev, this`hasPrev, this`records, this`p, asa
      ensures Valid()
      ensures LeadsTo(f, p, buffer, at + 1, end)
    {
      WholeLinesStep(f, p, buffer, pos, at);
      ghost var next := AfterLine(f, p, buffer[pos..at]);
      TakeLine(buffer[pos..at]);
      assert p == next;
    }

    method TakeLines(buffer: seq<byte>) returns (rest: seq<byte>)
      requires Valid()
      modifies this`lineNum, this`truncated, this`prev, this`hasPrev, this`records, this`p, asa
      ensures Valid() && (p, rest) == AfterWholeLines(f, old(p), buffer)
    {
      var pos: nat := 0;
      assert buffer[0..] == buffer;
      ghost var end := AfterWholeLines(f, p, buffer);
      var newlinePos := FindNewline(buffer, f.newline, pos);
      while newlinePos.Some?
        invariant pos <= |buffer| && Valid()
        invariant IsNext(buffer, f.newline, pos, newlinePos)
        invariant LeadsTo(f, p, buffer, pos, end)
        decreases |buffer| - pos
      {
        TakeNext(buffer, pos, newlinePos.value, end);
        pos := newlinePos.value + 1;
        newlinePos := FindNewline(buffer, f.newline, pos);
      }
      NoMoreLines(f, p, buffer[pos..]);
      rest := buffer[pos..];
    }

    method TakeChunk(chunk: seq<byte>)
      requires Valid()
      modifies this, asa
      ensures Valid() && (p, lineBuffer) == AfterWholeLines(f, old(p), old(lineBuffer) + chunk)
    {
      lineBuffer := lineBuffer + chunk;
      lineBuffer := TakeLines(lineBuffer);
    }

    method Finish()
      requires Valid()
      modifies this, asa
      ensures records == StreamedRecords(AfterTail(f, old(p), old(lineBuffer)).items)
      ensures truncated == AfterTail(f, old(p), old(lineBuffer)).truncated
    {
      if |lineBuffer| > 0 {
        var item;
        item, lineNum, truncated := ProcessTrailingLine(f, lineBuffer, asa, lineNum, truncated, p);
        if item.Some? {
          HoldBack(item.value, AfterTail(f, p, lineBuffer));
        } else {
          p := AfterTail(f, p, lineBuffer);
        }
      }
      if hasPrev {
        records := records + [Payload(prev)];
      } else {
        assert StreamedSoFar(p.items) + [] == StreamedSoFar(p.items);
      }
    }
  }

  method Streamed(f: Format, chunks: seq<seq<byte>>) returns (records: seq<seq<byte>>, truncated: seq<nat>)
    ensures records == StreamedRecords(AfterText(f, Flatten(chunks)).items)
    ensures truncated == AfterText(f, Flatten(chunks)).truncated
  {
    var w := new StreamedWriter(f);
    assert chunks[..0] == [] && Flatten(chunks[..0]) == [];
    for i := 0 to |chunks|
      invariant fresh(w) && fresh(w.asa) && w.f == f && w.Valid()
      invariant (w.p, w.lineBuffer) == AfterWholeLines(f, START, Flatten(chunks[..i]))
    {
      WholeLinesOfChunk(f, Flatten(chunks[..i]), chunks[i]);
      FlattenSnoc(chunks[..i], chunks[i]);
      assert chunks[..i + 1] == chunks[..i] + [chunks[i]];
      w.TakeChunk(chunks[i]);
    }
    assert chunks[..|chunks|] == chunks;
    w.Finish();
    records, truncated := w.records, w.truncated;
  }

  // ---------- when the two writers agree ----------

  /** What the loops guarantee about the lines they collect. */
  ghost predicate Collected(f: Format, items: seq<Item>) {
    forall i :: 0 <= i < |items| ==>
      && (f.isAsa ==> items[i].asa != NO_ASA && (items[i].asa == TRIPLE ==> items[i].line != []))
      && (!f.isAsa ==> items[i].overflow == 0)
  }

  lemma {:induction false} AfterLineCollects(f: Format, p: Progress, raw: seq<byte>)
    requires Collected(f, p.items)
    ensures Collected(f, AfterLine(f, p, raw).items)
  {
  }

  lemma {:induction false} AfterLinesCollects(f: Format, p: Progress, lines: seq<seq<byte>>)
    requires Collected(f, p.items)
    ensures Collected(f, AfterLines(f, p, lines).items)
    decreases |lines|
  {
    if lines != [] {
      AfterLineCollects(f, p, lines[0]);
      AfterLinesCollects(f, AfterLine(f, p, lines[0]), lines[1..]);
    }
  }

  lemma {:induction false} TextCollects(f: Format, text: seq<byte>)
    ensures Collected(f, AfterText(f, text).items)
  {
    AfterLinesCollects(f, START, Complete(text, f.newline));
    AfterLineCollects(f, AfterLines(f, START, Complete(text, f.newline)), Tail(text, f.newline));
  }

  /** No overflow record arises while a line is held back. */
  predicate NoLateOverflow(items: seq<Item>) {
    forall i :: 1 <= i < |items| ==> items[i].overflow == 0
  }

  lemma {:induction false} SameRecordsExactly(f: Format, items: seq<Item>)
    requires Collected(f, items)
    ensures StreamedRecords(items) == OneShotRecords(items) <==> NoLateOverflow(items)
  {
    if items != [] {
      var init, last := items[..|items| - 1], items[|items| - 1];
      SameRecordsExactly(f, init);
      var tail := [Payload(last)];
      var dashed := OneShotRecords(init) + Dashes(last.overflow);
      if init == [] {
        assert StreamedSoFar(items) == dashed;
      } else {
        var held := init[|init| - 1];
        var late := StreamedSoFar(init) + Dashes(last.overflow) + [Payload(held)];
        assert StreamedRecords(items) == late + tail && OneShotRecords(items) == dashed + tail;
        SameLast(late, dashed, tail);
        if last.overflow == 0 {
          assert late == StreamedRecords(init) && dashed == OneShotRecords(init);
          assert NoLateOverflow(items) <==> NoLateOverflow(init) by {
            assert forall i :: 1 <= i < |init| ==> items[i] == init[i];
          }
        } else {
          assert late[|late| - 1] == Payload(held) && dashed[|dashed| - 1] == DASH_RECORD;
          assert held == items[|init| - 1] && f.isAsa;
          assert Payload(held)[0] == held.asa && |Payload(held)| == 1 + |held.line|;
        }
      }
    }
  }

  lemma {:induction false} SameLast(a: seq<seq<byte>>, b: seq<seq<byte>>, c: seq<seq<byte>>)
    ensures a + c == b + c <==> a == b
  {
    if a + c == b + c {
      assert |a| == |b|;
      assert a == (a + c)[..|a|] && b == (b + c)[..|b|];
    }
  }

  predicate SameUpToOrder(items: seq<Item>) {
    multiset(StreamedRecords(items)) == multiset(OneShotRecords(items))
  }

  /** Whatever the order, neither writer loses or invents a record. */
  lemma {:induction false} SameRecordsUpToOrder(items: seq<Item>)
    ensures SameUpToOrder(items)
  {
    if items != [] {
      SameRecordsUpToOrder(items[..|items| - 1]);
      OneItemMore(items, items[..|items| - 1]);
    }
  }

  lemma {:induction false} OneItemMore(items: seq<Item>, init: seq<Item>)
    requires items != [] && init == items[..|items| - 1] && SameUpToOrder(init)
    ensures SameUpToOrder(items)
  {
    var last := items[|items| - 1];
    StreamedLast(items);
    if init != [] {
      var held := [Payload(init[|init| - 1])];
      Exchanged(StreamedSoFar(init), Dashes(last.overflow), held, [Payload(last)], OneShotRecords(init));
    }
  }

  lemma {:induction false} Exchanged(a: seq<seq<byte>>, b: seq<seq<byte>>, c: seq<seq<byte>>, d: seq<seq<byte>>, e: seq<seq<byte>>)
    requires multiset(a + c) == multiset(e)
    ensures multiset(a + b + c + d) == multiset(e + b + d)
  {
  }

  lemma {:induction false} StreamedLast(items: seq<Item>)
    requires items != []
    ensures var init, last := items[..|items| - 1], items[|items| - 1];
            if init == [] then StreamedRecords(items) == OneShotRecords(items)
            else
              var held := [Payload(init[|init| - 1])];
              && StreamedRecords(items) == StreamedSoFar(init) + Dashes(last.overflow) + held + [Payload(last)]
              && StreamedRecords(init) == StreamedSoFar(init) + held
              && OneShotRecords(items) == OneShotRecords(init) + Dashes(last.overflow) + [Payload(last)]
  {
  }

  /**
    * For every text and every way to cut it into chunks the streamed writer reports the same
    * truncated lines, writes the same records up to order, and writes them in the same order
    * exactly when no overflow record arises while a line is held back.
    */
  lemma {:induction false} StreamedAgainstOneShot(f: Format, chunks: seq<seq<byte>>)
    ensures var items := AfterText(f, Flatten(chunks)).items;
            && multiset(StreamedRecords(items)) == multiset(OneShotRecords(items))
            && (StreamedRecords(items) == OneShotRecords(items) <==> NoLateOverflow(items))
            && (!f.isAsa ==> StreamedRecords(items) == OneShotRecords(items))
  {
    var items := AfterText(f, Flatten(chunks)).items;
    TextCollects(f, Flatten(chunks));
    SameRecordsUpToOrder(items);
    SameRecordsExactly(f, items);
  }

  // ---------- what the records print ----------

  /** The lines of a text as the converter sees them. */
  function LogicalLines(text: seq<byte>, newline: byte): seq<seq<byte>> {
    var tail := WithoutReturn(Tail(text, newline));
    Stripped(Complete(text, newline)) + if tail == [] then [] else [tail]
  }

  function Stripped(lines: seq<seq<byte>>): (r: seq<seq<byte>>)
    ensures |r| == |lines|
  {
    seq(|lines|, i requires 0 <= i < |lines| => WithoutReturn(lines[i]))
  }

  function WithControl(rs: seq<Record>): seq<seq<byte>> {
    if rs == [] then [] else WithControl(rs[..|rs| - 1]) + [[rs[|rs| - 1].asa] + rs[|rs| - 1].text]
  }

  lemma {:induction false} WithControlAppend(rs: seq<Record>, more: seq<Record>)
    ensures WithControl(rs + more) == WithControl(rs) + WithControl(more)
  {
    if more == [] {
      assert rs + more == rs;
    } else {
      assert (rs + more)[..|rs + more| - 1] == rs + more[..|more| - 1];
      WithControlAppend(rs, more[..|more| - 1]);
    }
  }

  lemma {:induction false} WithControlOverflow(n: nat)
    ensures WithControl(Overflow(n)) == Dashes(n)
  {
    if n > 0 {
      WithControlOverflow(n - 1);
      assert Overflow(n)[..n - 1] == Overflow(n - 1);
      var dash := Overflow(n)[n - 1];
      assert [dash.asa] + dash.text == DASH_RECORD;
      assert Dashes(n) == Dashes(n - 1) + [DASH_RECORD];
    }
  }

  lemma {:induction false} LastLine(f: Format, init: seq<seq<byte>>, last: seq<byte>)
    ensures AfterLines(f, START, init + [last]) == AfterLine(f, AfterLines(f, START, init), last)
  {
    AfterLinesAppend(f, START, init, [last]);
    var one: seq<seq<byte>> := [last];
    assert |one[1..]| == 0;
  }

  // ---------- what is reported as truncated ----------

  /** get_effective_lrecl. */
  function EffectiveLrecl(dcb: Dcb, isAsa: bool): int {
    dcb.lrecl - (if dcb.IsVariable() then RDW_SIZE else 0) - if isAsa then 1 else 0
  }

  predicate Reported(f: Format, item: Item) { |item.line| + (if f.isAsa then 1 else 0) > f.maxLen }

  /** The record writer drops the line or some of its bytes. */
  predicate LosesData(dcb: Dcb, payload: seq<byte>)
    requires Usable(dcb)
  {
    !Kept(dcb, payload) ||
    if dcb.IsVariable() then |BpamRecords.Record(dcb, payload)| < |payload| else |payload| > dcb.lrecl
  }

  /** A variable record that is not too long and loses data all the same: at a NUL, or as a whole. */
  predicate HiddenLoss(dcb: Dcb, payload: seq<byte>)
    requires Usable(dcb)
  {
    && dcb.IsVariable() && |payload| <= MaxData(dcb)
    && (NUL in payload || (dcb.IsBlocked() && dcb.blksize == dcb.lrecl + BDW_SIZE && |payload| == MaxData(dcb)))
  }

  /**
    * The report tells what the record writer loses, except in three cases: data lost at a NUL, a
    * filling record that is dropped, and an ASA record that just fits, whose control character is
    * counted twice. The last one and one of the others together cancel out.
    */
  lemma {:induction false} ReportedExactly(dcb: Dcb, f: Format, item: Item)
    requires Usable(dcb) && f.maxLen == EffectiveLrecl(dcb, f.isAsa)
    requires item.asa != NO_ASA <==> f.isAsa
    ensures (Reported(f, item) <==> LosesData(dcb, Payload(item))) <==>
            (HiddenLoss(dcb, Payload(item)) <==> f.isAsa && |Payload(item)| == MaxData(dcb))
  {
    var p := Payload(item);
    assert |p| == |item.line| + if f.isAsa then 1 else 0;
    KeptExactly(dcb, p);
    if dcb.IsVariable() && |p| <= MaxData(dcb) {
      assert p[..|p|] == p;
      UncutExactly(p);
    }
  }

  /** LRECL 84, variable blocked, with room to spare: everything behind a NUL is lost unreported. */
  lemma {:induction false} LossAtNulUnreported()
    ensures var dcb, f, item := Dcb(DCB_RECV | DCB_RECBR, 84, 800), Format(false, NEWLINE, 80), Item(0, [NUL, CAPITAL_A], NO_ASA);
            && Usable(dcb) && f.maxLen == EffectiveLrecl(dcb, false)
            && BpamRecords.Record(dcb, Payload(item)) == [] && LosesData(dcb, Payload(item)) && !Reported(f, item)
  {
    var dcb, p := Dcb(DCB_RECV | DCB_RECBR, 84, 800), [NUL, CAPITAL_A];
    assert Usable(dcb);
    assert p[..2] == p;
  }

  /** BLKSIZE 88 and LRECL 84: a line of 80 characters is dropped unreported. */
  lemma {:induction false} DropUnreported(line: seq<byte>)
    requires |line| == 80
    ensures var dcb, f, item := Dcb(DCB_RECV | DCB_RECBR, 84, 88), Format(false, NEWLINE, 80), Item(0, line, NO_ASA);
            && Usable(dcb) && f.maxLen == EffectiveLrecl(dcb, false)
            && !Kept(dcb, Payload(item)) && !Reported(f, item)
  {
    assert Usable(Dcb(DCB_RECV | DCB_RECBR, 84, 88));
  }

  /** Fixed, LRECL 80: an ASA line of 79 characters fits and is reported. */
  lemma {:induction false} FittingAsaLineReported(line: seq<byte>)
    requires |line| == 79
    ensures var dcb, f, item := Dcb(DCB_RECF | DCB_RECBR, 80, 800), Format(true, NEWLINE, 79), Item(0, line, SINGLE);
            && Usable(dcb) && f.maxLen == EffectiveLrecl(dcb, true)
            && BpamRecords.Record(dcb, Payload(item)) == [SINGLE] + line && !LosesData(dcb, Payload(item)) && Reported(f, item)
  {
    var dcb, p := Dcb(DCB_RECF | DCB_RECBR, 80, 800), [SINGLE] + line;
    assert Rem(800, 80) == 0 by {
      RemIsModulo(800, 80);
    }
    assert ValidateDcb(dcb) == None;
    assert p[..80] == p && p + Blanks(0) == p;
  }

  // ---------- from text to physical blocks ----------

  /**
    * The one-shot writer on top of the BPAM record writer: when every write succeeds, a reader
    * of the blocks finds the records of the text, cut and padded to the record format.
    */
  method WriteText(f: Format, data: seq<byte>, io: BpamWriter.IoControl, services: nat -> BpamWriter.Service)
    returns (rc: int, truncated: seq<nat>)
    requires io.Valid() && io.Readable() == [] && io.written == []
    modifies io, io.buffer
    ensures rc == 0 || rc == -1
    ensures (forall n :: services(n).Written?) ==> rc == 0
    ensures io.Intact()
    ensures truncated == AfterText(f, data).truncated
    ensures rc == 0 ==> DeblockAll(io.dcb, io.written) ==
                        Some(RecordsOf(io.dcb, KeptOnly(io.dcb, OneShotRecords(AfterText(f, data).items))))
  {
    var records;
    records, truncated := OneShot(f, data);
    ghost var ended;
    rc, ended := io.WriteMember(records, seq(|records| + 1, n requires 0 <= n => services(n)));
  }
}
