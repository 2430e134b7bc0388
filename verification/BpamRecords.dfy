/**
  * Record formats of a partitioned data set member (native/c/zam.c): how a line becomes a
  * logical record, how records are laid out in a physical block, and how a reader takes
  * blocks apart again. The writer in BpamWriter is proved against these definitions.
  */
module BpamRecords {
  import opened Common

  const BDW_SIZE := 4
  const RDW_SIZE := 4
  const HALFWORD_LIMIT := 0x8000

  const DCB_RECF: bv8 := 0x80
  const DCB_RECV: bv8 := 0x40
  const DCB_RECBR: bv8 := 0x10

  datatype Dcb = Dcb(recfm: bv8, lrecl: nat, blksize: nat) {
    predicate IsVariable() { recfm & DCB_RECV != 0 }

    predicate IsBlocked() { recfm & DCB_RECBR != 0 }

    /** RECFM=U sets both format bits; callers have turned it away before. */
    predicate IsUndefined() { recfm & (DCB_RECF | DCB_RECV) == DCB_RECF | DCB_RECV }
  }

  datatype DcbFault = UnsupportedRecfm | UnsupportedBlockSize | InvalidBlockSize

  /** The remainder of a division of non-negative integers, by repeated subtraction. */
  function Rem(n: nat, m: nat): (r: nat)
    requires m > 0
    ensures r < m
  {
    if n < m then n else Rem(n - m, m)
  }

  /** The attribute check made after OPEN. */
  function ValidateDcb(dcb: Dcb): (fault: Option<DcbFault>)
    requires dcb.recfm & DCB_RECF != 0 ==> dcb.lrecl != 0
    ensures fault.None? && !dcb.IsUndefined() && dcb.IsVariable() ==> dcb.lrecl + BDW_SIZE <= dcb.blksize
    ensures fault.None? && !dcb.IsVariable() ==>
              dcb.lrecl > 0 && dcb.blksize > 0 && Rem(dcb.blksize, dcb.lrecl) == 0
  {
    if dcb.recfm & (DCB_RECF | DCB_RECV) == 0 then Some(UnsupportedRecfm)
    else if dcb.blksize < 1 then Some(UnsupportedBlockSize)
    else if dcb.recfm & DCB_RECF != 0 then
      if Rem(dcb.blksize, dcb.lrecl) != 0 then Some(InvalidBlockSize) else None
    else if dcb.blksize < dcb.lrecl + BDW_SIZE then Some(InvalidBlockSize)
    else None
  }

  /**
    * Attributes the writer works with: accepted by the check above, within the signed
    * halfword fields of the DCB, and with room in a variable record for its own RDW.
    */
  predicate Usable(dcb: Dcb) {
    && !dcb.IsUndefined()
    && dcb.lrecl < HALFWORD_LIMIT
    && dcb.blksize < HALFWORD_LIMIT
    && (dcb.recfm & DCB_RECF != 0 ==> dcb.lrecl > 0)
    && (dcb.IsVariable() ==> dcb.lrecl >= RDW_SIZE)
    && ValidateDcb(dcb) == None
  }

  // ---------- from a line to a logical record ----------

  /** `sprintf` with `%.*s` stops at the first NUL. */
  function CutAtNul(s: seq<byte>): (r: seq<byte>)
    ensures |r| <= |s| && r == s[..|r|] && 0 !in r
    ensures |r| < |s| ==> s[|r|] == 0
  {
    if s == [] || s[0] == 0 then [] else [s[0]] + CutAtNul(s[1..])
  }

  /** The longest data a record can carry. */
  function MaxData(dcb: Dcb): nat
    requires Usable(dcb)
  {
    if dcb.IsVariable() then dcb.lrecl - RDW_SIZE else dcb.lrecl
  }

  /** The record a reader should see for `data`: cut to LRECL, blank padded if fixed. */
  function Record(dcb: Dcb, data: seq<byte>): (r: seq<byte>)
    requires Usable(dcb)
    ensures |r| <= dcb.lrecl
    ensures !dcb.IsVariable() ==> |r| == dcb.lrecl
    ensures dcb.IsVariable() ==> |r| + RDW_SIZE <= dcb.lrecl
  {
    var kept := data[..Min(|data|, MaxData(dcb))];
    if dcb.IsVariable() then CutAtNul(kept) else kept + Blanks(dcb.lrecl - |kept|)
  }

  function RecordsOf(dcb: Dcb, lines: seq<seq<byte>>): (rs: seq<seq<byte>>)
    requires Usable(dcb)
    ensures |rs| == |lines|
    ensures forall i :: 0 <= i < |lines| ==> rs[i] == Record(dcb, lines[i])
  {
    seq(|lines|, i requires 0 <= i < |lines| => Record(dcb, lines[i]))
  }

  /** Whether the blocked variable path finds room for `data` in an otherwise empty block. */
  predicate Kept(dcb: Dcb, data: seq<byte>)
    requires Usable(dcb)
  {
    dcb.IsVariable() && dcb.IsBlocked() ==>
      Min(|data|, MaxData(dcb)) + RDW_SIZE < dcb.blksize - BDW_SIZE
  }

  function KeptOnly(dcb: Dcb, lines: seq<seq<byte>>): (kept: seq<seq<byte>>)
    requires Usable(dcb)
    ensures |kept| <= |lines|
    ensures |kept| == |lines| <==> forall i :: 0 <= i < |lines| ==> Kept(dcb, lines[i])
    ensures |kept| == |lines| ==> kept == lines
  {
    if lines == [] then []
    else
      var init := KeptOnly(dcb, lines[..|lines| - 1]);
      if Kept(dcb, lines[|lines| - 1]) then init + [lines[|lines| - 1]] else init
  }

  lemma {:induction false} KeptOnlySnoc(dcb: Dcb, lines: seq<seq<byte>>, i: nat)
    requires Usable(dcb) && i < |lines|
    ensures RecordsOf(dcb, KeptOnly(dcb, lines[..i + 1])) ==
            RecordsOf(dcb, KeptOnly(dcb, lines[..i])) +
            if Kept(dcb, lines[i]) then [Record(dcb, lines[i])] else []
  {
    assert lines[..i + 1][..i] == lines[..i];
  }

  // ---------- records in a block ----------

  function Halfword(n: nat): (h: seq<byte>)
    requires n < HALFWORD_LIMIT
    ensures |h| == 2
  {
    [n / 256, n % 256]
  }

  function HalfwordValue(s: seq<byte>): nat
    requires |s| >= 2
  {
    s[0] as int * 256 + s[1] as int
  }

  predicate Segmentable(r: seq<byte>) { |r| + RDW_SIZE < HALFWORD_LIMIT }

  /** A variable record behind its record descriptor word. */
  function Segment(r: seq<byte>): (s: seq<byte>)
    requires Segmentable(r)
    ensures |s| == |r| + RDW_SIZE
    ensures HalfwordValue(s) == |s| && s[2] == s[3] == 0 && s[4..] == r
  {
    Halfword(|r| + RDW_SIZE) + [0, 0] + r
  }

  /** A record descriptor word put in front of a text makes a segment. */
  lemma {:induction false} SegmentStored(was: seq<byte>, now: seq<byte>, at: nat, text: seq<byte>)
    requires Segmentable(text) && at + RDW_SIZE + |text| <= |was|
    requires was[at + RDW_SIZE..at + RDW_SIZE + |text|] == text
    requires |now| == |was| && forall i :: 0 <= i < |was| && !(at <= i < at + RDW_SIZE) ==> now[i] == was[i]
    requires now[at] == (|text| + RDW_SIZE) / 256 && now[at + 1] == (|text| + RDW_SIZE) % 256
    requires now[at + 2] == now[at + 3] == 0
    ensures now[..at + RDW_SIZE + |text|] == was[..at] + Segment(text)
  {
    var end := at + RDW_SIZE + |text|;
    assert now[..at] == was[..at];
    assert now[at..at + RDW_SIZE] == Halfword(|text| + RDW_SIZE) + [0, 0];
    assert now[at + RDW_SIZE..end] == was[at + RDW_SIZE..end];
    assert now[..end] == now[..at] + now[at..at + RDW_SIZE] + now[at + RDW_SIZE..end];
  }

  function Segments(rs: seq<seq<byte>>): seq<byte>
    requires forall r <- rs :: Segmentable(r)
  {
    if rs == [] then [] else Segment(rs[0]) + Segments(rs[1..])
  }

  /** Reads a chain of RDW-prefixed records. */
  function Unsegment(s: seq<byte>): Option<seq<seq<byte>>> {
    if s == [] then Some([])
    else if |s| < RDW_SIZE then None
    else
      var len := HalfwordValue(s);
      if len < RDW_SIZE || |s| < len || s[2] != 0 || s[3] != 0 then None
      else
        var rest := Unsegment(s[len..]);
        if rest.None? then None else Some([s[RDW_SIZE..len]] + rest.value)
  }

  function Split(lrecl: nat, s: seq<byte>): Option<seq<seq<byte>>> {
    if s == [] then Some([])
    else if lrecl == 0 || |s| < lrecl then None
    else
      var rest := Split(lrecl, s[lrecl..]);
      if rest.None? then None else Some([s[..lrecl]] + rest.value)
  }

  /** What a reader of the data set makes of one physical block. */
  function Deblock(dcb: Dcb, block: seq<byte>): Option<seq<seq<byte>>> {
    if !dcb.IsVariable() then Split(dcb.lrecl, block)
    else if |block| < BDW_SIZE || HalfwordValue(block) != |block| || block[2] != 0 || block[3] != 0 then None
    else Unsegment(block[BDW_SIZE..])
  }

  function DeblockAll(dcb: Dcb, blocks: seq<seq<byte>>): Option<seq<seq<byte>>> {
    if blocks == [] then Some([])
    else
      var init := DeblockAll(dcb, blocks[..|blocks| - 1]);
      var last := Deblock(dcb, blocks[|blocks| - 1]);
      if init.None? || last.None? then None else Some(init.value + last.value)
  }

  // ---------- the block buffer ----------

  /** The bytes in a fixed-length block buffer, and the records they are. */
  ghost predicate FixedBuffer(dcb: Dcb, content: seq<byte>, pending: seq<seq<byte>>) {
    && dcb.lrecl > 0
    && (forall r <- pending :: |r| == dcb.lrecl)
    && Rem(|content|, dcb.lrecl) == 0
    && content == Flatten(pending)
  }

  /** The same for variable-length records; the length in the BDW is filled in when writing. */
  ghost predicate VariableBuffer(content: seq<byte>, pending: seq<seq<byte>>) {
    && (forall r <- pending :: Segmentable(r))
    && if |content| < BDW_SIZE then content == [] && pending == []
       else content[2] == content[3] == 0 && content[BDW_SIZE..] == Segments(pending)
  }

  lemma {:induction false} FixedBufferGrows(dcb: Dcb, content: seq<byte>, pending: seq<seq<byte>>, record: seq<byte>)
    requires FixedBuffer(dcb, content, pending) && |record| == dcb.lrecl
    requires Rem(dcb.blksize, dcb.lrecl) == 0 && |content| < dcb.blksize
    ensures FixedBuffer(dcb, content + record, pending + [record])
    ensures |content + record| <= dcb.blksize
  {
    RemGap(|content|, dcb.blksize, dcb.lrecl);
    FlattenSnoc(pending, record);
  }

  lemma {:induction false} VariableBufferGrows(content: seq<byte>, pending: seq<seq<byte>>, record: seq<byte>)
    requires VariableBuffer(content, pending) && |content| >= BDW_SIZE && Segmentable(record)
    ensures VariableBuffer(content + Segment(record), pending + [record])
  {
    SegmentsAppend(pending, record);
    var grown := content + Segment(record);
    assert grown[BDW_SIZE..] == content[BDW_SIZE..] + Segment(record);
  }

  lemma {:induction false} EmptyBuffer(dcb: Dcb, content: seq<byte>, pending: seq<seq<byte>>)
    requires dcb.IsVariable() ==> VariableBuffer(content, pending) && |content| <= BDW_SIZE
    requires !dcb.IsVariable() ==> FixedBuffer(dcb, content, pending) && content == []
    ensures pending == []
  {
  }

  lemma {:induction false} PendingInBuffer(content: seq<byte>, pending: seq<seq<byte>>)
    requires VariableBuffer(content, pending)
    ensures pending == [] ==> |content| <= BDW_SIZE
  {
    assert pending == [] && |content| >= BDW_SIZE ==> |content[BDW_SIZE..]| == 0;
  }

  /** A full fixed block reads back as its records. */
  lemma {:induction false} FixedBlock(dcb: Dcb, content: seq<byte>, pending: seq<seq<byte>>)
    requires !dcb.IsVariable() && FixedBuffer(dcb, content, pending)
    ensures Deblock(dcb, content) == Some(pending)
  {
    SplitFlatten(dcb.lrecl, pending);
  }

  /** A variable block, its BDW filled in, reads back as its records. */
  lemma {:induction false} VariableBlock(dcb: Dcb, content: seq<byte>, pending: seq<seq<byte>>, block: seq<byte>)
    requires dcb.IsVariable() && VariableBuffer(content, pending)
    requires BDW_SIZE <= |content| < HALFWORD_LIMIT
    requires block == Halfword(|content|) + content[2..]
    ensures Deblock(dcb, block) == Some(pending)
  {
    assert block[BDW_SIZE..] == content[BDW_SIZE..];
    assert block[2] == content[2] && block[3] == content[3];
    assert HalfwordValue(block) == HalfwordValue(Halfword(|content|));
    UnsegmentSegments(pending);
  }

  // ---------- lemmas ----------

  lemma {:induction false} SegmentsAppend(rs: seq<seq<byte>>, r: seq<byte>)
    requires forall q <- rs :: Segmentable(q)
    requires Segmentable(r)
    ensures Segments(rs + [r]) == Segments(rs) + Segment(r)
  {
    if rs == [] {
      assert rs + [r] == [r];
      assert Segments([r]) == Segment(r) + Segments([]);
    } else {
      assert (rs + [r])[1..] == rs[1..] + [r];
      SegmentsAppend(rs[1..], r);
    }
  }

  /** Every RDW chain is read back as the records that went into it. */
  lemma {:induction false} UnsegmentSegments(rs: seq<seq<byte>>)
    requires forall q <- rs :: Segmentable(q)
    ensures Unsegment(Segments(rs)) == Some(rs)
  {
    if rs != [] {
      UnsegmentSegments(rs[1..]);
      var head, tail := Segment(rs[0]), Segments(rs[1..]);
      var s := Segments(rs);
      assert s == head + tail;
      assert s[0] == head[0] && s[1] == head[1] && s[2] == head[2] && s[3] == head[3];
      assert HalfwordValue(s) == |head|;
      assert s[|head|..] == tail;
      assert s[RDW_SIZE..|head|] == head[RDW_SIZE..] == rs[0];
      assert rs == [rs[0]] + rs[1..];
    }
  }

  lemma {:induction false} SplitFlatten(lrecl: nat, rs: seq<seq<byte>>)
    requires lrecl > 0
    requires forall r <- rs :: |r| == lrecl
    ensures Split(lrecl, Flatten(rs)) == Some(rs)
  {
    if rs != [] {
      SplitFlatten(lrecl, rs[1..]);
      var s := Flatten(rs);
      assert s[..lrecl] == rs[0];
      assert s[lrecl..] == Flatten(rs[1..]);
      assert rs == [rs[0]] + rs[1..];
    }
  }

  /** Every block is readable and no longer than the block size. */
  ghost predicate ReadableBlocks(dcb: Dcb, blocks: seq<seq<byte>>) {
    && DeblockAll(dcb, blocks).Some?
    && forall b <- blocks :: |b| <= dcb.blksize
  }

  lemma {:induction false} ReadableBlocksAppend(dcb: Dcb, blocks: seq<seq<byte>>, block: seq<byte>)
    requires ReadableBlocks(dcb, blocks)
    requires Deblock(dcb, block).Some? && |block| <= dcb.blksize
    ensures ReadableBlocks(dcb, blocks + [block])
    ensures DeblockAll(dcb, blocks + [block]) ==
            Some(DeblockAll(dcb, blocks).value + Deblock(dcb, block).value)
  {
    assert (blocks + [block])[..|blocks|] == blocks;
  }

  /** A block of the pending records, written: what was readable stays readable. */
  lemma {:induction false} PendingWritten(dcb: Dcb, blocks: seq<seq<byte>>, block: seq<byte>, pending: seq<seq<byte>>)
    requires ReadableBlocks(dcb, blocks)
    requires Deblock(dcb, block) == Some(pending) && |block| <= dcb.blksize
    ensures ReadableBlocks(dcb, blocks + [block])
    ensures DeblockAll(dcb, blocks + [block]) == Some(DeblockAll(dcb, blocks).GetOr([]) + pending)
    ensures DeblockAll(dcb, blocks + [block]).GetOr([]) + [] == DeblockAll(dcb, blocks).GetOr([]) + pending
  {
    ReadableBlocksAppend(dcb, blocks, block);
  }

  /** A fresh descriptor and no records. */
  lemma {:induction false} DescriptorOnly(content: seq<byte>)
    requires content == [0, 0, 0, 0]
    ensures VariableBuffer(content, [])
  {
    assert content[BDW_SIZE..] == [];
  }

  lemma {:induction false} RemGap(a: nat, b: nat, m: nat)
    requires m > 0 && Rem(a, m) == 0 && Rem(b, m) == 0 && a < b
    ensures a + m <= b && Rem(a + m, m) == 0
  {
    if a >= m {
      RemGap(a - m, b - m, m);
    }
  }

  /** `Rem` is the C remainder operator on the operands that occur here. */
  lemma {:induction false} RemIsModulo(n: nat, m: nat)
    requires m > 0
    ensures Rem(n, m) == n % m
  {
    if n < m {
      QuotientUnique(n, 0, n, m);
    } else {
      RemIsModulo(n - m, m);
      var q, r := (n - m) / m, (n - m) % m;
      assert n == (q + 1) * m + r;
      QuotientUnique(n, q + 1, r, m);
    }
  }

  /**
    * When the blocked variable path loses a line: exactly when the block has no byte to spare
    * over the largest record and the line fills that record.
    */
  lemma {:induction false} KeptExactly(dcb: Dcb, data: seq<byte>)
    requires Usable(dcb)
    ensures Kept(dcb, data) <==>
            !(dcb.IsVariable() && dcb.IsBlocked() && dcb.blksize == dcb.lrecl + BDW_SIZE && |data| >= MaxData(dcb))
  {
    assert dcb.IsVariable() ==> dcb.blksize >= dcb.lrecl + BDW_SIZE;
  }

  /** The records survive as a whole exactly when no single line is lost. */
  lemma {:induction false} NothingLostExactly(dcb: Dcb, lines: seq<seq<byte>>)
    requires Usable(dcb)
    ensures RecordsOf(dcb, KeptOnly(dcb, lines)) == RecordsOf(dcb, lines) <==>
            forall i :: 0 <= i < |lines| ==>
              !(dcb.IsVariable() && dcb.IsBlocked() && dcb.blksize == dcb.lrecl + BDW_SIZE &&
                |lines[i]| >= MaxData(dcb))
  {
    forall i | 0 <= i < |lines|
      ensures Kept(dcb, lines[i]) <==>
              !(dcb.IsVariable() && dcb.IsBlocked() && dcb.blksize == dcb.lrecl + BDW_SIZE &&
                |lines[i]| >= MaxData(dcb))
    {
      KeptExactly(dcb, lines[i]);
    }
    if RecordsOf(dcb, KeptOnly(dcb, lines)) == RecordsOf(dcb, lines) {
      assert |KeptOnly(dcb, lines)| == |lines|;
    }
  }

  /**
    * When writing a line puts a byte behind the storage of the block: an unblocked variable record
    * that fills a block with no byte to spare, so that the NUL after its text falls outside.
    */
  predicate Overruns(dcb: Dcb, data: seq<byte>)
    requires Usable(dcb)
  {
    dcb.IsVariable() && !dcb.IsBlocked() && dcb.blksize == dcb.lrecl + BDW_SIZE && |Record(dcb, data)| == MaxData(dcb)
  }

  /** The bytes a line asks for, before it is cut at a NUL, and those its record takes. */
  function RecordSpace(dcb: Dcb, data: seq<byte>): nat
    requires Usable(dcb)
  {
    if !dcb.IsVariable() then dcb.lrecl else 4 + if |data| < dcb.lrecl - 4 then |data| else dcb.lrecl - 4
  }

  function StoredSpace(dcb: Dcb, data: seq<byte>): nat
    requires Usable(dcb)
  {
    if dcb.IsVariable() then 4 + |Record(dcb, data)| else dcb.lrecl
  }

  /** One block of `size` bytes behind those already written. */
  predicate OneMoreBlock(before: seq<seq<byte>>, after: seq<seq<byte>>, size: nat) {
    |after| == |before| + 1 && after[..|before|] == before && |after[|before|]| == size
  }

  /**
    * When a block is written, `used` bytes being in the buffer and `size` bytes more to come: if they
    * fill a fixed block; always if each record is a block; if there is not a byte to spare behind
    * them in a block of several, which is then written without them.
    */
  predicate Packs(dcb: Dcb, used: nat, before: seq<seq<byte>>, after: seq<seq<byte>>, size: nat, stored: nat) {
    if !dcb.IsVariable() then
      if used + size < dcb.blksize then after == before else OneMoreBlock(before, after, dcb.blksize)
    else if !dcb.IsBlocked() then OneMoreBlock(before, after, 4 + stored)
    else if (if used == 0 then 4 else used) + size < dcb.blksize then after == before
    else OneMoreBlock(before, after, if used == 0 then 4 else used)
  }

  lemma {:induction false} PackedNext(dcb: Dcb, before: seq<seq<byte>>, after: seq<seq<byte>>, lines: seq<seq<byte>>,
                                      n: nat, ended: seq<nat>, used: nat) returns (ended': seq<nat>)
    requires Usable(dcb) && n < |lines| && WellPacked(dcb, before, lines, n, ended)
    requires Packs(dcb, used, before, after, RecordSpace(dcb, lines[n]), StoredSpace(dcb, lines[n]))
    ensures WellPacked(dcb, after, lines, n + 1, ended')
  {
    ended' := if after == before then ended else ended + [n];
    if after != before {
      assert forall i :: 0 <= i < |before| ==> after[i] == after[..|before|][i];
    }
  }

  /**
    * The blocks written for the first `n` lines before the flush, each of them when the line that
    * `ended` gives the index of came: a fixed block is full, an unblocked variable one holds the
    * record of that line, and another variable one had not a byte to spare behind that line.
    */
  predicate WellPacked(dcb: Dcb, blocks: seq<seq<byte>>, lines: seq<seq<byte>>, n: nat, ended: seq<nat>)
    requires Usable(dcb) && n <= |lines|
  {
    && |ended| == |blocks| <= n && (forall i :: 0 <= i < |ended| ==> ended[i] < n)
    && (forall i, j :: 0 <= i < j < |ended| ==> ended[i] < ended[j])
    && (dcb.IsVariable() && !dcb.IsBlocked() ==> |blocks| == n)
    && forall i :: 0 <= i < |blocks| ==>
         if !dcb.IsVariable() then |blocks[i]| == dcb.blksize
         else if !dcb.IsBlocked() then |blocks[i]| == 4 + StoredSpace(dcb, lines[ended[i]])
         else |blocks[i]| + RecordSpace(dcb, lines[ended[i]]) >= dcb.blksize
  }

  /** What the two paths make of a line cut to `length`. */
  lemma {:induction false} VariableLine(dcb: Dcb, data: seq<byte>, length: nat)
    requires Usable(dcb) && dcb.IsVariable() && length == Min(|data|, MaxData(dcb))
    ensures length <= |data| && Record(dcb, data) == CutAtNul(data[..length])
    ensures RecordSpace(dcb, data) == RDW_SIZE + length
    ensures Kept(dcb, data) <==> !dcb.IsBlocked() || length + RDW_SIZE < dcb.blksize - BDW_SIZE
    ensures Overruns(dcb, data) <==> !dcb.IsBlocked() && BDW_SIZE + RDW_SIZE + |CutAtNul(data[..length])| == dcb.blksize
  {
  }

  lemma {:induction false} FixedLine(dcb: Dcb, data: seq<byte>, length: nat)
    requires Usable(dcb) && !dcb.IsVariable() && length == Min(|data|, dcb.lrecl)
    ensures length <= |data| && Record(dcb, data) == data[..length] + Blanks(dcb.lrecl - length)
    ensures Kept(dcb, data) && !Overruns(dcb, data)
  {
  }

  predicate SomeOverruns(dcb: Dcb, lines: seq<seq<byte>>)
    requires Usable(dcb)
  {
    exists line :: line in lines && Overruns(dcb, line)
  }

  lemma {:induction false} SomeOverrunsSnoc(dcb: Dcb, lines: seq<seq<byte>>, i: nat)
    requires Usable(dcb) && i < |lines|
    ensures SomeOverruns(dcb, lines[..i + 1]) <==> SomeOverruns(dcb, lines[..i]) || Overruns(dcb, lines[i])
  {
    assert lines[..i + 1] == lines[..i] + [lines[i]];
    assert forall line :: line in lines[..i + 1] <==> line in lines[..i] || line == lines[i];
  }

  /** Variable unblocked, LRECL 84, BLKSIZE 88: any 80 characters without a NUL do it. */
  lemma {:induction false} FillingRecordOverruns(data: seq<byte>)
    requires |data| >= 80 && NUL !in data[..80]
    ensures Usable(Dcb(DCB_RECV, 84, 88)) && Overruns(Dcb(DCB_RECV, 84, 88), data)
  {
    UncutExactly(data[..80]);
  }

  /** Nothing is cut off exactly when there is no NUL. */
  lemma {:induction false} UncutExactly(s: seq<byte>)
    ensures |CutAtNul(s)| == |s| <==> NUL !in s
    ensures NUL !in s ==> CutAtNul(s) == s
  {
    if s != [] {
      UncutExactly(s[1..]);
      assert s == [s[0]] + s[1..];
    }
  }

  /** Variable blocked, LRECL 84, BLKSIZE 88: a line of 80 bytes or more leaves nothing behind. */
  lemma {:induction false} FillingRecordIsLost(data: seq<byte>)
    requires |data| >= 80
    ensures var dcb := Dcb(DCB_RECV | DCB_RECBR, 84, 88);
            Usable(dcb) && RecordsOf(dcb, [data]) != [] && RecordsOf(dcb, KeptOnly(dcb, [data])) == []
  {
    var dcb := Dcb(DCB_RECV | DCB_RECBR, 84, 88);
    assert Usable(dcb);
    KeptExactly(dcb, data);
    assert KeptOnly(dcb, [data][..0]) == [];
  }
}
