/** The bytes of records and blocks, said without the functions that put them together. */
module BpamBytes {
  import opened Common
  import opened BpamRecords

  // ---------- one record ----------

  /** The record of a line: blank padded to LRECL, or the longest start of it without a NUL that fits. */
  lemma {:induction false} RecordExactly(dcb: Dcb, data: seq<byte>)
    requires Usable(dcb)
    ensures var r := Record(dcb, data);
            if dcb.recfm & 0x40 == 0 then
              |r| == dcb.lrecl && forall k :: 0 <= k < dcb.lrecl ==> r[k] == if k < |data| then data[k] else 0x40
            else
              && |r| <= |data| && r == data[..|r|] && 0x00 !in r && |r| + 4 <= dcb.lrecl
              && (|r| == |data| || |r| + 4 == dcb.lrecl || data[|r|] == 0x00)
  {
    var kept := data[..Min(|data|, MaxData(dcb))];
    if dcb.IsVariable() {
      var r := CutAtNul(kept);
      assert kept[..|r|] == data[..|r|];
      assert |r| < |kept| ==> kept[|r|] == data[|r|];
    }
  }

  // ---------- one block ----------

  /** Length and two zero bytes in front of each record. */
  function Chain(rs: seq<seq<byte>>): seq<byte>
    requires forall r <- rs :: |r| < 65_532
  {
    if rs == [] then [] else [(|rs[0]| + 4) / 256, (|rs[0]| + 4) % 256, 0, 0] + rs[0] + Chain(rs[1..])
  }

  /** The block holds these records, as the bytes of a data set do. */
  predicate IsBlock(dcb: Dcb, block: seq<byte>, rs: seq<seq<byte>>) {
    if dcb.recfm & 0x40 == 0 then
      (forall r <- rs :: |r| == dcb.lrecl) && (rs != [] ==> dcb.lrecl > 0) && block == Flatten(rs)
    else
      && (forall r <- rs :: |r| < 65_532) && |block| < 65_536
      && block == [|block| / 256, |block| % 256, 0, 0] + Chain(rs)
  }

  lemma {:induction false} LengthOfBytes(a: byte, b: byte, n: nat)
    ensures a as int * 256 + b as int == n <==> n < 65_536 && a as int == n / 256 && b as int == n % 256
  {
    if a as int * 256 + b as int == n {
      QuotientUnique(n, a as int, b as int, 256);
    }
  }

  lemma {:induction false} LinkOf(s: seq<byte>, len: nat)
    requires 4 <= len <= |s| && HalfwordValue(s) == len && s[2] == 0 && s[3] == 0
    ensures len < 65_536 && s == [len / 256, len % 256, 0, 0] + s[4..len] + s[len..]
  {
    LengthOfBytes(s[0], s[1], len);
    assert s[..4] == [len / 256, len % 256, 0, 0];
    assert s == s[..4] + s[4..len] + s[len..];
  }

  /** What is read as a chain is one. */
  lemma {:induction false} ReadIsChain(s: seq<byte>)
    ensures var r := Unsegment(s);
            r.Some? ==> (forall q <- r.value :: |q| < 65_532) && s == Chain(r.value)
    decreases |s|
  {
    if s != [] && Unsegment(s).Some? {
      var len := HalfwordValue(s);
      LinkOf(s, len);
      ReadIsChain(s[len..]);
      var rest := Unsegment(s[len..]).value;
      var all := Unsegment(s).value;
      assert all[0] == s[4..len] && all[1..] == rest;
      assert forall q <- all :: q == all[0] || q in rest;
      FirstLink(all[0], rest, s, len);
    }
  }

  lemma {:induction false} FirstLink(first: seq<byte>, rest: seq<seq<byte>>, s: seq<byte>, len: nat)
    requires |first| < 65_532 && (forall q <- rest :: |q| < 65_532) && |first| + 4 == len <= |s| && s[len..] == Chain(rest)
    requires s == [len / 256, len % 256, 0, 0] + first + s[len..]
    ensures s == Chain([first] + rest)
  {
    assert ([first] + rest)[1..] == rest;
  }

  /** A chain reads back as what is in it. */
  lemma {:induction false} ChainIsRead(rs: seq<seq<byte>>)
    requires forall r <- rs :: |r| < 65_532
    ensures Unsegment(Chain(rs)) == Some(rs)
  {
    if rs != [] {
      var len, s, rest := |rs[0]| + 4, Chain(rs), Chain(rs[1..]);
      ChainIsRead(rs[1..]);
      LengthOfBytes(len / 256, len % 256, len);
      assert s == [len / 256, len % 256, 0, 0] + rs[0] + rest;
      assert s[4..len] == rs[0] && s[len..] == rest;
      assert s[0] == len / 256 && s[1] == len % 256 && s[2] == 0 && s[3] == 0;
      assert rs == [rs[0]] + rs[1..];
    }
  }

  lemma {:induction false} ReadIsBlock(block: seq<byte>, rs: seq<seq<byte>>, dcb: Dcb)
    requires dcb.IsVariable() && Deblock(dcb, block) == Some(rs)
    ensures IsBlock(dcb, block, rs)
  {
    ReadIsChain(block[4..]);
    LinkOf(block, |block|);
    assert block[|block|..] == [];
  }

  lemma {:induction false} BlockIsRead(block: seq<byte>, rs: seq<seq<byte>>, dcb: Dcb)
    requires dcb.IsVariable() && IsBlock(dcb, block, rs)
    ensures Deblock(dcb, block) == Some(rs)
  {
    ChainIsRead(rs);
    LengthOfBytes(block[0], block[1], |block|);
    assert block[4..] == Chain(rs);
  }

  lemma {:induction false} OneMoreSplit(lrecl: nat, s: seq<byte>, rest: seq<seq<byte>>)
    requires lrecl <= |s| && s[lrecl..] == Flatten(rest) && forall q <- rest :: |q| == lrecl
    ensures s == Flatten([s[..lrecl]] + rest) && forall q <- [s[..lrecl]] + rest :: |q| == lrecl
  {
    assert ([s[..lrecl]] + rest)[1..] == rest;
    assert s == s[..lrecl] + s[lrecl..];
  }

  lemma {:induction false} ReadIsSplit(lrecl: nat, s: seq<byte>)
    ensures var r := Split(lrecl, s);
            r.Some? ==>
              && (forall q <- r.value :: |q| == lrecl) && (s != [] ==> lrecl > 0) && s == Flatten(r.value)
              && (s == [] <==> r.value == [])
    decreases |s|
  {
    if s != [] && Split(lrecl, s).Some? {
      ReadIsSplit(lrecl, s[lrecl..]);
      OneMoreSplit(lrecl, s, Split(lrecl, s[lrecl..]).value);
    }
  }

  lemma {:induction false} FixedBlockExactly(block: seq<byte>, rs: seq<seq<byte>>, dcb: Dcb)
    requires !dcb.IsVariable()
    ensures Deblock(dcb, block) == Some(rs) <==> IsBlock(dcb, block, rs)
  {
    ReadIsSplit(dcb.lrecl, block);
    if IsBlock(dcb, block, rs) && rs != [] {
      SplitFlatten(dcb.lrecl, rs);
    }
  }

  /**
    * What a reader makes of a block, for every block and every record format: it finds these records
    * exactly when the bytes are a block descriptor and the records behind their descriptors, or the
    * records one behind the other.
    */
  lemma {:induction false} DeblockExactly(dcb: Dcb, block: seq<byte>, rs: seq<seq<byte>>)
    ensures Deblock(dcb, block) == Some(rs) <==> IsBlock(dcb, block, rs)
  {
    if dcb.IsVariable() {
      if IsBlock(dcb, block, rs) {
        BlockIsRead(block, rs, dcb);
      } else if Deblock(dcb, block) == Some(rs) {
        ReadIsBlock(block, rs, dcb);
      }
    } else {
      FixedBlockExactly(block, rs, dcb);
    }
  }

  /** A whole member: each block holds records, and together they are these. */
  ghost predicate AreBlocks(dcb: Dcb, blocks: seq<seq<byte>>, rs: seq<seq<byte>>)
    decreases |blocks|
  {
    if blocks == [] then rs == []
    else exists n: nat :: n <= |rs| && IsBlock(dcb, blocks[|blocks| - 1], rs[n..]) && AreBlocks(dcb, blocks[..|blocks| - 1], rs[..n])
  }

  /** The records a reader finds in a member are those its blocks hold. */
  lemma {:induction false} DeblockedAreBlocks(dcb: Dcb, blocks: seq<seq<byte>>)
    requires DeblockAll(dcb, blocks).Some?
    ensures AreBlocks(dcb, blocks, DeblockAll(dcb, blocks).value)
    decreases |blocks|
  {
    if blocks != [] {
      var init := DeblockAll(dcb, blocks[..|blocks| - 1]).value;
      var last := Deblock(dcb, blocks[|blocks| - 1]).value;
      DeblockedAreBlocks(dcb, blocks[..|blocks| - 1]);
      DeblockExactly(dcb, blocks[|blocks| - 1], last);
      assert (init + last)[|init|..] == last && (init + last)[..|init|] == init;
    }
  }

  // ---------- the attributes that are accepted ----------

  /** Which attributes the check after OPEN accepts, and which fault it finds with the others. */
  lemma {:induction false} AcceptedExactly(dcb: Dcb)
    requires dcb.recfm & 0x80 != 0 ==> dcb.lrecl != 0
    ensures ValidateDcb(dcb) ==
            if dcb.recfm & 0xC0 == 0 then Some(UnsupportedRecfm)
            else if dcb.blksize == 0 then Some(UnsupportedBlockSize)
            else if (if dcb.recfm & 0x80 != 0 then dcb.blksize % dcb.lrecl == 0 else dcb.lrecl + 4 <= dcb.blksize) then None
            else Some(InvalidBlockSize)
  {
    assert DCB_RECF | DCB_RECV == 0xC0;
    if dcb.recfm & 0x80 != 0 {
      RemIsModulo(dcb.blksize, dcb.lrecl);
    }
  }
}
