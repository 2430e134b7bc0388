/**
  * The BPAM output side of native/c/zam.c: one block buffer, filled record by record and
  * written when full or flushed. `written` is the data set as the channel sees it. The WRITE
  * and CHECK services are outside the model; each call that may reach them is given the
  * outcome they have.
  */
module BpamWriter {
  import opened Common
  import opened BpamRecords

  type nonzero = c: int | c != 0 witness 1

  /** How WRITE followed by CHECK ends: an abend exit may have closed the DCB. */
  datatype Service = Written | Failed(code: nonzero) | Abended(closed: bool)

  class IoControl {
    const dcb: Dcb               // attributes as opened
    var blksize: nat             // DCBBLKSI, lowered for the time of one short write
    const buffer: array<byte>    // the storage of one block
    var bytesInBuffer: nat
    var freeLocation: nat        // offset into `buffer`
    var linesWritten: nat
    var abended: bool
    var open: bool
    var written: seq<seq<byte>>
    ghost var pending: seq<seq<byte>>  // records in the buffer, not yet written
    ghost var overrun: bool            // a byte went behind the buffer

    /** Holds after every call, whatever the services did. */
    ghost predicate Intact()
      reads this, buffer
    {
      && Usable(dcb) && blksize == dcb.blksize && buffer.Length == dcb.blksize
      && bytesInBuffer == freeLocation <= blksize
      && (if dcb.IsVariable() then VariableBuffer(buffer[..bytesInBuffer], pending)
          else FixedBuffer(dcb, buffer[..bytesInBuffer], pending))
      && ReadableBlocks(dcb, written)
    }

    /** Holds as long as no service failed. */
    ghost predicate Valid()
      reads this, buffer
    {
      && Intact()
      && open && !abended
      && (!dcb.IsVariable() ==> bytesInBuffer < blksize)
      && (dcb.IsVariable() && !dcb.IsBlocked() ==> pending == [])
      && linesWritten == |Readable()|
    }

    /** The records a reader will see once the buffer is flushed. */
    ghost function Readable(): seq<seq<byte>>
      reads this
    {
      DeblockAll(dcb, written).GetOr([]) + pending
    }

    constructor (dcb: Dcb)
      requires Usable(dcb)
      ensures Valid() && fresh(buffer) && this.dcb == dcb
      ensures Readable() == [] && written == [] && !overrun
    {
      this.dcb, blksize := dcb, dcb.blksize;
      buffer := new byte[dcb.blksize];
      bytesInBuffer, freeLocation, linesWritten := 0, 0, 0;
      abended, open := false, true;
      written, pending, overrun := [], [], false;
    }

    /** WRITE and CHECK: sends the first DCBBLKSI bytes of the buffer. */
    method WriteSync(service: Service) returns (rc: int)
      requires blksize <= buffer.Length
      modifies this`written, this`abended, this`open
      ensures rc == (match service case Written => 0 case Failed(code) => code case Abended(_) => 0)
      ensures written == if service.Written? then old(written) + [buffer[..blksize]] else old(written)
      ensures abended == (old(abended) || service.Abended?)
      ensures open == (old(open) && !(service.Abended? && service.closed))
    {
      rc := 0;
      match service {
        case Written => written := written + [buffer[..blksize]];
        case Failed(code) => rc := code;
        case Abended(closed) =>
          abended := true;
          open := open && !closed;
      }
    }

    /** `memset` to blanks, then `memcpy` of the data. */
    method StoreFixed(data: seq<byte>, length: nat, ghost record: seq<byte>)
      requires length <= |data| && length <= dcb.lrecl
      requires freeLocation + dcb.lrecl <= buffer.Length
      requires record == data[..length] + Blanks(dcb.lrecl - length)
      modifies buffer
      ensures buffer[..freeLocation + dcb.lrecl] == old(buffer[..freeLocation]) + record
    {
      forall i | freeLocation <= i < freeLocation + dcb.lrecl {
        buffer[i] := BLANK;
      }
      forall i | freeLocation <= i < freeLocation + length {
        buffer[i] := data[i - freeLocation];
      }
    }

    /** Adds a padded record to the buffer and counts it. */
    method AddFixed(data: seq<byte>, length: nat, ghost record: seq<byte>)
      requires Intact() && !dcb.IsVariable() && bytesInBuffer < blksize
      requires length <= |data| && length <= dcb.lrecl
      requires record == data[..length] + Blanks(dcb.lrecl - length)
      modifies this`linesWritten, this`bytesInBuffer, this`freeLocation, this`pending, buffer
      ensures Intact() && linesWritten == old(linesWritten) + 1
      ensures pending == old(pending) + [record] && bytesInBuffer == old(bytesInBuffer) + dcb.lrecl
    {
      FixedBufferGrows(dcb, buffer[..bytesInBuffer], pending, record);
      StoreFixed(data, length, record);
      linesWritten := linesWritten + 1;
      bytesInBuffer := bytesInBuffer + dcb.lrecl;
      freeLocation := freeLocation + dcb.lrecl;
      pending := pending + [record];
    }

    method HandleFixedRecord(data: seq<byte>, length: nat, service: Service) returns (rc: int)
      requires Valid() && !dcb.IsVariable()
      requires length <= |data| && length <= dcb.lrecl
      modifies this, buffer
      ensures Intact()
      ensures rc == 0 || rc == -1
      ensures rc == 0 ==> Valid() && Readable() == old(Readable()) + [data[..length] + Blanks(dcb.lrecl - length)]
      ensures rc == 0 ==> if old(bytesInBuffer) + dcb.lrecl < dcb.blksize then written == old(written)
                          else OneMoreBlock(old(written), written, dcb.blksize)
      ensures service.Written? ==> rc == 0
      ensures overrun == old(overrun)
    {
      rc := 0;
      AddFixed(data, length, data[..length] + Blanks(dcb.lrecl - length));
      assert Readable() == old(Readable()) + [data[..length] + Blanks(dcb.lrecl - length)];
      if bytesInBuffer >= blksize {
        rc := WriteFullBlock(service);
      }
    }

    /** The write of a full fixed block and, when it succeeds, the reset of the buffer. */
    method WriteFullBlock(service: Service) returns (rc: int)
      requires Intact() && !dcb.IsVariable() && bytesInBuffer == blksize
      requires open && !abended
      modifies this
      ensures Intact() && linesWritten == old(linesWritten)
      ensures rc == (if service.Written? then 0 else -1)
      ensures rc == 0 ==> open && !abended && Readable() == old(Readable()) && bytesInBuffer == 0
      ensures rc == 0 ==> OneMoreBlock(old(written), written, dcb.blksize)
      ensures overrun == old(overrun)
    {
      FixedBlock(dcb, buffer[..bytesInBuffer], pending);
      PendingWritten(dcb, written, buffer[..blksize], pending);
      rc := WriteSync(service);
      if abended || rc != 0 {
        return FAILURE;
      }
      Restart();
    }

    method Restart()
      requires Intact()
      modifies this`bytesInBuffer, this`freeLocation, this`pending
      ensures Intact() && bytesInBuffer == 0 && pending == []
    {
      bytesInBuffer, freeLocation := 0, 0;
      pending := [];
      assert buffer[..bytesInBuffer] == [];
    }

    /** Reserves room for the block descriptor word of a new block. */
    method InitBdw()
      requires Intact() && dcb.IsVariable()
      modifies this`bytesInBuffer, this`freeLocation, buffer
      ensures Intact() && bytesInBuffer >= BDW_SIZE
      ensures bytesInBuffer == if old(bytesInBuffer) == 0 then BDW_SIZE else old(bytesInBuffer)
    {
      ghost var was := buffer[..bytesInBuffer];
      buffer[2], buffer[3] := 0, 0;
      if bytesInBuffer == 0 {
        freeLocation := freeLocation + BDW_SIZE;
        bytesInBuffer := BDW_SIZE;
      } else {
        assert buffer[BDW_SIZE..bytesInBuffer] == was[BDW_SIZE..];
      }
    }

    /** Stores the length of the block in its descriptor word. */
    method CompleteBdw()
      requires Intact() && dcb.IsVariable() && bytesInBuffer >= BDW_SIZE
      modifies buffer
      ensures Intact()
      ensures Deblock(dcb, buffer[..bytesInBuffer]) == Some(pending)
    {
      ghost var content := buffer[..bytesInBuffer];
      buffer[0], buffer[1] := bytesInBuffer / 256, bytesInBuffer % 256;
      assert buffer[..bytesInBuffer] == Halfword(bytesInBuffer) + content[2..];
      assert buffer[BDW_SIZE..bytesInBuffer] == content[BDW_SIZE..];
      VariableBlock(dcb, content, pending, buffer[..bytesInBuffer]);
    }

    /** Writes `bytesInBuffer` bytes, lowering DCBBLKSI for the time of the write. */
    method WriteShort(service: Service) returns (rc: int)
      requires Intact() && open
      requires Deblock(dcb, buffer[..bytesInBuffer]) == Some(pending)
      modifies this`blksize, this`written, this`abended, this`open
      ensures Intact() && blksize == old(blksize)
      ensures rc == 0 || rc == -1
      ensures service.Written? && !old(abended) ==> rc == 0
      ensures rc == 0 ==> service.Written? && open && !abended
      ensures rc == 0 ==> DeblockAll(dcb, written) == Some(old(Readable()))
      ensures rc == 0 ==> OneMoreBlock(old(written), written, bytesInBuffer)
    {
      var blocksize := blksize;
      PendingWritten(dcb, written, buffer[..bytesInBuffer], pending);
      blksize := bytesInBuffer;
      rc := WriteSync(service);
      blksize := blocksize;
      if abended || rc != 0 {
        return FAILURE;
      }
    }

    /** Completes the BDW, writes the block, and starts the next one. */
    method WriteVariableRecord(service: Service) returns (rc: int)
      requires Intact() && dcb.IsVariable() && bytesInBuffer >= BDW_SIZE
      requires open && !abended
      modifies this, buffer
      ensures Intact() && linesWritten == old(linesWritten)
      ensures rc == (if service.Written? then 0 else -1)
      ensures rc == 0 ==> open && !abended && Readable() == old(Readable())
      ensures rc == 0 ==> bytesInBuffer == BDW_SIZE && pending == []
      ensures rc == 0 ==> OneMoreBlock(old(written), written, old(bytesInBuffer))
      ensures overrun == old(overrun)
    {
      CompleteBdw();
      rc := WriteShort(service);
      if rc != 0 {
        return;
      }
      RestartVariable();
    }

    method RestartVariable()
      requires Intact() && dcb.IsVariable() && bytesInBuffer >= BDW_SIZE
      modifies this`bytesInBuffer, this`freeLocation, this`pending, buffer
      ensures Intact() && bytesInBuffer == BDW_SIZE && pending == []
    {
      assert buffer[..bytesInBuffer][2] == buffer[2] && buffer[..bytesInBuffer][3] == buffer[3];
      freeLocation := BDW_SIZE;
      bytesInBuffer := BDW_SIZE;
      buffer[0], buffer[1] := 0, 0;
      pending := [];
      DescriptorOnly(buffer[..bytesInBuffer]);
    }

    /**
      * `sprintf` behind an RDW: the data up to its first NUL, and a NUL after it, which goes behind
      * the buffer when the record fills it.
      */
    method CopyVariableRecord(data: seq<byte>, length: nat)
      requires Intact() && dcb.IsVariable() && bytesInBuffer >= BDW_SIZE
      requires length <= |data| && bytesInBuffer + RDW_SIZE + length <= blksize
      modifies this`linesWritten, this`bytesInBuffer, this`freeLocation, this`pending, this`overrun, buffer
      ensures Intact() && linesWritten == old(linesWritten) + 1
      ensures pending == old(pending) + [CutAtNul(data[..length])]
      ensures overrun == (old(overrun) || old(bytesInBuffer) + RDW_SIZE + |CutAtNul(data[..length])| == blksize)
      ensures bytesInBuffer == old(bytesInBuffer) + RDW_SIZE + |CutAtNul(data[..length])|
    {
      linesWritten := linesWritten + 1;
      var text := CutAtNul(data[..length]);
      var len := |text| + RDW_SIZE;
      ghost var content := buffer[..bytesInBuffer];
      VariableBufferGrows(content, pending, text);
      StoreSegment(text);
      bytesInBuffer := bytesInBuffer + len;
      freeLocation := freeLocation + len;
      pending := pending + [text];
      assert buffer[..bytesInBuffer] == content + Segment(text);
    }

    /** The text of a record and the NUL behind it. */
    method StoreText(text: seq<byte>, at: nat)
      requires at + |text| <= buffer.Length
      modifies buffer, this`overrun
      ensures buffer[at..at + |text|] == text && forall i :: 0 <= i < at ==> buffer[i] == old(buffer[i])
      ensures overrun == (old(overrun) || at + |text| == buffer.Length)
    {
      var end := at + |text|;
      forall i | at <= i < end {
        buffer[i] := text[i - at];
      }
      if end < buffer.Length {
        buffer[end] := NUL;
      } else {
        overrun := true;
      }
    }

    method StoreSegment(text: seq<byte>)
      requires Segmentable(text) && freeLocation + RDW_SIZE + |text| <= buffer.Length
      modifies buffer, this`overrun
      ensures buffer[..freeLocation + RDW_SIZE + |text|] == old(buffer[..freeLocation]) + Segment(text)
      ensures overrun == (old(overrun) || freeLocation + RDW_SIZE + |text| == buffer.Length)
    {
      var rdw := freeLocation;
      var len := |text| + RDW_SIZE;
      ghost var before := buffer[..rdw];
      StoreText(text, rdw + RDW_SIZE);
      ghost var stored := buffer[..];
      buffer[rdw + 2], buffer[rdw + 3] := 0, 0;
      buffer[rdw], buffer[rdw + 1] := len / 256, len % 256;
      assert stored[..rdw] == before && stored[rdw + RDW_SIZE..rdw + len] == text;
      SegmentStored(stored, buffer[..], rdw, text);
      assert buffer[..][..rdw + len] == buffer[..rdw + len];
    }

    /** The blocked path: writes the block first if the record does not fit into it. */
    method HandleBlockedRecord(data: seq<byte>, length: nat, service: Service) returns (rc: int)
      requires Intact() && dcb.IsVariable() && bytesInBuffer >= BDW_SIZE
      requires open && !abended
      requires length <= |data| && length <= MaxData(dcb)
      modifies this, buffer
      ensures Intact()
      ensures rc == 0 || (rc == -1 && !service.Written?)
      ensures rc == 0 ==> open && !abended
      ensures rc == 0 ==> Readable() == old(Readable()) +
                          if length + RDW_SIZE < blksize - BDW_SIZE then [CutAtNul(data[..length])] else []
      ensures rc == 0 ==> linesWritten == old(linesWritten) +
                          if length + RDW_SIZE < blksize - BDW_SIZE then 1 else 0
      ensures rc == 0 ==> if old(bytesInBuffer) + RDW_SIZE + length < dcb.blksize then written == old(written)
                          else OneMoreBlock(old(written), written, old(bytesInBuffer))
      ensures overrun == old(overrun)
    {
      rc := 0;
      var bytesRemaining := blksize - bytesInBuffer;
      if length + RDW_SIZE >= bytesRemaining {
        rc := WriteVariableRecord(service);
        if rc != 0 {
          return;
        }
      }
      bytesRemaining := blksize - bytesInBuffer;
      if length + RDW_SIZE < bytesRemaining {
        CopyVariableRecord(data, length);
      }
    }

    /** The unblocked path: one record in one block. */
    method HandleUnblockedRecord(data: seq<byte>, length: nat, service: Service) returns (rc: int)
      requires Intact() && dcb.IsVariable() && bytesInBuffer == BDW_SIZE
      requires open && !abended
      requires length <= |data| && length <= MaxData(dcb)
      modifies this, buffer
      ensures Intact() && linesWritten == old(linesWritten) + 1
      ensures rc == 0 || (rc == -1 && !service.Written?)
      ensures rc == 0 ==> open && !abended && pending == []
      ensures rc == 0 ==> Readable() == old(Readable()) + [CutAtNul(data[..length])]
      ensures rc == 0 ==> OneMoreBlock(old(written), written, BDW_SIZE + RDW_SIZE + |CutAtNul(data[..length])|)
      ensures overrun == (old(overrun) || BDW_SIZE + RDW_SIZE + |CutAtNul(data[..length])| == dcb.blksize)
    {
      CopyVariableRecord(data, length);
      assert Readable() == old(Readable()) + [CutAtNul(data[..length])];
      rc := WriteVariableRecord(service);
    }

    method HandleVariableRecord(data: seq<byte>, length: nat, service: Service) returns (rc: int)
      requires Valid() && dcb.IsVariable()
      requires length <= |data| && length <= MaxData(dcb)
      modifies this, buffer
      ensures Intact()
      ensures rc == 0 || (rc == -1 && !service.Written?)
      ensures rc == 0 ==> Valid()
      ensures rc == 0 ==> Readable() == old(Readable()) +
                          if !dcb.IsBlocked() || length + RDW_SIZE < blksize - BDW_SIZE
                          then [CutAtNul(data[..length])] else []
      ensures rc == 0 ==> Packs(dcb, old(bytesInBuffer), old(written), written, RDW_SIZE + length, RDW_SIZE + |CutAtNul(data[..length])|)
      ensures overrun == (old(overrun) || (!dcb.IsBlocked() && BDW_SIZE + RDW_SIZE + |CutAtNul(data[..length])| == dcb.blksize))
    {
      rc := 0;
      PendingInBuffer(buffer[..bytesInBuffer], pending);
      InitBdw();
      if !dcb.IsBlocked() {
        rc := HandleUnblockedRecord(data, length, service);
      } else {
        rc := HandleBlockedRecord(data, length, service);
      }
    }

    /** One logical record: cut to LRECL, then on to the path of the record format. */
    method WriteOutput(data: seq<byte>, service: Service) returns (rc: int)
      requires Valid()
      modifies this, buffer
      ensures Intact()
      ensures rc == 0 || rc == -1
      ensures service.Written? ==> rc == 0
      ensures rc == 0 ==> Valid()
      ensures rc == 0 ==> Readable() == old(Readable()) + if Kept(dcb, data) then [Record(dcb, data)] else []
      ensures rc == 0 ==> Packs(dcb, old(bytesInBuffer), old(written), written, RecordSpace(dcb, data), StoredSpace(dcb, data))
      ensures overrun == (old(overrun) || Overruns(dcb, data))
    {
      var length := |data|;
      if dcb.IsVariable() {
        var maxDataLen := dcb.lrecl - RDW_SIZE;
        if length > maxDataLen {
          length := maxDataLen;
        }
        VariableLine(dcb, data, length);
        rc := HandleVariableRecord(data, length, service);
      } else {
        if length > dcb.lrecl {
          length := dcb.lrecl;
        }
        FixedLine(dcb, data, length);
        rc := HandleFixedRecord(data, length, service);
      }
    }

    /** Writes the records in the buffer and empties it. */
    method FlushBuffer(service: Service) returns (rc: int)
      requires Intact() && open && Deblock(dcb, buffer[..bytesInBuffer]) == Some(pending)
      modifies this
      ensures Intact() && linesWritten == old(linesWritten) && overrun == old(overrun)
      ensures rc == 0 || rc == -1
      ensures service.Written? && !old(abended) ==> rc == 0
      ensures rc == 0 ==> DeblockAll(dcb, written) == Some(old(Readable()))
      ensures rc == 0 ==> OneMoreBlock(old(written), written, old(bytesInBuffer))
    {
      rc := WriteShort(service);
      if rc == 0 {
        Restart();
      }
    }

    /** A buffer without records, at most with room for a BDW. */
    ghost predicate NothingBuffered()
      reads this
    {
      bytesInBuffer == 0 || (dcb.IsVariable() && bytesInBuffer <= BDW_SIZE)
    }

    lemma {:induction false} NothingToFlush()
      requires Intact() && NothingBuffered()
      ensures DeblockAll(dcb, written) == Some(Readable())
    {
      EmptyBuffer(dcb, buffer[..bytesInBuffer], pending);
      assert DeblockAll(dcb, written).value + [] == DeblockAll(dcb, written).value;
    }

    /** Writes what is left in the buffer as a short block. */
    method WriteFlush(service: Service) returns (rc: int)
      requires Intact()
      modifies this, buffer
      ensures Intact()
      ensures rc == 0 || rc == -1
      ensures service.Written? && old(open && !abended) ==> rc == 0
      ensures rc == 0 && old(open) ==> DeblockAll(dcb, written) == Some(old(Readable()))
      ensures rc == 0 && old(open) ==> if old(NothingBuffered()) then written == old(written)
                                       else OneMoreBlock(old(written), written, old(bytesInBuffer))
      ensures linesWritten == old(linesWritten) && overrun == old(overrun)
    {
      rc := 0;
      if open {
        if bytesInBuffer > 0 {
          if dcb.IsVariable() {
            if bytesInBuffer <= BDW_SIZE {
              NothingToFlush();
              return;
            }
            CompleteBdw();
          } else {
            FixedBlock(dcb, buffer[..bytesInBuffer], pending);
          }
          rc := FlushBuffer(service);
        } else {
          NothingToFlush();
        }
      }
    }

    /** The next of the lines, all before it being written or in the buffer. */
    method WriteNext(lines: seq<seq<byte>>, i: nat, service: Service, ghost before: seq<nat>)
      returns (rc: int, ghost ended: seq<nat>)
      requires Valid() && i < |lines| && WellPacked(dcb, written, lines, i, before)
      requires Readable() == RecordsOf(dcb, KeptOnly(dcb, lines[..i]))
      modifies this, buffer
      ensures Intact()
      ensures rc == 0 || rc == -1
      ensures service.Written? ==> rc == 0
      ensures rc == 0 ==> Valid() && Readable() == RecordsOf(dcb, KeptOnly(dcb, lines[..i + 1]))
      ensures rc == 0 ==> WellPacked(dcb, written, lines, i + 1, ended)
      ensures overrun == (old(overrun) || Overruns(dcb, lines[i]))
    {
      ghost var was, used := written, bytesInBuffer;
      ended := before;
      rc := WriteOutput(lines[i], service);
      if rc == 0 {
        ended := PackedNext(dcb, was, written, lines, i, before, used);
        KeptOnlySnoc(dcb, lines, i);
      }
    }

    /** Every line in turn, stopping at the first failure. */
    method WriteLines(lines: seq<seq<byte>>, services: seq<Service>) returns (rc: int, ghost ended: seq<nat>)
      requires Valid() && Readable() == [] && written == []
      requires |services| == |lines|
      modifies this, buffer
      ensures Intact()
      ensures rc == 0 || rc == -1
      ensures (forall s <- services :: s.Written?) ==> rc == 0
      ensures rc == 0 ==> Valid() && Readable() == RecordsOf(dcb, KeptOnly(dcb, lines))
      ensures rc == 0 ==> (overrun <==> old(overrun) || SomeOverruns(dcb, lines))
      ensures rc == 0 ==> WellPacked(dcb, written, lines, |lines|, ended)
    {
      rc, ended := 0, [];
      for i := 0 to |lines|
        invariant rc == 0 && Valid()
        invariant WellPacked(dcb, written, lines, i, ended)
        invariant Readable() == RecordsOf(dcb, KeptOnly(dcb, lines[..i]))
        invariant overrun == (old(overrun) || SomeOverruns(dcb, lines[..i]))
      {
        rc, ended := WriteNext(lines, i, services[i], ended);
        if rc != 0 {
          return;
        }
        SomeOverrunsSnoc(dcb, lines, i);
      }
      assert lines[..|lines|] == lines;
    }

    /**
      * Writes a whole member and flushes. `services` holds the outcome of the write that each
      * of these calls may issue.
      */
    method WriteMember(lines: seq<seq<byte>>, services: seq<Service>) returns (rc: int, ghost ended: seq<nat>)
      requires Valid() && Readable() == [] && written == []
      requires |services| == |lines| + 1
      modifies this, buffer
      ensures Intact()
      ensures rc == 0 || rc == -1
      ensures (forall s <- services :: s.Written?) ==> rc == 0
      ensures rc == 0 ==> DeblockAll(dcb, written) == Some(RecordsOf(dcb, KeptOnly(dcb, lines)))
      ensures rc == 0 ==> linesWritten == |KeptOnly(dcb, lines)|
      ensures rc == 0 ==> (overrun <==> old(overrun) || SomeOverruns(dcb, lines))
      ensures rc == 0 ==> |ended| <= |written| <= |ended| + 1 && WellPacked(dcb, written[..|ended|], lines, |lines|, ended)
    {
      rc, ended := WriteLines(lines, services[..|lines|]);
      ghost var full := written;
      if rc == 0 {
        rc := WriteFlush(services[|lines|]);
        assert full[..|full|] == full && (rc == 0 ==> written[..|full|] == full);
      }
    }
  }
}
