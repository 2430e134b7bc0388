/**
  * The open/close protocol of native/c/zam.c and native/c/zdsm.c around a BPAM member:
  * ENQ, RESERVE, OPEN and storage on the way in, and everything given back on the way out,
  * with every service free to fail. `log` records the services issued, in order.
  */
module BpamSession {
  import opened Common

  const BLDL_WARNING := 4

  datatype Event =
    | Obtain(area: Area)
    | Release(area: Area)
    | Enq(rc: int)
    | Deq(rc: int)
    | Reserve(rc: int)
    | DeqReserve(rc: int)
    | Open(isOpen: bool)
    | Write(stillOpen: bool)
    | Bldl(rc: int)
    | Stow(rc: int)
    | Close(stillOpen: bool)

  datatype Area = ControlBlock | ExitRoutine | BlockBuffer

  /** What the services called by open_output_bpam answer. */
  datatype OpenServices = OpenServices(
    jfcbRc: int, isPds: bool, namesMember: bool, enqRc: int, ucbFound: bool, reserveRc: int,
    openRc: int, openAbend: bool, dcbOpen: bool, dcbAccepted: bool)

  /** What the services called by close_output_bpam answer. */
  datatype CloseServices = CloseServices(
    somethingToFlush: bool, writeRc: int, writeAbend: bool, openAfterWrite: bool,
    bldlRc: int, userRc: int, stowRc: int,
    closeRc: int, closeAbend: bool, openAfterClose: bool,
    deqReserveRc: int, deqRc: int)

  // ---------- what the protocol issues ----------

  /** Where open_output_bpam stops: the first step that fails, or the end. */
  datatype Stage = AtJfcb | AtAttributes | AtEnq | AtUcb | AtReserve | AtOpen | AtDcb | Done

  function OpenStage(s: OpenServices): Stage {
    if s.jfcbRc != 0 then AtJfcb
    else if !s.isPds || !s.namesMember then AtAttributes
    else if s.enqRc != 0 then AtEnq
    else if !s.ucbFound then AtUcb
    else if s.reserveRc != 0 then AtReserve
    else if s.openRc != 0 || s.openAbend || !s.dcbOpen then AtOpen
    else if !s.dcbAccepted then AtDcb
    else Done
  }

  function OpenLog(s: OpenServices): seq<Event> {
    var stage := OpenStage(s);
    [Obtain(ControlBlock), Obtain(ExitRoutine)]
    + (if stage in {AtJfcb, AtAttributes} then [] else [Enq(s.enqRc)])
    + (if stage in {AtJfcb, AtAttributes, AtEnq, AtUcb} then [] else [Reserve(s.reserveRc)])
    + (if stage in {AtOpen, AtDcb, Done} then [Open(s.dcbOpen)] else [])
    + (if stage == Done then [Obtain(BlockBuffer)] else [])
  }

  /** The control block as the close finds it. */
  datatype View = View(hasEnq: bool, hasReserve: bool, dcbOpen: bool, abended: bool, hasBuffer: bool, hasExit: bool)

  function Opened(s: OpenServices): View {
    var stage := OpenStage(s);
    View(stage in {AtUcb, AtReserve, AtOpen, AtDcb, Done}, stage in {AtOpen, AtDcb, Done},
         stage in {AtOpen, AtDcb, Done} && s.dcbOpen, stage in {AtOpen, AtDcb, Done} && s.openAbend,
         stage == Done, true)
  }

  predicate Flushes(v: View, s: CloseServices) { v.dcbOpen && s.somethingToFlush }

  /** Whether the DCB is open when finalize_dcb would run. */
  predicate Finalizes(v: View, s: CloseServices) { v.dcbOpen && (s.somethingToFlush ==> s.openAfterWrite) }

  function CloseLog(v: View, s: CloseServices): seq<Event> {
    WriteOutLog(v, s) + GiveBackLog(v, s)
  }

  function WriteOutLog(v: View, s: CloseServices): seq<Event> {
    (if Flushes(v, s) then [Write(s.openAfterWrite)] else [])
    + (if Finalizes(v, s) then FinalizeLog(s) else [])
  }

  /** The directory entry is looked up, written back when that went well, and the data set closed. */
  function FinalizeLog(s: CloseServices): seq<Event> {
    [Bldl(s.bldlRc)] + (if StatisticsRc(s) == 0 then [Stow(s.stowRc)] else []) + [Close(s.openAfterClose)]
  }

  function GiveBackLog(v: View, s: CloseServices): seq<Event> {
    (if v.hasBuffer then [Release(BlockBuffer)] else [])
    + (if v.hasReserve then [DeqReserve(s.deqReserveRc)] else [])
    + (if v.hasEnq then [Deq(s.deqRc)] else [])
    + (if v.hasExit then [Release(ExitRoutine)] else [])
    + [Release(ControlBlock)]
  }

  // ---------- return codes ----------

  function AbendedAfterFlush(v: View, s: CloseServices): bool {
    v.abended || (Flushes(v, s) && s.writeAbend)
  }

  function FlushRc(v: View, s: CloseServices): int {
    if Flushes(v, s) && (AbendedAfterFlush(v, s) || s.writeRc != 0) then FAILURE else 0
  }

  function StatisticsRc(s: CloseServices): int {
    if s.bldlRc != 0 && s.bldlRc != BLDL_WARNING then s.bldlRc
    else if s.userRc != 0 then FAILURE
    else 0
  }

  function CloseRc(v: View, s: CloseServices): int {
    if AbendedAfterFlush(v, s) || s.closeAbend then FAILURE else s.closeRc
  }

  /** The code of every step of the close, in the order the steps are taken. */
  function StepCodes(v: View, s: CloseServices): seq<int> {
    [FlushRc(v, s)]
    + (if Finalizes(v, s) then FinalizeCodes(v, s) else [])
    + (if v.hasReserve then [s.deqReserveRc] else [])
    + (if v.hasEnq then [s.deqRc] else [])
  }

  function FinalizeCodes(v: View, s: CloseServices): seq<int> {
    [StatisticsRc(s)] + (if StatisticsRc(s) == 0 then [s.stowRc] else []) + [CloseRc(v, s)]
  }

  function FirstNonZero(codes: seq<int>): int {
    if codes == [] then 0 else if codes[0] != 0 then codes[0] else FirstNonZero(codes[1..])
  }

  lemma {:induction false} FirstNonZeroSnoc(codes: seq<int>, c: int)
    ensures FirstNonZero(codes + [c]) == if FirstNonZero(codes) != 0 then FirstNonZero(codes) else c
  {
    if codes != [] && codes[0] == 0 {
      FirstNonZeroSnoc(codes[1..], c);
      assert (codes + [c])[1..] == codes[1..] + [c];
    } else if codes == [] {
      assert (codes + [c])[1..] == [];
    }
  }

  lemma {:induction false} GiveBackUnaffected(v: View, w: View, s: CloseServices)
    requires v.(dcbOpen := w.dcbOpen, abended := w.abended) == w
    ensures GiveBackLog(v, s) == GiveBackLog(w, s)
  {
  }

  lemma {:induction false} FirstOfFinalize(v: View, s: CloseServices)
    ensures FirstNonZero(FinalizeCodes(v, s)) ==
            if s.bldlRc != 0 && s.bldlRc != 4 then s.bldlRc
            else if s.userRc != 0 then -1
            else if s.stowRc != 0 then s.stowRc
            else if AbendedAfterFlush(v, s) || s.closeAbend then -1
            else s.closeRc
  {
    var first := [StatisticsRc(s)];
    FirstNonZeroSnoc(first + [s.stowRc], CloseRc(v, s));
    FirstNonZeroSnoc(first, s.stowRc);
    FirstNonZeroSnoc(first, CloseRc(v, s));
  }

  /** The DCB is open behind the flush: there was nothing to flush, or the write left it open. */
  predicate OpenBehindFlush(v: View, s: CloseServices) { v.dcbOpen && (!s.somethingToFlush || s.openAfterWrite) }

  lemma {:induction false} FirstOfParts(v: View, s: CloseServices)
    ensures FirstNonZero(StepCodes(v, s)) ==
            var finalizeRc := if Finalizes(v, s) then FirstNonZero(FinalizeCodes(v, s)) else 0;
            if FlushRc(v, s) != 0 then FlushRc(v, s)
            else if finalizeRc != 0 then finalizeRc
            else if v.hasReserve && s.deqReserveRc != 0 then s.deqReserveRc
            else if v.hasEnq then s.deqRc else 0
  {
    var finalize := if Finalizes(v, s) then FinalizeCodes(v, s) else [];
    var codes := [FlushRc(v, s)] + finalize;
    assert codes[1..] == finalize;
    var more := if v.hasReserve then codes + [s.deqReserveRc] else codes;
    FirstNonZeroSnoc(codes, s.deqReserveRc);
    FirstNonZeroSnoc(more, s.deqRc);
    assert StepCodes(v, s) == if v.hasEnq then more + [s.deqRc] else more;
  }

  /**
    * The code of the close, from what the services answer: that of the first step that failed. A
    * BLDL that answers 4, as it does for a new member, has not failed.
    */
  lemma {:induction false} FirstOfSteps(v: View, s: CloseServices)
    ensures FirstNonZero(StepCodes(v, s)) ==
            if v.dcbOpen && s.somethingToFlush && (v.abended || s.writeAbend || s.writeRc != 0) then -1
            else if OpenBehindFlush(v, s) && s.bldlRc != 0 && s.bldlRc != 4 then s.bldlRc
            else if OpenBehindFlush(v, s) && s.userRc != 0 then -1
            else if OpenBehindFlush(v, s) && s.stowRc != 0 then s.stowRc
            else if OpenBehindFlush(v, s) && (v.abended || s.closeAbend) then -1
            else if OpenBehindFlush(v, s) && s.closeRc != 0 then s.closeRc
            else if v.hasReserve && s.deqReserveRc != 0 then s.deqReserveRc
            else if v.hasEnq then s.deqRc else 0
  {
    FirstOfFinalize(v, s);
    FirstOfParts(v, s);
  }

  /** When the close succeeds, and that no earlier failure hides behind a later success. */
  lemma {:induction false} CloseSucceedsExactly(v: View, s: CloseServices)
    ensures FirstNonZero(StepCodes(v, s)) == 0 <==>
            && (v.dcbOpen && s.somethingToFlush ==> !v.abended && !s.writeAbend && s.writeRc == 0)
            && (OpenBehindFlush(v, s) ==>
                  && (s.bldlRc == 0 || s.bldlRc == 4) && s.userRc == 0 && s.stowRc == 0
                  && !v.abended && !s.closeAbend && s.closeRc == 0)
            && (v.hasReserve ==> s.deqReserveRc == 0)
            && (v.hasEnq ==> s.deqRc == 0)
  {
    FirstOfSteps(v, s);
  }

  /** STOW is issued exactly when the DCB is open behind the flush, BLDL answers 0 or 4, and the user is known. */
  lemma {:induction false} StowExactly(v: View, s: CloseServices, rc: int)
    ensures Stow(rc) in CloseLog(v, s) <==>
            rc == s.stowRc && OpenBehindFlush(v, s) && (s.bldlRc == 0 || s.bldlRc == 4) && s.userRc == 0
    ensures Bldl(rc) in CloseLog(v, s) <==> rc == s.bldlRc && OpenBehindFlush(v, s)
  {
    FinalizeIssues(s, rc);
    GiveBackIssues(v, s, rc);
    assert CloseLog(v, s) == WriteOutLog(v, s) + GiveBackLog(v, s);
  }

  lemma {:induction false} FinalizeIssues(s: CloseServices, rc: int)
    ensures Stow(rc) in FinalizeLog(s) <==> rc == s.stowRc && (s.bldlRc == 0 || s.bldlRc == 4) && s.userRc == 0
    ensures Bldl(rc) in FinalizeLog(s) <==> rc == s.bldlRc
  {
  }

  lemma {:induction false} GiveBackIssues(v: View, s: CloseServices, rc: int)
    ensures Stow(rc) !in GiveBackLog(v, s) && Bldl(rc) !in GiveBackLog(v, s)
  {
  }

  /** When the open succeeds, and which services it then has issued. */
  lemma {:induction false} OpenSucceedsExactly(s: OpenServices)
    ensures OpenStage(s) == Done <==>
            && s.jfcbRc == 0 && s.isPds && s.namesMember && s.enqRc == 0 && s.ucbFound && s.reserveRc == 0
            && s.openRc == 0 && !s.openAbend && s.dcbOpen && s.dcbAccepted
    ensures OpenStage(s) == Done ==>
              && OpenLog(s) == [Obtain(ControlBlock), Obtain(ExitRoutine), Enq(0), Reserve(0), Open(true), Obtain(BlockBuffer)]
              && Opened(s) == View(true, true, true, false, true, true)
    ensures Obtain(BlockBuffer) in OpenLog(s) <==> OpenStage(s) == Done
  {
  }

  /** Each service of the open is issued exactly when all steps before it have succeeded. */
  lemma {:induction false} OpenIssuesExactly(s: OpenServices, rc: int, isOpen: bool)
    ensures var named := s.jfcbRc == 0 && s.isPds && s.namesMember;
            var locked := named && s.enqRc == 0 && s.ucbFound && s.reserveRc == 0;
            && (Enq(rc) in OpenLog(s) <==> named && rc == s.enqRc)
            && (Reserve(rc) in OpenLog(s) <==> named && s.enqRc == 0 && s.ucbFound && rc == s.reserveRc)
            && (Open(isOpen) in OpenLog(s) <==> locked && isOpen == s.dcbOpen)
            && (Opened(s).abended <==> locked && s.openAbend)
            && (Opened(s).dcbOpen <==> locked && s.dcbOpen)
  {
  }

  // ---------- the control block ----------

  class IoControl {
    var hasEnq: bool
    var hasReserve: bool
    var dcbOpen: bool
    var abended: bool
    var hasBuffer: bool
    var hasExit: bool
    var log: seq<Event>

    ghost function Now(): View
      reads this
    {
      View(hasEnq, hasReserve, dcbOpen, abended, hasBuffer, hasExit)
    }

    /** new_io_ctrl: zeroed storage. */
    constructor ()
      ensures Now() == View(false, false, false, false, false, false)
      ensures log == [Obtain(ControlBlock)]
    {
      hasEnq, hasReserve, dcbOpen, abended, hasBuffer, hasExit := false, false, false, false, false, false;
      log := [Obtain(ControlBlock)];
    }

    method OpenOutput(s: OpenServices) returns (rc: int)
      requires log == [Obtain(ControlBlock)] && Now() == View(false, false, false, false, false, false)
      modifies this
      ensures log == OpenLog(s)
      ensures Now() == Opened(s)
      ensures rc == if OpenStage(s) == Done then 0 else -1
    {
      hasExit := true;
      log := log + [Obtain(ExitRoutine)];
      if s.jfcbRc != 0 {
        return FAILURE;
      }
      if !s.isPds || !s.namesMember {
        return FAILURE;
      }
      log := log + [Enq(s.enqRc)];
      if s.enqRc != 0 {
        return FAILURE;
      }
      hasEnq := true;
      if !s.ucbFound {
        return FAILURE;
      }
      log := log + [Reserve(s.reserveRc)];
      if s.reserveRc != 0 {
        return FAILURE;
      }
      hasReserve := true;
      rc := OpenDataSet(s);
      if rc != 0 {
        return rc;
      }
      if !s.dcbAccepted {
        return FAILURE;
      }
      hasBuffer := true;
      log := log + [Obtain(BlockBuffer)];
    }

    method OpenDataSet(s: OpenServices) returns (rc: int)
      modifies this`dcbOpen, this`abended, this`log
      ensures dcbOpen == s.dcbOpen && abended == (old(abended) || s.openAbend)
      ensures log == old(log) + [Open(s.dcbOpen)]
      ensures rc == if s.openRc != 0 || abended || !s.dcbOpen then -1 else 0
    {
      dcbOpen := s.dcbOpen;
      abended := abended || s.openAbend;
      log := log + [Open(s.dcbOpen)];
      if s.openRc != 0 {
        return FAILURE;
      }
      if abended {
        return FAILURE;
      }
      if !dcbOpen {
        return FAILURE;
      }
      rc := 0;
    }

    /** A record write between open and close; an abend exit may find the DCB closed. */
    method WriteRecord(abend: bool, stillOpen: bool)
      modifies this`dcbOpen, this`abended, this`log
      ensures dcbOpen == (old(dcbOpen) && stillOpen) && abended == (old(abended) || abend)
      ensures log == old(log) + [Write(stillOpen)]
    {
      dcbOpen := dcbOpen && stillOpen;
      abended := abended || abend;
      log := log + [Write(stillOpen)];
    }

    method WriteFlush(s: CloseServices) returns (rc: int)
      modifies this`dcbOpen, this`abended, this`log
      ensures rc == FlushRc(old(Now()), s)
      ensures dcbOpen == Finalizes(old(Now()), s) && abended == AbendedAfterFlush(old(Now()), s)
      ensures log == old(log) + if Flushes(old(Now()), s) then [Write(s.openAfterWrite)] else []
    {
      rc := 0;
      if dcbOpen && s.somethingToFlush {
        WriteRecord(s.writeAbend, s.openAfterWrite);
        if abended {
          return FAILURE;
        }
        if s.writeRc != 0 {
          return FAILURE;
        }
      }
    }

    method FinalizeDcb(s: CloseServices, ghost before: View) returns (firstRc: int)
      requires dcbOpen
      requires abended == AbendedAfterFlush(before, s)
      modifies this`dcbOpen, this`abended, this`log
      ensures firstRc == FirstNonZero(FinalizeCodes(before, s))
      ensures dcbOpen == s.openAfterClose
      ensures log == old(log) + FinalizeLog(s)
    {
      firstRc := 0;
      var rc := UpdateStatistics(s);
      assert log == old(log) + [Bldl(s.bldlRc)];
      ghost var codes := [rc];
      if rc != 0 {
        firstRc := rc;
      }
      if rc == 0 {
        rc := s.stowRc;
        log := log + [Stow(rc)];
        FirstNonZeroSnoc(codes, rc);
        codes := codes + [rc];
        if rc != 0 && firstRc == 0 {
          firstRc := rc;
        }
      }
      dcbOpen := s.openAfterClose;
      abended := abended || s.closeAbend;
      log := log + [Close(s.openAfterClose)];
      rc := if abended then FAILURE else s.closeRc;
      FirstNonZeroSnoc(codes, rc);
      if rc != 0 && firstRc == 0 {
        firstRc := rc;
      }
    }

    method UpdateStatistics(s: CloseServices) returns (rc: int)
      modifies this`log
      ensures rc == StatisticsRc(s)
      ensures log == old(log) + [Bldl(s.bldlRc)]
    {
      rc := s.bldlRc;
      log := log + [Bldl(rc)];
      if rc != 0 && rc != BLDL_WARNING {
        return;
      }
      if s.userRc != 0 {
        return FAILURE;
      }
      rc := 0;
    }

    method DeqReserveDataSet(s: CloseServices) returns (rc: int)
      modifies this`log
      ensures rc == if hasReserve then s.deqReserveRc else 0
      ensures log == old(log) + if hasReserve then [DeqReserve(s.deqReserveRc)] else []
    {
      rc := 0;
      if hasReserve {
        rc := s.deqReserveRc;
        log := log + [DeqReserve(rc)];
      }
    }

    method DeqDataSet(s: CloseServices) returns (rc: int)
      modifies this`log
      ensures rc == if hasEnq then s.deqRc else 0
      ensures log == old(log) + if hasEnq then [Deq(s.deqRc)] else []
    {
      rc := 0;
      if hasEnq {
        rc := s.deqRc;
        log := log + [Deq(rc)];
      }
    }

    /** The last part of close_output_bpam: everything held is given back. */
    method GiveBack(s: CloseServices, rcSoFar: int) returns (firstRc: int)
      modifies this
      ensures log == old(log) + GiveBackLog(old(Now()), s)
      ensures firstRc == if rcSoFar != 0 then rcSoFar
                         else if old(hasReserve) && s.deqReserveRc != 0 then s.deqReserveRc
                         else if old(hasEnq) then s.deqRc else 0
      ensures !hasBuffer && !hasExit
    {
      firstRc := rcSoFar;
      if hasBuffer {
        log := log + [Release(BlockBuffer)];
        hasBuffer := false;
      }
      var rc := DeqReserveDataSet(s);
      if rc != 0 && firstRc == 0 {
        firstRc := rc;
      }
      rc := DeqDataSet(s);
      if rc != 0 && firstRc == 0 {
        firstRc := rc;
      }
      if hasExit {
        log := log + [Release(ExitRoutine)];
        hasExit := false;
      }
      log := log + [Release(ControlBlock)];
    }

    method CloseOutput(s: CloseServices) returns (firstRc: int)
      modifies this
      ensures log == old(log) + CloseLog(old(Now()), s)
      ensures firstRc == FirstNonZero(StepCodes(old(Now()), s))
      ensures !hasBuffer && !hasExit
    {
      ghost var before := Now();
      FirstOfParts(before, s);
      firstRc := WriteFlush(s);
      if dcbOpen {
        var rc := FinalizeDcb(s, before);
        if rc != 0 && firstRc == 0 {
          firstRc := rc;
        }
      }
      assert log == old(log) + WriteOutLog(before, s);
      GiveBackUnaffected(before, Now(), s);
      firstRc := GiveBack(s, firstRc);
      AppendAssoc(old(log), WriteOutLog(before, s), GiveBackLog(before, s));
    }
  }

  /** ZDSOBPAM: a failed open is closed on the spot and leaves the caller no handle. */
  method OpenForCaller(s: OpenServices, c: CloseServices) returns (rc: int, handle: IoControl?, log: seq<Event>)
    ensures rc == if OpenStage(s) == Done then 0 else -1
    ensures handle == null <==> rc != 0
    ensures handle != null ==> fresh(handle) && handle.log == log == OpenLog(s) && handle.Now() == Opened(s)
    ensures handle == null ==> log == OpenLog(s) + CloseLog(Opened(s), c)
  {
    var ioc := new IoControl();
    rc := ioc.OpenOutput(s);
    handle := ioc;
    if rc != 0 {
      var _ := ioc.CloseOutput(c);
      handle := null;
    }
    log := ioc.log;
  }
}
