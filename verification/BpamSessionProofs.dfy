/**
  * What every session - open, any number of record writes, close - leaves behind, whatever
  * the services answer: an auditor replays the log of services against its own ledger.
  */
module BpamSessionProofs {
  import opened Common
  import opened BpamSession

  datatype RecordWrite = RecordWrite(abend: bool, stillOpen: bool)

  function WritesLog(writes: seq<RecordWrite>): seq<Event> {
    if writes == [] then [] else WritesLog(writes[..|writes| - 1]) + [Write(writes[|writes| - 1].stillOpen)]
  }

  function AfterWrites(v: View, writes: seq<RecordWrite>): View {
    if writes == [] then v
    else
      var before, w := AfterWrites(v, writes[..|writes| - 1]), writes[|writes| - 1];
      before.(dcbOpen := before.dcbOpen && w.stillOpen, abended := before.abended || w.abend)
  }

  /** Everything issued by open, writes and close; a failed open goes straight to close. */
  function SessionLog(o: OpenServices, writes: seq<RecordWrite>, c: CloseServices): seq<Event> {
    if OpenStage(o) == Done then
      OpenLog(o) + WritesLog(writes) + CloseLog(AfterWrites(Opened(o), writes), c)
    else
      OpenLog(o) + CloseLog(Opened(o), c)
  }

  // ---------- the auditor ----------

  /** `Stuck`: the release was issued once and failed, so the resource is still held. */
  datatype Lock = Free | Held | Freed | Stuck {
    predicate IsHeld() { Held? || Stuck? }
  }

  datatype Storage = Storage(control: bool, exit: bool, buffer: bool) {
    predicate Has(area: Area) {
      match area
      case ControlBlock => control
      case ExitRoutine => exit
      case BlockBuffer => buffer
    }

    function Set(area: Area, now: bool): Storage {
      match area
      case ControlBlock => this.(control := now)
      case ExitRoutine => this.(exit := now)
      case BlockBuffer => this.(buffer := now)
    }
  }

  const NOTHING := Storage(false, false, false)

  /** `nested` stays true while "DCB open implies RESERVE held implies ENQ held" does. */
  datatype Ledger = Ledger(held: Storage, enq: Lock, reserve: Lock, dcbOpen: bool, nested: bool) {
    predicate InOrder() {
      (dcbOpen ==> reserve.IsHeld()) && (reserve.IsHeld() ==> enq.IsHeld())
    }
  }

  const EMPTY_LEDGER := Ledger(NOTHING, Free, Free, false, true)

  /** Books one service; `None` when it may not be issued at this point. */
  function Book(l: Ledger, e: Event): Option<Ledger> {
    var booked := match e
      case Obtain(area) => if l.held.Has(area) then None else Some(l.(held := l.held.Set(area, true)))
      case Release(area) => if l.held.Has(area) then Some(l.(held := l.held.Set(area, false))) else None
      case Enq(rc) => if l.enq != Free then None else Some(l.(enq := if rc == 0 then Held else Free))
      case Deq(rc) => if l.enq != Held then None else Some(l.(enq := if rc == 0 then Freed else Stuck))
      case Reserve(rc) => if l.reserve != Free then None else Some(l.(reserve := if rc == 0 then Held else Free))
      case DeqReserve(rc) =>
        if l.reserve != Held then None else Some(l.(reserve := if rc == 0 then Freed else Stuck))
      case Open(isOpen) => if l.dcbOpen then None else Some(l.(dcbOpen := isOpen))
      case Write(stillOpen) => Some(l.(dcbOpen := l.dcbOpen && stillOpen))
      case Bldl(_) => if l.dcbOpen then Some(l) else None
      case Stow(_) => if l.dcbOpen then Some(l) else None
      case Close(stillOpen) => if !l.dcbOpen then None else Some(l.(dcbOpen := stillOpen));
    if booked.None? then None else Some(booked.value.(nested := l.nested && booked.value.InOrder()))
  }

  function Audit(log: seq<Event>): Option<Ledger> {
    if log == [] then Some(EMPTY_LEDGER)
    else
      var before := Audit(log[..|log| - 1]);
      if before.None? then None else Book(before.value, log[|log| - 1])
  }

  lemma {:induction false} AuditSnoc(log: seq<Event>, e: Event)
    ensures Audit(log + [e]) == if Audit(log).None? then None else Book(Audit(log).value, e)
  {
    assert (log + [e])[..|log|] == log;
  }

  /** What follows `log`: one event or none. */
  lemma {:induction false} AuditMaybe(log: seq<Event>, more: seq<Event>)
    requires |more| <= 1
    ensures Audit(log + more) ==
            if more == [] then Audit(log)
            else if Audit(log).None? then None else Book(Audit(log).value, more[0])
  {
    if more == [] {
      assert log + more == log;
    } else {
      assert more == [more[0]];
      AuditSnoc(log, more[0]);
    }
  }

  // ---------- open ----------

  ghost predicate Matches(l: Ledger, v: View) {
    && l.held == Storage(true, v.hasExit, v.hasBuffer)
    && l.enq == (if v.hasEnq then Held else Free)
    && l.reserve == (if v.hasReserve then Held else Free)
    && l.dcbOpen == v.dcbOpen
  }

  function StorageLog(): seq<Event> { [Obtain(ControlBlock), Obtain(ExitRoutine)] }

  function EnqLog(o: OpenServices): seq<Event> {
    if OpenStage(o) in {AtJfcb, AtAttributes} then [] else [Enq(o.enqRc)]
  }

  function ReserveLog(o: OpenServices): seq<Event> {
    if OpenStage(o) in {AtJfcb, AtAttributes, AtEnq, AtUcb} then [] else [Reserve(o.reserveRc)]
  }

  lemma {:induction false} AfterStorage()
    ensures Audit(StorageLog()) == Some(EMPTY_LEDGER.(held := Storage(true, true, false)))
  {
    AuditSnoc([], Obtain(ControlBlock));
    assert [] + [Obtain(ControlBlock)] == [Obtain(ControlBlock)];
    AuditSnoc([Obtain(ControlBlock)], Obtain(ExitRoutine));
    assert [Obtain(ControlBlock)] + [Obtain(ExitRoutine)] == StorageLog();
  }

  lemma {:induction false} AfterLocks(o: OpenServices)
    ensures Audit(StorageLog() + EnqLog(o) + ReserveLog(o)) ==
            Some(Ledger(Storage(true, true, false), if Opened(o).hasEnq then Held else Free,
                        if Opened(o).hasReserve then Held else Free, false, true))
  {
    AfterStorage();
    AuditMaybe(StorageLog(), EnqLog(o));
    AuditMaybe(StorageLog() + EnqLog(o), ReserveLog(o));
  }

  lemma {:induction false} AfterOpen(o: OpenServices)
    ensures Audit(OpenLog(o)).Some?
    ensures Matches(Audit(OpenLog(o)).value, Opened(o)) && Audit(OpenLog(o)).value.nested
  {
    AfterLocks(o);
    var locks := StorageLog() + EnqLog(o) + ReserveLog(o);
    var open := if OpenStage(o) in {AtOpen, AtDcb, Done} then [Open(o.dcbOpen)] else [];
    AuditMaybe(locks, open);
    var buffer := if OpenStage(o) == Done then [Obtain(BlockBuffer)] else [];
    AuditMaybe(locks + open, buffer);
    assert OpenLog(o) == locks + open + buffer;
  }

  // ---------- writes ----------

  lemma {:induction false} AfterRecordWrites(log: seq<Event>, v: View, writes: seq<RecordWrite>)
    requires Audit(log).Some? && Matches(Audit(log).value, v) && Audit(log).value.nested
    requires v.hasEnq && v.hasReserve
    ensures Audit(log + WritesLog(writes)).Some?
    ensures Matches(Audit(log + WritesLog(writes)).value, AfterWrites(v, writes))
    ensures Audit(log + WritesLog(writes)).value.nested
    ensures AfterWrites(v, writes) ==
            v.(dcbOpen := AfterWrites(v, writes).dcbOpen, abended := AfterWrites(v, writes).abended)
  {
    if writes == [] {
      assert log + [] == log;
    } else {
      var init, w := writes[..|writes| - 1], writes[|writes| - 1];
      AfterRecordWrites(log, v, init);
      AuditSnoc(log + WritesLog(init), Write(w.stillOpen));
      assert log + WritesLog(writes) == log + WritesLog(init) + [Write(w.stillOpen)];
    }
  }

  // ---------- close ----------

  function LockAfter(held: bool, rc: int): Lock {
    if !held then Free else if rc == 0 then Freed else Stuck
  }

  lemma {:induction false} AfterClose(log: seq<Event>, v: View, c: CloseServices)
    requires Audit(log).Some? && Matches(Audit(log).value, v) && Audit(log).value.nested
    requires v.hasReserve ==> v.hasEnq
    requires v.dcbOpen ==> v.hasReserve
    ensures Audit(log + CloseLog(v, c)) ==
            Some(Ledger(NOTHING, LockAfter(v.hasEnq, c.deqRc), LockAfter(v.hasReserve, c.deqReserveRc),
                        Finalizes(v, c) && c.openAfterClose,
                        v.hasReserve ==>
                          if c.deqReserveRc == 0 then !(Finalizes(v, c) && c.openAfterClose) else c.deqRc != 0))
  {
    var write := if Flushes(v, c) then [Write(c.openAfterWrite)] else [];
    AuditMaybe(log, write);
    var close := if Finalizes(v, c) then FinalizeLog(c) else [];
    if Finalizes(v, c) {
      AfterFinalize(log + write, c);
    } else {
      assert log + write + [] == log + write;
    }
    var l2 := log + write + close;
    assert Audit(l2) == Some(Audit(log).value.(dcbOpen := Finalizes(v, c) && c.openAfterClose));
    AfterGiveBack(l2, v, c);
    AppendAssoc(log, write, close);
    AppendAssoc(log, write + close, GiveBackLog(v, c));
  }

  /** BLDL, STOW and CLOSE go to an open DCB. */
  lemma {:induction false} AfterFinalize(log: seq<Event>, c: CloseServices)
    requires Audit(log).Some? && Audit(log).value.dcbOpen && Audit(log).value.nested && Audit(log).value.InOrder()
    ensures Audit(log + FinalizeLog(c)) == Some(Audit(log).value.(dcbOpen := c.openAfterClose))
  {
    var stow := if StatisticsRc(c) == 0 then [Stow(c.stowRc)] else [];
    AuditSnoc(log, Bldl(c.bldlRc));
    AuditMaybe(log + [Bldl(c.bldlRc)], stow);
    AuditSnoc(log + [Bldl(c.bldlRc)] + stow, Close(c.openAfterClose));
    assert log + FinalizeLog(c) == log + [Bldl(c.bldlRc)] + stow + [Close(c.openAfterClose)];
  }

  lemma {:induction false} AfterGiveBack(l2: seq<Event>, v: View, c: CloseServices)
    requires Audit(l2).Some? && Audit(l2).value.nested
    requires Matches(Audit(l2).value, v.(dcbOpen := Audit(l2).value.dcbOpen))
    requires v.hasReserve ==> v.hasEnq
    requires Audit(l2).value.dcbOpen ==> v.hasReserve
    ensures Audit(l2 + GiveBackLog(v, c)) ==
            Some(Ledger(NOTHING, LockAfter(v.hasEnq, c.deqRc), LockAfter(v.hasReserve, c.deqReserveRc),
                        Audit(l2).value.dcbOpen,
                        v.hasReserve ==>
                          if c.deqReserveRc == 0 then !Audit(l2).value.dcbOpen else c.deqRc != 0))
  {
    var buffer := if v.hasBuffer then [Release(BlockBuffer)] else [];
    var reserve := if v.hasReserve then [DeqReserve(c.deqReserveRc)] else [];
    var enq := if v.hasEnq then [Deq(c.deqRc)] else [];
    var exit := if v.hasExit then [Release(ExitRoutine)] else [];
    AfterBufferAndReserve(l2, v, c, buffer, reserve);
    AfterDeq(l2 + buffer + reserve, Audit(l2).value.dcbOpen, v, c, enq);
    ReleaseLast(l2 + buffer + reserve + enq, v, c);
    InSequence(l2, buffer, reserve, enq, exit, [Release(ControlBlock)]);
  }

  lemma {:induction false} InSequence(l: seq<Event>, a: seq<Event>, b: seq<Event>, c: seq<Event>, d: seq<Event>, e: seq<Event>)
    ensures l + (a + b + c + d + e) == l + a + b + c + d + e
  {
  }

  lemma {:induction false} AfterBufferAndReserve(l2: seq<Event>, v: View, c: CloseServices, buffer: seq<Event>, reserve: seq<Event>)
    requires Audit(l2).Some? && Audit(l2).value.nested
    requires Matches(Audit(l2).value, v.(dcbOpen := Audit(l2).value.dcbOpen))
    requires v.hasReserve ==> v.hasEnq
    requires Audit(l2).value.dcbOpen ==> v.hasReserve
    requires buffer == (if v.hasBuffer then [Release(BlockBuffer)] else [])
    requires reserve == if v.hasReserve then [DeqReserve(c.deqReserveRc)] else []
    ensures var a := Audit(l2).value;
            Audit(l2 + buffer + reserve) ==
            Some(a.(held := Storage(true, v.hasExit, false), reserve := LockAfter(v.hasReserve, c.deqReserveRc),
                    nested := v.hasReserve && c.deqReserveRc == 0 ==> !a.dcbOpen))
  {
    AuditMaybe(l2, buffer);
    AuditMaybe(l2 + buffer, reserve);
  }

  lemma {:induction false} AfterDeq(l4: seq<Event>, dcbOpen: bool, v: View, c: CloseServices, enq: seq<Event>)
    requires v.hasReserve ==> v.hasEnq
    requires Audit(l4) == Some(Ledger(Storage(true, v.hasExit, false), if v.hasEnq then Held else Free,
                                      LockAfter(v.hasReserve, c.deqReserveRc), dcbOpen,
                                      v.hasReserve && c.deqReserveRc == 0 ==> !dcbOpen))
    requires dcbOpen ==> v.hasReserve
    requires enq == if v.hasEnq then [Deq(c.deqRc)] else []
    ensures Audit(l4 + enq) ==
            Some(Ledger(Storage(true, v.hasExit, false), LockAfter(v.hasEnq, c.deqRc),
                        LockAfter(v.hasReserve, c.deqReserveRc), dcbOpen,
                        v.hasReserve ==> if c.deqReserveRc == 0 then !dcbOpen else c.deqRc != 0))
  {
    AuditMaybe(l4, enq);
  }

  lemma {:induction false} ReleaseLast(l5: seq<Event>, v: View, c: CloseServices)
    requires Audit(l5).Some? && Audit(l5).value.held == Storage(true, v.hasExit, false)
    requires Audit(l5).value.nested ==> Audit(l5).value.InOrder()
    ensures Audit(l5 + (if v.hasExit then [Release(ExitRoutine)] else []) + [Release(ControlBlock)]) ==
            Some(Audit(l5).value.(held := NOTHING))
  {
    var exit := if v.hasExit then [Release(ExitRoutine)] else [];
    AuditMaybe(l5, exit);
    AuditSnoc(l5 + exit, Release(ControlBlock));
  }

  // ---------- the session ----------

  /**
    * Every session is accepted by the auditor and leaves no storage behind; ENQ and RESERVE
    * are released once exactly when they had been granted.
    */
  lemma {:induction false} SessionBalances(o: OpenServices, writes: seq<RecordWrite>, c: CloseServices)
    ensures Audit(SessionLog(o, writes, c)).Some?
    ensures var end := Audit(SessionLog(o, writes, c)).value;
            && end.held == NOTHING
            && end.enq == LockAfter(Enq(0) in OpenLog(o), c.deqRc)
            && end.reserve == LockAfter(Reserve(0) in OpenLog(o), c.deqReserveRc)
  {
    SessionLedger(o, writes, c);
  }

  /**
    * The nesting of DCB, RESERVE and ENQ survives the whole session exactly when, once RESERVE
    * had been granted, the DCB is really closed before RESERVE is given up and ENQ is not given
    * up after a failed DEQ RESERVE.
    */
  lemma {:induction false} SessionNestsExactly(o: OpenServices, writes: seq<RecordWrite>, c: CloseServices)
    ensures Audit(SessionLog(o, writes, c)).Some?
    ensures var v := if OpenStage(o) == Done then AfterWrites(Opened(o), writes) else Opened(o);
            Audit(SessionLog(o, writes, c)).value.nested <==>
            (Reserve(0) in OpenLog(o) ==>
               if c.deqReserveRc == 0 then !(Finalizes(v, c) && c.openAfterClose) else c.deqRc != 0)
  {
    SessionLedger(o, writes, c);
  }

  lemma {:induction false} SessionLedger(o: OpenServices, writes: seq<RecordWrite>, c: CloseServices)
    ensures var v := if OpenStage(o) == Done then AfterWrites(Opened(o), writes) else Opened(o);
            Audit(SessionLog(o, writes, c)) ==
            Some(Ledger(NOTHING, LockAfter(v.hasEnq, c.deqRc), LockAfter(v.hasReserve, c.deqReserveRc),
                        Finalizes(v, c) && c.openAfterClose,
                        v.hasReserve ==>
                          if c.deqReserveRc == 0 then !(Finalizes(v, c) && c.openAfterClose) else c.deqRc != 0))
            && (v.hasEnq <==> Enq(0) in OpenLog(o)) && (v.hasReserve <==> Reserve(0) in OpenLog(o))
  {
    AfterOpen(o);
    GrantedInLog(o);
    if OpenStage(o) == Done {
      AfterRecordWrites(OpenLog(o), Opened(o), writes);
      AfterClose(OpenLog(o) + WritesLog(writes), AfterWrites(Opened(o), writes), c);
    } else {
      AfterClose(OpenLog(o), Opened(o), c);
    }
  }

  lemma {:induction false} GrantedInLog(o: OpenServices)
    ensures Opened(o).hasEnq <==> Enq(0) in OpenLog(o)
    ensures Opened(o).hasReserve <==> Reserve(0) in OpenLog(o)
  {
  }

  // ---------- sessions that do not nest ----------

  /** Everything is granted, nothing is to be flushed, and all services answer zero. */
  const GRANTED := OpenServices(0, true, true, 0, true, 0, 0, false, true, true)
  const CLOSED := CloseServices(false, 0, false, true, 0, 0, 0, 0, false, false, 0, 0)

  /** A new member: BLDL answers 4, the statistics are written all the same, and the close succeeds. */
  lemma {:induction false} NewMemberIsStowed(writes: seq<RecordWrite>)
    requires forall w :: w in writes ==> !w.abend && w.stillOpen
    ensures var c, v := CLOSED.(bldlRc := 4), AfterWrites(Opened(GRANTED), writes);
            FirstNonZero(StepCodes(v, c)) == 0 && Stow(0) in CloseLog(v, c)
  {
    var c, v := CLOSED.(bldlRc := 4), AfterWrites(Opened(GRANTED), writes);
    GoodWrites(Opened(GRANTED), writes);
    FirstOfSteps(v, c);
    StowExactly(v, c, 0);
  }

  lemma {:induction false} GoodWrites(v: View, writes: seq<RecordWrite>)
    requires forall w :: w in writes ==> !w.abend && w.stillOpen
    ensures AfterWrites(v, writes) == v
  {
    if writes != [] {
      GoodWrites(v, writes[..|writes| - 1]);
    }
  }

  /** A session in which every service succeeds nests. */
  lemma {:induction false} SuccessNests()
    ensures Audit(SessionLog(GRANTED, [], CLOSED)).Some? && Audit(SessionLog(GRANTED, [], CLOSED)).value.nested
  {
    SessionNestsExactly(GRANTED, [], CLOSED);
  }

  /** ENQ is given up although RESERVE could not be. */
  lemma {:induction false} EnqGivenUpFirst()
    ensures var c := CLOSED.(deqReserveRc := 8);
            Audit(SessionLog(GRANTED, [], c)).Some? && !Audit(SessionLog(GRANTED, [], c)).value.nested
  {
    SessionNestsExactly(GRANTED, [], CLOSED.(deqReserveRc := 8));
    assert Reserve(0) == OpenLog(GRANTED)[3];
  }

  /** RESERVE is given up although CLOSE left the DCB open. */
  lemma {:induction false} ReserveGivenUpOpen()
    ensures var c := CLOSED.(openAfterClose := true);
            Audit(SessionLog(GRANTED, [], c)).Some? && !Audit(SessionLog(GRANTED, [], c)).value.nested
  {
    SessionNestsExactly(GRANTED, [], CLOSED.(openAfterClose := true));
    assert Reserve(0) == OpenLog(GRANTED)[3];
  }
}
