/** The cancel protocol (src/usb_gadget.c, the ends of the transfers in mtp_op_sendobject.c and
    mtp_ops_helpers.c): the control thread answers Cancel and Get Device Status requests while the
    I/O thread moves data. Every shared read and write is a step of its own; the two threads share
    cancel_req, transferring_file_data and the cancel mutex. */
module CancelProtocol {
  datatype Kind = Upload | Download

  /** Where the I/O thread stands. */
  datatype Io =
    | Idle
    | Active(kind: Kind)   // inside the loop, about to test cancel_req
    | Stop(kind: Kind)     // about to lower transferring_file_data
    | Check(kind: Kind)    // about to read cancel_req (a download takes the mutex first)
    | Clear(kind: Kind)    // about to write cancel_req = 0

  /** Where the control thread stands. */
  datatype Ep0 =
    | Free
    | CancelLock | CancelRead | CancelWrite(seen: bool)
    | StatusRead | StatusTransfer | StatusClear | ReplyOk
    | BusyLock | BusyRead | BusyWrite | ReplyBusy

  datatype Owner = Nobody | ByEp0 | ByIo

  /** awaiting: the host sent a Cancel and has had no OK since.
      pending: transactions started by the host whose transfer has not begun. */
  datatype State = State(cancelReq: int, transferring: bool, mutex: Owner, io: Io, ep0: Ep0,
                         awaiting: bool, pending: nat)

  const START := State(0, false, Nobody, Idle, Free, false, 0)

  datatype Action =
    | HostStart
    | HostCancel
    | HostStatus
    | Ep0Step
    | IoBegin(kind: Kind)
    | IoStep(more: bool)   // more: the loop would go on if nothing is cancelled
    | IoReadFail           // a failed disk read leaves a download without its epilogue

  predicate Enabled(s: State, a: Action) {
    match a
    case HostStart => true
    case HostCancel => s.ep0 == Free
    case HostStatus => s.ep0 == Free
    case Ep0Step => s.ep0 != Free && ((s.ep0 == CancelLock || s.ep0 == BusyLock) ==> s.mutex == Nobody)
    case IoBegin(_) => s.io == Idle && s.pending > 0
    case IoStep(_) => s.io != Idle && (s.io == Check(Download) ==> s.mutex == Nobody)
    case IoReadFail => s.io == Active(Download)
  }

  function Ep0Next(s: State): State
    requires s.ep0 != Free
  {
    match s.ep0
    case CancelLock => s.(ep0 := CancelRead, mutex := ByEp0)
    case CancelRead => s.(ep0 := CancelWrite(s.transferring))
    case CancelWrite(seen) => s.(ep0 := Free, mutex := Nobody, cancelReq := if seen then 2 else 0)
    case StatusRead => s.(ep0 := if s.cancelReq != 2 then StatusTransfer else BusyLock)
    case StatusTransfer => s.(ep0 := if s.transferring then ReplyOk else StatusClear)
    case StatusClear => s.(ep0 := ReplyOk, cancelReq := 0)
    case ReplyOk => s.(ep0 := Free, awaiting := false)
    case BusyLock => s.(ep0 := BusyRead, mutex := ByEp0)
    case BusyRead =>
      if s.cancelReq == 2 then s.(ep0 := BusyWrite) else s.(ep0 := ReplyBusy, mutex := Nobody)
    case BusyWrite => s.(ep0 := ReplyBusy, mutex := Nobody, cancelReq := 1)
    case ReplyBusy => s.(ep0 := Free)
  }

  function IoNext(s: State, more: bool): State
    requires s.io != Idle
  {
    match s.io
    case Active(k) => if more && s.cancelReq == 0 then s else s.(io := Stop(k))
    case Stop(k) => s.(io := Check(k), transferring := false)
    case Check(k) =>
      var m := if k == Download && s.cancelReq != 0 then ByIo else s.mutex;
      s.(io := if s.cancelReq != 0 then Clear(k) else Idle, mutex := m)
    case Clear(k) => s.(io := Idle, cancelReq := 0, mutex := if k == Download then Nobody else s.mutex)
  }

  function Next(s: State, a: Action): State
    requires Enabled(s, a)
  {
    match a
    case HostStart => s.(pending := s.pending + 1)
    case HostCancel => s.(ep0 := CancelLock, awaiting := true)
    case HostStatus => s.(ep0 := StatusRead)
    case Ep0Step => Ep0Next(s)
    case IoBegin(k) => s.(io := Active(k), transferring := true, pending := s.pending - 1)
    case IoStep(more) => IoNext(s, more)
    case IoReadFail => s.(io := Idle)
  }

  /** The host waits for an OK after a Cancel before it starts another transaction. */
  predicate PollsUntilOk(s: State, a: Action) {
    a == HostStart ==> !s.awaiting
  }

  predicate Uploading(s: State) {
    s.io == Active(Upload) || s.io == Stop(Upload)
  }

  /** A started transaction is still waiting for its transfer, or an upload is still moving data. */
  predicate TooEarly(s: State) {
    s.pending > 0 || Uploading(s)
  }

  /** A download has ended without lowering transferring_file_data. */
  predicate Stuck(s: State) {
    s.io == Idle && s.transferring
  }

  /** The flag is up, or the control thread is about to raise it if a transfer seems to run. */
  predicate Raising(s: State) {
    s.cancelReq != 0 || s.ep0 in {CancelLock, CancelRead, CancelWrite(true), BusyWrite}
  }

  /** The host starts nothing too early and sends no Cancel after a failed download until its next
      transfer runs; a disk read does not fail while the flag is up or being raised. */
  predicate Careful(s: State, a: Action) {
    match a
    case HostStart => !TooEarly(s)
    case HostCancel => !Stuck(s)
    case IoReadFail => !Raising(s)
    case _ => true
  }

  /** A schedule: the actions of both threads and of the host, one after the other. */
  datatype Run = End | Then(action: Action, rest: Run)

  /** Every action of the run is enabled where it happens. */
  predicate Possible(s: State, run: Run)
    decreases run
  {
    match run
    case End => true
    case Then(a, rest) => Enabled(s, a) && Possible(Next(s, a), rest)
  }

  function After(s: State, run: Run): State
    requires Possible(s, run)
    decreases run
  {
    match run
    case End => s
    case Then(a, rest) => After(Next(s, a), rest)
  }

  /** The host polls after every Cancel, and every action of the run is careful. */
  predicate Disciplined(s: State, run: Run)
    requires Possible(s, run)
    decreases run
  {
    match run
    case End => true
    case Then(a, rest) => PollsUntilOk(s, a) && Careful(s, a) && Disciplined(Next(s, a), rest)
  }

  /** Every transfer of the run begins with the flag down. */
  predicate BeginsClean(s: State, run: Run)
    requires Possible(s, run)
    decreases run
  {
    match run
    case End => true
    case Then(a, rest) => (a.IoBegin? ==> s.cancelReq == 0) && BeginsClean(Next(s, a), rest)
  }

  predicate InStatus(e: Ep0) {
    e == StatusTransfer || e == StatusClear || e == ReplyOk
  }

  predicate InBusy(e: Ep0) {
    e == BusyLock || e == BusyRead || e == BusyWrite || e == ReplyBusy
  }

  ghost predicate Inv(s: State) {
    && 0 <= s.cancelReq <= 2
    && (s.io.Active? || s.io.Stop? ==> s.transferring)
    && (s.transferring ==> s.io.Active? || s.io.Stop? || s.io == Idle)
    && (Stuck(s) ==> !Raising(s))
    // the mutex is held exactly inside the critical sections
    && (s.mutex == ByEp0 <==> s.ep0 == CancelRead || s.ep0.CancelWrite? || s.ep0 == BusyRead || s.ep0 == BusyWrite)
    && (s.mutex == ByIo <==> s.io == Clear(Download))
    // what the control thread remembers
    && (InBusy(s.ep0) || s.ep0 == CancelLock || s.ep0 == CancelRead || s.ep0.CancelWrite? ==> s.awaiting)
    && (InStatus(s.ep0) ==> s.cancelReq != 2)
    && (!s.awaiting ==> s.cancelReq != 2)
    // an OK that did not clear the flag was given to a transfer that will
    && ((!s.awaiting || s.ep0 == ReplyOk) && s.cancelReq != 0 ==> s.io != Idle)
    && ((s.ep0 == StatusClear || s.ep0 == CancelWrite(false)) && s.transferring ==> s.cancelReq == 0)
    // between the host's start and the transfer nothing is left that could raise the flag
    && (s.pending > 0 ==> s.pending == 1 && !Uploading(s))
    && (s.pending > 0 && s.io == Idle ==> s.cancelReq == 0 && s.ep0 != CancelWrite(true) && s.ep0 != BusyWrite)
    && (s.pending > 0 && s.io in {Check(Upload), Clear(Upload)} ==>
          s.cancelReq != 2 && s.ep0 != CancelWrite(true) && !InBusy(s.ep0))
  }

  lemma Ep0Keeps(s: State)
    requires Inv(s) && Enabled(s, Ep0Step)
    ensures Inv(Ep0Next(s))
  {
  }

  lemma IoKeeps(s: State, more: bool)
    requires Inv(s) && Enabled(s, IoStep(more))
    ensures Inv(IoNext(s, more))
  {
  }

  /** One step of either thread or of the host keeps the invariant. */
  lemma StepKeeps(s: State, a: Action)
    requires Inv(s) && Enabled(s, a) && PollsUntilOk(s, a) && Careful(s, a)
    ensures Inv(Next(s, a))
    ensures a.IoBegin? ==> s.cancelReq == 0
  {
    if a == Ep0Step {
      Ep0Keeps(s);
    } else if a.IoStep? {
      IoKeeps(s, a.more);
    }
  }

  /** Over every interleaving, with disk reads that may fail, if the host polls until OK after a Cancel
      and every action is careful, every transfer begins with cancel_req = 0. */
  lemma {:induction false} TransfersBeginClean(s: State, run: Run)
    requires Inv(s) && Possible(s, run) && Disciplined(s, run)
    ensures BeginsClean(s, run) && Inv(After(s, run))
    decreases run
  {
    if run.Then? {
      StepKeeps(s, run.action);
      TransfersBeginClean(Next(s, run.action), run.rest);
    }
  }

  /** A run that is possible, with a polling host and disk reads that succeed, and in which some
      transfer begins with the flag up. */
  predicate Unclean(s: State, run: Run)
    decreases run
  {
    match run
    case End => false
    case Then(a, rest) =>
      && Enabled(s, a) && PollsUntilOk(s, a) && a != IoReadFail
      && (if a.IoBegin? && s.cancelReq != 0 then rest == End else Unclean(Next(s, a), rest))
  }

  lemma {:induction false} UncleanMeans(s: State, run: Run)
    requires Unclean(s, run)
    ensures Possible(s, run) && !BeginsClean(s, run)
    decreases run
  {
    if !(run.action.IoBegin? && s.cancelReq != 0) {
      UncleanMeans(Next(s, run.action), run.rest);
    }
  }

  lemma CancelSeesTransfer(s: State, t: State, rest: Run) returns (run: Run)
    requires s.transferring && s.ep0 == Free && s.mutex == Nobody
    requires t == s.(ep0 := CancelWrite(true), mutex := ByEp0, awaiting := true) && Unclean(t, rest)
    ensures Unclean(s, run)
  {
    var s1 := Next(s, HostCancel);
    var s2 := Next(s1, Ep0Step);
    run := Then(Ep0Step, rest);
    assert Unclean(s2, run);
    run := Then(HostCancel, Then(Ep0Step, run));
    assert Unclean(s1, run.rest);
  }

  /** An upload that has left its loop ends without waiting for the control thread. */
  lemma UploadEnds(s: State, t: State, rest: Run) returns (run: Run)
    requires s.io == Stop(Upload)
    requires t == s.(io := Idle, transferring := false, cancelReq := 0) && Unclean(t, rest)
    ensures Unclean(s, run)
  {
    var s1 := Next(s, IoStep(false));
    var s2 := Next(s1, IoStep(false));
    run := rest;
    if s.cancelReq != 0 {
      assert Next(s2, IoStep(false)) == t;
      run := Then(IoStep(false), run);
    }
    assert Unclean(s2, run);
    run := Then(IoStep(false), run);
    assert Unclean(s1, run);
    run := Then(IoStep(false), run);
  }

  /** The Cancel of the next transaction reads the old upload's flag, the upload ends, the Cancel
      raises cancel_req and the next transfer begins. */
  lemma CancelCrossesUploadEnd(s: State) returns (run: Run)
    requires Uploading(s) && s.transferring && s.ep0 == Free && s.mutex == Nobody && s.pending > 0
    ensures Unclean(s, run)
  {
    var seen := s.(ep0 := CancelWrite(true), mutex := ByEp0, awaiting := true);
    var stopped := seen.(io := Stop(Upload));
    var ended := seen.(io := Idle, transferring := false, cancelReq := 0);
    run := Then(Ep0Step, Then(IoBegin(Upload), End));
    assert Unclean(Next(ended, Ep0Step), run.rest);
    run := UploadEnds(stopped, ended, run);
    if s.io == Active(Upload) {
      run := Then(IoStep(false), run);
    }
    run := CancelSeesTransfer(s, seen, run);
  }

  /** The state behind an early start, whatever else is going on. */
  predicate StartedEarly(s: State) {
    && !s.awaiting && s.pending > 0 && (s.pending > 1 || Uploading(s))
    && (s.io.Active? || s.io.Stop? ==> s.transferring)
    && (s.mutex == if s.io == Clear(Download) then ByIo else Nobody)
    && s.cancelReq != 2 && (s.ep0 == Free || s.ep0 == StatusRead || InStatus(s.ep0))
  }

  function Ep0Rank(e: Ep0): nat {
    match e
    case Free => 0
    case ReplyOk => 1
    case StatusClear => 2
    case StatusTransfer => 3
    case _ => 4
  }

  function IoRank(io: Io): nat {
    match io
    case Idle => 0
    case Clear(_) => 1
    case Check(_) => 2
    case Stop(_) => 3
    case Active(_) => 4
  }

  /** The status request is answered, a transfer other than an upload runs out, an upload begins, and
      the Cancel of one transaction crosses the end of another. */
  lemma {:induction false} EarlyStartGoesWrong(s: State) returns (run: Run)
    requires StartedEarly(s)
    ensures Unclean(s, run)
    decreases Ep0Rank(s.ep0), IoRank(s.io)
  {
    if s.ep0 != Free {
      run := EarlyStartGoesWrong(Next(s, Ep0Step));
      run := Then(Ep0Step, run);
    } else if Uploading(s) {
      run := CancelCrossesUploadEnd(s);
    } else if s.io != Idle {
      run := EarlyStartGoesWrong(Next(s, IoStep(false)));
      run := Then(IoStep(false), run);
    } else {
      run := End;
      if s.cancelReq == 0 {
        run := CancelCrossesUploadEnd(Next(s, IoBegin(Upload)));
      }
      run := Then(IoBegin(Upload), run);
    }
  }

  /** Never starting too early is also necessary: from every state of a device that kept the discipline
      so far, an early start has a continuation, with the host still polling after every Cancel, in
      which a transfer begins with the flag up. */
  lemma EarlyStartIsUnsafe(s: State) returns (run: Run)
    requires Inv(s) && !s.awaiting && TooEarly(s)
    ensures Unclean(s, Then(HostStart, run)) && Possible(s, Then(HostStart, run))
    ensures !BeginsClean(s, Then(HostStart, run))
  {
    run := EarlyStartGoesWrong(Next(s, HostStart));
    UncleanMeans(s, Then(HostStart, run));
  }

  /** The control thread is at work with the flag up, or done with it, on a stuck device. */
  predicate StuckRaised(s: State) {
    && Stuck(s) && 1 <= s.cancelReq <= 2
    && (s.mutex == if s.ep0 == BusyRead || s.ep0 == BusyWrite then ByEp0 else Nobody)
    && (s.ep0 == Free || s.ep0 == StatusRead || InBusy(s.ep0) || (s.cancelReq == 1 && (s.ep0 == StatusTransfer || s.ep0 == ReplyOk)))
    && (!s.awaiting ==> s.cancelReq == 1 && !InBusy(s.ep0))
  }

  function StuckRank(s: State): nat {
    match s.ep0
    case ReplyOk => 0
    case StatusTransfer => 1
    case BusyWrite => if s.cancelReq == 2 then 0 else 5
    case BusyRead => if s.cancelReq == 2 then 1 else 6
    case BusyLock => if s.cancelReq == 2 then 2 else 7
    case StatusRead => if s.cancelReq == 2 then 3 else 2
    case Free => if s.cancelReq == 2 then 4 else 3
    case _ => if s.cancelReq == 2 then 5 else 4
  }

  /** On a stuck device the flag stays up through the polls, and the next transfer begins with it. */
  lemma {:induction false} StuckFlagStays(s: State) returns (run: Run)
    requires StuckRaised(s)
    ensures Unclean(s, run)
    decreases s.awaiting, s.cancelReq, StuckRank(s)
  {
    if s.pending > 0 {
      run := Then(IoBegin(Upload), End);
    } else if s.ep0 != Free {
      if s.ep0 == ReplyOk && !s.awaiting {
        run := Then(Ep0Step, Then(HostStart, Then(IoBegin(Upload), End)));
        assert Unclean(Next(s, Ep0Step), run.rest);
      } else {
        run := StuckFlagStays(Next(s, Ep0Step));
        run := Then(Ep0Step, run);
      }
    } else if s.awaiting {
      run := StuckFlagStays(Next(s, HostStatus));
      run := Then(HostStatus, run);
    } else {
      run := Then(HostStart, Then(IoBegin(Upload), End));
    }
  }

  /** The control thread raises the flag on a stuck device. */
  lemma StuckFlagRises(s: State) returns (run: Run)
    requires Stuck(s) && s.awaiting && 0 <= s.cancelReq <= 2
    requires s.ep0 in {CancelLock, CancelRead, CancelWrite(true), BusyWrite}
    requires s.mutex == if s.ep0 == CancelLock then Nobody else ByEp0
    ensures Unclean(s, run)
    decreases if s.ep0 == CancelLock then 2 else if s.ep0 == CancelRead then 1 else 0
  {
    var t := Next(s, Ep0Step);
    if s.ep0 == CancelLock || s.ep0 == CancelRead {
      run := StuckFlagRises(t);
    } else {
      run := StuckFlagStays(t);
    }
    run := Then(Ep0Step, run);
  }

  /** The discipline is exact: from every state of a device that kept it so far, any action that is not
      careful, the failing read included, has a continuation with a polling host, and without further
      failures, in which a transfer begins with the flag up. */
  lemma CarelessIsUnsafe(s: State, a: Action) returns (run: Run)
    requires Inv(s) && Enabled(s, a) && PollsUntilOk(s, a) && !Careful(s, a)
    ensures Unclean(Next(s, a), run)
  {
    var t := Next(s, a);
    if a == HostStart {
      run := EarlyStartGoesWrong(t);
    } else if t.ep0 in {CancelLock, CancelRead, CancelWrite(true), BusyWrite} {
      run := StuckFlagRises(t);
    } else {
      run := StuckFlagStays(t);
    }
  }

  /** A host that only polls does meet it: a run from the start of a session in which it polls after
      every Cancel, no read fails, and a transfer begins with the flag up. */
  lemma PollingAloneFails() returns (run: Run)
    ensures Unclean(START, run) && Possible(START, run) && !BeginsClean(START, run)
  {
    var uploading := Next(Next(START, HostStart), IoBegin(Upload));
    run := EarlyStartGoesWrong(Next(uploading, HostStart));
    run := Then(HostStart, run);
    assert Unclean(uploading, run);
    run := Then(IoBegin(Upload), run);
    assert Unclean(Next(START, HostStart), run);
    run := Then(HostStart, run);
    UncleanMeans(START, run);
  }

  /** A run in which the loop is left at its next test of cancel_req, however much data is still to
      come, and nothing before that test lowers the flag. */
  predicate LeftAtNextTest(s: State, run: Run)
    requires s.io.Active? && Possible(s, run)
    decreases run
  {
    match run
    case End => s.cancelReq != 0
    case Then(a, rest) =>
      var t := Next(s, a);
      s.cancelReq != 0 && if a.IoStep? then t == s.(io := Stop(s.io.kind)) else t.io == s.io && LeftAtNextTest(t, rest)
  }

  /** A Cancel ends the transfer: once the flag is up it stays up, whatever the host and the control
      thread do, until the loop tests it and is left. */
  lemma {:induction false} CancelReachesLoop(s: State, run: Run)
    requires Inv(s) && s.io.Active? && s.cancelReq != 0 && Possible(s, run) && Disciplined(s, run)
    ensures LeftAtNextTest(s, run)
    decreases run
  {
    if run.Then? && !run.action.IoStep? {
      StepKeeps(s, run.action);
      CancelReachesLoop(Next(s, run.action), run.rest);
    }
  }

  function IoSteps(more: seq<bool>): Run {
    if more == [] then End else Then(IoStep(more[0]), IoSteps(more[1..]))
  }

  lemma OneIoStep(s: State, more: seq<bool>)
    requires more != [] && Enabled(s, IoStep(more[0])) && Possible(IoNext(s, more[0]), IoSteps(more[1..]))
    ensures Possible(s, IoSteps(more)) && After(s, IoSteps(more)) == After(IoNext(s, more[0]), IoSteps(more[1..]))
  {
  }

  /** Left alone, a cancelled transfer of either kind is over after four steps: the device is idle,
      nothing is transferring, the flag is down and the mutex free. */
  lemma {:induction false} CancelledTransferEnds(s: State, more: seq<bool>)
    requires s.io.Active? && s.cancelReq != 0 && s.mutex == Nobody && |more| == 4
    ensures Possible(s, IoSteps(more))
    ensures After(s, IoSteps(more)) == s.(io := Idle, transferring := false, cancelReq := 0)
  {
    var s1 := IoNext(s, more[0]);
    var s2 := IoNext(s1, more[1]);
    var s3 := IoNext(s2, more[2]);
    OneIoStep(s3, more[3..]);
    OneIoStep(s2, more[2..]);
    OneIoStep(s1, more[1..]);
    OneIoStep(s, more);
  }

  /** With the flag down the loop goes on as long as there is more, and ends the transfer after that. */
  lemma UncancelledTransferEnds(s: State)
    requires s.io.Active? && s.cancelReq == 0 && s.mutex == Nobody
    ensures After(s, IoSteps([true])) == s
    ensures Possible(s, IoSteps([false, false, false]))
    ensures After(s, IoSteps([false, false, false])) == s.(io := Idle, transferring := false)
  {
    var more := [false, false, false];
    var s1 := IoNext(s, false);
    OneIoStep(IoNext(s1, false), more[2..]);
    OneIoStep(s1, more[1..]);
    OneIoStep(s, more);
    OneIoStep(s, [true]);
  }

  /** A Cancel served at one go raises the flag during a transfer and lowers it otherwise. */
  lemma CancelServed(s: State)
    requires s.ep0 == Free && s.mutex == Nobody
    ensures Poll(Next(s, HostCancel), 3) == s.(cancelReq := if s.transferring then 2 else 0, awaiting := true)
  {
    PollUnfold(Next(s, HostCancel), 3);
  }

  /** A poll served at one go is answered busy just behind a Cancel that met a transfer, which it
      takes note of; any other is answered OK, and lowers the flag of a device that transfers nothing. */
  lemma StatusServed(s: State)
    requires s.ep0 == Free && s.mutex == Nobody
    ensures Poll(Next(s, HostStatus), 6)
         == if s.cancelReq == 2 then s.(cancelReq := 1)
            else s.(awaiting := false, cancelReq := if s.transferring then s.cancelReq else 0)
  {
    PollUnfold(Next(s, HostStatus), 6);
    PollUnfold(Ep0Next(Next(s, HostStatus)), 5);
  }

  /** Polling is no defence against starting early: a cancelled upload that is still in its loop when
      the host polls answers busy and then OK, with the flag up. */
  lemma OkWhileStillUploading(s: State)
    requires Inv(s) && s.io == Active(Upload) && s.ep0 == Free && s.mutex == Nobody
    ensures var cancelled := Poll(Next(s, HostCancel), 3);
            var first := Poll(Next(cancelled, HostStatus), 6);
            var second := Poll(Next(first, HostStatus), 6);
            && first.ep0 == Free && first.awaiting
            && second.ep0 == Free && !second.awaiting && second.cancelReq == 1
            && Inv(second) && TooEarly(second)
  {
    var cancelled := Poll(Next(s, HostCancel), 3);
    assert cancelled == s.(cancelReq := 2, awaiting := true);
    var first := Poll(Next(cancelled, HostStatus), 6);
    PollUnfold(Next(cancelled, HostStatus), 6);
    assert first == cancelled.(cancelReq := 1);
  }

  /** The error exit of a download leaves transferring_file_data up on an idle device. A Cancel then
      raises the flag; two polls later the host has its OK and the flag is still up. */
  lemma ReadFailureLeavesFlagUp(s: State)
    requires s.io == Active(Download) && s.transferring && s.ep0 == Free && s.mutex == Nobody
    ensures var failed := Next(s, IoReadFail);
            var cancelled := Poll(Next(failed, HostCancel), 3);
            var first := Poll(Next(cancelled, HostStatus), 6);
            var second := Poll(Next(first, HostStatus), 6);
            && failed.io == Idle && cancelled.cancelReq == 2
            && first.ep0 == Free && first.awaiting
            && second.ep0 == Free && !second.awaiting && second.cancelReq == 1
  {
    var failed := Next(s, IoReadFail);
    var cancelled := Poll(Next(failed, HostCancel), 3);
    assert cancelled == failed.(cancelReq := 2, awaiting := true);
    var first := Poll(Next(cancelled, HostStatus), 6);
    PollUnfold(Next(cancelled, HostStatus), 6);
    assert first == cancelled.(cancelReq := 1);
  }

  /** The control thread serving one Get Device Status while the I/O thread takes no step. */
  function Poll(s: State, n: nat): State
    requires s.mutex == Nobody || s.mutex == ByEp0
    decreases n
  {
    if n == 0 || s.ep0 == Free then s
    else if s.mutex == ByEp0 && (s.ep0 == CancelLock || s.ep0 == BusyLock) then s
    else Poll(Ep0Next(s), n - 1)
  }

  /** The state after the OK that ends the polling of an idle device. */
  function Polled(s: State): State
    requires s.mutex == Nobody && s.ep0 == Free
  {
    var first := Poll(Next(s.(awaiting := true), HostStatus), 6);
    if first.mutex == Nobody && first.ep0 == Free && first.awaiting then Poll(Next(first, HostStatus), 6) else first
  }

  /** An idle device, whatever its flags, answers busy at most once: the first answer or the second is
      OK. With the OK the flag is down exactly when it was down before or no failed download has left
      transferring_file_data up. */
  lemma IdleBusyAtMostOnce(s: State)
    requires s.io == Idle && s.mutex == Nobody && s.ep0 == Free && 0 <= s.cancelReq <= 2
    ensures var first := Poll(Next(s.(awaiting := true), HostStatus), 6);
            first.ep0 == Free && (first.awaiting <==> s.cancelReq == 2)
    ensures var last := Polled(s);
            && last.ep0 == Free && !last.awaiting
            && (last.cancelReq == 0 <==> !s.transferring || s.cancelReq == 0)
  {
    var t := Next(s.(awaiting := true), HostStatus);
    PollUnfold(t, 6);
    PollUnfold(Ep0Next(t), 5);
  }

  lemma PollUnfold(s: State, n: nat)
    requires n > 0 && s.ep0 != Free && s.mutex == Nobody
    ensures Poll(s, n) == Poll(Ep0Next(s), n - 1)
  {
  }

  /** Steps of a running transfer alone, failing disk reads included. */
  predicate IoOnly(run: Run) {
    run == End || ((run.action.IoStep? || run.action.IoReadFail?) && IoOnly(run.rest))
  }

  predicate ReadFails(run: Run) {
    run.Then? && (run.action.IoReadFail? || ReadFails(run.rest))
  }

  /** A Cancel that saw a download is never late: whatever steps the download takes while the Cancel
      holds the mutex, it gets no further than its final check, unless a disk read fails and leaves
      transferring_file_data up. An upload does not wait. */
  lemma {:induction false} DownloadWaitsForCancel(s: State, run: Run)
    requires s.ep0 == CancelWrite(true) && s.mutex == ByEp0
    requires s.io == Check(Download) || (s.io in {Active(Download), Stop(Download)} && s.transferring)
    requires IoOnly(run) && Possible(s, run)
    ensures var t := After(s, run);
            && t.ep0 == s.ep0 && t.mutex == s.mutex
            && if ReadFails(run) then Stuck(t) else t.io in {Active(Download), Stop(Download), Check(Download)}
    decreases run
  {
    if run.Then? {
      var t := Next(s, run.action);
      if run.action.IoReadFail? {
        assert run.rest.Then? ==> !Enabled(t, run.rest.action);
      } else {
        DownloadWaitsForCancel(t, run.rest);
      }
    }
  }

  /** The discipline over a whole session. */
  lemma SessionBeginsClean(run: Run)
    requires Possible(START, run) && Disciplined(START, run)
    ensures BeginsClean(START, run)
  {
    TransfersBeginClean(START, run);
  }
}
