/** Every step keeps the session's invariant. */
module SessionInvariant {
  import opened Machine
  import opened Protocol
  import opened LambdaRegistry
  import opened Board
  import opened Connector
  import opened Replay
  import opened Session

  // ---------- the board's steps ----------

  lemma AfterReply(tag: Tag, s: State, p: BoardPacket)
    requires BoardInv(tag, s) && IsReply(p) && PacketFits(p, tag, s.log)
    ensures BoardInv(tag, s.(wire := s.wire + [p]))
  {
    hide Mirrors, AlwaysAgrees, BoardHistory, Replayed;
    MirrorAfterReply(tag, s.board, s.log, s.wire, p);
    if Faithful(tag, s.log) {
      AgreementAfterPacket(tag, s.log, s.wire, p);
    }
  }

  /** What send_result_lambda_* puts on the wire fits the log. */
  lemma SentResultFits(tag: Tag, b: BoardTable, log: Log, id: Byte, v: Payload)
    requires BoardHistory(b, log)
    ensures var out := SendOutcome(b, id, v).out;
            out == [] || (|out| == 1 && IsReply(out[0]) && PacketFits(out[0], tag, log))
  {
    hide Hton;
    if Live(b, id) {
      NtohOfHton(v);
    }
  }

  lemma HandledOutputFits(tag: Tag, b: BoardTable, log: Log, c: CallPacket, answer: Payload)
    requires BoardHistory(b, log) && Handle(b, c, answer).Reply?
    ensures var out := Handle(b, c, answer).out;
            out == [] || (|out| == 1 && IsReply(out[0]) && PacketFits(out[0], tag, log))
  {
    hide BoardHistory, PacketFits, HandleById;
    match c {
      case CallById(id, expected) =>
        ReplyFits(tag, b, log, id, expected, answer);
      case CallByName(name, expected) =>
        var e := ByName(b, name);
        if e.Some? && e.value.id < 255 {
          ReplyFits(tag, b, log, e.value.id, expected, answer);
        }
    }
  }

  lemma ReplyFits(tag: Tag, b: BoardTable, log: Log, id: Byte, expected: Byte, answer: Payload)
    requires BoardHistory(b, log) && HandleById(b, id, expected, answer).Reply?
    ensures var out := HandleById(b, id, expected, answer).out;
            out == [] || (|out| == 1 && IsReply(out[0]) && PacketFits(out[0], tag, log))
  {
    hide BoardHistory, SendOutcome, PacketFits;
    SentResultFits(tag, b, log, id, answer);
    ErrorFits(tag, log, id, RS_CALL_NOTFOUND);
    ErrorFits(tag, log, id, RS_CALL_WRONGTYPE);
  }

  lemma ErrorFits(tag: Tag, log: Log, id: Byte, code: int)
    requires code < 0
    ensures PacketFits(ResultError(id, code), tag, log)
  {
  }

  lemma AfterSendResult(tag: Tag, s: State, id: Byte, v: Payload)
    requires BoardInv(tag, s)
    ensures BoardInv(tag, s.(wire := s.wire + SendOutcome(s.board, id, v).out))
  {
    SentResultFits(tag, s.board, s.log, id, v);
    AfterReplies(tag, s, SendOutcome(s.board, id, v).out);
  }

  lemma AfterReplies(tag: Tag, s: State, out: seq<BoardPacket>)
    requires BoardInv(tag, s)
    requires out == [] || (|out| == 1 && IsReply(out[0]) && PacketFits(out[0], tag, s.log))
    ensures BoardInv(tag, s.(wire := s.wire + out))
  {
    if out == [] {
      assert s.wire + out == s.wire;
    } else {
      assert out == [out[0]];
      AfterReply(tag, s, out[0]);
    }
  }

  lemma FaithfulBefore(tag: Tag, log: Log, info: Info)
    ensures DistinctNames(log + [info]) ==> DistinctNames(log)
    ensures Faithful(tag, log + [info]) ==> Faithful(tag, log)
  {
    assert forall i :: 0 <= i < |log| ==> (log + [info])[i] == log[i];
  }

  lemma PacketFitsLater(p: BoardPacket, tag: Tag, log: Log, info: Info)
    requires PacketFits(p, tag, log)
    ensures PacketFits(p, tag, log + [info])
  {
  }

  lemma AfterRegister(tag: Tag, s: State, info: Info, hasFn: bool)
    requires BoardInv(tag, s) && |info.name| != MAX_LAMBDA_NAME_LENGTH
    ensures var o := RegisterOutcome(s.board, info, hasFn);
            BoardInv(tag, s.(board := o.table, log := LogAfter(s.log, s.board, o.table, info), wire := s.wire + o.out))
  {
    hide PacketFits, Mirrors, AlwaysAgrees, RegisterOutcome;
    var o := RegisterOutcome(s.board, info, hasFn);
    var log' := LogAfter(s.log, s.board, o.table, info);
    MirrorAfterRegister(tag, s.board, s.log, s.wire, info, hasFn);
    HistoryAfterRegister(s.board, s.log, info, hasFn);
    forall k | 0 <= k < |s.wire + o.out|
      ensures PacketFits((s.wire + o.out)[k], tag, log')
    {
      if k < |s.wire| {
        PacketFitsLater(s.wire[k], tag, s.log, info);
      } else {
        RegisteredFits(tag, log', info);
      }
    }
    FaithfulBefore(tag, s.log, info);
    if Faithful(tag, log') {
      AgreementAfterRegistering(tag, s, info, hasFn);
    }
  }

  lemma RegisteredFits(tag: Tag, log: Log, info: Info)
    requires |info.name| != MAX_LAMBDA_NAME_LENGTH
    ensures PacketFits(BoardPacket.Registered(info), tag, log)
  {
  }

  lemma AgreementAfterRegistering(tag: Tag, s: State, info: Info, hasFn: bool)
    requires BoardInv(tag, s) && |info.name| != MAX_LAMBDA_NAME_LENGTH
    requires var o := RegisterOutcome(s.board, info, hasFn);
             Faithful(tag, LogAfter(s.log, s.board, o.table, info))
    ensures var o := RegisterOutcome(s.board, info, hasFn);
            AlwaysAgrees(s.wire + o.out, LogAfter(s.log, s.board, o.table, info))
  {
    hide PacketFits, Mirrors, AlwaysAgrees, BoardHistory, RegisterOutcome;
    var o := RegisterOutcome(s.board, info, hasFn);
    HistoryAfterRegister(s.board, s.log, info, hasFn);
    FaithfulBefore(tag, s.log, info);
    assert s.wire + [] == s.wire;
    if o.table != s.board {
      if |s.board| < ANNOUNCED {
        LengthOfHistory(s.board, s.log);
        AgreementAfterRegister(tag, s.board, s.log, s.wire, info);
      } else {
        AgreesWithLongerLog(s.wire, s.log, info);
      }
    }
  }

  lemma LengthOfHistory(b: BoardTable, log: Log)
    requires BoardHistory(b, log)
    ensures |b| == |log|
  {
  }

  lemma AfterUnregister(tag: Tag, s: State, id: Byte)
    requires BoardInv(tag, s)
    ensures var o := UnregisterOutcome(tag, s.board, id);
            BoardInv(tag, s.(board := o.table, wire := s.wire + o.out))
  {
    hide Mirrors, AlwaysAgrees;
    var o := UnregisterOutcome(tag, s.board, id);
    MirrorAfterUnregister(tag, s.board, s.log, s.wire, id);
    if Live(s.board, id) && Faithful(tag, s.log) {
      AgreementAfterPacket(tag, s.log, s.wire, o.out[0]);
    }
    assert s.wire + [] == s.wire;
  }

  // ---------- calls on their way to the board ----------

  /** What Linux had under an id when it handled a prefix of the wire is in the board's log. */
  lemma HandledIsKnown(tag: Tag, s: State, i: nat)
    requires BoardInv(tag, s) && LinuxInv(s) && i < |s.linux|
    ensures i < |Known(tag, s.log)| <= |s.log| && LinuxInfo(Handled(s), i) == Known(tag, s.log)[i]
  {
    hide Replayed, LinuxInfo, Known, PacketsFit, BoardHistory, Mirrors;
    LinuxInfoOfPrefix(s.wire, s.read, i);
    LinuxInfoIsKnown(tag, s.board, s.log, s.wire, i);
  }

  /** A function that is null is met only under an RS_CACHE_ONLY registration, of the type called for. */
  lemma NullFunctionFound(b: BoardTable, log: Log, id: Byte, expected: Byte, answer: Payload)
    requires BoardHistory(b, log) && HandleById(b, id, expected, answer).Crash?
    ensures Live(b, id) && id < |log| && ValidType(expected)
    ensures log[id].cache == RS_CACHE_ONLY && log[id].ltype == expected
    ensures forall k :: id < k < |log| ==> log[k].name != log[id].name
  {
  }

  /** If a call that Linux sent reaches a null function, the log has two registrations to blame. */
  lemma NullCallFound(tag: Tag, s: State, c: CallRecord, answer: Payload) returns (j: nat)
    requires BoardInv(tag, s) && LinuxInv(s) && CallFits(Handled(s), c)
    requires Handle(s.board, c.packet, answer).Crash?
    ensures NullCall(Known(tag, s.log), s.log, c.packet, c.id, j)
  {
    hide Mirrors, PacketsFit, Replayed, LinuxInfo, HandleById, Known, AlwaysAgrees;
    HandledIsKnown(tag, s, c.id);
    match c.packet {
      case CallById(id, expected) =>
        NullFunctionFound(s.board, s.log, id, expected, answer);
        j := id;
      case CallByName(name, expected) =>
        var e := ByName(s.board, name);
        LookupsAreInverse(s.board, name, e.value);
        NullFunctionFound(s.board, s.log, e.value.id, expected, answer);
        j := e.value.id;
    }
  }

  /** There are no such two where no name is repeated, and none for a call by id where ids agree. */
  lemma NoNullCallWhereFaithful(tag: Tag, log: Log, c: CallPacket, i: nat, j: nat)
    requires Faithful(tag, log) && (c.CallByName? ==> DistinctNames(log))
    ensures !NullCall(Known(tag, log), log, c, i, j)
  {
    FaithfulIsKnown(tag, log);
  }

  /**
   * A call by id never hits a null function where Linux and the board agree on ids; a call by name does not
   * where no name is registered twice either.
   */
  lemma CallIsSafe(tag: Tag, s: State, c: CallRecord, answer: Payload)
    requires BoardInv(tag, s) && LinuxInv(s) && CallFits(Handled(s), c)
    requires Faithful(tag, s.log) && (c.packet.CallByName? ==> DistinctNames(s.log))
    ensures Handle(s.board, c.packet, answer).Reply?
  {
    hide BoardInv, LinuxInv, CallFits, Handle;
    if Handle(s.board, c.packet, answer).Crash? {
      var j := NullCallFound(tag, s, c, answer);
      NoNullCallWhereFaithful(tag, s.log, c.packet, c.id, j);
    }
  }

  lemma HandledStays(s: State, out: seq<BoardPacket>)
    requires s.read <= |s.wire|
    ensures Handled(s.(wire := s.wire + out)) == Handled(s)
  {
    assert (s.wire + out)[..s.read] == s.wire[..s.read];
  }

  /** Steps that only append to the wire, or change the board, leave Linux's part of the invariant alone. */
  lemma LinuxUnaffected(s: State, s': State, out: seq<BoardPacket>)
    requires LinuxInv(s) && ThreadInv(s) && CallsInv(s)
    requires s'.wire == s.wire + out && s'.read == s.read && s'.linux == s.linux && s'.errs == s.errs
    requires s'.threads == s.threads && s'.owner == s.owner && s'.calls == s.calls
    requires s.taken <= s'.taken <= |s.calls|
    ensures LinuxInv(s') && ThreadInv(s') && CallsInv(s')
  {
    hide ThreadFits, CallFits, Replayed;
    HandledStays(s, out);
    assert Handled(s') == Handled(s);
  }

  lemma InvAfterBoardStep(tag: Tag, s: State, ev: Event)
    requires Inv(tag, s) && Enabled(s, ev)
    requires ev.Register? || ev.Unregister? || ev.SendResult?
    ensures Inv(tag, Next(tag, s, ev))
  {
    hide BoardInv, LinuxInv, ThreadInv, CallFits, RegisterOutcome, UnregisterOutcome, SendOutcome, NullCall, Known;
    var s' := Next(tag, s, ev);
    match ev {
      case Register(info, hasFn) =>
        AfterRegister(tag, s, info, hasFn);
        LinuxUnaffected(s, s', RegisterOutcome(s.board, info, hasFn).out);
        FaithfulBefore(tag, s.log, info);
      case Unregister(id) =>
        AfterUnregister(tag, s, id);
        LinuxUnaffected(s, s', UnregisterOutcome(tag, s.board, id).out);
      case SendResult(id, v) =>
        AfterSendResult(tag, s, id, v);
        LinuxUnaffected(s, s', SendOutcome(s.board, id, v).out);
    }
  }

  lemma InvAfterAnswer(tag: Tag, s: State, answer: Payload)
    requires Inv(tag, s) && Enabled(s, Answer(answer))
    ensures Inv(tag, Next(tag, s, Answer(answer)))
  {
    hide BoardInv, LinuxInv, ThreadInv, Handle, CallFits, NullCall, Known;
    var s' := Next(tag, s, Answer(answer));
    var c := s.calls[s.taken];
    match Handle(s.board, c.packet, answer) {
      case Reply(out) =>
        HandledOutput(tag, s, c.packet, answer);
        AfterReplies(tag, s, out);
        BoardInvFrame(tag, s.(wire := s.wire + out), s');
        LinuxUnaffected(s, s', out);
      case Crash =>
        var j := NullCallFound(tag, s, c, answer);
        BoardInvFrame(tag, s, s');
        assert s.wire + [] == s.wire;
        LinuxUnaffected(s, s', []);
    }
  }

  lemma HandledOutput(tag: Tag, s: State, c: CallPacket, answer: Payload)
    requires BoardInv(tag, s) && Handle(s.board, c, answer).Reply?
    ensures var out := Handle(s.board, c, answer).out;
            out == [] || (|out| == 1 && IsReply(out[0]) && PacketFits(out[0], tag, s.log))
  {
    HandledOutputFits(tag, s.board, s.log, c, answer);
  }

  /** The board's part of the invariant depends only on the board, its log and the wire. */
  lemma BoardInvFrame(tag: Tag, s: State, s': State)
    requires BoardInv(tag, s) && s'.board == s.board && s'.log == s.log && s'.wire == s.wire
    ensures BoardInv(tag, s')
  {
  }

  // ---------- Linux handles a packet ----------

  lemma CallFitsLater(w: Wire, p: BoardPacket, c: CallRecord)
    requires CallFits(w, c)
    ensures CallFits(w + [p], c)
  {
    LinuxInfoStays(w, p, c.id);
  }

  /** What was replied up to a place does not change. */
  lemma RepliedLater(w: Wire, p: BoardPacket, id: nat, from: nat, until: nat)
    requires until <= |w|
    ensures Replied(w + [p], id, from, until) <==> Replied(w, id, from, until)
  {
    if Replied(w, id, from, until) {
      var k: nat :| from <= k < until && k < |w| && IsReplyFor(w[k], id);
      assert IsReplyFor((w + [p])[k], id);
    }
  }

  /** A call is still sent for a live lambda if the packet does not unregister it. */
  lemma CallSentLater(w: Wire, p: BoardPacket, id: nat)
    requires Callable(w, id) && (Unregisters(p) ==> p.id != id)
    ensures Callable(w + [p], id)
    ensures forall since :: CallSent(w, id, since) ==> CallSent(w + [p], id, since)
  {
    hide HandlePacket, Replayed;
    ReplayOneMore(w, p);
    StaysLive(Replayed(w), p, id);
    HandleStep(Replayed(w), p);
    PlaceStays(w, p, id);
  }

  lemma WaitEndedLater(w: Wire, p: BoardPacket, id: nat, from: nat, until: nat, why: Wake)
    requires until <= |w| && WaitEnded(w, id, from, until, why)
    ensures WaitEnded(w + [p], id, from, until, why)
  {
    hide Replied;
    RepliedLater(w, p, id, from, until);
    if from < until {
      RepliedLater(w, p, id, from, until - 1);
    }
  }

  /** A reply for the lambda ends the wait, and no other packet does. */
  lemma WaitEndsWith(w: Wire, p: BoardPacket, id: nat, from: nat)
    requires from <= |w| && Callable(w, id) && !Replied(w, id, from, |w|)
    ensures var why := if p.Result? then ByResult else ByError;
            if Connector.Woken(Replayed(w), p) == Some(id) then WaitEnded(w + [p], id, from, |w| + 1, why)
            else !Replied(w + [p], id, from, |w| + 1)
  {
    hide Replied, Replayed;
    RepliedLater(w, p, id, from, |w|);
    RepliedOneMore(w, p, id, from);
  }

  lemma UsesCallable(w: Wire, th: Thread)
    requires ThreadFits(w, th) && Uses(th).Some?
    ensures Callable(w, th.id)
  {
  }

  /** A packet leaves a thread with a live lambda if it does not unregister it, and ends its wait if it is a reply. */
  lemma ThreadFitsLater(w: Wire, p: BoardPacket, th: Thread)
    requires ThreadFits(w, th)
    requires Unregisters(p) ==> Uses(th) != Some(p.id)
    ensures var woken, why := Connector.Woken(Replayed(w), p), if p.Result? then ByResult else ByError;
            ThreadFits(w + [p], WakeUp(th, woken, why, |w| + 1))
  {
    hide CallFits, Replayed, Replied, WaitEnded, Callable, CallSent, Connector.Woken;
    if Uses(th).Some? {
      UsesCallable(w, th);
      CallSentLater(w, p, th.id);
    }
    if th.Cleared? {
      CallFitsLater(w, p, CallRecord(CallPacketFor(th.req), th.id));
    } else if th.Waiting? {
      WaitEndsWith(w, p, th.id, th.from);
    } else if th.Woken? || th.Resumed? {
      WaitEndedLater(w, p, th.id, th.from, th.until, th.why);
    }
  }

  lemma RepliedOneMore(w: Wire, p: BoardPacket, id: nat, from: nat)
    requires from <= |w|
    ensures Replied(w + [p], id, from, |w| + 1) <==> Replied(w, id, from, |w|) || IsReplyFor(p, id)
  {
    RepliedLater(w, p, id, from, |w|);
    assert (w + [p])[|w|] == p;
    if Replied(w + [p], id, from, |w|) {
      var k: nat :| from <= k < |w| && IsReplyFor((w + [p])[k], id);
    }
  }

  lemma ErrorsAfterPacket(l: LinuxTable, errs: Errors, p: BoardPacket, tag: Tag, log: Log)
    requires ErrorsFit(l, errs) && PacketFits(p, tag, log)
    ensures ErrorsFit(HandlePacket(l, p), HandleErrors(l, errs, p))
  {
    HandleByKind(l, p);
  }

  lemma InvAfterReceive(tag: Tag, s: State)
    requires Inv(tag, s) && Enabled(s, Receive)
    ensures Inv(tag, Next(tag, s, Receive))
  {
    hide PacketFits, Mirrors, AlwaysAgrees, BoardHistory, ThreadFits, CallFits, HandlePacket, HandleErrors, NullCall,
         Known;
    var s', p := Next(tag, s, Receive), s.wire[s.read];
    BoardInvFrame(tag, s, s');
    assert Handled(s') == Handled(s) + [p];
    ReplayOneMore(Handled(s), p);
    ErrorsAfterPacket(s.linux, s.errs, p, tag, s.log);
    forall t | 0 <= t < |s.threads|
      ensures ThreadFits(Handled(s'), s'.threads[t])
    {
      ThreadFitsLater(Handled(s), p, s.threads[t]);
    }
    forall k | 0 <= k < |s.calls|
      ensures CallFits(Handled(s'), s.calls[k])
    {
      CallFitsLater(Handled(s), p, s.calls[k]);
    }
  }

  // ---------- the steps of a thread ----------

  lemma FoundName(l: LinuxTable, req: Request)
    requires Lookup(l, req).Some?
    ensures req.RequestByName? ==> Lookup(l, req).value.info.name == req.name
  {
  }

  /** A call that passes the checks is for a live lambda that is not RS_CACHE_ONLY. */
  lemma ClearedFits(w: Wire, req: Request)
    requires CheckCall(Replayed(w), req).Proceed?
    ensures ThreadFits(w, Cleared(req, CheckCall(Replayed(w), req).id))
  {
    hide Replayed;
    LookupFinds(w, req);
    FoundName(Replayed(w), req);
    RegistrationOfId(w, Lookup(Replayed(w), req).value.id);
  }

  lemma FinishErrorFits(s: State, id: nat, why: Wake)
    requires ErrorsFit(s.linux, s.errs)
    ensures FinishOf(s, id, why).error <= 0
  {
  }

  /** One thread's step, all else but the owner, the calls and the errors unchanged. */
  ghost predicate ThreadStep(s: State, s': State, t: nat) {
    && t < |s.threads| == |s'.threads|
    && (forall u :: 0 <= u < |s.threads| && u != t ==> s'.threads[u] == s.threads[u])
    && s'.board == s.board && s'.log == s.log && s'.wire == s.wire && s'.read == s.read && s'.linux == s.linux
    && s'.taken == s.taken && s'.crash == s.crash
  }

  lemma InvAfterSendCall(tag: Tag, s: State, t: nat)
    requires Inv(tag, s) && Enabled(s, SendCall(t))
    ensures Inv(tag, Next(tag, s, SendCall(t)))
  {
    hide BoardInv, CallFits, Replayed, NullCall, Known;
    var s' := Next(tag, s, SendCall(t));
    BoardInvFrame(tag, s, s');
    assert Handled(s') == Handled(s);
    assert ThreadStep(s, s', t);
    assert ThreadFits(Handled(s), s.threads[t]);
  }

  /** The thread that makes the step still fits afterwards. */
  lemma StepFits(tag: Tag, s: State, ev: Event)
    requires LinuxInv(s) && ThreadInv(s) && Enabled(s, ev)
    requires !ev.Register? && !ev.Unregister? && !ev.SendResult? && !ev.Answer? && !ev.Receive? && !ev.SendCall?
    ensures ThreadFits(Handled(s), Next(tag, s, ev).threads[ev.t])
  {
    hide CallFits, CheckCall, FinishOf, Replayed;
    if ev.Check? && CheckCall(s.linux, s.threads[ev.t].req).Proceed? {
      ClearedFits(Handled(s), s.threads[ev.t].req);
    }
    assert ThreadFits(Handled(s), s.threads[ev.t]);
  }

  lemma InvAfterThreadStep(tag: Tag, s: State, ev: Event)
    requires Inv(tag, s) && Enabled(s, ev)
    requires !ev.Register? && !ev.Unregister? && !ev.SendResult? && !ev.Answer? && !ev.Receive? && !ev.SendCall?
    ensures Inv(tag, Next(tag, s, ev))
  {
    hide BoardInv, ThreadFits, CallFits, CheckCall, FinishOf, Replayed, NullCall, Known;
    var s' := Next(tag, s, ev);
    BoardInvFrame(tag, s, s');
    assert Handled(s') == Handled(s);
    assert ThreadStep(s, s', ev.t);
    if ev.Finish? {
      FinishErrorFits(s, s.threads[ev.t].id, s.threads[ev.t].why);
    }
    StepFits(tag, s, ev);
  }

  // ---------- all runs ----------

  lemma InvAtStart(tag: Tag, n: nat)
    ensures Inv(tag, Start(n))
  {
    assert RegisterAll([]) == [];
  }

  lemma InvNext(tag: Tag, s: State, ev: Event)
    requires Inv(tag, s) && Enabled(s, ev)
    ensures Inv(tag, Next(tag, s, ev))
  {
    hide Inv, Next;
    match ev {
      case Register(_, _) => InvAfterBoardStep(tag, s, ev);
      case Unregister(_) => InvAfterBoardStep(tag, s, ev);
      case SendResult(_, _) => InvAfterBoardStep(tag, s, ev);
      case Answer(answer) => InvAfterAnswer(tag, s, answer);
      case Receive => InvAfterReceive(tag, s);
      case SendCall(t) => InvAfterSendCall(tag, s, t);
      case _ => InvAfterThreadStep(tag, s, ev);
    }
  }

  /** The invariant holds at the end of every run. */
  lemma {:induction false} InvAlways(r: Run)
    requires Legal(r)
    ensures Inv(r.tag, End(r))
    decreases |r.events|
  {
    hide Inv, Next;
    if r.events == [] {
      InvAtStart(r.tag, r.n);
    } else {
      InvAlways(Shorter(r));
      InvNext(r.tag, End(Shorter(r)), LastEvent(r));
    }
  }
}
