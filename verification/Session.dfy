/**
 * One session as a step system: the board, the Linux machine, a lossless FIFO channel each way and any
 * number of calling threads. Every step is one packet, or one piece of a call between two lock operations;
 * the packet handler takes no lock and may come between any two of them.
 */
module Session {
  import opened Machine
  import opened Protocol
  import opened LambdaRegistry
  import opened Board
  import opened Connector
  import opened Replay

  /** What ended a wait: a result or an error packet that broadcast, or the clock. */
  datatype Wake = ByResult | ByError | TimedOut

  /** Where a thread is in call_lambda_by_id or call_lambda_by_name. */
  datatype Thread =
    | Idle
    | Blocked(req: Request)              // at pthread_mutex_lock
    | Critical(req: Request)             // owns the mutex, before the lookup
    | Cleared(req: Request, id: nat)     // owns it; the cache check says that the lambda has to be called
    // how many packets Linux had handled when the call was sent, when the wait began, and when it ended
    | Sent(id: nat, since: nat)                                       // owns it; the call packet is sent
    | Waiting(id: nat, since: nat, from: nat)                         // in pthread_cond_timedwait
    | Woken(id: nat, since: nat, from: nat, until: nat, why: Wake)    // out of the wait, without the mutex yet
    | Resumed(id: nat, since: nat, from: nat, until: nat, why: Wake)  // owns the mutex again
    | Returned(code: int, result: Option<Value>)

  /** A call packet, and the lambda that Linux meant by it. */
  datatype CallRecord = CallRecord(packet: CallPacket, id: nat)

  datatype State = State(
    board: BoardTable,
    log: Log,                    // the board's successful registrations so far
    wire: Wire,                  // everything the board has sent
    read: nat,                   // how much of it Linux has handled
    linux: LinuxTable,
    errs: Errors,
    calls: seq<CallRecord>,      // everything Linux has sent
    taken: nat,                  // how much of it the board has handled
    crash: Option<CallPacket>,   // the call that made the board invoke a null function
    threads: seq<Thread>,
    owner: Option<nat>           // of accessing_registry
  )

  /** Both registries are empty when a session starts. */
  function Start(n: nat): State {
    State([], [], [], 0, [], [], [], 0, None, seq(n, _ => Idle), None)
  }

  datatype Event =
    | Register(info: Info, hasFn: bool)
    | Unregister(id: Byte)
    | SendResult(id: Byte, v: Payload)
    | Answer(answer: Payload)    // the board handles the next call; answer is what a user function would return
    | Receive                    // Linux handles the next packet
    | Call(t: nat, req: Request)
    | Lock(t: nat)
    | Check(t: nat)
    | SendCall(t: nat)
    | Wait(t: nat)
    | TimeOut(t: nat)
    | Relock(t: nat)
    | Finish(t: nat)

  predicate Owns(th: Thread) {
    th.Critical? || th.Cleared? || th.Sent? || th.Resumed?
  }

  /** The lambda a thread holds a pointer to. */
  function Uses(th: Thread): Option<nat> {
    if th.Cleared? || th.Sent? || th.Waiting? || th.Woken? || th.Resumed? then Some(th.id) else None
  }

  /**
   * A thread's steps follow its program; a session is restricted only in that names have room for their
   * terminator, and that Linux frees no lambda a thread still has a pointer to.
   */
  predicate Enabled(s: State, ev: Event) {
    match ev
    case Register(info, _) => s.crash.None? && |info.name| != MAX_LAMBDA_NAME_LENGTH
    case Unregister(_) => s.crash.None?
    case SendResult(_, _) => s.crash.None?
    case Answer(answer) =>
      s.crash.None? && s.taken < |s.calls| && AnswerFits(s.calls[s.taken].packet.expected, answer)
    case Receive =>
      s.read < |s.wire|
      && (Unregisters(s.wire[s.read]) ==>
            forall t :: 0 <= t < |s.threads| ==> Uses(s.threads[t]) != Some(s.wire[s.read].id))
    case Call(t, _) => t < |s.threads| && (s.threads[t].Idle? || s.threads[t].Returned?)
    case Lock(t) => t < |s.threads| && s.threads[t].Blocked? && s.owner.None?
    case Check(t) => t < |s.threads| && s.threads[t].Critical?
    case SendCall(t) => t < |s.threads| && s.threads[t].Cleared?
    case Wait(t) => t < |s.threads| && s.threads[t].Sent?
    case TimeOut(t) => t < |s.threads| && s.threads[t].Waiting?
    case Relock(t) => t < |s.threads| && s.threads[t].Woken? && s.owner.None?
    case Finish(t) => t < |s.threads| && s.threads[t].Resumed?
  }

  /** A broadcast takes every thread that waits for that lambda out of its wait, and no other. */
  function WakeUp(th: Thread, woken: Option<nat>, why: Wake, until: nat): Thread {
    if th.Waiting? && woken == Some(th.id) then Woken(th.id, th.since, th.from, until, why) else th
  }

  function FinishOf(s: State, id: nat, why: Wake): Finished {
    FinishAt(s.linux, s.errs, id, why.TimedOut?)
  }

  function Next(tag: Tag, s: State, ev: Event): State
    requires Enabled(s, ev)
  {
    match ev
    case Register(info, hasFn) =>
      var o := RegisterOutcome(s.board, info, hasFn);
      s.(board := o.table, log := LogAfter(s.log, s.board, o.table, info), wire := s.wire + o.out)
    case Unregister(id) =>
      var o := UnregisterOutcome(tag, s.board, id);
      s.(board := o.table, wire := s.wire + o.out)
    case SendResult(id, v) =>
      s.(wire := s.wire + SendOutcome(s.board, id, v).out)
    case Answer(answer) =>
      var c := s.calls[s.taken].packet;
      (match Handle(s.board, c, answer)
       case Reply(out) => s.(wire := s.wire + out, taken := s.taken + 1)
       case Crash => s.(crash := Some(c), taken := s.taken + 1))
    case Receive =>
      var p := s.wire[s.read];
      var woken, why := Connector.Woken(s.linux, p), if p.Result? then ByResult else ByError;
      s.(read := s.read + 1, linux := HandlePacket(s.linux, p),
         errs := if |s.errs| == |s.linux| then HandleErrors(s.linux, s.errs, p) else s.errs,
         threads := seq(|s.threads|, t requires 0 <= t < |s.threads| => WakeUp(s.threads[t], woken, why, s.read + 1)))
    case Call(t, req) => s.(threads := s.threads[t := Blocked(req)])
    case Lock(t) => s.(threads := s.threads[t := Critical(s.threads[t].req)], owner := Some(t))
    case Check(t) =>
      (match CheckCall(s.linux, s.threads[t].req)
       case Done(code, result) => s.(threads := s.threads[t := Returned(code, result)], owner := None)
       case Proceed(id) => s.(threads := s.threads[t := Cleared(s.threads[t].req, id)]))
    case SendCall(t) =>
      var th := s.threads[t];
      s.(threads := s.threads[t := Sent(th.id, s.read)], calls := s.calls + [CallRecord(CallPacketFor(th.req), th.id)])
    case Wait(t) => s.(threads := s.threads[t := Waiting(s.threads[t].id, s.threads[t].since, s.read)], owner := None)
    case TimeOut(t) =>
      var th := s.threads[t];
      s.(threads := s.threads[t := Woken(th.id, th.since, th.from, s.read, TimedOut)])
    case Relock(t) =>
      var th := s.threads[t];
      s.(threads := s.threads[t := Resumed(th.id, th.since, th.from, th.until, th.why)], owner := Some(t))
    case Finish(t) =>
      var th := s.threads[t];
      var f := FinishOf(s, th.id, th.why);
      s.(threads := s.threads[t := Returned(f.code, f.result)], owner := None,
         errs := Reported(s.errs, th.id, f.error))
  }

  /** The state after a sequence of events, and whether each was enabled in its turn. */
  datatype Run = Run(tag: Tag, n: nat, events: seq<Event>)

  function Shorter(r: Run): Run
    requires r.events != []
  {
    r.(events := r.events[..|r.events| - 1])
  }

  function LastEvent(r: Run): Event
    requires r.events != []
  {
    r.events[|r.events| - 1]
  }

  predicate Legal(r: Run)
    decreases |r.events|, 0
  {
    r.events == [] || (Legal(Shorter(r)) && Enabled(End(Shorter(r)), LastEvent(r)))
  }

  function End(r: Run): State
    requires Legal(r)
    decreases |r.events|, 1
  {
    if r.events == [] then Start(r.n) else Next(r.tag, End(Shorter(r)), LastEvent(r))
  }

  // ---------- what holds in every state ----------

  function Handled(s: State): Wire {
    if s.read <= |s.wire| then s.wire[..s.read] else s.wire
  }

  ghost predicate BoardInv(tag: Tag, s: State) {
    && BoardHistory(s.board, s.log)
    && Mirrors(tag, s.board, s.log, s.wire)
    && PacketsFit(s.wire, tag, s.log)
    && (Faithful(tag, s.log) ==> AlwaysAgrees(s.wire, s.log))
  }

  ghost predicate LinuxInv(s: State) {
    && s.read <= |s.wire|
    && s.linux == Replayed(Handled(s))
    && ErrorsFit(s.linux, s.errs)
  }

  /** last_call_error exists for the live lambdas, and is 0 or an error code. */
  ghost predicate ErrorsFit(l: LinuxTable, errs: Errors) {
    && |errs| == |l|
    && forall i :: 0 <= i < |l| ==> (errs[i].Some? <==> Live(l, i)) && (errs[i].Some? ==> errs[i].value <= 0)
  }

  /**
   * A thread's pointer is good and its lambda not RS_CACHE_ONLY; the lambda fits the call if it is about to be sent.
   * A waiting thread has missed no reply, and what ended a wait is as it says.
   */
  ghost predicate ThreadFits(w: Wire, th: Thread) {
    match th
    case Cleared(req, id) => Callable(w, id) && CallFits(w, CallRecord(CallPacketFor(req), id))
    case Sent(id, since) => CallSent(w, id, since)
    case Waiting(id, since, from) => CallSent(w, id, since) && since <= from <= |w| && !Replied(w, id, from, |w|)
    case Woken(id, since, from, until, why) =>
      CallSent(w, id, since) && since <= from <= until <= |w| && WaitEnded(w, id, from, until, why)
    case Resumed(id, since, from, until, why) =>
      CallSent(w, id, since) && since <= from <= until <= |w| && WaitEnded(w, id, from, until, why)
    case _ => true
  }

  ghost predicate Callable(w: Wire, id: nat) {
    Live(Replayed(w), id) && Replayed(w)[id].value.info.cache != RS_CACHE_ONLY
  }

  /** The call was sent after the lambda was registered. */
  ghost predicate CallSent(w: Wire, id: nat, since: nat) {
    Callable(w, id) && AssignedAt(w, id) < since <= |w|
  }

  predicate IsReplyFor(p: BoardPacket, id: nat) {
    IsReply(p) && p.id == id
  }

  /** Among the packets from one place up to another there is a result or an error for the lambda. */
  ghost predicate Replied(w: Wire, id: nat, from: nat, until: nat) {
    exists k: nat :: from <= k < until && k < |w| && IsReplyFor(w[k], id)
  }

  /** A wait times out if no reply comes, and else ends with the first one. */
  ghost predicate WaitEnded(w: Wire, id: nat, from: nat, until: nat, why: Wake)
    requires until <= |w|
  {
    if why.TimedOut? then !Replied(w, id, from, until)
    else
      from < until && !Replied(w, id, from, until - 1)
      && IsReplyFor(w[until - 1], id) && (why.ByResult? <==> w[until - 1].Result?)
  }

  ghost predicate ThreadInv(s: State) {
    && (forall t :: 0 <= t < |s.threads| ==> ThreadFits(Handled(s), s.threads[t]))
    && (forall t :: 0 <= t < |s.threads| ==> (Owns(s.threads[t]) <==> s.owner == Some(t)))
    && (s.owner.Some? ==> s.owner.value < |s.threads|)
  }

  /** The lambda meant by a call packet is not RS_CACHE_ONLY and has the name or id and the type of the packet. */
  ghost predicate CallFits(w: Wire, c: CallRecord) {
    c.id < |Replayed(w)|
    && var info := LinuxInfo(w, c.id);
       info.cache != RS_CACHE_ONLY && info.ltype == c.packet.expected
       && match c.packet
          case CallById(id, _) => id == c.id
          case CallByName(name, _) => name == info.name
  }

  ghost predicate CallsInv(s: State) {
    s.taken <= |s.calls| && forall k :: 0 <= k < |s.calls| ==> CallFits(Handled(s), s.calls[k])
  }

  /**
   * A call that makes the board invoke a null function: Linux means the registration it knows under i, the board
   * takes the call for its registration j, which is RS_CACHE_ONLY and the last one of its name.
   */
  predicate NullCall(known: Log, log: Log, c: CallPacket, i: nat, j: nat) {
    && i < |known| && j < |log|
    && known[i].cache != RS_CACHE_ONLY && log[j].cache == RS_CACHE_ONLY
    && ValidType(c.expected) && known[i].ltype == log[j].ltype == c.expected
    && (match c
        case CallById(id, _) => i == j == id
        case CallByName(name, _) => known[i].name == log[j].name == name)
    && forall k :: j < k < |log| ==> log[k].name != log[j].name
  }

  ghost predicate CrashInv(tag: Tag, s: State) {
    s.crash.Some? ==> exists i, j :: NullCall(Known(tag, s.log), s.log, s.crash.value, i, j)
  }

  ghost predicate Inv(tag: Tag, s: State) {
    BoardInv(tag, s) && LinuxInv(s) && ThreadInv(s) && CallsInv(s) && CrashInv(tag, s)
  }
}
