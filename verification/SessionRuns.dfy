/** Building runs step by step, with any registrations wanted, and some that show a theorem's restriction is needed. */
module SessionRuns {
  import opened Machine
  import opened Protocol
  import opened LambdaRegistry
  import opened Board
  import opened Connector
  import opened Replay
  import opened Session
  import opened SessionInvariant
  import opened SessionTheorems

  lemma OneMore(r: Run, s: State, ev: Event) returns (r': Run, s': State)
    requires Legal(r) && End(r) == s && Enabled(s, ev)
    ensures r'.tag == r.tag && r'.n == r.n && Legal(r') && End(r') == s' == Next(r.tag, s, ev)
  {
    r' := r.(events := r.events + [ev]);
    assert Shorter(r') == r && LastEvent(r') == ev;
    s' := Next(r.tag, s, ev);
  }

  /** A session of n threads in which nothing has happened yet. */
  lemma Begin(tag: Tag, n: nat) returns (r: Run, s: State)
    ensures r == Run(tag, n, []) && Legal(r) && End(r) == s == Start(n)
  {
    r := Run(tag, n, []);
    s := Start(n);
  }

  /** Outside a call. */
  predicate AtRest(th: Thread) {
    th.Idle? || th.Returned?
  }

  /** Thread 0 calls the lambda and passes its check. */
  lemma CallAndCheck(r: Run, s: State, req: Request, id: nat) returns (r': Run, s': State)
    requires Legal(r) && End(r) == s && |s.threads| == 1 && AtRest(s.threads[0]) && s.owner == None
    requires CheckCall(s.linux, req) == Proceed(id)
    ensures Legal(r') && End(r') == s' && r'.tag == r.tag
    ensures s' == s.(threads := [Cleared(req, id)], owner := Some(0))
  {
    hide CheckCall, End, Legal;
    r', s' := OneMore(r, s, Event.Call(0, req));
    r', s' := OneMore(r', s', Lock(0));
    r', s' := OneMore(r', s', Check(0));
  }

  /** Then it sends the call packet and waits. */
  lemma CallAndWait(r: Run, s: State, req: Request, id: nat) returns (r': Run, s': State)
    requires Legal(r) && End(r) == s && |s.threads| == 1 && AtRest(s.threads[0]) && s.owner == None
    requires CheckCall(s.linux, req) == Proceed(id)
    ensures Legal(r') && End(r') == s' && r'.tag == r.tag
    ensures s' == s.(threads := [Waiting(id, s.read, s.read)], calls := s.calls + [CallRecord(CallPacketFor(req), id)])
  {
    hide CheckCall, End, Legal;
    r', s' := CallAndCheck(r, s, req, id);
    r', s' := OneMore(r', s', SendCall(0));
    r', s' := OneMore(r', s', Event.Wait(0));
  }

  lemma Register(r: Run, s: State, info: Info, hasFn: bool) returns (r': Run, s': State)
    requires Legal(r) && End(r) == s && s.crash.None? && |s.board| < MAX_LAMBDAS
    requires ValidName(info.name) && |info.name| != MAX_LAMBDA_NAME_LENGTH && ByName(s.board, info.name).None?
    requires hasFn || info.cache == RS_CACHE_ONLY
    ensures Legal(r') && End(r') == s' && r'.tag == r.tag
    ensures s' == s.(board := s.board + [Some(Entry(|s.board|, info, hasFn))], log := s.log + [info],
                     wire := s.wire + if |s.board| < ANNOUNCED then [BoardPacket.Registered(info)] else [])
  {
    r', s' := OneMore(r, s, Event.Register(info, hasFn));
  }

  lemma Unregister(r: Run, s: State, id: Byte) returns (r': Run, s': State)
    requires Legal(r) && End(r) == s && s.crash.None? && Live(s.board, id)
    ensures Legal(r') && End(r') == s' && r'.tag == r.tag
    ensures s' == s.(board := s.board[id := None],
                     wire := s.wire + [Unregistered(TagByte(r.tag), id, s.board[id].value.info.name)])
  {
    r', s' := OneMore(r, s, Event.Unregister(id));
  }

  /** Linux handles a packet while no thread waits for anything. */
  lemma ReceiveUnwatched(r: Run, s: State) returns (r': Run, s': State)
    requires Legal(r) && End(r) == s && s.read < |s.wire| && |s.errs| == |s.linux|
    requires forall t :: 0 <= t < |s.threads| ==> AtRest(s.threads[t])
    ensures Legal(r') && End(r') == s' && r'.tag == r.tag
    ensures s' == s.(read := s.read + 1, linux := HandlePacket(s.linux, s.wire[s.read]),
                     errs := HandleErrors(s.linux, s.errs, s.wire[s.read]))
    ensures |s'.errs| == |s'.linux|
  {
    hide HandlePacket, HandleErrors;
    r', s' := OneMore(r, s, Receive);
    assert s'.threads == s.threads;
  }

  // ---------- a whole call ----------

  /** None of the next n packets frees a lambda that a thread has a pointer to. */
  predicate NoneFreed(s: State, n: nat)
    requires s.read + n <= |s.wire|
  {
    forall k, t :: s.read <= k < s.read + n && 0 <= t < |s.threads| && Unregisters(s.wire[k]) ==>
                     Uses(s.threads[t]) != Some(s.wire[k].id)
  }

  /** A thread waits while at most n packets are handled. */
  lemma {:induction false} WaitRun(r: Run, s: State, t: nat, n: nat) returns (r': Run, s': State)
    requires Legal(r) && End(r) == s && s.read + n <= |s.wire| && |s.errs| == |s.linux| && NoneFreed(s, n)
    requires t < |s.threads| && s.threads[t].Waiting?
    ensures Legal(r') && End(r') == s' && r'.tag == r.tag && r'.n == r.n
    ensures s'.owner == s.owner && s'.calls == s.calls && |s'.threads| == |s.threads| && s'.threads[t].Woken?
    ensures s'.threads[t].id == s.threads[t].id
    ensures Awaited(s'.linux, s'.errs, s'.threads[t].why.TimedOut?)
            == Await(s.linux, s.errs, s.threads[t].id, s.wire[s.read..s.read + n])
    decreases n
  {
    hide End, Legal, HandlePacket, HandleErrors;
    var arrivals := s.wire[s.read..s.read + n];
    if n == 0 {
      assert arrivals == [];
      r', s' := OneMore(r, s, TimeOut(t));
    } else {
      assert arrivals[0] == s.wire[s.read];
      r', s' := OneMore(r, s, Receive);
      if s'.threads[t].Waiting? {
        assert NoneFreed(s', n - 1);
        assert arrivals[1..] == s'.wire[s'.read..s'.read + (n - 1)];
        r', s' := WaitRun(r', s', t, n - 1);
      }
    }
  }

  /** A thread that has sent its call packet finishes its call. */
  lemma WaitAndFinish(r: Run, s: State, t: nat, n: nat) returns (r': Run, s': State)
    requires Legal(r) && End(r) == s && s.read + n <= |s.wire| && |s.errs| == |s.linux| && NoneFreed(s, n)
    requires t < |s.threads| && s.threads[t].Sent?
    ensures Legal(r') && End(r') == s' && r'.tag == r.tag
    ensures var id := s.threads[t].id;
            var a := Await(s.linux, s.errs, id, s.wire[s.read..s.read + n]);
            var f := FinishAt(a.view, a.errors, id, a.timedOut);
            t < |s'.threads| && s'.threads[t] == Returned(f.code, f.result) && s'.owner.None? && s'.calls == s.calls
            && s'.linux == a.view && s'.errs == Reported(a.errors, id, f.error)
  {
    hide End, Legal, Await, FinishAt, Reported, HandlePacket, HandleErrors;
    r', s' := OneMore(r, s, Event.Wait(t));
    assert NoneFreed(s', n);
    r', s' := WaitRun(r', s', t, n);
    r', s' := OneMore(r', s', Relock(t));
    r', s' := OneMore(r', s', Event.Finish(t));
  }

  /** What a method of the client does in one go, a thread does in steps while the packets of that call are handled. */
  lemma WholeCall(r: Run, s: State, t: nat, req: Request, n: nat) returns (r': Run, s': State)
    requires Legal(r) && End(r) == s && s.read + n <= |s.wire| && |s.errs| == |s.linux| && NoneFreed(s, n)
    requires t < |s.threads| && AtRest(s.threads[t]) && s.owner.None?
    requires var v := CheckCall(s.linux, req);
             v.Proceed? ==> forall k :: s.read <= k < s.read + n && Unregisters(s.wire[k]) ==> s.wire[k].id != v.id
    ensures Legal(r') && End(r') == s' && r'.tag == r.tag
    ensures var c := Complete(s.linux, s.errs, req, s.wire[s.read..s.read + n]);
            t < |s'.threads| && s'.threads[t] == Returned(c.code, c.result) && s'.owner.None?
            && s'.linux == c.view && s'.errs == c.errors
            && |s'.calls| == |s.calls| + |c.sent| && s.calls <= s'.calls
            && (c.sent != [] ==> s'.calls[|s.calls|].packet == c.sent[0])
  {
    hide End, Legal, CheckCall, Await, FinishAt, Reported, HandlePacket, HandleErrors;
    r', s' := OneMore(r, s, Event.Call(t, req));
    r', s' := OneMore(r', s', Lock(t));
    r', s' := OneMore(r', s', Check(t));
    if CheckCall(s.linux, req).Proceed? {
      r', s' := OneMore(r', s', SendCall(t));
      assert NoneFreed(s', n);
      r', s' := WaitAndFinish(r', s', t, n);
    }
  }

  /** The board answers a call with one packet. */
  lemma AnswerWith(r: Run, s: State, answer: Payload, p: BoardPacket) returns (r': Run, s': State)
    requires Legal(r) && End(r) == s && Enabled(s, Answer(answer))
    requires Handle(s.board, s.calls[s.taken].packet, answer) == Reply([p])
    ensures Legal(r') && End(r') == s' && r'.tag == r.tag
    ensures s' == s.(wire := s.wire + [p], taken := s.taken + 1)
  {
    hide Handle;
    r', s' := OneMore(r, s, Answer(answer));
  }

  /** A call makes the board invoke a null function. */
  lemma CrashOn(r: Run, s: State, answer: Payload) returns (r': Run, s': State)
    requires Legal(r) && End(r) == s && Enabled(s, Answer(answer))
    requires Handle(s.board, s.calls[s.taken].packet, answer) == Crash
    ensures Legal(r') && End(r') == s' && r'.tag == r.tag
    ensures s' == s.(crash := Some(s.calls[s.taken].packet), taken := s.taken + 1)
  {
    hide Handle;
    r', s' := OneMore(r, s, Answer(answer));
  }

  lemma ErrorPacketEffect(l: LinuxTable, errs: Errors, id: Byte, code: int)
    requires Live(l, id) && |errs| == |l|
    ensures var p := ResultError(id, code);
            HandlePacket(l, p) == l && HandleErrors(l, errs, p) == errs[id := Some(code)]
            && Connector.Woken(l, p) == Some(id)
  {
  }

  /** An error packet wakes the one thread there is, which gets the mutex back. */
  lemma WakeByError(r: Run, s: State, id: Byte, code: int) returns (r': Run, s': State)
    requires Legal(r) && End(r) == s && s.read < |s.wire| && s.wire[s.read] == ResultError(id, code)
    requires Live(s.linux, id) && |s.errs| == |s.linux|
    requires |s.threads| == 1 && s.threads[0].Waiting? && s.threads[0].id == id && s.owner == None
    ensures Legal(r') && End(r') == s' && r'.tag == r.tag
    ensures var th := s.threads[0];
            s' == s.(read := s.read + 1, errs := s.errs[id := Some(code)],
                     threads := [Resumed(id, th.since, th.from, s.read + 1, ByError)], owner := Some(0))
  {
    hide End, Legal, HandlePacket, HandleErrors, Connector.Woken;
    ErrorPacketEffect(s.linux, s.errs, id, code);
    r', s' := OneMore(r, s, Receive);
    var th := s.threads[0];
    assert s'.threads == [Woken(id, th.since, th.from, s.read + 1, ByError)];
    r', s' := OneMore(r', s', Relock(0));
    assert s'.threads == [Resumed(id, th.since, th.from, s.read + 1, ByError)];
  }

  /** The one thread's wait times out, and it gets the mutex back. */
  lemma LetTimeOut(r: Run, s: State) returns (r': Run, s': State)
    requires Legal(r) && End(r) == s && |s.threads| == 1 && s.threads[0].Waiting? && s.owner == None
    ensures Legal(r') && End(r') == s' && r'.tag == r.tag
    ensures var th := s.threads[0];
            s' == s.(threads := [Resumed(th.id, th.since, th.from, s.read, TimedOut)], owner := Some(0))
  {
    hide End, Legal;
    r', s' := OneMore(r, s, TimeOut(0));
    r', s' := OneMore(r', s', Relock(0));
  }

  /** Then its call returns. */
  lemma GiveUp(r: Run, s: State) returns (r': Run, s': State)
    requires Legal(r) && End(r) == s && |s.threads| == 1 && s.threads[0].Waiting? && s.owner == None
    ensures Legal(r') && End(r') == s' && r'.tag == r.tag
    ensures |s'.threads| == 1 && AtRest(s'.threads[0])
    ensures var f := FinishOf(s, s.threads[0].id, TimedOut);
            s' == s.(threads := s'.threads, errs := Reported(s.errs, s.threads[0].id, f.error))
  {
    hide End, Legal, FinishAt;
    r', s' := LetTimeOut(r, s);
    r', s' := OneMore(r', s', Event.Finish(0));
  }

  // ---------- runs with a given log ----------

  predicate NoResults(w: Wire) {
    forall k :: 0 <= k < |w| ==> !w[k].Result?
  }

  predicate NoneLive(b: BoardTable) {
    forall i :: 0 <= i < |b| ==> b[i].None?
  }

  /** None of the names is that of a live lambda. */
  ghost predicate NoClash(b: BoardTable, more: Log) {
    forall i, k :: Live(b, i) && 0 <= k < |more| ==> more[k].name != b[i].value.info.name
  }

  lemma NoClashOnce(b: BoardTable, info: Info)
    requires NoClash(b, [info])
    ensures ByName(b, info.name).None?
  {
    assert [info][0] == info;
    assert forall i :: Live(b, i) ==> b[i].value.info.name != info.name;
  }

  /** Registers these lambdas and unregisters each of them at once. */
  lemma {:induction false} RegisterAndDrop(r: Run, s: State, more: Log) returns (r': Run, s': State)
    requires Legal(r) && End(r) == s && s.crash.None? && |s.board| + |more| <= MAX_LAMBDAS
    requires Possible(more) && NoClash(s.board, more)
    ensures Legal(r') && End(r') == s' && r'.tag == r.tag
    ensures s' == s.(board := s.board + seq(|more|, _ => None), log := s.log + more, wire := s'.wire)
    ensures s.wire <= s'.wire && (NoResults(s.wire) ==> NoResults(s'.wire))
    decreases |more|
  {
    hide End, Legal, Next, Enabled;
    if more == [] {
      assert s.board + seq(|more|, _ => None) == s.board && s.log + more == s.log;
      r', s' := r, s;
    } else {
      var n, info := |s.board|, more[0];
      NoClashOnce(s.board, info);
      r', s' := Register(r, s, info, true);
      r', s' := Unregister(r', s', n);
      assert s'.board == s.board + [None];
      r', s' := RegisterAndDrop(r', s', more[1..]);
      assert s.board + [None] + seq(|more| - 1, _ => None) == s.board + seq(|more|, _ => None);
      assert s.log + [info] + more[1..] == s.log + more;
    }
  }

  /** A board that has given out n ids, of which only this one is live. */
  function Alone(n: nat, j: nat, info: Info, hasFn: bool): BoardTable {
    seq(n, k => if k == j then Some(Entry(j, info, hasFn)) else None)
  }

  /** Registers these lambdas and keeps one of them. */
  lemma RegisterButKeep(r: Run, s: State, more: Log, j: nat, hasFn: bool) returns (r': Run, s': State)
    requires Legal(r) && End(r) == s && s.crash.None? && |s.board| + |more| <= MAX_LAMBDAS
    requires Possible(more) && NoneLive(s.board)
    requires j < |more| && (hasFn || more[j].cache == RS_CACHE_ONLY)
    requires forall k :: j < k < |more| ==> more[k].name != more[j].name
    ensures Legal(r') && End(r') == s' && r'.tag == r.tag
    ensures s' == s.(board := Alone(|s.board| + |more|, |s.board| + j, more[j], hasFn), log := s.log + more,
                     wire := s'.wire)
    ensures s.wire <= s'.wire && (NoResults(s.wire) ==> NoResults(s'.wire))
  {
    hide End, Legal, Next, Enabled;
    r', s' := RegisterAndDrop(r, s, more[..j]);
    NoClashOnce(s'.board, more[j]);
    r', s' := Register(r', s', more[j], hasFn);
    r', s' := RegisterAndDrop(r', s', more[j + 1..]);
    assert s'.board == Alone(|s.board| + |more|, |s.board| + j, more[j], hasFn);
    assert s.log + more[..j] + [more[j]] + more[j + 1..] == s.log + more;
  }

  /** Linux handles all that is under way. */
  lemma {:induction false} ReceiveAll(r: Run, s: State) returns (r': Run, s': State)
    requires Legal(r) && End(r) == s && s.read <= |s.wire| && |s.errs| == |s.linux|
    requires forall t :: 0 <= t < |s.threads| ==> AtRest(s.threads[t])
    ensures Legal(r') && End(r') == s' && r'.tag == r.tag
    ensures s' == s.(read := |s.wire|, linux := s'.linux, errs := s'.errs) && |s'.errs| == |s'.linux|
    decreases |s.wire| - s.read
  {
    hide End, Legal, Next, Enabled, HandlePacket, HandleErrors;
    r', s' := r, s;
    if s.read < |s.wire| {
      r', s' := ReceiveUnwatched(r, s);
      r', s' := ReceiveAll(r', s');
    }
  }

  // ---------- stories ----------

  const A: string := "a"
  const B: string := "b"

  lemma NamesAreFine()
    ensures ValidName(A) && ValidName(B) && A != B && |A| != MAX_LAMBDA_NAME_LENGTH && |B| != MAX_LAMBDA_NAME_LENGTH
  {
  }

  /** One lambda, registered on the board and known to Linux. */
  lemma OneLambda(tag: Tag, info: Info) returns (r: Run, s: State)
    requires info.name == A
    ensures Legal(r) && r.tag == tag && End(r) == s
    ensures s == State([Some(Entry(0, info, true))], [info], [BoardPacket.Registered(info)], 1,
                       [Some(Entry(0, info, FRESH))], [Some(0)], [], 0, None, [Idle], None)
  {
    hide HandlePacket;
    NamesAreFine();
    r, s := Begin(tag, 1);
    r, s := Register(r, s, info, true);
    HandleByKind([], BoardPacket.Registered(info));
    assert s.threads == [Idle];
    r, s := ReceiveUnwatched(r, s);
  }

  /** The board unregisters that lambda, and Linux does not notice. */
  lemma UnnoticedUnregister(info: Info) returns (r: Run, s: State)
    requires info.name == A
    ensures Legal(r) && r.tag.Coded? && End(r) == s
    ensures s == State([None], [info], [BoardPacket.Registered(info), Unregistered(RS_PACKET_REGISTERED, 0, A)], 2,
                       [Some(Entry(0, info, FRESH))], [Some(0)], [], 0, None, [Idle], None)
  {
    hide HandlePacket;
    r, s := OneLambda(Coded, info);
    r, s := Unregister(r, s, 0);
    HandleByKind(s.linux, s.wire[1]);
    r, s := ReceiveUnwatched(r, s);
  }

  /**
   * An error packet ends a wait, and the caller is told RS_CALL_SUCCESS although nothing was stored: with the
   * coded tag, for a lambda that the board unregistered before the call.
   */
  lemma SuccessWithoutResult() returns (r: Run)
    ensures Legal(r) && r.tag.Coded? && DistinctNames(End(r).log) && Enabled(End(r), Event.Finish(0))
    ensures Next(r.tag, End(r), Event.Finish(0)).threads[0] == Returned(RS_CALL_SUCCESS, None)
  {
    hide End, Legal;
    var s: State;
    var info := Info(A, RS_LAMBDA_INT, RS_CACHE_NO_CACHE);
    r, s := UnnoticedUnregister(info);
    r, s := CallAndWait(r, s, RequestById(0, RS_LAMBDA_INT), 0);
    r, s := AnswerWith(r, s, Int(0), ResultError(0, RS_CALL_NOTFOUND));
    r, s := WakeByError(r, s, 0, RS_CALL_NOTFOUND);
  }

  /** The board sends a result before it unregisters the lambda unnoticed. */
  lemma UnnoticedAfterResult(info: Info) returns (r: Run, s: State)
    requires info.name == A && info.ltype == RS_LAMBDA_INT
    ensures Legal(r) && r.tag.Coded? && End(r) == s
    ensures s.board == [None] && s.log == [info] && |s.wire| == s.read == 3
    ensures s.linux == [Some(Entry(0, info, Cell(true, Some(Int(7)))))] && s.errs == [Some(0)]
    ensures s.calls == [] && s.taken == 0 && s.crash.None? && s.threads == [Idle] && s.owner == None
  {
    hide End, Legal, HandlePacket;
    r, s := OneLambda(Coded, info);
    r, s := OneMore(r, s, Event.SendResult(0, Int(7)));
    r, s := Unregister(r, s, 0);
    HandleByKind(s.linux, s.wire[1]);
    r, s := ReceiveUnwatched(r, s);
    HandleByKind(s.linux, s.wire[2]);
    r, s := ReceiveUnwatched(r, s);
  }

  /**
   * In that situation RS_CALL_SUCCESS can come with a value older than the call, although the lambda is
   * RS_CACHE_NO_CACHE.
   */
  lemma StaleSuccess() returns (r: Run)
    ensures Legal(r) && r.tag.Coded? && DistinctNames(End(r).log) && Enabled(End(r), Event.Finish(0))
    ensures LinuxInv(End(r)) && Live(End(r).linux, 0) && End(r).linux[0].value.info.cache == RS_CACHE_NO_CACHE
    ensures Next(r.tag, End(r), Event.Finish(0)).threads[0] == Returned(RS_CALL_SUCCESS, Some(Int(7)))
    ensures !Fresh(End(r), 0, End(r).threads[0].since, Some(Int(7)))
  {
    hide End, Legal, HandlePacket, Fresh, LinuxInv;
    var s: State;
    r, s := UnnoticedAfterResult(Info(A, RS_LAMBDA_INT, RS_CACHE_NO_CACHE));
    r, s := CallAndWait(r, s, RequestById(0, RS_LAMBDA_INT), 0);
    r, s := AnswerWith(r, s, Int(0), ResultError(0, RS_CALL_NOTFOUND));
    r, s := WakeByError(r, s, 0, RS_CALL_NOTFOUND);
    OnlyErrorsSince(r, s);
  }

  /** Nothing is fresh if the one packet since the call is an error. */
  lemma OnlyErrorsSince(r: Run, s: State)
    requires Legal(r) && End(r) == s && |s.wire| == s.read == 4 && s.wire[3].ResultError?
    ensures LinuxInv(s) && !Fresh(s, 0, 3, Some(Int(7)))
  {
    InvAlways(r);
  }

  /**
   * Also in that situation, a call can return an error older than itself: a first call is answered with the error
   * when it has been given up, and a second one, for which nothing comes, reports it.
   */
  lemma StaleError() returns (r: Run)
    ensures Legal(r) && r.tag.Coded? && DistinctNames(End(r).log) && Enabled(End(r), Event.Finish(0))
    ensures Next(r.tag, End(r), Event.Finish(0)).threads[0] == Returned(RS_CALL_NOTFOUND, None)
    ensures !ErrorSince(Handled(End(r)), 0, End(r).threads[0].since)
  {
    hide End, Legal, HandlePacket;
    var s: State;
    var req := RequestById(0, RS_LAMBDA_INT);
    r, s := UnnoticedUnregister(Info(A, RS_LAMBDA_INT, RS_CACHE_NO_CACHE));
    r, s := CallAndWait(r, s, req, 0);
    r, s := GiveUp(r, s);
    r, s := AnswerWith(r, s, Int(0), ResultError(0, RS_CALL_NOTFOUND));
    HandleByKind(s.linux, s.wire[2]);
    r, s := ReceiveUnwatched(r, s);
    r, s := CallAndWait(r, s, req, 0);
    r, s := LetTimeOut(r, s);
  }

  /** The result of a call is handled before the caller has begun to wait. */
  lemma AnsweredEarly(info: Info) returns (r: Run, s: State)
    requires info == Info(A, RS_LAMBDA_INT, RS_CACHE_NO_CACHE)
    ensures Legal(r) && r.tag.Intended? && End(r) == s && s.log == [info] && s.threads == [Sent(0, 1)]
    ensures |s.wire| == s.read == 2 && IsResultFor(s.wire[1], 0)
    ensures s.linux == [Some(Entry(0, info, Cell(true, Some(Int(7)))))] && s.errs == [Some(0)]
  {
    hide End, Legal, HandlePacket;
    r, s := OneLambda(Intended, info);
    r, s := CallAndCheck(r, s, RequestById(0, RS_LAMBDA_INT), 0);
    r, s := OneMore(r, s, SendCall(0));
    r, s := AnswerWith(r, s, Int(7), Result(0, A, Int(7)));
    HandleByKind(s.linux, s.wire[1]);
    r, s := OneMore(r, s, Receive);
  }

  /** Nobody hears that broadcast, and the call reports RS_CALL_TIMEOUT although its result is there. */
  lemma ResultBeforeWait() returns (r: Run)
    ensures Legal(r) && r.tag.Intended? && |End(r).log| == 1 && Enabled(End(r), Event.Finish(0))
    ensures Next(r.tag, End(r), Event.Finish(0)).threads[0] == Returned(RS_CALL_TIMEOUT, None)
    ensures ResultSince(Handled(End(r)), 0, End(r).threads[0].since)
  {
    hide End, Legal;
    var s: State;
    r, s := AnsweredEarly(Info(A, RS_LAMBDA_INT, RS_CACHE_NO_CACHE));
    r, s := OneMore(r, s, Event.Wait(0));
    r, s := LetTimeOut(r, s);
    assert IsResultFor(Handled(s)[1], 0);
  }

  /** A result arrives between a thread's cache check and its send. */
  lemma ResultAfterCheck() returns (r: Run)
    ensures Legal(r) && r.tag.Intended? && CalledOnce(End(r), 0) && SomeoneCleared(End(r), 0)
  {
    hide End, Legal, HandlePacket;
    var s: State;
    var info := Info(A, RS_LAMBDA_INT, RS_CACHE_CALL_ONCE);
    r, s := OneLambda(Intended, info);
    r, s := CallAndCheck(r, s, RequestById(0, RS_LAMBDA_INT), 0);
    r, s := OneMore(r, s, Event.SendResult(0, Int(7)));
    HandleByKind(s.linux, s.wire[1]);
    r, s := OneMore(r, s, Receive);
    assert s.threads[0].Cleared? && s.threads[0].id == 0;
  }

  /** With the intended tag too, Linux does not learn of the 129th registration. */
  lemma TooManyToAnnounce() returns (r: Run)
    ensures Legal(r) && r.tag.Intended? && |End(r).board| == ANNOUNCED + 1
    ensures Skeleton(Settled(End(r))) != Skeleton(End(r).board)
  {
    hide End, Legal, Settled;
    NamesAreFine();
    var s: State;
    r, s := Begin(Intended, 1);
    r, s := RegisterAndDrop(r, s, seq(ANNOUNCED + 1, _ => Info(A, RS_LAMBDA_INT, RS_CACHE_NO_CACHE)));
    MirrorByReplay(r);
  }
}
