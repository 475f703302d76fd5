/** What holds at the end of every run of a session. */
module SessionTheorems {
  import opened Machine
  import opened Protocol
  import opened LambdaRegistry
  import opened Board
  import opened Connector
  import opened Replay
  import opened Session
  import opened SessionInvariant

  // ---------- the two registries ----------

  /** Packets from the board that Linux has not handled yet. */
  function InFlight(s: State): Wire {
    if s.read <= |s.wire| then s.wire[s.read..] else []
  }

  /** Linux's table once it has handled what is under way. */
  function Settled(s: State): LinuxTable {
    Fold(s.linux, InFlight(s))
  }

  lemma SettledIsReplayed(tag: Tag, s: State)
    requires LinuxInv(s)
    ensures Settled(s) == Replayed(s.wire)
  {
    FoldContinuesReplay(s.wire, s.read);
  }

  /**
   * With the intended tag, handling what is under way turns Linux's table into the board's: the same ids,
   * names, types and policies and the same free slots, up to the 128 registrations a board announces.
   * The whole tables are equal exactly while there have been no more.
   */
  lemma MirrorByReplay(r: Run)
    requires Legal(r) && r.tag.Intended?
    ensures var s := End(r);
            Skeleton(Settled(s)) == Skeleton(Prefix(s.board))
            && (Skeleton(Settled(s)) == Skeleton(s.board) <==> |s.board| <= ANNOUNCED)
  {
    InvAlways(r);
    SettledIsReplayed(r.tag, End(r));
  }

  /**
   * With the coded tag, the two counters agree exactly while there are at most 128 registrations and no name is
   * repeated. Without a repeated name every announced registration sits on Linux under its id, and the lambdas that
   * Linux has too many are those the board has unregistered.
   */
  lemma MirrorWithCodedTag(r: Run)
    requires Legal(r) && r.tag.Coded?
    ensures var s := End(r);
            var l := Settled(s);
            |s.log| == |s.board|
            && (|l| == |s.board| <==> |s.board| <= ANNOUNCED && DistinctNames(s.log))
            && (DistinctNames(s.log) ==>
                  |l| == |Prefix(s.board)|
                  && forall i :: 0 <= i < |l| ==>
                       Bare(l[i]) == Some(Entry(i, s.log[i], ()))
                       && (Live(s.board, i) ==> Bare(l[i]) == Bare(s.board[i])))
  {
    hide Inv, Settled, Replayed, RegisterAll;
    var s := End(r);
    InvAlways(r);
    CodedTable(r.tag, s);
    RegisterAllRepeated(Prefix(s.log));
    if DistinctNames(s.log) {
      RegisterAllDistinct(Prefix(s.log));
    } else if |s.board| <= ANNOUNCED {
      assert Prefix(s.log) == s.log;
    }
  }

  lemma CodedTable(tag: Tag, s: State)
    requires Inv(tag, s) && tag.Coded?
    ensures Skeleton(Settled(s)) == RegisterAll(Prefix(s.log)) && NamesAreValid(Prefix(s.log))
    ensures |s.log| == |s.board| && forall i :: Live(s.board, i) ==> Bare(s.board[i]) == Some(Entry(i, s.log[i], ()))
  {
    hide Settled, ThreadInv, CallsInv;
    SettledIsReplayed(tag, s);
    assert forall i :: Live(s.board, i) ==> s.board[i].value.id == i;
  }

  // ---------- what Linux caches ----------

  /** Every id of Linux stands for the registration that the board's log says, with either tag. */
  lemma LinuxKnows(r: Run, i: nat)
    requires Legal(r) && i < |End(r).linux|
    ensures var s, known := End(r), Known(r.tag, End(r).log);
            i < |known| <= |s.log|
            && (Live(s.linux, i) ==> s.linux[i].value.id == i && s.linux[i].value.info == known[i])
  {
    hide Known, BoardInv, ThreadInv, CallsInv, CrashInv;
    InvAlways(r);
    HandledIsKnown(r.tag, End(r), i);
    RegistrationOfId(Handled(End(r)), i);
  }

  /**
   * Linux never compares the kind of a result packet with the type of the lambda. The union member last written is
   * always the one of the board's registration with that id; so it is the one of the type Linux reads it with
   * exactly if the registration that Linux has under the id is of the same type.
   */
  lemma UnionTypeExactly(r: Run, i: nat)
    requires Legal(r) && Live(End(r).linux, i)
    ensures var s, known, e := End(r), Known(r.tag, End(r).log), End(r).linux[i].value;
            i < |known| <= |s.log| && e.id == i && e.info == known[i]
            && (e.arg.cached ==>
                  e.arg.ret.Some? && TypeOf(e.arg.ret.value) == s.log[i].ltype
                  && (TypeOf(e.arg.ret.value) == e.info.ltype <==> s.log[i].ltype == known[i].ltype))
  {
    hide Known, Mirrors, BoardHistory, AlwaysAgrees, ThreadInv, CallsInv, CrashInv, Replayed, Ntoh, Hton;
    InvAlways(r);
    LinuxKnows(r, i);
    var s := End(r);
    var w, cell := Handled(s), s.linux[i].value.arg;
    Provenance(w, i);
    if cell.cached {
      var k: nat :| AssignedAt(w, i) < k && IsLatestResult(w, i, k) && cell.ret == Some(Ntoh(w[k].payload));
      assert PacketFits(s.wire[k], r.tag, s.log);
      NtohKeepsType(s.wire[k].payload);
    }
  }

  lemma NtohKeepsType(v: Value)
    ensures TypeOf(Ntoh(v)) == TypeOf(v)
  {
  }

  /** Where ids agree, the two registrations are the same one. */
  lemma UnionTypeSafety(r: Run, i: nat)
    requires Legal(r) && Live(End(r).linux, i) && Faithful(r.tag, End(r).log)
    ensures var s := End(r);
            i < |s.log| && s.linux[i].value.id == i && s.linux[i].value.info == s.log[i]
    ensures var c := End(r).linux[i].value.arg;
            c.cached ==> c.ret.Some? && TypeOf(c.ret.value) == End(r).linux[i].value.info.ltype
  {
    UnionTypeExactly(r, i);
    FaithfulIsKnown(r.tag, End(r).log);
  }

  /** The packet was made from a value of the board's; whichever it was, the value got is that one up to the wire. */
  ghost predicate Carries(p: BoardPacket, got: Value) {
    && p.Result?
    && (exists v: Payload :: p.payload == Hton(v))
    && (forall v: Payload :: p.payload == Hton(v) ==> Arrived(v, got))
  }

  /** A value read from the latest result that Linux has handled for the lambda since its registration. */
  ghost predicate Genuine(s: State, id: nat, result: Option<Value>)
    requires LinuxInv(s)
  {
    && Live(s.linux, id)
    && result.Some?
    && exists k: nat ::
         AssignedAt(Handled(s), id) < k && IsLatestResult(Handled(s), id, k) && Carries(s.wire[k], result.value)
         && result.value == Ntoh(s.wire[k].payload)
  }

  lemma CachedIsGenuine(tag: Tag, s: State, id: nat)
    requires Inv(tag, s) && Live(s.linux, id)
    ensures s.linux[id].value.arg.cached ==> Genuine(s, id, s.linux[id].value.arg.ret)
    ensures !s.linux[id].value.arg.cached ==> s.linux[id].value.arg.ret == None
  {
    hide Mirrors, AlwaysAgrees, BoardHistory, Arrived, Hton, Ntoh, CallFits, Replayed;
    var w, cell := Handled(s), s.linux[id].value.arg;
    Provenance(w, id);
    if cell.cached {
      var k: nat :| AssignedAt(w, id) < k && IsLatestResult(w, id, k) && cell.ret == Some(Ntoh(w[k].payload));
      assert PacketFits(s.wire[k], tag, s.log);
      forall v: Payload | s.wire[k].payload == Hton(v)
        ensures Arrived(v, Ntoh(s.wire[k].payload))
      {
        NtohOfHton(v);
      }
      assert Carries(s.wire[k], Ntoh(s.wire[k].payload));
    }
  }

  /** Among the packets from one place up to another there is a result for the lambda. */
  ghost predicate ResultWithin(w: Wire, id: nat, from: nat, until: nat) {
    exists k: nat :: from <= k < until && k < |w| && IsResultFor(w[k], id)
  }

  ghost predicate ResultSince(w: Wire, id: nat, since: nat) {
    ResultWithin(w, id, since, |w|)
  }

  /** A value that came with the latest result, at or after that place. */
  ghost predicate Fresh(s: State, id: nat, since: nat, result: Option<Value>)
    requires LinuxInv(s)
  {
    exists k: nat ::
      since <= k && IsLatestResult(Handled(s), id, k) && result == Some(Ntoh(s.wire[k].payload))
  }

  lemma GenuineIsFresh(s: State, id: nat, since: nat, result: Option<Value>)
    requires LinuxInv(s) && Genuine(s, id, result)
    ensures Fresh(s, id, since, result) <==> ResultSince(Handled(s), id, since)
  {
    hide Replayed, Ntoh, Carries;
    var w := Handled(s);
    var k: nat :| AssignedAt(w, id) < k && IsLatestResult(w, id, k) && result.value == Ntoh(s.wire[k].payload);
    assert IsResultFor(w[k], id);
  }

  /** A result handled since a call was sent is cached. */
  lemma SinceIsCached(w: Wire, id: nat, since: nat)
    requires CallSent(w, id, since) && ResultSince(w, id, since)
    ensures Replayed(w)[id].value.arg.cached
  {
    hide Replayed;
    Provenance(w, id);
  }

  /**
   * A call answered from the cache returns a genuine value of the lambda it asked for, which has the type asked for;
   * where ids agree the value is of that type too.
   */
  lemma ValueFromCheck(r: Run, t: nat)
    requires Legal(r) && Enabled(End(r), Check(t))
    ensures var s := End(r);
            var v := CheckCall(s.linux, s.threads[t].req);
            LinuxInv(s)
            && (v.Done? && v.code == RS_CALL_CACHE ==>
                  var e := Lookup(s.linux, s.threads[t].req);
                  e.Some? && ById(s.linux, e.value.id) == e && Genuine(s, e.value.id, v.result)
                  && e.value.info.ltype == s.threads[t].req.expected
                  && (Faithful(r.tag, s.log) ==> TypeOf(v.result.value) == s.threads[t].req.expected))
            && Next(r.tag, s, Check(t)).threads[t] ==
               if v.Done? then Returned(v.code, v.result) else Cleared(s.threads[t].req, v.id)
  {
    hide Genuine, BoardInv, ThreadInv, CallsInv, Replayed;
    var s := End(r);
    InvAlways(r);
    LookupFinds(Handled(s), s.threads[t].req);
    var e := Lookup(s.linux, s.threads[t].req);
    if e.Some? {
      CachedIsGenuineInRun(r, e.value.id);
      if Faithful(r.tag, s.log) {
        UnionTypeSafety(r, e.value.id);
      }
    }
  }

  /**
   * A wait times out exactly if no reply for the lambda was handled while it lasted, and else it ends with the first
   * one. So after a timeout, a result handled since the call came before the wait began, or after it had ended.
   */
  lemma WaitEndsExactly(r: Run, t: nat)
    requires Legal(r) && t < |End(r).threads| && (End(r).threads[t].Woken? || End(r).threads[t].Resumed?)
    ensures var s := End(r);
            var w, th := Handled(s), s.threads[t];
            LinuxInv(s) && th.since <= th.from <= th.until <= |w|
            && (th.why.TimedOut? <==> !Replied(w, th.id, th.from, th.until))
            && (!th.why.TimedOut? ==>
                  th.from < th.until && !Replied(w, th.id, th.from, th.until - 1)
                  && IsReplyFor(w[th.until - 1], th.id) && (th.why.ByResult? <==> w[th.until - 1].Result?))
            && (th.why.TimedOut? ==>
                  (ResultSince(w, th.id, th.since) <==>
                   ResultWithin(w, th.id, th.since, th.from) || ResultWithin(w, th.id, th.until, |w|)))
  {
    hide End, Legal, LinuxInv, ThreadFits, Handled, Replied, ResultSince, ResultWithin, IsReplyFor;
    ThreadFitsInRun(r, t);
    WaitAsRecorded(Handled(End(r)), End(r).threads[t]);
  }

  lemma ThreadFitsInRun(r: Run, t: nat)
    requires Legal(r) && t < |End(r).threads|
    ensures LinuxInv(End(r)) && ThreadFits(Handled(End(r)), End(r).threads[t])
  {
    hide BoardInv, LinuxInv, CallsInv, CrashInv, ThreadFits;
    InvAlways(r);
  }

  lemma WaitAsRecorded(w: Wire, th: Thread)
    requires ThreadFits(w, th) && (th.Woken? || th.Resumed?)
    ensures th.since <= th.from <= th.until <= |w|
            && (th.why.TimedOut? <==> !Replied(w, th.id, th.from, th.until))
            && (!th.why.TimedOut? ==>
                  th.from < th.until && !Replied(w, th.id, th.from, th.until - 1)
                  && IsReplyFor(w[th.until - 1], th.id) && (th.why.ByResult? <==> w[th.until - 1].Result?))
            && (th.why.TimedOut? ==>
                  (ResultSince(w, th.id, th.since) <==>
                   ResultWithin(w, th.id, th.since, th.from) || ResultWithin(w, th.id, th.until, |w|)))
  {
    hide CallSent, Replied, ResultSince, ResultWithin, IsReplyFor;
    if th.why.TimedOut? {
      MissedResult(w, th.id, th.since, th.from, th.until);
    } else {
      ReplyThere(w, th.id, th.from, th.until);
    }
  }

  lemma ReplyThere(w: Wire, id: nat, from: nat, until: nat)
    requires from < until <= |w| && IsReplyFor(w[until - 1], id)
    ensures Replied(w, id, from, until)
  {
  }

  lemma MissedResult(w: Wire, id: nat, since: nat, from: nat, until: nat)
    requires since <= from <= until <= |w| && !Replied(w, id, from, until)
    ensures ResultSince(w, id, since) <==> ResultWithin(w, id, since, from) || ResultWithin(w, id, until, |w|)
  {
    if ResultSince(w, id, since) {
      var k: nat :| since <= k < |w| && IsResultFor(w[k], id);
      assert IsReplyFor(w[k], id);
    }
  }

  /**
   * What a call returns after waiting. A value from the cache is genuine. RS_CALL_SUCCESS comes with a value
   * exactly if one is cached by then, and then it is genuine. What comes with either code is newer than the call
   * packet exactly if Linux has handled a result since, as it has whenever a result ended the wait. Of the negative
   * codes, RS_CALL_CACHE_TIMEOUT_EMPTY says that it has not.
   */
  lemma ValueFromWait(r: Run, t: nat)
    requires Legal(r) && Enabled(End(r), Event.Finish(t))
    ensures var s := End(r);
            var th := s.threads[t];
            var f := FinishOf(s, th.id, th.why);
            LinuxInv(s) && Live(s.linux, th.id)
            && Next(r.tag, s, Event.Finish(t)).threads[t] == Returned(f.code, f.result)
            && (f.code == RS_CALL_CACHE_TIMEOUT ==> th.why.TimedOut? && Genuine(s, th.id, f.result))
            && (f.code == RS_CALL_SUCCESS <==> !th.why.TimedOut?)
            && (f.code == RS_CALL_SUCCESS ==>
                  (f.result.Some? <==> s.linux[th.id].value.arg.cached)
                  && (f.result.Some? ==> Genuine(s, th.id, f.result))
                  && (th.why.ByResult? ==> f.result.Some?))
            && (f.code < 0 ==> th.why.TimedOut? && f.result == None)
            && (th.why.ByResult? ==> ResultSince(Handled(s), th.id, th.since))
            && (f.code >= 0 ==>
                  (Fresh(s, th.id, th.since, f.result) <==> ResultSince(Handled(s), th.id, th.since)))
            && (f.code == RS_CALL_CACHE_TIMEOUT_EMPTY && s.errs[th.id] == Some(0) ==>
                  !ResultSince(Handled(s), th.id, th.since))
  {
    hide Genuine, Fresh, BoardInv, CallFits, CallsInv, CrashInv, Replayed, Replied, ResultSince;
    var s := End(r);
    InvAlways(r);
    var th := s.threads[t];
    assert ThreadFits(Handled(s), th);
    CachedIsGenuineInRun(r, th.id);
    if ResultSince(Handled(s), th.id, th.since) {
      SinceIsCached(Handled(s), th.id, th.since);
    }
    if th.why.ByResult? {
      EndedByResult(Handled(s), th);
    }
    var ret := s.linux[th.id].value.arg.ret;
    if ret.Some? {
      GenuineIsFresh(s, th.id, th.since, ret);
    } else {
      NothingIsFresh(s, th.id, th.since);
    }
  }

  /** What a call returns after a timeout, in every case. */
  lemma TimeoutExactly(r: Run, t: nat)
    requires Legal(r) && Enabled(End(r), Event.Finish(t)) && End(r).threads[t].why.TimedOut?
    ensures var s := End(r);
            var id := s.threads[t].id;
            var f := FinishOf(s, id, TimedOut);
            LinuxInv(s) && Live(s.linux, id) && s.errs[id].Some?
            && EndsLate(Handled(s), id, s.errs[id].value, f.code, f.result)
  {
    hide BoardInv, CallFits, CallsInv, CrashInv, Replayed, Connector.Finish, EndsLate;
    var s := End(r);
    InvAlways(r);
    var th := s.threads[t];
    assert ThreadFits(Handled(s), th);
    EndDecision(Handled(s), th.id, s.errs[th.id].value, true);
  }

  lemma EndedByResult(w: Wire, th: Thread)
    requires th.Resumed? && ThreadFits(w, th) && th.why.ByResult?
    ensures ResultSince(w, th.id, th.since)
  {
    hide Replied, Callable;
    assert IsResultFor(w[th.until - 1], th.id);
  }

  lemma NothingIsFresh(s: State, id: nat, since: nat)
    requires LinuxInv(s)
    ensures !Fresh(s, id, since, None)
  {
  }

  lemma CachedIsGenuineInRun(r: Run, id: nat)
    requires Legal(r) && LinuxInv(End(r)) && Live(End(r).linux, id)
    ensures End(r).linux[id].value.arg.cached ==>
              End(r).linux[id].value.arg.ret.Some? && Genuine(End(r), id, End(r).linux[id].value.arg.ret)
    ensures !End(r).linux[id].value.arg.cached ==> End(r).linux[id].value.arg.ret == None
  {
    hide Inv;
    InvAlways(r);
    CachedIsGenuine(r.tag, End(r), id);
  }

  /** Where ids agree, the packet that a genuine value came from names and types the lambda it is read for. */
  lemma ResultIsForTheLambda(r: Run, id: nat, k: nat)
    requires Legal(r) && LinuxInv(End(r)) && Faithful(r.tag, End(r).log)
    requires Live(End(r).linux, id) && IsLatestResult(Handled(End(r)), id, k)
    ensures var p, info := End(r).wire[k], End(r).linux[id].value.info;
            p.name == info.name && TypeOf(p.payload) == info.ltype
  {
    InvAlways(r);
    UnionTypeSafety(r, id);
    assert PacketFits(End(r).wire[k], r.tag, End(r).log);
  }

  // ---------- null functions ----------

  /**
   * Whatever the tag and the names: if the board invokes a null function, Linux knows a lambda with a function and
   * the board an RS_CACHE_ONLY one of the same type, which a call by id or by name takes for the other.
   */
  lemma NullCallNeedsPair(r: Run)
    requires Legal(r) && End(r).crash.Some?
    ensures exists i, j :: NullCall(Known(r.tag, End(r).log), End(r).log, End(r).crash.value, i, j)
  {
    hide BoardInv, LinuxInv, ThreadInv, CallsInv, NullCall, Known;
    InvAlways(r);
  }

  /**
   * So a call by id never makes the board invoke a null function while Linux and the board agree on ids; no call
   * at all does while no name has been registered twice.
   */
  lemma NoNullCallback(r: Run)
    requires Legal(r)
    ensures Faithful(r.tag, End(r).log) ==> End(r).crash.None? || End(r).crash.value.CallByName?
    ensures DistinctNames(End(r).log) ==> End(r).crash.None?
  {
    hide NullCall, Known, DistinctNames;
    if End(r).crash.Some? {
      var s := End(r);
      NullCallNeedsPair(r);
      var i, j :| NullCall(Known(r.tag, s.log), s.log, s.crash.value, i, j);
      if Faithful(r.tag, s.log) && (s.crash.value.CallByName? ==> DistinctNames(s.log)) {
        NoNullCallWhereFaithful(r.tag, s.log, s.crash.value, i, j);
      }
    }
  }

  // ---------- silence on the wire ----------

  /** No call is ever sent for an RS_CACHE_ONLY lambda, and every call packet names and types its lambda correctly. */
  lemma NoCallForCacheOnly(r: Run, k: nat)
    requires Legal(r) && k < |End(r).calls|
    ensures LinuxInv(End(r)) && CallFits(Handled(End(r)), End(r).calls[k])
  {
    InvAlways(r);
  }

  function Extended(r: Run, more: seq<Event>): Run {
    r.(events := r.events + more)
  }

  /** A thread whose check has found that it has to call this lambda, and that has not sent the packet yet. */
  predicate SomeoneCleared(s: State, id: nat) {
    exists t :: 0 <= t < |s.threads| && s.threads[t].Cleared? && s.threads[t].id == id
  }

  /** A registered RS_CACHE_CALL_ONCE lambda with a cached result. */
  predicate CalledOnce(s: State, id: nat) {
    Live(s.linux, id) && s.linux[id].value.info.cache == RS_CACHE_CALL_ONCE && s.linux[id].value.arg.cached
  }

  predicate CalledSince(before: State, after: State, id: nat) {
    exists k :: |before.calls| <= k < |after.calls| && after.calls[k].id == id
  }

  /** One packet does not clear a thread for such a lambda, and does not uncache it. */
  lemma SilentReceive(tag: Tag, s: State, id: nat)
    requires Enabled(s, Receive) && Live(Next(tag, s, Receive).linux, id)
    requires CalledOnce(s, id) && !SomeoneCleared(s, id)
    ensures var s' := Next(tag, s, Receive);
            CalledOnce(s', id) && !SomeoneCleared(s', id) && s'.calls == s.calls
  {
    hide HandlePacket, HandleErrors;
    var s' := Next(tag, s, Receive);
    HandleStep(s.linux, s.wire[s.read]);
    CellAfterPacket(s.linux, s.wire[s.read], id);
    assert forall t :: 0 <= t < |s.threads| && s'.threads[t].Cleared? ==> s'.threads[t] == s.threads[t];
  }

  /** Neither does a cache check. */
  lemma SilentCheck(tag: Tag, s: State, t: nat, id: nat)
    requires Inv(tag, s) && Enabled(s, Check(t))
    requires CalledOnce(s, id) && !SomeoneCleared(s, id)
    ensures !SomeoneCleared(Next(tag, s, Check(t)), id)
  {
    hide BoardInv, ThreadInv, CallsInv, Replayed;
    var s' := Next(tag, s, Check(t));
    LookupFinds(Handled(s), s.threads[t].req);
    assert forall u :: 0 <= u < |s.threads| && u != t ==> s'.threads[u] == s.threads[u];
  }

  /** One step does not clear a thread for such a lambda, does not send for it, and does not uncache it. */
  lemma SilentStep(tag: Tag, s: State, ev: Event, id: nat)
    requires Inv(tag, s) && Enabled(s, ev) && Live(Next(tag, s, ev).linux, id)
    requires CalledOnce(s, id) && !SomeoneCleared(s, id)
    ensures var s' := Next(tag, s, ev);
            CalledOnce(s', id) && !SomeoneCleared(s', id)
            && s.calls <= s'.calls && !CalledSince(s, s', id)
  {
    hide Inv, HandlePacket, HandleErrors, CheckCall, FinishOf, RegisterOutcome, UnregisterOutcome, SendOutcome, Handle;
    var s' := Next(tag, s, ev);
    if ev.Receive? {
      SilentReceive(tag, s, id);
    } else if ev.Check? {
      SilentCheck(tag, s, ev.t, id);
    } else if ev.Call? || ev.Lock? || ev.SendCall? || ev.Wait? || ev.TimeOut? || ev.Relock? || ev.Finish? {
      assert forall t :: 0 <= t < |s.threads| && t != ev.t ==> s'.threads[t] == s.threads[t];
    }
  }

  /** Ids are not reused: what is live after a step and had an id before was live before. */
  lemma LiveBefore(tag: Tag, s: State, ev: Event, id: nat)
    requires Enabled(s, ev)
    ensures |s.linux| <= |Next(tag, s, ev).linux|
    ensures Live(Next(tag, s, ev).linux, id) && id < |s.linux| ==> Live(s.linux, id)
  {
    if ev.Receive? {
      HandleStep(s.linux, s.wire[s.read]);
    }
  }

  lemma LegalPrefix(r: Run, more: seq<Event>)
    requires more != []
    ensures Shorter(Extended(r, more)) == Extended(r, more[..|more| - 1])
  {
  }

  lemma {:induction false} TableGrows(r: Run, more: seq<Event>)
    requires Legal(r) && Legal(Extended(r, more))
    ensures |End(r).linux| <= |End(Extended(r, more)).linux|
    decreases |more|
  {
    hide Next, Enabled;
    var x := Extended(r, more);
    if more == [] {
      assert x == r;
    } else {
      LegalPrefix(r, more);
      TableGrows(r, more[..|more| - 1]);
      LiveBefore(r.tag, End(Shorter(x)), LastEvent(x), 0);
    }
  }

  /** While it stays registered, such a lambda keeps its value, and no call is sent for it. */
  lemma {:induction false} SilentRun(r: Run, more: seq<Event>, id: nat)
    requires Legal(r) && Legal(Extended(r, more))
    requires CalledOnce(End(r), id) && !SomeoneCleared(End(r), id) && Live(End(Extended(r, more)).linux, id)
    ensures var s, s' := End(r), End(Extended(r, more));
            CalledOnce(s', id) && !SomeoneCleared(s', id) && s.calls <= s'.calls && !CalledSince(s, s', id)
    decreases |more|
  {
    hide Inv, Next, Enabled, CalledOnce, SomeoneCleared;
    var x := Extended(r, more);
    if more == [] {
      assert x == r;
    } else {
      var fewer := more[..|more| - 1];
      LegalPrefix(r, more);
      InvAlways(Shorter(x));
      TableGrows(r, fewer);
      HasId(End(r), id);
      LiveBefore(r.tag, End(Shorter(x)), LastEvent(x), id);
      SilentRun(r, fewer, id);
      SilentStep(r.tag, End(Shorter(x)), LastEvent(x), id);
    }
  }

  lemma HasId(s: State, id: nat)
    requires CalledOnce(s, id)
    ensures id < |s.linux|
  {
  }

  /** Some continuation of the run sends a call for the lambda while it stays registered. */
  ghost predicate MayStillBeCalled(r: Run, id: nat)
    requires Legal(r)
  {
    exists more: seq<Event> ::
      Legal(Extended(r, more)) && Live(End(Extended(r, more)).linux, id)
      && CalledSince(End(r), End(Extended(r, more)), id)
  }

  /**
   * Once an RS_CACHE_CALL_ONCE lambda has a cached result, it is called again exactly if, at that moment, a thread
   * is between its cache check and its send.
   */
  lemma CallOnceExactly(r: Run, id: nat)
    requires Legal(r) && CalledOnce(End(r), id)
    ensures MayStillBeCalled(r, id) <==> SomeoneCleared(End(r), id)
  {
    var s := End(r);
    if SomeoneCleared(s, id) {
      var t :| 0 <= t < |s.threads| && s.threads[t].Cleared? && s.threads[t].id == id;
      var x := Extended(r, [SendCall(t)]);
      assert Shorter(x) == r && LastEvent(x) == SendCall(t);
      assert Legal(x);
      assert End(x).calls[|s.calls|].id == id;
      assert CalledSince(s, End(x), id);
    } else if MayStillBeCalled(r, id) {
      var more: seq<Event> :|
        Legal(Extended(r, more)) && Live(End(Extended(r, more)).linux, id)
        && CalledSince(End(r), End(Extended(r, more)), id);
      SilentRun(r, more, id);
    }
  }

  function CallsFor(calls: seq<CallRecord>, id: nat): nat {
    if calls == [] then 0
    else CallsFor(calls[..|calls| - 1], id) + if calls[|calls| - 1].id == id then 1 else 0
  }

  /** The calls sent for the lambda, and the one that is on its way if a thread is cleared. */
  function CallsAndCleared(s: State, id: nat): nat {
    CallsFor(s.calls, id) + if SomeoneCleared(s, id) then 1 else 0
  }

  lemma CalledOnceStays(tag: Tag, s: State, ev: Event, id: nat)
    requires Enabled(s, ev) && CalledOnce(s, id) && Live(Next(tag, s, ev).linux, id)
    ensures CalledOnce(Next(tag, s, ev), id)
  {
    hide HandlePacket, HandleErrors;
    if ev.Receive? {
      HandleStep(s.linux, s.wire[s.read]);
      CellAfterPacket(s.linux, s.wire[s.read], id);
    }
  }

  /** While one thread is cleared it owns the mutex: the only call that can be sent is its own. */
  lemma OnlyItsOwnCall(tag: Tag, s: State, t: nat, u: nat, id: nat)
    requires ThreadInv(s) && Enabled(s, SendCall(t))
    requires u < |s.threads| && s.threads[u].Cleared? && s.threads[u].id == id
    ensures !SomeoneCleared(Next(tag, s, SendCall(t)), id)
    ensures CallsFor(Next(tag, s, SendCall(t)).calls, id) == CallsFor(s.calls, id) + 1
  {
    hide ThreadFits;
    var s' := Next(tag, s, SendCall(t));
    assert t == u && s'.calls[..|s.calls|] == s.calls;
    assert forall v :: 0 <= v < |s.threads| && v != t ==> s'.threads[v] == s.threads[v];
  }

  lemma ClearedStep(tag: Tag, s: State, ev: Event, id: nat)
    requires Inv(tag, s) && Enabled(s, ev) && SomeoneCleared(s, id)
    ensures CallsAndCleared(Next(tag, s, ev), id) <= CallsAndCleared(s, id)
  {
    if ev.SendCall? {
      var u :| 0 <= u < |s.threads| && s.threads[u].Cleared? && s.threads[u].id == id;
      OnlyItsOwnCall(tag, s, ev.t, u, id);
    } else {
      CallsAreSent(tag, s, ev);
    }
  }

  lemma CallsAreSent(tag: Tag, s: State, ev: Event)
    requires Enabled(s, ev) && !ev.SendCall?
    ensures Next(tag, s, ev).calls == s.calls
  {
  }

  lemma OneStepMore(tag: Tag, s: State, ev: Event, id: nat)
    requires Inv(tag, s) && Enabled(s, ev) && CalledOnce(s, id) && Live(Next(tag, s, ev).linux, id)
    ensures CallsAndCleared(Next(tag, s, ev), id) <= CallsAndCleared(s, id)
  {
    hide Inv, Next, Enabled, CalledOnce, SomeoneCleared;
    if SomeoneCleared(s, id) {
      ClearedStep(tag, s, ev, id);
    } else {
      SilentStep(tag, s, ev, id);
      NoneCalledSince(s.calls, Next(tag, s, ev).calls, id);
    }
  }

  lemma {:induction false} NoneCalledSince(before: seq<CallRecord>, after: seq<CallRecord>, id: nat)
    requires before <= after && forall k :: |before| <= k < |after| ==> after[k].id != id
    ensures CallsFor(after, id) == CallsFor(before, id)
    decreases |after|
  {
    if |before| < |after| {
      NoneCalledSince(before, after[..|after| - 1], id);
    } else {
      assert before == after;
    }
  }

  /** While the lambda stays registered it is called at most once more, and only if there is such a thread. */
  lemma {:induction false} CalledAtMostOnceMore(r: Run, more: seq<Event>, id: nat)
    requires Legal(r) && Legal(Extended(r, more))
    requires CalledOnce(End(r), id) && Live(End(Extended(r, more)).linux, id)
    ensures CalledOnce(End(Extended(r, more)), id)
    ensures CallsFor(End(Extended(r, more)).calls, id)
            <= CallsFor(End(r).calls, id) + if SomeoneCleared(End(r), id) then 1 else 0
    ensures CallsAndCleared(End(Extended(r, more)), id) <= CallsAndCleared(End(r), id)
    decreases |more|
  {
    hide Inv, Next, Enabled, CalledOnce, SomeoneCleared;
    var x := Extended(r, more);
    if more == [] {
      assert x == r;
    } else {
      var fewer := more[..|more| - 1];
      LegalPrefix(r, more);
      InvAlways(Shorter(x));
      TableGrows(r, fewer);
      HasId(End(r), id);
      LiveBefore(r.tag, End(Shorter(x)), LastEvent(x), id);
      CalledAtMostOnceMore(r, fewer, id);
      OneStepMore(r.tag, End(Shorter(x)), LastEvent(x), id);
      CalledOnceStays(r.tag, End(Shorter(x)), LastEvent(x), id);
    }
  }

  /** What is cached for a lambda that stays registered stays cached, whatever its policy. */
  lemma CachedStays(r: Run, ev: Event, id: nat)
    requires Legal(r) && Enabled(End(r), ev)
    requires Live(End(r).linux, id) && Live(Next(r.tag, End(r), ev).linux, id)
    ensures End(r).linux[id].value.arg.cached ==> Next(r.tag, End(r), ev).linux[id].value.arg.cached
  {
    hide HandlePacket;
    if ev.Receive? {
      CellAfterPacket(End(r).linux, End(r).wire[End(r).read], id);
    }
  }

  // ---------- replies ----------

  function Replies(w: Wire): nat {
    if w == [] then 0 else Replies(Init(w)) + if IsReply(Last(w)) then 1 else 0
  }

  /** What a step owes Linux: one reply for a call with an addressee, one result for a successful manual send. */
  function Owed(s: State, ev: Event): nat
    requires Enabled(s, ev)
  {
    match ev
    case Answer(answer) =>
      var c := s.calls[s.taken].packet;
      if Handle(s.board, c, answer).Reply? && Addressee(s.board, c).Some? then 1 else 0
    case SendResult(id, v) => if SendOutcome(s.board, id, v).code == RS_RESULT_SUCCESS then 1 else 0
    case _ => 0
  }

  function AllOwed(r: Run): nat
    requires Legal(r)
    decreases |r.events|
  {
    if r.events == [] then 0 else AllOwed(Shorter(r)) + Owed(End(Shorter(r)), LastEvent(r))
  }

  lemma RepliesOneMore(w: Wire, out: seq<BoardPacket>)
    requires |out| <= 1
    ensures Replies(w + out) == Replies(w) + if out != [] && IsReply(out[0]) then 1 else 0
  {
    if out == [] {
      assert w + out == w;
    } else {
      assert Init(w + out) == w && Last(w + out) == out[0];
    }
  }

  lemma RegistryPacketsAreNoReplies(tag: Tag, b: BoardTable, w: Wire, info: Info, hasFn: bool, id: Byte)
    ensures Replies(w + RegisterOutcome(b, info, hasFn).out) == Replies(w)
    ensures Replies(w + UnregisterOutcome(tag, b, id).out) == Replies(w)
  {
    hide Replies, Registering, Unregistering;
    RepliesOneMore(w, RegisterOutcome(b, info, hasFn).out);
    RepliesOneMore(w, UnregisterOutcome(tag, b, id).out);
  }

  lemma RepliesOfSend(b: BoardTable, w: Wire, id: Byte, v: Payload)
    ensures Replies(w + SendOutcome(b, id, v).out)
            == Replies(w) + if SendOutcome(b, id, v).code == RS_RESULT_SUCCESS then 1 else 0
  {
    hide Hton;
    RepliesOneMore(w, SendOutcome(b, id, v).out);
  }

  lemma BoardIsWellFormed(tag: Tag, s: State)
    requires Inv(tag, s)
    ensures WellFormed(s.board)
  {
  }

  lemma RepliesOfStep(tag: Tag, s: State, ev: Event)
    requires WellFormed(s.board) && Enabled(s, ev)
    ensures Replies(Next(tag, s, ev).wire) == Replies(s.wire) + Owed(s, ev)
  {
    hide WellFormed, Replies, HandlePacket, HandleErrors, CheckCall, FinishOf, Handle,
         RegisterOutcome, UnregisterOutcome, SendOutcome;
    match ev {
      case Register(info, hasFn) => RegistryPacketsAreNoReplies(tag, s.board, s.wire, info, hasFn, 0);
      case Unregister(id) => RegistryPacketsAreNoReplies(tag, s.board, s.wire, Info("", 0, 0), true, id);
      case SendResult(id, v) => RepliesOfSend(s.board, s.wire, id, v);
      case Answer(answer) =>
        var c := s.calls[s.taken].packet;
        if Handle(s.board, c, answer).Reply? {
          OneReplyPerCall(s.board, c, answer);
          RepliesOneMore(s.wire, Handle(s.board, c, answer).out);
        }
      case _ =>
    }
  }

  /** Over a whole run the board sends exactly the replies it owes: none is lost, doubled or made up. */
  lemma {:induction false} ReplyConservation(r: Run)
    requires Legal(r)
    ensures Replies(End(r).wire) == AllOwed(r)
    decreases |r.events|
  {
    hide Inv, Next, Enabled, Owed;
    if r.events != [] {
      ReplyConservation(Shorter(r));
      InvAlways(Shorter(r));
      BoardIsWellFormed(r.tag, End(Shorter(r)));
      RepliesOfStep(r.tag, End(Shorter(r)), LastEvent(r));
    }
  }

  // ---------- the mutex ----------

  function Acquires(ev: Event, t: nat): nat {
    if ev == Lock(t) || ev == Relock(t) then 1 else 0
  }

  /** The mutex is released by going to wait, and on every way out of a call. */
  function Releases(s: State, ev: Event, t: nat): nat
    requires Enabled(s, ev)
  {
    if ev == Event.Wait(t) || ev == Event.Finish(t) then 1
    else if ev == Check(t) && CheckCall(s.linux, s.threads[t].req).Done? then 1
    else 0
  }

  function AllAcquired(r: Run, t: nat): nat
    decreases |r.events|
  {
    if r.events == [] then 0 else AllAcquired(Shorter(r), t) + Acquires(LastEvent(r), t)
  }

  function AllReleased(r: Run, t: nat): nat
    requires Legal(r)
    decreases |r.events|
  {
    if r.events == [] then 0 else AllReleased(Shorter(r), t) + Releases(End(Shorter(r)), LastEvent(r), t)
  }

  /** At most one thread owns the mutex; it is free exactly if no thread is in a critical section. */
  lemma MutualExclusion(r: Run, t: nat, u: nat)
    requires Legal(r) && t < |End(r).threads| && u < |End(r).threads|
    ensures Owns(End(r).threads[t]) && Owns(End(r).threads[u]) ==> t == u
    ensures End(r).owner.None? <==> forall v :: 0 <= v < |End(r).threads| ==> !Owns(End(r).threads[v])
  {
    hide ThreadFits;
    InvAlways(r);
  }

  lemma LocksOfStep(tag: Tag, s: State, ev: Event, t: nat)
    requires Inv(tag, s) && Enabled(s, ev) && t < |s.threads|
    ensures var s' := Next(tag, s, ev);
            |s'.threads| == |s.threads|
            && Acquires(ev, t) + (if Owns(s.threads[t]) then 1 else 0)
               == Releases(s, ev, t) + (if Owns(s'.threads[t]) then 1 else 0)
  {
    hide BoardInv, LinuxInv, CallsInv, ThreadFits, HandlePacket, CheckCall, FinishOf, Handle,
         RegisterOutcome, UnregisterOutcome, SendOutcome;
  }

  /** Every acquisition is undone once: outside its critical sections, so after every call, a thread is even. */
  lemma {:induction false} LocksBalance(r: Run, t: nat)
    requires Legal(r) && t < r.n
    ensures |End(r).threads| == r.n
    ensures AllAcquired(r, t) == AllReleased(r, t) + if Owns(End(r).threads[t]) then 1 else 0
    decreases |r.events|
  {
    hide Inv, Next, Enabled, Owns, Acquires, Releases;
    if r.events == [] {
      StartOwnsNothing(r.n, t);
    } else {
      LocksBalance(Shorter(r), t);
      InvAlways(Shorter(r));
      LocksOfStep(r.tag, End(Shorter(r)), LastEvent(r), t);
    }
  }

  lemma StartOwnsNothing(n: nat, t: nat)
    requires t < n
    ensures !Owns(Start(n).threads[t])
  {
  }

  // ---------- error packets ----------

  /**
   * A call of the lambda that Linux has under i is answered with an error for the id a, while Linux has a lambda
   * there: with the coded tag, any call can be; with the intended tag, a is a later registration of the same name
   * and another type.
   */
  predicate Causes(tag: Tag, known: Log, i: nat, a: nat) {
    && i < |known| && a < |known|
    && known[i].cache != RS_CACHE_ONLY && ValidType(known[i].ltype)
    && (tag.Intended? ==> i < a && known[i].name == known[a].name && known[i].ltype != known[a].ltype)
  }

  /** A thread can be waiting for the lambda under a then. */
  predicate Misleads(tag: Tag, known: Log, i: nat, a: nat) {
    Causes(tag, known, i, a) && known[a].cache != RS_CACHE_ONLY
  }

  ghost predicate HasCause(tag: Tag, known: Log, a: nat) {
    exists i :: Causes(tag, known, i, a)
  }

  /** Every error packet that finds a lambda when it reaches Linux has a cause. */
  ghost predicate ErrorsHaveCause(tag: Tag, known: Log, w: Wire) {
    forall k :: 0 <= k < |w| && w[k].ResultError? && Live(Replayed(w[..k]), w[k].id) ==> HasCause(tag, known, w[k].id)
  }

  predicate WokenByError(th: Thread) {
    (th.Woken? || th.Resumed?) && th.why.ByError?
  }

  ghost predicate ErrorInv(tag: Tag, s: State) {
    var known := Known(tag, s.log);
    && ErrorsHaveCause(tag, known, s.wire)
    && ((exists t :: 0 <= t < |s.threads| && WokenByError(s.threads[t])) ==> exists i, a :: Misleads(tag, known, i, a))
  }

  lemma KnownGrows(tag: Tag, log: Log, info: Info)
    ensures Known(tag, log) <= Known(tag, log + [info])
  {
    var p, more := Prefix(log), Prefix(log + [info]);
    if |log| < ANNOUNCED {
      assert more[..|more| - 1] == p;
    } else {
      assert more == p;
    }
  }

  lemma CausesStay(tag: Tag, known: Log, more: Log)
    requires known <= more
    ensures forall i, a :: Causes(tag, known, i, a) ==> Causes(tag, more, i, a)
    ensures forall i, a :: Misleads(tag, known, i, a) ==> Misleads(tag, more, i, a)
    ensures forall a :: HasCause(tag, known, a) ==> HasCause(tag, more, a)
  {
  }

  /** A call by id is answered with an error only if the board's lambda is gone, or Linux knows another one. */
  lemma ErrorCause(tag: Tag, s: State, c: CallRecord, answer: Payload)
    requires Inv(tag, s) && CallFits(Handled(s), c) && AnswerFits(c.packet.expected, answer)
    requires Handle(s.board, c.packet, answer).Reply?
    ensures var out := Handle(s.board, c.packet, answer).out;
            out != [] && out[0].ResultError? && Live(Replayed(s.wire), out[0].id) ==>
              Causes(tag, Known(tag, s.log), c.id, out[0].id)
  {
    hide Handle, Replayed, PacketsFit, ThreadInv, LinuxInfo, Known, AlwaysAgrees, Mirrors, CallsInv, CrashInv;
    OneReplyPerCall(s.board, c.packet, answer);
    HandledIsKnown(tag, s, c.id);
    var a := Addressee(s.board, c.packet);
    if a.Some? && Live(Replayed(s.wire), a.value) {
      LinuxInfoIsKnown(tag, s.board, s.log, s.wire, a.value);
      if tag.Intended? {
        LiveOnBoth(s, a.value);
        assert s.board[a.value].value.info == s.log[a.value];
        if c.packet.CallByName? {
          LookupsAreInverse(s.board, c.packet.name, s.board[a.value].value);
        }
      }
    }
  }

  /** With the intended tag, a lambda that Linux will have once everything is handled is live on the board. */
  lemma LiveOnBoth(s: State, a: nat)
    requires Mirrors(Intended, s.board, s.log, s.wire) && Live(Replayed(s.wire), a)
    ensures Live(s.board, a) && Known(Intended, s.log) == Prefix(s.log)
  {
    assert Skeleton(Replayed(s.wire))[a] == Bare(s.board[a]);
  }

  lemma ErrorsAfterOutput(tag: Tag, known: Log, more: Log, w: Wire, out: seq<BoardPacket>)
    requires ErrorsHaveCause(tag, known, w) && known <= more && |out| <= 1
    requires out != [] && out[0].ResultError? && Live(Replayed(w), out[0].id) ==> HasCause(tag, more, out[0].id)
    ensures ErrorsHaveCause(tag, more, w + out)
  {
    hide Replayed, HasCause;
    CausesStay(tag, known, more);
    forall k | 0 <= k < |w + out| && (w + out)[k].ResultError? && Live(Replayed((w + out)[..k]), (w + out)[k].id)
      ensures HasCause(tag, more, (w + out)[k].id)
    {
      if k < |w| {
        assert (w + out)[..k] == w[..k];
      } else {
        assert (w + out)[..k] == w;
      }
    }
  }

  lemma ErrorsOfBoardStep(tag: Tag, s: State, ev: Event)
    requires Inv(tag, s) && Enabled(s, ev) && ErrorsHaveCause(tag, Known(tag, s.log), s.wire)
    requires ev.Register? || ev.Unregister? || ev.SendResult? || ev.Answer?
    ensures var s' := Next(tag, s, ev);
            ErrorsHaveCause(tag, Known(tag, s'.log), s'.wire) && Known(tag, s.log) <= Known(tag, s'.log)
            && s'.threads == s.threads
  {
    hide BoardInv, LinuxInv, ThreadInv, CrashInv, CallFits, Handle, Replayed, Known, Causes, ErrorsHaveCause, Hton;
    var known := Known(tag, s.log);
    match ev {
      case Register(info, hasFn) =>
        KnownGrows(tag, s.log, info);
        ErrorsAfterOutput(tag, known, Known(tag, Next(tag, s, ev).log), s.wire,
                          RegisterOutcome(s.board, info, hasFn).out);
      case Unregister(id) =>
        ErrorsAfterOutput(tag, known, known, s.wire, UnregisterOutcome(tag, s.board, id).out);
      case SendResult(id, v) =>
        ErrorsAfterOutput(tag, known, known, s.wire, SendOutcome(s.board, id, v).out);
      case Answer(answer) =>
        var c := s.calls[s.taken];
        if Handle(s.board, c.packet, answer).Reply? {
          BoardIsWellFormed(tag, s);
          OneReplyPerCall(s.board, c.packet, answer);
          ErrorCause(tag, s, c, answer);
          ErrorsAfterOutput(tag, known, known, s.wire, Handle(s.board, c.packet, answer).out);
        }
    }
  }

  /** A thread is woken by an error only if that has a cause and the lambda it waits for may be called. */
  lemma WokenMisleads(tag: Tag, s: State, t: nat)
    requires Inv(tag, s) && Enabled(s, Receive) && ErrorInv(tag, s)
    requires t < |s.threads| && WokenByError(Next(tag, s, Receive).threads[t]) && !WokenByError(s.threads[t])
    ensures exists i, a :: Misleads(tag, Known(tag, s.log), i, a)
  {
    hide BoardInv, CallsInv, CrashInv, CallFits, Replayed, Known, Causes, HandlePacket, HandleErrors;
    var p, id := s.wire[s.read], s.threads[t].id;
    assert ThreadFits(Handled(s), s.threads[t]);
    assert p.ResultError? && p.id == id && HasCause(tag, Known(tag, s.log), id);
    HandledIsKnown(tag, s, id);
    LiveInfo(Handled(s), id);
    var i :| Causes(tag, Known(tag, s.log), i, id);
    assert Misleads(tag, Known(tag, s.log), i, id);
  }

  lemma ErrorStep(tag: Tag, s: State, ev: Event)
    requires Inv(tag, s) && Enabled(s, ev) && ErrorInv(tag, s)
    ensures ErrorInv(tag, Next(tag, s, ev))
  {
    hide Inv, Known, Misleads, ErrorsHaveCause, CheckCall, FinishOf, HandlePacket, HandleErrors,
         RegisterOutcome, UnregisterOutcome, SendOutcome, Handle;
    var s' := Next(tag, s, ev);
    if ev.Register? || ev.Unregister? || ev.SendResult? || ev.Answer? {
      ErrorsOfBoardStep(tag, s, ev);
      CausesStay(tag, Known(tag, s.log), Known(tag, s'.log));
    } else if t :| 0 <= t < |s'.threads| && WokenByError(s'.threads[t]) {
      if ev.Receive? && !WokenByError(s.threads[t]) {
        WokenMisleads(tag, s, t);
      } else {
        assert WokenByError(s.threads[t]);
      }
    }
  }

  lemma {:induction false} ErrorInvAlways(r: Run)
    requires Legal(r)
    ensures ErrorInv(r.tag, End(r))
    decreases |r.events|
  {
    hide Inv, Next, Enabled, ErrorInv;
    if r.events == [] {
      StartHasNoErrors(r.tag, r.n);
    } else {
      InvAlways(Shorter(r));
      ErrorInvAlways(Shorter(r));
      ErrorStep(r.tag, End(Shorter(r)), LastEvent(r));
    }
  }

  lemma StartHasNoErrors(tag: Tag, n: nat)
    ensures ErrorInv(tag, Start(n))
  {
  }

  /** Every error packet reaches Linux when no lambda has its id any more. */
  ghost predicate ErrorsHitNothing(w: Wire) {
    forall k :: 0 <= k < |w| && w[k].ResultError? ==> !Live(Replayed(w[..k]), w[k].id)
  }

  ghost predicate ErrorFree(s: State) {
    ErrorsHitNothing(s.wire) && forall t :: 0 <= t < |s.threads| ==> !WokenByError(s.threads[t])
  }

  /** With the intended tag and distinct names, no error packet ever finds a lambda or ends a wait. */
  lemma ErrorFreeAlways(r: Run)
    requires Legal(r) && r.tag.Intended? && DistinctNames(End(r).log)
    ensures ErrorFree(End(r))
  {
    hide Replayed;
    ErrorInvAlways(r);
    assert forall i, a :: !Causes(r.tag, Known(r.tag, End(r).log), i, a);
  }

  /** So RS_CALL_SUCCESS then always means that a genuine value was stored, newer than the call. */
  lemma SuccessIsGenuine(r: Run, t: nat)
    requires Legal(r) && r.tag.Intended? && DistinctNames(End(r).log) && Enabled(End(r), Event.Finish(t))
    ensures var s := End(r);
            var th := s.threads[t];
            var f := FinishOf(s, th.id, th.why);
            LinuxInv(s)
            && (f.code == RS_CALL_SUCCESS ==> Genuine(s, th.id, f.result) && Fresh(s, th.id, th.since, f.result))
  {
    hide Genuine, Fresh, LinuxInv, FinishOf, Next, ErrorsHitNothing, ResultSince;
    ErrorFreeAlways(r);
    ValueFromWait(r, t);
  }

  /** The packet at k is an error for i with that code, and no later one is a reply for i. */
  predicate IsLatestError(w: Wire, i: nat, k: nat, code: int) {
    k < |w| && IsError(w[k], i, code) && forall j :: k < j < |w| ==> !IsReplyFor(w[j], i)
  }

  /** The error that a reply leaves behind: a result leaves none. */
  function ErrorOf(p: BoardPacket): int
    requires IsReply(p)
  {
    if p.Result? then 0 else p.code
  }

  /**
   * The life of an error: a reply for the lambda, and nothing else, sets it, to the code of an error or to 0; a call
   * for the lambda that ends with a timeout, and nothing else, takes it back.
   */
  lemma ErrorLifetime(tag: Tag, s: State, ev: Event, i: nat)
    requires Inv(tag, s) && Enabled(s, ev) && Live(s.linux, i) && Live(Next(tag, s, ev).linux, i)
    ensures i < |s.errs| && i < |Next(tag, s, ev).errs|
    ensures Next(tag, s, ev).errs[i] ==
            if ev.Receive? && IsReplyFor(s.wire[s.read], i) then
              Some(ErrorOf(s.wire[s.read]))
            else if ev.Finish? && s.threads[ev.t].id == i && s.threads[ev.t].why.TimedOut? then Some(0)
            else s.errs[i]
  {
    hide BoardInv, ThreadInv, CallsInv, CrashInv, Replayed, HandlePacket, CheckCall, Handle,
         RegisterOutcome, UnregisterOutcome, SendOutcome;
    if ev.Receive? {
      HandleByKind(s.linux, s.wire[s.read]);
      ErrorAfterPacket(s.linux, s.errs, s.wire[s.read], i);
    }
  }

  lemma ErrorAfterPacket(l: LinuxTable, errs: Errors, p: BoardPacket, i: nat)
    requires |errs| == |l| && Live(l, i) && (Unregisters(p) ==> p.id != i)
    ensures HandleErrors(l, errs, p)[i] ==
            if IsReplyFor(p, i) then Some(ErrorOf(p)) else errs[i]
  {
    HandleByKind(l, p);
  }

  /** A lambda just registered has no error pending. */
  lemma FreshHasNoError(l: LinuxTable, errs: Errors, p: BoardPacket)
    requires |errs| == |l| && |HandlePacket(l, p)| > |l|
    ensures HandleErrors(l, errs, p)[|l|] == Some(0)
  {
  }

  /** last_call_error, if not 0, is from the latest reply for the lambda, which is an error packet. */
  ghost predicate ErrorIsLatest(w: Wire, i: nat, code: int)
    requires i < |Replayed(w)|
  {
    exists k: nat :: AssignedAt(w, i) < k && IsLatestError(w, i, k, code)
  }

  predicate IsErrorFor(p: BoardPacket, i: nat) {
    p.ResultError? && p.id == i
  }

  predicate IsError(p: BoardPacket, i: nat, code: int) {
    IsErrorFor(p, i) && p.code == code
  }

  /** That packet was handled at or after that place. */
  ghost predicate FreshError(w: Wire, i: nat, since: nat, code: int) {
    exists k: nat :: since <= k && IsLatestError(w, i, k, code)
  }

  ghost predicate ErrorSince(w: Wire, i: nat, since: nat) {
    exists k: nat :: since <= k < |w| && IsErrorFor(w[k], i)
  }

  ghost predicate ErrorsAreLatest(w: Wire, errs: Errors) {
    forall i: nat :: i < |Replayed(w)| && i < |errs| && errs[i].Some? && errs[i].value != 0 ==>
                       ErrorIsLatest(w, i, errs[i].value)
  }

  /** A packet that changes no error for the lambda leaves its latest one the latest. */
  lemma ErrorStaysLatest(w: Wire, p: BoardPacket, i: nat, code: int)
    requires i < |Replayed(w)| && ErrorIsLatest(w, i, code) && !IsReplyFor(p, i)
    ensures i < |Replayed(w + [p])| && ErrorIsLatest(w + [p], i, code)
  {
    hide Replayed;
    PlaceStays(w, p, i);
    var k: nat :| AssignedAt(w, i) < k && IsLatestError(w, i, k, code);
    assert IsLatestError(w + [p], i, k, code);
  }

  lemma ErrorsAreLatestAfter(w: Wire, errs: Errors, p: BoardPacket)
    requires ErrorsFit(Replayed(w), errs) && ErrorsAreLatest(w, errs)
    ensures ErrorsAreLatest(w + [p], HandleErrors(Replayed(w), errs, p))
  {
    hide HandlePacket, Replayed;
    var w', errs' := w + [p], HandleErrors(Replayed(w), errs, p);
    ReplayOneMore(w, p);
    HandleStep(Replayed(w), p);
    HandleByKind(Replayed(w), p);
    forall i: nat | i < |Replayed(w')| && i < |errs'| && errs'[i].Some? && errs'[i].value != 0
      ensures ErrorIsLatest(w', i, errs'[i].value)
    {
      PlaceStays(w, p, i);
      if IsError(p, i, errs'[i].value) {
        assert IsLatestError(w', i, |w|, errs'[i].value);
      } else {
        hide ErrorIsLatest;
        ErrorStaysLatest(w, p, i, errs[i].value);
      }
    }
  }

  lemma ErrorsAreLatestStep(tag: Tag, s: State, ev: Event)
    requires Inv(tag, s) && Enabled(s, ev) && ErrorsAreLatest(Handled(s), s.errs)
    ensures ErrorsAreLatest(Handled(Next(tag, s, ev)), Next(tag, s, ev).errs)
  {
    hide BoardInv, ThreadInv, CallsInv, Replayed, HandlePacket, HandleErrors, CheckCall,
         RegisterOutcome, UnregisterOutcome, SendOutcome, Handle;
    var s' := Next(tag, s, ev);
    if ev.Receive? {
      assert Handled(s') == Handled(s) + [s.wire[s.read]];
      ErrorsAreLatestAfter(Handled(s), s.errs, s.wire[s.read]);
    } else {
      assert Handled(s') == Handled(s);
    }
  }

  lemma {:induction false} ErrorsAreLatestAlways(r: Run)
    requires Legal(r)
    ensures ErrorsAreLatest(Handled(End(r)), End(r).errs)
    decreases |r.events|
  {
    hide Inv, Next, Enabled;
    if r.events != [] {
      ErrorsAreLatestAlways(Shorter(r));
      InvAlways(Shorter(r));
      ErrorsAreLatestStep(r.tag, End(Shorter(r)), LastEvent(r));
    }
  }

  /**
   * An error that a call reports after a timeout was sent by the board for this lambda, no reply came after it, and
   * it is reported once. It is newer than the call packet exactly if Linux has handled an error for it since.
   */
  lemma ErrorFromWait(r: Run, t: nat)
    requires Legal(r) && Enabled(End(r), Event.Finish(t))
    ensures var s := End(r);
            var th := s.threads[t];
            var f := FinishOf(s, th.id, th.why);
            LinuxInv(s) && Live(s.linux, th.id)
            && (th.why.TimedOut? && s.errs[th.id] != Some(0) ==>
                  f.code < 0 && ErrorIsLatest(Handled(s), th.id, f.code)
                  && (FreshError(Handled(s), th.id, th.since, f.code) <==> ErrorSince(Handled(s), th.id, th.since))
                  && Next(r.tag, s, Event.Finish(t)).errs[th.id] == Some(0))
  {
    hide BoardInv, CallFits, CallsInv, CrashInv, Replayed, ErrorIsLatest, FreshError, ErrorSince;
    var s := End(r);
    InvAlways(r);
    ErrorsAreLatestAlways(r);
    assert ThreadFits(Handled(s), s.threads[t]);
    var th, f := s.threads[t], FinishOf(s, s.threads[t].id, s.threads[t].why);
    if th.why.TimedOut? && s.errs[th.id] != Some(0) {
      LatestIsFresh(Handled(s), th.id, th.since, f.code);
    }
  }

  lemma LatestIsFresh(w: Wire, i: nat, since: nat, code: int)
    requires i < |Replayed(w)| && ErrorIsLatest(w, i, code)
    ensures FreshError(w, i, since, code) <==> ErrorSince(w, i, since)
  {
    hide Replayed;
    var k: nat :| AssignedAt(w, i) < k && IsLatestError(w, i, k, code);
    if j: nat :| since <= j < |w| && IsErrorFor(w[j], i) {
      assert IsReplyFor(w[j], i);
    }
    if j: nat :| since <= j && IsLatestError(w, i, j, code) {
      assert IsErrorFor(w[j], i);
    }
  }
}
