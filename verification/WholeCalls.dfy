/** What a whole call comes to, as the client's methods carry it out: the wait, and what is returned in every case. */
module WholeCalls {
  import opened Machine
  import opened Protocol
  import opened LambdaRegistry
  import opened Board
  import opened Connector
  import opened Replay
  import opened Session
  import opened SessionInvariant
  import opened SessionTheorems

  /**
   * A wait handles packets up to the first reply for the lambda, if there is one, and else all of them: then, and
   * only then, it times out.
   */
  lemma {:induction false} AwaitExactly(w: Wire, errs: Errors, id: nat, arrivals: seq<BoardPacket>)
    returns (until: nat, why: Wake)
    requires Callable(w, id) && |errs| == |Replayed(w)| && Harmless(id, arrivals)
    ensures var w', a := w + arrivals, Await(Replayed(w), errs, id, arrivals);
            |w| <= until <= |w'| && a.view == Replayed(w'[..until]) && Callable(w'[..until], id)
            && (a.timedOut <==> why.TimedOut?) && (a.timedOut <==> !Replied(w', id, |w|, |w'|))
            && WaitEnded(w', id, |w|, until, why) && (a.timedOut ==> until == |w'|)
            && a.view[id].value.info == Replayed(w)[id].value.info && AssignedAt(w'[..until], id) == AssignedAt(w, id)
            && a.errors[id] == if a.timedOut then errs[id] else Some(ErrorOf(w'[until - 1]))
    decreases |arrivals|
  {
    hide HandlePacket, HandleErrors, Replayed, Replied, WellFormed;
    var w' := w + arrivals;
    if arrivals == [] {
      until, why := |w|, TimedOut;
      assert w' == w && w'[..until] == w;
      NoneBetween(w, id, |w|);
    } else {
      var p := arrivals[0];
      var v := w + [p];
      ReplayOneMore(w, p);
      CallSentLater(w, p, id);
      PlaceKept(w, p, id);
      ErrorAfterPacket(Replayed(w), errs, p, id);
      assert v + arrivals[1..] == w' && w'[|w|] == p;
      if Connector.Woken(Replayed(w), p) == Some(id) {
        until, why := |v|, if p.Result? then ByResult else ByError;
        assert w'[..until] == v;
        ReplyThere(w', id, |w|, until);
        RepliedLonger(w', id, |w|, until, |w'|);
        NoneBetween(w', id, |w|);
      } else {
        until, why := AwaitExactly(v, HandleErrors(Replayed(w), errs, p), id, arrivals[1..]);
        RepliedFrom(w', id, |w|, |w'|);
        RepliedFrom(w', id, |w|, until);
        if until > |v| {
          RepliedFrom(w', id, |w|, until - 1);
        }
      }
    }
  }

  lemma PlaceKept(w: Wire, p: BoardPacket, id: nat)
    requires Callable(w, id) && Callable(w + [p], id)
    ensures AssignedAt(w + [p], id) == AssignedAt(w, id)
    ensures Replayed(w + [p])[id].value.info == Replayed(w)[id].value.info
  {
    hide HandlePacket, Replayed;
    PlaceStays(w, p, id);
    ReplayOneMore(w, p);
    HandleStep(Replayed(w), p);
  }

  lemma NoneBetween(w: Wire, id: nat, k: nat)
    ensures !Replied(w, id, k, k)
  {
  }

  lemma RepliedLonger(w: Wire, id: nat, from: nat, until: nat, later: nat)
    requires Replied(w, id, from, until) && until <= later
    ensures Replied(w, id, from, later)
  {
    var k: nat :| from <= k < until && k < |w| && IsReplyFor(w[k], id);
  }

  /** A packet that is no reply does not matter. */
  lemma RepliedFrom(w: Wire, id: nat, from: nat, until: nat)
    requires from < |w| && !IsReplyFor(w[from], id)
    ensures Replied(w, id, from, until) <==> Replied(w, id, from + 1, until)
  {
    if Replied(w, id, from, until) {
      var k: nat :| from <= k < until && k < |w| && IsReplyFor(w[k], id);
    }
    if Replied(w, id, from + 1, until) {
      var k: nat :| from + 1 <= k < until && k < |w| && IsReplyFor(w[k], id);
    }
  }

  /** Error packets bear negative codes. */
  predicate ErrorsAreNegative(arrivals: Wire) {
    forall k :: 0 <= k < |arrivals| && arrivals[k].ResultError? ==> arrivals[k].code < 0
  }

  /** A call for no live lambda says so, and changes nothing. */
  lemma CompleteNotFound(w: Wire, errs: Errors, req: Request, arrivals: Wire)
    requires |errs| == |Replayed(w)| && forall i :: !AsksFor(Replayed(w), req, i)
    ensures Complete(Replayed(w), errs, req, arrivals) == Completed(RS_CALL_NOTFOUND, None, [], Replayed(w), errs)
  {
    hide Replayed, Await, FinishAt;
    LookupExactly(w, req);
  }

  /** The latest result is the one that ended the wait. */
  lemma ValueOfReply(w: Wire, i: nat, result: Option<Value>)
    requires w != [] && IsResultFor(Last(w), i) && i < |Replayed(w)| && AssignedAt(w, i) < |w| - 1
    ensures Answered(w, i) && (LatestValue(w, i, result) ==> result == Some(Ntoh(Last(w).payload)))
  {
    hide Replayed, Ntoh;
    assert IsResultFor(w[|w| - 1], i);
  }

  /** The same for the call from its send on. */
  lemma SentCall(w: Wire, errs: Errors, i: nat, arrivals: Wire) returns (until: nat)
    requires ErrorsFit(Replayed(w), errs) && ErrorsAreNegative(arrivals)
    requires Callable(w, i) && Harmless(i, arrivals)
    ensures var w', a := w + arrivals, Await(Replayed(w), errs, i, arrivals);
            var f := FinishAt(a.view, a.errors, i, a.timedOut);
            |w| <= until <= |w'| && a.view == Replayed(w'[..until]) && Live(a.view, i) && a.errors[i].Some?
            && (f.code == RS_CALL_SUCCESS <==> Replied(w', i, |w|, |w'|))
            && (f.code == RS_CALL_SUCCESS ==>
                  |w| < until && IsReplyFor(w'[until - 1], i) && !Replied(w', i, |w|, until - 1)
                  && f.error == ErrorOf(w'[until - 1])
                  && (w'[until - 1].Result? ==> f.result == Some(Ntoh(w'[until - 1].payload))))
            && (f.code != RS_CALL_SUCCESS ==>
                  until == |w'| && f.error == 0 && EndsLate(w'[..until], i, errs[i].value, f.code, f.result))
  {
    hide Replayed, Replied, Answered, Await, Connector.Finish, Ntoh, LatestValue, EndsLate;
    var w', a := w + arrivals, Await(Replayed(w), errs, i, arrivals);
    var why: Wake;
    until, why := AwaitExactly(w, errs, i, arrivals);
    EndDecision(w'[..until], i, a.errors[i].value, a.timedOut);
    if a.timedOut {
      assert w'[..until] == w';
    } else if w'[until - 1].Result? {
      ValueOfReply(w'[..until], i, FinishAt(a.view, a.errors, i, a.timedOut).result);
    }
  }

  /**
   * A whole call for a live lambda, with these packets handled while it waits. It sends its packet exactly if it has
   * to, and else changes nothing. It returns RS_CALL_SUCCESS exactly if it is sent and a reply for its lambda comes,
   * and then with the value of that reply if it is a result.
   */
  lemma CompleteExactly(w: Wire, errs: Errors, req: Request, i: nat, arrivals: Wire) returns (until: nat)
    requires ErrorsFit(Replayed(w), errs) && ErrorsAreNegative(arrivals)
    requires AsksFor(Replayed(w), req, i) && Harmless(i, arrivals)
    ensures var w', c := w + arrivals, Complete(Replayed(w), errs, req, arrivals);
            |w| <= until <= |w'| && c.view == Replayed(w'[..until]) && Live(c.view, i) && |c.errors| == |c.view|
            && c.sent == (if HasToCall(w, req, i) then [CallPacketFor(req)] else [])
            && (c.sent == [] ==> until == |w| && c.errors == errs)
            && (c.code == RS_CALL_SUCCESS <==> HasToCall(w, req, i) && Replied(w', i, |w|, |w'|))
            && (c.code == RS_CALL_SUCCESS ==>
                  |w| < until && IsReplyFor(w'[until - 1], i) && !Replied(w', i, |w|, until - 1)
                  && c.errors[i] == Some(ErrorOf(w'[until - 1]))
                  && (w'[until - 1].Result? ==> c.result == Some(Ntoh(w'[until - 1].payload))))
    ensures var w', c := w + arrivals, Complete(Replayed(w), errs, req, arrivals);
            c.sent != [] && c.code != RS_CALL_SUCCESS ==>
              until == |w'| && c.errors[i] == Some(0) && EndsLate(w'[..until], i, errs[i].value, c.code, c.result)
  {
    hide Replayed, Replied, Answered, Await, FinishAt, CheckCall, Ntoh, LatestValue, EndsLate;
    CheckExactly(w, req, i);
    if !HasToCall(w, req, i) {
      until := |w|;
      assert (w + arrivals)[..until] == w;
    } else {
      until := SentCall(w, errs, i, arrivals);
    }
  }
}
