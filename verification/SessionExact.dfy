/**
 * Exactly when a session goes wrong: for every sequence of registrations, the runs that have it are built, and
 * the failing ones among them are told from the two registrations that clash.
 */
module SessionExact {
  import opened Machine
  import opened Protocol
  import opened LambdaRegistry
  import opened Board
  import opened Connector
  import opened Replay
  import opened Session
  import opened SessionInvariant
  import opened SessionTheorems
  import opened SessionRuns

  // ---------- null functions ----------

  /** A lambda that is not RS_CACHE_ONLY and for which no result ever came has to be called. */
  lemma HasToBeCalled(r: Run, i: nat, req: Request)
    requires Legal(r) && NoResults(End(r).wire)
    requires AsksFor(End(r).linux, req, i) && End(r).linux[i].value.info.cache != RS_CACHE_ONLY
    requires req.expected == End(r).linux[i].value.info.ltype
    ensures CheckCall(End(r).linux, req) == Proceed(i)
  {
    hide BoardInv, ThreadInv, CallsInv, CrashInv, Replayed, CheckCall;
    InvAlways(r);
    CheckExactly(Handled(End(r)), req, i);
  }

  /** Once Linux has handled everything it has the one lambda that an orderly board keeps, if that was announced. */
  lemma AloneIsLive(r: Run, i: nat, info: Info)
    requires Legal(r) && r.tag.Intended? && i < ANNOUNCED && End(r).read == |End(r).wire|
    requires End(r).board == Alone(i + 1, i, info, true)
    ensures Live(End(r).linux, i)
  {
    hide ThreadInv, CallsInv, CrashInv, PacketsFit, AlwaysAgrees, Replayed;
    InvAlways(r);
    assert Handled(End(r)) == End(r).wire;
    assert Skeleton(End(r).linux)[i] == Bare(End(r).board[i]);
  }

  /** With the coded tag it has all that it ever knew. */
  lemma KnownIsLive(r: Run, i: nat)
    requires Legal(r) && r.tag.Coded? && i < |Known(r.tag, End(r).log)| && End(r).read == |End(r).wire|
    ensures Live(End(r).linux, i)
  {
    hide ThreadInv, CallsInv, CrashInv, PacketsFit, AlwaysAgrees, Replayed, FirstUses;
    InvAlways(r);
    assert Handled(End(r)) == End(r).wire;
    RegisterAllIsFirstUses(Prefix(End(r).log));
    assert Skeleton(End(r).linux)[i] == Bare(End(r).linux[i]);
  }

  /** The board takes the call for the one lambda it has, whose function is null. */
  lemma AloneIsHit(b: BoardTable, c: CallPacket, n: nat, j: nat, info: Info, answer: Payload)
    requires b == Alone(n, j, info, false) && j < n <= MAX_LAMBDAS
    requires ValidType(c.expected) && info.ltype == c.expected
    requires if c.CallById? then c.id == j else c.name == info.name
    ensures Handle(b, c, answer) == Crash
  {
    if c.CallByName? {
      var o := ByName(b, c.name);
      assert Live(b, j);
      var i :| 0 <= i < |b| && b[i] == o;
    }
  }

  lemma CrashOnAlone(r: Run, s: State, c: CallPacket, n: nat, j: nat, info: Info) returns (r': Run)
    requires Legal(r) && End(r) == s && s.crash.None? && s.taken < |s.calls| && s.calls[s.taken].packet == c
    requires s.board == Alone(n, j, info, false) && j < n <= MAX_LAMBDAS
    requires ValidType(c.expected) && info.ltype == c.expected
    requires if c.CallById? then c.id == j else c.name == info.name
    ensures Legal(r') && r'.tag == r.tag && End(r').log == s.log && End(r').crash == Some(c)
  {
    hide End, Legal, Handle;
    var answer := SomeAnswer(c.expected);
    AloneIsHit(s.board, c, n, j, info, answer);
    var s': State;
    r', s' := CrashOn(r, s, answer);
  }

  function RequestFor(c: CallPacket): Request {
    match c
    case CallById(id, expected) => RequestById(id, expected)
    case CallByName(name, expected) => RequestByName(name, expected)
  }

  function SomeAnswer(t: Byte): (v: Payload)
    ensures AnswerFits(t, v)
  {
    if t == RS_LAMBDA_INT then Int(0) else if t == RS_LAMBDA_DOUBLE then Dbl(0.0) else Str("")
  }

  /**
   * With the coded tag: everything is registered and unregistered again except j, Linux hears only of the
   * registrations, and the call is sent at the end.
   */
  lemma NullCallWithCodedTag(log: Log, c: CallPacket, i: nat, j: nat) returns (r: Run)
    requires Possible(log) && NullCall(Known(Coded, log), log, c, i, j)
    ensures Legal(r) && r.tag.Coded? && End(r).log == log && End(r).crash == Some(c)
  {
    hide End, Legal, Next, Enabled, CheckCall, Known, Handle, ValidName;
    var s: State;
    r, s := Begin(Coded, 1);
    r, s := RegisterButKeep(r, s, log, j, false);
    assert s.log == log;
    r, s := ReceiveAll(r, s);
    KnownIsLive(r, i);
    LinuxKnows(r, i);
    HasToBeCalled(r, i, RequestFor(c));
    r, s := CallAndWait(r, s, RequestFor(c), i);
    r := CrashOnAlone(r, s, c, |log|, j, log[j]);
  }

  /** With the intended tag: lambda i is the only one registered, and has been called by name. */
  lemma CalledByName(log: Log, i: nat) returns (r: Run, s: State)
    requires Possible(log) && i < |log| && i < ANNOUNCED && log[i].cache != RS_CACHE_ONLY
    ensures Legal(r) && r.tag.Intended? && End(r) == s && s.crash.None? && |s.errs| == |s.linux| && s.read == |s.wire|
    ensures s.board == Alone(i + 1, i, log[i], true) && s.log == log[..i + 1] && NoResults(s.wire)
    ensures s.calls == [CallRecord(CallByName(log[i].name, log[i].ltype), i)] && s.taken == 0
    ensures |s.threads| == 1 && s.threads[0].Waiting? && s.owner == None
  {
    hide End, Legal, Next, Enabled, CheckCall, ValidName;
    var req := RequestByName(log[i].name, log[i].ltype);
    r, s := Begin(Intended, 1);
    r, s := RegisterButKeep(r, s, log[..i + 1], i, true);
    r, s := ReceiveAll(r, s);
    AloneIsLive(r, i, log[i]);
    LinuxKnows(r, i);
    HasToBeCalled(r, i, req);
    r, s := CallAndWait(r, s, req, i);
  }

  /** The call is answered when j has the name. */
  lemma NullCallWithIntendedTag(log: Log, c: CallPacket, i: nat, j: nat) returns (r: Run)
    requires Possible(log) && NullCall(Known(Intended, log), log, c, i, j)
    ensures Legal(r) && r.tag.Intended? && End(r).log == log && End(r).crash == Some(c)
  {
    hide End, Legal, Next, Enabled, Handle, ValidName;
    var s: State;
    assert log[i].name == log[j].name && i < j;
    r, s := CalledByName(log, i);
    r, s := SessionRuns.Unregister(r, s, i);
    r, s := RegisterButKeep(r, s, log[i + 1..], j - i - 1, false);
    assert s.log == log;
    r := CrashOnAlone(r, s, c, |log|, j, log[j]);
  }

  /** Some run with this tag and these registrations ends with the board invoking a null function for this call. */
  ghost predicate MayCrash(tag: Tag, log: Log, c: CallPacket) {
    exists r: Run :: Legal(r) && r.tag == tag && End(r).log == log && End(r).crash == Some(c)
  }

  /**
   * The registrations alone decide whether a call can reach a null function: exactly if Linux knows a lambda with
   * a function under i, the board has an RS_CACHE_ONLY one of the same type under j, which no later registration
   * has displaced, and the call takes one for the other.
   */
  lemma NullCallExactly(tag: Tag, log: Log, c: CallPacket)
    requires Possible(log)
    ensures MayCrash(tag, log, c) <==> exists i, j :: NullCall(Known(tag, log), log, c, i, j)
  {
    hide NullCall, Known, Possible;
    if MayCrash(tag, log, c) {
      var r: Run :| Legal(r) && r.tag == tag && End(r).log == log && End(r).crash == Some(c);
      NullCallNeedsPair(r);
    }
    if i, j :| NullCall(Known(tag, log), log, c, i, j) {
      var r: Run;
      if tag.Coded? {
        r := NullCallWithCodedTag(log, c, i, j);
      } else {
        r := NullCallWithIntendedTag(log, c, i, j);
      }
    }
  }

  /** The logs that runs can have. */
  lemma LogsExactly(tag: Tag, log: Log)
    ensures (exists r: Run :: Legal(r) && r.tag == tag && End(r).log == log) <==> Possible(log)
  {
    if r: Run :| Legal(r) && r.tag == tag && End(r).log == log {
      InvAlways(r);
    }
    if Possible(log) {
      hide End, Legal;
      var r, s := Begin(tag, 1);
      r, s := RegisterAndDrop(r, s, log);
      assert s.log == log;
    }
  }

  /** The name of a first lambda is registered again, and a lambda of another name follows. */
  predicate Drifts(info: Info, again: Info, other: Info) {
    Possible([info, again, other]) && info.name == again.name != other.name
  }

  lemma DriftedIds(info: Info, again: Info, other: Info)
    requires Drifts(info, again, other)
    ensures FirstUses([info]) == [info] && FirstUses([info, again]) == [info]
    ensures FirstUses([info, again, other]) == [info, other] == Known(Coded, [info, again, other])
    ensures Repeats([info, again, other], 1) && !Repeats([info, again, other], 2)
  {
    var one, two, three := [info], [info, again], [info, again, other];
    assert three[..2] == two && two[..1] == one && one[..0] == [];
    assert two[0].name == two[1].name && three[0].name == three[1].name;
    assert !Repeats(one, 0) && Repeats(two, 1) && !Repeats(three, 2);
  }

  /** In that situation, which calls by id of the second lambda can reach its null function. */
  lemma NullCallById(info: Info, again: Info, other: Info, expected: Byte)
    requires Drifts(info, again, other)
    ensures MayCrash(Coded, [info, again, other], CallById(1, expected)) <==>
            again.cache == RS_CACHE_ONLY && other.cache != RS_CACHE_ONLY
            && again.ltype == other.ltype == expected && ValidType(expected)
  {
    var log, c := [info, again, other], CallById(1, expected);
    NullCallExactly(Coded, log, c);
    DriftedIds(info, again, other);
    assert NullCall([info, other], log, c, 1, 1) <==>
           again.cache == RS_CACHE_ONLY && other.cache != RS_CACHE_ONLY
           && again.ltype == other.ltype == expected && ValidType(expected);
  }

  /** With the intended tag, once a name has been registered again: which calls by name can reach a null function. */
  lemma NullCallByName(info: Info, again: Info, expected: Byte)
    requires Possible([info, again]) && info.name == again.name
    ensures MayCrash(Intended, [info, again], CallByName(info.name, expected)) <==>
            again.cache == RS_CACHE_ONLY && info.cache != RS_CACHE_ONLY
            && again.ltype == info.ltype == expected && ValidType(expected)
  {
    var log, c := [info, again], CallByName(info.name, expected);
    NullCallExactly(Intended, log, c);
    assert Known(Intended, log) == log && log[0].name == log[1].name;
    assert NullCall(log, log, c, 0, 1) <==>
           again.cache == RS_CACHE_ONLY && info.cache != RS_CACHE_ONLY
           && again.ltype == info.ltype == expected && ValidType(expected);
  }

  // ---------- the union ----------

  /** The registrations announced on the wire. */
  function Announced(w: Wire): Log {
    if w == [] then [] else Announced(Init(w)) + if Last(w).Registered? then [Last(w).info] else []
  }

  lemma AnnouncedOneMore(w: Wire, p: BoardPacket)
    ensures Announced(w + [p]) == Announced(w) + if p.Registered? then [p.info] else []
  {
    assert Init(w + [p]) == w;
  }

  lemma {:induction false} AnnouncedGrows(w: Wire, k: nat)
    requires k <= |w|
    ensures Announced(w[..k]) <= Announced(w)
  {
    if k == |w| {
      assert w[..k] == w;
    } else {
      assert Init(w)[..k] == w[..k];
      AnnouncedGrows(Init(w), k);
    }
  }

  /** A result was sent while its lambda was registered, so before its name was announced again. */
  predicate Undisturbed(announced: Log, p: BoardPacket)
    requires p.Result?
  {
    forall m :: p.id < m < |announced| ==> announced[m].name != p.name
  }

  ghost predicate AllUndisturbed(w: Wire) {
    forall k :: 0 <= k < |w| && w[k].Result? ==> Undisturbed(Announced(w[..k]), w[k])
  }

  ghost predicate Timely(w: Wire, log: Log) {
    Announced(w) == Prefix(log) && AllUndisturbed(w)
  }

  lemma TimelyPrefix(w: Wire, log: Log, k: nat)
    requires Timely(w, log) && k <= |w|
    ensures Announced(w[..k]) <= Prefix(log) && AllUndisturbed(w[..k])
  {
    hide Undisturbed, Announced;
    AnnouncedGrows(w, k);
    assert forall j :: 0 <= j < k ==> w[..k][j] == w[j] && w[..k][..j] == w[..j];
  }

  lemma TimelyAfter(w: Wire, log: Log, p: BoardPacket, log': Log)
    requires Timely(w, log)
    requires Prefix(log') == Prefix(log) + if p.Registered? then [p.info] else []
    requires p.Result? ==> Undisturbed(Prefix(log), p)
    ensures Timely(w + [p], log')
  {
    hide Announced, Undisturbed;
    AnnouncedOneMore(w, p);
    forall k | 0 <= k < |w + [p]| && (w + [p])[k].Result?
      ensures Undisturbed(Announced((w + [p])[..k]), (w + [p])[k])
    {
      if k < |w| {
        assert (w + [p])[..k] == w[..k];
      } else {
        assert (w + [p])[..k] == w;
      }
    }
  }

  lemma TimelyAfterReplies(b: BoardTable, log: Log, w: Wire, out: seq<BoardPacket>)
    requires Timely(w, log) && |out| <= 1
    requires forall p :: p in out ==> !p.Registered? && (p.Result? ==> Undisturbed(Prefix(log), p))
    ensures Timely(w + out, log)
  {
    hide Timely, Undisturbed;
    if out == [] {
      assert w + out == w;
    } else {
      assert out == [out[0]];
      TimelyAfter(w, log, out[0], log);
    }
  }

  lemma SentWhileLive(b: BoardTable, log: Log, id: Byte, v: Payload)
    requires BoardHistory(b, log)
    ensures forall p :: p in SendOutcome(b, id, v).out ==> p.Result? && Undisturbed(Prefix(log), p)
  {
    hide Hton;
  }

  lemma AnsweredWhileLive(b: BoardTable, log: Log, c: CallPacket, answer: Payload)
    requires BoardHistory(b, log) && Handle(b, c, answer).Reply?
    ensures var out := Handle(b, c, answer).out;
            |out| <= 1 && forall p :: p in out ==> !p.Registered? && (p.Result? ==> Undisturbed(Prefix(log), p))
  {
    hide BoardHistory, Undisturbed, SendOutcome;
    if c.CallById? {
      SendsAtMostOne(b, c.id, answer);
      SentWhileLive(b, log, c.id, answer);
    } else if ByName(b, c.name).Some? && ByName(b, c.name).value.id < 255 {
      SendsAtMostOne(b, ByName(b, c.name).value.id, answer);
      SentWhileLive(b, log, ByName(b, c.name).value.id, answer);
    }
  }

  lemma SendsAtMostOne(b: BoardTable, id: Byte, v: Payload)
    ensures |SendOutcome(b, id, v).out| <= 1
  {
  }

  lemma TimelyAfterRegister(s: State, info: Info, hasFn: bool)
    requires BoardHistory(s.board, s.log) && Timely(s.wire, s.log) && |info.name| != MAX_LAMBDA_NAME_LENGTH
    ensures var o := RegisterOutcome(s.board, info, hasFn);
            Timely(s.wire + o.out, LogAfter(s.log, s.board, o.table, info))
  {
    hide RegisterOutcome, Announced, Undisturbed;
    var o := RegisterOutcome(s.board, info, hasFn);
    HistoryAfterRegister(s.board, s.log, info, hasFn);
    assert s.wire + [] == s.wire;
    if |s.board| < |o.table| && |s.board| < ANNOUNCED {
      TimelyAfter(s.wire, s.log, BoardPacket.Registered(info), s.log + [info]);
    } else {
      assert Prefix(s.log + [info]) == Prefix(s.log) || |o.table| == |s.board|;
    }
  }

  lemma TimelyStep(tag: Tag, s: State, ev: Event)
    requires Inv(tag, s) && Enabled(s, ev) && Timely(s.wire, s.log)
    ensures Timely(Next(tag, s, ev).wire, Next(tag, s, ev).log)
  {
    hide Timely, BoardHistory, Mirrors, AlwaysAgrees, PacketsFit, LinuxInv, ThreadInv, CallsInv, CrashInv, Undisturbed,
         RegisterOutcome, SendOutcome, Handle, CheckCall, FinishOf, HandlePacket, HandleErrors;
    match ev {
      case Register(info, hasFn) =>
        TimelyAfterRegister(s, info, hasFn);
      case Unregister(id) =>
        TimelyAfterReplies(s.board, s.log, s.wire, UnregisterOutcome(tag, s.board, id).out);
      case SendResult(id, v) =>
        SendsAtMostOne(s.board, id, v);
        SentWhileLive(s.board, s.log, id, v);
        TimelyAfterReplies(s.board, s.log, s.wire, SendOutcome(s.board, id, v).out);
      case Answer(answer) =>
        var c := s.calls[s.taken].packet;
        if Handle(s.board, c, answer).Reply? {
          AnsweredWhileLive(s.board, s.log, c, answer);
          TimelyAfterReplies(s.board, s.log, s.wire, Handle(s.board, c, answer).out);
        }
      case _ =>
    }
  }

  lemma {:induction false} TimelyAlways(r: Run)
    requires Legal(r)
    ensures Timely(End(r).wire, End(r).log)
    decreases |r.events|
  {
    hide Inv, Next, Enabled;
    if r.events != [] {
      TimelyAlways(Shorter(r));
      InvAlways(Shorter(r));
      TimelyStep(r.tag, End(Shorter(r)), LastEvent(r));
    }
  }

  lemma RegisterAllOneMore(log: Log, info: Info)
    ensures RegisterAll(log + [info]) == Registering(RegisterAll(log), info, ()).table
  {
    var more := log + [info];
    assert more[..|more| - 1] == log;
  }

  lemma NothingRegistered()
    ensures RegisterAll([]) == Skeleton<Cell>([])
  {
  }

  /** With the coded tag Linux registers what is announced and removes nothing. */
  lemma {:induction false} ReplayIsRegisterAll(w: Wire, log: Log)
    requires PacketsFit(w, Coded, log)
    ensures Skeleton(Replayed(w)) == RegisterAll(Announced(w))
  {
    hide Registering, Unregistering, RegisterAll, HandlePacket, Skeleton;
    if w == [] {
      NothingRegistered();
    } else {
      ReplayIsRegisterAll(Init(w), log);
      SkeletonHandle(Replayed(Init(w)), Last(w));
      assert PacketFits(Last(w), Coded, log);
      if Last(w).Registered? {
        RegisterAllOneMore(Announced(Init(w)), Last(w).info);
      } else {
        assert Announced(w) == Announced(Init(w));
      }
    }
  }

  lemma {:induction false} AssignedThere(w: Wire, i: nat)
    requires i < |Replayed(w)|
    ensures var a := AssignedAt(w, i);
            |Replayed(w[..a])| == i && |Replayed(w[..a + 1])| == i + 1
  {
    HandleStep(Replayed(Init(w)), Last(w));
    var a := AssignedAt(w, i);
    if i < |Replayed(Init(w))| {
      AssignedThere(Init(w), i);
      assert Init(w)[..a] == w[..a] && Init(w)[..a + 1] == w[..a + 1];
    } else {
      assert w[..a] == Init(w) && w[..a + 1] == w;
    }
  }

  /** The place in the log of the registration that got the id i on Linux. */
  function PlaceOf(w: Wire, i: nat): nat
    requires i < |Replayed(w)|
  {
    |Announced(w[..AssignedAt(w, i)])|
  }

  lemma PlaceOfId(w: Wire, log: Log, i: nat)
    requires PacketsFit(w, Coded, log) && i < |Replayed(w)|
    ensures var p := PlaceOf(w, i);
            p < |Announced(w[..AssignedAt(w, i) + 1])| && p < |Announced(w)| && Announced(w)[p] == LinuxInfo(w, i)
            && |RegisterAll(Announced(w)[..p])| == i && |RegisterAll(Announced(w)[..p + 1])| == i + 1
  {
    hide Replayed, RegisterAll, PacketFits, Announced;
    var a := AssignedAt(w, i);
    AssignedThere(w, i);
    RegistrationOfId(w, i);
    ReplayIsRegisterAll(w[..a], log);
    ReplayIsRegisterAll(w[..a + 1], log);
    assert w[..a + 1] == w[..a] + [w[a]];
    AnnouncedOneMore(w[..a], w[a]);
    AnnouncedGrows(w, a);
    AnnouncedGrows(w, a + 1);
    assert Announced(w)[..|Announced(w[..a])|] == Announced(w[..a]);
    assert Announced(w)[..|Announced(w[..a])| + 1] == Announced(w[..a + 1]);
  }

  /** A result that Linux took for the id was sent before the name of its lambda was announced again. */
  lemma ResultIsTimely(w: Wire, log: Log, i: nat, k: nat)
    requires PacketsFit(w, Coded, log) && AllUndisturbed(w) && i < |Replayed(w)|
    requires AssignedAt(w, i) < k < |w| && IsResultFor(w[k], i)
    ensures var p := PlaceOf(w, i);
            i < |log| && p < |Announced(w)| && forall m :: i < m <= p ==> Announced(w)[m].name != log[i].name
  {
    hide Replayed, RegisterAll, Announced;
    var a := AssignedAt(w, i);
    PlaceOfId(w, log, i);
    assert PacketFits(w[k], Coded, log);
    assert Undisturbed(Announced(w[..k]), w[k]);
    assert w[..k][..a + 1] == w[..a + 1];
    AnnouncedGrows(w[..k], a + 1);
    AnnouncedGrows(w, k);
    assert forall m :: 0 <= m < |Announced(w[..k])| ==> Announced(w)[m] == Announced(w[..k])[m];
  }

  /**
   * With the coded tag Linux takes the results of registration i for those of registration p: p is the one that
   * Linux has under the id i, its type is another, and i was still registered when p was announced.
   */
  predicate Confusion(log: Log, i: nat, p: nat) {
    && i < p < |Prefix(log)|
    && !Repeats(log, p) && |FirstUses(log[..p])| == i
    && ValidType(log[i].ltype) && log[i].ltype != log[p].ltype
    && forall k :: i < k <= p ==> log[k].name != log[i].name
  }

  /** A cached value of another type than the lambda's. */
  predicate Confused(s: State, i: nat) {
    Live(s.linux, i)
    && var e := s.linux[i].value;
       e.arg.cached && e.arg.ret.Some? && TypeOf(e.arg.ret.value) != e.info.ltype
  }

  /** The place p is that of a first use, of which there are i before. */
  lemma FirstUseThere(log: Log, i: nat, p: nat)
    requires p < |log| && NamesAreValid(log[..p + 1])
    requires |RegisterAll(log[..p])| == i && |RegisterAll(log[..p + 1])| == i + 1
    ensures !Repeats(log, p) && |FirstUses(log[..p])| == i <= p
  {
    var upTo := log[..p + 1];
    assert upTo[..|upTo| - 1] == log[..p];
    RegisterAllIsFirstUses(log[..p]);
    RegisterAllIsFirstUses(upTo);
    assert !Repeats(upTo, p);
    assert forall j :: 0 <= j < p ==> upTo[j] == log[j];
  }

  lemma ConfusionInWire(w: Wire, log: Log, i: nat) returns (p: nat)
    requires Possible(log) && PacketsFit(w, Coded, log) && Announced(w) <= Prefix(log) && AllUndisturbed(w)
    requires Live(Replayed(w), i) && Answered(w, i) && i < |log|
    requires ValidType(log[i].ltype) && Replayed(w)[i].value.info.ltype != log[i].ltype
    ensures Confusion(log, i, p)
  {
    hide Replayed, RegisterAll, FirstUses, Repeats, PacketsFit, Announced, AllUndisturbed, LinuxInfo;
    var k: nat :| AssignedAt(w, i) < k < |w| && IsResultFor(w[k], i);
    PlaceOfId(w, log, i);
    ResultIsTimely(w, log, i, k);
    LiveInfo(w, i);
    p := PlaceOf(w, i);
    assert Announced(w)[..p] == log[..p] && Announced(w)[..p + 1] == log[..p + 1];
    FirstUseThere(log, i, p);
  }

  lemma ConfusionFound(r: Run, i: nat) returns (p: nat)
    requires Legal(r) && r.tag.Coded? && Confused(End(r), i)
    ensures Confusion(End(r).log, i, p)
  {
    hide Replayed, PacketFits, Mirrors, ThreadInv, CallsInv, CrashInv, Known, Announced, AlwaysAgrees, AllUndisturbed,
         Answered, Confusion;
    var s := End(r);
    InvAlways(r);
    UnionTypeExactly(r, i);
    TimelyAlways(r);
    TimelyPrefix(s.wire, s.log, s.read);
    CachedByResult(Handled(s), i);
    p := ConfusionInWire(Handled(s), s.log, i);
  }

  lemma CachedByResult(w: Wire, i: nat)
    requires Live(Replayed(w), i) && Replayed(w)[i].value.arg.cached
    ensures Answered(w, i)
  {
    Provenance(w, i);
  }

  lemma FirstUseIsKnown(log: Log, i: nat, p: nat)
    requires Possible(log) && Confusion(log, i, p)
    ensures var known := Known(Coded, log[..p + 1]);
            |known| == i + 1 && known[i] == log[p]
  {
    var upTo := log[..p + 1];
    assert upTo[..|upTo| - 1] == log[..p] && Prefix(upTo) == upTo;
    assert forall j :: 0 <= j <= p ==> upTo[j] == log[j];
    assert !Repeats(upTo, p);
  }

  /** The board sends a result for the one lambda it has, and Linux handles it. */
  lemma SendAlone(r: Run, s: State, n: nat, i: nat, info: Info, v: Payload) returns (r': Run, s': State)
    requires Legal(r) && End(r) == s && s.crash.None? && s.read == |s.wire| && |s.errs| == |s.linux|
    requires forall t :: 0 <= t < |s.threads| ==> AtRest(s.threads[t])
    requires s.board == Alone(n, i, info, true) && i < n <= MAX_LAMBDAS && info.ltype == TypeOf(v)
    requires Live(s.linux, i)
    ensures Legal(r') && End(r') == s' && r'.tag == r.tag
    ensures s'.board == s.board && s'.log == s.log && s'.crash.None?
    ensures Live(s'.linux, i) && s'.linux[i].value.info == s.linux[i].value.info
    ensures s'.linux[i].value.arg == Cell(true, Some(Ntoh(Hton(v))))
  {
    hide End, Legal, HandlePacket, HandleErrors, Hton, Ntoh;
    r', s' := OneMore(r, s, Event.SendResult(i, v));
    HandleByKind(s.linux, s'.wire[s.read]);
    r', s' := ReceiveUnwatched(r', s');
  }

  /** Registration i is live on the board, and Linux has registration p under its id. */
  lemma ConfusionPrepared(log: Log, i: nat, p: nat) returns (r: Run, s: State)
    requires Possible(log) && Confusion(log, i, p)
    ensures Legal(r) && r.tag.Coded? && End(r) == s && s.crash.None? && s.read == |s.wire| && |s.errs| == |s.linux|
    ensures s.threads == [Idle] && s.log == log[..p + 1] && s.board == Alone(p + 1, i, log[i], true)
    ensures Live(s.linux, i) && s.linux[i].value.info == log[p]
  {
    hide End, Legal, Next, Enabled, Known, FirstUses, Repeats, ValidName, ValidType, NoResults;
    r, s := Begin(Coded, 1);
    assert s.threads == [Idle];
    r, s := RegisterButKeep(r, s, log[..p + 1], i, true);
    r, s := ReceiveAll(r, s);
    assert s.log == log[..p + 1];
    FirstUseIsKnown(log, i, p);
    KnownIsLive(r, i);
    LinuxKnows(r, i);
  }

  /** The results of i are sent once p is announced, and everything else is registered around that. */
  lemma ConfusedRun(log: Log, i: nat, p: nat) returns (r: Run)
    requires Possible(log) && Confusion(log, i, p)
    ensures Legal(r) && r.tag.Coded? && End(r).log == log && Confused(End(r), i)
  {
    hide End, Legal, Next, Enabled, FirstUses, Repeats, Hton, Ntoh, ValidName;
    var s: State;
    var v := SomeAnswer(log[i].ltype);
    NtohKeepsType(Hton(v));
    NtohOfHton(v);
    r, s := ConfusionPrepared(log, i, p);
    r, s := SendAlone(r, s, p + 1, i, log[i], v);
    r, s := SessionRuns.Unregister(r, s, i);
    r, s := RegisterAndDrop(r, s, log[p + 1..]);
    assert log[..p + 1] + log[p + 1..] == log;
  }

  ghost predicate MayConfuse(tag: Tag, log: Log, i: nat) {
    exists r: Run :: Legal(r) && r.tag == tag && End(r).log == log && Confused(End(r), i)
  }

  /** The registrations alone decide whether Linux can come to read a union member of the wrong type. */
  lemma TypeConfusionExactly(tag: Tag, log: Log, i: nat)
    requires Possible(log)
    ensures MayConfuse(tag, log, i) <==> tag.Coded? && exists p :: Confusion(log, i, p)
  {
    hide Confusion, Confused, Possible;
    if MayConfuse(tag, log, i) {
      var r: Run :| Legal(r) && r.tag == tag && End(r).log == log && Confused(End(r), i);
      if tag.Coded? {
        var p := ConfusionFound(r, i);
      } else {
        NeverConfused(r, i);
      }
    }
    if tag.Coded? && exists p :: Confusion(log, i, p) {
      var p :| Confusion(log, i, p);
      var r := ConfusedRun(log, i, p);
    }
  }

  lemma NeverConfused(r: Run, i: nat)
    requires Legal(r) && r.tag.Intended?
    ensures !Confused(End(r), i)
  {
    if Live(End(r).linux, i) {
      UnionTypeSafety(r, i);
    }
  }

  /** With the coded tag, once a name has been registered again: which types Linux can confuse. */
  lemma TypeConfusion(info: Info, again: Info, other: Info)
    requires Drifts(info, again, other)
    ensures MayConfuse(Coded, [info, again, other], 1) <==> ValidType(again.ltype) && again.ltype != other.ltype
  {
    var log := [info, again, other];
    TypeConfusionExactly(Coded, log, 1);
    DriftedIds(info, again, other);
    assert log[..2] == [info, again];
    assert Confusion(log, 1, 2) <==> ValidType(again.ltype) && again.ltype != other.ltype;
  }

  // ---------- success without a result ----------

  /** A call that is about to return RS_CALL_SUCCESS without a value newer than the call. */
  ghost predicate Misled(s: State, t: nat) {
    LinuxInv(s) && Enabled(s, Event.Finish(t))
    && var th := s.threads[t];
       var f := FinishOf(s, th.id, th.why);
       f.code == RS_CALL_SUCCESS && !Fresh(s, th.id, th.since, f.result)
  }

  lemma MisledByError(r: Run, s: State)
    requires Legal(r) && End(r) == s && NoResults(s.wire)
    requires |s.threads| == 1 && s.threads[0].Resumed? && s.threads[0].why.ByError?
    ensures Misled(s, 0)
  {
    hide BoardInv, CallsInv, CrashInv, Replayed, CallFits;
    InvAlways(r);
    assert ThreadFits(Handled(s), s.threads[0]);
  }

  lemma MisledHasCause(r: Run, t: nat)
    requires Legal(r) && Misled(End(r), t)
    ensures exists i, a :: Misleads(r.tag, Known(r.tag, End(r).log), i, a)
  {
    hide Fresh, LinuxInv, FinishOf, Next, Known, Misleads, ErrorsHaveCause, ResultSince;
    ValueFromWait(r, t);
    ErrorInvAlways(r);
    assert WokenByError(End(r).threads[t]);
  }

  lemma AnswerOfNone(b: BoardTable, id: Byte, expected: Byte, answer: Payload)
    requires NoneLive(b) && ValidType(expected)
    ensures Handle(b, CallById(id, expected), answer) == Reply([ResultError(id, RS_CALL_NOTFOUND)])
  {
  }

  lemma AnswerOfAnother(b: BoardTable, n: nat, j: nat, info: Info, expected: Byte, answer: Payload)
    requires b == Alone(n, j, info, true) && j < n <= MAX_LAMBDAS && ValidType(expected) && info.ltype != expected
    ensures Handle(b, CallByName(info.name, expected), answer) == Reply([ResultError(j, RS_CALL_WRONGTYPE)])
  {
    var o := ByName(b, info.name);
    assert Live(b, j);
    var i :| 0 <= i < |b| && b[i] == o;
  }

  /** With the coded tag: the board has unregistered everything, and the call is answered with an error. */
  lemma MisledWithCodedTag(log: Log, i: nat, a: nat) returns (r: Run)
    requires Possible(log) && Misleads(Coded, Known(Coded, log), i, a)
    ensures Legal(r) && r.tag.Coded? && End(r).log == log && Misled(End(r), 0)
  {
    hide End, Legal, Next, Enabled, CheckCall, Known, Handle, HandlePacket, HandleErrors, Misled, ValidName;
    var s: State;
    var t := Known(Coded, log)[i].ltype;
    r, s := Begin(Coded, 1);
    assert AtRest(s.threads[0]);
    r, s := RegisterAndDrop(r, s, log);
    assert s.log == log && NoneLive(s.board);
    r, s := ReceiveAll(r, s);
    KnownIsLive(r, i);
    LinuxKnows(r, i);
    HasToBeCalled(r, i, RequestById(i, t));
    r, s := CallAndWait(r, s, RequestById(i, t), i);
    AnswerOfNone(s.board, i, t, SomeAnswer(t));
    r, s := AnswerError(r, s, SomeAnswer(t), i, RS_CALL_NOTFOUND);
    MisledByError(r, s);
  }

  /** The board answers a call with an error, and Linux handles that. */
  lemma AnswerError(r: Run, s: State, answer: Payload, id: Byte, code: int) returns (r': Run, s': State)
    requires Legal(r) && End(r) == s && s.crash.None? && s.taken < |s.calls|
    requires AnswerFits(s.calls[s.taken].packet.expected, answer)
    requires Handle(s.board, s.calls[s.taken].packet, answer) == Reply([ResultError(id, code)])
    requires Live(s.linux, id) && |s.errs| == |s.linux| && s.read == |s.wire|
    requires |s.threads| == 1 && s.threads[0].Waiting? && s.threads[0].id == id && s.owner == None
    ensures Legal(r') && End(r') == s' && r'.tag == r.tag
    ensures s'.board == s.board && s'.log == s.log && s'.crash.None?
    ensures s'.wire == s.wire + [ResultError(id, code)]
    ensures |s'.threads| == 1 && s'.threads[0].Resumed? && s'.threads[0].why.ByError?
  {
    hide End, Legal, Handle;
    r', s' := AnswerWith(r, s, answer, ResultError(id, code));
    r', s' := WakeByError(r', s', id, code);
  }

  /** The first call is given up, and j registered under the name. */
  lemma Renamed(log: Log, i: nat, j: nat) returns (r: Run, s: State)
    requires Possible(log) && i < j < |log| && j < ANNOUNCED
    requires log[i].cache != RS_CACHE_ONLY
    ensures Legal(r) && r.tag.Intended? && End(r) == s && s.crash.None? && |s.errs| == |s.linux| && s.read == |s.wire|
    ensures s.board == Alone(j + 1, j, log[j], true) && s.log == log[..j + 1] && NoResults(s.wire)
    ensures s.calls == [CallRecord(CallByName(log[i].name, log[i].ltype), i)] && s.taken == 0
    ensures |s.threads| == 1 && AtRest(s.threads[0]) && s.owner == None
  {
    hide End, Legal, Next, Enabled, ValidName;
    r, s := CalledByName(log, i);
    r, s := GiveUp(r, s);
    r, s := SessionRuns.Unregister(r, s, i);
    r, s := RegisterButKeep(r, s, log[i + 1..j + 1], j - i - 1, true);
    assert s.log == log[..j + 1];
    r, s := ReceiveAll(r, s);
  }

  /** With the intended tag: while j is called, the board answers the first call by its name, with an error for j. */
  lemma MisledWithIntendedTag(log: Log, i: nat, j: nat) returns (r: Run)
    requires Possible(log) && Misleads(Intended, Known(Intended, log), i, j)
    ensures Legal(r) && r.tag.Intended? && End(r).log == log && Misled(End(r), 0)
  {
    hide End, Legal, Next, Enabled, CheckCall, Handle, Misled, Fresh, ValidName;
    var s: State;
    var req, answer := RequestById(j, log[j].ltype), SomeAnswer(log[i].ltype);
    r, s := Renamed(log, i, j);
    AloneIsLive(r, j, log[j]);
    LinuxKnows(r, j);
    HasToBeCalled(r, j, req);
    r, s := CallAndWait(r, s, req, j);
    AnswerOfAnother(s.board, j + 1, j, log[j], log[i].ltype, answer);
    r, s := AnswerError(r, s, answer, j, RS_CALL_WRONGTYPE);
    r, s := SessionRuns.Unregister(r, s, j);
    r, s := RegisterAndDrop(r, s, log[j + 1..]);
    assert log[..j + 1] + log[j + 1..] == log;
    MisledByError(r, s);
  }

  ghost predicate MayMislead(tag: Tag, log: Log) {
    exists r: Run, t: nat :: Legal(r) && r.tag == tag && End(r).log == log && Misled(End(r), t)
  }

  /**
   * The registrations alone decide whether RS_CALL_SUCCESS can come without a new value: with the coded tag
   * wherever there is a lambda to call, with the intended tag exactly if a name is registered again with another type.
   */
  lemma MisleadsExactly(tag: Tag, log: Log)
    requires Possible(log)
    ensures MayMislead(tag, log) <==> exists i, a :: Misleads(tag, Known(tag, log), i, a)
  {
    hide Misleads, Misled, Possible, Known;
    if MayMislead(tag, log) {
      var r: Run, t: nat :| Legal(r) && r.tag == tag && End(r).log == log && Misled(End(r), t);
      MisledHasCause(r, t);
    }
    if i, a :| Misleads(tag, Known(tag, log), i, a) {
      var r: Run;
      if tag.Coded? {
        r := MisledWithCodedTag(log, i, a);
      } else {
        r := MisledWithIntendedTag(log, i, a);
      }
    }
  }
}
