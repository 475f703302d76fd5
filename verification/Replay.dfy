/**
 * Linux as a function of the packets it has handled: registered packets carry no id, so everything
 * rests on replaying them in order. What the replay of all packets the board has sent agrees with
 * the board on, and where a value that Linux caches comes from.
 */
module Replay {
  import opened Machine
  import opened Protocol
  import opened LambdaRegistry
  import opened Board
  import opened Connector

  /** Everything the board has ever sent, in order. */
  type Wire = seq<BoardPacket>

  function Init(w: Wire): Wire
    requires w != []
  {
    w[..|w| - 1]
  }

  function Last(w: Wire): BoardPacket
    requires w != []
  {
    w[|w| - 1]
  }

  /** The Linux table after the packets w. */
  function Replayed(w: Wire): LinuxTable {
    if w == [] then [] else HandlePacket(Replayed(Init(w)), Last(w))
  }

  /** The packet handler folded over packets that are still under way. */
  function Fold(l: LinuxTable, w: Wire): LinuxTable
    decreases |w|
  {
    if w == [] then l else Fold(HandlePacket(l, w[0]), w[1..])
  }

  lemma {:induction false} FoldContinuesReplay(w: Wire, k: nat)
    requires k <= |w|
    ensures Fold(Replayed(w[..k]), w[k..]) == Replayed(w)
    decreases |w| - k
  {
    if k == |w| {
      assert w[..k] == w;
    } else {
      assert Init(w[..k + 1]) == w[..k] && w[k..][1..] == w[k + 1..];
      FoldContinuesReplay(w, k + 1);
    }
  }

  lemma ReplayOneMore(w: Wire, p: BoardPacket)
    ensures Replayed(w + [p]) == HandlePacket(Replayed(w), p)
  {
    assert Init(w + [p]) == w;
  }

  /** The length checks leave of each kind of packet what its name says. */
  lemma HandleByKind(l: LinuxTable, p: BoardPacket)
    ensures HandlePacket(l, p) ==
            match p
            case Registered(info) => Registering(l, info, FRESH).table
            case Unregistered(ptype, id, _) =>
              if ptype == RS_PACKET_UNREGISTERED then Unregistering(l, id).table else l
            case ResultError(_, _) => l
            case Result(id, _, payload) => Cached(l, id, payload)
  {
  }

  /** The effect of a packet on the table without the cells. */
  function HandleBare(k: Table<()>, p: BoardPacket): Table<()> {
    match p
    case Registered(info) => Registering(k, info, ()).table
    case Unregistered(_, id, _) => if Unregisters(p) then Unregistering(k, id).table else k
    case _ => k
  }

  lemma SkeletonHandle(l: LinuxTable, p: BoardPacket)
    ensures Skeleton(HandlePacket(l, p)) == HandleBare(Skeleton(l), p)
  {
    hide HandlePacket, Registering, Unregistering;
    HandleByKind(l, p);
    match p {
      case Registered(info) => SkeletonRegistering(l, info, FRESH);
      case Unregistered(_, id, _) => SkeletonUnregistering(l, id);
      case _ =>
    }
  }

  lemma {:induction false} ReplayWellFormed(w: Wire)
    ensures WellFormed(Replayed(w))
  {
    hide HandlePacket, WellFormed;
    if w == [] {
      EmptyWellFormed<Cell>();
    } else {
      ReplayWellFormed(Init(w));
      HandleWellFormed(Replayed(Init(w)), Last(w));
    }
  }

  lemma EmptyWellFormed<A>()
    ensures WellFormed<A>([])
  {
  }

  lemma HandleWellFormed(l: LinuxTable, p: BoardPacket)
    requires WellFormed(l)
    ensures WellFormed(HandlePacket(l, p))
  {
    HandleByKind(l, p);
    match p {
      case Registered(info) => RegisterKeepsWellFormed(l, info, FRESH);
      case Unregistered(_, id, _) => UnregisterKeepsWellFormed(l, id);
      case ResultError(_, _) =>
      case Result(id, _, payload) => assert forall i :: Live(Cached(l, id, payload), i) ==> Live(l, i);
    }
  }

  /** A table never gets shorter, an id once given keeps its info, and a slot once emptied stays empty. */
  lemma HandleStep(l: LinuxTable, p: BoardPacket)
    ensures var l' := HandlePacket(l, p);
            |l| <= |l'| <= |l| + 1
            && (|l'| > |l| ==> p.Registered? && l'[|l|] == Some(Entry(|l|, p.info, FRESH)))
            && forall i :: Live(l', i) && i < |l| ==> Live(l, i) && l'[i].value.info == l[i].value.info
  {
    HandleByKind(l, p);
  }

  /** What a lookup finds is live, under the id it has. */
  lemma LookupFinds(w: Wire, req: Request)
    ensures var l, e := Replayed(w), Lookup(Replayed(w), req);
            e.Some? ==> Live(l, e.value.id) && l[e.value.id] == e && (req.RequestById? ==> e.value.id == req.id)
  {
    hide Replayed;
    ReplayWellFormed(w);
    var l, e := Replayed(w), Lookup(Replayed(w), req);
    match req {
      case RequestById(id, _) => assert e.Some? ==> Live(l, id);
      case RequestByName(name, _) =>
        if e.Some? {
          LookupsAreInverse(l, name, e.value);
        }
    }
  }

  // ---------- the board's history ----------

  /** All registrations that succeeded on the board, in order: the k-th one got id k. */
  type Log = seq<Info>

  predicate NamesAreValid(log: Log) {
    |log| <= MAX_LAMBDAS && forall i :: 0 <= i < |log| ==> ValidName(log[i].name)
  }

  /** The logs that a board can have had in a session; a name of 12 characters has no room for its terminator. */
  predicate Possible(log: Log) {
    NamesAreValid(log) && forall i :: 0 <= i < |log| ==> |log[i].name| != MAX_LAMBDA_NAME_LENGTH
  }

  ghost predicate BoardHistory(b: BoardTable, log: Log) {
    && WellFormed(b)
    && |b| == |log|
    && Possible(log)
    && (forall i :: Live(b, i) ==> b[i].value.info == log[i])
    && (forall i :: Live(b, i) && !b[i].value.arg ==> log[i].cache == RS_CACHE_ONLY)
    && (forall i, j :: Live(b, i) && i < j < |log| ==> log[j].name != log[i].name)
  }

  ghost predicate DistinctNames(log: Log) {
    forall i, j :: 0 <= i < j < |log| ==> log[i].name != log[j].name
  }

  /** Ids from 128 on look negative to the board, so it announces only the first 128. */
  const ANNOUNCED: nat := 128

  function Prefix<A>(s: seq<A>): (p: seq<A>)
    ensures p <= s && |p| == if |s| <= ANNOUNCED then |s| else ANNOUNCED
  {
    if |s| <= ANNOUNCED then s else s[..ANNOUNCED]
  }

  /** Registering every entry of a log, one after the other. */
  function RegisterAll(log: Log): Table<()> {
    if log == [] then []
    else Registering(RegisterAll(log[..|log| - 1]), log[|log| - 1], ()).table
  }

  /**
   * What Linux's table will be once it has handled everything sent: with the intended tag the
   * announced part of the board's own table; with the coded tag all announced registrations
   * replayed, since nothing is ever removed.
   */
  function Expected(tag: Tag, b: BoardTable, log: Log): Table<()> {
    if tag.Intended? then Skeleton(Prefix(b)) else RegisterAll(Prefix(log))
  }

  ghost predicate Mirrors(tag: Tag, b: BoardTable, log: Log, w: Wire) {
    Skeleton(Replayed(w)) == Expected(tag, b, log)
  }

  function LogAfter(log: Log, before: BoardTable, after: BoardTable, info: Info): Log {
    if |after| > |before| then log + [info] else log
  }

  lemma MirrorAfterRegister(tag: Tag, b: BoardTable, log: Log, w: Wire, info: Info, hasFn: bool)
    requires BoardHistory(b, log) && Mirrors(tag, b, log, w) && |info.name| != MAX_LAMBDA_NAME_LENGTH
    ensures var o := RegisterOutcome(b, info, hasFn);
            var log' := LogAfter(log, b, o.table, info);
            BoardHistory(o.table, log') && Mirrors(tag, o.table, log', w + o.out)
  {
    hide BoardHistory, RegisterOutcome, Registering, ValidName, Replayed, HandlePacket;
    var o := RegisterOutcome(b, info, hasFn);
    var log' := LogAfter(log, b, o.table, info);
    HistoryAfterRegister(b, log, info, hasFn);
    if |o.table| == |b| || |b| >= ANNOUNCED {
      assert w + [] == w;
      assert |o.table| > |b| ==> Prefix(o.table) == Prefix(b) && Prefix(log') == Prefix(log);
    } else {
      ReplayOneMore(w, BoardPacket.Registered(info));
      SkeletonHandle(Replayed(w), BoardPacket.Registered(info));
      if tag.Intended? {
        SkeletonRegistering(b, info, hasFn);
      } else {
        assert log'[..|log'| - 1] == log;
      }
    }
  }

  lemma HistoryAfterRegister(b: BoardTable, log: Log, info: Info, hasFn: bool)
    requires BoardHistory(b, log) && |info.name| != MAX_LAMBDA_NAME_LENGTH
    ensures var o := RegisterOutcome(b, info, hasFn);
            BoardHistory(o.table, LogAfter(log, b, o.table, info))
            && (o.table == b || (|b| < MAX_LAMBDAS && o.table == b + [Some(Entry(|b|, info, hasFn))]))
            && (o.table != b ==> o.table == Registering(b, info, hasFn).table) && |b| == |log|
            && o.out == if o.table != b && |b| < ANNOUNCED then [BoardPacket.Registered(info)] else []
  {
    RegisterKeepsWellFormed(b, info, hasFn);
    var t := RegisterOutcome(b, info, hasFn).table;
    assert forall i :: Live(t, i) && i < |b| ==> Live(b, i) && t[i] == b[i];
  }

  lemma MirrorAfterUnregister(tag: Tag, b: BoardTable, log: Log, w: Wire, id: Byte)
    requires BoardHistory(b, log) && Mirrors(tag, b, log, w)
    ensures var o := UnregisterOutcome(tag, b, id);
            BoardHistory(o.table, log) && Mirrors(tag, o.table, log, w + o.out)
  {
    var o := UnregisterOutcome(tag, b, id);
    UnregisterKeepsWellFormed(b, id);
    assert forall i :: Live(o.table, i) ==> Live(b, i) && o.table[i] == b[i];
    if ById(b, id).None? {
      assert w + [] == w;
    } else {
      ReplayOneMore(w, o.out[0]);
      SkeletonHandle(Replayed(w), o.out[0]);
      if tag.Intended? {
        SkeletonUnregistering(Prefix(b), id);
        assert Prefix(o.table) == Unregistering(Prefix(b), id).table;
      }
    }
  }

  /** Results and errors leave the mirror alone. */
  lemma MirrorAfterReply(tag: Tag, b: BoardTable, log: Log, w: Wire, p: BoardPacket)
    requires Mirrors(tag, b, log, w) && IsReply(p)
    ensures Mirrors(tag, b, log, w + [p])
  {
    ReplayOneMore(w, p);
    SkeletonHandle(Replayed(w), p);
  }

  // ---------- what Linux knows under each id ----------

  predicate Repeats(log: Log, p: nat)
    requires p < |log|
  {
    exists j :: 0 <= j < p && log[j].name == log[p].name
  }

  /** The registrations of a log that do not repeat a name. */
  function FirstUses(log: Log): (firsts: Log)
    ensures |firsts| <= |log|
  {
    if log == [] then []
    else FirstUses(log[..|log| - 1]) + if Repeats(log, |log| - 1) then [] else [log[|log| - 1]]
  }

  predicate Names(log: Log, name: string) {
    exists j :: 0 <= j < |log| && log[j].name == name
  }

  lemma NamesOneMore(log: Log, info: Info, name: string)
    ensures Names(log + [info], name) <==> Names(log, name) || info.name == name
  {
    var more := log + [info];
    assert more[|log|] == info && forall j :: 0 <= j < |log| ==> more[j] == log[j];
  }

  lemma {:induction false} SameNames(log: Log, name: string)
    ensures Names(FirstUses(log), name) <==> Names(log, name)
  {
    if log != [] {
      var init, info := log[..|log| - 1], log[|log| - 1];
      assert log == init + [info];
      SameNames(init, name);
      NamesOneMore(init, info, name);
      NamesOneMore(FirstUses(init), info, name);
      RepeatsAName(log);
      assert FirstUses(init) + [] == FirstUses(init);
    }
  }

  lemma RepeatsAName(log: Log)
    requires log != []
    ensures Repeats(log, |log| - 1) <==> Names(log[..|log| - 1], log[|log| - 1].name)
  {
    var init := log[..|log| - 1];
    assert forall j :: 0 <= j < |init| ==> init[j] == log[j];
  }

  lemma RegisterNext(k: Table<()>, firsts: Log, info: Info)
    requires |k| == |firsts| < MAX_LAMBDAS && ValidName(info.name)
    requires forall i :: 0 <= i < |k| ==> k[i] == Some(Entry(i, firsts[i], ()))
    ensures Registering(k, info, ()).table ==
            if Names(firsts, info.name) then k else k + [Some(Entry(|k|, info, ()))]
  {
    hide ValidName;
    var e := ByName(k, info.name);
    if Names(firsts, info.name) {
      var j :| 0 <= j < |firsts| && firsts[j].name == info.name;
      assert Live(k, j);
    }
    if e.Some? {
      var j :| 0 <= j < |k| && k[j] == e;
      assert firsts[j].name == info.name;
    }
  }

  lemma OneMoreRegistered(log: Log)
    requires log != []
    ensures var init, info := log[..|log| - 1], log[|log| - 1];
            RegisterAll(log) == Registering(RegisterAll(init), info, ()).table
            && FirstUses(log) == FirstUses(init) + if Names(init, info.name) then [] else [info]
  {
    hide Registering, Repeats, Names;
    RepeatsAName(log);
  }

  /** Where nothing is removed, a registration is refused exactly if it repeats a name. */
  lemma {:induction false} RegisterAllIsFirstUses(log: Log)
    requires NamesAreValid(log)
    ensures |RegisterAll(log)| == |FirstUses(log)|
    ensures forall i :: 0 <= i < |RegisterAll(log)| ==> RegisterAll(log)[i] == Some(Entry(i, FirstUses(log)[i], ()))
  {
    if log != [] {
      var init, info := log[..|log| - 1], log[|log| - 1];
      hide Registering, ValidName, Names, RegisterAll, FirstUses;
      assert NamesAreValid(init) && ValidName(info.name);
      RegisterAllIsFirstUses(init);
      OneMoreRegistered(log);
      SameNames(init, info.name);
      RegisterNext(RegisterAll(init), FirstUses(init), info);
    }
  }

  /** Without a repeated name, replaying a log gives every entry the id of its place. */
  lemma RegisterAllDistinct(log: Log)
    requires NamesAreValid(log) && DistinctNames(log)
    ensures |RegisterAll(log)| == |log|
    ensures forall i :: 0 <= i < |log| ==> RegisterAll(log)[i] == Some(Entry(i, log[i], ()))
  {
    RegisterAllIsFirstUses(log);
    DistinctHasNoRepeats(log);
  }

  /** A repeated name makes the replayed table shorter than the log for good. */
  lemma RegisterAllRepeated(log: Log)
    requires NamesAreValid(log)
    ensures |RegisterAll(log)| <= |log|
    ensures |RegisterAll(log)| == |log| ==> DistinctNames(log)
  {
    RegisterAllIsFirstUses(log);
    NoRepeatsIsDistinct(log);
  }

  lemma {:induction false} NoRepeatsIsDistinct(log: Log)
    ensures |FirstUses(log)| == |log| ==> DistinctNames(log)
  {
    if log != [] && |FirstUses(log)| == |log| {
      var init := log[..|log| - 1];
      NoRepeatsIsDistinct(init);
      assert !Repeats(log, |log| - 1);
      assert forall i :: 0 <= i < |init| ==> init[i] == log[i];
    }
  }

  /**
   * The registrations that Linux has under its ids once it has handled everything: with the intended tag the
   * announced ones, with the coded tag those of them that do not repeat a name.
   */
  function Known(tag: Tag, log: Log): (known: Log)
    ensures |known| <= |log|
  {
    if tag.Intended? then Prefix(log) else FirstUses(Prefix(log))
  }

  lemma {:induction false} DistinctHasNoRepeats(log: Log)
    requires DistinctNames(log)
    ensures FirstUses(log) == log
  {
    hide Repeats, DistinctNames;
    if log != [] {
      var init, info := log[..|log| - 1], log[|log| - 1];
      DistinctInit(log);
      DistinctHasNoRepeats(init);
      assert init + [info] == log;
    }
  }

  lemma DistinctInit(log: Log)
    requires DistinctNames(log) && log != []
    ensures DistinctNames(log[..|log| - 1]) && !Repeats(log, |log| - 1)
  {
  }

  /** Where names are distinct, or the tag is as intended, what Linux knows under an id is what the board has there. */
  lemma FaithfulIsKnown(tag: Tag, log: Log)
    requires Faithful(tag, log)
    ensures Known(tag, log) == Prefix(log)
  {
    if tag.Coded? {
      DistinctHasNoRepeats(Prefix(log));
    }
  }

  // ---------- ids and types ----------

  /** With the coded tag, names must not repeat for ids to agree; with the intended tag they may. */
  ghost predicate Faithful(tag: Tag, log: Log) {
    tag.Intended? || DistinctNames(log)
  }

  /** Linux knows each lambda under the board's id, name, type and cache policy, and caches values of that type. */
  ghost predicate Agrees(l: LinuxTable, log: Log) {
    && |l| <= |log|
    && forall i :: Live(l, i) ==>
         && l[i].value.id == i && l[i].value.info == log[i]
         && (l[i].value.arg.cached ==>
               l[i].value.arg.ret.Some? && TypeOf(l[i].value.arg.ret.value) == log[i].ltype)
  }

  /** That holds at every moment of the replay. */
  ghost predicate AlwaysAgrees(w: Wire, log: Log) {
    Agrees(Replayed(w), log) && (w != [] ==> AlwaysAgrees(Init(w), log))
  }

  lemma {:induction false} AgreesWithLongerLog(w: Wire, log: Log, info: Info)
    requires AlwaysAgrees(w, log)
    ensures AlwaysAgrees(w, log + [info])
  {
    if w != [] {
      AgreesWithLongerLog(Init(w), log, info);
    }
  }

  /** The packets that a board with this log sends. */
  ghost predicate PacketFits(p: BoardPacket, tag: Tag, log: Log) {
    match p
    case Registered(info) => |info.name| != MAX_LAMBDA_NAME_LENGTH
    case Unregistered(ptype, id, name) => ptype == TagByte(tag) && id < |log| && name == log[id].name
    case ResultError(_, code) => code < 0
    case Result(id, name, payload) =>
      id < |log| && name == log[id].name && TypeOf(payload) == log[id].ltype && exists v: Payload :: payload == Hton(v)
  }

  ghost predicate PacketsFit(w: Wire, tag: Tag, log: Log) {
    forall k :: 0 <= k < |w| ==> PacketFits(w[k], tag, log)
  }

  /** A packet other than a registration keeps the agreement, whatever it hits. */
  lemma AgreementAfterPacket(tag: Tag, log: Log, w: Wire, p: BoardPacket)
    requires AlwaysAgrees(w, log) && PacketFits(p, tag, log) && !p.Registered?
    ensures AlwaysAgrees(w + [p], log)
  {
    ReplayOneMore(w, p);
    assert Init(w + [p]) == w;
    HandleByKind(Replayed(w), p);
    var l, l' := Replayed(w), Replayed(w + [p]);
    assert forall i :: Live(l', i) ==> Live(l, i);
  }

  /** An announced registration gets on Linux, when its turn comes, the id it has on the board. */
  lemma AgreementAfterRegister(tag: Tag, b: BoardTable, log: Log, w: Wire, info: Info)
    requires BoardHistory(b, log) && Mirrors(tag, b, log, w) && AlwaysAgrees(w, log)
    requires |log| < ANNOUNCED && Faithful(tag, log + [info])
    ensures AlwaysAgrees(w + [BoardPacket.Registered(info)], log + [info])
  {
    hide Agrees, Replayed, HandlePacket, Registering, Mirrors, BoardHistory;
    var p := BoardPacket.Registered(info);
    AgreesWithLongerLog(w, log, info);
    ReplayOneMore(w, p);
    assert Init(w + [p]) == w;
    SettledLength(tag, b, log, w, info);
    RegisteringAgrees(Replayed(w), log, info);
    HandleByKind(Replayed(w), p);
  }

  /** Before the next announced registration, the replayed table is as long as the log. */
  lemma SettledLength(tag: Tag, b: BoardTable, log: Log, w: Wire, info: Info)
    requires BoardHistory(b, log) && Mirrors(tag, b, log, w)
    requires |log| < ANNOUNCED && Faithful(tag, log + [info])
    ensures |Replayed(w)| == |log|
  {
    hide WellFormed, Replayed, RegisterAll;
    if tag.Coded? {
      assert DistinctNames(log) by {
        assert forall i :: 0 <= i < |log| ==> (log + [info])[i] == log[i];
      }
      RegisterAllDistinct(log);
    }
  }

  lemma RegisteringAgrees(l: LinuxTable, log: Log, info: Info)
    requires Agrees(l, log) && |l| == |log|
    ensures Agrees(Registering(l, info, FRESH).table, log + [info])
  {
    var l' := Registering(l, info, FRESH).table;
    assert forall i :: Live(l', i) && i < |l| ==> Live(l, i) && l'[i] == l[i];
  }

  // ---------- where ids and values come from ----------

  /** The place in w of the registration that got the id i. */
  function AssignedAt(w: Wire, i: nat): (k: nat)
    requires i < |Replayed(w)|
    ensures k < |w|
  {
    if i < |Replayed(Init(w))| then AssignedAt(Init(w), i) else |w| - 1
  }

  /** The lambda that Linux has, or had, under the id i. */
  function LinuxInfo(w: Wire, i: nat): Info
    requires i < |Replayed(w)|
  {
    RegistrationOfId(w, i);
    w[AssignedAt(w, i)].info
  }

  lemma {:induction false} RegistrationOfId(w: Wire, i: nat)
    requires i < |Replayed(w)|
    ensures w[AssignedAt(w, i)].Registered?
    ensures Live(Replayed(w), i) ==>
              Replayed(w)[i].value.id == i && w[AssignedAt(w, i)].info == Replayed(w)[i].value.info
  {
    ReplayWellFormed(w);
    HandleStep(Replayed(Init(w)), Last(w));
    if i < |Replayed(Init(w))| {
      RegistrationOfId(Init(w), i);
    }
  }

  lemma LinuxInfoStays(w: Wire, p: BoardPacket, i: nat)
    requires i < |Replayed(w)|
    ensures i < |Replayed(w + [p])| && LinuxInfo(w + [p], i) == LinuxInfo(w, i)
  {
    ReplayOneMore(w, p);
    HandleStep(Replayed(w), p);
    assert Init(w + [p]) == w;
  }

  lemma {:induction false} LinuxInfoOfPrefix(w: Wire, k: nat, i: nat)
    requires k <= |w| && i < |Replayed(w[..k])|
    ensures i < |Replayed(w)| && LinuxInfo(w, i) == LinuxInfo(w[..k], i)
    decreases |w| - k
  {
    hide Replayed, LinuxInfo;
    if k == |w| {
      assert w[..k] == w;
    } else {
      assert w[..k] + [w[k]] == w[..k + 1];
      LinuxInfoStays(w[..k], w[k], i);
      LinuxInfoOfPrefix(w, k + 1, i);
    }
  }

  lemma {:induction false} LinuxInfoIsLogged(w: Wire, log: Log, i: nat)
    requires AlwaysAgrees(w, log) && i < |Replayed(w)|
    ensures i < |log| && LinuxInfo(w, i) == log[i]
  {
    HandleStep(Replayed(Init(w)), Last(w));
    RegistrationOfId(w, i);
    if i < |Replayed(Init(w))| {
      LinuxInfoIsLogged(Init(w), log, i);
    } else {
      assert Live(Replayed(w), i);
    }
  }

  lemma PlaceStays(w: Wire, p: BoardPacket, i: nat)
    requires i < |Replayed(w)|
    ensures i < |Replayed(w + [p])| && AssignedAt(w + [p], i) == AssignedAt(w, i)
  {
    ReplayOneMore(w, p);
    HandleStep(Replayed(w), p);
    assert Init(w + [p]) == w;
  }

  /** What Linux has, or had, under an id is what the board's log says it knows. */
  lemma LinuxInfoIsKnown(tag: Tag, b: BoardTable, log: Log, w: Wire, i: nat)
    requires BoardHistory(b, log) && Mirrors(tag, b, log, w) && (tag.Intended? ==> AlwaysAgrees(w, log))
    requires i < |Replayed(w)|
    ensures |Replayed(w)| == |Known(tag, log)| && LinuxInfo(w, i) == Known(tag, log)[i]
  {
    hide Replayed, FirstUses, LinuxInfo;
    var l := Replayed(w);
    if tag.Intended? {
      LinuxInfoIsLogged(w, log, i);
    } else {
      RegisterAllIsFirstUses(Prefix(log));
      assert Skeleton(l)[i] == Bare(l[i]);
      LiveInfo(w, i);
    }
  }

  lemma LiveInfo(w: Wire, i: nat)
    requires Live(Replayed(w), i)
    ensures LinuxInfo(w, i) == Replayed(w)[i].value.info
  {
    RegistrationOfId(w, i);
  }

  predicate IsResultFor(p: BoardPacket, i: nat) {
    p.Result? && p.id == i
  }

  /** The packet at k is a result for i, and no later one is. */
  predicate IsLatestResult(w: Wire, i: nat, k: nat) {
    k < |w| && IsResultFor(w[k], i) && forall j :: k < j < |w| ==> !IsResultFor(w[j], i)
  }

  /**
   * What Linux caches for a live lambda is the payload of the latest result packet for its id, and that
   * packet came after the lambda's registration; if it caches nothing, there was no such packet.
   */
  ghost predicate CacheIsLatest(w: Wire, i: nat)
    requires Live(Replayed(w), i)
  {
    var cell := Replayed(w)[i].value.arg;
    if cell.cached then
      exists k: nat :: AssignedAt(w, i) < k && IsLatestResult(w, i, k) && cell.ret == Some(Ntoh(w[k].payload))
    else
      cell.ret == None && forall j :: AssignedAt(w, i) < j < |w| ==> !IsResultFor(w[j], i)
  }

  lemma {:induction false} Provenance(w: Wire, i: nat)
    requires Live(Replayed(w), i)
    ensures CacheIsLatest(w, i)
  {
    var v, p := Init(w), Last(w);
    HandleStep(Replayed(v), p);
    if i < |Replayed(v)| {
      Provenance(v, i);
      CacheAfterPacket(w, i);
    }
  }

  /** A result for the lambda has been handled since it was registered. */
  ghost predicate Answered(w: Wire, i: nat)
    requires i < |Replayed(w)|
  {
    exists k: nat :: AssignedAt(w, i) < k < |w| && IsResultFor(w[k], i)
  }

  /**
   * What the cache policies decide, in terms of the packets handled: RS_CACHE_CALL_ONCE and RS_CACHE_ONLY lambdas are
   * answered from the cache exactly if a result came since the registration, and then with the latest one; without
   * one an RS_CACHE_ONLY lambda is not called, and every other is.
   */
  lemma CacheDecision(w: Wire, i: nat)
    requires Live(Replayed(w), i)
    ensures var e := Replayed(w)[i].value;
            var (code, result) := CheckCache(e);
            (code == RS_CALL_CACHE <==>
               Answered(w, i) && (e.info.cache == RS_CACHE_CALL_ONCE || e.info.cache == RS_CACHE_ONLY))
            && (code == RS_CALL_CACHE_EMPTY <==> !Answered(w, i) && e.info.cache == RS_CACHE_ONLY)
            && (code == RS_CALL_SUCCESS <==>
                  e.info.cache != RS_CACHE_ONLY && !(e.info.cache == RS_CACHE_CALL_ONCE && Answered(w, i)))
            && if code == RS_CALL_CACHE then LatestValue(w, i, result) else result == None
  {
    hide Replayed, Ntoh;
    Provenance(w, i);
  }

  /** A request is for the live lambda of its id or name. */
  predicate AsksFor(l: LinuxTable, req: Request, i: int) {
    Live(l, i)
    && match req
       case RequestById(id, _) => id == i
       case RequestByName(name, _) => l[i].value.info.name == name
  }

  lemma LookupExactly(w: Wire, req: Request)
    ensures var l, e := Replayed(w), Lookup(Replayed(w), req);
            (forall i :: AsksFor(l, req, i) ==> e == l[i] && e.value.id == i)
            && (e.Some? ==> AsksFor(l, req, e.value.id))
  {
    hide Replayed;
    var l := Replayed(w);
    LookupFinds(w, req);
    ReplayWellFormed(w);
    forall i | AsksFor(l, req, i)
      ensures Lookup(l, req) == l[i] && l[i].value.id == i
    {
      LookupsAreInverse(l, l[i].value.info.name, l[i].value);
    }
  }

  /**
   * A call for the lambda has to be sent: it is of the type asked for, not RS_CACHE_ONLY, nor RS_CACHE_CALL_ONCE with a
   * result that came since its registration.
   */
  ghost predicate HasToCall(w: Wire, req: Request, i: nat)
    requires AsksFor(Replayed(w), req, i)
  {
    var info := Replayed(w)[i].value.info;
    && info.ltype == req.expected
    && info.cache != RS_CACHE_ONLY
    && !(info.cache == RS_CACHE_CALL_ONCE && Answered(w, i))
  }

  /** A call is refused as not found exactly if it is for no live lambda. */
  lemma NotFoundExactly(w: Wire, req: Request)
    ensures var v := CheckCall(Replayed(w), req);
            v.Done? && v.code == RS_CALL_NOTFOUND <==> forall i :: !AsksFor(Replayed(w), req, i)
  {
    hide Replayed;
    LookupExactly(w, req);
  }

  /**
   * What is decided about a call before anything is sent: it is for a lambda of another type, whatever is cached; or
   * as `CacheDecision` says. In all other cases the lambda is called, under its own id.
   */
  lemma CheckExactly(w: Wire, req: Request, i: nat)
    requires AsksFor(Replayed(w), req, i)
    ensures var v, info := CheckCall(Replayed(w), req), Replayed(w)[i].value.info;
            var typed := info.ltype == req.expected;
            (v.Done? && v.code == RS_CALL_WRONGTYPE <==> !typed)
            && (v.Done? && v.code == RS_CALL_CACHE <==>
                  typed && Answered(w, i) && (info.cache == RS_CACHE_CALL_ONCE || info.cache == RS_CACHE_ONLY))
            && (v.Done? && v.code == RS_CALL_CACHE_EMPTY <==> typed && !Answered(w, i) && info.cache == RS_CACHE_ONLY)
            && (v.Proceed? <==> HasToCall(w, req, i)) && (v.Proceed? ==> v.id == i)
            && (v.Done? ==> if v.code == RS_CALL_CACHE then LatestValue(w, i, v.result) else v.result == None)
  {
    hide Replayed, Ntoh, Answered;
    LookupExactly(w, req);
    CacheDecision(w, i);
  }

  /** The value of the latest result for the lambda. */
  ghost predicate LatestValue(w: Wire, i: nat, result: Option<Value>) {
    exists k: nat :: IsLatestResult(w, i, k) && result == Some(Ntoh(w[k].payload))
  }

  /**
   * What a call returns whose wait has timed out, in terms of the packets handled by then: an error that is pending;
   * else, with the policy RS_CACHE_ON_TIMEOUT, the latest result since the registration if there was one, and with any
   * other policy nothing.
   */
  ghost predicate EndsLate(w: Wire, i: nat, error: int, code: int, result: Option<Value>)
    requires Live(Replayed(w), i)
  {
    var onTimeout := Replayed(w)[i].value.info.cache == RS_CACHE_ON_TIMEOUT;
    if error != 0 then code == error && result == None
    else
      (code == RS_CALL_CACHE_TIMEOUT <==> onTimeout && Answered(w, i))
      && (code == RS_CALL_CACHE_TIMEOUT_EMPTY <==> onTimeout && !Answered(w, i))
      && (code == RS_CALL_TIMEOUT <==> !onTimeout)
      && if code == RS_CALL_CACHE_TIMEOUT then LatestValue(w, i, result) else result == None
  }

  /** A pending error is taken back by a timeout alone; without one the call succeeds, with the latest result if any. */
  lemma EndDecision(w: Wire, i: nat, error: int, timedOut: bool)
    requires Live(Replayed(w), i) && error <= 0
    ensures var f := Finish(Replayed(w)[i].value, error, timedOut);
            (!timedOut <==> f.code == RS_CALL_SUCCESS)
            && (timedOut ==> EndsLate(w, i, error, f.code, f.result) && f.error == 0)
            && (!timedOut ==>
                  f.error == error && if Answered(w, i) then LatestValue(w, i, f.result) else f.result == None)
  {
    hide Replayed, Ntoh;
    Provenance(w, i);
  }

  lemma CacheAfterPacket(w: Wire, i: nat)
    requires w != [] && Live(Replayed(Init(w)), i) && Live(Replayed(w), i)
    requires CacheIsLatest(Init(w), i)
    ensures CacheIsLatest(w, i)
  {
    hide HandlePacket, Replayed, Ntoh;
    var v, p := Init(w), Last(w);
    assert w == v + [p];
    ReplayOneMore(v, p);
    CellAfterPacket(Replayed(v), p, i);
    PlaceStays(v, p, i);
    var cell := Replayed(w)[i].value.arg;
    if IsResultFor(p, i) {
      assert IsLatestResult(w, i, |v|);
    } else if cell.cached {
      var k: nat :| AssignedAt(v, i) < k && IsLatestResult(v, i, k) && cell.ret == Some(Ntoh(v[k].payload));
      assert IsLatestResult(w, i, k);
    }
  }

  /** A lambda that stays live keeps its cell, unless the packet is a result for it. */
  lemma CellAfterPacket(l: LinuxTable, p: BoardPacket, i: nat)
    requires Live(l, i) && Live(HandlePacket(l, p), i)
    ensures HandlePacket(l, p)[i].value.arg ==
            if IsResultFor(p, i) then Cell(true, Some(Ntoh(p.payload))) else l[i].value.arg
  {
    HandleByKind(l, p);
  }
}
