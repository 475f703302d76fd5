/** The board's half: registering lambdas, answering calls and sending results. */
module Board {
  import opened Machine
  import opened Protocol
  import opened LambdaRegistry

  /** The board's registry entries carry a function pointer; all that matters here is whether it is not null. */
  type BoardTable = Table<bool>

  /** A new table, the return code, and the packets sent if the connection is started. */
  datatype Outcome = Outcome(table: BoardTable, code: int, out: seq<BoardPacket>)

  function RegisterOutcome(b: BoardTable, info: Info, hasFn: bool): Outcome {
    if !hasFn && info.cache != RS_CACHE_ONLY then Outcome(b, RS_REGISTER_INVALPARAM, [])
    else
      var r := Registering(b, info, hasFn);
      Outcome(r.table, r.code, if r.code < 0 then [] else [BoardPacket.Registered(info)])
  }

  function UnregisterOutcome(tag: Tag, b: BoardTable, id: Byte): Outcome {
    var e := ById(b, id);
    if e.None? then Outcome(b, RS_UNREGISTER_NOTFOUND, [])
    else
      Outcome(Unregistering(b, id).table, RS_UNREGISTER_SUCCESS,
              [Unregistered(TagByte(tag), id, e.value.info.name)])
  }

  function SendOutcome(b: BoardTable, id: Byte, v: Payload): Outcome {
    var e := ById(b, id);
    if e.None? then Outcome(b, RS_RESULT_NOTFOUND, [])
    else if e.value.info.ltype != TypeOf(v) then Outcome(b, RS_RESULT_WRONGTYPE, [])
    else Outcome(b, RS_RESULT_SUCCESS, [Result(id, e.value.info.name, Hton(v))])
  }

  /** A call reaches the user's function, or a null function, or fails before. */
  datatype Call = Failed(code: int) | Invoked | NullInvoked

  function CallOutcome(b: BoardTable, id: Byte, expected: Byte): Call {
    var e := ById(b, id);
    if e.None? then Failed(RS_CALL_NOTFOUND)
    else if e.value.info.ltype != expected then Failed(RS_CALL_WRONGTYPE)
    else if e.value.arg then Invoked
    else NullInvoked
  }

  /** The packets sent in answer to a call, or the invocation of a null function. */
  datatype Handling = Reply(out: seq<BoardPacket>) | Crash

  /** The answer is what the user's function returns if it is invoked. */
  predicate AnswerFits(expected: Byte, answer: Payload) {
    ValidType(expected) ==> TypeOf(answer) == expected
  }

  function HandleById(b: BoardTable, id: Byte, expected: Byte, answer: Payload): Handling {
    if !ValidType(expected) then Reply([])
    else
      match CallOutcome(b, id, expected)
      case Failed(code) => Reply([ResultError(id, code)])
      case Invoked => Reply(SendOutcome(b, id, answer).out)
      case NullInvoked => Crash
  }

  function Handle(b: BoardTable, c: CallPacket, answer: Payload): Handling {
    match c
    case CallById(id, expected) => HandleById(b, id, expected, answer)
    case CallByName(name, expected) =>
      var e := ByName(b, name);
      if e.Some? && e.value.id < 255 then HandleById(b, e.value.id, expected, answer) else Reply([])
  }

  // ---------- the program ----------

  class Node {
    const registry: Registry<bool>
    var started: bool
    /** What has been handed to the serial connection. */
    var outbox: seq<BoardPacket>

    ghost predicate Valid()
      reads this, registry, registry.slots
    {
      registry.Valid()
    }

    ghost function View(): BoardTable
      reads this, registry, registry.slots
    {
      registry.table
    }

    constructor ()
      ensures Valid() && fresh(registry) && fresh(registry.slots)
      ensures View() == [] && !started && outbox == []
    {
      registry := new Registry<bool>();
      started, outbox := false, [];
    }

    method Start()
      requires Valid()
      modifies this, registry`table, registry.slots
      ensures Valid() && started && outbox == old(outbox)
      ensures |View()| == |old(View())| && forall i :: 0 <= i < |View()| ==> View()[i].None?
    {
      registry.Init();
      started := true;
    }

    method RegisterLambda(info: Info, hasFn: bool) returns (code: int)
      requires Valid() && |info.name| != MAX_LAMBDA_NAME_LENGTH
      modifies this, registry, registry.slots
      ensures Valid() && started == old(started)
      ensures var o := RegisterOutcome(old(View()), info, hasFn);
              View() == o.table && code == o.code && outbox == old(outbox) + if started then o.out else []
    {
      if !hasFn && info.cache != RS_CACHE_ONLY {
        return RS_REGISTER_INVALPARAM;
      }
      code := registry.Register(info, hasFn);
      if code < 0 {
        return;
      }
      if started {
        outbox := outbox + [BoardPacket.Registered(info)];
      }
    }

    method UnregisterLambda(tag: Tag, id: Byte) returns (code: int)
      requires Valid()
      modifies this, registry`table, registry.slots
      ensures Valid() && started == old(started)
      ensures var o := UnregisterOutcome(tag, old(View()), id);
              View() == o.table && code == o.code && outbox == old(outbox) + if started then o.out else []
    {
      var e := registry.GetById(id as uint8);
      if e.None? {
        return RS_UNREGISTER_NOTFOUND;
      }
      if started {
        outbox := outbox + [Unregistered(TagByte(tag), id, e.value.info.name)];
      }
      code := registry.Unregister(id as uint8);
      code := RS_UNREGISTER_SUCCESS;
    }

    method CallLambda(id: Byte, expected: Byte) returns (c: Call)
      requires Valid()
      ensures c == CallOutcome(View(), id, expected)
    {
      var e := registry.GetById(id as uint8);
      if e.None? {
        return Failed(RS_CALL_NOTFOUND);
      }
      if e.value.info.ltype != expected {
        return Failed(RS_CALL_WRONGTYPE);
      }
      c := if e.value.arg then Invoked else NullInvoked;
    }

    method SendResult(id: Byte, v: Payload) returns (code: int)
      requires Valid()
      modifies this
      ensures Valid() && started == old(started)
      ensures var o := SendOutcome(old(View()), id, v);
              View() == o.table && code == o.code && outbox == old(outbox) + if started then o.out else []
    {
      var e := registry.GetById(id as uint8);
      if e.None? {
        return RS_RESULT_NOTFOUND;
      }
      if e.value.info.ltype != TypeOf(v) {
        return RS_RESULT_WRONGTYPE;
      }
      if started {
        outbox := outbox + [Result(id, e.value.info.name, Hton(v))];
      }
      code := RS_RESULT_SUCCESS;
    }

    method GetLambdaIdFromName(name: string) returns (id: Byte)
      requires Valid()
      ensures var e := ByName(View(), name);
              if e.Some? then id == e.value.id < 255 else id == 255
    {
      var e := registry.GetByName(name);
      if e.None? {
        return 255;
      }
      assert Live(View(), e.value.id) by {
        LookupsAreInverse(View(), name, e.value);
      }
      id := e.value.id;
    }

    method HandleCallLambda(id: Byte, expected: Byte, answer: Payload) returns (crashed: bool)
      requires Valid() && AnswerFits(expected, answer)
      modifies this
      ensures Valid() && started == old(started) && View() == old(View())
      ensures crashed == HandleById(View(), id, expected, answer).Crash?
      ensures !crashed ==>
                outbox == old(outbox) + if started then HandleById(View(), id, expected, answer).out else []
    {
      if !ValidType(expected) {
        return false;
      }
      var c := CallLambda(id, expected);
      match c {
        case NullInvoked =>
          return true;
        case Invoked =>
          var code := SendResult(id, answer);
        case Failed(code) =>
          if started {
            outbox := outbox + [ResultError(id, code)];
          }
      }
      crashed := false;
    }

    method HandleReceivedPacket(c: CallPacket, answer: Payload) returns (crashed: bool)
      requires Valid() && AnswerFits(c.expected, answer)
      modifies this
      ensures Valid() && started == old(started) && View() == old(View())
      ensures crashed == Handle(View(), c, answer).Crash?
      ensures !crashed ==> outbox == old(outbox) + if started then Handle(View(), c, answer).out else []
    {
      crashed := false;
      match c {
        case CallById(id, expected) =>
          crashed := HandleCallLambda(id, expected, answer);
        case CallByName(name, expected) =>
          var id := GetLambdaIdFromName(name);
          if id != 255 {
            crashed := HandleCallLambda(id, expected, answer);
          }
      }
    }
  }

  // ---------- return codes ----------

  /**
   * A registration is accepted exactly if a null function is not one to call, and the registry takes it. Then the
   * lambda and its function are found under the next id, which the code stands for; it is announced exactly if that
   * id is below 128. Nothing else is ever sent.
   */
  lemma RegisterOutcomeExactly(b: BoardTable, info: Info, hasFn: bool)
    requires |b| <= MAX_LAMBDAS
    ensures var o := RegisterOutcome(b, info, hasFn);
            var misused := !hasFn && info.cache != RS_CACHE_ONLY;
            if misused || Full(b) || BadName(info.name) || Taken(b, info.name) then
              o.table == b && o.out == []
              && (o.code == RS_REGISTER_INVALPARAM <==> misused)
              && (o.code == RS_REGISTER_LIMIT_REACHED <==> !misused && Full(b))
              && (o.code == RS_REGISTER_INVALNAME <==> !misused && !Full(b) && BadName(info.name))
              && (o.code == RS_REGISTER_DUPLICATE <==> !misused && !Full(b) && !BadName(info.name))
            else
              IdOf(o.code) == |b| == |o.table| - 1
              && o.table[..|b|] == b && ById(o.table, |b|) == Some(Entry(|b|, info, hasFn))
              && o.out == if |b| < 128 then [BoardPacket.Registered(info)] else []
  {
    hide BadName, Registering;
    RegisterExactly(b, info, hasFn);
  }

  /** Three registrations are accepted with the code of a refusal: those that get the ids 251, 253 and 254. */
  lemma CodesClashExactly(b: BoardTable, info: Info, hasFn: bool)
    requires |b| <= MAX_LAMBDAS && |RegisterOutcome(b, info, hasFn).table| > |b|
    ensures var code := RegisterOutcome(b, info, hasFn).code;
            (code == RS_REGISTER_LIMIT_REACHED || code == RS_REGISTER_INVALNAME || code == RS_REGISTER_DUPLICATE
             || code == RS_REGISTER_INVALPARAM) <==>
            |b| == 251 || |b| == 253 || |b| == 254
  {
    hide BadName, Taken, Registering;
    RegisterOutcomeExactly(b, info, hasFn);
  }

  /** Exactly a live lambda is unregistered, and announced under its id and name with the tag's type byte. */
  lemma UnregisterOutcomeExactly(tag: Tag, b: BoardTable, id: Byte)
    ensures var o := UnregisterOutcome(tag, b, id);
            (o.code == RS_UNREGISTER_SUCCESS <==> Live(b, id))
            && (o.code == RS_UNREGISTER_NOTFOUND <==> !Live(b, id))
            && |o.table| == |b| && !Live(o.table, id)
            && (forall i :: 0 <= i < |b| && i != id ==> o.table[i] == b[i])
            && (Live(b, id) ==>
                  |o.out| == 1 && o.out[0].Unregistered? && o.out[0].id == id && o.out[0].name == b[id].value.info.name
                  && (Unregisters(o.out[0]) <==> tag.Intended?))
            && (!Live(b, id) ==> o.out == [])
  {
    UnregisterExactly(b, id);
  }

  /** A result is sent exactly for a live lambda of its type, under that lambda's id and name. */
  lemma SendOutcomeExactly(b: BoardTable, id: Byte, v: Payload)
    ensures var o := SendOutcome(b, id, v);
            o.table == b
            && (o.code == RS_RESULT_NOTFOUND <==> !Live(b, id))
            && (o.code == RS_RESULT_WRONGTYPE <==> Live(b, id) && b[id].value.info.ltype != TypeOf(v))
            && (o.code == RS_RESULT_SUCCESS <==> Live(b, id) && b[id].value.info.ltype == TypeOf(v))
            && (o.code != RS_RESULT_SUCCESS ==> o.out == [])
            && (o.code == RS_RESULT_SUCCESS ==>
                  |o.out| == 1 && o.out[0].Result? && o.out[0].id == id && o.out[0].name == b[id].value.info.name
                  && Arrived(v, Ntoh(o.out[0].payload)))
  {
    hide Hton, Ntoh, Arrived;
    NtohOfHton(v);
  }

  // ---------- replies ----------

  predicate IsReply(p: BoardPacket) {
    p.Result? || p.ResultError?
  }

  /** The id that a call is for, if the board answers it at all. */
  function Addressee(b: BoardTable, c: CallPacket): Option<nat> {
    if !ValidType(c.expected) then None
    else
      match c
      case CallById(id, _) => Some(id)
      case CallByName(name, _) => var e := ByName(b, name); if e.Some? then Some(e.value.id) else None
  }

  /** A null function is invoked exactly by a call of its type for a live lambda that has none. */
  lemma CrashExactly(b: BoardTable, c: CallPacket, answer: Payload)
    requires WellFormed(b)
    ensures Handle(b, c, answer).Crash? <==>
            match Addressee(b, c)
            case None => false
            case Some(id) => Live(b, id) && b[id].value.info.ltype == c.expected && !b[id].value.arg
  {
    if c.CallByName? && ByName(b, c.name).Some? {
      LookupsAreInverse(b, c.name, ByName(b, c.name).value);
    }
  }

  /** A call of one of the three types is for the id in it, or for the live lambda of the name in it. */
  lemma AddresseeExactly(b: BoardTable, c: CallPacket, id: nat)
    requires WellFormed(b)
    ensures Addressee(b, c) == Some(id) <==>
            1 <= c.expected <= 3
            && match c
               case CallById(i, _) => i == id
               case CallByName(name, _) => Live(b, id) && b[id].value.info.name == name
  {
    if c.CallByName? && ByName(b, c.name).Some? {
      LookupsAreInverse(b, c.name, ByName(b, c.name).value);
    }
    if Live(b, id) {
      LookupsAreInverse(b, b[id].value.info.name, b[id].value);
    }
  }

  /**
   * A call with an addressee gets exactly one reply, for that id: the answer as a result of the expected type if the
   * lambda is live with that type, and else an error that says which of the two is not so. No other call gets any.
   */
  lemma OneReplyPerCall(b: BoardTable, c: CallPacket, answer: Payload)
    requires WellFormed(b) && AnswerFits(c.expected, answer) && Handle(b, c, answer).Reply?
    ensures var out := Handle(b, c, answer).out;
            match Addressee(b, c)
            case None => out == []
            case Some(id) =>
              |out| == 1 && IsReply(out[0]) && out[0].id == id
              && (out[0].Result? <==> Live(b, id) && b[id].value.info.ltype == c.expected)
              && (out[0].Result? ==>
                    out[0].payload == Hton(answer) && TypeOf(out[0].payload) == c.expected
                    && out[0].name == b[id].value.info.name)
              && (out[0] == ResultError(id, RS_CALL_NOTFOUND) <==> !Live(b, id))
              && (out[0] == ResultError(id, RS_CALL_WRONGTYPE) <==> Live(b, id) && b[id].value.info.ltype != c.expected)
  {
    if c.CallByName? && ByName(b, c.name).Some? {
      LookupsAreInverse(b, c.name, ByName(b, c.name).value);
    }
  }
}
