/** The Linux half: replaying registrations, caching results, and calls that wait for an answer. */
module Connector {
  import opened Machine
  import opened Protocol
  import opened LambdaRegistry

  /** What Linux keeps with a lambda: whether a result is cached, and the union member last written, if any. */
  datatype Cell = Cell(cached: bool, ret: Option<Value>)

  type LinuxTable = Table<Cell>

  /** last_call_error of every live lambda. It starts at 0. */
  type Errors = seq<Option<int>>

  const FRESH: Cell := Cell(false, None)

  /** The table after a packet. Packets of the wrong length for their type byte are dropped. */
  function HandlePacket(l: LinuxTable, p: BoardPacket): LinuxTable {
    if PType(p) == RS_PACKET_REGISTERED then
      if Size(p) != 15 then l else Registering(l, p.info, FRESH).table
    else if PType(p) == RS_PACKET_UNREGISTERED then
      if Size(p) != 14 then l else Unregistering(l, p.id).table
    else if PType(p) == RS_PACKET_RESULT_INT then
      if Size(p) != 18 then l else Cached(l, p.id, p.payload)
    else if PType(p) == RS_PACKET_RESULT_DOUBLE then
      if Size(p) != 22 then l else Cached(l, p.id, p.payload)
    else if PType(p) == RS_PACKET_RESULT_STRING then
      if Size(p) < 17 then l else Cached(l, p.id, p.payload)
    else l
  }

  function Cached(l: LinuxTable, id: nat, payload: Value): LinuxTable {
    var e := ById(l, id);
    if e.None? then l else l[id := Some(e.value.(arg := Cell(true, Some(Ntoh(payload)))))]
  }

  function HandleErrors(l: LinuxTable, errs: Errors, p: BoardPacket): (errs': Errors)
    requires |errs| == |l|
    ensures |errs'| == |HandlePacket(l, p)|
  {
    var l' := HandlePacket(l, p);
    if |l'| > |l| then errs + [Some(0)]
    else if Unregisters(p) && Live(l, p.id) then errs[p.id := None]
    else if p.Result? && Live(l, p.id) then errs[p.id := Some(RS_CALL_SUCCESS)]
    else if p.ResultError? && Live(l, p.id) then errs[p.id := Some(p.code)]
    else errs
  }

  /** The lambda whose condition variable the packet broadcasts. */
  function Woken(l: LinuxTable, p: BoardPacket): Option<nat> {
    if (p.Result? || p.ResultError?) && Live(l, p.id) then Some(p.id) else None
  }

  /** A caller's request. */
  datatype Request = RequestById(id: Byte, expected: Byte) | RequestByName(name: string, expected: Byte)

  function Lookup(l: LinuxTable, req: Request): Option<Entry<Cell>> {
    match req
    case RequestById(id, _) => ById(l, id)
    case RequestByName(name, _) => ByName(l, name)
  }

  function CallPacketFor(req: Request): CallPacket {
    match req
    case RequestById(id, expected) => CallById(id, expected)
    case RequestByName(name, expected) => CallByName(name, expected)
  }

  /** A call is answered at once, or the packet for the lambda of that id has to be sent. */
  datatype Verdict = Done(code: int, result: Option<Value>) | Proceed(id: nat)

  /** RS_CALL_SUCCESS here means that the lambda has to be called. */
  function CheckCache(e: Entry<Cell>): (int, Option<Value>) {
    if e.info.cache == RS_CACHE_CALL_ONCE then
      if e.arg.cached then (RS_CALL_CACHE, e.arg.ret) else (RS_CALL_SUCCESS, None)
    else if e.info.cache == RS_CACHE_ONLY then
      if e.arg.cached then (RS_CALL_CACHE, e.arg.ret) else (RS_CALL_CACHE_EMPTY, None)
    else (RS_CALL_SUCCESS, None)
  }

  function CheckCall(l: LinuxTable, req: Request): Verdict {
    var e := Lookup(l, req);
    if e.None? then Done(RS_CALL_NOTFOUND, None)
    else if e.value.info.ltype != req.expected then Done(RS_CALL_WRONGTYPE, None)
    else
      var (code, result) := CheckCache(e.value);
      if code != RS_CALL_SUCCESS then Done(code, result) else Proceed(e.value.id)
  }

  /** How a wait ends: the code, what was stored in the result, and the error left behind. */
  datatype Finished = Finished(code: int, result: Option<Value>, error: int)

  /** last_call_error is looked at only after a timeout. */
  function Finish(e: Entry<Cell>, error: int, timedOut: bool): Finished {
    if timedOut then
      if error != 0 then Finished(error, None, 0)
      else if e.info.cache == RS_CACHE_ON_TIMEOUT then
        if e.arg.cached then Finished(RS_CALL_CACHE_TIMEOUT, e.arg.ret, error)
        else Finished(RS_CALL_CACHE_TIMEOUT_EMPTY, None, error)
      else Finished(RS_CALL_TIMEOUT, None, error)
    else Finished(RS_CALL_SUCCESS, e.arg.ret, error)
  }

  /** The end of a wait for a lambda that is still there. */
  function FinishAt(l: LinuxTable, errs: Errors, id: nat, timedOut: bool): Finished {
    if Live(l, id) && id < |errs| && errs[id].Some? then Finish(l[id].value, errs[id].value, timedOut)
    else Finished(0, None, 0)
  }

  /** An error that has been reported is taken back. */
  function Reported(errs: Errors, id: nat, error: int): Errors {
    if id < |errs| && errs[id].Some? then errs[id := Some(error)] else errs
  }

  /** What a wait for a lambda leaves: packets are handled up to the first that wakes its waiters, if any does. */
  datatype Awaited = Awaited(view: LinuxTable, errors: Errors, timedOut: bool)

  function Await(l: LinuxTable, errs: Errors, id: nat, arrivals: seq<BoardPacket>): (a: Awaited)
    requires |errs| == |l|
    ensures |a.errors| == |a.view|
    decreases |arrivals|
  {
    if arrivals == [] then Awaited(l, errs, true)
    else
      var l', errs' := HandlePacket(l, arrivals[0]), HandleErrors(l, errs, arrivals[0]);
      if Woken(l, arrivals[0]) == Some(id) then Awaited(l', errs', false) else Await(l', errs', id, arrivals[1..])
  }

  /** Packets that can be handled while a thread has a pointer to the lambda of that id. */
  predicate Harmless(id: nat, arrivals: seq<BoardPacket>) {
    forall k :: 0 <= k < |arrivals| ==>
      (arrivals[k].Registered? ==> |arrivals[k].info.name| != MAX_LAMBDA_NAME_LENGTH)
      && (Unregisters(arrivals[k]) ==> arrivals[k].id != id)
  }

  /** A whole call: what it returns, what it sends, and the table and errors it leaves. */
  datatype Completed =
    Completed(code: int, result: Option<Value>, sent: seq<CallPacket>, view: LinuxTable, errors: Errors)

  function Complete(l: LinuxTable, errs: Errors, req: Request, arrivals: seq<BoardPacket>): Completed
    requires |errs| == |l|
  {
    match CheckCall(l, req)
    case Done(code, result) => Completed(code, result, [], l, errs)
    case Proceed(id) =>
      var a := Await(l, errs, id, arrivals);
      var f := FinishAt(a.view, a.errors, id, a.timedOut);
      Completed(f.code, f.result, [CallPacketFor(req)], a.view, Reported(a.errors, id, f.error))
  }

  // ---------- the program ----------

  class LinuxLambda {
    var dataCached: bool
    var lastCallError: int
    var ret: Option<Value>

    constructor ()
      ensures !dataCached && lastCallError == 0 && ret == None
    {
      dataCached, lastCallError, ret := false, 0, None;
    }

    method Store(result: Value)
      modifies this
      ensures dataCached && lastCallError == RS_CALL_SUCCESS && ret == Some(result)
    {
      ret := Some(result);
      lastCallError := RS_CALL_SUCCESS;
      dataCached := true;
    }
  }

  /** The objects that the live entries of a table point to. */
  function Objects(t: Table<LinuxLambda>): set<LinuxLambda> {
    set i | 0 <= i < |t| && Live(t, i) :: t[i].value.arg
  }

  function Contents(o: Option<Entry<LinuxLambda>>): Option<Entry<Cell>>
    reads if o.Some? then {o.value.arg} else {}
  {
    if o.None? then None
    else Some(Entry(o.value.id, o.value.info, Cell(o.value.arg.dataCached, o.value.arg.ret)))
  }

  function ErrorIn(o: Option<Entry<LinuxLambda>>): Option<int>
    reads if o.Some? then {o.value.arg} else {}
  {
    if o.None? then None else Some(o.value.arg.lastCallError)
  }

  /** Whether a table of objects holds this table of values and these errors. */
  ghost predicate Holds(t: Table<LinuxLambda>, l: LinuxTable, errs: Errors)
    reads Objects(t)
  {
    && |l| == |errs| == |t|
    && forall i :: 0 <= i < |t| ==> l[i] == Contents(t[i]) && errs[i] == ErrorIn(t[i])
  }

  lemma HoldsWithOneMore(t: Table<LinuxLambda>, l: LinuxTable, errs: Errors, info: Info, arg: LinuxLambda)
    requires Holds(t, l, errs)
    requires !arg.dataCached && arg.lastCallError == 0 && arg.ret == None
    ensures Holds(t + [Some(Entry(|t|, info, arg))], l + [Some(Entry(|t|, info, FRESH))], errs + [Some(0)])
    ensures Objects(t + [Some(Entry(|t|, info, arg))]) <= Objects(t) + {arg}
  {
    var t' := t + [Some(Entry(|t|, info, arg))];
    assert forall i :: Live(t', i) && i < |t| ==> Live(t, i);
  }

  ghost predicate DistinctObjects(t: Table<LinuxLambda>) {
    forall i, j :: Live(t, i) && Live(t, j) && i != j ==> t[i].value.arg != t[j].value.arg
  }

  /** The same for all entries but one, whatever the object of that one holds. */
  ghost predicate HoldsExcept(t: Table<LinuxLambda>, l: LinuxTable, errs: Errors, id: nat)
    requires Live(t, id)
    reads Objects(t) - {t[id].value.arg}
  {
    && |l| == |errs| == |t|
    && forall i :: 0 <= i < |t| && i != id ==>
         (Live(t, i) ==> t[i].value.arg in Objects(t) - {t[id].value.arg})
         && l[i] == Contents(t[i]) && errs[i] == ErrorIn(t[i])
  }

  lemma AllButOne(t: Table<LinuxLambda>, l: LinuxTable, errs: Errors, id: nat)
    requires Holds(t, l, errs) && DistinctObjects(t) && Live(t, id)
    ensures HoldsExcept(t, l, errs, id)
  {
  }

  lemma AllAgain(t: Table<LinuxLambda>, l: LinuxTable, errs: Errors, id: nat)
    requires Live(t, id) && HoldsExcept(t, l, errs, id)
    ensures Holds(t, l[id := Contents(t[id])], errs[id := ErrorIn(t[id])])
  {
  }

  lemma HoldsWithOneLess(t: Table<LinuxLambda>, l: LinuxTable, errs: Errors, id: nat)
    requires Holds(t, l, errs) && Live(t, id)
    ensures Holds(t[id := None], l[id := None], errs[id := None])
    ensures Objects(t[id := None]) <= Objects(t)
  {
    assert forall i :: Live(t[id := None], i) ==> Live(t, i);
  }

  /** Entries that are still live are the same, with the same object. */
  ghost predicate SameObjects(t: Table<LinuxLambda>, t': Table<LinuxLambda>) {
    |t| <= |t'| && forall i :: Live(t', i) && i < |t| ==> t'[i] == t[i]
  }

  class Client {
    const registry: Registry<LinuxLambda>
    var outbox: seq<CallPacket>
    /** Whether the calling thread owns accessing_registry. */
    var held: bool
    ghost var locks: nat
    ghost var unlocks: nat
    ghost var view: LinuxTable
    ghost var errors: Errors

    ghost function Repr(): set<object>
      reads registry
    {
      {this, registry, registry.slots} + Objects(registry.table)
    }

    ghost predicate Valid()
      reads this`view, this`errors, registry, registry.slots, Objects(registry.table)
    {
      var t := registry.table;
      && registry.Valid()
      && Holds(t, view, errors)
      && DistinctObjects(t)
    }

    constructor ()
      ensures Valid() && view == [] && errors == [] && outbox == [] && !held && locks == unlocks == 0
      ensures fresh(registry) && fresh(registry.slots)
    {
      registry := new Registry<LinuxLambda>();
      outbox, held, view, errors, locks, unlocks := [], false, [], [], 0, 0;
    }

    /** pthread_mutex_lock */
    method Lock()
      requires !held
      modifies this`held, this`locks
      ensures held && locks == old(locks) + 1
    {
      held, locks := true, locks + 1;
    }

    /** pthread_mutex_unlock */
    method Unlock()
      requires held
      modifies this`held, this`unlocks
      ensures !held && unlocks == old(unlocks) + 1
    {
      held, unlocks := false, unlocks + 1;
    }

    method HandleReceivedPacket(p: BoardPacket) returns (woken: Option<nat>)
      requires Valid()
      requires p.Registered? ==> |p.info.name| != MAX_LAMBDA_NAME_LENGTH
      modifies Repr()
      ensures Valid() && fresh(Repr() - old(Repr()))
      ensures outbox == old(outbox) && held == old(held) && locks == old(locks) && unlocks == old(unlocks)
      ensures SameObjects(old(registry.table), registry.table)
      ensures view == HandlePacket(old(view), p)
      ensures errors == HandleErrors(old(view), old(errors), p)
      ensures woken == Woken(old(view), p)
    {
      hide WellFormed, Registering, Unregistering, Cached;
      woken := None;
      if PType(p) == RS_PACKET_REGISTERED {
        if Size(p) == 15 {
          HandleRegistered(p.info);
        }
      } else if PType(p) == RS_PACKET_UNREGISTERED {
        if Size(p) == 14 {
          HandleUnregistered(p.id);
        }
      } else if PType(p) == RS_PACKET_RESULT_INT {
        if Size(p) == 18 {
          woken := HandleResult(p.id, p.payload);
        }
      } else if PType(p) == RS_PACKET_RESULT_DOUBLE {
        if Size(p) == 22 {
          woken := HandleResult(p.id, p.payload);
        }
      } else if PType(p) == RS_PACKET_RESULT_STRING {
        if Size(p) >= 17 {
          woken := HandleResult(p.id, p.payload);
        }
      } else if PType(p) == RS_PACKET_RESULT_ERROR {
        if Size(p) == 15 {
          woken := HandleError(p.id, p.code);
        }
      }
    }

    method HandleRegistered(info: Info)
      requires Valid() && |info.name| != MAX_LAMBDA_NAME_LENGTH
      modifies this`view, this`errors, registry, registry.slots
      ensures Valid() && fresh(Repr() - old(Repr())) && SameObjects(old(registry.table), registry.table)
      ensures view == Registering(old(view), info, FRESH).table
      ensures errors == if |view| > |old(view)| then old(errors) + [Some(0)] else old(errors)
    {
      hide WellFormed, Registering;
      ghost var t := registry.table;
      assert Skeleton(t) == Skeleton(view);
      var arg := new LinuxLambda();
      ParallelRegistering(t, view, info, arg, FRESH);
      var code := registry.Register(info, arg);
      HoldsWithOneMore(t, view, errors, info, arg);
      if |registry.table| > |t| {
        view, errors := view + [Some(Entry(|t|, info, FRESH))], errors + [Some(0)];
      }
    }

    method HandleUnregistered(id: Byte)
      requires Valid()
      modifies this`view, this`errors, registry`table, registry.slots
      ensures Valid() && Repr() <= old(Repr()) && SameObjects(old(registry.table), registry.table)
      ensures view == Unregistering(old(view), id).table
      ensures errors == if Live(old(view), id) then old(errors)[id := None] else old(errors)
    {
      hide WellFormed;
      ghost var t := registry.table;
      var e := registry.GetById(id as uint8);
      if e.Some? {
        var code := registry.Unregister(id as uint8);
        HoldsWithOneLess(t, view, errors, id);
        view, errors := view[id := None], errors[id := None];
      }
    }

    method HandleResult(id: Byte, payload: Value) returns (woken: Option<nat>)
      requires Valid()
      modifies this`view, this`errors, Objects(registry.table)
      ensures Valid()
      ensures view == Cached(old(view), id, payload)
      ensures errors == if Live(old(view), id) then old(errors)[id := Some(RS_CALL_SUCCESS)] else old(errors)
      ensures woken == if Live(old(view), id) then Some(id) else None
    {
      hide WellFormed, Ntoh;
      var e := registry.GetById(id as uint8);
      if e.None? {
        return None;
      }
      AllButOne(registry.table, view, errors, id);
      e.value.arg.Store(Ntoh(payload));
      AllAgain(registry.table, view, errors, id);
      view := view[id := Contents(e)];
      errors := errors[id := Some(RS_CALL_SUCCESS)];
      woken := Some(id);
    }

    method HandleError(id: Byte, error: int) returns (woken: Option<nat>)
      requires Valid()
      modifies this`errors, Objects(registry.table)
      ensures Valid()
      ensures errors == if Live(view, id) then old(errors)[id := Some(error)] else old(errors)
      ensures woken == if Live(view, id) then Some(id) else None
    {
      var e := registry.GetById(id as uint8);
      if e.None? {
        return None;
      }
      SetError(id, e.value, error);
      woken := Some(id);
    }

    /** lambda->arg.obj->last_call_error = error */
    method SetError(id: Byte, lambda: Entry<LinuxLambda>, error: int)
      requires Valid() && ById(registry.table, id) == Some(lambda)
      modifies this`errors, Objects(registry.table)
      ensures Valid() && errors == old(errors)[id := Some(error)]
    {
      hide WellFormed, registry.Valid;
      assert Live(registry.table, id);
      lambda.arg.lastCallError := error;
      errors := errors[id := Some(error)];
    }

    method CallLambdaById(id: Byte, expected: Byte, arrivals: seq<BoardPacket>)
      returns (code: int, result: Option<Value>)
      requires Valid() && !held && Harmless(id, arrivals)
      modifies Repr()
      ensures Valid() && fresh(Repr() - old(Repr()))
      ensures !held && locks - old(locks) == unlocks - old(unlocks) == if |outbox| > |old(outbox)| then 2 else 1
      ensures var c := Complete(old(view), old(errors), RequestById(id, expected), arrivals);
              code == c.code && result == c.result && outbox == old(outbox) + c.sent
              && view == c.view && errors == c.errors
    {
      hide WellFormed, Await, FinishAt, SameObjects, ByName, registry.Valid, Holds, DistinctObjects;
      Lock();
      var lambda := GetLambdaById(id, expected);
      if lambda.None? {
        Unlock();
        return RS_CALL_NOTFOUND, None;
      }
      if lambda.value.info.ltype != expected {
        Unlock();
        return RS_CALL_WRONGTYPE, None;
      }
      code, result := CheckLambdaCache(lambda.value);
      if code != 0 {
        Unlock();
        return;
      }
      outbox := outbox + [CallById(id, expected)];
      code, result := WaitLambdaResult(lambda.value, arrivals);
    }

    method CallLambdaByName(name: string, expected: Byte, arrivals: seq<BoardPacket>)
      returns (code: int, result: Option<Value>)
      requires Valid() && !held
      requires var e := ByName(view, name); e.Some? ==> Harmless(e.value.id, arrivals)
      modifies Repr()
      ensures Valid() && fresh(Repr() - old(Repr()))
      ensures !held && locks - old(locks) == unlocks - old(unlocks) == if |outbox| > |old(outbox)| then 2 else 1
      ensures var c := Complete(old(view), old(errors), RequestByName(name, expected), arrivals);
              code == c.code && result == c.result && outbox == old(outbox) + c.sent
              && view == c.view && errors == c.errors
    {
      hide WellFormed, Await, FinishAt, SameObjects, ByName, registry.Valid, Holds, DistinctObjects;
      Lock();
      var lambda := GetLambdaByName(name, expected);
      if lambda.None? {
        Unlock();
        return RS_CALL_NOTFOUND, None;
      }
      if lambda.value.info.ltype != expected {
        Unlock();
        return RS_CALL_WRONGTYPE, None;
      }
      code, result := CheckLambdaCache(lambda.value);
      if code != 0 {
        Unlock();
        return;
      }
      outbox := outbox + [CallByName(name, expected)];
      code, result := WaitLambdaResult(lambda.value, arrivals);
    }

    method GetLambdaById(id: Byte, ghost expected: Byte) returns (e: Option<Entry<LinuxLambda>>)
      requires Valid()
      ensures e.Some? ==> Holder(e.value) && e.value.id == id
      ensures Lookup(view, RequestById(id, expected)) == Contents(e)
    {
      hide registry.Valid, Objects;
      RegistryIsValid();
      e := registry.GetById(id as uint8);
      LookupsAgree(RequestById(id, expected), e);
    }

    method GetLambdaByName(name: string, ghost expected: Byte) returns (e: Option<Entry<LinuxLambda>>)
      requires Valid()
      ensures e.Some? ==> Holder(e.value)
      ensures Lookup(view, RequestByName(name, expected)) == Contents(e)
    {
      hide registry.Valid, Objects;
      RegistryIsValid();
      e := registry.GetByName(name);
      LookupsAgree(RequestByName(name, expected), e);
      if e.Some? {
        LookupsAreInverse(registry.table, name, e.value);
      }
    }

    /** The lambda is the one that the registry holds under its id. */
    ghost predicate Holder(lambda: Entry<LinuxLambda>)
      reads registry
    {
      Live(registry.table, lambda.id) && registry.table[lambda.id] == Some(lambda)
    }

    lemma RegistryIsValid()
      requires Valid()
      ensures registry.Valid()
      ensures forall i :: Live(registry.table, i) ==> registry.table[i].value.id == i
    {
    }

    /** Looking up in the table of objects finds what the table of values has there. */
    lemma LookupsAgree(req: Request, e: Option<Entry<LinuxLambda>>)
      requires Valid()
      requires e == if req.RequestById? then ById(registry.table, req.id) else ByName(registry.table, req.name)
      ensures Lookup(view, req) == Contents(e)
    {
      var t := registry.table;
      if req.RequestByName? {
        assert Skeleton(t) == Skeleton(view);
        SkeletonByName(t, req.name);
        SkeletonByName(view, req.name);
        if e.Some? {
          LookupsAreInverse(t, req.name, e.value);
          var f := Lookup(view, req);
          assert WellFormed(view);
          LookupsAreInverse(view, req.name, f.value);
        }
      }
    }

    method CheckLambdaCache(e: Entry<LinuxLambda>) returns (code: int, result: Option<Value>)
      ensures (code, result) == CheckCache(Contents(Some(e)).value)
    {
      result := None;
      if e.info.cache == RS_CACHE_NO_CACHE {
        return RS_CALL_SUCCESS, None;
      } else if e.info.cache == RS_CACHE_CALL_ONCE {
        if e.arg.dataCached {
          return RS_CALL_CACHE, e.arg.ret;
        }
        return RS_CALL_SUCCESS, None;
      } else if e.info.cache == RS_CACHE_ONLY {
        if e.arg.dataCached {
          return RS_CALL_CACHE, e.arg.ret;
        }
        return RS_CALL_CACHE_EMPTY, None;
      }
      code := RS_CALL_SUCCESS;
    }

    lemma HolderIsViewed(lambda: Entry<LinuxLambda>)
      requires Valid() && Holder(lambda)
      ensures |view| == |errors| && lambda.id < |view|
      ensures view[lambda.id] == Contents(Some(lambda)) && errors[lambda.id] == ErrorIn(Some(lambda))
      ensures registry.Valid()
    {
    }

    /** pthread_cond_timedwait: the mutex is free while packets are handled, until one broadcasts or time is up. */
    method CondTimedWait(lambda: Entry<LinuxLambda>, arrivals: seq<BoardPacket>) returns (timedOut: bool)
      requires Valid() && held && Holder(lambda) && Harmless(lambda.id, arrivals)
      modifies Repr()
      ensures Valid() && fresh(Repr() - old(Repr())) && Holder(lambda) && outbox == old(outbox)
      ensures held && locks == old(locks) + 1 && unlocks == old(unlocks) + 1
      ensures Awaited(view, errors, timedOut) == Await(old(view), old(errors), lambda.id, arrivals)
    {
      hide HandlePacket, HandleErrors, WellFormed;
      Unlock();
      timedOut := true;
      var k := 0;
      while k < |arrivals| && timedOut
        invariant k <= |arrivals| && Valid() && fresh(Repr() - old(Repr())) && Holder(lambda)
        invariant outbox == old(outbox) && !held && locks == old(locks) && unlocks == old(unlocks) + 1
        invariant Await(old(view), old(errors), lambda.id, arrivals)
                  == if timedOut then Await(view, errors, lambda.id, arrivals[k..]) else Awaited(view, errors, false)
      {
        StaysLive(view, arrivals[k], lambda.id);
        var woken := HandleReceivedPacket(arrivals[k]);
        timedOut := woken != Some(lambda.id);
        k := k + 1;
      }
      Lock();
    }

    method WaitLambdaResult(lambda: Entry<LinuxLambda>, arrivals: seq<BoardPacket>)
      returns (code: int, result: Option<Value>)
      requires Valid() && held && Holder(lambda) && Harmless(lambda.id, arrivals)
      modifies Repr()
      ensures Valid() && fresh(Repr() - old(Repr())) && outbox == old(outbox)
      ensures !held && locks == old(locks) + 1 && unlocks == old(unlocks) + 2
      ensures var a := Await(old(view), old(errors), lambda.id, arrivals);
              var f := FinishAt(a.view, a.errors, lambda.id, a.timedOut);
              code == f.code && result == f.result && view == a.view
              && errors == Reported(a.errors, lambda.id, f.error)
    {
      hide Await, WellFormed, HandlePacket, registry.Valid, Holds, DistinctObjects, SameObjects;
      var arg := lambda.arg;
      result := None;
      var timedOut := CondTimedWait(lambda, arrivals);
      HolderIsViewed(lambda);
      if timedOut {
        if arg.lastCallError != 0 {
          code := arg.lastCallError;
          SetError(lambda.id, lambda, 0);
          Unlock();
          return;
        }
        if lambda.info.cache == RS_CACHE_ON_TIMEOUT {
          if arg.dataCached {
            result := arg.ret;
            Unlock();
            return RS_CALL_CACHE_TIMEOUT, result;
          } else {
            Unlock();
            return RS_CALL_CACHE_TIMEOUT_EMPTY, None;
          }
        } else {
          Unlock();
          return RS_CALL_TIMEOUT, None;
        }
      }
      result := arg.ret;
      Unlock();
      code := RS_CALL_SUCCESS;
    }
  }

  /** A lambda that no packet unregisters stays live. */
  lemma StaysLive(l: LinuxTable, p: BoardPacket, id: nat)
    requires Live(l, id) && (Unregisters(p) ==> p.id != id)
    ensures Live(HandlePacket(l, p), id)
  {
  }
}
