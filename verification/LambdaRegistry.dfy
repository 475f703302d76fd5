/** The registry of lambdas that both sides run: a table in which ids are given out in order and never again. */
module LambdaRegistry {
  import opened Machine
  import opened Protocol

  datatype Entry<+A> = Entry(id: nat, info: Info, arg: A)

  /** The table up to the counter: the next id is the length, a freed slot is None. */
  type Table<+A> = seq<Option<Entry<A>>>

  predicate Live<A>(r: Table<A>, i: int) {
    0 <= i < |r| && r[i].Some?
  }

  predicate IsAlnum(c: char) {
    '0' <= c <= '9' || 'A' <= c <= 'Z' || 'a' <= c <= 'z'
  }

  predicate ValidName(name: string) {
    0 < |name| <= MAX_LAMBDA_NAME_LENGTH && forall i :: 0 <= i < |name| ==> IsAlnum(name[i])
  }

  function ById<A>(r: Table<A>, id: nat): Option<Entry<A>> {
    if id < |r| then r[id] else None
  }

  /** The first live lambda of that name. */
  function ByName<A>(r: Table<A>, name: string): (o: Option<Entry<A>>)
    ensures o.Some? ==> o in r && o.value.info.name == name
    ensures o.None? ==> forall i :: Live(r, i) ==> r[i].value.info.name != name
  {
    if r == [] then None
    else if r[0].Some? && r[0].value.info.name == name then r[0]
    else
      var o := ByName(r[1..], name);
      assert forall i :: Live(r, i) && i > 0 ==> r[i] == r[1..][i - 1];
      o
  }

  datatype Registration<+A> = Registration(table: Table<A>, code: int)

  /** The return type is a signed byte, so ids from 128 on look like errors. */
  function ToInt8(id: nat): int
    requires id < 256
  {
    if id < 128 then id else id - 256
  }

  function Registering<A>(r: Table<A>, info: Info, arg: A): Registration<A> {
    if |r| >= MAX_LAMBDAS then Registration(r, RS_REGISTER_LIMIT_REACHED)
    else if !ValidName(info.name) then Registration(r, RS_REGISTER_INVALNAME)
    else if ByName(r, info.name).Some? then Registration(r, RS_REGISTER_DUPLICATE)
    else Registration(r + [Some(Entry(|r|, info, arg))], ToInt8(|r|))
  }

  function Unregistering<A>(r: Table<A>, id: nat): Registration<A> {
    if ById(r, id).None? then Registration(r, RS_UNREGISTER_NOTFOUND)
    else Registration(r[id := None], RS_UNREGISTER_SUCCESS)
  }

  // ---------- what registering and unregistering return ----------

  /** The id that a caller has to read from a return code. */
  function IdOf(code: int): int {
    if code < 0 then code + 256 else code
  }

  predicate Full<A>(r: Table<A>) {
    |r| == MAX_LAMBDAS
  }

  predicate BadName(name: string) {
    name == "" || |name| > 12 || exists i :: 0 <= i < |name| && !Digit(name[i]) && !Letter(name[i])
  }

  /** In ASCII. */
  predicate Digit(c: char) {
    48 <= c as int <= 57
  }

  predicate Letter(c: char) {
    65 <= c as int <= 90 || 97 <= c as int <= 122
  }

  ghost predicate Taken<A>(r: Table<A>, name: string) {
    exists i :: Live(r, i) && r[i].value.info.name == name
  }

  /**
   * A registration is refused exactly if all ids are given out, the name is bad, or a live lambda has it, and the code
   * names the first of these. Else the lambda is found under the next id, which the code stands for.
   */
  lemma RegisterExactly<A>(r: Table<A>, info: Info, arg: A)
    requires |r| <= MAX_LAMBDAS
    ensures var o := Registering(r, info, arg);
            if Full(r) || BadName(info.name) || Taken(r, info.name) then
              o.table == r
              && (o.code == RS_REGISTER_LIMIT_REACHED <==> Full(r))
              && (o.code == RS_REGISTER_INVALNAME <==> !Full(r) && BadName(info.name))
              && (o.code == RS_REGISTER_DUPLICATE <==> !Full(r) && !BadName(info.name))
            else
              -128 <= o.code < 128 && IdOf(o.code) == |r| == |o.table| - 1
              && o.table[..|r|] == r && ById(o.table, |r|) == Some(Entry(|r|, info, arg))
  {
    assert forall c :: IsAlnum(c) <==> Digit(c) || Letter(c);
    var e := ByName(r, info.name);
    if e.Some? {
      var i :| 0 <= i < |r| && r[i] == e;
      assert Live(r, i) && Taken(r, info.name);
    }
  }

  /** Exactly a live lambda is unregistered: its slot alone becomes empty, and stays an id that was given out. */
  lemma UnregisterExactly<A>(r: Table<A>, id: nat)
    ensures var o := Unregistering(r, id);
            (o.code == RS_UNREGISTER_SUCCESS <==> Live(r, id))
            && (o.code == RS_UNREGISTER_NOTFOUND <==> !Live(r, id))
            && |o.table| == |r| && !Live(o.table, id)
            && forall i :: 0 <= i < |r| && i != id ==> o.table[i] == r[i]
  {
  }

  /** Every live lambda sits under its own id, and no two have the same name. */
  ghost predicate WellFormed<A>(r: Table<A>) {
    && |r| <= MAX_LAMBDAS
    && (forall i :: Live(r, i) ==> r[i].value.id == i && ValidName(r[i].value.info.name))
    && (forall i, j :: Live(r, i) && Live(r, j) && i != j ==> r[i].value.info.name != r[j].value.info.name)
  }

  // ---------- tables that differ only in what they attach ----------

  function Bare<A>(o: Option<Entry<A>>): Option<Entry<()>> {
    if o.None? then None else Some(Entry(o.value.id, o.value.info, ()))
  }

  /** The table without the arguments. */
  function Skeleton<A>(r: Table<A>): (k: Table<()>)
    ensures |k| == |r| && forall i :: 0 <= i < |r| ==> k[i] == Bare(r[i])
  {
    seq(|r|, i requires 0 <= i < |r| => Bare(r[i]))
  }

  lemma {:induction false} SkeletonByName<A>(r: Table<A>, name: string)
    ensures ByName(Skeleton(r), name) == Bare(ByName(r, name))
  {
    if r != [] {
      SkeletonByName(r[1..], name);
      assert Skeleton(r)[1..] == Skeleton(r[1..]);
    }
  }

  /** Registering does not depend on the arguments attached. */
  lemma SkeletonRegistering<A>(r: Table<A>, info: Info, arg: A)
    ensures Skeleton(Registering(r, info, arg).table) == Registering(Skeleton(r), info, ()).table
    ensures Registering(r, info, arg).code == Registering(Skeleton(r), info, ()).code
  {
    SkeletonByName(r, info.name);
  }

  /** Tables with the same skeleton accept or refuse the same registrations. */
  lemma ParallelRegistering<A, B>(r: Table<A>, s: Table<B>, info: Info, a: A, b: B)
    requires Skeleton(r) == Skeleton(s)
    ensures (Registering(r, info, a).table == r && Registering(s, info, b).table == s)
            || (Registering(r, info, a).table == r + [Some(Entry(|r|, info, a))]
                && Registering(s, info, b).table == s + [Some(Entry(|r|, info, b))])
  {
    SkeletonByName(r, info.name);
    SkeletonByName(s, info.name);
  }

  lemma SkeletonUnregistering<A>(r: Table<A>, id: nat)
    ensures Skeleton(Unregistering(r, id).table) == Unregistering(Skeleton(r), id).table
    ensures Unregistering(r, id).code == Unregistering(Skeleton(r), id).code
  {
  }

  // ---------- the program ----------

  /** The static array and counter of lambda_registry.c. */
  class Registry<A> {
    const slots: array<Option<Entry<A>>>
    var counter: uint8
    ghost var table: Table<A>

    ghost predicate Valid()
      reads this, slots
    {
      && slots.Length == MAX_LAMBDAS && counter as nat == |table| <= MAX_LAMBDAS
      && (forall i :: 0 <= i < |table| ==> slots[i] == table[i])
      && (forall i :: |table| <= i < MAX_LAMBDAS ==> slots[i].None?)
      && WellFormed(table)
    }

    constructor ()
      ensures Valid() && fresh(slots) && table == []
    {
      slots := new Option<Entry<A>>[MAX_LAMBDAS](_ => None);
      counter := 0;
      table := [];
    }

    /** Empties every slot, but leaves the counter as it is. */
    method Init()
      requires Valid()
      modifies this`table, slots
      ensures Valid() && |table| == |old(table)| && forall i :: 0 <= i < |table| ==> table[i].None?
    {
      var i: uint8 := 0;
      while i < 255
        invariant i <= 255 && table == old(table)
        invariant forall k :: 0 <= k < 255 && (k < i as nat || k >= counter as nat) ==> slots[k].None?
      {
        slots[i] := None;
        i := i + 1;
      }
      table := seq(|table|, _ => None);
    }

    method Free()
      requires Valid()
      modifies this, slots
      ensures Valid() && table == []
    {
      var i: uint8 := 0;
      while i < counter
        invariant i <= counter == old(counter) && table == old(table)
        invariant forall k :: 0 <= k < 255 && (k < i as nat || k >= counter as nat) ==> slots[k].None?
      {
        if slots[i].Some? {
          slots[i] := None;
        }
        i := i + 1;
      }
      counter := 0;
      table := [];
    }

    method GetById(id: uint8) returns (e: Option<Entry<A>>)
      requires Valid()
      ensures e == ById(table, id as nat)
    {
      if id >= 255 || id >= counter {
        e := None;
      } else {
        e := slots[id];
      }
    }

    method GetByName(name: string) returns (e: Option<Entry<A>>)
      requires Valid()
      ensures e == ByName(table, name)
    {
      var i: uint8 := 0;
      while i < counter
        invariant i <= counter
        invariant ByName(table, name) == ByName(table[i as nat..], name)
      {
        if slots[i].Some? && slots[i].value.info.name == name {
          return slots[i];
        }
        i := i + 1;
      }
      return None;
    }

    /** A name of 12 characters passes the check, but the field has no room for its terminator. */
    method Register(info: Info, arg: A) returns (code: int)
      requires Valid()
      requires |info.name| != MAX_LAMBDA_NAME_LENGTH
      modifies this, slots
      ensures Valid()
      ensures table == Registering(old(table), info, arg).table
      ensures code == Registering(old(table), info, arg).code
    {
      RegisterKeepsWellFormed(table, info, arg);
      if counter >= 255 {
        return RS_REGISTER_LIMIT_REACHED;
      }
      if |info.name| == 0 || |info.name| > MAX_LAMBDA_NAME_LENGTH {
        return RS_REGISTER_INVALNAME;
      }
      var k := 0;
      while k < |info.name|
        invariant k <= |info.name|
        invariant forall j :: 0 <= j < k ==> IsAlnum(info.name[j])
      {
        if !IsAlnum(info.name[k]) {
          return RS_REGISTER_INVALNAME;
        }
        k := k + 1;
      }
      var other := GetByName(info.name);
      if other.Some? {
        return RS_REGISTER_DUPLICATE;
      }
      var myid := counter;
      slots[myid] := Some(Entry(myid as nat, info, arg));
      counter := counter + 1;
      table := table + [Some(Entry(myid as nat, info, arg))];
      code := ToInt8(myid as nat);
    }

    method Unregister(id: uint8) returns (code: int)
      requires Valid()
      modifies this`table, slots
      ensures Valid()
      ensures table == Unregistering(old(table), id as nat).table
      ensures code == Unregistering(old(table), id as nat).code
    {
      UnregisterKeepsWellFormed(table, id as nat);
      if id >= 255 || id >= counter {
        return RS_UNREGISTER_NOTFOUND;
      }
      if slots[id].None? {
        return RS_UNREGISTER_NOTFOUND;
      }
      slots[id] := None;
      table := table[id as nat := None];
      code := RS_UNREGISTER_SUCCESS;
    }
  }

  // ---------- what every operation keeps ----------

  lemma RegisterKeepsWellFormed<A>(r: Table<A>, info: Info, arg: A)
    requires WellFormed(r)
    ensures WellFormed(Registering(r, info, arg).table)
  {
    var r' := Registering(r, info, arg).table;
    assert forall i :: Live(r', i) && i < |r| ==> Live(r, i) && r'[i] == r[i];
  }

  lemma UnregisterKeepsWellFormed<A>(r: Table<A>, id: nat)
    requires WellFormed(r)
    ensures WellFormed(Unregistering(r, id).table)
  {
    var r' := Unregistering(r, id).table;
    assert forall i :: Live(r', i) ==> Live(r, i) && r'[i] == r[i];
  }

  datatype Op<+A> = RegisterOp(info: Info, arg: A) | UnregisterOp(id: nat) | InitOp | FreeOp

  function Apply<A>(r: Table<A>, op: Op<A>): Table<A> {
    match op
    case RegisterOp(info, arg) => Registering(r, info, arg).table
    case UnregisterOp(id) => Unregistering(r, id).table
    case InitOp => seq(|r|, _ => None)
    case FreeOp => []
  }

  function ApplyAll<A>(r: Table<A>, ops: seq<Op<A>>): Table<A>
    decreases |ops|
  {
    if ops == [] then r else ApplyAll(Apply(r, ops[0]), ops[1..])
  }

  function IdGiven<A>(r: Table<A>, op: Op<A>): seq<nat> {
    var r' := Apply(r, op);
    if |r'| > |r| then [r'[|r|].value.id] else []
  }

  lemma NextIdIsGiven<A>(r: Table<A>, op: Op<A>)
    requires !op.FreeOp?
    ensures |Apply(r, op)| == |r| + |IdGiven(r, op)|
    ensures IdGiven(r, op) == [] || IdGiven(r, op) == [|r|]
  {
  }

  /** The ids that a sequence of operations gives out, in order. */
  function IdsGiven<A>(r: Table<A>, ops: seq<Op<A>>): seq<nat>
    decreases |ops|
  {
    if ops == [] then []
    else
      IdGiven(r, ops[0]) + IdsGiven(Apply(r, ops[0]), ops[1..])
  }

  /** The codes that the accepted registrations return, in order. */
  function CodesGiven<A>(r: Table<A>, ops: seq<Op<A>>): seq<int>
    decreases |ops|
  {
    if ops == [] then []
    else
      var accepted := ops[0].RegisterOp? && |Apply(r, ops[0])| > |r|;
      (if accepted then [Registering(r, ops[0].info, ops[0].arg).code] else [])
      + CodesGiven(Apply(r, ops[0]), ops[1..])
  }

  /** Whatever the operations, frees among them, each accepted registration returns a code for the id it was given. */
  lemma {:induction false} CodesStandForIds<A>(r: Table<A>, ops: seq<Op<A>>)
    requires |r| <= MAX_LAMBDAS
    ensures |CodesGiven(r, ops)| == |IdsGiven(r, ops)|
    ensures forall k :: 0 <= k < |CodesGiven(r, ops)| ==>
              -128 <= CodesGiven(r, ops)[k] < 128 && IdOf(CodesGiven(r, ops)[k]) == IdsGiven(r, ops)[k]
    decreases |ops|
  {
    hide Registering, Unregistering, IdOf;
    if ops != [] {
      var op := ops[0];
      match op {
        case RegisterOp(info, arg) => RegisterExactly(r, info, arg);
        case UnregisterOp(id) => UnregisterExactly(r, id);
        case InitOp =>
        case FreeOp =>
      }
      CodesStandForIds(Apply(r, op), ops[1..]);
    }
  }

  /** Whatever the operations, the table stays well formed. */
  lemma {:induction false} RegistryInvariant<A>(r: Table<A>, ops: seq<Op<A>>)
    requires WellFormed(r)
    ensures WellFormed(ApplyAll(r, ops))
    decreases |ops|
  {
    if ops != [] {
      match ops[0] {
        case RegisterOp(info, arg) => RegisterKeepsWellFormed(r, info, arg);
        case UnregisterOp(id) => UnregisterKeepsWellFormed(r, id);
        case InitOp =>
        case FreeOp =>
      }
      RegistryInvariant(Apply(r, ops[0]), ops[1..]);
    }
  }

  /** Between two frees no id is given twice: the k-th registration gets the k-th id, whatever else happens. */
  lemma {:induction false} IdsAreGivenInOrder<A>(r: Table<A>, ops: seq<Op<A>>)
    requires forall op :: op in ops ==> !op.FreeOp?
    ensures |ApplyAll(r, ops)| == |r| + |IdsGiven(r, ops)|
    ensures forall k :: 0 <= k < |IdsGiven(r, ops)| ==> IdsGiven(r, ops)[k] == |r| + k
    decreases |ops|
  {
    hide Apply, IdGiven;
    if ops != [] {
      NextIdIsGiven(r, ops[0]);
      IdsAreGivenInOrder(Apply(r, ops[0]), ops[1..]);
    }
  }

  /** On live lambdas, lookup by name and lookup by id are inverse to each other. */
  lemma LookupsAreInverse<A>(r: Table<A>, name: string, e: Entry<A>)
    requires WellFormed(r)
    ensures ByName(r, name) == Some(e) <==> ById(r, e.id) == Some(e) && e.info.name == name
  {
    if ByName(r, name) == Some(e) {
      var i :| 0 <= i < |r| && r[i] == Some(e);
      assert Live(r, i);
    }
    if ById(r, e.id) == Some(e) && e.info.name == name {
      assert Live(r, e.id);
      var o := ByName(r, name);
      var i :| 0 <= i < |r| && r[i] == o;
      assert Live(r, i);
    }
  }
}
