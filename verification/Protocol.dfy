/** Constants, values and packets that the board and the Linux machine share. */
module Protocol {
  import opened Machine
  import opened Powers
  import opened DoublePacket

  datatype Option<+T> = None | Some(value: T)

  /** What fits in an rs_int_t. */
  type Int32 = x: int | -0x8000_0000 <= x < 0x8000_0000

  const MAX_LAMBDAS: nat := 255
  const MAX_LAMBDA_NAME_LENGTH: nat := 12

  const RS_REGISTER_INVALNAME: int := -1
  const RS_REGISTER_DUPLICATE: int := -2
  const RS_REGISTER_LIMIT_REACHED: int := -3
  const RS_REGISTER_INVALPARAM: int := -5

  const RS_UNREGISTER_SUCCESS: int := 0
  const RS_UNREGISTER_NOTFOUND: int := -1

  const RS_CALL_SUCCESS: int := 0
  const RS_CALL_CACHE: int := 1
  const RS_CALL_CACHE_TIMEOUT: int := 2
  const RS_CALL_NOTFOUND: int := -1
  const RS_CALL_WRONGTYPE: int := -2
  const RS_CALL_TIMEOUT: int := -3
  const RS_CALL_CACHE_EMPTY: int := -4
  const RS_CALL_CACHE_TIMEOUT_EMPTY: int := -5

  const RS_RESULT_SUCCESS: int := 0
  const RS_RESULT_NOTFOUND: int := -1
  const RS_RESULT_WRONGTYPE: int := -2

  const RS_LAMBDA_INT: Byte := 1
  const RS_LAMBDA_DOUBLE: Byte := 2
  const RS_LAMBDA_STRING: Byte := 3

  const RS_CACHE_NO_CACHE: Byte := 1
  const RS_CACHE_CALL_ONCE: Byte := 2
  const RS_CACHE_ONLY: Byte := 3
  const RS_CACHE_ON_TIMEOUT: Byte := 4

  const RS_PACKET_REGISTERED: Byte := 1
  const RS_PACKET_UNREGISTERED: Byte := 2
  const RS_PACKET_RESULT_ERROR: Byte := 5
  const RS_PACKET_RESULT_INT: Byte := 6
  const RS_PACKET_RESULT_DOUBLE: Byte := 7
  const RS_PACKET_RESULT_STRING: Byte := 8

  predicate ValidType(t: Byte) {
    t == RS_LAMBDA_INT || t == RS_LAMBDA_DOUBLE || t == RS_LAMBDA_STRING
  }

  /** What a registration says about a lambda. Any byte can be passed as the cache policy. */
  datatype Info = Info(name: string, ltype: Byte, cache: Byte)

  /** The member of the untagged result union that was written, with its content. */
  datatype Value = Int(i: Int32) | Dbl(d: real) | Str(s: string)

  function TypeOf(v: Value): (t: Byte)
    ensures ValidType(t)
  {
    match v
    case Int(_) => RS_LAMBDA_INT
    case Dbl(_) => RS_LAMBDA_DOUBLE
    case Str(_) => RS_LAMBDA_STRING
  }

  /**
   * Results the wire format has room for: normal doubles that arrive as finite ones, and strings whose
   * packet length fits its 16-bit field.
   */
  predicate Sendable(v: Value) {
    match v
    case Int(_) => true
    case Dbl(d) => Wireable(d) && StaysFinite(d)
    case Str(s) => 17 + |s| < 0x1_0000
  }

  type Payload = v: Value | Sendable(v) witness Int(0)

  function Hton(v: Payload): Value {
    if v.Dbl? then Dbl(HtonDouble(v.d)) else v
  }

  function Ntoh(v: Value): Value {
    if v.Dbl? then Dbl(NtohDouble(v.d)) else v
  }

  /** The value got is the value sent: exactly for integers and strings, up to a factor 1 +- 2^-42 for doubles. */
  predicate Arrived(sent: Value, got: Value) {
    if sent.Dbl? && got.Dbl? then
      (got.d == 0.0 <==> sent.d == 0.0) && (got.d < 0.0 <==> sent.d < 0.0)
      && Ieee754.Abs(got.d - sent.d) <= Scaled(Ieee754.Abs(sent.d), -42)
    else
      got == sent
  }

  lemma NtohOfHton(v: Payload)
    ensures Arrived(v, Ntoh(Hton(v))) && TypeOf(Hton(v)) == TypeOf(v)
  {
    if v.Dbl? {
      hide Wireable, HtonDouble, NtohDouble;
      WireBound(v.d);
      assert Ntoh(Hton(v)) == Dbl(Wire(v.d));
    }
  }

  /** The type tag that `unregister_lambda` puts on its packet: as coded, or as evidently meant. */
  datatype Tag = Coded | Intended

  function TagByte(tag: Tag): Byte {
    if tag.Coded? then RS_PACKET_REGISTERED else RS_PACKET_UNREGISTERED
  }

  /** Packets from the board. An unregister packet is built with a type byte of its own. */
  datatype BoardPacket =
    | Registered(info: Info)
    | Unregistered(ptype: Byte, id: Byte, name: string)
    | ResultError(id: Byte, code: int)
    | Result(id: Byte, name: string, payload: Value)

  /** The first byte of a packet, all that the receiver has to tell packets apart. */
  function PType(p: BoardPacket): Byte {
    match p
    case Registered(_) => RS_PACKET_REGISTERED
    case Unregistered(ptype, _, _) => ptype
    case ResultError(_, _) => RS_PACKET_RESULT_ERROR
    case Result(_, _, Int(_)) => RS_PACKET_RESULT_INT
    case Result(_, _, Dbl(_)) => RS_PACKET_RESULT_DOUBLE
    case Result(_, _, Str(_)) => RS_PACKET_RESULT_STRING
  }

  /** An unregister packet that Linux takes for one. */
  predicate Unregisters(p: BoardPacket) {
    p.Unregistered? && p.ptype == RS_PACKET_UNREGISTERED
  }

  /** The length in bytes of the packed struct. */
  function Size(p: BoardPacket): nat {
    match p
    case Registered(_) => 15
    case Unregistered(_, _, _) => 14
    case ResultError(_, _) => 15
    case Result(_, _, Int(_)) => 18
    case Result(_, _, Dbl(_)) => 22
    case Result(_, _, Str(s)) => 17 + |s|
  }

  /** Packets to the board. */
  datatype CallPacket =
    | CallById(id: Byte, expected: Byte)
    | CallByName(name: string, expected: Byte)
}
