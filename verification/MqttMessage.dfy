/** MQTT control packets and their encoders: pkg/protocol/mqtt/message. */
module MqttMessage {
  import opened Bytes

  const CONNECT: byte := 1
  const CONNACK: byte := 2
  const PUBLISH: byte := 3
  const PUBACK: byte := 4
  const PUBREC: byte := 5
  const PUBREL: byte := 6
  const PUBCOMP: byte := 7
  const SUBSCRIBE: byte := 8
  const SUBACK: byte := 9
  const UNSUBSCRIBE: byte := 10
  const UNSUBACK: byte := 11
  const PINGREQ: byte := 12
  const PINGRESP: byte := 13
  const DISCONNECT: byte := 14
  const MAX_REMAINING: nat := 268435455

  datatype Login = Login(
    protocolName: bytes, protocolLevel: byte,
    userNameFlag: bool, passwordFlag: bool, willRetain: bool, willQos: byte, willFlag: bool, cleanSession: bool,
    keepAlive: nat,
    clientId: bytes, willTopic: bytes, willMessage: bytes, username: bytes, password: bytes)

  datatype TopicFilter = TopicFilter(topicName: bytes, requestedQos: byte)

  /**
    The messages; `flag` is the low half of the first byte, which PUBLISH derives from its own fields.
    Five types carry a packet identifier and nothing else, three are a bare fixed header.
   */
  datatype Message =
    | Connect(flag: byte, login: Login)
    | ConnAck(flag: byte, sessionPresent: bool, returnCode: byte)
    | Publish(dup: bool, qos: byte, retain: bool, topicName: bytes, packetId: nat, payload: bytes)
    | PacketIdOnly(kind: byte, flag: byte, packetId: nat)
    | Subscribe(flag: byte, packetId: nat, filters: seq<TopicFilter>)
    | SubAck(flag: byte, packetId: nat, acks: bytes)
    | Unsubscribe(flag: byte, packetId: nat, topics: seq<bytes>)
    | HeaderOnly(kind: byte, flag: byte)

  function TypeOf(m: Message): byte {
    match m
    case Connect(_, _) => CONNECT
    case ConnAck(_, _, _) => CONNACK
    case Publish(_, _, _, _, _, _) => PUBLISH
    case PacketIdOnly(kind, _, _) => kind
    case Subscribe(_, _, _) => SUBSCRIBE
    case SubAck(_, _, _) => SUBACK
    case Unsubscribe(_, _, _) => UNSUBSCRIBE
    case HeaderOnly(kind, _) => kind
  }

  function Bit(b: bool, weight: byte): byte {
    if b then weight else 0
  }

  /** Bitwise or. */
  function Or(a: nat, b: nat): nat
    decreases a + b
  {
    if a == 0 && b == 0 then 0
    else 2 * Or(a / 2, b / 2) + if a % 2 == 1 || b % 2 == 1 then 1 else 0
  }

  lemma {:induction false} OrZero(a: nat)
    ensures Or(a, 0) == a
    decreases a
  {
    if a != 0 { OrZero(a / 2); }
  }

  function ShiftLeft(h: nat, n: nat): nat {
    if n == 0 then h else 2 * ShiftLeft(h, n - 1)
  }

  /** Where one side has no low bits, or is addition. */
  lemma {:induction false} OrDisjoint(h: nat, f: nat, n: nat)
    requires f < ShiftLeft(1, n)
    ensures Or(ShiftLeft(h, n), f) == ShiftLeft(h, n) + f
  {
    hide Or;
    if n == 0 {
      OrZero(h);
    } else {
      OrShift(ShiftLeft(h, n - 1), f);
      OrDisjoint(h, f / 2, n - 1);
    }
  }

  lemma OrShift(a: nat, b: nat)
    ensures Or(2 * a, b) == 2 * Or(a, b / 2) + b % 2
  {
  }

  lemma Shifts(h: nat)
    ensures ShiftLeft(h, 1) == 2 * h && ShiftLeft(h, 3) == 8 * h && ShiftLeft(h, 4) == 16 * h
  {
    assert ShiftLeft(h, 0) == h && ShiftLeft(h, 1) == 2 * ShiftLeft(h, 0) && ShiftLeft(h, 2) == 2 * ShiftLeft(h, 1);
    assert ShiftLeft(h, 3) == 2 * ShiftLeft(h, 2) && ShiftLeft(h, 4) == 2 * ShiftLeft(h, 3);
  }

  /** The flag byte, meant to fit half a byte; the fields of a PUBLISH may overflow that. */
  function FlagOf(m: Message): byte {
    if m.Publish? then Or(Or(Bit(m.dup, 8), m.qos * 2 % 256), Bit(m.retain, 1)) % 256 else m.flag
  }

  lemma FlagOfPublish(m: Message)
    requires m.Publish? && m.qos < 4
    ensures FlagOf(m) == 8 * Bit(m.dup, 1) + 2 * m.qos + Bit(m.retain, 1)
  {
    hide Or, ShiftLeft;
    var d, r := Bit(m.dup, 1), Bit(m.retain, 1);
    Shifts(1);
    Shifts(d);
    Shifts(4 * d + m.qos);
    OrDisjoint(d, 2 * m.qos, 3);
    OrDisjoint(4 * d + m.qos, r, 1);
    assert Bit(m.dup, 8) == 8 * d && 8 * d + 2 * m.qos == 2 * (4 * d + m.qos);
  }

  /** The first byte; flags of 16 or more spill into the type. */
  function FirstByte(m: Message): byte {
    Or(TypeOf(m) * 16 % 256, FlagOf(m)) % 256
  }

  lemma FirstByteFits(m: Message)
    requires TypeOf(m) < 16 && FlagOf(m) < 16
    ensures FirstByte(m) == TypeOf(m) * 16 + FlagOf(m)
  {
    hide FlagOf, TypeOf, Or;
    OrNibbles(TypeOf(m), FlagOf(m));
  }

  lemma OrNibbles(t: nat, f: nat)
    requires t < 16 && f < 16
    ensures Or(t * 16 % 256, f) % 256 == t * 16 + f
  {
    hide Or, ShiftLeft;
    assert t * 16 % 256 == 16 * t;
    Shifts(1);
    Shifts(t);
    OrDisjoint(t, f, 4);
  }

  predicate HasId(qos: byte) {
    qos == 1 || qos == 2
  }

  // ---------------------------------------------------------------- encoders

  /** Seven bits per byte, least significant first, the top bit marking that more follow. */
  function EncodeLength(n: nat): bytes {
    if n < 128 then [n] else [n % 128 + 128] + EncodeLength(n / 128)
  }

  /** Big endian; wider values are cut to sixteen bits. */
  function Uint16Bytes(n: nat): (r: bytes)
    ensures |r| == 2
  {
    [n / 256 % 256, n % 256]
  }

  function StringBytes(s: bytes): (r: bytes)
    ensures |r| == 2 + |s|
  {
    Uint16Bytes(|s|) + s
  }

  function OptString(present: bool, s: bytes): bytes {
    if present then StringBytes(s) else []
  }

  function ConnectFlags(l: Login): byte
    requires l.willQos < 4
  {
    Bit(l.userNameFlag, 128) + Bit(l.passwordFlag, 64) + Bit(l.willRetain, 32) + l.willQos * 8
    + Bit(l.willFlag, 4) + Bit(l.cleanSession, 2)
  }

  function ConnectPayload(l: Login): bytes {
    StringBytes(l.clientId)
    + (OptString(l.willFlag, l.willTopic)
       + (OptString(l.willFlag, l.willMessage)
          + (OptString(l.userNameFlag, l.username) + OptString(l.passwordFlag, l.password))))
  }

  function FilterBytes(filters: seq<TopicFilter>): bytes {
    if filters == [] then []
    else StringBytes(filters[0].topicName) + ([filters[0].requestedQos] + FilterBytes(filters[1..]))
  }

  /** putString panics on the empty string, and Connect refuses a will QoS of 3. */
  predicate Encodable(m: Message) {
    match m
    case Connect(_, l) =>
      && l.willQos < 3 && l.protocolName != [] && l.clientId != []
      && (l.willFlag ==> l.willTopic != [] && l.willMessage != [])
      && (l.userNameFlag ==> l.username != []) && (l.passwordFlag ==> l.password != [])
    case Publish(_, _, _, topicName, _, _) => topicName != []
    case Subscribe(_, _, filters) => forall i :: 0 <= i < |filters| ==> filters[i].topicName != []
    case _ => true
  }

  /** Variable header and payload; UNSUBSCRIBE's encoder writes no topics. */
  function Body(m: Message): bytes
    requires Encodable(m)
  {
    match m
    case Connect(_, l) =>
      StringBytes(l.protocolName)
      + ([l.protocolLevel] + ([ConnectFlags(l)] + (Uint16Bytes(l.keepAlive) + ConnectPayload(l))))
    case ConnAck(_, sessionPresent, returnCode) => [Bit(sessionPresent, 1), returnCode]
    case Publish(_, qos, _, topicName, packetId, payload) =>
      StringBytes(topicName) + ((if HasId(qos) then Uint16Bytes(packetId) else []) + payload)
    case PacketIdOnly(_, _, packetId) => Uint16Bytes(packetId)
    case Subscribe(_, packetId, filters) => Uint16Bytes(packetId) + FilterBytes(filters)
    case SubAck(_, packetId, acks) => Uint16Bytes(packetId) + acks
    case Unsubscribe(_, packetId, _) => Uint16Bytes(packetId)
    case HeaderOnly(_, _) => []
  }

  function HeaderBytes(m: Message): bytes
    requires Encodable(m)
  {
    [FirstByte(m)] + EncodeLength(|Body(m)|)
  }

  function Encode(m: Message): bytes
    requires Encodable(m)
  {
    HeaderBytes(m) + Body(m)
  }

  // ---------------------------------------------------------------- canonical messages

  predicate GoodString(s: bytes) {
    0 < |s| < 65536
  }

  predicate GoodOptional(present: bool, s: bytes) {
    if present then GoodString(s) else s == []
  }

  /**
    The messages whose encoding determines them: strings of 1 to 65535 bytes, QoS of two bits, fields that are
    not encoded left empty, at most one entry where the decoder reads one (none for UNSUBSCRIBE, whose
    encoder drops them), and a total the length field can hold.
   */
  predicate Canonical(m: Message) {
    && FlagOf(m) < 16
    && Encodable(m) && |Body(m)| <= MAX_REMAINING
    && match m
       case Connect(_, l) =>
         && l.keepAlive < 65536 && GoodString(l.protocolName) && GoodString(l.clientId)
         && GoodOptional(l.willFlag, l.willTopic) && GoodOptional(l.willFlag, l.willMessage)
         && GoodOptional(l.userNameFlag, l.username) && GoodOptional(l.passwordFlag, l.password)
       case ConnAck(_, _, returnCode) => returnCode < 6
       case Publish(_, qos, _, topicName, packetId, _) =>
         qos < 4 && GoodString(topicName) && packetId < 65536 && (qos == 0 || qos == 3 ==> packetId == 0)
       case PacketIdOnly(kind, _, packetId) => kind in {PUBACK, PUBREC, PUBREL, PUBCOMP, UNSUBACK} && packetId < 65536
       case Subscribe(_, packetId, filters) =>
         packetId < 65536 && |filters| <= 1 && (filters != [] ==> GoodString(filters[0].topicName))
       case SubAck(_, packetId, acks) => packetId < 65536 && |acks| <= 1
       case Unsubscribe(_, packetId, topics) => packetId < 65536 && topics == []
       case HeaderOnly(kind, _) => kind in {PINGREQ, PINGRESP, DISCONNECT}
  }

  // ---------------------------------------------------------------- the encoders as they write

  /** What is still to be written of a length. */
  ghost function RestOfLength(len: nat): bytes {
    if len > 0 then EncodeLength(len) else []
  }

  lemma NextDigit(len: nat)
    requires len > 0
    ensures var digit := if len / 128 > 0 then len % 128 + 128 else len % 128;
            RestOfLength(len) == [digit] + RestOfLength(len / 128)
  {
  }

  lemma WholeLength(n: nat)
    ensures EncodeLength(n) == if n > 0 then RestOfLength(n) else [0]
    ensures RestOfLength(0) == []
  {
  }

  /** encodeLength */
  method PutLength(n: nat, dst: bytes) returns (buf: bytes)
    ensures buf == dst + EncodeLength(n)
  {
    hide EncodeLength, RestOfLength;
    WholeLength(n);
    buf := dst;
    if n == 0 {
      return buf + [0];
    }
    var len := n;
    while len > 0
      invariant buf + RestOfLength(len) == dst + EncodeLength(n)
    {
      NextDigit(len);
      var digit := len % 128;
      len := len / 128;
      if len > 0 {
        digit := digit + 128;
      }
      ConcatAssoc(buf, [digit], RestOfLength(len));
      buf := buf + [digit];
    }
  }

  /** putString; not ok where the source panics, on the empty string. */
  method PutString(s: bytes, dst: bytes) returns (ok: bool, buf: bytes)
    ensures ok <==> s != []
    ensures ok ==> buf == dst + StringBytes(s)
  {
    buf := dst + Uint16Bytes(|s|);
    if s == [] {
      return false, buf;
    }
    ConcatAssoc(dst, Uint16Bytes(|s|), s);
    return true, buf + s;
  }

  method PutOptString(present: bool, s: bytes, dst: bytes) returns (ok: bool, buf: bytes)
    ensures ok <==> !present || s != []
    ensures ok ==> buf == dst + OptString(present, s)
  {
    if present {
      ok, buf := PutString(s, dst);
    } else {
      ok, buf := true, dst;
    }
  }

  lemma Nest(x: bytes, a: bytes, b: bytes, c: bytes, d: bytes, e: bytes)
    ensures x + a + b + c + d + e == x + (a + (b + (c + (d + e))))
  {
    ConcatAssoc(x, a, b);
    ConcatAssoc(x, a + b, c);
    ConcatAssoc(x, a + b + c, d);
    ConcatAssoc(x, a + b + c + d, e);
    ConcatAssoc(a, b, c);
    ConcatAssoc(a, b + c, d);
    ConcatAssoc(a, b + c + d, e);
    ConcatAssoc(b, c, d);
    ConcatAssoc(b, c + d, e);
    ConcatAssoc(c, d, e);
  }

  method PutConnectPayload(l: Login, dst: bytes) returns (ok: bool, buf: bytes)
    ensures ok <==> && l.clientId != [] && (l.willFlag ==> l.willTopic != [] && l.willMessage != [])
                    && (l.userNameFlag ==> l.username != []) && (l.passwordFlag ==> l.password != [])
    ensures ok ==> buf == dst + ConnectPayload(l)
  {
    hide StringBytes, OptString;
    ok, buf := PutString(l.clientId, dst);
    if !ok { return; }
    ok, buf := PutOptString(l.willFlag, l.willTopic, buf);
    if !ok { return; }
    ok, buf := PutOptString(l.willFlag, l.willMessage, buf);
    if !ok { return; }
    ok, buf := PutOptString(l.userNameFlag, l.username, buf);
    if !ok { return; }
    ok, buf := PutOptString(l.passwordFlag, l.password, buf);
    Nest(dst, StringBytes(l.clientId), OptString(l.willFlag, l.willTopic), OptString(l.willFlag, l.willMessage),
         OptString(l.userNameFlag, l.username), OptString(l.passwordFlag, l.password));
  }

  method PutConnect(l: Login) returns (ok: bool, buf: bytes)
    ensures ok <==> Encodable(Connect(0, l))
    ensures ok ==> buf == Body(Connect(0, l))
  {
    hide StringBytes, Uint16Bytes, ConnectFlags, ConnectPayload;
    buf := [];
    if l.willQos >= 3 {
      return false, buf;
    }
    ok, buf := PutString(l.protocolName, buf);
    if !ok { return; }
    buf := buf + [l.protocolLevel];
    buf := buf + [ConnectFlags(l)];
    buf := buf + Uint16Bytes(l.keepAlive);
    ok, buf := PutConnectPayload(l, buf);
    Nest([], StringBytes(l.protocolName), [l.protocolLevel], [ConnectFlags(l)], Uint16Bytes(l.keepAlive), ConnectPayload(l));
  }

  method PutFilters(filters: seq<TopicFilter>, dst: bytes) returns (ok: bool, buf: bytes)
    ensures ok <==> forall i :: 0 <= i < |filters| ==> filters[i].topicName != []
    ensures ok ==> buf == dst + FilterBytes(filters)
  {
    hide StringBytes;
    buf := dst;
    for i := 0 to |filters|
      invariant forall j :: 0 <= j < i ==> filters[j].topicName != []
      invariant buf + FilterBytes(filters[i..]) == dst + FilterBytes(filters)
    {
      var f, rest := filters[i], filters[i + 1..];
      ghost var before := buf;
      ok, buf := PutString(f.topicName, buf);
      if !ok { return; }
      buf := buf + [f.requestedQos];
      assert filters[i..][1..] == rest;
      ConcatAssoc(before, StringBytes(f.topicName), [f.requestedQos]);
      ConcatAssoc(StringBytes(f.topicName), [f.requestedQos], FilterBytes(rest));
      ConcatAssoc(before, StringBytes(f.topicName) + [f.requestedQos], FilterBytes(rest));
    }
    return true, buf;
  }

  method PutBody(m: Message) returns (ok: bool, buf: bytes)
    ensures ok <==> Encodable(m)
    ensures ok ==> buf == Body(m)
  {
    hide StringBytes, Uint16Bytes;
    ok, buf := true, [];
    match m
    case Connect(_, l) => ok, buf := PutConnect(l);
    case ConnAck(_, sessionPresent, returnCode) => buf := [Bit(sessionPresent, 1), returnCode];
    case Publish(_, qos, _, topicName, packetId, payload) =>
      ok, buf := PutString(topicName, []);
      if !ok { return; }
      var id := if HasId(qos) then Uint16Bytes(packetId) else [];
      ConcatAssoc(StringBytes(topicName), id, payload);
      buf := buf + id;
      buf := buf + payload;
    case PacketIdOnly(_, _, packetId) => buf := Uint16Bytes(packetId);
    case Subscribe(_, packetId, filters) => ok, buf := PutFilters(filters, Uint16Bytes(packetId));
    case SubAck(_, packetId, acks) => buf := Uint16Bytes(packetId) + acks;
    case Unsubscribe(_, packetId, _) => buf := Uint16Bytes(packetId);
    case HeaderOnly(_, _) =>
  }

  /** The Encode methods: body first, then the fixed header in front; only CONNECT checks the length limit. */
  method PutMessage(m: Message) returns (ok: bool, bufAll: bytes)
    ensures ok <==> Encodable(m) && (m.Connect? ==> |Body(m)| <= MAX_REMAINING)
    ensures ok ==> bufAll == Encode(m)
  {
    hide Body, Encodable, EncodeLength, FirstByte;
    var buf;
    bufAll := [];
    ok, buf := PutBody(m);
    if !ok { return; }
    if m.Connect? && |buf| > MAX_REMAINING {
      return false, bufAll;
    }
    bufAll := [FirstByte(m)];
    bufAll := PutLength(|buf|, bufAll);
    bufAll := bufAll + buf;
  }
}
