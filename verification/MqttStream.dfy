/**
  What the MQTT decoder promises about byte streams: it inverts the encoders, and how the stream is cut into
  chunks does not matter as long as no cut falls strictly inside a fixed header.
 */
module MqttStream {
  import opened Bytes
  import opened MqttMessage
  import opened MqttCodec

  // ---------------------------------------------------------------- reading back what was written

  /** A reader that consumed its own encoding and nothing more. */
  ghost predicate Reads<T(!new)>(r: Got<T>, x: T, rest: bytes) {
    r.Got? && r.value == x && r.view.pending == rest
  }

  lemma ReadUint8(v: View, b: byte, rest: bytes)
    requires v.pending == [b] + rest
    ensures Reads(GetUint8(v), b, rest)
  {
  }

  lemma ReadUint16(v: View, n: nat, rest: bytes)
    requires n < 65536 && v.pending == Uint16Bytes(n) + rest
    ensures Reads(GetUint16(v), n, rest)
  {
    assert v.pending[0] == n / 256 && v.pending[1] == n % 256;
    assert v.pending[2..] == rest;
  }

  lemma ReadString(v: View, s: bytes, rest: bytes)
    requires GoodString(s) && v.pending == StringBytes(s) + rest
    ensures Reads(GetString(v), s, rest)
  {
    hide GetUint16;
    ConcatAssoc(Uint16Bytes(|s|), s, rest);
    ReadUint16(v, |s|, s + rest);
    assert (s + rest)[..|s|] == s && (s + rest)[|s|..] == rest;
  }

  lemma ReadOptString(present: bool, v: View, s: bytes, rest: bytes)
    requires GoodOptional(present, s) && v.pending == OptString(present, s) + rest
    ensures Reads(GetOptString(present, v), s, rest)
  {
    if present {
      ReadString(v, s, rest);
    } else {
      assert v.pending == rest;
    }
  }

  lemma LengthDigit(n: nat, i: nat)
    requires 128 <= n && i < 4 && n * Weight(i) <= MAX_REMAINING
    ensures i < 3 && n / 128 * Weight(i + 1) + n % 128 * Weight(i) == n * Weight(i)
    ensures n / 128 * Weight(i + 1) <= MAX_REMAINING
  {
    var q, r := n / 128, n % 128;
    assert n == 128 * q + r;
  }

  lemma {:induction false} ReadLength(v: View, i: nat, acc: nat, n: nat, rest: bytes)
    requires i < 4 && n * Weight(i) <= MAX_REMAINING
    requires v.pending == EncodeLength(n) + rest
    ensures Reads(GetLengthFrom(v, i, acc), acc + n * Weight(i), rest)
    decreases 4 - i
  {
    hide Weight, GetUint8;
    if n < 128 {
      ReadUint8(v, n, rest);
    } else {
      var b, more := n % 128 + 128, EncodeLength(n / 128);
      ConcatAssoc([b], more, rest);
      ReadUint8(v, b, more + rest);
      LengthDigit(n, i);
      assert b % 128 == n % 128;
      ReadLength(GetUint8(v).view, i + 1, acc + n % 128 * Weight(i), n / 128, rest);
    }
  }

  lemma ReadHeader(v: View, kind: byte, flag: byte, n: nat, rest: bytes)
    requires 0 < kind < 15 && flag < 16 && n <= MAX_REMAINING
    requires v.pending == [kind * 16 + flag] + EncodeLength(n) + rest
    ensures Reads(GetHeader(v), Header(kind, flag, n), rest)
  {
    hide GetLengthFrom, EncodeLength;
    var b := kind * 16 + flag;
    ConcatAssoc([b], EncodeLength(n), rest);
    ReadUint8(v, b, EncodeLength(n) + rest);
    LengthNotEmpty(n);
    ReadLength(GetUint8(v).view, 0, 0, n, rest);
  }

  lemma LengthNotEmpty(n: nat)
    ensures EncodeLength(n) != []
  {
  }

  lemma Shift2(hi: nat, lo: nat)
    requires lo < 2
    ensures (2 * hi + lo) / 2 == hi && (2 * hi + lo) % 2 == lo
  {
  }

  lemma Shift4(hi: nat, lo: nat)
    requires lo < 4
    ensures (4 * hi + lo) / 4 == hi && (4 * hi + lo) % 4 == lo
  {
  }

  lemma Shift8(hi: nat, lo: nat)
    requires lo < 8
    ensures (8 * hi + lo) / 8 == hi
  {
  }

  lemma Shift32(hi: nat, lo: nat)
    requires lo < 32
    ensures (32 * hi + lo) / 32 == hi
  {
  }

  lemma HighFlags(f: nat, u: nat, p: nat, r: nat, lo: nat)
    requires u < 2 && p < 2 && r < 2 && lo < 32 && f == 128 * u + 64 * p + 32 * r + lo
    ensures f / 128 % 2 == u && f / 64 % 2 == p && f / 32 % 2 == r
  {
    var h := 4 * u + 2 * p + r;
    assert f == 32 * h + lo;
    Shift32(h, lo);
    Halves(f, h);
    Shift2(2 * u + p, r);
    Shift2(u, p);
  }

  lemma Halves(f: nat, h: nat)
    requires f / 32 == h
    ensures f / 64 == h / 2 && f / 128 == h / 2 / 2
  {
  }

  lemma LowFlags(f: nat, hi: nat, q: nat, w: nat, c: nat)
    requires q < 4 && w < 2 && c < 2 && f == 32 * hi + 8 * q + 4 * w + 2 * c
    ensures f / 8 % 4 == q && f / 4 % 2 == w && f / 2 % 2 == c
  {
    var h8 := 4 * hi + q;
    var h4 := 2 * h8 + w;
    Shift8(h8, 4 * w + 2 * c);
    Shift4(h4, 2 * c);
    Shift2(2 * h4 + c, 0);
    Shift4(hi, q);
    Shift2(h8, w);
    Shift2(h4, c);
    assert f == 8 * h8 + (4 * w + 2 * c) == 4 * h4 + 2 * c == 2 * (2 * h4 + c);
  }

  lemma FlagBits(l: Login)
    requires l.willQos < 3
    ensures var f := ConnectFlags(l);
            && (f / 128 % 2 == 1 <==> l.userNameFlag) && (f / 64 % 2 == 1 <==> l.passwordFlag)
            && (f / 32 % 2 == 1 <==> l.willRetain) && f / 8 % 4 == l.willQos
            && (f / 4 % 2 == 1 <==> l.willFlag) && (f / 2 % 2 == 1 <==> l.cleanSession)
  {
    var u, p, r := Bit(l.userNameFlag, 1), Bit(l.passwordFlag, 1), Bit(l.willRetain, 1);
    var w, c := Bit(l.willFlag, 1), Bit(l.cleanSession, 1);
    HighFlags(ConnectFlags(l), u, p, r, 8 * l.willQos + 4 * w + 2 * c);
    LowFlags(ConnectFlags(l), 4 * u + 2 * p + r, l.willQos, w, c);
  }

  /** The login as it stands after the variable header: the payload fields are still blank. */
  function VariablePart(l: Login): Login {
    l.(clientId := [], willTopic := [], willMessage := [], username := [], password := [])
  }

  lemma ReadConnectVariable(v: View, l: Login, rest: bytes)
    requires l.willQos < 3 && l.keepAlive < 65536 && GoodString(l.protocolName)
    requires v.pending == StringBytes(l.protocolName) + ([l.protocolLevel] + ([ConnectFlags(l)] + (Uint16Bytes(l.keepAlive) + rest)))
    ensures Reads(ConnectVariable(BLANK_LOGIN, v), VariablePart(l), rest)
  {
    hide GetString, GetUint8, GetUint16, ConnectFlags, StringBytes, Uint16Bytes;
    var c := Uint16Bytes(l.keepAlive) + rest;
    var b := [ConnectFlags(l)] + c;
    ReadString(v, l.protocolName, [l.protocolLevel] + b);
    var w := GetString(v).view;
    ReadUint8(w, l.protocolLevel, b);
    w := GetUint8(w).view;
    ReadUint8(w, ConnectFlags(l), c);
    w := GetUint8(w).view;
    ReadUint16(w, l.keepAlive, rest);
    FlagBits(l);
  }

  lemma ReadConnectRest(v: View, l: Login, rest: bytes)
    requires GoodString(l.clientId)
    requires GoodOptional(l.willFlag, l.willTopic) && GoodOptional(l.willFlag, l.willMessage)
    requires GoodOptional(l.userNameFlag, l.username) && GoodOptional(l.passwordFlag, l.password)
    requires v.pending == ConnectPayload(l) + rest
    ensures Reads(ConnectRest(VariablePart(l), v), l, rest)
  {
    hide GetString, GetOptString, StringBytes, OptString;
    var p4 := OptString(l.passwordFlag, l.password);
    var p3 := OptString(l.userNameFlag, l.username) + p4;
    var p2 := OptString(l.willFlag, l.willMessage) + p3;
    var p1 := OptString(l.willFlag, l.willTopic) + p2;
    ConcatAssoc(StringBytes(l.clientId), p1, rest);
    ConcatAssoc(OptString(l.willFlag, l.willTopic), p2, rest);
    ConcatAssoc(OptString(l.willFlag, l.willMessage), p3, rest);
    ConcatAssoc(OptString(l.userNameFlag, l.username), p4, rest);
    ReadString(v, l.clientId, p1 + rest);
    var w := GetString(v).view;
    ReadOptString(l.willFlag, w, l.willTopic, p2 + rest);
    w := GetOptString(l.willFlag, w).view;
    ReadOptString(l.willFlag, w, l.willMessage, p3 + rest);
    w := GetOptString(l.willFlag, w).view;
    ReadOptString(l.userNameFlag, w, l.username, p4 + rest);
    w := GetOptString(l.userNameFlag, w).view;
    ReadOptString(l.passwordFlag, w, l.password, rest);
  }

  // ---------------------------------------------------------------- one message

  /** The decoder between a message's fixed header and the rest of it. */
  function Waiting(m: Message): Codec
    requires Canonical(m)
  {
    Codec(VariableHeader, |Body(m)|, Partial(NewMessage(TypeOf(m), FlagOf(m)), |Body(m)|))
  }

  /** One successful round of the loop. */
  lemma LoopStep(c: Codec, pending: bytes, msgs: seq<Message>, r: Round, rest: bytes)
    requires pending != [] && Ready(c, pending)
    requires Reads(OneRound(c, View([], true, pending)), r, rest)
    ensures Loop(c, pending, msgs) == Loop(r.codec, rest, msgs + r.completed)
  {
    hide OneRound, Loop;
    LoopRound(c, pending, msgs);
  }

  /** One that completes no message. */
  lemma LoopGoesOn(c: Codec, pending: bytes, msgs: seq<Message>, next: Codec, rest: bytes)
    requires pending != [] && Ready(c, pending)
    requires Reads(OneRound(c, View([], true, pending)), Round(next, []), rest)
    ensures Loop(c, pending, msgs) == Loop(next, rest, msgs)
  {
    hide Loop, OneRound;
    LoopStep(c, pending, msgs, Round(next, []), rest);
    assert msgs + [] == msgs;
  }

  lemma PublishFlags(m: Message)
    requires m.Publish? && m.qos < 4
    ensures NewMessage(PUBLISH, FlagOf(m)) == Publish(m.dup, m.qos, m.retain, [], 0, [])
  {
    hide FlagOf;
    var d, r := Bit(m.dup, 1), Bit(m.retain, 1);
    FlagOfPublish(m);
    Shift8(d, 2 * m.qos + r);
    Shift2(4 * d + m.qos, r);
    Shift4(d, m.qos);
  }

  lemma HeaderRound(c: Codec, m: Message, rest: bytes, msgs: seq<Message>)
    requires Canonical(m) && c.phase.FixedHeader?
    ensures Loop(c, HeaderBytes(m) + rest, msgs)
            == if m.HeaderOnly? then Loop(Idle(), rest, msgs + [m]) else Loop(Waiting(m), rest, msgs + [])
  {
    hide GetHeader, EncodeLength, Loop, Body, Or, FirstByte;
    FirstByteFits(m);
    var pending := HeaderBytes(m) + rest;
    var v := View([], true, pending);
    ReadHeader(v, TypeOf(m), FlagOf(m), |Body(m)|, rest);
    var r := if m.HeaderOnly? then Round(Idle(), [m]) else Round(Waiting(m), []);
    assert Body(m) == [] || !m.HeaderOnly? by { BodyOfHeaderOnly(m); }
    LoopStep(c, pending, msgs, r, rest);
  }

  lemma BodyOfHeaderOnly(m: Message)
    requires Encodable(m)
    ensures m.HeaderOnly? ==> Body(m) == []
    ensures !m.HeaderOnly? ==> |Body(m)| >= 2
  {
  }

  /** The body of a message that ends with its variable header. */
  lemma ShortBody(m: Message, rest: bytes, msgs: seq<Message>)
    requires Canonical(m) && (m.ConnAck? || m.PacketIdOnly? || m.Unsubscribe?)
    ensures Loop(Waiting(m), Body(m) + rest, msgs) == Loop(Idle(), rest, msgs + [m])
  {
    hide Loop, GetUint8, GetUint16, Uint16Bytes;
    var c, pending := Waiting(m), Body(m) + rest;
    var v := View([], true, pending);
    if m.ConnAck? {
      ConcatAssoc([Bit(m.sessionPresent, 1)], [m.returnCode], rest);
      ReadUint8(v, Bit(m.sessionPresent, 1), [m.returnCode] + rest);
      ReadUint8(GetUint8(v).view, m.returnCode, rest);
    } else {
      ReadUint16(v, m.packetId, rest);
    }
    LoopStep(c, pending, msgs, Round(Idle(), [m]), rest);
  }

  lemma PublishBody(m: Message, rest: bytes, msgs: seq<Message>)
    requires Canonical(m) && m.Publish?
    ensures Loop(Waiting(m), Body(m) + rest, msgs) == Loop(Idle(), rest, msgs + [m])
  {
    hide Loop, GetString, GetUint16, Uint16Bytes, StringBytes;
    var c, pending := Waiting(m), Body(m) + rest;
    var v := View([], true, pending);
    var id := if HasId(m.qos) then Uint16Bytes(m.packetId) else [];
    var tail := m.payload + rest;
    ConcatAssoc(StringBytes(m.topicName), id + m.payload, rest);
    ConcatAssoc(id, m.payload, rest);
    PublishFlags(m);
    ReadString(v, m.topicName, id + tail);
    var w := GetString(v).view;
    if HasId(m.qos) {
      ReadUint16(w, m.packetId, tail);
    } else {
      assert id + tail == tail;
    }
    var part := Partial(m.(payload := []), |m.payload|);
    if m.payload == [] {
      assert tail == rest;
      LoopStep(c, pending, msgs, Round(Idle(), [m]), rest);
    } else {
      var c' := Codec(Payload, c.length, part);
      LoopStep(c, pending, msgs, Round(c', []), tail);
      assert tail[..|m.payload|] == m.payload && tail[|m.payload|..] == rest;
      LoopStep(c', tail, msgs + [], Round(Idle(), [m]), rest);
      assert msgs + [] == msgs;
    }
  }

  lemma ConnectBody(m: Message, rest: bytes, msgs: seq<Message>)
    requires Canonical(m) && m.Connect?
    ensures Loop(Waiting(m), Body(m) + rest, msgs) == Loop(Idle(), rest, msgs + [m])
  {
    hide Loop, ConnectVariable, ConnectRest, ConnectFlags, ConnectPayload, StringBytes, Uint16Bytes;
    var l, c, pending := m.login, Waiting(m), Body(m) + rest;
    var v := View([], true, pending);
    var tail := ConnectPayload(l) + rest;
    assert pending == StringBytes(l.protocolName) + ([l.protocolLevel] + ([ConnectFlags(l)] + (Uint16Bytes(l.keepAlive) + tail)));
    ReadConnectVariable(v, l, tail);
    var part := Partial(Connect(m.flag, VariablePart(l)), |ConnectPayload(l)|);
    var c' := Codec(Payload, c.length, part);
    LoopStep(c, pending, msgs, Round(c', []), tail);
    ReadConnectRest(View([], true, tail), l, rest);
    assert tail != [] by { PayloadNotEmpty(l); }
    LoopStep(c', tail, msgs + [], Round(Idle(), [m]), rest);
    assert msgs + [] == msgs;
  }

  lemma PayloadNotEmpty(l: Login)
    ensures ConnectPayload(l) != []
  {
  }

  /** SUBSCRIBE and SUBACK: a packet identifier and at most one entry. */
  lemma EntryBody(m: Message, rest: bytes, msgs: seq<Message>)
    requires Canonical(m) && (m.Subscribe? || m.SubAck?)
    ensures Loop(Waiting(m), Body(m) + rest, msgs) == Loop(Idle(), rest, msgs + [m])
  {
    hide Loop, GetString, GetUint8, GetUint16, Uint16Bytes, StringBytes, FilterBytes;
    var c, pending := Waiting(m), Body(m) + rest;
    var v := View([], true, pending);
    var entry := if m.Subscribe? then FilterBytes(m.filters) else m.acks;
    var tail := entry + rest;
    ConcatAssoc(Uint16Bytes(m.packetId), entry, rest);
    ReadUint16(v, m.packetId, tail);
    EntryBytes(m);
    if entry == [] {
      assert tail == rest;
      LoopStep(c, pending, msgs, Round(Idle(), [m]), rest);
    } else {
      var blank := if m.Subscribe? then m.(filters := []) else m.(acks := []);
      var c' := Codec(Payload, c.length, Partial(blank, |entry|));
      LoopStep(c, pending, msgs, Round(c', []), tail);
      var t := View([], true, tail);
      if m.Subscribe? {
        var f := m.filters[0];
        ConcatAssoc(StringBytes(f.topicName), [f.requestedQos], rest);
        ReadString(t, f.topicName, [f.requestedQos] + rest);
        ReadUint8(GetString(t).view, f.requestedQos, rest);
      } else {
        ReadUint8(t, m.acks[0], rest);
      }
      LoopStep(c', tail, msgs + [], Round(Idle(), [m]), rest);
      assert msgs + [] == msgs;
    }
  }

  lemma EntryBytes(m: Message)
    requires Canonical(m) && (m.Subscribe? || m.SubAck?)
    ensures m.Subscribe? && m.filters == [] ==> FilterBytes(m.filters) == []
    ensures m.Subscribe? && m.filters != [] ==>
              && m.filters == [m.filters[0]] && GoodString(m.filters[0].topicName)
              && FilterBytes(m.filters) == StringBytes(m.filters[0].topicName) + [m.filters[0].requestedQos]
    ensures m.SubAck? && m.acks != [] ==> m.acks == [m.acks[0]]
  {
  }

  /** A complete body is decoded to its message, whichever state completes it, and what follows is untouched. */
  lemma BodyRounds(m: Message, rest: bytes, msgs: seq<Message>)
    requires Canonical(m) && !m.HeaderOnly?
    ensures Loop(Waiting(m), Body(m) + rest, msgs) == Loop(Idle(), rest, msgs + [m])
  {
    hide *;
    if m.Connect? {
      ConnectBody(m, rest, msgs);
    } else if m.Publish? {
      PublishBody(m, rest, msgs);
    } else if m.Subscribe? || m.SubAck? {
      EntryBody(m, rest, msgs);
    } else {
      ShortBody(m, rest, msgs);
    }
  }

  /** A whole message, from any state between messages. */
  lemma MessageRounds(c: Codec, m: Message, rest: bytes, msgs: seq<Message>)
    requires Canonical(m) && c.phase.FixedHeader?
    ensures Loop(c, Encode(m) + rest, msgs) == Loop(Idle(), rest, msgs + [m])
  {
    hide Loop, Body, HeaderBytes, Waiting;
    ConcatAssoc(HeaderBytes(m), Body(m), rest);
    HeaderRound(c, m, Body(m) + rest, msgs);
    BodyOfHeaderOnly(m);
    if m.HeaderOnly? {
      assert [] + rest == rest;
    } else {
      assert msgs + [] == msgs;
      BodyRounds(m, rest, msgs);
    }
  }

  // ---------------------------------------------------------------- streams

  ghost predicate AllCanonical(ms: seq<Message>) {
    forall i :: 0 <= i < |ms| ==> Canonical(ms[i])
  }

  function EncodeAll(ms: seq<Message>): bytes
    requires AllCanonical(ms)
  {
    if ms == [] then [] else Encode(ms[0]) + EncodeAll(ms[1..])
  }

  lemma {:induction false} StreamRounds(ms: seq<Message>, rest: bytes, msgs: seq<Message>)
    requires AllCanonical(ms)
    ensures Loop(Idle(), EncodeAll(ms) + rest, msgs) == Loop(Idle(), rest, msgs + ms)
  {
    hide Loop, Encode;
    if ms == [] {
      assert EncodeAll(ms) + rest == rest && msgs + ms == msgs;
    } else {
      ConcatAssoc(Encode(ms[0]), EncodeAll(ms[1..]), rest);
      MessageRounds(Idle(), ms[0], EncodeAll(ms[1..]) + rest, msgs);
      StreamRounds(ms[1..], rest, msgs + [ms[0]]);
      assert msgs + [ms[0]] + ms[1..] == msgs + ms;
    }
  }

  /**
    Round trip and framing: decoding the concatenated encodings of any non-empty list of canonical messages
    returns exactly that list, consumes every byte and ends between messages.
   */
  lemma RoundTrip(ms: seq<Message>, v: View)
    requires AllCanonical(ms) && v.pending == EncodeAll(ms) && ms != []
    ensures DoDecode(Idle(), v) == Outcome(Idle(), View([], true, []), ms, false)
  {
    StreamRounds(ms, [], []);
    assert EncodeAll(ms) + [] == EncodeAll(ms) && [] + ms == ms;
    EncodedNotEmpty(ms[0]);
  }

  lemma EncodedNotEmpty(m: Message)
    requires Canonical(m)
    ensures |HeaderBytes(m)| >= 2 && |Encode(m)| == |HeaderBytes(m)| + |Body(m)|
  {
  }

  // ---------------------------------------------------------------- bytes on the wire

  lemma OneByteString(c: byte)
    ensures StringBytes([c]) == [0, 1, c] && OptString(true, [c]) == [0, 1, c]
  {
  }

  const LOGIN := Login([77, 81, 84, 84], 4, true, true, false, 1, true, true, 10, [99], [116], [109], [117], [112])

  lemma LoginParts()
    ensures StringBytes(LOGIN.protocolName) == [0, 4, 77, 81, 84, 84] && Uint16Bytes(LOGIN.keepAlive) == [0, 10]
    ensures ConnectFlags(LOGIN) == 206
    ensures ConnectPayload(LOGIN) == [0, 1, 99, 0, 1, 116, 0, 1, 109, 0, 1, 117, 0, 1, 112]
  {
    hide StringBytes, OptString;
    assert StringBytes(LOGIN.protocolName) == Uint16Bytes(4) + LOGIN.protocolName by { NameBytes(LOGIN.protocolName); }
    OneByteString(99);
    OneByteString(116);
    OneByteString(109);
    OneByteString(117);
    OneByteString(112);
  }

  lemma NameBytes(s: bytes)
    ensures StringBytes(s) == Uint16Bytes(|s|) + s
  {
  }

  /** Concrete packets of MQTT 3.1.1, one of each layout. */
  lemma ConnectOnWire()
    ensures Encodable(Connect(0, LOGIN))
    ensures Encode(Connect(0, LOGIN))
            == [16] + [25] + ([0, 4, 77, 81, 84, 84] + ([4] + ([206] + ([0, 10]
               + [0, 1, 99, 0, 1, 116, 0, 1, 109, 0, 1, 117, 0, 1, 112]))))
  {
    hide FirstByte, Or, StringBytes, Uint16Bytes, ConnectFlags, ConnectPayload, EncodeLength;
    FirstByteFits(Connect(0, LOGIN));
    LoginParts();
    OneDigit(25);
  }

  lemma PublishOnWire()
    ensures var m := Publish(true, 1, false, [97, 47, 98], 10, [7]);
            Encodable(m) && Encode(m) == [58, 8, 0, 3, 97, 47, 98, 0, 10, 7]
    ensures var m := Publish(false, 0, true, [97], 0, [7, 8]); Encodable(m) && Encode(m) == [49, 5, 0, 1, 97, 7, 8]
  {
    hide FirstByte, FlagOf, Or;
    var m, k := Publish(true, 1, false, [97, 47, 98], 10, [7]), Publish(false, 0, true, [97], 0, [7, 8]);
    FlagOfPublish(m);
    FirstByteFits(m);
    FlagOfPublish(k);
    FirstByteFits(k);
    assert |Body(m)| == 8 && |Body(k)| == 5;
  }

  lemma SubscribeOnWire()
    ensures var m := Subscribe(2, 10, [TopicFilter([97], 1), TopicFilter([98], 2)]);
            Encodable(m) && Encode(m) == [130, 10, 0, 10, 0, 1, 97, 1, 0, 1, 98, 2]
  {
    hide FirstByte, Or;
    var a, b := TopicFilter([97], 1), TopicFilter([98], 2);
    var m := Subscribe(2, 10, [a, b]);
    FirstByteFits(m);
    assert m.filters[1..] == [b] && |[b][1..]| == 0;
    assert FilterBytes([b]) == StringBytes([98]) + ([2] + []) == [0, 1, 98, 2];
    assert FilterBytes(m.filters) == StringBytes([97]) + ([1] + FilterBytes([b])) == [0, 1, 97, 1, 0, 1, 98, 2];
    assert |Body(m)| == 10;
  }

  lemma ShortPacketsOnWire()
    ensures Encode(ConnAck(0, true, 5)) == [32, 2, 1, 5]
    ensures Encode(PacketIdOnly(PUBREL, 2, 258)) == [98, 2, 1, 2]
    ensures Encode(SubAck(0, 10, [0, 2])) == [144, 4, 0, 10, 0, 2]
    ensures Encode(Unsubscribe(2, 300, [])) == [162, 2, 1, 44]
    ensures Encode(HeaderOnly(DISCONNECT, 0)) == [224, 0]
    ensures EncodeLength(321) == [193, 2] && EncodeLength(MAX_REMAINING) == [255, 255, 255, 127]
  {
    hide FirstByte, Or;
    FirstByteFits(ConnAck(0, true, 5));
    FirstByteFits(PacketIdOnly(PUBREL, 2, 258));
    FirstByteFits(SubAck(0, 10, [0, 2]));
    FirstByteFits(Unsubscribe(2, 300, []));
    FirstByteFits(HeaderOnly(DISCONNECT, 0));
    assert EncodeLength(2) == [2];
    assert EncodeLength(16383) == [255, 127];
    assert EncodeLength(2097151) == [255] + EncodeLength(16383);
  }

  // ---------------------------------------------------------------- refused bytes

  /** Types 0 and 15 are refused once the first byte is read; no other type is. */
  lemma TypeRefused(b: byte, rest: bytes)
    ensures var r := GetHeader(View([], true, [b] + rest));
            && (b / 16 == 0 || b / 16 == 15 ==> r == Panic(View([b], true, rest)))
            && (0 < b / 16 < 15 ==> (r.Panic? <==> GetLength(View([b], true, rest)).Panic?))
  {
    hide GetLength;
    var v := View([], true, [b] + rest);
    assert Skip(v, 1) == View([b], true, rest);
  }

  /** So is a length of more than four bytes. */
  lemma LengthRefused(w: bytes, x: bytes, rest: bytes)
    requires |x| == 4 && forall i :: 0 <= i < 4 ==> x[i] >= 128
    ensures GetLength(View(w, true, x + rest)) == Panic(View(w + x, true, rest))
  {
    hide Weight;
    var v := View(w, true, x + rest);
    LongLength(w, x, rest, 0, 0);
    assert w + x[..0] == w && x[0..] == x;
  }

  lemma {:induction false} LongLength(w: bytes, x: bytes, rest: bytes, i: nat, acc: nat)
    requires |x| == 4 && i <= 4 && forall i :: 0 <= i < 4 ==> x[i] >= 128
    ensures GetLengthFrom(View(w + x[..i], true, x[i..] + rest), i, acc) == Panic(View(w + x, true, rest))
    decreases 4 - i
  {
    hide Weight;
    if i == 4 {
      assert x[..4] == x && x[4..] + rest == rest;
    } else {
      var v := View(w + x[..i], true, x[i..] + rest);
      assert v.pending[0] == x[i] && v.pending[1..] == x[i + 1..] + rest;
      assert w + x[..i] + v.pending[..1] == w + x[..i + 1];
      LongLength(w, x, rest, i + 1, acc + x[i] % 128 * Weight(i));
    }
  }

  /** A CONNACK with a return code of 6 or more is an error; the bytes behind the fixed header stay for the next call. */
  lemma ReturnCodeRefused(flag: byte, b: byte, code: byte, rest: bytes)
    requires flag < 16 && code >= 6
    ensures Loop(Idle(), [32 + flag, 2] + ([b, code] + rest), [])
            == Outcome(Codec(VariableHeader, 2, Partial(ConnAck(flag, false, 0), 2)), View([], false, [b, code] + rest), [], true)
  {
    hide Loop;
    var body := [b, code] + rest;
    var c, v := Codec(VariableHeader, 2, Partial(ConnAck(flag, false, 0), 2)), View([], true, body);
    ShortHeader([32 + flag, 2] + body, 2, flag, 2, body, []);
    assert Skip(Skip(v, 1), 1) == View([b, code], true, rest);
    assert OneRound(c, v) == Panic(View([b, code], true, rest));
    LoopRound(c, body, []);
  }

  // ---------------------------------------------------------------- lists of entries

  function TopicBytes(topics: seq<bytes>): bytes {
    if topics == [] then [] else StringBytes(topics[0]) + TopicBytes(topics[1..])
  }

  /** Header and packet identifier of a message that goes on with a list. */
  lemma ListHeader(kind: byte, flag: byte, id: nat, entries: bytes, rest: bytes, msgs: seq<Message>)
    requires kind in {SUBSCRIBE, SUBACK, UNSUBSCRIBE} && flag < 16 && id < 65536
    requires entries != [] && 2 + |entries| <= MAX_REMAINING
    ensures var n := 2 + |entries|;
            Loop(Idle(), [kind * 16 + flag] + EncodeLength(n) + (Uint16Bytes(id) + (entries + rest)), msgs)
            == Loop(Codec(Payload, n, Partial(WithId(NewMessage(kind, flag), id), |entries|)), entries + rest, msgs)
  {
    hide Loop, GetHeader, GetUint16, EncodeLength, Uint16Bytes;
    var n, body := 2 + |entries|, Uint16Bytes(id) + (entries + rest);
    var s, m := [kind * 16 + flag] + EncodeLength(n) + body, NewMessage(kind, flag);
    var c := Codec(VariableHeader, n, Partial(m, n));
    ReadHeader(View([], true, s), kind, flag, n, body);
    LoopGoesOn(Idle(), s, msgs, c, body);
    ReadUint16(View([], true, body), id, entries + rest);
    LoopGoesOn(c, body, msgs, Codec(Payload, n, Partial(WithId(m, id), |entries|)), entries + rest);
  }

  /**
    Of an UNSUBSCRIBE as a client sends it the first topic is read.  Any further ones are left in the buffer and
    taken for the next message.
   */
  lemma UnsubscribeDecodes(flag: byte, id: nat, topics: seq<bytes>, rest: bytes, msgs: seq<Message>)
    requires flag < 16 && id < 65536 && topics != [] && GoodString(topics[0])
    requires 2 + |TopicBytes(topics)| <= MAX_REMAINING
    ensures var n := 2 + |TopicBytes(topics)|;
            Loop(Idle(), [160 + flag] + EncodeLength(n) + (Uint16Bytes(id) + (TopicBytes(topics) + rest)), msgs)
            == Loop(Idle(), TopicBytes(topics[1..]) + rest, msgs + [Unsubscribe(flag, id, [topics[0]])])
  {
    hide Loop, GetString, EncodeLength, Uint16Bytes, StringBytes;
    var entries, more := TopicBytes(topics), TopicBytes(topics[1..]) + rest;
    assert entries != [] by { assert |StringBytes(topics[0])| >= 2; }
    ListHeader(UNSUBSCRIBE, flag, id, entries, rest, msgs);
    ConcatAssoc(StringBytes(topics[0]), TopicBytes(topics[1..]), rest);
    var c := Codec(Payload, 2 + |entries|, Partial(Unsubscribe(flag, id, []), |entries|));
    ReadString(View([], true, entries + rest), topics[0], more);
    LoopStep(c, entries + rest, msgs, Round(Idle(), [Unsubscribe(flag, id, [topics[0]])]), more);
  }

  /** The same for the topic filters of a SUBSCRIBE, which the encoder writes all. */
  lemma SubscribeDecodes(m: Message, rest: bytes, msgs: seq<Message>)
    requires m.Subscribe? && Encodable(m) && |Body(m)| <= MAX_REMAINING && m.flag < 16 && m.packetId < 65536
    requires m.filters != [] && GoodString(m.filters[0].topicName)
    ensures Loop(Idle(), Encode(m) + rest, msgs)
            == Loop(Idle(), FilterBytes(m.filters[1..]) + rest, msgs + [Subscribe(m.flag, m.packetId, m.filters[..1])])
  {
    hide Loop, GetString, GetUint8, EncodeLength, Uint16Bytes, StringBytes, FirstByte, Or;
    FirstByteFits(m);
    var f, entries := m.filters[0], FilterBytes(m.filters);
    var more := FilterBytes(m.filters[1..]) + rest;
    var name, qos := StringBytes(f.topicName), [f.requestedQos];
    assert entries != [] by { assert |StringBytes(f.topicName)| >= 2; }
    ListHeader(SUBSCRIBE, m.flag, m.packetId, entries, rest, msgs);
    ListText(HeaderBytes(m), Uint16Bytes(m.packetId), entries, rest);
    ConcatAssoc(name, qos + FilterBytes(m.filters[1..]), rest);
    ConcatAssoc(qos, FilterBytes(m.filters[1..]), rest);
    var c := Codec(Payload, 2 + |entries|, Partial(Subscribe(m.flag, m.packetId, []), |entries|));
    var v := View([], true, entries + rest);
    ReadString(v, f.topicName, qos + more);
    ReadUint8(GetString(v).view, f.requestedQos, more);
    assert m.filters[..1] == [f] == [TopicFilter(f.topicName, f.requestedQos)];
    LoopStep(c, entries + rest, msgs, Round(Idle(), [Subscribe(m.flag, m.packetId, m.filters[..1])]), more);
  }

  lemma ListText(header: bytes, id: bytes, entries: bytes, rest: bytes)
    ensures header + (id + entries) + rest == header + (id + (entries + rest))
  {
    ConcatAssoc(header, id + entries, rest);
    ConcatAssoc(id, entries, rest);
  }

  /** And for the codes of a SUBACK. */
  lemma SubAckDecodes(m: Message, rest: bytes, msgs: seq<Message>)
    requires m.SubAck? && |Body(m)| <= MAX_REMAINING && m.flag < 16 && m.packetId < 65536 && m.acks != []
    ensures Loop(Idle(), Encode(m) + rest, msgs)
            == Loop(Idle(), m.acks[1..] + rest, msgs + [SubAck(m.flag, m.packetId, m.acks[..1])])
  {
    hide Loop, GetUint8, EncodeLength, Uint16Bytes, FirstByte, Or;
    FirstByteFits(m);
    var more := m.acks[1..] + rest;
    ListHeader(SUBACK, m.flag, m.packetId, m.acks, rest, msgs);
    ListText(HeaderBytes(m), Uint16Bytes(m.packetId), m.acks, rest);
    assert m.acks + rest == [m.acks[0]] + more && m.acks[..1] == [m.acks[0]];
    var c := Codec(Payload, 2 + |m.acks|, Partial(SubAck(m.flag, m.packetId, []), |m.acks|));
    ReadUint8(View([], true, m.acks + rest), m.acks[0], more);
    LoopStep(c, m.acks + rest, msgs, Round(Idle(), [SubAck(m.flag, m.packetId, m.acks[..1])]), more);
  }

  // ---------------------------------------------------------------- chunks

  /** What a connection keeps between two reads: the codec and the bytes not consumed. */
  datatype Conn = Conn(codec: Codec, pending: bytes)

  datatype Received = Received(conn: Conn, msgs: seq<Message>) | Hung

  const FRESH := Conn(Idle(), [])

  /** A chunk arrives and the decoder is called once. */
  function Feed(conn: Conn, chunk: bytes): Received {
    match DoDecode(conn.codec, View([], false, conn.pending + chunk))
    case Spins => Hung
    case Outcome(c, v, msgs, _) => Received(Conn(c, v.pending), msgs)
  }

  function FeedAll(conn: Conn, chunks: seq<bytes>): Received
    decreases |chunks|
  {
    if chunks == [] then Received(conn, []) else
    match Feed(conn, chunks[0])
    case Hung => Hung
    case Received(conn', msgs) =>
      match FeedAll(conn', chunks[1..])
      case Hung => Hung
      case Received(conn'', more) => Received(conn'', msgs + more)
  }

  // ---------------------------------------------------------------- when a run gets stuck

  /** The call on chunk i is entered awaiting a payload of which too little has arrived. */
  ghost predicate StuckAt(conn: Conn, chunks: seq<bytes>, i: nat)
    requires i < |chunks|
  {
    var before := FeedAll(conn, chunks[..i]);
    && before.Received?
    && var pending := before.conn.pending + chunks[i];
       pending != [] && !Ready(before.conn.codec, pending)
  }

  /** The call on chunk i abandons a payload. */
  ghost predicate AbandonsAt(conn: Conn, chunks: seq<bytes>, i: nat)
    requires i < |chunks|
  {
    var before := FeedAll(conn, chunks[..i]);
    before.Received? && Abandons(before.conn.codec, before.conn.pending + chunks[i], [])
  }

  lemma FeedOne(conn: Conn, chunk: bytes)
    requires Settled(conn.codec)
    ensures Feed(conn, chunk).Hung? <==> conn.pending + chunk != [] && !Ready(conn.codec, conn.pending + chunk)
    ensures Feed(conn, chunk).Received? ==> Settled(Feed(conn, chunk).conn.codec)
    ensures var r := Feed(conn, chunk);
            r.Received? && Ready(conn.codec, conn.pending) && !Abandons(conn.codec, conn.pending + chunk, []) ==>
              Ready(r.conn.codec, r.conn.pending)
  {
    hide Abandons, Loop;
    var pending := conn.pending + chunk;
    SpinsExactly(conn.codec, pending, []);
    if pending != [] && Ready(conn.codec, pending) {
      CallLeaves(conn.codec, pending, []);
    }
  }

  /** The run after its first chunk, seen from the connection that chunk leaves. */
  lemma LaterCalls(conn: Conn, chunks: seq<bytes>, i: nat)
    requires i + 1 < |chunks| && Feed(conn, chunks[0]).Received?
    ensures StuckAt(conn, chunks, i + 1) <==> StuckAt(Feed(conn, chunks[0]).conn, chunks[1..], i)
    ensures AbandonsAt(conn, chunks, i + 1) <==> AbandonsAt(Feed(conn, chunks[0]).conn, chunks[1..], i)
  {
    hide Feed, Abandons, Ready;
    assert chunks[..i + 1][1..] == chunks[1..][..i];
  }

  /**
    Over whole runs: the decoder stays settled, and it hangs exactly when some call is entered awaiting a
    payload of which too little has arrived.
   */
  lemma {:induction false} HangsExactly(conn: Conn, chunks: seq<bytes>)
    requires Settled(conn.codec)
    ensures FeedAll(conn, chunks).Hung? <==> exists i :: 0 <= i < |chunks| && StuckAt(conn, chunks, i)
    ensures FeedAll(conn, chunks).Received? ==> Settled(FeedAll(conn, chunks).conn.codec)
    decreases |chunks|
  {
    hide Feed, StuckAt, Ready;
    if chunks != [] {
      FirstCall(conn, chunks);
      if Feed(conn, chunks[0]).Received? {
        var next, later := Feed(conn, chunks[0]).conn, chunks[1..];
        HangsExactly(next, later);
        forall i | 0 <= i < |later|
          ensures StuckAt(conn, chunks, i + 1) <==> StuckAt(next, later, i)
        {
          LaterCalls(conn, chunks, i);
        }
        if i :| 0 <= i < |chunks| && StuckAt(conn, chunks, i) {
          assert StuckAt(next, later, i - 1);
        }
      }
    }
  }

  lemma FirstCall(conn: Conn, chunks: seq<bytes>)
    requires Settled(conn.codec) && chunks != []
    ensures StuckAt(conn, chunks, 0) <==> Feed(conn, chunks[0]).Hung?
    ensures Feed(conn, chunks[0]).Received? ==> Settled(Feed(conn, chunks[0]).conn.codec)
  {
    hide Feed, Ready;
    FeedOne(conn, chunks[0]);
  }

  /** A run in which no call abandons a payload returns from every call, and is ready for the next. */
  lemma {:induction false} QuietRunReturns(conn: Conn, chunks: seq<bytes>)
    requires Sane(conn.codec, conn.pending)
    requires forall i :: 0 <= i < |chunks| ==> !AbandonsAt(conn, chunks, i)
    ensures var r := FeedAll(conn, chunks); r.Received? && Sane(r.conn.codec, r.conn.pending)
    decreases |chunks|
  {
    hide Feed, AbandonsAt;
    if chunks != [] {
      FirstCallReturns(conn, chunks);
      var next, later := Feed(conn, chunks[0]).conn, chunks[1..];
      forall i | 0 <= i < |later|
        ensures !AbandonsAt(next, later, i)
      {
        LaterCalls(conn, chunks, i);
      }
      QuietRunReturns(next, later);
    }
  }

  lemma FirstCallReturns(conn: Conn, chunks: seq<bytes>)
    requires Sane(conn.codec, conn.pending) && chunks != [] && !AbandonsAt(conn, chunks, 0)
    ensures var r := Feed(conn, chunks[0]); r.Received? && Sane(r.conn.codec, r.conn.pending)
  {
    hide Feed, Abandons;
    FeedOne(conn, chunks[0]);
  }

  lemma OneDigit(n: nat)
    requires n < 128
    ensures EncodeLength(n) == [n]
  {
  }

  /** A fixed header with a one-byte length, read between messages. */
  lemma ShortHeader(s: bytes, kind: byte, flag: byte, n: byte, rest: bytes, msgs: seq<Message>)
    requires 0 < kind < 15 && flag < 16 && n < 128 && s == [kind * 16 + flag, n] + rest
    ensures var m := NewMessage(kind, flag);
            Loop(Idle(), s, msgs) == if m.HeaderOnly? then Loop(Idle(), rest, msgs + [m])
                                     else Loop(Codec(VariableHeader, n, Partial(m, n)), rest, msgs)
  {
    hide Loop, GetHeader, EncodeLength, NewMessage;
    OneDigit(n);
    assert s == [kind * 16 + flag] + EncodeLength(n) + rest;
    ReadHeader(View([], true, s), kind, flag, n, rest);
    var m := NewMessage(kind, flag);
    if m.HeaderOnly? {
      LoopStep(Idle(), s, msgs, Round(Idle(), [m]), rest);
    } else {
      LoopGoesOn(Idle(), s, msgs, Codec(VariableHeader, n, Partial(m, n)), rest);
    }
  }

  /**
    A run that does hang: a PINGREQ, then an UNSUBSCRIBE whose topic claims more bytes than its message has,
    then one more byte.
   */
  lemma HungByOverrun()
    ensures FeedAll(FRESH, [[192, 0, 162, 4, 0, 1, 0, 9], [0]]) == Hung
  {
    hide Loop;
    var ping := HeaderOnly(PINGREQ, 0);
    var s: bytes := [192, 0, 162, 4, 0, 1, 0, 9];
    ShortHeader(s, 12, 0, 0, s[2..], []);
    assert [] + [ping] == [ping];
    ShortHeader(s[2..], 10, 2, 4, s[4..], [ping]);
    StuckAfter(ping, s[4..]);
    assert [] + s == s;
    SecondCallHangs(s, Codec(Payload, 4, Partial(Unsubscribe(2, 1, []), 2)), [ping]);
  }

  lemma StuckAfter(ping: Message, body: bytes)
    requires body == [0, 1, 0, 9]
    ensures Loop(Codec(VariableHeader, 4, Partial(Unsubscribe(2, 0, []), 4)), body, [ping])
            == Outcome(Codec(Payload, 4, Partial(Unsubscribe(2, 1, []), 2)), View([0, 9], true, []), [ping], false)
  {
    hide Loop;
    var c, c' := Codec(VariableHeader, 4, Partial(Unsubscribe(2, 0, []), 4)), Codec(Payload, 4, Partial(Unsubscribe(2, 1, []), 2));
    LoopGoesOn(c, body, [ping], c', [0, 9]);
    assert OneRound(c', View([], true, [0, 9])) == Panic(View([0, 9], true, []));
    LoopRound(c', [0, 9], [ping]);
  }

  /** One byte more, when two or more are awaited. */
  lemma SecondCallHangs(s: bytes, c: Codec, msgs: seq<Message>)
    requires Feed(FRESH, s) == Received(Conn(c, []), msgs) && !Ready(c, [0])
    ensures FeedAll(FRESH, [s, [0]]) == Hung
  {
    hide Feed;
    var chunks: seq<bytes> := [s, [0]];
    assert chunks[1..] == [[0]] && [] + [0] == [0];
    FeedOne(Conn(c, []), [0]);
  }

  /** The same without any complete message: a SUBSCRIBE that ends before its QoS byte, then one more byte. */
  lemma HungByEnd()
    ensures FeedAll(FRESH, [[130, 5, 0, 1, 0, 1, 97], [0]]) == Hung
  {
    hide Loop;
    var s: bytes := [130, 5, 0, 1, 0, 1, 97];
    var c := Codec(VariableHeader, 5, Partial(Subscribe(2, 0, []), 5));
    var c' := Codec(Payload, 5, Partial(Subscribe(2, 1, []), 3));
    ShortHeader(s, 8, 2, 5, s[2..], []);
    LoopGoesOn(c, s[2..], [], c', s[4..]);
    assert OneRound(c', View([], true, s[4..])) == Panic(EMPTY_VIEW);
    LoopRound(c', s[4..], []);
    assert [] + s == s;
    SecondCallHangs(s, c', []);
  }

  /** Position k of the stream is not strictly inside a fixed header. */
  ghost predicate GoodCut(ms: seq<Message>, k: nat)
    requires AllCanonical(ms)
  {
    if ms == [] then k == 0
    else if k < |Encode(ms[0])| then k == 0 || |HeaderBytes(ms[0])| <= k
    else GoodCut(ms[1..], k - |Encode(ms[0])|)
  }

  /** The messages that lie entirely within the first k bytes. */
  ghost function Whole(ms: seq<Message>, k: nat): seq<Message>
    requires AllCanonical(ms)
  {
    if ms == [] || k < |Encode(ms[0])| then [] else [ms[0]] + Whole(ms[1..], k - |Encode(ms[0])|)
  }

  /** What the connection should keep after the first k bytes. */
  ghost function ConnAt(ms: seq<Message>, k: nat): Conn
    requires AllCanonical(ms)
  {
    if ms == [] then FRESH
    else if k < |Encode(ms[0])| then
      if k < |HeaderBytes(ms[0])| then FRESH
      else Conn(Waiting(ms[0]), Body(ms[0])[..k - |HeaderBytes(ms[0])|])
    else ConnAt(ms[1..], k - |Encode(ms[0])|)
  }

  ghost predicate Yields(o: Outcome, conn: Conn, msgs: seq<Message>) {
    o.Outcome? && o.codec == conn.codec && o.view.pending == conn.pending && o.msgs == msgs
  }

  /** An incomplete body is left in the buffer, whether or not messages were completed before it. */
  lemma PartialBody(m: Message, j: nat, msgs: seq<Message>)
    requires Canonical(m) && !m.HeaderOnly? && j < |Body(m)|
    ensures Yields(Loop(Waiting(m), Body(m)[..j], msgs), Conn(Waiting(m), Body(m)[..j]), msgs)
  {
    hide Body;
    assert [] + Body(m)[..j] == Body(m)[..j];
  }

  lemma {:induction false} FromBetween(ms: seq<Message>, k: nat, msgs: seq<Message>)
    requires AllCanonical(ms) && k <= |EncodeAll(ms)| && GoodCut(ms, k)
    ensures Yields(Loop(Idle(), EncodeAll(ms)[..k], msgs), ConnAt(ms, k), msgs + Whole(ms, k))
  {
    hide Encode, HeaderBytes, Body, Loop, Waiting;
    if ms == [] || k == 0 {
      NothingRead(ms, msgs);
      assert EncodeAll(ms)[..k] == [];
    } else {
      var m, n := ms[0], |Encode(ms[0])|;
      EncodedParts(m);
      var s := EncodeAll(ms);
      if k < n {
        var j := k - |HeaderBytes(m)|;
        assert s[..k] == HeaderBytes(m) + Body(m)[..j];
        HeaderRound(Idle(), m, Body(m)[..j], msgs);
        PartialBody(m, j, msgs + []);
        assert msgs + [] == msgs == msgs + Whole(ms, k);
      } else {
        var rest := EncodeAll(ms[1..])[..k - n];
        assert s[..k] == Encode(m) + rest;
        MessageRounds(Idle(), m, rest, msgs);
        FromBetween(ms[1..], k - n, msgs + [m]);
        ConcatAssoc(msgs, [m], Whole(ms[1..], k - n));
      }
    }
  }

  lemma NothingRead(ms: seq<Message>, msgs: seq<Message>)
    requires AllCanonical(ms)
    ensures Yields(Loop(Idle(), [], msgs), ConnAt(ms, 0), msgs + Whole(ms, 0))
    ensures ConnAt(ms, 0) == FRESH && Whole(ms, 0) == []
  {
    if ms != [] {
      EncodedNotEmpty(ms[0]);
    }
    assert msgs + [] == msgs;
  }

  lemma EncodedParts(m: Message)
    requires Canonical(m)
    ensures Encode(m) == HeaderBytes(m) + Body(m) && |HeaderBytes(m)| >= 2
    ensures m.HeaderOnly? <==> Body(m) == []
  {
    EncodedNotEmpty(m);
    BodyOfHeaderOnly(m);
  }

  /** A place behind the first message is a place in the rest of the stream. */
  lemma Behind(ms: seq<Message>, k: nat)
    requires AllCanonical(ms) && ms != [] && |Encode(ms[0])| <= k
    ensures var n, rest := |Encode(ms[0])|, ms[1..];
            && EncodeAll(ms) == Encode(ms[0]) + EncodeAll(rest)
            && (GoodCut(ms, k) <==> GoodCut(rest, k - n))
            && Whole(ms, k) == [ms[0]] + Whole(rest, k - n) && ConnAt(ms, k) == ConnAt(rest, k - n)
  {
    hide Encode, HeaderBytes, Body, Waiting;
  }

  /** A place within the body of the first message. */
  lemma Within(ms: seq<Message>, k: nat)
    requires AllCanonical(ms) && ms != [] && |HeaderBytes(ms[0])| <= k < |Encode(ms[0])|
    ensures |HeaderBytes(ms[0])| + |Body(ms[0])| == |Encode(ms[0])|
    ensures var m, h := ms[0], |HeaderBytes(ms[0])|;
            && EncodeAll(ms) == HeaderBytes(m) + Body(m) + EncodeAll(ms[1..])
            && Whole(ms, k) == [] && ConnAt(ms, k) == Conn(Waiting(m), Body(m)[..k - h])
  {
    EncodedParts(ms[0]);
    hide Encode, HeaderBytes, Body, Waiting;
  }

  /** From a cut inside the body of the first message to a later good cut. */
  lemma FromWithin(ms: seq<Message>, k: nat, k': nat)
    requires AllCanonical(ms) && ms != [] && k <= k' <= |EncodeAll(ms)| && GoodCut(ms, k')
    requires |HeaderBytes(ms[0])| <= k < |Encode(ms[0])|
    ensures var m := ms[0];
            Yields(Loop(Waiting(m), Body(m)[..k - |HeaderBytes(m)|] + EncodeAll(ms)[k..k'], []),
                   ConnAt(ms, k'), Whole(ms, k'))
  {
    hide Encode, HeaderBytes, Body, Loop, Waiting, EncodeAll, Whole, ConnAt, GoodCut;
    var m := ms[0];
    var n, h := |Encode(m)|, |HeaderBytes(m)|;
    EncodedParts(m);
    Within(ms, k);
    Resume(HeaderBytes(m), Body(m), EncodeAll(ms[1..]), k, k');
    if k' < n {
      Within(ms, k');
      PartialBody(m, k' - h, []);
    } else {
      Behind(ms, k');
      var rest := EncodeAll(ms[1..])[..k' - n];
      BodyRounds(m, rest, []);
      FromBetween(ms[1..], k' - n, [] + [m]);
    }
  }

  /** A body that was cut at k, with the stream from there to k' behind it. */
  lemma Resume(header: bytes, body: bytes, rest: bytes, k: nat, k': nat)
    requires |header| <= k < |header + body| && k <= k' <= |header + body + rest|
    ensures var h, n := |header|, |header| + |body|;
            body[..k - h] + (header + body + rest)[k..k']
            == if k' < n then body[..k' - h] else body + rest[..k' - n]
  {
    var h, n := |header|, |header| + |body|;
    ConcatAssoc(header, body, rest);
    SliceBehind(header, body + rest, k, k');
    if k' < n {
      assert (body + rest)[k - h..k' - h] == body[k - h..k' - h];
    } else {
      SliceAcross(body, rest, k - h, k' - h);
      assert body[..k - h] + body[k - h..] == body;
      ConcatAssoc(body[..k - h], body[k - h..], rest[..k' - n]);
    }
  }

  lemma SliceAcross(a: bytes, b: bytes, k: nat, k': nat)
    requires k <= |a| <= k' <= |a + b|
    ensures (a + b)[k..k'] == a[k..] + b[..k' - |a|]
  {
  }

  lemma SliceBehind(a: bytes, b: bytes, k: nat, k': nat)
    requires |a| <= k <= k' <= |a + b|
    ensures (a + b)[k..k'] == b[k - |a|..k' - |a|]
  {
  }

  lemma PlaceOfCut(ms: seq<Message>, k: nat)
    requires AllCanonical(ms) && ms != [] && GoodCut(ms, k) && 0 < k < |Encode(ms[0])|
    ensures |HeaderBytes(ms[0])| <= k
  {
    hide Encode, HeaderBytes;
  }

  /** From one good cut to a later one. */
  lemma {:induction false} BetweenCuts(ms: seq<Message>, k: nat, k': nat)
    requires AllCanonical(ms) && k <= k' <= |EncodeAll(ms)| && GoodCut(ms, k) && GoodCut(ms, k')
    ensures Whole(ms, k) <= Whole(ms, k')
    ensures var conn := ConnAt(ms, k);
            Yields(Loop(conn.codec, conn.pending + EncodeAll(ms)[k..k'], []),
                   ConnAt(ms, k'), Whole(ms, k')[|Whole(ms, k)|..])
  {
    hide Encode, HeaderBytes, Body, Loop, Waiting, Whole, ConnAt, GoodCut;
    var s := EncodeAll(ms);
    if ms == [] || k == 0 {
      NothingRead(ms, []);
      FromBetween(ms, k', []);
      assert [] + s[k..k'] == s[..k'];
      assert [] + Whole(ms, k') == Whole(ms, k') == Whole(ms, k')[0..];
    } else {
      var n := |Encode(ms[0])|;
      if k >= n {
        Behind(ms, k);
        Behind(ms, k');
        BetweenCuts(ms[1..], k - n, k' - n);
        LongerPrefix(ms[0], Whole(ms[1..], k - n), Whole(ms[1..], k' - n));
        SliceBehind(Encode(ms[0]), EncodeAll(ms[1..]), k, k');
      } else {
        PlaceOfCut(ms, k);
        Within(ms, k);
        FromWithin(ms, k, k');
        assert Whole(ms, k')[0..] == Whole(ms, k');
      }
    }
  }

  ghost predicate GoodCuts(ms: seq<Message>, from: nat, chunks: seq<bytes>)
    requires AllCanonical(ms)
    decreases |chunks|
  {
    GoodCut(ms, from) && (chunks != [] ==> GoodCuts(ms, from + |chunks[0]|, chunks[1..]))
  }

  lemma FeedBetweenCuts(ms: seq<Message>, k: nat, k': nat)
    requires AllCanonical(ms) && k <= k' <= |EncodeAll(ms)| && GoodCut(ms, k) && GoodCut(ms, k')
    ensures Whole(ms, k) <= Whole(ms, k')
    ensures Feed(ConnAt(ms, k), EncodeAll(ms)[k..k']) == Received(ConnAt(ms, k'), Whole(ms, k')[|Whole(ms, k)|..])
  {
    hide Whole, ConnAt, GoodCut, EncodeAll;
    BetweenCuts(ms, k, k');
  }

  lemma FirstChunk(s: bytes, from: nat, chunk: bytes, rest: bytes)
    requires from <= |s| && chunk + rest == s[from..]
    ensures var k := from + |chunk|; k <= |s| && chunk == s[from..k] && rest == s[k..]
  {
    assert |s[from..]| == |chunk| + |rest|;
    assert s[from..][..|chunk|] == chunk && s[from..][|chunk|..] == rest;
  }

  lemma {:induction false} FeedChunks(ms: seq<Message>, from: nat, chunks: seq<bytes>)
    requires AllCanonical(ms) && from <= |EncodeAll(ms)| && Concat(chunks) == EncodeAll(ms)[from..]
    requires GoodCuts(ms, from, chunks)
    ensures Whole(ms, from) <= ms
    ensures FeedAll(ConnAt(ms, from), chunks) == Received(FRESH, ms[|Whole(ms, from)|..])
    decreases |chunks|
  {
    hide Feed, GoodCut, ConnAt, Whole, EncodeAll;
    var s := EncodeAll(ms);
    WholeStream(ms);
    if chunks == [] {
      assert from == |s|;
    } else {
      var k := from + |chunks[0]|;
      FirstChunk(s, from, chunks[0], Concat(chunks[1..]));
      FeedBetweenCuts(ms, from, k);
      FeedChunks(ms, k, chunks[1..]);
    }
  }

  lemma {:induction false} WholeStream(ms: seq<Message>)
    requires AllCanonical(ms)
    ensures ConnAt(ms, |EncodeAll(ms)|) == FRESH && Whole(ms, |EncodeAll(ms)|) == ms
  {
    hide Encode, HeaderBytes, Body, Waiting;
    if ms != [] {
      WholeStream(ms[1..]);
    }
  }

  /**
    Split invariance: however the stream is cut into chunks, as long as no cut lies strictly inside a fixed
    header, the same messages come out in the same order and the decoder ends between messages with nothing
    left over.
   */
  lemma SplitInvariance(ms: seq<Message>, chunks: seq<bytes>)
    requires AllCanonical(ms) && Concat(chunks) == EncodeAll(ms) && GoodCuts(ms, 0, chunks)
    ensures FeedAll(FRESH, chunks) == Received(FRESH, ms)
  {
    NothingRead(ms, []);
    assert EncodeAll(ms)[0..] == EncodeAll(ms) && ms[0..] == ms;
    FeedChunks(ms, 0, chunks);
  }

  // ---------------------------------------------------------------- cuts inside a fixed header

  /** A length field cut short: reading past the end of the buffer resets it and the mark is gone. */
  lemma {:induction false} ShortLength(v: View, i: nat, acc: nat, n: nat, j: nat)
    requires i < 4 && n * Weight(i) <= MAX_REMAINING && j < |EncodeLength(n)|
    requires v.pending == EncodeLength(n)[..j]
    ensures GetLengthFrom(v, i, acc) == Panic(EMPTY_VIEW)
    decreases 4 - i
  {
    hide Weight;
    if j > 0 {
      var b, more := n % 128 + 128, EncodeLength(n / 128);
      LengthDigit(n, i);
      assert v.pending == [b] + more[..j - 1];
      ShortLength(Skip(v, 1), i + 1, acc + b % 128 * Weight(i), n / 128, j - 1);
    }
  }

  lemma HeaderCutRound(m: Message, o: nat, msgs: seq<Message>)
    requires Canonical(m) && 0 < o < |HeaderBytes(m)|
    ensures Yields(Loop(Idle(), HeaderBytes(m)[..o], msgs),
                   if o == 1 && msgs == [] then Conn(Idle(), HeaderBytes(m)[..1]) else FRESH, msgs)
  {
    hide GetLengthFrom, EncodeLength, Body, Or, FirstByte;
    FirstByteFits(m);
    var h := HeaderBytes(m);
    var v := View([], true, h[..o]);
    var w := Skip(v, 1);
    assert w.pending == EncodeLength(|Body(m)|)[..o - 1];
    assert w.back == h[..1];
    ShortLength(w, 0, 0, |Body(m)|, o - 1);
  }

  lemma {:induction false} HeaderCut(ms: seq<Message>, k: nat, msgs: seq<Message>)
    requires AllCanonical(ms) && k <= |EncodeAll(ms)| && !GoodCut(ms, k)
    ensures Yields(Loop(Idle(), EncodeAll(ms)[..k], msgs),
                   if k == 1 && msgs == [] then Conn(Idle(), EncodeAll(ms)[..1]) else FRESH, msgs + Whole(ms, k))
  {
    hide Encode, HeaderBytes, Body, Loop, Waiting;
    var m, n, s := ms[0], |Encode(ms[0])|, EncodeAll(ms);
    EncodedParts(m);
    if k < n {
      assert s[..k] == HeaderBytes(m)[..k] && s[..1] == HeaderBytes(m)[..1];
      HeaderCutRound(m, k, msgs);
      assert msgs + [] == msgs;
    } else {
      var rest := EncodeAll(ms[1..])[..k - n];
      assert s[..k] == Encode(m) + rest;
      MessageRounds(Idle(), m, rest, msgs);
      HeaderCut(ms[1..], k - n, msgs + [m]);
      ConcatAssoc(msgs, [m], Whole(ms[1..], k - n));
    }
  }

  /**
    Every cut into two chunks.  At a good cut, and after the very first byte of the stream, nothing is lost.
    At any other cut the bytes of the unfinished fixed header are dropped: the decoder is back between
    messages with an empty buffer, and treats the second chunk as if it began with a new message.  The whole
    result is then the right one exactly when the stream without those bytes happens to decode alike.
   */
  lemma TwoChunks(ms: seq<Message>, k: nat)
    requires AllCanonical(ms) && k <= |EncodeAll(ms)|
    ensures Whole(ms, k) <= ms
    ensures var s := EncodeAll(ms);
            if GoodCut(ms, k) || k == 1 then FeedAll(FRESH, [s[..k], s[k..]]) == Received(FRESH, ms)
            else Feed(FRESH, s[..k]) == Received(FRESH, Whole(ms, k))
    ensures var s := EncodeAll(ms);
            FeedAll(FRESH, [s[..k], s[k..]]) == Received(FRESH, ms) <==>
              GoodCut(ms, k) || k == 1 || Feed(FRESH, s[k..]) == Received(FRESH, ms[|Whole(ms, k)|..])
  {
    WholePrefix(ms, k);
    var s := EncodeAll(ms);
    assert [] + s[..k] == s[..k];
    assert [] + Whole(ms, k) == Whole(ms, k);
    if GoodCut(ms, k) {
      TwoGoodChunks(ms, k);
    } else {
      HeaderCut(ms, k, []);
      if k == 1 {
        SecondByteCut(ms);
      } else {
        FeedRest(s[..k], s[k..], Whole(ms, k), ms);
      }
    }
  }

  lemma LongerPrefix(m: Message, a: seq<Message>, b: seq<Message>)
    requires a <= b
    ensures [m] + a <= [m] + b
  {
    assert b == a + b[|a|..];
    ConcatAssoc([m], a, b[|a|..]);
  }

  lemma {:induction false} WholePrefix(ms: seq<Message>, k: nat)
    requires AllCanonical(ms)
    ensures Whole(ms, k) <= ms
  {
    hide Encode, Encodable, Body;
    if ms != [] && k >= |Encode(ms[0])| {
      WholePrefix(ms[1..], k - |Encode(ms[0])|);
      assert ms == [ms[0]] + ms[1..];
      LongerPrefix(ms[0], Whole(ms[1..], k - |Encode(ms[0])|), ms[1..]);
    }
  }

  /** After a first chunk that leaves nothing behind, the second one decides. */
  lemma FeedRest(a: bytes, b: bytes, msgs: seq<Message>, ms: seq<Message>)
    requires Feed(FRESH, a) == Received(FRESH, msgs) && msgs <= ms
    ensures FeedAll(FRESH, [a, b]) == Received(FRESH, ms) <==> Feed(FRESH, b) == Received(FRESH, ms[|msgs|..])
  {
    hide Feed;
    match Feed(FRESH, b)
    case Hung =>
      var chunks: seq<bytes> := [a, b];
      assert chunks[1..] == [b];
    case Received(end, more) =>
      FeedTwo(a, b, FRESH, msgs, end, more);
      assert msgs + ms[|msgs|..] == ms && (msgs + more)[|msgs|..] == more;
  }

  lemma TwoGoodChunks(ms: seq<Message>, k: nat)
    requires AllCanonical(ms) && k <= |EncodeAll(ms)| && GoodCut(ms, k)
    ensures FeedAll(FRESH, [EncodeAll(ms)[..k], EncodeAll(ms)[k..]]) == Received(FRESH, ms)
  {
    hide EncodeAll, Feed, GoodCut;
    var s := EncodeAll(ms);
    var chunks: seq<bytes> := [s[..k], s[k..]];
    assert chunks[1..] == [s[k..]];
    assert Concat(chunks) == s[..k] + Concat([s[k..]]) == s;
    EndsAreGood(ms);
    SplitInvariance(ms, chunks);
  }

  lemma {:induction false} EndsAreGood(ms: seq<Message>)
    requires AllCanonical(ms)
    ensures GoodCut(ms, 0) && GoodCut(ms, |EncodeAll(ms)|)
  {
    hide Encode, HeaderBytes, Body;
    if ms != [] {
      EncodedNotEmpty(ms[0]);
      EndsAreGood(ms[1..]);
    }
  }

  lemma FeedTwo(a: bytes, b: bytes, mid: Conn, msgs: seq<Message>, end: Conn, more: seq<Message>)
    requires Feed(FRESH, a) == Received(mid, msgs) && Feed(mid, b) == Received(end, more)
    ensures FeedAll(FRESH, [a, b]) == Received(end, msgs + more)
  {
    hide Feed;
    var chunks: seq<bytes> := [a, b];
    assert chunks[1..] == [b];
    assert FeedAll(mid, [b]) == Received(end, more + []);
    assert more + [] == more;
  }

  lemma SecondByteCut(ms: seq<Message>)
    requires AllCanonical(ms) && 1 <= |EncodeAll(ms)| && !GoodCut(ms, 1)
    ensures FeedAll(FRESH, [EncodeAll(ms)[..1], EncodeAll(ms)[1..]]) == Received(FRESH, ms)
  {
    hide Loop, GoodCut, Whole, FeedAll, EncodeAll;
    var s := EncodeAll(ms);
    HeaderCut(ms, 1, []);
    NoneWhole(ms);
    assert [] + s[..1] == s[..1] && s[..1] + s[1..] == s;
    RoundTrip(ms, View([], false, s)) by { NotEmptyStream(ms); }
    FeedTwo(s[..1], s[1..], Conn(Idle(), s[..1]), [], FRESH, ms);
    assert [] + ms == ms;
  }

  lemma NotEmptyStream(ms: seq<Message>)
    requires AllCanonical(ms) && EncodeAll(ms) != []
    ensures ms != []
  {
  }

  lemma NoneWhole(ms: seq<Message>)
    requires AllCanonical(ms)
    ensures Whole(ms, 1) == []
  {
    if ms != [] {
      EncodedNotEmpty(ms[0]);
    }
  }

  /** Such a loss changes what comes out: a PINGREQ and a PUBACK, cut after the PUBACK's first byte. */
  lemma HeaderCutExample()
    ensures var ms := [HeaderOnly(PINGREQ, 0), PacketIdOnly(PUBACK, 0, 7)];
            && AllCanonical(ms) && EncodeAll(ms) == [192, 0, 64, 2, 0, 7] && !GoodCut(ms, 3)
            && FeedAll(FRESH, [[192, 0, 64], [2, 0, 7]]) != Received(FRESH, ms)
  {
    hide Feed, FirstByte, Or;
    var a, b := HeaderOnly(PINGREQ, 0), PacketIdOnly(PUBACK, 0, 7);
    var ms := [a, b];
    assert ms[1..] == [b] && |[b][1..]| == 0;
    assert Encode(a) == [192, 0] && Encode(b) == [64, 2, 0, 7] by { FirstByteFits(a); FirstByteFits(b); }
    assert EncodeAll([b]) == Encode(b) + [] == Encode(b);
    var s := EncodeAll(ms);
    assert !GoodCut([b], 1);
    TwoChunks(ms, 3);
    assert s[..3] == [192, 0, 64];
    assert [[192, 0, 64], [2, 0, 7]][1..] == [[2, 0, 7]];
    SecondPartLost();
  }

  lemma SecondPartLost()
    ensures Feed(FRESH, [2, 0, 7]).Received? && Feed(FRESH, [2, 0, 7]).msgs == []
  {
    assert [] + [2, 0, 7] == [2, 0, 7];
    assert GetHeader(View([], true, [2, 0, 7])).Panic?;
  }

  /**
    The messages that end with a packet identifier, and CONNACK, are complete after two bytes whatever length
    was declared, as long as that many bytes are there; what was declared beyond is read as the next message.
   */
  lemma TwoByteBody(m: Message, n: nat, rest: bytes, msgs: seq<Message>)
    requires Canonical(m) && (m.PacketIdOnly? || m.ConnAck?) && n <= MAX_REMAINING && n <= 2 + |rest|
    ensures Loop(Idle(), [TypeOf(m) * 16 + FlagOf(m)] + EncodeLength(n) + (Body(m) + rest), msgs)
            == Loop(Idle(), rest, msgs + [m])
  {
    hide Loop, GetHeader, GetUint8, GetUint16, EncodeLength, Uint16Bytes;
    var body := Body(m) + rest;
    var s := [TypeOf(m) * 16 + FlagOf(m)] + EncodeLength(n) + body;
    var c, v := Codec(VariableHeader, n, Partial(NewMessage(TypeOf(m), FlagOf(m)), n)), View([], true, body);
    ReadHeader(View([], true, s), TypeOf(m), FlagOf(m), n, body);
    LoopGoesOn(Idle(), s, msgs, c, body);
    if m.ConnAck? {
      ConcatAssoc([Bit(m.sessionPresent, 1)], [m.returnCode], rest);
      ReadUint8(v, Bit(m.sessionPresent, 1), [m.returnCode] + rest);
      ReadUint8(GetUint8(v).view, m.returnCode, rest);
    } else {
      ReadUint16(v, m.packetId, rest);
    }
    LoopStep(c, body, msgs, Round(Idle(), [m]), rest);
  }

  /** The decoder hardly looks at the declared length of a SUBSCRIBE with one topic filter. */
  lemma SubscribeAnyLength(m: Message, n: nat)
    requires Canonical(m) && m.Subscribe? && m.filters != [] && 3 <= n <= |Body(m)|
    ensures Loop(Codec(VariableHeader, n, Partial(Subscribe(m.flag, 0, []), n)), Body(m), []) == Loop(Idle(), [], [m])
  {
    hide Loop, GetString, GetUint8, GetUint16, Uint16Bytes, StringBytes, FilterBytes;
    var c, c' := Codec(VariableHeader, n, Partial(Subscribe(m.flag, 0, []), n)),
                 Codec(Payload, n, Partial(Subscribe(m.flag, m.packetId, []), n - 2));
    var f, tail := m.filters[0], FilterBytes(m.filters);
    EntryBytes(m);
    ReadUint16(View([], true, Body(m)), m.packetId, tail);
    LoopGoesOn(c, Body(m), [], c', tail);
    var t := View([], true, tail);
    ReadString(t, f.topicName, [f.requestedQos]);
    ReadUint8(GetString(t).view, f.requestedQos, []);
    LoopStep(c', tail, [], Round(Idle(), [m]), []);
    assert [] + [m] == [m];
  }

  /**
    A cut inside a fixed header may go unnoticed: a PINGREQ and a SUBSCRIBE with a topic of 381 bytes, whose
    length is encoded as [130, 3] behind a first byte of 130, cut after that first byte.
   */
  lemma UnnoticedCutExample(topic: bytes)
    requires |topic| == 381
    ensures var ms := [HeaderOnly(PINGREQ, 0), Subscribe(2, 7, [TopicFilter(topic, 0)])];
            && AllCanonical(ms) && 3 <= |EncodeAll(ms)| && !GoodCut(ms, 3)
            && FeedAll(FRESH, [EncodeAll(ms)[..3], EncodeAll(ms)[3..]]) == Received(FRESH, ms)
  {
    hide Feed, FirstByte, Or, Loop;
    var a, b := HeaderOnly(PINGREQ, 0), Subscribe(2, 7, [TopicFilter(topic, 0)]);
    var ms := [a, b];
    assert ms[1..] == [b] && |[b][1..]| == 0;
    assert |Body(b)| == 386 by { assert FilterBytes(b.filters[1..]) == []; }
    assert HeaderBytes(b) == [130, 130, 3] && Encode(a) == [192, 0] by { FirstByteFits(a); FirstByteFits(b); }
    assert EncodeAll([b]) == Encode(b) + [] == Encode(b);
    var s := EncodeAll(ms);
    assert !GoodCut([b], 1);
    TwoChunks(ms, 3);
    assert s[3..] == [130, 3] + Body(b);
    assert Whole(ms, 3) == [a];
    ShortHeaderDecodes(b, s[3..]);
  }

  lemma ShortHeaderDecodes(m: Message, s: bytes)
    requires Canonical(m) && m.Subscribe? && m.flag == 2 && m.filters != [] && s == [130, 3] + Body(m)
    ensures Feed(FRESH, s) == Received(FRESH, [m])
  {
    hide Loop, Body;
    ShortHeader(s, 8, 2, 3, Body(m), []);
    BodyHasEntry(m);
    SubscribeAnyLength(m, 3);
    LoopEnd(Idle(), [m]);
    assert [] + s == s;
  }

  lemma BodyHasEntry(m: Message)
    requires Canonical(m) && m.Subscribe? && m.filters != []
    ensures |Body(m)| >= 5
  {
  }
}
