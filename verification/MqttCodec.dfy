/**
  The resumable MQTT decoder: pkg/protocol/mqtt/message/codec.go and the decode stages of the messages.

  The buffer is seen through a View: the bytes still to read, and those read since the last mark.  A panic of
  the source is a result that carries the view at that point, because recovering does not always restore it.
 */
module MqttCodec {
  import opened Bytes
  import opened MqttMessage

  /** `back` is what Restore would put back; reading at the end of the buffer resets it and loses the mark. */
  datatype View = View(back: bytes, marked: bool, pending: bytes)

  const EMPTY_VIEW := View([], false, [])

  datatype Got<+T> = Got(value: T, view: View) | Panic(view: View) {
    predicate IsFailure() { Panic? }
    function PropagateFailure<U>(): Got<U>
      requires Panic?
    {
      Panic(view)
    }
    function Extract(): (T, View)
      requires Got?
    {
      (value, view)
    }
  }

  function RestoreView(v: View): View {
    if v.marked then View([], false, v.back + v.pending) else v
  }

  function Skip(v: View, n: nat): View
    requires n <= |v.pending|
  {
    View(if v.marked then v.back + v.pending[..n] else [], v.marked, v.pending[n..])
  }

  // ---------------------------------------------------------------- readers

  function GetUint8(v: View): Got<byte> {
    if v.pending == [] then Panic(EMPTY_VIEW) else Got(v.pending[0], Skip(v, 1))
  }

  function Uint16(hi: byte, lo: byte): nat {
    hi * 256 + lo
  }

  function GetUint16(v: View): Got<nat> {
    if |v.pending| < 2 then Panic(v) else Got(Uint16(v.pending[0], v.pending[1]), Skip(v, 2))
  }

  /** Reading zero bytes at the end of the buffer succeeds but resets the buffer. */
  function GetBytes(v: View, n: nat): Got<bytes>
    requires n <= |v.pending|
  {
    if v.pending == [] then Got([], EMPTY_VIEW) else Got(v.pending[..n], Skip(v, n))
  }

  function GetString(v: View): Got<bytes> {
    var (n, v) :- GetUint16(v);
    if |v.pending| < n then Panic(v) else GetBytes(v, n)
  }

  function GetOptString(present: bool, v: View): Got<bytes> {
    if present then GetString(v) else Got([], v)
  }

  function Weight(i: nat): nat
    requires i < 4
  {
    if i == 0 then 1 else if i == 1 then 128 else if i == 2 then 16384 else 2097152
  }

  /** The loop of decodeLength from its i-th round on. */
  function GetLengthFrom(v: View, i: nat, acc: nat): Got<nat>
    requires i <= 4
    decreases 4 - i
  {
    if i == 4 then Panic(v) else
    var (b, v) :- GetUint8(v);
    var acc := acc + b % 128 * Weight(i);
    if b < 128 then Got(acc, v) else GetLengthFrom(v, i + 1, acc)
  }

  function GetLength(v: View): Got<nat> {
    if v.pending == [] then Panic(v) else GetLengthFrom(v, 0, 0)
  }

  // ---------------------------------------------------------------- stages of a message

  /** A message under construction and the part of its length not yet consumed. */
  datatype Partial = Partial(msg: Message, remaining: int)

  datatype Header = Header(kind: byte, flag: byte, remaining: nat)

  function GetHeader(v: View): Got<Header> {
    var (b, v) :- GetUint8(v);
    if b / 16 == 0 || b / 16 == 15 then Panic(v) else
    var (n, v) :- GetLength(v);
    Got(Header(b / 16, b % 16, n), v)
  }

  const BLANK_LOGIN := Login([], 0, false, false, false, 0, false, false, 0, [], [], [], [], [])

  /** NewMessage and DecodeFixedHeader: the message with what its first byte says. */
  function NewMessage(kind: byte, flag: byte): Message
    requires 0 < kind < 15
  {
    if kind == CONNECT then Connect(flag, BLANK_LOGIN)
    else if kind == CONNACK then ConnAck(flag, false, 0)
    else if kind == PUBLISH then Publish(flag / 8 % 2 == 1, flag / 2 % 4, flag % 2 == 1, [], 0, [])
    else if kind == SUBSCRIBE then Subscribe(flag, 0, [])
    else if kind == SUBACK then SubAck(flag, 0, [])
    else if kind == UNSUBSCRIBE then Unsubscribe(flag, 0, [])
    else if kind == PINGREQ || kind == PINGRESP || kind == DISCONNECT then HeaderOnly(kind, flag)
    else PacketIdOnly(kind, flag, 0)
  }

  /** What a stage yields: the message so far, and whether it is complete. */
  datatype Stage = Stage(part: Partial, done: bool)

  function ConnectVariable(l: Login, v: View): Got<Login> {
    var (name, v) :- GetString(v);
    var (level, v) :- GetUint8(v);
    var (flags, v) :- GetUint8(v);
    var (keepAlive, v) :- GetUint16(v);
    Got(l.(protocolName := name, protocolLevel := level,
           userNameFlag := flags / 128 % 2 == 1, passwordFlag := flags / 64 % 2 == 1,
           willRetain := flags / 32 % 2 == 1, willQos := flags / 8 % 4,
           willFlag := flags / 4 % 2 == 1, cleanSession := flags / 2 % 2 == 1,
           keepAlive := keepAlive), v)
  }

  function ConnectRest(l: Login, v: View): Got<Login> {
    var (clientId, v) :- GetString(v);
    var (willTopic, v) :- GetOptString(l.willFlag, v);
    var (willMessage, v) :- GetOptString(l.willFlag, v);
    var (username, v) :- GetOptString(l.userNameFlag, v);
    var (password, v) :- GetOptString(l.passwordFlag, v);
    Got(l.(clientId := clientId, willTopic := willTopic, willMessage := willMessage,
           username := username, password := password), v)
  }

  function Consumed(before: View, after: View): int {
    |before.pending| - |after.pending|
  }

  function ConnectStage(p: Partial, v: View): Got<Stage>
    requires p.msg.Connect?
  {
    var (l, w) :- ConnectVariable(p.msg.login, v);
    Got(Stage(Partial(Connect(p.msg.flag, l), p.remaining - Consumed(v, w)), false), w)
  }

  function ConnAckStage(p: Partial, v: View): Got<Stage>
    requires p.msg.ConnAck?
  {
    var (b, w) :- GetUint8(v);
    var (code, w) :- GetUint8(w);
    if code >= 6 then Panic(w) else
    Got(Stage(Partial(ConnAck(p.msg.flag, b % 2 == 1, code), p.remaining - Consumed(v, w)), true), w)
  }

  function PublishStage(p: Partial, v: View): Got<Stage>
    requires p.msg.Publish?
  {
    var (topic, w) :- GetString(v);
    var (id, w) :- if HasId(p.msg.qos) then GetUint16(w) else Got(p.msg.packetId, w);
    var left := p.remaining - Consumed(v, w);
    Got(Stage(Partial(p.msg.(topicName := topic, packetId := id), left), left == 0), w)
  }

  function WithId(m: Message, id: nat): Message {
    match m
    case PacketIdOnly(kind, flag, _) => PacketIdOnly(kind, flag, id)
    case Subscribe(flag, _, filters) => Subscribe(flag, id, filters)
    case SubAck(flag, _, acks) => SubAck(flag, id, acks)
    case Unsubscribe(flag, _, topics) => Unsubscribe(flag, id, topics)
    case _ => m
  }

  /** The types whose variable header is a packet identifier; three of them go on to a payload if any is left. */
  function IdStage(p: Partial, v: View): Got<Stage> {
    var (id, w) :- GetUint16(v);
    var left := p.remaining - Consumed(v, w);
    Got(Stage(Partial(WithId(p.msg, id), left), p.msg.PacketIdOnly? || left == 0), w)
  }

  /** DecodeVariableHeader */
  function VariableStage(p: Partial, v: View): Got<Stage> {
    match p.msg
    case Connect(_, _) => ConnectStage(p, v)
    case ConnAck(_, _, _) => ConnAckStage(p, v)
    case Publish(_, _, _, _, _, _) => PublishStage(p, v)
    case HeaderOnly(_, _) => Panic(v)
    case _ => IdStage(p, v)
  }

  /** DecodePayload; the entry lists read at most one entry. */
  function PayloadStage(p: Partial, v: View): Got<Stage> {
    match p.msg
    case Connect(flag, l) =>
      if p.remaining > |v.pending| then Got(Stage(p, false), v) else
      var (l, w) :- ConnectRest(l, v);
      Got(Stage(Partial(Connect(flag, l), p.remaining - Consumed(v, w)), true), w)
    case Publish(_, _, _, _, _, _) =>
      if p.remaining > |v.pending| then Got(Stage(p, false), v) else
      if p.remaining < 0 then Panic(v) else
      var (payload, w) :- GetBytes(v, p.remaining);
      Got(Stage(Partial(p.msg.(payload := payload), p.remaining - Consumed(v, w)), true), w)
    case Subscribe(flag, id, _) =>
      if p.remaining > |v.pending| then Got(Stage(p, false), v) else
      if p.remaining <= 0 then Got(Stage(Partial(Subscribe(flag, id, []), p.remaining), true), v) else
      var (topic, w) :- GetString(v);
      var (qos, w) :- GetUint8(w);
      Got(Stage(Partial(Subscribe(flag, id, [TopicFilter(topic, qos)]), p.remaining), true), w)
    case SubAck(flag, id, _) =>
      if p.remaining > |v.pending| then Got(Stage(p, false), v) else
      if p.remaining <= 0 then Got(Stage(Partial(SubAck(flag, id, []), p.remaining), true), v) else
      var (ack, w) :- GetUint8(v);
      Got(Stage(Partial(SubAck(flag, id, [ack]), p.remaining), true), w)
    case Unsubscribe(flag, id, _) =>
      if p.remaining > |v.pending| then Got(Stage(p, false), v) else
      if p.remaining <= 0 then Got(Stage(Partial(Unsubscribe(flag, id, []), p.remaining), true), v) else
      var (topic, w) :- GetString(v);
      Got(Stage(Partial(Unsubscribe(flag, id, [topic]), p.remaining), true), w)
    case _ => Panic(v)
  }

  // ---------------------------------------------------------------- the state machine

  datatype Phase = FixedHeader | VariableHeader | Payload

  /** `length` is the remaining length as the fixed header gave it; `part` is the message being built. */
  datatype Codec = Codec(phase: Phase, length: nat, part: Partial)

  /** A codec between messages; what it last built no longer matters. */
  function Idle(): Codec {
    Codec(FixedHeader, 0, Partial(HeaderOnly(0, 0), 0))
  }

  /** One round of the decode loop: the new state, and the message if one was completed. */
  datatype Round = Round(codec: Codec, completed: seq<Message>)

  function OneRound(c: Codec, v: View): Got<Round> {
    match c.phase
    case FixedHeader =>
      var (h, v) :- GetHeader(v);
      var m := NewMessage(h.kind, h.flag);
      if m.HeaderOnly? then Got(Round(Idle(), [m]), v)
      else Got(Round(Codec(VariableHeader, h.remaining, Partial(m, h.remaining)), []), v)
    case VariableHeader =>
      if |v.pending| < c.length then Panic(v) else
      var (s, v) :- VariableStage(c.part, v);
      if s.done then Got(Round(Idle(), [s.part.msg]), v)
      else Got(Round(Codec(Payload, c.length, s.part), []), v)
    case Payload =>
      var (s, v) :- PayloadStage(c.part, v);
      if s.done then Got(Round(Idle(), [s.part.msg]), v)
      else Got(Round(c.(part := s.part), []), v)
  }

  /** What a call of doDecode leaves; it never returns when a payload is awaited that has not all arrived. */
  datatype Outcome =
    | Outcome(codec: Codec, view: View, msgs: seq<Message>, err: bool)
    | Spins

  /** recover: messages already decoded are returned and the buffer stays where it is; otherwise it is restored. */
  function Recover(c: Codec, v: View, msgs: seq<Message>): Outcome {
    if msgs != [] then Outcome(c, v, msgs, false) else Outcome(c, RestoreView(v), [], true)
  }

  /** The types whose payload stage waits for its bytes; that of the others panics. */
  predicate HasPayload(m: Message) {
    !m.ConnAck? && !m.PacketIdOnly? && !m.HeaderOnly?
  }

  predicate Ready(c: Codec, pending: bytes) {
    c.phase.Payload? && HasPayload(c.part.msg) ==> c.part.remaining <= |pending|
  }

  ghost predicate Shrinks<T>(r: Got<T>, v: View, least: nat) {
    r.Got? ==> |r.view.pending| + least <= |v.pending|
  }

  lemma {:induction false} LengthShrinks(v: View, i: nat, acc: nat)
    requires i <= 4
    ensures Shrinks(GetLengthFrom(v, i, acc), v, 0)
    decreases 4 - i
  {
    if i < 4 && v.pending != [] {
      LengthShrinks(Skip(v, 1), i + 1, acc + v.pending[0] % 128 * Weight(i));
    }
  }

  lemma HeaderShrinks(v: View)
    ensures Shrinks(GetHeader(v), v, 1)
  {
    if v.pending != [] {
      LengthShrinks(Skip(v, 1), 0, 0);
    }
  }

  lemma StringShrinks(v: View)
    ensures Shrinks(GetString(v), v, 2)
  {
  }

  lemma OptStringShrinks(present: bool, v: View)
    ensures Shrinks(GetOptString(present, v), v, 0)
  {
  }

  lemma ConnectShrinks(l: Login, v: View)
    ensures Shrinks(ConnectVariable(l, v), v, 2)
    ensures Shrinks(ConnectRest(l, v), v, 2)
  {
    hide GetString, GetOptString;
    StringShrinks(v);
    if GetString(v).Got? {
      var w := GetString(v).view;
      OptStringShrinks(l.willFlag, w);
      if GetOptString(l.willFlag, w).Got? {
        w := GetOptString(l.willFlag, w).view;
        OptStringShrinks(l.willFlag, w);
        if GetOptString(l.willFlag, w).Got? {
          w := GetOptString(l.willFlag, w).view;
          OptStringShrinks(l.userNameFlag, w);
          if GetOptString(l.userNameFlag, w).Got? {
            w := GetOptString(l.userNameFlag, w).view;
            OptStringShrinks(l.passwordFlag, w);
          }
        }
      }
    }
  }

  lemma VariableShrinks(p: Partial, v: View)
    ensures Shrinks(VariableStage(p, v), v, 2)
    ensures var r := VariableStage(p, v);
            r.Got? ==> r.value.part.remaining == p.remaining - Consumed(v, r.view)
  {
    hide GetString, ConnectVariable;
    StringShrinks(v);
    if p.msg.Connect? {
      ConnectShrinks(p.msg.login, v);
    }
  }

  lemma PayloadShrinks(p: Partial, v: View)
    ensures Shrinks(PayloadStage(p, v), v, 0)
    ensures HasPayload(p.msg) && p.remaining > |v.pending| ==> PayloadStage(p, v) == Got(Stage(p, false), v)
    ensures (HasPayload(p.msg) ==> p.remaining <= |v.pending|) && PayloadStage(p, v).Got? ==> PayloadStage(p, v).value.done
  {
    hide GetString, ConnectRest;
    StringShrinks(v);
    if p.msg.Connect? {
      ConnectShrinks(p.msg.login, v);
    }
  }

  /**
    Every round but a payload one consumes bytes.  A payload round completes its message, or else changes
    nothing at all, neither the state nor the buffer, because the payload has not all arrived.
   */
  lemma RoundProgress(c: Codec, v: View)
    ensures var r := OneRound(c, v);
            r.Got? ==> if Ready(c, v.pending)
                       then && |r.view.pending| <= |v.pending|
                            && (|r.view.pending| < |v.pending| || (c.phase.Payload? && !r.value.codec.phase.Payload?))
                       else r.value == Round(c, []) && r.view == v
    ensures !Ready(c, v.pending) ==> OneRound(c, v).Got?
  {
    hide GetHeader, VariableStage, PayloadStage, NewMessage;
    HeaderShrinks(v);
    VariableShrinks(c.part, v);
    if c.phase.Payload? {
      PayloadShrinks(c.part, v);
    }
  }

  /** The loop of doDecode; each round starts and ends by marking the buffer. */
  function Loop(c: Codec, pending: bytes, msgs: seq<Message>): Outcome
    decreases |pending|, if c.phase.Payload? then 1 else 0
  {
    if pending == [] then Outcome(c, View([], true, []), msgs, false) else
    if !Ready(c, pending) then Spins else
    var v := View([], true, pending);
    RoundProgress(c, v);
    match OneRound(c, v)
    case Panic(w) => Recover(c, w, msgs)
    case Got(r, w) => Loop(r.codec, w.pending, msgs + r.completed)
  }

  /** One pass through the loop. */
  lemma LoopRound(c: Codec, pending: bytes, msgs: seq<Message>)
    requires pending != [] && Ready(c, pending)
    ensures var r := OneRound(c, View([], true, pending));
            Loop(c, pending, msgs) == if r.Panic? then Recover(c, r.view, msgs)
                                      else Loop(r.value.codec, r.view.pending, msgs + r.value.completed)
  {
    hide OneRound;
  }

  lemma LoopEnd(c: Codec, msgs: seq<Message>)
    ensures Loop(c, [], msgs) == Outcome(c, View([], true, []), msgs, false)
  {
  }

  function DoDecode(c: Codec, v: View): Outcome {
    if v.pending == [] then Outcome(c, v, [], true) else Loop(c, v.pending, [])
  }

  // ---------------------------------------------------------------- when the loop returns

  /** No byte of the body has been consumed before the variable header. */
  predicate Settled(c: Codec) {
    c.phase.VariableHeader? ==> c.part.remaining == c.length
  }

  predicate Sane(c: Codec, pending: bytes) {
    Settled(c) && Ready(c, pending)
  }

  /** Exactly when the loop never returns: it is entered awaiting a payload of which too little is there. */
  lemma {:induction false} SpinsExactly(c: Codec, pending: bytes, msgs: seq<Message>)
    requires Settled(c)
    ensures Loop(c, pending, msgs).Spins? <==> pending != [] && !Ready(c, pending)
    decreases |pending|, if c.phase.Payload? then 1 else 0
  {
    if pending != [] && Ready(c, pending) {
      var v := View([], true, pending);
      var r := OneRound(c, v);
      RoundProgress(c, v);
      if r.Got? {
        RoundStaysSane(c, v);
        SpinsExactly(r.value.codec, r.view.pending, msgs + r.value.completed);
      }
    }
  }

  lemma RoundStaysSane(c: Codec, v: View)
    requires Sane(c, v.pending)
    ensures var r := OneRound(c, v); r.Got? ==> Sane(r.value.codec, r.view.pending)
  {
    hide GetHeader, VariableStage, PayloadStage, NewMessage;
    VariableShrinks(c.part, v);
    if c.phase.Payload? {
      PayloadShrinks(c.part, v);
    }
  }

  // ---------------------------------------------------------------- what a call leaves behind

  /** As long as the mark holds, what was read and what is left add up. */
  ghost predicate Keeps<T>(r: Got<T>, v: View) {
    r.view.marked ==> v.marked && |r.view.back| + |r.view.pending| == |v.back| + |v.pending|
  }

  lemma StringKeeps(v: View)
    ensures Keeps(GetString(v), v)
  {
  }

  lemma OptStringKeeps(present: bool, v: View)
    ensures Keeps(GetOptString(present, v), v)
  {
  }

  lemma ConnectRestKeeps(l: Login, v: View)
    ensures Keeps(ConnectRest(l, v), v)
  {
    hide GetString, GetOptString;
    StringKeeps(v);
    if GetString(v).Got? {
      var w := GetString(v).view;
      OptStringKeeps(l.willFlag, w);
      if GetOptString(l.willFlag, w).Got? {
        w := GetOptString(l.willFlag, w).view;
        OptStringKeeps(l.willFlag, w);
        if GetOptString(l.willFlag, w).Got? {
          w := GetOptString(l.willFlag, w).view;
          OptStringKeeps(l.userNameFlag, w);
          if GetOptString(l.userNameFlag, w).Got? {
            w := GetOptString(l.userNameFlag, w).view;
            OptStringKeeps(l.passwordFlag, w);
          }
        }
      }
    }
  }

  lemma PayloadKeeps(p: Partial, v: View)
    ensures Keeps(PayloadStage(p, v), v)
  {
    hide GetString, ConnectRest;
    StringKeeps(v);
    if p.msg.Connect? {
      ConnectRestKeeps(p.msg.login, v);
    }
  }

  /**
    The call ends by recovering from a panic inside a payload without putting the payload's bytes back: some
    message was completed before, or the buffer ran out in mid-entry, which loses the mark.
   */
  ghost predicate Abandons(c: Codec, pending: bytes, msgs: seq<Message>)
    decreases |pending|, if c.phase.Payload? then 1 else 0
  {
    && pending != [] && Ready(c, pending)
    && var v := View([], true, pending);
       RoundProgress(c, v);
       match OneRound(c, v)
       case Panic(w) => c.phase.Payload? && (msgs != [] || !w.marked)
       case Got(r, w) => Abandons(r.codec, w.pending, msgs + r.completed)
  }

  /**
    What every call that returns leaves: a settled codec, and a ready one as well unless it abandoned a payload.
   */
  lemma {:induction false} CallLeaves(c: Codec, pending: bytes, msgs: seq<Message>)
    requires Sane(c, pending)
    ensures var o := Loop(c, pending, msgs);
            && o.Outcome? && Settled(o.codec)
            && (!Ready(o.codec, o.view.pending) ==> o.codec.phase.Payload? && Abandons(c, pending, msgs))
    decreases |pending|, if c.phase.Payload? then 1 else 0
  {
    if pending != [] {
      var v := View([], true, pending);
      var r := OneRound(c, v);
      RoundProgress(c, v);
      if r.Got? {
        RoundStaysSane(c, v);
        CallLeaves(r.value.codec, r.view.pending, msgs + r.value.completed);
      } else {
        PanicLeaves(c, v, msgs);
      }
    }
  }

  lemma PanicLeaves(c: Codec, v: View, msgs: seq<Message>)
    requires Ready(c, v.pending) && v.marked && v.back == [] && OneRound(c, v).Panic?
    ensures var w := OneRound(c, v).view;
            var o := Recover(c, w, msgs);
            !Ready(c, o.view.pending) ==> c.phase.Payload? && (msgs != [] || !w.marked)
  {
    hide PayloadStage;
    PayloadKeeps(c.part, v);
  }
}
