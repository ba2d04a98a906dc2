/** The MQTT decoder as it runs on the connection's buffer, proved against the decoder functions of MqttCodec. */
module MqttDecoder {
  import opened Bytes
  import opened MqttMessage
  import opened MqttCodec
  import IO = IoBuffer
  import Pool = BytePool

  /** The buffer with its mark, if set, not ahead of the read offset: so it is from a call of Mark on. */
  ghost predicate Good(buf: IO.IoBuffer)
    reads buf, buf.pool
  {
    buf.Valid() && buf.offMark <= buf.off
  }

  ghost function ViewOf(buf: IO.IoBuffer): View
    requires buf.off <= buf.len <= buf.arr.Length && IO.RESET_OFF_MARK <= buf.offMark <= buf.off
    reads buf, buf.arr
  {
    ViewFrom(buf.arr[..], buf.offMark, buf.off, buf.len)
  }

  ghost function ViewFrom(a: bytes, mark: int, off: nat, len: nat): View
    requires off <= len <= |a| && IO.RESET_OFF_MARK <= mark <= off
  {
    View(if mark < 0 then [] else a[mark..off], mark >= 0, a[off..len])
  }

  /** Moving the read offset forward. */
  lemma SkipMoves(a: bytes, mark: int, off: nat, len: nat, n: nat)
    requires off + n <= len <= |a| && IO.RESET_OFF_MARK <= mark <= off
    ensures Skip(ViewFrom(a, mark, off, len), n) == ViewFrom(a, mark, off + n, len)
  {
    if mark >= 0 {
      IO.SliceMove(a, mark, off, n, len);
    }
  }

  lemma EmptyView(a: bytes, off: nat)
    requires off <= |a|
    ensures ViewFrom(a, IO.RESET_OFF_MARK, off, off) == EMPTY_VIEW
  {
  }

  lemma ViewLength(buf: IO.IoBuffer)
    requires Good(buf)
    ensures |ViewOf(buf).pending| == buf.len - buf.off
  {
  }

  /** A method's outcome against the function it implements; not ok is a panic. */
  ghost predicate Agrees<T(!new)>(spec: Got<T>, ok: bool, x: T, v: View) {
    spec == if ok then Got(x, v) else Panic(v)
  }

  // ---------------------------------------------------------------- readers

  method GetUint8(buf: IO.IoBuffer) returns (ok: bool, b: byte)
    requires Good(buf)
    modifies buf
    ensures Good(buf) && buf.arr == old(buf.arr)
    ensures Agrees(MqttCodec.GetUint8(old(ViewOf(buf))), ok, b, ViewOf(buf))
  {
    ghost var v, a, mark, off, len := ViewOf(buf), buf.arr[..], buf.offMark, buf.off, buf.len;
    assert v.pending == buf.Contents();
    var eof;
    b, eof := buf.ReadByte();
    ok := !eof;
    assert buf.arr[..] == a;
    if ok {
      assert v.pending[0] == b;
      SkipMoves(a, mark, off, len, 1);
    } else {
      EmptyView(a, buf.off);
    }
  }

  /** Reading n bytes that are there: the buffer's fields afterwards. */
  method ReadBytes(buf: IO.IoBuffer, n: nat) returns (s: bytes)
    requires Good(buf) && n <= |buf.Contents()|
    modifies buf
    ensures Good(buf) && buf.arr == old(buf.arr) && s == old(buf.Contents())[..n]
    ensures old(buf.Contents()) == [] ==> buf.off == buf.len && buf.offMark == IO.RESET_OFF_MARK
    ensures old(buf.Contents()) != [] ==>
              buf.off == old(buf.off) + n && buf.len == old(buf.len) && buf.offMark == old(buf.offMark)
  {
    hide Pool.ValidSlots, Pool.DistinctSlots, Pool.Held;
    var p := new byte[n];
    var m, eof := buf.Read(p);
    assert m == n;
    s := p[..m];
  }

  method GetBytes(buf: IO.IoBuffer, n: nat) returns (s: bytes)
    requires Good(buf) && n <= |buf.Contents()|
    modifies buf
    ensures Good(buf) && buf.arr == old(buf.arr)
    ensures MqttCodec.GetBytes(old(ViewOf(buf)), n) == Got(s, ViewOf(buf))
  {
    hide ViewFrom, Pool.ValidSlots, Pool.DistinctSlots, Pool.Held;
    ghost var v, a, mark, off, len := ViewOf(buf), buf.arr[..], buf.offMark, buf.off, buf.len;
    PendingOf(buf);
    s := ReadBytes(buf, n);
    assert buf.arr[..] == a;
    if v.pending == [] {
      EmptyView(a, buf.off);
    } else {
      SkipMoves(a, mark, off, len, n);
    }
  }

  lemma PendingOf(buf: IO.IoBuffer)
    requires Good(buf)
    ensures ViewOf(buf).pending == buf.Contents()
  {
  }

  method GetUint16(buf: IO.IoBuffer) returns (ok: bool, n: nat)
    requires Good(buf)
    modifies buf
    ensures Good(buf) && buf.arr == old(buf.arr)
    ensures Agrees(MqttCodec.GetUint16(old(ViewOf(buf))), ok, n, ViewOf(buf))
  {
    if buf.len - buf.off < 2 {
      return false, 0;
    }
    var s := GetBytes(buf, 2);
    return true, Uint16(s[0], s[1]);
  }

  method GetString(buf: IO.IoBuffer) returns (ok: bool, s: bytes)
    requires Good(buf)
    modifies buf
    ensures Good(buf) && buf.arr == old(buf.arr)
    ensures Agrees(MqttCodec.GetString(old(ViewOf(buf))), ok, s, ViewOf(buf))
  {
    hide MqttCodec.GetUint16;
    s := [];
    var n;
    ok, n := GetUint16(buf);
    if !ok { return; }
    if buf.len - buf.off < n {
      return false, s;
    }
    s := GetBytes(buf, n);
  }

  method GetOptString(present: bool, buf: IO.IoBuffer) returns (ok: bool, s: bytes)
    requires Good(buf)
    modifies buf
    ensures Good(buf) && buf.arr == old(buf.arr)
    ensures Agrees(MqttCodec.GetOptString(present, old(ViewOf(buf))), ok, s, ViewOf(buf))
  {
    if present {
      ok, s := GetString(buf);
    } else {
      ok, s := true, [];
    }
  }

  /** One round of the length loop, as the function has it. */
  lemma LengthRound(v: View, i: nat, acc: nat)
    requires i < 4
    ensures GetLengthFrom(v, i, acc)
            == match MqttCodec.GetUint8(v)
               case Panic(w) => Panic(w)
               case Got(b, w) =>
                 var more := acc + b % 128 * Weight(i);
                 if b < 128 then Got(more, w) else GetLengthFrom(w, i + 1, more)
  {
    hide MqttCodec.GetUint8, Weight;
  }

  lemma LengthOver(v: View, acc: nat)
    ensures GetLengthFrom(v, 4, acc) == Panic(v)
  {
  }

  /** decodeLength: at most four bytes, seven bits of each, the least significant first. */
  method DecodeLength(buf: IO.IoBuffer) returns (ok: bool, n: nat)
    requires Good(buf)
    modifies buf
    ensures Good(buf) && buf.arr == old(buf.arr)
    ensures Agrees(GetLength(old(ViewOf(buf))), ok, n, ViewOf(buf))
  {
    hide MqttCodec.GetUint8, GetLengthFrom, ViewOf;
    ViewLength(buf);
    n := 0;
    if buf.len - buf.off > 0 {
      var weight: nat := 1;
      for i := 0 to 4
        invariant Good(buf) && buf.arr == old(buf.arr)
        invariant i < 4 ==> weight == Weight(i)
        invariant GetLength(old(ViewOf(buf))) == GetLengthFrom(ViewOf(buf), i, n)
      {
        LengthRound(ViewOf(buf), i, n);
        var b;
        ok, b := GetUint8(buf);
        if !ok { return; }
        n := n + (b % 128) * weight;
        if b < 128 { return; }
        weight := weight * 128;
      }
      LengthOver(ViewOf(buf), n);
    }
    return false, n;
  }

  method DecodeHeader(buf: IO.IoBuffer) returns (ok: bool, h: Header)
    requires Good(buf)
    modifies buf
    ensures Good(buf) && buf.arr == old(buf.arr)
    ensures Agrees(GetHeader(old(ViewOf(buf))), ok, h, ViewOf(buf))
    ensures ok ==> 0 < h.kind < 15
  {
    hide MqttCodec.GetUint8, GetLength;
    h := Header(0, 0, 0);
    var b, n;
    ok, b := GetUint8(buf);
    if !ok { return; }
    if b / 16 == 0 || b / 16 == 15 {
      return false, h;
    }
    ok, n := DecodeLength(buf);
    if !ok { return; }
    h := Header(b / 16, b % 16, n);
  }

  // ---------------------------------------------------------------- stages

  method DecodeConnectVariable(l: Login, buf: IO.IoBuffer) returns (ok: bool, r: Login)
    requires Good(buf)
    modifies buf
    ensures Good(buf) && buf.arr == old(buf.arr)
    ensures Agrees(ConnectVariable(l, old(ViewOf(buf))), ok, r, ViewOf(buf))
  {
    hide MqttCodec.GetString, MqttCodec.GetUint8, MqttCodec.GetUint16;
    r := l;
    var name, level, flags, keepAlive;
    ok, name := GetString(buf);
    if !ok { return; }
    ok, level := GetUint8(buf);
    if !ok { return; }
    ok, flags := GetUint8(buf);
    if !ok { return; }
    ok, keepAlive := GetUint16(buf);
    if !ok { return; }
    r := l.(protocolName := name, protocolLevel := level,
            userNameFlag := flags / 128 % 2 == 1, passwordFlag := flags / 64 % 2 == 1,
            willRetain := flags / 32 % 2 == 1, willQos := flags / 8 % 4,
            willFlag := flags / 4 % 2 == 1, cleanSession := flags / 2 % 2 == 1,
            keepAlive := keepAlive);
  }

  method DecodeConnectRest(l: Login, buf: IO.IoBuffer) returns (ok: bool, r: Login)
    requires Good(buf)
    modifies buf
    ensures Good(buf) && buf.arr == old(buf.arr)
    ensures Agrees(ConnectRest(l, old(ViewOf(buf))), ok, r, ViewOf(buf))
  {
    hide MqttCodec.GetString, MqttCodec.GetOptString;
    r := l;
    var clientId, willTopic, willMessage, username, password;
    ok, clientId := GetString(buf);
    if !ok { return; }
    ok, willTopic := GetOptString(l.willFlag, buf);
    if !ok { return; }
    ok, willMessage := GetOptString(l.willFlag, buf);
    if !ok { return; }
    ok, username := GetOptString(l.userNameFlag, buf);
    if !ok { return; }
    ok, password := GetOptString(l.passwordFlag, buf);
    if !ok { return; }
    r := l.(clientId := clientId, willTopic := willTopic, willMessage := willMessage,
            username := username, password := password);
  }

  method DecodeConnAckVariable(p: Partial, buf: IO.IoBuffer) returns (ok: bool, s: Stage)
    requires Good(buf) && p.msg.ConnAck?
    modifies buf
    ensures Good(buf) && buf.arr == old(buf.arr)
    ensures Agrees(ConnAckStage(p, old(ViewOf(buf))), ok, s, ViewOf(buf))
  {
    hide MqttCodec.GetUint8, ViewOf;
    ViewLength(buf);
    var before := buf.len - buf.off;
    s := Stage(p, false);
    var b, code;
    ok, b := GetUint8(buf);
    if !ok { return; }
    ok, code := GetUint8(buf);
    if !ok { return; }
    ViewLength(buf);
    if code >= 6 { return false, s; }
    var left := p.remaining - (before - (buf.len - buf.off));
    s := Stage(Partial(ConnAck(p.msg.flag, b % 2 == 1, code), left), true);
  }

  method DecodePublishVariable(p: Partial, buf: IO.IoBuffer) returns (ok: bool, s: Stage)
    requires Good(buf) && p.msg.Publish?
    modifies buf
    ensures Good(buf) && buf.arr == old(buf.arr)
    ensures Agrees(PublishStage(p, old(ViewOf(buf))), ok, s, ViewOf(buf))
  {
    hide MqttCodec.GetString, MqttCodec.GetUint16, ViewOf;
    ViewLength(buf);
    var before := buf.len - buf.off;
    s := Stage(p, false);
    var topic;
    ok, topic := GetString(buf);
    if !ok { return; }
    var id := p.msg.packetId;
    if HasId(p.msg.qos) {
      ok, id := GetUint16(buf);
      if !ok { return; }
    }
    ViewLength(buf);
    var left := p.remaining - (before - (buf.len - buf.off));
    s := Stage(Partial(p.msg.(topicName := topic, packetId := id), left), left == 0);
  }

  method DecodeIdVariable(p: Partial, buf: IO.IoBuffer) returns (ok: bool, s: Stage)
    requires Good(buf)
    modifies buf
    ensures Good(buf) && buf.arr == old(buf.arr)
    ensures Agrees(IdStage(p, old(ViewOf(buf))), ok, s, ViewOf(buf))
  {
    hide MqttCodec.GetUint16, WithId, ViewOf;
    ViewLength(buf);
    var before := buf.len - buf.off;
    s := Stage(p, false);
    var id;
    ok, id := GetUint16(buf);
    if !ok { return; }
    ViewLength(buf);
    var left := p.remaining - (before - (buf.len - buf.off));
    s := Stage(Partial(WithId(p.msg, id), left), p.msg.PacketIdOnly? || left == 0);
  }

  method DecodeConnectStage(p: Partial, buf: IO.IoBuffer) returns (ok: bool, s: Stage)
    requires Good(buf) && p.msg.Connect?
    modifies buf
    ensures Good(buf) && buf.arr == old(buf.arr)
    ensures Agrees(ConnectStage(p, old(ViewOf(buf))), ok, s, ViewOf(buf))
  {
    hide ConnectVariable, ViewOf;
    ViewLength(buf);
    var before := buf.len - buf.off;
    s := Stage(p, false);
    var r;
    ok, r := DecodeConnectVariable(p.msg.login, buf);
    if !ok { return; }
    ViewLength(buf);
    s := Stage(Partial(Connect(p.msg.flag, r), p.remaining - (before - (buf.len - buf.off))), false);
  }

  method DecodeVariableHeader(p: Partial, buf: IO.IoBuffer) returns (ok: bool, s: Stage)
    requires Good(buf)
    modifies buf
    ensures Good(buf) && buf.arr == old(buf.arr)
    ensures Agrees(VariableStage(p, old(ViewOf(buf))), ok, s, ViewOf(buf))
  {
    hide ConnectStage, ConnAckStage, PublishStage, IdStage;
    match p.msg
    case Connect(_, _) => ok, s := DecodeConnectStage(p, buf);
    case ConnAck(_, _, _) => ok, s := DecodeConnAckVariable(p, buf);
    case Publish(_, _, _, _, _, _) => ok, s := DecodePublishVariable(p, buf);
    case HeaderOnly(_, _) => ok, s := false, Stage(p, false);
    case _ => ok, s := DecodeIdVariable(p, buf);
  }

  method DecodePayload(p: Partial, buf: IO.IoBuffer) returns (ok: bool, s: Stage)
    requires Good(buf)
    modifies buf
    ensures Good(buf) && buf.arr == old(buf.arr)
    ensures Agrees(PayloadStage(p, old(ViewOf(buf))), ok, s, ViewOf(buf))
  {
    hide MqttCodec.GetString, MqttCodec.GetUint8, MqttCodec.GetBytes, ConnectRest;
    var before := buf.len - buf.off;
    s := Stage(p, false);
    if p.msg.ConnAck? || p.msg.PacketIdOnly? || p.msg.HeaderOnly? {
      return false, s;
    }
    if p.remaining > before {
      return true, s;
    }
    var topic: bytes;
    match p.msg
    case Connect(flag, l) =>
      var r;
      ok, r := DecodeConnectRest(l, buf);
      if !ok { return; }
      s := Stage(Partial(Connect(flag, r), p.remaining - (before - (buf.len - buf.off))), true);
    case Publish(_, _, _, _, _, _) =>
      if p.remaining < 0 { return false, s; }
      var payload := GetBytes(buf, p.remaining);
      ok := true;
      s := Stage(Partial(p.msg.(payload := payload), p.remaining - (before - (buf.len - buf.off))), true);
    case Subscribe(flag, id, _) =>
      var filters := [];
      if p.remaining > 0 {
        var qos;
        ok, topic := GetString(buf);
        if !ok { return; }
        ok, qos := GetUint8(buf);
        if !ok { return; }
        filters := [TopicFilter(topic, qos)];
      }
      ok := true;
      s := Stage(Partial(Subscribe(flag, id, filters), p.remaining), true);
    case SubAck(flag, id, _) =>
      var acks := [];
      if p.remaining > 0 {
        var ack;
        ok, ack := GetUint8(buf);
        if !ok { return; }
        acks := [ack];
      }
      ok := true;
      s := Stage(Partial(SubAck(flag, id, acks), p.remaining), true);
    case Unsubscribe(flag, id, _) =>
      var topics := [];
      if p.remaining > 0 {
        ok, topic := GetString(buf);
        if !ok { return; }
        topics := [topic];
      }
      ok := true;
      s := Stage(Partial(Unsubscribe(flag, id, topics), p.remaining), true);
    case _ =>
      ok := false;
  }

  // ---------------------------------------------------------------- the codec object

  class Decoder {
    var phase: Phase
    var length: nat
    var part: Partial

    function State(): Codec
      reads this
    {
      Codec(phase, length, part)
    }

    /** No byte of a body is consumed before its variable header is decoded; every call keeps this. */
    ghost predicate Valid()
      reads this
    {
      Settled(State())
    }

    constructor ()
      ensures State() == Idle() && Valid()
    {
      phase, length, part := FixedHeader, 0, Idle().part;
    }

    method Become(c: Codec)
      modifies this
      ensures State() == c
    {
      phase, length, part := c.phase, c.length, c.part;
    }

    /** One pass through the switch. */
    method Round(buf: IO.IoBuffer) returns (ok: bool, completed: seq<Message>)
      requires Good(buf)
      modifies this, buf
      ensures Good(buf) && buf.arr == old(buf.arr)
      ensures Agrees(OneRound(old(State()), old(ViewOf(buf))), ok, MqttCodec.Round(State(), completed), ViewOf(buf))
      ensures !ok ==> State() == old(State()) && completed == []
    {
      hide GetHeader, VariableStage, PayloadStage, NewMessage;
      completed := [];
      var s;
      match phase
      case FixedHeader =>
        var h;
        ok, h := DecodeHeader(buf);
        if !ok { return; }
        var m := NewMessage(h.kind, h.flag);
        if m.HeaderOnly? {
          completed := [m];
          Become(Idle());
        } else {
          Become(Codec(VariableHeader, h.remaining, Partial(m, h.remaining)));
        }
      case VariableHeader =>
        if buf.len - buf.off < length {
          return false, completed;
        }
        ok, s := DecodeVariableHeader(part, buf);
        if !ok { return; }
        if s.done {
          completed := [s.part.msg];
          Become(Idle());
        } else {
          Become(Codec(Payload, length, s.part));
        }
      case Payload =>
        ok, s := DecodePayload(part, buf);
        if !ok { return; }
        if s.done {
          completed := [s.part.msg];
          Become(Idle());
        } else {
          Become(Codec(Payload, length, s.part));
        }
    }

    /**
      doDecode.  The loop never returns when it is entered awaiting a payload of which too little is there
      (SpinsExactly); so the second requires is a check the caller can make, and the weakest one.
     */
    method DoDecode(buf: IO.IoBuffer) returns (msgs: seq<Message>, err: bool)
      requires Valid() && buf.Valid()
      requires buf.Contents() == [] || Ready(State(), buf.Contents())
      modifies this, buf
      ensures Valid() && buf.Valid() && buf.arr == old(buf.arr)
      ensures old(buf.Contents()) != [] && !Ready(State(), buf.Contents()) ==>
                Abandons(old(State()), old(buf.Contents()), [])
      ensures old(buf.Contents()) == [] ==> unchanged(this) && unchanged(buf) && msgs == [] && err
      ensures old(buf.Contents()) != [] ==>
                Good(buf) && Loop(old(State()), old(buf.Contents()), []) == Outcome(State(), ViewOf(buf), msgs, err)
    {
      hide OneRound, Abandons, Ready, Loop, Pool.ValidSlots, Pool.DistinctSlots, Pool.Held;
      msgs := [];
      if buf.len - buf.off == 0 {
        return msgs, true;
      }
      CallLeaves(State(), buf.Contents(), []);
      buf.Mark();
      while buf.len - buf.off > 0
        invariant buf.Valid() && buf.arr == old(buf.arr) && buf.offMark == buf.off
        invariant Sane(State(), buf.Contents())
        invariant Loop(State(), buf.Contents(), msgs) == Loop(old(State()), old(buf.Contents()), [])
        decreases |buf.Contents()|, if phase.Payload? then 1 else 0
      {
        ghost var c, v := State(), ViewOf(buf);
        assert v == View([], true, buf.Contents());
        RoundProgress(c, v);
        RoundStaysSane(c, v);
        LoopRound(c, v.pending, msgs);
        var ok, completed := Round(buf);
        if !ok {
          if msgs != [] {
            return msgs, false;
          }
          buf.Restore();
          return msgs, true;
        }
        msgs := msgs + completed;
        buf.Mark();
      }
      LoopEnd(State(), msgs);
      return msgs, false;
    }
  }
}
