/** The Host shortcut of pkg/protocol/http/v1/header.go: reading one value out of an unparsed header block. */
module HttpHost {
  import opened Bytes
  import opened HttpHeaders
  import opened HttpHead

  /** A search in the raw block: a value, no usable occurrence, or a read past the end of the block. */
  datatype Peek = Found(value: bytes) | NotFound | OutOfRange

  /** peekRawHeader: only the first occurrence of the name is looked at. */
  function PeekRaw(buf: bytes, key: bytes): Peek
    requires key != []
  {
    var n := Index(buf, key);
    if n < 0 then NotFound
    else if n > 0 && buf[n - 1] != LF then NotFound
    else PeekBehind(buf[n + |key|..])
  }

  /** What follows the name. */
  function PeekBehind(b: bytes): Peek {
    if b == [] then NotFound
    else if b[0] != COLON then NotFound
    else if |b| == 1 then OutOfRange
    else if b[1] != SPACE then NotFound
    else
      var e := IndexByte(b[2..], LF);
      if e < 0 then NotFound else Found(StripCR(b[2..][..e]))
  }

  /** What a full parse of the raw block gives. */
  function FullHost(raw: bytes, disabled: bool): bytes {
    if raw == [] then [] else LastHost(ScanAll(raw, disabled).fields)
  }

  /** Host() on a head whose headers are still raw. */
  function HostOf(raw: bytes, disabled: bool): bytes {
    var p := PeekRaw(raw, HOST);
    if p.Found? && p.value != [] then p.value else FullHost(raw, disabled)
  }

  // ---------------------------------------------------------------- lines of a block

  ghost predicate FieldLines(lines: seq<bytes>) {
    forall i :: 0 <= i < |lines| ==> FieldLine(lines[i])
  }

  lemma {:induction false} EndsInLF(lines: seq<bytes>, cr: bool)
    ensures BlockText(lines, cr) != [] && BlockText(lines, cr)[|BlockText(lines, cr)| - 1] == LF
  {
    if lines != [] {
      EndsInLF(lines[1..], cr);
    }
  }

  // ---------------------------------------------------------------- never past the end

  lemma {:induction false} RawEndsInLF(b: bytes)
    requires RawLength(b) >= 0
    ensures RawLength(b) > 0 && b[RawLength(b) - 1] == LF
    decreases |b|
  {
    var n := IndexByte(b, LF);
    if !Blank(b[..n]) {
      RawEndsInLF(b[n + 1..]);
    }
  }

  /** On any block kept by readRawHeaders, from any input, the search never reads past the end. */
  lemma PeekInRange(b: bytes, key: bytes)
    requires RawLength(b) >= 0 && key != []
    ensures !PeekRaw(RawBlock(b), key).OutOfRange?
  {
    hide IndexByte, Index, RawLength, StripCR;
    RawEndsInLF(b);
    var raw := RawBlock(b);
    assert raw == [] || raw[|raw| - 1] == LF;
  }

  // ---------------------------------------------------------------- what the shortcut finds

  const HOST_COLON_SPACE: bytes := HOST + [COLON, SPACE]

  /** A value without the spaces around it. */
  function Trim(v: bytes): bytes {
    DropSpaces(v[Spaces(v)..])
  }

  predicate OpensWithHost(line: bytes) {
    |line| >= 6 && line[..6] == HOST_COLON_SPACE
  }

  /** The first line in which "Host" stands anywhere, or the number of lines. */
  function FirstMention(lines: seq<bytes>): (j: nat)
    ensures j <= |lines| && forall i :: 0 <= i < j ==> Index(lines[i], HOST) < 0
    ensures j < |lines| ==> Index(lines[j], HOST) >= 0
  {
    if lines == [] || Index(lines[0], HOST) >= 0 then 0 else 1 + FirstMention(lines[1..])
  }

  /** What the shortcut finds, in terms of the lines. */
  function Shortcut(lines: seq<bytes>): Peek {
    var j := FirstMention(lines);
    if j < |lines| && OpensWithHost(lines[j]) then Found(StripCR(lines[j][6..])) else NotFound
  }

  /** "Host" stands in a block where it stands in one of its lines: it holds no line feed. */
  lemma AtInBlock(line: bytes, tail: bytes, k: int)
    ensures At(line + ([LF] + tail), HOST, k)
            <==> if k < |line| then At(line, HOST, k) else At(tail, HOST, k - |line| - 1)
  {
    var t := line + ([LF] + tail);
    if 0 <= k && k + 4 <= |line| {
      assert t[k..k + 4] == line[k..k + 4];
    } else if |line| < k && k + 4 <= |t| {
      assert t[k..k + 4] == tail[k - |line| - 1..k - |line| + 3];
    } else if 0 <= k <= |line| && k + 4 <= |t| {
      assert t[k..k + 4][|line| - k] == LF;
    }
  }

  lemma IndexInBlock(line: bytes, tail: bytes)
    ensures var n, k := Index(line, HOST), Index(tail, HOST);
            Index(line + ([LF] + tail), HOST) == if n >= 0 then n else if k >= 0 then |line| + 1 + k else -1
  {
    hide Index, At;
    var t, n, k := line + ([LF] + tail), Index(line, HOST), Index(tail, HOST);
    forall i: int
      ensures At(t, HOST, i) <==> if i < |line| then At(line, HOST, i) else At(tail, HOST, i - |line| - 1)
    {
      AtInBlock(line, tail, i);
    }
    if n >= 0 {
      IndexUnique(t, HOST, n);
    } else if k >= 0 {
      NotBefore(tail);
      IndexUnique(t, HOST, |line| + 1 + k);
    } else {
      assert Index(t, HOST) < 0;
    }
  }

  lemma NotBefore(tail: bytes)
    ensures !At(tail, HOST, -1)
  {
  }

  /** The shortcut looks at the first line that mentions the name, and at no other. */
  lemma {:induction false} PeekOnLines(lines: seq<bytes>, cr: bool)
    requires FieldLines(lines)
    ensures PeekRaw(BlockText(lines, cr), HOST) == Shortcut(lines)
  {
    hide StripCR, Index, IndexByte, PeekRaw, OpensWithHost;
    if lines == [] {
      NothingToPeek(Eol(cr));
    } else {
      var line, tail := lines[0], BlockText(lines[1..], cr);
      if Index(line, HOST) >= 0 {
        PeekHere(line, tail);
      } else {
        PeekLater(line, tail);
        PeekOnLines(lines[1..], cr);
      }
    }
  }

  lemma NothingToPeek(b: bytes)
    requires |b| < 4
    ensures PeekRaw(b, HOST) == NotFound
  {
    assert !At(b, HOST, Index(b, HOST));
  }

  lemma PeekHere(line: bytes, tail: bytes)
    requires Lacks(line, LF) && Index(line, HOST) >= 0
    ensures PeekRaw(line + ([LF] + tail), HOST)
            == if OpensWithHost(line) then Found(StripCR(line[6..])) else NotFound
  {
    hide PeekBehind, Index, StripCR;
    var t, n := line + ([LF] + tail), Index(line, HOST);
    IndexInBlock(line, tail);
    if n == 0 {
      assert t[4..] == line[4..] + ([LF] + tail) && line[0..4] == HOST;
      Behind(line[4..], tail);
      OpeningBytes(line);
    } else {
      assert t[n - 1] == line[n - 1];
      if OpensWithHost(line) {
        OpeningBytes(line);
        IndexUnique(line, HOST, 0);
      }
    }
  }

  lemma OpeningBytes(line: bytes)
    ensures OpensWithHost(line) <==> At(line, HOST, 0) && |line| >= 6 && line[4] == COLON && line[5] == SPACE
  {
    if |line| >= 6 {
      assert line[..6] == line[0..4] + [line[4], line[5]];
    }
  }

  lemma Behind(rest: bytes, tail: bytes)
    requires Lacks(rest, LF)
    ensures PeekBehind(rest + ([LF] + tail))
            == if |rest| >= 2 && rest[0] == COLON && rest[1] == SPACE then Found(StripCR(rest[2..])) else NotFound
  {
    hide StripCR, IndexByte;
    var b := rest + ([LF] + tail);
    assert b[|rest|] == LF && forall i :: 0 <= i < |rest| ==> b[i] == rest[i];
    if |rest| >= 2 {
      assert b[2..] == rest[2..] + ([LF] + tail);
      LineSplit(rest[2..], tail);
    }
  }

  lemma PeekLater(line: bytes, tail: bytes)
    requires Index(line, HOST) < 0
    ensures PeekRaw(line + ([LF] + tail), HOST) == PeekRaw(tail, HOST)
  {
    hide PeekBehind, Index;
    var t, k, m := line + ([LF] + tail), Index(tail, HOST), |line| + 1;
    IndexInBlock(line, tail);
    if k >= 0 {
      assert t[m + k - 1] == if k > 0 then tail[k - 1] else LF;
      assert t[m + k + 4..] == tail[k + 4..];
    }
  }

  lemma HostIsNormal(disabled: bool)
    ensures NormalName(HOST, disabled) == HOST
  {
    assert HOST[1..] == [111, 115, 116] && [111, 115, 116][1..] == [115, 116] && [115, 116][1..] == [116];
    assert Norm([116], false) == [116];
    assert Norm([115, 116], false) == [115, 116];
    assert Norm([111, 115, 116], false) == [111, 115, 116];
  }

  /** The full parser takes the same line for a Host field and trims the same text. */
  lemma HostLineField(w: bytes, disabled: bool)
    requires FieldLine(HOST_COLON_SPACE + w)
    ensures FieldOf(HOST_COLON_SPACE + w, disabled) == Field(HOST, Trim(StripCR(w)))
  {
    hide NormalName, Next, NameEnd, AfterName;
    var line := HOST_COLON_SPACE + w;
    var b := line + [LF];
    NextOnLine(line, [], disabled);
    assert b[4] == COLON && b[..4] == HOST;
    assert forall i :: 0 <= i < 4 ==> b[i] == HOST[i];
    NameEndUnique(b, 4);
    NextByName(b, disabled);
    HostIsNormal(disabled);
    assert b[5..] == [SPACE] + (w + [LF]);
    assert Lacks(w, LF) by { assert forall i :: 0 <= i < |w| ==> w[i] == line[i + 6]; }
    AfterHost(w);
  }

  lemma AfterHost(w: bytes)
    requires Lacks(w, LF)
    ensures var r := AfterName(HOST, 5, [SPACE] + (w + [LF]));
            r.Got? && r.field == Field(HOST, Trim(StripCR(w)))
  {
    hide Spaces, StripCR, TrimEnd, Trim;
    var sp := Spaces(w);
    SpacesOfLine(w);
    LineSplit(w[sp..], []);
    TrimCommutes(w);
  }

  lemma SpacesOfLine(w: bytes)
    ensures var b := [SPACE] + (w + [LF]);
            Spaces(b) == Spaces(w) + 1 && b[Spaces(b)..] == w[Spaces(w)..] + ([LF] + [])
  {
    var b, x, sp := [SPACE] + (w + [LF]), w + [LF], Spaces(w);
    SpacesOfText(w);
    assert b[1..] == x && Spaces(b) == 1 + Spaces(x);
    hide Spaces;
    assert b[sp + 1..] == x[sp..] == w[sp..] + [LF];
  }

  lemma SpacesOfText(w: bytes)
    ensures Spaces(w + [LF]) == Spaces(w)
  {
    hide Spaces;
    var x := w + [LF];
    assert x[|w|] == LF && forall i :: 0 <= i < |w| ==> x[i] == w[i];
    SpacesUnique(x, Spaces(w));
  }

  /** Cutting the leading spaces first or the carriage return first makes no difference. */
  lemma TrimCommutes(w: bytes)
    ensures TrimEnd(w[Spaces(w)..]) == Trim(StripCR(w))
  {
    hide DropSpaces, Spaces, StripCR, TrimEnd;
    var sp := Spaces(w);
    SpacesStripped(w);
    StripTail(w, sp);
    TrimEndStrips(w[sp..]);
  }

  lemma TrimEndStrips(s: bytes)
    ensures TrimEnd(s) == DropSpaces(StripCR(s))
  {
  }

  lemma SpacesStripped(w: bytes)
    ensures Spaces(StripCR(w)) == Spaces(w)
  {
    hide Spaces;
    var sp, v := Spaces(w), StripCR(w);
    assert forall i :: 0 <= i < |v| ==> v[i] == w[i];
    SpacesUnique(v, sp);
  }

  lemma StripTail(w: bytes, sp: nat)
    requires sp <= |StripCR(w)|
    ensures StripCR(w[sp..]) == StripCR(w)[sp..]
  {
  }

  lemma {:induction false} DropSpacesShortens(v: bytes)
    ensures |DropSpaces(v)| <= |v|
    ensures v != [] && v[|v| - 1] == SPACE ==> |DropSpaces(v)| < |v|
  {
    if v != [] && v[|v| - 1] == SPACE {
      DropSpacesShortens(v[..|v| - 1]);
    }
  }

  predicate OuterSpace(v: bytes) {
    v != [] && (v[0] == SPACE || v[|v| - 1] == SPACE)
  }

  lemma TrimExactly(v: bytes)
    ensures Trim(v) == v <==> !OuterSpace(v)
  {
    DropSpacesShortens(v);
    DropSpacesShortens(v[Spaces(v)..]);
  }

  // ---------------------------------------------------------------- agreement

  /** The last line that the full parser reads as a Host field, or -1. */
  function LastHostLine(lines: seq<bytes>, disabled: bool): (l: int)
    requires FieldLines(lines)
    ensures -1 <= l < |lines| && (l >= 0 ==> FieldOf(lines[l], disabled).key == HOST)
    ensures forall i :: l < i < |lines| ==> FieldOf(lines[i], disabled).key != HOST
  {
    var n := |lines| - 1;
    if n < 0 then -1
    else if FieldOf(lines[n], disabled).key == HOST then n
    else LastHostLine(lines[..n], disabled)
  }

  lemma {:induction false} LastHostOf(fs: seq<Field>, l: int)
    requires -1 <= l < |fs| && (l >= 0 ==> fs[l].key == HOST) && forall i :: l < i < |fs| ==> fs[i].key != HOST
    ensures LastHost(fs) == if l >= 0 then fs[l].value else []
  {
    if l < |fs| - 1 {
      LastHostOf(fs[..|fs| - 1], l);
    }
  }

  /**
    For every well-formed header block: Host() on the raw block gives what parsing all headers would give,
    unless the first line that mentions "Host" opens with "Host: " and has a value.  In that case, if no Host
    line follows, it does so if and only if the value has no space at either end; and if one does, if and only
    if the last of them has the same value.
   */
  lemma HostAgrees(lines: seq<bytes>, cr: bool, rest: bytes, disabled: bool)
    requires FieldLines(lines)
    ensures RawLength(BlockText(lines, cr) + rest) >= 0
    ensures Shortcut(lines).Found? ==> 0 <= FirstMention(lines) <= LastHostLine(lines, disabled)
    ensures var raw := RawBlock(BlockText(lines, cr) + rest);
            var p, j, l := Shortcut(lines), FirstMention(lines), LastHostLine(lines, disabled);
            HostOf(raw, disabled) == LastHost(FieldsOf(lines, disabled)) <==>
              (p.Found? && p.value != [] ==>
                 if l == j then !OuterSpace(p.value) else p.value == FieldOf(lines[l], disabled).value)
  {
    hide FieldOf, StripCR, Trim, RawLength, BlockText, RawBlock, FirstMention, LastHostLine, HostOf, OpensWithHost;
    RawBlockOf(lines, cr, rest);
    HostByLines(lines, cr, disabled);
    var j, l := FirstMention(lines), LastHostLine(lines, disabled);
    LastHostOf(FieldsOf(lines, disabled), l);
    if Shortcut(lines).Found? {
      OpenedByHost(lines[j], disabled);
      TrimExactly(Shortcut(lines).value);
    }
  }

  lemma OpenedByHost(line: bytes, disabled: bool)
    requires FieldLine(line) && OpensWithHost(line)
    ensures FieldOf(line, disabled) == Field(HOST, Trim(StripCR(line[6..])))
  {
    hide FieldOf, StripCR, Trim;
    assert line == HOST_COLON_SPACE + line[6..];
    HostLineField(line[6..], disabled);
  }

  /** Host() in terms of the lines. */
  lemma HostByLines(lines: seq<bytes>, cr: bool, disabled: bool)
    requires FieldLines(lines)
    ensures var p := Shortcut(lines);
            HostOf(if lines == [] then [] else BlockText(lines, cr), disabled)
            == if p.Found? && p.value != [] then p.value else LastHost(FieldsOf(lines, disabled))
  {
    hide PeekRaw, StripCR, FieldOf, BlockText, ScanAll, OpensWithHost;
    if lines == [] {
      NothingToPeek([]);
    } else {
      PeekOnLines(lines, cr);
      FullHostOf(lines, cr, disabled);
    }
  }

  lemma FullHostOf(lines: seq<bytes>, cr: bool, disabled: bool)
    requires FieldLines(lines)
    ensures BlockText(lines, cr) != []
    ensures FullHost(BlockText(lines, cr), disabled) == LastHost(FieldsOf(lines, disabled))
  {
    hide ScanAll, FieldOf;
    EndsInLF(lines, cr);
    ScanBlock(lines, cr, [], disabled);
    assert BlockText(lines, cr) + [] == BlockText(lines, cr);
  }

  /**
    The host a caller sees after any head has been parsed: from the fields, that of the last Host line; from a
    block kept as text, what the shortcut finds, if anything, and else again that of the last Host line.
   */
  lemma HostAfterParse(h: HeadText, rest: bytes, disabled: bool)
    requires WellFormed(h)
    ensures Parse(Text(h) + rest, disabled).result.Parsed?
    ensures var head := Parse(Text(h) + rest, disabled).result.head;
            var l, p := LastHostLine(h.fields, disabled), Shortcut(h.fields);
            var last := if l < 0 then [] else FieldOf(h.fields[l], disabled).value;
            if Eager(head.request) then head.rawParsed && head.host == last
            else && !head.rawParsed && head.host == []
                 && HostOf(head.raw, disabled) == if p.Found? && p.value != [] then p.value else last
  {
    hide Parse, Text, FieldOf, LastHostLine, Shortcut, HostOf, BlockText, ParseRequestLine;
    Framing(h, rest, disabled);
    HostByLines(h.fields, h.endCR, disabled);
    LastHostOf(FieldsOf(h.fields, disabled), LastHostLine(h.fields, disabled));
  }

  /** A value as both readings give it: not empty, no line end and no outer space. */
  predicate PlainValue(v: bytes) {
    v != [] && Lacks(v, LF) && v[|v| - 1] != CR && !OuterSpace(v)
  }

  lemma PlainHostLine(v: bytes, disabled: bool)
    requires PlainValue(v) && FieldLine(HOST_COLON_SPACE + v)
    ensures OpensWithHost(HOST_COLON_SPACE + v) && (HOST_COLON_SPACE + v)[6..] == v && StripCR(v) == v
    ensures FieldOf(HOST_COLON_SPACE + v, disabled) == Field(HOST, v)
    ensures Index(HOST_COLON_SPACE + v, HOST) == 0
  {
    hide FieldOf, Trim, Index;
    var line := HOST_COLON_SPACE + v;
    HostLineField(v, disabled);
    TrimExactly(v);
    assert line[0..4] == HOST;
    IndexUnique(line, HOST, 0);
  }

  /**
    With two Host lines of different values the two readings differ: the shortcut takes the value of the first,
    line j, and the full parser that of the last, line l.
   */
  lemma TwoHostsDiffer(lines: seq<bytes>, cr: bool, j: nat, a: bytes, l: nat, b: bytes, disabled: bool)
    requires FieldLines(lines) && j < l < |lines| && PlainValue(a) && PlainValue(b) && a != b
    requires lines[j] == HOST_COLON_SPACE + a && forall i :: 0 <= i < j ==> Index(lines[i], HOST) < 0
    requires lines[l] == HOST_COLON_SPACE + b && forall i :: l < i < |lines| ==> FieldOf(lines[i], disabled).key != HOST
    ensures HostOf(BlockText(lines, cr), disabled) == a
    ensures FullHost(BlockText(lines, cr), disabled) == b
  {
    hide HostOf, FullHost, FieldOf, BlockText, StripCR, Index, OpensWithHost;
    PlainHostLine(a, disabled);
    PlainHostLine(b, disabled);
    HostByLines(lines, cr, disabled);
    FullHostOf(lines, cr, disabled);
    LastHostOf(FieldsOf(lines, disabled), l);
    assert FirstMention(lines) == j;
  }
}
