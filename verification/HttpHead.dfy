/**
  The request head of pkg/protocol/http/v1/header.go: the request line, the eager and the raw way of reading
  the header block, and the Host shortcut.
 */
module HttpHead {
  import opened Bytes
  import opened HttpHeaders

  const HTTP11: bytes := [72, 84, 84, 80, 47, 49, 46, 49]
  const GET: bytes := [71, 69, 84]
  const HEAD: bytes := [72, 69, 65, 68]
  const HOST: bytes := [72, 111, 115, 116]

  datatype Option<+T> = None | Some(value: T)

  // ---------------------------------------------------------------- the request line

  function StripCR(s: bytes): bytes {
    if s != [] && s[|s| - 1] == CR then s[..|s| - 1] else s
  }

  /** The first line that is not empty, and where it ends; or not enough data. */
  datatype First = First(used: nat, line: bytes) | FirstShort

  function FirstLineOf(b: bytes): (r: First)
    ensures r.First? ==> 0 < r.used <= |b| && r.line != []
    decreases |b|
  {
    var n := IndexByte(b, LF);
    if n < 0 then FirstShort
    else if StripCR(b[..n]) != [] then First(n + 1, StripCR(b[..n]))
    else
      match FirstLineOf(b[n + 1..])
      case FirstShort => FirstShort
      case First(used, line) => First(n + 1 + used, line)
  }

  datatype Request = Request(verb: bytes, uri: bytes, noHTTP11: bool)

  /** Method, then everything up to the last space; None where the source reports a malformed line. */
  function ParseRequestLine(line: bytes): Option<Request> {
    var n := IndexByte(line, SPACE);
    if n <= 0 then None else
    var b := line[n + 1..];
    var m := LastIndexByte(b, SPACE);
    if m < 0 then Some(Request(line[..n], b, true))
    else if m == 0 then None
    else Some(Request(line[..n], b[..m], b[m + 1..] != HTTP11))
  }

  /** A request line with a version: the uri is all that stands between the first and the last space. */
  lemma LineWithVersion(verb: bytes, uri: bytes, version: bytes)
    requires verb != [] && Lacks(verb, SPACE) && uri != [] && Lacks(version, SPACE)
    ensures ParseRequestLine(verb + ([SPACE] + (uri + ([SPACE] + version))))
            == Some(Request(verb, uri, version != HTTP11))
  {
    hide IndexByte, LastIndexByte;
    var b := uri + ([SPACE] + version);
    FirstSpace(verb, b);
    LastSpace(uri, version);
  }

  /** One without: it is not HTTP/1.1, and its uri may be empty. */
  lemma LineWithoutVersion(verb: bytes, uri: bytes)
    requires verb != [] && Lacks(verb, SPACE) && Lacks(uri, SPACE)
    ensures ParseRequestLine(verb + ([SPACE] + uri)) == Some(Request(verb, uri, true))
  {
    hide IndexByte, LastIndexByte;
    FirstSpace(verb, uri);
  }

  lemma FirstSpace(verb: bytes, b: bytes)
    requires Lacks(verb, SPACE)
    ensures var line := verb + ([SPACE] + b);
            IndexByte(line, SPACE) == |verb| && line[..|verb|] == verb && line[|verb| + 1..] == b
  {
    hide IndexByte;
    var line := verb + ([SPACE] + b);
    assert line[|verb|] == SPACE && forall i :: 0 <= i < |verb| ==> line[i] == verb[i];
    IndexByteUnique(line, SPACE, |verb|);
    assert line[|verb| + 1..] == b;
  }

  lemma LastSpace(uri: bytes, version: bytes)
    requires Lacks(version, SPACE)
    ensures var b := uri + ([SPACE] + version);
            LastIndexByte(b, SPACE) == |uri| && b[..|uri|] == uri && b[|uri| + 1..] == version
  {
    hide LastIndexByte;
    var b, m := uri + ([SPACE] + version), |uri|;
    assert b[m] == SPACE && b[m + 1..] == version;
    assert forall k :: m < k < |b| ==> b[k] == version[k - m - 1];
    assert !Lacks(b, SPACE);
  }

  /** A line is malformed exactly when it has no space, starts with one, or has two in a row and no other. */
  lemma MalformedExactly(line: bytes)
    ensures var n := IndexByte(line, SPACE);
            ParseRequestLine(line).None? <==>
              n <= 0 || (n + 1 < |line| && line[n + 1] == SPACE && Lacks(line[n + 2..], SPACE))
  {
    hide IndexByte, LastIndexByte;
    var n := IndexByte(line, SPACE);
    if n > 0 {
      OnlyLeadingSpace(line[n + 1..]);
      assert |line| > n + 1 ==> line[n + 1..][0] == line[n + 1] && line[n + 1..][1..] == line[n + 2..];
    }
  }

  lemma OnlyLeadingSpace(b: bytes)
    ensures LastIndexByte(b, SPACE) == 0 <==> b != [] && b[0] == SPACE && Lacks(b[1..], SPACE)
  {
    hide LastIndexByte;
    var m := LastIndexByte(b, SPACE);
    if m == 0 {
      assert forall k :: 0 <= k < |b| - 1 ==> b[1..][k] == b[k + 1];
    } else if m > 0 {
      assert b[1..][m - 1] == SPACE;
    }
  }

  /** Every other line is its parts put together in one of the two forms above: with no second space, */
  lemma PartsWithoutVersion(line: bytes)
    requires ParseRequestLine(line).Some? && Lacks(line[IndexByte(line, SPACE) + 1..], SPACE)
    ensures var r := ParseRequestLine(line).value;
            r.noHTTP11 && r.verb != [] && Lacks(r.verb, SPACE) && line == r.verb + ([SPACE] + r.uri)
  {
    hide IndexByte, LastIndexByte;
    AroundFirst(line);
  }

  /** or with one, and then the last space is the one before the version. */
  lemma PartsWithVersion(line: bytes) returns (version: bytes)
    requires ParseRequestLine(line).Some? && !Lacks(line[IndexByte(line, SPACE) + 1..], SPACE)
    ensures var r := ParseRequestLine(line).value;
            && r.verb != [] && Lacks(r.verb, SPACE) && r.uri != []
            && Lacks(version, SPACE) && (r.noHTTP11 <==> version != HTTP11)
            && line == r.verb + ([SPACE] + (r.uri + ([SPACE] + version)))
  {
    hide IndexByte, LastIndexByte;
    var b := line[IndexByte(line, SPACE) + 1..];
    AroundFirst(line);
    AroundLast(b);
    version := b[LastIndexByte(b, SPACE) + 1..];
  }

  lemma AroundFirst(line: bytes)
    requires IndexByte(line, SPACE) >= 0
    ensures var n := IndexByte(line, SPACE); Lacks(line[..n], SPACE) && line == line[..n] + ([SPACE] + line[n + 1..])
  {
    hide IndexByte;
  }

  lemma AroundLast(b: bytes)
    requires LastIndexByte(b, SPACE) >= 0
    ensures var m := LastIndexByte(b, SPACE); Lacks(b[m + 1..], SPACE) && b == b[..m] + ([SPACE] + b[m + 1..])
  {
    hide LastIndexByte;
    var m := LastIndexByte(b, SPACE);
    var after := b[m + 1..];
    assert forall k :: 0 <= k < |after| ==> after[k] == b[m + 1 + k];
  }

  // ---------------------------------------------------------------- the raw header block

  predicate Blank(line: bytes) {
    line == [] || line == [CR]
  }

  /** The length of a header block up to and including its blank line, or -1 if that has not arrived. */
  function RawLength(b: bytes): (r: int)
    ensures -1 <= r <= |b|
    decreases |b|
  {
    var n := IndexByte(b, LF);
    if n < 0 then -1
    else if Blank(b[..n]) then n + 1
    else
      var r := RawLength(b[n + 1..]);
      if r < 0 then -1 else n + 1 + r
  }

  /** What readRawHeaders keeps: the whole block, or nothing if there are no headers. */
  function RawBlock(b: bytes): bytes
    requires RawLength(b) >= 0
  {
    var n := IndexByte(b, LF);
    if Blank(b[..n]) then [] else b[..RawLength(b)]
  }

  // ---------------------------------------------------------------- the whole head

  /** The value of the last field named Host. */
  function LastHost(fs: seq<Field>): bytes {
    if fs == [] then []
    else if fs[|fs| - 1].key == HOST then fs[|fs| - 1].value
    else LastHost(fs[..|fs| - 1])
  }

  /** A parsed head; the fields of a lazily read head are still in `raw`. */
  datatype Head = Head(request: Request, fields: seq<Field>, host: bytes, raw: bytes, rawParsed: bool)

  datatype Parsed = Parsed(used: nat, head: Head) | NeedMore | Malformed

  /** Requests that may have a body, and those not in HTTP/1.1, have their headers parsed at once. */
  predicate Eager(r: Request) {
    (r.verb != GET && r.verb != HEAD) || r.noHTTP11
  }

  /** The outcome of Parse and the buffer it leaves. */
  datatype Attempt = Attempt(result: Parsed, buf: bytes)

  function Parse(buf: bytes, disabled: bool): Attempt {
    match FirstLineOf(buf)
    case FirstShort => Attempt(NeedMore, buf)
    case First(m, line) =>
      match ParseRequestLine(line)
      case None => Attempt(Malformed, buf)
      case Some(r) => ParseBlock(r, buf[..m], buf[m..], disabled)
  }

  /** The header block b that follows a request line which took up the bytes `front`. */
  function ParseBlock(r: Request, front: bytes, b: bytes, disabled: bool): Attempt {
    if Eager(r) then
      var s := ScanAll(b, disabled);
      if s.done then
        Attempt(Parsed(|front| + s.used, Head(r, s.fields, LastHost(s.fields), [], true)), front + s.buf)
      else Attempt(NeedMore, front + s.buf)
    else
      var n := RawLength(b);
      if n < 0 then Attempt(NeedMore, front + b)
      else Attempt(Parsed(|front| + n, Head(r, [], [], RawBlock(b), false)), front + b)
  }

  // ---------------------------------------------------------------- retrying

  /** A buffer cut at its first line feed. */
  lemma LineSplit(line: bytes, rest: bytes)
    requires Lacks(line, LF)
    ensures var b := line + ([LF] + rest);
            IndexByte(b, LF) == |line| && b[..|line|] == line && b[|line| + 1..] == rest
  {
    var b := line + ([LF] + rest);
    assert b[|line|] == LF && forall i :: 0 <= i < |line| ==> b[i] == line[i];
    IndexByteUnique(b, LF, |line|);
    assert b[|line| + 1..] == rest;
  }

  function Shifted(n: nat, r: First): First {
    if r.First? then First(n + r.used, r.line) else r
  }

  lemma FirstLineOn(line: bytes, rest: bytes)
    requires Lacks(line, LF)
    ensures FirstLineOf(line + ([LF] + rest))
            == if StripCR(line) != [] then First(|line| + 1, StripCR(line)) else Shifted(|line| + 1, FirstLineOf(rest))
  {
    hide IndexByte, StripCR;
    LineSplit(line, rest);
  }

  lemma CutLine(line: bytes, tail: bytes, k: nat)
    requires k <= |tail|
    ensures (line + ([LF] + tail))[..|line| + 1 + k] == line + ([LF] + tail[..k])
  {
  }

  lemma BlockAssoc(line: bytes, tail: bytes, rest: bytes)
    ensures line + ([LF] + tail) + rest == line + ([LF] + (tail + rest))
  {
    ConcatAssoc(line, [LF] + tail, rest);
    ConcatAssoc([LF], tail, rest);
  }

  lemma FirstLineParts(b: bytes)
    requires IndexByte(b, LF) >= 0
    ensures var n := IndexByte(b, LF); b == b[..n] + ([LF] + b[n + 1..]) && Lacks(b[..n], LF)
  {
  }

  lemma NoLineNoFirst(b: bytes)
    requires Lacks(b, LF)
    ensures FirstLineOf(b).FirstShort?
  {
  }

  lemma {:induction false} FirstLineLocal(b: bytes, x: bytes)
    requires FirstLineOf(b).First?
    ensures FirstLineOf(b[..FirstLineOf(b).used] + x) == FirstLineOf(b)
    decreases |b|, 1
  {
    hide FirstLineOf, IndexByte;
    if IndexByte(b, LF) < 0 {
      NoLineNoFirst(b);
    } else {
      FirstLineParts(b);
      FirstLineLocalOn(b[..IndexByte(b, LF)], b[IndexByte(b, LF) + 1..], x);
    }
  }

  lemma {:induction false} FirstLineLocalOn(line: bytes, tail: bytes, x: bytes)
    requires Lacks(line, LF) && FirstLineOf(line + ([LF] + tail)).First?
    ensures var b := line + ([LF] + tail);
            FirstLineOf(b[..FirstLineOf(b).used] + x) == FirstLineOf(b)
    decreases |line| + 1 + |tail|, 0
  {
    hide FirstLineOf, StripCR;
    FirstLineOn(line, tail);
    if StripCR(line) != [] {
      CutLine(line, tail, 0);
      BlockAssoc(line, [], x);
      FirstLineOn(line, [] + x);
    } else {
      var k := FirstLineOf(tail).used;
      CutLine(line, tail, k);
      BlockAssoc(line, tail[..k], x);
      FirstLineOn(line, tail[..k] + x);
      FirstLineLocal(tail, x);
    }
  }

  /**
    Retry safety of the whole parse: when parsing p ends with "need more", parsing what it left in the buffer
    followed by new data s gives exactly what parsing p + s from scratch gives.
   */
  lemma RetryParse(p: bytes, s: bytes, disabled: bool)
    requires Parse(p, disabled).result.NeedMore?
    ensures Parse(Parse(p, disabled).buf + s, disabled) == Parse(p + s, disabled)
  {
    hide FirstLineOf, ParseRequestLine, ScanAll, RawLength;
    if FirstLineOf(p).First? {
      var m := FirstLineOf(p).used;
      var front, b := p[..m], p[m..];
      var r := ParseRequestLine(FirstLineOf(p).line).value;
      var b' := if Eager(r) then ScanAll(b, disabled).buf else b;
      assert Parse(p, disabled).buf == front + b';
      FirstLineLocal(p, b' + s);
      FirstLineLocal(p, b + s);
      ConcatAssoc(front, b', s);
      ConcatAssoc(front, b, s);
      assert p == front + b;
      var c, d := front + (b' + s), front + (b + s);
      assert c[..m] == d[..m] == front && c[m..] == b' + s && d[m..] == b + s;
      if Eager(r) {
        RetryScan(b, s, disabled);
      }
    }
  }

  // ---------------------------------------------------------------- well-formed heads

  function Eol(cr: bool): bytes {
    if cr then CRLF else [LF]
  }

  /** A header line without its line feed: it has a colon and no line feed. */
  predicate FieldLine(line: bytes) {
    Lacks(line, LF) && !Lacks(line, COLON)
  }

  /** A header block: its lines and the blank line. */
  function BlockText(lines: seq<bytes>, cr: bool): bytes {
    if lines == [] then Eol(cr) else lines[0] + ([LF] + BlockText(lines[1..], cr))
  }

  function Ended(s: bytes, cr: bool): bytes {
    if cr then s + [CR] else s
  }

  /** A request line with any empty lines before it. */
  function FrontText(blanks: seq<bool>, line: bytes, cr: bool): bytes {
    if blanks == [] then Ended(line, cr) + ([LF] + [])
    else Ended([], blanks[0]) + ([LF] + FrontText(blanks[1..], line, cr))
  }

  /** A request head, with any empty lines before it. */
  datatype HeadText = HeadText(blanks: seq<bool>, line: bytes, lineCR: bool, fields: seq<bytes>, endCR: bool)

  predicate WellFormed(h: HeadText) {
    && h.line != [] && Lacks(h.line, LF) && (!h.lineCR ==> h.line[|h.line| - 1] != CR)
    && ParseRequestLine(h.line).Some?
    && forall i :: 0 <= i < |h.fields| ==> FieldLine(h.fields[i])
  }

  function Text(h: HeadText): bytes {
    FrontText(h.blanks, h.line, h.lineCR) + BlockText(h.fields, h.endCR)
  }

  /** What the scanner makes of one complete header line. */
  function FieldOf(line: bytes, disabled: bool): Field
    requires FieldLine(line)
  {
    NextOnLine(line, [], disabled);
    Next(line + [LF], disabled).field
  }

  lemma AfterOnLine(key: bytes, before: nat, text: bytes)
    requires Lacks(text, LF)
    ensures var r := AfterName(key, before, text + [LF]); r.Got? && r.used == before + |text| + 1
  {
    var b := text + [LF];
    var sp := Spaces(b);
    assert b[|text|] == LF;
    IndexByteUnique(b[sp..], LF, |text| - sp);
  }

  lemma NextOnLine(line: bytes, rest: bytes, disabled: bool)
    requires FieldLine(line)
    ensures Next(line + [LF], disabled).Got?
    ensures Next(line + ([LF] + rest), disabled) == Next(line + [LF], disabled)
    ensures Next(line + [LF], disabled).used == |line| + 1
  {
    hide AfterName, Next, NameEnd, NormalName;
    var b, n := line + [LF], IndexByte(line, COLON);
    assert b[n] == COLON && forall i :: 0 <= i < n ==> b[i] == line[i];
    NameEndUnique(b, n);
    NextByName(b, disabled);
    assert b[n + 1..] == line[n + 1..] + [LF];
    AfterOnLine(NormalName(b[..n], disabled), n + 1, line[n + 1..]);
    NextLocal(b, rest, disabled);
    assert b[..|line| + 1] == b;
    ConcatAssoc(line, [LF], rest);
  }

  predicate AllSpaces(s: bytes) {
    forall i :: 0 <= i < |s| ==> s[i] == SPACE
  }

  /** A text that neither starts nor ends with a space, nor ends with a carriage return. */
  predicate Trimmed(v: bytes) {
    v != [] ==> v[0] != SPACE && v[|v| - 1] != SPACE && v[|v| - 1] != CR
  }

  lemma {:induction false} DropPad(v: bytes, pad: bytes)
    requires AllSpaces(pad) && (v == [] || v[|v| - 1] != SPACE)
    ensures DropSpaces(v + pad) == v
  {
    if pad == [] {
      assert v + pad == v;
    } else {
      var n := |pad| - 1;
      assert (v + pad)[|v| + n] == SPACE && (v + pad)[..|v| + n] == v + pad[..n];
      DropPad(v, pad[..n]);
    }
  }

  /** What is read of a value: not the spaces around it, nor a carriage return at the end of its line. */
  lemma TextOfValue(key: bytes, before: nat, lead: bytes, v: bytes, pad: bytes, cr: bool)
    requires AllSpaces(lead) && Trimmed(v) && Lacks(v, LF) && AllSpaces(pad) && (v == [] ==> pad == [])
    ensures AfterName(key, before, Ended(lead + (v + pad), cr) + [LF]).Got?
    ensures AfterName(key, before, Ended(lead + (v + pad), cr) + [LF]).field == Field(key, v)
  {
    hide TrimEnd, Spaces, IndexByte;
    var x := Ended(v + pad, cr);
    EndedBehind(lead, v + pad, cr);
    StartsAt(v, pad, cr);
    SpacesBefore(lead, x + ([LF] + []));
    LineSplit(x, []);
    TrimEndOf(v, pad, cr);
  }

  lemma EndedBehind(lead: bytes, t: bytes, cr: bool)
    ensures Ended(lead + t, cr) + [LF] == lead + (Ended(t, cr) + ([LF] + []))
  {
  }

  lemma StartsAt(v: bytes, pad: bytes, cr: bool)
    requires Trimmed(v) && Lacks(v, LF) && AllSpaces(pad) && (v == [] ==> pad == [])
    ensures var x := Ended(v + pad, cr); Lacks(x, LF) && (x == [] || x[0] != SPACE)
  {
    var x := Ended(v + pad, cr);
    assert v != [] ==> x[0] == v[0];
  }

  lemma SpacesBefore(lead: bytes, y: bytes)
    requires AllSpaces(lead) && y != [] && y[0] != SPACE
    ensures Spaces(lead + y) == |lead| && (lead + y)[|lead|..] == y
  {
    hide Spaces;
    var b := lead + y;
    assert b[|lead|] == y[0] && forall i :: 0 <= i < |lead| ==> b[i] == lead[i];
    SpacesUnique(b, |lead|);
  }

  lemma TrimEndOf(v: bytes, pad: bytes, cr: bool)
    requires AllSpaces(pad) && Trimmed(v)
    ensures TrimEnd(Ended(v + pad, cr)) == v
  {
    hide DropSpaces;
    DropPad(v, pad);
    var t := v + pad;
    assert cr ==> (t + [CR])[..|t|] == t;
    assert t != [] ==> t[|t| - 1] == if pad == [] then v[|v| - 1] else SPACE;
  }

  /** Any header line as it may be written: the name normalised, the value without the spaces around it. */
  lemma FieldOfText(name: bytes, lead: bytes, v: bytes, pad: bytes, cr: bool, disabled: bool)
    requires Lacks(name, COLON) && Lacks(name, LF)
    requires AllSpaces(lead) && Trimmed(v) && Lacks(v, LF) && AllSpaces(pad) && (v == [] ==> pad == [])
    ensures var line := name + ([COLON] + Ended(lead + (v + pad), cr));
            FieldLine(line) && FieldOf(line, disabled) == Field(NormalName(name, disabled), v)
  {
    hide NormalName, Next, NameEnd, AfterName;
    var text := Ended(lead + (v + pad), cr);
    var line, n := name + ([COLON] + text), |name|;
    var b := line + [LF];
    assert Lacks(text, LF);
    assert line[n] == COLON && Lacks(line, LF);
    NextOnLine(line, [], disabled);
    assert forall i :: 0 <= i < n ==> b[i] == name[i];
    assert b[n] == COLON && b[..n] == name && b[n + 1..] == text + [LF];
    NameEndUnique(b, n);
    NextByName(b, disabled);
    TextOfValue(NormalName(name, disabled), n + 1, lead, v, pad, cr);
  }

  /** Without a line feed the scanner always asks for more. */
  lemma NoLineNoStep(b: bytes, disabled: bool)
    requires Lacks(b, LF)
    ensures Next(b, disabled).Short?
  {
  }

  function FieldsOf(lines: seq<bytes>, disabled: bool): (fs: seq<Field>)
    requires forall i :: 0 <= i < |lines| ==> FieldLine(lines[i])
    ensures |fs| == |lines| && forall i :: 0 <= i < |fs| ==> fs[i] == FieldOf(lines[i], disabled)
  {
    if lines == [] then [] else [FieldOf(lines[0], disabled)] + FieldsOf(lines[1..], disabled)
  }

  /** The eager scanner on a well-formed block: all its fields, exactly its length, whatever follows. */
  lemma {:induction false} ScanBlock(lines: seq<bytes>, cr: bool, rest: bytes, disabled: bool)
    requires forall i :: 0 <= i < |lines| ==> FieldLine(lines[i])
    ensures var s := ScanAll(BlockText(lines, cr) + rest, disabled);
            s.done && s.used == |BlockText(lines, cr)| && s.fields == FieldsOf(lines, disabled)
  {
    hide FieldLine, ScanAll, FieldOf;
    if lines == [] {
      ScanEnd(cr, rest, disabled);
    } else {
      var tail := BlockText(lines[1..], cr);
      ScanBlock(lines[1..], cr, rest, disabled);
      ScanLine(lines[0], tail + rest, disabled);
      BlockAssoc(lines[0], tail, rest);
    }
  }

  lemma ScanLine(line: bytes, rest: bytes, disabled: bool)
    requires FieldLine(line)
    ensures var s, r := ScanAll(line + ([LF] + rest), disabled), ScanAll(rest, disabled);
            && s.done == r.done && s.used == |line| + 1 + r.used
            && s.fields == [FieldOf(line, disabled)] + r.fields
  {
    hide Next, FieldLine, ScanAll;
    var b := line + ([LF] + rest);
    NextOnLine(line, rest, disabled);
    ScanGot(b, disabled);
    assert b[|line| + 1..] == rest;
  }

  lemma ScanEnd(cr: bool, rest: bytes, disabled: bool)
    ensures var s := ScanAll(Eol(cr) + rest, disabled); s.done && s.used == |Eol(cr)| && s.fields == []
  {
  }

  lemma {:induction false} ScanBlockPrefix(lines: seq<bytes>, cr: bool, k: nat, disabled: bool)
    requires forall i :: 0 <= i < |lines| ==> FieldLine(lines[i])
    requires k < |BlockText(lines, cr)|
    ensures !ScanAll(BlockText(lines, cr)[..k], disabled).done
  {
    hide ScanAll, FieldOf;
    var b := BlockText(lines, cr);
    if lines != [] && |lines[0]| < k {
      var line, tail, j := lines[0], BlockText(lines[1..], cr), k - |lines[0]| - 1;
      ScanBlockPrefix(lines[1..], cr, j, disabled);
      assert b[..k] == line + ([LF] + tail[..j]);
      ScanLine(line, tail[..j], disabled);
    } else {
      BlockStart(lines, cr, k);
      NoLineNoStep(b[..k], disabled);
      ScanShort(b[..k], disabled);
    }
  }

  /** Up to its first line feed a block has none. */
  lemma BlockStart(lines: seq<bytes>, cr: bool, k: nat)
    requires forall i :: 0 <= i < |lines| ==> FieldLine(lines[i])
    requires if lines == [] then k < |Eol(cr)| else k <= |lines[0]|
    ensures k <= |BlockText(lines, cr)| && Lacks(BlockText(lines, cr)[..k], LF)
  {
    if lines != [] {
      assert BlockText(lines, cr)[..k] == lines[0][..k];
    }
  }

  lemma RawOn(line: bytes, rest: bytes)
    requires Lacks(line, LF)
    ensures RawLength(line + ([LF] + rest))
            == if Blank(line) then |line| + 1 else if RawLength(rest) < 0 then -1 else |line| + 1 + RawLength(rest)
  {
    hide IndexByte;
    LineSplit(line, rest);
  }

  lemma NotBlank(line: bytes)
    requires FieldLine(line)
    ensures !Blank(line)
  {
  }

  /** The raw scan on a well-formed block agrees with the eager one. */
  lemma {:induction false} RawOnBlock(lines: seq<bytes>, cr: bool, rest: bytes)
    requires forall i :: 0 <= i < |lines| ==> FieldLine(lines[i])
    ensures RawLength(BlockText(lines, cr) + rest) == |BlockText(lines, cr)|
  {
    hide RawLength;
    if lines == [] {
      var line := if cr then [CR] else [];
      assert Eol(cr) + rest == line + ([LF] + rest);
      RawOn(line, rest);
    } else {
      var tail := BlockText(lines[1..], cr);
      RawOnBlock(lines[1..], cr, rest);
      NotBlank(lines[0]);
      RawOn(lines[0], tail + rest);
      BlockAssoc(lines[0], tail, rest);
    }
  }

  lemma {:induction false} RawOnBlockPrefix(lines: seq<bytes>, cr: bool, k: nat)
    requires forall i :: 0 <= i < |lines| ==> FieldLine(lines[i])
    requires k < |BlockText(lines, cr)|
    ensures RawLength(BlockText(lines, cr)[..k]) < 0
  {
    var b := BlockText(lines, cr);
    if lines != [] && |lines[0]| < k {
      hide RawLength;
      var line, tail, j := lines[0], BlockText(lines[1..], cr), k - |lines[0]| - 1;
      RawOnBlockPrefix(lines[1..], cr, j);
      assert b[..k] == line + ([LF] + tail[..j]);
      NotBlank(line);
      RawOn(line, tail[..j]);
    } else {
      BlockStart(lines, cr, k);
    }
  }

  /** The request line is found behind any number of empty lines. */
  lemma {:induction false} FirstLineFound(blanks: seq<bool>, line: bytes, cr: bool, rest: bytes)
    requires line != [] && Lacks(line, LF) && (!cr ==> line[|line| - 1] != CR)
    ensures FirstLineOf(FrontText(blanks, line, cr) + rest) == First(|FrontText(blanks, line, cr)|, line)
  {
    hide FirstLineOf, StripCR, Ended;
    if blanks == [] {
      EndedStripped(line, cr);
      BlockAssoc(Ended(line, cr), [], rest);
      assert [] + rest == rest;
      FirstLineOn(Ended(line, cr), rest);
    } else {
      BlankStripped(blanks[0]);
      var tail := FrontText(blanks[1..], line, cr);
      FirstLineFound(blanks[1..], line, cr, rest);
      BlockAssoc(Ended([], blanks[0]), tail, rest);
      FirstLineOn(Ended([], blanks[0]), tail + rest);
    }
  }

  lemma {:induction false} FirstLinePrefix(blanks: seq<bool>, line: bytes, cr: bool, k: nat)
    requires Lacks(line, LF) && k < |FrontText(blanks, line, cr)|
    ensures FirstLineOf(FrontText(blanks, line, cr)[..k]).FirstShort?
  {
    hide FirstLineOf, StripCR, Ended;
    if blanks != [] && |Ended([], blanks[0])| < k {
      var start, tail := Ended([], blanks[0]), FrontText(blanks[1..], line, cr);
      var j := k - |start| - 1;
      BlankStripped(blanks[0]);
      FirstLinePrefix(blanks[1..], line, cr, j);
      CutLine(start, tail, j);
      FirstLineOn(start, tail[..j]);
    } else {
      FrontStart(blanks, line, cr, k);
      NoLineNoFirst(FrontText(blanks, line, cr)[..k]);
    }
  }

  lemma EndedStripped(line: bytes, cr: bool)
    requires line != [] && Lacks(line, LF) && (!cr ==> line[|line| - 1] != CR)
    ensures StripCR(Ended(line, cr)) == line && Lacks(Ended(line, cr), LF)
  {
    assert (line + [CR])[..|line|] == line;
  }

  lemma BlankStripped(cr: bool)
    ensures StripCR(Ended([], cr)) == [] && Lacks(Ended([], cr), LF)
  {
  }

  lemma FrontStart(blanks: seq<bool>, line: bytes, cr: bool, k: nat)
    requires Lacks(line, LF)
    requires if blanks == [] then k <= |Ended(line, cr)| else k <= |Ended([], blanks[0])|
    ensures k <= |FrontText(blanks, line, cr)| && Lacks(FrontText(blanks, line, cr)[..k], LF)
  {
    var start := if blanks == [] then Ended(line, cr) else Ended([], blanks[0]);
    assert FrontText(blanks, line, cr)[..k] == start[..k];
  }

  lemma RawBlockOf(lines: seq<bytes>, cr: bool, rest: bytes)
    requires forall i :: 0 <= i < |lines| ==> FieldLine(lines[i])
    ensures RawLength(BlockText(lines, cr) + rest) >= 0
    ensures RawBlock(BlockText(lines, cr) + rest) == if lines == [] then [] else BlockText(lines, cr)
  {
    hide RawLength;
    var b := BlockText(lines, cr);
    RawOnBlock(lines, cr, rest);
    if lines == [] {
      var line := if cr then [CR] else [];
      assert b + rest == line + ([LF] + rest);
      LineSplit(line, rest);
    } else {
      BlockAssoc(lines[0], BlockText(lines[1..], cr), rest);
      LineSplit(lines[0], BlockText(lines[1..], cr) + rest);
      NotBlank(lines[0]);
      assert (b + rest)[..|b|] == b;
    }
  }

  /**
    What a parse makes of a head: GET and HEAD in HTTP/1.1 keep the block as text, unless it is empty; all
    others get the fields and the value of the last Host among them.
   */
  function HeadOf(r: Request, lines: seq<bytes>, cr: bool, disabled: bool): Head
    requires forall i :: 0 <= i < |lines| ==> FieldLine(lines[i])
  {
    if (r.verb == GET || r.verb == HEAD) && !r.noHTTP11
    then Head(r, [], [], if lines == [] then [] else BlockText(lines, cr), false)
    else Head(r, FieldsOf(lines, disabled), LastHost(FieldsOf(lines, disabled)), [], true)
  }

  /**
    Framing: for every well-formed head followed by any bytes, parsing consumes exactly the head; the eager
    scan and the raw scan agree on where the header block ends; every proper prefix asks for more.
   */
  lemma Framing(h: HeadText, rest: bytes, disabled: bool)
    requires WellFormed(h)
    ensures var block := BlockText(h.fields, h.endCR) + rest;
            ScanAll(block, disabled).done && ScanAll(block, disabled).used == RawLength(block)
    ensures var r := Parse(Text(h) + rest, disabled).result;
            r == Parsed(|Text(h)|, HeadOf(ParseRequestLine(h.line).value, h.fields, h.endCR, disabled))
    ensures forall k :: 0 <= k < |Text(h)| ==> Parse(Text(h)[..k], disabled).result.NeedMore?
  {
    hide ScanAll, RawLength, RawBlock, FirstLineOf, ParseRequestLine, FieldsOf, FrontText, BlockText, LastHost;
    var front, block := FrontText(h.blanks, h.line, h.lineCR), BlockText(h.fields, h.endCR);
    FrontFound(h, block + rest);
    ConcatAssoc(front, block, rest);
    assert (front + (block + rest))[..|front|] == front && (front + (block + rest))[|front|..] == block + rest;
    ScanBlock(h.fields, h.endCR, rest, disabled);
    RawOnBlock(h.fields, h.endCR, rest);
    RawBlockOf(h.fields, h.endCR, rest);
    forall k | 0 <= k < |Text(h)|
      ensures Parse(Text(h)[..k], disabled).result.NeedMore?
    {
      FramingPrefix(h, k, disabled);
    }
  }

  /** The same for a head given by method, uri and version: this is what the caller gets to see. */
  lemma FramedRequest(blanks: seq<bool>, verb: bytes, uri: bytes, version: bytes, lineCR: bool,
                      fields: seq<bytes>, endCR: bool, rest: bytes, disabled: bool)
    requires verb != [] && Lacks(verb, SPACE) && Lacks(verb, LF) && uri != [] && Lacks(uri, LF)
    requires Lacks(version, SPACE) && Lacks(version, LF)
    requires lineCR || version == [] || version[|version| - 1] != CR
    requires forall i :: 0 <= i < |fields| ==> FieldLine(fields[i])
    ensures var line := verb + ([SPACE] + (uri + ([SPACE] + version)));
            var text := FrontText(blanks, line, lineCR) + BlockText(fields, endCR);
            Parse(text + rest, disabled).result
            == Parsed(|text|, HeadOf(Request(verb, uri, version != HTTP11), fields, endCR, disabled))
  {
    hide Parse, ParseRequestLine, HeadOf, BlockText, FrontText;
    var line := verb + ([SPACE] + (uri + ([SPACE] + version)));
    LineWithVersion(verb, uri, version);
    assert line[|line| - 1] == if version == [] then SPACE else version[|version| - 1];
    Framing(HeadText(blanks, line, lineCR, fields, endCR), rest, disabled);
  }

  lemma FrontFound(h: HeadText, rest: bytes)
    requires WellFormed(h)
    ensures var front := FrontText(h.blanks, h.line, h.lineCR); FirstLineOf(front + rest) == First(|front|, h.line)
  {
    FirstLineFound(h.blanks, h.line, h.lineCR, rest);
  }

  lemma FramingPrefix(h: HeadText, k: nat, disabled: bool)
    requires WellFormed(h) && k < |Text(h)|
    ensures Parse(Text(h)[..k], disabled).result.NeedMore?
  {
    hide ScanAll, RawLength, FirstLineOf, ParseRequestLine, BlockText;
    var front, block := FrontText(h.blanks, h.line, h.lineCR), BlockText(h.fields, h.endCR);
    if k < |front| {
      assert Text(h)[..k] == front[..k];
      FirstLinePrefix(h.blanks, h.line, h.lineCR, k);
    } else {
      var j := k - |front|;
      assert Text(h)[..k] == front + block[..j];
      FrontFound(h, block[..j]);
      assert (front + block[..j])[|front|..] == block[..j];
      ScanBlockPrefix(h.fields, h.endCR, j, disabled);
      RawOnBlockPrefix(h.fields, h.endCR, j);
    }
  }

  // ---------------------------------------------------------------- arrival in chunks

  /** Chunks arrive one by one; after each the parser tries what the buffer then holds, until it has an answer. */
  function Attempts(buf: bytes, chunks: seq<bytes>, disabled: bool): Attempt
    requires chunks != []
    decreases |chunks|
  {
    var a := Parse(buf + chunks[0], disabled);
    if |chunks| == 1 || !a.result.NeedMore? then a else Attempts(a.buf, chunks[1..], disabled)
  }

  /**
    A well-formed head may arrive in any pieces: every attempt before the last byte of the head asks for more,
    and the attempt that has it gives exactly what a single parse of all the bytes gives, although the buffer
    has been rewritten in between.
   */
  lemma ChunkedHead(h: HeadText, chunks: seq<bytes>, rest: bytes, disabled: bool)
    requires WellFormed(h) && chunks != [] && Concat(chunks) == Text(h) + rest
    requires |Concat(chunks)| - |chunks[|chunks| - 1]| < |Text(h)|
    ensures Attempts([], chunks, disabled) == Parse(Text(h) + rest, disabled)
  {
    hide Parse;
    NothingParsed(disabled);
    assert [] + Concat(chunks) == Concat(chunks);
    ChunkedFrom(h, [], chunks, rest, disabled);
  }

  lemma NothingParsed(disabled: bool)
    ensures Parse([], disabled) == Attempt(NeedMore, [])
  {
  }

  lemma {:induction false} ChunkedFrom(h: HeadText, p: bytes, chunks: seq<bytes>, rest: bytes, disabled: bool)
    requires WellFormed(h) && chunks != [] && p + Concat(chunks) == Text(h) + rest
    requires |p| + |Concat(chunks)| - |chunks[|chunks| - 1]| < |Text(h)|
    requires Parse(p, disabled).result.NeedMore?
    ensures Attempts(Parse(p, disabled).buf, chunks, disabled) == Parse(Text(h) + rest, disabled)
    decreases |chunks|
  {
    hide Parse, Text, WellFormed;
    var c, q := chunks[0], p + chunks[0];
    RetryParse(p, c, disabled);
    if |chunks| == 1 {
      assert Concat(chunks) == c + [] == c;
    } else {
      ConcatAssoc(p, c, Concat(chunks[1..]));
      LastIsPart(chunks[1..]);
      var k := |q|;
      PartOfHead(q, Concat(chunks[1..]), Text(h), rest);
      FramingPrefix(h, k, disabled);
      ChunkedFrom(h, q, chunks[1..], rest, disabled);
    }
  }

  lemma PartOfHead(q: bytes, more: bytes, text: bytes, rest: bytes)
    requires q + more == text + rest && |q| <= |text|
    ensures q == text[..|q|]
  {
    assert (q + more)[..|q|] == q;
    assert (text + rest)[..|q|] == text[..|q|];
  }

  lemma {:induction false} LastIsPart(chunks: seq<bytes>)
    requires chunks != []
    ensures |chunks[|chunks| - 1]| <= |Concat(chunks)|
  {
    if |chunks| > 1 {
      LastIsPart(chunks[1..]);
    }
  }
}
