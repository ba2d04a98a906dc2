/**
  Header fields of pkg/protocol/http/v1/header.go: the scanner, which normalises names inside the buffer it
  scans, and the printer.
 */
module HttpHeaders {
  import opened Bytes

  const CRLF: bytes := [CR, LF]

  datatype Field = Field(key: bytes, value: bytes)

  // ---------------------------------------------------------------- names

  /**
    normalizeHeaderKey as a two-state walk: the byte at the start and the byte after a dash are upper-cased
    whatever they are, other bytes are lower-cased.
   */
  function Norm(s: bytes, up: bool): (r: bytes)
    ensures |r| == |s|
  {
    if s == [] then []
    else if up then [ToUpper(s[0])] + Norm(s[1..], false)
    else if s[0] == DASH then [DASH] + Norm(s[1..], true)
    else [ToLower(s[0])] + Norm(s[1..], false)
  }

  function NormalName(s: bytes, disabled: bool): (r: bytes)
    ensures |r| == |s|
  {
    if disabled then s else Norm(s, true)
  }

  predicate IsLetter(c: byte) {
    IsUpper(c) || IsLower(c)
  }

  lemma {:induction false} NormLaws(s: bytes, up: bool)
    ensures Norm(Norm(s, up), up) == Norm(s, up)
    ensures forall i :: 0 <= i < |s| && !IsLetter(s[i]) ==> Norm(s, up)[i] == s[i]
    ensures forall i :: 0 <= i < |s| && IsLetter(s[i]) ==> IsLetter(Norm(s, up)[i])
  {
    if s != [] {
      NormLaws(s[1..], if up then false else s[0] == DASH);
    }
  }

  /** A word starts at the front and behind a dash, unless that dash starts a word itself. */
  ghost predicate WordStart(s: bytes, i: nat)
    requires i < |s|
  {
    i == 0 || (s[i - 1] == DASH && !WordStart(s, i - 1))
  }

  /** A normal name byte by byte: words start with a capital and go on in small letters. */
  lemma {:induction false} NormAt(s: bytes, i: nat)
    requires i < |s|
    ensures Norm(s, true)[i] == if WordStart(s, i) then ToUpper(s[i]) else ToLower(s[i])
  {
    hide ToUpper, ToLower;
    NormFrom(s, i);
    assert ToLower(DASH) == DASH by { DashIsNoLetter(); }
    assert s[i..][0] == s[i];
  }

  lemma DashIsNoLetter()
    ensures ToLower(DASH) == DASH
  {
  }

  /** The walk arrives at place i in the state that says whether a word starts there. */
  lemma {:induction false} NormFrom(s: bytes, i: nat)
    requires i < |s|
    ensures Norm(s, true)[i..] == Norm(s[i..], WordStart(s, i))
  {
    hide ToUpper, ToLower;
    if i == 0 {
      assert s[0..] == s && Norm(s, true)[0..] == Norm(s, true);
    } else {
      NormFrom(s, i - 1);
      assert Norm(s, true)[i..] == Norm(s, true)[i - 1..][1..];
      assert s[i - 1..][1..] == s[i..] && s[i - 1..][0] == s[i - 1];
    }
  }

  /** Normalising twice is normalising once, and only letters change. */
  lemma NameLaws(s: bytes, disabled: bool)
    ensures NormalName(NormalName(s, disabled), disabled) == NormalName(s, disabled)
    ensures forall i :: 0 <= i < |s| && !IsLetter(s[i]) ==> NormalName(s, disabled)[i] == s[i]
    ensures forall i :: 0 <= i < |s| && IsLetter(s[i]) ==> IsLetter(NormalName(s, disabled)[i])
  {
    NormLaws(s, true);
  }

  // ---------------------------------------------------------------- one field

  /** How many spaces stand at the front. */
  function Spaces(s: bytes): (n: nat)
    ensures n <= |s| && (n < |s| ==> s[n] != SPACE)
    ensures forall i :: 0 <= i < n ==> s[i] == SPACE
  {
    if s == [] || s[0] != SPACE then 0 else 1 + Spaces(s[1..])
  }

  /** What is left of a value once one carriage return and then all spaces are cut from its end. */
  function TrimEnd(s: bytes): bytes {
    DropSpaces(if s != [] && s[|s| - 1] == CR then s[..|s| - 1] else s)
  }

  function DropSpaces(s: bytes): bytes {
    if s != [] && s[|s| - 1] == SPACE then DropSpaces(s[..|s| - 1]) else s
  }

  /** A call of the scanner's next: the end of the head, too little data, or a field. */
  datatype Step =
    | End(used: nat)
    | Short
    | Got(field: Field, used: nat)

  /** The colon that ends the name, if the scanner gets to look for it. */
  function NameEnd(b: bytes): (n: int)
    ensures -1 <= n < |b|
  {
    if IsEnd(b) then -1 else IndexByte(b, COLON)
  }

  predicate IsEnd(b: bytes) {
    (|b| >= 2 && b[0] == CR && b[1] == LF) || (|b| >= 1 && b[0] == LF)
  }

  function Next(b: bytes, disabled: bool): Step {
    if |b| >= 2 && b[0] == CR && b[1] == LF then End(2)
    else if |b| >= 1 && b[0] == LF then End(1)
    else
      var n := IndexByte(b, COLON);
      if n < 0 then Short else AfterName(NormalName(b[..n], disabled), n + 1, b[n + 1..])
  }

  /** The rest of a line, after a name and its colon that take up `before` bytes. */
  function AfterName(key: bytes, before: nat, b: bytes): (r: Step)
    ensures !r.End?
  {
    var sp := Spaces(b);
    var n := IndexByte(b[sp..], LF);
    if n < 0 then Short else Got(Field(key, TrimEnd(b[sp..][..n])), before + sp + n + 1)
  }

  lemma NextUses(b: bytes, disabled: bool)
    ensures var r := Next(b, disabled); !r.Short? ==> 0 < r.used <= |b|
    ensures Next(b, disabled).Got? ==> 0 <= NameEnd(b) < Next(b, disabled).used
  {
  }

  /** The buffer after a call of next: the name, once its colon is seen, has been rewritten in place. */
  function Rewrite(b: bytes, disabled: bool): (r: bytes)
    ensures |r| == |b|
  {
    var n := NameEnd(b);
    if n < 0 then b else NormalName(b[..n], disabled) + b[n..]
  }

  // ---------------------------------------------------------------- all fields

  /** A whole scan: the fields, how far it got, whether it met the end, and the buffer it leaves. */
  datatype Scan = Scan(fields: seq<Field>, used: nat, done: bool, buf: bytes)

  function ScanAll(b: bytes, disabled: bool): (s: Scan)
    ensures |s.buf| == |b| && s.used <= |b|
    decreases |b|
  {
    NextUses(b, disabled);
    match Next(b, disabled)
    case End(n) => Scan([], n, true, b)
    case Short => Scan([], 0, false, Rewrite(b, disabled))
    case Got(f, n) =>
      var rest := ScanAll(b[n..], disabled);
      Scan([f] + rest.fields, n + rest.used, rest.done, Rewrite(b, disabled)[..n] + rest.buf)
  }

  // ---------------------------------------------------------------- retrying after a rewrite

  lemma {:induction false} SpacesUnique(s: bytes, n: nat)
    requires n <= |s| && (n < |s| ==> s[n] != SPACE) && forall i :: 0 <= i < n ==> s[i] == SPACE
    ensures Spaces(s) == n
  {
    if n > 0 {
      SpacesUnique(s[1..], n - 1);
    }
  }

  /** A line that is complete is read the same whatever follows it. */
  lemma AfterNameLocal(key: bytes, before: nat, b: bytes, x: bytes)
    requires AfterName(key, before, b).Got?
    ensures before < AfterName(key, before, b).used <= before + |b|
    ensures var n := AfterName(key, before, b).used - before;
            AfterName(key, before, b[..n] + x) == AfterName(key, before, b)
  {
    hide TrimEnd;
    var sp := Spaces(b);
    var e := IndexByte(b[sp..], LF);
    var n := sp + e + 1;
    var c := b[..n] + x;
    assert b[sp + e] == LF;
    SpacesUnique(c, sp);
    IndexByteUnique(c[sp..], LF, e);
    assert c[sp..][..e] == b[sp..][..e];
  }

  lemma NextLocal(b: bytes, x: bytes, disabled: bool)
    requires Next(b, disabled).Got?
    ensures Next(b, disabled).used <= |b|
    ensures Next(b[..Next(b, disabled).used] + x, disabled) == Next(b, disabled)
    ensures NameEnd(b[..Next(b, disabled).used] + x) == NameEnd(b)
  {
    NextUses(b, disabled);
    hide AfterName;
    var n, used := IndexByte(b, COLON), Next(b, disabled).used;
    var key, c := NormalName(b[..n], disabled), b[..used] + x;
    AfterNameLocal(key, n + 1, b[n + 1..], x);
    IndexByteUnique(c, COLON, n);
    assert c[..n] == b[..n];
    assert c[n + 1..] == b[n + 1..][..used - (n + 1)] + x;
  }

  /** The first n bytes of a rewritten line depend on the first n bytes only. */
  lemma RewriteLocal(b: bytes, x: bytes, n: nat, disabled: bool)
    requires NameEnd(b) < n <= |b| && NameEnd(b[..n] + x) == NameEnd(b)
    ensures Rewrite(b[..n] + x, disabled)[..n] == Rewrite(b, disabled)[..n]
    ensures Rewrite(b, disabled)[n..] == b[n..]
  {
    hide NormalName, NameEnd;
    var e := NameEnd(b);
    if e >= 0 {
      assert (b[..n] + x)[..e] == b[..e];
    }
  }

  lemma NextByName(b: bytes, disabled: bool)
    requires NameEnd(b) >= 0
    ensures var n := NameEnd(b);
            Next(b, disabled) == AfterName(NormalName(b[..n], disabled), n + 1, b[n + 1..])
  {
  }

  lemma NameEndUnique(b: bytes, n: int)
    requires 0 <= n < |b| && b[n] == COLON && !IsEnd(b) && forall i :: 0 <= i < n ==> b[i] != COLON
    ensures NameEnd(b) == n
  {
    IndexByteUnique(b, COLON, n);
  }

  /** Changing the case of letters in a name moves nothing. */
  lemma NameEndStable(b: bytes, x: bytes, disabled: bool)
    requires NameEnd(b) >= 0
    ensures NameEnd(Rewrite(b, disabled) + x) == NameEnd(b + x) == NameEnd(b)
  {
    hide NormalName;
    var n := NameEnd(b);
    var key := NormalName(b[..n], disabled);
    var c, d := Rewrite(b, disabled) + x, b + x;
    NameLaws(b[..n], disabled);
    assert forall i :: 0 <= i < n ==> b[..n][i] == b[i] && c[i] == key[i];
    NameEndUnique(d, n);
    NameEndUnique(c, n);
  }

  /** Scanning a rewritten line again finds the same name, and rewriting it again changes nothing. */
  lemma RewriteStable(b: bytes, x: bytes, disabled: bool)
    requires NameEnd(b) >= 0
    ensures NameEnd(Rewrite(b, disabled) + x) == NameEnd(b + x) == NameEnd(b)
    ensures Next(Rewrite(b, disabled) + x, disabled) == Next(b + x, disabled)
    ensures Rewrite(Rewrite(b, disabled) + x, disabled) == Rewrite(b + x, disabled)
  {
    hide NormalName, AfterName, NameEnd, Next;
    var n := NameEnd(b);
    var key := NormalName(b[..n], disabled);
    var c, d := Rewrite(b, disabled) + x, b + x;
    NameEndStable(b, x, disabled);
    NextByName(c, disabled);
    NextByName(d, disabled);
    NameLaws(b[..n], disabled);
    assert c[..n] == key && d[..n] == b[..n];
    assert c[n..] == d[n..];
    assert c[n + 1..] == c[n..][1..] && d[n + 1..] == d[n..][1..];
  }

  /**
    Retry safety: a scan of p that runs out of data has already rewritten names in the buffer; scanning what
    it left, followed by the data that arrived since, gives exactly what scanning p and that data from
    scratch gives: fields, length, outcome and buffer.
   */
  lemma {:induction false} RetryScan(p: bytes, s: bytes, disabled: bool)
    requires !ScanAll(p, disabled).done
    ensures ScanAll(ScanAll(p, disabled).buf + s, disabled) == ScanAll(p + s, disabled)
    decreases |p|
  {
    NextUses(p, disabled);
    if Next(p, disabled).Short? {
      RetryShort(p, s, disabled);
    } else {
      var n := Next(p, disabled).used;
      RetryScan(p[n..], s, disabled);
      RetryField(p, ScanAll(p[n..], disabled).buf, s, disabled);
    }
  }

  lemma ScanShort(b: bytes, disabled: bool)
    requires Next(b, disabled).Short?
    ensures ScanAll(b, disabled) == Scan([], 0, false, Rewrite(b, disabled))
  {
  }

  lemma NoNameNoRewrite(b: bytes, disabled: bool)
    requires NameEnd(b) < 0
    ensures Rewrite(b, disabled) == b
  {
  }

  lemma RetryShort(p: bytes, s: bytes, disabled: bool)
    requires Next(p, disabled).Short?
    ensures ScanAll(Rewrite(p, disabled) + s, disabled) == ScanAll(p + s, disabled)
  {
    hide Next, Rewrite, NameEnd, ScanAll;
    var c, d := Rewrite(p, disabled) + s, p + s;
    if NameEnd(p) < 0 {
      NoNameNoRewrite(p, disabled);
    } else {
      RewriteStable(p, s, disabled);
      NextUses(d, disabled);
      NotEnd(p, s, disabled);
      if Next(d, disabled).Got? {
        ScanGot(c, disabled);
        ScanGot(d, disabled);
        RewriteTail(p, Next(d, disabled).used, s, disabled);
      } else {
        ScanShort(c, disabled);
        ScanShort(d, disabled);
      }
    }
  }

  lemma RewriteTail(p: bytes, n: nat, s: bytes, disabled: bool)
    requires NameEnd(p) < n <= |p| + |s|
    ensures (Rewrite(p, disabled) + s)[n..] == (p + s)[n..]
  {
    hide NormalName, NameEnd;
    var e := NameEnd(p);
    if e >= 0 {
      assert Rewrite(p, disabled)[e..] == p[e..];
      assert (Rewrite(p, disabled) + s)[e..] == (p + s)[e..];
      assert (Rewrite(p, disabled) + s)[n..] == (Rewrite(p, disabled) + s)[e..][n - e..];
      assert (p + s)[n..] == (p + s)[e..][n - e..];
    }
  }

  lemma NotEnd(p: bytes, s: bytes, disabled: bool)
    requires NameEnd(p) >= 0
    ensures !Next(p + s, disabled).End?
  {
    hide AfterName;
  }

  /** The scan of a buffer that starts with a complete field. */
  lemma ScanGot(b: bytes, disabled: bool)
    requires Next(b, disabled).Got?
    ensures Next(b, disabled).used <= |b|
    ensures var n := Next(b, disabled).used;
            var rest := ScanAll(b[n..], disabled);
            ScanAll(b, disabled) == Scan([Next(b, disabled).field] + rest.fields, n + rest.used, rest.done,
                                         Rewrite(b, disabled)[..n] + rest.buf)
  {
    NextUses(b, disabled);
    hide Next, Rewrite;
  }

  /** Both scans take the same first field off and go on with equal remainders. */
  lemma RetryField(p: bytes, tail: bytes, s: bytes, disabled: bool)
    requires Next(p, disabled).Got? && Next(p, disabled).used <= |p|
    requires ScanAll(tail + s, disabled) == ScanAll(p[Next(p, disabled).used..] + s, disabled)
    ensures var n := Next(p, disabled).used;
            ScanAll(Rewrite(p, disabled)[..n] + tail + s, disabled) == ScanAll(p + s, disabled)
  {
    NextUses(p, disabled);
    hide Next, Rewrite, NameEnd, ScanAll;
    var n := Next(p, disabled).used;
    var q := Rewrite(p, disabled);
    RewriteStable(p, [], disabled);
    assert q + [] == q && p + [] == p;
    NextLocal(p, p[n..] + s, disabled);
    NextLocal(q, tail + s, disabled);
    RewriteLocal(p, p[n..] + s, n, disabled);
    RewriteLocal(q, tail + s, n, disabled);
    var c, d := q[..n] + (tail + s), p[..n] + (p[n..] + s);
    ScanGot(c, disabled);
    ScanGot(d, disabled);
    assert c[n..] == tail + s && d[n..] == p[n..] + s;
    ConcatAssoc(q[..n], tail, s);
    ConcatAssoc(p[..n], p[n..], s);
    assert p[..n] + p[n..] == p;
  }

  // ---------------------------------------------------------------- printing

  function PrintField(f: Field): bytes {
    f.key + ([COLON, SPACE] + (f.value + CRLF))
  }

  function PrintFields(fs: seq<Field>): bytes {
    if fs == [] then [] else PrintField(fs[0]) + PrintFields(fs[1..])
  }

  /** A field that printing preserves: a normalised name and a value without line feeds or outer spaces. */
  predicate Printable(f: Field, disabled: bool) {
    && NormalName(f.key, disabled) == f.key
    && Lacks(f.key, COLON) && Lacks(f.key, CR) && Lacks(f.key, LF)
    && Lacks(f.value, LF)
    && (f.value != [] ==> f.value[0] != SPACE && f.value[|f.value| - 1] != SPACE)
  }

  /** appendHeaderLine */
  method AppendHeaderLine(dst: bytes, f: Field) returns (r: bytes)
    ensures r == dst + PrintField(f) && PrintField(f) == f.key + ([COLON, SPACE] + (f.value + [CR, LF]))
  {
    r := dst + f.key;
    r := r + [COLON, SPACE];
    r := r + f.value;
    r := r + CRLF;
  }

  lemma TrimPrinted(value: bytes)
    requires value != [] ==> value[|value| - 1] != SPACE
    ensures TrimEnd(value + [CR]) == value
  {
    assert (value + [CR])[..|value|] == value;
  }

  /** The bytes of a printed field followed by anything. */
  lemma PrintedParts(f: Field, rest: bytes)
    ensures var b, n := PrintField(f) + rest, |f.key|;
            && |PrintField(f)| == n + |f.value| + 4
            && b[..n] == f.key && b[n] == COLON && (forall i :: 0 <= i < n ==> b[i] == f.key[i])
            && b[n + 1..] == [SPACE] + (f.value + CRLF + rest)
  {
    var p := [COLON, SPACE] + (f.value + CRLF);
    var b := PrintField(f) + rest;
    ConcatAssoc(f.key, p, rest);
    assert b == f.key + (p + rest);
    assert b[|f.key| + 1..] == (p + rest)[1..];
  }

  /** A printed field is scanned back as itself, whatever follows. */
  lemma NextPrinted(f: Field, rest: bytes, disabled: bool)
    requires Printable(f, disabled)
    ensures Next(PrintField(f) + rest, disabled) == Got(f, |PrintField(f)|)
    ensures Rewrite(PrintField(f) + rest, disabled) == PrintField(f) + rest
  {
    hide NormalName, PrintField, AfterName, Next, NameEnd;
    var b, n := PrintField(f) + rest, |f.key|;
    PrintedParts(f, rest);
    NameEndUnique(b, n);
    NextByName(b, disabled);
    AfterPrintedName(f, n + 1, b[n + 1..], rest);
    assert b[..n] + b[n..] == b;
  }

  lemma AfterPrintedName(f: Field, before: nat, tail: bytes, rest: bytes)
    requires tail == [SPACE] + (f.value + CRLF + rest)
    requires Lacks(f.value, LF) && (f.value != [] ==> f.value[0] != SPACE && f.value[|f.value| - 1] != SPACE)
    ensures AfterName(f.key, before, tail) == Got(f, before + |f.value| + 3)
  {
    var v := f.value;
    assert forall i :: 0 <= i < |v| ==> tail[i + 1] == v[i];
    assert tail[|v| + 1] == CR && tail[|v| + 2] == LF;
    SpacesUnique(tail, 1);
    var line := tail[1..];
    assert forall i :: 0 <= i <= |v| ==> line[i] == tail[i + 1];
    assert line[|v| + 1] == tail[|v| + 2];
    IndexByteUnique(line, LF, |v| + 1);
    assert line[..|v| + 1] == v + [CR];
    TrimPrinted(v);
  }

  /**
    The printer and the scanner are inverse: scanning the printed lines of any list of printable fields, the
    blank line and any further bytes yields exactly that list, stops after the blank line, and leaves the
    buffer as it was.
   */
  lemma {:induction false} ScanPrinted(fs: seq<Field>, rest: bytes, disabled: bool)
    requires forall i :: 0 <= i < |fs| ==> Printable(fs[i], disabled)
    ensures var head := PrintFields(fs) + CRLF;
            ScanAll(head + rest, disabled) == Scan(fs, |head|, true, head + rest)
  {
    hide Printable, PrintField, ScanAll;
    if fs == [] {
      ScanBlank(rest, disabled);
      assert PrintFields(fs) + CRLF == CRLF;
    } else {
      var tail, line := PrintFields(fs[1..]) + CRLF, PrintField(fs[0]);
      ScanPrinted(fs[1..], rest, disabled);
      ScanPrintedLine(fs[0], tail + rest, disabled);
      ConcatAssoc(line, PrintFields(fs[1..]), CRLF);
      ConcatAssoc(line, tail, rest);
    }
  }

  lemma ScanBlank(rest: bytes, disabled: bool)
    ensures ScanAll(CRLF + rest, disabled) == Scan([], 2, true, CRLF + rest)
  {
  }

  lemma ScanPrintedLine(f: Field, rest: bytes, disabled: bool)
    requires Printable(f, disabled)
    ensures var r := ScanAll(rest, disabled);
            ScanAll(PrintField(f) + rest, disabled)
            == Scan([f] + r.fields, |PrintField(f)| + r.used, r.done, PrintField(f) + r.buf)
  {
    hide Printable, PrintField, ScanAll, Next, Rewrite;
    var line := PrintField(f);
    NextPrinted(f, rest, disabled);
    ScanGot(line + rest, disabled);
    assert (line + rest)[|line|..] == rest && (line + rest)[..|line|] == line;
  }
}
