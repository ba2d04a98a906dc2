/**
  The request parser as it runs: names are normalised inside the receive buffer, and a parse that runs out of
  data leaves the buffer for the next attempt.
 */
module HttpParser {
  import opened Bytes
  import opened HttpHeaders
  import opened HttpHead
  import opened HttpHost
  import IO = IoBuffer

  /** One step of the walk: what the next byte becomes and how the walk goes on. */
  lemma NormStep(t: bytes, s: bytes, j: nat, up: bool)
    requires j < |s| == |t| && t[j..] == Norm(s[j..], up)
    ensures t[j] == if up then ToUpper(s[j]) else if s[j] == DASH then DASH else ToLower(s[j])
    ensures t[j + 1..] == Norm(s[j + 1..], !up && s[j] == DASH)
  {
    assert s[j..][1..] == s[j + 1..];
    assert t[j] == t[j..][0] && t[j + 1..] == t[j..][1..];
  }

  /** A buffer with the bytes from lo on overwritten by x. */
  function Splice(s: bytes, lo: nat, x: bytes): (r: bytes)
    requires lo + |x| <= |s|
    ensures |r| == |s|
  {
    s[..lo] + x + s[lo + |x|..]
  }

  lemma SpliceStep(s: bytes, lo: nat, t: bytes, j: nat)
    requires lo + |t| <= |s| && j < |t|
    ensures Splice(s, lo, t[..j])[lo + j] == s[lo + j]
    ensures Splice(s, lo, t[..j])[lo + j := t[j]] == Splice(s, lo, t[..j + 1])
  {
  }

  lemma SpliceEnds(s: bytes, lo: nat, t: bytes)
    requires lo + |t| <= |s|
    ensures Splice(s, lo, []) == s && Splice(s, lo, t[..|t|]) == Splice(s, lo, t)
    ensures Splice(s, lo, s[lo..lo + |t|]) == s
  {
    assert t[..|t|] == t;
    assert s[..lo] + s[lo..lo + |t|] == s[..lo + |t|];
  }

  /** Overwriting a window with a new beginning and its own end is overwriting the beginning. */
  lemma SpliceExtend(s: bytes, lo: nat, x: bytes, hi: nat)
    requires lo + |x| <= hi <= |s|
    ensures Splice(s, lo, x + s[lo..hi][|x|..]) == Splice(s, lo, x)
  {
  }

  lemma SpliceParts(s: bytes, lo: nat, x: bytes)
    requires lo + |x| <= |s|
    ensures var r := Splice(s, lo, x);
            r[..lo] == s[..lo] && r[lo..lo + |x|] == x && r[lo + |x|..] == s[lo + |x|..]
  {
  }

  /** The bytes not reached yet are the old ones; one that need not change is done without writing. */
  lemma Untouched(a: array<byte>, was: bytes, lo: nat, t: bytes, i: nat)
    requires lo <= i < lo + |t| <= |was| == a.Length && a[..] == Splice(was, lo, t[..i - lo])
    ensures a[i] == was[i]
    ensures t[i - lo] == was[i] ==> a[..] == Splice(was, lo, t[..i - lo + 1])
  {
    hide Splice;
    SpliceStep(was, lo, t, i - lo);
    assert a[i] == a[..][i];
    assert a[..][i := a[i]] == a[..];
  }

  method Put(a: array<byte>, i: nat, v: byte, ghost was: bytes, ghost lo: nat, ghost t: bytes)
    requires lo <= i < lo + |t| <= |was| == a.Length && a[..] == Splice(was, lo, t[..i - lo]) && v == t[i - lo]
    modifies a
    ensures a[..] == Splice(was, lo, t[..i - lo + 1])
  {
    hide Splice;
    SpliceStep(was, lo, t, i - lo);
    ghost var before := a[..];
    a[i] := v;
    assert a[..] == before[i := v];
  }

  /** The first letter of a word. */
  method PutUpper(a: array<byte>, i: nat, ghost was: bytes, ghost lo: nat, ghost s: bytes, ghost t: bytes)
    requires lo <= i < lo + |t| <= |was| == a.Length && a[..] == Splice(was, lo, t[..i - lo])
    requires |s| == |t| && s == was[lo..lo + |t|] && t[i - lo..] == Norm(s[i - lo..], true)
    modifies a
    ensures a[..] == Splice(was, lo, t[..i - lo + 1]) && t[i - lo + 1..] == Norm(s[i - lo + 1..], false)
  {
    hide Norm, Splice, ToUpper, ToLower;
    NormStep(t, s, i - lo, true);
    Untouched(a, was, lo, t, i);
    Put(a, i, ToUpper(a[i]), was, lo, t);
  }

  /** normalizeHeaderKey on a[lo..hi]. */
  method NormalizeHeaderKey(a: array<byte>, lo: nat, hi: nat, disabled: bool)
    requires lo <= hi <= a.Length
    modifies a
    ensures a[..] == Splice(old(a[..]), lo, NormalName(old(a[lo..hi]), disabled))
  {
    ghost var was, s := a[..], a[lo..hi];
    assert s == was[lo..hi];
    SpliceEnds(was, lo, s);
    if !disabled && lo < hi {
      NormalizeBytes(a, lo, hi);
    }
  }

  method NormalizeBytes(a: array<byte>, lo: nat, hi: nat)
    requires lo < hi <= a.Length
    modifies a
    ensures a[..] == Splice(old(a[..]), lo, Norm(old(a[..])[lo..hi], true))
  {
    hide Norm, Splice, ToUpper, ToLower;
    ghost var was := a[..];
    ghost var s := was[lo..hi];
    ghost var t := Norm(s, true);
    SpliceEnds(was, lo, t);
    assert t[0..] == t && s[0..] == s && t[..0] == [];
    PutUpper(a, lo, was, lo, s, t);
    var i := lo + 1;
    while i < hi
      invariant lo < i <= hi
      invariant a[..] == Splice(was, lo, t[..i - lo])
      invariant t[i - lo..] == Norm(s[i - lo..], false)
    {
      NormStep(t, s, i - lo, false);
      Untouched(a, was, lo, t, i);
      if a[i] == DASH {
        i := i + 1;
        if i < hi {
          PutUpper(a, i, was, lo, s, t);
          i := i + 1;
        } else {
          EmptyNorm(s, true);
        }
      } else {
        Put(a, i, ToLower(a[i]), was, lo, t);
        i := i + 1;
      }
    }
  }

  lemma EmptyNorm(s: bytes, up: bool)
    ensures Norm(s[|s|..], up) == Norm(s[|s|..], false) == []
  {
  }

  lemma NextCases(b: bytes, disabled: bool)
    ensures NameEnd(b) == if IsEnd(b) then -1 else IndexByte(b, COLON)
    ensures IsEnd(b) ==> HttpHeaders.Next(b, disabled) == End(if b[0] == CR then 2 else 1)
    ensures !IsEnd(b) && NameEnd(b) < 0 ==> HttpHeaders.Next(b, disabled) == Short
  {
  }

  /** Normalises the name at the front of a window and returns it. */
  method NormalizeName(buf: array<byte>, lo: nat, n: nat, hi: nat, disabled: bool) returns (key: bytes)
    requires lo + n < hi <= buf.Length && NameEnd(buf[lo..hi]) == n
    modifies buf
    ensures key == NormalName(old(buf[lo..hi])[..n], disabled)
    ensures buf[..] == Splice(old(buf[..]), lo, Rewrite(old(buf[lo..hi]), disabled))
  {
    hide NormalName, Splice, NameEnd;
    ghost var was, b := buf[..], buf[lo..hi];
    assert b == was[lo..hi] && b[..n] == buf[lo..lo + n];
    NormalizeHeaderKey(buf, lo, lo + n, disabled);
    key := buf[lo..lo + n];
    SpliceParts(was, lo, NormalName(b[..n], disabled));
    assert key == buf[..][lo..lo + n];
    SpliceExtend(was, lo, key, hi);
  }

  /** headerScanner over the window buf[lo..hi]; lo moves. */
  class HeaderScanner {
    const buf: array<byte>
    const hi: nat
    const disabled: bool
    var lo: nat
    var field: Field
    var needMore: bool

    predicate Valid()
      reads this
    {
      lo <= hi <= buf.Length
    }

    function Window(): bytes
      requires Valid()
      reads this, buf
    {
      buf[lo..hi]
    }

    constructor (buf: array<byte>, lo: nat, hi: nat, disabled: bool)
      requires lo <= hi <= buf.Length
      ensures Valid() && this.buf == buf && this.hi == hi && this.lo == lo && this.disabled == disabled && !needMore
    {
      this.buf, this.hi, this.disabled, this.lo := buf, hi, disabled, lo;
      field, needMore := Field([], []), false;
    }

    method Next() returns (more: bool)
      requires Valid() && !needMore
      modifies this, buf
      ensures Valid() && old(lo) <= lo
      ensures buf[..] == Splice(old(buf[..]), old(lo), Rewrite(old(Window()), disabled))
      ensures match HttpHeaders.Next(old(Window()), disabled)
              case End(n) => !more && !needMore && lo == old(lo) + n
              case Short => !more && needMore
              case Got(f, n) => more && !needMore && field == f && lo == old(lo) + n
    {
      var step := ScanStep(buf, lo, hi, disabled);
      match step
      case End(n) =>
        lo := lo + n;
        return false;
      case Short =>
        needMore := true;
        return false;
      case Got(f, n) =>
        field := f;
        lo := lo + n;
        return true;
    }
  }

  /** The body of next over the window buf[lo..hi]. */
  method ScanStep(buf: array<byte>, lo: nat, hi: nat, disabled: bool) returns (step: Step)
    requires lo <= hi <= buf.Length
    modifies buf
    ensures step == HttpHeaders.Next(old(buf[lo..hi]), disabled)
    ensures !step.Short? ==> lo + step.used <= hi
    ensures buf[..] == Splice(old(buf[..]), lo, Rewrite(old(buf[lo..hi]), disabled))
  {
    hide NormalName, AfterName, Splice, Rewrite, HttpHeaders.Next, NameEnd, IndexByte;
    var b := buf[lo..hi];
    ghost var was := buf[..];
    assert b == was[lo..hi];
    SpliceEnds(was, lo, b);
    NextCases(b, disabled);
    if NameEnd(b) < 0 {
      NoNameNoRewrite(b, disabled);
    }
    if |b| >= 2 && b[0] == CR && b[1] == LF {
      return End(2);
    }
    if |b| >= 1 && b[0] == LF {
      return End(1);
    }
    var n := IndexByte(b, COLON);
    if n < 0 {
      return Short;
    }
    NextByName(b, disabled);
    var key := NormalizeName(buf, lo, n, hi, disabled);
    var ok, f, used := AfterColon(key, n + 1, b[n + 1..]);
    return if ok then Got(f, used) else Short;
  }

  /** The rest of a header line: skip spaces, find the line feed, trim. */
  method AfterColon(key: bytes, before: nat, rest: bytes) returns (ok: bool, f: Field, used: nat)
    ensures ok ==> AfterName(key, before, rest) == Got(f, used) && before < used <= before + |rest|
    ensures !ok ==> AfterName(key, before, rest).Short?
  {
    hide TrimEnd;
    f, used := Field(key, []), before;
    var sp := 0;
    while |rest| > sp && rest[sp] == SPACE
      invariant 0 <= sp <= |rest| && forall i :: 0 <= i < sp ==> rest[i] == SPACE
    {
      sp := sp + 1;
    }
    SpacesUnique(rest, sp);
    var line := rest[sp..];
    var n := IndexByte(line, LF);
    if n < 0 {
      return false, f, used;
    }
    var value := TrimValue(line[..n]);
    return true, Field(key, value), before + sp + n + 1;
  }

  /** The end of a value: one carriage return, then spaces. */
  method TrimValue(line: bytes) returns (value: bytes)
    ensures value == TrimEnd(line)
  {
    var n := |line|;
    if n > 0 && line[n - 1] == CR {
      n := n - 1;
    }
    assert line[..|line|] == line;
    while n > 0 && line[n - 1] == SPACE
      invariant 0 <= n <= |line|
      invariant DropSpaces(line[..n]) == TrimEnd(line)
    {
      assert line[..n][..n - 1] == line[..n - 1];
      n := n - 1;
    }
    value := line[..n];
  }

  // ---------------------------------------------------------------- the header block

  /** A scan under way: `fields` are found, `d` is the part of the window done, `w` the part to come. */
  ghost predicate Scanned(whole: Scan, fields: seq<Field>, d: bytes, w: bytes, disabled: bool) {
    var rest := ScanAll(w, disabled);
    whole == Scan(fields + rest.fields, |d| + rest.used, rest.done, d + rest.buf)
  }

  lemma ScannedNone(w: bytes, disabled: bool)
    ensures Scanned(ScanAll(w, disabled), [], [], w, disabled)
  {
    hide ScanAll;
    var whole := ScanAll(w, disabled);
    assert [] + whole.fields == whole.fields && [] + whole.buf == whole.buf;
  }

  lemma ScannedGot(whole: Scan, fields: seq<Field>, d: bytes, w: bytes, disabled: bool)
    requires Scanned(whole, fields, d, w, disabled) && HttpHeaders.Next(w, disabled).Got?
    ensures var r := HttpHeaders.Next(w, disabled);
            && r.used <= |w| && Rewrite(w, disabled)[r.used..] == w[r.used..]
            && Scanned(whole, fields + [r.field], d + Rewrite(w, disabled)[..r.used], w[r.used..], disabled)
  {
    hide ScanAll, HttpHeaders.Next, Rewrite;
    ScanGot(w, disabled);
    RewrittenTail(w, disabled);
    var r := HttpHeaders.Next(w, disabled);
    ScanRegroup(fields, [r.field], d, Rewrite(w, disabled)[..r.used], ScanAll(w[r.used..], disabled));
  }

  /** What a step does not consume, it does not rewrite. */
  lemma RewrittenTail(w: bytes, disabled: bool)
    requires HttpHeaders.Next(w, disabled).Got?
    ensures var n := HttpHeaders.Next(w, disabled).used;
            n <= |w| && Rewrite(w, disabled)[n..] == w[n..]
  {
    NextUses(w, disabled);
    hide HttpHeaders.Next, NameEnd, Rewrite;
    var n := HttpHeaders.Next(w, disabled).used;
    assert w[..n] + w[n..] == w;
    RewriteLocal(w, w[n..], n, disabled);
  }

  lemma ScanRegroup(fields: seq<Field>, f: seq<Field>, d: bytes, x: bytes, rest: Scan)
    ensures fields + (f + rest.fields) == fields + f + rest.fields
    ensures d + (x + rest.buf) == d + x + rest.buf && |d| + (|x| + rest.used) == |d + x| + rest.used
  {
    ConcatAssoc(fields, f, rest.fields);
    ConcatAssoc(d, x, rest.buf);
  }

  lemma ScannedLast(whole: Scan, fields: seq<Field>, d: bytes, w: bytes, disabled: bool)
    requires Scanned(whole, fields, d, w, disabled) && !HttpHeaders.Next(w, disabled).Got?
    ensures whole == match HttpHeaders.Next(w, disabled)
                     case End(n) => Scan(fields, |d| + n, true, d + Rewrite(w, disabled))
                     case _ => Scan(fields, |d|, false, d + Rewrite(w, disabled))
  {
    assert fields + [] == fields;
    if HttpHeaders.Next(w, disabled).End? {
      NoNameNoRewrite(w, disabled);
    }
  }

  lemma SpliceTwice(s: bytes, lo: nat, d: bytes, w: bytes, x: bytes)
    requires lo + |d| + |w| <= |s| && |x| == |w|
    ensures Splice(Splice(s, lo, d + w), lo + |d|, x) == Splice(s, lo, d + x)
  {
  }

  lemma WindowOf(s: bytes, lo: nat, d: bytes, w: bytes)
    requires lo + |d| + |w| <= |s|
    ensures Splice(s, lo, d + w)[lo + |d|..lo + |d| + |w|] == w
  {
  }

  lemma LastHostSnoc(fs: seq<Field>, f: Field)
    ensures LastHost(fs + [f]) == if f.key == HOST then f.value else LastHost(fs)
  {
    assert (fs + [f])[..|fs|] == fs;
  }

  /** parseHeaders over buf[lo..hi]; of the fields it sorts out, the host is kept. */
  method ParseHeaders(buf: array<byte>, lo: nat, hi: nat, disabled: bool)
    returns (ok: bool, used: nat, fields: seq<Field>, host: bytes)
    requires lo <= hi <= buf.Length
    modifies buf
    ensures var s := ScanAll(old(buf[lo..hi]), disabled);
            && ok == s.done && fields == s.fields && host == LastHost(fields)
            && (ok ==> used == s.used)
            && buf[..] == Splice(old(buf[..]), lo, s.buf)
  {
    hide ScanAll, HttpHeaders.Next, Rewrite, Splice, LastHost, Scanned;
    ghost var was, w, d: bytes := buf[..], buf[lo..hi], [];
    ghost var whole := ScanAll(w, disabled);
    ScannedNone(w, disabled);
    var s := new HeaderScanner(buf, lo, hi, disabled);
    fields, host := [], [];
    NoHost();
    assert w == was[lo..hi] && [] + w == w;
    SpliceEnds(was, lo, w);
    while true
      invariant s.Valid() && !s.needMore && s.buf == buf && s.hi == hi && s.disabled == disabled && fresh(s)
      invariant s.lo == lo + |d| && lo + |d| + |w| == hi
      invariant buf[..] == Splice(was, lo, d + w)
      invariant Scanned(whole, fields, d, w, disabled)
      invariant host == LastHost(fields)
      decreases |w|
    {
      WindowOf(was, lo, d, w);
      assert s.Window() == buf[..][s.lo..hi] == w;
      ghost var x := Rewrite(w, disabled);
      var more := s.Next();
      SpliceTwice(was, lo, d, w, x);
      if !more {
        ScannedLast(whole, fields, d, w, disabled);
        used := s.lo - lo;
        return !s.needMore, used, fields, host;
      }
      ScannedGot(whole, fields, d, w, disabled);
      LastHostSnoc(fields, s.field);
      if s.field.key == HOST {
        host := s.field.value;
      }
      fields := fields + [s.field];
      ghost var n := HttpHeaders.Next(w, disabled).used;
      assert 0 < n <= |w| by { NextUses(w, disabled); }
      assert d + x == d + x[..n] + w[n..] by {
        assert x == x[..n] + x[n..];
        ConcatAssoc(d, x[..n], x[n..]);
      }
      d, w := d + x[..n], w[n..];
    }
  }

  lemma NoHost()
    ensures LastHost([]) == []
  {
  }

  /** readRawHeaders: one search for a line feed per line. */
  method ReadRawHeaders(buf: bytes) returns (ok: bool, raw: bytes, n: nat)
    ensures ok <==> RawLength(buf) >= 0
    ensures ok ==> n == RawLength(buf) && raw == RawBlock(buf)
  {
    hide IndexByte, RawLength, Blank;
    raw, n := [], 0;
    var i := IndexByte(buf, LF);
    if i < 0 {
      NoLineNoBlock(buf);
      return false, raw, n;
    }
    OneMoreLine(buf);
    BlankTest(buf, i);
    if (i == 1 && buf[0] == CR) || i == 0 {
      return true, raw, i + 1;
    }
    n := i + 1;
    while true
      invariant n <= |buf|
      invariant RawLength(buf) == if RawLength(buf[n..]) < 0 then -1 else n + RawLength(buf[n..])
      decreases |buf| - n
    {
      var b := buf[n..];
      var m := IndexByte(b, LF);
      if m < 0 {
        NoLineNoBlock(b);
        return false, raw, n;
      }
      OneMoreLine(b);
      BlankTest(b, m);
      m := m + 1;
      n := n + m;
      assert buf[n..] == b[m..];
      if (m == 2 && b[0] == CR) || m == 1 {
        return true, buf[..n], n;
      }
    }
  }

  lemma BlankTest(b: bytes, i: nat)
    requires i < |b|
    ensures Blank(b[..i]) <==> (i == 1 && b[0] == CR) || i == 0
  {
  }

  lemma OneMoreLine(b: bytes)
    requires IndexByte(b, LF) >= 0
    ensures var n := IndexByte(b, LF);
            RawLength(b) == if Blank(b[..n]) then n + 1
                            else if RawLength(b[n + 1..]) < 0 then -1 else n + 1 + RawLength(b[n + 1..])
  {
  }

  lemma NoLineNoBlock(b: bytes)
    requires IndexByte(b, LF) < 0
    ensures RawLength(b) == -1
  {
  }

  /** The loop of parseFirstLine over nextLine: skip empty lines. */
  method NextNonEmptyLine(buf: bytes) returns (ok: bool, line: bytes, used: nat)
    ensures FirstLineOf(buf) == if ok then First(used, line) else FirstShort
  {
    hide IndexByte, StripCR;
    line, used := [], 0;
    assert buf[0..] == buf;
    while true
      invariant used <= |buf|
      invariant FirstLineOf(buf) == Shifted(used, FirstLineOf(buf[used..]))
      decreases |buf| - used
    {
      var b := buf[used..];
      var n := IndexByte(b, LF);
      if n < 0 {
        return false, line, used;
      }
      line := StripCR(b[..n]);
      used := used + n + 1;
      assert b[n + 1..] == buf[used..];
      if line != [] {
        return true, line, used;
      }
    }
  }

  // ---------------------------------------------------------------- the request header object

  datatype Reply = EndOfFile | Needs | Bad | Complete(used: nat)

  class RequestHeader {
    const disabled: bool
    var verb: bytes
    var requestURI: bytes
    var noHTTP11: bool
    var fields: seq<Field>
    var host: bytes
    var rawHeaders: bytes
    var rawHeadersParsed: bool

    function State(): Head
      reads this
    {
      Head(Request(verb, requestURI, noHTTP11), fields, host, rawHeaders, rawHeadersParsed)
    }

    constructor (disableNormalizing: bool)
      ensures disabled == disableNormalizing
    {
      disabled := disableNormalizing;
      verb, requestURI, noHTTP11, fields, host, rawHeaders, rawHeadersParsed := [], [], false, [], [], [], false;
    }

    method ResetSkipNormalize()
      modifies this
      ensures State() == Head(Request([], [], false), [], [], [], false)
    {
      verb, requestURI, noHTTP11, fields, host, rawHeaders, rawHeadersParsed := [], [], false, [], [], [], false;
    }

    /** Sets the request line's parts; false where the line is malformed. */
    method SetRequestLine(line: bytes) returns (ok: bool)
      requires !noHTTP11
      modifies `verb, `requestURI, `noHTTP11
      ensures ok <==> ParseRequestLine(line).Some?
      ensures ok ==> ParseRequestLine(line) == Some(Request(verb, requestURI, noHTTP11))
    {
      hide IndexByte, LastIndexByte;
      var n := IndexByte(line, SPACE);
      if n <= 0 {
        return false;
      }
      verb := line[..n];
      var b := line[n + 1..];
      n := LastIndexByte(b, SPACE);
      if n < 0 {
        noHTTP11 := true;
        n := |b|;
      } else if n == 0 {
        return false;
      } else if b[n + 1..] != HTTP11 {
        noHTTP11 := true;
      }
      requestURI := b[..n];
      assert b[..|b|] == b;
      return true;
    }

    /** Parse of buf[lo..hi], after a reset. */
    method Parse(buf: array<byte>, lo: nat, hi: nat) returns (r: Reply)
      requires lo <= hi <= buf.Length
      requires State() == Head(Request([], [], false), [], [], [], false)
      modifies this, buf
      ensures var a := HttpHead.Parse(old(buf[lo..hi]), disabled);
              && buf[..] == Splice(old(buf[..]), lo, a.buf)
              && match a.result
                 case NeedMore => r == Needs
                 case Malformed => r == Bad
                 case Parsed(used, head) => r == Complete(used) && State() == head
    {
      hide FirstLineOf, ParseRequestLine, ScanAll, RawLength, RawBlock, Splice;
      ghost var was := buf[..];
      var b := buf[lo..hi];
      assert b == was[lo..hi];
      SpliceEnds(was, lo, b);
      var ok, line, m := NextNonEmptyLine(b);
      if !ok {
        return Needs;
      }
      ok := SetRequestLine(line);
      if !ok {
        return Bad;
      }
      var n;
      assert b[..m] + b[m..] == b;
      assert b[m..] == buf[lo + m..hi];
      if (verb != GET && verb != HEAD) || noHTTP11 {
        ok, n, fields, host := ParseHeaders(buf, lo + m, hi, disabled);
        SpliceTwice(was, lo, b[..m], b[m..], ScanAll(b[m..], disabled).buf);
        if !ok {
          return Needs;
        }
        rawHeadersParsed := true;
      } else {
        var raw;
        ok, raw, n := ReadRawHeaders(b[m..]);
        if !ok {
          return Needs;
        }
        rawHeaders := raw;
      }
      return Complete(m + n);
    }

    /** doParse with n = 1: one attempt on what the buffer holds; the head is drained only when complete. */
    method DoParse(r: IO.IoBuffer) returns (reply: Reply)
      requires r.Valid()
      modifies this, r, r.arr
      ensures r.Valid() && r.arr == old(r.arr)
      ensures old(r.Contents()) == [] ==> reply == EndOfFile && r.Contents() == []
      ensures old(r.Contents()) != [] ==>
                var a := HttpHead.Parse(old(r.Contents()), disabled);
                match a.result
                case NeedMore => reply == Needs && r.Contents() == a.buf
                case Malformed => reply == Bad && r.Contents() == a.buf
                case Parsed(used, head) =>
                  used <= |a.buf| && reply == Complete(used) && State() == head && r.Contents() == a.buf[used..]
    {
      hide HttpHead.Parse, Splice;
      ResetSkipNormalize();
      var ok, at := r.Peek(1);
      if !ok {
        return EndOfFile;
      }
      ghost var was := r.arr[..];
      ghost var b := r.Contents();
      ParseKeepsLength(b, disabled);
      ghost var a := HttpHead.Parse(b, disabled);
      assert b == r.arr[r.off..r.len] == was[r.off..r.len];
      reply := Parse(r.arr, r.off, r.len);
      SpliceParts(was, r.off, a.buf);
      assert r.Contents() == r.arr[..][r.off..r.len] == a.buf;
      if reply.Complete? {
        r.Drain(reply.used);
      }
    }

    /** Host: a value set earlier, the shortcut, or a full parse of the raw headers. */
    method Host() returns (h: bytes)
      modifies this
      ensures old(host) != [] ==> h == old(host) && unchanged(this)
      ensures old(host) == [] && old(rawHeadersParsed) ==> h == [] && unchanged(this)
      ensures old(host) == [] && !old(rawHeadersParsed) ==> h == host == HostOf(old(rawHeaders), disabled)
      ensures old(host) == [] && !old(rawHeadersParsed) ==>
                var p := PeekRaw(old(rawHeaders), HOST);
                if p.Found? && p.value != [] then !rawHeadersParsed && fields == old(fields)
                else rawHeadersParsed
                     && fields == if old(rawHeaders) == [] then old(fields) else ScanAll(old(rawHeaders), disabled).fields
    {
      hide PeekRaw, ScanAll;
      if |host| > 0 {
        return host;
      }
      if !rawHeadersParsed {
        var p := PeekRaw(rawHeaders, HOST);
        if p.Found? && |p.value| > 0 {
          host := p.value;
          return host;
        }
      }
      if !rawHeadersParsed {
        rawHeadersParsed := true;
        if |rawHeaders| > 0 {
          var buf := new byte[|rawHeaders|](i requires 0 <= i < |rawHeaders| reads this => rawHeaders[i]);
          assert buf[0..buf.Length] == rawHeaders;
          var ok, n, fs, hst := ParseHeaders(buf, 0, buf.Length, disabled);
          rawHeaders, fields, host := buf[..], fs, hst;
        }
      }
      return host;
    }
  }

  lemma ParseKeepsLength(b: bytes, disabled: bool)
    ensures |HttpHead.Parse(b, disabled).buf| == |b|
    ensures HttpHead.Parse(b, disabled).result.Parsed? ==> HttpHead.Parse(b, disabled).result.used <= |b|
  {
    hide FirstLineOf, ParseRequestLine, ScanAll, RawLength, RawBlock;
  }
}
