/** Percent coding: utils/bytesconv.go (AppendQuotedArg, AppendQuotedPath) and utils/args.go (the two decoders). */
module PercentCoding {
  import opened Bytes

  /** The two sets of bytes that stand for themselves. */
  datatype Alphabet = ArgAlphabet | PathAlphabet

  predicate Plain(a: Alphabet, c: byte) {
    || IsLower(c) || IsUpper(c) || IsDigit(c) || c == DASH || c == DOT || c == 95
    || match a
       case ArgAlphabet => c == 42
       case PathAlphabet => c == SLASH || c == 44 || c == EQUALS || c == COLON || c == AMPERSAND || c == 126
  }

  function HexCharUpper(c: byte): byte
    requires c < 16
  {
    if c < 10 then 48 + c else c - 10 + 65
  }

  /** hex2intTable: 16 marks a byte that is no hex digit. */
  function Hex2Int(c: byte): (x: byte)
    ensures x <= 16
  {
    if IsDigit(c) then c - 48
    else if 97 <= c <= 102 then c - 97 + 10
    else if 65 <= c <= 70 then c - 65 + 10
    else 16
  }

  function QuoteByte(a: Alphabet, c: byte): bytes {
    if Plain(a, c) then [c] else [PERCENT, HexCharUpper(c / 16), HexCharUpper(c % 16)]
  }

  function Quote(a: Alphabet, s: bytes): bytes {
    if s == [] then [] else QuoteByte(a, s[0]) + Quote(a, s[1..])
  }

  /** The decoders' slow path; `plus` says whether '+' stands for a space. */
  function Unquote(s: bytes, plus: bool): bytes {
    if s == [] then []
    else if s[0] == PERCENT then
      if |s| <= 2 then s else
      var x1, x2 := Hex2Int(s[1]), Hex2Int(s[2]);
      if x1 == 16 || x2 == 16 then [PERCENT] + Unquote(s[1..], plus)
      else [x1 * 16 + x2] + Unquote(s[3..], plus)
    else [if plus && s[0] == PLUS then SPACE else s[0]] + Unquote(s[1..], plus)
  }

  // ---------------------------------------------------------------- the loops

  /** AppendQuotedArg and AppendQuotedPath */
  method AppendQuoted(a: Alphabet, dst: bytes, src: bytes) returns (r: bytes)
    ensures r == dst + Quote(a, src)
  {
    r := dst;
    for i := 0 to |src|
      invariant r + Quote(a, src[i..]) == dst + Quote(a, src)
    {
      var c := src[i];
      assert src[i..][1..] == src[i + 1..];
      ghost var before := r;
      if Plain(a, c) {
        r := r + [c];
      } else {
        r := r + [PERCENT, HexCharUpper(c / 16), HexCharUpper(c % 16)];
      }
      ConcatAssoc(before, QuoteByte(a, c), Quote(a, src[i + 1..]));
    }
  }

  /** decodeArgAppend (with plus) and DecodeArgAppendNoPlus (without): a fast path, then the byte loop. */
  method DecodeArgAppend(dst: bytes, src: bytes, plus: bool) returns (r: bytes)
    ensures r == dst + Unquote(src, plus)
  {
    if IndexByte(src, PERCENT) < 0 && (!plus || IndexByte(src, PLUS) < 0) {
      UnquotePlain(src, plus);
      return dst + src;
    }
    r := dst;
    var i := 0;
    while i < |src|
      invariant 0 <= i <= |src|
      invariant r + Unquote(src[i..], plus) == dst + Unquote(src, plus)
    {
      var c := src[i];
      ghost var before, rest := r, src[i..];
      assert rest[1..] == src[i + 1..];
      if c == PERCENT {
        if i + 2 >= |src| {
          return r + src[i..];
        }
        assert rest[3..] == src[i + 3..];
        var x2, x1 := Hex2Int(src[i + 2]), Hex2Int(src[i + 1]);
        if x1 == 16 || x2 == 16 {
          r := r + [PERCENT];
        } else {
          r := r + [x1 * 16 + x2];
          i := i + 2;
        }
      } else if plus && c == PLUS {
        r := r + [SPACE];
      } else {
        r := r + [c];
      }
      i := i + 1;
      ConcatAssoc(before, [r[|before|]], Unquote(src[i..], plus));
    }
  }

  // ---------------------------------------------------------------- laws

  /** The fast path agrees with the slow path: without escapes decoding changes nothing. */
  lemma {:induction false} UnquotePlain(s: bytes, plus: bool)
    requires Lacks(s, PERCENT) && (plus ==> Lacks(s, PLUS))
    ensures Unquote(s, plus) == s
  {
    if s != [] {
      UnquotePlain(s[1..], plus);
    }
  }

  lemma HexRoundTrip(c: byte)
    ensures Hex2Int(HexCharUpper(c / 16)) == c / 16 && Hex2Int(HexCharUpper(c % 16)) == c % 16
    ensures c / 16 * 16 + c % 16 == c
  {
  }

  /** Decoding undoes quoting, for every byte string, either alphabet and either decoder. */
  lemma {:induction false} UnquoteQuote(a: Alphabet, s: bytes, plus: bool)
    ensures Unquote(Quote(a, s), plus) == s
  {
    if s != [] {
      var c, q := s[0], Quote(a, s);
      UnquoteQuote(a, s[1..], plus);
      HexRoundTrip(c);
      if Plain(a, c) {
        assert q[1..] == Quote(a, s[1..]);
      } else {
        assert q[3..] == Quote(a, s[1..]);
      }
      assert s == [c] + s[1..];
    }
  }

  /** Quoted text lacks every byte that is neither plain nor a percent sign. */
  lemma {:induction false} QuotedLacks(a: Alphabet, s: bytes, c: byte)
    requires !Plain(a, c) && c != PERCENT
    ensures Lacks(Quote(a, s), c)
  {
    if s != [] {
      QuotedLacks(a, s[1..], c);
    }
  }

  lemma QuotedFirst(a: Alphabet, s: bytes)
    ensures Quote(a, s) == [] <==> s == []
    ensures s != [] && Plain(a, s[0]) ==> Quote(a, s)[0] == s[0]
  {
  }

  // ---------------------------------------------------------------- what decoding means

  /** The digits of either case, by value. */
  const DIGITS_LOWER: bytes := [48, 49, 50, 51, 52, 53, 54, 55, 56, 57, 97, 98, 99, 100, 101, 102]
  const DIGITS_UPPER: bytes := [48, 49, 50, 51, 52, 53, 54, 55, 56, 57, 65, 66, 67, 68, 69, 70]

  /** The digit table: the value of each digit of either case, and 16 for everything else. */
  lemma HexTable(c: byte)
    ensures forall d :: 0 <= d < 16 ==> Hex2Int(DIGITS_LOWER[d]) == d && Hex2Int(DIGITS_UPPER[d]) == d
    ensures Hex2Int(c) < 16 ==> c == DIGITS_LOWER[Hex2Int(c)] || c == DIGITS_UPPER[Hex2Int(c)]
  {
  }

  function Digit(d: nat, upper: bool): byte
    requires d < 16
  {
    if upper then DIGITS_UPPER[d] else DIGITS_LOWER[d]
  }

  /** Text as it may be written: bytes that stand for themselves or for a space, and escapes in digits of either case. */
  datatype Token = Literal(c: byte) | Escape(hi: nat, lo: nat, upperHi: bool, upperLo: bool)

  predicate ValidToken(t: Token) {
    match t
    case Literal(c) => c != PERCENT
    case Escape(hi, lo, _, _) => hi < 16 && lo < 16
  }

  ghost predicate ValidTokens(ts: seq<Token>) {
    forall i :: 0 <= i < |ts| ==> ValidToken(ts[i])
  }

  function Written(ts: seq<Token>): bytes
    requires ValidTokens(ts)
  {
    if ts == [] then [] else
    (match ts[0]
     case Literal(c) => [c]
     case Escape(hi, lo, upperHi, upperLo) => [PERCENT, Digit(hi, upperHi), Digit(lo, upperLo)])
    + Written(ts[1..])
  }

  function Meant(ts: seq<Token>, plus: bool): bytes
    requires ValidTokens(ts)
  {
    if ts == [] then [] else
    [match ts[0]
     case Literal(c) => if plus && c == PLUS then SPACE else c
     case Escape(hi, lo, _, _) => hi * 16 + lo]
    + Meant(ts[1..], plus)
  }

  /** Decoding gives what the text means, escape by escape; only the argument decoder takes '+' for a space. */
  lemma {:induction false} UnquoteWritten(ts: seq<Token>, plus: bool)
    requires ValidTokens(ts)
    ensures Unquote(Written(ts), plus) == Meant(ts, plus)
  {
    hide Unquote, Digit;
    if ts == [] {
      UnquoteEmpty(plus);
    } else {
      UnquoteWritten(ts[1..], plus);
      match ts[0]
      case Literal(c) => UnquoteLiteral(c, Written(ts[1..]), plus);
      case Escape(hi, lo, upperHi, upperLo) => UnquoteEscape(hi, lo, upperHi, upperLo, Written(ts[1..]), plus);
    }
  }

  lemma UnquoteEmpty(plus: bool)
    ensures Unquote([], plus) == []
  {
  }

  lemma UnquoteLiteral(c: byte, rest: bytes, plus: bool)
    requires c != PERCENT
    ensures Unquote([c] + rest, plus) == [if plus && c == PLUS then SPACE else c] + Unquote(rest, plus)
  {
    assert ([c] + rest)[1..] == rest;
  }

  lemma UnquoteEscape(hi: nat, lo: nat, upperHi: bool, upperLo: bool, rest: bytes, plus: bool)
    requires hi < 16 && lo < 16
    ensures Unquote([PERCENT, Digit(hi, upperHi), Digit(lo, upperLo)] + rest, plus) == [hi * 16 + lo] + Unquote(rest, plus)
  {
    var a, b := Digit(hi, upperHi), Digit(lo, upperLo);
    assert Hex2Int(a) == hi && Hex2Int(b) == lo by { HexTable(0); }
    hide Digit, Hex2Int;
    assert ([PERCENT, a, b] + rest)[3..] == rest;
  }

  /** A percent sign that starts no escape stands for itself; with fewer than two bytes behind it all stay as they are. */
  lemma StrayPercent(rest: bytes, plus: bool)
    requires |rest| < 2 || Hex2Int(rest[0]) == 16 || Hex2Int(rest[1]) == 16
    ensures Unquote([PERCENT] + rest, plus) == if |rest| < 2 then [PERCENT] + rest else [PERCENT] + Unquote(rest, plus)
  {
    var s := [PERCENT] + rest;
    assert s[1..] == rest;
    if |rest| >= 2 {
      assert s[1] == rest[0] && s[2] == rest[1];
    }
  }

  /** The marks that need no escape besides letters and digits. */
  const ARG_MARKS: string := "*-._"
  const PATH_MARKS: string := "-._/,=:&~"

  predicate Safe(a: Alphabet, c: byte) {
    || 'a' <= c as char <= 'z' || 'A' <= c as char <= 'Z' || '0' <= c as char <= '9'
    || c as char in (if a == ArgAlphabet then ARG_MARKS else PATH_MARKS)
  }

  /** Quoting escapes no more than it must: a text stays as it is if and only if every byte of it is safe. */
  lemma {:induction false} QuoteExactly(a: Alphabet, s: bytes)
    ensures Quote(a, s) == s <==> forall i :: 0 <= i < |s| ==> Safe(a, s[i])
    ensures |Quote(a, s)| >= |s|
  {
    hide Safe, Plain;
    if s != [] {
      QuoteExactly(a, s[1..]);
      PlainIsSafe(a, s[0]);
      assert s == [s[0]] + s[1..];
      if Plain(a, s[0]) {
        assert Quote(a, s)[1..] == Quote(a, s[1..]);
      }
    }
  }

  lemma PlainIsSafe(a: Alphabet, c: byte)
    ensures Plain(a, c) <==> Safe(a, c)
  {
    assert forall x: char :: x in ARG_MARKS <==> x == '*' || x == '-' || x == '.' || x == '_';
    assert forall x: char :: x in PATH_MARKS <==>
      x == '-' || x == '.' || x == '_' || x == '/' || x == ',' || x == '=' || x == ':' || x == '&' || x == '~';
  }
}
