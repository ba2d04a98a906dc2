/** Query arguments: parsing and printing of utils/args.go. */
module QueryArgs {
  import opened Bytes
  import opened PercentCoding

  datatype ArgsKV = ArgsKV(key: bytes, value: bytes)

  const BLANK := ArgsKV([], [])

  // ---------------------------------------------------------------- specification

  /** The text before the first '&', and what follows it. */
  function Segment(b: bytes): bytes {
    var n := IndexByte(b, AMPERSAND);
    if n < 0 then b else b[..n]
  }

  function AfterSegment(b: bytes): (rest: bytes)
    ensures b != [] ==> |rest| < |b|
  {
    var n := IndexByte(b, AMPERSAND);
    if n < 0 then [] else b[n + 1..]
  }

  /** One segment: everything before the first '=' is the key. */
  function DecodePair(seg: bytes): ArgsKV {
    var n := IndexByte(seg, EQUALS);
    if n < 0 then ArgsKV(Unquote(seg, true), [])
    else ArgsKV(Unquote(seg[..n], true), Unquote(seg[n + 1..], true))
  }

  function ParseArgs(b: bytes): seq<ArgsKV>
    decreases |b|
  {
    if b == [] then [] else
    Keep(DecodePair(Segment(b)), ParseArgs(AfterSegment(b)))
  }

  /** A pair that is empty on both sides is dropped. */
  function Keep(kv: ArgsKV, rest: seq<ArgsKV>): seq<ArgsKV> {
    if kv == BLANK then rest else [kv] + rest
  }

  function EncodePair(kv: ArgsKV): bytes {
    Quote(ArgAlphabet, kv.key)
    + if kv.value == [] then [] else [EQUALS] + Quote(ArgAlphabet, kv.value)
  }

  function PrintArgs(args: seq<ArgsKV>): bytes
    decreases args, 0
  {
    if args == [] then [] else EncodePair(args[0]) + PrintTail(args[1..])
  }

  function PrintTail(args: seq<ArgsKV>): bytes
    decreases args, 1
  {
    if args == [] then [] else [AMPERSAND] + PrintArgs(args)
  }

  function WithoutBlanks(args: seq<ArgsKV>): seq<ArgsKV> {
    if args == [] then [] else Keep(args[0], WithoutBlanks(args[1..]))
  }

  // ---------------------------------------------------------------- the objects

  class ArgsScanner {
    var b: bytes

    constructor (src: bytes)
      ensures b == src
    {
      b := src;
    }

    /** Fills a slot that may still hold an earlier pair; both halves are overwritten. */
    method Next(stale: ArgsKV) returns (more: bool, kv: ArgsKV)
      modifies this
      ensures more <==> old(b) != []
      ensures more ==> kv == DecodePair(Segment(old(b))) && b == AfterSegment(old(b))
      ensures !more ==> kv == stale && b == old(b)
    {
      kv := stale;
      if |b| == 0 {
        return false, kv;
      }
      var n;
      n, kv := ScanPair(b, stale);
      b := if n < |b| then b[n + 1..] else b[|b|..];
      return true, kv;
    }
  }

  /** The scanner's loop: the pair that the text up to the first '&' decodes to, and where that stands. */
  method ScanPair(src: bytes, stale: ArgsKV) returns (n: nat, kv: ArgsKV)
    ensures n == if Lacks(src, AMPERSAND) then |src| else IndexByte(src, AMPERSAND)
    ensures kv == DecodePair(Segment(src))
  {
    hide Unquote, DecodePair, IndexByte;
    kv := stale;
    var isKey, k := true, 0;
    for i := 0 to |src|
      invariant 0 <= k <= i
      invariant forall j :: 0 <= j < i ==> src[j] != AMPERSAND
      invariant isKey ==> forall j :: 0 <= j < i ==> src[j] != EQUALS
      invariant !isKey ==> k > 0 && src[k - 1] == EQUALS && kv.key == Unquote(src[..k - 1], true)
      invariant !isKey ==> forall j :: 0 <= j < k - 1 ==> src[j] != EQUALS
    {
      if src[i] == EQUALS {
        if isKey {
          isKey := false;
          var key := DecodeInto(src[..i]);
          kv := kv.(key := key);
          k := i + 1;
        }
      } else if src[i] == AMPERSAND {
        IndexByteUnique(src, AMPERSAND, i);
        if !isKey { PrefixOfPrefix(src, i, k - 1); }
        kv := FinishPair(src[..i], isKey, k, kv);
        return i, kv;
      }
    }
    kv := FinishPair(src, isKey, k, kv);
    return |src|, kv;
  }

  /** Decoding into a slot that was cut back to length zero. */
  method DecodeInto(src: bytes) returns (r: bytes)
    ensures r == Unquote(src, true)
  {
    r := DecodeArgAppend([], src, true);
  }

  /** What the scanner does at the end of a segment: all of it is a key, or what follows '=' is the value. */
  method FinishPair(seg: bytes, isKey: bool, k: nat, kv: ArgsKV) returns (r: ArgsKV)
    requires isKey ==> Lacks(seg, EQUALS)
    requires !isKey ==> && 0 < k <= |seg| && seg[k - 1] == EQUALS
                        && (forall j :: 0 <= j < k - 1 ==> seg[j] != EQUALS)
                        && kv.key == Unquote(seg[..k - 1], true)
    ensures r == DecodePair(seg)
  {
    if isKey {
      var key := DecodeInto(seg);
      return ArgsKV(key, []);
    } else {
      IndexByteUnique(seg, EQUALS, k - 1);
      var value := DecodeInto(seg[k..]);
      return kv.(value := value);
    }
  }

  class Args {
    /** The slots ever allocated; the first n are live, the others keep stale pairs for reuse. */
    var slots: seq<ArgsKV>
    var n: nat

    ghost predicate Valid()
      reads this
    {
      n <= |slots|
    }

    function Contents(): seq<ArgsKV>
      requires Valid()
      reads this
    {
      slots[..n]
    }

    constructor ()
      ensures Valid() && Contents() == []
    {
      slots, n := [], 0;
    }

    method AllocArg()
      requires Valid()
      modifies this
      ensures Valid() && n == old(n) + 1 && slots[..n - 1] == old(Contents())
    {
      if |slots| > n {
        n := n + 1;
      } else {
        slots := slots + [BLANK];
        n := n + 1;
      }
    }

    method ParseBytes(b: bytes)
      requires Valid()
      modifies this
      ensures Valid() && Contents() == ParseArgs(b)
    {
      hide Segment, AfterSegment, DecodePair;
      n := 0;
      var s := new ArgsScanner(b);
      AllocArg();
      var more := true;
      while more
        invariant Valid() && n > 0
        invariant slots[..n - 1] + (if more then ParseArgs(s.b) else []) == ParseArgs(b)
        decreases more, |s.b|
      {
        ghost var done, rest := slots[..n - 1], s.b;
        var kv;
        more, kv := s.Next(slots[n - 1]);
        slots := slots[n - 1 := kv];
        assert slots[..n - 1] == done;
        if more && (|kv.key| > 0 || |kv.value| > 0) {
          ConcatAssoc(done, [kv], ParseArgs(s.b));
          assert slots[..n] == done + [kv];
          AllocArg();
        }
      }
      n := n - 1;
    }

    method AppendBytes(dst: bytes) returns (r: bytes)
      requires Valid()
      ensures r == dst + PrintArgs(Contents())
    {
      r := AppendArgs(dst, slots[..n]);
    }
  }

  method AppendArgs(dst: bytes, args: seq<ArgsKV>) returns (r: bytes)
    ensures r == dst + PrintArgs(args)
  {
    hide EncodePair;
    r := dst;
    for i := 0 to |args|
      invariant r + PrintArgs(args[i..]) == dst + PrintArgs(args)
    {
      ghost var before, tail := r, PrintTail(args[i + 1..]);
      r := AppendPair(r, args[i]);
      assert args[i..][1..] == args[i + 1..];
      ConcatAssoc(before, EncodePair(args[i]), tail);
      if i + 1 < |args| {
        ConcatAssoc(r, [AMPERSAND], PrintArgs(args[i + 1..]));
        r := r + [AMPERSAND];
      }
    }
  }

  /** The body of the printing loop. */
  method AppendPair(dst: bytes, kv: ArgsKV) returns (r: bytes)
    ensures r == dst + EncodePair(kv)
  {
    r := AppendQuoted(ArgAlphabet, dst, kv.key);
    if |kv.value| > 0 {
      r := r + [EQUALS];
      r := AppendQuoted(ArgAlphabet, r, kv.value);
    }
  }

  // ---------------------------------------------------------------- laws

  /** A printed pair is one segment and decodes to itself. */
  lemma PairRoundTrip(kv: ArgsKV)
    ensures Lacks(EncodePair(kv), AMPERSAND)
    ensures EncodePair(kv) == [] <==> kv == BLANK
    ensures DecodePair(EncodePair(kv)) == kv
  {
    hide Unquote, Quote;
    var e, k := EncodePair(kv), Quote(ArgAlphabet, kv.key);
    QuotedLacks(ArgAlphabet, kv.key, AMPERSAND);
    QuotedLacks(ArgAlphabet, kv.key, EQUALS);
    QuotedLacks(ArgAlphabet, kv.value, AMPERSAND);
    QuotedFirst(ArgAlphabet, kv.key);
    UnquoteQuote(ArgAlphabet, kv.key, true);
    UnquoteQuote(ArgAlphabet, kv.value, true);
    if kv.value != [] {
      IndexByteUnique(e, EQUALS, |k|);
      assert e[..|k|] == k && e[|k| + 1..] == Quote(ArgAlphabet, kv.value);
    } else {
      assert e == k;
    }
  }

  lemma FirstSegment(seg: bytes, rest: bytes)
    requires Lacks(seg, AMPERSAND)
    ensures Segment(seg) == seg && AfterSegment(seg) == []
    ensures var b := seg + ([AMPERSAND] + rest); Segment(b) == seg && AfterSegment(b) == rest
  {
    var b := seg + ([AMPERSAND] + rest);
    IndexByteUnique(b, AMPERSAND, |seg|);
    assert b[..|seg|] == seg && b[|seg| + 1..] == rest;
  }

  /** Printing and parsing returns the arguments, less the pairs that are empty on both sides. */
  lemma {:induction false} ParsePrint(args: seq<ArgsKV>)
    ensures ParseArgs(PrintArgs(args)) == WithoutBlanks(args)
  {
    hide Segment, AfterSegment, EncodePair, DecodePair;
    if args != [] {
      PairRoundTrip(args[0]);
      ParsePrint(args[1..]);
      FirstSegment(EncodePair(args[0]), PrintArgs(args[1..]));
      if |args| == 1 {
        assert PrintArgs(args) == EncodePair(args[0]);
      }
    }
  }

  lemma {:induction false} ParsedHasNoBlanks(b: bytes)
    ensures WithoutBlanks(ParseArgs(b)) == ParseArgs(b)
    decreases |b|
  {
    if b != [] {
      ParsedHasNoBlanks(AfterSegment(b));
    }
  }

  /** For every byte string, parse-print-parse equals parse. */
  lemma ParsePrintParse(b: bytes)
    ensures ParseArgs(PrintArgs(ParseArgs(b))) == ParseArgs(b)
  {
    ParsePrint(ParseArgs(b));
    ParsedHasNoBlanks(b);
  }

  // ---------------------------------------------------------------- what parsing means

  /** A segment as written: a key alone, or a key and all that follows its first '='. */
  datatype SegmentText = KeyOnly(key: bytes) | KeyValue(key: bytes, value: bytes)

  predicate ValidSegment(t: SegmentText) {
    && Lacks(t.key, EQUALS) && Lacks(t.key, AMPERSAND)
    && (t.KeyValue? ==> Lacks(t.value, AMPERSAND))
  }

  function SegmentBytes(t: SegmentText): bytes {
    match t
    case KeyOnly(key) => key
    case KeyValue(key, value) => key + ([EQUALS] + value)
  }

  function SegmentMeaning(t: SegmentText): ArgsKV {
    match t
    case KeyOnly(key) => ArgsKV(Unquote(key, true), [])
    case KeyValue(key, value) => ArgsKV(Unquote(key, true), Unquote(value, true))
  }

  lemma PairOfText(t: SegmentText)
    requires ValidSegment(t)
    ensures Lacks(SegmentBytes(t), AMPERSAND) && DecodePair(SegmentBytes(t)) == SegmentMeaning(t)
  {
    hide Unquote, IndexByte;
    if t.KeyValue? {
      var b := SegmentBytes(t);
      assert b[|t.key|] == EQUALS && forall i :: 0 <= i < |t.key| ==> b[i] == t.key[i];
      IndexByteUnique(b, EQUALS, |t.key|);
      assert b[..|t.key|] == t.key && b[|t.key| + 1..] == t.value;
    }
  }

  /** Segments joined by '&'. */
  function Joined(ts: seq<SegmentText>): bytes {
    if ts == [] then []
    else if |ts| == 1 then SegmentBytes(ts[0])
    else SegmentBytes(ts[0]) + ([AMPERSAND] + Joined(ts[1..]))
  }

  ghost predicate ValidSegments(ts: seq<SegmentText>) {
    forall i :: 0 <= i < |ts| ==> ValidSegment(ts[i])
  }

  ghost function Meanings(ts: seq<SegmentText>): seq<ArgsKV> {
    seq(|ts|, i requires 0 <= i < |ts| => SegmentMeaning(ts[i]))
  }

  /** A query string is parsed segment by segment, each split at its first '=', and empty pairs are dropped. */
  lemma {:induction false} ParseJoined(ts: seq<SegmentText>)
    requires ValidSegments(ts)
    ensures ParseArgs(Joined(ts)) == WithoutBlanks(Meanings(ts))
  {
    hide Segment, AfterSegment, DecodePair, SegmentBytes, SegmentMeaning;
    if ts != [] {
      var seg, rest := SegmentBytes(ts[0]), Joined(ts[1..]);
      PairOfText(ts[0]);
      FirstSegment(seg, rest);
      ParseJoined(ts[1..]);
      assert Meanings(ts)[1..] == Meanings(ts[1..]);
      if |ts| == 1 {
        assert ts[1..] == [];
        if seg == [] { EmptySegment(ts[0]); }
      }
    }
  }

  lemma EmptySegment(t: SegmentText)
    requires SegmentBytes(t) == []
    ensures SegmentMeaning(t) == BLANK
  {
  }
}
