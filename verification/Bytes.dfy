/** Bytes, byte strings and the searches of Go's `bytes` package that strike's parsers use. */
module Bytes {

  type byte = b: int | 0 <= b < 256

  type bytes = seq<byte>

  const LF: byte := 10
  const CR: byte := 13
  const SPACE: byte := 32
  const HASH: byte := 35
  const PERCENT: byte := 37
  const AMPERSAND: byte := 38
  const PLUS: byte := 43
  const DASH: byte := 45
  const DOT: byte := 46
  const SLASH: byte := 47
  const COLON: byte := 58
  const EQUALS: byte := 61
  const QUESTION: byte := 63

  predicate IsLower(c: byte) { 97 <= c <= 122 }
  predicate IsUpper(c: byte) { 65 <= c <= 90 }
  predicate IsDigit(c: byte) { 48 <= c <= 57 }

  /** ToLowerTable and ToUpperTable: ASCII letters only. */
  function ToLower(c: byte): byte { if IsUpper(c) then c + 32 else c }
  function ToUpper(c: byte): byte { if IsLower(c) then c - 32 else c }

  /** The case tables: 26 letters each way, and nothing else changes. */
  lemma CaseTables(i: nat, c: byte)
    requires i < 26
    ensures ToLower('A' as int + i) == 'a' as int + i && ToUpper('a' as int + i) == 'A' as int + i
    ensures !('A' <= c as char <= 'Z') ==> ToLower(c) == c
    ensures !('a' <= c as char <= 'z') ==> ToUpper(c) == c
  {
  }

  function Lowercase(s: bytes): (r: bytes)
    ensures |r| == |s|
    ensures forall i :: 0 <= i < |s| ==> r[i] == ToLower(s[i])
  {
    seq(|s|, i requires 0 <= i < |s| => ToLower(s[i]))
  }

  predicate Lacks(s: bytes, c: byte) {
    forall k :: 0 <= k < |s| ==> s[k] != c
  }

  /** bytes.IndexByte */
  function IndexByte(s: bytes, c: byte): (n: int)
    ensures -1 <= n < |s|
    ensures n >= 0 ==> s[n] == c && forall k :: 0 <= k < n ==> s[k] != c
    ensures n < 0 <==> Lacks(s, c)
  {
    IndexByteFrom(s, c, 0)
  }

  function IndexByteFrom(s: bytes, c: byte, i: nat): (n: int)
    requires i <= |s| && forall k :: 0 <= k < i ==> s[k] != c
    ensures -1 <= n < |s|
    ensures n >= 0 ==> s[n] == c && forall k :: 0 <= k < n ==> s[k] != c
    ensures n < 0 <==> Lacks(s, c)
    decreases |s| - i
  {
    if i == |s| then -1 else if s[i] == c then i else IndexByteFrom(s, c, i + 1)
  }

  /** bytes.LastIndexByte */
  function LastIndexByte(s: bytes, c: byte): (n: int)
    ensures -1 <= n < |s|
    ensures n >= 0 ==> s[n] == c && forall k :: n < k < |s| ==> s[k] != c
    ensures n < 0 <==> Lacks(s, c)
  {
    LastIndexByteBefore(s, c, |s|)
  }

  function LastIndexByteBefore(s: bytes, c: byte, i: nat): (n: int)
    requires i <= |s| && forall k :: i <= k < |s| ==> s[k] != c
    ensures -1 <= n < |s|
    ensures n >= 0 ==> s[n] == c && forall k :: n < k < |s| ==> s[k] != c
    ensures n < 0 <==> Lacks(s, c)
  {
    if i == 0 then -1 else if s[i - 1] == c then i - 1 else LastIndexByteBefore(s, c, i - 1)
  }

  /** `pat` stands at position `i` of `s`. */
  predicate At(s: bytes, pat: bytes, i: int) {
    0 <= i <= |s| - |pat| && s[i..i + |pat|] == pat
  }

  /** bytes.Index, for a non-empty pattern. */
  function Index(s: bytes, pat: bytes): (n: int)
    requires pat != []
    ensures -1 <= n < |s|
    ensures n >= 0 ==> At(s, pat, n) && forall k :: 0 <= k < n ==> !At(s, pat, k)
    ensures n < 0 ==> forall k :: !At(s, pat, k)
  {
    IndexFrom(s, pat, 0)
  }

  function IndexFrom(s: bytes, pat: bytes, i: nat): (n: int)
    requires pat != [] && i <= |s|
    requires forall k :: 0 <= k < i ==> !At(s, pat, k)
    ensures -1 <= n < |s|
    ensures n >= 0 ==> At(s, pat, n) && forall k :: 0 <= k < n ==> !At(s, pat, k)
    ensures n < 0 ==> forall k :: !At(s, pat, k)
    decreases |s| - i
  {
    if i == |s| then -1 else
    if At(s, pat, i) then i else IndexFrom(s, pat, i + 1)
  }

  /** bytes.LastIndex, for a non-empty pattern. */
  function LastIndex(s: bytes, pat: bytes): (n: int)
    requires pat != []
    ensures n >= 0 ==> At(s, pat, n)
    ensures forall k :: At(s, pat, k) ==> k <= n
  {
    LastIndexFrom(s, pat, |s|)
  }

  function LastIndexFrom(s: bytes, pat: bytes, i: nat): (n: int)
    requires pat != [] && forall k :: At(s, pat, k) ==> k <= i
    ensures n >= 0 ==> At(s, pat, n)
    ensures forall k :: At(s, pat, k) ==> k <= n
  {
    if At(s, pat, i) then i else if i == 0 then -1 else LastIndexFrom(s, pat, i - 1)
  }

  /** Chunks put end to end. */
  function Concat(chunks: seq<bytes>): bytes {
    if chunks == [] then [] else chunks[0] + Concat(chunks[1..])
  }

  lemma ConcatAssoc<T>(x: seq<T>, y: seq<T>, z: seq<T>)
    ensures x + y + z == x + (y + z)
  {
  }

  lemma PrefixOfPrefix<T>(s: seq<T>, i: int, j: int)
    requires 0 <= j <= i <= |s|
    ensures s[..i][..j] == s[..j]
  {
  }

  /** The first place of a byte is the only place with none before it. */
  lemma IndexByteUnique(s: bytes, c: byte, n: int)
    requires 0 <= n < |s| && s[n] == c && forall k :: 0 <= k < n ==> s[k] != c
    ensures IndexByte(s, c) == n
  {
  }

  /** The first place of a pattern is the only place with none before it. */
  lemma IndexUnique(s: bytes, pat: bytes, n: int)
    requires pat != [] && At(s, pat, n) && forall k :: 0 <= k < n ==> !At(s, pat, k)
    ensures Index(s, pat) == n
  {
    assert At(s, pat, Index(s, pat));
  }
}
