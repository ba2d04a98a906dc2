/**
  normalizePath of pkg/protocol/http/v1/uri.go: four in-place passes over the decoded path.

  The reference is a one-pass segment stack (RFC 3986, section 5.2.4, except that a final "." segment is
  kept).  Every rewrite of every pass keeps the value the stack computes, and a path that no pass can
  rewrite is its own value; so the four passes compute exactly that value.
 */
module PathNormalizer {
  import opened Bytes
  import opened PercentCoding

  const SLASH_SLASH: bytes := [SLASH, SLASH]
  const SLASH_DOT_SLASH: bytes := [SLASH, DOT, SLASH]
  const SLASH_DOT_DOT_SLASH: bytes := [SLASH, DOT, DOT, SLASH]
  const DOT_DOT: bytes := [DOT, DOT]

  predicate Rooted(p: bytes) {
    p != [] && p[0] == SLASH
  }

  // ---------------------------------------------------------------- the segment stack

  /** A segment that is not the last: empty and "." are skipped, ".." pops, others are pushed. */
  function Enter(stack: seq<bytes>, seg: bytes): seq<bytes> {
    if seg == [] || seg == [DOT] then stack
    else if seg == DOT_DOT then if stack == [] then [] else stack[..|stack| - 1]
    else stack + [seg]
  }

  /** The stack after reading, left to right, all segments of a path that is empty or starts with '/'. */
  function Walk(p: bytes): seq<bytes>
    requires p == [] || Rooted(p)
    decreases |p|
  {
    if p == [] then [] else
    var k := LastIndexByte(p, SLASH);
    Enter(Walk(p[..k]), p[k + 1..])
  }

  function Render(stack: seq<bytes>): bytes {
    if stack == [] then [] else
    Render(stack[..|stack| - 1]) + ([SLASH] + stack[|stack| - 1])
  }

  /** The last segment: ".." pops and leaves a directory, anything else is kept. */
  function Finish(stack: seq<bytes>, seg: bytes): bytes {
    if seg == DOT_DOT then Render(Enter(stack, seg)) + [SLASH] else Render(stack) + ([SLASH] + seg)
  }

  function Resolve(p: bytes): bytes
    requires Rooted(p)
  {
    var k := LastIndexByte(p, SLASH);
    Finish(Walk(p[..k]), p[k + 1..])
  }

  /** The path handed to the passes: decoded, with a slash put in front unless the source starts with one. */
  function DecodedPath(src: bytes): (d: bytes)
    ensures Rooted(d)
  {
    if src == [] || src[0] != SLASH then [SLASH] + Unquote(src, false) else Unquote(src, false)
  }

  function NormalPath(src: bytes): bytes {
    Resolve(DecodedPath(src))
  }

  ghost predicate Absent(s: bytes, pat: bytes) {
    forall k :: !At(s, pat, k)
  }

  /** No pass has anything to do. */
  ghost predicate Tidy(p: bytes) {
    && Rooted(p)
    && Absent(p, SLASH_SLASH) && Absent(p, SLASH_DOT_SLASH) && Absent(p, SLASH_DOT_DOT_SLASH)
    && !At(p, [SLASH, DOT, DOT], |p| - 3)
  }

  // ---------------------------------------------------------------- rewriting keeps the value

  /** Deleting positions i..j-1. */
  function Cut(s: bytes, i: int, j: int): bytes
    requires 0 <= i <= j <= |s|
  {
    s[..i] + s[j..]
  }

  /** The last segment of a path, with the slash before it. */
  function Tail(seg: bytes): (t: bytes)
    ensures Rooted(t)
  {
    [SLASH] + seg
  }

  lemma SplitLast(p: bytes)
    requires Rooted(p)
    ensures var k := LastIndexByte(p, SLASH);
            && 0 <= k < |p| && p == p[..k] + Tail(p[k + 1..]) && Lacks(p[k + 1..], SLASH)
            && (p[..k] == [] || Rooted(p[..k]))
  {
  }

  lemma LastSlashOfTail(a: bytes, seg: bytes)
    requires Lacks(seg, SLASH)
    ensures var p := a + Tail(seg);
            && LastIndexByte(p, SLASH) == |a| && p[..|a|] == a && p[|a| + 1..] == seg
            && ((a == [] || Rooted(a)) ==> Rooted(p))
  {
    var p := a + Tail(seg);
    assert p[|a|] == SLASH;
    assert forall k :: |a| < k < |p| ==> p[k] == seg[k - |a| - 1];
  }

  lemma WalkSnoc(a: bytes, seg: bytes)
    requires (a == [] || Rooted(a)) && Lacks(seg, SLASH)
    ensures Rooted(a + Tail(seg)) && Walk(a + Tail(seg)) == Enter(Walk(a), seg)
    ensures Resolve(a + Tail(seg)) == Finish(Walk(a), seg)
  {
    hide Tail, Enter, Finish;
    LastSlashOfTail(a, seg);
  }

  /** Only the stack reached matters for what follows. */
  lemma {:induction false} WalkCongruence(a: bytes, b: bytes, t: bytes)
    requires (a == [] || Rooted(a)) && (b == [] || Rooted(b)) && Walk(a) == Walk(b)
    requires t == [] || Rooted(t)
    ensures (a + t == [] || Rooted(a + t)) && (b + t == [] || Rooted(b + t)) && Walk(a + t) == Walk(b + t)
    ensures Rooted(t) ==> Resolve(a + t) == Resolve(b + t)
    decreases |t|
  {
    hide Walk, Resolve, Tail, LastIndexByte;
    if t == [] {
      assert a + t == a && b + t == b;
    } else {
      SplitLast(t);
      var k := LastIndexByte(t, SLASH);
      var init, seg := t[..k], t[k + 1..];
      WalkCongruence(a, b, init);
      ConcatAssoc(a, init, Tail(seg));
      ConcatAssoc(b, init, Tail(seg));
      WalkSnoc(a + init, seg);
      WalkSnoc(b + init, seg);
    }
  }

  /** Dropping s[i..j] is sound when what is dropped returns the stack to where it was. */
  lemma CutKeepsValue(s: bytes, i: int, j: int)
    requires Rooted(s) && 0 <= i <= j < |s| && (i == 0 || i < j) && s[i] == SLASH && s[j] == SLASH
    requires Walk(s[..j]) == Walk(s[..i])
    ensures Rooted(Cut(s, i, j)) && Resolve(Cut(s, i, j)) == Resolve(s)
  {
    hide Walk, Resolve;
    assert s == s[..j] + s[j..];
    WalkCongruence(s[..j], s[..i], s[j..]);
  }

  lemma DuplicateSlashStep(s: bytes, i: int)
    requires Rooted(s) && At(s, SLASH_SLASH, i)
    ensures Rooted(Cut(s, i, i + 1)) && Resolve(Cut(s, i, i + 1)) == Resolve(s)
  {
    hide Walk, Resolve, Cut;
    PatternBytes(s, i);
    WalkSnoc(s[..i], []);
    assert s[..i + 1] == s[..i] + Tail([]);
    CutKeepsValue(s, i, i + 1);
  }

  lemma DotStep(s: bytes, i: int)
    requires Rooted(s) && At(s, SLASH_DOT_SLASH, i)
    ensures Rooted(Cut(s, i, i + 2)) && Resolve(Cut(s, i, i + 2)) == Resolve(s)
  {
    hide Walk, Resolve, Cut;
    PatternBytes(s, i);
    WalkSnoc(s[..i], [DOT]);
    assert s[..i + 2] == s[..i] + Tail([DOT]);
    CutKeepsValue(s, i, i + 2);
  }

  /** The patterns, byte by byte. */
  lemma PatternBytes(s: bytes, i: int)
    ensures At(s, SLASH_SLASH, i) <==> 0 <= i <= |s| - 2 && s[i] == SLASH && s[i + 1] == SLASH
    ensures At(s, SLASH_DOT_SLASH, i)
            <==> 0 <= i <= |s| - 3 && s[i] == SLASH && s[i + 1] == DOT && s[i + 2] == SLASH
    ensures At(s, [SLASH, DOT, DOT], i)
            <==> 0 <= i <= |s| - 3 && s[i] == SLASH && s[i + 1] == DOT && s[i + 2] == DOT
    ensures At(s, SLASH_DOT_DOT_SLASH, i)
            <==> 0 <= i <= |s| - 4 && s[i] == SLASH && s[i + 1] == DOT && s[i + 2] == DOT && s[i + 3] == SLASH
  {
    assert 0 <= i <= |s| - 2 ==> s[i..i + 2] == [s[i], s[i + 1]];
    assert 0 <= i <= |s| - 3 ==> s[i..i + 3] == [s[i], s[i + 1], s[i + 2]];
    assert 0 <= i <= |s| - 4 ==> s[i..i + 4] == [s[i], s[i + 1], s[i + 2], s[i + 3]];
  }

  /** Between two slashes where none of the three patterns stands lies a segment the stack pushes. */
  lemma ProperSegment(s: bytes, j: int, k: int)
    requires 0 <= j < k < |s| && s[j] == SLASH && s[k] == SLASH
    requires !At(s, SLASH_SLASH, j) && !At(s, SLASH_DOT_SLASH, j) && !At(s, SLASH_DOT_DOT_SLASH, j)
    ensures Proper(s[j + 1..k])
  {
    hide At;
    PatternBytes(s, j);
  }

  predicate Proper(seg: bytes) {
    seg != [] && seg != [DOT] && seg != DOT_DOT
  }

  /** A proper segment followed by ".." leaves the stack as it was. */
  lemma ParentUndoes(stack: seq<bytes>, seg: bytes)
    requires Proper(seg)
    ensures Enter(Enter(stack, seg), DOT_DOT) == stack
  {
  }

  /** Where the segment before position n starts: the last slash before n, or 0. */
  function ParentSlash(s: bytes, n: int): (nn: int)
    requires 0 <= n <= |s|
    ensures 0 <= nn <= n
  {
    var k := LastIndexByte(s[..n], SLASH);
    if k < 0 then 0 else k
  }

  lemma ParentSplit(s: bytes, n: int)
    requires Rooted(s) && 0 < n <= |s|
    ensures var nn := ParentSlash(s, n);
            && nn < n && s[nn] == SLASH && Lacks(s[nn + 1..n], SLASH)
            && s[..n] == s[..nn] + Tail(s[nn + 1..n])
  {
  }

  lemma WalkUpToParent(s: bytes, n: int)
    requires Rooted(s) && 0 <= n < |s| && s[n] == SLASH
    requires forall k :: 0 <= k < n ==>
               !At(s, SLASH_SLASH, k) && !At(s, SLASH_DOT_SLASH, k) && !At(s, SLASH_DOT_DOT_SLASH, k)
    ensures s[ParentSlash(s, n)] == SLASH && (ParentSlash(s, n) < n || n == 0)
    ensures Walk(s[..ParentSlash(s, n)]) == Enter(Walk(s[..n]), DOT_DOT)
  {
    hide Walk, ParentSlash, Enter;
    var nn := ParentSlash(s, n);
    if n == 0 {
      WalkEmpty();
    } else {
      ParentSplit(s, n);
      var seg := s[nn + 1..n];
      WalkSnoc(s[..nn], seg);
      ProperSegment(s, nn, n);
      ParentUndoes(Walk(s[..nn]), seg);
    }
  }

  lemma WalkEmpty()
    ensures Walk([]) == [] && Enter([], DOT_DOT) == []
  {
  }

  lemma AtParent(s: bytes, n: int)
    requires At(s, [SLASH, DOT, DOT], n)
    ensures s[n] == SLASH && s[..n + 3] == s[..n] + Tail(DOT_DOT)
  {
    PatternBytes(s, n);
  }

  lemma DotDotStep(s: bytes, n: int)
    requires Rooted(s) && At(s, SLASH_DOT_DOT_SLASH, n)
    requires forall k :: 0 <= k < n ==>
               !At(s, SLASH_SLASH, k) && !At(s, SLASH_DOT_SLASH, k) && !At(s, SLASH_DOT_DOT_SLASH, k)
    ensures var nn := ParentSlash(s, n);
            && s[nn] == SLASH && s[n + 3] == SLASH
            && Rooted(Cut(s, nn, n + 3)) && Resolve(Cut(s, nn, n + 3)) == Resolve(s)
  {
    hide Walk, Resolve, Cut, ParentSlash, Enter;
    PatternBytes(s, n);
    AtParent(s, n);
    WalkUpToParent(s, n);
    WalkSnoc(s[..n], DOT_DOT);
    CutKeepsValue(s, ParentSlash(s, n), n + 3);
  }

  lemma TrailingStep(s: bytes)
    requires Rooted(s) && At(s, [SLASH, DOT, DOT], |s| - 3)
    requires forall k :: 0 <= k < |s| - 3 ==>
               !At(s, SLASH_SLASH, k) && !At(s, SLASH_DOT_SLASH, k) && !At(s, SLASH_DOT_DOT_SLASH, k)
    ensures var nn := ParentSlash(s, |s| - 3);
            Rooted(s[..nn + 1]) && s[nn] == SLASH && Resolve(s[..nn + 1]) == Resolve(s)
  {
    hide Walk, Resolve, ParentSlash, Enter, Render;
    var n := |s| - 3;
    var nn := ParentSlash(s, n);
    AtParent(s, n);
    WalkUpToParent(s, n);
    WalkSnoc(s[..n], DOT_DOT);
    WalkSnoc(s[..nn], []);
    assert s[..nn + 1] == s[..nn] + Tail([]);
    assert s == s[..n + 3];
  }

  // ---------------------------------------------------------------- normal forms

  /** Deleting from one slash up to a later one moves patterns without inner slashes but creates none. */
  lemma CutOccurrence(s: bytes, i: int, j: int, pat: bytes, k: int)
    requires 0 <= i <= j < |s| && s[i] == SLASH && s[j] == SLASH
    requires |pat| >= 2 && forall m :: 0 < m < |pat| - 1 ==> pat[m] != SLASH
    ensures At(Cut(s, i, j), pat, k) ==> At(s, pat, k) || At(s, pat, k + j - i)
  {
    hide Cut;
    CutLength(s, i, j);
    var c, n := Cut(s, i, j), |pat|;
    if At(c, pat, k) {
      if k + n <= i + 1 {
        CutLeft(s, i, j, k, n);
      } else if k >= i {
        CutRight(s, i, j, k, n);
      } else {
        CutMiddle(s, i, j, k, n);
      }
    }
  }

  lemma CutLength(s: bytes, i: int, j: int)
    requires 0 <= i <= j <= |s|
    ensures |Cut(s, i, j)| == |s| - (j - i)
  {
  }

  lemma CutLeft(s: bytes, i: int, j: int, k: int, n: nat)
    requires 0 <= i <= j < |s| && s[i] == s[j] && 0 <= k && k + n <= i + 1
    ensures |Cut(s, i, j)| > i && Cut(s, i, j)[k..k + n] == s[k..k + n]
  {
    var c := Cut(s, i, j);
    assert forall m :: 0 <= m <= i ==> c[m] == s[m];
  }

  lemma CutRight(s: bytes, i: int, j: int, k: int, n: nat)
    requires 0 <= i <= j <= |s| && i <= k && k + n <= |s| - (j - i)
    ensures |Cut(s, i, j)| == |s| - (j - i) && Cut(s, i, j)[k..k + n] == s[k + j - i..k + j - i + n]
  {
  }

  lemma CutMiddle(s: bytes, i: int, j: int, k: int, n: nat)
    requires 0 <= i <= j < |s| && 0 <= k <= i < k + n <= |s| - (j - i)
    ensures |Cut(s, i, j)| == |s| - (j - i) && Cut(s, i, j)[k..k + n][i - k] == s[j]
  {
  }

  lemma CutKeepsAbsent(s: bytes, i: int, j: int, pat: bytes)
    requires 0 <= i <= j < |s| && s[i] == SLASH && s[j] == SLASH
    requires |pat| >= 2 && forall m :: 0 < m < |pat| - 1 ==> pat[m] != SLASH
    requires Absent(s, pat)
    ensures Absent(Cut(s, i, j), pat)
  {
    hide At, Cut;
    forall k
      ensures !At(Cut(s, i, j), pat, k)
    {
      CutOccurrence(s, i, j, pat, k);
    }
  }

  /** Reading a tidy path pushes every segment before the last. */
  lemma {:induction false} WalkTidy(s: bytes, k: int)
    requires Rooted(s) && 0 <= k < |s| && s[k] == SLASH
    requires Absent(s, SLASH_SLASH) && Absent(s, SLASH_DOT_SLASH) && Absent(s, SLASH_DOT_DOT_SLASH)
    ensures Render(Walk(s[..k])) == s[..k]
    decreases k
  {
    hide Walk, ParentSlash, At, Render;
    if k == 0 {
      WalkEmpty();
      RenderPush([], []);
    } else {
      ParentSplit(s, k);
      var j := ParentSlash(s, k);
      var seg := s[j + 1..k];
      WalkTidy(s, j);
      WalkSnoc(s[..j], seg);
      ProperSegment(s, j, k);
      RenderPush(Walk(s[..j]), seg);
    }
  }

  lemma RenderPush(stack: seq<bytes>, seg: bytes)
    ensures Render([]) == []
    ensures Render(stack + [seg]) == Render(stack) + Tail(seg)
  {
    assert (stack + [seg])[..|stack|] == stack;
  }

  lemma TidyIsResolved(s: bytes)
    requires Tidy(s)
    ensures Resolve(s) == s
  {
    hide Walk, LastIndexByte, Render, Resolve, At;
    SplitLast(s);
    PatternBytes(s, |s| - 3);
    var k := LastIndexByte(s, SLASH);
    WalkTidy(s, k);
    WalkSnoc(s[..k], s[k + 1..]);
  }

  /** A stack as Walk leaves it: each entry one proper segment. */
  ghost predicate ProperStack(stack: seq<bytes>) {
    forall i :: 0 <= i < |stack| ==> Proper(stack[i]) && Lacks(stack[i], SLASH)
  }

  lemma EnterKeepsProper(stack: seq<bytes>, seg: bytes)
    requires ProperStack(stack) && Lacks(seg, SLASH)
    ensures ProperStack(Enter(stack, seg))
  {
  }

  lemma {:induction false} WalkIsProper(p: bytes)
    requires p == [] || Rooted(p)
    ensures ProperStack(Walk(p))
    decreases |p|
  {
    hide Enter, LastIndexByte, Walk, Proper, Resolve, Finish;
    if p == [] {
      WalkEmpty();
    } else {
      SplitLast(p);
      var k := LastIndexByte(p, SLASH);
      WalkIsProper(p[..k]);
      WalkSnoc(p[..k], p[k + 1..]);
      EnterKeepsProper(Walk(p[..k]), p[k + 1..]);
    }
  }

  lemma EnterProper(stack: seq<bytes>, seg: bytes)
    requires Proper(seg)
    ensures Enter(stack, seg) == stack + [seg]
  {
  }

  lemma {:induction false} WalkRender(stack: seq<bytes>)
    requires ProperStack(stack)
    ensures Render(stack) == [] || Rooted(Render(stack))
    ensures Walk(Render(stack)) == stack
  {
    hide Walk, Enter, Render, Resolve, Finish, Proper;
    if stack == [] {
      WalkEmpty();
      RenderPush([], []);
    } else {
      var init, seg := stack[..|stack| - 1], stack[|stack| - 1];
      WalkRender(init);
      WalkSnoc(Render(init), seg);
      RenderPush(init, seg);
      EnterProper(init, seg);
      assert stack == init + [seg];
    }
  }

  /** Normalising is idempotent. */
  lemma ResolveIdempotent(p: bytes)
    requires Rooted(p)
    ensures Rooted(Resolve(p)) && Resolve(Resolve(p)) == Resolve(p)
  {
    hide Walk, LastIndexByte, Render, Resolve, Enter;
    SplitLast(p);
    var k := LastIndexByte(p, SLASH);
    var init, seg := Walk(p[..k]), p[k + 1..];
    WalkIsProper(p[..k]);
    WalkSnoc(p[..k], seg);
    if seg == DOT_DOT {
      var up := Enter(init, seg);
      EnterKeepsProper(init, seg);
      WalkRender(up);
      WalkSnoc(Render(up), []);
      assert Render(up) + Tail([]) == Render(up) + [SLASH];
    } else {
      WalkRender(init);
      WalkSnoc(Render(init), seg);
    }
  }

  // ---------------------------------------------------------------- the passes

  /** copy(b[i:], b[j:]) and the cut of the slice's length that goes with it. */
  method CutOut(a: array<byte>, n: nat, i: nat, j: nat) returns (m: nat)
    requires i <= j <= n <= a.Length
    modifies a
    ensures m == n - (j - i) && a[..m] == Cut(old(a[..n]), i, j)
  {
    for k := 0 to n - j
      invariant forall t :: 0 <= t < i ==> a[t] == old(a[t])
      invariant forall t :: i <= t < i + k ==> a[t] == old(a[t + (j - i)])
      invariant forall t :: i + k <= t < a.Length ==> a[t] == old(a[t])
    {
      a[i + k] := a[j + k];
    }
    m := n - (j - i);
    CutByBytes(old(a[..n]), a[..m], i, j);
  }

  lemma CutByBytes(s: bytes, c: bytes, i: nat, j: nat)
    requires i <= j <= |s| && |c| == |s| - (j - i)
    requires (forall t :: 0 <= t < i ==> c[t] == s[t]) && forall t :: i <= t < |c| ==> c[t] == s[t + (j - i)]
    ensures c == Cut(s, i, j)
  {
  }

  method RemoveDuplicateSlashes(a: array<byte>, size: nat) returns (n: nat)
    requires size <= a.Length && Rooted(a[..size])
    modifies a
    ensures n <= a.Length && Rooted(a[..n]) && Resolve(a[..n]) == Resolve(old(a[..size]))
    ensures Absent(a[..n], SLASH_SLASH)
  {
    hide Resolve;
    n := size;
    var lo := 0;
    while true
      invariant lo <= n <= a.Length && Rooted(a[..n]) && Resolve(a[..n]) == Resolve(old(a[..size]))
      invariant forall k :: 0 <= k < lo ==> !At(a[..n], SLASH_SLASH, k)
      decreases n
    {
      ghost var s := a[..n];
      var i := Index(a[lo..n], SLASH_SLASH);
      assert a[lo..n] == s[lo..];
      if i < 0 {
        NothingBefore(s, lo, n, SLASH_SLASH);
        return;
      }
      NothingBefore(s, lo, lo + i, SLASH_SLASH);
      WindowSearch(s, lo, SLASH_SLASH, lo + i);
      lo := lo + i;
      DuplicateSlashStep(s, lo);
      n := CutOut(a, n, lo, lo + 1);
      DuplicateSlashProgress(s, lo, a[..n]);
    }
  }

  /** What a search of the window s[lo..] says about s. */
  lemma WindowSearch(s: bytes, lo: int, pat: bytes, k: int)
    requires 0 <= lo <= k <= |s|
    ensures At(s[lo..], pat, k - lo) <==> At(s, pat, k)
  {
    if k + |pat| <= |s| {
      assert s[lo..][k - lo..k - lo + |pat|] == s[k..k + |pat|];
    }
  }

  /** Nothing stands before position hi, given that nothing stands before lo or in the window up to hi. */
  lemma NothingBefore(s: bytes, lo: int, hi: int, pat: bytes)
    requires 0 <= lo <= hi <= |s|
    requires forall k :: 0 <= k < lo ==> !At(s, pat, k)
    requires forall k :: 0 <= k < hi - lo ==> !At(s[lo..], pat, k)
    ensures forall k :: 0 <= k < hi ==> !At(s, pat, k)
  {
    hide At;
    forall k | lo <= k < hi
      ensures !At(s, pat, k)
    {
      WindowSearch(s, lo, pat, k);
    }
  }

  lemma DuplicateSlashProgress(s: bytes, i: int, c: bytes)
    requires At(s, SLASH_SLASH, i) && c == Cut(s, i, i + 1)
    requires forall k :: 0 <= k < i ==> !At(s, SLASH_SLASH, k)
    ensures forall k :: 0 <= k < i ==> !At(c, SLASH_SLASH, k)
  {
    PatternBytes(s, i);
    assert c[..i + 1] == s[..i + 1];
    forall k | 0 <= k < i
      ensures !At(c, SLASH_SLASH, k)
    {
      assert c[k..k + 2] == c[..i + 1][k..k + 2] == s[..i + 1][k..k + 2] == s[k..k + 2];
      assert !At(s, SLASH_SLASH, k);
    }
  }

  method RemoveDotParts(a: array<byte>, size: nat) returns (n: nat)
    requires size <= a.Length && Rooted(a[..size]) && Absent(a[..size], SLASH_SLASH)
    modifies a
    ensures n <= a.Length && Rooted(a[..n]) && Resolve(a[..n]) == Resolve(old(a[..size]))
    ensures Absent(a[..n], SLASH_SLASH) && Absent(a[..n], SLASH_DOT_SLASH)
  {
    hide Resolve;
    n := size;
    while true
      invariant n <= a.Length && Rooted(a[..n]) && Resolve(a[..n]) == Resolve(old(a[..size]))
      invariant Absent(a[..n], SLASH_SLASH)
      decreases n
    {
      ghost var s := a[..n];
      var i := Index(a[..n], SLASH_DOT_SLASH);
      if i < 0 {
        return;
      }
      DotStep(s, i);
      PatternBytes(s, i);
      CutKeepsAbsent(s, i, i + 2, SLASH_SLASH);
      n := CutOut(a, n, i, i + 2);
    }
  }

  method RemoveDotDotParts(a: array<byte>, size: nat) returns (n: nat)
    requires size <= a.Length && Rooted(a[..size])
    requires Absent(a[..size], SLASH_SLASH) && Absent(a[..size], SLASH_DOT_SLASH)
    modifies a
    ensures n <= a.Length && Rooted(a[..n]) && Resolve(a[..n]) == Resolve(old(a[..size]))
    ensures Absent(a[..n], SLASH_SLASH) && Absent(a[..n], SLASH_DOT_SLASH) && Absent(a[..n], SLASH_DOT_DOT_SLASH)
  {
    hide Resolve, ParentSlash;
    n := size;
    while true
      invariant n <= a.Length && Rooted(a[..n]) && Resolve(a[..n]) == Resolve(old(a[..size]))
      invariant Absent(a[..n], SLASH_SLASH) && Absent(a[..n], SLASH_DOT_SLASH)
      decreases n
    {
      ghost var s := a[..n];
      var i := Index(a[..n], SLASH_DOT_DOT_SLASH);
      if i < 0 {
        return;
      }
      var up := ParentSlash(a[..n], i);
      DotDotStep(s, i);
      CutKeepsAbsent(s, up, i + 3, SLASH_SLASH);
      CutKeepsAbsent(s, up, i + 3, SLASH_DOT_SLASH);
      n := CutOut(a, n, up, i + 3);
    }
  }

  /** Removes a trailing "/foo/.."; the path "/.." alone becomes "/". */
  method RemoveTrailingDotDot(a: array<byte>, size: nat) returns (r: bytes)
    requires size <= a.Length && Rooted(a[..size])
    requires Absent(a[..size], SLASH_SLASH) && Absent(a[..size], SLASH_DOT_SLASH)
    requires Absent(a[..size], SLASH_DOT_DOT_SLASH)
    ensures Tidy(r) && Resolve(r) == Resolve(a[..size])
  {
    hide Resolve;
    ghost var s := a[..size];
    var n := LastIndex(a[..size], [SLASH, DOT, DOT]);
    if n >= 0 && n + 3 == size {
      TrailingStep(s);
      var nn := LastIndexByte(a[..n], SLASH);
      assert a[..n] == s[..n];
      PrefixKeepsTidy(s, ParentSlash(s, n) + 1);
      if nn < 0 {
        assert s[..1] == [SLASH];
        return [SLASH];
      }
      assert a[..nn + 1] == s[..nn + 1];
      return a[..nn + 1];
    }
    return a[..size];
  }

  lemma PrefixKeepsTidy(s: bytes, n: int)
    requires Rooted(s) && 0 < n <= |s| && s[n - 1] == SLASH
    requires Absent(s, SLASH_SLASH) && Absent(s, SLASH_DOT_SLASH) && Absent(s, SLASH_DOT_DOT_SLASH)
    ensures Tidy(s[..n])
  {
    hide At;
    forall k
      ensures !At(s[..n], SLASH_SLASH, k) && !At(s[..n], SLASH_DOT_SLASH, k) && !At(s[..n], SLASH_DOT_DOT_SLASH, k)
    {
      PatternBytes(s, k);
      PatternBytes(s[..n], k);
    }
    PatternBytes(s[..n], n - 3);
  }

  /** normalizePath: decode, then the four passes over one buffer. */
  method NormalizePath(src: bytes) returns (path: bytes)
    ensures path == NormalPath(src)
    ensures Tidy(path)
  {
    hide Resolve, Unquote;
    var dst := [];
    if |src| == 0 || src[0] != SLASH {
      dst := dst + [SLASH];
    }
    dst := DecodeArgAppend(dst, src, false);
    assert dst == DecodedPath(src);
    var a := new byte[|dst|](i requires 0 <= i < |dst| => dst[i]);
    assert a[..|dst|] == dst;
    var n := RemoveDuplicateSlashes(a, |dst|);
    n := RemoveDotParts(a, n);
    n := RemoveDotDotParts(a, n);
    path := RemoveTrailingDotDot(a, n);
    TidyIsResolved(path);
  }
}
