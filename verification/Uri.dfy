/** URI parsing and printing: pkg/protocol/http/v1/uri.go. */
module Uri {
  import opened Bytes
  import opened PercentCoding
  import opened PathNormalizer
  import QA = QueryArgs

  const STR_SLASH: bytes := [SLASH]
  const STR_HTTP: bytes := [104, 116, 116, 112]
  const COLON_SLASH_SLASH: bytes := [COLON, SLASH, SLASH]

  /** The fields a parse fills; `args` holds the query arguments once they have been asked for. */
  datatype Fields = Fields(scheme: bytes, host: bytes, path: bytes, query: bytes, hash: bytes, args: seq<QA.ArgsKV>)

  /** What a caller sees through Scheme() and Path(). */
  function SchemeOf(u: Fields): bytes {
    if u.scheme == [] then STR_HTTP else u.scheme
  }

  function PathOf(u: Fields): bytes {
    if u.path == [] then STR_SLASH else u.path
  }

  // ---------------------------------------------------------------- splitting

  datatype Split = Split(scheme: bytes, host: bytes, rest: bytes)

  /** splitHostURI: an authority is recognised only when no '/' precedes the first "//". */
  function SplitHostURI(host: bytes, uri: bytes): Split {
    var n := Index(uri, SLASH_SLASH);
    if n < 0 || !Lacks(uri[..n], SLASH) then Split(STR_HTTP, host, uri) else
    var scheme := if n > 0 && uri[n - 1] == COLON then uri[..n - 1] else uri[..n];
    SplitAuthority(scheme, uri[n + 2..])
  }

  function SplitAuthority(scheme: bytes, uri: bytes): Split {
    var n := IndexByte(uri, SLASH);
    if n >= 0 then Split(scheme, uri[..n], uri[n..]) else
    var q := IndexByte(uri, QUESTION);
    if q >= 0 then Split(scheme, uri[..q], uri[q..]) else Split(scheme, uri, STR_SLASH)
  }

  datatype Target = Target(path: bytes, query: bytes, hash: bytes)

  /** Path, query and fragment; a '?' inside the fragment starts no query. */
  function SplitTarget(b: bytes): Target {
    var f := IndexByte(b, HASH);
    if f < 0 then SplitQuery(b, []) else SplitQuery(b[..f], b[f + 1..])
  }

  function SplitQuery(front: bytes, hash: bytes): Target {
    var q := IndexByte(front, QUESTION);
    if q < 0 then Target(front, [], hash) else Target(front[..q], front[q + 1..], hash)
  }

  function ParseURI(host: bytes, uri: bytes): Fields {
    var s := SplitHostURI(host, uri);
    var t := SplitTarget(s.rest);
    Fields(Lowercase(s.scheme), Lowercase(s.host), NormalPath(t.path), t.query, t.hash, [])
  }

  // ---------------------------------------------------------------- printing

  function Marked(mark: byte, present: bool, s: bytes): bytes {
    if present then [mark] + s else []
  }

  function QueryText(u: Fields): bytes {
    if u.args != [] then QA.PrintArgs(u.args) else u.query
  }

  predicate HasQuery(u: Fields) {
    u.args != [] || u.query != []
  }

  function RequestTarget(path: bytes, hasQuery: bool, query: bytes, hash: bytes): bytes {
    path + (Marked(QUESTION, hasQuery, query) + Marked(HASH, hash != [], hash))
  }

  function RequestURIOf(u: Fields): bytes {
    RequestTarget(Quote(PathAlphabet, PathOf(u)), HasQuery(u), QueryText(u), u.hash)
  }

  function FullURIOf(u: Fields): bytes {
    SchemeOf(u) + (COLON_SLASH_SLASH + (u.host + RequestURIOf(u)))
  }

  // ---------------------------------------------------------------- the object

  method LowercaseBytes(s: bytes) returns (r: bytes)
    ensures r == Lowercase(s)
  {
    var a := new byte[|s|](i requires 0 <= i < |s| => s[i]);
    for i := 0 to |s|
      invariant forall k :: 0 <= k < i ==> a[k] == ToLower(s[k])
      invariant forall k :: i <= k < |s| ==> a[k] == s[k]
    {
      a[i] := ToLower(a[i]);
    }
    r := a[..];
  }

  /** How parse finds the query and the fragment: one search each over the whole text. */
  method SplitAtIndices(b: bytes) returns (t: Target)
    ensures t == SplitTarget(b)
  {
    hide SplitTarget;
    var queryIndex, fragmentIndex := IndexByte(b, QUESTION), IndexByte(b, HASH);
    if fragmentIndex >= 0 && queryIndex > fragmentIndex {
      queryIndex := -1;
    }
    TargetByIndices(b, queryIndex, fragmentIndex);
    if queryIndex < 0 && fragmentIndex < 0 {
      return Target(b, [], []);
    }
    if queryIndex >= 0 {
      if fragmentIndex < 0 {
        return Target(b[..queryIndex], b[queryIndex + 1..], []);
      } else {
        return Target(b[..queryIndex], b[queryIndex + 1..fragmentIndex], b[fragmentIndex + 1..]);
      }
    }
    return Target(b[..fragmentIndex], [], b[fragmentIndex + 1..]);
  }

  class URI {
    var pathOriginal: bytes
    var scheme: bytes
    var path: bytes
    var queryString: bytes
    var hash: bytes
    var host: bytes
    var queryArgs: seq<QA.ArgsKV>
    var parsedQueryArgs: bool

    function State(): Fields
      reads this
    {
      Fields(scheme, host, path, queryString, hash, queryArgs)
    }

    constructor ()
      ensures State() == Fields([], [], [], [], [], [])
    {
      pathOriginal, scheme, path, queryString, hash, host := [], [], [], [], [], [];
      queryArgs, parsedQueryArgs := [], false;
    }

    method Parse(h: bytes, uri: bytes)
      modifies this
      ensures State() == ParseURI(h, uri) && !parsedQueryArgs
      ensures pathOriginal == SplitTarget(SplitHostURI(h, uri).rest).path
    {
      var s := SplitHostURI(h, uri);
      var low := LowercaseBytes(s.scheme);
      scheme := low;
      low := LowercaseBytes(s.host);
      host := low;
      var t := SplitAtIndices(s.rest);
      var p := NormalizePath(t.path);
      pathOriginal, path, queryString, hash := t.path, p, t.query, t.hash;
      queryArgs, parsedQueryArgs := [], false;
    }

    /** QueryArgs: parsed from the query string on first use. */
    method QueryArgs() returns (args: seq<QA.ArgsKV>)
      modifies `queryArgs, `parsedQueryArgs
      ensures args == queryArgs && parsedQueryArgs
      ensures queryArgs == if old(parsedQueryArgs) then old(queryArgs) else QA.ParseArgs(queryString)
    {
      if !parsedQueryArgs {
        var a := new QA.Args();
        a.ParseBytes(queryString);
        queryArgs := a.Contents();
        parsedQueryArgs := true;
      }
      args := queryArgs;
    }

    method RequestURI() returns (dst: bytes)
      ensures dst == RequestURIOf(State())
    {
      hide Quote, QA.PrintArgs;
      dst := AppendQuoted(PathAlphabet, [], PathOf(State()));
      ghost var quoted, q := dst, Marked(QUESTION, HasQuery(State()), QueryText(State()));
      if |queryArgs| > 0 {
        dst := dst + [QUESTION];
        dst := QA.AppendArgs(dst, queryArgs);
      } else if |queryString| > 0 {
        dst := dst + [QUESTION];
        dst := dst + queryString;
      }
      assert dst == quoted + q;
      ConcatAssoc(quoted, q, Marked(HASH, hash != [], hash));
      if |hash| > 0 {
        dst := dst + [HASH];
        dst := dst + hash;
      }
    }

    /** AppendBytes; FullURI is AppendBytes onto an empty buffer. */
    method AppendBytes(dst: bytes) returns (r: bytes)
      ensures r == dst + FullURIOf(State())
    {
      hide SchemeOf, RequestURIOf;
      var target := RequestURI();
      r := dst + SchemeOf(State());
      r := r + COLON_SLASH_SLASH;
      r := r + host;
      r := r + target;
    }
  }

  /** The index arithmetic of the parser against the two-step split. */
  lemma TargetByIndices(b: bytes, q: int, f: int)
    requires f == IndexByte(b, HASH)
    requires q == if f >= 0 && IndexByte(b, QUESTION) > f then -1 else IndexByte(b, QUESTION)
    ensures SplitTarget(b) ==
              (if q < 0 && f < 0 then Target(b, [], [])
               else if q >= 0 && f < 0 then Target(b[..q], b[q + 1..], [])
               else if q >= 0 then Target(b[..q], b[q + 1..f], b[f + 1..])
               else Target(b[..f], [], b[f + 1..]))
  {
    if f >= 0 {
      var front := b[..f];
      if q >= 0 {
        IndexByteUnique(front, QUESTION, q);
        assert front[..q] == b[..q] && front[q + 1..] == b[q + 1..f];
      } else {
        assert Lacks(front, QUESTION);
      }
    }
  }

  // ---------------------------------------------------------------- parse and print

  lemma LowercaseLaws(s: bytes)
    ensures Lowercase(Lowercase(s)) == Lowercase(s)
    ensures Lacks(Lowercase(s), SLASH) <==> Lacks(s, SLASH)
  {
    var l := Lowercase(s);
    assert forall i :: 0 <= i < |s| ==> (l[i] == SLASH <==> s[i] == SLASH);
    assert forall i :: 0 <= i < |s| ==> Lowercase(l)[i] == ToLower(l[i]) == l[i];
  }

  /** The scheme found never holds a slash; the host does only if it is the caller's. */
  lemma SplitIsSlashFree(host: bytes, uri: bytes)
    ensures Lacks(SplitHostURI(host, uri).scheme, SLASH)
    ensures SplitHostURI(host, uri).host == host || Lacks(SplitHostURI(host, uri).host, SLASH)
  {
    hide SplitAuthority, Index;
    var n := Index(uri, SLASH_SLASH);
    if n >= 0 && Lacks(uri[..n], SLASH) {
      if n > 0 {
        assert Lacks(uri[..n - 1], SLASH) by {
          assert forall k :: 0 <= k < n - 1 ==> uri[..n - 1][k] == uri[..n][k];
        }
      }
      AuthoritySlashFree(uri[..n], uri[n + 2..]);
      AuthoritySlashFree(if n > 0 then uri[..n - 1] else [], uri[n + 2..]);
    }
  }

  lemma AuthoritySlashFree(scheme: bytes, uri: bytes)
    ensures SplitAuthority(scheme, uri).scheme == scheme && Lacks(SplitAuthority(scheme, uri).host, SLASH)
  {
    hide IndexByte;
  }

  /** What stands before the authority: the scheme, a colon if there is one, and the two slashes. */
  function Prefix(scheme: bytes, colon: bool): bytes {
    scheme + (if colon then COLON_SLASH_SLASH else SLASH_SLASH)
  }

  /** Any uri with an authority, whatever follows: the first "//" is the one after the scheme. */
  lemma SplitScheme(caller: bytes, scheme: bytes, colon: bool, rest: bytes)
    requires Lacks(scheme, SLASH) && (colon || scheme == [] || scheme[|scheme| - 1] != COLON)
    ensures SplitHostURI(caller, Prefix(scheme, colon) + rest) == SplitAuthority(scheme, rest)
  {
    hide SplitAuthority, Index;
    var s := Prefix(scheme, colon) + rest;
    var n := |scheme| + if colon then 1 else 0;
    assert s[n] == SLASH && s[n + 1] == SLASH && (colon ==> s[n - 1] == COLON);
    assert forall k :: 0 <= k < |scheme| ==> s[k] == scheme[k];
    assert forall k :: 0 <= k < n ==> s[k] != SLASH;
    forall k | 0 <= k < n
      ensures !At(s, SLASH_SLASH, k)
    {
      PatternBytes(s, k);
    }
    PatternBytes(s, n);
    IndexUnique(s, SLASH_SLASH, n);
    assert s[n + 2..] == rest && s[..|scheme|] == scheme;
  }

  /** Splitting a printed URI. */
  lemma SplitPrinted(scheme: bytes, rest: bytes)
    requires Lacks(scheme, SLASH)
    ensures SplitHostURI([], scheme + (COLON_SLASH_SLASH + rest)) == SplitAuthority(scheme, rest)
  {
    hide SplitHostURI, SplitAuthority;
    ConcatAssoc(scheme, COLON_SLASH_SLASH, rest);
    SplitScheme([], scheme, true, rest);
  }

  lemma SplitPrintedAuthority(scheme: bytes, host: bytes, target: bytes)
    requires Rooted(target)
    ensures Lacks(host, SLASH) ==> SplitAuthority(scheme, host + target) == Split(scheme, host, target)
    ensures !Lacks(host, SLASH) ==> |SplitAuthority(scheme, host + target).host| < |host|
    ensures SplitAuthority(scheme, host + target).scheme == scheme
  {
    var s := host + target;
    if Lacks(host, SLASH) {
      IndexByteUnique(s, SLASH, |host|);
      assert s[..|host|] == host && s[|host|..] == target;
    } else {
      var n := IndexByte(host, SLASH);
      IndexByteUnique(s, SLASH, n);
    }
  }

  /** Splitting a printed request target gives back its three parts. */
  lemma SplitPrintedTarget(path: bytes, hasQuery: bool, query: bytes, hash: bytes)
    requires hasQuery || query == []
    requires Lacks(path, QUESTION) && Lacks(path, HASH) && Lacks(query, HASH)
    ensures SplitTarget(RequestTarget(path, hasQuery, query, hash)) == Target(path, query, hash)
  {
    hide SplitTarget, SplitQuery;
    var q, h := Marked(QUESTION, hasQuery, query), Marked(HASH, hash != [], hash);
    ConcatAssoc(path, q, h);
    assert Lacks(path + q, HASH);
    SplitAtHash(path + q, hash);
    SplitAtQuestion(path, hasQuery, query, hash);
  }

  lemma SplitAtHash(front: bytes, hash: bytes)
    requires Lacks(front, HASH)
    ensures SplitTarget(front + Marked(HASH, hash != [], hash)) == SplitQuery(front, hash)
  {
    hide SplitQuery;
    var b := front + Marked(HASH, hash != [], hash);
    if hash == [] {
      assert b == front;
    } else {
      IndexByteUnique(b, HASH, |front|);
      assert b[..|front|] == front && b[|front| + 1..] == hash;
    }
  }

  lemma SplitAtQuestion(path: bytes, hasQuery: bool, query: bytes, hash: bytes)
    requires (hasQuery || query == []) && Lacks(path, QUESTION)
    ensures SplitQuery(path + Marked(QUESTION, hasQuery, query), hash) == Target(path, query, hash)
  {
    var front := path + Marked(QUESTION, hasQuery, query);
    if !hasQuery {
      assert front == path;
    } else {
      IndexByteUnique(front, QUESTION, |path|);
      assert front[..|path|] == path && front[|path| + 1..] == query;
    }
  }

  lemma TargetQueryLacksHash(b: bytes)
    ensures Lacks(SplitTarget(b).query, HASH)
  {
  }

  /** A normalised path survives quoting, decoding and normalising again. */
  lemma PathFixpoint(src: bytes)
    ensures Rooted(NormalPath(src))
    ensures NormalPath(Quote(PathAlphabet, NormalPath(src))) == NormalPath(src)
    ensures Rooted(Quote(PathAlphabet, NormalPath(src)))
  {
    hide Resolve, Quote, Unquote;
    var p := NormalPath(src);
    ResolveIdempotent(DecodedPath(src));
    QuotedFirst(PathAlphabet, p);
    UnquoteQuote(PathAlphabet, p, false);
  }

  /** Two field sets that callers cannot tell apart. */
  ghost predicate SameURI(u: Fields, v: Fields) {
    && SchemeOf(u) == SchemeOf(v) && u.host == v.host && PathOf(u) == PathOf(v)
    && u.query == v.query && u.hash == v.hash
  }

  lemma Reparse(host: bytes, uri: bytes, args: seq<QA.ArgsKV>)
    ensures var u := ParseURI(host, uri).(args := args);
            var v := ParseURI([], FullURIOf(u));
            && SchemeOf(v) == SchemeOf(u)
            && (Lacks(u.host, SLASH) && Lacks(QueryText(u), HASH) ==>
                  v.host == u.host && PathOf(v) == PathOf(u) && v.query == QueryText(u) && v.hash == u.hash)
            && (!Lacks(u.host, SLASH) ==> v.host != u.host)
  {
    hide SplitTarget, SplitHostURI, SplitAuthority, NormalPath, Quote, RequestTarget, QA.PrintArgs, Lowercase;
    var s := SplitHostURI(host, uri);
    var t := SplitTarget(s.rest);
    var u := ParseURI(host, uri).(args := args);
    SplitIsSlashFree(host, uri);
    LowercaseLaws(s.scheme);
    LowercaseLaws(s.host);
    LowercaseLaws(STR_HTTP);
    PathFixpoint(t.path);
    var quoted := Quote(PathAlphabet, u.path);
    QuotedLacks(PathAlphabet, u.path, QUESTION);
    QuotedLacks(PathAlphabet, u.path, HASH);
    var target := RequestTarget(quoted, HasQuery(u), QueryText(u), u.hash);
    TargetRooted(quoted, HasQuery(u), QueryText(u), u.hash);
    SplitPrinted(SchemeOf(u), u.host + target);
    SplitPrintedAuthority(SchemeOf(u), u.host, target);
    if Lacks(QueryText(u), HASH) {
      SplitPrintedTarget(quoted, HasQuery(u), QueryText(u), u.hash);
    }
  }

  lemma TargetRooted(path: bytes, hasQuery: bool, query: bytes, hash: bytes)
    requires Rooted(path)
    ensures Rooted(RequestTarget(path, hasQuery, query, hash))
  {
  }

  /** The uri names an authority: its first '/' is doubled. */
  predicate HasAuthority(uri: bytes) {
    var n := IndexByte(uri, SLASH);
    0 <= n < |uri| - 1 && uri[n + 1] == SLASH
  }

  /** Then the host is taken from it, and otherwise from the caller. */
  lemma AuthorityDecides(host: bytes, uri: bytes)
    ensures HasAuthority(uri) ==> Lacks(SplitHostURI(host, uri).host, SLASH)
    ensures !HasAuthority(uri) ==> SplitHostURI(host, uri) == Split(STR_HTTP, host, uri)
  {
    hide SplitAuthority, Index, IndexByte;
    var n := IndexByte(uri, SLASH);
    if HasAuthority(uri) {
      PatternBytes(uri, n);
      forall k | 0 <= k < n
        ensures !At(uri, SLASH_SLASH, k)
      {
        PatternBytes(uri, k);
      }
      IndexUnique(uri, SLASH_SLASH, n);
      AuthoritySlashFree(uri[..n], uri[n + 2..]);
      AuthoritySlashFree(if n > 0 then uri[..n - 1] else [], uri[n + 2..]);
    } else {
      var m := Index(uri, SLASH_SLASH);
      if m >= 0 && Lacks(uri[..m], SLASH) {
        PatternBytes(uri, m);
        assert forall k :: 0 <= k < m ==> uri[k] == uri[..m][k];
        IndexByteUnique(uri, SLASH, m);
        assert false;
      }
    }
  }

  /**
    For every host and every uri: printing what was parsed and parsing it again gives the same scheme, host,
    path, query and hash, if and only if the host given holds no '/' or the uri brings an authority of its own.
   */
  lemma ParsePrintFixpoint(host: bytes, uri: bytes)
    ensures var u := ParseURI(host, uri);
            SameURI(ParseURI([], FullURIOf(u)), u) <==> Lacks(host, SLASH) || HasAuthority(uri)
  {
    hide SplitTarget, SplitHostURI, NormalPath, FullURIOf, Lowercase, HasAuthority;
    var s := SplitHostURI(host, uri);
    Reparse(host, uri, []);
    TargetQueryLacksHash(s.rest);
    SplitIsSlashFree(host, uri);
    AuthorityDecides(host, uri);
    LowercaseLaws(s.host);
  }

  // ---------------------------------------------------------------- what a parse returns

  /** A tidy path without escapes is its own normal form; '+' is not an escape in a path. */
  lemma NormalTidy(path: bytes)
    requires Tidy(path) && Lacks(path, PERCENT)
    ensures NormalPath(path) == path
  {
    hide Resolve, Unquote, At;
    UnquotePlain(path, false);
    TidyIsResolved(path);
  }

  lemma EmptyPath()
    ensures NormalPath([]) == STR_SLASH
  {
    hide Resolve;
    assert Tidy(STR_SLASH) by {
      forall k
        ensures !At(STR_SLASH, SLASH_SLASH, k) && !At(STR_SLASH, SLASH_DOT_SLASH, k) && !At(STR_SLASH, SLASH_DOT_DOT_SLASH, k)
      {
      }
    }
    TidyIsResolved(STR_SLASH);
    assert DecodedPath([]) == STR_SLASH;
  }

  /** The parts of a request target that RequestTarget puts together and a parse takes apart. */
  ghost predicate TargetParts(path: bytes, hasQuery: bool, query: bytes) {
    Lacks(path, QUESTION) && Lacks(path, HASH) && Lacks(query, HASH) && (hasQuery || query == [])
  }

  lemma ParseParts(caller: bytes, uri: bytes, s: Split, path: bytes, hasQuery: bool, query: bytes, hash: bytes)
    requires TargetParts(path, hasQuery, query)
    requires SplitHostURI(caller, uri) == s && s.rest == RequestTarget(path, hasQuery, query, hash)
    ensures ParseURI(caller, uri)
            == Fields(Lowercase(s.scheme), Lowercase(s.host), NormalPath(path), query, hash, [])
  {
    hide SplitHostURI, SplitTarget, RequestTarget, NormalPath, Lowercase;
    SplitPrintedTarget(path, hasQuery, query, hash);
  }

  /**
    A uri without authority: the host is the caller's, and path, query and hash are those written, the path
    normalised.
   */
  lemma ParseTarget(caller: bytes, path: bytes, hasQuery: bool, query: bytes, hash: bytes)
    requires TargetParts(path, hasQuery, query) && !HasAuthority(RequestTarget(path, hasQuery, query, hash))
    ensures ParseURI(caller, RequestTarget(path, hasQuery, query, hash))
            == Fields(STR_HTTP, Lowercase(caller), NormalPath(path), query, hash, [])
  {
    hide SplitHostURI, NormalPath, HasAuthority, ParseURI;
    var uri := RequestTarget(path, hasQuery, query, hash);
    AuthorityDecides(caller, uri);
    ParseParts(caller, uri, Split(STR_HTTP, caller, uri), path, hasQuery, query, hash);
  }

  /** A tidy path without escapes comes back as it is. */
  lemma ParseTidyTarget(caller: bytes, path: bytes, hasQuery: bool, query: bytes, hash: bytes)
    requires TargetParts(path, hasQuery, query) && Tidy(path) && Lacks(path, PERCENT)
    ensures ParseURI(caller, RequestTarget(path, hasQuery, query, hash))
            == Fields(STR_HTTP, Lowercase(caller), path, query, hash, [])
  {
    hide NormalPath, ParseURI;
    var uri := RequestTarget(path, hasQuery, query, hash);
    IndexByteUnique(uri, SLASH, 0);
    if |path| >= 2 {
      PatternBytes(path, 0);
      assert uri[1] == path[1];
    }
    assert !HasAuthority(uri);
    NormalTidy(path);
    ParseTarget(caller, path, hasQuery, query, hash);
  }

  /** Where an authority ends: at the first '/', else at the first '?', else with the text. */
  lemma AuthorityEnds(scheme: bytes, host: bytes, path: bytes, hasQuery: bool, query: bytes, hash: bytes)
    requires Lacks(host, SLASH) && Lacks(host, QUESTION) && (path == [] || Rooted(path))
    ensures var target := RequestTarget(path, hasQuery, query, hash);
            var s := SplitAuthority(scheme, host + target);
            && (s.host == host <==> path != [] || (Lacks(target, SLASH) && (hasQuery || hash == [])))
            && (s.host == host ==> s == Split(scheme, host, if target == [] then STR_SLASH else target))
  {
    hide IndexByte;
    var target := RequestTarget(path, hasQuery, query, hash);
    var u := host + target;
    assert u[..|host|] == host && u[|host|..] == target;
    if path != [] {
      IndexByteUnique(u, SLASH, |host|);
    } else if !Lacks(target, SLASH) {
      var k := IndexByte(target, SLASH);
      assert target[0] == if hasQuery then QUESTION else HASH;
      assert u[|host| + k] == SLASH && forall i :: 0 <= i < |host| + k ==> u[i] == if i < |host| then host[i] else target[i - |host|];
      IndexByteUnique(u, SLASH, |host| + k);
    } else {
      assert forall i :: 0 <= i < |u| ==> u[i] == if i < |host| then host[i] else target[i - |host|];
      assert Lacks(u, SLASH);
      AuthorityAtQuestion(host, target, hasQuery);
    }
  }

  lemma AuthorityAtQuestion(host: bytes, target: bytes, hasQuery: bool)
    requires Lacks(host, QUESTION) && (hasQuery ==> target != [] && target[0] == QUESTION)
    requires !hasQuery ==> target == [] || target[0] == HASH
    ensures var q := IndexByte(host + target, QUESTION);
            if hasQuery then q == |host| else q < 0 || q > |host|
  {
    hide IndexByte;
    var u := host + target;
    assert forall i :: 0 <= i < |host| ==> u[i] == host[i];
    assert target != [] ==> u[|host|] == target[0];
    if hasQuery {
      IndexByteUnique(u, QUESTION, |host|);
    }
  }

  /**
    A uri with an authority: scheme and host come back in lower case, the rest as written, the path normalised.
    The path may be missing in front of a query without '/', or altogether.
   */
  lemma ParseAbsolute(caller: bytes, scheme: bytes, colon: bool, host: bytes,
                      path: bytes, hasQuery: bool, query: bytes, hash: bytes)
    requires Lacks(scheme, SLASH) && (colon || scheme == [] || scheme[|scheme| - 1] != COLON)
    requires Lacks(host, SLASH) && Lacks(host, QUESTION)
    requires TargetParts(path, hasQuery, query)
    requires || Rooted(path)
             || (path == [] && Lacks(RequestTarget(path, hasQuery, query, hash), SLASH) && (hasQuery || hash == []))
    ensures ParseURI(caller, Prefix(scheme, colon) + (host + RequestTarget(path, hasQuery, query, hash)))
            == Fields(Lowercase(scheme), Lowercase(host), NormalPath(path), query, hash, [])
  {
    hide SplitHostURI, SplitAuthority, NormalPath, ParseURI, Prefix, Lowercase;
    var target := RequestTarget(path, hasQuery, query, hash);
    var uri := Prefix(scheme, colon) + (host + target);
    SplitScheme(caller, scheme, colon, host + target);
    AuthorityEnds(scheme, host, path, hasQuery, query, hash);
    if target == [] {
      assert RequestTarget(STR_SLASH, false, [], []) == STR_SLASH;
      assert hash == [] && query == [];
      ParseParts(caller, uri, Split(scheme, host, STR_SLASH), STR_SLASH, false, [], []);
      EmptyPath();
      RootIsNormal();
    } else {
      ParseParts(caller, uri, Split(scheme, host, target), path, hasQuery, query, hash);
    }
  }

  lemma RootIsNormal()
    ensures NormalPath(STR_SLASH) == STR_SLASH
  {
    hide Resolve;
    EmptyPath();
    assert DecodedPath(STR_SLASH) == STR_SLASH by { UnquotePlain(STR_SLASH, false); }
  }

  /** A path of safe bytes is printed as it is, and the parts follow with their marks. */
  lemma PrintPlain(u: Fields)
    requires u.path != [] && u.args == [] && forall i :: 0 <= i < |u.path| ==> Safe(PathAlphabet, u.path[i])
    ensures RequestURIOf(u) == RequestTarget(u.path, u.query != [], u.query, u.hash)
  {
    hide Quote, Safe;
    QuoteExactly(PathAlphabet, u.path);
  }

  /** "HTTP://Foo/b?x#h", parsed for any caller, is printed as "http://foo/b?x#h". */
  lemma PrintExample(caller: bytes)
    ensures var u := ParseURI(caller, [72, 84, 84, 80, 58, 47, 47, 70, 111, 111, 47, 98, 63, 120, 35, 104]);
            && u == Fields([104, 116, 116, 112], [102, 111, 111], [47, 98], [120], [104], [])
            && FullURIOf(u) == [104, 116, 116, 112] + ([58, 47, 47] + ([102, 111, 111] + ([47, 98] + ([63, 120] + [35, 104]))))
  {
    hide ParseURI, RequestURIOf, NormalPath, Tidy;
    var path: bytes := [SLASH, 98];
    assert [72, 84, 84, 80, 58, 47, 47, 70, 111, 111, 47, 98, 63, 120, 35, 104]
        == Prefix([72, 84, 84, 80], true) + ([70, 111, 111] + RequestTarget(path, true, [120], [104]));
    ParseAbsolute(caller, [72, 84, 84, 80], true, [70, 111, 111], path, true, [120], [104]);
    ShortPath(98);
    NormalTidy(path);
    assert Lowercase([72, 84, 84, 80]) == [104, 116, 116, 112] && Lowercase([70, 111, 111]) == [102, 111, 111];
    PrintPlain(Fields([104, 116, 116, 112], [102, 111, 111], path, [120], [104], []));
  }

  lemma ShortPath(c: byte)
    requires c != SLASH
    ensures Tidy([SLASH, c])
  {
    var p := [SLASH, c];
    forall k
      ensures !At(p, SLASH_SLASH, k) && !At(p, SLASH_DOT_SLASH, k) && !At(p, SLASH_DOT_DOT_SLASH, k)
    {
      PatternBytes(p, k);
    }
  }

  /** A pair for which it fails: the host "a/b" and the uri "/". */
  lemma SlashHostExample()
    ensures var u := ParseURI([97, SLASH, 98], [SLASH]); !SameURI(ParseURI([], FullURIOf(u)), u)
  {
    hide ParseURI, FullURIOf;
    ParsePrintFixpoint([97, SLASH, 98], [SLASH]);
    assert [97, SLASH, 98][1] == SLASH;
  }

  /**
    Arguments, where there are any, are printed instead of the query string: parsing the result yields those
    arguments, less the ones that are empty on both sides, and the same other parts.
   */
  lemma ArgsArePrinted(host: bytes, uri: bytes, args: seq<QA.ArgsKV>)
    requires (Lacks(host, SLASH) || HasAuthority(uri)) && args != []
    ensures var u := ParseURI(host, uri);
            var v := ParseURI([], FullURIOf(u.(args := args)));
            SameURI(v.(query := u.query), u) && QA.ParseArgs(v.query) == QA.WithoutBlanks(args)
  {
    hide SplitTarget, SplitHostURI, NormalPath, FullURIOf, QA.ParseArgs, QA.PrintArgs, Lowercase, HasAuthority;
    AuthorityDecides(host, uri);
    var s := SplitHostURI(host, uri);
    Reparse(host, uri, args);
    SplitIsSlashFree(host, uri);
    LowercaseLaws(s.host);
    QA.ParsePrint(args);
    PrintedArgsLackHash(args);
  }

  /** Once the query arguments have been parsed they are what is printed, and they too come back. */
  lemma ArgsSurviveReparse(host: bytes, uri: bytes)
    requires Lacks(host, SLASH) || HasAuthority(uri)
    ensures var u := ParseURI(host, uri);
            var v := ParseURI([], FullURIOf(u.(args := QA.ParseArgs(u.query))));
            && SameURI(v.(query := u.query), u)
            && QA.ParseArgs(v.query) == QA.ParseArgs(u.query)
  {
    hide SplitTarget, SplitHostURI, NormalPath, FullURIOf, QA.ParseArgs, QA.PrintArgs, Lowercase, HasAuthority;
    AuthorityDecides(host, uri);
    var u := ParseURI(host, uri);
    var s := SplitHostURI(host, uri);
    var args := QA.ParseArgs(u.query);
    Reparse(host, uri, args);
    TargetQueryLacksHash(s.rest);
    SplitIsSlashFree(host, uri);
    LowercaseLaws(s.host);
    QA.ParsePrintParse(u.query);
    PrintedArgsLackHash(args);
  }

  lemma {:induction false} PrintedArgsLackHash(args: seq<QA.ArgsKV>)
    ensures Lacks(QA.PrintArgs(args), HASH)
  {
    hide Quote;
    if args != [] {
      QuotedLacks(ArgAlphabet, args[0].key, HASH);
      QuotedLacks(ArgAlphabet, args[0].value, HASH);
      assert Lacks(QA.EncodePair(args[0]), HASH);
      PrintedArgsLackHash(args[1..]);
      assert Lacks(QA.PrintTail(args[1..]), HASH);
    }
  }
}
