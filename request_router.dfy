/** The request side of `handle_client_request`: the path taken from the
    request line, the first-match routing on it, and the `prefix` query
    parameter of `/snapshot` with its `%20` decoding and sanitisation. */
module RequestRouter {
  import opened Text

  /** The first index of `c` in `s`, or `|s|` when `c` does not occur. */
  function IndexOf(s: string, c: char): (k: nat)
    ensures k <= |s|
    ensures k < |s| ==> s[k] == c
    ensures forall j :: 0 <= j < k ==> s[j] != c
  {
    if s == [] then 0
    else if s[0] == c then 0
    else 1 + IndexOf(s[1..], c)
  }

  /** A one-character search from `from` is `IndexOf` on the rest. */
  lemma {:induction false} FindChar(s: string, c: char, from: nat)
    requires |s| < NPOS && from <= |s|
    ensures var k := IndexOf(s[from..], c);
            Find(s, [c], from) == if k == |s| - from then NPOS else from + k
    decreases |s| - from
  {
    if from < |s| {
      var t := s[from..];
      assert t[0] == s[from];
      if s[from] == c {
        assert s[from..from + 1] == [c];
      } else {
        assert s[from..from + 1] != [c] by {
          assert s[from..from + 1][0] == s[from];
        }
        assert t[1..] == s[from + 1..];
        FindChar(s, c, from + 1);
      }
    }
  }

  /** `request.substr(p, request.find(" ", p) - p)` with
      `p = request.find(" ") + 1` in `size_t`: with no space at all the
      search result `npos` wraps to `p == 0`. */
  function ExtractPath(request: string): (path: string)
    requires |request| < NPOS
    ensures var rest := request[PathStart(request)..];
            path == rest[..IndexOf(rest, ' ')]
    ensures ' ' !in path
  {
    var pathStart := PathStart(request);
    var pathEnd := Find(request, " ", pathStart);
    SpaceSearch(request, pathStart);
    SubstrToSpace(request, pathStart, pathEnd);
    Substr(request, pathStart, pathEnd - pathStart)
  }

  /** `request.find(" ") + 1` in `size_t`. */
  function PathStart(request: string): (p: nat)
    requires |request| < NPOS
    ensures p <= |request|
  {
    (Find(request, " ", 0) + 1) % SizeModulus
  }

  /** The path is the text after the first space up to the next space or the
      end; a request without any space is its own path. */
  lemma ExtractPathIsSecondWord(request: string)
    requires |request| < NPOS
    ensures var k := IndexOf(request, ' ');
            if k == |request| then ExtractPath(request) == request
            else var rest := request[k + 1..];
                 ExtractPath(request) == rest[..IndexOf(rest, ' ')]
  {
    var k := IndexOf(request, ' ');
    SpaceSearch(request, 0);
    assert request[0..] == request;
    if k == |request| {
      PathWithoutSpace(request);
    } else {
      PathAfterSpace(request, k);
    }
  }

  /** Without a space the search result wraps to the start and the path
      runs to the end. */
  lemma PathWithoutSpace(request: string)
    requires |request| < NPOS && Find(request, " ", 0) == NPOS
    ensures ExtractPath(request) == request
  {
    assert Find(request, " ", 0) + 1 == SizeModulus;
    assert SizeModulus % SizeModulus == 0;
    assert Substr(request, 0, NPOS) == request;
  }

  /** With the first space at `k` the path is the text after it up to the
      next space. */
  lemma PathAfterSpace(request: string, k: nat)
    requires |request| < NPOS && k < |request| && Find(request, " ", 0) == k
    ensures var rest := request[k + 1..];
            ExtractPath(request) == rest[..IndexOf(rest, ' ')]
  {
    PathStartAfter(request, k);
    SpaceSearch(request, k + 1);
    SubstrToSpace(request, k + 1, Find(request, " ", k + 1));
  }

  /** The text from `pos` up to a search result `e` for the next space. */
  lemma SubstrToSpace(s: string, pos: nat, e: nat)
    requires |s| < NPOS && pos <= |s|
    requires var m := IndexOf(s[pos..], ' ');
             e == if m == |s| - pos then NPOS else pos + m
    ensures Substr(s, pos, e - pos) == s[pos..][..IndexOf(s[pos..], ' ')]
  {
    var m := IndexOf(s[pos..], ' ');
    if m == |s| - pos {
      assert Substr(s, pos, e - pos) == s[pos..];
    } else {
      assert Substr(s, pos, m) == s[pos..pos + m];
    }
  }

  /** The path starts right after the first space. */
  lemma PathStartAfter(request: string, k: nat)
    requires |request| < NPOS && k < |request| && Find(request, " ", 0) == k
    ensures PathStart(request) == k + 1
  {
    SmallRemainder(k + 1);
  }

  /** `find(" ", from)` through `IndexOf`. */
  lemma SpaceSearch(s: string, from: nat)
    requires |s| < NPOS && from <= |s|
    ensures var k := IndexOf(s[from..], ' ');
            Find(s, " ", from) == if k == |s| - from then NPOS else from + k
  {
    assert " " == [' '];
    FindChar(s, ' ', from);
  }

  /** The outcome of the routing in `handle_client_request`. */
  datatype Route = Viewer | Stream | Stats | Snapshot | NotFound

  /** The `if` chain over `path.find(p) == 0` tests. */
  function RoutePath(path: string): (r: Route)
    requires |path| < NPOS
    ensures r == Viewer <==> IsViewerPath(path)
    ensures r == NotFound <==>
              !IsViewerPath(path) && !("/stream" <= path) && !("/stats" <= path)
              && !("/snapshot" <= path)
  {
    FindAtStart(path, "/viewer");
    FindAtStart(path, "/?");
    FindAtStart(path, "/stream");
    FindAtStart(path, "/stats");
    FindAtStart(path, "/snapshot");
    if path == "/" || Find(path, "/viewer", 0) == 0 || Find(path, "/?", 0) == 0 then Viewer
    else if Find(path, "/stream", 0) == 0 then Stream
    else if Find(path, "/stats", 0) == 0 then Stats
    else if Find(path, "/snapshot", 0) == 0 then Snapshot
    else NotFound
  }

  predicate IsViewerPath(path: string)
  {
    path == "/" || "/viewer" <= path || "/?" <= path
  }

  /** Routing is first match over prefixes in the order viewer, stream,
      stats, snapshot; every other path is not found. */
  lemma RouteFirstMatch(path: string)
    requires |path| < NPOS
    ensures RoutePath(path) == Viewer <==> IsViewerPath(path)
    ensures RoutePath(path) == Stream <==> !IsViewerPath(path) && "/stream" <= path
    ensures RoutePath(path) == Stats <==>
              !IsViewerPath(path) && !("/stream" <= path) && "/stats" <= path
    ensures RoutePath(path) == Snapshot <==>
              !IsViewerPath(path) && !("/stream" <= path) && !("/stats" <= path)
              && "/snapshot" <= path
    ensures RoutePath(path) == NotFound <==>
              !IsViewerPath(path) && !("/stream" <= path) && !("/stats" <= path)
              && !("/snapshot" <= path)
  {
    FindAtStart(path, "/viewer");
    FindAtStart(path, "/?");
    FindAtStart(path, "/stream");
    FindAtStart(path, "/stats");
    FindAtStart(path, "/snapshot");
  }

  const PrefixKey := "?prefix="
  const DefaultPrefix := "snapshot"

  /** The raw value of the `prefix` parameter: after the first `?prefix=`,
      up to the first `&` after it or the end of the path. */
  function QueryValue(path: string): (r: Option<string>)
    requires |path| < NPOS
    ensures r.Some? ==> '&' !in r.value && |r.value| <= |path|
  {
    var queryPos := Find(path, PrefixKey, 0);
    if queryPos == NPOS then None
    else
      var prefixStart := queryPos + 8;
      FindFirst(path, PrefixKey, 0);
      assert |PrefixKey| == 8 && OccursAt(path, PrefixKey, queryPos);
      assert "&" == ['&'];
      FindChar(path, '&', prefixStart);
      var found := Find(path, "&", prefixStart);
      ValueToAmpersand(path, prefixStart, found);
      var prefixEnd := if found == NPOS then |path| else found;
      Some(Substr(path, prefixStart, prefixEnd - prefixStart))
  }

  /** The parameter is absent exactly when `?prefix=` occurs nowhere. */
  lemma QueryAbsent(path: string)
    requires |path| < NPOS
    ensures QueryValue(path).None? <==> forall k: nat :: !OccursAt(path, PrefixKey, k)
  {
    FindFirst(path, PrefixKey, 0);
  }

  /** When it occurs, the value is the text after its first occurrence, cut
      before the first `&` after it. */
  lemma QueryValueCut(path: string)
    requires |path| < NPOS
    requires QueryValue(path).Some?
    ensures var q := Find(path, PrefixKey, 0);
            (forall k: nat :: k < q ==> !OccursAt(path, PrefixKey, k))
            && var rest := path[q + |PrefixKey|..];
               QueryValue(path).value == rest[..IndexOf(rest, '&')]
  {
    var q := Find(path, PrefixKey, 0);
    FindFirst(path, PrefixKey, 0);
    assert |PrefixKey| == 8;
    assert OccursAt(path, PrefixKey, q);
    assert "&" == ['&'];
    FindChar(path, '&', q + 8);
    var found := Find(path, "&", q + 8);
    ValueToAmpersand(path, q + 8, found);
    QueryValueFound(path, q, found);
  }

  /** The value once both searches have their results. */
  lemma QueryValueFound(path: string, q: nat, found: nat)
    requires |path| < NPOS && q == Find(path, PrefixKey, 0) && q + 8 <= |path|
    requires found == Find(path, "&", q + 8)
    ensures var e := if found == NPOS then |path| else found;
            QueryValue(path) == Some(Substr(path, q + 8, e - (q + 8)))
  {
  }

  /** The text from `pos` up to a search result `found` for the next `&`,
      or to the end when there is none. */
  lemma ValueToAmpersand(s: string, pos: nat, found: nat)
    requires |s| < NPOS && pos <= |s|
    requires var m := IndexOf(s[pos..], '&');
             found == if m == |s| - pos then NPOS else pos + m
    ensures var e := if found == NPOS then |s| else found;
            Substr(s, pos, e - pos) == s[pos..][..IndexOf(s[pos..], '&')]
  {
    var m := IndexOf(s[pos..], '&');
    if m == |s| - pos {
      assert Substr(s, pos, |s| - pos) == s[pos..];
    } else {
      assert Substr(s, pos, m) == s[pos..pos + m];
    }
  }

  /** A `%20` starts at index `k` of `s`. */
  predicate EncodedSpaceAt(s: string, k: nat)
  {
    k + 3 <= |s| && s[k] == '%' && s[k + 1] == '2' && s[k + 2] == '0'
  }

  predicate NoEncodedSpace(s: string)
  {
    forall k: nat :: k < |s| ==> !EncodedSpaceAt(s, k)
  }

  /** The character test agrees with the substring search the source does. */
  lemma EncodedSpaceIsOccurrence(s: string, k: nat)
    ensures EncodedSpaceAt(s, k) <==> OccursAt(s, "%20", k)
  {
    if k + 3 <= |s| {
      var w := s[k..k + 3];
      assert w[0] == s[k] && w[1] == s[k + 1] && w[2] == s[k + 2];
      if EncodedSpaceAt(s, k) {
        assert w == "%20";
      }
    }
  }

  /** `%20` turned into a space, scanning left to right: the meaning of the
      `find`/`replace` loop. */
  function DecodeSpaces(s: string): (r: string)
    ensures |r| <= |s|
    decreases |s|
  {
    if EncodedSpaceAt(s, 0) then " " + DecodeSpaces(s[3..])
    else if s == [] then []
    else [s[0]] + DecodeSpaces(s[1..])
  }

  /** Dropping the first character shifts every occurrence by one. */
  lemma EncodedSpaceShift(s: string, k: nat)
    requires s != []
    ensures EncodedSpaceAt(s[1..], k) <==> EncodedSpaceAt(s, k + 1)
  {
  }

  /** Text without any `%20` decodes to itself. */
  lemma {:induction false} DecodeNothing(s: string)
    requires NoEncodedSpace(s)
    ensures DecodeSpaces(s) == s
    decreases |s|
  {
    if s != [] {
      assert !EncodedSpaceAt(s, 0);
      forall k: nat ensures !EncodedSpaceAt(s[1..], k) {
        EncodedSpaceShift(s, k);
      }
      DecodeNothing(s[1..]);
    }
  }

  /** When the first `%20` at or after `from` starts at `found`, decoding
      from `from` copies the text before it and then emits a space. */
  lemma {:induction false} DecodeUpTo(s: string, from: nat, found: nat)
    requires from <= found && EncodedSpaceAt(s, found)
    requires forall k: nat :: from <= k < found ==> !EncodedSpaceAt(s, k)
    ensures DecodeSpaces(s[from..]) == s[from..found] + " " + DecodeSpaces(s[found + 3..])
    decreases found - from
  {
    var t := s[from..];
    EncodedSpaceDrop(s, from, 0);
    if from == found {
      assert t[3..] == s[found + 3..];
      assert s[from..found] == [];
    } else {
      assert t[1..] == s[from + 1..];
      DecodeUpTo(s, from + 1, found);
      assert s[from..found] == [s[from]] + s[from + 1..found];
    }
  }

  /** The first character decoding produces. */
  lemma DecodeHead(s: string)
    requires s != []
    ensures DecodeSpaces(s) != []
    ensures EncodedSpaceAt(s, 0) ==> DecodeSpaces(s)[0] == ' '
    ensures !EncodedSpaceAt(s, 0) ==>
              DecodeSpaces(s)[0] == s[0] && DecodeSpaces(s)[1..] == DecodeSpaces(s[1..])
  {
  }

  /** Decoding leaves no `%20` behind: a space never takes part in a new
      occurrence and every other character is copied in order. */
  lemma {:induction false} DecodeLeavesNoEncodedSpace(s: string)
    ensures NoEncodedSpace(DecodeSpaces(s))
    decreases |s|
  {
    if s == [] {
      return;
    }
    var r := DecodeSpaces(s);
    if EncodedSpaceAt(s, 0) {
      DecodeLeavesNoEncodedSpace(s[3..]);
      var r1 := DecodeSpaces(s[3..]);
      assert r == " " + r1;
      forall k: nat ensures !EncodedSpaceAt(r, k) {
        if k > 0 {
          assert !EncodedSpaceAt(r1, k - 1);
        }
      }
    } else {
      DecodeLeavesNoEncodedSpace(s[1..]);
      var r1 := DecodeSpaces(s[1..]);
      assert r == [s[0]] + r1;
      if |s| >= 2 {
        DecodeHead(s[1..]);
        assert s[1..][1..] == s[2..];
      }
      if |s| >= 3 {
        DecodeHead(s[2..]);
      }
      forall k: nat ensures !EncodedSpaceAt(r, k) {
        if k > 0 {
          assert !EncodedSpaceAt(r1, k - 1);
        }
      }
    }
  }

  /** Every `%20` in the input leaves a space in the output. */
  lemma {:induction false} EncodedSpaceDecodesToSpace(s: string, k: nat)
    requires EncodedSpaceAt(s, k)
    ensures ' ' in DecodeSpaces(s)
    decreases |s|
  {
    if EncodedSpaceAt(s, 0) {
      assert DecodeSpaces(s)[0] == ' ';
    } else {
      EncodedSpaceShift(s, k - 1);
      EncodedSpaceDecodesToSpace(s[1..], k - 1);
      var r1 := DecodeSpaces(s[1..]);
      var i :| 0 <= i < |r1| && r1[i] == ' ';
      assert DecodeSpaces(s)[i + 1] == ' ';
    }
  }

  /** The loop ends when no `%20` is left from `pos` on: the rest decodes to
      itself. */
  lemma DecodeExit(r: string, pos: nat)
    requires |r| < NPOS && pos <= |r| && Find(r, "%20", pos) == NPOS
    ensures r[..pos] + DecodeSpaces(r[pos..]) == r
  {
    FindFirst(r, "%20", pos);
    NoEncodedSpaceFrom(r, pos);
    DecodeNothing(r[pos..]);
    SplitJoin(r, pos);
  }

  lemma SplitJoin(r: string, pos: nat)
    requires pos <= |r|
    ensures r[..pos] + r[pos..] == r
  {
  }

  /** No occurrence of `%20` from `pos` on leaves the rest free of them. */
  lemma NoEncodedSpaceFrom(r: string, pos: nat)
    requires pos <= |r|
    requires forall k :: pos <= k ==> !OccursAt(r, "%20", k)
    ensures NoEncodedSpace(r[pos..])
  {
    forall k: nat | k < |r[pos..]| ensures !EncodedSpaceAt(r[pos..], k) {
      EncodedSpaceIsOccurrence(r, pos + k);
      EncodedSpaceDrop(r, pos, k);
    }
  }

  /** An occurrence in the rest from `pos` is one in the whole text. */
  lemma EncodedSpaceDrop(r: string, pos: nat, k: nat)
    requires pos <= |r|
    ensures EncodedSpaceAt(r[pos..], k) <==> EncodedSpaceAt(r, pos + k)
  {
  }

  /** A hit of the search, read as characters. */
  lemma FoundEncodedSpace(r: string, pos: nat, found: nat)
    requires |r| < NPOS && pos <= |r|
    requires found == Find(r, "%20", pos) && found != NPOS
    ensures pos <= found && EncodedSpaceAt(r, found)
    ensures forall k: nat :: pos <= k < found ==> !EncodedSpaceAt(r, k)
  {
    EncodedSpaceIsOccurrence(r, found);
    FindFirst(r, "%20", pos);
    forall k: nat | pos <= k < found ensures !EncodedSpaceAt(r, k) {
      EncodedSpaceIsOccurrence(r, k);
    }
  }

  /** One `replace(found, 3, " ")` and `pos = found + 1` keep the decoded
      text the same. */
  lemma DecodeReplace(r: string, pos: nat, found: nat, r': string)
    requires pos <= found && EncodedSpaceAt(r, found)
    requires forall k: nat :: pos <= k < found ==> !EncodedSpaceAt(r, k)
    requires r' == r[..found] + " " + r[found + 3..]
    ensures |r'| == |r| - 2 && found + 1 <= |r'|
    ensures r[..pos] + DecodeSpaces(r[pos..]) == r'[..found + 1] + DecodeSpaces(r'[found + 1..])
  {
    DecodeUpTo(r, pos, found);
    var tail := DecodeSpaces(r[found + 3..]);
    calc {
      r[..pos] + DecodeSpaces(r[pos..]);
      r[..pos] + (r[pos..found] + " " + tail);
      { assert r[..pos] + r[pos..found] == r[..found]; }
      r[..found] + " " + tail;
      { assert r'[..found + 1] == r[..found] + " "; assert r'[found + 1..] == r[found + 3..]; }
      r'[..found + 1] + DecodeSpaces(r'[found + 1..]);
    }
  }

  /** The `while ((pos = prefix.find("%20", pos)) != npos)` loop: each hit is
      replaced in place by one space and the search resumes after it. */
  method DecodeSpacesInPlace(value: string) returns (r: string)
    requires |value| < NPOS
    ensures r == DecodeSpaces(value)
  {
    r := value;
    var pos: nat := 0;
    assert r[pos..] == r;
    while true
      invariant pos <= |r| <= |value|
      invariant DecodeSpaces(value) == r[..pos] + DecodeSpaces(r[pos..])
      decreases |r| - pos
    {
      var found := Find(r, "%20", pos);
      if found == NPOS {
        DecodeExit(r, pos);
        return;
      }
      FoundEncodedSpace(r, pos, found);
      var r' := r[..found] + " " + r[found + 3..];
      DecodeReplace(r, pos, found, r');
      r, pos := r', found + 1;
    }
  }

  /** The `for (char c : prefix)` check with its early `break`. */
  method IsValidPrefix(prefix: string) returns (valid: bool)
    ensures valid <==> AllNameChars(prefix)
  {
    valid := true;
    for i := 0 to |prefix|
      invariant valid
      invariant forall j :: 0 <= j < i ==> IsNameChar(prefix[j])
    {
      if !IsNameChar(prefix[i]) {
        valid := false;
        break;
      }
    }
  }

  /** The prefix handed to the snapshot handler. */
  function SnapshotPrefix(path: string): (prefix: string)
    requires |path| < NPOS
    ensures prefix != [] && AllNameChars(prefix)
  {
    assert AllNameChars(DefaultPrefix) by {
      forall i | 0 <= i < |DefaultPrefix| ensures IsNameChar(DefaultPrefix[i]) {
        assert 'a' <= DefaultPrefix[i] <= 'z';
      }
    }
    match QueryValue(path)
    case None => DefaultPrefix
    case Some(v) =>
      var decoded := DecodeSpaces(v);
      if !AllNameChars(decoded) || decoded == [] then DefaultPrefix else decoded
  }

  /** The statements of lines 526-554 of the handler, written as the source
      writes them. */
  method ParsePrefixParameter(path: string) returns (prefix: string)
    requires |path| < NPOS
    ensures prefix == SnapshotPrefix(path)
  {
    prefix := DefaultPrefix;
    var queryPos := Find(path, PrefixKey, 0);
    if queryPos != NPOS {
      var prefixStart := queryPos + 8;
      var prefixEnd := Find(path, "&", prefixStart);
      if prefixEnd == NPOS {
        prefixEnd := |path|;
      }
      prefix := Substr(path, prefixStart, prefixEnd - prefixStart);
      prefix := DecodeSpacesInPlace(prefix);
      var valid := IsValidPrefix(prefix);
      if !valid || prefix == [] {
        prefix := DefaultPrefix;
      }
    }
  }

  /** Without `?prefix=` the default name is used. */
  lemma PrefixDefaultWhenAbsent(path: string)
    requires |path| < NPOS
    requires forall k: nat :: !OccursAt(path, PrefixKey, k)
    ensures SnapshotPrefix(path) == DefaultPrefix
  {
    QueryAbsent(path);
  }

  /** A non-empty value made of letters, digits, `_` and `-` is used as is. */
  lemma PrefixPassesThrough(path: string)
    requires |path| < NPOS
    requires QueryValue(path).Some?
    requires var v := QueryValue(path).value; v != [] && AllNameChars(v)
    ensures SnapshotPrefix(path) == QueryValue(path).value
  {
    var v := QueryValue(path).value;
    forall k: nat ensures !EncodedSpaceAt(v, k) {
      if k < |v| {
        assert IsNameChar(v[k]);
      }
    }
    DecodeNothing(v);
  }

  /** An empty value or one with any other character falls back to the
      default. */
  lemma PrefixInvalidFallsBack(path: string)
    requires |path| < NPOS
    requires QueryValue(path).Some?
    requires var d := DecodeSpaces(QueryValue(path).value); d == [] || !AllNameChars(d)
    ensures SnapshotPrefix(path) == DefaultPrefix
  {
  }

  /** A `%20` anywhere in the value becomes a space, which the check rejects. */
  lemma EncodedSpaceForcesDefault(path: string, k: nat)
    requires |path| < NPOS
    requires QueryValue(path).Some? && EncodedSpaceAt(QueryValue(path).value, k)
    ensures SnapshotPrefix(path) == DefaultPrefix
  {
    EncodedSpaceDecodesToSpace(QueryValue(path).value, k);
  }
}
