/**
 Where a Git credential may go (pkg/gitprofile/profile.go), said of the parts of a URL themselves: scheme,
 host, port and path segments.
 */
module GitDestinations {
  import opened Text
  import opened GitProfile

  // ---------------------------------------------------------------- hosts and ports

  predicate SameLetter(c: char, d: char) {
    || c == d
    || ('A' <= c <= 'Z' && 'a' <= d <= 'z' && d - c == 'a' - 'A')
    || ('A' <= d <= 'Z' && 'a' <= c <= 'z' && c - d == 'a' - 'A')
  }

  /** The same host, but for the case of letters. */
  predicate SameHost(a: string, b: string) {
    |a| == |b| && forall i :: 0 <= i < |a| ==> SameLetter(a[i], b[i])
  }

  lemma LowerExactly(a: string, b: string)
    ensures Lower(a) == Lower(b) <==> SameHost(a, b)
  {
    assert |Lower(a)| == |a| && |Lower(b)| == |b|;
    if SameHost(a, b) {
      forall i | 0 <= i < |a|
        ensures Lower(a)[i] == Lower(b)[i]
      {
        assert SameLetter(a[i], b[i]);
      }
    }
    if Lower(a) == Lower(b) {
      forall i | 0 <= i < |a|
        ensures SameLetter(a[i], b[i])
      {
        assert LowerChar(a[i]) == Lower(a)[i] == Lower(b)[i] == LowerChar(b[i]);
      }
    }
  }

  /** What parsing a URL and checking its scheme guarantee. */
  predicate Parsed(u: Endpoint) {
    (u.scheme == "http" || u.scheme == "https") && AllDigits(u.port)
  }

  /** The port a URL leads to: 80 for http and 443 for https, unless it says another. */
  function Port(u: Endpoint): string
    requires Parsed(u)
  {
    if u.port != "" then u.port else if u.scheme == "https" then "443" else "80"
  }

  lemma LastColon(a: string, p: string, b: string, q: string)
    requires ':' !in p && ':' !in q && a + (":" + p) == b + (":" + q)
    ensures a == b && p == q
  {
    var s, t := a + (":" + p), b + (":" + q);
    assert s[|a|] == ':' && t[|b|] == ':';
    assert forall k :: |a| < k < |s| ==> s[k] == p[k - |a| - 1];
    assert forall k :: |b| < k < |t| ==> t[k] == q[k - |b| - 1];
    assert s[..|a|] == a && t[..|b|] == b && s[|a| + 1..] == p && t[|b| + 1..] == q;
  }

  lemma AuthorityExactly(a: Endpoint, b: Endpoint)
    requires Parsed(a) && Parsed(b)
    ensures Authority(a) == Authority(b) <==> SameHost(a.host, b.host) && Port(a) == Port(b)
  {
    LowerExactly(a.host, b.host);
    hide Lower, SameHost;
    assert Authority(a) == Lower(a.host) + (":" + Port(a)) && Authority(b) == Lower(b.host) + (":" + Port(b));
    assert ':' !in Port(a) && ':' !in Port(b) by {
      assert AllDigits("80") && AllDigits("443");
      DigitsHoldNoColon(Port(a));
      DigitsHoldNoColon(Port(b));
    }
    if Authority(a) == Authority(b) {
      LastColon(Lower(a.host), Port(a), Lower(b.host), Port(b));
    }
  }

  lemma DigitsHoldNoColon(p: string)
    requires AllDigits(p)
    ensures ':' !in p
  {
  }

  // ---------------------------------------------------------------- path segments

  function NonEmpty(parts: seq<string>): seq<string> {
    if parts == [] then [] else (if parts[0] == "" then [] else [parts[0]]) + NonEmpty(parts[1..])
  }

  /** The segments of a path: what stands between its slashes. */
  function Pieces(path: string): seq<string> {
    NonEmpty(Split(path, '/'))
  }

  /** Segments that cleaning a path keeps where they are. */
  predicate Proper(parts: seq<string>) {
    Segments(parts) && forall i :: 0 <= i < |parts| ==> parts[i] != "." && parts[i] != ".."
  }

  lemma {:induction false} KeptProper(parts: seq<string>)
    requires forall i :: 0 <= i < |parts| ==> '/' !in parts[i]
    ensures Proper(Kept(parts))
  {
    if parts != [] {
      KeptProper(parts[..|parts| - 1]);
    }
  }

  lemma {:induction false} KeptConcat(before: seq<string>, parts: seq<string>)
    requires Proper(parts)
    ensures Kept(before + parts) == Kept(before) + parts
  {
    if parts == [] {
      assert before + parts == before;
    } else {
      var front, last := parts[..|parts| - 1], parts[|parts| - 1];
      KeptConcat(before, front);
      assert (before + parts)[..|before + parts| - 1] == before + front;
      assert parts == front + [last];
    }
  }

  lemma KeptEmptyEnd(parts: seq<string>)
    ensures Kept(parts + [""]) == Kept(parts)
  {
    assert (parts + [""])[..|parts|] == parts;
  }

  lemma {:induction false} NonEmptyConcat(a: seq<string>, b: seq<string>)
    ensures NonEmpty(a + b) == NonEmpty(a) + NonEmpty(b)
  {
    if a == [] {
      assert a + b == b;
    } else {
      assert (a + b)[1..] == a[1..] + b;
      NonEmptyConcat(a[1..], b);
    }
  }

  lemma {:induction false} NonEmptySegments(parts: seq<string>)
    requires Segments(parts)
    ensures NonEmpty(parts) == parts
  {
    if parts != [] {
      NonEmptySegments(parts[1..]);
      assert parts == [parts[0]] + parts[1..];
    }
  }

  lemma {:induction false} SplitJoin(parts: seq<string>)
    requires parts != [] && Segments(parts)
    ensures Split(Join(parts, '/'), '/') == parts
  {
    if |parts| == 1 {
      SplitWithoutSeparator(parts[0], '/');
    } else {
      SplitJoin(parts[1..]);
      SplitAtSeparator(parts[0], Join(parts[1..], '/'), '/');
    }
  }

  lemma SplitShapes(s: string)
    ensures Split("/" + s, '/') == [""] + Split(s, '/') && Split(s + "/", '/') == Split(s, '/') + [""]
    ensures Split("/" + s + "/", '/') == [""] + Split(s, '/') + [""]
  {
    EmptyText();
    hide Split;
    SplitConcat("", s, '/');
    assert "" + ['/'] + s == "/" + s;
    SplitConcat(s, "", '/');
    assert s + ['/'] + "" == s + "/";
    SplitConcat("/" + s, "", '/');
    assert "/" + s + ['/'] + "" == "/" + s + "/";
  }

  lemma NonEmptyShapes(split: seq<string>)
    ensures NonEmpty([""] + split) == NonEmpty(split) && NonEmpty(split + [""]) == NonEmpty(split)
    ensures NonEmpty([""] + split + [""]) == NonEmpty(split)
  {
    EmptyText();
    hide NonEmpty;
    NonEmptyConcat([""], split);
    NonEmptyConcat(split, [""]);
    NonEmptyConcat([""] + split, [""]);
  }

  /** The parts of joined segments are those segments, or one empty part if there are none. */
  lemma JoinedParts(parts: seq<string>)
    requires Proper(parts)
    ensures var split := Split(Join(parts, '/'), '/');
            && NonEmpty(split) == parts && Kept([""] + split) == parts && Kept([""] + split + [""]) == parts
  {
    EmptyText();
    var split := Split(Join(parts, '/'), '/');
    if parts == [] {
      KeptEmptyEnd([""]);
      assert split == [""];
    } else {
      SplitJoin(parts);
      NonEmptySegments(parts);
      hide Split, Kept;
      KeptConcat([""], parts);
      assert [] + parts == parts;
    }
    hide Split, Kept;
    KeptEmptyEnd([""] + split);
  }

  /** A path made of segments, with or without slashes at its ends, has those segments, and cleaning it keeps them. */
  lemma SegmentsOf(parts: seq<string>)
    requires Proper(parts)
    ensures var s := Join(parts, '/');
            && Pieces(s) == parts && Pieces(s + "/") == parts && Pieces("/" + s) == parts && Pieces("/" + s + "/") == parts
            && Clean("/" + s) == "/" + s && Clean("/" + s + "/") == "/" + s
  {
    hide Split, Kept, NonEmpty, Join, Proper;
    SplitShapes(Join(parts, '/'));
    JoinedParts(parts);
    NonEmptyShapes(Split(Join(parts, '/'), '/'));
  }

  lemma EmptyText()
    ensures Split("", '/') == [""] && NonEmpty([""]) == [] && Kept([""]) == [] && Kept([]) == []
  {
    assert [""][1..] == [] && [""][..0] == [];
  }

  lemma EndsOf(parts: seq<string>)
    requires Proper(parts)
    ensures var s := Join(parts, '/');
            && TrimSuffix("/" + s + "/", '/') == "/" + s && TrimSuffix(s + "/", '/') == s && TrimSuffix(s, '/') == s
            && (parts != [] ==> TrimSuffix("/" + s, '/') == "/" + s && TrimPrefix(s, '/') == s && TrimPrefix(s + "/", '/') == s + "/")
  {
    var s := Join(parts, '/');
    assert ("/" + s + "/")[..|s| + 1] == "/" + s && (s + "/")[..|s|] == s;
    if parts != [] {
      JoinEnds(parts);
    }
  }

  /** No line breaks, no NUL and no backslash. */
  predicate CleanCharacters(path: string) {
    forall c :: c in ['\r', '\n', '\0', '\\'] ==> c !in path
  }

  lemma CleanSegments(path: string)
    ensures Proper(Kept(Split(path, '/'))) && Clean(path) == "/" + Join(Kept(Split(path, '/')), '/')
  {
    SplitHasNoSeparator(path, '/');
    KeptProper(Split(path, '/'));
  }

  /** A text, with a slash at its end or none. */
  predicate Spells(path: string, text: string) {
    path == text || path == text + "/"
  }

  lemma TrimmedSpells(path: string, text: string)
    ensures TrimSuffix(path, '/') == text ==> Spells(path, text)
  {
  }

  /** The paths a profile may hold: nothing, or proper segments behind one slash, with one more at the end or none. */
  lemma ValidPathExactly(path: string)
    ensures ValidPath(path) <==>
              CleanCharacters(path) && (path == "" || exists parts :: Proper(parts) && Spells(path, "/" + Join(parts, '/')))
  {
    assert ValidPath(path) <==>
           CleanCharacters(path)
           && (path == "" || (path[0] == '/' && (path == "/" || Clean(path) == TrimSuffix(path, '/'))));
    hide ValidPath, CleanCharacters, Split, Kept, Clean, TrimSuffix, Pieces, Proper;
    if path != "" && path[0] == '/' && (path == "/" || Clean(path) == TrimSuffix(path, '/')) {
      if path == "/" {
        NoParts();
        assert Spells(path, "/" + Join([], '/'));
      } else {
        CleanSegments(path);
        TrimmedSpells(path, "/" + Join(Kept(Split(path, '/')), '/'));
      }
    }
    forall parts | Proper(parts) && Spells(path, "/" + Join(parts, '/'))
      ensures path[0] == '/' && (path == "/" || Clean(path) == TrimSuffix(path, '/'))
    {
      SegmentsOf(parts);
      EndsOf(parts);
    }
  }

  lemma NoParts()
    ensures Proper([]) && Join([], '/') == ""
  {
  }

  lemma RequestCharacters(path: string)
    ensures ProtocolValue(path) && '\\' !in path <==> |path| <= 65000 && CleanCharacters(path)
  {
  }

  /** The request paths that are looked up: proper segments, with a slash at the end or none. */
  lemma ValidRequestPathExactly(path: string)
    ensures ValidRequestPath(path) <==>
              && |path| <= 65000 && CleanCharacters(path)
              && exists parts :: Proper(parts) && Spells(path, Join(parts, '/'))
  {
    RequestCharacters(path);
    hide ProtocolValue, CleanCharacters, Split, Kept, Clean, TrimSuffix, Pieces, Proper;
    if path == "" {
      NoParts();
      assert Spells(path, Join([], '/'));
    } else {
      if Clean("/" + path) == "/" + TrimSuffix(path, '/') {
        var parts := Kept(Split("/" + path, '/'));
        CleanSegments("/" + path);
        assert ("/" + TrimSuffix(path, '/'))[1..] == TrimSuffix(path, '/');
        assert ("/" + Join(parts, '/'))[1..] == Join(parts, '/');
        TrimmedSpells(path, Join(parts, '/'));
      }
      forall parts | Proper(parts) && Spells(path, Join(parts, '/'))
        ensures Clean("/" + path) == "/" + TrimSuffix(path, '/')
      {
        SegmentsOf(parts);
        EndsOf(parts);
        assert "/" + (Join(parts, '/') + "/") == "/" + Join(parts, '/') + "/";
      }
    }
  }

  // ---------------------------------------------------------------- scopes as prefixes

  /** Every segment with a slash behind it. */
  function Terminated(parts: seq<string>): string {
    if parts == [] then "" else parts[0] + "/" + Terminated(parts[1..])
  }

  lemma {:induction false} JoinTerminated(parts: seq<string>)
    requires parts != []
    ensures Join(parts, '/') + "/" == Terminated(parts)
  {
    if |parts| == 1 {
      assert parts[1..] == [] && Terminated([]) == "";
    } else {
      JoinTerminated(parts[1..]);
      assert parts[0] + ['/'] + Join(parts[1..], '/') + "/" == parts[0] + "/" + (Join(parts[1..], '/') + "/");
    }
  }

  /** Where texts begin alike, segments do. */
  lemma {:induction false} PrefixTerminated(s: seq<string>, r: seq<string>)
    requires Segments(s) && Segments(r)
    ensures Terminated(s) <= Terminated(r) <==> s <= r
  {
    if s != [] {
      if r == [] {
        assert |Terminated(s)| > 0;
      } else {
        SegmentHead(s[0], Terminated(s[1..]), r[0], Terminated(r[1..]));
        PrefixTerminated(s[1..], r[1..]);
        assert s == [s[0]] + s[1..] && r == [r[0]] + r[1..];
        if s[0] == r[0] && s[1..] <= r[1..] {
          assert r[..|s|] == [r[0]] + r[1..][..|s| - 1];
        }
        if s <= r {
          assert r[1..][..|s| - 1] == r[..|s|][1..] == s[1..];
        }
      }
    }
  }

  lemma SegmentHead(a: string, x: string, b: string, y: string)
    requires '/' !in a && '/' !in b
    ensures a + "/" + x <= b + "/" + y <==> a == b && x <= y
  {
    var s, t := a + "/" + x, b + "/" + y;
    assert s[|a|] == '/' && t[|b|] == '/' && s[..|a|] == a && t[..|b|] == b;
    assert s[|a| + 1..] == x && t[|b| + 1..] == y;
    assert forall k :: 0 <= k < |a| ==> s[k] == a[k];
    assert forall k :: 0 <= k < |b| ==> t[k] == b[k];
    if s <= t {
      assert forall k :: 0 <= k < |s| ==> t[k] == s[k];
      assert |a| == |b| && a == b;
      assert t[|a| + 1..][..|x|] == t[..|s|][|a| + 1..];
    }
    if a == b && x <= y {
      assert t[..|s|] == a + "/" + y[..|x|];
    }
  }

  /** The segments of a valid path, and of a request path that is looked up. */
  lemma PathParts(path: string) returns (parts: seq<string>)
    requires ValidPath(path)
    ensures Proper(parts) && Segments(parts) && Pieces(path) == parts && Trim(path, '/') == Join(parts, '/')
  {
    ValidPathExactly(path);
    if path == "" {
      parts := [];
      NoParts();
      EmptyText();
    } else {
      parts :| Proper(parts) && Spells(path, "/" + Join(parts, '/'));
      hide ValidPath, Split, Pieces, Clean, Kept;
      SegmentsOf(parts);
      if parts == [] {
        NoParts();
        OnlySlashes(path);
      } else {
        JoinEnds(parts);
        EndsOf(parts);
        hide TrimSuffix, Trim, Join;
        TrimBoth(path, Join(parts, '/'));
      }
    }
  }

  lemma OnlySlashes(path: string)
    requires path == "/" || path == "//"
    ensures Trim(path, '/') == "" && TrimPrefix("/", '/') == ""
  {
    assert "//"[1..] == "/" && "/"[1..] == "";
  }

  lemma RequestParts(path: string) returns (parts: seq<string>)
    requires ValidRequestPath(path)
    ensures Proper(parts) && Segments(parts) && Pieces(path) == parts
    ensures TrimPrefix(path, '/') == Join(parts, '/') || (parts != [] && TrimPrefix(path, '/') == Join(parts, '/') + "/")
  {
    ValidRequestPathExactly(path);
    parts :| Proper(parts) && Spells(path, Join(parts, '/'));
    hide ValidRequestPath, Split, Pieces, Clean, Kept;
    SegmentsOf(parts);
    EndsOf(parts);
    if parts == [] {
      NoParts();
      OnlySlashes("/");
    }
  }

  /** A scope covers a request exactly when its segments are the first segments of the request. */
  lemma CoversExactly(scope: string, request: string)
    requires ValidPath(scope) && ValidRequestPath(request)
    ensures PathMatches(scope, request) <==> Pieces(scope) <= Pieces(request)
  {
    var s := PathParts(scope);
    var r := RequestParts(request);
    hide ValidPath, ValidRequestPath, Pieces, Trim, TrimPrefix;
    if s != [] {
      JoinEnds(s);
      JoinTerminated(s);
      var text := Join(s, '/');
      if r == [] {
        assert Join(r, '/') == "";
      } else {
        JoinTerminated(r);
        PrefixTerminated(s, r);
        EndingSlash(text, Join(r, '/'));
      }
    }
  }

  lemma EndingSlash(s: string, r: string)
    requires s != "" && s[|s| - 1] != '/'
    ensures r == s || HasPrefix(r, s + "/") <==> s + "/" <= r + "/"
    ensures r + "/" == s || HasPrefix(r + "/", s + "/") <==> s + "/" <= r + "/"
  {
    assert r + "/" != s by {
      assert (r + "/")[|r|] == '/';
    }
    if s + "/" <= r + "/" {
      assert (r + "/")[..|s| + 1] == s + "/";
      if |s| == |r| {
        assert (r + "/")[..|r|] == r && (s + "/")[..|s|] == s;
        assert r == s;
      } else {
        assert r[..|s| + 1] == (r + "/")[..|s| + 1];
      }
    }
    if HasPrefix(r, s + "/") {
      assert (r + "/")[..|s| + 1] == r[..|s| + 1];
    }
  }

  // ---------------------------------------------------------------- destinations

  /** Scheme, host and port are those of the target, and the path leads down to it. */
  predicate LeadsTo(u: Endpoint, target: Endpoint)
    requires Parsed(u) && Parsed(target)
  {
    && u.scheme == target.scheme && SameHost(u.host, target.host) && Port(u) == Port(target)
    && Pieces(u.path) <= Pieces(target.path)
  }

  lemma AnswersExactly(e: Entry, target: Endpoint)
    requires Parsed(e.url) && Parsed(target) && ValidPath(e.url.path) && ValidRequestPath(target.path)
    ensures Answers(e, target) <==> LeadsTo(e.url, target)
  {
    AuthorityExactly(e.url, target);
    CoversExactly(e.url.path, target.path);
    hide Authority, PathMatches, Pieces, SameHost, Port, ValidPath, ValidRequestPath;
  }

  lemma {:induction false} TerminatedGrows(s: seq<string>, t: seq<string>)
    requires s <= t
    ensures |Terminated(s)| <= |Terminated(t)|
    ensures |s| < |t| ==> |Terminated(s)| < |Terminated(t)|
  {
    if s != [] {
      assert t[1..][..|s| - 1] == t[..|s|][1..] == s[1..];
      TerminatedGrows(s[1..], t[1..]);
    }
  }

  lemma LongerJoinHasMore(s: seq<string>, t: seq<string>, target: seq<string>)
    requires Segments(s) && Segments(t) && s <= target && t <= target
    ensures |Join(s, '/')| < |Join(t, '/')| <==> |s| < |t|
  {
    hide Join, Terminated, Segments;
    JoinedLength(s);
    JoinedLength(t);
    if |s| == |t| {
      assert s == target[..|s|] == t;
    } else if |s| < |t| {
      assert s == t[..|s|];
      TerminatedGrows(s, t);
    } else {
      assert t == s[..|t|];
      TerminatedGrows(t, s);
    }
  }

  /** Of two scopes that lead to a target, the one with the longer text has more segments. */
  lemma LongerHasMore(a: string, b: string, target: seq<string>)
    requires ValidPath(a) && ValidPath(b) && Pieces(a) <= target && Pieces(b) <= target
    ensures |Trim(a, '/')| < |Trim(b, '/')| <==> |Pieces(a)| < |Pieces(b)|
  {
    hide ValidPath, Pieces, Trim, Join, Segments, Proper;
    var s := PathParts(a);
    var t := PathParts(b);
    LongerJoinHasMore(s, t, target);
  }

  lemma JoinedLength(s: seq<string>)
    requires Segments(s)
    ensures |Join(s, '/')| == if s == [] then 0 else |Terminated(s)| - 1
    ensures s != [] ==> |Join(s, '/')| > 0
  {
    if s != [] {
      JoinTerminated(s);
      JoinEnds(s);
    }
  }

  /**
   What Match returns, in the parts of the URLs alone: the entry that leads to the target along the most
   segments, if the request is clean and that entry holds a secret for the user. So a secret only goes to the
   scheme, host and port of its entry, and below its path.
   */
  lemma MatchedPlaceExactly(entries: seq<Entry>, target: Endpoint, username: string, e: Entry)
    requires ValidProfile(entries) && Parsed(target)
    requires forall f :: f in entries ==> Parsed(f.url) && f.url.path != "//"
    ensures Matched(entries, target, username) == Some(e) <==>
              && ValidRequestPath(target.path)
              && e in entries && LeadsTo(e.url, target)
              && (forall f :: f in entries && LeadsTo(f.url, target) && f != e ==> |Pieces(f.url.path)| < |Pieces(e.url.path)|)
              && e.secretRef != "" && (username == "" || username == e.username)
  {
    MatchedExactly(entries, target, username, e);
    if ValidRequestPath(target.path) && e in entries {
      assert forall f :: f in entries ==> ValidPath(f.url.path);
      forall f | f in entries
        ensures Answers(f, target) <==> LeadsTo(f.url, target)
      {
        AnswersExactly(f, target);
      }
      hide Answers, ValidPath, ValidProfile, ValidRequestPath, Matched;
      forall f | f in entries && LeadsTo(f.url, target) && LeadsTo(e.url, target)
        ensures |Trim(f.url.path, '/')| < |Trim(e.url.path, '/')| <==> |Pieces(f.url.path)| < |Pieces(e.url.path)|
      {
        LongerHasMore(f.url.path, e.url.path, Pieces(target.path));
      }
      hide Trim, Pieces, SameHost, Port;
    }
  }

  /** Whatever the profile, also with a path of two slashes: a returned entry leads to the target. */
  lemma MatchedLeads(entries: seq<Entry>, target: Endpoint, username: string)
    requires ValidProfile(entries) && Parsed(target) && forall f :: f in entries ==> Parsed(f.url)
    ensures Matched(entries, target, username).Some? ==>
              var e := Matched(entries, target, username).value;
              e in entries && LeadsTo(e.url, target) && e.secretRef != "" && (username == "" || username == e.username)
  {
    SelectedIsLongest(entries, target);
    if Matched(entries, target, username).Some? {
      var e := Matched(entries, target, username).value;
      AnswersExactly(e, target);
    }
  }
}
