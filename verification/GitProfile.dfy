/**
 Git credential profiles (pkg/gitprofile/profile.go): which entry answers for a destination. URLs are
 taken as parsed; paths, their cleaning and the choice of the longest scope are modelled in full.
 */
module GitProfile {
  import opened Text

  datatype Endpoint = Endpoint(scheme: string, host: string, port: string, path: string)

  datatype Entry = Entry(url: Endpoint, username: string, secretRef: string)

  function LowerChar(c: char): char {
    if 'A' <= c <= 'Z' then c - 'A' + 'a' else c
  }

  function Lower(s: string): string {
    seq(|s|, i requires 0 <= i < |s| => LowerChar(s[i]))
  }

  function Authority(u: Endpoint): string {
    Lower(u.host) + ":" + (if u.port != "" then u.port else if u.scheme == "http" then "80" else "443")
  }

  // ---------------------------------------------------------------- paths

  /** The segments path.Clean keeps of a rooted path. */
  function Kept(segments: seq<string>): seq<string> {
    if segments == [] then []
    else
      var front, last := Kept(segments[..|segments| - 1]), segments[|segments| - 1];
      if last == "" || last == "." then front
      else if last == ".." then (if front == [] then [] else front[..|front| - 1])
      else front + [last]
  }

  /** path.Clean of a rooted path. */
  function Clean(path: string): string {
    "/" + Join(Kept(Split(path, '/')), '/')
  }

  function TrimSuffix(s: string, c: char): string {
    if s != "" && s[|s| - 1] == c then s[..|s| - 1] else s
  }

  function TrimPrefix(s: string, c: char): string {
    if s != "" && s[0] == c then s[1..] else s
  }

  /** The path check of endpoint; url.Parse gives a path that is empty or rooted. */
  predicate ValidPath(path: string) {
    && (forall c :: c in ['\r', '\n', '\0', '\\'] ==> c !in path)
    && (path == "" || (path[0] == '/' && (path == "/" || Clean(path) == TrimSuffix(path, '/'))))
  }

  /** pathMatches: the scope covers whole segments. */
  predicate PathMatches(scope: string, request: string) {
    var s, r := Trim(scope, '/'), TrimPrefix(request, '/');
    s == "" || r == s || HasPrefix(r, s + "/")
  }

  // ---------------------------------------------------------------- validation and matching

  predicate SameDestination(a: Endpoint, b: Endpoint) {
    a.scheme == b.scheme && Authority(a) == Authority(b)
  }

  /** The part of Profile.Validate that matching depends on: clean paths and unambiguous destinations. */
  predicate ValidProfile(entries: seq<Entry>) {
    && (forall i :: 0 <= i < |entries| ==> ValidPath(entries[i].url.path))
    && (forall i, j :: 0 <= i < j < |entries| ==>
          !(SameDestination(entries[i].url, entries[j].url)
            && Trim(entries[i].url.path, '/') == Trim(entries[j].url.path, '/')))
  }

  predicate Answers(e: Entry, target: Endpoint) {
    SameDestination(e.url, target) && PathMatches(e.url.path, target.path)
  }

  /** The first of the longest answering entries, by the length of the path as written. */
  function Selected(entries: seq<Entry>, target: Endpoint): Option<Entry> {
    if entries == [] then None
    else
      var front, last := Selected(entries[..|entries| - 1], target), entries[|entries| - 1];
      if Answers(last, target) && (front.None? || |last.url.path| > |front.value.url.path|) then Some(last) else front
  }

  predicate ProtocolValue(s: string) {
    |s| <= 65000 && forall c :: c in ['\r', '\n', '\0'] ==> c !in s
  }

  predicate ValidRequestPath(path: string) {
    && ProtocolValue(path) && '\\' !in path
    && (path == "" || Clean("/" + path) == "/" + TrimSuffix(path, '/'))
  }

  /** Profile.Match on a decoded request path. */
  function Matched(entries: seq<Entry>, target: Endpoint, username: string): Option<Entry> {
    if !ValidRequestPath(target.path) then None
    else
      match Selected(entries, target)
      case None => None
      case Some(e) => if e.secretRef == "" || (username != "" && username != e.username) then None else Some(e)
  }

  method Match(entries: seq<Entry>, target: Endpoint, username: string) returns (result: Option<Entry>)
    ensures result == Matched(entries, target, username)
  {
    if !ValidRequestPath(target.path) {
      return None;
    }
    var selected: Option<Entry> := None;
    var longest := -1;
    for i := 0 to |entries|
      invariant selected == Selected(entries[..i], target)
      invariant longest == if selected.None? then -1 else |selected.value.url.path|
    {
      var e := entries[i];
      assert entries[..i + 1][..i] == entries[..i];
      if Answers(e, target) && |e.url.path| > longest {
        selected := Some(e);
        longest := |e.url.path|;
      }
    }
    assert entries[..|entries|] == entries;
    if selected.None? || selected.value.secretRef == "" || (username != "" && username != selected.value.username) {
      return None;
    }
    result := selected;
  }

  // ---------------------------------------------------------------- what is selected

  lemma {:induction false} SelectedIsLongest(entries: seq<Entry>, target: Endpoint)
    ensures Selected(entries, target).Some? <==> exists e :: e in entries && Answers(e, target)
    ensures Selected(entries, target).Some? ==>
              var s := Selected(entries, target).value;
              && s in entries && Answers(s, target)
              && forall e :: e in entries && Answers(e, target) ==> |e.url.path| <= |s.url.path|
  {
    if entries != [] {
      SelectedIsLongest(entries[..|entries| - 1], target);
      assert entries == entries[..|entries| - 1] + [entries[|entries| - 1]];
    }
  }

  /** Two different answering entries share the greatest written path length. */
  ghost predicate Tied(entries: seq<Entry>, target: Endpoint) {
    exists i, j :: 0 <= i < j < |entries| && TiedAt(entries, target, i, j)
  }

  ghost predicate TiedAt(entries: seq<Entry>, target: Endpoint, i: nat, j: nat) {
    && i < |entries| && j < |entries| && entries[i] != entries[j]
    && Answers(entries[i], target) && Answers(entries[j], target)
    && |entries[i].url.path| == |entries[j].url.path|
    && forall e :: e in entries && Answers(e, target) ==> |e.url.path| <= |entries[i].url.path|
  }

  ghost predicate OrderIndependent(entries: seq<Entry>, target: Endpoint) {
    forall other :: multiset(other) == multiset(entries) ==> Selected(other, target) == Selected(entries, target)
  }

  lemma SameElements(a: seq<Entry>, b: seq<Entry>)
    requires multiset(a) == multiset(b)
    ensures forall e :: e in a <==> e in b
  {
    forall e
      ensures e in a <==> e in b
    {
      assert e in a <==> e in multiset(a);
      assert e in b <==> e in multiset(b);
    }
  }

  lemma {:induction false} LeaderStays(first: Entry, rest: seq<Entry>, target: Endpoint)
    requires Answers(first, target)
    requires forall e :: e in rest && Answers(e, target) ==> |e.url.path| <= |first.url.path|
    ensures Selected([first] + rest, target) == Some(first)
  {
    var all := [first] + rest;
    if rest == [] {
      assert all[..0] == [];
    } else {
      LeaderStays(first, rest[..|rest| - 1], target);
      assert all[..|all| - 1] == [first] + rest[..|rest| - 1];
    }
  }

  lemma Promoted(entries: seq<Entry>, i: nat)
    requires i < |entries|
    ensures var other := [entries[i]] + (entries[..i] + entries[i + 1..]);
            multiset(other) == multiset(entries) && forall e :: e in entries[..i] + entries[i + 1..] ==> e in entries
  {
    assert entries == entries[..i] + [entries[i]] + entries[i + 1..];
  }

  lemma PromotedLeads(entries: seq<Entry>, target: Endpoint, i: nat)
    requires i < |entries| && Answers(entries[i], target)
    requires forall e :: e in entries && Answers(e, target) ==> |e.url.path| <= |entries[i].url.path|
    requires OrderIndependent(entries, target)
    ensures Selected(entries, target) == Some(entries[i])
  {
    Promoted(entries, i);
    LeaderStays(entries[i], entries[..i] + entries[i + 1..], target);
  }

  lemma SameWhenUntied(entries: seq<Entry>, other: seq<Entry>, target: Endpoint)
    requires multiset(other) == multiset(entries) && !Tied(entries, target)
    ensures Selected(other, target) == Selected(entries, target)
  {
    SameElements(other, entries);
    SelectedIsLongest(entries, target);
    SelectedIsLongest(other, target);
    if Selected(entries, target).Some? && Selected(entries, target) != Selected(other, target) {
      var a, b := Selected(entries, target).value, Selected(other, target).value;
      var i :| 0 <= i < |entries| && entries[i] == a;
      var j :| 0 <= j < |entries| && entries[j] == b;
      assert TiedAt(entries, target, i, j) && TiedAt(entries, target, j, i);
    }
  }

  /** The selection does not depend on the order of the entries exactly when no two of the longest are tied. */
  lemma OrderIndependentExactly(entries: seq<Entry>, target: Endpoint)
    ensures OrderIndependent(entries, target) <==> !Tied(entries, target)
  {
    hide Selected, Answers;
    if OrderIndependent(entries, target) && Tied(entries, target) {
      var i, j :| 0 <= i < j < |entries| && TiedAt(entries, target, i, j);
      PromotedLeads(entries, target, i);
      PromotedLeads(entries, target, j);
    }
    if !Tied(entries, target) {
      forall other | multiset(other) == multiset(entries)
        ensures Selected(other, target) == Selected(entries, target)
      {
        SameWhenUntied(entries, other, target);
      }
    }
  }

  // ---------------------------------------------------------------- valid profiles

  predicate Segments(parts: seq<string>) {
    forall i :: 0 <= i < |parts| ==> parts[i] != "" && '/' !in parts[i]
  }

  lemma {:induction false} KeptSegments(segments: seq<string>)
    requires forall i :: 0 <= i < |segments| ==> '/' !in segments[i]
    ensures Segments(Kept(segments))
  {
    if segments != [] {
      KeptSegments(segments[..|segments| - 1]);
    }
  }

  lemma {:induction false} JoinEnds(parts: seq<string>)
    requires parts != [] && Segments(parts)
    ensures var s := Join(parts, '/');
            s != "" && s[0] != '/' && s[|s| - 1] != '/'
  {
    if |parts| > 1 {
      JoinEnds(parts[1..]);
    }
  }

  /** What a valid path looks like: nothing, one or two slashes, or a scope with at most one slash on each side. */
  lemma ValidPathShape(path: string)
    requires ValidPath(path)
    ensures var t := Trim(path, '/');
            || (t == "" && (path == "" || path == "/" || path == "//"))
            || (t != "" && t[0] != '/' && t[|t| - 1] != '/' && (path == "/" + t || path == "/" + t + "/"))
  {
    if path == "" {
    } else if path == "/" {
      assert "/"[1..] == "";
    } else {
      var kept := Kept(Split(path, '/'));
      SplitHasNoSeparator(path, '/');
      KeptSegments(Split(path, '/'));
      var c := TrimSuffix(path, '/');
      if kept == [] {
        assert c == "/" + "";
        assert path == "//" by {
          assert path == c || path == c + "/";
        }
        assert "//"[1..] == "/" && "/"[1..] == "";
      } else {
        JoinEnds(kept);
        TrimBoth(path, Join(kept, '/'));
      }
    }
  }

  lemma TrimBoth(path: string, t: string)
    requires t != "" && t[0] != '/' && t[|t| - 1] != '/'
    requires path != "" && "/" + t == TrimSuffix(path, '/')
    ensures Trim(path, '/') == t && (path == "/" + t || path == "/" + t + "/")
  {
    if path[|path| - 1] == '/' {
      assert path == "/" + t + "/";
      assert path[1..] == t + "/";
      assert TrimLeft(path[1..], '/') == t + "/";
      assert (t + "/")[..|t|] == t;
      assert TrimRight(t + "/", '/') == TrimRight(t, '/') == t;
    } else {
      assert path == "/" + t;
      assert path[1..] == t;
      assert TrimLeft(t, '/') == t && TrimRight(t, '/') == t;
    }
  }

  /** Of two scopes that cover a request, the longer extends the shorter by whole segments. */
  lemma NestedScopes(s: string, t: string, r: string)
    requires s == "" || r == s || HasPrefix(r, s + "/")
    requires t == "" || r == t || HasPrefix(r, t + "/")
    requires t != "" ==> t[|t| - 1] != '/'
    requires s != t && |s| <= |t|
    ensures |s| < |t| && (s != "" ==> |t| >= |s| + 2)
  {
    assert t == r[..|t|];
    assert s == r[..|s|];
    if s != "" {
      assert (s + "/")[|s|] == '/';
      assert |t| > |s| && t[|s|] == r[|s|] == '/';
    }
  }

  lemma ScopeMatches(path: string, request: string)
    requires PathMatches(path, request)
    ensures var s, r := Trim(path, '/'), TrimPrefix(request, '/');
            s == "" || r == s || HasPrefix(r, s + "/")
  {
  }

  /**
   For two entries of a valid profile that answer the same target, a longer scope has a longer written
   path, except that the degenerate path of two slashes is as long as a scope of one character.
   */
  lemma WrittenLengthsFollowScopes(a: Entry, b: Entry, target: Endpoint)
    requires ValidPath(a.url.path) && ValidPath(b.url.path)
    requires Answers(a, target) && Answers(b, target)
    requires Trim(a.url.path, '/') != Trim(b.url.path, '/')
    requires |Trim(a.url.path, '/')| <= |Trim(b.url.path, '/')|
    ensures |Trim(a.url.path, '/')| < |Trim(b.url.path, '/')|
    ensures |a.url.path| <= |b.url.path|
    ensures |a.url.path| == |b.url.path| <==> a.url.path == "//" && |b.url.path| == 2
  {
    hide Trim, ValidPath, PathMatches;
    ValidPathShape(a.url.path);
    ValidPathShape(b.url.path);
    ScopeMatches(a.url.path, target.path);
    ScopeMatches(b.url.path, target.path);
    NestedScopes(Trim(a.url.path, '/'), Trim(b.url.path, '/'), TrimPrefix(target.path, '/'));
  }

  lemma DifferentScopes(entries: seq<Entry>, target: Endpoint, a: Entry, b: Entry)
    requires ValidProfile(entries) && a in entries && b in entries && a != b
    requires Answers(a, target) && Answers(b, target)
    ensures ValidPath(a.url.path) && ValidPath(b.url.path)
    ensures Trim(a.url.path, '/') != Trim(b.url.path, '/')
  {
    hide Trim, ValidPath, PathMatches;
    var i :| 0 <= i < |entries| && entries[i] == a;
    var j :| 0 <= j < |entries| && entries[j] == b;
    if i < j {
      assert SameDestination(entries[i].url, entries[j].url);
    } else {
      assert SameDestination(entries[j].url, entries[i].url);
    }
  }

  /**
   In a valid profile a tie needs the degenerate path: two answering entries tie exactly when one path is
   two slashes, the other is a scope of one character, and no answering path is longer.
   */
  lemma TiesNeedDoubleSlash(entries: seq<Entry>, target: Endpoint)
    requires ValidProfile(entries)
    ensures Tied(entries, target) <==>
              exists a, b :: && a in entries && b in entries && Answers(a, target) && Answers(b, target)
                             && a.url.path == "//" && b != a && |b.url.path| == 2
                             && forall e :: e in entries && Answers(e, target) ==> |e.url.path| <= 2
  {
    hide ValidProfile, Answers;
    if Tied(entries, target) {
      var i, j :| 0 <= i < j < |entries| && TiedAt(entries, target, i, j);
      var a, b := entries[i], entries[j];
      DifferentScopes(entries, target, a, b);
      if |Trim(a.url.path, '/')| <= |Trim(b.url.path, '/')| {
        WrittenLengthsFollowScopes(a, b, target);
      } else {
        WrittenLengthsFollowScopes(b, a, target);
      }
    }
    forall a, b | && a in entries && b in entries && Answers(a, target) && Answers(b, target)
                  && a.url.path == "//" && b != a && |b.url.path| == 2
                  && forall e :: e in entries && Answers(e, target) ==> |e.url.path| <= 2
      ensures Tied(entries, target)
    {
      var i :| 0 <= i < |entries| && entries[i] == a;
      var j :| 0 <= j < |entries| && entries[j] == b;
      assert TiedAt(entries, target, i, j) && TiedAt(entries, target, j, i);
    }
  }

  /**
   In a valid profile without the degenerate path, the answer is the one entry whose scope is the
   longest by segments, whatever the order of the entries.
   */
  lemma LongestScopeWins(entries: seq<Entry>, target: Endpoint)
    requires ValidProfile(entries) && forall e :: e in entries ==> e.url.path != "//"
    ensures OrderIndependent(entries, target)
    ensures Selected(entries, target).Some? ==>
              var s := Selected(entries, target).value;
              && s in entries && Answers(s, target)
              && forall e :: e in entries && Answers(e, target) && e != s ==>
                   |Trim(e.url.path, '/')| < |Trim(s.url.path, '/')|
  {
    hide Selected, Answers, ValidProfile, Trim;
    TiesNeedDoubleSlash(entries, target);
    OrderIndependentExactly(entries, target);
    SelectedIsLongest(entries, target);
    if Selected(entries, target).Some? {
      var s := Selected(entries, target).value;
      forall e | e in entries && Answers(e, target) && e != s
        ensures |Trim(e.url.path, '/')| < |Trim(s.url.path, '/')|
      {
        DifferentScopes(entries, target, e, s);
        if |Trim(s.url.path, '/')| <= |Trim(e.url.path, '/')| {
          WrittenLengthsFollowScopes(s, e, target);
        } else {
        }
      }
    }
  }

  /**
   What Match answers: the entry whose scope is the longest that covers the request by segments, if it
   holds a secret for that user; a longer scope without one hides the shorter ones.
   */
  lemma MatchedExactly(entries: seq<Entry>, target: Endpoint, username: string, e: Entry)
    requires ValidProfile(entries) && forall f :: f in entries ==> f.url.path != "//"
    ensures Matched(entries, target, username) == Some(e) <==>
              && ValidRequestPath(target.path)
              && e in entries && Answers(e, target)
              && (forall f :: f in entries && Answers(f, target) && f != e ==>
                    |Trim(f.url.path, '/')| < |Trim(e.url.path, '/')|)
              && e.secretRef != "" && (username == "" || username == e.username)
  {
    LongestScopeWins(entries, target);
    SelectedIsLongest(entries, target);
    hide Selected, Answers, ValidProfile, ValidRequestPath, Trim;
  }

  const RootEntry := Entry(Endpoint("https", "h", "", "//"), "u", "root")
  const ScopedEntry := Entry(Endpoint("https", "h", "", "/a"), "u", "scoped")

  /** The degenerate path does make the order matter, in a valid profile. */
  lemma DoubleSlashExample()
    ensures var target := Endpoint("https", "h", "", "a");
            && ValidProfile([RootEntry, ScopedEntry]) && ValidProfile([ScopedEntry, RootEntry])
            && Matched([RootEntry, ScopedEntry], target, "u") == Some(RootEntry)
            && Matched([ScopedEntry, RootEntry], target, "u") == Some(ScopedEntry)
  {
    var a, b, target := RootEntry, ScopedEntry, Endpoint("https", "h", "", "a");
    ExamplePaths();
    ExampleAnswers();
    hide Answers, ValidPath, ValidRequestPath, Trim, Authority;
    assert [a, b][..1] == [a] && [b, a][..1] == [b] && [a][..0] == [] && [b][..0] == [];
    assert Selected([a], target) == Some(a) && Selected([b], target) == Some(b);
    assert Selected([a, b], target) == Some(a) && Selected([b, a], target) == Some(b);
  }

  lemma ExampleAnswers()
    ensures Trim("//", '/') == "" && Trim("/a", '/') == "a"
    ensures Answers(RootEntry, Endpoint("https", "h", "", "a")) && Answers(ScopedEntry, Endpoint("https", "h", "", "a"))
  {
    assert "//"[1..] == "/" && "/"[1..] == "" && "/a"[1..] == "a";
  }

  lemma ExampleSplits()
    ensures Split("//", '/') == ["", "", ""] && Split("/a", '/') == ["", "a"]
  {
    assert Split("", '/') == [""];
    assert "/"[1..] == "" && "a"[1..] == "" && "//"[1..] == "/" && "/a"[1..] == "a";
    assert Split("/", '/') == ["", ""];
    SplitWithoutSeparator("a", '/');
  }

  lemma ExamplePaths()
    ensures ValidPath("//") && ValidPath("/a") && ValidRequestPath("a")
  {
    ExampleSplits();
    hide Split;
    var one, two, three, a := [""], ["", ""], ["", "", ""], ["", "a"];
    assert one[..0] == [] && two[..1] == one && three[..2] == two && a[..1] == one;
    assert Kept(one) == [] && Kept(two) == [];
    assert Kept(three) == [] && Kept(a) == ["a"];
    assert Join([], '/') == "" && Join(["a"], '/') == "a";
    assert Clean("//") == "/" && Clean("/a") == "/a";
    assert "//"[..1] == "/" && "/" + "a" == "/a";
  }
}
