/**
 Base selectors (pkg/execution/base.go). `*` stands for any text, `/` included;
 every other character stands for itself.
 */
module Base {
  import opened Text

  function Stars(p: string): nat {
    if p == "" then 0 else (if p[0] == '*' then 1 else 0) + Stars(p[1..])
  }

  /** Replaces the stars of `p`, left to right, by the given texts. */
  function Fill(p: string, fills: seq<string>): string
    requires |fills| == Stars(p)
  {
    if p == "" then ""
    else if p[0] == '*' then fills[0] + Fill(p[1..], fills[1..])
    else [p[0]] + Fill(p[1..], fills)
  }

  /** The declarative reading: some assignment of texts to the stars of `p` spells `s`. */
  ghost predicate Expands(p: string, s: string) {
    exists fills: seq<string> :: |fills| == Stars(p) && Fill(p, fills) == s
  }

  /** What MatchBase decides: `*` alone also accepts an unreported base. */
  ghost predicate Matches(selector: string, actual: string) {
    selector == "*" || (actual != "" && Expands(selector, actual))
  }

  // ---------------------------------------------------------------- splitting at the stars

  /** `*parts[0]*parts[1]*...*parts[n-1]` spells `s`, with the last part at its very end. */
  ghost predicate TailMatch(parts: seq<string>, s: string)
    requires |parts| > 0
  {
    if |parts| == 1 then HasSuffix(s, parts[0])
    else exists k :: OccursAt(s, parts[0], k) && TailMatch(parts[1..], s[k + |parts[0]|..])
  }

  ghost predicate Anchored(parts: seq<string>, s: string)
    requires |parts| > 0
  {
    && HasPrefix(s, parts[0])
    && if |parts| == 1 then s == parts[0] else TailMatch(parts[1..], s[|parts[0]|..])
  }

  lemma TailMatchSuffix(parts: seq<string>, s: string, i: nat)
    requires |parts| > 0 && i <= |s| && TailMatch(parts, s[i..])
    ensures TailMatch(parts, s)
  {
    if |parts| > 1 {
      var k :| OccursAt(s[i..], parts[0], k) && TailMatch(parts[1..], s[i..][k + |parts[0]|..]);
      assert s[i..][k..k + |parts[0]|] == s[i + k..i + k + |parts[0]|];
      assert OccursAt(s, parts[0], i + k);
      assert s[i..][k + |parts[0]|..] == s[i + k + |parts[0]|..];
    } else {
      assert s[i..][|s[i..]| - |parts[0]|..] == s[|s| - |parts[0]|..];
    }
  }

  /** Taking the leftmost occurrence loses no match. */
  lemma LeftmostSuffices(parts: seq<string>, s: string)
    requires |parts| > 1
    ensures var i := IndexOf(s, parts[0]);
            TailMatch(parts, s) <==> i >= 0 && TailMatch(parts[1..], s[i + |parts[0]|..])
  {
    var i := IndexOf(s, parts[0]);
    if TailMatch(parts, s) {
      var k :| OccursAt(s, parts[0], k) && TailMatch(parts[1..], s[k + |parts[0]|..]);
      assert i <= k;
      assert s[i + |parts[0]|..][k - i..] == s[k + |parts[0]|..];
      TailMatchSuffix(parts[1..], s[i + |parts[0]|..], k - i);
    }
  }

  lemma ExpandsStar(p: string, s: string)
    requires p != "" && p[0] == '*'
    ensures Expands(p, s) <==> exists k: nat | k <= |s| :: Expands(p[1..], s[k..])
  {
    if Expands(p, s) {
      var fills: seq<string> :| |fills| == Stars(p) && Fill(p, fills) == s;
      var k := |fills[0]|;
      assert s[k..] == Fill(p[1..], fills[1..]);
      assert Expands(p[1..], s[k..]);
    }
    forall k: nat | k <= |s| && Expands(p[1..], s[k..])
      ensures Expands(p, s)
    {
      var fills: seq<string> :| |fills| == Stars(p[1..]) && Fill(p[1..], fills) == s[k..];
      var all := [s[..k]] + fills;
      assert all[1..] == fills;
      assert Fill(p, all) == s[..k] + s[k..] == s;
    }
  }

  lemma ExpandsLiteral(p: string, s: string)
    requires p != "" && p[0] != '*'
    ensures Expands(p, s) <==> s != "" && s[0] == p[0] && Expands(p[1..], s[1..])
  {
    if Expands(p, s) {
      var fills: seq<string> :| |fills| == Stars(p) && Fill(p, fills) == s;
      assert s[1..] == Fill(p[1..], fills);
    }
    if s != "" && s[0] == p[0] && Expands(p[1..], s[1..]) {
      var fills: seq<string> :| |fills| == Stars(p[1..]) && Fill(p[1..], fills) == s[1..];
      assert Fill(p, fills) == [p[0]] + s[1..] == s;
    }
  }

  /** The star assignments and the split at the stars say the same. */
  lemma {:induction false} ExpandsIsAnchored(p: string, s: string)
    ensures Expands(p, s) <==> Anchored(Split(p, '*'), s)
  {
    if p == "" {
      assert Fill(p, []) == "";
    } else {
      var rest := Split(p[1..], '*');
      if p[0] == '*' {
        ExpandsStar(p, s);
        assert Split(p, '*')[1..] == rest && s[0..] == s;
        forall k: nat | k <= |s|
          ensures Expands(p[1..], s[k..]) <==> Anchored(rest, s[k..])
        {
          ExpandsIsAnchored(p[1..], s[k..]);
        }
        AnchoredSomewhere(rest, s);
      } else {
        ExpandsLiteral(p, s);
        if s != "" {
          ExpandsIsAnchored(p[1..], s[1..]);
          AnchoredLiteral(p[0], rest, s);
        }
      }
    }
  }

  lemma AnchoredAt(parts: seq<string>, s: string, k: nat)
    requires |parts| > 0 && k <= |s|
    ensures Anchored(parts, s[k..]) <==>
              && OccursAt(s, parts[0], k)
              && if |parts| == 1 then s[k..] == parts[0] else TailMatch(parts[1..], s[k + |parts[0]|..])
  {
    var n := |parts[0]|;
    if k + n <= |s| {
      assert s[k..][..n] == s[k..k + n];
      assert s[k..][n..] == s[k + n..];
    }
  }

  lemma AnchoredSomewhere(parts: seq<string>, s: string)
    requires |parts| > 0
    ensures TailMatch(parts, s) <==> exists k: nat | k <= |s| :: Anchored(parts, s[k..])
  {
    forall k: nat | k <= |s| && Anchored(parts, s[k..])
      ensures TailMatch(parts, s)
    {
      AnchoredAt(parts, s, k);
    }
    if TailMatch(parts, s) {
      if |parts| == 1 {
        AnchoredAt(parts, s, |s| - |parts[0]|);
      } else {
        var k :| OccursAt(s, parts[0], k) && TailMatch(parts[1..], s[k + |parts[0]|..]);
        AnchoredAt(parts, s, k);
      }
    }
  }

  lemma AnchoredLiteral(c: char, rest: seq<string>, s: string)
    requires |rest| > 0 && s != ""
    ensures Anchored([[c] + rest[0]] + rest[1..], s) <==> s[0] == c && Anchored(rest, s[1..])
  {
    var parts := [[c] + rest[0]] + rest[1..];
    assert parts[1..] == rest[1..];
    if HasPrefix(s, parts[0]) {
      assert s[0] == parts[0][0] == c;
      assert s[1..][..|rest[0]|] == s[..|parts[0]|][1..] == rest[0];
      assert s[|parts[0]|..] == s[1..][|rest[0]|..];
      assert s == [c] + s[1..];
    }
    if s[0] == c && HasPrefix(s[1..], rest[0]) {
      assert s == [c] + s[1..];
      assert s[..|parts[0]|] == [c] + s[1..][..|rest[0]|] == parts[0];
      assert s[|parts[0]|..] == s[1..][|rest[0]|..];
    }
  }

  // ---------------------------------------------------------------- the matcher

  /** The greedy matcher accepts exactly the texts some star assignment spells. */
  method MatchBase(selector: string, actual: string) returns (ok: bool)
    ensures ok <==> Matches(selector, actual)
  {
    hide Expands, Split, Fill, Stars;
    if selector == "*" {
      return true;
    }
    if actual == "" {
      return false;
    }
    var parts := Split(selector, '*');
    ExpandsIsAnchored(selector, actual);
    if |parts| == 1 {
      SplitSingle(selector);
      return selector == actual;
    }
    if !HasPrefix(actual, parts[0]) {
      return false;
    }
    var rest := actual[|parts[0]|..];
    var j := 1;
    while j < |parts| - 1
      invariant 1 <= j <= |parts| - 1
      invariant TailMatch(parts[j..], rest) <==> Matches(selector, actual)
    {
      var i := IndexOf(rest, parts[j]);
      LeftmostSuffices(parts[j..], rest);
      assert parts[j..][1..] == parts[j + 1..];
      if i < 0 {
        return false;
      }
      rest := rest[i + |parts[j]|..];
      j := j + 1;
    }
    assert parts[j..] == [parts[|parts| - 1]];
    ok := HasSuffix(rest, parts[|parts| - 1]);
  }

  lemma {:induction false} SplitSingle(p: string)
    requires |Split(p, '*')| == 1
    ensures Split(p, '*') == [p] && '*' !in p
  {
    if p != "" {
      SplitSingle(p[1..]);
      assert p == [p[0]] + p[1..];
    }
  }

  // ---------------------------------------------------------------- refinement of selectors

  lemma {:induction false} StarsConcat(a: string, b: string)
    ensures Stars(a + b) == Stars(a) + Stars(b)
  {
    if a == "" {
      assert a + b == b;
    } else {
      StarsConcat(a[1..], b);
      assert (a + b)[1..] == a[1..] + b;
    }
  }

  lemma {:induction false} FillConcat(a: string, b: string, fills: seq<string>)
    requires |fills| == Stars(a + b)
    ensures Stars(a + b) == Stars(a) + Stars(b)
    ensures Fill(a + b, fills) == Fill(a, fills[..Stars(a)]) + Fill(b, fills[Stars(a)..])
  {
    StarsConcat(a, b);
    if a == "" {
      assert a + b == b;
    } else {
      assert (a + b)[1..] == a[1..] + b;
      if a[0] == '*' {
        FillConcat(a[1..], b, fills[1..]);
        assert fills[1..][..Stars(a[1..])] == fills[..Stars(a)][1..];
        assert fills[1..][Stars(a[1..])..] == fills[Stars(a)..];
      } else {
        FillConcat(a[1..], b, fills);
      }
    }
  }

  /** Filling the stars that a filling left behind is a filling of the first pattern. */
  lemma {:induction false} FillTwice(p: string, outer: seq<string>, inner: seq<string>) returns (both: seq<string>)
    requires |outer| == Stars(p) && |inner| == Stars(Fill(p, outer))
    ensures |both| == Stars(p) && Fill(p, both) == Fill(Fill(p, outer), inner)
  {
    if p == "" {
      both := [];
    } else if p[0] == '*' {
      var tail := Fill(p[1..], outer[1..]);
      FillConcat(outer[0], tail, inner);
      var n := Stars(outer[0]);
      var rest := FillTwice(p[1..], outer[1..], inner[n..]);
      both := [Fill(outer[0], inner[..n])] + rest;
      assert both[1..] == rest;
    } else {
      var tail := Fill(p[1..], outer);
      assert ([p[0]] + tail)[1..] == tail;
      both := FillTwice(p[1..], outer, inner);
    }
  }

  lemma ExpandsTransitive(p: string, q: string, s: string)
    requires Expands(p, q) && Expands(q, s)
    ensures Expands(p, s)
  {
    var outer: seq<string> :| |outer| == Stars(p) && Fill(p, outer) == q;
    var inner: seq<string> :| |inner| == Stars(q) && Fill(q, inner) == s;
    var both := FillTwice(p, outer, inner);
  }

  /** Every text expands the lone star. */
  lemma StarExpandsAll(s: string)
    ensures Expands("*", s)
  {
    assert Stars("*") == 1 + Stars("");
    assert "*"[1..] == "";
    assert [s][1..] == [];
    assert Fill("*", [s]) == s + "" == s;
  }

  lemma MatchesIsExpands(p: string, s: string)
    requires s != ""
    ensures Matches(p, s) <==> Expands(p, s)
  {
    if p == "*" {
      StarExpandsAll(s);
    }
  }

  /** A nonempty selector always covers its own text. */
  lemma MatchesReflexive(p: string)
    requires p != ""
    ensures Matches(p, p)
  {
    MatchesIsExpands(p, p);
    var fills := StarsForStars(p);
  }

  lemma {:induction false} StarsForStars(p: string) returns (fills: seq<string>)
    ensures |fills| == Stars(p) && Fill(p, fills) == p
  {
    if p == "" {
      fills := [];
    } else {
      var rest := StarsForStars(p[1..]);
      assert p == [p[0]] + p[1..];
      if p[0] == '*' {
        fills := ["*"] + rest;
        assert fills[1..] == rest;
      } else {
        fills := rest;
      }
    }
  }

  /**
   Selector refinement: a name covered by `q` is covered by every `p` that covers the text
   of `q`. It is exact: the one exception is the unreported base, which `q == "*"` accepts and
   another all-star selector, though it covers the text `*`, does not.
   */
  lemma MatchesTransitive(p: string, q: string, s: string)
    requires Matches(p, q) && Matches(q, s)
    ensures Matches(p, s) <==> s != "" || p == "*"
  {
    if s != "" && p != "*" {
      MatchesIsExpands(q, s);
      ExpandsTransitive(p, q, s);
    }
  }

  /** The exception exists: `**` covers the text `*`, yet only `*` accepts an unreported base. */
  lemma UnreportedBaseBreaksRefinement()
    ensures Matches("**", "*") && Matches("*", "") && !Matches("**", "")
  {
    assert "**"[1..] == "*" && "*"[1..] == "";
    assert Stars("**") == 2;
    var fills := ["*", ""];
    assert fills[1..] == [""] && [""][1..] == [];
    assert Fill("*", [""]) == "" + "";
    assert Fill("**", fills) == "*";
  }

  /** validateBase, except for the UTF-8 check: texts here are sequences of characters. */
  predicate ValidBase(value: string, concrete: bool) {
    && value != ""
    && |value| <= 4096
    && (forall c :: c in ['\0', ' ', '\t', '\r', '\n'] ==> c !in value)
    && (concrete ==> '*' !in value)
  }
}
