/** Text primitives the modelled packages take from Go's `strings` and `strconv`. */
module Text {
  datatype Option<+T> = None | Some(value: T)

  datatype Result<+T, +E> = Ok(value: T) | Err(error: E)

  predicate HasPrefix(s: string, p: string) {
    p <= s
  }

  predicate HasSuffix(s: string, p: string) {
    |p| <= |s| && s[|s| - |p|..] == p
  }

  /** `part` stands in `s` at offset `k`. */
  predicate OccursAt(s: string, part: string, k: int) {
    0 <= k && k + |part| <= |s| && s[k..k + |part|] == part
  }

  /** strings.Index, from offset `from` on: the leftmost occurrence, or -1. */
  function IndexFrom(s: string, part: string, from: nat): (i: int)
    ensures i == -1 || (from <= i && OccursAt(s, part, i))
    ensures i == -1 ==> forall k :: from <= k ==> !OccursAt(s, part, k)
    ensures forall k :: from <= k < i ==> !OccursAt(s, part, k)
    decreases |s| - from
  {
    if from + |part| > |s| then -1
    else if OccursAt(s, part, from) then from
    else IndexFrom(s, part, from + 1)
  }

  function IndexOf(s: string, part: string): (i: int)
    ensures i == -1 || OccursAt(s, part, i)
    ensures i == -1 ==> forall k :: !OccursAt(s, part, k)
    ensures forall k :: 0 <= k < i ==> !OccursAt(s, part, k)
  {
    IndexFrom(s, part, 0)
  }

  /** strings.Split on a one-character separator. */
  function Split(s: string, sep: char): (parts: seq<string>)
    ensures |parts| >= 1
  {
    if s == "" then [""]
    else
      var rest := Split(s[1..], sep);
      if s[0] == sep then [""] + rest else [[s[0]] + rest[0]] + rest[1..]
  }

  lemma {:induction false} SplitWithoutSeparator(s: string, sep: char)
    requires sep !in s
    ensures Split(s, sep) == [s]
  {
    if s != "" {
      SplitWithoutSeparator(s[1..], sep);
      assert s == [s[0]] + s[1..];
    }
  }

  lemma {:induction false} SplitHasNoSeparator(s: string, sep: char)
    ensures forall i :: 0 <= i < |Split(s, sep)| ==> sep !in Split(s, sep)[i]
  {
    if s != "" {
      SplitHasNoSeparator(s[1..], sep);
    }
  }

  /** The parts after one more character in front. */
  function Prepend(c: char, parts: seq<string>, sep: char): seq<string>
    requires parts != []
  {
    if c == sep then [""] + parts else [[c] + parts[0]] + parts[1..]
  }

  lemma SplitCons(c: char, s: string, sep: char)
    ensures Split([c] + s, sep) == Prepend(c, Split(s, sep), sep)
  {
    assert ([c] + s)[1..] == s;
  }

  lemma PrependConcat(c: char, a: seq<string>, b: seq<string>, sep: char)
    requires a != []
    ensures Prepend(c, a + b, sep) == Prepend(c, a, sep) + b
  {
    hide *;
    assert (a + b)[0] == a[0] && (a + b)[1..] == a[1..] + b;
    PrependUnfolds(c, a + b, sep);
    PrependUnfolds(c, a, sep);
  }

  lemma PrependUnfolds(c: char, parts: seq<string>, sep: char)
    requires parts != []
    ensures Prepend(c, parts, sep) == if c == sep then [""] + parts else [[c] + parts[0]] + parts[1..]
  {
  }

  /** Splitting at one separator splits what is on either side of it. */
  lemma {:induction false} SplitConcat(a: string, b: string, sep: char)
    ensures Split(a + [sep] + b, sep) == Split(a, sep) + Split(b, sep)
  {
    assert Split("", sep) == [""];
    if a == "" {
      assert a + [sep] + b == [sep] + b;
      SplitCons(sep, b, sep);
    } else {
      hide Split, Prepend;
      SplitConcat(a[1..], b, sep);
      assert a + [sep] + b == [a[0]] + (a[1..] + [sep] + b) && a == [a[0]] + a[1..];
      SplitCons(a[0], a[1..] + [sep] + b, sep);
      SplitCons(a[0], a[1..], sep);
      PrependConcat(a[0], Split(a[1..], sep), Split(b, sep), sep);
    }
  }

  lemma SplitAtSeparator(a: string, b: string, sep: char)
    requires sep !in a
    ensures Split(a + [sep] + b, sep) == [a] + Split(b, sep)
  {
    SplitConcat(a, b, sep);
    SplitWithoutSeparator(a, sep);
  }

  /** strings.Join with a one-character separator. */
  function Join(parts: seq<string>, sep: char): string {
    if parts == [] then ""
    else if |parts| == 1 then parts[0]
    else parts[0] + [sep] + Join(parts[1..], sep)
  }

  lemma JoinPrepend(c: char, parts: seq<string>, sep: char)
    requires parts != []
    ensures Join([[c] + parts[0]] + parts[1..], sep) == [c] + Join(parts, sep)
  {
    assert ([[c] + parts[0]] + parts[1..])[1..] == parts[1..];
  }

  lemma {:induction false} JoinSplit(s: string, sep: char)
    ensures Join(Split(s, sep), sep) == s
  {
    if s != "" {
      var rest := Split(s[1..], sep);
      JoinSplit(s[1..], sep);
      JoinPrepend(s[0], rest, sep);
      assert s == [s[0]] + s[1..];
      assert ([""] + rest)[1..] == rest;
    }
  }

  /** The first position of a name, or the number of names. */
  function Position(names: seq<string>, name: string): (i: nat)
    ensures i <= |names| && (i < |names| ==> names[i] == name) && name !in names[..i]
  {
    if names == [] || names[0] == name then 0
    else
      var i := Position(names[1..], name) + 1;
      assert names[..i] == [names[0]] + names[1..][..i - 1];
      i
  }

  lemma FirstPosition(names: seq<string>, name: string, i: nat)
    requires i <= |names| && name !in names[..i] && (i < |names| ==> names[i] == name)
    ensures Position(names, name) == i
  {
    var p := Position(names, name);
    assert forall k :: 0 <= k < i ==> names[..i][k] == names[k];
    assert forall k :: 0 <= k < p ==> names[..p][k] == names[k];
  }

  predicate NoRepeats(names: seq<string>) {
    forall i, j :: 0 <= i < j < |names| ==> names[i] != names[j]
  }

  function TrimRight(s: string, c: char): string {
    if s != "" && s[|s| - 1] == c then TrimRight(s[..|s| - 1], c) else s
  }

  function TrimLeft(s: string, c: char): string {
    if s != "" && s[0] == c then TrimLeft(s[1..], c) else s
  }

  /** strings.Trim with a one-character cutset. */
  function Trim(s: string, c: char): string {
    TrimRight(TrimLeft(s, c), c)
  }

  predicate IsDigit(c: char) {
    '0' <= c <= '9'
  }

  predicate AllDigits(s: string) {
    forall i :: 0 <= i < |s| ==> IsDigit(s[i])
  }

  function Pow(b: nat, e: nat): nat {
    if e == 0 then 1 else b * Pow(b, e - 1)
  }

  /** The number a decimal digit string denotes. */
  function DigitsValue(s: string): nat
    requires AllDigits(s)
  {
    if s == "" then 0 else 10 * DigitsValue(s[..|s| - 1]) + (s[|s| - 1] - '0') as nat
  }

  function DigitChar(d: nat): (c: char)
    requires d < 10
    ensures IsDigit(c) && (c - '0') as nat == d
  {
    '0' + d as char
  }

  /** strconv.Itoa for naturals: no leading zeros, "0" for zero. */
  function Decimal(n: nat): (s: string)
    ensures |s| >= 1 && AllDigits(s) && DigitsValue(s) == n
  {
    if n < 10 then
      var s := [DigitChar(n)];
      assert s[..|s| - 1] == "";
      s
    else
      var front := Decimal(n / 10);
      var s := front + [DigitChar(n % 10)];
      assert s[..|s| - 1] == front;
      s
  }

  lemma {:induction false} DecimalLength(n: nat, k: nat)
    requires k >= 1 && n < Pow(10, k)
    ensures |Decimal(n)| <= k
  {
    if n >= 10 {
      assert Pow(10, 0) == 1 && Pow(10, k) == 10 * Pow(10, k - 1);
      DecimalLength(n / 10, k - 1);
    }
  }

  lemma ShiftLeft(a: nat, p: nat, d: nat, x: nat)
    ensures 10 * (a * p + d) + x == a * (10 * p) + (10 * d + x)
  {
    hide *;
    assert 10 * (a * p) == a * (10 * p);
  }

  lemma {:induction false} DigitsValueConcat(a: string, b: string)
    requires AllDigits(a) && AllDigits(b)
    ensures AllDigits(a + b)
    ensures DigitsValue(a + b) == DigitsValue(a) * Pow(10, |b|) + DigitsValue(b)
  {
    if b == "" {
      assert a + b == a;
    } else {
      var front := b[..|b| - 1];
      DigitsValueConcat(a, front);
      assert (a + b)[..|a + b| - 1] == a + front;
      assert Pow(10, |b|) == 10 * Pow(10, |front|);
      ShiftLeft(DigitsValue(a), Pow(10, |front|), DigitsValue(front), (b[|b| - 1] - '0') as nat);
    }
  }

  /** A list that holds everything a list without repeats holds is at least as long. */
  lemma {:induction false} NoShorterList<T>(s: seq<T>, other: seq<T>)
    requires forall i, j :: 0 <= i < j < |s| ==> s[i] != s[j]
    requires forall x :: x in s ==> x in other
    ensures |s| <= |other|
  {
    if s != [] {
      var front, last := s[..|s| - 1], s[|s| - 1];
      assert last in s;
      var i :| 0 <= i < |other| && other[i] == last;
      var rest := other[..i] + other[i + 1..];
      forall x | x in front
        ensures x in rest
      {
        var m :| 0 <= m < |front| && front[m] == x;
        assert s[m] == x && x in s;
        var j :| 0 <= j < |other| && other[j] == x;
        assert rest[if j < i then j else j - 1] == x;
      }
      NoShorterList(front, rest);
    }
  }

  // ---------------------------------------------------------------- sorted names

  /** Strict dictionary order, as sorting strings uses it. */
  predicate Before(a: string, b: string) {
    b != "" && (a == "" || a[0] < b[0] || (a[0] == b[0] && Before(a[1..], b[1..])))
  }

  /** Which text comes first: at the first difference the smaller character, and a beginning before what it begins. */
  lemma {:induction false} BeforeExactly(a: string, b: string)
    ensures Before(a, b) <==>
              || (a <= b && |a| < |b|)
              || exists k :: 0 <= k < |a| && k < |b| && a[..k] == b[..k] && a[k] < b[k]
  {
    assert forall k :: 0 < k < |a| && k < |b| ==> a[..k][0] == a[0] && b[..k][0] == b[0];
    assert a != "" && b != "" && a <= b ==> a[0] == b[0];
    assert a[..0] == b[..0];
    if a != "" && b != "" && a[0] == b[0] {
      BeforeExactly(a[1..], b[1..]);
      assert a == [a[0]] + a[1..] && b == [b[0]] + b[1..];
      assert a <= b <==> a[1..] <= b[1..] by {
        if a <= b {
          assert b[1..][..|a| - 1] == b[..|a|][1..] == a[1..];
        }
        if a[1..] <= b[1..] {
          assert b[..|a|] == [b[0]] + b[1..][..|a| - 1];
        }
      }
      forall k | 0 <= k < |a| && k < |b| && a[..k] == b[..k] && a[k] < b[k]
        ensures k > 0 && a[1..][..k - 1] == b[1..][..k - 1] && a[1..][k - 1] < b[1..][k - 1]
      {
        assert a[1..][..k - 1] == a[..k][1..] && b[1..][..k - 1] == b[..k][1..];
      }
      forall k | 0 <= k < |a| - 1 && k < |b| - 1 && a[1..][..k] == b[1..][..k] && a[1..][k] < b[1..][k]
        ensures a[..k + 1] == b[..k + 1] && a[k + 1] < b[k + 1]
      {
        assert a[..k + 1] == [a[0]] + a[1..][..k] && b[..k + 1] == [b[0]] + b[1..][..k];
      }
    }
  }

  lemma {:induction false} BeforeTransitive(a: string, b: string, c: string)
    requires Before(a, b) && Before(b, c)
    ensures Before(a, c)
  {
    if a != "" && a[0] == b[0] == c[0] {
      BeforeTransitive(a[1..], b[1..], c[1..]);
    }
  }

  lemma {:induction false} BeforeTotal(a: string, b: string)
    ensures a == b || Before(a, b) || Before(b, a)
    ensures !Before(a, a)
  {
    if a != "" {
      BeforeTotal(a[1..], if b == "" then "" else b[1..]);
      if b != "" && a[0] == b[0] {
        assert a == [a[0]] + a[1..] && b == [b[0]] + b[1..];
      }
    }
  }

  ghost predicate Ascending(names: seq<string>) {
    forall i, j :: 0 <= i < j < |names| ==> Before(names[i], names[j])
  }

  function Insert(name: string, names: seq<string>): seq<string> {
    if names == [] then [name]
    else if name == names[0] then names
    else if Before(name, names[0]) then [name] + names
    else [names[0]] + Insert(name, names[1..])
  }

  /** slices.Sort followed by slices.Compact. */
  function SortCompact(names: seq<string>): seq<string> {
    if names == [] then [] else Insert(names[0], SortCompact(names[1..]))
  }

  lemma {:induction false} InsertSorted(name: string, names: seq<string>)
    requires Ascending(names)
    ensures Ascending(Insert(name, names))
    ensures forall n :: n in Insert(name, names) <==> n == name || n in names
  {
    if names != [] && name != names[0] {
      assert names == [names[0]] + names[1..];
      BeforeTotal(name, names[0]);
      if Before(name, names[0]) {
        forall j | 0 <= j < |names|
          ensures Before(name, names[j])
        {
          if j > 0 {
            BeforeTransitive(name, names[0], names[j]);
          }
        }
      } else {
        var rest := Insert(name, names[1..]);
        InsertSorted(name, names[1..]);
        forall j | 0 <= j < |rest|
          ensures Before(names[0], rest[j])
        {
          assert rest[j] in rest;
        }
      }
    }
  }

  /** The result lists the same names once each, in strictly ascending order. */
  lemma {:induction false} SortCompactExact(names: seq<string>)
    ensures Ascending(SortCompact(names)) && NoRepeats(SortCompact(names))
    ensures forall n :: n in SortCompact(names) <==> n in names
  {
    if names != [] {
      SortCompactExact(names[1..]);
      InsertSorted(names[0], SortCompact(names[1..]));
      assert names == [names[0]] + names[1..];
      var out := SortCompact(names);
      forall i, j | 0 <= i < j < |out|
        ensures out[i] != out[j]
      {
        BeforeTotal(out[i], out[j]);
      }
    }
  }

  lemma {:induction false} SortCompactLength(names: seq<string>)
    ensures |SortCompact(names)| <= |names|
  {
    if names != [] {
      SortCompactLength(names[1..]);
      InsertLength(names[0], SortCompact(names[1..]));
    }
  }

  lemma {:induction false} InsertLength(name: string, names: seq<string>)
    ensures |Insert(name, names)| <= |names| + 1
  {
    if names != [] {
      InsertLength(name, names[1..]);
    }
  }

  // ---------------------------------------------------------------- the listing of a set

  /** The elements of a set in ascending order. */
  ghost function Listing(s: set<string>): (names: seq<string>)
    ensures Ascending(names) && forall n :: n in names <==> n in s
  {
    if s == {} then []
    else
      var n :| n in s;
      InsertSorted(n, Listing(s - {n}));
      Insert(n, Listing(s - {n}))
  }

  /** A set has one ascending listing. */
  lemma {:induction false} OneListing(a: seq<string>, b: seq<string>)
    requires Ascending(a) && Ascending(b) && forall n :: n in a <==> n in b
    ensures a == b
    decreases |a|
  {
    assert (a == [] || a[0] in b) && (b == [] || b[0] in a);
    if a != [] && b != [] {
      FirstOfListing(a, b);
      FirstOfListing(b, a);
      BeforeTotal(a[0], b[0]);
      if Before(a[0], b[0]) {
        BeforeTransitive(a[0], b[0], a[0]);
      }
      forall n
        ensures n in a[1..] <==> n in b[1..]
      {
        TailOfListing(a, n);
        TailOfListing(b, n);
      }
      OneListing(a[1..], b[1..]);
      assert a == [a[0]] + a[1..] && b == [b[0]] + b[1..];
    }
  }

  lemma FirstOfListing(a: seq<string>, b: seq<string>)
    requires a != [] && b != [] && Ascending(b) && a[0] in b
    ensures a[0] == b[0] || Before(b[0], a[0])
  {
  }

  lemma TailOfListing(a: seq<string>, n: string)
    requires a != [] && Ascending(a)
    ensures n in a[1..] <==> n in a && n != a[0]
  {
    BeforeTotal(n, n);
    assert a == [a[0]] + a[1..];
  }
}
