/**
 Inspection of finished work (pkg/jobinspect/service.go): paging through identifiers with cursors, and
 field pointers, which are JSON Pointers (RFC 6901).
 */
module Inspection {
  import opened Text

  // ---------------------------------------------------------------- paging

  /** A decoded cursor; its text form is an abstract injective encoding, and the empty text is None. */
  datatype Cursor = Cursor(job: string, operation: string, task: string, last: string, attempt: int)

  datatype Request = Request(job: string, operation: string, task: string, attempt: int, limit: nat, cursor: Option<Cursor>)

  datatype Page = Page(start: nat, end: nat, next: Option<Cursor>)

  datatype PageError = CursorMismatch | CursorGone

  predicate CursorFits(q: Request, c: Cursor) {
    c.job == q.job && c.operation == q.operation && c.task == q.task && c.attempt == q.attempt
  }

  function PageFrom(q: Request, ids: seq<string>, start: nat): Page
    requires q.limit >= 1 && start <= |ids|
  {
    var end := if start + q.limit < |ids| then start + q.limit else |ids|;
    Page(start, end, if end < |ids| then Some(Cursor(q.job, q.operation, q.task, ids[end - 1], q.attempt)) else None)
  }

  function Paged(q: Request, ids: seq<string>): Result<Page, PageError>
    requires q.limit >= 1
  {
    match q.cursor
    case None => Ok(PageFrom(q, ids, 0))
    case Some(c) =>
      if !CursorFits(q, c) then Err(CursorMismatch)
      else if Position(ids, c.last) == |ids| then Err(CursorGone)
      else Ok(PageFrom(q, ids, Position(ids, c.last) + 1))
  }

  /** page; Inspect admits limits from 1 to 100. */
  method PageOf(q: Request, ids: seq<string>) returns (result: Result<Page, PageError>)
    requires q.limit >= 1
    ensures result == Paged(q, ids)
  {
    var start := 0;
    if q.cursor.Some? {
      var c := q.cursor.value;
      if !CursorFits(q, c) {
        return Err(CursorMismatch);
      }
      var found := false;
      for i := 0 to |ids|
        invariant !found && c.last !in ids[..i]
      {
        if ids[i] == c.last {
          FirstPosition(ids, c.last, i);
          start := i + 1;
          found := true;
          break;
        }
        assert ids[..i + 1] == ids[..i] + [ids[i]];
      }
      if !found {
        FirstPosition(ids, c.last, |ids|);
        return Err(CursorGone);
      }
    }
    result := Ok(PageFrom(q, ids, start));
  }

  /** Which cursors are refused: one of another request, and one whose last identifier is no longer listed. */
  lemma CursorRefusedExactly(q: Request, ids: seq<string>)
    requires q.limit >= 1
    ensures Paged(q, ids) == Err(CursorMismatch) <==>
              q.cursor.Some? && (q.cursor.value.job != q.job || q.cursor.value.operation != q.operation
                                 || q.cursor.value.task != q.task || q.cursor.value.attempt != q.attempt)
    ensures Paged(q, ids) == Err(CursorGone) <==>
              && q.cursor.Some? && q.cursor.value.last !in ids
              && q.cursor.value.job == q.job && q.cursor.value.operation == q.operation
              && q.cursor.value.task == q.task && q.cursor.value.attempt == q.attempt
  {
    if q.cursor.Some? {
      var last := q.cursor.value.last;
      assert ids[..|ids|] == ids;
      assert Position(ids, last) < |ids| ==> ids[Position(ids, last)] == last;
    }
  }

  /** All identifiers collected by following cursors for at most `pages` pages. */
  function Collected(q: Request, ids: seq<string>, pages: nat): Option<seq<string>>
    requires q.limit >= 1
    decreases pages
  {
    if pages == 0 then None
    else
      match Paged(q, ids)
      case Err(_) => None
      case Ok(p) =>
        assert p.start <= p.end <= |ids|;
        if p.next.None? then Some(ids[p.start..p.end])
        else
          match Collected(q.(cursor := p.next), ids, pages - 1)
          case None => None
          case Some(rest) => Some(ids[p.start..p.end] + rest)
  }

  /** From `start` on, the last identifier of every page but the last occurs there for the first time. */
  predicate PageEndsUnique(ids: seq<string>, limit: nat, start: nat)
    requires limit >= 1
    decreases |ids| - start
  {
    start + limit < |ids| ==>
      ids[start + limit - 1] !in ids[..start + limit - 1] && PageEndsUnique(ids, limit, start + limit)
  }

  /** The request that asks for the page at `start`, as a client that follows cursors sends it. */
  predicate AsksFor(q: Request, ids: seq<string>, start: nat) {
    start <= |ids| && match q.cursor
                      case None => start == 0
                      case Some(c) => CursorFits(q, c) && 0 < start && Position(ids, c.last) == start - 1
  }

  /** The next request asks for the page at the end of this one, or for an earlier one if its last identifier is repeated. */
  lemma NextAsks(q: Request, ids: seq<string>, start: nat)
    requires q.limit >= 1 && AsksFor(q, ids, start)
    ensures Paged(q, ids) == Ok(PageFrom(q, ids, start))
    ensures var p := PageFrom(q, ids, start);
            p.next.Some? ==>
              var next := Position(ids, ids[p.end - 1]) + 1;
              && next <= p.end && AsksFor(q.(cursor := p.next), ids, next)
              && (next == p.end <==> ids[p.end - 1] !in ids[..p.end - 1])
  {
    var p := PageFrom(q, ids, start);
    if p.next.Some? {
      FoundBefore(ids, p.end - 1);
    }
  }

  lemma FoundBefore(ids: seq<string>, i: nat)
    requires i < |ids|
    ensures Position(ids, ids[i]) <= i
    ensures Position(ids, ids[i]) == i <==> ids[i] !in ids[..i]
  {
    var p := Position(ids, ids[i]);
    assert forall k :: 0 <= k < i ==> ids[..i][k] == ids[k];
    assert forall k :: 0 <= k < p ==> ids[..p][k] == ids[k];
  }

  lemma {:induction false} PagingYieldsRest(q: Request, ids: seq<string>, start: nat, pages: nat)
    requires q.limit >= 1 && AsksFor(q, ids, start) && PageEndsUnique(ids, q.limit, start) && pages > |ids| - start
    ensures Collected(q, ids, pages) == Some(ids[start..])
    decreases pages
  {
    hide Paged, Position, CursorFits;
    NextAsks(q, ids, start);
    var p := PageFrom(q, ids, start);
    if p.next.Some? {
      hide AsksFor;
      PagingYieldsRest(q.(cursor := p.next), ids, p.end, pages - 1);
      assert ids[start..] == ids[start..p.end] + ids[p.end..];
    } else {
      assert ids[start..p.end] == ids[start..];
    }
  }

  /** A client that reaches the end has seen at least every identifier from `start` on. */
  lemma {:induction false} PagingSkipsNothing(q: Request, ids: seq<string>, start: nat, pages: nat)
    requires q.limit >= 1 && AsksFor(q, ids, start) && Collected(q, ids, pages).Some?
    ensures |Collected(q, ids, pages).value| >= |ids| - start
    decreases pages
  {
    hide Paged, Position, CursorFits;
    NextAsks(q, ids, start);
    var p := PageFrom(q, ids, start);
    if p.next.Some? {
      hide AsksFor;
      PagingSkipsNothing(q.(cursor := p.next), ids, Position(ids, ids[p.end - 1]) + 1, pages - 1);
    }
  }

  lemma {:induction false} RepeatedPageEndOvershoots(q: Request, ids: seq<string>, start: nat, pages: nat)
    requires q.limit >= 1 && AsksFor(q, ids, start) && !PageEndsUnique(ids, q.limit, start)
    requires Collected(q, ids, pages).Some?
    ensures |Collected(q, ids, pages).value| > |ids| - start
    decreases pages
  {
    hide Paged, Position, CursorFits;
    NextAsks(q, ids, start);
    var p := PageFrom(q, ids, start);
    hide AsksFor;
    var next := Position(ids, ids[p.end - 1]) + 1;
    if next == p.end {
      RepeatedPageEndOvershoots(q.(cursor := p.next), ids, next, pages - 1);
    } else {
      PagingSkipsNothing(q.(cursor := p.next), ids, next, pages - 1);
    }
  }

  /**
   Following cursors from the empty cursor ends with every identifier once, in order, exactly when the
   last identifier of each page but the last does not occur earlier in the list.
   */
  lemma PagingEnumeratesExactly(q: Request, ids: seq<string>)
    requires q.limit >= 1 && q.cursor.None?
    ensures (exists pages :: Collected(q, ids, pages) == Some(ids)) <==> PageEndsUnique(ids, q.limit, 0)
  {
    if PageEndsUnique(ids, q.limit, 0) {
      PagingYieldsRest(q, ids, 0, |ids| + 1);
      assert ids[0..] == ids;
    } else {
      forall pages | Collected(q, ids, pages).Some?
        ensures Collected(q, ids, pages) != Some(ids)
      {
        RepeatedPageEndOvershoots(q, ids, 0, pages);
      }
    }
  }

  lemma {:induction false} DistinctPageEnds(ids: seq<string>, limit: nat, start: nat)
    requires limit >= 1 && NoRepeats(ids)
    ensures PageEndsUnique(ids, limit, start)
    decreases |ids| - start
  {
    if start + limit < |ids| {
      DistinctPageEnds(ids, limit, start + limit);
    }
  }

  /** Distinct identifiers are enumerated exactly once, within one page more than there are identifiers. */
  lemma DistinctIdsEnumerated(q: Request, ids: seq<string>)
    requires q.limit >= 1 && q.cursor.None? && NoRepeats(ids)
    ensures Collected(q, ids, |ids| + 1) == Some(ids)
  {
    DistinctPageEnds(ids, q.limit, 0);
    PagingYieldsRest(q, ids, 0, |ids| + 1);
    assert ids[0..] == ids;
  }

  // ---------------------------------------------------------------- when following cursors ends

  /** Where the page after the one at `start` begins: behind the first occurrence of its last identifier. */
  function NextStart(ids: seq<string>, limit: nat, start: nat): nat
    requires limit >= 1 && start + limit < |ids|
  {
    Position(ids, ids[start + limit - 1]) + 1
  }

  /** Where the page after `k` more pages begins, if the last page does not come before. */
  function StartAfter(ids: seq<string>, limit: nat, start: nat, k: nat): Option<nat>
    requires limit >= 1
    decreases k
  {
    if k == 0 then Some(start)
    else if start + limit < |ids| then StartAfter(ids, limit, NextStart(ids, limit, start), k - 1)
    else None
  }

  lemma {:induction false} CollectedInPages(q: Request, ids: seq<string>, start: nat, pages: nat)
    requires q.limit >= 1 && AsksFor(q, ids, start)
    ensures Collected(q, ids, pages).Some? <==> StartAfter(ids, q.limit, start, pages).None?
    decreases pages
  {
    hide Paged, Position, CursorFits;
    if pages > 0 {
      NextAsks(q, ids, start);
      var p := PageFrom(q, ids, start);
      hide AsksFor;
      if p.next.Some? {
        CollectedInPages(q.(cursor := p.next), ids, NextStart(ids, q.limit, start), pages - 1);
      }
    }
  }

  lemma {:induction false} StartsCompose(ids: seq<string>, limit: nat, start: nat, j: nat, k: nat)
    requires limit >= 1
    ensures StartAfter(ids, limit, start, j + k) ==
            if StartAfter(ids, limit, start, j).None? then None
            else StartAfter(ids, limit, StartAfter(ids, limit, start, j).value, k)
    decreases j
  {
    if j > 0 && start + limit < |ids| {
      StartsCompose(ids, limit, NextStart(ids, limit, start), j - 1, k);
    }
  }

  /** A start that comes round again keeps coming round: no number of pages is the last. */
  lemma {:induction false} ReturningStartLoops(ids: seq<string>, limit: nat, start: nat, period: nat, k: nat)
    requires limit >= 1 && period >= 1 && StartAfter(ids, limit, start, period) == Some(start)
    ensures StartAfter(ids, limit, start, k).Some?
    decreases k
  {
    if k < period {
      StartsCompose(ids, limit, start, k, period - k);
    } else {
      ReturningStartLoops(ids, limit, start, period, k - period);
      StartsCompose(ids, limit, start, period, k - period);
    }
  }

  /** Among the first pages, one more than there are positions, no two begin at the same position. */
  predicate NoStartReturns(ids: seq<string>, limit: nat)
    requires limit >= 1
  {
    forall i, j :: 0 <= i < j <= |ids| + 1 && StartAfter(ids, limit, 0, j).Some? ==>
                     StartAfter(ids, limit, 0, i) != StartAfter(ids, limit, 0, j)
  }

  lemma {:induction false} StartInRange(ids: seq<string>, limit: nat, start: nat, k: nat)
    requires limit >= 1 && start <= |ids|
    ensures StartAfter(ids, limit, start, k).Some? ==> StartAfter(ids, limit, start, k).value <= |ids|
    decreases k
  {
    if k > 0 && start + limit < |ids| {
      FoundBefore(ids, start + limit - 1);
      StartInRange(ids, limit, NextStart(ids, limit, start), k - 1);
    }
  }

  /** More pages than positions: two of them begin at the same one. */
  lemma ManyPagesReturn(ids: seq<string>, limit: nat)
    requires limit >= 1 && StartAfter(ids, limit, 0, |ids| + 1).Some?
    ensures !NoStartReturns(ids, limit)
  {
    var n := |ids| + 2;
    forall k: nat | k < n
      ensures StartAfter(ids, limit, 0, k).Some? && StartAfter(ids, limit, 0, k).value <= |ids|
    {
      StartsCompose(ids, limit, 0, k, n - 1 - k);
      StartInRange(ids, limit, 0, k);
    }
    var starts := seq(n, k requires 0 <= k < n => StartAfter(ids, limit, 0, k).value);
    var positions := seq(|ids| + 1, i => i);
    if NoStartReturns(ids, limit) {
      forall x | x in starts
        ensures x in positions
      {
        assert positions[x] == x;
      }
      NoShorterList(starts, positions);
    }
  }

  /**
   Following cursors from the empty cursor reaches a last page exactly when no page begins where an
   earlier one began, and then within one page more than there are positions.
   */
  lemma PagingEndsExactly(q: Request, ids: seq<string>)
    requires q.limit >= 1 && q.cursor.None?
    ensures (exists pages :: Collected(q, ids, pages).Some?) <==> NoStartReturns(ids, q.limit)
    ensures NoStartReturns(ids, q.limit) ==> Collected(q, ids, |ids| + 1).Some?
  {
    CollectedInPages(q, ids, 0, |ids| + 1);
    if NoStartReturns(ids, q.limit) {
      if StartAfter(ids, q.limit, 0, |ids| + 1).Some? {
        ManyPagesReturn(ids, q.limit);
      }
    } else {
      var i, j :| 0 <= i < j <= |ids| + 1 && StartAfter(ids, q.limit, 0, j).Some?
                  && StartAfter(ids, q.limit, 0, i) == StartAfter(ids, q.limit, 0, j);
      forall pages: nat
        ensures Collected(q, ids, pages).None?
      {
        ReturnNeverEnds(ids, q.limit, i, j, pages);
        CollectedInPages(q, ids, 0, pages);
      }
    }
  }

  lemma ReturnNeverEnds(ids: seq<string>, limit: nat, i: nat, j: nat, k: nat)
    requires limit >= 1 && i < j && StartAfter(ids, limit, 0, j).Some?
    requires StartAfter(ids, limit, 0, i) == StartAfter(ids, limit, 0, j)
    ensures StartAfter(ids, limit, 0, k).Some?
  {
    var s := StartAfter(ids, limit, 0, i).value;
    StartsCompose(ids, limit, 0, i, j - i);
    ReturningStartLoops(ids, limit, s, j - i, k);
    StartsCompose(ids, limit, 0, i, k);
    StartsCompose(ids, limit, 0, k, i);
  }

  /** With one identifier a page, this list keeps a client going round for ever. */
  lemma {:induction false} RepeatedIdLoops(q: Request, pages: nat)
    requires q.limit == 1 && AsksFor(q, ["a", "a", "b"], if q.cursor.None? then 0 else 1)
    ensures Collected(q, ["a", "a", "b"], pages).None?
    decreases pages
  {
    var ids := ["a", "a", "b"];
    if pages > 0 {
      var start := if q.cursor.None? then 0 else 1;
      var p := PageFrom(q, ids, start);
      assert Paged(q, ids) == Ok(p);
      assert Position(ids, "a") == 0;
      RepeatedIdLoops(q.(cursor := p.next), pages - 1);
    }
  }

  /** With three a page, this list is read to its end, but one identifier is seen more often than it is listed. */
  lemma RepeatedIdSeenAgain(q: Request)
    requires q.limit == 3 && q.cursor.None?
    ensures Collected(q, ["p", "q", "q", "r"], 2) == Some(["p", "q", "q", "q", "r"])
  {
    var ids := ["p", "q", "q", "r"];
    assert Position(ids[1..], "q") == 0 && Position(ids, "q") == 1;
    var p := PageFrom(q, ids, 0);
    assert Paged(q, ids) == Ok(p) && p.end == 3;
    var second := q.(cursor := p.next);
    var last := PageFrom(second, ids, 2);
    assert Paged(second, ids) == Ok(last) && last == Page(2, 4, None);
    hide Paged, PageFrom, Position;
    assert Collected(second, ids, 1) == Some(ids[2..4]);
    assert ids[0..3] + ids[2..4] == ["p", "q", "q", "q", "r"];
  }

  // ---------------------------------------------------------------- JSON Pointers

  datatype Json = Object(members: map<string, Json>) | Array(items: seq<Json>) | Null | Scalar(text: string)

  /** strings.ReplaceAll for a nonempty pattern. */
  function ReplaceAll(s: string, pattern: string, replacement: string): string
    requires pattern != ""
    decreases |s|
  {
    if s == "" then ""
    else if pattern <= s then replacement + ReplaceAll(s[|pattern|..], pattern, replacement)
    else [s[0]] + ReplaceAll(s[1..], pattern, replacement)
  }

  function Escape(key: string): string {
    ReplaceAll(ReplaceAll(key, "~", "~0"), "/", "~1")
  }

  function Unescape(token: string): string {
    ReplaceAll(ReplaceAll(token, "~1", "/"), "~0", "~")
  }

  /** The escape check: every tilde is followed by 0 or 1. */
  predicate ValidToken(token: string) {
    if token == "" then true
    else if token[0] == '~' then |token| > 1 && token[1] in ['0', '1'] && ValidToken(token[2..])
    else ValidToken(token[1..])
  }

  method CheckToken(token: string) returns (ok: bool)
    ensures ok <==> ValidToken(token)
  {
    var i := 0;
    while i < |token|
      invariant i <= |token| && (ValidToken(token[i..]) <==> ValidToken(token))
    {
      assert token[i..][1..] == token[i + 1..];
      if token[i] == '~' {
        if i + 1 >= |token| || (token[i + 1] != '0' && token[i + 1] != '1') {
          return false;
        }
        assert token[i..][2..] == token[i + 2..];
        i := i + 1;
      }
      i := i + 1;
    }
    ok := true;
  }

  function PointerOf(key: string): string {
    "/" + Escape(key)
  }

  /** strconv.Atoi and the check that the index is written canonically and in range. */
  function ArrayIndex(token: string, length: nat): (index: Option<nat>)
    ensures forall n: nat :: index == Some(n) <==> n < length && token == Decimal(n)
  {
    if token != "" && AllDigits(token) && DigitsValue(token) < length && Decimal(DigitsValue(token)) == token
    then Some(DigitsValue(token)) else None
  }

  /** One token down. */
  function Child(v: Json, key: string): Option<Json> {
    match v
    case Object(m) => if key in m then Some(m[key]) else None
    case Array(items) =>
      var n := ArrayIndex(key, |items|);
      if n.Some? then Some(items[n.value]) else None
    case _ => None
  }

  datatype PointerError = NotProduced | BadStart | BadEscape | Missing

  /** The loop of Pointer over the tokens. */
  function Walked(v: Json, tokens: seq<string>, n: nat): Result<Json, PointerError>
    requires n <= |tokens|
  {
    if n == 0 then Ok(v)
    else
      match Walked(v, tokens, n - 1)
      case Err(e) => Err(e)
      case Ok(at) =>
        if !ValidToken(tokens[n - 1]) then Err(BadEscape)
        else if Child(at, Unescape(tokens[n - 1])).None? then Err(Missing)
        else Ok(Child(at, Unescape(tokens[n - 1])).value)
  }

  function Pointed(raw: Option<Json>, p: string): Result<Json, PointerError> {
    if raw.None? then Err(NotProduced)
    else if p == "" then Ok(raw.value)
    else if p[0] != '/' then Err(BadStart)
    else
      var tokens := Split(p[1..], '/');
      Walked(raw.value, tokens, |tokens|)
  }

  method Pointer(raw: Option<Json>, p: string) returns (result: Result<Json, PointerError>)
    ensures result == Pointed(raw, p)
  {
    if raw.None? {
      return Err(NotProduced);
    }
    if p == "" {
      return Ok(raw.value);
    }
    if p[0] != '/' {
      return Err(BadStart);
    }
    var tokens := Split(p[1..], '/');
    var at := raw.value;
    for i := 0 to |tokens|
      invariant Walked(raw.value, tokens, i) == Ok(at)
    {
      WalkErrorStays(raw.value, tokens, i + 1);
      var ok := CheckToken(tokens[i]);
      if !ok {
        return Err(BadEscape);
      }
      var next := Child(at, Unescape(tokens[i]));
      if next.None? {
        return Err(Missing);
      }
      at := next.value;
    }
    result := Ok(at);
  }

  lemma {:induction false} WalkErrorStays(v: Json, tokens: seq<string>, n: nat)
    requires n <= |tokens|
    ensures Walked(v, tokens, n).Err? ==> Walked(v, tokens, |tokens|) == Walked(v, tokens, n)
    decreases |tokens| - n
  {
    hide Child, ValidToken;
    if n < |tokens| {
      WalkErrorStays(v, tokens, n + 1);
    }
  }

  // ---------------------------------------------------------------- escaping and its inverse

  /** One character at a time: the escape sequences of section 3 of RFC 6901. */
  function EscapeEach(key: string): string {
    if key == "" then ""
    else (if key[0] == '~' then "~0" else if key[0] == '/' then "~1" else [key[0]]) + EscapeEach(key[1..])
  }

  /** The decoding of section 4 of RFC 6901, in one pass. */
  function Decode(token: string): string
    requires ValidToken(token)
  {
    if token == "" then ""
    else if token[0] == '~' then (if token[1] == '0' then "~" else "/") + Decode(token[2..])
    else [token[0]] + Decode(token[1..])
  }

  lemma ReplaceHead(c: char, s: string, pattern: string, replacement: string)
    requires |pattern| == 1
    ensures ReplaceAll([c] + s, pattern, replacement) == (if c == pattern[0] then replacement else [c]) + ReplaceAll(s, pattern, replacement)
  {
    assert ([c] + s)[1..] == s;
    assert pattern <= [c] + s <==> c == pattern[0];
  }

  lemma {:induction false} EscapeIsEscapeEach(key: string)
    ensures Escape(key) == EscapeEach(key)
  {
    if key != "" {
      var rest := ReplaceAll(key[1..], "~", "~0");
      EscapeIsEscapeEach(key[1..]);
      assert key == [key[0]] + key[1..];
      ReplaceHead(key[0], key[1..], "~", "~0");
      if key[0] == '~' {
        assert "~0" + rest == ['~'] + (['0'] + rest);
        ReplaceHead('~', ['0'] + rest, "/", "~1");
        ReplaceHead('0', rest, "/", "~1");
        assert ['~'] + (['0'] + ReplaceAll(rest, "/", "~1")) == "~0" + ReplaceAll(rest, "/", "~1");
      } else {
        ReplaceHead(key[0], rest, "/", "~1");
      }
    }
  }

  /** Two replacement passes decode a valid token as the single pass of the standard does. */
  lemma {:induction false} UnescapeIsDecode(token: string)
    requires ValidToken(token)
    ensures Unescape(token) == Decode(token)
    decreases |token|
  {
    if token == "" {
    } else if token[0] == '~' {
      UnescapeIsDecode(token[2..]);
      var rest := ReplaceAll(token[2..], "~1", "/");
      if token[1] == '1' {
        assert "~1" <= token;
        PairMissesSlash(rest);
      } else {
        ZeroPair(token, rest);
      }
    } else {
      UnescapeIsDecode(token[1..]);
      var rest := ReplaceAll(token[1..], "~1", "/");
      assert !("~1" <= token);
      PairMisses(token[0], rest);
    }
  }

  lemma PairMisses(c: char, rest: string)
    requires c != '~'
    ensures ReplaceAll([c] + rest, "~0", "~") == [c] + ReplaceAll(rest, "~0", "~")
  {
    assert ([c] + rest)[0] != "~0"[0];
    assert ([c] + rest)[1..] == rest;
  }

  lemma PairMissesSlash(rest: string)
    ensures ReplaceAll("/" + rest, "~0", "~") == "/" + ReplaceAll(rest, "~0", "~")
  {
    PairMisses('/', rest);
  }

  lemma ZeroPair(token: string, rest: string)
    requires |token| > 1 && token[0] == '~' && token[1] == '0' && rest == ReplaceAll(token[2..], "~1", "/")
    ensures ReplaceAll(token, "~1", "/") == "~0" + rest
    ensures ReplaceAll("~0" + rest, "~0", "~") == "~" + ReplaceAll(rest, "~0", "~")
  {
    assert token[1] != "~1"[1] && !("~1" <= token);
    var tail := token[1..];
    assert tail[0] != "~1"[0] && !("~1" <= tail);
    assert tail[1..] == token[2..];
    assert ReplaceAll(token, "~1", "/") == ['~'] + (['0'] + rest);
    assert "~0" <= "~0" + rest && ("~0" + rest)[2..] == rest;
  }

  lemma {:induction false} EscapeDecodes(key: string)
    ensures ValidToken(EscapeEach(key)) && '/' !in EscapeEach(key)
    ensures Decode(EscapeEach(key)) == key
  {
    if key != "" {
      EscapeDecodes(key[1..]);
      var rest := EscapeEach(key[1..]);
      assert key == [key[0]] + key[1..];
      if key[0] == '~' {
        assert ("~0" + rest)[2..] == rest;
      } else if key[0] == '/' {
        assert ("~1" + rest)[2..] == rest;
      } else {
        assert ([key[0]] + rest)[1..] == rest;
      }
    }
  }

  lemma {:induction false} DecodeEscapes(token: string)
    requires ValidToken(token) && '/' !in token
    ensures EscapeEach(Decode(token)) == token
    decreases |token|
  {
    if token == "" {
    } else if token[0] == '~' {
      DecodeEscapes(token[2..]);
      var c := if token[1] == '0' then "~" else "/";
      assert (c + Decode(token[2..]))[1..] == Decode(token[2..]);
      assert token == [token[0], token[1]] + token[2..];
    } else {
      DecodeEscapes(token[1..]);
      assert ([token[0]] + Decode(token[1..]))[1..] == Decode(token[1..]);
      assert token == [token[0]] + token[1..];
    }
  }

  // ---------------------------------------------------------------- pointers denote paths

  /** The pointer of a path of keys. */
  function Print(path: seq<string>): string {
    if path == [] then "" else PointerOf(path[0]) + Print(path[1..])
  }

  /** Following the keys themselves: the meaning of a pointer. */
  function Descend(v: Json, path: seq<string>): Option<Json> {
    if path == [] then Some(v)
    else
      match Child(v, path[0])
      case None => None
      case Some(next) => Descend(next, path[1..])
  }

  function Tokens(path: seq<string>): seq<string> {
    seq(|path|, i requires 0 <= i < |path| => Escape(path[i]))
  }

  lemma AfterSlash(e: string, rest: string)
    requires rest != "" && rest[0] == '/'
    ensures ("/" + e + rest)[1..] == e + ['/'] + rest[1..]
  {
  }

  lemma {:induction false} PrintSplits(path: seq<string>)
    requires path != []
    ensures Print(path) != "" && Print(path)[0] == '/'
    ensures Split(Print(path)[1..], '/') == Tokens(path)
  {
    var e := Escape(path[0]);
    assert '/' !in e by {
      EscapeIsEscapeEach(path[0]);
      EscapeDecodes(path[0]);
    }
    TokensCons(path);
    hide Escape, Tokens, Split;
    if |path| == 1 {
      assert Print(path[1..]) == "" && Print(path) == "/" + e;
      SplitWithoutSeparator(e, '/');
    } else {
      PrintSplits(path[1..]);
      var rest := Print(path[1..]);
      AfterSlash(e, rest);
      SplitAtSeparator(e, rest[1..], '/');
    }
  }

  lemma TokensCons(path: seq<string>)
    requires path != []
    ensures Tokens(path) == [Escape(path[0])] + Tokens(path[1..])
    ensures |path| == 1 ==> Tokens(path) == [Escape(path[0])]
  {
    hide Escape;
  }

  lemma EscapedToken(key: string)
    ensures ValidToken(Escape(key)) && Unescape(Escape(key)) == key
  {
    EscapeIsEscapeEach(key);
    EscapeDecodes(key);
    UnescapeIsDecode(Escape(key));
  }

  lemma {:induction false} DescendSnoc(v: Json, path: seq<string>, key: string)
    ensures Descend(v, path + [key]) == match Descend(v, path)
                                        case None => None
                                        case Some(at) => Child(at, key)
    decreases |path|
  {
    hide Child;
    if path == [] {
      assert path + [key] == [key] && [key][1..] == [];
    } else {
      assert (path + [key])[1..] == path[1..] + [key];
      match Child(v, path[0])
      case None =>
      case Some(next) => DescendSnoc(next, path[1..], key);
    }
  }

  lemma {:induction false} WalkDescends(v: Json, path: seq<string>, n: nat)
    requires n <= |path|
    ensures Walked(v, Tokens(path), n) == if Descend(v, path[..n]).Some? then Ok(Descend(v, path[..n]).value) else Err(Missing)
  {
    hide Child, Unescape, Escape, ValidToken;
    if n > 0 {
      WalkDescends(v, path, n - 1);
      DescendSnoc(v, path[..n - 1], path[n - 1]);
      assert path[..n] == path[..n - 1] + [path[n - 1]];
      EscapedToken(path[n - 1]);
      assert Tokens(path)[n - 1] == Escape(path[n - 1]);
    }
  }

  /** Looking up a printed path follows exactly its keys, whatever characters they hold. */
  lemma PointerInvertsPrint(v: Json, path: seq<string>)
    ensures Pointed(Some(v), Print(path)) == if Descend(v, path).Some? then Ok(Descend(v, path).value) else Err(Missing)
  {
    if path != [] {
      PrintSplits(path);
      WalkDescends(v, path, |path|);
      assert path[..|path|] == path;
    }
  }

  /** The pointer that `fields` prints for a member of an object is looked up to that member. */
  lemma FieldPointerFindsField(members: map<string, Json>, key: string)
    requires key in members
    ensures Pointed(Some(Object(members)), PointerOf(key)) == Ok(members[key])
  {
    PointerInvertsPrint(Object(members), [key]);
    assert [key][1..] == [];
    assert Print([key]) == PointerOf(key) + "" == PointerOf(key);
    assert Descend(Object(members), [key]) == Some(members[key]);
  }

  /** The pointer of an item's number in an array is looked up to that item. */
  lemma ItemPointerFindsItem(items: seq<Json>, n: nat)
    requires n < |items|
    ensures Pointed(Some(Array(items)), PointerOf(Decimal(n))) == Ok(items[n])
  {
    PointerInvertsPrint(Array(items), [Decimal(n)]);
    assert [Decimal(n)][1..] == [];
    assert Print([Decimal(n)]) == PointerOf(Decimal(n)) + "" == PointerOf(Decimal(n));
    assert Child(Array(items), Decimal(n)) == Some(items[n]);
    assert Descend(Array(items), [Decimal(n)]) == Some(items[n]);
  }

  /** One token down: a member by its key, an item by its canonical number, and nothing below anything else. */
  lemma ChildExactly(v: Json, key: string, found: Json)
    ensures Child(v, key) == Some(found) <==>
              || (v.Object? && key in v.members && v.members[key] == found)
              || (v.Array? && exists n: nat :: n < |v.items| && key == Decimal(n) && v.items[n] == found)
  {
    if v.Array? {
      var index := ArrayIndex(key, |v.items|);
      assert index.Some? ==> index == Some(index.value);
    }
  }

  lemma {:induction false} PathOfTokens(tokens: seq<string>) returns (path: seq<string>)
    requires forall i :: 0 <= i < |tokens| ==> ValidToken(tokens[i]) && '/' !in tokens[i]
    ensures Tokens(path) == tokens
    decreases |tokens|
  {
    if tokens == [] {
      path := [];
    } else {
      var rest := PathOfTokens(tokens[1..]);
      var key := Decode(tokens[0]);
      DecodeEscapes(tokens[0]);
      EscapeIsEscapeEach(key);
      path := [key] + rest;
      assert Tokens(path) == [Escape(key)] + Tokens(rest);
    }
  }

  lemma {:induction false} WalkNeedsValidTokens(v: Json, tokens: seq<string>, n: nat)
    requires n <= |tokens| && Walked(v, tokens, n).Ok?
    ensures forall i :: 0 <= i < n ==> ValidToken(tokens[i])
  {
    hide Child, ValidToken;
    if n > 0 {
      WalkNeedsValidTokens(v, tokens, n - 1);
    }
  }

  /** Every pointer that is accepted is the pointer of a path. */
  lemma PathOfPointer(v: Json, p: string) returns (path: seq<string>)
    requires Pointed(Some(v), p).Ok?
    ensures p == Print(path)
  {
    if p == "" {
      path := [];
    } else {
      var tokens := Split(p[1..], '/');
      WalkNeedsValidTokens(v, tokens, |tokens|);
      SplitHasNoSeparator(p[1..], '/');
      hide Pointed;
      path := PathOfTokens(tokens);
      assert |path| == |tokens| >= 1;
      PrintSplits(path);
      JoinSplit(p[1..], '/');
      JoinSplit(Print(path)[1..], '/');
      assert p == ['/'] + p[1..] && Print(path) == ['/'] + Print(path)[1..];
    }
  }

  /** A pointer finds a value exactly when it is the pointer of a path of keys that leads to it. */
  lemma PointerFindsExactly(v: Json, p: string, found: Json)
    ensures Pointed(Some(v), p) == Ok(found) <==> exists path :: p == Print(path) && Descend(v, path) == Some(found)
  {
    hide Pointed;
    forall path | p == Print(path) && Descend(v, path) == Some(found)
      ensures Pointed(Some(v), p) == Ok(found)
    {
      PointerInvertsPrint(v, path);
    }
    if Pointed(Some(v), p) == Ok(found) {
      var path := PathOfPointer(v, p);
      PointerInvertsPrint(v, path);
    }
  }

  /** The walk gets to token `k` and no further, and why. */
  predicate StopsAt(v: Json, tokens: seq<string>, k: nat, e: PointerError) {
    && k < |tokens| && Walked(v, tokens, k).Ok?
    && if e == BadEscape then !ValidToken(tokens[k])
       else e == Missing && ValidToken(tokens[k]) && Child(Walked(v, tokens, k).value, Unescape(tokens[k])).None?
  }

  /** It stops so among the first `n` tokens. */
  predicate Stops(v: Json, tokens: seq<string>, n: nat, e: PointerError) {
    exists k :: 0 <= k < n && StopsAt(v, tokens, k, e)
  }

  lemma {:induction false} WalkStops(v: Json, tokens: seq<string>, n: nat, e: PointerError)
    requires n <= |tokens|
    ensures Walked(v, tokens, n) == Err(e) <==> Stops(v, tokens, n, e)
  {
    hide Child, ValidToken, Unescape;
    if n > 0 {
      WalkStops(v, tokens, n - 1, e);
      if StopsAt(v, tokens, n - 1, e) {
        assert Walked(v, tokens, n) == Err(e);
      }
      forall k: nat | k < n && StopsAt(v, tokens, k, e)
        ensures Walked(v, tokens, n) == Err(e)
      {
        if k < n - 1 {
          WalkStops(v, tokens, k + 1, e);
        }
      }
    }
  }

  /** Exactly why a pointer is refused. */
  lemma PointerRefusedExactly(raw: Option<Json>, p: string)
    ensures Pointed(raw, p) == Err(NotProduced) <==> raw.None?
    ensures Pointed(raw, p) == Err(BadStart) <==> raw.Some? && p != "" && p[0] != '/'
    ensures Pointed(raw, p) == Err(BadEscape) <==>
              raw.Some? && p != "" && p[0] == '/' && Stops(raw.value, Split(p[1..], '/'), |Split(p[1..], '/')|, BadEscape)
    ensures Pointed(raw, p) == Err(Missing) <==>
              raw.Some? && p != "" && p[0] == '/' && Stops(raw.value, Split(p[1..], '/'), |Split(p[1..], '/')|, Missing)
  {
    hide Walked, Split, Stops;
    if raw.Some? && p != "" && p[0] == '/' {
      var tokens := Split(p[1..], '/');
      assert Pointed(raw, p) == Walked(raw.value, tokens, |tokens|);
      WalkStops(raw.value, tokens, |tokens|, BadEscape);
      WalkStops(raw.value, tokens, |tokens|, Missing);
      OnlyWalkErrors(raw.value, tokens, |tokens|);
    }
  }

  lemma {:induction false} OnlyWalkErrors(v: Json, tokens: seq<string>, n: nat)
    requires n <= |tokens|
    ensures Walked(v, tokens, n).Err? ==> Walked(v, tokens, n).error == BadEscape || Walked(v, tokens, n).error == Missing
  {
    hide Child, ValidToken, Unescape;
    if n > 0 {
      OnlyWalkErrors(v, tokens, n - 1);
    }
  }

  // ---------------------------------------------------------------- field identifiers

  lemma PointersDistinct(a: string, b: string)
    requires PointerOf(a) == PointerOf(b)
    ensures a == b
  {
    assert Escape(a) == PointerOf(a)[1..] && Escape(b) == PointerOf(b)[1..];
    EscapedToken(a);
    EscapedToken(b);
  }

  function Pointers(keys: seq<string>): seq<string> {
    seq(|keys|, i requires 0 <= i < |keys| => PointerOf(keys[i]))
  }

  /** So the fields of an object are paged exactly once each. */
  lemma FieldsEnumerated(q: Request, keys: seq<string>)
    requires q.limit >= 1 && q.cursor.None? && NoRepeats(keys)
    ensures Collected(q, Pointers(keys), |keys| + 1) == Some(Pointers(keys))
  {
    hide PointerOf;
    forall i, j | 0 <= i < j < |keys|
      ensures Pointers(keys)[i] != Pointers(keys)[j]
    {
      if Pointers(keys)[i] == Pointers(keys)[j] {
        PointersDistinct(keys[i], keys[j]);
      }
    }
    DistinctIdsEnumerated(q, Pointers(keys));
  }
}
