/**
 Switch tables (pkg/recipe/state.go): compiling a table of cases into guarded transitions.
 Guards are conditions in the expression language; an environment says what their texts denote, and
 every guard is evaluated in the environment of its own destination. The main results: which transition
 is taken, whatever the guards read; when no text reads the destination, the transition taken is the one
 the table chooses and the guards exclude each other; and every well-formed table compiles.
 */
module SwitchTable {
  import opened Text

  type Payload = map<string, string>

  datatype When = Absent | WhenText(text: string) | WhenFlag(on: bool) | WhenOther

  /** A case value: missing, a literal with its Go type name and printed text, or an unsupported type. */
  datatype CaseValue = NoValue | Literal(typ: string, text: string) | Unsupported

  datatype Target = Target(to: string, payload: Payload)

  datatype Case = Case(value: CaseValue, when: When, to: string, payload: Payload, nested: Option<Switch>)

  datatype Switch = Switch(expr: string, cases: seq<Case>, default: Option<Target>)

  /** Conditions, with the three special texts as constructors of their own. */
  datatype Guard =
    | Empty
    | True
    | False
    | Equals(expr: string, literal: string)
    | Raw(text: string)
    | And(left: Guard, right: Guard)
    | Or(any: seq<Guard>)
    | Not(inner: Guard)

  datatype Transition = Transition(to: string, when: Guard, payload: Payload)

  datatype Problem =
    BlankSwitch | TooDeep | BadValue | DuplicateValue | BadWhen | ToAndSwitch | NoTarget | BlankDefault

  predicate IsSpace(c: char) {
    c in [' ', '\t', '\n', '\r', '\U{000B}', '\U{000C}']
  }

  /** strings.TrimSpace(s) == "" */
  predicate Blank(s: string) {
    forall i :: 0 <= i < |s| ==> IsSpace(s[i])
  }

  // ---------------------------------------------------------------- condition combinators

  function AndGuards(left: Guard, right: Guard): Guard {
    if left.Empty? then right
    else if right.Empty? then left
    else if left.False? || right.False? then False
    else if left.True? then right
    else if right.True? then left
    else And(left, right)
  }

  function Worthy(gs: seq<Guard>): seq<Guard> {
    if gs == [] then []
    else
      var front, last := Worthy(gs[..|gs| - 1]), gs[|gs| - 1];
      if last.Empty? || last.False? then front else front + [last]
  }

  function OrGuards(gs: seq<Guard>): Guard {
    if Worthy(gs) == [] then False else Or(Worthy(gs))
  }

  function NotAny(gs: seq<Guard>): Guard {
    Not(OrGuards(gs))
  }

  function WhenExpr(w: When): Option<string> {
    match w
    case Absent => Some("")
    case WhenText(t) => Some(t)
    case WhenFlag(on) => Some(if on then "true" else "false")
    case WhenOther => None
  }

  function CaseGuard(expr: string, literal: string, w: When): Option<Guard> {
    match WhenExpr(w)
    case None => None
    case Some(t) =>
      if t == "" || t == "true" then Some(Equals(expr, literal))
      else if t == "false" then Some(False)
      else Some(AndGuards(Equals(expr, literal), Raw(t)))
  }

  // ---------------------------------------------------------------- expansion

  datatype Progress = Progress(transitions: seq<Transition>, full: seq<Guard>)

  predicate Repeats(cases: seq<Case>, n: nat)
    requires n < |cases|
  {
    exists i :: 0 <= i < n && cases[i].value == cases[n].value
  }

  function Guards(ts: seq<Transition>): seq<Guard> {
    seq(|ts|, i requires 0 <= i < |ts| => ts[i].when)
  }

  /** The transitions and the match conditions of one case. */
  function ExpandCase(sw: Switch, parent: Guard, depth: nat, n: nat): Result<Progress, Problem>
    requires n < |sw.cases|
    decreases sw, 0
  {
    var c := sw.cases[n];
    if !c.value.Literal? then Err(BadValue)
    else if Repeats(sw.cases, n) then Err(DuplicateValue)
    else
      match CaseGuard(sw.expr, c.value.text, c.when)
      case None => Err(BadWhen)
      case Some(own) =>
        var guard := AndGuards(parent, own);
        if c.to != "" && c.nested.Some? then Err(ToAndSwitch)
        else if c.to == "" && c.nested.None? then Err(NoTarget)
        else if c.to != "" then Ok(Progress([Transition(c.to, guard, c.payload)], [guard]))
        else
          match Expand(c.nested.value, guard, depth + 1)
          case Err(e) => Err(e)
          case Ok(ts) =>
            Ok(Progress(ts, [if c.nested.value.default.Some? then guard else OrGuards(Guards(ts))]))
  }

  function ExpandCases(sw: Switch, parent: Guard, depth: nat, n: nat): Result<Progress, Problem>
    requires n <= |sw.cases|
    decreases sw, 1, n
  {
    if n == 0 then Ok(Progress([], []))
    else
      match ExpandCases(sw, parent, depth, n - 1)
      case Err(e) => Err(e)
      case Ok(before) =>
        match ExpandCase(sw, parent, depth, n - 1)
        case Err(e) => Err(e)
        case Ok(p) => Ok(Progress(before.transitions + p.transitions, before.full + p.full))
  }

  function Expand(sw: Switch, parent: Guard, depth: nat): Result<seq<Transition>, Problem>
    decreases sw, 2
  {
    if Blank(sw.expr) then Err(BlankSwitch)
    else if depth > 1 then Err(TooDeep)
    else
      match ExpandCases(sw, parent, depth, |sw.cases|)
      case Err(e) => Err(e)
      case Ok(p) =>
        match sw.default
        case None => Ok(p.transitions)
        case Some(d) =>
          if Blank(d.to) then Err(BlankDefault)
          else Ok(p.transitions + [Transition(d.to, AndGuards(parent, NotAny(p.full)), d.payload)])
  }

  /** expandSwitchTransitions and expandNestedSwitchTransitions. */
  method ExpandSwitch(sw: Switch, parent: Guard, depth: nat) returns (result: Result<seq<Transition>, Problem>)
    ensures result == Expand(sw, parent, depth)
    decreases sw
  {
    hide AndGuards, OrGuards, CaseGuard, NotAny, Guards;
    if Blank(sw.expr) {
      return Err(BlankSwitch);
    }
    if depth > 1 {
      return Err(TooDeep);
    }
    var seen: set<CaseValue> := {};
    var transitions: seq<Transition> := [];
    var full: seq<Guard> := [];
    for i := 0 to |sw.cases|
      invariant ExpandCases(sw, parent, depth, i) == Ok(Progress(transitions, full))
      invariant seen == set j | 0 <= j < i :: sw.cases[j].value
    {
      var c := sw.cases[i];
      CaseErrorStays(sw, parent, depth, i + 1);
      ghost var step := ExpandCase(sw, parent, depth, i);
      assert step.Err? ==> Expand(sw, parent, depth) == Err(step.error);
      assert c.value in seen <==> Repeats(sw.cases, i);
      if !c.value.Literal? {
        return Err(BadValue);
      }
      if c.value in seen {
        return Err(DuplicateValue);
      }
      seen := seen + {c.value};
      var own := CaseGuard(sw.expr, c.value.text, c.when);
      if own.None? {
        return Err(BadWhen);
      }
      var guard := AndGuards(parent, own.value);
      if c.to != "" && c.nested.Some? {
        return Err(ToAndSwitch);
      }
      if c.to == "" && c.nested.None? {
        return Err(NoTarget);
      }
      if c.to != "" {
        transitions := transitions + [Transition(c.to, guard, c.payload)];
        full := full + [guard];
      } else {
        var child := ExpandSwitch(c.nested.value, guard, depth + 1);
        if child.Err? {
          return Err(child.error);
        }
        transitions := transitions + child.value;
        full := full + [if c.nested.value.default.Some? then guard else OrGuards(Guards(child.value))];
      }
    }
    if sw.default.Some? {
      if Blank(sw.default.value.to) {
        return Err(BlankDefault);
      }
      var d := sw.default.value;
      transitions := transitions + [Transition(d.to, AndGuards(parent, NotAny(full)), d.payload)];
    }
    result := Ok(transitions);
  }

  lemma {:induction false} CaseErrorStays(sw: Switch, parent: Guard, depth: nat, n: nat)
    requires n <= |sw.cases|
    ensures ExpandCases(sw, parent, depth, n).Err? ==>
              ExpandCases(sw, parent, depth, |sw.cases|) == ExpandCases(sw, parent, depth, n)
    decreases |sw.cases| - n
  {
    if n < |sw.cases| {
      CaseErrorStays(sw, parent, depth, n + 1);
    }
  }

  // ---------------------------------------------------------------- meaning

  /** What expression and literal texts denote, and which raw conditions hold. */
  datatype Env = Env(value: string -> int, literal: string -> int, holds: string -> bool)

  predicate Eval(env: Env, g: Guard) {
    match g
    case Empty => true
    case True => true
    case False => false
    case Equals(expr, literal) => env.value(expr) == env.literal(literal)
    case Raw(text) => env.holds(text)
    case And(l, r) => Eval(env, l) && Eval(env, r)
    case Or(any) => exists i :: 0 <= i < |any| && Eval(env, any[i])
    case Not(inner) => !Eval(env, inner)
  }

  predicate EvalAny(env: Env, gs: seq<Guard>) {
    exists i :: 0 <= i < |gs| && Eval(env, gs[i])
  }

  /** The first transition whose guard is true when all are seen from the same destination. */
  function FirstTrue(env: Env, ts: seq<Transition>): Option<Target> {
    if ts == [] then None
    else if Eval(env, ts[0].when) then Some(Target(ts[0].to, ts[0].payload))
    else FirstTrue(env, ts[1..])
  }

  predicate WhenHolds(env: Env, w: When) {
    match w
    case Absent => true
    case WhenText(t) => t == "" || t == "true" || (t != "false" && env.holds(t))
    case WhenFlag(on) => on
    case WhenOther => false
  }

  predicate CaseMatches(env: Env, expr: string, c: Case) {
    c.value.Literal? && env.value(expr) == env.literal(c.value.text) && WhenHolds(env, c.when)
  }

  /** Reading a table: a matching case goes to its target, or to what its own table chooses, if anything. */
  function ChosenByCase(env: Env, expr: string, c: Case): Option<Target>
    decreases c
  {
    if !CaseMatches(env, expr, c) then None
    else if c.to != "" then Some(Target(c.to, c.payload))
    else if c.nested.None? then None
    else Chosen(env, c.nested.value)
  }

  /** The first of the first `n` cases that chooses a target. */
  function ChosenByCases(env: Env, sw: Switch, n: nat): Option<Target>
    requires n <= |sw.cases|
    decreases sw, 0, n
  {
    if n == 0 then None
    else
      var earlier := ChosenByCases(env, sw, n - 1);
      if earlier.Some? then earlier else ChosenByCase(env, sw.expr, sw.cases[n - 1])
  }

  function Chosen(env: Env, sw: Switch): Option<Target>
    decreases sw, 1
  {
    var c := ChosenByCases(env, sw, |sw.cases|);
    if c.Some? then c else sw.default
  }

  // ---------------------------------------------------------------- the compilation preserves the meaning

  lemma AndMeans(env: Env, l: Guard, r: Guard)
    ensures Eval(env, AndGuards(l, r)) <==> Eval(env, l) && Eval(env, r)
    ensures !r.Empty? ==> !AndGuards(l, r).Empty?
  {
  }

  /** Dropping conditions from an alternative is sound because none of them is the empty condition. */
  lemma {:induction false} OrMeans(env: Env, gs: seq<Guard>)
    requires Empty !in gs
    ensures Eval(env, OrGuards(gs)) <==> EvalAny(env, gs)
    ensures !OrGuards(gs).Empty?
  {
    WorthyMeans(env, gs);
  }

  lemma {:induction false} WorthyMeans(env: Env, gs: seq<Guard>)
    requires Empty !in gs
    ensures EvalAny(env, Worthy(gs)) <==> EvalAny(env, gs)
  {
    if gs != [] {
      var front, last := gs[..|gs| - 1], gs[|gs| - 1];
      assert gs == front + [last];
      WorthyMeans(env, front);
      EvalAnyConcat(env, front, [last]);
      EvalAnyConcat(env, Worthy(front), [last]);
    }
  }

  lemma EvalAnyConcat(env: Env, a: seq<Guard>, b: seq<Guard>)
    ensures EvalAny(env, a + b) <==> EvalAny(env, a) || EvalAny(env, b)
  {
    forall i | 0 <= i < |b| && Eval(env, b[i])
      ensures EvalAny(env, a + b)
    {
      assert (a + b)[|a| + i] == b[i];
    }
    forall i | 0 <= i < |a| && Eval(env, a[i])
      ensures EvalAny(env, a + b)
    {
      assert (a + b)[i] == a[i];
    }
  }

  /** In general the drop is sound exactly when none of them is empty, or one that is kept is true anyway. */
  lemma OrMeansExactly(env: Env, gs: seq<Guard>)
    ensures (Eval(env, OrGuards(gs)) <==> EvalAny(env, gs)) <==> (Empty !in gs || EvalAny(env, Worthy(gs)))
  {
    if Empty in gs {
      var i :| 0 <= i < |gs| && gs[i] == Empty;
      assert Eval(env, gs[i]);
    } else {
      WorthyMeans(env, gs);
    }
  }

  /** With an empty condition the drop is not sound. */
  lemma EmptyConditionBreaksOr(env: Env)
    ensures EvalAny(env, [Empty]) && !Eval(env, OrGuards([Empty]))
  {
    assert Eval(env, [Empty][0]);
    assert Worthy([]) == [];
  }

  lemma {:induction false} FirstTrueConcat(env: Env, a: seq<Transition>, b: seq<Transition>)
    ensures FirstTrue(env, a + b) == if FirstTrue(env, a).Some? then FirstTrue(env, a) else FirstTrue(env, b)
  {
    if a == [] {
      assert a + b == b;
    } else {
      assert (a + b)[1..] == a[1..] + b;
      FirstTrueConcat(env, a[1..], b);
    }
  }

  lemma {:induction false} FirstTrueExists(env: Env, ts: seq<Transition>)
    ensures FirstTrue(env, ts).Some? <==> EvalAny(env, Guards(ts))
  {
    if ts != [] {
      FirstTrueExists(env, ts[1..]);
      assert Guards(ts) == [ts[0].when] + Guards(ts[1..]);
      EvalAnyConcat(env, [ts[0].when], Guards(ts[1..]));
      assert Eval(env, [ts[0].when][0]) <==> EvalAny(env, [ts[0].when]);
    } else {
      assert Guards(ts) == [];
    }
  }

  predicate NoEmptyGuard(ts: seq<Transition>) {
    forall i :: 0 <= i < |ts| ==> !ts[i].when.Empty?
  }

  lemma CaseGuardMeans(env: Env, expr: string, c: Case)
    requires c.value.Literal? && CaseGuard(expr, c.value.text, c.when).Some?
    ensures var g := CaseGuard(expr, c.value.text, c.when).value;
            !g.Empty? && (Eval(env, g) <==> CaseMatches(env, expr, c))
  {
  }

  /** One case: its transitions choose what the case chooses, and its match condition says whether it does. */
  lemma {:induction false} CasePreserves(env: Env, sw: Switch, parent: Guard, depth: nat, n: nat)
    requires n < |sw.cases| && ExpandCase(sw, parent, depth, n).Ok?
    ensures var p := ExpandCase(sw, parent, depth, n).value;
            && NoEmptyGuard(p.transitions) && Empty !in p.full
            && FirstTrue(env, p.transitions) ==
               (if Eval(env, parent) then ChosenByCase(env, sw.expr, sw.cases[n]) else None)
            && (EvalAny(env, p.full) <==> FirstTrue(env, p.transitions).Some?)
    decreases sw, 0
  {
    var c := sw.cases[n];
    var own := CaseGuard(sw.expr, c.value.text, c.when).value;
    var guard := AndGuards(parent, own);
    var p := ExpandCase(sw, parent, depth, n).value;
    CaseGuardMeans(env, sw.expr, c);
    AndMeans(env, parent, own);
    if c.to != "" {
      assert p.full == [guard] && p.transitions[1..] == [];
      assert EvalAny(env, p.full) <==> Eval(env, p.full[0]);
    } else {
      var inner := c.nested.value;
      ExpandPreserves(env, inner, guard, depth + 1);
      assert p.full[0] == p.full[|p.full| - 1];
      assert EvalAny(env, p.full) <==> Eval(env, p.full[0]);
      if inner.default.None? {
        FirstTrueExists(env, p.transitions);
        OrMeans(env, Guards(p.transitions));
      }
    }
  }

  lemma {:induction false} CasesPreserve(env: Env, sw: Switch, parent: Guard, depth: nat, n: nat)
    requires n <= |sw.cases| && ExpandCases(sw, parent, depth, n).Ok?
    ensures var p := ExpandCases(sw, parent, depth, n).value;
            && NoEmptyGuard(p.transitions) && Empty !in p.full
            && FirstTrue(env, p.transitions) == (if Eval(env, parent) then ChosenByCases(env, sw, n) else None)
            && (EvalAny(env, p.full) <==> FirstTrue(env, p.transitions).Some?)
    decreases sw, 1, n
  {
    hide ExpandCase, Eval;
    if n > 0 {
      CasesPreserve(env, sw, parent, depth, n - 1);
      CasePreserves(env, sw, parent, depth, n - 1);
      var before := ExpandCases(sw, parent, depth, n - 1).value;
      var p := ExpandCase(sw, parent, depth, n - 1).value;
      FirstTrueConcat(env, before.transitions, p.transitions);
      EvalAnyConcat(env, before.full, p.full);
    }
  }

  /** Under its parent condition an expanded table chooses what reading it chooses; otherwise nothing. */
  lemma {:induction false} ExpandPreserves(env: Env, sw: Switch, parent: Guard, depth: nat)
    requires Expand(sw, parent, depth).Ok?
    ensures NoEmptyGuard(Expand(sw, parent, depth).value)
    ensures FirstTrue(env, Expand(sw, parent, depth).value) == if Eval(env, parent) then Chosen(env, sw) else None
    decreases sw, 2
  {
    CasesPreserve(env, sw, parent, depth, |sw.cases|);
    if sw.default.Some? {
      var p := ExpandCases(sw, parent, depth, |sw.cases|).value;
      var g := AndGuards(parent, NotAny(p.full));
      var last := Transition(sw.default.value.to, g, sw.default.value.payload);
      OrMeans(env, p.full);
      AndMeans(env, parent, NotAny(p.full));
      FirstTrueConcat(env, p.transitions, [last]);
      assert FirstTrue(env, [last]) == if Eval(env, g) then sw.default else None by {
        assert [last][1..] == [];
      }
    }
  }

  /** In any one environment the compiled table chooses what the table chooses. */
  lemma CompiledChoosesAlike(env: Env, sw: Switch)
    requires Expand(sw, Empty, 0).Ok?
    ensures FirstTrue(env, Expand(sw, Empty, 0).value) == Chosen(env, sw)
  {
    ExpandPreserves(env, sw, Empty, 0);
  }

  // ---------------------------------------------------------------- the guards exclude each other

  /** Different cases of a table, and of its nested tables, have literals that denote different values. */
  ghost predicate Separates(env: Env, sw: Switch) {
    && (forall i, j :: 0 <= i < j < |sw.cases| && sw.cases[i].value.Literal? && sw.cases[j].value.Literal? ==>
          env.literal(sw.cases[i].value.text) != env.literal(sw.cases[j].value.text))
    && (forall i :: 0 <= i < |sw.cases| && sw.cases[i].nested.Some? ==> Separates(env, sw.cases[i].nested.value))
  }

  ghost predicate AtMostOneTrue(env: Env, ts: seq<Transition>) {
    forall i, j :: 0 <= i < j < |ts| ==> !(Eval(env, ts[i].when) && Eval(env, ts[j].when))
  }

  lemma ExclusiveConcat(env: Env, a: seq<Transition>, b: seq<Transition>)
    requires AtMostOneTrue(env, a) && AtMostOneTrue(env, b)
    requires FirstTrue(env, a).None? || FirstTrue(env, b).None?
    ensures AtMostOneTrue(env, a + b)
  {
    FirstTrueExists(env, a);
    FirstTrueExists(env, b);
    forall i, j | 0 <= i < |a| && 0 <= j < |b|
      ensures !(Eval(env, a[i].when) && Eval(env, b[j].when))
    {
      assert Guards(a)[i] == a[i].when && Guards(b)[j] == b[j].when;
    }
    assert forall i :: 0 <= i < |a| ==> (a + b)[i] == a[i];
    assert forall i :: |a| <= i < |a| + |b| ==> (a + b)[i] == b[i - |a|];
  }

  /** No case before the `n`th matches when the `n`th does. */
  lemma {:induction false} OnlyOneCaseMatches(env: Env, sw: Switch, n: nat, m: nat)
    requires m <= n < |sw.cases| && Separates(env, sw) && CaseMatches(env, sw.expr, sw.cases[n])
    ensures ChosenByCases(env, sw, m).None?
  {
    if m > 0 {
      OnlyOneCaseMatches(env, sw, n, m - 1);
    }
  }

  lemma {:induction false} CaseExclusive(env: Env, sw: Switch, parent: Guard, depth: nat, n: nat)
    requires n < |sw.cases| && ExpandCase(sw, parent, depth, n).Ok? && Separates(env, sw)
    ensures AtMostOneTrue(env, ExpandCase(sw, parent, depth, n).value.transitions)
    decreases sw, 0
  {
    hide Eval, CaseGuard, Repeats, OrGuards, AndGuards;
    var c := sw.cases[n];
    if c.to == "" {
      ExpandExclusive(env, c.nested.value, AndGuards(parent, CaseGuard(sw.expr, c.value.text, c.when).value), depth + 1);
    }
  }

  lemma {:induction false} CasesExclusive(env: Env, sw: Switch, parent: Guard, depth: nat, n: nat)
    requires n <= |sw.cases| && ExpandCases(sw, parent, depth, n).Ok? && Separates(env, sw)
    ensures AtMostOneTrue(env, ExpandCases(sw, parent, depth, n).value.transitions)
    decreases sw, 1, n
  {
    hide Eval, ExpandCase, Separates, FirstTrue;
    if n > 0 {
      var before := ExpandCases(sw, parent, depth, n - 1).value;
      var p := ExpandCase(sw, parent, depth, n - 1).value;
      CasesExclusive(env, sw, parent, depth, n - 1);
      CaseExclusive(env, sw, parent, depth, n - 1);
      CasesPreserve(env, sw, parent, depth, n - 1);
      CasePreserves(env, sw, parent, depth, n - 1);
      if FirstTrue(env, p.transitions).Some? {
        OnlyOneCaseMatches(env, sw, n - 1, n - 1);
      }
      hide AtMostOneTrue;
      ExclusiveConcat(env, before.transitions, p.transitions);
    }
  }

  lemma {:induction false} ExpandExclusive(env: Env, sw: Switch, parent: Guard, depth: nat)
    requires Expand(sw, parent, depth).Ok? && Separates(env, sw)
    ensures AtMostOneTrue(env, Expand(sw, parent, depth).value)
    decreases sw, 2
  {
    CasesExclusive(env, sw, parent, depth, |sw.cases|);
    CasesPreserve(env, sw, parent, depth, |sw.cases|);
    if sw.default.Some? {
      var p := ExpandCases(sw, parent, depth, |sw.cases|).value;
      var g := AndGuards(parent, NotAny(p.full));
      var last := Transition(sw.default.value.to, g, sw.default.value.payload);
      OrMeans(env, p.full);
      AndMeans(env, parent, NotAny(p.full));
      assert [last][1..] == [];
      ExclusiveConcat(env, p.transitions, [last]);
    }
  }

  // ---------------------------------------------------------------- every guard sees its own destination

  /**
   The state machine evaluates each guard with the `transition` variable set to that guard's own
   destination, so the environment depends on where the transition leads. It takes the first that is true.
   */
  function FirstTrueAt(envs: string -> Env, ts: seq<Transition>): Option<Target> {
    if ts == [] then None
    else if Eval(envs(ts[0].to), ts[0].when) then Some(Target(ts[0].to, ts[0].payload))
    else FirstTrueAt(envs, ts[1..])
  }

  predicate TrueAt(envs: string -> Env, t: Transition) {
    Eval(envs(t.to), t.when)
  }

  lemma {:induction false} TakenAt(envs: string -> Env, ts: seq<Transition>)
    ensures FirstTrueAt(envs, ts).Some? <==> exists i :: 0 <= i < |ts| && TrueAt(envs, ts[i])
    ensures FirstTrueAt(envs, ts).Some? ==>
              exists i :: 0 <= i < |ts| && TrueAt(envs, ts[i]) && FirstTrueAt(envs, ts) == Some(Target(ts[i].to, ts[i].payload))
  {
    if ts != [] {
      TakenAt(envs, ts[1..]);
      assert forall i :: 0 <= i < |ts[1..]| ==> ts[1..][i] == ts[i + 1];
      forall i | 0 <= i < |ts| && TrueAt(envs, ts[i])
        ensures i == 0 || TrueAt(envs, ts[1..][i - 1])
      {
      }
    }
  }

  lemma {:induction false} ChosenIsTrue(env: Env, ts: seq<Transition>, target: Target)
    requires FirstTrue(env, ts) == Some(target)
    ensures exists i :: 0 <= i < |ts| && Eval(env, ts[i].when) && ts[i].to == target.to
  {
    if Eval(env, ts[0].when) {
    } else {
      ChosenIsTrue(env, ts[1..], target);
      var i :| 0 <= i < |ts[1..]| && Eval(env, ts[1..][i].when) && ts[1..][i].to == target.to;
      assert ts[i + 1] == ts[1..][i];
    }
  }

  lemma {:induction false} OnlyTrueIsChosen(env: Env, ts: seq<Transition>, i: nat)
    requires AtMostOneTrue(env, ts) && i < |ts| && Eval(env, ts[i].when)
    ensures FirstTrue(env, ts) == Some(Target(ts[i].to, ts[i].payload))
  {
    if i > 0 {
      assert ts[1..][i - 1] == ts[i];
      assert forall k :: 0 <= k < |ts[1..]| ==> ts[1..][k] == ts[k + 1];
      OnlyTrueIsChosen(env, ts[1..], i - 1);
    }
  }

  /**
   What the state machine does with a compiled table when the literals of each table denote different
   values, whatever the guards say about their destination. A target that is taken is what the table
   chooses, seen from that target; and none is taken exactly when no destination is chosen as seen from
   itself.
   */
  lemma TakenExactly(envs: string -> Env, sw: Switch)
    requires Expand(sw, Empty, 0).Ok? && forall to :: Separates(envs(to), sw)
    ensures var taken := FirstTrueAt(envs, Expand(sw, Empty, 0).value);
            && (taken.Some? ==> Chosen(envs(taken.value.to), sw) == taken)
            && (taken.Some? <==> exists to :: Chosen(envs(to), sw).Some? && Chosen(envs(to), sw).value.to == to)
  {
    hide Expand, Eval, Chosen, Separates, AtMostOneTrue, FirstTrue, FirstTrueAt;
    var ts := Expand(sw, Empty, 0).value;
    TakenAt(envs, ts);
    forall to
      ensures AtMostOneTrue(envs(to), ts) && FirstTrue(envs(to), ts) == Chosen(envs(to), sw)
    {
      assert Separates(envs(to), sw);
      ExpandExclusive(envs(to), sw, Empty, 0);
      CompiledChoosesAlike(envs(to), sw);
    }
    forall i | 0 <= i < |ts| && TrueAt(envs, ts[i])
      ensures Chosen(envs(ts[i].to), sw) == Some(Target(ts[i].to, ts[i].payload))
    {
      OnlyTrueIsChosen(envs(ts[i].to), ts, i);
    }
    forall to | Chosen(envs(to), sw).Some? && Chosen(envs(to), sw).value.to == to
      ensures exists i :: 0 <= i < |ts| && TrueAt(envs, ts[i])
    {
      ChosenIsTrue(envs(to), ts, Chosen(envs(to), sw).value);
      var i :| 0 <= i < |ts| && Eval(envs(to), ts[i].when) && ts[i].to == to;
      assert TrueAt(envs, ts[i]);
    }
  }

  /** A destination some transition of the table can lead to. */
  ghost predicate Leads(sw: Switch, to: string) {
    || (sw.default.Some? && sw.default.value.to == to)
    || (exists i :: 0 <= i < |sw.cases| && CaseLeads(sw.cases[i], to))
  }

  ghost predicate CaseLeads(c: Case, to: string) {
    c.to == to || (c.nested.Some? && Leads(c.nested.value, to))
  }

  /** The texts of a table denote the same in both environments. */
  ghost predicate Alike(a: Env, b: Env, sw: Switch) {
    && a.value(sw.expr) == b.value(sw.expr)
    && (forall i :: 0 <= i < |sw.cases| ==> CaseAlike(a, b, sw.cases[i]))
  }

  ghost predicate CaseAlike(a: Env, b: Env, c: Case) {
    && (c.value.Literal? ==> a.literal(c.value.text) == b.literal(c.value.text))
    && (c.when.WhenText? ==> a.holds(c.when.text) == b.holds(c.when.text))
    && (c.nested.Some? ==> Alike(a, b, c.nested.value))
  }

  ghost predicate SameGuards(a: Env, b: Env, gs: seq<Guard>) {
    forall i :: 0 <= i < |gs| ==> (Eval(a, gs[i]) <==> Eval(b, gs[i]))
  }

  lemma SameAlternatives(a: Env, b: Env, gs: seq<Guard>)
    requires SameGuards(a, b, gs) && Empty !in gs
    ensures Eval(a, OrGuards(gs)) <==> Eval(b, OrGuards(gs))
  {
    OrMeans(a, gs);
    OrMeans(b, gs);
    hide OrGuards, Eval;
  }

  lemma {:induction false} CaseSeenAlike(a: Env, b: Env, sw: Switch, parent: Guard, depth: nat, n: nat)
    requires n < |sw.cases| && ExpandCase(sw, parent, depth, n).Ok?
    requires Alike(a, b, sw) && (Eval(a, parent) <==> Eval(b, parent))
    ensures var p := ExpandCase(sw, parent, depth, n).value;
            && SameGuards(a, b, Guards(p.transitions)) && SameGuards(a, b, p.full)
            && forall i :: 0 <= i < |p.transitions| ==> CaseLeads(sw.cases[n], p.transitions[i].to)
    decreases sw, 0
  {
    hide OrGuards;
    var c := sw.cases[n];
    var own := CaseGuard(sw.expr, c.value.text, c.when).value;
    var guard := AndGuards(parent, own);
    assert CaseAlike(a, b, c);
    CaseGuardMeans(a, sw.expr, c);
    CaseGuardMeans(b, sw.expr, c);
    AndMeans(a, parent, own);
    AndMeans(b, parent, own);
    hide AndGuards, CaseGuard, Eval;
    if c.to == "" {
      ExpandSeenAlike(a, b, c.nested.value, guard, depth + 1);
      ExpandPreserves(a, c.nested.value, guard, depth + 1);
      var ts := Expand(c.nested.value, guard, depth + 1).value;
      assert Empty !in Guards(ts);
      SameAlternatives(a, b, Guards(ts));
    }
  }

  lemma {:induction false} CasesSeenAlike(a: Env, b: Env, sw: Switch, parent: Guard, depth: nat, n: nat)
    requires n <= |sw.cases| && ExpandCases(sw, parent, depth, n).Ok?
    requires Alike(a, b, sw) && (Eval(a, parent) <==> Eval(b, parent))
    ensures var p := ExpandCases(sw, parent, depth, n).value;
            && SameGuards(a, b, Guards(p.transitions)) && SameGuards(a, b, p.full)
            && forall i :: 0 <= i < |p.transitions| ==> Leads(sw, p.transitions[i].to)
    decreases sw, 1, n
  {
    hide ExpandCase, Eval, Alike, CaseLeads;
    if n > 0 {
      CasesSeenAlike(a, b, sw, parent, depth, n - 1);
      CaseSeenAlike(a, b, sw, parent, depth, n - 1);
      var before := ExpandCases(sw, parent, depth, n - 1).value;
      var p := ExpandCase(sw, parent, depth, n - 1).value;
      assert Guards(before.transitions + p.transitions) == Guards(before.transitions) + Guards(p.transitions);
    }
  }

  /** A guard of a compiled table depends on the environment only through the texts of the table. */
  lemma {:induction false} ExpandSeenAlike(a: Env, b: Env, sw: Switch, parent: Guard, depth: nat)
    requires Expand(sw, parent, depth).Ok?
    requires Alike(a, b, sw) && (Eval(a, parent) <==> Eval(b, parent))
    ensures var ts := Expand(sw, parent, depth).value;
            && SameGuards(a, b, Guards(ts))
            && forall i :: 0 <= i < |ts| ==> Leads(sw, ts[i].to)
    decreases sw, 2
  {
    CasesSeenAlike(a, b, sw, parent, depth, |sw.cases|);
    if sw.default.Some? {
      var p := ExpandCases(sw, parent, depth, |sw.cases|).value;
      CasesPreserve(a, sw, parent, depth, |sw.cases|);
      SameAlternatives(a, b, p.full);
      AndMeans(a, parent, NotAny(p.full));
      AndMeans(b, parent, NotAny(p.full));
      var last := Transition(sw.default.value.to, AndGuards(parent, NotAny(p.full)), sw.default.value.payload);
      assert Guards(p.transitions + [last]) == Guards(p.transitions) + [last.when];
    }
  }

  /** No text of the table says anything else for one of its destinations: none reads the destination, for instance. */
  ghost predicate IgnoresDestination(envs: string -> Env, env: Env, sw: Switch) {
    forall to :: Leads(sw, to) ==> Alike(env, envs(to), sw)
  }

  lemma SeenAlike(envs: string -> Env, env: Env, sw: Switch)
    requires Expand(sw, Empty, 0).Ok? && IgnoresDestination(envs, env, sw)
    ensures forall t :: t in Expand(sw, Empty, 0).value ==> (TrueAt(envs, t) <==> Eval(env, t.when))
  {
    hide Expand, Eval, Alike, Leads;
    var ts := Expand(sw, Empty, 0).value;
    forall t | t in ts
      ensures TrueAt(envs, t) <==> Eval(env, t.when)
    {
      var i :| 0 <= i < |ts| && ts[i] == t;
      SelfAlike(env, sw);
      ExpandSeenAlike(env, env, sw, Empty, 0);
      assert Leads(sw, t.to);
      EmptyHolds(env);
      EmptyHolds(envs(t.to));
      ExpandSeenAlike(env, envs(t.to), sw, Empty, 0);
      assert Guards(ts)[i] == t.when;
    }
  }

  lemma EmptyHolds(env: Env)
    ensures Eval(env, Empty)
  {
  }

  lemma {:induction false} SelfAlike(env: Env, sw: Switch)
    ensures Alike(env, env, sw)
    decreases sw
  {
    forall i | 0 <= i < |sw.cases| && sw.cases[i].nested.Some?
      ensures Alike(env, env, sw.cases[i].nested.value)
    {
      SelfAlike(env, sw.cases[i].nested.value);
    }
  }

  lemma {:induction false} SameFirst(envs: string -> Env, env: Env, ts: seq<Transition>)
    requires forall t :: t in ts ==> (TrueAt(envs, t) <==> Eval(env, t.when))
    ensures FirstTrueAt(envs, ts) == FirstTrue(env, ts)
  {
    hide Eval;
    if ts != [] {
      assert ts[0] in ts && (TrueAt(envs, ts[0]) <==> Eval(env, ts[0].when));
      SameFirst(envs, env, ts[1..]);
    }
  }

  /** Compiling a table preserves its meaning for every table whose texts ignore the destination. */
  lemma CompilationPreservesMeaning(envs: string -> Env, env: Env, sw: Switch)
    requires Expand(sw, Empty, 0).Ok? && IgnoresDestination(envs, env, sw)
    ensures FirstTrueAt(envs, Expand(sw, Empty, 0).value) == Chosen(env, sw)
  {
    hide Expand, IgnoresDestination, Chosen;
    SeenAlike(envs, env, sw);
    SameFirst(envs, env, Expand(sw, Empty, 0).value);
    CompiledChoosesAlike(env, sw);
  }

  ghost predicate AtMostOneTrueAt(envs: string -> Env, ts: seq<Transition>) {
    forall i, j :: 0 <= i < j < |ts| ==> !(TrueAt(envs, ts[i]) && TrueAt(envs, ts[j]))
  }

  /**
   When the literals of each table denote different values and its texts ignore the destination, at most
   one guard of the compiled table is true; with an outer default exactly one is.
   */
  lemma GuardsExcludeEachOther(envs: string -> Env, env: Env, sw: Switch)
    requires Expand(sw, Empty, 0).Ok? && Separates(env, sw) && IgnoresDestination(envs, env, sw)
    ensures AtMostOneTrueAt(envs, Expand(sw, Empty, 0).value)
    ensures sw.default.Some? ==> FirstTrueAt(envs, Expand(sw, Empty, 0).value).Some?
  {
    hide Expand, IgnoresDestination, Eval, Separates, TrueAt;
    var ts := Expand(sw, Empty, 0).value;
    SeenAlike(envs, env, sw);
    ExpandExclusive(env, sw, Empty, 0);
    CompilationPreservesMeaning(envs, env, sw);
    forall i, j | 0 <= i < j < |ts|
      ensures !(TrueAt(envs, ts[i]) && TrueAt(envs, ts[j]))
    {
      assert ts[i] in ts && ts[j] in ts;
    }
  }

  /** `x` denotes what the expression denotes, and `transition.to == "b"` holds for a transition to b. */
  function Destinations(to: string): Env {
    Env(_ => 0, _ => 0, text => text == "transition.to == \"" + to + "\"")
  }

  function ReadsDestination(asked: string): Switch {
    Switch("inputs.kind", [Case(Literal("string", "\"x\""), WhenText("transition.to == \"" + asked + "\""), "a", map[], None)],
           Some(Target("b", map[])))
  }

  /**
   Tables that read the destination lose that meaning. With `b` asked for on the way to `a`, neither guard is
   true and nothing is taken although there is a default; with `a` asked for, both guards are true.
   */
  lemma DestinationExample()
    ensures forall to, asked :: Separates(Destinations(to), ReadsDestination(asked))
    ensures Expand(ReadsDestination("b"), Empty, 0).Ok? && Expand(ReadsDestination("a"), Empty, 0).Ok?
    ensures FirstTrueAt(Destinations, Expand(ReadsDestination("b"), Empty, 0).value) == None
    ensures !AtMostOneTrueAt(Destinations, Expand(ReadsDestination("a"), Empty, 0).value)
  {
    ExampleTransitions("b");
    ExampleTransitions("a");
    hide Expand;
    var ts := Expand(ReadsDestination("b"), Empty, 0).value;
    assert ts[1..][1..] == [];
  }

  lemma ExampleTransitions(asked: string)
    ensures Expand(ReadsDestination(asked), Empty, 0).Ok?
    ensures var ts := Expand(ReadsDestination(asked), Empty, 0).value;
            && |ts| == 2 && ts[0].to == "a" && ts[1].to == "b"
            && (TrueAt(Destinations, ts[0]) <==> asked == "a")
            && (TrueAt(Destinations, ts[1]) <==> asked != "b")
  {
    var g := ExampleGuard(asked);
    ExampleExpands(asked);
    GuardAsks(asked, "a");
    GuardAsks(asked, "b");
    OrMeans(Destinations("b"), [g]);
    assert EvalAny(Destinations("b"), [g]) <==> Eval(Destinations("b"), [g][0]);
    hide OrGuards, Expand, ExampleGuard;
  }

  lemma GuardAsks(asked: string, to: string)
    ensures Eval(Destinations(to), ExampleGuard(asked)) <==> asked == to
  {
    AskedFor(asked, to);
  }

  lemma ExampleExpands(asked: string)
    ensures var g := ExampleGuard(asked);
            Expand(ReadsDestination(asked), Empty, 0) == Ok([Transition("a", g, map[]), Transition("b", NotAny([g]), map[])])
  {
    hide OrGuards, ExpandCase;
    var sw, g := ReadsDestination(asked), ExampleGuard(asked);
    assert !Blank(sw.expr) && !Blank("b") by {
      assert sw.expr[0] == 'i' && "b"[0] == 'b';
    }
    ExampleCase(asked);
    assert ExpandCases(sw, Empty, 0, 0) == Ok(Progress([], []));
    assert ExpandCases(sw, Empty, 0, 1).value.transitions == [Transition("a", g, map[])];
    assert ExpandCases(sw, Empty, 0, 1).value.full == [g];
    assert Expand(sw, Empty, 0).value == [Transition("a", g, map[]), Transition("b", NotAny([g]), map[])];
  }

  function ExampleGuard(asked: string): Guard {
    And(Equals("inputs.kind", "\"x\""), Raw("transition.to == \"" + asked + "\""))
  }

  lemma ExampleCase(asked: string)
    ensures var g := ExampleGuard(asked);
            ExpandCase(ReadsDestination(asked), Empty, 0, 0) == Ok(Progress([Transition("a", g, map[])], [g]))
  {
    var sw, g, text := ReadsDestination(asked), ExampleGuard(asked), "transition.to == \"" + asked + "\"";
    assert CaseGuard(sw.expr, "\"x\"", WhenText(text)) == Some(g) by {
      assert |text| > 5 && |"true"| == 4 && |"false"| == 5;
    }
    assert AndGuards(Empty, g) == g && !Repeats(sw.cases, 0);
    assert sw.cases[0].value == Literal("string", "\"x\"") && sw.cases[0].to == "a";
  }

  lemma AskedFor(asked: string, to: string)
    ensures Destinations(to).holds("transition.to == \"" + asked + "\"") <==> asked == to
  {
    var front, back := "transition.to == \"", "\"";
    assert (front + asked + back)[|front|..|front| + |asked|] == asked;
    assert (front + to + back)[|front|..|front| + |to|] == to;
    if front + asked + back == front + to + back {
      assert |asked| == |to|;
    }
  }

  // ---------------------------------------------------------------- which tables compile

  predicate HasText(s: string) {
    exists i :: 0 <= i < |s| && s[i] !in [' ', '\t', '\n', '\r', '\U{000B}', '\U{000C}']
  }

  /** The rules a table must follow, stated without the expansion. */
  ghost predicate WellFormed(sw: Switch, depth: nat)
    decreases sw, 1
  {
    && HasText(sw.expr)
    && depth <= 1
    && (forall i :: 0 <= i < |sw.cases| ==> WellFormedCase(sw.cases[i], depth))
    && (forall i, j :: 0 <= i < j < |sw.cases| ==> sw.cases[i].value != sw.cases[j].value)
    && (sw.default.Some? ==> HasText(sw.default.value.to))
  }

  ghost predicate WellFormedCase(c: Case, depth: nat)
    decreases c, 0
  {
    && c.value.Literal?
    && !c.when.WhenOther?
    && (c.to != "" <==> c.nested.None?)
    && (c.nested.Some? ==> WellFormed(c.nested.value, depth + 1))
  }

  lemma {:induction false} CaseCompiles(sw: Switch, parent: Guard, depth: nat, n: nat)
    requires n < |sw.cases|
    ensures ExpandCase(sw, parent, depth, n).Ok? <==> WellFormedCase(sw.cases[n], depth) && !Repeats(sw.cases, n)
    decreases sw, 0
  {
    hide AndGuards;
    var c := sw.cases[n];
    if c.value.Literal? && c.nested.Some? && CaseGuard(sw.expr, c.value.text, c.when).Some? {
      var guard := AndGuards(parent, CaseGuard(sw.expr, c.value.text, c.when).value);
      CompilesExactlyUnder(c.nested.value, guard, depth + 1);
    }
  }

  lemma {:induction false} CasesCompile(sw: Switch, parent: Guard, depth: nat, n: nat)
    requires n <= |sw.cases|
    ensures ExpandCases(sw, parent, depth, n).Ok? <==>
              forall i :: 0 <= i < n ==> WellFormedCase(sw.cases[i], depth) && !Repeats(sw.cases, i)
    decreases sw, 1, n
  {
    hide ExpandCase, WellFormedCase, Repeats;
    if n > 0 {
      CasesCompile(sw, parent, depth, n - 1);
      CaseCompiles(sw, parent, depth, n - 1);
    }
  }

  lemma {:induction false} CompilesExactlyUnder(sw: Switch, parent: Guard, depth: nat)
    ensures Expand(sw, parent, depth).Ok? <==> WellFormed(sw, depth)
    decreases sw, 2
  {
    CasesCompile(sw, parent, depth, |sw.cases|);
  }

  /** A table compiles exactly when it is well formed. */
  lemma CompilesExactly(sw: Switch)
    ensures Expand(sw, Empty, 0).Ok? <==> WellFormed(sw, 0)
  {
    CompilesExactlyUnder(sw, Empty, 0);
  }

  /** How one case is refused, by the first rule it breaks; what is wrong in its own table comes last. */
  lemma CaseRefused(sw: Switch, parent: Guard, depth: nat, n: nat)
    requires n < |sw.cases|
    ensures var c, r := sw.cases[n], ExpandCase(sw, parent, depth, n);
            if !c.value.Literal? then r == Err(BadValue)
            else if exists i :: 0 <= i < n && sw.cases[i].value == c.value then r == Err(DuplicateValue)
            else if c.when.WhenOther? then r == Err(BadWhen)
            else if c.to != "" && c.nested.Some? then r == Err(ToAndSwitch)
            else if c.to == "" && c.nested.None? then r == Err(NoTarget)
            else
              var guard := AndGuards(parent, CaseGuard(sw.expr, c.value.text, c.when).value);
              if c.nested.None? then r.Ok?
              else (r.Err? <==> Expand(c.nested.value, guard, depth + 1).Err?)
                   && (r.Err? ==> Expand(c.nested.value, guard, depth + 1) == Err(r.error))
  {
    hide AndGuards, OrGuards;
  }

  /** How a table is refused: itself, by its first bad case, or by its default. */
  lemma {:induction false} TableRefused(sw: Switch, parent: Guard, depth: nat)
    ensures Expand(sw, parent, depth) == Err(BlankSwitch) <== !HasText(sw.expr)
    ensures HasText(sw.expr) && depth > 1 ==> Expand(sw, parent, depth) == Err(TooDeep)
    ensures HasText(sw.expr) && depth <= 1 ==>
              forall n: nat :: FirstBadCase(sw, parent, depth, n) ==> Expand(sw, parent, depth) == Err(ExpandCase(sw, parent, depth, n).error)
    ensures HasText(sw.expr) && depth <= 1 && sw.default.Some? && !HasText(sw.default.value.to)
            && (forall n :: 0 <= n < |sw.cases| ==> ExpandCase(sw, parent, depth, n).Ok?) ==>
              Expand(sw, parent, depth) == Err(BlankDefault)
  {
    hide ExpandCase;
    forall n: nat | FirstBadCase(sw, parent, depth, n)
      ensures ExpandCases(sw, parent, depth, |sw.cases|) == Err(ExpandCase(sw, parent, depth, n).error)
    {
      GoodCases(sw, parent, depth, n);
      CaseErrorStays(sw, parent, depth, n + 1);
    }
    if forall n :: 0 <= n < |sw.cases| ==> ExpandCase(sw, parent, depth, n).Ok? {
      GoodCases(sw, parent, depth, |sw.cases|);
    }
  }

  predicate FirstBadCase(sw: Switch, parent: Guard, depth: nat, n: nat) {
    n < |sw.cases| && ExpandCase(sw, parent, depth, n).Err? && forall m :: 0 <= m < n ==> ExpandCase(sw, parent, depth, m).Ok?
  }

  lemma {:induction false} GoodCases(sw: Switch, parent: Guard, depth: nat, n: nat)
    requires n <= |sw.cases| && forall m :: 0 <= m < n ==> ExpandCase(sw, parent, depth, m).Ok?
    ensures ExpandCases(sw, parent, depth, n).Ok?
  {
    hide ExpandCase;
    if n > 0 {
      GoodCases(sw, parent, depth, n - 1);
    }
  }

  // ---------------------------------------------------------------- the condition texts

  /** The text of a condition, as the compiler writes it. */
  function Render(g: Guard): string {
    match g
    case Empty => ""
    case True => "true"
    case False => "false"
    case Equals(expr, literal) => "((" + expr + ") == " + literal + ")"
    case Raw(text) => "(" + text + ")"
    case And(l, r) => "(" + Render(l) + ") && (" + Render(r) + ")"
    case Or(any) => RenderAny(any)
    case Not(inner) => "!(" + Render(inner) + ")"
  }

  function RenderAny(gs: seq<Guard>): string {
    if gs == [] then ""
    else if |gs| == 1 then "(" + Render(gs[0]) + ")"
    else "(" + Render(gs[0]) + ") || " + RenderAny(gs[1..])
  }

  /** andConditions on the texts; condition texts carry no surrounding space. */
  function AndText(left: string, right: string): string {
    if left == "" then right
    else if right == "" then left
    else if left == "false" || right == "false" then "false"
    else if left == "true" then right
    else if right == "true" then left
    else "(" + left + ") && (" + right + ")"
  }

  function WorthyTexts(texts: seq<string>): seq<string> {
    if texts == [] then []
    else
      var front, last := WorthyTexts(texts[..|texts| - 1]), texts[|texts| - 1];
      if last == "" || last == "false" then front else front + ["(" + last + ")"]
  }

  /** strings.Join(texts, " || ") */
  function JoinOr(texts: seq<string>): string {
    if texts == [] then ""
    else if |texts| == 1 then texts[0]
    else texts[0] + " || " + JoinOr(texts[1..])
  }

  function OrText(texts: seq<string>): string {
    if WorthyTexts(texts) == [] then "false" else JoinOr(WorthyTexts(texts))
  }

  function Texts(gs: seq<Guard>): seq<string> {
    seq(|gs|, i requires 0 <= i < |gs| => Render(gs[i]))
  }

  /** Alternatives are never empty in conditions built here. */
  predicate Proper(g: Guard) {
    g.Or? ==> g.any != []
  }

  lemma RenderAnyStarts(gs: seq<Guard>)
    requires gs != []
    ensures RenderAny(gs) != "" && RenderAny(gs)[0] == '('
  {
    hide Render;
    StartsWithParenthesis(Render(gs[0]), if |gs| > 1 then RenderAny(gs[1..]) else "");
  }

  lemma StartsWithParenthesis(first: string, rest: string)
    ensures var one, more := "(" + first + ")", "(" + first + ") || " + rest;
            one[0] == '(' && more[0] == '('
  {
    hide *;
  }

  /** A special text is rendered only by its own constructor. */
  lemma RenderSpecial(g: Guard)
    requires Proper(g)
    ensures (Render(g) == "" <==> g.Empty?) && (Render(g) == "true" <==> g.True?) && (Render(g) == "false" <==> g.False?)
  {
    var s := Render(g);
    match g
    case Empty =>
    case True =>
    case False =>
    case Equals(_, _) => assert s[0] == '(';
    case Raw(_) => assert s[0] == '(';
    case And(_, _) => assert s[0] == '(';
    case Or(any) => assert s == RenderAny(any) && s[0] == '(' by {
      RenderAnyStarts(any);
    }
    case Not(_) => assert s[0] == '!';
  }

  /** Combining texts is rendering the combined conditions, so the special-text tests agree. */
  lemma AndRenders(l: Guard, r: Guard)
    requires Proper(l) && Proper(r)
    ensures Proper(AndGuards(l, r)) && AndText(Render(l), Render(r)) == Render(AndGuards(l, r))
  {
    RenderSpecial(l);
    RenderSpecial(r);
  }

  lemma OrRenders(gs: seq<Guard>)
    requires forall i :: 0 <= i < |gs| ==> Proper(gs[i])
    ensures Proper(OrGuards(gs)) && OrText(Texts(gs)) == Render(OrGuards(gs))
  {
    WorthyRenders(gs);
    if Worthy(gs) != [] {
      JoinRenders(Worthy(gs));
    }
  }

  function Parenthesised(gs: seq<Guard>): seq<string> {
    seq(|gs|, i requires 0 <= i < |gs| => "(" + Render(gs[i]) + ")")
  }

  lemma {:induction false} WorthyRenders(gs: seq<Guard>)
    requires forall i :: 0 <= i < |gs| ==> Proper(gs[i])
    ensures WorthyTexts(Texts(gs)) == Parenthesised(Worthy(gs))
  {
    if gs != [] {
      var front, last := gs[..|gs| - 1], gs[|gs| - 1];
      WorthyRenders(front);
      RenderSpecial(last);
      assert Texts(gs)[..|gs| - 1] == Texts(front);
    }
  }

  lemma {:induction false} JoinRenders(gs: seq<Guard>)
    requires gs != []
    ensures JoinOr(Parenthesised(gs)) == RenderAny(gs)
  {
    if |gs| > 1 {
      JoinRenders(gs[1..]);
      assert Parenthesised(gs)[1..] == Parenthesised(gs[1..]);
    }
  }
}
