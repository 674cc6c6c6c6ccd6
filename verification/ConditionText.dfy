/**
 What the texts of compiled conditions mean (pkg/recipe/state.go). A reader that knows only texts, with
 parentheses, quoted literals, the operators ||, &&, ! and ==, and the three special texts, finds in the
 text of every compiled condition what the condition says.
 */
module ConditionText {
  import opened Text
  import opened SwitchTable

  // ---------------------------------------------------------------- parentheses and quotes

  /** Where a scan of a text is: in code at some depth of parentheses, in a quoted literal, or past a stray parenthesis. */
  datatype Mode = Code(depth: nat) | Quoted(depth: nat, quote: char, escaped: bool) | Broken

  function Step(m: Mode, c: char): Mode {
    match m
    case Code(d) =>
      if c == '(' then Code(d + 1)
      else if c == ')' then (if d == 0 then Broken else Code(d - 1))
      else if c == '"' || c == '\'' then Quoted(d, c, false)
      else m
    case Quoted(d, q, escaped) =>
      if escaped then Quoted(d, q, false)
      else if c == '\\' then Quoted(d, q, true)
      else if c == q then Code(d)
      else m
    case Broken => Broken
  }

  function Scan(m: Mode, s: string): Mode
    decreases |s|
  {
    if s == "" then m else Scan(Step(m, s[0]), s[1..])
  }

  /** An expression on its own: every parenthesis and quote it opens it closes, and no other. */
  predicate Closed(s: string) {
    Scan(Code(0), s) == Code(0)
  }

  /** A literal: closed, and without spaces outside quotes. */
  predicate LiteralText(s: string) {
    Closed(s) && forall i :: 0 <= i < |s| && s[i] == ' ' ==> Scan(Code(0), s[..i]) != Code(0)
  }

  /** Position `i` is outside all parentheses and quotes. */
  predicate Top(s: string, i: nat) {
    i <= |s| && Scan(Code(0), s[..i]) == Code(0)
  }

  predicate OperatorAt(s: string, op: string, i: nat) {
    OccursAt(s, op, i) && Top(s, i)
  }

  function FindOperator(s: string, op: string, i: nat): (at: Option<nat>)
    ensures at.Some? ==> i <= at.value && OperatorAt(s, op, at.value) && forall j: nat :: i <= j < at.value ==> !OperatorAt(s, op, j)
    ensures at.None? ==> forall j: nat :: i <= j ==> !OperatorAt(s, op, j)
    decreases |s| - i
  {
    if i > |s| then None
    else if OperatorAt(s, op, i) then Some(i)
    else FindOperator(s, op, i + 1)
  }

  /** The first parenthesis closes at the very end. */
  predicate Wrapped(s: string) {
    |s| >= 2 && s[0] == '(' && s[|s| - 1] == ')' && Closed(s) && forall i: nat :: 0 < i < |s| ==> !Top(s, i)
  }

  // ---------------------------------------------------------------- the reader

  /** What operands of == denote, and which other texts hold. */
  datatype Atoms = Atoms(term: string -> int, holds: string -> bool)

  /** Reading a condition: || binds weakest, then &&, then !, then parentheses and ==; no text is no condition. */
  function Read(a: Atoms, s: string): bool
    decreases |s|
  {
    if s == "" || s == "true" then true
    else if s == "false" then false
    else
      var or := FindOperator(s, " || ", 0);
      if or.Some? then Read(a, s[..or.value]) || Read(a, s[or.value + 4..])
      else
        var and := FindOperator(s, " && ", 0);
        if and.Some? then Read(a, s[..and.value]) && Read(a, s[and.value + 4..])
        else if s[0] == '!' then !Read(a, s[1..])
        else if Wrapped(s) then Read(a, s[1..|s| - 1])
        else
          var equals := FindOperator(s, " == ", 0);
          if equals.Some? then a.term(s[..equals.value]) == a.term(s[equals.value + 4..])
          else a.holds(s)
  }

  /** The environment in which conditions mean what their texts say. */
  function EnvOf(a: Atoms): Env {
    Env(expr => a.term("(" + expr + ")"), literal => a.term(literal), text => Read(a, text))
  }

  // ---------------------------------------------------------------- scanning

  lemma {:induction false} ScanConcat(m: Mode, a: string, b: string)
    ensures Scan(m, a + b) == Scan(Scan(m, a), b)
    decreases |a|
  {
    if a == "" {
      assert a + b == b;
    } else {
      assert (a + b)[1..] == a[1..] + b;
      ScanConcat(Step(m, a[0]), a[1..], b);
    }
  }

  lemma ScanOne(m: Mode, c: char)
    ensures Scan(m, [c]) == Step(m, c)
  {
    assert [c][1..] == "";
  }

  function Deeper(m: Mode): Mode {
    match m
    case Code(d) => Code(d + 1)
    case Quoted(d, q, e) => Quoted(d + 1, q, e)
    case Broken => Broken
  }

  lemma {:induction false} ScanBroken(s: string)
    ensures Scan(Broken, s) == Broken
  {
    if s != "" {
      ScanBroken(s[1..]);
    }
  }

  lemma {:induction false} ScanDeeper(m: Mode, s: string)
    requires !Scan(m, s).Broken?
    ensures Scan(Deeper(m), s) == Deeper(Scan(m, s))
    decreases |s|
  {
    if s != "" {
      if Step(m, s[0]).Broken? {
        ScanBroken(s[1..]);
      }
      ScanDeeper(Step(m, s[0]), s[1..]);
    }
  }

  /** Inside parentheses nothing is outside them. */
  lemma NotTopInside(s: string, i: nat)
    requires Closed(s) && 0 < i <= |s| + 1
    ensures Scan(Code(0), ("(" + s + ")")[..i]) != Code(0)
  {
    var front := s[..i - 1];
    assert ("(" + s + ")")[..i] == "(" + front;
    assert s == front + s[i - 1..];
    ScanConcat(Code(0), front, s[i - 1..]);
    if Scan(Code(0), front).Broken? {
      ScanBroken(s[i - 1..]);
    }
    ScanConcat(Code(0), "(", front);
    ScanOne(Code(0), '(');
    ScanDeeper(Code(0), front);
  }

  lemma ParenthesesClose(s: string)
    requires Closed(s)
    ensures Closed("(" + s + ")") && Wrapped("(" + s + ")")
  {
    var t := "(" + s + ")";
    assert t == ("(" + s) + ")";
    ScanConcat(Code(0), "(", s);
    ScanConcat(Code(0), "(" + s, ")");
    ScanOne(Code(0), '(');
    ScanDeeper(Code(0), s);
    ScanOne(Code(1), ')');
    forall i: nat | 0 < i < |t|
      ensures !Top(t, i)
    {
      NotTopInside(s, i);
    }
  }

  lemma ClosedConcat(a: string, b: string)
    requires Closed(a) && Closed(b)
    ensures Closed(a + b)
  {
    ScanConcat(Code(0), a, b);
  }

  /** Behind a closed text the tops are those of the rest. */
  lemma TopBehind(a: string, b: string, i: nat)
    requires Closed(a) && |a| <= i <= |a| + |b|
    ensures Top(a + b, i) <==> Top(b, i - |a|)
  {
    assert (a + b)[..i] == a + b[..i - |a|];
    ScanConcat(Code(0), a, b[..i - |a|]);
  }

  lemma TopBefore(a: string, b: string, i: nat)
    requires i <= |a|
    ensures Top(a + b, i) <==> Top(a, i)
  {
    assert (a + b)[..i] == a[..i];
  }

  // ---------------------------------------------------------------- reading what is written

  predicate Operator(op: string) {
    op == " || " || op == " && " || op == " == "
  }

  lemma NoOperatorInParentheses(s: string, op: string)
    requires Closed(s) && Operator(op)
    ensures FindOperator("(" + s + ")", op, 0) == None
  {
    var t := "(" + s + ")";
    forall i: nat
      ensures !OperatorAt(t, op, i)
    {
      if OccursAt(t, op, i) {
        assert t[i] == t[i..i + |op|][0] == ' ';
        NotTopInside(s, i);
      }
    }
  }

  lemma ReadParentheses(a: Atoms, s: string)
    requires Closed(s)
    ensures Read(a, "(" + s + ")") == Read(a, s)
  {
    var t := "(" + s + ")";
    ParenthesesClose(s);
    NoOperatorInParentheses(s, " || ");
    NoOperatorInParentheses(s, " && ");
    assert t[1..|t| - 1] == s;
    assert t[0] == '(' && "true"[0] == 't' && "false"[0] == 'f';
  }

  lemma ReadNegation(a: Atoms, s: string)
    requires Closed(s)
    ensures Read(a, "!(" + s + ")") == !Read(a, s) && Closed("!(" + s + ")")
  {
    var inner, t := "(" + s + ")", "!(" + s + ")";
    assert t == "!" + inner;
    ScanOne(Code(0), '!');
    ParenthesesClose(s);
    ClosedConcat("!", inner);
    forall op, i: nat | Operator(op)
      ensures !OperatorAt(t, op, i)
    {
      if OccursAt(t, op, i) {
        assert t[i] == t[i..i + |op|][0] == ' ';
        TopBehind("!", inner, i);
        NotTopInside(s, i - 1);
      }
    }
    assert FindOperator(t, " || ", 0) == None && FindOperator(t, " && ", 0) == None;
    assert t[0] == '!' && "true"[0] == 't' && "false"[0] == 'f' && t[1..] == inner;
    ReadParentheses(a, s);
  }

  /** The first operator of a parenthesised operand, an operator and a rest. */
  lemma FirstOperator(x: string, op: string, rest: string)
    requires Closed(x) && Operator(op)
    ensures var t := "(" + x + ")" + (op + rest);
            && FindOperator(t, op, 0) == Some(|x| + 2)
            && t[..|x| + 2] == "(" + x + ")" && t[|x| + 6..] == rest
    ensures forall other, i: nat :: Operator(other) && i < |x| + 2 ==> !OperatorAt("(" + x + ")" + (op + rest), other, i)
  {
    var left := "(" + x + ")";
    var t := left + (op + rest);
    ParenthesesClose(x);
    forall other, i: nat | Operator(other) && i < |x| + 2
      ensures !OperatorAt(t, other, i)
    {
      if OccursAt(t, other, i) {
        assert t[i] == t[i..i + |other|][0] == ' ' && t[0] == '(';
        TopBefore(left, op + rest, i);
        NotTopInside(x, i);
      }
    }
    TopBehind(left, op + rest, |left|);
    assert (op + rest)[..0] == "" && t[|left|..|left| + 4] == op && t[|left| + 4..] == rest;
    assert OperatorAt(t, op, |left|);
    assert FindOperator(t, op, 0).Some? && FindOperator(t, op, 0).value >= |left|;
  }

  lemma ReadDisjunction(a: Atoms, x: string, rest: string)
    requires Closed(x)
    ensures Read(a, "(" + x + ") || " + rest) == (Read(a, x) || Read(a, rest))
  {
    var t := "(" + x + ")" + (" || " + rest);
    assert t == "(" + x + ") || " + rest;
    FirstOperator(x, " || ", rest);
    assert t[0] == '(' && "true"[0] == 't' && "false"[0] == 'f';
    ReadParentheses(a, x);
  }

  lemma ReadConjunction(a: Atoms, x: string, y: string)
    requires Closed(x) && Closed(y)
    ensures Read(a, "(" + x + ") && (" + y + ")") == (Read(a, x) && Read(a, y))
    ensures Closed("(" + x + ") && (" + y + ")") && FindOperator("(" + x + ") && (" + y + ")", " || ", 0) == None
  {
    var left, right := "(" + x + ")", "(" + y + ")";
    var t := left + (" && " + right);
    assert t == "(" + x + ") && (" + y + ")";
    FirstOperator(x, " && ", right);
    ParenthesesClose(x);
    ParenthesesClose(y);
    Spaces(" && ");
    ClosedConcat(" && ", right);
    ClosedConcat(left, " && " + right);
    forall i: nat
      ensures !OperatorAt(t, " || ", i)
    {
      if OccursAt(t, " || ", i) && i >= |left| {
        BehindOperator(left, " && ", right, " || ", i);
        TopBehind(left, " && " + right, i);
        TopBehind(" && ", right, i - |left|);
        NotTopInside(y, i - |left| - 4);
      }
    }
    assert t[0] == '(' && "true"[0] == 't' && "false"[0] == 'f';
    ReadParentheses(a, x);
    ReadParentheses(a, y);
  }

  lemma Spaces(op: string)
    requires Operator(op)
    ensures Closed(op)
  {
    var c := op[1];
    assert op == " " + ([c] + ([c] + " "));
    ScanOne(Code(0), ' ');
    ScanOne(Code(0), c);
    ClosedConcat([c], " ");
    ClosedConcat([c], [c] + " ");
    ClosedConcat(" ", [c] + ([c] + " "));
  }

  /** Another operator behind one starts inside what follows, not at its first parenthesis. */
  lemma BehindOperator(left: string, op: string, rest: string, other: string, i: nat)
    requires Operator(op) && Operator(other) && op != other && |left| <= i && OccursAt(left + (op + rest), other, i)
    requires rest != "" && rest[0] == '('
    ensures i > |left| + 4
  {
    var t := left + (op + rest);
    var c := op[1];
    assert t[i..i + 4][0] == t[i] && t[i..i + 4][1] == t[i + 1];
    assert t[|left|] == ' ' && t[|left| + 1] == c && t[|left| + 2] == c && t[|left| + 3] == ' ' && t[|left| + 4] == '(';
  }

  /** The text of an equality has no other operator at its top, and its parentheses do not wrap it. */
  lemma EqualityShape(expr: string, literal: string)
    requires Closed(expr) && LiteralText(literal)
    ensures var t := "(" + expr + ")" + (" == " + literal);
            && Closed(t) && !Wrapped(t)
            && FindOperator(t, " || ", 0) == None && FindOperator(t, " && ", 0) == None
            && FindOperator(t, " == ", 0) == Some(|expr| + 2)
            && t[..|expr| + 2] == "(" + expr + ")" && t[|expr| + 6..] == literal
  {
    var left := "(" + expr + ")";
    var t := left + (" == " + literal);
    FirstOperator(expr, " == ", literal);
    ParenthesesClose(expr);
    Spaces(" == ");
    ClosedConcat(" == ", literal);
    ClosedConcat(left, " == " + literal);
    assert Top(t, |left|) by {
      assert OperatorAt(t, " == ", |left|);
    }
    hide Scan, Closed, LiteralText, Top;
    forall other, i: nat | other == " || " || other == " && "
      ensures !OperatorAt(t, other, i)
    {
      if OccursAt(t, other, i) && i >= |left| {
        NoOperatorInLiteral(left, literal, other, i);
      }
    }
  }

  lemma ReadEquality(a: Atoms, expr: string, literal: string)
    requires Closed(expr) && LiteralText(literal)
    ensures Read(a, "((" + expr + ") == " + literal + ")") == (a.term("(" + expr + ")") == a.term(literal))
    ensures Closed("((" + expr + ") == " + literal + ")")
  {
    hide Closed, LiteralText, Wrapped, FindOperator;
    var t := "(" + expr + ")" + (" == " + literal);
    assert "((" + expr + ") == " + literal + ")" == "(" + t + ")";
    EqualityShape(expr, literal);
    assert t[0] == '(' && "true"[0] == 't' && "false"[0] == 'f';
    ReadParentheses(a, t);
    ParenthesesClose(t);
  }

  lemma NoOperatorStart(literal: string, c: char)
    requires LiteralText(literal) && PlainCharacter(c)
    ensures !(|literal| >= 3 && literal[0] == c && literal[1] == c && literal[2] == ' ')
  {
    ScanOne(Code(0), c);
    ClosedConcat([c], [c]);
    if |literal| >= 3 {
      assert literal[..2] == [literal[0]] + [literal[1]];
    }
  }

  lemma NoOperatorInLiteral(left: string, literal: string, other: string, i: nat)
    requires Closed(left) && LiteralText(literal) && (other == " || " || other == " && ")
    requires |left| <= i && OccursAt(left + (" == " + literal), other, i)
    ensures !Top(left + (" == " + literal), i)
  {
    var t := left + (" == " + literal);
    assert t[i..i + 4][0] == t[i] && t[i..i + 4][1] == t[i + 1] && t[i..i + 4][2] == t[i + 2] && t[i..i + 4][3] == t[i + 3];
    assert t[|left|] == ' ' && t[|left| + 1] == '=' && t[|left| + 2] == '=' && t[|left| + 3] == ' ';
    Spaces(" == ");
    NoOperatorStart(literal, other[1]);
    assert forall k :: 0 <= k < |literal| ==> t[|left| + 4 + k] == literal[k];
    if i >= |left| + 4 {
      assert literal[i - |left| - 4] == ' ';
      TopBehind(left, " == " + literal, i);
      TopBehind(" == ", literal, i - |left|);
    }
  }

  // ---------------------------------------------------------------- combining texts

  predicate AllClosed(texts: seq<string>) {
    forall i :: 0 <= i < |texts| ==> Closed(texts[i])
  }

  predicate ReadAny(a: Atoms, texts: seq<string>) {
    exists i :: 0 <= i < |texts| && Read(a, texts[i])
  }

  function InParentheses(texts: seq<string>): seq<string> {
    seq(|texts|, i requires 0 <= i < |texts| => "(" + texts[i] + ")")
  }

  /** Parenthesised texts joined with || read as their disjunction. */
  lemma {:induction false} JoinedReads(a: Atoms, texts: seq<string>)
    requires texts != [] && AllClosed(texts)
    ensures Closed(JoinOr(InParentheses(texts)))
    ensures Read(a, JoinOr(InParentheses(texts))) <==> ReadAny(a, texts)
  {
    hide Read, Closed;
    var first := texts[0];
    if |texts| == 1 {
      ParenthesesClose(first);
      ReadParentheses(a, first);
    } else {
      var rest := JoinOr(InParentheses(texts[1..]));
      JoinedReads(a, texts[1..]);
      assert InParentheses(texts)[1..] == InParentheses(texts[1..]);
      assert JoinOr(InParentheses(texts)) == "(" + first + ")" + " || " + rest;
      assert "(" + first + ")" + " || " + rest == "(" + first + ") || " + rest;
      ReadDisjunction(a, first, rest);
      ParenthesesClose(first);
      Spaces(" || ");
      ClosedConcat("(" + first + ")", " || ");
      ClosedConcat("(" + first + ")" + " || ", rest);
      assert ReadAny(a, texts) <==> Read(a, first) || ReadAny(a, texts[1..]) by {
        assert forall i :: 0 <= i < |texts[1..]| ==> texts[1..][i] == texts[i + 1];
        assert forall i :: 0 < i < |texts| ==> texts[i] == texts[1..][i - 1];
      }
    }
  }

  /** Combining two texts reads as their conjunction, the special texts included. */
  lemma AndTextReads(a: Atoms, left: string, right: string)
    requires Closed(left) && Closed(right)
    ensures Read(a, AndText(left, right)) <==> Read(a, left) && Read(a, right)
    ensures Closed(AndText(left, right))
  {
    SpecialReads(a);
    hide Read, Closed;
    if left != "" && right != "" && left != "false" && right != "false" && left != "true" && right != "true" {
      ReadConjunction(a, left, right);
    }
  }

  lemma SpecialReads(a: Atoms)
    ensures Read(a, "") && Read(a, "true") && !Read(a, "false")
    ensures Closed("") && Closed("true") && Closed("false")
  {
    PlainClosed("true");
    PlainClosed("false");
  }

  predicate PlainCharacter(c: char) {
    c !in ['(', ')', '"', '\'', ' ']
  }

  lemma {:induction false} PlainClosed(s: string)
    requires forall i :: 0 <= i < |s| ==> PlainCharacter(s[i])
    ensures Closed(s)
  {
    if s != "" {
      PlainClosed(s[1..]);
    }
  }

  function WorthyOnes(texts: seq<string>): seq<string> {
    if texts == [] then []
    else
      var front, last := WorthyOnes(texts[..|texts| - 1]), texts[|texts| - 1];
      if last == "" || last == "false" then front else front + [last]
  }

  lemma {:induction false} WorthyReads(a: Atoms, texts: seq<string>)
    requires AllClosed(texts) && "" !in texts
    ensures WorthyTexts(texts) == InParentheses(WorthyOnes(texts))
    ensures AllClosed(WorthyOnes(texts)) && (ReadAny(a, WorthyOnes(texts)) <==> ReadAny(a, texts))
  {
    SpecialReads(a);
    hide Read, Closed;
    if texts != [] {
      var front, last := texts[..|texts| - 1], texts[|texts| - 1];
      assert texts == front + [last];
      WorthyReads(a, front);
      assert ReadAny(a, texts) <==> ReadAny(a, front) || Read(a, last) by {
        assert forall i :: 0 <= i < |front| ==> front[i] == texts[i];
      }
      if last != "false" {
        var worthy := WorthyOnes(front);
        assert WorthyOnes(texts) == worthy + [last];
        assert forall i :: 0 <= i < |worthy| ==> (worthy + [last])[i] == worthy[i];
        assert (worthy + [last])[|worthy|] == last;
        assert InParentheses(worthy + [last]) == InParentheses(worthy) + ["(" + last + ")"];
      }
    }
  }

  /** Joining texts reads as their disjunction, if none of them is empty. */
  lemma OrTextReads(a: Atoms, texts: seq<string>)
    requires AllClosed(texts) && "" !in texts
    ensures Read(a, OrText(texts)) <==> ReadAny(a, texts)
    ensures Closed(OrText(texts))
  {
    WorthyReads(a, texts);
    SpecialReads(a);
    hide Read, Closed;
    if WorthyOnes(texts) != [] {
      JoinedReads(a, WorthyOnes(texts));
    }
  }

  /** notAnyCondition. */
  function NotAnyText(texts: seq<string>): string {
    "!(" + OrText(texts) + ")"
  }

  lemma NotAnyTextReads(a: Atoms, texts: seq<string>)
    requires AllClosed(texts) && "" !in texts
    ensures Read(a, NotAnyText(texts)) <==> !ReadAny(a, texts)
  {
    OrTextReads(a, texts);
    ReadNegation(a, OrText(texts));
    hide Read, Closed;
  }

  /** switchCaseCondition: the text of one case. */
  function CaseText(expr: string, literal: string, w: When): Option<string> {
    match WhenExpr(w)
    case None => None
    case Some(t) =>
      var equals := "((" + expr + ") == " + literal + ")";
      if t == "" || t == "true" then Some(equals)
      else if t == "false" then Some("false")
      else Some(AndText(equals, "(" + t + ")"))
  }

  lemma CaseRenders(expr: string, literal: string, w: When)
    ensures CaseText(expr, literal, w).Some? <==> CaseGuard(expr, literal, w).Some?
    ensures CaseText(expr, literal, w).Some? ==>
              CaseText(expr, literal, w).value == Render(CaseGuard(expr, literal, w).value)
  {
    if WhenExpr(w).Some? {
      AndRenders(Equals(expr, literal), Raw(WhenExpr(w).value));
    }
  }

  predicate WhenReads(a: Atoms, w: When) {
    match w
    case Absent => true
    case WhenText(text) => Read(a, text)
    case WhenFlag(on) => on
    case WhenOther => false
  }

  /** A case text says that the expression equals the literal and the `when` text holds. */
  lemma CaseTextReads(a: Atoms, expr: string, literal: string, w: When)
    requires Closed(expr) && LiteralText(literal) && CaseText(expr, literal, w).Some?
    requires w.WhenText? ==> Closed(w.text)
    ensures Read(a, CaseText(expr, literal, w).value) <==>
              a.term("(" + expr + ")") == a.term(literal) && WhenReads(a, w)
  {
    ReadEquality(a, expr, literal);
    SpecialReads(a);
    hide Read, Closed;
    if WhenExpr(w).Some? {
      var t := WhenExpr(w).value;
      if t != "" && t != "true" && t != "false" {
        ReadParentheses(a, t);
        ParenthesesClose(t);
        AndTextReads(a, "((" + expr + ") == " + literal + ")", "(" + t + ")");
      }
    }
  }

  // ---------------------------------------------------------------- compiled conditions

  /** Made of closed texts, and without empty alternatives. */
  predicate Fit(g: Guard) {
    match g
    case Empty => true
    case True => true
    case False => true
    case Equals(expr, literal) => Closed(expr) && LiteralText(literal)
    case Raw(text) => Closed(text)
    case And(l, r) => Fit(l) && Fit(r)
    case Or(any) => any != [] && forall i :: 0 <= i < |any| ==> Fit(any[i])
    case Not(inner) => Fit(inner)
  }

  /** The text of a condition reads as what the condition means. */
  lemma {:induction false} ReadsAsMeans(a: Atoms, g: Guard)
    requires Fit(g)
    ensures Closed(Render(g)) && (Read(a, Render(g)) <==> Eval(EnvOf(a), g))
  {
    SpecialReads(a);
    hide Read, Closed;
    match g
    case Empty =>
    case True =>
    case False =>
    case Equals(expr, literal) => ReadEquality(a, expr, literal);
    case Raw(text) =>
      ReadParentheses(a, text);
      ParenthesesClose(text);
    case And(l, r) =>
      ReadsAsMeans(a, l);
      ReadsAsMeans(a, r);
      ReadConjunction(a, Render(l), Render(r));
    case Or(any) =>
      forall i | 0 <= i < |any|
        ensures Closed(Render(any[i])) && (Read(a, Render(any[i])) <==> Eval(EnvOf(a), any[i]))
      {
        ReadsAsMeans(a, any[i]);
      }
      var texts := Texts(any);
      assert forall i :: 0 <= i < |any| ==> texts[i] == Render(any[i]);
      assert AllClosed(texts);
      if Eval(EnvOf(a), g) {
        var i :| 0 <= i < |any| && Eval(EnvOf(a), any[i]);
        assert Read(a, texts[i]);
      }
      if ReadAny(a, texts) {
        var i :| 0 <= i < |texts| && Read(a, texts[i]);
        assert Eval(EnvOf(a), any[i]);
      }
      JoinedReads(a, texts);
      JoinRenders(any);
      assert Parenthesised(any) == InParentheses(texts);
    case Not(inner) =>
      ReadsAsMeans(a, inner);
      ReadNegation(a, Render(inner));
  }

  /** Every text of a table is an expression on its own. */
  predicate ClosedTable(sw: Switch) {
    && Closed(sw.expr)
    && forall i :: 0 <= i < |sw.cases| ==> ClosedCase(sw.cases[i])
  }

  predicate ClosedCase(c: Case) {
    && (c.value.Literal? ==> LiteralText(c.value.text))
    && (c.when.WhenText? ==> Closed(c.when.text))
    && (c.nested.Some? ==> ClosedTable(c.nested.value))
  }

  predicate AllFit(gs: seq<Guard>) {
    forall i :: 0 <= i < |gs| ==> Fit(gs[i])
  }

  lemma {:induction false} WorthyFit(gs: seq<Guard>)
    requires AllFit(gs)
    ensures AllFit(Worthy(gs)) && Fit(OrGuards(gs))
  {
    if gs != [] {
      WorthyFit(gs[..|gs| - 1]);
    }
  }

  lemma AndFit(l: Guard, r: Guard)
    requires Fit(l) && Fit(r)
    ensures Fit(AndGuards(l, r))
  {
  }

  lemma CaseFit(sw: Switch, n: nat)
    requires n < |sw.cases| && ClosedTable(sw) && sw.cases[n].value.Literal?
    requires CaseGuard(sw.expr, sw.cases[n].value.text, sw.cases[n].when).Some?
    ensures Fit(CaseGuard(sw.expr, sw.cases[n].value.text, sw.cases[n].when).value)
  {
    hide Closed, LiteralText;
    assert ClosedCase(sw.cases[n]);
  }

  lemma {:induction false} ExpandCaseFits(sw: Switch, parent: Guard, depth: nat, n: nat)
    requires n < |sw.cases| && ExpandCase(sw, parent, depth, n).Ok? && ClosedTable(sw) && Fit(parent)
    ensures var p := ExpandCase(sw, parent, depth, n).value;
            AllFit(Guards(p.transitions)) && AllFit(p.full)
    decreases sw, 0
  {
    hide Fit, AndGuards, CaseGuard, OrGuards, Closed, LiteralText;
    var c := sw.cases[n];
    assert ClosedCase(c);
    var own := CaseGuard(sw.expr, c.value.text, c.when).value;
    CaseFit(sw, n);
    AndFit(parent, own);
    if c.to == "" {
      ExpandFits(c.nested.value, AndGuards(parent, own), depth + 1);
      WorthyFit(Guards(Expand(c.nested.value, AndGuards(parent, own), depth + 1).value));
    }
  }

  lemma {:induction false} ExpandCasesFit(sw: Switch, parent: Guard, depth: nat, n: nat)
    requires n <= |sw.cases| && ExpandCases(sw, parent, depth, n).Ok? && ClosedTable(sw) && Fit(parent)
    ensures var p := ExpandCases(sw, parent, depth, n).value;
            AllFit(Guards(p.transitions)) && AllFit(p.full)
    decreases sw, 1, n
  {
    hide Fit, ExpandCase, ClosedTable;
    if n > 0 {
      ExpandCasesFit(sw, parent, depth, n - 1);
      ExpandCaseFits(sw, parent, depth, n - 1);
      var before := ExpandCases(sw, parent, depth, n - 1).value;
      var p := ExpandCase(sw, parent, depth, n - 1).value;
      assert Guards(before.transitions + p.transitions) == Guards(before.transitions) + Guards(p.transitions);
    }
  }

  lemma {:induction false} ExpandFits(sw: Switch, parent: Guard, depth: nat)
    requires Expand(sw, parent, depth).Ok? && ClosedTable(sw) && Fit(parent)
    ensures AllFit(Guards(Expand(sw, parent, depth).value))
    decreases sw, 2
  {
    ExpandCasesFit(sw, parent, depth, |sw.cases|);
    if sw.default.Some? {
      var p := ExpandCases(sw, parent, depth, |sw.cases|).value;
      WorthyFit(p.full);
      AndFit(parent, NotAny(p.full));
      var last := Transition(sw.default.value.to, AndGuards(parent, NotAny(p.full)), sw.default.value.payload);
      hide Fit, AndGuards, OrGuards;
      assert Guards(p.transitions + [last]) == Guards(p.transitions) + [last.when];
    }
  }

  /** The first transition whose text reads as true, each text read for its own destination. */
  function FirstReadAt(atoms: string -> Atoms, ts: seq<Transition>): Option<Target> {
    if ts == [] then None
    else if Read(atoms(ts[0].to), Render(ts[0].when)) then Some(Target(ts[0].to, ts[0].payload))
    else FirstReadAt(atoms, ts[1..])
  }

  /**
   What the state machine does with the texts the compiler wrote is what the conditions say, so all that is
   proved of conditions holds of their texts.
   */
  lemma TextsMeanConditions(atoms: string -> Atoms, sw: Switch)
    requires Expand(sw, Empty, 0).Ok? && ClosedTable(sw)
    ensures FirstReadAt(atoms, Expand(sw, Empty, 0).value) == FirstTrueAt(to => EnvOf(atoms(to)), Expand(sw, Empty, 0).value)
  {
    ExpandFits(sw, Empty, 0);
    SameReading(atoms, Expand(sw, Empty, 0).value);
  }

  lemma {:induction false} SameReading(atoms: string -> Atoms, ts: seq<Transition>)
    requires AllFit(Guards(ts))
    ensures FirstReadAt(atoms, ts) == FirstTrueAt(to => EnvOf(atoms(to)), ts)
  {
    hide Read, Fit, Eval, Render, EnvOf;
    if ts != [] {
      assert Guards(ts)[0] == ts[0].when;
      ReadsAsMeans(atoms(ts[0].to), ts[0].when);
      assert forall i :: 0 <= i < |ts[1..]| ==> Guards(ts[1..])[i] == Guards(ts)[i + 1];
      SameReading(atoms, ts[1..]);
    }
  }

  /** The texts of a table whose texts ignore the destination take the transition the table chooses. */
  lemma TextsPreserveMeaning(atoms: string -> Atoms, env: Env, sw: Switch)
    requires Expand(sw, Empty, 0).Ok? && ClosedTable(sw) && IgnoresDestination(to => EnvOf(atoms(to)), env, sw)
    ensures FirstReadAt(atoms, Expand(sw, Empty, 0).value) == Chosen(env, sw)
  {
    TextsMeanConditions(atoms, sw);
    CompilationPreservesMeaning(to => EnvOf(atoms(to)), env, sw);
  }

  // ---------------------------------------------------------------- literals, and texts that are not closed

  /** What the compiler writes for a value is a literal: numbers and booleans, and quoted strings with their quotes escaped. */
  lemma LiteralsFit(s: string)
    ensures (forall i :: 0 <= i < |s| ==> PlainCharacter(s[i])) ==> LiteralText(s)
    ensures Scan(Quoted(0, '"', false), s) == Quoted(0, '"', false) && (forall i :: 0 <= i < |s| ==> QuotedAt(s, i)) ==>
              LiteralText("\"" + s + "\"")
  {
    if forall i :: 0 <= i < |s| ==> PlainCharacter(s[i]) {
      PlainClosed(s);
    }
    if Scan(Quoted(0, '"', false), s) == Quoted(0, '"', false) && forall i :: 0 <= i < |s| ==> QuotedAt(s, i) {
      var t := "\"" + s + "\"";
      assert t == "\"" + (s + "\"");
      ScanConcat(Code(0), "\"", s + "\"");
      ScanConcat(Quoted(0, '"', false), s, "\"");
      ScanOne(Code(0), '"');
      ScanOne(Quoted(0, '"', false), '"');
      forall i | 0 <= i < |t| && t[i] == ' '
        ensures Scan(Code(0), t[..i]) != Code(0)
      {
        assert t[..i] == "\"" + s[..i - 1] && t[i] == s[i - 1];
        ScanConcat(Code(0), "\"", s[..i - 1]);
        assert QuotedAt(s, i - 1);
      }
    }
  }

  /** The character is inside the quotes that opened before the text. */
  predicate QuotedAt(s: string, i: nat) {
    i <= |s| && Scan(Quoted(0, '"', false), s[..i]).Quoted?
  }

  /** A disjunction whose left side is closed by a parenthesis and has no || of its own. */
  lemma ReadTopDisjunction(a: Atoms, left: string, rest: string)
    requires Closed(left) && left != "" && left[0] == '(' && left[|left| - 1] == ')' && FindOperator(left, " || ", 0) == None
    ensures Read(a, left + (" || " + rest)) == (Read(a, left) || Read(a, rest))
  {
    var t := left + (" || " + rest);
    forall i: nat | i < |left|
      ensures !OperatorAt(t, " || ", i)
    {
      if OccursAt(t, " || ", i) {
        assert t[i..i + 4][0] == t[i] && t[i..i + 4][1] == t[i + 1] && t[i..i + 4][2] == t[i + 2] && t[i..i + 4][3] == t[i + 3];
        assert i + 4 <= |left|;
        assert left[i..i + 4] == t[i..i + 4];
        TopBefore(left, " || " + rest, i);
        assert !OperatorAt(left, " || ", i);
      }
    }
    TopBehind(left, " || " + rest, |left|);
    assert (" || " + rest)[..0] == "" && t[|left|..|left| + 4] == " || " && t[|left| + 4..] == rest && t[..|left|] == left;
    assert OperatorAt(t, " || ", |left|);
    assert t[0] == '(' && "true"[0] == 't' && "false"[0] == 'f';
  }

  /**
   The texts must be closed: a `when` text that is no expression on its own escapes its parentheses. With
   `x)) || ((y` a case holds wherever y does, whether or not its value matches.
   */
  lemma UnclosedWhenEscapes(a: Atoms, expr: string, literal: string, x: string, y: string)
    requires Closed(expr) && LiteralText(literal) && Closed(x) && Closed(y)
    ensures var escaping := x + (")) || ((" + y);
            var text := CaseText(expr, literal, WhenText(escaping));
            && !Closed(escaping) && text.Some?
            && (Read(a, text.value) <==> (a.term("(" + expr + ")") == a.term(literal) && Read(a, x)) || Read(a, y))
  {
    var equals := "((" + expr + ") == " + literal + ")";
    var left, right := "(" + equals + ") && (" + ("(" + x + ")") + ")", "(" + ("(" + y + ")") + ")";
    EscapingText(expr, literal, x, y);
    EscapingIsOpen(x, y);
    hide Read, Closed, LiteralText, FindOperator, CaseText;
    ReadEquality(a, expr, literal);
    ParenthesesClose(x);
    ParenthesesClose(y);
    ReadConjunction(a, equals, "(" + x + ")");
    ReadParentheses(a, x);
    ReadParentheses(a, "(" + y + ")");
    ReadParentheses(a, y);
    Ends(equals, "(" + x + ")");
    ReadTopDisjunction(a, left, right);
  }

  lemma Ends(x: string, y: string)
    ensures var t := "(" + x + ") && (" + y + ")";
            t != "" && t[0] == '(' && t[|t| - 1] == ')'
  {
    hide *;
  }

  lemma EscapingIsOpen(x: string, y: string)
    requires Closed(x)
    ensures !Closed(x + (")) || ((" + y))
  {
    var rest := ") || ((" + y;
    assert ")) || ((" + y == ")" + rest;
    ScanConcat(Code(0), x, ")" + rest);
    ScanConcat(Code(0), ")", rest);
    ScanOne(Code(0), ')');
    ScanBroken(rest);
  }

  lemma EscapingText(expr: string, literal: string, x: string, y: string)
    ensures var equals := "((" + expr + ") == " + literal + ")";
            var left, right := "(" + equals + ") && (" + ("(" + x + ")") + ")", "(" + ("(" + y + ")") + ")";
            CaseText(expr, literal, WhenText(x + (")) || ((" + y))) == Some(left + (" || " + right))
  {
    var equals := "((" + expr + ") == " + literal + ")";
    var escaping := x + (")) || ((" + y);
    var inner := "(" + escaping + ")";
    assert |escaping| >= 8 && |inner| >= 10 && |equals| >= 8 && |"true"| == 4 && |"false"| == 5;
    assert AndText(equals, inner) == "(" + equals + ") && (" + inner + ")";
    hide AndText;
    Regrouped("(" + equals + ") && (", x, y);
  }

  lemma Regrouped(front: string, x: string, y: string)
    ensures front + ("(" + (x + (")) || ((" + y)) + ")") + ")" ==
            (front + ("(" + x + ")") + ")") + (" || " + ("(" + ("(" + y + ")") + ")"))
  {
    hide *;
    assert ")) || ((" == ")" + ")" + (" || " + ("(" + "("));
    assert ")) || ((" + y == ")" + (")" + (" || " + ("(" + ("(" + y))));
  }
}
