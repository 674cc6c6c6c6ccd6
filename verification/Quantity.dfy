/**
 Exact bounded quantities (pkg/execution/quantity.go). A quantity text denotes a positive number
 of millicores or bytes that fits a signed 64-bit integer, or nothing at all: no rounding.
 */
module Quantity {
  import opened Text

  const MaxInt64: nat := 0x7FFF_FFFF_FFFF_FFFF

  const SIUnits := ["k", "M", "G", "T", "P", "E"]
  const IECUnits := ["Ki", "Mi", "Gi", "Ti", "Pi", "Ei"]

  datatype Unit = Cores | Bytes

  /** A text split by the syntax `digits[.digits]suffix`. */
  datatype Lexeme = Lexeme(whole: string, frac: string, suffix: string)

  function DigitRun(s: string): (n: nat)
    ensures n <= |s| && AllDigits(s[..n])
    ensures n < |s| ==> !IsDigit(s[n])
  {
    if s != "" && IsDigit(s[0]) then
      var n := DigitRun(s[1..]) + 1;
      assert s[..n] == [s[0]] + s[1..][..n - 1];
      n
    else 0
  }

  function Lex(s: string): (l: Option<Lexeme>)
    ensures l.Some? ==> AllDigits(l.value.whole) && AllDigits(l.value.frac)
  {
    var n := DigitRun(s);
    if n == 0 then None
    else if n < |s| && s[n] == '.' then
      var m := DigitRun(s[n + 1..]);
      if m == 0 then None else Some(Lexeme(s[..n], s[n + 1..][..m], s[n + 1..][m..]))
    else Some(Lexeme(s[..n], "", s[n..]))
  }

  /** How many scalar units one unit of the suffix is worth; None when the suffix is not in the syntax. */
  function Multiplier(suffix: string, unit: Unit): (m: Option<nat>)
    ensures m.Some? ==> m.value > 0
  {
    match unit
    case Cores => if suffix == "" then Some(1000) else if suffix == "m" then Some(1) else None
    case Bytes =>
      if suffix in SIUnits then PowPositive(1000, Position(SIUnits, suffix) + 1); Some(Pow(1000, Position(SIUnits, suffix) + 1))
      else if suffix in IECUnits then PowPositive(1024, Position(IECUnits, suffix) + 1); Some(Pow(1024, Position(IECUnits, suffix) + 1))
      else None
  }

  lemma {:induction false} PowPositive(b: nat, e: nat)
    requires b > 0
    ensures Pow(b, e) > 0
  {
    if e > 0 {
      PowPositive(b, e - 1);
    }
  }

  /** The exact rational `numerator / Pow(10, |frac|)`, accepted when it is a positive int64. */
  function Exact(l: Lexeme, multiplier: nat): Option<nat>
    requires AllDigits(l.whole) && AllDigits(l.frac)
  {
    var numerator := DigitsValue(l.whole + l.frac) * multiplier;
    PowPositive(10, |l.frac|);
    var scale := Pow(10, |l.frac|);
    if numerator > 0 && numerator % scale == 0 && numerator / scale <= MaxInt64
    then Some(numerator / scale)
    else None
  }

  /** parseQuantity: millicores for Cores, bytes for Bytes. */
  function Parse(value: string, unit: Unit): (scalar: Option<nat>)
    ensures scalar.Some? ==> 0 < scalar.value <= MaxInt64
  {
    if |value| > 128 then None
    else
      match Lex(value)
      case None => None
      case Some(l) =>
        match Multiplier(l.suffix, unit)
        case None => None
        case Some(m) =>
          PowPositive(10, |l.frac|);
          Exact(l, m)
  }

  /** What a text denotes: `n` is the exact product of its decimal number and its unit, and fits. */
  predicate Denotes(value: string, unit: Unit, n: nat) {
    && |value| <= 128 && Lex(value).Some?
    && var l := Lex(value).value;
       && Multiplier(l.suffix, unit).Some?
       && 0 < n <= MaxInt64
       && n * Pow(10, |l.frac|) == DigitsValue(l.whole + l.frac) * Multiplier(l.suffix, unit).value
  }

  lemma DivisionExactly(numerator: int, scale: nat, n: nat)
    requires scale > 0
    ensures numerator % scale == 0 && numerator / scale == n <==> n * scale == numerator
  {
    hide *;
    assert numerator == (numerator / scale) * scale + numerator % scale;
    if n * scale == numerator {
      QuotientUnique(n, numerator / scale, numerator % scale, scale);
    }
  }

  lemma Multiple(d: int, scale: int)
    requires scale > 0
    ensures d >= 1 ==> d * scale >= scale
    ensures d <= -1 ==> d * scale <= -scale
  {
    hide *;
  }

  lemma QuotientUnique(n: int, q: int, r: int, scale: nat)
    requires 0 <= r < scale && n * scale == q * scale + r
    ensures n == q && r == 0
  {
    hide *;
    assert (n - q) * scale == r;
    Multiple(n - q, scale);
  }

  lemma ExactDenotes(l: Lexeme, multiplier: nat, n: nat)
    requires AllDigits(l.whole) && AllDigits(l.frac) && AllDigits(l.whole + l.frac)
    ensures Exact(l, multiplier) == Some(n) <==>
              0 < n <= MaxInt64 && n * Pow(10, |l.frac|) == DigitsValue(l.whole + l.frac) * multiplier
  {
    hide DigitsValue, Pow, AllDigits;
    PowPositive(10, |l.frac|);
    DivisionExactly(DigitsValue(l.whole + l.frac) * multiplier, Pow(10, |l.frac|), n);
    Multiple(n, Pow(10, |l.frac|));
  }

  /** A text is accepted exactly when it denotes a number, and as that number: nothing is rounded. */
  lemma ParseExactly(value: string, unit: Unit, n: nat)
    ensures Parse(value, unit) == Some(n) <==> Denotes(value, unit, n)
  {
    hide Lex, Multiplier, DigitsValue, Pow, Exact;
    if |value| <= 128 && Lex(value).Some? && Multiplier(Lex(value).value.suffix, unit).Some? {
      ExactDenotes(Lex(value).value, Multiplier(Lex(value).value.suffix, unit).value, n);
    }
  }

  /** The texts byteSyntax accepts: the syntax with an explicit SI or IEC unit. */
  predicate ByteSyntax(value: string) {
    Lex(value).Some? && Multiplier(Lex(value).value.suffix, Bytes).Some?
  }

  function NormalizeCPU(value: string): Option<string> {
    match Parse(value, Cores)
    case None => None
    case Some(n) => Some(PrintCPU(n))
  }

  function PrintCPU(n: nat): string {
    if n % 1000 == 0 then Decimal(n / 1000) else Decimal(n) + "m"
  }

  /**
   normalizeBytes. `canonical` is what the Kubernetes quantity prints for `value`; it is used when
   it carries a unit, otherwise the number of bytes is printed in kilobytes.
   */
  function NormalizeBytes(value: string, canonical: string): Option<string> {
    match Parse(value, Bytes)
    case None => None
    case Some(n) => Some(if ByteSyntax(canonical) then canonical else PrintKilobytes(n))
  }

  /** `%03d` for a remainder. */
  function Pad3(n: nat): (s: string)
    requires n < 1000
    ensures |s| == 3 && AllDigits(s) && DigitsValue(s) == n
  {
    var s := [DigitChar(n / 100), DigitChar(n / 10 % 10), DigitChar(n % 10)];
    assert s[..2][..1] == s[..1] && s[..1][..0] == "";
    assert DigitsValue(s[..1]) == n / 100;
    assert DigitsValue(s[..2]) == n / 10;
    s
  }

  function PrintKilobytes(n: nat): string {
    TrimRight(TrimRight(Decimal(n / 1000) + "." + Pad3(n % 1000), '0'), '.') + "k"
  }

  // ---------------------------------------------------------------- canonical texts keep the value

  lemma {:induction false} DigitRunOf(digits: string, rest: string)
    requires AllDigits(digits) && (rest != "" ==> !IsDigit(rest[0]))
    ensures DigitRun(digits + rest) == |digits|
  {
    if digits == "" {
      assert digits + rest == rest;
    } else {
      assert (digits + rest)[1..] == digits[1..] + rest;
      DigitRunOf(digits[1..], rest);
    }
  }

  lemma LexPlain(whole: string, suffix: string)
    requires whole != "" && AllDigits(whole)
    requires suffix != "" ==> !IsDigit(suffix[0]) && suffix[0] != '.'
    ensures Lex(whole + suffix) == Some(Lexeme(whole, "", suffix))
  {
    DigitRunOf(whole, suffix);
    assert (whole + suffix)[..|whole|] == whole && (whole + suffix)[|whole|..] == suffix;
  }

  lemma LexPoint(whole: string, frac: string, suffix: string)
    requires whole != "" && frac != "" && AllDigits(whole) && AllDigits(frac)
    requires suffix != "" ==> !IsDigit(suffix[0])
    ensures Lex(whole + "." + frac + suffix) == Some(Lexeme(whole, frac, suffix))
  {
    hide Lex, DigitRun, AllDigits;
    var tail := frac + suffix;
    var s := whole + ("." + tail);
    assert s == whole + "." + frac + suffix;
    DigitRunOf(whole, "." + tail);
    DigitRunOf(frac, suffix);
    PartsOf(whole, '.', tail);
    assert tail[..|frac|] == frac && tail[|frac|..] == suffix;
    LexAt(s, |whole|, |frac|);
  }

  lemma LexAt(s: string, n: nat, m: nat)
    requires 0 < n < |s| && DigitRun(s) == n && s[n] == '.' && 0 < m && DigitRun(s[n + 1..]) == m
    ensures Lex(s) == Some(Lexeme(s[..n], s[n + 1..][..m], s[n + 1..][m..]))
  {
    hide DigitRun, AllDigits;
  }

  lemma PartsOf(front: string, c: char, back: string)
    ensures var s := front + ([c] + back);
            |s| > |front| && s[|front|] == c && s[..|front|] == front && s[|front| + 1..] == back
  {
    hide *;
    var s := front + ([c] + back);
    assert s[|front|..] == [c] + back;
  }

  function Spelled(l: Lexeme): string {
    l.whole + (if l.frac == "" then "" else "." + l.frac) + l.suffix
  }

  /** The syntax, read as texts that are put together: digits, optionally a point and digits, and a suffix. */
  lemma LexExactly(value: string, l: Lexeme)
    requires l.suffix != "" ==> !IsDigit(l.suffix[0]) && l.suffix[0] != '.'
    ensures Lex(value) == Some(l) <==> value == Spelled(l) && l.whole != "" && AllDigits(l.whole) && AllDigits(l.frac)
  {
    hide Lex, AllDigits;
    if value == Spelled(l) && l.whole != "" && AllDigits(l.whole) && AllDigits(l.frac) {
      if l.frac == "" {
        LexPlain(l.whole, l.suffix);
        assert Spelled(l) == l.whole + l.suffix;
      } else {
        LexPoint(l.whole, l.frac, l.suffix);
        assert Spelled(l) == l.whole + "." + l.frac + l.suffix;
      }
    }
    if Lex(value) == Some(l) {
      LexedParts(value);
    }
  }

  lemma LexedParts(value: string)
    requires Lex(value).Some?
    ensures value == Spelled(Lex(value).value) && Lex(value).value.whole != ""
  {
    var n := DigitRun(value);
    hide DigitRun, AllDigits, IsDigit;
    if n < |value| && value[n] == '.' {
      var m := DigitRun(value[n + 1..]);
      assert value == value[..n] + ("." + (value[n + 1..][..m] + value[n + 1..][m..]));
    } else {
      assert value == value[..n] + "" + value[n..];
    }
  }

  /** What each SI unit is worth. */
  lemma SIUnitsMean()
    ensures Multiplier("k", Bytes) == Some(1_000) && Multiplier("M", Bytes) == Some(1_000_000)
    ensures Multiplier("G", Bytes) == Some(1_000_000_000) && Multiplier("T", Bytes) == Some(1_000_000_000_000)
    ensures Multiplier("P", Bytes) == Some(1_000_000_000_000_000) && Multiplier("E", Bytes) == Some(1_000_000_000_000_000_000)
  {
    SmallPowers();
    hide Pow, Multiplier;
    SIUnitAt("k", 0);
    SIUnitAt("M", 1);
    SIUnitAt("G", 2);
    SIUnitAt("T", 3);
    SIUnitAt("P", 4);
    SIUnitAt("E", 5);
  }

  /** What each IEC unit is worth. */
  lemma IECUnitsMean()
    ensures Multiplier("Ki", Bytes) == Some(0x400) && Multiplier("Mi", Bytes) == Some(0x10_0000)
    ensures Multiplier("Gi", Bytes) == Some(0x4000_0000) && Multiplier("Ti", Bytes) == Some(0x100_0000_0000)
    ensures Multiplier("Pi", Bytes) == Some(0x4_0000_0000_0000) && Multiplier("Ei", Bytes) == Some(0x1000_0000_0000_0000)
  {
    SmallPowers();
    hide Pow, Multiplier;
    IECUnitAt("Ki", 0);
    IECUnitAt("Mi", 1);
    IECUnitAt("Gi", 2);
    IECUnitAt("Ti", 3);
    IECUnitAt("Pi", 4);
    IECUnitAt("Ei", 5);
  }

  /** What no unit and the unit of millicores are worth for cores, and that there is no other unit. */
  lemma NoOtherUnits()
    ensures Multiplier("", Cores) == Some(1_000) && Multiplier("m", Cores) == Some(1)
    ensures forall s :: s !in ["k", "M", "G", "T", "P", "E", "Ki", "Mi", "Gi", "Ti", "Pi", "Ei"] ==> Multiplier(s, Bytes) == None
    ensures forall s :: s !in ["", "m"] ==> Multiplier(s, Cores) == None
  {
    hide Pow, Position;
    forall s | s !in ["k", "M", "G", "T", "P", "E", "Ki", "Mi", "Gi", "Ti", "Pi", "Ei"]
      ensures s !in SIUnits && s !in IECUnits
    {
      assert forall i :: 0 <= i < 6 ==> SIUnits[i] == ["k", "M", "G", "T", "P", "E", "Ki", "Mi", "Gi", "Ti", "Pi", "Ei"][i];
      assert forall i :: 0 <= i < 6 ==> IECUnits[i] == ["k", "M", "G", "T", "P", "E", "Ki", "Mi", "Gi", "Ti", "Pi", "Ei"][i + 6];
    }
  }

  lemma SIUnitAt(unit: string, i: nat)
    requires i < 6 && SIUnits[i] == unit
    ensures Multiplier(unit, Bytes) == Some(Pow(1000, i + 1))
  {
    hide Pow, Position;
    assert Position(SIUnits, unit) == i;
  }

  lemma IECUnitAt(unit: string, i: nat)
    requires i < 6 && IECUnits[i] == unit
    ensures Multiplier(unit, Bytes) == Some(Pow(1024, i + 1))
  {
    hide Pow, Position;
    assert Position(IECUnits, unit) == i;
  }

  lemma SmallPowers()
    ensures Pow(1000, 1) == 1_000 && Pow(1000, 2) == 1_000_000 && Pow(1000, 3) == 1_000_000_000
    ensures Pow(1000, 4) == 1_000_000_000_000 && Pow(1000, 5) == 1_000_000_000_000_000
    ensures Pow(1000, 6) == 1_000_000_000_000_000_000
    ensures Pow(1024, 1) == 0x400 && Pow(1024, 2) == 0x10_0000 && Pow(1024, 3) == 0x4000_0000
    ensures Pow(1024, 4) == 0x100_0000_0000 && Pow(1024, 5) == 0x4_0000_0000_0000 && Pow(1024, 6) == 0x1000_0000_0000_0000
  {
    assert Pow(1000, 0) == 1 && Pow(1024, 0) == 1;
  }

  lemma ShortDecimal(n: nat)
    requires n <= MaxInt64
    ensures |Decimal(n)| <= 19
  {
    assert Pow(10, 19) == 10_000_000_000_000_000_000 by {
      assert Pow(10, 5) == 100_000;
      assert Pow(10, 10) == 10_000_000_000;
      assert Pow(10, 15) == 1_000_000_000_000_000;
    }
    DecimalLength(n, 19);
  }

  lemma PrintCPUKeepsValue(n: nat)
    requires 0 < n <= MaxInt64
    ensures Parse(PrintCPU(n), Cores) == Some(n)
  {
    if n % 1000 == 0 {
      var w := Decimal(n / 1000);
      ShortDecimal(n / 1000);
      LexPlain(w, "");
      assert w + "" == w;
    } else {
      var w := Decimal(n);
      ShortDecimal(n);
      LexPlain(w, "m");
      assert w + "" == w;
    }
  }

  /** Every accepted CPU text is rewritten to one of the same value, and only once. */
  lemma NormalizeCPUKeepsValue(value: string)
    ensures NormalizeCPU(value).Some? <==> Parse(value, Cores).Some?
    ensures NormalizeCPU(value).Some? ==>
              var out := NormalizeCPU(value).value;
              Parse(out, Cores) == Parse(value, Cores) && NormalizeCPU(out) == Some(out)
  {
    if Parse(value, Cores).Some? {
      PrintCPUKeepsValue(Parse(value, Cores).value);
    }
  }

  /** Two texts of equal value get one canonical CPU text. */
  lemma NormalizeCPUCanonical(a: string, b: string)
    ensures NormalizeCPU(a) == NormalizeCPU(b) <==> Parse(a, Cores) == Parse(b, Cores)
  {
    NormalizeCPUKeepsValue(a);
    NormalizeCPUKeepsValue(b);
  }

  lemma {:induction false} TrimRightKeepsFront(front: string, back: string, c: char)
    ensures TrimRight(front + back, c) ==
            if TrimRight(back, c) == "" then TrimRight(front, c) else front + TrimRight(back, c)
  {
    if back == "" {
      assert front + back == front;
    } else {
      var s := front + back;
      assert s[..|s| - 1] == front + back[..|back| - 1];
      if back[|back| - 1] == c {
        TrimRightKeepsFront(front, back[..|back| - 1], c);
      }
    }
  }

  /** Dropping trailing zeros of the fraction divides numerator and scale alike. */
  lemma {:induction false} TrimZeros(frac: string)
    requires AllDigits(frac)
    ensures var t := TrimRight(frac, '0');
            && AllDigits(t) && |t| <= |frac|
            && DigitsValue(frac) == DigitsValue(t) * Pow(10, |frac| - |t|)
            && (t == "" || t[|t| - 1] != '0')
  {
    if frac != "" && frac[|frac| - 1] == '0' {
      var front := frac[..|frac| - 1];
      TrimZeros(front);
      var t := TrimRight(front, '0');
      assert Pow(10, |frac| - |t|) == 10 * Pow(10, |front| - |t|);
      ShiftLeft(DigitsValue(t), Pow(10, |front| - |t|), 0, 0);
    } else {
      assert Pow(10, 0) == 1;
    }
  }

  lemma KilobytesText(n: nat)
    ensures var w, t := Decimal(n / 1000), TrimRight(Pad3(n % 1000), '0');
            PrintKilobytes(n) == if t == "" then w + "k" else w + "." + t + "k"
  {
    var w, f := Decimal(n / 1000), Pad3(n % 1000);
    var t := TrimRight(f, '0');
    TrimZeros(f);
    TrimRightKeepsFront(w + ".", f, '0');
    if t == "" {
      assert (w + ".")[..|w|] == w;
      assert TrimRight(w + ".", '0') == w + ".";
      assert TrimRight(w + ".", '.') == TrimRight(w, '.') == w;
    } else {
      var s := w + "." + t;
      assert s[|s| - 1] == t[|t| - 1];
      assert TrimRight(s, '.') == s;
    }
  }

  /** The kilobyte text denotes the same number of bytes. */
  lemma PrintKilobytesKeepsValue(n: nat)
    requires 0 < n <= MaxInt64
    ensures ByteSyntax(PrintKilobytes(n))
    ensures Parse(PrintKilobytes(n), Bytes) == Some(n)
    ensures FamilyOf(PrintKilobytes(n)) == SI
  {
    var w, f := Decimal(n / 1000), Pad3(n % 1000);
    var t := TrimRight(f, '0');
    KilobytesText(n);
    TrimZeros(f);
    ShortDecimal(n / 1000);
    if t == "" {
      LexPlain(w, "k");
    } else {
      LexPoint(w, t, "k");
    }
    KilobyteUnit();
    KilobytesScalar(n, w, f, t);
  }

  lemma KilobyteUnit()
    ensures Multiplier("k", Bytes) == Some(1000)
  {
    assert Pow(1000, 0) == 1 && Pow(1000, 1) == 1000;
  }

  lemma KilobytesScalar(n: nat, w: string, f: string, t: string)
    requires 0 < n <= MaxInt64
    requires AllDigits(w) && AllDigits(t) && AllDigits(f) && |f| == 3 && |t| <= 3
    requires DigitsValue(w) == n / 1000 && DigitsValue(f) == n % 1000
    requires DigitsValue(f) == DigitsValue(t) * Pow(10, 3 - |t|)
    ensures Exact(Lexeme(w, t, "k"), 1000) == Some(n)
  {
    PowersOfTen(|t|);
    DigitsValueConcat(w, t);
    ThousandthsOf(n, DigitsValue(w), DigitsValue(t), Pow(10, |t|), Pow(10, 3 - |t|), DigitsValue(w + t));
    hide Pow, DigitsValue, Complement;
  }

  predicate Complement(scale: nat, rest: nat) {
    if scale == 1 then rest == 1000
    else if scale == 10 then rest == 100
    else if scale == 100 then rest == 10
    else scale == 1000 && rest == 1
  }

  lemma PowersOfTen(places: nat)
    requires places <= 3
    ensures Complement(Pow(10, places), Pow(10, 3 - places))
  {
    assert Pow(10, 0) == 1 && Pow(10, 1) == 10 && Pow(10, 2) == 100 && Pow(10, 3) == 1000;
  }

  /** `v` counts the units of `1 / scale` in `n` thousandths; `rest` is `1000 / scale`. */
  lemma ThousandthsOf(n: nat, whole: nat, frac: nat, scale: nat, rest: nat, v: nat)
    requires n > 0
    requires Complement(scale, rest)
    requires whole == n / 1000 && n % 1000 == frac * rest && v == whole * scale + frac
    ensures v * 1000 > 0 && v * 1000 % scale == 0 && v * 1000 / scale == n
  {
    if scale == 1 {
      assert v == whole + frac && n % 1000 == 1000 * frac;
    } else if scale == 10 {
      assert v == 10 * whole + frac && n % 1000 == 100 * frac;
    } else if scale == 100 {
      assert v == 100 * whole + frac && n % 1000 == 10 * frac;
    } else {
      assert v == 1000 * whole + frac && n % 1000 == frac;
    }
  }

  /** A printed text that carries a unit denotes the quantity it was printed for. */
  predicate Faithful(value: string, printed: string) {
    ByteSyntax(printed) ==> Parse(printed, Bytes) == Parse(value, Bytes)
  }

  /**
   Every accepted byte text is rewritten to one of the same value that still carries a unit.
   What the Kubernetes printer contributes is assumed only to denote the value it printed.
   */
  lemma NormalizeBytesKeepsValue(value: string, canonical: string)
    requires Faithful(value, canonical)
    ensures NormalizeBytes(value, canonical).Some? <==> Parse(value, Bytes).Some?
    ensures NormalizeBytes(value, canonical).Some? ==>
              var out := NormalizeBytes(value, canonical).value;
              ByteSyntax(out) && Parse(out, Bytes) == Parse(value, Bytes)
  {
    if Parse(value, Bytes).Some? {
      PrintKilobytesKeepsValue(Parse(value, Bytes).value);
    }
  }

  // ---------------------------------------------------------------- normalising twice

  datatype Family = SI | IEC

  /** The family of the unit a text carries. */
  function FamilyOf(value: string): Family {
    if Lex(value).Some? && |Lex(value).value.suffix| == 2 then IEC else SI
  }

  /**
   A printer that looks only at the value and the family of the text it was given. A text that it
   prints with a unit denotes the value, and is printed the same again.
   */
  ghost predicate Canonical(printer: (nat, Family) -> string) {
    forall n: nat, f {:trigger printer(n, f)} ::
      0 < n <= MaxInt64 && ByteSyntax(printer(n, f)) ==>
        && Parse(printer(n, f), Bytes) == Some(n)
        && printer(n, FamilyOf(printer(n, f))) == printer(n, f)
  }

  /** normalizeBytes with such a printer. */
  function Normal(printer: (nat, Family) -> string, value: string): Option<string> {
    match Parse(value, Bytes)
    case None => None
    case Some(n) => NormalizeBytes(value, printer(n, FamilyOf(value)))
  }

  lemma NormalForm(printer: (nat, Family) -> string, value: string, n: nat)
    requires Canonical(printer) && Parse(value, Bytes) == Some(n)
    ensures var text := printer(n, FamilyOf(value));
            && Normal(printer, value) == Some(if ByteSyntax(text) then text else PrintKilobytes(n))
            && Parse(Normal(printer, value).value, Bytes) == Some(n)
  {
    PrintKilobytesKeepsValue(n);
    hide Parse, ByteSyntax, PrintKilobytes, FamilyOf;
  }

  /**
   Normalising is idempotent exactly when the value is printed with a unit in the family of the text,
   or printed in the SI family it gets no unit either, or just the kilobytes.
   */
  lemma NormalIdempotentExactly(printer: (nat, Family) -> string, value: string, n: nat)
    requires Canonical(printer) && Parse(value, Bytes) == Some(n)
    ensures Normal(printer, Normal(printer, value).value) == Normal(printer, value) <==>
              || ByteSyntax(printer(n, FamilyOf(value)))
              || !ByteSyntax(printer(n, SI)) || printer(n, SI) == PrintKilobytes(n)
  {
    NormalForm(printer, value, n);
    NormalForm(printer, Normal(printer, value).value, n);
    PrintKilobytesKeepsValue(n);
    hide Parse, ByteSyntax, PrintKilobytes, FamilyOf, Normal;
  }

  /** So it is idempotent on every text with an SI unit. */
  lemma NormalIdempotentOnSI(printer: (nat, Family) -> string, value: string)
    requires Canonical(printer) && FamilyOf(value) == SI
    ensures Parse(value, Bytes).Some? ==> Normal(printer, Normal(printer, value).value) == Normal(printer, value)
  {
    if Parse(value, Bytes).Some? {
      NormalIdempotentExactly(printer, value, Parse(value, Bytes).value);
      hide Parse, ByteSyntax, PrintKilobytes, FamilyOf, Normal;
    }
  }

  /** On any text, a second pass reaches a form that further passes keep. */
  lemma NormalSettles(printer: (nat, Family) -> string, value: string)
    requires Canonical(printer) && Parse(value, Bytes).Some?
    ensures var twice := Normal(printer, Normal(printer, value).value);
            twice.Some? && Normal(printer, twice.value) == twice
  {
    var n := Parse(value, Bytes).value;
    NormalForm(printer, value, n);
    var once := Normal(printer, value).value;
    NormalForm(printer, once, n);
    var twice := Normal(printer, once).value;
    NormalForm(printer, twice, n);
    PrintKilobytesKeepsValue(n);
    hide Parse, ByteSyntax, PrintKilobytes, FamilyOf, Normal;
  }

  // ---------------------------------------------------------------- the printer of largest powers

  /** How often `base` divides `n`, but at most `most` times. */
  function Times(n: nat, base: nat, most: nat): (k: nat)
    requires base >= 2
    ensures k <= most
  {
    if most == 0 || n % base != 0 then 0 else 1 + Times(n / base, base, most - 1)
  }

  /** What is left of `n` then. */
  function Rest(n: nat, base: nat, most: nat): nat
    requires base >= 2
  {
    if most == 0 || n % base != 0 then n else Rest(n / base, base, most - 1)
  }

  lemma {:induction false} RestTimesPower(n: nat, base: nat, most: nat)
    requires base >= 2
    ensures Rest(n, base, most) * Pow(base, Times(n, base, most)) == n
  {
    if most > 0 && n % base == 0 {
      RestTimesPower(n / base, base, most - 1);
      Regroup(Rest(n, base, most), base, Pow(base, Times(n / base, base, most - 1)), n);
    } else {
      assert Pow(base, 0) == 1;
    }
  }

  lemma Regroup(m: nat, base: nat, power: nat, n: nat)
    requires base > 0 && n % base == 0 && m * power == n / base
    ensures m * (base * power) == n
  {
    hide *;
    assert m * (base * power) == base * (m * power);
  }

  function Units(f: Family): seq<string> {
    if f == SI then SIUnits else IECUnits
  }

  function BaseOf(f: Family): nat {
    if f == SI then 1000 else 1024
  }

  /** The value in the largest unit of the family that divides it, or without a unit if none does. */
  function InLargestUnit(n: nat, f: Family): string {
    var k := Times(n, BaseOf(f), 6);
    Decimal(Rest(n, BaseOf(f), 6)) + if k == 0 then "" else Units(f)[k - 1]
  }

  /** Values below one kibibyte are printed in the SI family. */
  function Printed(n: nat, f: Family): string {
    InLargestUnit(n, if n < 1024 then SI else f)
  }

  lemma UnitMeans(f: Family, k: nat)
    requires 1 <= k <= 6
    ensures Multiplier(Units(f)[k - 1], Bytes) == Some(Pow(BaseOf(f), k))
    ensures var u := Units(f)[k - 1];
            u != "" && !IsDigit(u[0]) && u[0] != '.' && |u| <= 2 && (|u| == 2 <==> f == IEC)
  {
    hide Pow, Position;
    assert Position(Units(f), Units(f)[k - 1]) == k - 1;
  }

  lemma NoUnit()
    ensures Multiplier("", Bytes) == None
  {
  }

  lemma InLargestUnitDenotes(n: nat, f: Family)
    requires 0 < n <= MaxInt64
    ensures ByteSyntax(InLargestUnit(n, f)) <==> n % BaseOf(f) == 0
    ensures n % BaseOf(f) == 0 ==> Parse(InLargestUnit(n, f), Bytes) == Some(n) && FamilyOf(InLargestUnit(n, f)) == f
  {
    hide Lex, Multiplier, Exact, Parse, DigitsValue, Pow, AllDigits;
    var k, m := Times(n, BaseOf(f), 6), Rest(n, BaseOf(f), 6);
    assert k == 0 <==> n % BaseOf(f) != 0;
    if k == 0 {
      LexPlain(Decimal(m), "");
      NoUnit();
    } else {
      UnitMeans(f, k);
      LexPlain(Decimal(m), Units(f)[k - 1]);
      WithUnitDenotes(n, f, k, m);
      ParseExactly(InLargestUnit(n, f), Bytes, n);
    }
  }

  lemma FactorSmall(m: nat, power: nat)
    requires power > 0
    ensures m <= m * power
  {
    hide *;
  }

  lemma WithUnitDenotes(n: nat, f: Family, k: nat, m: nat)
    requires 0 < n <= MaxInt64 && 1 <= k <= 6
    requires k == Times(n, BaseOf(f), 6) && m == Rest(n, BaseOf(f), 6)
    ensures Denotes(Decimal(m) + Units(f)[k - 1], Bytes, n)
  {
    assert Pow(10, 0) == 1;
    hide Lex, Multiplier, DigitsValue, Pow, AllDigits, Decimal, Times, Rest;
    UnitMeans(f, k);
    RestTimesPower(n, BaseOf(f), 6);
    PowPositive(BaseOf(f), k);
    FactorSmall(m, Pow(BaseOf(f), k));
    ShortDecimal(m);
    LexPlain(Decimal(m), Units(f)[k - 1]);
    assert Decimal(m) + "" == Decimal(m);
  }

  lemma PrintedIsCanonical()
    ensures Canonical(Printed)
  {
    forall n: nat, f | 0 < n <= MaxInt64 && ByteSyntax(Printed(n, f))
      ensures Parse(Printed(n, f), Bytes) == Some(n)
      ensures Printed(n, FamilyOf(Printed(n, f))) == Printed(n, f)
    {
      hide InLargestUnit, Parse, FamilyOf, ByteSyntax;
      InLargestUnitDenotes(n, if n < 1024 then SI else f);
    }
  }

  /** In kilobytes, the largest unit and the kilobyte text agree exactly when no larger unit divides the value. */
  lemma KilobytesAreLargest(n: nat)
    requires 0 < n <= MaxInt64 && n % 1000 == 0
    ensures InLargestUnit(n, SI) == PrintKilobytes(n) <==> n % 1_000_000 != 0
  {
    WholeKilobytes(n);
    var k := Times(n, 1000, 6);
    assert k == 1 + Times(n / 1000, 1000, 5) && Rest(n, 1000, 6) == Rest(n / 1000, 1000, 5);
    assert k == 1 <==> (n / 1000) % 1000 != 0;
    ThousandTwice(n);
    UnitMeans(SI, k);
    var text := InLargestUnit(n, SI);
    assert text[|text| - 1] == SIUnits[k - 1][0];
    assert PrintKilobytes(n)[|PrintKilobytes(n)| - 1] == 'k';
    if k > 1 {
      assert SIUnits[k - 1] != "k";
    }
  }

  lemma ThousandTwice(n: nat)
    ensures n % 1000 == 0 && (n / 1000) % 1000 == 0 <==> n % 1_000_000 == 0
  {
    hide *;
  }

  lemma WholeKilobytes(n: nat)
    requires n % 1000 == 0
    ensures PrintKilobytes(n) == Decimal(n / 1000) + "k"
  {
    KilobytesText(n);
    assert Pad3(0) == "000" && "000"[..2] == "00" && "00"[..1] == "0" && "0"[..0] == "";
    assert TrimRight("0", '0') == "" && TrimRight("00", '0') == "";
    assert TrimRight("000", '0') == "";
  }

  /**
   With that printer normalising is idempotent exactly on texts in SI units, on values below one kibibyte,
   on multiples of 1024 and on values that are no multiple of a million.
   */
  lemma LargestUnitIdempotentExactly(value: string, n: nat)
    requires Parse(value, Bytes) == Some(n)
    ensures Normal(Printed, Normal(Printed, value).value) == Normal(Printed, value) <==>
              FamilyOf(value) == SI || n < 1024 || n % 1024 == 0 || n % 1_000_000 != 0
  {
    PrintedIsCanonical();
    NormalIdempotentExactly(Printed, value, n);
    InLargestUnitDenotes(n, SI);
    InLargestUnitDenotes(n, FamilyOf(value));
    ThousandTwice(n);
    if n % 1000 == 0 {
      KilobytesAreLargest(n);
    }
    hide Parse, ByteSyntax, InLargestUnit, PrintKilobytes, FamilyOf, Normal;
  }

  /** A text on which it is not: a million bytes written in kibibytes become kilobytes, and then a megabyte. */
  lemma KibibytesExample()
    ensures Parse("976.5625Ki", Bytes) == Some(1_000_000)
    ensures Normal(Printed, "976.5625Ki") == Some("1000k") && Normal(Printed, "1000k") == Some("1M")
  {
    hide Parse, ByteSyntax, InLargestUnit, PrintKilobytes, Normal, Canonical, FamilyOf;
    ExampleParses();
    PrintedIsCanonical();
    WholeKilobytes(1_000_000);
    ExamplePrints();
    PrintKilobytesKeepsValue(1_000_000);
    InLargestUnitDenotes(1_000_000, SI);
    InLargestUnitDenotes(1_000_000, IEC);
    NormalForm(Printed, "976.5625Ki", 1_000_000);
    NormalForm(Printed, "1000k", 1_000_000);
  }

  lemma ExamplePrints()
    ensures Decimal(1000) + "k" == "1000k" && InLargestUnit(1_000_000, SI) == "1M"
  {
    assert Decimal(1) == "1" && Decimal(10) == "10" && Decimal(100) == "100" && Decimal(1000) == "1000";
    assert Times(1, 1000, 4) == 0 && Times(1000, 1000, 5) == 1 && Times(1_000_000, 1000, 6) == 2;
    assert Rest(1, 1000, 4) == 1 && Rest(1000, 1000, 5) == 1 && Rest(1_000_000, 1000, 6) == 1;
  }

  lemma ExampleParses()
    ensures Parse("976.5625Ki", Bytes) == Some(1_000_000) && FamilyOf("976.5625Ki") == IEC
  {
    hide Lex, Multiplier, Exact, DigitsValue, Pow, Parse;
    LexPoint("976", "5625", "Ki");
    assert "976" + "." + "5625" + "Ki" == "976.5625Ki";
    UnitMeans(IEC, 1);
    ExampleDigits();
    ExamplePowers();
    ParseExactly("976.5625Ki", Bytes, 1_000_000);
  }

  lemma DigitSnoc(front: string, c: char)
    requires AllDigits(front) && IsDigit(c)
    ensures AllDigits(front + [c]) && DigitsValue(front + [c]) == 10 * DigitsValue(front) + (c - '0') as nat
  {
    assert (front + [c])[..|front|] == front;
  }

  lemma ExamplePowers()
    ensures Pow(10, 4) == 10_000 && Pow(1024, 1) == 1024
  {
    assert Pow(10, 0) == 1 && Pow(10, 1) == 10 && Pow(10, 2) == 100 && Pow(10, 3) == 1000 && Pow(1024, 0) == 1;
  }

  lemma ExampleDigits()
    ensures AllDigits("976" + "5625") && DigitsValue("976" + "5625") == 9_765_625
  {
    assert AllDigits("") && DigitsValue("") == 0;
    hide DigitsValue, AllDigits;
    FourDigits("", '9', '7', '6', '5');
    assert "" + ['9', '7', '6', '5'] == "9765";
    DigitSnoc("9765", '6');
    DigitSnoc("9765" + ['6'], '2');
    DigitSnoc("9765" + ['6'] + ['2'], '5');
    assert "9765" + ['6'] + ['2'] + ['5'] == "976" + "5625";
  }

  lemma FourDigits(front: string, a: char, b: char, c: char, d: char)
    requires AllDigits(front) && DigitsValue(front) == 0 && IsDigit(a) && IsDigit(b) && IsDigit(c) && IsDigit(d)
    ensures AllDigits(front + [a, b, c, d])
    ensures DigitsValue(front + [a, b, c, d]) ==
            1000 * (a - '0') as nat + 100 * (b - '0') as nat + 10 * (c - '0') as nat + (d - '0') as nat
  {
    hide DigitsValue, AllDigits;
    DigitSnoc(front, a);
    DigitSnoc(front + [a], b);
    DigitSnoc(front + [a] + [b], c);
    DigitSnoc(front + [a] + [b] + [c], d);
    assert front + [a] + [b] + [c] + [d] == front + [a, b, c, d];
  }
}
