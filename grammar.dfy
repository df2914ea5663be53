/**
 * The operation grammar of solver.js: `parse_single_operation` tries an ordered
 * table of recognisers on the trimmed line and compiles the first match into a
 * button; `parse_operations` does this for every non-blank line of a text block.
 * Each recogniser below decides one regular expression of that table and reads
 * out its captured groups.
 */
module Grammar {
  import opened Wrappers
  import opened Text
  import opened Operations

  /** A compiled button (`CalculatorButton`): its trimmed text, which labels the
      edges it produces, its category name, and its transform. */
  datatype Button = Button(text: string, kind: string, op: Op)

  /** One row of the pattern table. */
  datatype Rule = Rule(kind: string, recognise: string -> Option<Op>)

  /** `[0-9]+` */
  predicate IsNumber(s: string) { s != [] && IsDigits(s) }

  /** `^([-+])\s*([0-9]+)$` */
  function MatchAddSub(s: string): Option<Op>
  {
    if s != [] && (s[0] == '+' || s[0] == '-') && IsNumber(TrimStart(s[1..])) then
      var n: int := Value(TrimStart(s[1..]));
      Some(AddSub(if s[0] == '-' then -n else n))
    else None
  }

  /** `^([xX*\/])\s*([-+]?)\s*([0-9]+)$` */
  function MatchMulDiv(s: string): Option<Op>
  {
    if s != [] && (s[0] == 'x' || s[0] == 'X' || s[0] == '*' || s[0] == '/') then
      var r := TrimStart(s[1..]);
      var signed := r != [] && (r[0] == '+' || r[0] == '-');
      var d := if signed then TrimStart(r[1..]) else r;
      if IsNumber(d) then
        var n: int := Value(d);
        Some(MulDiv(s[0] == '/', if signed && r[0] == '-' then -n else n))
      else None
    else None
  }

  /** `^([0-9]+)$` */
  function MatchAppend(s: string): Option<Op>
  {
    if IsNumber(s) then Some(Append(s)) else None
  }

  /** `^(<<?)$` */
  function MatchBackspace(s: string): Option<Op>
  {
    if s == "<" || s == "<<" then Some(Backspace) else None
  }

  /** `^([0-9]+)\s*=>\s*([0-9]+)$` */
  function MatchReplace(s: string): Option<Op>
  {
    var p := DigitPrefix(s);
    var r := TrimStart(s[p..]);
    if p > 0 && |r| >= 2 && r[0] == '=' && r[1] == '>' && IsNumber(TrimStart(r[2..])) then
      Some(Replace(s[..p], TrimStart(r[2..])))
    else None
  }

  /** The optional `x` in front of a power, then the white space after it (`^x?\s*`). */
  function AfterTimes(s: string): string
  {
    TrimStart(if s != [] && s[0] == 'x' then s[1..] else s)
  }

  /** `^x?\s*(\^|\*\*)\s*([0-9])$` */
  function MatchPower(s: string): Option<Op>
  {
    var r := AfterTimes(s);
    var e :=
      if r != [] && r[0] == '^' then Some(TrimStart(r[1..]))
      else if |r| >= 2 && r[0] == '*' && r[1] == '*' then Some(TrimStart(r[2..]))
      else None;
    if e.Some? && |e.value| == 1 && IsDigit(e.value[0]) then Some(Power(DigitValue(e.value[0])))
    else None
  }

  /** The exponent a superscript digit glyph stands for. */
  function SuperscriptValue(c: char): Option<nat>
  {
    if c == '\U{00B2}' then Some(2)
    else if c == '\U{00B3}' then Some(3)
    else if '\U{2074}' <= c <= '\U{2079}' then Some(c as int - 0x2074 + 4)
    else None
  }

  /** `^x?\s*([²³⁴⁵⁶⁷⁸⁹])$` */
  function MatchSuperscript(s: string): Option<Op>
  {
    var r := AfterTimes(s);
    if |r| == 1 && SuperscriptValue(r[0]).Some? then Some(Power(SuperscriptValue(r[0]).value))
    else None
  }

  /** `first \s* \/? \s* last`, one alternative of the sign-flip pattern. */
  predicate SlashPair(s: string, first: char, last: char)
  {
    s != [] && s[0] == first &&
    var r := TrimStart(s[1..]);
    var r' := if r != [] && r[0] == '/' then TrimStart(r[1..]) else r;
    r' == [last]
  }

  /** `^(\+\s*\/?\s*-|-\s*\/?\s*\+|±|∓)$` */
  function MatchSignFlip(s: string): Option<Op>
  {
    if SlashPair(s, '+', '-') || SlashPair(s, '-', '+') || s == "\U{00B1}" || s == "\U{2213}" then
      Some(Negate)
    else None
  }

  /** ASCII case folding, for a pattern with the `i` flag: every upper-case letter
      becomes its lower-case letter, every other character stays. */
  function LowerAscii(s: string): (r: string)
    ensures |r| == |s|
    ensures forall i :: 0 <= i < |s| && 'A' <= s[i] <= 'Z' ==> 'a' <= r[i] <= 'z' && r[i] as int - s[i] as int == 32
    ensures forall i :: 0 <= i < |s| && !('A' <= s[i] <= 'Z') ==> r[i] == s[i]
  {
    if s == [] then []
    else [if 'A' <= s[0] <= 'Z' then (s[0] as int + 32) as char else s[0]] + LowerAscii(s[1..])
  }

  /** `^(r|re|rev|reverse)$` ignoring case. */
  function MatchReverse(s: string): Option<Op>
  {
    var l := LowerAscii(s);
    if l == "r" || l == "re" || l == "rev" || l == "reverse" then Some(Reverse) else None
  }

  /** The pattern table, in the order it is tried. */
  function Rules(): seq<Rule>
  {
    [ Rule("addsub", MatchAddSub),
      Rule("muldiv", MatchMulDiv),
      Rule("append", MatchAppend),
      Rule("backspace", MatchBackspace),
      Rule("replace", MatchReplace),
      Rule("power", MatchPower),
      Rule("power", MatchSuperscript),
      Rule("signal", MatchSignFlip),
      Rule("reverse", MatchReverse) ]
  }

  /** The first rule that recognises `s` compiles it, labelled with `s`. */
  function FirstMatch(rules: seq<Rule>, s: string): Option<Button>
  {
    if rules == [] then None
    else match rules[0].recognise(s)
      case Some(op) => Some(Button(s, rules[0].kind, op))
      case None => FirstMatch(rules[1..], s)
  }

  /** `parse_single_operation`: None where the source reports an unrecognised operation. */
  function ParseSingle(str: string): Option<Button>
  {
    FirstMatch(Rules(), Trim(str))
  }

  // ---------------------------------------------------------------- first match wins

  /** The table is tried in order: a line compiles with a rule exactly when that rule
      recognises it and no earlier rule does, and it is unrecognised exactly when no
      rule recognises it. */
  lemma {:induction false} FirstMatchIsFirst(rules: seq<Rule>, s: string)
    ensures FirstMatch(rules, s).None? <==> forall i :: 0 <= i < |rules| ==> rules[i].recognise(s).None?
    ensures forall i :: 0 <= i < |rules| && rules[i].recognise(s).Some? &&
                        (forall j :: 0 <= j < i ==> rules[j].recognise(s).None?)
                        ==> FirstMatch(rules, s) == Some(Button(s, rules[i].kind, rules[i].recognise(s).value))
  {
    if rules != [] {
      FirstMatchIsFirst(rules[1..], s);
      if rules[0].recognise(s).None? {
        forall i | 0 < i < |rules| ensures rules[i] == rules[1..][i - 1] { }
      }
    }
  }

  /** `parse_single_operation` trims first: a line and its trimmed form compile alike,
      and a compiled button is labelled with the trimmed text. */
  lemma ParseSingleTrims(str: string)
    ensures ParseSingle(str) == ParseSingle(Trim(str))
    ensures ParseSingle(str).Some? ==> ParseSingle(str).value.text == Trim(str)
  {
    TrimIdempotent(str);
    FirstMatchAt(Rules(), Trim(str));
  }

  lemma {:induction false} FirstMatchAt(rules: seq<Rule>, s: string)
    ensures FirstMatch(rules, s).Some? ==> FirstMatch(rules, s).value.text == s
  {
    if rules != [] {
      FirstMatchAt(rules[1..], s);
    }
  }

  /** The table written out as a cascade of tests, in the same order. */
  function Cascade(s: string): Option<Button>
  {
    if MatchAddSub(s).Some? then Some(Button(s, "addsub", MatchAddSub(s).value))
    else if MatchMulDiv(s).Some? then Some(Button(s, "muldiv", MatchMulDiv(s).value))
    else if MatchAppend(s).Some? then Some(Button(s, "append", MatchAppend(s).value))
    else if MatchBackspace(s).Some? then Some(Button(s, "backspace", MatchBackspace(s).value))
    else if MatchReplace(s).Some? then Some(Button(s, "replace", MatchReplace(s).value))
    else if MatchPower(s).Some? then Some(Button(s, "power", MatchPower(s).value))
    else if MatchSuperscript(s).Some? then Some(Button(s, "power", MatchSuperscript(s).value))
    else if MatchSignFlip(s).Some? then Some(Button(s, "signal", MatchSignFlip(s).value))
    else if MatchReverse(s).Some? then Some(Button(s, "reverse", MatchReverse(s).value))
    else None
  }

  lemma TableFrom0(s: string)
    ensures FirstMatch(Rules()[0..], s) ==
      (if MatchAddSub(s).Some? then Some(Button(s, "addsub", MatchAddSub(s).value)) else (if MatchMulDiv(s).Some? then Some(Button(s, "muldiv", MatchMulDiv(s).value)) else (if MatchAppend(s).Some? then Some(Button(s, "append", MatchAppend(s).value)) else FirstMatch(Rules()[3..], s))))
  {
    var t0 := Rules()[0..];
    var t1 := t0[1..];
    assert t0[0] == Rule("addsub", MatchAddSub);
    assert FirstMatch(t0, s) == if MatchAddSub(s).Some? then Some(Button(s, "addsub", MatchAddSub(s).value)) else FirstMatch(t1, s);
    var t2 := t1[1..];
    assert t1[0] == Rule("muldiv", MatchMulDiv);
    assert FirstMatch(t1, s) == if MatchMulDiv(s).Some? then Some(Button(s, "muldiv", MatchMulDiv(s).value)) else FirstMatch(t2, s);
    var t3 := t2[1..];
    assert t2[0] == Rule("append", MatchAppend);
    assert FirstMatch(t2, s) == if MatchAppend(s).Some? then Some(Button(s, "append", MatchAppend(s).value)) else FirstMatch(t3, s);
    assert t3 == Rules()[3..];
  }

  lemma TableFrom3(s: string)
    ensures FirstMatch(Rules()[3..], s) ==
      (if MatchBackspace(s).Some? then Some(Button(s, "backspace", MatchBackspace(s).value)) else (if MatchReplace(s).Some? then Some(Button(s, "replace", MatchReplace(s).value)) else (if MatchPower(s).Some? then Some(Button(s, "power", MatchPower(s).value)) else FirstMatch(Rules()[6..], s))))
  {
    var t3 := Rules()[3..];
    var t4 := t3[1..];
    assert t3[0] == Rule("backspace", MatchBackspace);
    assert FirstMatch(t3, s) == if MatchBackspace(s).Some? then Some(Button(s, "backspace", MatchBackspace(s).value)) else FirstMatch(t4, s);
    var t5 := t4[1..];
    assert t4[0] == Rule("replace", MatchReplace);
    assert FirstMatch(t4, s) == if MatchReplace(s).Some? then Some(Button(s, "replace", MatchReplace(s).value)) else FirstMatch(t5, s);
    var t6 := t5[1..];
    assert t5[0] == Rule("power", MatchPower);
    assert FirstMatch(t5, s) == if MatchPower(s).Some? then Some(Button(s, "power", MatchPower(s).value)) else FirstMatch(t6, s);
    assert t6 == Rules()[6..];
  }

  lemma TableFrom6(s: string)
    ensures FirstMatch(Rules()[6..], s) ==
      (if MatchSuperscript(s).Some? then Some(Button(s, "power", MatchSuperscript(s).value)) else (if MatchSignFlip(s).Some? then Some(Button(s, "signal", MatchSignFlip(s).value)) else (if MatchReverse(s).Some? then Some(Button(s, "reverse", MatchReverse(s).value)) else None)))
  {
    var t6 := Rules()[6..];
    var t7 := t6[1..];
    assert t6[0] == Rule("power", MatchSuperscript);
    assert FirstMatch(t6, s) == if MatchSuperscript(s).Some? then Some(Button(s, "power", MatchSuperscript(s).value)) else FirstMatch(t7, s);
    var t8 := t7[1..];
    assert t7[0] == Rule("signal", MatchSignFlip);
    assert FirstMatch(t7, s) == if MatchSignFlip(s).Some? then Some(Button(s, "signal", MatchSignFlip(s).value)) else FirstMatch(t8, s);
    var t9 := t8[1..];
    assert t8[0] == Rule("reverse", MatchReverse);
    assert FirstMatch(t8, s) == if MatchReverse(s).Some? then Some(Button(s, "reverse", MatchReverse(s).value)) else FirstMatch(t9, s);
    assert t9 == [];
  }

  lemma TableIsCascade(s: string)
    ensures FirstMatch(Rules(), s) == Cascade(s)
  {
    assert Rules()[0..] == Rules();
    TableFrom0(s);
    TableFrom3(s);
    TableFrom6(s);
  }

  // ---------------------------------------------------------------- printing, and reading back

  /** The operations the grammar can produce. */
  predicate WellFormed(op: Op)
  {
    match op
    case Append(d) => IsNumber(d)
    case Replace(f, t) => IsNumber(f) && IsNumber(t)
    case Power(k) => k <= 9
    case _ => true
  }

  /** The category name `parse_single_operation` gives each kind of operation. */
  function Kind(op: Op): string
  {
    match op
    case AddSub(_) => "addsub"
    case MulDiv(_, _) => "muldiv"
    case Append(_) => "append"
    case Backspace => "backspace"
    case Replace(_, _) => "replace"
    case Power(_) => "power"
    case Negate => "signal"
    case Reverse => "reverse"
  }

  /** A canonical notation for each operation. */
  function Render(op: Op): string
    requires WellFormed(op)
  {
    match op
    case AddSub(n) => [if n < 0 then '-' else '+'] + NatText(Abs(n))
    case MulDiv(isDiv, n) => [if isDiv then '/' else 'x'] + IntText(n)
    case Append(d) => d
    case Backspace => "<"
    case Replace(f, t) => f + "=>" + t
    case Power(k) => "^" + [DigitChar(k)]
    case Negate => "+/-"
    case Reverse => "r"
  }

  /** A line that needs no trimming goes straight through the table. */
  lemma ParseTrimmed(s: string)
    requires s == [] || (!IsSpace(s[0]) && !IsSpace(s[|s| - 1]))
    ensures ParseSingle(s) == Cascade(s)
  {
    TrimOfSpaceFree(s);
    TableIsCascade(s);
  }

  lemma ParsedAsAddSub(s: string, op: Op)
    requires s != [] && !IsSpace(s[0]) && !IsSpace(s[|s| - 1])
    requires MatchAddSub(s) == Some(op)
    ensures ParseSingle(s) == Some(Button(s, "addsub", op))
  {
    ParseTrimmed(s);
  }

  lemma ParsedAsMulDiv(s: string, op: Op)
    requires s != [] && !IsSpace(s[0]) && !IsSpace(s[|s| - 1])
    requires MatchAddSub(s) == None && MatchMulDiv(s) == Some(op)
    ensures ParseSingle(s) == Some(Button(s, "muldiv", op))
  {
    ParseTrimmed(s);
  }

  lemma ParsedAsReverse(s: string)
    requires s != [] && !IsSpace(s[0]) && !IsSpace(s[|s| - 1])
    requires MatchAddSub(s) == None && MatchMulDiv(s) == None && MatchAppend(s) == None
    requires MatchBackspace(s) == None && MatchReplace(s) == None && MatchPower(s) == None
    requires MatchSuperscript(s) == None && MatchSignFlip(s) == None && MatchReverse(s) == Some(Reverse)
    ensures ParseSingle(s) == Some(Button(s, "reverse", Reverse))
  {
    ParseTrimmed(s);
  }

  /** A line that starts with neither a digit nor an arithmetic sign matches none of
      the rules that read numbers. */
  lemma NoNumberRules(s: string)
    requires s != [] && s[0] !in "+-xX*/" && !IsDigit(s[0])
    ensures MatchAddSub(s) == None && MatchMulDiv(s) == None
    ensures MatchAppend(s) == None && MatchReplace(s) == None
  {
    NotArithmetic(s);
    assert DigitPrefix(s) == 0;
  }

  lemma ParsedAsBackspace(s: string, op: Op)
    requires s != [] && !IsSpace(s[0]) && !IsSpace(s[|s| - 1])
    requires MatchAddSub(s) == None && MatchMulDiv(s) == None && MatchAppend(s) == None
    requires MatchBackspace(s) == Some(op)
    ensures ParseSingle(s) == Some(Button(s, "backspace", op))
  {
    ParseTrimmed(s);
  }

  lemma ParsedAsSuperscript(s: string, op: Op)
    requires s != [] && !IsSpace(s[0]) && !IsSpace(s[|s| - 1])
    requires MatchAddSub(s) == None && MatchMulDiv(s) == None && MatchAppend(s) == None
    requires MatchBackspace(s) == None && MatchReplace(s) == None && MatchPower(s) == None
    requires MatchSuperscript(s) == Some(op)
    ensures ParseSingle(s) == Some(Button(s, "power", op))
  {
    ParseTrimmed(s);
  }

  lemma ParsedAsSignal(s: string, op: Op)
    requires s != [] && !IsSpace(s[0]) && !IsSpace(s[|s| - 1])
    requires MatchAddSub(s) == None && MatchMulDiv(s) == None && MatchAppend(s) == None
    requires MatchBackspace(s) == None && MatchReplace(s) == None && MatchPower(s) == None
    requires MatchSuperscript(s) == None && MatchSignFlip(s) == Some(op)
    ensures ParseSingle(s) == Some(Button(s, "signal", op))
  {
    ParseTrimmed(s);
  }

  lemma TrimStartDigits(d: string)
    requires IsNumber(d)
    ensures TrimStart(d) == d
  {
    TrimStartOfSpaceFree(d);
  }

  /** Neither a sign nor a multiplication sign in front: the first two rules decline. */
  lemma NotArithmetic(s: string)
    requires s != [] && s[0] !in "+-xX*/"
    ensures MatchAddSub(s) == None && MatchMulDiv(s) == None
  {
  }

  lemma AddSubReads(sign: char, d: string)
    requires sign == '+' || sign == '-'
    requires IsNumber(d)
    ensures MatchAddSub([sign] + d) == Some(AddSub(if sign == '-' then -(Value(d) as int) else Value(d)))
  {
    assert ([sign] + d)[1..] == d;
    TrimStartDigits(d);
  }

  /** A sign followed by digits compiles as an add/subtract button. */
  lemma SignedNumberParses(sign: char, d: string)
    requires sign == '+' || sign == '-'
    requires IsNumber(d)
    ensures var op := AddSub(if sign == '-' then -(Value(d) as int) else Value(d));
      ParseSingle([sign] + d) == Some(Button([sign] + d, "addsub", op))
  {
    var s := [sign] + d;
    AddSubReads(sign, d);
    assert s[|s| - 1] == d[|d| - 1];
    ParsedAsAddSub(s, AddSub(if sign == '-' then -(Value(d) as int) else Value(d)));
  }

  lemma RenderAddSub(n: int)
    ensures ParseSingle(Render(AddSub(n))) == Some(Button(Render(AddSub(n)), "addsub", AddSub(n)))
  {
    var sign := if n < 0 then '-' else '+';
    var d := NatText(Abs(n));
    assert Render(AddSub(n)) == [sign] + d;
    SignedNumberParses(sign, d);
  }

  lemma MulDivReads(c: char, n: int)
    requires c in "xX*/"
    ensures MatchAddSub([c] + IntText(n)) == None
    ensures MatchMulDiv([c] + IntText(n)) == Some(MulDiv(c == '/', n))
  {
    var s := [c] + IntText(n);
    var d := NatText(Abs(n));
    TrimStartDigits(d);
    assert s[1..] == IntText(n);
    if n < 0 {
      TrimStartOfSpaceFree("-" + d);
      assert ("-" + d)[1..] == d;
    }
  }

  lemma RenderMulDiv(isDiv: bool, n: int)
    ensures ParseSingle(Render(MulDiv(isDiv, n))) == Some(Button(Render(MulDiv(isDiv, n)), "muldiv", MulDiv(isDiv, n)))
  {
    var s := Render(MulDiv(isDiv, n));
    var d := NatText(Abs(n));
    MulDivReads(s[0], n);
    assert s[|s| - 1] == d[|d| - 1];
    ParsedAsMulDiv(s, MulDiv(isDiv, n));
  }

  lemma RenderAppend(d: string)
    requires IsNumber(d)
    ensures ParseSingle(Render(Append(d))) == Some(Button(d, "append", Append(d)))
  {
    assert IsDigit(d[0]) && IsDigit(d[|d| - 1]);
    NotArithmetic(d);
    ParseTrimmed(d);
  }

  lemma RenderBackspace()
    ensures ParseSingle(Render(Backspace)) == Some(Button("<", "backspace", Backspace))
  {
    assert Render(Backspace) == "<";
    NoNumberRules("<");
    ParsedAsBackspace("<", Backspace);
  }

  lemma DigitPrefixBefore(f: string, rest: string)
    requires IsNumber(f) && rest != [] && !IsDigit(rest[0])
    ensures DigitPrefix(f + rest) == |f|
  {
    if |f| > 1 {
      DigitPrefixBefore(f[1..], rest);
      assert (f + rest)[1..] == f[1..] + rest;
    } else {
      assert (f + rest)[1..] == rest;
    }
  }

  lemma ReplaceReads(f: string, t: string)
    requires IsNumber(f) && IsNumber(t)
    ensures MatchReplace(f + "=>" + t) == Some(Replace(f, t))
  {
    var s := f + "=>" + t;
    var r := "=>" + t;
    assert s == f + r;
    DigitPrefixBefore(f, r);
    assert s[..|f|] == f && s[|f|..] == r;
    TrimStartOfSpaceFree(r);
    assert r[2..] == t;
    TrimStartDigits(t);
  }

  lemma RenderReplace(f: string, t: string)
    requires IsNumber(f) && IsNumber(t)
    ensures ParseSingle(Render(Replace(f, t))) == Some(Button(f + "=>" + t, "replace", Replace(f, t)))
  {
    var s := f + "=>" + t;
    assert s != [] && !IsSpace(s[0]) && !IsSpace(s[|s| - 1]) by {
      assert s[0] == f[0] && IsDigit(f[0]);
      assert s[|s| - 1] == t[|t| - 1] && IsDigit(t[|t| - 1]);
    }
    assert MatchAddSub(s) == None && MatchMulDiv(s) == None by {
      assert s[0] == f[0] && IsDigit(f[0]);
      NotArithmetic(s);
    }
    assert MatchAppend(s) == None && MatchBackspace(s) == None by {
      assert s[0] == f[0] && IsDigit(f[0]);
      assert !IsDigit(s[|f|]);
    }
    assert MatchReplace(s) == Some(Replace(f, t)) by {
      ReplaceReads(f, t);
    }
    ParseTrimmed(s);
  }

  lemma RenderPower(k: nat)
    requires k <= 9
    ensures ParseSingle(Render(Power(k))) == Some(Button(Render(Power(k)), "power", Power(k)))
  {
    var c := DigitChar(k);
    var s := "^" + [c];
    NotArithmetic(s);
    assert MatchAppend(s) == None by {
      assert !IsDigit(s[0]);
    }
    assert MatchReplace(s) == None by {
      assert DigitPrefix(s) == 0;
    }
    TrimStartOfSpaceFree(s);
    assert s[1..] == [c];
    TrimStartOfSpaceFree([c]);
    assert MatchPower(s) == Some(Power(k));
    ParseTrimmed(s);
  }

  lemma NegateWordNotEarlier()
    ensures MatchAddSub("+/-") == None && MatchMulDiv("+/-") == None
    ensures MatchAppend("+/-") == None && MatchBackspace("+/-") == None
    ensures MatchReplace("+/-") == None
  {
    var s := "+/-";
    assert MatchAddSub(s) == None by {
      assert s[1..] == "/-";
      TrimStartOfSpaceFree("/-");
    }
    assert MatchAppend(s) == None by {
      assert !IsDigit(s[0]);
    }
    assert MatchReplace(s) == None by {
      assert DigitPrefix(s) == 0;
    }
  }

  lemma NegateWordIsSignFlip()
    ensures MatchPower("+/-") == None && MatchSuperscript("+/-") == None
    ensures MatchSignFlip("+/-") == Some(Negate)
  {
    var s := "+/-";
    assert MatchPower(s) == None && MatchSuperscript(s) == None by {
      TrimStartOfSpaceFree(s);
    }
    assert SlashPair(s, '+', '-') by {
      assert s[1..] == "/-" && "/-"[1..] == "-";
      TrimStartOfSpaceFree("/-");
      TrimStartOfSpaceFree("-");
    }
  }

  lemma RenderNegate()
    ensures ParseSingle(Render(Negate)) == Some(Button("+/-", "signal", Negate))
  {
    assert Render(Negate) == "+/-";
    NegateWordNotEarlier();
    NegateWordIsSignFlip();
    ParsedAsSignal("+/-", Negate);
  }

  lemma ReverseWordNotPower()
    ensures MatchPower("r") == None && MatchSuperscript("r") == None
  {
    TrimStartOfSpaceFree("r");
  }

  lemma ReverseWordNotSignFlip()
    ensures MatchSignFlip("r") == None
  {
  }

  lemma RenderReverse()
    ensures ParseSingle(Render(Reverse)) == Some(Button("r", "reverse", Reverse))
  {
    assert Render(Reverse) == "r";
    NoNumberRules("r");
    ReverseWordNotPower();
    ReverseWordNotSignFlip();
    assert MatchReverse("r") == Some(Reverse) by {
      assert LowerAscii("r") == "r";
    }
    ParsedAsReverse("r");
  }

  /** Every operation the grammar produces is read back from its canonical notation,
      with that notation as its label and its category name as its kind. */
  lemma ParseRender(op: Op)
    requires WellFormed(op)
    ensures ParseSingle(Render(op)) == Some(Button(Render(op), Kind(op), op))
  {
    match op
    case AddSub(n) => RenderAddSub(n);
    case MulDiv(isDiv, n) => RenderMulDiv(isDiv, n);
    case Append(d) => RenderAppend(d);
    case Backspace => RenderBackspace();
    case Replace(f, t) => RenderReplace(f, t);
    case Power(k) => RenderPower(k);
    case Negate => RenderNegate();
    case Reverse => RenderReverse();
  }

  // ---------------------------------------------------------------- what the table produces

  lemma MatchesWellFormed(s: string)
    ensures MatchAddSub(s).Some? ==> Kind(MatchAddSub(s).value) == "addsub"
    ensures MatchMulDiv(s).Some? ==> Kind(MatchMulDiv(s).value) == "muldiv"
    ensures MatchAppend(s).Some? ==> WellFormed(MatchAppend(s).value) && Kind(MatchAppend(s).value) == "append"
    ensures MatchBackspace(s).Some? ==> Kind(MatchBackspace(s).value) == "backspace"
    ensures MatchReplace(s).Some? ==> WellFormed(MatchReplace(s).value) && Kind(MatchReplace(s).value) == "replace"
    ensures MatchPower(s).Some? ==> WellFormed(MatchPower(s).value) && Kind(MatchPower(s).value) == "power"
    ensures MatchSuperscript(s).Some? ==>
              WellFormed(MatchSuperscript(s).value) && Kind(MatchSuperscript(s).value) == "power"
    ensures MatchSignFlip(s).Some? ==> Kind(MatchSignFlip(s).value) == "signal"
    ensures MatchReverse(s).Some? ==> Kind(MatchReverse(s).value) == "reverse"
  {
    var p := DigitPrefix(s);
    assert IsDigits(s[..p]);
  }

  /** A compiled button carries an operation of the grammar (an exponent is one digit,
      replaced and appended texts are digit strings), tagged with its own category,
      and labelled with the trimmed line, which is never blank. */
  lemma CompiledButtons(str: string)
    ensures ParseSingle(str).Some? ==>
              var b := ParseSingle(str).value;
              WellFormed(b.op) && b.kind == Kind(b.op) && b.text == Trim(str) && b.text != []
  {
    TableIsCascade(Trim(str));
    MatchesWellFormed(Trim(str));
  }

  /** `parse_single_operation` itself: the patterns are tried in order and the first
      that matches the trimmed line builds the button. */
  method ParseSingleOperation(str: string) returns (b: Option<Button>)
    ensures b == ParseSingle(str)
  {
    var s := Trim(str);
    var rules := Rules();
    var i := 0;
    while i < |rules|
      invariant i <= |rules|
      invariant FirstMatch(rules, s) == FirstMatch(rules[i..], s)
    {
      var m := rules[i].recognise(s);
      if m.Some? {
        return Some(Button(s, rules[i].kind, m.value));
      }
      assert rules[i..][1..] == rules[i + 1..];
      i := i + 1;
    }
    return None;
  }

  // ---------------------------------------------------------------- parse_operations

  predicate IsBreak(c: char) { c == '\r' || c == '\n' }

  /** Index of the first line break in `s`, or `|s|` when there is none. */
  function BreakIndex(s: string): (i: nat)
    ensures i <= |s|
    ensures forall k :: 0 <= k < i ==> !IsBreak(s[k])
    ensures i < |s| ==> IsBreak(s[i])
  {
    if s == [] || IsBreak(s[0]) then 0 else 1 + BreakIndex(s[1..])
  }

  /** The text cut at every `\r` and `\n`. */
  function SplitLines(s: string): seq<string>
    decreases |s|
  {
    var i := BreakIndex(s);
    if i == |s| then [s] else [s[..i]] + SplitLines(s[i + 1..])
  }

  /** The button one line compiles to once trimmed: none for a blank line or one that
      is not recognised. */
  function LineButton(line: string): seq<Button>
  {
    var t := Trim(line);
    var b := if t == [] then None else ParseSingle(t);
    if b.Some? then [b.value] else []
  }

  /** Trim every line, drop the blank ones, compile the rest and drop what is not recognised. */
  function ParseLines(lines: seq<string>): seq<Button>
  {
    if lines == [] then [] else LineButton(lines[0]) + ParseLines(lines[1..])
  }

  /** `parse_operations` */
  function ParseOperations(s: string): seq<Button>
  {
    ParseLines(SplitLines(s))
  }

  /** No line holds a break, and cutting at one break splits the lines in two. */
  lemma {:induction false} SplitLinesAt(a: string, c: char, b: string)
    requires IsBreak(c)
    ensures SplitLines(a + [c] + b) == SplitLines(a) + SplitLines(b)
    decreases |a|
  {
    var s := a + [c] + b;
    var i := BreakIndex(a);
    if i == |a| {
      assert BreakIndex(s) == |a| by {
        assert forall k :: 0 <= k < |a| ==> s[k] == a[k];
        assert s[|a|] == c;
        BreakIndexIs(s, |a|);
      }
      assert s[..|a|] == a && s[|a| + 1..] == b;
    } else {
      assert BreakIndex(s) == i by {
        assert forall k :: 0 <= k <= i ==> s[k] == a[k];
        BreakIndexIs(s, i);
      }
      assert s[..i] == a[..i];
      assert s[i + 1..] == a[i + 1..] + [c] + b;
      SplitLinesAt(a[i + 1..], c, b);
    }
  }

  lemma BreakIndexIs(s: string, i: nat)
    requires i < |s| && IsBreak(s[i])
    requires forall k :: 0 <= k < i ==> !IsBreak(s[k])
    ensures BreakIndex(s) == i
  {
  }

  lemma {:induction false} SplitLinesHaveNoBreaks(s: string)
    ensures forall line, k :: line in SplitLines(s) && 0 <= k < |line| ==> !IsBreak(line[k])
    decreases |s|
  {
    var i := BreakIndex(s);
    if i < |s| {
      SplitLinesHaveNoBreaks(s[i + 1..]);
    }
  }

  lemma SplitLinesOfLine(s: string)
    requires forall k :: 0 <= k < |s| ==> !IsBreak(s[k])
    ensures SplitLines(s) == [s]
  {
  }

  lemma {:induction false} ParseLinesAppend(a: seq<string>, b: seq<string>)
    ensures ParseLines(a + b) == ParseLines(a) + ParseLines(b)
  {
    if a != [] {
      var head := LineButton(a[0]);
      assert ParseLines(a + b) == head + ParseLines(a[1..] + b) by {
        assert (a + b)[0] == a[0] && (a + b)[1..] == a[1..] + b;
      }
      assert ParseLines(a) == head + ParseLines(a[1..]);
      ParseLinesAppend(a[1..], b);
    } else {
      assert a + b == b;
    }
  }

  /** Two blocks of operations separated by a line break compile to the buttons of the
      first followed by those of the second. */
  lemma ParseOperationsJoin(a: string, b: string)
    ensures ParseOperations(a + "\n" + b) == ParseOperations(a) + ParseOperations(b)
  {
    SplitLinesAt(a, '\n', b);
    ParseLinesAppend(SplitLines(a), SplitLines(b));
  }

  /** A button is produced exactly for each non-blank line that compiles. */
  lemma {:induction false} ParseLinesMembers(lines: seq<string>, b: Button)
    ensures b in ParseLines(lines) <==>
              exists line :: line in lines && Trim(line) != [] && ParseSingle(Trim(line)) == Some(b)
  {
    if lines != [] {
      ParseLinesMembers(lines[1..], b);
      assert forall line :: line in lines <==> line == lines[0] || line in lines[1..];
    }
  }

  /** Every button of a block is a well-formed operation of its own category, labelled
      with a non-blank trimmed line of the block. */
  lemma ParseOperationsButtons(s: string, b: Button)
    requires b in ParseOperations(s)
    ensures WellFormed(b.op) && b.kind == Kind(b.op)
    ensures b.text != [] && Trim(b.text) == b.text
    ensures forall k :: 0 <= k < |b.text| ==> !IsBreak(b.text[k])
  {
    ParseLinesMembers(SplitLines(s), b);
    var line :| line in SplitLines(s) && Trim(line) != [] && ParseSingle(Trim(line)) == Some(b);
    assert WellFormed(b.op) && b.kind == Kind(b.op) && b.text == Trim(Trim(line)) && b.text != [] by {
      CompiledButtons(Trim(line));
    }
    assert b.text == Trim(line) && Trim(b.text) == b.text by {
      TrimIdempotent(line);
    }
    assert forall k :: 0 <= k < |Trim(line)| ==> !IsBreak(Trim(line)[k]) by {
      SplitLinesHaveNoBreaks(s);
      TrimKeepsNoBreaks(line);
    }
  }

  /** Trimming a line without breaks leaves a line without breaks. */
  lemma TrimKeepsNoBreaks(line: string)
    requires forall k :: 0 <= k < |line| ==> !IsBreak(line[k])
    ensures forall k :: 0 <= k < |Trim(line)| ==> !IsBreak(Trim(line)[k])
  {
    var i := |line| - |TrimStart(line)|;
    TrimSlice(line);
    forall k | 0 <= k < |Trim(line)| ensures !IsBreak(Trim(line)[k]) {
      assert Trim(line)[k] == line[i + k];
    }
  }

  // ---------------------------------------------------------------- blocks of canonical notation

  /** The canonical notations of `ops`, one per line. */
  function RenderLines(ops: seq<Op>): string
    requires forall i :: 0 <= i < |ops| ==> WellFormed(ops[i])
  {
    if ops == [] then []
    else if |ops| == 1 then Render(ops[0])
    else Render(ops[0]) + "\n" + RenderLines(ops[1..])
  }

  /** The buttons the canonical notations of `ops` stand for. */
  function RenderedButtons(ops: seq<Op>): seq<Button>
    requires forall i :: 0 <= i < |ops| ==> WellFormed(ops[i])
  {
    if ops == [] then []
    else [Button(Render(ops[0]), Kind(ops[0]), ops[0])] + RenderedButtons(ops[1..])
  }

  lemma RenderHasNoBreaks(op: Op)
    requires WellFormed(op)
    ensures forall k :: 0 <= k < |Render(op)| ==> !IsBreak(Render(op)[k])
  {
    match op
    case AddSub(n) =>
      var d := NatText(Abs(n));
      assert forall k :: 1 <= k < |Render(op)| ==> Render(op)[k] == d[k - 1];
    case MulDiv(isDiv, n) =>
      var d := NatText(Abs(n));
      if n < 0 {
        assert forall k :: 2 <= k < |Render(op)| ==> Render(op)[k] == d[k - 2];
      } else {
        assert forall k :: 1 <= k < |Render(op)| ==> Render(op)[k] == d[k - 1];
      }
    case Replace(f, t) =>
      assert forall k :: |f| + 2 <= k < |Render(op)| ==> Render(op)[k] == t[k - |f| - 2];
    case _ =>
  }

  /** A single canonical notation compiles to its one button. */
  lemma ParseOperationsOfRender(op: Op)
    requires WellFormed(op)
    ensures ParseOperations(Render(op)) == [Button(Render(op), Kind(op), op)]
  {
    var r := Render(op);
    RenderHasNoBreaks(op);
    SplitLinesOfLine(r);
    ParseRender(op);
    CompiledButtons(r);
    assert Trim(r) == r && r != [];
    assert [r][0] == r && [r][1..] == [];
    assert ParseLines([r]) == [Button(r, Kind(op), op)] + ParseLines([]);
  }

  /** Writing operations out one per line and reading the block back gives one button
      per operation, in order. */
  lemma {:induction false} ParseRenderLines(ops: seq<Op>)
    requires forall i :: 0 <= i < |ops| ==> WellFormed(ops[i])
    ensures ParseOperations(RenderLines(ops)) == RenderedButtons(ops)
  {
    if ops == [] {
      assert SplitLines([]) == [[]];
      assert Trim([]) == [];
    } else if |ops| == 1 {
      ParseOperationsOfRender(ops[0]);
      assert ops[1..] == [];
    } else {
      ParseOperationsJoin(Render(ops[0]), RenderLines(ops[1..]));
      ParseOperationsOfRender(ops[0]);
      ParseRenderLines(ops[1..]);
    }
  }

  // ---------------------------------------------------------------- examples

  /** `<<` is read as a backspace button. */
  lemma BackspaceExample()
    ensures ParseSingle("<<") == Some(Button("<<", "backspace", Backspace))
  {
    NoNumberRules("<<");
    ParsedAsBackspace("<<", Backspace);
  }

  /** Backspace drops the last digit, toward zero for negative values: -97 becomes -9. */
  lemma BackspaceValueExample()
    ensures Apply(Backspace, -97) == Some(-9)
  {
    BackspaceDropsLastDigit(-97);
  }

  /** `3=>5` is read as a replace button. */
  lemma ReplaceExample()
    ensures ParseSingle("3=>5") == Some(Button("3=>5", "replace", Replace("3", "5")))
  {
    assert Render(Replace("3", "5")) == "3=>5";
    RenderReplace("3", "5");
  }

  /** Replacing 3 by 5 turns 13 into 15. */
  lemma ReplaceValueExample()
    ensures Apply(Replace("3", "5"), 13) == Some(15)
  {
    assert ReplaceAll(IntText(13), "3", "5") == "15" by {
      assert IntText(13) == "13" by {
        assert NatText(1) == "1";
      }
      assert ReplaceAll("13", "3", "5") == "15";
    }
    assert ParseInt("15") == Some(15) by {
      ParseDigits("15");
    }
  }

  /** `²` is read as a power button with exponent 2. */
  lemma SquareExample()
    ensures ParseSingle("\U{00B2}") == Some(Button("\U{00B2}", "power", Power(2)))
  {
    NoNumberRules("\U{00B2}");
    assert MatchPower("\U{00B2}") == None && MatchSuperscript("\U{00B2}") == Some(Power(2)) by {
      TrimStartOfSpaceFree("\U{00B2}");
    }
    ParsedAsSuperscript("\U{00B2}", Power(2));
  }

  /** Squaring turns 4 into 16. */
  lemma SquareValueExample()
    ensures Apply(Power(2), 4) == Some(16)
  {
  }
}
