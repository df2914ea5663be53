/**
 * The integer transforms a calculator button performs (the closures built by
 * `parse_single_operation` in solver.js). Every transform is total here and
 * yields None exactly where the source's result is not an integer, which is
 * where the search drops the transition.
 */
module Operations {
  import opened Wrappers
  import opened Text

  /** One recognised button, by grammar category. */
  datatype Op =
    | AddSub(n: int)                     // `+7`, `-3`
    | MulDiv(isDiv: bool, n: int)        // `x3`, `*-2`, `/4`
    | Append(digits: string)             // `42`
    | Backspace                          // `<`, `<<`
    | Replace(from: string, to: string)  // `3=>5`
    | Power(k: nat)                      // `^3`, `**2`, `x²`
    | Negate                             // `+/-`, `±`
    | Reverse                            // `r`, `rev`, `reverse`

  function Abs(v: int): nat { if v < 0 then -v else v }

  /** JavaScript's `a % b` for a positive `b`: truncating, so the remainder takes
      the sign of `a` and `a - r` is `b` times the quotient rounded toward zero. */
  function TruncRem(a: int, b: int): (r: int)
    requires b > 0
    ensures Abs(r) < b
    ensures a >= 0 ==> r >= 0 && a - r == b * (a / b)
    ensures a < 0 ==> r <= 0 && a - r == -(b * ((-a) / b))
  {
    if a >= 0 then a % b else -((-a) % b)
  }

  /**
   * `str.replace(new RegExp(from, 'g'), to)` for a literal `from`: scanning left
   * to right, every occurrence that does not overlap an earlier replaced one is
   * replaced by `to`. An empty `from` matches before every character and at the end.
   */
  function ReplaceAll(s: string, from: string, to: string): string
    decreases |s|
  {
    if from == [] then
      if s == [] then to else to + [s[0]] + ReplaceAll(s[1..], from, to)
    else if |from| <= |s| && s[..|from|] == from then
      to + ReplaceAll(s[|from|..], from, to)
    else if s == [] then []
    else [s[0]] + ReplaceAll(s[1..], from, to)
  }

  /** `s.split('').reverse().join('')`. */
  function Reversed(s: string): string
  {
    if s == [] then [] else Reversed(s[1..]) + [s[0]]
  }

  /** The value the button's closure returns for `value`, or None where that is not an integer. */
  function Apply(op: Op, v: int): Option<int>
  {
    match op
    case AddSub(n) => Some(v + n)
    case MulDiv(isDiv, n) => MulDivValue(isDiv, n, v)
    case Append(digits) => AppendValue(digits, v)
    case Backspace => Some(BackspaceValue(v))
    case Replace(from, to) => ReplaceValue(from, to, v)
    case Power(k) => Some(Pow(v, k))
    case Negate => Some(-v)
    case Reverse => ReverseValue(v)
  }

  /** `value * n`, or `value / n` when that is an integer. */
  function MulDivValue(isDiv: bool, n: int, v: int): Option<int>
  {
    if !isDiv then Some(v * n)
    else if n != 0 && v % n == 0 then Some(v / n)
    else None
  }

  /** `parseInt(value + digits)` */
  function AppendValue(digits: string, v: int): Option<int>
  {
    ParseInt(IntText(v) + digits)
  }

  /** `(value - value % 10) / 10` */
  function BackspaceValue(v: int): int
  {
    (v - TruncRem(v, 10)) / 10
  }

  /** `parseInt((value + '').replace(new RegExp(from, 'g'), to))` */
  function ReplaceValue(from: string, to: string, v: int): Option<int>
  {
    ParseInt(ReplaceAll(IntText(v), from, to))
  }

  /** The digits of `|value|` reversed and parsed, with the sign of `value`. */
  function ReverseValue(v: int): Option<int>
  {
    var sign := if v < 0 then -1 else 1;
    match ParseInt(Reversed(NatText(Abs(v))))
    case Some(r) => Some(sign * r)
    case None => None
  }

  // ---------------------------------------------------------------- add / subtract

  /** `+n` and `-n` undo each other. */
  lemma AddSubInverse(n: int, v: int)
    ensures Apply(AddSub(-n), Apply(AddSub(n), v).value) == Some(v)
  {
  }

  // ---------------------------------------------------------------- multiply / divide

  /** Division yields `q` exactly when the divisor is non-zero and `q` times it is the value. */
  lemma DivisionIsExact(n: int, v: int, q: int)
    ensures Apply(MulDiv(true, n), v) == Some(q) <==> n != 0 && q * n == v
  {
    if n != 0 && q * n == v {
      DivideProduct(q, n);
    }
  }

  lemma DivideProduct(q: int, n: int)
    requires n != 0
    ensures (q * n) % n == 0 && (q * n) / n == q
  {
    var a := q * n;
    assert a == (a / n) * n + a % n && 0 <= a % n < Abs(n);
    QuotientUnique(q, a / n, n, a % n);
  }

  /** A multiple of `n` has a unique quotient by `n`, with remainder zero. */
  lemma QuotientUnique(q: int, d: int, n: int, r: int)
    requires n != 0 && q * n == d * n + r && 0 <= r < Abs(n)
    ensures q == d && r == 0
  {
    assert (q - d) * n == q * n - d * n;
    assert (q - d) * n == r;
    if q != d {
      if q - d > 0 {
        MulAbsBound(q - d, n);
      } else {
        MulAbsBound(d - q, n);
      }
      assert false;
    }
  }

  lemma MulAbsBound(a: int, n: int)
    requires a >= 1 && n != 0
    ensures Abs(a * n) >= Abs(n)
  {
  }

  /** Dividing by `n` undoes multiplying by `n` when `n` is not zero. */
  lemma DivideUndoesMultiply(n: int, v: int)
    requires n != 0
    ensures Apply(MulDiv(true, n), Apply(MulDiv(false, n), v).value) == Some(v)
  {
    DivisionIsExact(n, v * n, v);
  }

  // ---------------------------------------------------------------- append and backspace

  /** Appending no digits leaves the value alone (`parseInt(String(v))` is `v`). */
  lemma AppendNothing(v: int)
    ensures Apply(Append([]), v) == Some(v)
  {
    assert IntText(v) + [] == IntText(v);
    ParseIntText(v);
  }

  /** Appending digits textually works digit by digit: each further digit shifts the
      value one decimal place and adds the digit away from zero, with the sign of
      the original value. */
  lemma AppendDigitByDigit(a: string, c: char, v: int)
    requires IsDigits(a) && IsDigit(c)
    ensures Apply(Append(a), v).Some?
    ensures Apply(Append(a + [c]), v)
         == Some(if v < 0 then 10 * Apply(Append(a), v).value - DigitValue(c)
                 else 10 * Apply(Append(a), v).value + DigitValue(c))
  {
    AppendReads(a, v);
    AppendReads(a + [c], v);
    ParseIntTextDigitByDigit(v, a, c);
    var p, q := ParseInt(IntText(v) + a), ParseInt(IntText(v) + (a + [c]));
    assert Apply(Append(a), v) == p && Apply(Append(a + [c]), v) == q;
    var x, d := p.value, DigitValue(c);
    if v < 0 {
      assert q == Some(10 * x - d);
    } else {
      assert q == Some(10 * x + d);
    }
  }

  /** Appending digits parses the value's text followed by them. */
  lemma AppendReads(a: string, v: int)
    ensures Apply(Append(a), v) == ParseInt(IntText(v) + a)
  {
  }

  /** Backspace drops the last decimal digit, rounding toward zero (-97 becomes -9, 5 becomes 0). */
  lemma BackspaceDropsLastDigit(v: int)
    ensures Apply(Backspace, v) == Some(if v >= 0 then v / 10 else -((-v) / 10))
    ensures Abs(v) < 10 ==> Apply(Backspace, v) == Some(0)
    ensures Abs(v) >= 10 ==>
      IntText(Apply(Backspace, v).value) == IntText(v)[..|IntText(v)| - 1]
  {
    var q := if v >= 0 then v / 10 else -((-v) / 10);
    assert Apply(Backspace, v) == Some(q) by {
      var r := TruncRem(v, 10);
      assert Apply(Backspace, v) == Some((v - r) / 10);
      if v >= 0 {
        assert v - r == 10 * (v / 10);
      } else {
        assert v - r == 10 * q;
      }
    }
    if Abs(v) >= 10 {
      var n := Abs(v);
      assert Abs(q) == n / 10;
      assert NatText(n) == NatText(n / 10) + [DigitChar(n % 10)];
      assert IntText(q) == IntText(v)[..|IntText(v)| - 1] by {
        if v < 0 {
          assert IntText(v) == "-" + NatText(n);
          assert IntText(q) == "-" + NatText(n / 10);
        }
      }
    }
  }

  /** Appending one digit to a value shifts it one decimal place and adds the digit
      away from zero. */
  lemma AppendOneDigit(c: char, v: int)
    requires IsDigit(c)
    ensures Apply(Append([c]), v) == Some(if v < 0 then 10 * v - DigitValue(c) else 10 * v + DigitValue(c))
  {
    var t := IntText(v);
    ParseIntText(v);
    ParseIntTextDigitByDigit(v, [], c);
    assert t + [] == t && t + ([] + [c]) == t + [c];
    assert Apply(Append([c]), v) == ParseInt(t + [c]);
  }

  /** Backspace undoes appending one digit. */
  lemma BackspaceUndoesAppend(c: char, v: int)
    requires IsDigit(c)
    ensures Apply(Append([c]), v).Some?
    ensures Apply(Backspace, Apply(Append([c]), v).value) == Some(v)
  {
    var d := DigitValue(c);
    var w := if v < 0 then 10 * v - d else 10 * v + d;
    AppendOneDigit(c, v);
    BackspaceDropsLastDigit(w);
    TruncatedShiftBack(v, d, w);
  }

  lemma TruncatedShiftBack(v: int, d: int, w: int)
    requires 0 <= d < 10
    requires w == if v < 0 then 10 * v - d else 10 * v + d
    ensures (if w >= 0 then w / 10 else -((-w) / 10)) == v
  {
    if v < 0 {
      assert -w == 10 * (-v) + d;
    }
  }

  // ---------------------------------------------------------------- replace

  lemma {:induction false} ReplaceAllSame(s: string, from: string)
    ensures ReplaceAll(s, from, from) == s
    decreases |s|
  {
    if from == [] {
      if s != [] {
        ReplaceAllSame(s[1..], from);
      }
    } else if |from| <= |s| && s[..|from|] == from {
      ReplaceAllSame(s[|from|..], from);
      assert s == s[..|from|] + s[|from|..];
    } else if s != [] {
      ReplaceAllSame(s[1..], from);
      assert s == [s[0]] + s[1..];
    }
  }

  /** Replacing digits by the same digits gives the value back. */
  lemma ReplaceBySelf(from: string, v: int)
    ensures Apply(Replace(from, from), v) == Some(v)
  {
    ReplaceAllSame(IntText(v), from);
    ParseIntText(v);
  }

  /** `from` occurs in `s` at position `k`. */
  predicate OccursAt(from: string, s: string, k: int)
  {
    0 <= k && k + |from| <= |s| && s[k..k + |from|] == from
  }

  /** `from` occurs somewhere in `s`. */
  predicate Occurs(from: string, s: string)
  {
    exists k :: 0 <= k <= |s| && OccursAt(from, s, k)
  }

  /** Nothing is replaced where a non-empty pattern does not occur. */
  lemma {:induction false} ReplaceAllAbsent(s: string, from: string, to: string)
    requires from != [] && !Occurs(from, s)
    ensures ReplaceAll(s, from, to) == s
    decreases |s|
  {
    if s != [] {
      assert !OccursAt(from, s, 0);
      assert !(|from| <= |s| && s[..|from|] == from) by {
        if |from| <= |s| {
          assert s[0..0 + |from|] == s[..|from|];
        }
      }
      assert !Occurs(from, s[1..]) by {
        if Occurs(from, s[1..]) {
          var k :| 0 <= k <= |s[1..]| && OccursAt(from, s[1..], k);
          assert s[1..][k..k + |from|] == s[k + 1..k + 1 + |from|];
          assert OccursAt(from, s, k + 1);
        }
      }
      ReplaceAllAbsent(s[1..], from, to);
      assert ReplaceAll(s, from, to) == [s[0]] + ReplaceAll(s[1..], from, to);
      assert s == [s[0]] + s[1..];
    }
  }

  /** `s` with every character `c` replaced by the text `t`, character by character. */
  function SubstChar(s: string, c: char, t: string): (r: string)
    ensures c !in t ==> c !in r
    ensures forall x :: x in r && x != c && x !in t ==> x in s
  {
    if s == [] then []
    else (if s[0] == c then t else [s[0]]) + SubstChar(s[1..], c, t)
  }

  /** Replacing a one-character pattern substitutes every occurrence of that
      character and keeps every other character. */
  lemma {:induction false} ReplaceAllChar(s: string, c: char, t: string)
    ensures ReplaceAll(s, [c], t) == SubstChar(s, c, t)
    decreases |s|
  {
    if s != [] {
      assert (s[..1] == [c]) == (s[0] == c);
      ReplaceAllChar(s[1..], c, t);
    }
  }

  /** A button whose pattern does not occur in the value's text leaves the value
      unchanged. */
  lemma ReplaceMissing(from: string, to: string, v: int)
    requires from != [] && !Occurs(from, IntText(v))
    ensures Apply(Replace(from, to), v) == Some(v)
  {
    ReplaceAllAbsent(IntText(v), from, to);
    ParseIntText(v);
  }

  /** A one-digit button `c=>t` with `c` not in `t` leaves no `c` in the text it reads. */
  lemma ReplaceDigitRemovesAll(s: string, c: char, t: string)
    requires c !in t
    ensures c !in ReplaceAll(s, [c], t)
  {
    ReplaceAllChar(s, c, t);
  }

  // ---------------------------------------------------------------- power

  lemma {:induction false} PowAdd(b: int, x: nat, y: nat)
    ensures Pow(b, x + y) == Pow(b, x) * Pow(b, y)
  {
    if x > 0 {
      PowAdd(b, x - 1, y);
      assert Pow(b, x + y) == b * Pow(b, x - 1 + y);
    }
  }

  lemma {:induction false} PowMul(b: int, x: nat, y: nat)
    ensures Pow(Pow(b, x), y) == Pow(b, x * y)
  {
    if y > 0 {
      PowMul(b, x, y - 1);
      PowAdd(b, x, x * (y - 1));
      assert x * y == x + x * (y - 1);
    }
  }

  /** Raising to `x` and then to `y` is raising to `x * y`. */
  lemma PowerComposes(x: nat, y: nat, v: int)
    ensures Apply(Power(y), Apply(Power(x), v).value) == Apply(Power(x * y), v)
  {
    PowMul(v, x, y);
  }

  // ---------------------------------------------------------------- sign flip

  /** Flipping the sign twice gives the value back. */
  lemma NegateInvolution(v: int)
    ensures Apply(Negate, Apply(Negate, v).value) == Some(v)
  {
  }

  // ---------------------------------------------------------------- reverse

  lemma {:induction false} ReversedFacts(s: string)
    ensures |Reversed(s)| == |s|
    ensures forall i :: 0 <= i < |s| ==> Reversed(s)[i] == s[|s| - 1 - i]
  {
    if s != [] {
      ReversedFacts(s[1..]);
    }
  }

  lemma ReversedTwice(s: string)
    ensures Reversed(Reversed(s)) == s
  {
    ReversedFacts(s);
    ReversedFacts(Reversed(s));
  }

  lemma NatTextLastDigit(n: nat)
    ensures NatText(n)[|NatText(n)| - 1] == DigitChar(n % 10)
  {
  }

  /** The reversed decimal text of a number not ending in `0` reads as a positive
      number whose own reversed text reads back as the original. */
  lemma ReverseDigitsTwice(n: nat)
    requires n % 10 != 0
    ensures ParseInt(Reversed(NatText(n))).Some?
    ensures ParseInt(Reversed(NatText(n))).value > 0
    ensures ParseInt(Reversed(NatText(ParseInt(Reversed(NatText(n))).value))) == Some(n)
  {
    var s := NatText(n);
    var t := Reversed(s);
    ReversedFacts(s);
    NatTextLastDigit(n);
    assert t[0] == s[|s| - 1];
    assert IsDigits(t);
    ParseDigits(t);
    LeadingDigitPositive(t);
    NatTextOfValue(t);
    ReversedTwice(s);
    ParseDigits(s);
  }

  /** Reversing the digits of a value that does not end in `0` and reversing again gives it back. */
  lemma ReverseInvolution(v: int)
    requires v % 10 != 0
    ensures Apply(Reverse, v).Some?
    ensures Apply(Reverse, Apply(Reverse, v).value) == Some(v)
  {
    var n := Abs(v);
    assert n % 10 != 0;
    ReverseDigitsTwice(n);
    var m := ParseInt(Reversed(NatText(n))).value;
    var sign := if v < 0 then -1 else 1;
    assert Apply(Reverse, v) == Some(sign * m);
    var w := sign * m;
    assert Abs(w) == m && (w < 0 <==> v < 0);
    assert Apply(Reverse, w) == Some(sign * n);
  }

  /** Reversing the digits always gives an integer, with the sign of the value: zero
      only for zero, negative only for a negative value. */
  lemma ReverseKeepsSign(v: int)
    ensures Apply(Reverse, v).Some?
    ensures Apply(Reverse, v).value < 0 <==> v < 0
    ensures Apply(Reverse, v).value == 0 <==> v == 0
  {
    var n := Abs(v);
    var s := NatText(n);
    var t := Reversed(s);
    ReversedFacts(s);
    assert IsDigits(t);
    ParseDigits(t);
    if n > 0 {
      assert s[0] != '0' by {
        if |s| == 1 {
          assert Value(s) == Value(s[..0]) * 10 + DigitValue(s[0]);
        }
      }
      assert t[|t| - 1] == s[0];
      assert Value(t) >= DigitValue(t[|t| - 1]) > 0;
    } else {
      assert s == [DigitChar(0)];
      assert t == s;
    }
  }

  /** Leading zeros of the reversed text vanish: 120 reverses to 21, -120 to -21. */
  lemma ReverseDropsZeros()
    ensures Apply(Reverse, 120) == Some(21)
    ensures Apply(Reverse, -120) == Some(-21)
  {
    ReversedDigitsOf120();
    assert Abs(-120) == 120;
  }

  /** The text of 120 reversed is `021`, which parses as 21. */
  lemma ReversedDigitsOf120()
    ensures ParseInt(Reversed(NatText(120))) == Some(21)
  {
    var digits := NatText(120);
    assert digits == "120";
    assert Reversed(digits) == "021" by {
      assert digits[1..] == "20" && digits[1..][1..] == "0";
    }
    ParseDigits("021");
  }
}
