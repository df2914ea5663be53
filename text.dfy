/**
 * The pieces of JavaScript's string handling that the solver relies on:
 * white space (as `String.prototype.trim`, `parseInt` and the regular-expression
 * class `\s` see it), the decimal text of an integer (`value + ''`) and
 * `parseInt(str, 10)`.
 */
module Text {
  import opened Wrappers

  /** JavaScript's WhiteSpace and LineTerminator characters: tab, line feed, vertical
      tab, form feed and carriage return (U+0009 to U+000D), the space, and the
      Unicode spaces and separators from U+00A0 up. */
  predicate IsSpace(c: char) {
    if c <= ' ' then c == ' ' || '\t' <= c <= '\r'
    else if c < '\U{00A0}' then false
    else
      || c == '\U{00A0}' || c == '\U{1680}' || ('\U{2000}' <= c <= '\U{200A}')
      || c == '\U{2028}' || c == '\U{2029}' || c == '\U{202F}' || c == '\U{205F}'
      || c == '\U{3000}' || c == '\U{FEFF}'
  }

  /** Drops leading white space. */
  function TrimStart(s: string): (r: string)
    ensures |r| <= |s|
  {
    if s != [] && IsSpace(s[0]) then TrimStart(s[1..]) else s
  }

  /** Drops trailing white space. */
  function TrimEnd(s: string): (r: string)
    ensures |r| <= |s|
  {
    if s != [] && IsSpace(s[|s| - 1]) then TrimEnd(s[..|s| - 1]) else s
  }

  /** `String.prototype.trim`. */
  function Trim(s: string): string
  {
    TrimEnd(TrimStart(s))
  }

  /** TrimStart keeps a suffix that does not start with white space and drops only white space. */
  lemma {:induction false} TrimStartFacts(s: string)
    ensures TrimStart(s) == s[|s| - |TrimStart(s)|..]
    ensures TrimStart(s) == [] || !IsSpace(TrimStart(s)[0])
    ensures forall i :: 0 <= i < |s| - |TrimStart(s)| ==> IsSpace(s[i])
  {
    if s != [] && IsSpace(s[0]) {
      TrimStartFacts(s[1..]);
    }
  }

  /** TrimEnd keeps a prefix that does not end with white space and drops only white space. */
  lemma {:induction false} TrimEndFacts(s: string)
    ensures TrimEnd(s) == s[..|TrimEnd(s)|]
    ensures TrimEnd(s) == [] || !IsSpace(TrimEnd(s)[|TrimEnd(s)| - 1])
    ensures forall i :: |TrimEnd(s)| <= i < |s| ==> IsSpace(s[i])
  {
    if s != [] && IsSpace(s[|s| - 1]) {
      TrimEndFacts(s[..|s| - 1]);
    }
  }

  lemma TrimStartOfSpaceFree(s: string)
    requires s == [] || !IsSpace(s[0])
    ensures TrimStart(s) == s
  {
  }

  /** What `trim` keeps is a slice of its input. */
  lemma TrimSlice(s: string)
    ensures var i := |s| - |TrimStart(s)|;
      i + |Trim(s)| <= |s| && Trim(s) == s[i..i + |Trim(s)|]
  {
    var t := TrimStart(s);
    var i := |s| - |t|;
    assert t == s[i..] by {
      TrimStartFacts(s);
    }
    assert Trim(s) == t[..|Trim(s)|] by {
      TrimEndFacts(t);
    }
  }

  /** Everything `trim` drops around the slice it keeps is white space. */
  lemma TrimDropsSpace(s: string)
    ensures var i := |s| - |TrimStart(s)|;
      && (forall k :: 0 <= k < i ==> IsSpace(s[k]))
      && (forall k :: i + |Trim(s)| <= k < |s| ==> IsSpace(s[k]))
  {
    var t := TrimStart(s);
    var i := |s| - |t|;
    assert forall k :: 0 <= k < i ==> IsSpace(s[k]) by {
      TrimStartFacts(s);
    }
    assert forall k :: i + |Trim(s)| <= k < |s| ==> IsSpace(s[k]) by {
      assert t == s[i..] by {
        TrimStartFacts(s);
      }
      assert forall j :: |Trim(s)| <= j < |t| ==> IsSpace(t[j]) by {
        TrimEndFacts(t);
      }
      forall k | i + |Trim(s)| <= k < |s| ensures IsSpace(s[k]) {
        assert s[k] == t[k - i];
      }
    }
  }

  /** What `trim` keeps neither starts nor ends with white space. */
  lemma TrimEnds(s: string)
    ensures Trim(s) == [] || (!IsSpace(Trim(s)[0]) && !IsSpace(Trim(s)[|Trim(s)| - 1]))
  {
    var t := TrimStart(s);
    TrimStartFacts(s);
    TrimEndFacts(t);
    if Trim(s) != [] {
      assert Trim(s)[0] == t[0];
    }
  }

  /** Text that neither starts nor ends with white space is left alone by `trim`. */
  lemma TrimOfSpaceFree(s: string)
    requires s == [] || (!IsSpace(s[0]) && !IsSpace(s[|s| - 1]))
    ensures Trim(s) == s
  {
    TrimStartOfSpaceFree(s);
  }

  /** Trimming twice is trimming once. */
  lemma TrimIdempotent(s: string)
    ensures Trim(Trim(s)) == Trim(s)
  {
    TrimEnds(s);
    TrimOfSpaceFree(Trim(s));
  }

  predicate IsDigit(c: char) { '0' <= c <= '9' }

  /** Every character is one of `0`..`9` (the class `[0-9]*`). */
  predicate IsDigits(s: string) { forall i :: 0 <= i < |s| ==> IsDigit(s[i]) }

  function DigitValue(c: char): (d: nat)
    requires IsDigit(c)
    ensures d < 10
  {
    c as int - '0' as int
  }

  function DigitChar(d: nat): (c: char)
    requires d < 10
    ensures IsDigit(c) && DigitValue(c) == d
  {
    ('0' as int + d) as char
  }

  function Pow(b: int, k: nat): int
  {
    if k == 0 then 1 else b * Pow(b, k - 1)
  }

  /** A positive base has every power at least one. */
  lemma {:induction false} PowAtLeastOne(b: int, k: nat)
    requires b >= 1
    ensures Pow(b, k) >= 1
  {
    if k > 0 {
      PowAtLeastOne(b, k - 1);
      assert b * Pow(b, k - 1) >= Pow(b, k - 1);
    }
  }

  /** The number a string of decimal digits denotes, most significant digit first. */
  function Value(s: string): nat
    requires IsDigits(s)
  {
    if s == [] then 0 else Value(s[..|s| - 1]) * 10 + DigitValue(s[|s| - 1])
  }

  /** The decimal text of a natural number, without leading zeros. */
  function NatText(n: nat): (s: string)
    ensures IsDigits(s) && s != []
    ensures Value(s) == n
    ensures |s| > 1 ==> s[0] != '0'
  {
    if n < 10 then [DigitChar(n)]
    else
      var s := NatText(n / 10) + [DigitChar(n % 10)];
      assert s[..|s| - 1] == NatText(n / 10);
      s
  }

  /** `value + ''` for an integer value. */
  function IntText(v: int): string
  {
    if v < 0 then "-" + NatText(-v) else NatText(v)
  }

  /** Length of the longest prefix made of digits. */
  function DigitPrefix(s: string): (p: nat)
    ensures p <= |s| && IsDigits(s[..p])
    ensures p < |s| ==> !IsDigit(s[p])
  {
    if s != [] && IsDigit(s[0]) then
      var p := 1 + DigitPrefix(s[1..]);
      assert forall i :: 1 <= i < p ==> s[..p][i] == s[1..][..p - 1][i - 1];
      p
    else 0
  }

  /**
   * `parseInt(s, 10)`: leading white space is skipped, one optional sign is read,
   * then the longest run of digits; without any digit the result is NaN (None).
   */
  function ParseInt(s: string): Option<int>
  {
    ParseSigned(TrimStart(s))
  }

  /** `parseInt` after the leading white space. */
  function ParseSigned(t: string): Option<int>
  {
    if t != [] && (t[0] == '-' || t[0] == '+') then
      var p := DigitPrefix(t[1..]);
      if p == 0 then None
      else
        var n: int := Value(t[1..][..p]);
        Some(if t[0] == '-' then -n else n)
    else
      var p := DigitPrefix(t);
      if p == 0 then None else Some(Value(t[..p]))
  }

  lemma DigitPrefixOfDigits(s: string)
    requires IsDigits(s)
    ensures DigitPrefix(s) == |s|
  {
  }

  /** `parseInt` reads a run of digits as the number it denotes. */
  lemma ParseDigits(d: string)
    requires IsDigits(d) && d != []
    ensures ParseInt(d) == Some(Value(d))
  {
    TrimStartOfSpaceFree(d);
    DigitPrefixOfDigits(d);
    assert d[..|d|] == d;
  }

  /** `parseInt` reads a minus sign followed by digits as the negated number. */
  lemma ParseNegatedDigits(d: string)
    requires IsDigits(d) && d != []
    ensures ParseInt("-" + d) == Some(-(Value(d) as int))
  {
    var s := "-" + d;
    TrimStartOfSpaceFree(s);
    assert s[1..] == d;
    DigitPrefixOfDigits(d);
    assert d[..|d|] == d;
  }

  /** `parseInt(String(v), 10) == v`: the decimal text of an integer reads back as that integer. */
  lemma ParseIntText(v: int)
    ensures ParseInt(IntText(v)) == Some(v)
  {
    if v < 0 {
      ParseNegatedDigits(NatText(-v));
    } else {
      ParseDigits(NatText(v));
    }
  }

  /** Reading `v + a + c` with `parseInt` shifts the reading of `v + a` one place and
      adds the digit `c` away from zero. */
  lemma ParseIntTextDigitByDigit(v: int, a: string, c: char)
    requires IsDigits(a) && IsDigit(c)
    ensures ParseInt(IntText(v) + a).Some?
    ensures ParseInt(IntText(v) + (a + [c]))
         == Some(if v < 0 then 10 * ParseInt(IntText(v) + a).value - DigitValue(c)
                 else 10 * ParseInt(IntText(v) + a).value + DigitValue(c))
  {
    if v < 0 {
      ParseNegDigitByDigit(v, a, c);
    } else {
      ParsePosDigitByDigit(v, a, c);
    }
  }

  lemma ParseNegDigitByDigit(v: int, a: string, c: char)
    requires v < 0 && IsDigits(a) && IsDigit(c)
    ensures ParseInt(IntText(v) + a).Some?
    ensures ParseInt(IntText(v) + (a + [c])) == Some(10 * ParseInt(IntText(v) + a).value - DigitValue(c))
  {
    var u := NatText(-v) + a;
    assert IntText(v) + a == "-" + u;
    assert IntText(v) + (a + [c]) == "-" + (u + [c]);
    ParseNegShift(u, c);
  }

  lemma ParseNegShift(u: string, c: char)
    requires IsDigits(u) && u != [] && IsDigit(c)
    ensures ParseInt("-" + u).Some?
    ensures ParseInt("-" + (u + [c])) == Some(10 * ParseInt("-" + u).value - DigitValue(c))
  {
    ParseNegatedDigits(u);
    ParseNegatedDigits(u + [c]);
    assert (u + [c])[..|u|] == u;
  }

  lemma ParsePosDigitByDigit(v: nat, a: string, c: char)
    requires IsDigits(a) && IsDigit(c)
    ensures ParseInt(IntText(v) + a).Some?
    ensures ParseInt(IntText(v) + (a + [c])) == Some(10 * ParseInt(IntText(v) + a).value + DigitValue(c))
  {
    var u := NatText(v) + a;
    assert IntText(v) + a == u;
    assert IntText(v) + (a + [c]) == u + [c];
    ParsePosShift(u, c);
  }

  lemma ParsePosShift(u: string, c: char)
    requires IsDigits(u) && u != [] && IsDigit(c)
    ensures ParseInt(u).Some?
    ensures ParseInt(u + [c]) == Some(10 * ParseInt(u).value + DigitValue(c))
  {
    ParseDigits(u);
    ParseDigits(u + [c]);
    assert (u + [c])[..|u|] == u;
  }

  /** A digit string that does not start with `0` denotes a positive number. */
  lemma {:induction false} LeadingDigitPositive(s: string)
    requires IsDigits(s) && s != [] && s[0] != '0'
    ensures Value(s) > 0
  {
    if |s| > 1 {
      LeadingDigitPositive(s[..|s| - 1]);
    }
  }

  /** A digit string without leading zeros is the decimal text of its own value. */
  lemma {:induction false} NatTextOfValue(s: string)
    requires IsDigits(s) && s != []
    requires |s| > 1 ==> s[0] != '0'
    ensures NatText(Value(s)) == s
  {
    if |s| > 1 {
      var s' := s[..|s| - 1];
      NatTextOfValue(s');
      LeadingDigitPositive(s');
      var n := Value(s);
      assert n / 10 == Value(s') && n % 10 == DigitValue(s[|s| - 1]);
      assert DigitChar(n % 10) == s[|s| - 1];
      assert s == s' + [s[|s| - 1]];
    }
  }
}
