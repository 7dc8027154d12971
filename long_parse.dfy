/** `long.TryParse(string, out long)` under its default number style
    (`NumberStyles.Integer`): optional white space on both sides, an optional
    leading sign, then one or more decimal digits whose value fits in a
    `long`. Also the decimal formatting that the parser inverts. */
module LongParse {
  import opened Wrappers
  import opened Int64

  /** The white-space characters that `NumberStyles.Integer` skips: U+0009
      to U+000D and U+0020. */
  predicate IsWhite(c: char) {
    c == ' ' || '\t' <= c <= '\r'
  }

  predicate IsDigit(c: char) {
    '0' <= c <= '9'
  }

  predicate AllDigits(s: string) {
    forall i | 0 <= i < |s| :: IsDigit(s[i])
  }

  predicate AllWhite(s: string) {
    forall i | 0 <= i < |s| :: IsWhite(s[i])
  }

  predicate AllZeros(s: string) {
    forall i | 0 <= i < |s| :: s[i] == '0'
  }

  function DigitValue(c: char): (d: nat)
    requires IsDigit(c)
    ensures d < 10
  {
    (c as int) - ('0' as int)
  }

  function DigitChar(d: nat): (c: char)
    requires d < 10
    ensures IsDigit(c) && DigitValue(c) == d
  {
    ('0' as int + d) as char
  }

  /** The value of a run of decimal digits, most significant first. */
  function DigitsValue(s: string): nat
    requires AllDigits(s)
  {
    if s == [] then 0 else DigitsValue(s[..|s| - 1]) * 10 + DigitValue(s[|s| - 1])
  }

  function TrimStart(s: string): (r: string)
    ensures |r| <= |s| && r == s[|s| - |r|..]
    ensures r == [] || !IsWhite(r[0])
    ensures forall i | 0 <= i < |s| - |r| :: IsWhite(s[i])
  {
    if s != [] && IsWhite(s[0]) then TrimStart(s[1..]) else s
  }

  function TrimEnd(s: string): (r: string)
    ensures |r| <= |s| && r == s[..|r|]
    ensures r == [] || !IsWhite(r[|r| - 1])
    ensures forall i | |r| <= i < |s| :: IsWhite(s[i])
  {
    if s != [] && IsWhite(s[|s| - 1]) then TrimEnd(s[..|s| - 1]) else s
  }

  /** `long.TryParse(s, out v)`: `Some(v)` when it returns true. */
  function TryParseLong(s: string): (r: Option<int64>)
    ensures r.Some? ==> exists i | 0 <= i < |s| :: IsDigit(s[i])
  {
    var t := TrimEnd(TrimStart(s));
    var r := ParseSigned(t);
    if r.Some? then
      assert t == TrimStart(s)[..|t|] && TrimStart(s) == s[|s| - |TrimStart(s)|..];
      assert t[|t| - 1] == s[|s| - |TrimStart(s)| + |t| - 1];
      r
    else r
  }

  /** The parse of text already stripped of white space: an optional sign,
      then one or more digits whose value fits in a `long`. */
  function ParseSigned(t: string): (r: Option<int64>)
    ensures r.Some? ==> t != [] && IsDigit(t[|t| - 1])
  {
    var signed := t != [] && (t[0] == '-' || t[0] == '+');
    var digits := if signed then t[1..] else t;
    if digits == [] || !AllDigits(digits) then None
    else
      var v: int := if signed && t[0] == '-' then 0 - DigitsValue(digits) as int else DigitsValue(digits);
      if IsLong(v) then Some(v) else None
  }

  /** The decimal digits of `n`, without leading zeros. */
  function FormatNat(n: nat): (s: string)
    ensures s != [] && AllDigits(s)
    ensures DigitsValue(s) == n
    ensures s[0] != '0' || n == 0
  {
    if n < 10 then [DigitChar(n)]
    else
      var prefix := FormatNat(n / 10);
      assert (prefix + [DigitChar(n % 10)])[..|prefix|] == prefix;
      prefix + [DigitChar(n % 10)]
  }

  /** `n.ToString()` in the invariant culture. */
  function Format(n: int): (s: string)
    ensures s != []
  {
    if n < 0 then "-" + FormatNat(-n) else FormatNat(n)
  }

  /** Parsing what Format writes gives the number back when it is a `long`,
      and fails when it is out of range. */
  lemma ParseFormat(n: int)
    ensures TryParseLong(Format(n)) == if IsLong(n) then Some(n) else None
  {
    var s := Format(n);
    var digits := FormatNat(if n < 0 then -n else n);
    assert TrimStart(s) == s;
    assert TrimEnd(s) == s;
    if n < 0 {
      assert s[1..] == digits;
    }
  }

  /** What `NumberStyles.Integer` accepts around the digits: white space on
      either side, one optional sign and leading zeros leave the value
      unchanged, and an out-of-range value still fails. */
  lemma ParsePadded(pre: string, sign: string, zeros: string, n: nat, post: string)
    requires AllWhite(pre) && AllWhite(post) && AllZeros(zeros)
    requires sign == "" || sign == "+" || sign == "-"
    ensures var v: int := if sign == "-" then -(n as int) else n;
      TryParseLong(pre + sign + zeros + FormatNat(n) + post) == if IsLong(v) then Some(v) else None
  {
    var digits := zeros + FormatNat(n);
    LeadingZeros(zeros, FormatNat(n));
    assert DigitsValue(digits) == n;
    var core := sign + digits;
    ConcatAssoc(pre + sign, zeros, FormatNat(n));
    ConcatAssoc(pre, sign, digits);
    assert pre + sign + zeros + FormatNat(n) == pre + core;
    SignedDigitsNotWhite(sign, digits);
    TrimPadded(pre, core, post);
    ParseSignedDigits(sign, digits);
  }

  lemma ConcatAssoc(a: string, b: string, c: string)
    ensures a + b + c == a + (b + c)
  {
  }

  lemma SignedDigitsNotWhite(sign: string, digits: string)
    requires sign == "" || sign == "+" || sign == "-"
    requires digits != [] && AllDigits(digits)
    ensures var core := sign + digits; !IsWhite(core[0]) && !IsWhite(core[|core| - 1])
  {
    var core := sign + digits;
    assert core[|core| - 1] == digits[|digits| - 1];
    if sign == "" {
      assert core[0] == digits[0];
    } else {
      assert core[0] == sign[0];
    }
  }

  /** Trimming removes exactly the white space around a text that neither
      starts nor ends with white space. */
  lemma TrimPadded(pre: string, core: string, post: string)
    requires AllWhite(pre) && AllWhite(post)
    requires core != [] && !IsWhite(core[0]) && !IsWhite(core[|core| - 1])
    ensures TrimEnd(TrimStart(pre + core + post)) == core
    ensures TryParseLong(pre + core + post) == ParseSigned(core)
  {
    assert pre + core + post == pre + (core + post);
    TrimStartSkips(pre, core + post);
    TrimEndSkips(core, post);
  }

  /** The value of an optional sign followed by digits. */
  lemma ParseSignedDigits(sign: string, digits: string)
    requires sign == "" || sign == "+" || sign == "-"
    requires digits != [] && AllDigits(digits)
    ensures var v: int := if sign == "-" then -(DigitsValue(digits) as int) else DigitsValue(digits);
      ParseSigned(sign + digits) == if IsLong(v) then Some(v) else None
  {
    var t := sign + digits;
    if sign == "" {
      assert t == digits && IsDigit(t[0]);
    } else {
      assert t[0] == sign[0] && t[1..] == digits;
    }
  }

  /** Once the white space is trimmed, any character other than a digit,
      except a sign in first place, makes the parse fail. */
  lemma ParseRejectsNonDigit(s: string, i: nat)
    requires i < |TrimEnd(TrimStart(s))|
    requires !IsDigit(TrimEnd(TrimStart(s))[i])
    requires i == 0 ==> TrimEnd(TrimStart(s))[0] != '-' && TrimEnd(TrimStart(s))[0] != '+'
    ensures TryParseLong(s).None?
  {
    var t := TrimEnd(TrimStart(s));
    assert TryParseLong(s) == ParseSigned(t);
    var signed := t[0] == '-' || t[0] == '+';
    var digits := if signed then t[1..] else t;
    if signed {
      assert digits[i - 1] == t[i];
    } else {
      assert digits[i] == t[i];
    }
    assert !AllDigits(digits);
  }

  /** Text that is blank, or a sign alone, does not parse. */
  lemma ParseRejectsNoDigits(s: string)
    requires var t := TrimEnd(TrimStart(s)); t == "" || t == "+" || t == "-"
    ensures TryParseLong(s).None?
  {
    assert TryParseLong(s) == ParseSigned(TrimEnd(TrimStart(s)));
  }

  lemma {:induction false} TrimStartSkips(pre: string, rest: string)
    requires AllWhite(pre) && rest != [] && !IsWhite(rest[0])
    ensures TrimStart(pre + rest) == rest
  {
    if pre == [] {
      assert pre + rest == rest;
    } else {
      assert (pre + rest)[1..] == pre[1..] + rest;
      TrimStartSkips(pre[1..], rest);
    }
  }

  lemma {:induction false} TrimEndSkips(rest: string, post: string)
    requires AllWhite(post) && rest != [] && !IsWhite(rest[|rest| - 1])
    ensures TrimEnd(rest + post) == rest
  {
    if post == [] {
      assert rest + post == rest;
    } else {
      assert (rest + post)[..|rest + post| - 1] == rest + post[..|post| - 1];
      TrimEndSkips(rest, post[..|post| - 1]);
    }
  }

  lemma {:induction false} LeadingZeros(zeros: string, digits: string)
    requires AllZeros(zeros) && AllDigits(digits)
    ensures AllDigits(zeros + digits)
    ensures DigitsValue(zeros + digits) == DigitsValue(digits)
  {
    var s := zeros + digits;
    if digits == [] {
      assert s == zeros;
      ZerosValue(zeros);
    } else {
      assert s[..|s| - 1] == zeros + digits[..|digits| - 1];
      LeadingZeros(zeros, digits[..|digits| - 1]);
    }
  }

  lemma {:induction false} ZerosValue(zeros: string)
    requires AllZeros(zeros)
    ensures AllDigits(zeros) && DigitsValue(zeros) == 0
  {
    if zeros != [] {
      ZerosValue(zeros[..|zeros| - 1]);
    }
  }

  /** Instances of the rules above. */
  lemma ParsePaddedExample()
    ensures TryParseLong(" +007\t") == Some(7)
  {
    assert " +007\t" == " " + "+007" + "\t";
    TrimPadded(" ", "+007", "\t");
    ParseSignedExample();
  }

  lemma ParseSignedExample()
    ensures ParseSigned("+007") == Some(7)
  {
    assert "+007" == "+" + "007";
    ParseSignedDigits("+", "007");
    assert "007"[..2] == "00" && "00"[..1] == "0" && "0"[..0] == "";
  }

  lemma ParseInnerSpaceExample()
    ensures TryParseLong("4 2").None?
  {
    assert "4 2" == "" + "4 2" + "";
    TrimPadded("", "4 2", "");
    ParseRejectsNonDigit("4 2", 1);
  }

}
