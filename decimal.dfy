/** Decimal integers as Python 2 writes them (`str(n)`) and reads them (`int(s)`). */
module Decimal {
  import opened Outcome
  import opened Text

  predicate IsDigit(c: char) { '0' <= c <= '9' }

  predicate AllDigits(s: string) { forall k :: 0 <= k < |s| ==> IsDigit(s[k]) }

  predicate AllSpace(s: string) { forall k :: 0 <= k < |s| ==> IsSpace(s[k]) }

  function DigitChar(d: nat): (c: char)
    requires d < 10
    ensures IsDigit(c)
  {
    ('0' as int + d) as char
  }

  /** The value of a non-empty or empty string of decimal digits, most significant first. */
  function DigitsValue(s: string): nat
    requires AllDigits(s)
  {
    if s == [] then 0 else 10 * DigitsValue(s[..|s| - 1]) + (s[|s| - 1] as int - '0' as int)
  }

  /** `str(n)` for a non-negative integer: digits only, no leading zero. */
  function NatToDecimal(n: nat): (r: string)
    ensures |r| >= 1 && AllDigits(r)
    ensures |r| > 1 ==> r[0] != '0'
  {
    if n < 10 then [DigitChar(n)] else NatToDecimal(n / 10) + [DigitChar(n % 10)]
  }

  /** `s.lstrip()`: the longest suffix of `s` that does not start with whitespace. */
  function LStrip(s: string): (r: string)
    ensures |r| <= |s| && r == s[|s| - |r|..]
    ensures |r| == 0 || !IsSpace(r[0])
    ensures forall k :: 0 <= k < |s| - |r| ==> IsSpace(s[k])
  {
    s[SpaceRun(s, 0)..]
  }

  /** The end of the run of whitespace that starts at index `i`. */
  function SpaceRun(s: string, i: nat): (j: nat)
    requires i <= |s|
    ensures i <= j <= |s| && (j == |s| || !IsSpace(s[j]))
    ensures forall k :: i <= k < j ==> IsSpace(s[k])
    decreases |s| - i
  {
    if i == |s| || !IsSpace(s[i]) then i else SpaceRun(s, i + 1)
  }

  /** `int(s)` in base 10 as Python 2 reads it: whitespace, an optional sign, whitespace
      again, then one or more digits and trailing whitespace; anything else is rejected
      (`None`, where Python raises ValueError). */
  function ParseInt(s: string): (r: Option<int>)
    ensures AllSpace(s) ==> r.None?
    ensures r.Some? && r.value < 0 ==> '-' in s
  {
    var u := RStrip(s);
    var t := LStrip(u);
    assert |t| > 0 ==> t[0] == s[|u| - |t|];
    ParseStripped(t)
  }

  /** The text between the outer whitespace: a sign, whitespace and digits, or digits. */
  function ParseStripped(t: string): (r: Option<int>)
    ensures r.Some? ==> |t| > 0 && (r.value < 0 ==> t[0] == '-')
  {
    if |t| == 0 then None
    else
      match Unsigned(if t[0] == '-' || t[0] == '+' then LStrip(t[1..]) else t)
      case None => None
      case Some(v) => if t[0] == '-' then Some(-(v as int)) else Some(v as int)
  }

  /** One or more digits and their value. */
  function Unsigned(digits: string): (r: Option<nat>)
    ensures r.Some? ==> |digits| > 0 && AllDigits(digits)
  {
    if |digits| == 0 || !AllDigits(digits) then None else Some(DigitsValue(digits))
  }

  /** Every field converted by `number`, or nothing if one of them is not a number: the
      list comprehension `[float(x) for x in fields]`, which stops at the first ValueError. */
  function ParseLevels(fields: seq<string>, number: string -> Option<real>): (r: Option<seq<real>>)
    ensures r.Some? <==> forall k :: 0 <= k < |fields| ==> number(fields[k]).Some?
    ensures r.Some? ==> |r.value| == |fields| && forall k :: 0 <= k < |fields| ==> number(fields[k]) == Some(r.value[k])
  {
    if fields == [] then Some([])
    else
      var pre := fields[..|fields| - 1];
      assert forall k :: 0 <= k < |pre| ==> pre[k] == fields[k];
      match ParseLevels(pre, number)
      case None => None
      case Some(vs) =>
        match number(fields[|fields| - 1])
        case None => None
        case Some(v) => Some(vs + [v])
  }

  lemma {:induction false} DigitsValueOfDecimal(n: nat)
    ensures DigitsValue(NatToDecimal(n)) == n
  {
    if n >= 10 {
      var s := NatToDecimal(n);
      assert s[..|s| - 1] == NatToDecimal(n / 10);
      DigitsValueOfDecimal(n / 10);
    }
  }

  lemma {:induction false} RStripOfPadded(p: string, q: string)
    requires |p| == 0 || !IsSpace(p[|p| - 1])
    requires AllSpace(q)
    ensures RStrip(p + q) == p
    decreases |q|
  {
    if |q| > 0 {
      var s := p + q;
      assert s[..|s| - 1] == p + q[..|q| - 1];
      RStripOfPadded(p, q[..|q| - 1]);
    } else {
      assert p + q == p;
    }
  }

  lemma LStripOfPadded(q: string, p: string)
    requires |p| == 0 || !IsSpace(p[0])
    requires AllSpace(q)
    ensures LStrip(q + p) == p
  {
    var s := q + p;
    var r := LStrip(s);
    var cut := |s| - |r|;
    assert forall k :: 0 <= k < |q| ==> s[k] == q[k];
    assert |p| > 0 ==> s[|q|] == p[0];
    assert cut == |q|;
    assert s[|q|..] == p;
  }

  /** `int(str(n)) == n`, also with whitespace around the digits (a line terminator, say). */
  lemma ParseIntOfDecimal(n: nat, before: string, after: string)
    requires AllSpace(before) && AllSpace(after)
    ensures ParseInt(before + NatToDecimal(n) + after) == Some(n)
  {
    var d := NatToDecimal(n);
    var bd := before + d;
    assert bd[|bd| - 1] == d[|d| - 1];
    RStripOfPadded(bd, after);
    assert RStrip(before + d + after) == bd;
    LStripOfPadded(before, d);
    var t := LStrip(RStrip(before + d + after));
    assert t == d;
    assert IsDigit(d[0]);
    DigitsValueOfDecimal(n);
    ParseIntOfUnsigned(before + d + after, d);
  }

  /** How `int()` reads a text whose stripped form is digits only. */
  lemma ParseIntOfUnsigned(s: string, digits: string)
    requires LStrip(RStrip(s)) == digits && |digits| > 0 && AllDigits(digits)
    ensures ParseInt(s) == Some(DigitsValue(digits) as int)
  {
    assert IsDigit(digits[0]);
    assert ParseStripped(digits) == Some(DigitsValue(digits) as int);
  }

  /** How `int()` reads a text whose stripped form is a sign followed by whitespace and the
      digits of `n`. */
  lemma ParseIntOfTrimmed(s: string, sign: char, digits: string, n: nat)
    requires sign == '-' || sign == '+'
    requires var t := LStrip(RStrip(s)); |t| > 0 && t[0] == sign && LStrip(t[1..]) == digits
    requires |digits| > 0 && AllDigits(digits) && DigitsValue(digits) == n
    ensures ParseInt(s) == Some(if sign == '-' then -(n as int) else n as int)
  {
    var t := LStrip(RStrip(s));
    assert ParseInt(s) == ParseStripped(t);
    ParseStrippedSigned(t, digits, n);
  }

  lemma ParseStrippedSigned(t: string, digits: string, n: nat)
    requires |t| > 0 && (t[0] == '-' || t[0] == '+') && LStrip(t[1..]) == digits
    requires |digits| > 0 && AllDigits(digits) && DigitsValue(digits) == n
    ensures ParseStripped(t) == Some(if t[0] == '-' then -(n as int) else n as int)
  {
    var unsigned := if t[0] == '-' || t[0] == '+' then LStrip(t[1..]) else t;
    assert unsigned == digits;
    assert Unsigned(unsigned) == Some(n);
    if t[0] == '-' {
      assert ParseStripped(t) == Some(-(n as int));
    } else {
      assert ParseStripped(t) == Some(n as int);
    }
  }

  /** A sign, whitespace and the digits of `n`, with nothing before the sign, strip to the
      digits of `n`. */
  lemma StripSigned(sign: char, mid: string, d: string)
    requires !IsSpace(sign) && AllSpace(mid) && |d| > 0 && IsDigit(d[0])
    ensures ([sign] + mid + d)[0] == sign && LStrip(([sign] + mid + d)[1..]) == d
  {
    assert ([sign] + mid + d)[1..] == mid + d;
    LStripOfPadded(mid, d);
  }

  /** Whitespace on both sides of a text that neither starts nor ends with whitespace is
      what `strip()` removes. */
  lemma StripPadded(before: string, x: string, after: string)
    requires AllSpace(before) && AllSpace(after)
    requires |x| > 0 && !IsSpace(x[0]) && !IsSpace(x[|x| - 1])
    ensures LStrip(RStrip(before + x + after)) == x
  {
    var bx := before + x;
    assert bx[|bx| - 1] == x[|x| - 1];
    RStripOfPadded(bx, after);
    LStripOfPadded(before, x);
  }

  /** A sign may be separated from the digits by whitespace: `int("- 5") == -5`. */
  lemma ParseIntOfSigned(s: string, n: nat, sign: char, before: string, mid: string, after: string)
    requires s == before + ([sign] + mid + NatToDecimal(n)) + after
    requires sign == '-' || sign == '+'
    requires AllSpace(before) && AllSpace(mid) && AllSpace(after)
    ensures ParseInt(s) == Some(if sign == '-' then -(n as int) else n as int)
  {
    var d := NatToDecimal(n);
    var x := [sign] + mid + d;
    assert x[|x| - 1] == d[|d| - 1] && IsDigit(d[|d| - 1]);
    StripPadded(before, x, after);
    StripSigned(sign, mid, d);
    DigitsValueOfDecimal(n);
    ParseIntOfTrimmed(s, sign, d, n);
  }

  /** A character that is neither whitespace, a digit nor a sign makes `int()` fail. */
  lemma ParseIntRejects(s: string, k: nat)
    requires k < |s| && !IsSpace(s[k]) && !IsDigit(s[k]) && s[k] != '-' && s[k] != '+'
    ensures ParseInt(s).None?
  {
    var t := LStrip(RStrip(s));
    var j := StrippedKeeps(s, k);
    ParseStrippedRejects(t, j);
    assert ParseInt(s) == ParseStripped(t);
  }

  /** A character that is not whitespace survives `strip()`, at index `j` of the result. */
  lemma StrippedKeeps(s: string, k: nat) returns (j: nat)
    requires k < |s| && !IsSpace(s[k])
    ensures j < |LStrip(RStrip(s))| && LStrip(RStrip(s))[j] == s[k]
  {
    var u := RStrip(s);
    var t := LStrip(u);
    assert k < |u|;
    assert u[k] == s[k];
    j := k - (|u| - |t|);
    assert t[j] == u[k];
  }

  lemma ParseStrippedRejects(t: string, k: nat)
    requires k < |t| && !IsSpace(t[k]) && !IsDigit(t[k]) && t[k] != '-' && t[k] != '+'
    ensures ParseStripped(t).None?
  {
    if t[0] == '-' || t[0] == '+' {
      var rest := t[1..];
      var digits := LStrip(rest);
      var off := |rest| - |digits|;
      assert rest[k - 1] == t[k];
      assert k - 1 >= off;
      assert digits[k - 1 - off] == t[k];
      assert !AllDigits(digits);
    } else {
      assert !AllDigits(t);
    }
  }

  /** Distinct Entrez ids print as distinct keys. */
  lemma NatToDecimalInjective(a: nat, b: nat)
    requires NatToDecimal(a) == NatToDecimal(b)
    ensures a == b
  {
    DigitsValueOfDecimal(a);
    DigitsValueOfDecimal(b);
  }
}
