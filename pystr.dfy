/** The string semantics of the Python built-ins the core uses: `str(int)`,
    `str.zfill`, `str.strip`, `str.split(sep)[0]` and `int(str)`. */
module PyStr {
  import opened Wrappers

  predicate IsDigit(c: char) {
    '0' <= c <= '9'
  }

  predicate AllDigits(s: string) {
    forall i :: 0 <= i < |s| ==> IsDigit(s[i])
  }

  function DigitValue(c: char): nat
    requires IsDigit(c)
  {
    c as int - '0' as int
  }

  function DigitChar(d: nat): (c: char)
    requires d < 10
    ensures IsDigit(c) && DigitValue(c) == d
  {
    ('0' as int + d) as char
  }

  /** The value of a string of decimal digits, most significant digit first. */
  function DecimalValue(s: string): nat
    requires AllDigits(s)
  {
    if s == [] then 0 else DecimalValue(s[..|s| - 1]) * 10 + DigitValue(s[|s| - 1])
  }

  function Pow10(n: nat): (r: nat)
    ensures r >= 1
  {
    if n == 0 then 1 else 10 * Pow10(n - 1)
  }

  /** A string of n digits stands for a number below 10^n. */
  lemma {:induction false} DecimalBelowPow10(s: string)
    requires AllDigits(s)
    ensures DecimalValue(s) < Pow10(|s|)
  {
    if s != [] {
      DecimalBelowPow10(s[..|s| - 1]);
    }
  }

  /** n copies of '0'. */
  function Zeros(n: nat): (r: string)
    ensures |r| == n && AllDigits(r)
    ensures forall i :: 0 <= i < n ==> r[i] == '0'
  {
    if n == 0 then [] else Zeros(n - 1) + ['0']
  }

  /** A string of zeros stands for 0. */
  lemma {:induction false} ZerosValue(k: nat)
    ensures DecimalValue(Zeros(k)) == 0
  {
    if k > 0 {
      ZerosValue(k - 1);
      assert Zeros(k)[..k - 1] == Zeros(k - 1);
    }
  }

  /** Leading zeros do not change the value of a digit string. */
  lemma {:induction false} LeadingZerosValue(k: nat, s: string)
    requires AllDigits(s)
    ensures AllDigits(Zeros(k) + s)
    ensures DecimalValue(Zeros(k) + s) == DecimalValue(s)
  {
    var t := Zeros(k) + s;
    assert AllDigits(t) by {
      forall i | 0 <= i < |t|
        ensures IsDigit(t[i])
      {
        if i < k {
          assert t[i] == Zeros(k)[i];
        } else {
          assert t[i] == s[i - k];
        }
      }
    }
    if s == [] {
      assert t == Zeros(k);
      ZerosValue(k);
    } else {
      var init := s[..|s| - 1];
      assert AllDigits(init) by {
        forall i | 0 <= i < |init|
          ensures IsDigit(init[i])
        {
          assert init[i] == s[i];
        }
      }
      assert t[..|t| - 1] == Zeros(k) + init;
      assert t[|t| - 1] == s[|s| - 1];
      LeadingZerosValue(k, init);
      assert DecimalValue(t) == DecimalValue(Zeros(k) + init) * 10 + DigitValue(s[|s| - 1]);
    }
  }

  /** Python `str(n)` for a non-negative int: its decimal digits, without leading zeros. */
  function NatToString(n: nat): (r: string)
    ensures |r| >= 1 && AllDigits(r)
    ensures DecimalValue(r) == n
    ensures |r| > 1 ==> r[0] != '0'
  {
    if n < 10 then [DigitChar(n)]
    else
      var init := NatToString(n / 10);
      var r := init + [DigitChar(n % 10)];
      assert r[..|r| - 1] == init;
      r
  }

  /** Python `str(i)` for any int. */
  function IntToString(i: int): (r: string)
    ensures |r| >= 1
    ensures i >= 0 ==> r == NatToString(i)
    ensures i < 0 ==> r == "-" + NatToString(-i)
  {
    if i < 0 then "-" + NatToString(-i) else NatToString(i)
  }

  predicate IsSign(c: char) {
    c == '+' || c == '-'
  }

  /** Python `s.zfill(width)`: pad with '0' on the left to `width` characters, keeping a
      leading sign in front of the padding; never truncate. */
  function ZFill(s: string, width: int): (r: string)
    ensures |r| == if |s| >= width then |s| else width
    ensures |s| >= width ==> r == s
    ensures |s| < width && (s == [] || !IsSign(s[0])) ==> r == Zeros(width - |s|) + s
    ensures |s| < width && s != [] && IsSign(s[0]) ==> r == [s[0]] + Zeros(width - |s|) + s[1..]
  {
    if |s| >= width then s
    else if s != [] && IsSign(s[0]) then [s[0]] + Zeros(width - |s|) + s[1..]
    else Zeros(width - |s|) + s
  }

  /** Python `str.isspace()` for one character. */
  predicate IsSpace(c: char) {
    || c == ' '
    || '\t' <= c <= '\r'
    || 0x1C <= c as int <= 0x1F
    || c as int == 0x85
    || c as int == 0xA0
    || c as int == 0x1680
    || 0x2000 <= c as int <= 0x200A
    || c as int == 0x2028
    || c as int == 0x2029
    || c as int == 0x202F
    || c as int == 0x205F
    || c as int == 0x3000
  }

  /** The index of the first character of s at or after `from` that is not whitespace,
      or |s|. */
  function SkipSpace(s: string, from: nat): (r: nat)
    requires from <= |s|
    ensures from <= r <= |s|
    ensures forall i :: from <= i < r ==> IsSpace(s[i])
    ensures r < |s| ==> !IsSpace(s[r])
    decreases |s| - from
  {
    if from == |s| || !IsSpace(s[from]) then from else SkipSpace(s, from + 1)
  }

  /** Where `s[..stop]` ends once its trailing whitespace is gone. */
  function TrimEnd(s: string, stop: nat): (r: nat)
    requires stop <= |s|
    ensures r <= stop
    ensures forall i :: r <= i < stop ==> IsSpace(s[i])
    ensures r > 0 ==> !IsSpace(s[r - 1])
    decreases stop
  {
    if stop == 0 || !IsSpace(s[stop - 1]) then stop else TrimEnd(s, stop - 1)
  }

  /** Python `s.lstrip()`. */
  function LStrip(s: string): (r: string)
    ensures |r| <= |s| && r == s[|s| - |r|..]
    ensures forall i :: 0 <= i < |s| - |r| ==> IsSpace(s[i])
    ensures r == [] || !IsSpace(r[0])
  {
    s[SkipSpace(s, 0)..]
  }

  /** Python `s.rstrip()`. */
  function RStrip(s: string): (r: string)
    ensures |r| <= |s| && r == s[..|r|]
    ensures forall i :: |r| <= i < |s| ==> IsSpace(s[i])
    ensures r == [] || !IsSpace(r[|r| - 1])
  {
    s[..TrimEnd(s, |s|)]
  }

  /** `t` is the run of s starting at `a` with nothing but whitespace before and after it. */
  predicate Trimmed(s: string, a: nat, t: string) {
    && a + |t| <= |s| && t == s[a..a + |t|]
    && (forall i :: 0 <= i < a ==> IsSpace(s[i]))
    && (forall i :: a + |t| <= i < |s| ==> IsSpace(s[i]))
  }

  /** Python `s.strip()`: s without the whitespace at either end. */
  function Strip(s: string): (r: string)
    ensures |r| <= |s|
    ensures r == [] || (!IsSpace(r[0]) && !IsSpace(r[|r| - 1]))
    ensures r == [] <==> forall i :: 0 <= i < |s| ==> IsSpace(s[i])
    ensures Trimmed(s, SkipSpace(s, 0), r)
  {
    var a := SkipSpace(s, 0);
    var b := TrimEnd(s, |s|);
    if a == |s| then []
    else
      assert a < b;
      s[a..b]
  }

  /** What `int` accepts once the whitespace around it is gone: an optional sign, then at
      least one digit. */
  predicate IntLiteral(t: string) {
    (t != [] && AllDigits(t)) || (|t| >= 2 && IsSign(t[0]) && AllDigits(t[1..]))
  }

  /** The value of a stripped integer literal, if it is one. */
  function LiteralValue(t: string): (r: Option<int>)
    ensures r.Some? <==> IntLiteral(t)
    ensures r.Some? && AllDigits(t) ==> r.value == DecimalValue(t)
    ensures r.Some? && t[0] == '+' ==> r.value == DecimalValue(t[1..])
    ensures r.Some? && t[0] == '-' ==> r.value == -(DecimalValue(t[1..]) as int)
  {
    if t != [] && IsSign(t[0]) then
      assert !IsDigit(t[0]);
      var digits := t[1..];
      if digits != [] && AllDigits(digits) then
        var magnitude: int := DecimalValue(digits);
        Some(if t[0] == '-' then -magnitude else magnitude)
      else None
    else if t != [] && AllDigits(t) then Some(DecimalValue(t))
    else None
  }

  /** Python `int(s)` for a str in base 10: surrounding whitespace, an optional sign,
      then at least one digit. */
  function ParseInt(s: string): (r: Result<int>)
    ensures r.Ok? <==> IntLiteral(Strip(s))
    ensures r.Err? ==> r.error == InvalidLiteral(s)
    ensures r.Ok? ==> r == Ok(LiteralValue(Strip(s)).value)
  {
    var value := LiteralValue(Strip(s));
    if value.Some? then Ok(value.value) else Err(InvalidLiteral(s))
  }

  /** A string that neither starts nor ends with whitespace is its own strip. */
  lemma StripUnchanged(s: string)
    requires s != [] && !IsSpace(s[0]) && !IsSpace(s[|s| - 1])
    ensures Strip(s) == s
  {
    assert SkipSpace(s, 0) == 0;
    assert TrimEnd(s, |s|) == |s|;
    assert s[0..|s|] == s;
  }

  /** `int` reads an unsigned digit string as its decimal value. */
  lemma ParseDigits(d: string)
    requires d != [] && AllDigits(d)
    ensures ParseInt(d) == Ok(DecimalValue(d))
  {
    assert IsDigit(d[0]) && IsDigit(d[|d| - 1]);
    StripUnchanged(d);
  }

  /** `int` reads a minus sign followed by digits as the negated decimal value. */
  lemma ParseNegatedDigits(d: string)
    requires d != [] && AllDigits(d)
    ensures ParseInt("-" + d) == Ok(-(DecimalValue(d) as int))
  {
    var z := "-" + d;
    assert z[1..] == d;
    assert !IsSpace(z[0]) && !IsSpace(z[|z| - 1]) by {
      assert z[|z| - 1] == d[|d| - 1];
    }
    StripUnchanged(z);
    NegatedLiteral(z);
  }

  /** A minus sign followed by digits is a literal whose value is the negated digits. */
  lemma NegatedLiteral(z: string)
    requires |z| >= 2 && z[0] == '-' && AllDigits(z[1..])
    ensures LiteralValue(z) == Some(-(DecimalValue(z[1..]) as int))
  {
    assert IsSign(z[0]);
  }

  /** Padding a signed string pads what follows the sign to one character less. */
  lemma ZFillSigned(s: string, width: int)
    requires s != [] && IsSign(s[0])
    requires |s| == 1 || !IsSign(s[1])
    ensures ZFill(s, width) == [s[0]] + ZFill(s[1..], width - 1)
  {
  }

  /** Padding digits keeps their value. */
  lemma ZFillDigits(d: string, width: int)
    requires d != [] && AllDigits(d)
    ensures AllDigits(ZFill(d, width))
    ensures DecimalValue(ZFill(d, width)) == DecimalValue(d)
  {
    if |d| < width {
      LeadingZerosValue(width - |d|, d);
    }
  }

  /** Reading back a zero-padded decimal gives the number that was written:
      `int(str(i).zfill(w)) == i`. */
  lemma ParseZeroPadded(i: int, width: int)
    ensures ParseInt(ZFill(IntToString(i), width)) == Ok(i)
  {
    if i < 0 {
      var digits := NatToString(-i);
      var s := "-" + digits;
      assert s[1..] == digits;
      ZFillSigned(s, width);
      ZFillDigits(digits, width - 1);
      ParseNegatedDigits(ZFill(digits, width - 1));
    } else {
      ZFillDigits(NatToString(i), width);
      ParseDigits(ZFill(NatToString(i), width));
    }
  }

  predicate OccursAt(s: string, sep: string, j: nat) {
    j + |sep| <= |s| && s[j..j + |sep|] == sep
  }

  /** Python `s.find(sep, from)`, giving |s| instead of -1 when `sep` does not occur. */
  function Find(s: string, sep: string, from: nat): (r: nat)
    requires sep != [] && from <= |s|
    ensures from <= r <= |s|
    ensures r < |s| ==> OccursAt(s, sep, r)
    ensures forall j :: from <= j < r ==> !OccursAt(s, sep, j)
    decreases |s| - from
  {
    if from + |sep| > |s| then |s|
    else if s[from..from + |sep|] == sep then from
    else Find(s, sep, from + 1)
  }

  /** Python `s.split(sep)[0]`. A `None` separator splits on runs of whitespace. */
  function FirstField(s: string, sep: Option<string>): (r: Result<string>)
    ensures sep == Some([]) ==> r == Err(EmptySeparator)
    ensures sep.Some? && sep.value != [] ==> r.Ok?
    ensures r.Ok? && sep.Some? ==> r.value <= s
    ensures r.Ok? && sep.Some? ==> forall j :: 0 <= j < |r.value| ==> !OccursAt(s, sep.value, j)
    ensures r.Ok? && sep.Some? && |r.value| < |s| ==> OccursAt(s, sep.value, |r.value|)
    ensures sep.None? ==> (r.Err? <==> forall i :: 0 <= i < |s| ==> IsSpace(s[i]))
    ensures sep.None? && r.Err? ==> r.error == IndexError
    ensures sep.None? && r.Ok? ==> r.value != [] && forall i :: 0 <= i < |r.value| ==> !IsSpace(r.value[i])
    ensures sep.None? && r.Ok? ==> var t := LStrip(s); r.value <= t && (|r.value| == |t| || IsSpace(t[|r.value|]))
  {
    match sep
    case Some(d) =>
      if d == [] then Err(EmptySeparator) else Ok(s[..Find(s, d, 0)])
    case None =>
      var t := LStrip(s);
      if t == [] then Err(IndexError) else Ok(t[..FirstSpace(t, 0)])
  }

  /** The index of the first whitespace character of s at or after `from`, or |s|. */
  function FirstSpace(s: string, from: nat): (r: nat)
    requires from <= |s|
    ensures from <= r <= |s|
    ensures r < |s| ==> IsSpace(s[r])
    ensures forall i :: from <= i < r ==> !IsSpace(s[i])
    decreases |s| - from
  {
    if from == |s| || IsSpace(s[from]) then from else FirstSpace(s, from + 1)
  }
}
