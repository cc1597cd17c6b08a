/**
 * The parts of Go's `strconv` package and integer conversions the row extractor relies on.
 * Both parsers are used with their error ignored, so a failed parse yields 0.
 */
module Numbers {
  import opened Wrappers

  const TWO_31: int := 0x8000_0000
  const TWO_32: int := 0x1_0000_0000
  const TWO_63: int := 0x8000_0000_0000_0000
  const MAX_UINT64: int := 0xFFFF_FFFF_FFFF_FFFF

  predicate IsDigit(c: char) {
    '0' <= c <= '9'
  }

  predicate AllDigits(s: string) {
    forall i :: 0 <= i < |s| ==> IsDigit(s[i])
  }

  function DigitValue(c: char): (d: nat)
    requires IsDigit(c)
    ensures d < 10
  {
    (c as int) - ('0' as int)
  }

  /** The value of a run of decimal digits, most significant first. */
  function DigitsValue(ds: string): nat
    requires AllDigits(ds)
  {
    if ds == [] then 0 else DigitsValue(ds[..|ds| - 1]) * 10 + DigitValue(ds[|ds| - 1])
  }

  function Pow10(n: nat): (r: nat)
    ensures r >= 1
  {
    if n == 0 then 1 else 10 * Pow10(n - 1)
  }

  /** Splits an optional leading '+' or '-' off `s`. */
  function SplitSign(s: string): (bool, string) {
    if |s| > 0 && (s[0] == '+' || s[0] == '-') then (s[0] == '-', s[1..]) else (false, s)
  }

  /** The length of the run of decimal digits `s` starts with. */
  function DigitRun(s: string): (k: nat)
    ensures k <= |s| && AllDigits(s[..k])
    ensures k < |s| ==> !IsDigit(s[k])
  {
    if s == [] || !IsDigit(s[0]) then 0
    else
      var k := 1 + DigitRun(s[1..]);
      assert forall i :: 0 < i < k ==> s[..k][i] == s[1..][..k - 1][i - 1];
      k
  }

  /** Clamps to the range of int64, as ParseInt does when it reports a range error. */
  function ClampInt64(x: int): (r: int)
    ensures -TWO_63 <= r < TWO_63
    ensures -TWO_63 <= x < TWO_63 ==> r == x
  {
    if x < -TWO_63 then -TWO_63 else if x >= TWO_63 then TWO_63 - 1 else x
  }

  /** The digit loop of strconv.ParseUint(s, 10, 64), left to right from the value `n` of the
      digits already read: a non-digit is a syntax error (None), and as soon as a digit takes
      the value past MAX_UINT64 the scan stops with MAX_UINT64 and a range error, without
      looking at the rest of the text. */
  function ScanUint(n: nat, s: string): Option<nat>
    requires n <= MAX_UINT64
    decreases |s|
  {
    if s == [] then Some(n)
    else if !IsDigit(s[0]) then None
    else
      var n1 := n * 10 + DigitValue(s[0]);
      if n1 > MAX_UINT64 then Some(MAX_UINT64) else ScanUint(n1, s[1..])
  }

  /** `n, _ = strconv.Atoi(s)` on a 64-bit platform. Texts of 19 bytes or more take the
      ParseInt path; shorter ones cannot overflow, and the fast path gives the same value.
      ParseInt splits off the sign, ParseUint reads the digits, and the unsigned value is
      clamped to int64. A syntax error gives 0, a range error the clamped bound. */
  function Atoi(s: string): (r: int)
    ensures -TWO_63 <= r < TWO_63
  {
    var (negative, body) := SplitSign(s);
    if body == [] then 0
    else
      match ScanUint(0, body)
      case None => 0
      case Some(u) =>
        var v: int := u;
        ClampInt64(if negative then -v else v)
  }

  /** Go's conversion `int32(x)`: two's-complement wrap-around. */
  function Int32(x: int): (r: int)
    ensures -TWO_31 <= r < TWO_31
    ensures (x - r) % TWO_32 == 0
    ensures -TWO_31 <= x < TWO_31 ==> r == x
  {
    (x + TWO_31) % TWO_32 - TWO_31
  }

  /** The position of the first '.' in `s`, or |s| when there is none. */
  function FirstDot(s: string): (r: nat)
    ensures r <= |s|
    ensures forall j :: 0 <= j < r ==> s[j] != '.'
    ensures r < |s| ==> s[r] == '.'
  {
    if s == [] || s[0] == '.' then 0 else 1 + FirstDot(s[1..])
  }

  /** The value of digits with at most one '.', split at the first '.'. */
  function DecimalMagnitude(body: string): Option<real> {
    var i := FirstDot(body);
    if i == |body| then
      if body != [] && AllDigits(body) then Some(DigitsValue(body) as real) else None
    else
      var whole, fraction := body[..i], body[i + 1..];
      if (whole != [] || fraction != []) && AllDigits(whole) && AllDigits(fraction) then
        Some(FixedPoint(whole, fraction))
      else None
  }

  /** The exact value of the decimal numeral whole.fraction. */
  function FixedPoint(whole: string, fraction: string): real
    requires AllDigits(whole) && AllDigits(fraction)
  {
    DigitsValue(whole) as real + (DigitsValue(fraction) as real) / (Pow10(|fraction|) as real)
  }

  /** Decimal syntax of strconv.ParseFloat: an optional sign, digits with at most one
      '.', and at least one digit; the value is exact. */
  function ParseDecimal(s: string): Option<real> {
    var (negative, body) := SplitSign(s);
    match DecimalMagnitude(body)
    case None => None
    case Some(m) => Some(if negative then -m else m)
  }

  /** `f, _ = strconv.ParseFloat(s, 64)`: 0 when the text does not parse. */
  function ParseFloat(s: string): (r: real)
    ensures ParseDecimal(s).None? ==> r == 0.0
  {
    match ParseDecimal(s)
    case None => 0.0
    case Some(v) => v
  }

  /** The decimal rendering of a natural number, without leading zeros. */
  function ShowNat(n: nat): (s: string)
    ensures s != [] && AllDigits(s)
  {
    if n < 10 then [('0' as int + n) as char] else ShowNat(n / 10) + [('0' as int + n % 10) as char]
  }

  lemma {:induction false} DigitsOfShowNat(n: nat)
    ensures DigitsValue(ShowNat(n)) == n
  {
    var s := ShowNat(n);
    if n >= 10 {
      DigitsOfShowNat(n / 10);
      assert s[..|s| - 1] == ShowNat(n / 10);
    }
  }

  /** Digits never lose value when more digits follow. */
  lemma {:induction false} DigitsGrow(p: string, q: string)
    requires AllDigits(p) && AllDigits(q)
    ensures AllDigits(p + q) && DigitsValue(p + q) >= DigitsValue(p)
  {
    assert forall i :: 0 <= i < |p + q| ==> (p + q)[i] == if i < |p| then p[i] else q[i - |p|];
    if q != [] {
      var q' := q[..|q| - 1];
      assert (p + q)[..|p + q| - 1] == p + q';
      DigitsGrow(p, q');
      assert DigitsValue(p + q) == DigitsValue(p + q') * 10 + DigitValue((p + q)[|p + q| - 1]);
    } else {
      assert p + q == p;
    }
  }

  /** One more digit: the value of `p + [c]` is ten times that of `p` plus the digit. */
  lemma DigitsSnoc(p: string, c: char)
    requires AllDigits(p) && IsDigit(c)
    ensures AllDigits(p + [c]) && DigitsValue(p + [c]) == DigitsValue(p) * 10 + DigitValue(c)
  {
    assert (p + [c])[..|p|] == p;
  }

  /** ParseUint's scan after the digits `pre`: the value of the leading digit run of the rest,
      MAX_UINT64 once that value passes it, and otherwise a syntax error when a non-digit
      follows the run. */
  lemma {:induction false} ScanRun(pre: string, s: string)
    requires AllDigits(pre) && DigitsValue(pre) <= MAX_UINT64
    ensures var k := DigitRun(s);
      AllDigits(pre + s[..k]) &&
      ScanUint(DigitsValue(pre), s) ==
        if DigitsValue(pre + s[..k]) > MAX_UINT64 then Some(MAX_UINT64)
        else if k < |s| then None
        else Some(DigitsValue(pre + s[..k]))
    decreases |s|
  {
    var k := DigitRun(s);
    if s == [] || !IsDigit(s[0]) {
      assert pre + s[..k] == pre;
    } else {
      var c, rest := s[0], s[1..];
      var pre' := pre + [c];
      DigitsSnoc(pre, c);
      assert pre' + rest[..k - 1] == pre + s[..k] by {
        assert s[..k] == [c] + rest[..k - 1];
      }
      var n1 := DigitsValue(pre) * 10 + DigitValue(c);
      if n1 > MAX_UINT64 {
        DigitsGrow(pre', rest[..k - 1]);
      } else {
        ScanRun(pre', rest);
      }
    }
  }

  /** Atoi as a whole: after the sign, the value of the leading digit run, clamped to int64;
      0 when the text has no digit after the sign or a non-digit follows the run before the
      digits pass MAX_UINT64. So a run that overflows uint64 clamps whatever follows it. */
  lemma AtoiSpec(s: string)
    ensures var (negative, body) := SplitSign(s);
      var k := DigitRun(body);
      AllDigits(body[..k]) &&
      var v: int := DigitsValue(body[..k]);
      Atoi(s) == if k == 0 || (k < |body| && v <= MAX_UINT64) then 0
                 else ClampInt64(if negative then -v else v)
  {
    var (negative, body) := SplitSign(s);
    ScanRun([], body);
    assert [] + body[..DigitRun(body)] == body[..DigitRun(body)];
  }

  /** Atoi reads back what ShowNat writes, for every value within int64. */
  lemma AtoiShowNat(n: nat)
    requires n < TWO_63
    ensures Atoi(ShowNat(n)) == n
  {
    DigitsOfShowNat(n);
    var s := ShowNat(n);
    assert SplitSign(s) == (false, s);
    AtoiSpec(s);
    AllDigitsRun(s);
  }

  /** The digit run of a text of digits is the whole text. */
  lemma {:induction false} AllDigitsRun(s: string)
    requires AllDigits(s)
    ensures DigitRun(s) == |s| && s[..|s|] == s
  {
    if s != [] {
      AllDigitsRun(s[1..]);
    }
  }

  /** Digits in front of a text lengthen its digit run by their number. */
  lemma {:induction false} RunExtends(p: string, q: string)
    requires AllDigits(p)
    ensures DigitRun(p + q) == |p| + DigitRun(q)
    ensures (p + q)[..DigitRun(p + q)] == p + q[..DigitRun(q)]
  {
    if p != [] {
      assert (p + q)[1..] == p[1..] + q;
      RunExtends(p[1..], q);
    } else {
      assert p + q == q;
    }
  }

  /** A digit run is worth at least its leading digit times ten to the number of digits after it. */
  lemma {:induction false} DigitsLead(ds: string)
    requires ds != [] && AllDigits(ds)
    ensures DigitsValue(ds) >= DigitValue(ds[0]) * Pow10(|ds| - 1)
  {
    if |ds| > 1 {
      var init := ds[..|ds| - 1];
      DigitsLead(init);
      assert init[0] == ds[0];
      var d, p := DigitValue(ds[0]), Pow10(|init| - 1);
      assert DigitsValue(ds) >= DigitsValue(init) * 10;
      assert DigitsValue(init) * 10 >= d * p * 10;
      assert Pow10(|ds| - 1) == 10 * p;
    }
  }

  lemma {:induction false} Pow10Add(a: nat, b: nat)
    ensures Pow10(a + b) == Pow10(a) * Pow10(b)
  {
    if b > 0 {
      Pow10Add(a, b - 1);
    }
  }

  /** Digits worth more than MAX_UINT64 read as the int64 bound of their sign, whatever text
      follows them: ParseUint stops at the overflowing digit. */
  lemma AtoiOverflow(ds: string, tail: string)
    requires ds != [] && AllDigits(ds) && DigitsValue(ds) > MAX_UINT64
    ensures Atoi(ds + tail) == TWO_63 - 1
    ensures Atoi("-" + ds + tail) == -TWO_63
  {
    RunExtends(ds, tail);
    var run := tail[..DigitRun(tail)];
    DigitsGrow(ds, run);
    assert SplitSign(ds + tail) == (false, ds + tail);
    AtoiSpec(ds + tail);
    assert ("-" + ds + tail)[1..] == ds + tail;
    assert SplitSign("-" + ds + tail) == (true, ds + tail);
    AtoiSpec("-" + ds + tail);
  }

  /** Twenty nines are worth more than MAX_UINT64. */
  lemma NinesOverflow()
    ensures AllDigits("99999999999999999999") && DigitsValue("99999999999999999999") > MAX_UINT64
  {
    var ds := "99999999999999999999";
    assert AllDigits(ds) && |ds| == 20 && DigitValue(ds[0]) == 9;
    DigitsLead(ds);
    assert Pow10(19) == 10000000000000000000 by {
      Pow10Add(4, 15);
      Pow10Add(4, 11);
      Pow10Add(4, 7);
      Pow10Add(4, 3);
    }
  }

  /** A stock text of twenty nines and " x": the largest int64, which int32() turns into -1. */
  lemma AtoiOverflowSample()
    ensures Atoi("99999999999999999999" + " x") == TWO_63 - 1
    ensures Int32(Atoi("99999999999999999999" + " x")) == -1
  {
    NinesOverflow();
    AtoiOverflow("99999999999999999999", " x");
    assert Int32(TWO_63 - 1) == -1;
  }

  /** ParseFloat reads back a whole number written by ShowNat. */
  lemma ParseFloatShowNat(n: nat)
    ensures ParseFloat(ShowNat(n)) == n as real
  {
    DigitsOfShowNat(n);
    var s := ShowNat(n);
    assert SplitSign(s) == (false, s);
    assert FirstDot(s) == |s|;
  }

  /** A decimal numeral written as whole "." fraction reads back as whole + fraction / 10^|fraction|. */
  lemma ParseFloatFraction(w: nat, f: string)
    requires AllDigits(f)
    ensures ParseFloat(ShowNat(w) + "." + f) == w as real + (DigitsValue(f) as real) / (Pow10(|f|) as real)
  {
    DigitsOfShowNat(w);
    var ws := ShowNat(w);
    var s := ws + "." + f;
    assert SplitSign(s) == (false, s) by {
      assert s[0] == ws[0];
    }
    DottedMagnitude(ws, f);
    assert ParseDecimal(s) == Some(FixedPoint(ws, f));
  }

  /** Digits, one '.', digits: the value is split at that '.'. */
  lemma DottedMagnitude(ws: string, f: string)
    requires ws != [] && AllDigits(ws) && AllDigits(f)
    ensures DecimalMagnitude(ws + "." + f) == Some(FixedPoint(ws, f))
  {
    var s := ws + "." + f;
    forall j | 0 <= j < |ws|
      ensures s[j] != '.'
    {
      assert s[j] == ws[j];
    }
    assert s[|ws|] == '.';
    assert FirstDot(s) == |ws|;
    assert s[..|ws|] == ws;
    assert s[|ws| + 1..] == f;
  }
}
