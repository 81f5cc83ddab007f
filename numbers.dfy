/** Python's conversions between text and numbers, as the catalog code uses
    them: `int(s)`, `float(s)`, `math.floor`, `str(n)` for integers and
    `str(x)` for the one float the core writes back into a record. */
module Numbers {
  import opened Wrappers
  import opened Text

  predicate IsDigit(c: char) {
    '0' <= c <= '9'
  }

  predicate AllDigits(s: string) {
    forall i :: 0 <= i < |s| ==> IsDigit(s[i])
  }

  function Pow10(n: nat): (p: nat)
    ensures p >= 1
  {
    if n == 0 then 1 else 10 * Pow10(n - 1)
  }

  /** The value of a run of decimal digits, most significant first. */
  function DigitsValue(s: string): nat
    requires AllDigits(s)
  {
    if s == [] then 0
    else DigitsValue(s[..|s| - 1]) * 10 + (s[|s| - 1] as int - '0' as int)
  }

  lemma {:induction false} DigitsValueAppend(a: string, b: string)
    requires AllDigits(a) && AllDigits(b)
    ensures AllDigits(a + b)
    ensures DigitsValue(a + b) == DigitsValue(a) * Pow10(|b|) + DigitsValue(b)
    decreases |b|
  {
    if b == [] {
      assert a + b == a;
    } else {
      var b' := b[..|b| - 1];
      assert (a + b)[..|a + b| - 1] == a + b';
      DigitsValueAppend(a, b');
      var x, p, y := DigitsValue(a), Pow10(|b'|), DigitsValue(b');
      var d := b[|b| - 1] as int - '0' as int;
      assert DigitsValue(a + b) == (x * p + y) * 10 + d;
      assert DigitsValue(b) == y * 10 + d;
      assert Pow10(|b|) == p * 10;
      ShiftByTen(x, p, y);
    }
  }

  lemma ShiftByTen(x: int, p: int, y: int)
    ensures (x * p + y) * 10 == x * (p * 10) + y * 10
  {
  }

  function DigitChar(d: nat): (c: char)
    requires d < 10
    ensures IsDigit(c) && c as int - '0' as int == d
  {
    ('0' as int + d) as char
  }

  /** Python's `str(n)` for a natural number: its shortest decimal text. */
  function NatText(n: nat): (s: string)
    ensures |s| >= 1 && AllDigits(s)
    ensures DigitsValue(s) == n
  {
    if n < 10 then [DigitChar(n)]
    else
      var s := NatText(n / 10) + [DigitChar(n % 10)];
      assert s[..|s| - 1] == NatText(n / 10);
      s
  }

  /** Python's `str(i)` for an integer. */
  function IntText(i: int): string {
    if i < 0 then "-" + NatText(-i) else NatText(i)
  }

  /** Python's `int(s)` on text without surrounding blanks: an optional sign
      and at least one digit; anything else raises ValueError (None). */
  function ParseInt(s: string): (r: Option<int>)
    ensures r.Some? ==> |s| > 0
  {
    if |s| > 0 && (s[0] == '-' || s[0] == '+') then
      var body := s[1..];
      if |body| > 0 && AllDigits(body) then
        Some(if s[0] == '-' then -(DigitsValue(body) as int) else DigitsValue(body))
      else None
    else if |s| > 0 && AllDigits(s) then Some(DigitsValue(s))
    else None
  }

  /** `int(str(i)) == i`. */
  lemma IntTextRoundTrip(i: int)
    ensures ParseInt(IntText(i)) == Some(i)
  {
    if i < 0 {
      assert IntText(i)[1..] == NatText(-i);
    }
  }

  /** The value of a decimal mantissa `digits[.digits]` or `.digits`. */
  function ParseMantissa(s: string): Option<real> {
    var d := Find(s, '.');
    if d < 0 then
      if |s| > 0 && AllDigits(s) then Some(DigitsValue(s) as real) else None
    else
      var a, b := s[..d], s[d + 1..];
      if AllDigits(a) && AllDigits(b) && |a| + |b| > 0 then
        Some(DigitsValue(a) as real + DigitsValue(b) as real / Pow10(|b|) as real)
      else None
  }

  function Scale(e: int): (r: real)
    ensures r > 0.0
  {
    if e >= 0 then Pow10(e) as real else 1.0 / Pow10(-e) as real
  }

  function FindExponent(s: string): (k: int)
    ensures -1 <= k < |s|
    ensures k == -1 ==> 'e' !in s && 'E' !in s
  {
    var e := Find(s, 'e');
    if e >= 0 then e else Find(s, 'E')
  }

  function ParseUnsignedFloat(s: string): Option<real> {
    var k := FindExponent(s);
    if k < 0 then ParseMantissa(s)
    else
      var m := ParseMantissa(s[..k]);
      var e := ParseInt(s[k + 1..]);
      if m.Some? && e.Some? then Some(m.value * Scale(e.value)) else None
  }

  /** Python's `float(s)` on decimal text without surrounding blanks: an
      optional sign, a mantissa and an optional exponent; anything else
      raises ValueError (None). */
  function ParseFloat(s: string): (r: Option<real>)
    ensures r.Some? ==> |s| > 0
  {
    if |s| > 0 && (s[0] == '-' || s[0] == '+') then
      var u := ParseUnsignedFloat(s[1..]);
      if u.None? then None
      else Some(if s[0] == '-' then -u.value else u.value)
    else ParseUnsignedFloat(s)
  }

  /** `math.floor(float(s))`. */
  function FloorOf(s: string): Option<int> {
    var v := ParseFloat(s);
    if v.Some? then Some(v.value.Floor) else None
  }

  lemma DigitsHaveNoMark(s: string)
    requires AllDigits(s)
    ensures 'e' !in s && 'E' !in s && '.' !in s
  {
    forall i | 0 <= i < |s| ensures s[i] != 'e' && s[i] != 'E' && s[i] != '.' {
      assert IsDigit(s[i]);
    }
  }

  lemma MantissaOfDigits(s: string)
    requires |s| > 0 && AllDigits(s)
    ensures ParseMantissa(s) == Some(DigitsValue(s) as real)
  {
    DigitsHaveNoMark(s);
    assert Find(s, '.') == -1;
  }

  lemma UnsignedOfDigits(s: string)
    requires |s| > 0 && AllDigits(s)
    ensures ParseUnsignedFloat(s) == Some(DigitsValue(s) as real)
  {
    DigitsHaveNoMark(s);
    assert FindExponent(s) == -1;
    MantissaOfDigits(s);
  }

  /** Every integer text is also a float text of the same value. */
  lemma DigitsAreFloat(s: string)
    requires |s| > 0 && AllDigits(s)
    ensures ParseFloat(s) == Some(DigitsValue(s) as real)
  {
    assert IsDigit(s[0]);
    assert !(s[0] == '-' || s[0] == '+');
    UnsignedOfDigits(s);
  }

  // ---------------------------------------------------------------------
  // str(x) for a float

  /** Number of decimals `str(x)` keeps in this model. */
  const Decimals: nat := 12

  /** `|x|` scaled by 10^n and truncated. */
  function ScaledMagnitude(x: real, n: nat): nat {
    var m := if x < 0.0 then -x else x;
    (m * Pow10(n) as real).Floor
  }

  /** The number `q / 10^n`. */
  function Shifted(q: nat, n: nat): real {
    q as real / Pow10(n) as real
  }

  /** `v`, negated when `negative`. */
  function Signed(v: real, negative: bool): real {
    if negative then -v else v
  }

  /** The value `x` keeps once written with `n` decimals. */
  function TruncatedTo(x: real, n: nat): real {
    Signed(Shifted(ScaledMagnitude(x, n), n), x < 0.0)
  }

  function Truncated(x: real): real {
    TruncatedTo(x, Decimals)
  }

  function Zeros(n: nat): (z: string)
    ensures |z| == n && AllDigits(z) && DigitsValue(z) == 0
  {
    if n == 0 then []
    else
      var z := Zeros(n - 1) + "0";
      assert z[..|z| - 1] == Zeros(n - 1);
      z
  }

  /** `s` with leading zeros up to `width` digits. */
  function PadDigits(s: string, width: nat): (r: string)
    requires AllDigits(s)
    ensures |r| >= width && |r| >= |s| && AllDigits(r)
    ensures DigitsValue(r) == DigitsValue(s)
  {
    var z := Zeros(if |s| < width then width - |s| else 0);
    DigitsValueAppend(z, s);
    z + s
  }

  /** The magnitude `q / 10^n` as fixed-point text with `n` decimals and at
      least one digit before the point, preceded by "-" when `negative`. */
  function FixedText(q: nat, n: nat, negative: bool): string {
    var t := PadDigits(NatText(q), n + 1);
    var body := PointText(t, n);
    if negative then "-" + body else body
  }

  /** `x` as fixed-point text with `n` decimals, truncated towards zero. */
  function RenderFixed(x: real, n: nat): string {
    FixedText(ScaledMagnitude(x, n), n, x < 0.0)
  }

  /** Python's `str(x)`, modelled as fixed-point text with `Decimals`
      decimals, truncated towards zero. */
  function RenderReal(x: real): string {
    RenderFixed(x, Decimals)
  }

  lemma DivideSum(a: real, b: real, p: real, c: real)
    requires p > 0.0 && c == a * p + b
    ensures a + b / p == c / p
  {
  }

  lemma {:induction false} PointSplit(a: string, b: string)
    requires AllDigits(a) && AllDigits(b) && |a| > 0
    ensures ParseMantissa(a + "." + b) == Some(DigitsValue(a) as real + DigitsValue(b) as real / Pow10(|b|) as real)
  {
    var s := a + "." + b;
    assert s[|a|] == '.';
    assert '.' !in a by {
      forall i | 0 <= i < |a| ensures a[i] != '.' { assert IsDigit(a[i]); }
    }
    assert s[..|a|] == a;
    assert Find(s, '.') == |a|;
    assert s[|a| + 1..] == b;
  }

  lemma {:induction false} NoExponent(a: string, b: string)
    requires AllDigits(a) && AllDigits(b)
    ensures FindExponent(a + "." + b) == -1
  {
    var s := a + "." + b;
    forall i | 0 <= i < |s| ensures s[i] != 'e' && s[i] != 'E' {
      if i < |a| { assert IsDigit(a[i]); }
      else if i > |a| { assert s[i] == b[i - |a| - 1]; assert IsDigit(b[i - |a| - 1]); }
    }
  }

  lemma {:induction false} RenderedMagnitude(t: string, n: nat)
    requires AllDigits(t) && |t| > n
    ensures ParseUnsignedFloat(PointText(t, n))
            == Some(Shifted(DigitsValue(t), n))
  {
    var a, b := t[..|t| - n], t[|t| - n..];
    assert AllDigits(a) && AllDigits(b);
    var s := a + "." + b;
    NoExponent(a, b);
    PointSplit(a, b);
    assert ParseUnsignedFloat(s) == ParseMantissa(s);
    assert a + b == t;
    DigitsValueAppend(a, b);
    assert |b| == n;
    Combine(DigitsValue(a), DigitsValue(b), Pow10(n), DigitsValue(t));
  }

  lemma Combine(a: nat, b: nat, p: nat, v: nat)
    requires p >= 1 && v == a * p + b
    ensures a as real + b as real / p as real == v as real / p as real
  {
    CastSum(a, b, p);
    DivideSum(a as real, b as real, p as real, v as real);
  }

  lemma CastSum(a: nat, b: nat, p: nat)
    ensures (a * p + b) as real == a as real * p as real + b as real
  {
  }

  lemma SignedParse(body: string, v: real, negative: bool)
    requires |body| > 0 && IsDigit(body[0]) && ParseUnsignedFloat(body) == Some(v)
    ensures ParseFloat(if negative then "-" + body else body) == Some(Signed(v, negative))
  {
    if negative {
      assert ("-" + body)[1..] == body;
    } else {
      assert !(body[0] == '-' || body[0] == '+');
    }
  }

  /** The digits `t` with a point before the last `n` of them. */
  function PointText(t: string, n: nat): string
    requires |t| > n
  {
    t[..|t| - n] + "." + t[|t| - n..]
  }

  /** Fixed-point text reads back as the value it was written from. */
  lemma FixedTextRoundTrip(q: nat, n: nat, negative: bool)
    ensures ParseFloat(FixedText(q, n, negative))
            == Some(Signed(Shifted(q, n), negative))
  {
    var t := PadDigits(NatText(q), n + 1);
    var body := PointText(t, n);
    RenderedMagnitude(t, n);
    assert IsDigit(t[0]) && body[0] == t[0];
    SignedParse(body, Shifted(q, n), negative);
  }

  lemma RenderFixedRoundTrip(x: real, n: nat)
    ensures ParseFloat(RenderFixed(x, n)) == Some(TruncatedTo(x, n))
  {
    FixedTextRoundTrip(ScaledMagnitude(x, n), n, x < 0.0);
  }

  /** `float(str(x))` gives back `x` up to the kept decimals. */
  lemma RenderRoundTrip(x: real)
    ensures ParseFloat(RenderReal(x)) == Some(Truncated(x))
  {
    RenderFixedRoundTrip(x, Decimals);
  }

  lemma PointTextWord(t: string, n: nat)
    requires AllDigits(t) && |t| > n
    ensures NoSpace(PointText(t, n)) && IsDigit(PointText(t, n)[0])
  {
    var body := PointText(t, n);
    var k := |t| - n;
    forall i | 0 <= i < |body| ensures !IsSpace(body[i]) {
      if i < k {
        assert body[i] == t[i] && IsDigit(t[i]);
      } else if i > k {
        assert body[i] == t[i - 1] && IsDigit(t[i - 1]);
      }
    }
  }

  lemma SignedWord(body: string)
    requires NoSpace(body)
    ensures NoSpace("-" + body)
  {
    var s := "-" + body;
    forall i | 0 <= i < |s| ensures !IsSpace(s[i]) {
      if i > 0 {
        assert s[i] == body[i - 1];
      }
    }
  }

  /** The rendered text is one word: digits, a point and perhaps a sign. */
  lemma RenderedWord(x: real)
    ensures |RenderReal(x)| > 0 && NoSpace(RenderReal(x))
  {
    var n := Decimals;
    var t := PadDigits(NatText(ScaledMagnitude(x, n)), n + 1);
    PointTextWord(t, n);
    SignedWord(PointText(t, n));
  }

  /** A value with at most `Decimals` decimals is written exactly. */
  lemma TruncatedExact(x: real, k: nat)
    requires x >= 0.0 && x * Pow10(Decimals) as real == k as real
    ensures Truncated(x) == x
  {
    TruncatedToExact(x, k, Decimals);
  }

  lemma TruncatedToExact(x: real, k: nat, n: nat)
    requires x >= 0.0 && x * Pow10(n) as real == k as real
    ensures TruncatedTo(x, n) == x
  {
    assert ScaledMagnitude(x, n) == k;
  }
}
