/** Java `long` semantics used by the token code: two's-complement
    wrap-around on `+`, division that truncates toward zero, `%d`
    formatting and `Long.parseLong`. */
module JavaLong {
  import opened Wrappers

  const MinLong: int := -0x8000_0000_0000_0000
  const MaxLong: int := 0x7FFF_FFFF_FFFF_FFFF

  type Long = x: int | MinLong <= x <= MaxLong

  /** `a + b` on `long`: the exact sum wrapped into 64 bits. */
  function Add(a: Long, b: Long): (r: Long)
    ensures MinLong <= a + b <= MaxLong ==> r == a + b
    ensures a + b > MaxLong ==> r == a + b - 0x1_0000_0000_0000_0000
    ensures a + b < MinLong ==> r == a + b + 0x1_0000_0000_0000_0000
  {
    var t := a + b;
    if t > MaxLong then t - 0x1_0000_0000_0000_0000
    else if t < MinLong then t + 0x1_0000_0000_0000_0000
    else t
  }

  /** `a / 1000` on `long`. */
  function Div1000(a: Long): Long
  {
    var x: int := a;
    if x >= 0 then x / 1000 else -((-x) / 1000)
  }

  /** The quotient rounds toward zero, so negative values round up. */
  lemma Div1000Truncates(a: Long)
    ensures a >= 0 ==> Div1000(a) * 1000 <= a < Div1000(a) * 1000 + 1000
    ensures a < 0 ==> Div1000(a) * 1000 - 1000 < a <= Div1000(a) * 1000
  {
  }

  /** Truncating division by 1000 never reverses an order. */
  lemma Div1000Monotone(a: Long, b: Long)
    requires a <= b
    ensures Div1000(a) <= Div1000(b)
  {
    Div1000Truncates(a);
    Div1000Truncates(b);
  }

  predicate IsDigit(c: char)
  {
    '0' <= c <= '9'
  }

  function DigitChar(d: int): (c: char)
    requires 0 <= d < 10
    ensures IsDigit(c)
  {
    ('0' as int + d) as char
  }

  /** Decimal digits of `n`, most significant first, no leading zero. */
  function Digits(n: nat): (ds: string)
    ensures 1 <= |ds|
    ensures forall i :: 0 <= i < |ds| ==> IsDigit(ds[i])
    decreases n
  {
    if n < 10 then [DigitChar(n)] else Digits(n / 10) + [DigitChar(n % 10)]
  }

  /** `String.format("%d", n)`: an optional minus sign and the digits. */
  function Format(n: int): (s: string)
    ensures 1 <= |s|
    ensures forall i :: 0 <= i < |s| ==> IsDigit(s[i]) || s[i] == '-'
  {
    if n < 0 then "-" + Digits(-n) else Digits(n)
  }

  function DigitValue(c: char): (d: nat)
    requires IsDigit(c)
    ensures d < 10
  {
    c as int - '0' as int
  }

  /** Value of a string of decimal digits. */
  function DigitsValue(ds: string): nat
    requires forall i :: 0 <= i < |ds| ==> IsDigit(ds[i])
  {
    if |ds| == 0 then 0
    else 10 * DigitsValue(ds[..|ds| - 1]) + DigitValue(ds[|ds| - 1])
  }

  predicate AllDigits(s: string)
  {
    forall i :: 0 <= i < |s| ==> IsDigit(s[i])
  }

  /** `Long.parseLong(s)`: an optional `-` or `+`, then at least one
      decimal digit, with a value that fits in 64 bits; anything else
      throws `NumberFormatException` (here: `None`). */
  function Parse(s: string): (r: Option<Long>)
    ensures r.Some? ==> 1 <= |s|
    ensures r.Some? && AllDigits(s) ==> r.value == DigitsValue(s)
    ensures |s| == 0 ==> r == None
    ensures (exists i :: 0 <= i < |s| && !IsDigit(s[i]) && s[i] != '-' && s[i] != '+') ==> r == None
    ensures r.Some? ==> forall i :: 1 <= i < |s| ==> IsDigit(s[i])
    ensures r.Some? ==> IsDigit(s[0]) || (2 <= |s| && (s[0] == '-' || s[0] == '+'))
    ensures 1 <= |s| && AllDigits(s) ==> (r.Some? <==> DigitsValue(s) <= MaxLong)
    ensures 1 <= |s| && AllDigits(s) && DigitsValue(s) <= MaxLong ==> r == Some(DigitsValue(s))
    ensures 2 <= |s| && s[0] == '+' && AllDigits(s[1..]) ==>
              r == (if DigitsValue(s[1..]) <= MaxLong then Some(DigitsValue(s[1..])) else None)
    ensures 2 <= |s| && s[0] == '-' && AllDigits(s[1..]) ==>
              r == (if DigitsValue(s[1..]) <= -MinLong then Some(-(DigitsValue(s[1..]) as int)) else None)
  {
    if |s| == 0 then None
    else
      var neg := s[0] == '-';
      var body := if s[0] == '-' || s[0] == '+' then s[1..] else s;
      if |body| == 0 || !AllDigits(body) then None
      else
        var mag: int := DigitsValue(body);
        var v := if neg then -mag else mag;
        if MinLong <= v <= MaxLong then Some(v) else None
  }

  lemma {:induction false} DigitsValueOfDigits(n: nat)
    ensures DigitsValue(Digits(n)) == n
    decreases n
  {
    if n >= 10 {
      DigitsValueOfDigits(n / 10);
      var ds := Digits(n);
      assert ds[..|ds| - 1] == Digits(n / 10);
    }
  }

  /** `%d` and `parseLong` are inverse on every `long`. */
  lemma ParseFormat(n: Long)
    ensures Parse(Format(n)) == Some(n)
  {
    var m: int := n;
    DigitsValueOfDigits(if m < 0 then -m else m);
    if n < 0 {
      assert Format(n)[1..] == Digits(-m);
    }
  }
}
