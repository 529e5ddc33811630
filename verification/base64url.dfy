/** Base 64 with the URL and filename safe alphabet (section 5 of RFC 4648),
    as `Base64.getUrlEncoder().withoutPadding()` writes it and
    `Base64.getUrlDecoder()` reads it. */
module Base64Url {
  import opened Wrappers
  import opened Bytes

  type Sextet = x: int | 0 <= x < 64

  /** Digit `v` of the alphabet `A-Z a-z 0-9 - _`. */
  function CharOf(v: Sextet): (c: char)
    ensures ValueOf(c) == Some(v)
    ensures c != '.' && c != '='
  {
    if v < 26 then ('A' as int + v) as char
    else if v < 52 then ('a' as int + (v - 26)) as char
    else if v < 62 then ('0' as int + (v - 52)) as char
    else if v == 62 then '-'
    else '_'
  }

  /** The digit a character stands for; `None` outside the alphabet. */
  function ValueOf(c: char): Option<Sextet>
  {
    if 'A' <= c <= 'Z' then Some(c as int - 'A' as int)
    else if 'a' <= c <= 'z' then Some(c as int - 'a' as int + 26)
    else if '0' <= c <= '9' then Some(c as int - '0' as int + 52)
    else if c == '-' then Some(62)
    else if c == '_' then Some(63)
    else None
  }

  predicate InAlphabet(c: char)
  {
    ValueOf(c).Some?
  }

  predicate AllInAlphabet(s: string)
  {
    forall i :: 0 <= i < |s| ==> InAlphabet(s[i])
  }

  function Val(c: char): Sextet
    requires InAlphabet(c)
  {
    ValueOf(c).value
  }

  /** The four digits of three bytes. */
  function EncodeUnit(x: Byte, y: Byte, z: Byte): (s: string)
    ensures |s| == 4
  {
    [CharOf(x / 4), CharOf((x % 4) * 16 + y / 16), CharOf((y % 16) * 4 + z / 64), CharOf(z % 64)]
  }

  /** Encoding without `=` padding: every 3 bytes become 4 digits, a final
      1 or 2 bytes become 2 or 3 digits. */
  function Encode(b: seq<Byte>): (s: string)
    ensures |s| == 0 <==> |b| == 0
    ensures |s| % 4 != 1
    ensures AllInAlphabet(s)
    ensures '.' !in s
  {
    if |b| == 0 then ""
    else if |b| == 1 then EncodeUnit(b[0], 0, 0)[..2]
    else if |b| == 2 then EncodeUnit(b[0], b[1], 0)[..3]
    else EncodeUnit(b[0], b[1], b[2]) + Encode(b[3..])
  }

  /** Three bytes from four digits. */
  function DecodeUnit(v0: Sextet, v1: Sextet, v2: Sextet, v3: Sextet): (b: seq<Byte>)
    ensures |b| == 3
  {
    [v0 * 4 + v1 / 16, (v1 % 16) * 16 + v2 / 4, (v2 % 4) * 64 + v3]
  }

  /** Digits to bytes, four digits to three bytes; a final 2 or 3 digits
      give 1 or 2 bytes, and their unused low bits are ignored. */
  function DecodeUnits(s: string): (b: seq<Byte>)
    requires AllInAlphabet(s) && |s| % 4 != 1
  {
    if |s| == 0 then []
    else if |s| == 2 then DecodeUnit(Val(s[0]), Val(s[1]), 0, 0)[..1]
    else if |s| == 3 then DecodeUnit(Val(s[0]), Val(s[1]), Val(s[2]), 0)[..2]
    else DecodeUnit(Val(s[0]), Val(s[1]), Val(s[2]), Val(s[3])) + DecodeUnits(s[4..])
  }

  /** Length of the longest prefix made of alphabet digits. */
  function DigitRun(s: string): (k: nat)
    ensures k <= |s| && AllInAlphabet(s[..k])
    ensures k < |s| ==> !InAlphabet(s[k])
  {
    if |s| == 0 || !InAlphabet(s[0]) then 0
    else
      var k := 1 + DigitRun(s[1..]);
      assert forall i :: 1 <= i < k ==> s[..k][i] == s[1..][..k - 1][i - 1];
      k
  }

  /** `Base64.getUrlDecoder().decode(s)`; `None` where it throws
      `IllegalArgumentException`. Padding is optional, but when present it
      must complete the last unit and end the input; a single dangling digit
      and any character outside the alphabet are rejected. */
  function Decode(s: string): (r: Option<seq<Byte>>)
    ensures r.Some? ==> forall i :: 0 <= i < |s| ==> InAlphabet(s[i]) || s[i] == '='
    ensures AllInAlphabet(s) ==> (r.None? <==> |s| % 4 == 1)
    ensures !AllInAlphabet(s) ==>
              (r.Some? <==> (DigitRun(s) % 4 == 2 && s[DigitRun(s)..] == "==") ||
                            (DigitRun(s) % 4 == 3 && s[DigitRun(s)..] == "="))
  {
    var k := DigitRun(s);
    if k == |s| then
      assert s[..k] == s;
      if |s| % 4 == 1 then None else Some(DecodeUnits(s))
    else if s[k] != '=' then
      assert s[k..][0] == s[k];
      None
    else if k % 4 == 2 && k + 2 == |s| && s[k + 1] == '=' then Some(DecodeUnits(s[..k]))
    else if k % 4 == 3 && k + 1 == |s| then Some(DecodeUnits(s[..k]))
    else None
  }

  /** Three bytes survive a trip through their four digits. */
  lemma UnitRoundTrip(x: Byte, y: Byte, z: Byte, v0: Sextet, v1: Sextet, v2: Sextet, v3: Sextet)
    requires v0 == x / 4 && v1 == (x % 4) * 16 + y / 16
    requires v2 == (y % 16) * 4 + z / 64 && v3 == z % 64
    ensures DecodeUnit(v0, v1, v2, v3) == [x, y, z]
  {
  }

  lemma DigitsOfUnit(x: Byte, y: Byte, z: Byte)
    ensures var s := EncodeUnit(x, y, z);
      && AllInAlphabet(s)
      && Val(s[0]) == x / 4 && Val(s[1]) == (x % 4) * 16 + y / 16
      && Val(s[2]) == (y % 16) * 4 + z / 64 && Val(s[3]) == z % 64
  {
  }

  lemma DecodeOneByte(x: Byte)
    ensures DecodeUnits(Encode([x])) == [x]
  {
    var s := Encode([x]);
    DigitsOfUnit(x, 0, 0);
    var u := EncodeUnit(x, 0, 0);
    UnitRoundTrip(x, 0, 0, Val(u[0]), Val(u[1]), Val(u[2]), Val(u[3]));
    assert Val(s[0]) == x / 4 && Val(s[1]) == (x % 4) * 16;
  }

  lemma DecodeTwoBytes(x: Byte, y: Byte)
    ensures DecodeUnits(Encode([x, y])) == [x, y]
  {
    var s := Encode([x, y]);
    DigitsOfUnit(x, y, 0);
    var u := EncodeUnit(x, y, 0);
    UnitRoundTrip(x, y, 0, Val(u[0]), Val(u[1]), Val(u[2]), Val(u[3]));
    assert Val(s[0]) == x / 4 && Val(s[1]) == (x % 4) * 16 + y / 16 && Val(s[2]) == (y % 16) * 4;
  }

  /** Three bytes survive a trip through their four digits. */
  lemma EncodeUnitRoundTrip(x: Byte, y: Byte, z: Byte)
    ensures var u := EncodeUnit(x, y, z);
      AllInAlphabet(u) && DecodeUnit(Val(u[0]), Val(u[1]), Val(u[2]), Val(u[3])) == [x, y, z]
  {
    var u := EncodeUnit(x, y, z);
    DigitsOfUnit(x, y, z);
    var v0, v1, v2, v3 := Val(u[0]), Val(u[1]), Val(u[2]), Val(u[3]);
    assert v0 == x / 4 && v1 == (x % 4) * 16 + y / 16;
    assert v2 == (y % 16) * 4 + z / 64 && v3 == z % 64;
    UnitRoundTrip(x, y, z, v0, v1, v2, v3);
  }

  /** Every 3 bytes become 4 digits; a final 1 or 2 bytes become 2 or 3. */
  lemma {:induction false} EncodeLength(b: seq<Byte>)
    ensures |b| % 3 == 0 ==> |Encode(b)| % 4 == 0
    ensures |b| % 3 == 1 ==> |Encode(b)| % 4 == 2
    ensures |b| % 3 == 2 ==> |Encode(b)| % 4 == 3
    decreases |b|
  {
    if |b| >= 3 {
      EncodeLength(b[3..]);
      EncodeHead(b);
      LengthStep(|b|, |Encode(b)|);
    }
  }

  /** The length relation survives one more unit. */
  lemma LengthStep(n: int, k: int)
    requires n >= 3 && k >= 4
    requires (n - 3) % 3 == 0 ==> (k - 4) % 4 == 0
    requires (n - 3) % 3 == 1 ==> (k - 4) % 4 == 2
    requires (n - 3) % 3 == 2 ==> (k - 4) % 4 == 3
    ensures n % 3 == 0 ==> k % 4 == 0
    ensures n % 3 == 1 ==> k % 4 == 2
    ensures n % 3 == 2 ==> k % 4 == 3
  {
  }

  /** A full leading unit decodes on its own. */
  lemma DecodeUnitsCons(u: string, t: string)
    requires |u| == 4 && AllInAlphabet(u) && AllInAlphabet(t) && |t| % 4 != 1
    ensures AllInAlphabet(u + t) && |u + t| % 4 != 1
    ensures DecodeUnits(u + t) == DecodeUnit(Val(u[0]), Val(u[1]), Val(u[2]), Val(u[3])) + DecodeUnits(t)
  {
    var s := u + t;
    assert forall i :: 0 <= i < |s| ==> s[i] == if i < 4 then u[i] else t[i - 4];
    assert s[4..] == t;
    assert s[0] == u[0] && s[1] == u[1] && s[2] == u[2] && s[3] == u[3];
  }

  /** A sequence of at least three is its first three and the rest. */
  lemma HeadThree<T>(b: seq<T>)
    requires |b| >= 3
    ensures b == [b[0], b[1], b[2]] + b[3..]
  {
    assert b[..3] == [b[0], b[1], b[2]];
    assert b == b[..3] + b[3..];
  }

  lemma EncodeHead(b: seq<Byte>)
    requires |b| >= 3
    ensures Encode(b) == EncodeUnit(b[0], b[1], b[2]) + Encode(b[3..])
  {
  }

  /** One full unit in front of bytes that already round-trip. */
  lemma DecodeUnitsEncodeStep(b: seq<Byte>)
    requires |b| >= 3 && DecodeUnits(Encode(b[3..])) == b[3..]
    ensures DecodeUnits(Encode(b)) == b
  {
    var u := EncodeUnit(b[0], b[1], b[2]);
    var t := Encode(b[3..]);
    EncodeHead(b);
    EncodeUnitRoundTrip(b[0], b[1], b[2]);
    assert DecodeUnit(Val(u[0]), Val(u[1]), Val(u[2]), Val(u[3])) == [b[0], b[1], b[2]];
    DecodeUnitsCons(u, t);
    assert DecodeUnits(u + t) == [b[0], b[1], b[2]] + b[3..];
    HeadThree(b);
  }

  lemma {:induction false} DecodeUnitsEncode(b: seq<Byte>)
    ensures DecodeUnits(Encode(b)) == b
    decreases |b|
  {
    if |b| == 1 {
      assert b == [b[0]];
      DecodeOneByte(b[0]);
    } else if |b| == 2 {
      assert b == [b[0], b[1]];
      DecodeTwoBytes(b[0], b[1]);
    } else if |b| >= 3 {
      DecodeUnitsEncode(b[3..]);
      DecodeUnitsEncodeStep(b);
    }
  }

  /** Decoding undoes encoding. */
  lemma DecodeEncode(b: seq<Byte>)
    ensures Decode(Encode(b)) == Some(b)
  {
    DecodeUnitsEncode(b);
    var s := Encode(b);
    assert DigitRun(s) == |s|;
  }

  /** The `=` padding a padded encoder would append. */
  function Padding(b: seq<Byte>): string
  {
    if |b| % 3 == 1 then "==" else if |b| % 3 == 2 then "=" else ""
  }

  lemma DigitRunStopsAt(e: string, rest: string)
    requires AllInAlphabet(e) && |rest| > 0 && !InAlphabet(rest[0])
    ensures DigitRun(e + rest) == |e|
  {
    var s := e + rest;
    assert s[|e|] == rest[0];
  }

  /** The decoder also accepts the padded form of the same bytes. */
  lemma DecodeAcceptsPadding(b: seq<Byte>)
    ensures Decode(Encode(b) + Padding(b)) == Some(b)
  {
    var e := Encode(b);
    var s := e + Padding(b);
    if Padding(b) == "" {
      assert s == e;
      DecodeEncode(b);
    } else {
      EncodeLength(b);
      DecodeUnitsEncode(b);
      DigitRunStopsAt(e, Padding(b));
      assert s[..|e|] == e;
      assert s[|e|] == '=';
    }
  }
}
