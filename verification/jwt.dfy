/** The hand-rolled JSON Web Tokens of `JwtUtil.java`: an HS256 header and
    a `sub`/`iat`/`exp` payload, each Base 64 URL encoded, then an HMAC of
    the two. The reader pulls the claims out of the payload by substring
    search and never checks the signature. */
module Jwt {
  import opened Wrappers
  import opened Bytes
  import opened Text
  import opened JavaLong
  import Base64Url
  import Utf8

  /** An HMAC-SHA256 digest is 32 bytes. */
  type Digest = d: seq<Byte> | |d| == 32 witness seq(32, _ => 0)

  /** The `jwt.secret` and `jwt.expiration` properties, and HMAC-SHA256 as
      a function of key bytes and message bytes (its internals are not part
      of this model). */
  datatype JwtConfig = JwtConfig(secret: string, expiration: Long, hmac: (seq<Byte>, seq<Byte>) -> Digest)

  const Header: string := "{\"alg\":\"HS256\",\"typ\":\"JWT\"}"
  const SubKey: string := "\"sub\":\""
  const ExpKey: string := "\"exp\":"
  /** The message of the exception `hmacSha256` throws when the key is rejected. */
  const HmacError: string := "Error generating HMAC"

  /** The payload text `String.format` builds: the username goes in
      verbatim, without JSON escaping. */
  function Claims(username: string, iat: Long, exp: Long): string
  {
    "{" + SubKey + username + "\",\"iat\":" + Format(iat) + "," + ExpKey + Format(exp) + "}"
  }

  /** UTF-8 bytes of `text`, Base 64 URL encoded without padding. */
  function EncodeSegment(text: string): (seg: string)
    ensures '.' !in seg
  {
    Base64Url.Encode(Utf8.Encode(text))
  }

  /** A segment decodes to the UTF-8 bytes of its text. */
  lemma DecodeSegment(text: string)
    ensures Base64Url.Decode(EncodeSegment(text)) == Some(Utf8.Encode(text))
  {
    Base64Url.DecodeEncode(Utf8.Encode(text));
  }

  /** `hmacSha256`: `SecretKeySpec` refuses an empty key, which surfaces as
      a `RuntimeException` with `HmacError`; otherwise the encoded digest,
      which is never empty and never contains a dot. */
  function Sign(data: string, cfg: JwtConfig): (r: Result<string, string>)
    ensures r.Failure? <==> cfg.secret == ""
    ensures r.Failure? ==> r.error == HmacError
    ensures r.Success? ==> r.value != "" && '.' !in r.value
  {
    var key := Utf8.Encode(cfg.secret);
    if |key| == 0 then Failure(HmacError)
    else Success(Base64Url.Encode(cfg.hmac(key, Utf8.Encode(data))))
  }

  /** The token for a payload text: encoded header and payload, then the
      signature of the two joined by a dot. */
  function SignedToken(cfg: JwtConfig, claims: string): (r: Result<string, string>)
    ensures r.Failure? <==> cfg.secret == ""
    ensures r.Failure? ==> r.error == HmacError
    ensures r.Success? ==> r.value != ""
  {
    var h := EncodeSegment(Header);
    var c := EncodeSegment(claims);
    match Sign(h + "." + c, cfg)
    case Failure(e) => Failure(e)
    case Success(sig) =>
      Success(h + "." + c + "." + sig)
  }

  /** `generateToken(username)` at clock reading `now` (milliseconds):
      `iat` is `now / 1000` and `exp` is `(now + expiration) / 1000`, the
      sum wrapping around as a Java `long` does. */
  function GenerateToken(cfg: JwtConfig, username: string, now: Long): (r: Result<string, string>)
    ensures r.Failure? <==> cfg.secret == ""
    ensures r.Failure? ==> r.error == HmacError
    ensures r.Success? ==> r.value != ""
  {
    SignedToken(cfg, Claims(username, Div1000(now), Div1000(Add(now, cfg.expiration))))
  }

  /** Three dot-free parts joined by dots, the last non-empty, split back apart. */
  lemma ThreeParts(a: string, b: string, c: string)
    requires '.' !in a && '.' !in b && '.' !in c && c != ""
    ensures JavaSplit(a + "." + b + "." + c, '.') == [a, b, c]
    ensures a + "." + b + "." + c != ""
  {
    JavaSplitThree(a, b, c, '.');
  }

  /** The payload text of a token as both readers compute it: split on
      dots, exactly three parts, Base 64 URL decode the middle one (a
      malformed one throws), read the bytes as UTF-8. */
  function PayloadOf(token: string): (r: Option<string>)
    ensures r.Some? ==> |JavaSplit(token, '.')| == 3
    ensures r.Some? ==> Base64Url.Decode(JavaSplit(token, '.')[1]).Some?
  {
    var parts := JavaSplit(token, '.');
    if |parts| != 3 then None
    else
      match Base64Url.Decode(parts[1])
      case None => None
      case Some(bytes) => Some(Utf8.Decode(bytes))
  }

  /** `p[start..end]` is the `sub` value as `extractUsername` cuts it:
      `start` follows the first `"sub":"` and `end` is the first quote from
      there on. */
  predicate SubSpan(p: string, start: int, end: int)
  {
    |SubKey| <= start && FirstAt(p, SubKey, start - |SubKey|) && FirstCharFrom(p, '"', start, end)
  }

  /** The text between the first `"sub":"` and the next quote, if both are
      there: a payload has a `sub` value exactly when it has a span, and the
      value is that span. */
  function SubClaim(payload: string): (r: Option<string>)
    ensures (forall k :: 0 <= k <= |payload| ==> !OccursAt(payload, SubKey, k)) ==> r.None?
    ensures r.Some? ==> '"' !in r.value
    ensures forall start, end :: SubSpan(payload, start, end) ==> r == Some(payload[start..end])
    ensures r.Some? ==> exists start, end :: SubSpan(payload, start, end) && r.value == payload[start..end]
  {
    var i := IndexOf(payload, SubKey, 0);
    SubSpanOfSearch(payload);
    if i == -1 then None
    else
      var start := i + |SubKey|;
      var end := IndexOf(payload, "\"", start);
      IndexOfChar(payload, '"', start);
      if end == -1 then None
      else
        assert SubSpan(payload, start, end);
        Some(payload[start..end])
  }

  /** Every span starts where the search for the key puts it and ends at
      the quote the next search finds. */
  lemma SubSpanOfSearch(p: string)
    ensures IndexOf(p, SubKey, 0) != -1 ==> FirstAt(p, SubKey, IndexOf(p, SubKey, 0))
    ensures forall start, end :: SubSpan(p, start, end) ==>
              start == IndexOf(p, SubKey, 0) + |SubKey| && end == IndexOf(p, "\"", start)
  {
    IndexOfFirstAt(p, SubKey);
    forall start, end | SubSpan(p, start, end)
      ensures end == IndexOf(p, "\"", start)
    {
      IndexOfChar(p, '"', start);
    }
  }

  /** `extractUsername`: `None` stands for the `null` of every failure. */
  function ExtractUsername(token: string): (r: Option<string>)
    ensures PayloadOf(token).None? ==> r.None?
    ensures PayloadOf(token).Some? ==> r == SubClaim(PayloadOf(token).value)
  {
    match PayloadOf(token)
    case None => None
    case Some(payload) => SubClaim(payload)
  }

  /** The number after the `exp` key ends at `end`: the first comma from
      `start` on, or, when no comma follows, the first closing brace. */
  predicate NumberEnd(p: string, start: int, end: int)
  {
    0 <= start <= |p| &&
    if ',' in p[start..] then FirstCharFrom(p, ',', start, end) else FirstCharFrom(p, '}', start, end)
  }

  /** `p[start..end]` is the text `isTokenExpired` hands to `parseLong`:
      `start` follows the first `"exp":` and `end` is where the number ends. */
  predicate ExpSpan(p: string, start: int, end: int)
  {
    |ExpKey| <= start && FirstAt(p, ExpKey, start - |ExpKey|) && NumberEnd(p, start, end)
  }

  /** No span of `p` holds a number `parseLong` accepts: the key is
      missing, nothing ends the number, or the text is not a `long`. */
  ghost predicate ExpUnreadable(p: string)
  {
    forall start, end :: ExpSpan(p, start, end) ==> Parse(p[start..end]).None?
  }

  /** The number after the first `"exp":`, up to the next comma, or failing
      that the next closing brace; `None` where `isTokenExpired` gives up.
      A payload has an `exp` exactly when it has a span that `parseLong`
      accepts: no key, no terminator or an unreadable number all give `None`. */
  function ExpClaim(payload: string): (r: Option<Long>)
    ensures (forall k :: 0 <= k <= |payload| ==> !OccursAt(payload, ExpKey, k)) ==> r.None?
    ensures forall start, end :: ExpSpan(payload, start, end) ==> r == Parse(payload[start..end])
    ensures r.Some? ==> exists start, end :: ExpSpan(payload, start, end) && r == Parse(payload[start..end])
  {
    var i := IndexOf(payload, ExpKey, 0);
    ExpSpanOfSearch(payload);
    if i == -1 then None
    else
      var start := i + |ExpKey|;
      var end := NumberEndIndex(payload, start);
      if end == -1 then None
      else
        assert ExpSpan(payload, start, end);
        Parse(payload[start..end])
  }

  /** Every span starts where the search for the key puts it and ends
      where the search for the terminator does. */
  lemma ExpSpanOfSearch(p: string)
    ensures IndexOf(p, ExpKey, 0) != -1 ==> FirstAt(p, ExpKey, IndexOf(p, ExpKey, 0))
    ensures forall start, end :: ExpSpan(p, start, end) ==>
              start == IndexOf(p, ExpKey, 0) + |ExpKey| && end == NumberEndIndex(p, start)
  {
    IndexOfFirstAt(p, ExpKey);
  }

  /** Where the number after the `exp` key ends: `indexOf(",", start)`,
      or when that fails `indexOf("}", start)`. The search finds the one
      place `NumberEnd` describes, and -1 when there is none. */
  function NumberEndIndex(p: string, start: int): (end: int)
    requires 0 <= start <= |p|
    ensures end == -1 ==> forall e :: !NumberEnd(p, start, e)
    ensures end != -1 ==> NumberEnd(p, start, end)
    ensures forall e :: NumberEnd(p, start, e) ==> e == end
  {
    IndexOfChar(p, ',', start);
    IndexOfChar(p, '}', start);
    var comma := IndexOf(p, ",", start);
    if comma == -1 then IndexOf(p, "}", start) else comma
  }

  /** `isTokenExpired` at clock reading `now`: every failure to read an
      `exp` counts as expired; otherwise the token is expired once the
      current second is past `exp`. */
  function IsTokenExpired(token: string, now: Long): (expired: bool)
    ensures PayloadOf(token).None? ==> expired
    ensures PayloadOf(token).Some? && ExpUnreadable(PayloadOf(token).value) ==> expired
    ensures PayloadOf(token).Some? && ExpClaim(PayloadOf(token).value).None? ==> expired
    ensures PayloadOf(token).Some? && ExpClaim(PayloadOf(token).value).Some? ==>
              (expired <==> Div1000(now) > ExpClaim(PayloadOf(token).value).value)
  {
    match PayloadOf(token)
    case None => true
    case Some(payload) =>
      match ExpClaim(payload)
      case None => true
      case Some(exp) => Div1000(now) > exp
  }

  /** `validateToken` for a user called `username`: the token names that
      user and has not expired. The signature plays no part. What this
      means for real tokens is stated by `GeneratedTokenValidates` (a
      generated token), `ValidateIgnoresSignature` (header and signature
      are never looked at) and `ForgedTokenValidates` (a token built
      without the secret). */
  function ValidateToken(token: string, username: string, now: Long): (ok: bool)
    ensures ok <==> ExtractUsername(token) == Some(username) && !IsTokenExpired(token, now)
    ensures ok ==> PayloadOf(token).Some?
  {
    match ExtractUsername(token)
    case None => false
    case Some(name) => name == username && !IsTokenExpired(token, now)
  }

  /** The username cut at its first quote, which is what survives a trip
      through the payload. */
  function UpToQuote(s: string): (r: string)
    ensures |r| <= |s| && r == s[..|r|]
    ensures '"' !in r
    ensures |r| < |s| ==> s[|r|] == '"'
  {
    if |s| == 0 || s[0] == '"' then "" else [s[0]] + UpToQuote(s[1..])
  }

  /** A token whose middle part is an encoded text carries that text,
      whatever its header and signature. */
  lemma PayloadOfParts(h: string, text: string, sig: string)
    requires '.' !in h && '.' !in sig && sig != ""
    ensures PayloadOf(h + "." + EncodeSegment(text) + "." + sig) == Some(text)
  {
    var seg := EncodeSegment(text);
    ThreeParts(h, seg, sig);
    DecodeSegment(text);
    Utf8.DecodeEncode(text);
  }

  /** A quote-free username survives whole. */
  lemma {:induction false} UpToQuoteOfQuoteFree(s: string)
    requires '"' !in s
    ensures UpToQuote(s) == s
  {
    if |s| > 0 {
      assert s == [s[0]] + s[1..];
      UpToQuoteOfQuoteFree(s[1..]);
    }
  }

  /** A signed token is the compact serialisation of section 7.1 of
      RFC 7515: three segments that decode to the header, the payload and
      the HMAC of the first two segments joined by a dot. */
  lemma SignedParts(cfg: JwtConfig, claims: string)
    requires cfg.secret != ""
    ensures var parts := JavaSplit(SignedToken(cfg, claims).value, '.');
            && |parts| == 3
            && Base64Url.Decode(parts[0]) == Some(Utf8.Encode(Header))
            && Base64Url.Decode(parts[1]) == Some(Utf8.Encode(claims))
            && Base64Url.Decode(parts[2]) ==
                 Some(cfg.hmac(Utf8.Encode(cfg.secret), Utf8.Encode(parts[0] + "." + parts[1])))
  {
    var h, c := EncodeSegment(Header), EncodeSegment(claims);
    var mac := cfg.hmac(Utf8.Encode(cfg.secret), Utf8.Encode(h + "." + c));
    var sig := Base64Url.Encode(mac);
    SignWithKey(h + "." + c, cfg);
    assert SignedToken(cfg, claims) == Success(h + "." + c + "." + sig);
    EncodedParts(Header, claims, mac);
    var parts := JavaSplit(SignedToken(cfg, claims).value, '.');
    assert parts == [h, c, sig];
    assert parts[0] == h && parts[1] == c && parts[2] == sig;
  }

  /** With a key, the signature is the encoded HMAC of the data under the
      secret's UTF-8 bytes. */
  lemma SignWithKey(data: string, cfg: JwtConfig)
    requires cfg.secret != ""
    ensures Sign(data, cfg) == Success(Base64Url.Encode(cfg.hmac(Utf8.Encode(cfg.secret), Utf8.Encode(data))))
  {
  }

  /** Two encoded texts and an encoded digest, joined by dots, split and
      decode back into what was encoded. */
  lemma EncodedParts(a: string, b: string, mac: Digest)
    ensures var h, c, sig := EncodeSegment(a), EncodeSegment(b), Base64Url.Encode(mac);
            && JavaSplit(h + "." + c + "." + sig, '.') == [h, c, sig]
            && Base64Url.Decode(h) == Some(Utf8.Encode(a))
            && Base64Url.Decode(c) == Some(Utf8.Encode(b))
            && Base64Url.Decode(sig) == Some(mac)
  {
    var h, c, sig := EncodeSegment(a), EncodeSegment(b), Base64Url.Encode(mac);
    ThreeParts(h, c, sig);
    DecodeSegment(a);
    DecodeSegment(b);
    Base64Url.DecodeEncode(mac);
  }

  /** A token that could be signed carries exactly the claims of its user and clock. */
  lemma GeneratedPayload(cfg: JwtConfig, username: string, now: Long)
    requires cfg.secret != ""
    ensures GenerateToken(cfg, username, now).Success?
    ensures |JavaSplit(GenerateToken(cfg, username, now).value, '.')| == 3
    ensures PayloadOf(GenerateToken(cfg, username, now).value) ==
              Some(Claims(username, Div1000(now), Div1000(Add(now, cfg.expiration))))
  {
    SignedPayload(cfg, Claims(username, Div1000(now), Div1000(Add(now, cfg.expiration))));
  }

  lemma SignedPayload(cfg: JwtConfig, claims: string)
    requires cfg.secret != ""
    ensures PayloadOf(SignedToken(cfg, claims).value) == Some(claims)
  {
    var h := EncodeSegment(Header);
    var sig := Sign(h + "." + EncodeSegment(claims), cfg).value;
    assert SignedToken(cfg, claims).value == h + "." + EncodeSegment(claims) + "." + sig;
    PayloadOfParts(h, claims, sig);
  }

  /** Reading `sub` back from a payload that starts `{"sub":"`, continues
      with the username and then a quote, yields the username up to its
      first quote. */
  lemma SubClaimAfterKey(username: string, rest: string)
    requires |rest| > 0 && rest[0] == '"'
    ensures SubClaim("{" + SubKey + username + rest) == Some(UpToQuote(username))
  {
    var x := "{" + SubKey;
    var p := x + username + rest;
    MismatchAt(p, SubKey, 0, 0);
    assert p[1..8] == SubKey;
    IndexOfFirst(p, SubKey, 0, 1);
    QuoteScan(x, username, rest);
  }

  /** Scanning from the start of the username, the first quote is the
      username's own first quote, or the one that follows it. */
  lemma QuoteScan(x: string, username: string, rest: string)
    requires |rest| > 0 && rest[0] == '"'
    ensures var p := x + username + rest;
            IndexOf(p, "\"", |x|) == |x| + |UpToQuote(username)| &&
            p[|x|..|x| + |UpToQuote(username)|] == UpToQuote(username)
  {
    var p := x + username + rest;
    var n := |x|;
    var u := UpToQuote(username);
    var q := |u|;
    assert p[n..n + q] == u by {
      assert p[n..n + |username|] == username;
    }
    assert p[n + q] == '"' by {
      if q < |username| {
        assert p[n + q] == username[q];
      } else {
        assert p[n + q] == rest[0];
      }
    }
    assert FirstCharFrom(p, '"', n, n + q);
    IndexOfChar(p, '"', n);
  }

  lemma SubClaimOfClaims(username: string, iat: Long, exp: Long)
    ensures SubClaim(Claims(username, iat, exp)) == Some(UpToQuote(username))
  {
    var rest := "\",\"iat\":" + Format(iat) + "," + ExpKey + Format(exp) + "}";
    Regroup("{" + SubKey + username, "\",\"iat\":", Format(iat), ",", ExpKey, Format(exp), "}");
    SubClaimAfterKey(username, rest);
  }

  /** Concatenation regrouped so the pieces after `x` form one tail. */
  lemma Regroup(x: string, a: string, b: string, c: string, d: string, e: string, f: string)
    ensures x + a + b + c + d + e + f == x + (a + b + c + d + e + f)
  {
  }

  /** Characters `%d` can print. */
  predicate Numeral(s: string)
  {
    forall i :: 0 <= i < |s| ==> IsDigit(s[i]) || s[i] == '-'
  }

  /** With a quote-free username, no `"exp":` occurs before the real one:
      the search for `"exp":` in the claims lands on the `exp` claim. */
  lemma FirstExpKey(username: string, iat: string, exp: string)
    requires '"' !in username && |iat| > 0 && Numeral(iat)
    ensures var p := "{" + SubKey + username + "\",\"iat\":" + iat + "," + ExpKey + exp + "}";
            IndexOf(p, ExpKey, 0) == 17 + |username| + |iat|
  {
    var p := "{" + SubKey + username + "\",\"iat\":" + iat + "," + ExpKey + exp + "}";
    var q := 8 + |username|;
    var r := q + 8 + |iat|;
    forall m | 0 <= m < r + 1
      ensures !OccursAt(p, ExpKey, m)
    {
      if m < 7 {
        assert p[m + 1] != 'e';
        MismatchAt(p, ExpKey, m, 1);
      } else if m == 7 {
        if |username| == 0 || username[0] != 'e' {
          MismatchAt(p, ExpKey, m, 1);
        } else if |username| >= 4 {
          assert p[11] == username[3];
          MismatchAt(p, ExpKey, m, 4);
        } else {
          assert p[12] != ':';
          MismatchAt(p, ExpKey, m, 5);
        }
      } else if m < q {
        assert p[m] == username[m - 8];
        MismatchAt(p, ExpKey, m, 0);
      } else if m < q + 8 {
        assert p[m + 1] != 'e';
        MismatchAt(p, ExpKey, m, 1);
      } else if m < r {
        assert p[m] == iat[m - q - 8];
        MismatchAt(p, ExpKey, m, 0);
      } else {
        assert p[m] == ',';
        MismatchAt(p, ExpKey, m, 0);
      }
    }
    assert p[r + 1..r + 7] == ExpKey;
    IndexOfFirst(p, ExpKey, 0, r + 1);
  }

  /** After the `exp` key the scan finds no comma and stops at the closing
      brace, so the number read is exactly the one printed. */
  lemma NumberThenBrace(x: string, e: string)
    requires Numeral(e)
    ensures IndexOf(x + e + "}", ",", |x|) == -1
    ensures IndexOf(x + e + "}", "}", |x|) == |x| + |e|
    ensures (x + e + "}")[|x|..|x| + |e|] == e
  {
    var p := x + e + "}";
    forall m | |x| <= m <= |p|
      ensures !OccursAt(p, ",", m)
    {
      if m < |p| - 1 {
        assert p[m] == e[m - |x|];
        OccursChar(p, ',', m);
      } else if m == |p| - 1 {
        OccursChar(p, ',', m);
      }
    }
    IndexOfAbsent(p, ",", |x|);
    forall m | |x| <= m < |p| - 1
      ensures !OccursAt(p, "}", m)
    {
      assert p[m] == e[m - |x|];
      OccursChar(p, '}', m);
    }
    OccursChar(p, '}', |p| - 1);
    IndexOfFirst(p, "}", |x|, |p| - 1);
  }

  /** With a quote-free username the `exp` read back is the one written. */
  lemma ExpClaimOfClaims(username: string, iat: Long, exp: Long)
    requires '"' !in username
    ensures ExpClaim(Claims(username, iat, exp)) == Some(exp)
  {
    var i, e := Format(iat), Format(exp);
    var x := "{" + SubKey + username + "\",\"iat\":" + i + "," + ExpKey;
    var p := x + e + "}";
    assert Claims(username, iat, exp) == p;
    assert |x| == 23 + |username| + |i|;
    FirstExpKey(username, i, e);
    NumberThenBrace(x, e);
    ParseFormat(exp);
    ExpClaimOfParts(p, x, e, exp);
  }

  /** `isTokenExpired`'s reading of a payload laid out as `x`, then the
      number, then the closing brace. */
  lemma ExpClaimOfParts(p: string, x: string, e: string, n: Long)
    requires p == x + e + "}" && |x| >= |ExpKey|
    requires IndexOf(p, ExpKey, 0) == |x| - |ExpKey|
    requires IndexOf(p, ",", |x|) == -1 && IndexOf(p, "}", |x|) == |x| + |e|
    requires p[|x|..|x| + |e|] == e && Parse(e) == Some(n)
    ensures ExpClaim(p) == Some(n)
  {
  }

  /** A generated token names its user, cut at the first quote. */
  lemma ExtractAfterGenerate(cfg: JwtConfig, username: string, now: Long)
    requires cfg.secret != ""
    ensures ExtractUsername(GenerateToken(cfg, username, now).value) == Some(UpToQuote(username))
  {
    GeneratedPayload(cfg, username, now);
    SubClaimOfClaims(username, Div1000(now), Div1000(Add(now, cfg.expiration)));
  }

  /** A generated token for a quote-free username expires exactly when
      the clock's second passes `(now + expiration) / 1000`. */
  lemma ExpiryOfGenerated(cfg: JwtConfig, username: string, now: Long, later: Long)
    requires cfg.secret != "" && '"' !in username
    ensures IsTokenExpired(GenerateToken(cfg, username, now).value, later) <==>
              Div1000(later) > Div1000(Add(now, cfg.expiration))
  {
    GeneratedPayload(cfg, username, now);
    ExpClaimOfClaims(username, Div1000(now), Div1000(Add(now, cfg.expiration)));
  }

  /** Validation reduces to the two claims read from the payload. */
  lemma ValidateFromClaims(token: string, username: string, now: Long, p: string, name: string)
    requires PayloadOf(token) == Some(p) && SubClaim(p) == Some(name)
    ensures ValidateToken(token, username, now) <==> name == username && !IsTokenExpired(token, now)
  {
  }

  lemma ExpiredFromClaims(token: string, now: Long, p: string, e: Long)
    requires PayloadOf(token) == Some(p) && ExpClaim(p) == Some(e)
    ensures IsTokenExpired(token, now) <==> Div1000(now) > e
  {
  }

  /** A generated token validates for its own user exactly when the
      username has no quote and the token has not yet expired. */
  lemma GeneratedTokenValidates(cfg: JwtConfig, username: string, now: Long, later: Long)
    requires cfg.secret != ""
    ensures ValidateToken(GenerateToken(cfg, username, now).value, username, later) <==>
              '"' !in username && Div1000(later) <= Div1000(Add(now, cfg.expiration))
  {
    var e := Div1000(Add(now, cfg.expiration));
    var p := Claims(username, Div1000(now), e);
    var token := GenerateToken(cfg, username, now).value;
    GeneratedPayload(cfg, username, now);
    SubClaimOfClaims(username, Div1000(now), e);
    ValidateFromClaims(token, username, later, p, UpToQuote(username));
    if '"' !in username {
      ExpClaimOfClaims(username, Div1000(now), e);
      ExpiredFromClaims(token, later, p, e);
    } else {
      assert UpToQuote(username) != username;
    }
  }

  /** With a non-negative lifetime that does not overflow, a token is valid
      the moment it is issued. */
  lemma FreshTokenValid(cfg: JwtConfig, username: string, now: Long)
    requires cfg.secret != "" && '"' !in username
    requires 0 <= cfg.expiration && now + cfg.expiration <= MaxLong
    ensures ValidateToken(GenerateToken(cfg, username, now).value, username, now)
  {
    GeneratedTokenValidates(cfg, username, now, now);
    Div1000Monotone(now, Add(now, cfg.expiration));
  }

  /** A lifetime long enough to overflow `now + expiration` wraps to a
      negative instant: from the second second of the epoch on, such a
      token is already expired when it is issued. */
  lemma WrappedExpiryIsExpired(cfg: JwtConfig, username: string, now: Long)
    requires cfg.secret != "" && '"' !in username
    requires 1000 <= now && now + cfg.expiration > MaxLong
    ensures !ValidateToken(GenerateToken(cfg, username, now).value, username, now)
  {
    GeneratedTokenValidates(cfg, username, now, now);
    Div1000Monotone(Add(now, cfg.expiration), 0);
    Div1000Monotone(1000, now);
  }

  /** Header and signature play no part in validation: only the middle
      part is read. */
  lemma ValidateIgnoresSignature(h1: string, h2: string, payload: string, s1: string, s2: string,
                                 username: string, now: Long)
    requires '.' !in h1 && '.' !in h2 && '.' !in payload && '.' !in s1 && '.' !in s2
    requires s1 != "" && s2 != ""
    ensures ValidateToken(h1 + "." + payload + "." + s1, username, now) ==
            ValidateToken(h2 + "." + payload + "." + s2, username, now)
  {
    JavaSplitThree(h1, payload, s1, '.');
    JavaSplitThree(h2, payload, s2, '.');
  }

  /** Anyone can mint a token: any dot-free header, claims of one's
      choosing and a made-up signature validate for a quote-free user
      until the chosen `exp`. */
  lemma ForgedTokenValidates(header: string, sig: string, username: string, iat: Long, exp: Long, now: Long)
    requires '.' !in header && '.' !in sig && sig != ""
    requires '"' !in username && Div1000(now) <= exp
    ensures ValidateToken(header + "." + EncodeSegment(Claims(username, iat, exp)) + "." + sig, username, now)
  {
    var p := Claims(username, iat, exp);
    var token := header + "." + EncodeSegment(p) + "." + sig;
    PayloadOfParts(header, p, sig);
    SubClaimOfClaims(username, iat, exp);
    ExpClaimOfClaims(username, iat, exp);
    UpToQuoteOfQuoteFree(username);
    ValidateFromClaims(token, username, now, p, username);
    ExpiredFromClaims(token, now, p, exp);
  }
}
