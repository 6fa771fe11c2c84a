/**
 `signJwt` and `verifyJwt`: compact serialization (section 7.1 of RFC 7515) over base64url.
 JSON, UTF-8, HMAC-SHA256 and what a lenient decoder makes of strings that are not base64 are parameters;
 of JSON only the round trip is assumed.
 */
module Jwt {
  import opened Wrappers
  import opened Base64Url

  datatype Claims = Claims(sub: string, sid: string)

  /** Times in seconds. */
  datatype Payload = Payload(sub: string, sid: string, iat: int, exp: int)

  /**
   What a body can hold: a payload as `signJwt` writes it, or any other text with what comparing its `exp`
   comes to.
   */
  datatype Content = Signed(payload: Payload) | Other(text: Bytes, exp: Number) {
    /** `now > payload.exp`. */
    predicate ExpiredAt(now: int) {
      match this
      case Signed(payload) => now > payload.exp
      case Other(_, exp) => exp.Below(now)
    }
  }

  /** `Throws`: the text parses, but reading or comparing `exp` throws, as it does for `null`. */
  datatype Parsed = Malformed | Throws | Parsed(content: Content)

  /** `lenient` is what `Buffer.from` makes of a string that is not base64: it skips and truncates, and never fails. */
  datatype Library = Library(
    header: Bytes,
    lenient: string -> Bytes,
    stringify: Payload -> Bytes,
    parse: Bytes -> Parsed,
    hmac: (string, string) -> Bytes)
  {
    /** `JSON.parse` undoes `JSON.stringify`. */
    ghost predicate RoundTrips() {
      forall p :: parse(stringify(p)) == Parsed(Signed(p))
    }
  }

  datatype Error = SecretNotSet | TypeError

  /** `Math.floor(ms / 1000)`. */
  function Seconds(ms: int): (s: int)
    ensures s * 1000 <= ms < (s + 1) * 1000
  {
    ms / 1000
  }

  function Signature(lib: Library, secret: string, signingInput: string): string {
    UrlEncode(lib.hmac(secret, signingInput))
  }

  /** The bytes of the body. */
  function BodyBytes(lib: Library, body: string): Bytes {
    UrlDecode(body).GetOr(lib.lenient(body))
  }

  /** The secret is absent if the environment variable is unset or empty. */
  function Sign(lib: Library, secret: Option<string>, claims: Claims, expiresInSeconds: int,
                nowMs: int): Result<string, Error> {
    var now := Seconds(nowMs);
    var payload := Payload(claims.sub, claims.sid, now, now + expiresInSeconds);
    var signingInput := UrlEncode(lib.header) + "." + UrlEncode(lib.stringify(payload));
    if secret.None? then Err(SecretNotSet)
    else Ok(signingInput + "." + Signature(lib, secret.value, signingInput))
  }

  /** `s.split('.')`. */
  function Split(s: string): (parts: seq<string>)
    ensures parts != []
    ensures forall p :: p in parts ==> '.' !in p
  {
    if s == "" then [""]
    else
      var rest := Split(s[1..]);
      if s[0] == '.' then [""] + rest else [[s[0]] + rest[0]] + rest[1..]
  }

  function Verify(lib: Library, secret: Option<string>, token: string, nowMs: int): Result<Option<Content>, Error> {
    var parts := Split(token);
    if |parts| != 3 then Ok(None)
    else if secret.None? then Err(SecretNotSet)
    else
      var signingInput := parts[0] + "." + parts[1];
      if parts[2] != Signature(lib, secret.value, signingInput) then Ok(None)
      else
        match lib.parse(BodyBytes(lib, parts[1]))
        case Malformed => Ok(None)
        case Throws => Err(TypeError)
        case Parsed(content) => if content.ExpiredAt(Seconds(nowMs)) then Ok(None) else Ok(Some(content))
  }

  // ------------------------------------------------------------------ splitting

  /** `parts.join('.')`. */
  function Join(parts: seq<string>): string
    requires parts != []
  {
    if |parts| == 1 then parts[0] else parts[0] + "." + Join(parts[1..])
  }

  lemma {:induction false} JoinSplit(s: string)
    ensures Join(Split(s)) == s
  {
    if s != "" {
      var rest := Split(s[1..]);
      JoinSplit(s[1..]);
      if s[0] == '.' {
        assert ([""] + rest)[1..] == rest;
      } else if |rest| > 1 {
        var parts := [[s[0]] + rest[0]] + rest[1..];
        assert parts[1..] == rest[1..];
        assert Join(parts) == [s[0]] + (rest[0] + "." + Join(rest[1..]));
      }
    }
  }

  /** One part more than there are dots. */
  lemma {:induction false} SplitCount(s: string)
    ensures |Split(s)| == multiset(s)['.'] + 1
  {
    if s != "" {
      SplitCount(s[1..]);
      assert s == [s[0]] + s[1..];
    }
  }

  lemma {:induction false} SplitPlain(a: string)
    requires '.' !in a
    ensures Split(a) == [a]
  {
    if a != "" {
      SplitPlain(a[1..]);
      assert [a[0]] + a[1..] == a;
    }
  }

  lemma {:induction false} SplitAtDot(a: string, t: string)
    requires '.' !in a
    ensures Split(a + "." + t) == [a] + Split(t)
  {
    var s := a + "." + t;
    if a == "" {
      assert s[1..] == t;
    } else {
      SplitAtDot(a[1..], t);
      assert s[0] == a[0] && s[1..] == a[1..] + "." + t;
      assert ([a[1..]] + Split(t))[1..] == Split(t);
      assert [a[0]] + a[1..] == a;
    }
  }

  lemma SplitThree(a: string, b: string, c: string)
    requires '.' !in a && '.' !in b && '.' !in c
    ensures Split(a + "." + b + "." + c) == [a, b, c]
  {
    assert a + "." + b + "." + c == a + "." + (b + "." + c);
    SplitAtDot(a, b + "." + c);
    SplitAtDot(b, c);
    SplitPlain(c);
  }

  lemma EncodingHasNoDot(b: Bytes)
    ensures '.' !in UrlEncode(b)
  {
    UrlRoundTrip(b);
  }

  // ------------------------------------------------------------------ sign and verify

  /** A signed token has exactly the three parts it was made of. */
  lemma SignedParts(lib: Library, secret: string, claims: Claims, expiresInSeconds: int, nowMs: int)
    ensures var payload := Payload(claims.sub, claims.sid, Seconds(nowMs), Seconds(nowMs) + expiresInSeconds);
            var header, body := UrlEncode(lib.header), UrlEncode(lib.stringify(payload));
            Split(Sign(lib, Some(secret), claims, expiresInSeconds, nowMs).value)
            == [header, body, Signature(lib, secret, header + "." + body)]
  {
    var payload := Payload(claims.sub, claims.sid, Seconds(nowMs), Seconds(nowMs) + expiresInSeconds);
    var header, body := UrlEncode(lib.header), UrlEncode(lib.stringify(payload));
    EncodingHasNoDot(lib.header);
    EncodingHasNoDot(lib.stringify(payload));
    EncodingHasNoDot(lib.hmac(secret, header + "." + body));
    SplitThree(header, body, Signature(lib, secret, header + "." + body));
  }

  /** What was signed verifies to the same payload, exactly while the clock in whole seconds has not passed `exp`. */
  lemma SignThenVerify(lib: Library, secret: string, claims: Claims, expiresInSeconds: int, signedMs: int, nowMs: int)
    requires lib.RoundTrips()
    ensures var payload := Payload(claims.sub, claims.sid, Seconds(signedMs), Seconds(signedMs) + expiresInSeconds);
            Verify(lib, Some(secret), Sign(lib, Some(secret), claims, expiresInSeconds, signedMs).value, nowMs)
            == Ok(if Seconds(nowMs) <= payload.exp then Some(Signed(payload)) else None)
  {
    var payload := Payload(claims.sub, claims.sid, Seconds(signedMs), Seconds(signedMs) + expiresInSeconds);
    SignedParts(lib, secret, claims, expiresInSeconds, signedMs);
    UrlRoundTrip(lib.stringify(payload));
    assert lib.parse(lib.stringify(payload)) == Parsed(Signed(payload));
  }

  /**
   `token` is a header and a body with the signature this secret gives them, and this is what parsing the body comes
   to: the bytes it encodes, or what the lenient decoder makes of it.
   */
  ghost predicate Genuine(lib: Library, secret: string, token: string, header: string, body: string, parsed: Parsed) {
    && '.' !in header && '.' !in body
    && token == header + "." + body + "." + UrlEncode(lib.hmac(secret, header + "." + body))
    && parsed == lib.parse(if UrlDecode(body).Some? then UrlDecode(body).value else lib.lenient(body))
  }

  /** Three parts, joined, are the token again. */
  lemma JoinThree(token: string)
    ensures var parts := Split(token); |parts| == 3 ==> token == parts[0] + "." + parts[1] + "." + parts[2]
  {
    JoinSplit(token);
    var parts := Split(token);
    if |parts| == 3 {
      assert parts[1..] == [parts[1], parts[2]] && parts[1..][1..] == [parts[2]];
      assert Join(parts[1..]) == parts[1] + "." + parts[2];
      assert parts[0] + "." + (parts[1] + "." + parts[2]) == parts[0] + "." + parts[1] + "." + parts[2];
    }
  }

  /** The parts of a genuine token. */
  lemma GenuineParts(lib: Library, secret: string, token: string, header: string, body: string, parsed: Parsed)
    requires Genuine(lib, secret, token, header, body, parsed)
    ensures Split(token) == [header, body, Signature(lib, secret, header + "." + body)]
  {
    EncodingHasNoDot(lib.hmac(secret, header + "." + body));
    SplitThree(header, body, Signature(lib, secret, header + "." + body));
  }

  /** Verification accepts exactly the genuine tokens that have not expired. */
  lemma VerifyExactly(lib: Library, secret: string, token: string, nowMs: int, content: Content)
    ensures Verify(lib, Some(secret), token, nowMs) == Ok(Some(content)) <==>
              && !content.ExpiredAt(Seconds(nowMs))
              && exists header, body :: Genuine(lib, secret, token, header, body, Parsed(content))
  {
    hide Split, Join, UrlDecode, UrlEncode;
    if Verify(lib, Some(secret), token, nowMs) == Ok(Some(content)) {
      var parts := Split(token);
      JoinThree(token);
      assert parts[0] in parts && parts[1] in parts;
      assert Genuine(lib, secret, token, parts[0], parts[1], Parsed(content));
    }
    forall header, body | Genuine(lib, secret, token, header, body, Parsed(content))
      ensures Split(token) == [header, body, Signature(lib, secret, header + "." + body)]
    {
      GenuineParts(lib, secret, token, header, body, Parsed(content));
    }
  }

  /** Verification throws exactly on the genuine tokens whose expiry cannot be compared. */
  lemma VerifyThrowsExactly(lib: Library, secret: string, token: string, nowMs: int)
    ensures Verify(lib, Some(secret), token, nowMs) != Err(SecretNotSet)
    ensures Verify(lib, Some(secret), token, nowMs) == Err(TypeError) <==>
              exists header, body :: Genuine(lib, secret, token, header, body, Throws)
  {
    hide Split, Join, UrlDecode, UrlEncode;
    if Verify(lib, Some(secret), token, nowMs) == Err(TypeError) {
      var parts := Split(token);
      JoinThree(token);
      assert parts[0] in parts && parts[1] in parts;
      assert Genuine(lib, secret, token, parts[0], parts[1], Throws);
    }
    forall header, body | Genuine(lib, secret, token, header, body, Throws)
      ensures Split(token) == [header, body, Signature(lib, secret, header + "." + body)]
    {
      GenuineParts(lib, secret, token, header, body, Throws);
    }
  }

  /** Without a secret nothing is signed; and verifying a token of three parts fails, where any other is refused. */
  lemma SecretNeeded(lib: Library, claims: Claims, expiresInSeconds: int, token: string, nowMs: int)
    ensures Sign(lib, None, claims, expiresInSeconds, nowMs) == Err(SecretNotSet)
    ensures Verify(lib, None, token, nowMs) == if multiset(token)['.'] == 2 then Err(SecretNotSet) else Ok(None)
  {
    SplitCount(token);
  }

  /** The content was not written by `signJwt`, and its `exp` is missing, not a number or infinite. */
  predicate NeverExpires(content: Content) {
    content.Other? && (content.exp.NotANumber? || content.exp.PlusInfinity?)
  }

  /** Some moment, in milliseconds, after the expiry. */
  function AfterExpiry(content: Content): int
    requires !NeverExpires(content)
  {
    1000 * match content
           case Signed(payload) => payload.exp + 1
           case Other(_, exp) => if exp.Finite? then exp.value.Floor + 1 else 0
  }

  lemma ExpiresEventually(content: Content)
    ensures (forall ms :: !content.ExpiredAt(Seconds(ms))) <==> NeverExpires(content)
  {
    if !NeverExpires(content) {
      assert content.ExpiredAt(Seconds(AfterExpiry(content)));
    }
  }

  /**
   A token is accepted at all times exactly if it is genuine and its content has no finite expiry: none
   from `signJwt` is.
   */
  lemma AcceptedForeverExactly(lib: Library, secret: string, token: string, content: Content)
    ensures (forall ms :: Verify(lib, Some(secret), token, ms) == Ok(Some(content))) <==>
              NeverExpires(content) && exists header, body :: Genuine(lib, secret, token, header, body, Parsed(content))
  {
    hide Verify, Genuine, NeverExpires, Content.ExpiredAt, Seconds;
    forall ms
      ensures Verify(lib, Some(secret), token, ms) == Ok(Some(content)) <==>
                && !content.ExpiredAt(Seconds(ms))
                && exists header, body :: Genuine(lib, secret, token, header, body, Parsed(content))
    {
      VerifyExactly(lib, secret, token, ms, content);
    }
    ExpiresEventually(content);
    assert Verify(lib, Some(secret), token, 0) == Ok(Some(content))
           ==> exists header, body :: Genuine(lib, secret, token, header, body, Parsed(content));
  }

  /** A token signed under one secret is accepted under another only if the two give its content the same HMAC. */
  lemma OtherSecretRejected(lib: Library, secret: string, other: string, claims: Claims, expiresInSeconds: int,
                            signedMs: int, nowMs: int)
    ensures var token := Sign(lib, Some(secret), claims, expiresInSeconds, signedMs).value;
            var payload := Payload(claims.sub, claims.sid, Seconds(signedMs), Seconds(signedMs) + expiresInSeconds);
            var signingInput := UrlEncode(lib.header) + "." + UrlEncode(lib.stringify(payload));
            lib.hmac(other, signingInput) != lib.hmac(secret, signingInput)
            ==> Verify(lib, Some(other), token, nowMs) == Ok(None)
  {
    SignedParts(lib, secret, claims, expiresInSeconds, signedMs);
    var payload := Payload(claims.sub, claims.sid, Seconds(signedMs), Seconds(signedMs) + expiresInSeconds);
    var signingInput := UrlEncode(lib.header) + "." + UrlEncode(lib.stringify(payload));
    if Signature(lib, other, signingInput) == Signature(lib, secret, signingInput) {
      UrlEncodeInjective(lib.hmac(other, signingInput), lib.hmac(secret, signingInput));
    }
  }
}
