/** The tunnel token printer and checker of internal/relay/token.go. */
module Tokens {
  import opened Bytes
  import opened Text

  const COLON: byte := 58
  const DOT: byte := 46
  const SECOND := 1_000_000_000

  /** HMAC-SHA256 under the relay's secret, taken as an arbitrary function of the message. */
  type Mac = bytes -> bytes

  /** `time.Time.Unix` of an instant in nanoseconds. */
  function Unix(t: int): (s: int)
    ensures s * 1_000_000_000 <= t < (s + 1) * 1_000_000_000
  {
    t / SECOND
  }

  function Payload(id: bytes, expiry: bytes): bytes { id + [COLON] + expiry }

  function Sign(mac: Mac, payload: bytes): bytes { payload + [DOT] + Hex(mac(payload)) }

  function Generate(mac: Mac, ttl: int, now: int, id: bytes): bytes {
    Sign(mac, Payload(id, Decimal(Unix(now + ttl))))
  }

  datatype TokenError = EmptyToken | BadFormat | BadSignature | BadPayload | Expired
  datatype Verdict = Valid(id: bytes) | Invalid(error: TokenError)

  /** What the checker is for: the token is a signed payload naming `id`, and its expiry has not passed. */
  ghost predicate Authentic(mac: Mac, token: bytes, now: int, id: bytes) {
    COLON !in id && exists expiry: bytes ::
      token == Sign(mac, Payload(id, expiry)) && Unix(now) <= ScanInt(expiry)
  }

  function Check(mac: Mac, token: bytes, now: int): Verdict {
    var parts := CutLast(token, DOT);
    if token == [] then Invalid(EmptyToken)
    else if |parts| != 2 then Invalid(BadFormat)
    else if parts[1] != Hex(mac(parts[0])) then Invalid(BadSignature)
    else
      var i := FirstFrom(parts[0], COLON, 0);
      if i == |parts[0]| then Invalid(BadPayload)
      else if Unix(now) > ScanInt(parts[0][i + 1..]) then Invalid(Expired)
      else Valid(parts[0][..i])
  }

  method Validate(mac: Mac, token: bytes, now: int) returns (v: Verdict)
    ensures v == Check(mac, token, now)
  {
    if |token| == 0 {
      return Invalid(EmptyToken);
    }
    var parts := SplitLast(token, DOT);
    if |parts| != 2 {
      return Invalid(BadFormat);
    }
    var payload, sig := parts[0], parts[1];
    if sig != Hex(mac(payload)) {
      return Invalid(BadSignature);
    }
    var idParts := SplitN(payload, COLON, 2);
    SplitInTwo(payload, COLON, 0);
    if |idParts| != 2 {
      return Invalid(BadPayload);
    }
    if Unix(now) > ScanInt(idParts[1]) {
      return Invalid(Expired);
    }
    return Valid(idParts[0]);
  }

  /** The checker accepts a token for `id` exactly when the token is authentic for `id`. */
  lemma AcceptsIffAuthentic(mac: Mac, token: bytes, now: int, id: bytes)
    ensures Check(mac, token, now) == Valid(id) <==> Authentic(mac, token, now, id)
  {
    if Check(mac, token, now) == Valid(id) {
      var parts := CutLast(token, DOT);
      CutLastIff(token, DOT, parts[0], parts[1]);
      var i := FirstFrom(parts[0], COLON, 0);
      assert parts[0] == Payload(id, parts[0][i + 1..]);
    }
    forall expiry: bytes | COLON !in id && token == Sign(mac, Payload(id, expiry)) && Unix(now) <= ScanInt(expiry)
      ensures Check(mac, token, now) == Valid(id)
    {
      SignedIsChecked(mac, id, expiry, now);
    }
  }

  /** The text of a token: the id, a colon, the expiry second in decimal, a dot, and the MAC of all in front of it in hexadecimal. */
  lemma TokenText(mac: Mac, ttl: int, now: int, id: bytes)
    ensures var payload := id + Ascii(":") + Decimal(Unix(now + ttl));
            && Ascii(":") == [58] && Ascii(".") == [46]
            && Generate(mac, ttl, now, id) == payload + Ascii(".") + Hex(mac(payload))
            && Unhex(Hex(mac(payload))) == Some(mac(payload))
  {
    var payload := id + Ascii(":") + Decimal(Unix(now + ttl));
    assert Ascii(":") == [COLON] && Ascii(".") == [DOT];
    UnhexIff(Hex(mac(payload)), mac(payload));
  }

  /**
   * What counts as a signature: the part behind the last dot is refused if and only if it is not two lower-case
   * hexadecimal digits for each byte of the MAC of what is in front, decoding to exactly that MAC.
   */
  lemma SignatureIsCheckedIff(mac: Mac, payload: bytes, sig: bytes, now: int)
    requires DOT !in sig
    ensures Check(mac, payload + [DOT] + sig, now) == Invalid(BadSignature) <==> Unhex(sig) != Some(mac(payload))
  {
    CutLastIff(payload + [DOT] + sig, DOT, payload, sig);
    UnhexIff(sig, mac(payload));
  }

  /** Whatever is accepted has in front of its last dot a payload whose MAC is what the rest decodes to. */
  lemma AcceptedIsSigned(mac: Mac, token: bytes, now: int)
    requires Check(mac, token, now).Valid?
    ensures exists payload: bytes, sig: bytes ::
              && token == payload + [DOT] + sig && DOT !in sig
              && |sig| == 2 * |mac(payload)| && (forall i | 0 <= i < |sig| :: HexValue(sig[i]).Some?)
              && Unhex(sig) == Some(mac(payload))
  {
    var parts := CutLast(token, DOT);
    CutLastIff(token, DOT, parts[0], parts[1]);
    SignatureIsCheckedIff(mac, parts[0], parts[1], now);
  }

  /** On a signed payload with a colon-free id the checker's answer depends on the expiry alone. */
  lemma SignedIsChecked(mac: Mac, id: bytes, expiry: bytes, now: int)
    requires COLON !in id
    ensures Check(mac, Sign(mac, Payload(id, expiry)), now)
            == if Unix(now) > ScanInt(expiry) then Invalid(Expired) else Valid(id)
  {
    var payload := Payload(id, expiry);
    CutLastIff(Sign(mac, payload), DOT, payload, Hex(mac(payload)));
    FirstIsJoin(id, COLON, expiry);
  }

  /** The id up to its first colon, which is the id the checker reads out of a token generated for `id`. */
  function CheckedID(id: bytes): bytes { id[..FirstFrom(id, COLON, 0)] }

  /** What the checker reads as the expiry: the printed seconds, behind whatever the id has after its first colon. */
  function CheckedExpiry(id: bytes, seconds: int): bytes {
    var i := FirstFrom(id, COLON, 0);
    if i == |id| then Decimal(seconds) else id[i + 1..] + [COLON] + Decimal(seconds)
  }

  /**
   * For which id a generated token is accepted, whatever id it was generated for: the part before the first colon,
   * while the number in front of what follows that colon has not passed.
   */
  lemma GeneratedIsAcceptedFor(mac: Mac, ttl: int, issued: int, now: int, id: bytes, x: bytes)
    ensures Check(mac, Generate(mac, ttl, issued, id), now) == Valid(x)
            <==> x == CheckedID(id) && Unix(now) <= ScanInt(CheckedExpiry(id, Unix(issued + ttl)))
  {
    var i, expiry := FirstFrom(id, COLON, 0), CheckedExpiry(id, Unix(issued + ttl));
    assert Payload(id, Decimal(Unix(issued + ttl))) == Payload(CheckedID(id), expiry);
    SignedIsChecked(mac, CheckedID(id), expiry, now);
  }

  /**
   * A generated token is accepted for its id exactly while it has not expired, and only for colon-free ids; for an
   * id with a colon it is accepted for the part before it, while the number read behind the colon has not passed.
   */
  lemma GeneratedIsAcceptedIff(mac: Mac, ttl: int, issued: int, now: int, id: bytes)
    requires -0x8000_0000_0000_0000 <= Unix(issued + ttl) < 0x8000_0000_0000_0000
    ensures Check(mac, Generate(mac, ttl, issued, id), now) == Valid(id)
            <==> COLON !in id && Unix(now) <= Unix(issued + ttl)
    ensures forall p: bytes, r: bytes | COLON !in p && id == p + [COLON] + r ::
              Check(mac, Generate(mac, ttl, issued, id), now) == Valid(p)
              <==> Unix(now) <= ScanInt(r + [COLON] + Decimal(Unix(issued + ttl)))
  {
    GeneratedIsAcceptedFor(mac, ttl, issued, now, id, id);
    ScanOfDecimal(Unix(issued + ttl));
    forall p: bytes, r: bytes | COLON !in p && id == p + [COLON] + r
      ensures Check(mac, Generate(mac, ttl, issued, id), now) == Valid(p)
              <==> Unix(now) <= ScanInt(r + [COLON] + Decimal(Unix(issued + ttl)))
    {
      FirstIsJoin(p, COLON, r);
      GeneratedIsAcceptedFor(mac, ttl, issued, now, id, p);
    }
  }

  /** In instants: a token for a colon-free id is accepted up to its expiry, and no longer than a second past it. */
  lemma GeneratedLivesForTTL(mac: Mac, ttl: int, issued: int, now: int, id: bytes)
    requires -0x8000_0000_0000_0000 <= Unix(issued + ttl) < 0x8000_0000_0000_0000 && COLON !in id
    ensures now <= issued + ttl ==> Check(mac, Generate(mac, ttl, issued, id), now) == Valid(id)
    ensures now >= issued + ttl + SECOND ==> Check(mac, Generate(mac, ttl, issued, id), now) == Invalid(Expired)
  {
    GeneratedIsAcceptedIff(mac, ttl, issued, now, id);
    ScanOfDecimal(Unix(issued + ttl));
    SignedIsChecked(mac, id, Decimal(Unix(issued + ttl)), now);
  }

  lemma SignInjective(mac: Mac, p: bytes, q: bytes)
    requires Sign(mac, p) == Sign(mac, q)
    ensures p == q
  {
    CutLastIff(Sign(mac, p), DOT, p, Hex(mac(p)));
    CutLastIff(Sign(mac, q), DOT, q, Hex(mac(q)));
  }

  lemma PayloadInjective(id1: bytes, e1: bytes, id2: bytes, e2: bytes)
    requires Payload(id1, e1) == Payload(id2, e2) && COLON !in e1 && COLON !in e2
    ensures id1 == id2 && e1 == e2
  {
    CutLastIff(Payload(id1, e1), COLON, id1, e1);
    CutLastIff(Payload(id2, e2), COLON, id2, e2);
  }

  /** Tokens of different ids, or of one id with different expiry seconds, are different. */
  lemma GenerateInjective(mac: Mac, ttl: int, t1: int, t2: int, id1: bytes, id2: bytes)
    requires Generate(mac, ttl, t1, id1) == Generate(mac, ttl, t2, id2)
    ensures id1 == id2 && Unix(t1 + ttl) == Unix(t2 + ttl)
  {
    var e1, e2 := Decimal(Unix(t1 + ttl)), Decimal(Unix(t2 + ttl));
    SignInjective(mac, Payload(id1, e1), Payload(id2, e2));
    PayloadInjective(id1, e1, id2, e2);
    DecimalInjective(Unix(t1 + ttl), Unix(t2 + ttl));
  }
}
