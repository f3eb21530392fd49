/** The tunnel connect exchange between agent and relay, on the bytes they put on the stream. */
module Handshake {
  import opened Bytes
  import opened Text
  import opened Frames
  import Tokens

  const NEWLINE: byte := 10

  // ---- Agent side, internal/control/tunnel_conn.go ----

  function ConnectFrame(id: bytes, token: bytes): Frame {
    Frame(VERSION, TYPE_CONTROL, 0, 0, [CONTROL_CONNECT] + (id + [NEWLINE] + token))
  }

  /** `waitConnectAck`: whether the agent takes what it reads as the acknowledgement. */
  predicate AgentAccepts(s: bytes) {
    var d := Decode(s);
    d.Decoded? && d.frame.kind == TYPE_CONTROL && d.frame.ControlSubType() == CONTROL_CONNECT_ACK
  }

  // ---- Relay side, internal/relay/server.go ----

  function AckFrame(id: bytes, streamID: uint64): Frame {
    Frame(VERSION, TYPE_CONTROL, 0, streamID, [CONTROL_CONNECT_ACK] + id)
  }

  datatype Connect = BadConnect(message: bytes) | Connect(id: bytes, token: bytes)

  function ParseConnect(payload: bytes): Connect {
    if |payload| <= 1 then BadConnect(Ascii("payload too short"))
    else
      var data := payload[1..];
      var i := FirstFrom(data, NEWLINE, 0);
      if i == |data| then BadConnect(Ascii("missing token separator")) else Connect(data[..i], data[i + 1..])
  }

  method ParseTunnelConnectPayload(payload: bytes) returns (c: Connect)
    ensures c == ParseConnect(payload)
  {
    if |payload| <= 1 {
      return BadConnect(Ascii("payload too short"));
    }
    var data := payload[1..];
    var i := 0;
    while i < |data|
      invariant 0 <= i <= |data|
      invariant FirstFrom(data, NEWLINE, i) == FirstFrom(data, NEWLINE, 0)
    {
      if data[i] == NEWLINE {
        return Connect(data[..i], data[i + 1..]);
      }
      i := i + 1;
    }
    return BadConnect(Ascii("missing token separator"));
  }

  /** The relay's decision on a new stream: no answer, an error frame with a message, or the tunnel it lets in. */
  datatype Decision = Silent | Reject(message: bytes) | Admit(id: bytes)

  function Reason(e: Tokens.TokenError): bytes {
    match e
    case EmptyToken => Ascii("empty token")
    case BadFormat => Ascii("invalid token format")
    case BadSignature => Ascii("invalid token signature")
    case BadPayload => Ascii("invalid payload format")
    case Expired => Ascii("token expired")
  }

  function Judge(mac: Tokens.Mac, s: bytes, now: int): Decision {
    match Decode(s)
    case Refused(_, _) => Silent
    case Decoded(f, _) => JudgeFrame(mac, f, now)
  }

  function JudgeFrame(mac: Tokens.Mac, f: Frame, now: int): Decision {
    if f.kind != TYPE_CONTROL || f.ControlSubType() != CONTROL_CONNECT then
      Reject(Ascii("expected TUNNEL_CONNECT"))
    else
      match ParseConnect(f.payload)
      case BadConnect(message) => Reject(message)
      case Connect(id, token) =>
        match Tokens.Check(mac, token, now)
        case Invalid(e) => Reject(Ascii("invalid token: ") + Reason(e))
        case Valid(validated) =>
          if validated != id then Reject(Ascii("tunnel_id mismatch"))
          else if id == [] then Reject(Ascii("registration failed"))
          else Admit(id)
  }

  /** The first frame on `s` is a connect request for `id` with an authentic, unexpired token for that id. */
  ghost predicate Entitled(mac: Tokens.Mac, s: bytes, now: int, id: bytes) {
    Decode(s).Decoded? && EntitledFrame(mac, Decode(s).frame, now, id)
  }

  ghost predicate EntitledFrame(mac: Tokens.Mac, f: Frame, now: int, id: bytes) {
    && id != [] && f.kind == TYPE_CONTROL
    && exists token: bytes :: IsConnectPayload(f.payload, id, token) && Tokens.Authentic(mac, token, now, id)
  }

  /** A payload that names `id` up to its first newline; ids with a newline in them cannot be named. */
  ghost predicate IsConnectPayload(payload: bytes, id: bytes, token: bytes) {
    NEWLINE !in id && payload == [CONTROL_CONNECT] + (id + [NEWLINE] + token)
  }

  lemma ParseConnectIff(payload: bytes, id: bytes, token: bytes)
    requires payload != [] && payload[0] == CONTROL_CONNECT
    ensures ParseConnect(payload) == Connect(id, token) <==> IsConnectPayload(payload, id, token)
  {
    var data := payload[1..];
    var i := FirstFrom(data, NEWLINE, 0);
    assert payload == [CONTROL_CONNECT] + data;
    if ParseConnect(payload) == Connect(id, token) {
      assert data == data[..i] + [data[i]] + data[i + 1..];
    }
    if IsConnectPayload(payload, id, token) {
      assert data == id + [NEWLINE] + token;
      FirstIsJoin(id, NEWLINE, token);
    }
  }

  lemma AdmitsFrameIffEntitled(mac: Tokens.Mac, f: Frame, now: int, id: bytes)
    ensures JudgeFrame(mac, f, now) == Admit(id) <==> EntitledFrame(mac, f, now, id)
  {
    if JudgeFrame(mac, f, now) == Admit(id) {
      var c := ParseConnect(f.payload);
      ParseConnectIff(f.payload, c.id, c.token);
      Tokens.AcceptsIffAuthentic(mac, c.token, now, id);
    }
    if EntitledFrame(mac, f, now, id) {
      var token: bytes :| IsConnectPayload(f.payload, id, token) && Tokens.Authentic(mac, token, now, id);
      ParseConnectIff(f.payload, id, token);
      Tokens.AcceptsIffAuthentic(mac, token, now, id);
    }
  }

  /** Safety and liveness of one exchange: whatever bytes arrive, the relay admits `id` exactly when they are entitled to it. */
  lemma AdmitsIffEntitled(mac: Tokens.Mac, s: bytes, now: int, id: bytes)
    ensures Judge(mac, s, now) == Admit(id) <==> Entitled(mac, s, now, id)
  {
    if Decode(s).Decoded? {
      AdmitsFrameIffEntitled(mac, Decode(s).frame, now, id);
    }
  }

  /** The acknowledgement always fits a frame, and the agent accepts it whatever follows on the stream. */
  lemma AckIsAccepted(mac: Tokens.Mac, s: bytes, now: int, id: bytes, streamID: uint64, tail: bytes)
    requires Judge(mac, s, now) == Admit(id)
    ensures var ack := AckFrame(id, streamID);
            && ack.Legal() && AgentAccepts(Encode(ack) + tail)
            && Decode(Encode(ack) + tail) == Decoded(ack, tail)
  {
    EncodeOfDecode(s);
    DecodeOfEncode(AckFrame(id, streamID), tail);
  }

  /**
   * What the agent's connect frame achieves: the relay admits exactly the agent's id if and only if the id
   * is non-empty and newline-free, the payload fits one frame, and the token is authentic for the id.
   */
  lemma ConnectIsAdmittedIff(mac: Tokens.Mac, id: bytes, token: bytes, now: int, tail: bytes)
    ensures ConnectFrame(id, token).Fits() <==> |id| + |token| + 2 <= MAX_PAYLOAD
    ensures ConnectFrame(id, token).Fits() && Judge(mac, Encode(ConnectFrame(id, token)) + tail, now) == Admit(id)
            <==> id != [] && NEWLINE !in id && |id| + |token| + 2 <= MAX_PAYLOAD && Tokens.Authentic(mac, token, now, id)
  {
    var f := ConnectFrame(id, token);
    if f.Fits() {
      DecodeOfEncode(f, tail);
      var s := Encode(f) + tail;
      AdmitsIffEntitled(mac, s, now, id);
      if Judge(mac, s, now) == Admit(id) {
        var other: bytes :| IsConnectPayload(f.payload, id, other) && Tokens.Authentic(mac, other, now, id);
        assert f.payload[1..] == id + [NEWLINE] + token && f.payload[1..] == id + [NEWLINE] + other;
        assert (id + [NEWLINE] + token)[|id| + 1..] == token && (id + [NEWLINE] + other)[|id| + 1..] == other;
      }
      if NEWLINE !in id && Tokens.Authentic(mac, token, now, id) {
        assert IsConnectPayload(f.payload, id, token);
      }
    }
  }

  lemma Regroup(p: bytes, q: bytes, token: bytes)
    ensures (p + [NEWLINE] + q) + [NEWLINE] + token == p + [NEWLINE] + (q + [NEWLINE] + token)
  {
  }

  /** The relay reads another id than the agent's own out of its request, and finds the token it then sees authentic. */
  ghost predicate PrefixEntitled(mac: Tokens.Mac, id: bytes, token: bytes, now: int) {
    var i := FirstFrom(id, NEWLINE, 0);
    0 < i < |id| && |id| + |token| + 2 <= MAX_PAYLOAD && Tokens.Authentic(mac, id[i + 1..] + [NEWLINE] + token, now, id[..i])
  }

  /** What the relay reads out of the agent's request: the id up to its first newline, and everything behind it as the token. */
  function Seen(id: bytes, token: bytes): Connect {
    var i := FirstFrom(id, NEWLINE, 0);
    if i == |id| then Connect(id, token) else Connect(id[..i], id[i + 1..] + [NEWLINE] + token)
  }

  lemma SeenIsPayload(id: bytes, token: bytes)
    ensures Seen(id, token).Connect? && IsConnectPayload(ConnectFrame(id, token).payload, Seen(id, token).id, Seen(id, token).token)
  {
    var i := FirstFrom(id, NEWLINE, 0);
    if i < |id| {
      assert id == id[..i] + [NEWLINE] + id[i + 1..];
      Regroup(id[..i], id[i + 1..], token);
    }
  }

  lemma RequestIsParsed(id: bytes, token: bytes)
    ensures ParseConnect(ConnectFrame(id, token).payload) == Seen(id, token)
  {
    SeenIsPayload(id, token);
    var c := Seen(id, token);
    ParseConnectIff(ConnectFrame(id, token).payload, c.id, c.token);
  }

  lemma RequestIsJudged(mac: Tokens.Mac, id: bytes, token: bytes, now: int)
    ensures var c := Seen(id, token);
            var d := JudgeFrame(mac, ConnectFrame(id, token), now);
            && c.Connect? && (d.Admit? <==> c.id != [] && Tokens.Check(mac, c.token, now) == Tokens.Valid(c.id))
            && (d.Admit? ==> d.id == c.id)
  {
    RequestIsParsed(id, token);
    assert ConnectFrame(id, token).ControlSubType() == CONTROL_CONNECT;
  }

  /** The agent's frame gets some other id admitted if and only if its own holds a newline and the above is the case. */
  lemma OtherIsAdmittedIff(mac: Tokens.Mac, id: bytes, token: bytes, now: int, tail: bytes)
    requires ConnectFrame(id, token).Fits()
    ensures var d := Judge(mac, Encode(ConnectFrame(id, token)) + tail, now);
            && (d.Admit? && d.id != id <==> PrefixEntitled(mac, id, token, now))
            && (d.Admit? && d.id != id ==> d.id == id[..FirstFrom(id, NEWLINE, 0)])
  {
    var f, c := ConnectFrame(id, token), Seen(id, token);
    DecodeOfEncode(f, tail);
    assert Judge(mac, Encode(f) + tail, now) == JudgeFrame(mac, f, now);
    RequestIsJudged(mac, id, token, now);
    Tokens.AcceptsIffAuthentic(mac, c.token, now, c.id);
  }

  /**
   * For an agent id of the form `p`, newline, `q`: if the frame fits, the relay admits `p` if and only if `q`, newline and
   * the agent's token together are a token authentic for `p`.
   */
  lemma PrefixIsAdmittedIff(mac: Tokens.Mac, p: bytes, q: bytes, token: bytes, now: int, tail: bytes)
    requires NEWLINE !in p && p != []
    ensures var f := ConnectFrame(p + [NEWLINE] + q, token);
            f.Fits() ==> (Judge(mac, Encode(f) + tail, now) == Admit(p)
                          <==> Tokens.Authentic(mac, q + [NEWLINE] + token, now, p))
  {
    var id := p + [NEWLINE] + q;
    if ConnectFrame(id, token).Fits() {
      FirstIsJoin(p, NEWLINE, q);
      OtherIsAdmittedIff(mac, id, token, now, tail);
      assert |p| < |id|;
    }
  }

  lemma ScanFirstDigit(rest: bytes)
    ensures ScanInt([57, NEWLINE] + rest) == 9
  {
    var s: bytes := [57, NEWLINE] + rest;
    assert s[1..] == [NEWLINE] + rest;
    assert DigitRun(s[1..]) == 0 && DigitRun(s) == 1;
    assert s[..1] == [57] && Value([57]) == Value([]) * 10 + 9;
  }

  /** A token generated for `p`, colon, "9", newline and anything is accepted for `p` up to second 9, whatever its own expiry. */
  lemma GeneratedNamesPrefix(mac: Tokens.Mac, p: bytes, rest: bytes)
    requires Tokens.COLON !in p
    ensures Tokens.Check(mac, Tokens.Generate(mac, 0, 0, p + [Tokens.COLON] + ([57, NEWLINE] + rest)), 9 * Tokens.SECOND)
            == Tokens.Valid(p)
  {
    var r, expiry := [57, NEWLINE] + rest, [Tokens.COLON] + Decimal(0);
    Tokens.GeneratedIsAcceptedIff(mac, 0, 0, 9 * Tokens.SECOND, p + [Tokens.COLON] + r);
    assert r + [Tokens.COLON] + Decimal(0) == [57, NEWLINE] + (rest + expiry);
    ScanFirstDigit(rest + expiry);
  }

  /** The id of the case below. */
  function ColonId(): bytes { [97] + [Tokens.COLON] + ([57, NEWLINE] + [98]) }

  lemma GeneratedShape(mac: Tokens.Mac)
    requires forall m: bytes :: |mac(m)| == 32
    ensures var generated := Tokens.Generate(mac, 0, 0, ColonId());
            |generated| == 72 && generated[..4] == [97, Tokens.COLON, 57, NEWLINE]
  {
    assert Decimal(0) == [48];
  }

  /**
   * A concrete case, under any secret: of a token generated for "a:9\nb", the first line goes into the agent's id and
   * the second is its token. The agent "a\na:9" is then admitted as "a", although that token expired at second 0.
   */
  lemma NewlineIdIsAdmittedAsPrefix(mac: Tokens.Mac)
    requires forall m: bytes :: |mac(m)| == 32
    ensures var id: bytes := [97, NEWLINE, 97, Tokens.COLON, 57];
            var generated := Tokens.Generate(mac, 0, 0, ColonId());
            && |generated| >= 4 && generated[..4] == [97, Tokens.COLON, 57, NEWLINE]
            && Tokens.Check(mac, generated, 9 * Tokens.SECOND) == Tokens.Valid([97])
            && PrefixEntitled(mac, id, generated[4..], 9 * Tokens.SECOND)
  {
    var id: bytes := [97, NEWLINE, 97, Tokens.COLON, 57];
    var generated := Tokens.Generate(mac, 0, 0, ColonId());
    GeneratedNamesPrefix(mac, [97], [98]);
    GeneratedShape(mac);
    Tokens.AcceptsIffAuthentic(mac, generated, 9 * Tokens.SECOND, [97]);
    SplitAtNewline(generated);
  }

  lemma SplitAtNewline(generated: bytes)
    requires |generated| >= 4 && generated[..4] == [97, Tokens.COLON, 57, NEWLINE]
    ensures var id: bytes := [97, NEWLINE, 97, Tokens.COLON, 57];
            && FirstFrom(id, NEWLINE, 0) == 1 && id[..1] == [97]
            && id[2..] + [NEWLINE] + generated[4..] == generated
  {
    var id: bytes := [97, NEWLINE, 97, Tokens.COLON, 57];
    assert id[2..] + [NEWLINE] == generated[..4];
  }

  /** End to end: a token the control plane generated gets its tunnel admitted until it expires. */
  lemma GeneratedTokenConnects(mac: Tokens.Mac, ttl: int, issued: int, now: int, id: bytes, tail: bytes)
    requires -0x8000_0000_0000_0000 <= Tokens.Unix(issued + ttl) < 0x8000_0000_0000_0000
    requires id != [] && NEWLINE !in id
    requires ConnectFrame(id, Tokens.Generate(mac, ttl, issued, id)).Fits()
    ensures Judge(mac, Encode(ConnectFrame(id, Tokens.Generate(mac, ttl, issued, id))) + tail, now) == Admit(id)
            <==> Tokens.COLON !in id && Tokens.Unix(now) <= Tokens.Unix(issued + ttl)
  {
    var token := Tokens.Generate(mac, ttl, issued, id);
    ConnectIsAdmittedIff(mac, id, token, now, tail);
    Tokens.AcceptsIffAuthentic(mac, token, now, id);
    Tokens.GeneratedIsAcceptedIff(mac, ttl, issued, now, id);
  }
}
