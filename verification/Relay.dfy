/** The relay's mutable objects: dispatcher, stream multiplexer and connection handler of internal/relay. */
module Relay {
  import opened Bytes
  import opened Frames
  import opened Handshake
  import opened Text
  import Tokens
  import R = Routing

  /** A registered tunnel; the handler fills in the stream id after registration. */
  class TunnelContext {
    const tunnelID: bytes
    const domain: bytes
    const port: int
    const slug: bytes
    var streamID: uint64

    constructor (tunnelID: bytes, domain: bytes, port: int, slug: bytes, streamID: uint64)
      ensures this.tunnelID == tunnelID && this.domain == domain && this.port == port && this.slug == slug
      ensures this.streamID == streamID
    {
      this.tunnelID, this.domain, this.port, this.slug := tunnelID, domain, port, slug;
      this.streamID := streamID;
    }
  }

  function EntryOf(c: TunnelContext): R.Entry<TunnelContext> {
    R.Entry(c.tunnelID, c.domain, c.port, c.slug, c)
  }

  ghost function Entries(m: map<bytes, TunnelContext>): map<bytes, R.Entry<TunnelContext>> {
    map id | id in m :: EntryOf(m[id])
  }

  lemma EntriesAfter(m: map<bytes, TunnelContext>, id: bytes, c: TunnelContext)
    ensures Entries(m[id := c]) == Entries(m)[id := EntryOf(c)]
    ensures Entries(m - {id}) == Entries(m) - {id}
  {
  }

  /** One tunnel of a configuration push, after JSON decoding. */
  datatype ConfigTunnel = ConfigTunnel(tunnelID: bytes, domain: bytes, port: int, streamID: uint64)

  class Dispatcher {
    var tunnels: map<bytes, TunnelContext>
    var byDomain: map<bytes, bytes>
    var byPort: map<int, bytes>
    var bySlug: map<bytes, bytes>

    ghost function View(): R.Table<TunnelContext>
      reads this
    {
      R.Table(Entries(tunnels), byDomain, byPort, bySlug)
    }

    constructor ()
      ensures View() == R.Empty()
    {
      tunnels, byDomain, byPort, bySlug := map[], map[], map[], map[];
    }

    method Register(ctx: TunnelContext) returns (ok: bool)
      modifies this
      ensures ok == (ctx.tunnelID != []) && (!ok ==> unchanged(this))
      ensures View() == R.Step(old(View()), R.Register(EntryOf(ctx)))
    {
      if ctx.tunnelID == [] {
        return false;
      }
      EntriesAfter(tunnels, ctx.tunnelID, ctx);
      tunnels := tunnels[ctx.tunnelID := ctx];
      if ctx.domain != [] {
        byDomain := byDomain[ctx.domain := ctx.tunnelID];
      }
      if ctx.port > 0 {
        byPort := byPort[ctx.port := ctx.tunnelID];
      }
      if ctx.slug != [] {
        bySlug := bySlug[ctx.slug := ctx.tunnelID];
      }
      return true;
    }

    method Unregister(tunnelID: bytes)
      modifies this
      ensures View() == R.Step(old(View()), R.Unregister(tunnelID))
    {
      if tunnelID !in tunnels {
        return;
      }
      var ctx := tunnels[tunnelID];
      if ctx.domain != [] {
        byDomain := byDomain - {ctx.domain};
      }
      if ctx.port > 0 {
        byPort := byPort - {ctx.port};
      }
      if ctx.slug != [] {
        bySlug := bySlug - {ctx.slug};
      }
      EntriesAfter(tunnels, tunnelID, ctx);
      tunnels := tunnels - {tunnelID};
    }

    method LookupByID(tunnelID: bytes) returns (ctx: TunnelContext?)
      ensures ctx == null <==> R.ById(View(), tunnelID).None?
      ensures ctx != null ==> R.ById(View(), tunnelID) == Some(EntryOf(ctx))
    {
      ctx := if tunnelID in tunnels then tunnels[tunnelID] else null;
    }

    method Lookup(host: bytes) returns (ctx: TunnelContext?)
      ensures ctx == null <==> R.Lookup(View(), host).None?
      ensures ctx != null ==> R.Lookup(View(), host) == Some(EntryOf(ctx))
    {
      if host == [] {
        return null;
      }
      if host in byDomain {
        ctx := LookupByID(byDomain[host]);
        return;
      }
      var i := 0;
      while i < |host|
        invariant 0 <= i <= |host|
        invariant R.WildcardKey(View(), host, i) == R.LookupKey(View(), host)
      {
        if host[i] == R.DOT {
          var wildcard := [R.STAR] + host[i..];
          if wildcard in byDomain {
            ctx := LookupByID(byDomain[wildcard]);
            return;
          }
        }
        i := i + 1;
      }
      return null;
    }

    method LookupByPort(port: int) returns (ctx: TunnelContext?)
      ensures var owner := R.Owner(View(), R.Port(port));
              && (ctx == null <==> owner.None? || R.ById(View(), owner.value).None?)
              && (ctx != null ==> R.ById(View(), owner.value) == Some(EntryOf(ctx)))
    {
      if port in byPort {
        ctx := LookupByID(byPort[port]);
      } else {
        ctx := null;
      }
    }

    method LookupBySlug(slug: bytes) returns (ctx: TunnelContext?)
      ensures var owner := if slug == [] then None else R.Owner(View(), R.Slug(slug));
              && (ctx == null <==> owner.None? || R.ById(View(), owner.value).None?)
              && (ctx != null ==> R.ById(View(), owner.value) == Some(EntryOf(ctx)))
    {
      if slug != [] && slug in bySlug {
        ctx := LookupByID(bySlug[slug]);
      } else {
        ctx := null;
      }
    }

    /** `OnConfigUpdate` after decoding: registers the pushed tunnels in order; `made` are the contexts it creates. */
    method OnConfigUpdate(config: seq<ConfigTunnel>) returns (made: seq<TunnelContext>)
      modifies this
      ensures |made| == |config| && fresh(made)
      ensures forall i | 0 <= i < |config| ::
                && made[i].tunnelID == config[i].tunnelID && made[i].domain == config[i].domain
                && made[i].port == config[i].port && made[i].slug == [] && made[i].streamID == config[i].streamID
      ensures View() == R.Apply(old(View()), Registrations(made), |made|)
    {
      made := [];
      for k := 0 to |config|
        invariant |made| == k && fresh(made)
        invariant forall i | 0 <= i < k ::
                    && made[i].tunnelID == config[i].tunnelID && made[i].domain == config[i].domain
                    && made[i].port == config[i].port && made[i].slug == [] && made[i].streamID == config[i].streamID
        invariant View() == R.Apply(old(View()), Registrations(made), k)
      {
        var t := config[k];
        var ctx := new TunnelContext(t.tunnelID, t.domain, t.port, [], t.streamID);
        ghost var before := made;
        var ok := Register(ctx);
        made := made + [ctx];
        ApplyAgrees(old(View()), Registrations(before), Registrations(made), k);
      }
    }
  }

  function Registrations(cs: seq<TunnelContext>): (ops: seq<R.Op<TunnelContext>>)
    ensures |ops| == |cs|
  {
    seq(|cs|, i requires 0 <= i < |cs| => R.Register(EntryOf(cs[i])))
  }

  lemma {:induction false} ApplyAgrees<C>(t: R.Table<C>, a: seq<R.Op<C>>, b: seq<R.Op<C>>, n: nat)
    requires n <= |a| && n <= |b| && forall i | 0 <= i < n :: a[i] == b[i]
    ensures R.Apply(t, a, n) == R.Apply(t, b, n)
  {
    if n > 0 {
      ApplyAgrees(t, a, b, n - 1);
    }
  }

  datatype StreamConnection = StreamConnection(streamID: uint64, tunnelID: bytes)

  class StreamMultiplexer {
    var activeStreams: map<uint64, StreamConnection>
    var nextStreamID: uint64

    constructor ()
      ensures activeStreams == map[] && nextStreamID == 1
    {
      activeStreams, nextStreamID := map[], 1;
    }

    method NewStream(tunnelID: bytes) returns (sc: StreamConnection)
      modifies this
      ensures sc == StreamConnection(old(nextStreamID), tunnelID)
      ensures nextStreamID == Incremented(old(nextStreamID)) && activeStreams == old(activeStreams)[sc.streamID := sc]
    {
      var id := nextStreamID;
      nextStreamID := Incremented(nextStreamID);
      sc := StreamConnection(id, tunnelID);
      activeStreams := activeStreams[id := sc];
    }

    method CloseStream(streamID: uint64)
      modifies this`activeStreams
      ensures activeStreams == old(activeStreams) - {streamID}
    {
      if streamID !in activeStreams {
        return;
      }
      activeStreams := activeStreams - {streamID};
    }
  }

  /** The bytes are one frame that acknowledges tunnel `id` on stream `streamID`. */
  ghost predicate Acknowledges(s: bytes, id: bytes, streamID: uint64) {
    var d := Decode(s);
    && d.Decoded? && d.rest == [] && d.frame.version == 0x01 && d.frame.kind == 0x01 && d.frame.flags == 0
    && d.frame.streamID == streamID && d.frame.payload == [0x02] + id
  }

  /** The bytes are one frame that reports a failed authorization with a message. */
  ghost predicate Refuses(s: bytes, message: bytes) {
    var d := Decode(s);
    && d.Decoded? && d.rest == [] && d.frame.version == 0x01 && d.frame.kind == 0x03 && d.frame.flags == 0
    && d.frame.streamID == 0 && d.frame.payload == [0x01] + message
  }

  /** The bytes are one frame that asks to connect tunnel `id` with a token. */
  ghost predicate Requests(s: bytes, id: bytes, token: bytes) {
    var d := Decode(s);
    && d.Decoded? && d.rest == [] && d.frame.version == 0x01 && d.frame.kind == 0x01 && d.frame.flags == 0
    && d.frame.streamID == 0 && d.frame.payload == [0x01] + (id + [10] + token)
  }

  /** What was appended to a stream. */
  function Appended(before: bytes, after: bytes): bytes {
    if before <= after then after[|before|..] else []
  }

  class Server {
    const mac: Tokens.Mac
    const dispatcher: Dispatcher
    const streamMux: StreamMultiplexer

    constructor (mac: Tokens.Mac)
      ensures this.mac == mac && fresh(dispatcher) && fresh(streamMux)
      ensures dispatcher.View() == R.Empty() && streamMux.nextStreamID == 1
    {
      this.mac := mac;
      dispatcher := new Dispatcher();
      streamMux := new StreamMultiplexer();
    }

    /** The checks of the handler on the first frame; an empty id is only noticed by the registration. */
    method Authorize(inbound: ByteStream, now: int) returns (d: Decision)
      modifies inbound
      ensures inbound.data == Decode(old(inbound.data)).rest
      ensures Judge(mac, old(inbound.data), now) == if d == Admit([]) then Reject(NotRegistered()) else d
    {
      var decoding := DecodeFrame(inbound);
      if decoding.Refused? {
        return Silent;
      }
      var frame := decoding.frame;
      if frame.kind != TYPE_CONTROL || frame.ControlSubType() != CONTROL_CONNECT {
        return Reject(Ascii("expected TUNNEL_CONNECT"));
      }
      var c := ParseTunnelConnectPayload(frame.payload);
      if c.BadConnect? {
        return Reject(c.message);
      }
      var v := Tokens.Validate(mac, c.token, now);
      if v.Invalid? {
        var reason;
        match v.error {
          case EmptyToken => reason := Ascii("empty token");
          case BadFormat => reason := Ascii("invalid token format");
          case BadSignature => reason := Ascii("invalid token signature");
          case BadPayload => reason := Ascii("invalid payload format");
          case Expired => reason := Ascii("token expired");
        }
        return Reject(Ascii("invalid token: ") + reason);
      }
      if v.id != c.id {
        return Reject(Ascii("tunnel_id mismatch"));
      }
      return Admit(c.id);
    }

    /** Registers the tunnel, opens its stream, then puts the stream id into the registered context. */
    method Enter(id: bytes) returns (ctx: TunnelContext?)
      modifies dispatcher, streamMux
      ensures id == [] ==> ctx == null && unchanged(dispatcher) && unchanged(streamMux)
      ensures id != [] ==>
                && ctx != null && fresh(ctx)
                && ctx.tunnelID == id && ctx.domain == [] && ctx.port == 0 && ctx.slug == []
                && dispatcher.View() == R.Step(old(dispatcher.View()), R.Register(EntryOf(ctx)))
                && ctx.streamID == old(streamMux.nextStreamID) && streamMux.nextStreamID == Incremented(ctx.streamID)
    {
      var made := new TunnelContext(id, [], 0, [], 0);
      var ok := dispatcher.Register(made);
      if !ok {
        return null;
      }
      var sc := streamMux.NewStream(id);
      made.streamID := sc.streamID;
      return made;
    }

    /** `handleQUICConnection` up to the point where it parks; returns the context it registered, if any. */
    method HandleConnection(inbound: ByteStream, outbound: ByteStream, now: int) returns (ctx: TunnelContext?)
      requires inbound != outbound
      modifies inbound, outbound, dispatcher, streamMux
      ensures inbound.data == Decode(old(inbound.data)).rest
      ensures ctx == null <==> !Judge(mac, old(inbound.data), now).Admit?
      ensures ctx == null ==> unchanged(dispatcher) && unchanged(streamMux)
      ensures ctx != null ==>
                && fresh(ctx) && Judge(mac, old(inbound.data), now) == Admit(ctx.tunnelID)
                && ctx.domain == [] && ctx.port == 0 && ctx.slug == []
                && dispatcher.View() == R.Step(old(dispatcher.View()), R.Register(EntryOf(ctx)))
                && ctx.streamID == old(streamMux.nextStreamID) && streamMux.nextStreamID == Incremented(ctx.streamID)
      ensures outbound.data
              == old(outbound.data) + Answer(Judge(mac, old(inbound.data), now), if ctx == null then 0 else ctx.streamID)
      ensures old(outbound.data) <= outbound.data
      ensures ctx != null ==> Acknowledges(Appended(old(outbound.data), outbound.data), ctx.tunnelID, ctx.streamID)
      ensures Judge(mac, old(inbound.data), now).Silent? ==> outbound.data == old(outbound.data)
      ensures Judge(mac, old(inbound.data), now).Reject? ==>
                Refuses(Appended(old(outbound.data), outbound.data), Judge(mac, old(inbound.data), now).message)
    {
      ghost var s := inbound.data;
      var d := Authorize(inbound, now);
      ctx := null;
      var reply := d;
      if d.Admit? {
        ctx := Enter(d.id);
        reply := if ctx == null then Reject(NotRegistered()) else d;
      }
      AnswerFits(mac, s, now, if ctx == null then 0 else ctx.streamID);
      WriteAnswer(outbound, reply, if ctx == null then 0 else ctx.streamID);
      AnswerSays(mac, s, now, if ctx == null then 0 else ctx.streamID);
      assert Appended(old(outbound.data), outbound.data) == Answer(Judge(mac, s, now), if ctx == null then 0 else ctx.streamID);
    }
  }

  function NotRegistered(): bytes { Ascii("registration failed") }

  /** The frame that tells the agent about a decision, unless the relay stays silent. */
  function AnswerFrame(d: Decision, streamID: uint64): Frame
    requires !d.Silent?
  {
    if d.Reject? then NewErrorFrame(ERROR_AUTH_FAILED, d.message) else AckFrame(d.id, streamID)
  }

  function Answer(d: Decision, streamID: uint64): bytes {
    if d.Silent? || !AnswerFrame(d, streamID).Fits() then [] else Encode(AnswerFrame(d, streamID))
  }

  method WriteAnswer(outbound: ByteStream, d: Decision, streamID: uint64)
    modifies outbound
    ensures outbound.data == old(outbound.data) + Answer(d, streamID)
  {
    if !d.Silent? {
      var ok := EncodeFrame(outbound, AnswerFrame(d, streamID));
    }
  }

  /** No answer is lost to the size limit of a frame. */
  lemma AnswerFits(mac: Tokens.Mac, s: bytes, now: int, streamID: uint64)
    ensures var d := Judge(mac, s, now);
            d.Silent? || AnswerFrame(d, streamID).Fits()
  {
    if Judge(mac, s, now).Admit? {
      AckIsAccepted(mac, s, now, Judge(mac, s, now).id, streamID, []);
    }
  }

  /** On the wire: an admission is acknowledged with the id and the stream id, a refusal says why, and nothing else is sent. */
  lemma AnswerSays(mac: Tokens.Mac, s: bytes, now: int, streamID: uint64)
    ensures var d := Judge(mac, s, now);
            match d
            case Admit(id) => Acknowledges(Answer(d, streamID), id, streamID)
            case Reject(message) => Refuses(Answer(d, streamID), message)
            case Silent => Answer(d, streamID) == []
  {
    var d := Judge(mac, s, now);
    AnswerFits(mac, s, now, streamID);
    if !d.Silent? {
      DecodeOfEncode(AnswerFrame(d, streamID), []);
      assert Encode(AnswerFrame(d, streamID)) + [] == Encode(AnswerFrame(d, streamID));
    }
  }

  /** Of the relay's possible answers, the agent accepts the acknowledgement alone. */
  lemma AgentAcceptsIffAdmitted(mac: Tokens.Mac, s: bytes, now: int, streamID: uint64)
    ensures AgentAccepts(Answer(Judge(mac, s, now), streamID)) <==> Judge(mac, s, now).Admit?
  {
    var d := Judge(mac, s, now);
    AnswerFits(mac, s, now, streamID);
    if !d.Silent? {
      var f := AnswerFrame(d, streamID);
      DecodeOfEncode(f, []);
      assert Encode(f) + [] == Encode(f);
    }
  }

  method SendConnectFrame(outbound: ByteStream, id: bytes, token: bytes) returns (ok: bool)
    modifies outbound
    ensures ok == ConnectFrame(id, token).Fits()
    ensures outbound.data == if ok then old(outbound.data) + Encode(ConnectFrame(id, token)) else old(outbound.data)
    ensures ok <==> |id| + |token| + 2 <= 65536
    ensures old(outbound.data) <= outbound.data
    ensures ok ==> Requests(Appended(old(outbound.data), outbound.data), id, token)
  {
    ghost var frame := ConnectFrame(id, token);
    ok := EncodeFrame(outbound, ConnectFrame(id, token));
    if ok {
      DecodeOfEncode(frame, []);
      assert Encode(frame) + [] == Encode(frame) == Appended(old(outbound.data), outbound.data);
    }
  }

  /** `frame` is what the agent read, if it could be decoded. */
  method WaitConnectAck(inbound: ByteStream) returns (ok: bool, frame: Option<Frame>)
    modifies inbound
    ensures ok == AgentAccepts(old(inbound.data))
    ensures frame == match Decode(old(inbound.data)) { case Decoded(f, _) => Some(f) case Refused(_, _) => None }
    ensures ok <==> frame.Some? && frame.value.kind == 0x01 && frame.value.payload != [] && frame.value.payload[0] == 0x02
  {
    var d := DecodeFrame(inbound);
    if d.Refused? {
      return false, None;
    }
    return d.frame.kind == TYPE_CONTROL && d.frame.ControlSubType() == CONTROL_CONNECT_ACK, Some(d.frame);
  }

  /** The agent has read an acknowledgement that names the tunnel and the stream of the registered context. */
  predicate Agreed(ack: Option<Frame>, tunnelID: bytes, streamID: uint64) {
    && ack.Some? && ack.value.kind == 0x01 && ack.value.streamID == streamID
    && ack.value.payload == [0x02] + tunnelID
  }

  /**
   * The whole exchange over a fresh pair of streams. The agent counts itself connected exactly when the
   * relay registered a context, which then carries the acknowledged stream id; it is connected under its
   * own id exactly when id and token are acceptable, and under another one, the part of its id before a newline,
   * exactly when that part is entitled. Hosts routed to the connected tunnel now reach the new context and all others
   * are answered as before. Without a connection routing and stream state are untouched.
   */
  method Establish(server: Server, id: bytes, token: bytes, now: int)
    returns (connected: bool, ctx: TunnelContext?, ack: Option<Frame>)
    modifies server.dispatcher, server.streamMux
    ensures connected <==> ctx != null
    ensures connected ==> Agreed(ack, ctx.tunnelID, ctx.streamID)
    ensures connected && ctx.tunnelID == id <==>
              id != [] && NEWLINE !in id && |id| + |token| + 2 <= MAX_PAYLOAD && Tokens.Authentic(server.mac, token, now, id)
    ensures connected && ctx.tunnelID != id <==> PrefixEntitled(server.mac, id, token, now)
    ensures connected && ctx.tunnelID != id ==> ctx.tunnelID == id[..FirstFrom(id, NEWLINE, 0)]
    ensures connected ==> forall host: bytes ::
              R.Lookup(server.dispatcher.View(), host)
              == if R.RoutedTo(old(server.dispatcher.View()), host, ctx.tunnelID) then Some(EntryOf(ctx))
                 else R.Lookup(old(server.dispatcher.View()), host)
    ensures connected ==>
              && fresh(ctx) && ctx.streamID == old(server.streamMux.nextStreamID)
              && ctx.domain == [] && ctx.port == 0 && ctx.slug == []
              && server.dispatcher.View() == R.Step(old(server.dispatcher.View()), R.Register(EntryOf(ctx)))
              && server.streamMux.nextStreamID == Incremented(ctx.streamID)
    ensures !connected ==> unchanged(server.dispatcher) && unchanged(server.streamMux)
  {
    var up := new ByteStream([]);
    var sent := SendConnectFrame(up, id, token);
    assert up.data == Request(id, token);
    connected, ctx, ack := Exchange(server, up, now);
    RequestIsAdmittedIff(server.mac, id, token, now);
    RequestAdmitsOtherIff(server.mac, id, token, now);
    if connected {
      AdmittedIsNonEmpty(server.mac, Request(id, token), now);
      forall host: bytes {
        R.BlankRegistrationKeepsRoutes(old(server.dispatcher.View()), EntryOf(ctx), host);
      }
    }
  }

  /** Whatever the agent sent, it reads an acknowledgement back exactly when the relay registered a context. */
  method Exchange(server: Server, up: ByteStream, now: int)
    returns (connected: bool, ctx: TunnelContext?, ack: Option<Frame>)
    modifies up, server.dispatcher, server.streamMux
    ensures connected <==> ctx != null
    ensures connected ==> Agreed(ack, ctx.tunnelID, ctx.streamID)
    ensures connected <==> Judge(server.mac, old(up.data), now).Admit?
    ensures connected ==>
              && fresh(ctx) && Judge(server.mac, old(up.data), now) == Admit(ctx.tunnelID)
              && ctx.streamID == old(server.streamMux.nextStreamID)
              && ctx.domain == [] && ctx.port == 0 && ctx.slug == []
              && server.dispatcher.View() == R.Step(old(server.dispatcher.View()), R.Register(EntryOf(ctx)))
              && server.streamMux.nextStreamID == Incremented(ctx.streamID)
    ensures !connected ==> unchanged(server.dispatcher) && unchanged(server.streamMux)
  {
    var down := new ByteStream([]);
    ghost var s := up.data;
    ctx := server.HandleConnection(up, down, now);
    ghost var streamID := if ctx == null then 0 else ctx.streamID;
    assert down.data == Answer(Judge(server.mac, s, now), streamID);
    AgentAcceptsIffAdmitted(server.mac, s, now, streamID);
    assert ctx != null ==> Acknowledges(down.data, ctx.tunnelID, ctx.streamID) by {
      assert Appended([], down.data) == down.data;
    }
    connected, ack := WaitConnectAck(down);
    if connected {
      AdmittedIsNonEmpty(server.mac, s, now);
    }
  }

  lemma AdmittedIsNonEmpty(mac: Tokens.Mac, s: bytes, now: int)
    ensures Judge(mac, s, now) != Admit([])
  {
  }

  /** The bytes a connecting agent sends: nothing at all when the frame would be too large. */
  ghost function Request(id: bytes, token: bytes): bytes {
    if ConnectFrame(id, token).Fits() then Encode(ConnectFrame(id, token)) else []
  }

  lemma RequestIsAdmittedIff(mac: Tokens.Mac, id: bytes, token: bytes, now: int)
    ensures Judge(mac, Request(id, token), now) == Admit(id)
            <==> id != [] && NEWLINE !in id && |id| + |token| + 2 <= MAX_PAYLOAD && Tokens.Authentic(mac, token, now, id)
  {
    ConnectIsAdmittedIff(mac, id, token, now, []);
    assert Request(id, token) + [] == Request(id, token);
  }

  lemma RequestAdmitsOtherIff(mac: Tokens.Mac, id: bytes, token: bytes, now: int)
    ensures var d := Judge(mac, Request(id, token), now);
            && (d.Admit? && d.id != id <==> PrefixEntitled(mac, id, token, now))
            && (d.Admit? && d.id != id ==> d.id == id[..FirstFrom(id, NEWLINE, 0)])
  {
    if ConnectFrame(id, token).Fits() {
      OtherIsAdmittedIff(mac, id, token, now, []);
      assert Request(id, token) + [] == Request(id, token);
    }
  }

  /** The `k`-th pushed tunnel is the last of the push to name its domain. */
  ghost predicate NamesLast(config: seq<ConfigTunnel>, k: nat) {
    && k < |config| && config[k].domain != [] && config[k].tunnelID != []
    && forall j | k < j < |config| :: config[j].tunnelID == [] || config[j].domain != config[k].domain
  }

  /**
   * From configuration to traffic: the control plane pushes its tunnels, the agent of the `k`-th connects, and
   * requests for that tunnel's domain reach the very context that holds the acknowledged stream.
   */
  method ConnectConfigured(server: Server, config: seq<ConfigTunnel>, k: nat, token: bytes, now: int)
    returns (connected: bool, found: TunnelContext?)
    requires k < |config|
    modifies server.dispatcher, server.streamMux
    ensures var id := config[k].tunnelID;
            && NamesLast(config, k) && NEWLINE !in id && |id| + |token| + 2 <= MAX_PAYLOAD
            && Tokens.Authentic(server.mac, token, now, id) ==>
              connected && found != null && found.tunnelID == id && found.streamID == old(server.streamMux.nextStreamID)
  {
    ghost var start := server.dispatcher.View();
    var made := server.dispatcher.OnConfigUpdate(config);
    ghost var pushed := server.dispatcher.View();
    if NamesLast(config, k) {
      PushedDomainIsOwned(start, config, made, k, |made|);
      R.OwnedDomainIsRouted(pushed, config[k].domain, config[k].tunnelID);
    }
    var ctx, ack;
    connected, ctx, ack := Establish(server, config[k].tunnelID, token, now);
    found := server.dispatcher.Lookup(config[k].domain);
  }

  lemma {:induction false} PushedDomainIsOwned(t: R.Table<TunnelContext>, config: seq<ConfigTunnel>,
                                               made: seq<TunnelContext>, k: nat, n: nat)
    requires NamesLast(config, k) && |made| == |config| && k < n <= |made|
    requires forall i | 0 <= i < |config| :: made[i].tunnelID == config[i].tunnelID && made[i].domain == config[i].domain
    ensures R.Owner(R.Apply(t, Registrations(made), n), R.Domain(config[k].domain)) == Some(config[k].tunnelID)
  {
    var ops, key := Registrations(made), R.Domain(config[k].domain);
    R.OwnerAfterStep(R.Apply(t, ops, n - 1), ops[n - 1], key);
    if k < n - 1 {
      PushedDomainIsOwned(t, config, made, k, n - 1);
    }
  }
}
