/** The agent's two forwarding loops, internal/control/tunnel_conn.go:177-246, over one QUIC stream. */
module Pump {
  import opened Bytes
  import opened Frames

  const READ_BUFFER := 32768

  /** One `localConn.Read(buf)`: the bytes it put in the buffer and how it returned. */
  datatype Read =
    | Chunk(data: bytes)
    | Eof(data: bytes)
    | Fail(data: bytes)

  ghost predicate WithinBuffer(input: seq<Read>) {
    forall i | 0 <= i < |input| :: |input[i].data| <= READ_BUFFER
  }

  /** Every byte the local connection handed over, up to and including the read that ended the loop. */
  ghost function Source(input: seq<Read>): bytes {
    if input == [] then []
    else if input[0].Chunk? then input[0].data + Source(input[1..])
    else input[0].data
  }

  /** The bytes of the successful reads alone. */
  ghost function Relayed(input: seq<Read>): bytes {
    if input == [] || !input[0].Chunk? then [] else input[0].data + Relayed(input[1..])
  }

  /** The frames the sending loop writes; the stream id counts chunks modulo 2^64. */
  ghost function Sent(input: seq<Read>, id: uint64): seq<Frame> {
    if input == [] then []
    else
      match input[0]
      case Chunk(d) => [NewDataFrame(id, d, false)] + Sent(input[1..], Incremented(id))
      case Eof(_) => [NewDataFrame(id, [], false).WithEOF()]
      case Fail(_) => []
  }

  /** No frame of the pump can fail the 64 KiB check of the encoder. */
  lemma {:induction false} SentIsLegal(input: seq<Read>, id: uint64)
    requires WithinBuffer(input)
    ensures AllLegal(Sent(input, id))
    ensures forall i | 0 <= i < |Sent(input, id)| :: Sent(input, id)[i].kind == TYPE_DATA
    decreases |input|
  {
    if input != [] && input[0].Chunk? {
      SentIsLegal(input[1..], Incremented(id));
    }
  }

  /**
   * The frames, one by one: each successful read travels whole in an unflagged data frame whose stream id counts from
   * `id` modulo 2^64, and the end of the input in one empty data frame with the end mark alone.
   */
  lemma {:induction false} SentFrames(input: seq<Read>, id: uint64, i: nat)
    requires i < |Sent(input, id)|
    ensures i < |input| && !input[i].Fail?
    ensures var f := Sent(input, id)[i];
            && f.version == 0x01 && f.kind == 0x00 && f.streamID == (id + i) % 0x1_0000_0000_0000_0000
            && f.flags == (if input[i].Chunk? then 0 else 2) && f.payload == (if input[i].Chunk? then input[i].data else [])
    decreases i
  {
    if i > 0 {
      var rest := Sent(input[1..], Incremented(id));
      assert Sent(input, id)[i] == rest[i - 1];
      SentFrames(input[1..], Incremented(id), i - 1);
      assert (id + i) % TWO_TO_64 == (Incremented(id) + (i - 1)) % TWO_TO_64;
    }
  }

  /** The bytes the sending loop writes from its `i`-th read on. */
  ghost function SentBytes(input: seq<Read>, i: nat, id: uint64): bytes
    requires WithinBuffer(input) && i <= |input|
    decreases |input| - i
  {
    if i == |input| then []
    else
      match input[i]
      case Chunk(d) => Encode(NewDataFrame(id, d, false)) + SentBytes(input, i + 1, Incremented(id))
      case Eof(_) => Encode(NewDataFrame(id, [], false).WithEOF())
      case Fail(_) => []
  }

  lemma {:induction false} SentBytesEncodeSent(input: seq<Read>, i: nat, id: uint64)
    requires WithinBuffer(input) && i <= |input|
    ensures AllLegal(Sent(input[i..], id)) && SentBytes(input, i, id) == EncodeAll(Sent(input[i..], id))
    decreases |input| - i
  {
    SentIsLegal(input[i..], id);
    var sent := Sent(input[i..], id);
    if i < |input| {
      match input[i]
      case Chunk(d) =>
        SentBytesEncodeSent(input, i + 1, Incremented(id));
        assert input[i..][1..] == input[i + 1..];
        assert sent[1..] == Sent(input[i + 1..], Incremented(id));
      case Eof(_) =>
        assert EncodeAll(sent) == Encode(sent[0]) + EncodeAll([]);
      case Fail(_) =>
    }
  }

  method ForwardLocalToRemote(input: seq<Read>, wire: ByteStream)
    requires WithinBuffer(input)
    modifies wire
    ensures AllLegal(Sent(input, 1)) && wire.data == old(wire.data) + EncodeAll(Sent(input, 1))
  {
    SentBytesEncodeSent(input, 0, 1);
    assert input[0..] == input;
    var streamID: uint64 := 1;
    var i := 0;
    ghost var all, todo := SentBytes(input, 0, 1), SentBytes(input, 0, 1);
    while i < |input|
      invariant 0 <= i <= |input|
      invariant todo == SentBytes(input, i, streamID)
      invariant wire.data + todo == old(wire.data) + all
    {
      ghost var before := wire.data;
      if input[i].Eof? {
        var ok := EncodeFrame(wire, NewDataFrame(streamID, [], false).WithEOF());
        return;
      }
      if input[i].Fail? {
        return;
      }
      var frame := NewDataFrame(streamID, input[i].data, false);
      var ok := EncodeFrame(wire, frame);
      streamID := Incremented(streamID);
      i := i + 1;
      todo := SentBytes(input, i, streamID);
      Assoc(before, Encode(frame), todo);
    }
  }

  datatype Stop = AtEOF | AtClose | AtError

  /** Outcome of the receiving loop: the bytes written locally, the unread wire bytes, why it stopped. */
  datatype Delivery = Delivery(written: bytes, rest: bytes, stop: Stop)

  function Deliver(s: bytes): (d: Delivery)
    decreases |s|
  {
    match Decode(s)
    case Refused(_, rest) => Delivery([], rest, AtError)
    case Decoded(f, rest) =>
      if f.kind == TYPE_CONTROL then
        if f.ControlSubType() == CONTROL_CLOSE then Delivery([], rest, AtClose) else Deliver(rest)
      else if f.IsEOF() then Delivery(f.payload, rest, AtEOF)
      else
        var d := Deliver(rest);
        d.(written := f.payload + d.written)
  }

  method ForwardRemoteToLocal(wire: ByteStream, local: ByteStream) returns (stop: Stop)
    requires wire != local
    modifies wire, local
    ensures var d := Deliver(old(wire.data));
            local.data == old(local.data) + d.written && wire.data == d.rest && stop == d.stop
  {
    ghost var all, todo := Deliver(wire.data), Deliver(wire.data);
    while true
      invariant todo == Deliver(wire.data)
      invariant local.data + todo.written == old(local.data) + all.written
      invariant todo.rest == all.rest && todo.stop == all.stop
      decreases |wire.data|
    {
      ghost var here, now := local.data, todo.written;
      var d := DecodeFrame(wire);
      if d.Refused? {
        return AtError;
      }
      var frame := d.frame;
      if frame.kind == TYPE_CONTROL {
        if frame.ControlSubType() == CONTROL_CLOSE {
          return AtClose;
        }
        todo := Deliver(wire.data);
        continue;
      }
      if |frame.payload| > 0 {
        local.Write(frame.payload);
      }
      assert local.data == here + frame.payload;
      if frame.IsEOF() {
        return AtEOF;
      }
      todo := Deliver(wire.data);
      Assoc(here, frame.payload, todo.written);
    }
  }

  // ---- What the two loops do together ----

  /** Frames the receiver reads past: data without the end mark, and control frames other than close. */
  predicate Harmless(f: Frame) {
    if f.kind == TYPE_CONTROL then f.ControlSubType() != CONTROL_CLOSE else !f.IsEOF()
  }

  ghost function DataOnly(fs: seq<Frame>): seq<Frame> {
    if fs == [] then []
    else (if fs[0].kind == TYPE_CONTROL then [] else [fs[0]]) + DataOnly(fs[1..])
  }

  ghost function Payloads(fs: seq<Frame>): bytes {
    if fs == [] then [] else fs[0].payload + Payloads(fs[1..])
  }

  /** After any harmless frames the receiver has written their data payloads and goes on with the rest. */
  lemma {:induction false} DeliverPastHarmless(fs: seq<Frame>, tail: bytes)
    requires AllLegal(fs) && forall i | 0 <= i < |fs| :: Harmless(fs[i])
    ensures var d := Deliver(tail);
            Deliver(EncodeAll(fs) + tail) == d.(written := Payloads(DataOnly(fs)) + d.written)
  {
    if fs == [] {
      assert EncodeAll(fs) + tail == tail;
    } else {
      var more, f := EncodeAll(fs[1..]) + tail, fs[0];
      Assoc(Encode(f), EncodeAll(fs[1..]), tail);
      DecodeOfEncode(f, more);
      DeliverPastHarmless(fs[1..], tail);
      var w := Payloads(DataOnly(fs[1..]));
      if f.kind != TYPE_CONTROL {
        assert DataOnly(fs)[1..] == DataOnly(fs[1..]);
        Assoc(f.payload, w, Deliver(tail).written);
      } else {
        assert DataOnly(fs) == DataOnly(fs[1..]);
      }
    }
  }

  /** The reads end at a clean or data-carrying end of file. */
  ghost predicate EndsAtEOF(input: seq<Read>) {
    input != [] && input[|input| - 1].Eof? && forall i | 0 <= i < |input| - 1 :: input[i].Chunk?
  }

  lemma {:induction false} SentShape(input: seq<Read>, id: uint64)
    requires EndsAtEOF(input)
    ensures var s := Sent(input, id);
            && s != [] && s[|s| - 1] == s[|s| - 1].WithEOF() && s[|s| - 1].payload == [] && s[|s| - 1].kind == TYPE_DATA
            && Payloads(s[..|s| - 1]) == Relayed(input)
            && forall i | 0 <= i < |s| - 1 :: s[i].flags == 0
    decreases |input|
  {
    var s := Sent(input, id);
    if input[0].Chunk? {
      SentShape(input[1..], Incremented(id));
      var t := Sent(input[1..], Incremented(id));
      assert s == [NewDataFrame(id, input[0].data, false)] + t;
      assert s[..|s| - 1][1..] == t[..|t| - 1];
    } else {
      assert s == [NewDataFrame(id, [], false).WithEOF()];
    }
  }

  /**
   * Pump identity. However the reads chunk the stream, and whatever control frames other than close are
   * put between the pump's data frames, the receiver writes the relayed bytes, stops at the end mark and
   * leaves everything behind it unread. `front` is what precedes the end-of-stream frame on the wire.
   */
  lemma PumpIdentity(input: seq<Read>, id: uint64, front: seq<Frame>, tail: bytes)
    requires WithinBuffer(input) && EndsAtEOF(input)
    requires AllLegal(front)
    requires forall i | 0 <= i < |front| :: front[i].kind == TYPE_CONTROL ==> front[i].ControlSubType() != CONTROL_CLOSE
    requires Sent(input, id) != [] && DataOnly(front) == Sent(input, id)[..|Sent(input, id)| - 1]
    ensures var sent := Sent(input, id);
            var eof := sent[|sent| - 1];
            eof.Legal() && Deliver(EncodeAll(front) + (Encode(eof) + tail)) == Delivery(Relayed(input), tail, AtEOF)
  {
    SentIsLegal(input, id);
    SentShape(input, id);
    var s := Sent(input, id);
    var eof := s[|s| - 1];
    forall i | 0 <= i < |front| ensures Harmless(front[i]) {
      if front[i].kind != TYPE_CONTROL {
        var j := DataOnlyKeeps(front, i);
      }
    }
    DecodeOfEncode(eof, tail);
    DeliverPastHarmless(front, Encode(eof) + tail);
  }

  lemma {:induction false} DataOnlyKeeps(fs: seq<Frame>, i: nat) returns (j: nat)
    requires i < |fs| && fs[i].kind != TYPE_CONTROL
    ensures j < |DataOnly(fs)| && DataOnly(fs)[j] == fs[i]
  {
    if i == 0 {
      j := 0;
    } else {
      j := DataOnlyKeeps(fs[1..], i - 1);
      j := if fs[0].kind == TYPE_CONTROL then j else j + 1;
    }
  }

  lemma {:induction false} DataOnlyOfData(fs: seq<Frame>)
    requires forall i | 0 <= i < |fs| :: fs[i].kind == TYPE_DATA
    ensures DataOnly(fs) == fs
  {
    if fs != [] {
      DataOnlyOfData(fs[1..]);
      assert fs == [fs[0]] + fs[1..];
    }
  }

  /** With nothing put in between: what the sending loop writes, the receiving loop turns back into the relayed bytes. */
  lemma PumpRoundTrip(input: seq<Read>, id: uint64, tail: bytes)
    requires WithinBuffer(input) && EndsAtEOF(input)
    ensures AllLegal(Sent(input, id))
    ensures Deliver(EncodeAll(Sent(input, id)) + tail) == Delivery(Relayed(input), tail, AtEOF)
  {
    SentIsLegal(input, id);
    SentShape(input, id);
    var s := Sent(input, id);
    var front, eof := s[..|s| - 1], s[|s| - 1];
    assert EncodeAll(s) + tail == EncodeAll(front) + (Encode(eof) + tail) by {
      EncodeAllLast(front, eof, tail);
      assert s == front + [eof];
    }
    DataOnlyOfData(front);
    PumpIdentity(input, id, front, tail);
  }

  /** Both loops over one stream, the receiver starting where the sender started. */
  method Transfer(input: seq<Read>, wire: ByteStream, local: ByteStream) returns (stop: Stop)
    requires wire != local && wire.data == [] && WithinBuffer(input) && EndsAtEOF(input)
    modifies wire, local
    ensures local.data == old(local.data) + Relayed(input) && wire.data == [] && stop == AtEOF
  {
    ForwardLocalToRemote(input, wire);
    PumpRoundTrip(input, 1, []);
    assert wire.data == EncodeAll(Sent(input, 1)) + [];
    stop := ForwardRemoteToLocal(wire, local);
  }

  /** The pump is the identity on the source stream exactly when the read that met end of file was empty. */
  lemma {:induction false} RelayedIsSourceIff(input: seq<Read>)
    requires EndsAtEOF(input)
    ensures Source(input) == Relayed(input) + input[|input| - 1].data
    ensures Relayed(input) == Source(input) <==> input[|input| - 1].data == []
  {
    if input[0].Chunk? {
      RelayedIsSourceIff(input[1..]);
      var l := input[|input| - 1].data;
      Assoc(input[0].data, Relayed(input[1..]), l);
    }
    assert |Source(input)| == |Relayed(input)| + |input[|input| - 1].data|;
  }

  /** A reader may deliver bytes together with end of file, though a TCP connection does not; the loop then drops them. */
  lemma BytesWithEOFAreDropped()
    ensures Relayed([Chunk([1]), Eof([2])]) == [1]
    ensures Source([Chunk([1]), Eof([2])]) == [1, 2]
  {
  }

  lemma DeliverStep(f: Frame, rest: bytes)
    requires f.Legal()
    ensures Deliver(Encode(f) + rest)
            == if Harmless(f) && f.kind == TYPE_CONTROL then Deliver(rest)
               else if f.kind == TYPE_CONTROL then Delivery([], rest, AtClose)
               else if f.IsEOF() then Delivery(f.payload, rest, AtEOF)
               else Deliver(rest).(written := f.payload + Deliver(rest).written)
  {
    DecodeOfEncode(f, rest);
  }

  /** A control frame stops the receiver if and only if its first payload byte is 3, the close; none writes anything. */
  lemma ControlIsReadPast(f: Frame, rest: bytes)
    requires f.Legal() && f.kind == 0x01
    ensures Deliver(Encode(f) + rest)
            == if f.payload != [] && f.payload[0] == 0x03 then Delivery([], rest, AtClose) else Deliver(rest)
  {
    DeliverStep(f, rest);
  }

  /** The first data frame of a stream that carries part of what was sent is the first frame sent. */
  lemma {:induction false} FirstIsFirstSent(input: seq<Read>, id: uint64, fs: seq<Frame>)
    requires fs != [] && fs[0].kind != TYPE_CONTROL && DataOnly(fs) <= Sent(input, id)
    ensures input != [] && !input[0].Fail?
    ensures input[0].Chunk? ==> fs[0] == NewDataFrame(id, input[0].data, false)
                                && DataOnly(fs[1..]) <= Sent(input[1..], Incremented(id))
    ensures input[0].Eof? ==> fs[0].payload == [] && fs[0].IsEOF()
  {
    assert DataOnly(fs) == [fs[0]] + DataOnly(fs[1..]);
    assert fs[0] == DataOnly(fs)[0] == Sent(input, id)[0];
    if input[0].Chunk? {
      assert Sent(input, id)[1..] == Sent(input[1..], Incremented(id));
      assert DataOnly(fs)[1..] == DataOnly(fs[1..]);
    }
  }

  lemma CutInFirstOrBehind(fs: seq<Frame>, cut: bytes)
    requires fs != [] && AllLegal(fs) && cut <= EncodeAll(fs)
    ensures var head := Encode(fs[0]);
            if |cut| < |head| then cut < head else cut == head + cut[|head|..] && cut[|head|..] <= EncodeAll(fs[1..])
  {
    var head := Encode(fs[0]);
    if |cut| < |head| {
      assert cut == head[..|cut|];
    }
  }

  /**
   * Prefix safety. Cut the wire anywhere, with any control frames (close included) between the pump's
   * frames and any reads so far: what the receiver has written is a prefix of what the sender relayed.
   */
  lemma {:induction false} PumpPrefixSafe(input: seq<Read>, id: uint64, fs: seq<Frame>, cut: bytes)
    requires WithinBuffer(input) && AllLegal(fs) && DataOnly(fs) <= Sent(input, id) && cut <= EncodeAll(fs)
    ensures Deliver(cut).written <= Relayed(input)
    decreases |fs|
  {
    if fs != [] {
      var f, head := fs[0], Encode(fs[0]);
      CutInFirstOrBehind(fs, cut);
      if |cut| < |head| {
        NoStrictPrefixDecodes(f, cut);
      } else {
        var rest := cut[|head|..];
        DeliverStep(f, rest);
        if f.kind != TYPE_CONTROL {
          FirstIsFirstSent(input, id, fs);
          if input[0].Chunk? {
            PumpPrefixSafe(input[1..], Incremented(id), fs[1..], rest);
          }
        } else if Harmless(f) {
          assert DataOnly(fs) == DataOnly(fs[1..]);
          PumpPrefixSafe(input, id, fs[1..], rest);
        }
      }
    }
  }
}
