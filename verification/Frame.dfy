/** The Vector Stream frame codec of internal/protocol/frame.go. */
module Frames {
  import opened Bytes

  const MAGIC := 0x4F54
  const VERSION: byte := 0x01
  const HEADER_SIZE := 17
  const MAX_PAYLOAD := 65536

  const TYPE_DATA: byte := 0x00
  const TYPE_CONTROL: byte := 0x01
  const TYPE_ERROR: byte := 0x03

  const CONTROL_CONNECT: byte := 0x01
  const CONTROL_CONNECT_ACK: byte := 0x02
  const CONTROL_CLOSE: byte := 0x03

  const ERROR_AUTH_FAILED: byte := 0x01

  datatype Frame = Frame(version: byte, kind: byte, flags: byte, streamID: uint64, payload: bytes) {
    predicate Fits() { |payload| <= MAX_PAYLOAD }
    predicate Legal() { Fits() && version == VERSION }

    predicate IsCompressed() { flags % 2 == 1 }
    predicate IsEOF() { flags / 2 % 2 == 1 }

    /** `SetEOF`: the frame with bit 1 of the flags set. */
    function WithEOF(): (f: Frame)
      ensures f.IsEOF() && f.IsCompressed() == IsCompressed() && f.(flags := flags) == this
      ensures f.flags / 4 == flags / 4
    {
      if IsEOF() then this else this.(flags := flags + 2)
    }

    function ControlSubType(): byte {
      if (kind != TYPE_CONTROL && kind != TYPE_ERROR) || payload == [] then 0 else payload[0]
    }
  }

  function NewDataFrame(streamID: uint64, payload: bytes, compressed: bool): Frame {
    Frame(VERSION, TYPE_DATA, if compressed then 1 else 0, streamID, payload)
  }

  function NewErrorFrame(subType: byte, message: bytes): Frame {
    Frame(VERSION, TYPE_ERROR, 0, 0, [subType] + message)
  }

  /** What the constructors and predicates mean for each other. */
  lemma ConstructedFrames(streamID: uint64, payload: bytes, compressed: bool, subType: byte, message: bytes)
    ensures var f := NewDataFrame(streamID, payload, compressed);
            && f.version == 0x01 && f.kind == 0x00 && f.streamID == streamID && f.payload == payload
            && f.IsCompressed() == compressed && !f.IsEOF() && f.flags < 2 && f.ControlSubType() == 0
            && f.WithEOF().IsEOF() && f.WithEOF().flags < 4
    ensures var f := NewErrorFrame(subType, message);
            && f.version == 0x01 && f.kind == 0x03 && f.flags == 0 && f.streamID == 0
            && f.payload[0] == subType == f.ControlSubType() && f.payload[1..] == message
  {
  }

  /** The subtype is the first payload byte of control and error frames, and zero otherwise. */
  lemma ControlSubTypeIs(f: Frame)
    ensures f.payload != [] && f.kind in {0x01, 0x03} ==> f.ControlSubType() == f.payload[0]
    ensures f.payload == [] || f.kind !in {0x01, 0x03} ==> f.ControlSubType() == 0
  {
  }

  datatype DecodeError = ShortHeader | InvalidMagic | UnsupportedVersion | LengthTooLarge | ShortPayload

  /** What one `DecodeFrame` call yields and the bytes it leaves on the stream. */
  datatype Decoding =
    | Decoded(frame: Frame, rest: bytes)
    | Refused(error: DecodeError, rest: bytes)

  function Header(f: Frame): (h: bytes)
    requires f.Fits()
    ensures |h| == HEADER_SIZE
  {
    Put(MAGIC, 2) + [f.version, f.kind, f.flags] + Put(f.streamID, 8) + Put(|f.payload|, 4)
  }

  function Encode(f: Frame): bytes
    requires f.Fits()
  {
    Header(f) + f.payload
  }

  function Decode(s: bytes): (d: Decoding) {
    if |s| < HEADER_SIZE then Refused(ShortHeader, [])
    else
      var body := s[HEADER_SIZE..];
      var length := Get(s[13..17]);
      if Get(s[0..2]) != MAGIC then Refused(InvalidMagic, body)
      else if s[2] != VERSION then Refused(UnsupportedVersion, body)
      else if length > MAX_PAYLOAD then Refused(LengthTooLarge, body)
      else if |body| < length then Refused(ShortPayload, [])
      else
        StreamIDInRange(s[5..13]);
        Decoded(Frame(s[2], s[3], s[4], Get(s[5..13]), body[..length]), body[length..])
  }

  lemma StreamIDInRange(b: bytes)
    requires |b| == 8
    ensures Get(b) < 0x1_0000_0000_0000_0000
  {
    PutGet(b);
    SpanValues();
  }

  /** The fields of a header, read back from the front of any longer byte string. */
  lemma HeaderFields(f: Frame, tail: bytes)
    requires f.Fits()
    ensures var s := Header(f) + tail;
            && Get(s[0..2]) == MAGIC && s[2] == f.version && s[3] == f.kind && s[4] == f.flags
            && Get(s[5..13]) == f.streamID && Get(s[13..17]) == |f.payload|
            && s[HEADER_SIZE..] == tail
  {
    SpanValues();
    GetPut(MAGIC, 2);
    GetPut(f.streamID, 8);
    GetPut(|f.payload|, 4);
    var s := Header(f) + tail;
    assert s[0..2] == Put(MAGIC, 2);
    assert s[5..13] == Put(f.streamID, 8);
    assert s[13..17] == Put(|f.payload|, 4);
  }

  /** Where the fields lie: "OT", version, type, flags, eight bytes of stream id and four of payload length, high byte first. */
  lemma HeaderLayout(f: Frame)
    requires f.Fits()
    ensures |Header(f)| == 17
    ensures Header(f)[..5] == Ascii("OT") + [f.version, f.kind, f.flags]
    ensures Header(f)[5..] == Put(f.streamID, 8) + Put(|f.payload|, 4)
  {
    var head := Put(MAGIC, 2) + [f.version, f.kind, f.flags];
    assert Put(0x4F54, 2) == Put(0x4F, 1) + [0x54] && Put(0x4F, 1) == Put(0, 0) + [0x4F];
    assert Header(f) == head + (Put(f.streamID, 8) + Put(|f.payload|, 4));
  }

  /**
   * Encoding then decoding, with anything behind it on the stream: the frame comes back and exactly its
   * bytes are consumed when the version is the current one, and otherwise the decoder refuses it.
   */
  lemma DecodeOfEncode(f: Frame, tail: bytes)
    requires f.Fits()
    ensures f.version == VERSION ==> Decode(Encode(f) + tail) == Decoded(f, tail)
    ensures f.version != VERSION ==> Decode(Encode(f) + tail) == Refused(UnsupportedVersion, f.payload + tail)
  {
    HeaderFields(f, f.payload + tail);
    Assoc(Header(f), f.payload, tail);
    assert (f.payload + tail)[..|f.payload|] == f.payload;
    assert (f.payload + tail)[|f.payload|..] == tail;
  }

  lemma SplitHeader(h: bytes)
    requires |h| == HEADER_SIZE
    ensures h == h[0..2] + [h[2], h[3], h[4]] + h[5..13] + h[13..17]
  {
  }

  lemma SplitFrame(s: bytes, n: nat)
    requires HEADER_SIZE + n <= |s|
    ensures s == (s[..HEADER_SIZE] + s[HEADER_SIZE..][..n]) + s[HEADER_SIZE..][n..]
    ensures s[..HEADER_SIZE][0..2] == s[0..2] && s[..HEADER_SIZE][5..13] == s[5..13]
    ensures s[..HEADER_SIZE][13..17] == s[13..17]
  {
  }

  /** Whatever the decoder accepts is, byte for byte, the encoding of the frame it returned. */
  lemma EncodeOfDecode(s: bytes)
    requires Decode(s).Decoded?
    ensures Decode(s).frame.Legal()
    ensures s == Encode(Decode(s).frame) + Decode(s).rest
  {
    var f := Decode(s).frame;
    SplitFrame(s, |f.payload|);
    var h := s[..HEADER_SIZE];
    assert Header(f) == h by {
      SplitHeader(h);
      PutGet(s[0..2]);
      PutGet(s[5..13]);
      PutGet(s[13..17]);
    }
  }

  /** The decoder accepts a byte string exactly when an encoding of a legal frame is in front. */
  lemma AcceptsIffEncodingInFront(s: bytes)
    ensures Decode(s).Decoded? <==> exists f: Frame :: f.Legal() && Encode(f) <= s
  {
    if Decode(s).Decoded? {
      EncodeOfDecode(s);
      assert Encode(Decode(s).frame) <= s;
    }
    forall f: Frame | f.Legal() && Encode(f) <= s ensures Decode(s).Decoded? {
      DecodeOfEncode(f, s[|Encode(f)|..]);
      assert s == Encode(f) + s[|Encode(f)|..];
    }
  }

  /** No strict prefix of an encoding decodes: a cut stream never yields a frame that was not sent whole. */
  lemma NoStrictPrefixDecodes(f: Frame, cut: bytes)
    requires f.Fits() && cut < Encode(f)
    ensures Decode(cut).Refused? && Decode(cut).error in {ShortHeader, ShortPayload, UnsupportedVersion}
  {
    if |cut| >= HEADER_SIZE {
      HeaderFields(f, cut[HEADER_SIZE..]);
      assert cut[..HEADER_SIZE] == Header(f);
      assert cut == Header(f) + cut[HEADER_SIZE..];
    }
  }

  // ---- Streams of frames ----

  ghost predicate AllLegal(fs: seq<Frame>) {
    forall i | 0 <= i < |fs| :: fs[i].Legal()
  }

  ghost function EncodeAll(fs: seq<Frame>): bytes
    requires AllLegal(fs)
  {
    if fs == [] then [] else Encode(fs[0]) + EncodeAll(fs[1..])
  }

  lemma {:induction false} EncodeAllConcat(a: seq<Frame>, b: seq<Frame>)
    requires AllLegal(a) && AllLegal(b)
    ensures AllLegal(a + b) && EncodeAll(a + b) == EncodeAll(a) + EncodeAll(b)
  {
    if a == [] {
      assert a + b == b;
    } else {
      EncodeAllConcat(a[1..], b);
      assert (a + b)[0] == a[0] && (a + b)[1..] == a[1..] + b;
      Assoc(Encode(a[0]), EncodeAll(a[1..]), EncodeAll(b));
    }
  }

  lemma EncodeAllLast(fs: seq<Frame>, f: Frame, tail: bytes)
    requires AllLegal(fs) && f.Legal()
    ensures AllLegal(fs + [f]) && EncodeAll(fs + [f]) + tail == EncodeAll(fs) + (Encode(f) + tail)
  {
    EncodeAllConcat(fs, [f]);
    assert EncodeAll([f]) == Encode(f) + EncodeAll([]);
    Assoc(EncodeAll(fs), Encode(f), tail);
  }

  /** Frames read until the decoder refuses, and the bytes from the refused point on. */
  ghost function DecodeAll(s: bytes): (r: (seq<Frame>, bytes))
    decreases |s|
  {
    match Decode(s)
    case Refused(_, _) => ([], s)
    case Decoded(f, rest) =>
      var (fs, left) := DecodeAll(rest);
      ([f] + fs, left)
  }

  lemma DecodeAllStep(s: bytes, f: Frame, rest: bytes)
    requires Decode(s) == Decoded(f, rest)
    ensures DecodeAll(s) == ([f] + DecodeAll(rest).0, DecodeAll(rest).1)
  {
  }

  /** The decoder recovers any list of legal frames from the concatenated encodings. */
  lemma {:induction false} StreamRoundTrip(fs: seq<Frame>, tail: bytes)
    requires AllLegal(fs) && Decode(tail).Refused?
    ensures DecodeAll(EncodeAll(fs) + tail) == (fs, tail)
  {
    if fs == [] {
      assert EncodeAll(fs) + tail == tail;
    } else {
      var first, others := Encode(fs[0]), EncodeAll(fs[1..]);
      var more := others + tail;
      Assoc(first, others, tail);
      DecodeOfEncode(fs[0], more);
      DecodeAllStep(first + more, fs[0], more);
      StreamRoundTrip(fs[1..], tail);
      assert fs == [fs[0]] + fs[1..];
    }
  }

  /** Conversely, every byte string splits uniquely into encodings of legal frames and an undecodable rest. */
  lemma {:induction false} StreamDecomposes(s: bytes)
    ensures var (fs, left) := DecodeAll(s);
            AllLegal(fs) && s == EncodeAll(fs) + left && Decode(left).Refused?
    ensures forall fs, left | AllLegal(fs) && s == EncodeAll(fs) + left && Decode(left).Refused? :: (fs, left) == DecodeAll(s)
    decreases |s|
  {
    forall fs, left | AllLegal(fs) && s == EncodeAll(fs) + left && Decode(left).Refused?
      ensures (fs, left) == DecodeAll(s)
    {
      StreamRoundTrip(fs, left);
    }
    match Decode(s)
    case Refused(_, _) =>
    case Decoded(f, rest) =>
      EncodeOfDecode(s);
      StreamDecomposes(rest);
      var (fs, left) := DecodeAll(rest);
      assert ([f] + fs)[1..] == fs;
      Assoc(Encode(f), EncodeAll(fs), left);
  }

  lemma StreamEncodingInjective(a: seq<Frame>, b: seq<Frame>)
    requires AllLegal(a) && AllLegal(b) && EncodeAll(a) == EncodeAll(b)
    ensures a == b
  {
    StreamRoundTrip(a, []);
    StreamRoundTrip(b, []);
  }

  // ---- The operations on a stream ----

  /** A reliable byte stream: `Write` appends, `ReadFull` takes from the front. */
  class ByteStream {
    var data: bytes

    constructor (initial: bytes)
      ensures data == initial
    {
      data := initial;
    }

    method Write(b: bytes)
      modifies this
      ensures data == old(data) + b
    {
      data := data + b;
    }

    /** `io.ReadFull`: all `n` bytes, or nothing and an exhausted stream. */
    method ReadFull(n: nat) returns (b: Option<bytes>)
      modifies this
      ensures n <= |old(data)| ==> b == Some(old(data)[..n]) && data == old(data)[n..]
      ensures n > |old(data)| ==> b == None && data == []
    {
      if n <= |data| {
        b := Some(data[..n]);
        data := data[n..];
      } else {
        b := None;
        data := [];
      }
    }
  }

  method EncodeFrame(w: ByteStream, f: Frame) returns (ok: bool)
    modifies w
    ensures ok == f.Fits() && (ok <==> |f.payload| <= 65536)
    ensures w.data == if ok then old(w.data) + Encode(f) else old(w.data)
  {
    if |f.payload| > MAX_PAYLOAD {
      return false;
    }
    var header := new byte[HEADER_SIZE](_ => 0);
    PutBigEndian(header, 0, 2, MAGIC);
    header[2] := f.version;
    header[3] := f.kind;
    header[4] := f.flags;
    assert header[..5] == Put(MAGIC, 2) + [f.version, f.kind, f.flags];
    PutBigEndian(header, 5, 8, f.streamID);
    PutBigEndian(header, 13, 4, |f.payload|);
    assert header[..] == Header(f);
    w.Write(header[..]);
    if |f.payload| > 0 {
      w.Write(f.payload);
    }
    Assoc(old(w.data), Header(f), f.payload);
    return true;
  }

  method DecodeFrame(r: ByteStream) returns (d: Decoding)
    modifies r
    ensures d == Decode(old(r.data)) && r.data == d.rest
  {
    ghost var s := r.data;
    var header := r.ReadFull(HEADER_SIZE);
    if header.None? {
      return Refused(ShortHeader, []);
    }
    var h := header.value;
    assert h[0..2] == s[0..2] && h[5..13] == s[5..13] && h[13..17] == s[13..17];
    if Get(h[0..2]) != MAGIC {
      return Refused(InvalidMagic, r.data);
    }
    if h[2] != VERSION {
      return Refused(UnsupportedVersion, r.data);
    }
    var length := Get(h[13..17]);
    if length > MAX_PAYLOAD {
      return Refused(LengthTooLarge, r.data);
    }
    StreamIDInRange(h[5..13]);
    var f := Frame(h[2], h[3], h[4], Get(h[5..13]), []);
    if length > 0 {
      var payload := r.ReadFull(length);
      if payload.None? {
        return Refused(ShortPayload, []);
      }
      f := f.(payload := payload.value);
    }
    return Decoded(f, r.data);
  }
}
