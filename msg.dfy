/** The older text-only codec: a packet is a type byte, a 4-byte size in
    network byte order and the message bytes. Only type 0 can be read back;
    any other type fails with `UnknownMsg` rather than `ConnectionClosed`. */
module Msg {
  import opened Errors
  import opened Utils
  import Message

  /** `Packet` of the legacy codec: the type byte, the size field and the
      message buffer. */
  datatype LegacyPacket = LegacyPacket(msgType: uint8, size: uint32, msg: Bytes)

  /** `Packet::message`: type 0, the size field the length cast to
      `uint32`, and a copy of the text. */
  function NewMessage(text: Bytes): (p: LegacyPacket)
    ensures p.msgType == 0 && p.msg == text && p.size <= |p.msg|
    ensures p.size == |text| % 0x1_0000_0000
  {
    LegacyPacket(0, |text| % 0x1_0000_0000, text)
  }

  /** `serialize` sends `size` bytes of the buffer, which must hold at least
      that many. */
  predicate Writable(p: LegacyPacket)
  {
    p.size <= |p.msg|
  }

  /** The bytes `serialize` writes: the type byte, the size converted with
      `reverse_bytes`, then `size` message bytes. The frame is five header
      bytes longer than the message it carries. */
  function Serialize(p: LegacyPacket): (r: Bytes)
    requires Writable(p)
    ensures |r| == 5 + p.size
    ensures r[0] == p.msgType && r[5..] == p.msg[..p.size]
  {
    [p.msgType] + HostBytes32(ReverseBytes32(p.size)) + p.msg[..p.size]
  }

  /** `deserialize`: the type byte; for type 0 the size and then that many
      bytes, for any other type `UnknownMsg`. */
  function Deserialize(s: Bytes): (r: Result<(LegacyPacket, Bytes)>)
    ensures r.Ok? ==> |r.value.1| < |s|
  {
    if |s| < 1 then Err(ConnectionClosed)
    else if s[0] != 0 then Err(UnknownMsg)
    else
      var x := s[1..];
      if |x| < 4 then Err(ConnectionClosed)
      else
        var size := ReverseBytes32(FromHostBytes32(x[..4]));
        var body := x[4..];
        if |body| < size then Err(ConnectionClosed)
        else Ok((LegacyPacket(0, size, body[..size]), body[size..]))
  }

  /** The size goes out in big-endian order, followed by exactly `size`
      bytes of the message. */
  lemma SerializeLayout(p: LegacyPacket)
    requires Writable(p)
    ensures Serialize(p) == [p.msgType] + BigEndian32(p.size) + p.msg[..p.size]
    ensures |Serialize(p)| == 5 + p.size
  {
    ReverseBytes32IsNetworkOrder(p.size);
  }

  /** A type-0 packet whose size is its length is read back unchanged, and
      the bytes after it are left in the stream. */
  lemma RoundTrip(p: LegacyPacket, rest: Bytes)
    requires p.msgType == 0 && p.size == |p.msg|
    ensures Deserialize(Serialize(p) + rest) == Ok((p, rest))
  {
    var h := HostBytes32(ReverseBytes32(p.size));
    var s := Serialize(p) + rest;
    assert p.msg[..p.size] == p.msg;
    assert s == [0] + (h + (p.msg + rest));
    var x := s[1..];
    assert x[..4] == h;
    FromHostBytes32Inverse(ReverseBytes32(p.size));
    ReverseBytes32Involution(p.size);
    assert x[4..] == p.msg + rest;
  }

  /** `message` followed by `serialize` and `deserialize` gives the text
      back whenever its length fits the size field. */
  lemma MessageRoundTrip(text: Bytes, rest: Bytes)
    requires |text| < 0x1_0000_0000
    ensures Deserialize(Serialize(NewMessage(text)) + rest) == Ok((LegacyPacket(0, |text|, text), rest))
  {
    RoundTrip(NewMessage(text), rest);
  }

  /** Any stream whose first byte is not 0 is rejected with `UnknownMsg`,
      not `ConnectionClosed`, whatever follows that byte, even when the
      stream ends right after it. */
  lemma UnknownTypeRejected(s: Bytes)
    requires |s| > 0 && s[0] != 0
    ensures Deserialize(s) == Err(UnknownMsg)
  {
  }

  /** A stream that ends before the type, the size or the payload is
      complete fails with `ConnectionClosed`. */
  lemma TruncatedCloses(p: LegacyPacket, n: nat)
    requires Writable(p) && p.msgType == 0
    requires n < |Serialize(p)|
    ensures Deserialize(Serialize(p)[..n]) == Err(ConnectionClosed)
  {
    var e := Serialize(p);
    var t := e[..n];
    if n >= 5 {
      var h := HostBytes32(ReverseBytes32(p.size));
      var x := t[1..];
      assert x[..4] == h;
      FromHostBytes32Inverse(ReverseBytes32(p.size));
      ReverseBytes32Involution(p.size);
    }
  }

  /** What `deserialize` returns is a type-0 packet whose size is its
      length and whose serialization is exactly the bytes consumed. */
  lemma DeserializeSound(s: Bytes)
    requires Deserialize(s).Ok?
    ensures var (p, rest) := Deserialize(s).value;
      p.msgType == 0 && p.size == |p.msg| && Serialize(p) + rest == s
  {
    var x := s[1..];
    var b := x[..4];
    var size := ReverseBytes32(FromHostBytes32(b));
    ReverseBytes32Involution(FromHostBytes32(b));
    HostBytes32Inverse(b);
    var body := x[4..];
    assert s == [0] + b + body[..size] + body[size..];
  }

  /** A type-0 legacy packet is byte for byte a `TextMessage` frame of the
      newer codec, so either side can read what the other wrote. */
  lemma SameFrameAsTextMessage(p: LegacyPacket)
    requires Writable(p) && p.msgType == 0
    ensures Serialize(p) == Message.Encode(Message.TextMessage(p.size, p.msg))
  {
  }
}
