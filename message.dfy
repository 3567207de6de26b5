/** The wire codec of the peer protocol: every frame is a one-byte type tag
    followed by that type's payload, multi-byte integers in network byte
    order. A stream is the sequence of bytes still to be read from a socket;
    a read that needs more bytes than the stream has fails, as a socket
    read fails on end of stream or on an I/O error. */
module Message {
  import opened Errors
  import opened Utils

  const TextMessageType: uint8 := 0
  const SetNameType: uint8 := 1
  const PeerDiscoveryType: uint8 := 2

  /** An IPv4 address in network byte order (RFC 791, section 3.1). */
  type Ipv4Bytes = s: Bytes | |s| == 4 witness [0, 0, 0, 0]
  /** An IPv6 address in network byte order (RFC 4291, section 2.1). */
  type Ipv6Bytes = s: Bytes | |s| == 16 witness [0, 0, 0, 0, 0, 0, 0, 0, 0, 0, 0, 0, 0, 0, 0, 0]

  /** The closed sum of protocol messages. `TextMessage` and `SetName` carry
      the length field they put on the wire next to the bytes it measures. */
  datatype Packet =
    | TextMessage(textSize: uint32, text: Bytes)
    | SetName(nameSize: uint8, name: Bytes)
    | PeerDiscovery(ipv4: seq<Ipv4Bytes>, ipv6: seq<Ipv6Bytes>)

  /** Writing sends `size` bytes taken from the start of the text, so the
      text must be at least that long (any longer is never sent). */
  predicate Writable(p: Packet)
  {
    match p
    case TextMessage(size, text) => size <= |text|
    case SetName(size, name) => size <= |name|
    case PeerDiscovery(_, _) => true
  }

  /** The counts of a discovery frame are single bytes: each list fits in a
      frame only with at most 255 addresses. */
  predicate CountsFit(p: Packet)
  {
    p.PeerDiscovery? ==> |p.ipv4| < 0x100 && |p.ipv6| < 0x100
  }

  /** Every length or count field equals the length of what it describes. */
  predicate WellFormed(p: Packet)
  {
    && Writable(p)
    && CountsFit(p)
    && match p
       case TextMessage(size, text) => size == |text|
       case SetName(size, name) => size == |name|
       case PeerDiscovery(_, _) => true
  }

  // ---------------------------------------------------------------------
  // Factories
  // ---------------------------------------------------------------------

  /** `Packet::text_message`: the size field is the text length cast to
      `uint32`. */
  function NewTextMessage(msg: Bytes): (p: Packet)
    ensures p.TextMessage? && p.text == msg && Writable(p)
    ensures p.textSize == |msg| % 0x1_0000_0000
    ensures WellFormed(p) <==> |msg| < 0x1_0000_0000
  {
    TextMessage(|msg| % 0x1_0000_0000, msg)
  }

  /** `Packet::set_name`: the size field is the name length cast to
      `uint8`, so a name of 256 bytes or more is described short. */
  function NewSetName(name: Bytes): (p: Packet)
    ensures p.SetName? && p.name == name && Writable(p)
    ensures p.nameSize == |name| % 0x100
    ensures WellFormed(p) <==> |name| < 0x100
  {
    SetName(|name| % 0x100, name)
  }

  /** `Packet::peer_discovery`: both address lists copied in order. */
  function NewPeerDiscovery(v4: seq<Ipv4Bytes>, v6: seq<Ipv6Bytes>): (p: Packet)
    ensures p.PeerDiscovery? && p.ipv4 == v4 && p.ipv6 == v6
    ensures WellFormed(p) <==> |v4| < 0x100 && |v6| < 0x100
  {
    PeerDiscovery(v4, v6)
  }

  // ---------------------------------------------------------------------
  // Encoding (the `write` members)
  // ---------------------------------------------------------------------

  /** The addresses of a list laid end to end. */
  function Flatten(xs: seq<Bytes>): Bytes
  {
    if xs == [] then [] else xs[0] + Flatten(xs[1..])
  }

  /** The type byte of each message: one distinct tag per kind. */
  function Tag(p: Packet): (r: uint8)
    ensures r == TextMessageType <==> p.TextMessage?
    ensures r == SetNameType <==> p.SetName?
    ensures r == PeerDiscoveryType <==> p.PeerDiscovery?
  {
    match p
    case TextMessage(_, _) => TextMessageType
    case SetName(_, _) => SetNameType
    case PeerDiscovery(_, _) => PeerDiscoveryType
  }

  /** What the `write` of each message type puts after the tag: the length
      or count fields converted with `reverse_bytes`, then the data. A
      discovery frame carries the truncated counts but all of the
      addresses. */
  function Payload(p: Packet): (r: Bytes)
    requires Writable(p)
    ensures p.TextMessage? ==> |r| == 4 + p.textSize
    ensures p.SetName? ==> |r| == 1 + p.nameSize
    ensures p.PeerDiscovery? ==> |r| == 2 + 4 * |p.ipv4| + 16 * |p.ipv6|
  {
    match p
    case TextMessage(size, text) =>
      HostBytes32(ReverseBytes32(size)) + text[..size]
    case SetName(size, name) =>
      ReverseBytes([size]) + name[..size]
    case PeerDiscovery(v4, v6) =>
      Ipv4AddressesOfFlatten(v4, []);
      Ipv6AddressesOfFlatten(v6, []);
      [|v4| % 0x100] + [|v6| % 0x100] + Flatten(v4) + Flatten(v6)
  }

  /** The bytes one `write` puts on the socket: the tag, then the payload.
      Every frame is non-empty and opens with the tag of its kind. */
  function Encode(p: Packet): (r: Bytes)
    requires Writable(p)
    ensures |r| > 0 && r[0] == Tag(p)
  {
    [Tag(p)] + Payload(p)
  }

  // ---------------------------------------------------------------------
  // Decoding (the `read` members)
  // ---------------------------------------------------------------------

  /** Cuts `n` consecutive 4-byte addresses off the front of `bs`. */
  function Ipv4Addresses(bs: Bytes, n: nat): (r: seq<Ipv4Bytes>)
    requires |bs| == 4 * n
    ensures |r| == n
  {
    if n == 0 then [] else [bs[..4]] + Ipv4Addresses(bs[4..], n - 1)
  }

  /** Cuts `n` consecutive 16-byte addresses off the front of `bs`. */
  function Ipv6Addresses(bs: Bytes, n: nat): (r: seq<Ipv6Bytes>)
    requires |bs| == 16 * n
    ensures |r| == n
  {
    if n == 0 then [] else [bs[..16]] + Ipv6Addresses(bs[16..], n - 1)
  }

  /** `TextMessage::read`: a 4-byte size, then that many text bytes. It
      consumes exactly those bytes and fails only on a short stream. */
  function ReadTextMessage(s: Bytes): (r: Result<(Packet, Bytes)>)
    ensures r.Ok? ==> r.value.0.TextMessage? && r.value.0.textSize == |r.value.0.text|
    ensures r.Ok? ==> |s| == 4 + r.value.0.textSize + |r.value.1|
    ensures r.Err? ==> r.error == ConnectionClosed
  {
    if |s| < 4 then Err(ConnectionClosed)
    else
      var size := ReverseBytes32(FromHostBytes32(s[..4]));
      var body := s[4..];
      if |body| < size then Err(ConnectionClosed)
      else Ok((TextMessage(size, body[..size]), body[size..]))
  }

  /** `SetName::read`: a 1-byte size, then that many name bytes. It
      consumes exactly those bytes and fails only on a short stream. */
  function ReadSetName(s: Bytes): (r: Result<(Packet, Bytes)>)
    ensures r.Ok? ==> r.value.0.SetName? && r.value.0.nameSize == |r.value.0.name|
    ensures r.Ok? ==> |s| == 1 + r.value.0.nameSize + |r.value.1|
    ensures r.Err? ==> r.error == ConnectionClosed
  {
    if |s| < 1 then Err(ConnectionClosed)
    else
      var size := ReverseBytes(s[..1])[0];
      var body := s[1..];
      if |body| < size then Err(ConnectionClosed)
      else Ok((SetName(size, body[..size]), body[size..]))
  }

  /** Reads `n` IPv4 addresses: `4 * n` bytes, failing only when fewer
      remain. */
  function ReadIpv4List(s: Bytes, n: nat): (r: Result<(seq<Ipv4Bytes>, Bytes)>)
    ensures r.Ok? <==> 4 * n <= |s|
    ensures r.Ok? ==> |r.value.0| == n && |s| == 4 * n + |r.value.1|
    ensures r.Err? ==> r.error == ConnectionClosed
  {
    if |s| < 4 * n then Err(ConnectionClosed)
    else Ok((Ipv4Addresses(s[..4 * n], n), s[4 * n..]))
  }

  /** Reads `n` IPv6 addresses: `16 * n` bytes, failing only when fewer
      remain. */
  function ReadIpv6List(s: Bytes, n: nat): (r: Result<(seq<Ipv6Bytes>, Bytes)>)
    ensures r.Ok? <==> 16 * n <= |s|
    ensures r.Ok? ==> |r.value.0| == n && |s| == 16 * n + |r.value.1|
    ensures r.Err? ==> r.error == ConnectionClosed
  {
    if |s| < 16 * n then Err(ConnectionClosed)
    else Ok((Ipv6Addresses(s[..16 * n], n), s[16 * n..]))
  }

  /** `PeerDiscovery::read`: the IPv4 count, the IPv6 count, the IPv4
      addresses, then the IPv6 addresses; as many addresses as the counts
      say, and failing only on a short stream. */
  function ReadPeerDiscovery(s: Bytes): (r: Result<(Packet, Bytes)>)
    ensures r.Ok? ==> |s| >= 2 && r.value.0.PeerDiscovery? && |r.value.0.ipv4| == s[0] && |r.value.0.ipv6| == s[1]
    ensures r.Ok? ==> |s| == 2 + 4 * s[0] + 16 * s[1] + |r.value.1|
    ensures r.Err? ==> r.error == ConnectionClosed
  {
    if |s| < 2 then Err(ConnectionClosed)
    else
      match ReadIpv4List(s[2..], s[0])
      case Err(e) => Err(e)
      case Ok((v4, s')) =>
        match ReadIpv6List(s', s[1])
        case Err(e) => Err(e)
        case Ok((v6, s'')) => Ok((PeerDiscovery(v4, v6), s''))
  }

  /** `Packet::read`: one frame from the front of the stream, and what
      remains of the stream after it. */
  function Decode(s: Bytes): (r: Result<(Packet, Bytes)>)
    ensures r.Ok? ==> |r.value.1| < |s|
  {
    if |s| < 1 then Err(ConnectionClosed)
    else if s[0] == TextMessageType then ReadTextMessage(s[1..])
    else if s[0] == SetNameType then ReadSetName(s[1..])
    else if s[0] == PeerDiscoveryType then ReadPeerDiscovery(s[1..])
    else Err(ConnectionClosed)
  }

  /** The packets a reader takes from a stream before its first failed
      read. Every frame takes at least its tag byte, so there are no more
      packets than bytes. */
  function Frames(s: Bytes): (r: seq<Packet>)
    ensures |r| <= |s|
    decreases |s|
  {
    match Decode(s)
    case Err(_) => []
    case Ok((p, rest)) => [p] + Frames(rest)
  }

  /** What a sequence of `write` calls puts on one socket: at least one
      byte per packet, starting with the first packet's tag. */
  function EncodeAll(ps: seq<Packet>): (r: Bytes)
    requires forall p :: p in ps ==> Writable(p)
    ensures |r| >= |ps|
    ensures ps != [] ==> r[0] == Tag(ps[0])
  {
    if ps == [] then [] else Encode(ps[0]) + EncodeAll(ps[1..])
  }

  // ---------------------------------------------------------------------
  // Address lists
  // ---------------------------------------------------------------------

  lemma {:induction false} Ipv4AddressesOfFlatten(xs: seq<Ipv4Bytes>, rest: Bytes)
    ensures |Flatten(xs)| == 4 * |xs|
    ensures (Flatten(xs) + rest)[..4 * |xs|] == Flatten(xs)
    ensures Ipv4Addresses(Flatten(xs), |xs|) == xs
  {
    if xs != [] {
      Ipv4AddressesOfFlatten(xs[1..], rest);
      assert Flatten(xs)[..4] == xs[0];
      assert Flatten(xs)[4..] == Flatten(xs[1..]);
    }
  }

  lemma {:induction false} Ipv6AddressesOfFlatten(xs: seq<Ipv6Bytes>, rest: Bytes)
    ensures |Flatten(xs)| == 16 * |xs|
    ensures (Flatten(xs) + rest)[..16 * |xs|] == Flatten(xs)
    ensures Ipv6Addresses(Flatten(xs), |xs|) == xs
  {
    if xs != [] {
      Ipv6AddressesOfFlatten(xs[1..], rest);
      assert Flatten(xs)[..16] == xs[0];
      assert Flatten(xs)[16..] == Flatten(xs[1..]);
    }
  }

  lemma {:induction false} FlattenIpv4Addresses(bs: Bytes, n: nat)
    requires |bs| == 4 * n
    ensures Flatten(Ipv4Addresses(bs, n)) == bs
  {
    if n > 0 {
      FlattenIpv4Addresses(bs[4..], n - 1);
      assert [bs[..4]] + Ipv4Addresses(bs[4..], n - 1) == Ipv4Addresses(bs, n);
      assert bs[..4] + bs[4..] == bs;
    }
  }

  lemma {:induction false} FlattenIpv6Addresses(bs: Bytes, n: nat)
    requires |bs| == 16 * n
    ensures Flatten(Ipv6Addresses(bs, n)) == bs
  {
    if n > 0 {
      FlattenIpv6Addresses(bs[16..], n - 1);
      assert [bs[..16]] + Ipv6Addresses(bs[16..], n - 1) == Ipv6Addresses(bs, n);
      assert bs[..16] + bs[16..] == bs;
    }
  }

  // ---------------------------------------------------------------------
  // Frame layout
  // ---------------------------------------------------------------------

  /** A text frame is tag 0, the size in big-endian order, then exactly
      `size` bytes of text. */
  lemma EncodeTextMessageLayout(p: Packet)
    requires p.TextMessage? && Writable(p)
    ensures Encode(p) == [0] + BigEndian32(p.textSize) + p.text[..p.textSize]
    ensures |Encode(p)| == 5 + p.textSize
  {
    ReverseBytes32IsNetworkOrder(p.textSize);
  }

  /** A name frame is tag 1, the one-byte size, then exactly `size` bytes of
      the name: for a name built by `set_name`, its first `len mod 256`
      bytes. */
  lemma EncodeSetNameLayout(name: Bytes)
    ensures Encode(NewSetName(name)) == [1, |name| % 0x100] + name[..|name| % 0x100]
    ensures |name| < 0x100 ==> Encode(NewSetName(name)) == [1, |name|] + name
  {
    ReverseOneByte(|name| % 0x100);
    assert |name| < 0x100 ==> name[..|name|] == name;
  }

  /** A discovery frame is tag 2, the two counts cast to one byte each, all
      of the 4-byte IPv4 addresses end to end, then all of the 16-byte IPv6
      addresses. */
  lemma EncodePeerDiscoveryLayout(p: Packet)
    requires p.PeerDiscovery?
    ensures |Encode(p)| == 3 + 4 * |p.ipv4| + 16 * |p.ipv6|
    ensures Encode(p)[..3] == [2, |p.ipv4| % 0x100, |p.ipv6| % 0x100]
    ensures Encode(p)[3..3 + 4 * |p.ipv4|] == Flatten(p.ipv4)
    ensures Encode(p)[3 + 4 * |p.ipv4|..] == Flatten(p.ipv6)
  {
    var f4, f6 := Flatten(p.ipv4), Flatten(p.ipv6);
    Ipv4AddressesOfFlatten(p.ipv4, []);
    Ipv6AddressesOfFlatten(p.ipv6, []);
    var c: Bytes := [|p.ipv4| % 0x100] + [|p.ipv6| % 0x100];
    var h: Bytes := [2, |p.ipv4| % 0x100, |p.ipv6| % 0x100];
    assert Payload(p) == c + f4 + f6;
    Regroup([2], c, f4, f6);
    assert [2] + c == h;
    Regroup(h, f4, f6, []);
    assert Encode(p) == h + f4 + f6;
    Slices3(h, f4, f6);
  }

  /** The three parts of a concatenation are its three slices. */
  lemma Slices3(a: Bytes, b: Bytes, c: Bytes)
    ensures |a + b + c| == |a| + |b| + |c|
    ensures (a + b + c)[..|a|] == a
    ensures (a + b + c)[|a|..|a| + |b|] == b
    ensures (a + b + c)[|a| + |b|..] == c
  {
  }

  /** Concatenation regrouped to the right. */
  lemma Regroup(a: Bytes, b: Bytes, c: Bytes, d: Bytes)
    ensures a + b + c + d == a + (b + (c + d))
  {
  }

  // ---------------------------------------------------------------------
  // Round trip and framing
  // ---------------------------------------------------------------------

  /** What the reader sees of a written packet: the text or name cut to the
      length field, which is all that was sent. */
  function AsSent(p: Packet): (q: Packet)
    requires Writable(p)
    ensures CountsFit(p) ==> WellFormed(q)
    ensures WellFormed(p) ==> q == p
  {
    match p
    case TextMessage(size, text) => TextMessage(size, text[..size])
    case SetName(size, name) => SetName(size, name[..size])
    case PeerDiscovery(_, _) => p
  }

  lemma ReadWrittenTextMessage(size: uint32, text: Bytes, rest: Bytes)
    requires size <= |text|
    ensures ReadTextMessage(Payload(TextMessage(size, text)) + rest)
         == Ok((TextMessage(size, text[..size]), rest))
  {
    var h := HostBytes32(ReverseBytes32(size));
    var x := Payload(TextMessage(size, text)) + rest;
    assert x == h + (text[..size] + rest);
    assert x[..4] == h;
    FromHostBytes32Inverse(ReverseBytes32(size));
    ReverseBytes32Involution(size);
    assert x[4..] == text[..size] + rest;
  }

  lemma ReadWrittenSetName(size: uint8, name: Bytes, rest: Bytes)
    requires size <= |name|
    ensures ReadSetName(Payload(SetName(size, name)) + rest)
         == Ok((SetName(size, name[..size]), rest))
  {
    ReverseOneByte(size);
    var x := Payload(SetName(size, name)) + rest;
    assert x == [size] + (name[..size] + rest);
    assert x[..1] == [size];
    assert x[1..] == name[..size] + rest;
  }

  lemma ReadWrittenIpv4List(v4: seq<Ipv4Bytes>, rest: Bytes)
    ensures ReadIpv4List(Flatten(v4) + rest, |v4|) == Ok((v4, rest))
  {
    Ipv4AddressesOfFlatten(v4, rest);
    assert (Flatten(v4) + rest)[4 * |v4|..] == rest;
  }

  lemma ReadWrittenIpv6List(v6: seq<Ipv6Bytes>, rest: Bytes)
    ensures ReadIpv6List(Flatten(v6) + rest, |v6|) == Ok((v6, rest))
  {
    Ipv6AddressesOfFlatten(v6, rest);
    assert (Flatten(v6) + rest)[16 * |v6|..] == rest;
  }

  lemma ReadWrittenPeerDiscovery(v4: seq<Ipv4Bytes>, v6: seq<Ipv6Bytes>, rest: Bytes)
    requires |v4| < 0x100 && |v6| < 0x100
    ensures ReadPeerDiscovery(Payload(PeerDiscovery(v4, v6)) + rest)
         == Ok((PeerDiscovery(v4, v6), rest))
  {
    var f4, f6 := Flatten(v4), Flatten(v6);
    var x := Payload(PeerDiscovery(v4, v6)) + rest;
    assert x == [|v4|, |v6|] + (f4 + (f6 + rest));
    assert x[2..] == f4 + (f6 + rest);
    ReadWrittenIpv4List(v4, f6 + rest);
    ReadWrittenIpv6List(v6, rest);
  }

  /** Decoding a written frame followed by anything yields the packet as
      sent and leaves exactly what followed the frame. */
  lemma RoundTripAsSent(p: Packet, rest: Bytes)
    requires Writable(p) && CountsFit(p)
    ensures Decode(Encode(p) + rest) == Ok((AsSent(p), rest))
  {
    var s := Encode(p) + rest;
    assert s == [Tag(p)] + (Payload(p) + rest);
    assert s[1..] == Payload(p) + rest;
    match p
    case TextMessage(size, text) =>
      assert Decode(s) == ReadTextMessage(s[1..]);
      ReadWrittenTextMessage(size, text, rest);
    case SetName(size, name) =>
      assert Decode(s) == ReadSetName(s[1..]);
      ReadWrittenSetName(size, name, rest);
    case PeerDiscovery(v4, v6) =>
      assert Decode(s) == ReadPeerDiscovery(s[1..]);
      ReadWrittenPeerDiscovery(v4, v6, rest);
  }

  /** Round trip: a well-formed packet followed by any stream decodes to
      itself and the same stream. */
  lemma RoundTrip(p: Packet, rest: Bytes)
    requires WellFormed(p)
    ensures Decode(Encode(p) + rest) == Ok((p, rest))
  {
    RoundTripAsSent(p, rest);
  }

  /** The size bytes a reader took turn back into themselves when the
      size is written again. */
  lemma SizeBytesRewritten(b: Bytes)
    requires |b| == 4
    ensures HostBytes32(ReverseBytes32(ReverseBytes32(FromHostBytes32(b)))) == b
  {
    ReverseBytes32Involution(FromHostBytes32(b));
    HostBytes32Inverse(b);
  }

  lemma ReadTextMessageSound(x: Bytes)
    requires ReadTextMessage(x).Ok?
    ensures var (p, rest) := ReadTextMessage(x).value;
      p.TextMessage? && WellFormed(p) && Payload(p) + rest == x
  {
    var b := x[..4];
    var size := ReverseBytes32(FromHostBytes32(b));
    SizeBytesRewritten(b);
    var body := x[4..];
    var text := body[..size];
    assert text[..size] == text;
    assert Payload(TextMessage(size, text)) == b + text;
    assert x == b + (text + body[size..]);
  }

  lemma ReadSetNameSound(x: Bytes)
    requires ReadSetName(x).Ok?
    ensures var (p, rest) := ReadSetName(x).value;
      p.SetName? && WellFormed(p) && Payload(p) + rest == x
  {
    var size := ReverseBytes(x[..1])[0];
    assert x[..1] == [x[0]];
    ReverseOneByte(x[0]);
    var body := x[1..];
    assert x == [size] + body[..size] + body[size..];
  }

  lemma ReadIpv4ListSound(s: Bytes, n: nat)
    requires ReadIpv4List(s, n).Ok?
    ensures var (v4, rest) := ReadIpv4List(s, n).value; |v4| == n && Flatten(v4) + rest == s
  {
    FlattenIpv4Addresses(s[..4 * n], n);
    assert s[..4 * n] + s[4 * n..] == s;
  }

  lemma ReadIpv6ListSound(s: Bytes, n: nat)
    requires ReadIpv6List(s, n).Ok?
    ensures var (v6, rest) := ReadIpv6List(s, n).value; |v6| == n && Flatten(v6) + rest == s
  {
    FlattenIpv6Addresses(s[..16 * n], n);
    assert s[..16 * n] + s[16 * n..] == s;
  }

  /** A discovery payload is put back together from its two count bytes
      and the bytes of its two lists. */
  lemma DiscoveryPayloadJoins(x: Bytes, v4: seq<Ipv4Bytes>, v6: seq<Ipv6Bytes>, rest: Bytes)
    requires |x| >= 2 && |v4| == x[0] as int && |v6| == x[1] as int
    requires x[2..] == Flatten(v4) + (Flatten(v6) + rest)
    ensures Payload(PeerDiscovery(v4, v6)) + rest == x
  {
    var h := [(|v4| % 0x100) as uint8] + [(|v6| % 0x100) as uint8];
    assert h == x[..2];
    var f4, f6 := Flatten(v4), Flatten(v6);
    assert Payload(PeerDiscovery(v4, v6)) == h + f4 + f6;
    Regroup(h, f4, f6, rest);
    assert x == x[..2] + x[2..];
  }

  lemma ReadPeerDiscoverySound(x: Bytes)
    requires ReadPeerDiscovery(x).Ok?
    ensures var (p, rest) := ReadPeerDiscovery(x).value;
      p.PeerDiscovery? && WellFormed(p) && Payload(p) + rest == x
  {
    var r4 := ReadIpv4List(x[2..], x[0]);
    ReadIpv4ListSound(x[2..], x[0]);
    var v4 := r4.value.0;
    var x' := r4.value.1;
    var r6 := ReadIpv6List(x', x[1]);
    ReadIpv6ListSound(x', x[1]);
    var v6 := r6.value.0;
    var rest := r6.value.1;
    assert ReadPeerDiscovery(x) == Ok((PeerDiscovery(v4, v6), rest));
    DiscoveryPayloadJoins(x, v4, v6, rest);
  }

  /** Whatever the decoder returns is a well-formed packet whose encoding
      is exactly the bytes it consumed: the decoder reads one frame and
      leaves the rest of the stream untouched, and each length or count it
      read equals the length of the data it returns. */
  lemma DecodeSound(s: Bytes)
    requires Decode(s).Ok?
    ensures WellFormed(Decode(s).value.0)
    ensures Encode(Decode(s).value.0) + Decode(s).value.1 == s
  {
    var x := s[1..];
    if s[0] == TextMessageType {
      assert Decode(s) == ReadTextMessage(x);
      ReadTextMessageSound(x);
    } else if s[0] == SetNameType {
      assert Decode(s) == ReadSetName(x);
      ReadSetNameSound(x);
    } else {
      assert Decode(s) == ReadPeerDiscovery(x);
      ReadPeerDiscoverySound(x);
    }
    var (p, rest) := Decode(s).value;
    FrameJoins(p, rest, s);
  }

  /** A frame is its tag byte followed by its payload. */
  lemma FrameJoins(p: Packet, rest: Bytes, s: Bytes)
    requires Writable(p) && |s| >= 1 && Tag(p) == s[0] && Payload(p) + rest == s[1..]
    ensures Encode(p) + rest == s
  {
    var e := Encode(p);
    assert e == [Tag(p)] + Payload(p);
    assert e + rest == [s[0]] + (Payload(p) + rest);
    assert s == [s[0]] + s[1..];
  }

  /** A tag other than 0, 1 or 2 fails the read with `ConnectionClosed`. */
  lemma UnknownTagCloses(s: Bytes)
    requires |s| > 0 && s[0] > PeerDiscoveryType
    ensures Decode(s) == Err(ConnectionClosed)
  {
  }

  lemma TruncatedTextMessageCloses(size: uint32, text: Bytes, m: nat)
    requires size <= |text| && m < |Payload(TextMessage(size, text))|
    ensures ReadTextMessage(Payload(TextMessage(size, text))[..m]) == Err(ConnectionClosed)
  {
    var h := HostBytes32(ReverseBytes32(size));
    var x := Payload(TextMessage(size, text))[..m];
    if m >= 4 {
      assert x[..4] == h;
      FromHostBytes32Inverse(ReverseBytes32(size));
      ReverseBytes32Involution(size);
    }
  }

  lemma TruncatedSetNameCloses(size: uint8, name: Bytes, m: nat)
    requires size <= |name| && m < |Payload(SetName(size, name))|
    ensures ReadSetName(Payload(SetName(size, name))[..m]) == Err(ConnectionClosed)
  {
    var x := Payload(SetName(size, name))[..m];
    if m >= 1 {
      ReverseOneByte(size);
      assert x[..1] == [size];
    }
  }

  lemma TruncatedPeerDiscoveryCloses(v4: seq<Ipv4Bytes>, v6: seq<Ipv6Bytes>, m: nat)
    requires |v4| < 0x100 && |v6| < 0x100
    requires m < |Payload(PeerDiscovery(v4, v6))|
    ensures ReadPeerDiscovery(Payload(PeerDiscovery(v4, v6))[..m]) == Err(ConnectionClosed)
  {
    Ipv4AddressesOfFlatten(v4, []);
    Ipv6AddressesOfFlatten(v6, []);
    var x := Payload(PeerDiscovery(v4, v6))[..m];
    if m >= 2 {
      assert x[0] == |v4| && x[1] == |v6|;
      assert |x[2..]| == m - 2;
    }
  }

  /** A stream that ends before a frame is complete (before the tag, inside
      a length or count field, or inside the payload) fails with
      `ConnectionClosed`; a partial packet is never returned. */
  lemma TruncatedFrameCloses(p: Packet, n: nat)
    requires Writable(p) && CountsFit(p)
    requires n < |Encode(p)|
    ensures Decode(Encode(p)[..n]) == Err(ConnectionClosed)
  {
    var e := Encode(p);
    assert e == [Tag(p)] + Payload(p);
    var t := e[..n];
    if n > 0 {
      assert t[0] == Tag(p);
      assert t[1..] == Payload(p)[..n - 1];
      match p
      case TextMessage(size, text) =>
        assert Decode(t) == ReadTextMessage(t[1..]);
        TruncatedTextMessageCloses(size, text, n - 1);
      case SetName(size, name) =>
        assert Decode(t) == ReadSetName(t[1..]);
        TruncatedSetNameCloses(size, name, n - 1);
      case PeerDiscovery(v4, v6) =>
        assert Decode(t) == ReadPeerDiscovery(t[1..]);
        TruncatedPeerDiscoveryCloses(v4, v6, n - 1);
    }
  }

  /** A discovery packet with more than 255 addresses of one family does
      not survive the round trip: the count byte wraps around. */
  lemma DiscoveryCountOverflow(p: Packet, rest: Bytes)
    requires p.PeerDiscovery? && (|p.ipv4| >= 0x100 || |p.ipv6| >= 0x100)
    ensures Decode(Encode(p) + rest) != Ok((p, rest))
  {
    var s := Encode(p) + rest;
    if Decode(s).Ok? {
      DecodeSound(s);
    }
  }

  /** A reader of a stream made of well-formed frames gets back exactly the
      packets that were written, in order. */
  lemma {:induction false} FramesOfEncodeAll(ps: seq<Packet>)
    requires forall p :: p in ps ==> Writable(p) && WellFormed(p)
    ensures Frames(EncodeAll(ps)) == ps
  {
    if ps != [] {
      FramesOfEncodeAll(ps[1..]);
      RoundTrip(ps[0], EncodeAll(ps[1..]));
    }
  }
}
