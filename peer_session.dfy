/** One peer session: the handshake its constructor sends, the reader loop
    that turns incoming packets into name updates and `ReceiveMessage`
    events, and the teardown of its destructor. The protocol logic is given
    first as functions (`Handshake`, `Step`, `Run`); the `PeerSession` class
    performs it step by step and is proved against them. */
module PeerSessions {
  import opened Errors
  import opened Utils
  import opened Message
  import opened Events
  import opened ConnectionTables

  // ---------------------------------------------------------------------
  // Handshake
  // ---------------------------------------------------------------------

  /** The IPv4 addresses among `addrs`, in order (the `is_v4` filter and
      `to_bytes` transform). */
  function V4Addrs(addrs: seq<IpAddress>): (r: seq<Ipv4Bytes>)
    ensures forall a :: a in r ==> V4(a) in addrs
  {
    if |addrs| == 0 then []
    else
      var last := addrs[|addrs| - 1];
      V4Addrs(addrs[..|addrs| - 1]) + (if last.V4? then [last.v4] else [])
  }

  /** The IPv6 addresses among `addrs`, in order. */
  function V6Addrs(addrs: seq<IpAddress>): (r: seq<Ipv6Bytes>)
    ensures forall b :: b in r ==> V6(b) in addrs
  {
    if |addrs| == 0 then []
    else
      var last := addrs[|addrs| - 1];
      V6Addrs(addrs[..|addrs| - 1]) + (if last.V6? then [last.v6] else [])
  }

  /** The packets the constructor writes: `SetName` when a client name is
      configured, then always a `PeerDiscovery` of the known peers. */
  function Handshake(clientName: Option<Bytes>, peers: seq<IpAddress>): (ps: seq<Packet>)
    ensures forall p :: p in ps ==> Writable(p)
  {
    (if clientName.Some? then [NewSetName(clientName.value)] else [])
      + [NewPeerDiscovery(V4Addrs(peers), V6Addrs(peers))]
  }

  /** Every address lands in exactly one of the two lists. */
  lemma {:induction false} PartitionSizes(addrs: seq<IpAddress>)
    ensures |V4Addrs(addrs)| + |V6Addrs(addrs)| == |addrs|
  {
    if |addrs| > 0 {
      PartitionSizes(addrs[..|addrs| - 1]);
    }
  }

  /** An IPv4 address is advertised exactly when it is among the peers, and
      likewise for IPv6. */
  lemma {:induction false} PartitionMembers(addrs: seq<IpAddress>, a: Ipv4Bytes, b: Ipv6Bytes)
    ensures a in V4Addrs(addrs) <==> V4(a) in addrs
    ensures b in V6Addrs(addrs) <==> V6(b) in addrs
  {
    if |addrs| > 0 {
      PartitionMembers(addrs[..|addrs| - 1], a, b);
      assert addrs == addrs[..|addrs| - 1] + [addrs[|addrs| - 1]];
    }
  }

  /** Both lists keep table order: partitioning distributes over
      concatenation. */
  lemma PartitionAppend(a: seq<IpAddress>, b: seq<IpAddress>)
    ensures V4Addrs(a + b) == V4Addrs(a) + V4Addrs(b)
    ensures V6Addrs(a + b) == V6Addrs(a) + V6Addrs(b)
  {
    V4Append(a, b);
    V6Append(a, b);
  }

  lemma {:induction false} V4Append(a: seq<IpAddress>, b: seq<IpAddress>)
    ensures V4Addrs(a + b) == V4Addrs(a) + V4Addrs(b)
  {
    if |b| == 0 {
      assert a + b == a;
    } else {
      var b' := b[..|b| - 1];
      var ab := a + b;
      assert ab[..|ab| - 1] == a + b';
      var last := b[|b| - 1];
      assert ab[|ab| - 1] == last;
      assert V4Addrs(b) == V4Addrs(b') + (if last.V4? then [last.v4] else []);
      assert V4Addrs(ab) == V4Addrs(a + b') + (if last.V4? then [last.v4] else []);
      V4Append(a, b');
    }
  }

  lemma {:induction false} V6Append(a: seq<IpAddress>, b: seq<IpAddress>)
    ensures V6Addrs(a + b) == V6Addrs(a) + V6Addrs(b)
  {
    if |b| == 0 {
      assert a + b == a;
    } else {
      var b' := b[..|b| - 1];
      var ab := a + b;
      assert ab[..|ab| - 1] == a + b';
      var last := b[|b| - 1];
      assert ab[|ab| - 1] == last;
      assert V6Addrs(b) == V6Addrs(b') + (if last.V6? then [last.v6] else []);
      assert V6Addrs(ab) == V6Addrs(a + b') + (if last.V6? then [last.v6] else []);
      V6Append(a, b');
    }
  }

  /** The handshake is `SetName` first exactly when a name is present, and
      always ends with the discovery of all peers, split by family. */
  lemma HandshakeShape(clientName: Option<Bytes>, peers: seq<IpAddress>)
    ensures var ps := Handshake(clientName, peers);
      && |ps| == (if clientName.Some? then 2 else 1)
      && (ps[0].SetName? <==> clientName.Some?)
      && (clientName.Some? ==> ps[0] == NewSetName(clientName.value))
      && ps[|ps| - 1] == PeerDiscovery(V4Addrs(peers), V6Addrs(peers))
  {
  }

  /** The peer on the other end reads the handshake back packet for packet
      when the name and both address lists fit their length bytes. */
  lemma HandshakeDecodes(clientName: Option<Bytes>, peers: seq<IpAddress>)
    requires clientName.Some? ==> |clientName.value| < 0x100
    requires |V4Addrs(peers)| < 0x100 && |V6Addrs(peers)| < 0x100
    ensures Frames(EncodeAll(Handshake(clientName, peers))) == Handshake(clientName, peers)
  {
    FramesOfEncodeAll(Handshake(clientName, peers));
  }

  // ---------------------------------------------------------------------
  // Reader
  // ---------------------------------------------------------------------

  /** The peer's name and the events published so far. */
  datatype SessionResult = SessionResult(name: Option<Bytes>, events: seq<BackendEvent>)

  /** The reader's dispatch on one packet. `fallback` is the
      "address:port" label used as sender while no name is known. */
  function Step(name: Option<Bytes>, fallback: Bytes, p: Packet): (r: SessionResult)
    ensures |r.events| <= 1 && (r.events != [] <==> p.TextMessage?)
    ensures r.name == (if p.SetName? then Some(p.name) else name)
  {
    match p
    case TextMessage(_, text) => SessionResult(name, [ReceiveMessage(name.GetOr(fallback), text)])
    case SetName(_, n) => SessionResult(Some(n), [])
    case PeerDiscovery(_, _) => SessionResult(name, [])
  }

  /** The reader over a sequence of packets, starting from `name`. */
  function Run(name: Option<Bytes>, fallback: Bytes, ps: seq<Packet>): (r: SessionResult)
    ensures |r.events| <= |ps|
    ensures name.Some? ==> r.name.Some?
  {
    if |ps| == 0 then SessionResult(name, [])
    else
      var r := Run(name, fallback, ps[..|ps| - 1]);
      var s := Step(r.name, fallback, ps[|ps| - 1]);
      SessionResult(s.name, r.events + s.events)
  }

  /** The texts of the `TextMessage`s among `ps`, in wire order. */
  function Texts(ps: seq<Packet>): seq<Bytes>
  {
    if |ps| == 0 then []
    else
      var last := ps[|ps| - 1];
      Texts(ps[..|ps| - 1]) + (if last.TextMessage? then [last.text] else [])
  }

  /** The name of the last `SetName` among `ps`, if there is one. */
  function LastName(ps: seq<Packet>): Option<Bytes>
  {
    if |ps| == 0 then None
    else if ps[|ps| - 1].SetName? then Some(ps[|ps| - 1].name)
    else LastName(ps[..|ps| - 1])
  }

  /** `ps` without its `PeerDiscovery` packets. */
  function NonDiscovery(ps: seq<Packet>): seq<Packet>
  {
    if |ps| == 0 then []
    else
      var last := ps[|ps| - 1];
      NonDiscovery(ps[..|ps| - 1]) + (if last.PeerDiscovery? then [] else [last])
  }

  /** The name after reading `ps` is that of the last `SetName`, or the
      starting name when `ps` has none: a later `SetName` wins. */
  lemma {:induction false} RunName(name: Option<Bytes>, fallback: Bytes, ps: seq<Packet>)
    ensures Run(name, fallback, ps).name == (if LastName(ps).Some? then LastName(ps) else name)
  {
    if |ps| > 0 {
      RunName(name, fallback, ps[..|ps| - 1]);
    }
  }

  /** Every event is a `ReceiveMessage`, one per `TextMessage`, with that
      message's text, in wire order. */
  lemma {:induction false} RunEvents(name: Option<Bytes>, fallback: Bytes, ps: seq<Packet>)
    ensures |Run(name, fallback, ps).events| == |Texts(ps)|
    ensures forall i :: 0 <= i < |Texts(ps)| ==>
      && Run(name, fallback, ps).events[i].ReceiveMessage?
      && Run(name, fallback, ps).events[i].message == Texts(ps)[i]
  {
    if |ps| > 0 {
      RunEvents(name, fallback, ps[..|ps| - 1]);
    }
  }

  /** The sender of a text is the name in force when it arrives, or the
      fallback label when no name has been set. */
  lemma TextSender(name: Option<Bytes>, fallback: Bytes, pre: seq<Packet>, size: uint32, text: Bytes)
    ensures var cur := if LastName(pre).Some? then LastName(pre) else name;
      Run(name, fallback, pre + [TextMessage(size, text)]).events ==
        Run(name, fallback, pre).events + [ReceiveMessage(cur.GetOr(fallback), text)]
  {
    var ps := pre + [TextMessage(size, text)];
    assert ps[..|ps| - 1] == pre;
    RunName(name, fallback, pre);
  }

  /** Reading `a` then `b` is reading `a`, then `b` from the name `a` left;
      the events are those of `a` followed by those of `b`. */
  lemma {:induction false} RunAppend(name: Option<Bytes>, fallback: Bytes, a: seq<Packet>, b: seq<Packet>)
    ensures var ra := Run(name, fallback, a);
      var rb := Run(ra.name, fallback, b);
      Run(name, fallback, a + b) == SessionResult(rb.name, ra.events + rb.events)
  {
    if |b| == 0 {
      assert a + b == a;
    } else {
      var b' := b[..|b| - 1];
      assert (a + b)[..|a + b| - 1] == a + b';
      assert (a + b)[|a + b| - 1] == b[|b| - 1];
      RunAppend(name, fallback, a, b');
    }
  }

  /** `PeerDiscovery` packets change neither the name nor the events. */
  lemma {:induction false} DiscoveryIsSilent(name: Option<Bytes>, fallback: Bytes, ps: seq<Packet>)
    ensures Run(name, fallback, ps) == Run(name, fallback, NonDiscovery(ps))
  {
    if |ps| > 0 {
      var pre := ps[..|ps| - 1];
      var last := ps[|ps| - 1];
      DiscoveryIsSilent(name, fallback, pre);
      if !last.PeerDiscovery? {
        var q := NonDiscovery(pre) + [last];
        assert NonDiscovery(ps) == q;
        assert q[..|q| - 1] == NonDiscovery(pre) && q[|q| - 1] == last;
      } else {
        assert NonDiscovery(ps) == NonDiscovery(pre);
        assert Run(name, fallback, pre).events + [] == Run(name, fallback, pre).events;
      }
    }
  }

  /** Reading the handshake of a named peer yields its name and publishes
      nothing. */
  lemma HandshakeSetsPeerName(n: Bytes, fallback: Bytes, peers: seq<IpAddress>)
    ensures Run(None, fallback, Handshake(Some(n), peers)) == SessionResult(Some(n), [])
  {
    var ps := Handshake(Some(n), peers);
    var first := ps[..1];
    assert first == [NewSetName(n)] && first[..0] == [];
    assert Run(None, fallback, first) == SessionResult(Some(n), []);
    assert ps[..|ps| - 1] == first;
  }

  /** One more packet read: the run so far followed by its step. */
  lemma RunSnoc(name: Option<Bytes>, fallback: Bytes, done: seq<Packet>, p: Packet)
    ensures var r := Run(name, fallback, done);
      var s := Step(r.name, fallback, p);
      Run(name, fallback, done + [p]) == SessionResult(s.name, r.events + s.events)
  {
    assert (done + [p])[..|done|] == done;
  }

  /** A successful read moves one frame from what is left of the stream
      to what has been read. */
  lemma FramesStep(stream: Bytes, done: seq<Packet>, s: Bytes, p: Packet, rest: Bytes)
    requires Frames(stream) == done + Frames(s)
    requires Decode(s) == Ok((p, rest))
    ensures Frames(stream) == (done + [p]) + Frames(rest)
  {
    FramesCons(s, p, rest);
  }

  /** The frames of a stream whose first read succeeds. */
  lemma FramesCons(s: Bytes, p: Packet, rest: Bytes)
    requires Decode(s) == Ok((p, rest))
    ensures Frames(s) == [p] + Frames(rest)
  {
  }

  /** A failed read ends the frames of a stream. */
  lemma FramesEnd(stream: Bytes, done: seq<Packet>, s: Bytes)
    requires Frames(stream) == done + Frames(s)
    requires Decode(s).Err?
    ensures Frames(stream) == done
  {
    assert Frames(s) == [];
  }

  /** The bytes of the handshake: the `SetName` frame when there is one,
      then the `PeerDiscovery` frame. */
  lemma EncodeHandshake(clientName: Option<Bytes>, peers: seq<IpAddress>, before: Bytes)
    ensures var ps := Handshake(clientName, peers);
      && |ps| == (if clientName.Some? then 2 else 1)
      && before + EncodeAll(ps) ==
        (if clientName.Some? then before + Encode(ps[0]) else before) + Encode(ps[|ps| - 1])
  {
    var ps := Handshake(clientName, peers);
    var d := ps[|ps| - 1];
    var e := Encode(d);
    assert EncodeAll([d]) == e + EncodeAll([]);
    assert EncodeAll([d]) == e;
    if clientName.Some? {
      assert ps[1..] == [d];
      var e0 := Encode(ps[0]);
      assert EncodeAll(ps) == e0 + e;
      assert before + (e0 + e) == (before + e0) + e;
    } else {
      assert ps == [d];
    }
  }

  // ---------------------------------------------------------------------
  // The session object
  // ---------------------------------------------------------------------

  class PeerSession {
    /** `m_connection_table_ref`. */
    const table: ConnectionTable
    /** The process-wide event bus. */
    const bus: EventManager
    /** The handle of `m_connection` as the table stores it. */
    const conn: PeerConnection
    /** The "address:port" label of the remote endpoint. */
    const fallback: Bytes
    /** `m_connection.name`. */
    var name: Option<Bytes>
    /** Everything written to the socket so far. */
    var written: Bytes
    /** Every event handed to `EventManager::send`, in order. */
    var published: seq<BackendEvent>
    /** Whether the handshake writes went through; a failed write throws
        `ConnectionClosed` out of the constructor. */
    var handshake: Outcome

    /** The constructor: register in the table, publish `PeerConnected`,
        then send the handshake. The peers are read after registering, so
        the discovery includes this connection's own remote address. When
        a write fails the connection stays in the table, as in the source,
        where no destructor runs for an object whose constructor threw. */
    constructor (table: ConnectionTable, bus: EventManager, conn: PeerConnection,
                 clientName: Option<Bytes>, fallback: Bytes)
      modifies table
      ensures this.table == table && this.bus == bus && this.conn == conn && this.fallback == fallback
      ensures table.entries == old(table.entries) + [conn]
      ensures name == None && published == [PeerConnected]
      ensures handshake == (if conn.writeFails then Fail(ConnectionClosed) else Pass)
      ensures written == (if conn.writeFails then [] else EncodeAll(Handshake(clientName, Remotes(table.entries))))
    {
      this.table := table;
      this.bus := bus;
      this.conn := conn;
      this.fallback := fallback;
      name := None;
      written := [];
      published := [];
      handshake := Pass;
      new;
      Open(clientName);
    }

    /** The body of the constructor once the fields are in place:
        register, then send the handshake to the peers now in the table. */
    method Open(clientName: Option<Bytes>)
      requires name == None && written == [] && published == []
      modifies this, table
      ensures table.entries == old(table.entries) + [conn]
      ensures name == None && published == [PeerConnected]
      ensures handshake == (if conn.writeFails then Fail(ConnectionClosed) else Pass)
      ensures written == (if conn.writeFails then [] else EncodeAll(Handshake(clientName, Remotes(table.entries))))
    {
      Register();
      var peers := table.ConnectedPeers();
      assert [] + EncodeAll(Handshake(clientName, peers)) == EncodeAll(Handshake(clientName, peers));
      handshake := SendHandshake(clientName, peers);
    }

    /** `add` of this connection to the table, then `PeerConnected` on the
        bus. */
    method Register()
      modifies this, table
      ensures table.entries == old(table.entries) + [conn]
      ensures published == old(published) + [PeerConnected]
      ensures name == old(name) && written == old(written) && handshake == old(handshake)
    {
      table.Add(conn);
      var _ := bus.Send(Backend(PeerConnected));
      published := published + [PeerConnected];
    }

    /** The two writes of the constructor: `SetName` when a client name is
        configured, then `PeerDiscovery`; a failed write ends the handshake. */
    method SendHandshake(clientName: Option<Bytes>, peers: seq<IpAddress>) returns (outcome: Outcome)
      modifies this
      ensures outcome == (if conn.writeFails then Fail(ConnectionClosed) else Pass)
      ensures written == (if conn.writeFails then old(written) else old(written) + EncodeAll(Handshake(clientName, peers)))
      ensures name == old(name) && published == old(published) && handshake == old(handshake)
    {
      var ps := Handshake(clientName, peers);
      EncodeHandshake(clientName, peers, written);
      outcome := Pass;
      if clientName.Some? {
        outcome := Write(ps[0]);
      }
      if outcome.Pass? {
        outcome := Write(ps[|ps| - 1]);
      }
    }

    /** `Packet::write` on this session's socket. */
    method Write(p: Packet) returns (outcome: Outcome)
      requires Writable(p)
      modifies this
      ensures outcome == (if conn.writeFails then Fail(ConnectionClosed) else Pass)
      ensures written == (if conn.writeFails then old(written) else old(written) + Encode(p))
      ensures name == old(name) && published == old(published) && handshake == old(handshake)
    {
      if conn.writeFails {
        outcome := Fail(ConnectionClosed);
      } else {
        written := written + Encode(p);
        outcome := Pass;
      }
    }

    /** `reader`: read packets from `stream` until a read fails, taking
        the sender label before each dispatch. The loop ends silently on
        `ConnectionClosed`. */
    method Reader(stream: Bytes)
      modifies this
      ensures name == Run(old(name), fallback, Frames(stream)).name
      ensures published == old(published) + Run(old(name), fallback, Frames(stream)).events
      ensures written == old(written) && handshake == old(handshake)
    {
      var rest := stream;
      ghost var done: seq<Packet> := [];
      while true
        invariant Frames(stream) == done + Frames(rest)
        invariant name == Run(old(name), fallback, done).name
        invariant published == old(published) + Run(old(name), fallback, done).events
        invariant written == old(written) && handshake == old(handshake)
        decreases |rest|
      {
        var r := Decode(rest);
        if r.Err? {
          FramesEnd(stream, done, rest);
          break;
        }
        var p := r.value.0;
        FramesStep(stream, done, rest, p, r.value.1);
        RunSnoc(old(name), fallback, done, p);
        Dispatch(p);
        done := done + [p];
        rest := r.value.1;
      }
    }

    /** One round of `reader` after a successful read: take the sender
        label, then publish a `ReceiveMessage` for a text or store the
        name of a `SetName`; a discovery is ignored. */
    method Dispatch(p: Packet)
      modifies this
      ensures name == Step(old(name), fallback, p).name
      ensures published == old(published) + Step(old(name), fallback, p).events
      ensures written == old(written) && handshake == old(handshake)
    {
      var from := name.GetOr(fallback);
      match p {
        case TextMessage(_, text) =>
          var _ := bus.Send(Backend(ReceiveMessage(from, text)));
          published := published + [ReceiveMessage(from, text)];
        case SetName(_, n) =>
          name := Some(n);
        case PeerDiscovery(_, _) =>
      }
    }

    /** The destructor as written: `remove` compacts the entries that do
        not share this connection's local endpoint to the front but, with
        no `erase`, leaves the table's length unchanged; then
        `PeerDisconnected` is published once. */
    method Close()
      modifies this, table
      ensures table.entries == CompactedInPlace(old(table.entries), conn.local)
      ensures published == old(published) + [PeerDisconnected]
      ensures name == old(name) && written == old(written) && handshake == old(handshake)
    {
      var _ := table.Remove(conn);
      var _ := bus.Send(Backend(PeerDisconnected));
      published := published + [PeerDisconnected];
    }

    /** The destructor with the erase `remove` evidently intends: the
        connection's entries are taken out of the table and nothing else
        changes. */
    method CloseErase()
      modifies this, table
      ensures table.entries == Kept(old(table.entries), conn.local)
      ensures published == old(published) + [PeerDisconnected]
      ensures name == old(name) && written == old(written) && handshake == old(handshake)
    {
      table.RemoveErase(conn);
      var _ := bus.Send(Backend(PeerDisconnected));
      published := published + [PeerDisconnected];
    }
  }

  /** The discovery a new session sends names its own peer: after `add`,
      the remote address of the new connection is among those advertised. */
  lemma HandshakeAdvertisesSelf(clientName: Option<Bytes>, known: seq<IpAddress>, self: IpAddress)
    ensures var d := Handshake(clientName, known + [self])[|Handshake(clientName, known + [self])| - 1];
      && (self.V4? ==> self.v4 in d.ipv4)
      && (self.V6? ==> self.v6 in d.ipv6)
  {
    PartitionAppend(known, [self]);
    assert V4Addrs([self]) == V4Addrs([]) + (if self.V4? then [self.v4] else []);
    assert V6Addrs([self]) == V6Addrs([]) + (if self.V6? then [self.v6] else []);
  }
}
