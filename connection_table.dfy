/** The table of open peer connections shared by all sessions: a vector of
    connection handles with `add`, `remove`, the `connected_peers` view and
    `send_all`. A handle is a value here: the socket's two endpoints and
    whether a write to it fails. */
module ConnectionTables {
  import opened Errors
  import opened Utils
  import Message

  datatype IpAddress = V4(v4: Message.Ipv4Bytes) | V6(v6: Message.Ipv6Bytes)

  datatype Endpoint = Endpoint(address: IpAddress, port: uint16)

  /** A `PeerConnection*` in the table: `local` and `remote` are its
      socket's endpoints, and `writeFails` says whether writing to that
      socket reports an error. */
  datatype PeerConnection = PeerConnection(local: Endpoint, remote: Endpoint, writeFails: bool)

  /** The entries `remove` keeps: those whose local endpoint differs from
      `key`, in their original order. */
  function Kept(s: seq<PeerConnection>, key: Endpoint): (r: seq<PeerConnection>)
    ensures |r| <= |s|
  {
    if |s| == 0 then []
    else Kept(s[..|s| - 1], key) + (if s[|s| - 1].local == key then [] else [s[|s| - 1]])
  }

  /** The vector after `remove_if` without `erase`: the kept entries moved
      to the front and the positions behind them untouched, so the length
      is unchanged. */
  function CompactedInPlace(s: seq<PeerConnection>, key: Endpoint): (r: seq<PeerConnection>)
    ensures |r| == |s|
  {
    Kept(s, key) + s[|Kept(s, key)|..]
  }

  /** The remote addresses of the entries, one per entry in table order. */
  function Remotes(s: seq<PeerConnection>): (r: seq<IpAddress>)
    ensures |r| == |s|
    ensures forall i :: 0 <= i < |s| ==> r[i] == s[i].remote.address
  {
    if |s| == 0 then [] else Remotes(s[..|s| - 1]) + [s[|s| - 1].remote.address]
  }

  /** How far `send_all` gets: the first entry whose write fails, or `|s|`
      when every write succeeds. */
  function FirstFailure(s: seq<PeerConnection>): (r: nat)
    ensures r <= |s|
    ensures r < |s| ==> s[r].writeFails
    ensures forall j :: 0 <= j < r ==> !s[j].writeFails
  {
    if |s| == 0 then 0
    else if s[0].writeFails then 0
    else 1 + FirstFailure(s[1..])
  }

  /** A connection is kept exactly when it was in the table and does not
      share the removed connection's local endpoint. */
  lemma {:induction false} KeptMembers(s: seq<PeerConnection>, key: Endpoint, c: PeerConnection)
    ensures c in Kept(s, key) <==> c in s && c.local != key
  {
    if |s| > 0 {
      KeptMembers(s[..|s| - 1], key, c);
      assert s == s[..|s| - 1] + [s[|s| - 1]];
    }
  }

  /** Keeping distributes over concatenation, so the kept entries stay in
      their original relative order. */
  lemma {:induction false} KeptAppend(a: seq<PeerConnection>, b: seq<PeerConnection>, key: Endpoint)
    ensures Kept(a + b, key) == Kept(a, key) + Kept(b, key)
  {
    if |b| == 0 {
      assert a + b == a;
    } else {
      var b' := b[..|b| - 1];
      assert (a + b)[..|a + b| - 1] == a + b';
      KeptAppend(a, b', key);
    }
  }

  /** A table with no entry on `key` is kept whole. */
  lemma {:induction false} KeptNoMatch(s: seq<PeerConnection>, key: Endpoint)
    requires forall i :: 0 <= i < |s| ==> s[i].local != key
    ensures Kept(s, key) == s
  {
    if |s| > 0 {
      KeptNoMatch(s[..|s| - 1], key);
      assert s == s[..|s| - 1] + [s[|s| - 1]];
    }
  }

  /** A connection appended and then removed leaves its own entry behind
      when `erase` is missing: on the empty table, `add(c)` followed by
      `remove(c)` still holds `c`, and `connected_peers` still lists its
      remote address. */
  lemma StaleEntryAfterRemove(c: PeerConnection)
    ensures CompactedInPlace([c], c.local) == [c]
    ensures Remotes(CompactedInPlace([c], c.local)) == [c.remote.address]
  {
    assert Kept([c], c.local) == Kept([], c.local);
  }

  /** With `erase`, removing a connection that was just added to a table
      with no other entry on its local endpoint restores the table. */
  lemma AddThenEraseRestores(s: seq<PeerConnection>, c: PeerConnection)
    requires forall i :: 0 <= i < |s| ==> s[i].local != c.local
    ensures Kept(s + [c], c.local) == s
  {
    KeptAppend(s, [c], c.local);
    KeptNoMatch(s, c.local);
    assert Kept([c], c.local) == Kept([], c.local);
  }

  /** `send_all` succeeds exactly when no connection's write fails. */
  lemma SendAllFailsIffSomeWriteFails(s: seq<PeerConnection>)
    ensures FirstFailure(s) == |s| <==> forall i :: 0 <= i < |s| ==> !s[i].writeFails
  {
  }

  class ConnectionTable {
    /** `m_connection_table`. */
    var entries: seq<PeerConnection>

    constructor ()
      ensures entries == []
    {
      entries := [];
    }

    /** `connected_peers`: a live view of the current remote addresses. */
    function ConnectedPeers(): (r: seq<IpAddress>)
      reads this
      ensures |r| == |entries|
      ensures forall i :: 0 <= i < |entries| ==> r[i] == entries[i].remote.address
    {
      Remotes(entries)
    }

    /** `add`: `push_back`. */
    method Add(c: PeerConnection)
      modifies this
      ensures entries == old(entries) + [c]
    {
      entries := entries + [c];
    }

    /** `remove` as written: `std::ranges::remove_if` on the local endpoint
        with no `erase`. Each kept entry is moved down to the next free
        slot; slots behind the last kept entry keep their old value. The
        result is where the subrange `remove_if` returns starts, which the
        source discards. */
    method Remove(c: PeerConnection) returns (newEnd: nat)
      modifies this
      ensures entries == CompactedInPlace(old(entries), c.local)
      ensures newEnd == |Kept(old(entries), c.local)|
    {
      var key := c.local;
      ghost var s := entries;
      var w := 0;
      var r := 0;
      while r < |entries|
        invariant 0 <= w <= r <= |s| == |entries|
        invariant entries[..w] == Kept(s[..r], key)
        invariant entries[w..] == s[w..]
      {
        assert s[..r + 1][..r] == s[..r];
        if entries[r].local != key {
          entries := entries[w := entries[r]];
          w := w + 1;
        }
        r := r + 1;
      }
      assert s[..r] == s;
      newEnd := w;
    }

    /** `remove` as intended: the erase-remove idiom, which drops every
        entry on `c`'s local endpoint and shrinks the table. */
    method RemoveErase(c: PeerConnection)
      modifies this
      ensures entries == Kept(old(entries), c.local)
    {
      var newEnd := Remove(c);
      entries := entries[..newEnd];
    }

    /** `send_all`: writes the frame of `packet` to each connection in table
        order. The first failing write throws `ConnectionClosed` out of the
        loop, so only the connections before it receive the frame. */
    method SendAll(packet: Message.Packet) returns (sent: seq<(PeerConnection, Bytes)>, outcome: Outcome)
      requires Message.Writable(packet)
      ensures |sent| == FirstFailure(entries)
      ensures forall i :: 0 <= i < |sent| ==> sent[i] == (entries[i], Message.Encode(packet))
      ensures outcome == if FirstFailure(entries) < |entries| then Fail(ConnectionClosed) else Pass
    {
      sent, outcome := SendFrame(Message.Encode(packet));
    }

    /** The loop of `send_all` for an already encoded `frame`. */
    method SendFrame(frame: Bytes) returns (sent: seq<(PeerConnection, Bytes)>, outcome: Outcome)
      ensures |sent| == FirstFailure(entries)
      ensures forall i :: 0 <= i < |sent| ==> sent[i] == (entries[i], frame)
      ensures outcome == if FirstFailure(entries) < |entries| then Fail(ConnectionClosed) else Pass
    {
      sent := [];
      outcome := Pass;
      var i := 0;
      while i < |entries|
        invariant i <= |entries|
        invariant forall j :: 0 <= j < i ==> !entries[j].writeFails
        invariant |sent| == i
        invariant forall j :: 0 <= j < i ==> sent[j] == (entries[j], frame)
      {
        if entries[i].writeFails {
          outcome := Fail(ConnectionClosed);
          break;
        }
        sent := sent + [(entries[i], frame)];
        i := i + 1;
      }
      FirstFailureUnique(entries, i);
    }
  }

  /** `FirstFailure` is the only position with its defining properties. */
  lemma FirstFailureUnique(s: seq<PeerConnection>, i: nat)
    requires i <= |s|
    requires i < |s| ==> s[i].writeFails
    requires forall j :: 0 <= j < i ==> !s[j].writeFails
    ensures FirstFailure(s) == i
  {
  }
}
