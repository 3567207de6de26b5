# pepperoni peer-to-peer chat core in Dafny

This is a model of the protocol engine of the `pepperoni` chat node, written in Dafny and proved against the properties the code promises. It covers six headers:

- **Wire codec** (`src/message.hpp`): the `Packet` sum `TextMessage | SetName | PeerDiscovery`. A frame is a one-byte tag followed by that type's payload, and length fields are in network byte order. The model has pure encoding (`Encode`), decoding (`Decode`), and `Frames`, which gives the packets a reader takes from a stream.
- **Legacy codec** (`src/msg.hpp`): the older text-only `Packet` with `message`, `serialize` and `deserialize`. Any type byte other than 0 is rejected with `UnknownMsg`.
- **Utilities** (`src/utils.hpp`):
  - `reverse_bytes`, as reversal of an object's bytes. The 32-bit instance is modelled on a little-endian host, which is the host the source assumes.
  - `split`, as the source's two index loops over an array of pre-sized slots. Both are proved against a reference tokenizer, `Tokens`.
- **Event bus** (`src/events.hpp`): the `EventManager` table from event type to ordered handler ids, together with the handler-id counter, as a class. The `EventListener` constructor/destructor pairing becomes `Subscribe`/`Unsubscribe`. `send` returns the ids it invokes, in order.
- **Connection table** (`src/connection_table.hpp`): a class over a sequence of connection handles, with `add`, `remove` (modelled as written and as intended), `connected_peers` and `send_all`.
- **Peer session** (`src/peer_session.hpp`):
  - The handshake and the reader are given as pure functions (`Handshake`, `Step`, `Run`).
  - The `PeerSession` class performs them step by step. The constructor, its handshake writes and the `reader` loop are proved against those functions. The destructor (`Close`) is proved against the table's `CompactedInPlace`, since it calls `remove` as written.

Sockets become byte sequences: the bytes still to be read, and a `written` log. A write failure is the `writeFails` flag of a connection. A thrown exception becomes an `Err`/`Fail` value of type `Errors.Error`.

In several places the code behaves differently from what a reader of the protocol might expect. The model follows the code:

- `send_all` stops at the first failing write, because the exception leaves the loop. It is not best-effort.
- `remove` matches on the local endpoint, not on identity. It also omits `erase`, and so does the destructor that calls it (see Findings).
- `connected_peers` is a live view, not a copy.
- The handshake's discovery lists the new connection's own remote address, because `add` comes before `connected_peers`.
- The reader overwrites the name on every `SetName`, not just the first.
- A failed handshake write throws out of the constructor. No destructor runs, so the connection stays in the table.

## Model

| member | source | states |
|---|---|---|
| Errors.Option.GetOr | src/peer_session.hpp:87-89 | `value_or`: the stored name when present, the fallback label otherwise |
| Utils.ReverseBytes | src/utils.hpp:38-42 | the result has the input's length and holds its bytes in the opposite order |
| Utils.ReverseBytesInvolution | src/utils.hpp:38-42 | reversing twice gives the original bytes back |
| Utils.ReverseOneByte | src/utils.hpp:38-42 | on a one-byte value `reverse_bytes` is the identity (the codec applies it to `uint8` fields) |
| Utils.FromHostBytes32Inverse | src/utils.hpp:39-41 | reading back the host bytes of a `uint32` gives the value |
| Utils.HostBytes32Inverse | src/utils.hpp:39-41 | the host bytes of the value read from four bytes are those bytes |
| Utils.ReverseBytes32Involution | src/utils.hpp:38-42 | `reverse_bytes(reverse_bytes(v)) == v` on `uint32` |
| Utils.ReverseBytes32 | src/utils.hpp:38-42 | `reverse_bytes<uint32_t>`: the host bytes of the result are those of the argument, reversed |
| Utils.ReverseBytes32IsNetworkOrder | src/message.hpp:44-46 | on the little-endian host, the stored `reverse_bytes(v)` is `v` in big-endian order |
| Utils.Split | src/utils.hpp:44-75 | as written: in bounds exactly when the tokens do not outnumber the counted starts; the result then has one slot per counted separator-delimited start, holding the tokens in order and empty strings after them |
| Utils.SplitCountingBreaks | src/utils.hpp:44-75 | corrected sizing: for every string the result is exactly the tokens, one per break-delimited start |
| Utils.CutTokens | src/utils.hpp:52-74 | the second loop over `count` empty slots, at least one per token, returns the tokens in order followed by empty strings |
| Utils.CutChar | src/utils.hpp:57-67 | one round of the cutting loop keeps the loop state: the current token is the pending one and the filled slots hold the closed tokens |
| Utils.CutAtBreak | src/utils.hpp:57-64 | a separator or line feed closes a non-empty current token and starts an empty one |
| Utils.CutExtends | src/utils.hpp:65-67 | any other character extends the current token |
| Utils.SeparatorStarts | src/utils.hpp:46-50 | the counting loop counts at most one start per character, and counts none exactly when the string is all separators |
| Utils.TokensCount | src/utils.hpp:56-73 | the number of tokens is the number of non-break characters that open the string or follow a break |
| Utils.StartsAgree | src/utils.hpp:46-50 | without line feeds the counting loop's count equals the number of tokens |
| Utils.TokensClean | src/utils.hpp:57-72 | every token is non-empty and contains neither the separator nor a line feed |
| Utils.TokensSpell | src/utils.hpp:56-73 | the tokens, left to right, spell `str` with its break characters removed |
| Utils.EmptyHasNoTokens | src/utils.hpp:44-75 | the empty string has no tokens and a count of 0 |
| Utils.LineFeedOverrunsSplit | src/utils.hpp:46-61 | on `"a\nb"` with a blank separator the count is 1 but there are 2 tokens |
| Utils.LineFeedUnderfillsSplit | src/utils.hpp:46-73 | on `"a \n"` with a blank separator the count is 2 but there is 1 token, so `split` returns `"a"` and then an empty string |
| Message.NewTextMessage | src/message.hpp:242-246 | `text_message`: the size is the text length cast to `uint32`; well-formed iff the length fits |
| Message.NewSetName | src/message.hpp:248-253 | `set_name`: the size is the name length cast to `uint8`; well-formed iff the length is below 256 |
| Message.NewPeerDiscovery | src/message.hpp:255-264 | `peer_discovery` copies both lists in order; well-formed iff each has at most 255 addresses |
| Message.Tag | src/message.hpp:266-272 | each kind of message has its own type byte: 0 for text, 1 for a name, 2 for a discovery |
| Message.Payload | src/message.hpp:204-236 | a text payload is 4 bytes longer than its size field, a name payload 1 byte longer, and a discovery payload is 2 count bytes plus 4 bytes per IPv4 and 16 per IPv6 address |
| Message.Encode | src/message.hpp:66-80 | every written frame is non-empty and opens with the tag of its kind |
| Message.EncodeTextMessageLayout | src/message.hpp:66-73 | a text frame is byte 0, the 4-byte big-endian size, then exactly `size` text bytes |
| Message.EncodeSetNameLayout | src/message.hpp:121-128 | a name frame is byte 1, the one-byte size `len mod 256`, then that many name bytes |
| Message.EncodePeerDiscoveryLayout | src/message.hpp:217-229 | a discovery frame is byte 2, the two counts mod 256, 4·n4 IPv4 bytes, then 16·n6 IPv6 bytes |
| Message.AsSent | src/message.hpp:66-73 | what a reader sees of a written packet is well-formed, and equals the packet when that is well-formed |
| Message.ReadWrittenTextMessage | src/message.hpp:35-64 | `TextMessage::read` of a written payload returns the packet as sent and the rest of the stream |
| Message.ReadWrittenSetName | src/message.hpp:89-119 | `SetName::read` of a written payload returns the packet as sent and the rest |
| Message.ReadWrittenIpv4List | src/message.hpp:174-184 | reading `n` IPv4 addresses from their bytes gives the addresses and the rest |
| Message.ReadWrittenIpv6List | src/message.hpp:188-198 | reading `n` IPv6 addresses from their bytes gives the addresses and the rest |
| Message.ReadWrittenPeerDiscovery | src/message.hpp:148-202 | `PeerDiscovery::read` of a written payload with fitting counts returns the packet and the rest |
| Message.RoundTripAsSent | src/message.hpp:266-307 | decoding a written frame followed by any bytes gives the packet as sent and exactly those bytes |
| Message.RoundTrip | src/message.hpp:266-307 | `Decode(Encode(p) + rest) == Ok((p, rest))` for every well-formed packet |
| Message.ReadTextMessage | src/message.hpp:35-64 | a successful read returns a text as long as its size field, consuming exactly 4 bytes plus the text; a failed read is `ConnectionClosed` |
| Message.ReadSetName | src/message.hpp:88-119 | a successful read returns a name as long as its size field, consuming exactly 1 byte plus the name; a failed read is `ConnectionClosed` |
| Message.ReadIpv4List | src/message.hpp:174-184 | reading `n` IPv4 addresses succeeds iff `4n` bytes remain, returns `n` addresses and consumes exactly `4n` bytes |
| Message.ReadIpv6List | src/message.hpp:188-198 | reading `n` IPv6 addresses succeeds iff `16n` bytes remain, returns `n` addresses and consumes exactly `16n` bytes |
| Message.ReadPeerDiscovery | src/message.hpp:147-202 | a successful read returns as many addresses of each family as its count byte says, consuming the two counts and exactly those addresses; a failed read is `ConnectionClosed` |
| Message.Decode | src/message.hpp:275-307 | a successful read consumes at least the tag byte |
| Message.Frames | src/peer_session.hpp:84-121 | a reader gets at most one packet per byte of the stream |
| Message.EncodeAll | src/message.hpp:266-272 | a sequence of writes puts at least one byte per packet on the socket, starting with the first packet's tag |
| Message.ReadTextMessageSound | src/message.hpp:35-64 | a decoded text has the length of the size field read, and its payload is exactly the bytes consumed |
| Message.ReadSetNameSound | src/message.hpp:89-119 | a decoded name has the length of the size field read, and its payload is exactly the bytes consumed |
| Message.ReadIpv4ListSound | src/message.hpp:174-184 | the IPv4 list read has the count read, and its bytes are the bytes consumed |
| Message.ReadIpv6ListSound | src/message.hpp:188-198 | the IPv6 list read has the count read, and its bytes are the bytes consumed |
| Message.ReadPeerDiscoverySound | src/message.hpp:148-202 | the two list lengths of a decoded discovery are the two count bytes, and its payload is exactly the bytes consumed |
| Message.DecodeSound | src/message.hpp:275-307 | whatever `read` returns is well-formed, and its frame plus the rest is the input stream |
| Message.UnknownTagCloses | src/message.hpp:303-305 | a tag other than 0, 1 or 2 fails with `ConnectionClosed` |
| Message.TruncatedTextMessageCloses | src/message.hpp:39-61 | a text payload cut short fails with `ConnectionClosed` |
| Message.TruncatedSetNameCloses | src/message.hpp:93-116 | a name payload cut short fails with `ConnectionClosed` |
| Message.TruncatedPeerDiscoveryCloses | src/message.hpp:153-198 | a discovery payload cut short fails with `ConnectionClosed` |
| Message.TruncatedFrameCloses | src/message.hpp:277-307 | any frame cut short, before the tag or inside a field, fails with `ConnectionClosed`, never returning a partial packet |
| Message.DiscoveryCountOverflow | src/message.hpp:217-218 | a discovery with 256 or more addresses of one family never survives the round trip |
| Message.FramesOfEncodeAll | src/message.hpp:266-307 | a reader of a stream of well-formed frames gets back exactly the packets written, in order |
| Msg.NewMessage | src/msg.hpp:25-31 | `message(s)` has type 0 and payload `s`, and its size is `|s|` cast to `uint32` |
| Msg.Serialize | src/msg.hpp:53-71 | `serialize` writes 5 header bytes and then `size` bytes: the type byte first, the message bytes after the size |
| Msg.SerializeLayout | src/msg.hpp:53-59 | `serialize` emits the type byte, the 4-byte big-endian size, then exactly `size` bytes |
| Msg.Deserialize | src/msg.hpp:74-130 | a successful `deserialize` consumes at least the type byte |
| Msg.RoundTrip | src/msg.hpp:93-124 | a type-0 packet whose size is its length deserializes to itself and leaves the rest of the stream |
| Msg.MessageRoundTrip | src/msg.hpp:25-31 | `deserialize(serialize(message(s)))` gives `s` back when its length fits in 32 bits |
| Msg.UnknownTypeRejected | src/msg.hpp:93-126 | every stream whose first byte is not 0 fails with `UnknownMsg`, not `ConnectionClosed`, whatever follows it |
| Msg.TruncatedCloses | src/msg.hpp:88-122 | a stream ending before the type, size or payload is complete fails with `ConnectionClosed` |
| Msg.DeserializeSound | src/msg.hpp:74-130 | what `deserialize` returns has type 0 and size equal to its length, and serializes to exactly the bytes consumed |
| Msg.SameFrameAsTextMessage | src/msg.hpp:53-71 | a type-0 legacy frame is byte for byte the `TextMessage` frame of the newer codec |
| Events.TypeOf | src/events.hpp:123-129 | the table key of an event is the backend type exactly for backend events |
| Events.IndexOf | src/events.hpp:127-129 | `find_if` stops at the first entry of the type, or at the end when there is none |
| Events.IndexOfUnique | src/events.hpp:127-129 | that position is the only one with those two properties |
| Events.HandlersFor | src/events.hpp:125-136 | `send` reaches no handler for a type without an entry, and otherwise only the list stored in an entry of that type |
| Events.Added | src/events.hpp:138-154 | `add_listener` keeps every entry's type in place and at most appends one entry, holding only the new id |
| Events.Without | src/events.hpp:164-169 | `remove_if` with `erase` never lengthens the list and leaves no copy of the removed id |
| Events.Removed | src/events.hpp:156-170 | `remove_listener` keeps the entries and their types, never lengthens a list, and leaves the id out of its type's handlers |
| Events.AddedHandlersFor | src/events.hpp:138-154 | `add_listener` appends the id to the list of its type and leaves every other type's list unchanged |
| Events.AddedShape | src/events.hpp:138-154 | the table keeps one entry per type and grows only when the type was new |
| Events.WithoutAppend | src/events.hpp:164-169 | removal keeps the other ids in their relative order |
| Events.WithoutMembers | src/events.hpp:164-169 | an id survives removal iff it was present and differs from the removed one |
| Events.WithoutAbsent | src/events.hpp:164-169 | removing an absent id changes nothing |
| Events.WithoutAppended | src/events.hpp:164-169 | removing a fresh id just appended gives the old list |
| Events.RemovedHandlersFor | src/events.hpp:156-170 | `remove_listener` filters the list of its type and leaves other types and the entry order untouched |
| Events.ListenerRoundTripTable | src/events.hpp:186-195 | subscribe then unsubscribe leaves the table, or the table plus an empty entry the subscription created |
| Events.RoundTripExistingEntry | src/events.hpp:186-195 | for a type with an entry, subscribe then unsubscribe of a fresh id restores the table |
| Events.RoundTripNewEntry | src/events.hpp:186-195 | for a type without an entry, subscribe then unsubscribe leaves the table plus an empty entry for the type |
| Events.ListenerRoundTrip | src/events.hpp:186-195 | subscribe then unsubscribe gives every type its old handler list back |
| Events.CounterIsFresh | src/events.hpp:74-88 | an id at or above the counter is registered for no type |
| Events.EventManager.constructor | src/events.hpp:108-175 | the bus starts with no handlers and the counter at 0 |
| Events.EventManager.FindEntry | src/events.hpp:127-129 | the loop finds `IndexOf` of the type |
| Events.EventManager.NewHandler | src/events.hpp:74-88 | a new handler takes the counter value as id and the counter goes up by one |
| Events.EventManager.AddListener | src/events.hpp:138-154 | the table becomes `Added(old, type, id)` and stays valid |
| Events.EventManager.RemoveListener | src/events.hpp:156-170 | requires an entry for the type; the table becomes `Removed(old, type, id)` |
| Events.EventManager.Send | src/events.hpp:125-136 | the invoked ids are exactly the list of the sent type, in registration order, or none |
| Events.EventManager.Subscribe | src/events.hpp:186-193 | a fresh id from the counter is registered for the type |
| Events.EventManager.Unsubscribe | src/events.hpp:195-195 | the listener's id is removed from its type's list |
| ConnectionTables.CompactedInPlace | src/connection_table.hpp:74-78 | `remove_if` without `erase` leaves the length unchanged |
| ConnectionTables.Kept | src/connection_table.hpp:74-78 | the entries `remove_if` keeps are never more than the table held |
| ConnectionTables.Remotes | src/connection_table.hpp:65-72 | one remote address per entry, in table order |
| ConnectionTables.FirstFailure | src/connection_table.hpp:82-86 | the first entry whose write fails, or the end when none does |
| ConnectionTables.KeptMembers | src/connection_table.hpp:74-78 | a handle is kept iff it was present and its local endpoint differs from the removed one |
| ConnectionTables.KeptAppend | src/connection_table.hpp:74-78 | the kept entries keep their relative order |
| ConnectionTables.KeptNoMatch | src/connection_table.hpp:74-78 | a table with no entry on the endpoint is kept whole |
| ConnectionTables.StaleEntryAfterRemove | src/connection_table.hpp:74-78 | as written: after `add(c)` then `remove(c)` on an empty table, `c` is still there and still listed by `connected_peers` |
| ConnectionTables.AddThenEraseRestores | src/connection_table.hpp:74-80 | with `erase`, adding then removing a connection restores the table |
| ConnectionTables.SendAllFailsIffSomeWriteFails | src/connection_table.hpp:82-86 | `send_all` reaches the end iff no write fails |
| ConnectionTables.FirstFailureUnique | src/connection_table.hpp:82-86 | the stopping position is the only one with its defining properties |
| ConnectionTables.ConnectionTable.constructor | src/connection_table.hpp:61-61 | a new table is empty |
| ConnectionTables.ConnectionTable.ConnectedPeers | src/connection_table.hpp:65-72 | the view lists each entry's remote address in table order |
| ConnectionTables.ConnectionTable.Add | src/connection_table.hpp:80-80 | `add` appends the handle and leaves earlier entries unchanged |
| ConnectionTables.ConnectionTable.Remove | src/connection_table.hpp:74-78 | as written: the kept entries are moved to the front in order, the tail is untouched and the length is unchanged |
| ConnectionTables.ConnectionTable.RemoveErase | src/connection_table.hpp:74-78 | corrected: only the kept entries remain, in order |
| ConnectionTables.ConnectionTable.SendAll | src/connection_table.hpp:82-86 | the frame goes to the entries in order up to the first failing write, which ends `send_all` with `ConnectionClosed` |
| ConnectionTables.ConnectionTable.SendFrame | src/connection_table.hpp:82-86 | the loop of `send_all` writes the encoded frame to the entries up to the first failing write |
| PeerSessions.Handshake | src/peer_session.hpp:32-55 | every handshake packet can be written |
| PeerSessions.V4Addrs | src/peer_session.hpp:41-52 | every address in the IPv4 list is an IPv4 peer |
| PeerSessions.V6Addrs | src/peer_session.hpp:41-52 | every address in the IPv6 list is an IPv6 peer |
| PeerSessions.HandshakeShape | src/peer_session.hpp:32-56 | `SetName(client name)` comes first iff a name is configured, then always the discovery of the v4 and the v6 peers |
| PeerSessions.PartitionSizes | src/peer_session.hpp:41-52 | the two address lists together are as long as the table |
| PeerSessions.PartitionMembers | src/peer_session.hpp:41-52 | an address is advertised in its family's list iff it is among the peers |
| PeerSessions.PartitionAppend | src/peer_session.hpp:41-52 | both lists keep table order |
| PeerSessions.V4Append | src/peer_session.hpp:41-52 | the IPv4 list of two stretches of peers is the first's followed by the second's |
| PeerSessions.V6Append | src/peer_session.hpp:41-52 | the IPv6 list of two stretches of peers is the first's followed by the second's |
| PeerSessions.HandshakeAdvertisesSelf | src/peer_session.hpp:25-40 | the discovery sent after `add` lists the new connection's own remote address |
| PeerSessions.HandshakeDecodes | src/peer_session.hpp:32-56 | the peer reads the handshake back packet for packet when the name and both lists fit their length bytes |
| PeerSessions.EncodeHandshake | src/peer_session.hpp:33-55 | the handshake bytes are the `SetName` frame if any, followed by the discovery frame |
| PeerSessions.Step | src/peer_session.hpp:86-117 | one packet publishes an event iff it is a text, and at most one; only `SetName` changes the name, to the name it carries |
| PeerSessions.Run | src/peer_session.hpp:84-121 | reading publishes at most one event per packet, and a name once known is never lost |
| PeerSessions.RunName | src/peer_session.hpp:97-99 | the name after reading is that of the last `SetName`; a later one wins |
| PeerSessions.RunEvents | src/peer_session.hpp:84-96 | one `ReceiveMessage` per `TextMessage`, with its text, in wire order, and no other event |
| PeerSessions.TextSender | src/peer_session.hpp:86-96 | a text's sender is the name in force when it arrives, else the fallback label |
| PeerSessions.RunAppend | src/peer_session.hpp:84-121 | reading two stretches is reading the first, then the second from the name the first left |
| PeerSessions.RunSnoc | src/peer_session.hpp:84-121 | one more packet read is one more dispatch step |
| PeerSessions.DiscoveryIsSilent | src/peer_session.hpp:100-117 | `PeerDiscovery` packets change neither the name nor the events |
| PeerSessions.HandshakeSetsPeerName | src/peer_session.hpp:33-37 | reading a named peer's handshake from no name gives that name and no event |
| PeerSessions.PeerSession.constructor | src/peer_session.hpp:18-57 | registers the connection, publishes `PeerConnected` once, then writes the handshake of the peers incl. itself; a failed write ends it with `ConnectionClosed` |
| PeerSessions.PeerSession.Open | src/peer_session.hpp:25-56 | registers the connection, then writes the handshake of the peers now in the table; a failed write ends it with `ConnectionClosed` |
| PeerSessions.PeerSession.Register | src/peer_session.hpp:25-30 | `add` appends the connection to the table, then `PeerConnected` is published once |
| PeerSessions.PeerSession.SendHandshake | src/peer_session.hpp:32-56 | writes `SetName` if configured, then `PeerDiscovery`; stops at a failed write |
| PeerSessions.PeerSession.Write | src/message.hpp:75-79 | a write appends the frame, or fails with `ConnectionClosed` and writes nothing |
| PeerSessions.PeerSession.Reader | src/peer_session.hpp:82-126 | after the loop, the name and published events are those of `Run` over the frames of the stream; the first failed read ends it silently |
| PeerSessions.PeerSession.Dispatch | src/peer_session.hpp:86-117 | one dispatch updates the name and the published events as `Step` does |
| PeerSessions.PeerSession.Close | src/peer_session.hpp:60-70 | as written: `remove` leaves the table compacted in place at its old length, then exactly one `PeerDisconnected` is published |
| PeerSessions.PeerSession.CloseErase | src/peer_session.hpp:60-70 | corrected: the connection's entries leave the table, then exactly one `PeerDisconnected` is published |

## Left out

- Sockets, `asio` and coroutines: a stream is the bytes still to be read, writes go to a log, and a write's failure is a fixed property of each connection. `co_spawn`, `start`, the `timeout` coroutine and the multi-threaded `io_context` are not modelled, and neither is any concurrency.
- `fmt` logging is not modelled. The `"address:port"` sender label is a parameter (`fallback`), not formatted from an endpoint.
- Handler callbacks (`std::function`, `typeid`, `std::visit`) are abstract: a handler is its id, the type key is a two-valued `EventType`, and `Send` returns the ids invoked.
- Events.HandlerId: `uintptr_t` wrap-around of `id_counter` is not modelled; ids are unbounded naturals.
- Utils.Split: the `uint32_t` loop counters are unbounded here, so strings of 2^32 characters or more are outside the model; tokens are copies rather than `string_view`s into `str`.
- Utils.ReverseBytes: only the one-byte and `uint32` instantiations are modelled, on a little-endian host; the floating-point instantiations and big-endian hosts are not.
- Msg.NewMessage: the one-past-the-end NUL store at `src/msg.hpp:28` and the legacy packet's raw `new[]` buffers are memory-safety issues outside the model.
- ConnectionTables.ConnectionTable.Remove: the tail left behind by `remove_if` is unspecified by the C++ standard; the model fixes it to the untouched old entries, as a compaction that writes only the kept prefix leaves it.
- `remote_endpoint`/`local_endpoint` are fields of a connection; the errors they may throw on a closed socket are not modelled.
- `src/peer_listener.hpp` (the acceptor and dialler, with `SendMessage` forwarded to `send_all` of a legacy `message` packet), `src/main.cpp`, `src/config.hpp`, `src/frontend.hpp`, `src/frontend.cpp` and `src/peer_table.hpp` are not part of this model.

## Findings

| source | as written | input that shows it | evidently intended | confidence | as-written member | corrected member |
|---|---|---|---|---|---|---|
| src/connection_table.hpp:74-78 | `remove` calls `std::ranges::remove_if` and discards its result without `erase`, so the vector keeps its length and the removed handle stays in the slots behind the kept prefix | an empty table, `add(c)` then `remove(c)`: the table still holds `c` and `connected_peers` still lists its address | erase the matched entries, so that a closed session's dangling handle is no longer listed or written to | high, not executed | ConnectionTables.ConnectionTable.Remove, ConnectionTables.StaleEntryAfterRemove, PeerSessions.PeerSession.Close | ConnectionTables.ConnectionTable.RemoveErase, ConnectionTables.AddThenEraseRestores, PeerSessions.PeerSession.CloseErase |
| src/utils.hpp:46-73 | the counting loop sizes `res` by starts after the separator only, while the cutting loop also ends a token at `'\n'`: `res[idx]` is written past the end when the tokens outnumber the count, and empty strings are left at the end when the count is larger | `split("a\nb", ' ')`: the count is 1, and two tokens are written; `split("a \n", ' ')` returns `["a", ""]` | count starts after any break character, as the cutting loop does | high, not executed | Utils.Split, Utils.LineFeedOverrunsSplit, Utils.LineFeedUnderfillsSplit | Utils.SplitCountingBreaks |

