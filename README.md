# DIPHighUdpServer session registry and protocol envelope, in Dafny

This project models the two pieces of the UDP game server that hold logic:

- **The client session registry** (`ClientManager`). It keeps a dictionary
  from player identifier to session record (`_clients`) and a dictionary
  from client address to player identifier (`_endPointToPlayerId`). It also
  keeps a counter (`_nextPlayerId`) that starts at 1.
  - `ConnectPlayer` answers "already connected" with the existing identifier
    when the address is already indexed. Otherwise it issues
    `"Player_<n>"` from the counter and files a new session in both
    dictionaries.
  - `DisconnectPlayer` removes the session the address is indexed to and
    returns it.
- **The message vocabulary and envelope** (`GameProtocal`). This covers the
  eleven message kinds and their byte codes, and the `GameMessage` envelope.
  It also covers the connect request and response payloads, and the helpers
  `CreateMessage`, `GetData`, `Serialize` and `Deserialize`.

Files:

- `wrappers.dfy`: `Option`, standing for the source's null results and
  thrown exceptions.
- `game_protocol.dfy` (module `GameProtocol`): message kinds, codes, the
  envelope, the payloads and the four helpers. The JSON and UTF-8 layers are
  codec values passed in as parameters. What the model relies on is their
  inverse law (`JsonRoundTrips`, `Utf8RoundTrips`), taken as a hypothesis of
  the round-trip lemmas.
- `player_ids.dfy` (module `PlayerIds`): the decimal rendering of
  `"Player_<n>"` and a parser that inverts it, which makes the rendering
  injective. The module also models the counter as the source declares it,
  a 32-bit `int` (see Findings).
- `client_registry.dfy` (module `ClientRegistry`): the registry as a value.
  - `Connect` and `Disconnect` are specification functions for the two
    operations.
  - `Valid` is the invariant both operations keep.
  - `Run` and `IssuedIds` cover sequences of operations.
  - Lemmas state idempotent reconnect, fresh and never-reused identifiers,
    and exactly what a disconnect removes.
- `client_manager.dfy` (module `ClientManagement`): class `ClientManager`.
  Its map fields and counter are updated in place by `ConnectPlayer` and
  `DisconnectPlayer`. Each method is proved against the specification
  functions and keeps `Valid()`. A short client method, `ReconnectScenario`,
  shows what callers can conclude from these contracts.

`DisconnectPlayer` removes the session from `_clients` only. The address
stays indexed to the old identifier. One might expect both dictionaries to
be cleared together; the code clears only `_clients`, and the model follows
the code, so:

- the invariant it proves is that every session is reachable from its own
  address through the index, not that the two dictionaries are always in
  step;
- `ClientRegistry.DisconnectThenReconnect` proves that a later connect from
  the same address is refused as "already connected", with the identifier
  of the session that was removed.

## Model

| member | source | states |
|---|---|---|
| GameProtocol.Code | Protocal/GameProtocal.cs:6-28 | every kind's code is non-zero and its high nibble is its group's: 0x0 connection, 0x1 player, 0x2 transform sync, 0x3 RPC, 0x4 system |
| GameProtocol.FromCode | Protocal/GameProtocal.cs:6-28 | decoding a byte yields kind t exactly when t's code is that byte, and nothing for a byte that is no kind's code (both directions) |
| GameProtocol.ElevenDistinctKinds | Protocal/GameProtocal.cs:6-28 | there are exactly eleven kinds, every kind is listed, and no two share a byte code |
| GameProtocol.CodeInjective | Protocal/GameProtocal.cs:6-28 | two kinds have the same code if and only if they are the same kind |
| GameProtocol.Serialize | Protocal/GameProtocal.cs:80-84 | the bytes are the UTF-8 encoding of the envelope's JSON text: decoding them as UTF-8 gives that text back; DeserializeSerialize states the full round trip |
| GameProtocol.Deserialize | Protocal/GameProtocal.cs:87-91 | an envelope is produced only when the length lies within the buffer; otherwise the call fails |
| GameProtocol.CreateMessage | Protocal/GameProtocal.cs:94-103 | the envelope carries the given kind, player id and clock reading, and its data decodes back to the payload when the JSON codec round-trips |
| GameProtocol.GetData | Protocal/GameProtocal.cs:106-109 | when the JSON codec round-trips, an envelope whose data is the JSON text of x yields x; GetDataCreateMessage states this for envelopes built by CreateMessage |
| GameProtocol.GetDataCreateMessage | Protocal/GameProtocal.cs:94-109 | unpacking an envelope built by CreateMessage returns the original payload |
| GameProtocol.DeserializeSerialize | Protocal/GameProtocal.cs:80-91 | deserialising the whole of a serialised envelope with its own length gives the envelope back |
| GameProtocol.DeserializeReadsPrefix | Protocal/GameProtocal.cs:87-91 | two buffers that agree on their first `length` bytes deserialise to the same result |
| GameProtocol.DeserializePooledBuffer | Protocal/GameProtocal.cs:87-91 | a serialised envelope followed by arbitrary trailing bytes still decodes to the envelope when the received length is passed |
| PlayerIds.Decimal | ClientManager.cs:51 | the rendering of a counter value is a non-empty string of decimal digits |
| PlayerIds.ParseDecimalOfDecimal | ClientManager.cs:51 | parsing the decimal rendering of n gives back n |
| PlayerIds.PlayerId | ClientManager.cs:51 | the identifier for counter value n is "Player_" followed by a non-empty run of decimal digits; ParsePlayerIdOfPlayerId and PlayerIdInjective state that it determines n |
| PlayerIds.ParsePlayerIdOfPlayerId | ClientManager.cs:51 | the identifier "Player_" + n parses back to n |
| PlayerIds.PlayerIdInjective | ClientManager.cs:51 | two counter values give the same identifier if and only if they are equal |
| PlayerIds.WrapInt32 | ClientManager.cs:18 | truncation to a C# int lands in the 32-bit range and differs from its input by a multiple of 2^32 |
| PlayerIds.CounterAsWritten | ClientManager.cs:18-51 | the 32-bit counter, starting at 1 and post-incremented once per first-time connect, always holds a value of the C# int range |
| PlayerIds.IssuedIdAsWritten | ClientManager.cs:51 | for the first 2^31 - 1 first-time connects (before the 32-bit counter overflows), the (k+1)-th receives "Player_" + (k + 1), the same identifier the unbounded counter issues |
| PlayerIds.CounterAsWrittenClosedForm | ClientManager.cs:49-52 | after k first-time connects the 32-bit counter holds 1 + k truncated to 32 bits |
| PlayerIds.AsWrittenIdsRepeat | ClientManager.cs:49-52 | with the 32-bit counter, the first-time connect 2^32 places after another receives the same identifier |
| PlayerIds.AsWrittenReissuesFirstId | ClientManager.cs:18-52 | with the 32-bit counter, "Player_1" goes to the first first-time connect and again to every one a multiple of 2^32 places later |
| PlayerIds.AsWrittenCounterGoesNegative | ClientManager.cs:49-52 | with the 32-bit counter, the 2^31-th through (2^32 - 1)-th first-time connects are issued negative counter values |
| ClientRegistry.TryAdd | ClientManager.cs:67-68 | the key is present afterwards, keeps its old value if it was present, and no other entry changes |
| ClientRegistry.Connect | ClientManager.cs:27-79 | the reply succeeds exactly when the address was not indexed, and afterwards the address is indexed to the identifier in the reply |
| ClientRegistry.Disconnect | ClientManager.cs:84-99 | the address index and the counter are unchanged, and sessions are only removed |
| ClientRegistry.EmptyValid | ClientManager.cs:18-24 | the new registry (empty dictionaries, counter 1) satisfies the invariant |
| ClientRegistry.NotYetIssued | ClientManager.cs:49-52 | in a valid registry no session and no address holds an identifier made from the counter's current value or a later one |
| ClientRegistry.ClientsAreIndexed | ClientManager.cs:67-68 | every session's identifier appears as a value of the address index |
| ClientRegistry.ConnectDuplicate | ClientManager.cs:33-44 | connecting from an indexed address answers Success = false with the indexed identifier and the fixed already-connected text, and changes neither dictionary nor the counter |
| ClientRegistry.ConnectFresh | ClientManager.cs:47-78 | connecting from an unindexed address answers Success = true with "Player_" + n, a new identifier, and "연결 성공: " + name; it adds exactly that session (origin position and rotation) and that index entry, and the counter becomes n + 1 |
| ClientRegistry.ConnectPreservesValid | ClientManager.cs:27-79 | ConnectPlayer keeps the index injective, every indexed identifier below the counter, and every session filed under its identifier and reachable from its address |
| ClientRegistry.DisconnectNothing | ClientManager.cs:89-98 | disconnecting an unindexed address, or one whose session is already gone, returns null and changes nothing |
| ClientRegistry.DisconnectRemoves | ClientManager.cs:89-96 | disconnecting an indexed address whose session is present returns that session and removes exactly its identifier; all other sessions and the address's index entry stay |
| ClientRegistry.DisconnectPreservesValid | ClientManager.cs:84-99 | DisconnectPlayer keeps the invariant |
| ClientRegistry.DisconnectThenReconnect | ClientManager.cs:33-98 | after a disconnect a second disconnect returns null and changes nothing, and a connect from the same address is refused with the removed session's identifier, which names no session |
| ClientRegistry.RunPreservesValid | ClientManager.cs:27-99 | any sequence of connects and disconnects keeps the invariant |
| ClientRegistry.IssuedIdsConsecutive | ClientManager.cs:49-52 | the identifiers a run hands out are "Player_" + n for consecutive n from the counter before the run, and the counter ends one past the last of them |
| ClientRegistry.IssuedIdsNeverRepeat | ClientManager.cs:49-52 | identifiers handed out in a run are pairwise distinct and none was held by a session or an address before the run |
| ClientRegistry.IssuedIdsFromStart | ClientManager.cs:18-52 | from a new registry the successful connects receive Player_1, Player_2, … in call order |
| ClientManagement.ClientManager.constructor | ClientManager.cs:20-24 | a new manager has both dictionaries empty, the counter at 1, and satisfies the invariant |
| ClientManagement.ClientManager.ConnectPlayer | ClientManager.cs:27-79 | the in-place update leaves the fields equal to ClientRegistry.Connect of the old fields, returns its reply and keeps the invariant |
| ClientManagement.ClientManager.DisconnectPlayer | ClientManager.cs:84-99 | the in-place update leaves the fields equal to ClientRegistry.Disconnect of the old fields, returns the removed session (or null) and keeps the invariant |

## Left out

- JSON and UTF-8 (System.Text.Json, Encoding.UTF8): not re-implemented. They are codec values passed as parameters. Their inverse law is a hypothesis of the round-trip lemmas. .NET's UTF-8 encoder replaces unpaired surrogates, so that law holds only for well-formed text.
- GameProtocol.GameMessage: the kind field ranges over the eleven kinds only. A C# enum field can hold any byte, and JSON deserialisation accepts undefined numeric kinds.
- Null strings and default structs: not modelled. A null result of `GetData` and a thrown `JsonException` are both `None`.
- Clock reads (`DateTime.UtcNow`, `DateTimeOffset.UtcNow`): the reading is a parameter (`now`).
- `Vector3`, `TransformData` and `PlayerData`: float data with no logic in ClientManager.cs or GameProtocal.cs. Position and rotation are real triples, with only the origin used and no arithmetic.
- `IPEndPoint` and its `ToString`: an address is represented by its string key. `ClientInfo.EndPoint` therefore holds the key rather than the endpoint object.
- `ClientInfo`: a C# class, modelled as a value. Aliasing between the stored record and the one `DisconnectPlayer` returns is not captured. Nothing in ClientManager.cs or GameProtocal.cs mutates such a record.
- Concurrency: not modelled. This covers the lock around the counter, the thread safety of `ConcurrentDictionary`, and the race between `ContainsKey` and the indexer in `ConnectPlayer`. The model is sequential, so `TryAdd` always finds the key absent.
- `ClientInfo` fields: the model follows the fields ClientManager.cs sets (`PlayerId`, `PlayerName`, `EndPoint`, `LastHeartbeat`, `Position`, `Rotation`). The `ClientInfo` class in UdpGameServer.cs declares `playerId` in lower case and no `PlayerName`, so it does not match what ClientManager.cs uses.
- Console logging: left out.
- Heartbeat update, transform update and removal of inactive players: empty regions in ClientManager.cs, so there is nothing to model.
- `UdpGameServer`: UdpGameServer.cs declares only fields (a socket, the server endpoint, an `ArrayPool<byte>` buffer pool, a cancellation source, a running flag, a 1024-byte buffer size and the port) and a TODO for a receive queue. It has no receive or processing code, so it is not in this model.
- TestClient.cs and Program.cs: socket I/O and process bootstrap, not part of this model.
- ClientManagement.ClientManager.ConnectPlayer: the counter is an unbounded natural number, the corrected behaviour from Findings. The 32-bit wrap-around of the source is modelled separately in module PlayerIds.

## Findings

| source | as written | input that shows it | evidently intended | confidence | as-written member | corrected member |
|---|---|---|---|---|---|---|
| ClientManager.cs:18-51 | `_nextPlayerId` is a C# `int` incremented with `++`. Under default unchecked arithmetic it wraps from 2147483647 to -2147483648. | 2^32 + 1 first-time connects from distinct addresses: the 2^31-th receives "Player_-2147483648", and the last receives "Player_1" again. If Player_1 is still connected, `TryAdd` on `_clients` fails silently and two addresses share one session. Because disconnects never clear the address index, the overflow is reached after 2^31 - 1 distinct addresses have connected, whether or not they are still connected. | identifiers are sequential and never reused | not executed; assumes the default unchecked build | PlayerIds.AsWrittenReissuesFirstId | ClientRegistry.IssuedIdsNeverRepeat |
