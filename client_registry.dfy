/**
 * The client session registry of ClientManager.cs, as values: the two
 * dictionaries and the identifier counter form a Registry, and ConnectPlayer
 * and DisconnectPlayer are functions from the old Registry to the new one
 * and the reply. The class ClientManagement.ClientManager is proved against
 * these functions; the lemmas here state what the source promises of them.
 *
 * An endpoint is represented by its string key (what IPEndPoint.ToString
 * gives); the registry only ever looks endpoints up by that key.
 */
module ClientRegistry {
  import opened Wrappers
  import GameProtocol
  import opened PlayerIds

  /** A 3-component float vector; the model does no arithmetic on it. */
  datatype Vector3 = Vector3(x: real, y: real, z: real)

  const Origin: Vector3 := Vector3(0.0, 0.0, 0.0)

  /** A session record. `lastHeartbeat` is the clock reading passed in by the caller. */
  datatype ClientInfo = ClientInfo(
    playerId: string,
    playerName: string,
    endPoint: string,
    lastHeartbeat: int,
    position: Vector3,
    rotation: Vector3)

  /** `_clients`, `_endPointToPlayerId` and `_nextPlayerId`. */
  datatype Registry = Registry(
    clients: map<string, ClientInfo>,
    endPointToPlayerId: map<string, string>,
    nextPlayerId: nat)

  const Empty: Registry := Registry(map[], map[], 1)

  const AlreadyConnectedMessage: string := "이미 연결된 클라이언트입니다."
  const ConnectedMessagePrefix: string := "연결 성공: "

  /** ConcurrentDictionary.TryAdd: inserts only when the key is absent. */
  function TryAdd<K(!new), V>(m: map<K, V>, k: K, v: V): (r: map<K, V>)
    ensures k in r && r[k] == (if k in m then m[k] else v)
    ensures forall j | j != k :: (j in r <==> j in m) && (j in m ==> r[j] == m[j])
  {
    if k in m then m else m[k := v]
  }

  /** The counter value an identifier was made from is below `bound`. */
  predicate IssuedBelow(id: string, bound: nat) {
    match ParsePlayerId(id)
    case Some(n) => 1 <= n < bound
    case None => false
  }

  ghost predicate Injective<K, V>(m: map<K, V>) {
    forall a, b | a in m && b in m && a != b :: m[a] != m[b]
  }

  /**
   * What the two operations maintain: the counter is positive, every indexed
   * identifier was issued from a counter value below it, no two addresses
   * share an identifier, and every session is filed under its own identifier
   * and reachable from its own address through the index.
   */
  ghost predicate Valid(r: Registry) {
    && r.nextPlayerId >= 1
    && (forall ep | ep in r.endPointToPlayerId :: IssuedBelow(r.endPointToPlayerId[ep], r.nextPlayerId))
    && Injective(r.endPointToPlayerId)
    && (forall id | id in r.clients ::
          && r.clients[id].playerId == id
          && r.clients[id].endPoint in r.endPointToPlayerId
          && r.endPointToPlayerId[r.clients[id].endPoint] == id)
  }

  datatype ConnectOutcome = ConnectOutcome(registry: Registry, response: GameProtocol.ConnectResponseData)

  /** ConnectPlayer: idempotent against an indexed address, otherwise a fresh session. */
  function Connect(r: Registry, endPointKey: string, connectData: GameProtocol.ConnectData, now: int): (o: ConnectOutcome)
    ensures o.response.success <==> endPointKey !in r.endPointToPlayerId
    ensures endPointKey in o.registry.endPointToPlayerId
    ensures o.registry.endPointToPlayerId[endPointKey] == o.response.playerId
  {
    if endPointKey in r.endPointToPlayerId then
      var playerId := r.endPointToPlayerId[endPointKey];
      ConnectOutcome(r, GameProtocol.ConnectResponseData(false, playerId, AlreadyConnectedMessage))
    else
      var newPlayerId := PlayerId(r.nextPlayerId);
      var clientInfo := ClientInfo(newPlayerId, connectData.playerName, endPointKey, now, Origin, Origin);
      var r' := Registry(
        TryAdd(r.clients, newPlayerId, clientInfo),
        TryAdd(r.endPointToPlayerId, endPointKey, newPlayerId),
        r.nextPlayerId + 1);
      ConnectOutcome(r', GameProtocol.ConnectResponseData(true, newPlayerId, ConnectedMessagePrefix + connectData.playerName))
  }

  datatype DisconnectOutcome = DisconnectOutcome(registry: Registry, removed: Option<ClientInfo>)

  /**
   * DisconnectPlayer: removes the session the address is indexed to, if that
   * session is still present, and returns it. The address index is not touched.
   */
  function Disconnect(r: Registry, endPointKey: string): (o: DisconnectOutcome)
    ensures o.registry.endPointToPlayerId == r.endPointToPlayerId
    ensures o.registry.nextPlayerId == r.nextPlayerId
    ensures o.registry.clients.Keys <= r.clients.Keys
  {
    if endPointKey in r.endPointToPlayerId && r.endPointToPlayerId[endPointKey] in r.clients then
      var playerId := r.endPointToPlayerId[endPointKey];
      DisconnectOutcome(r.(clients := r.clients - {playerId}), Some(r.clients[playerId]))
    else
      DisconnectOutcome(r, None)
  }

  lemma EmptyValid()
    ensures Valid(Empty)
  {
  }

  /** No identifier in a valid registry was made from the current counter value or a later one. */
  lemma NotYetIssued(r: Registry, n: nat)
    requires Valid(r) && n >= r.nextPlayerId
    ensures PlayerId(n) !in r.endPointToPlayerId.Values
    ensures PlayerId(n) !in r.clients
  {
    ParsePlayerIdOfPlayerId(n);
    forall ep | ep in r.endPointToPlayerId ensures r.endPointToPlayerId[ep] != PlayerId(n) {
      assert IssuedBelow(r.endPointToPlayerId[ep], r.nextPlayerId);
    }
    forall id | id in r.clients ensures id != PlayerId(n) {
      assert r.endPointToPlayerId[r.clients[id].endPoint] == id;
    }
  }

  /** Every session's identifier is indexed by some address. */
  lemma ClientsAreIndexed(r: Registry, id: string)
    requires Valid(r) && id in r.clients
    ensures id in r.endPointToPlayerId.Values
  {
    assert r.endPointToPlayerId[r.clients[id].endPoint] == id;
  }

  /**
   * Connecting from an indexed address answers "already connected" with the
   * identifier it is indexed to and changes nothing.
   */
  lemma ConnectDuplicate(r: Registry, endPointKey: string, connectData: GameProtocol.ConnectData, now: int)
    requires endPointKey in r.endPointToPlayerId
    ensures var o := Connect(r, endPointKey, connectData, now);
      && o.registry == r
      && o.response == GameProtocol.ConnectResponseData(false, r.endPointToPlayerId[endPointKey], AlreadyConnectedMessage)
  {
  }

  /**
   * Connecting from an unindexed address to a valid registry issues
   * "Player_<n>" for the current counter n, an identifier no session or
   * address holds yet; it adds exactly one session with origin position and
   * rotation and exactly one index entry, and advances the counter by one.
   */
  lemma ConnectFresh(r: Registry, endPointKey: string, connectData: GameProtocol.ConnectData, now: int)
    requires Valid(r) && endPointKey !in r.endPointToPlayerId
    ensures var o := Connect(r, endPointKey, connectData, now);
      var newId := PlayerId(r.nextPlayerId);
      && newId !in r.clients && newId !in r.endPointToPlayerId.Values
      && o.response == GameProtocol.ConnectResponseData(true, newId, ConnectedMessagePrefix + connectData.playerName)
      && o.registry.nextPlayerId == r.nextPlayerId + 1
      && o.registry.clients == r.clients[newId := ClientInfo(newId, connectData.playerName, endPointKey, now, Origin, Origin)]
      && o.registry.endPointToPlayerId == r.endPointToPlayerId[endPointKey := newId]
  {
    NotYetIssued(r, r.nextPlayerId);
  }

  /** ConnectPlayer keeps the registry valid. */
  lemma ConnectPreservesValid(r: Registry, endPointKey: string, connectData: GameProtocol.ConnectData, now: int)
    requires Valid(r)
    ensures Valid(Connect(r, endPointKey, connectData, now).registry)
  {
    if endPointKey !in r.endPointToPlayerId {
      var r' := Connect(r, endPointKey, connectData, now).registry;
      var n := r.nextPlayerId;
      var newId := PlayerId(n);
      ConnectFresh(r, endPointKey, connectData, now);
      ParsePlayerIdOfPlayerId(n);
      forall ep | ep in r'.endPointToPlayerId
        ensures IssuedBelow(r'.endPointToPlayerId[ep], r'.nextPlayerId)
      {
        if ep != endPointKey {
          assert IssuedBelow(r.endPointToPlayerId[ep], n);
        }
      }
      forall a, b | a in r'.endPointToPlayerId && b in r'.endPointToPlayerId && a != b
        ensures r'.endPointToPlayerId[a] != r'.endPointToPlayerId[b]
      {
        if a == endPointKey {
          assert r.endPointToPlayerId[b] in r.endPointToPlayerId.Values;
        } else if b == endPointKey {
          assert r.endPointToPlayerId[a] in r.endPointToPlayerId.Values;
        }
      }
    }
  }

  /**
   * Disconnecting an address that is not indexed, or whose session is
   * already gone, returns nothing and changes nothing.
   */
  lemma DisconnectNothing(r: Registry, endPointKey: string)
    requires endPointKey !in r.endPointToPlayerId || r.endPointToPlayerId[endPointKey] !in r.clients
    ensures Disconnect(r, endPointKey) == DisconnectOutcome(r, None)
  {
  }

  /**
   * Disconnecting an indexed address whose session is present removes
   * exactly that session and returns it; the address stays indexed.
   */
  lemma DisconnectRemoves(r: Registry, endPointKey: string)
    requires Valid(r)
    requires endPointKey in r.endPointToPlayerId && r.endPointToPlayerId[endPointKey] in r.clients
    ensures var id := r.endPointToPlayerId[endPointKey];
      var o := Disconnect(r, endPointKey);
      && o.removed == Some(r.clients[id])
      && o.removed.value.playerId == id && o.removed.value.endPoint == endPointKey
      && o.registry.clients.Keys == r.clients.Keys - {id}
      && (forall other | other in o.registry.clients :: o.registry.clients[other] == r.clients[other])
      && o.registry.endPointToPlayerId[endPointKey] == id
  {
    var id := r.endPointToPlayerId[endPointKey];
    // the session's own address is indexed to it, and the index is injective
    assert r.endPointToPlayerId[r.clients[id].endPoint] == id;
  }

  /** DisconnectPlayer keeps the registry valid. */
  lemma DisconnectPreservesValid(r: Registry, endPointKey: string)
    requires Valid(r)
    ensures Valid(Disconnect(r, endPointKey).registry)
  {
  }

  /**
   * Disconnecting twice: the second call returns nothing and changes nothing,
   * and a later connect from the same address is refused as already
   * connected, with the identifier of the session that was removed.
   */
  lemma DisconnectThenReconnect(r: Registry, endPointKey: string, connectData: GameProtocol.ConnectData, now: int)
    requires Valid(r)
    requires endPointKey in r.endPointToPlayerId && r.endPointToPlayerId[endPointKey] in r.clients
    ensures var first := Disconnect(r, endPointKey);
      var second := Disconnect(first.registry, endPointKey);
      var again := Connect(first.registry, endPointKey, connectData, now);
      && first.removed.Some?
      && second == DisconnectOutcome(first.registry, None)
      && !again.response.success
      && again.response.playerId == first.removed.value.playerId
      && again.registry == first.registry
      && again.response.playerId !in again.registry.clients
  {
    DisconnectRemoves(r, endPointKey);
  }

  // ---------------------------------------------------------------------
  // Sequences of operations

  datatype Op =
    | ConnectOp(endPointKey: string, connectData: GameProtocol.ConnectData, now: int)
    | DisconnectOp(endPointKey: string)

  function Step(r: Registry, op: Op): Registry {
    match op
    case ConnectOp(ep, data, now) => Connect(r, ep, data, now).registry
    case DisconnectOp(ep) => Disconnect(r, ep).registry
  }

  /** The registry after the operations, in order. */
  function Run(r: Registry, ops: seq<Op>): Registry
    decreases |ops|
  {
    if ops == [] then r else Run(Step(r, ops[0]), ops[1..])
  }

  /** The identifiers the successful connects among the operations hand out, in call order. */
  function IssuedIds(r: Registry, ops: seq<Op>): seq<string>
    decreases |ops|
  {
    if ops == [] then []
    else
      var head := match ops[0]
        case ConnectOp(ep, data, now) =>
          var o := Connect(r, ep, data, now);
          if o.response.success then [o.response.playerId] else []
        case DisconnectOp(_) => [];
      head + IssuedIds(Step(r, ops[0]), ops[1..])
  }

  /** Any sequence of operations keeps the registry valid. */
  lemma {:induction false} RunPreservesValid(r: Registry, ops: seq<Op>)
    requires Valid(r)
    ensures Valid(Run(r, ops))
    decreases |ops|
  {
    if ops != [] {
      match ops[0] {
        case ConnectOp(ep, data, now) => ConnectPreservesValid(r, ep, data, now);
        case DisconnectOp(ep) => DisconnectPreservesValid(r, ep);
      }
      RunPreservesValid(Step(r, ops[0]), ops[1..]);
    }
  }

  /**
   * The identifiers handed out are "Player_<n>" for consecutive counter
   * values starting at the counter before the first operation, and the
   * counter ends exactly one past the last of them: it never goes back.
   */
  lemma {:induction false} IssuedIdsConsecutive(r: Registry, ops: seq<Op>)
    ensures Run(r, ops).nextPlayerId == r.nextPlayerId + |IssuedIds(r, ops)|
    ensures forall i | 0 <= i < |IssuedIds(r, ops)| :: IssuedIds(r, ops)[i] == PlayerId(r.nextPlayerId + i)
    decreases |ops|
  {
    if ops != [] {
      var r1 := Step(r, ops[0]);
      IssuedIdsConsecutive(r1, ops[1..]);
      var tail := IssuedIds(r1, ops[1..]);
      match ops[0]
      case ConnectOp(ep, data, now) =>
        var o := Connect(r, ep, data, now);
        if o.response.success {
          assert IssuedIds(r, ops) == [PlayerId(r.nextPlayerId)] + tail;
          assert r1.nextPlayerId == r.nextPlayerId + 1;
        } else {
          assert IssuedIds(r, ops) == tail;
        }
      case DisconnectOp(_) =>
        assert IssuedIds(r, ops) == tail;
    }
  }

  /**
   * Identifiers are never reused: the identifiers one run hands out are
   * pairwise distinct, and none of them is held by a session or an address
   * of the valid registry the run started from.
   */
  lemma IssuedIdsNeverRepeat(r: Registry, ops: seq<Op>, i: nat, j: nat)
    requires Valid(r)
    requires i < |IssuedIds(r, ops)| && j < |IssuedIds(r, ops)|
    ensures IssuedIds(r, ops)[i] == IssuedIds(r, ops)[j] <==> i == j
    ensures IssuedIds(r, ops)[i] !in r.clients
    ensures IssuedIds(r, ops)[i] !in r.endPointToPlayerId.Values
  {
    IssuedIdsConsecutive(r, ops);
    PlayerIdInjective(r.nextPlayerId + i, r.nextPlayerId + j);
    NotYetIssued(r, r.nextPlayerId + i);
  }

  /** From a new registry, the k-th successful connect (counting from 0) receives "Player_<k+1>". */
  lemma IssuedIdsFromStart(ops: seq<Op>)
    ensures forall i | 0 <= i < |IssuedIds(Empty, ops)| :: IssuedIds(Empty, ops)[i] == "Player_" + Decimal(i + 1)
  {
    IssuedIdsConsecutive(Empty, ops);
  }
}
