/**
 * ClientManager (ClientManager.cs:7-108): the session registry as the object
 * the server holds, with its two dictionaries and its counter as fields that
 * ConnectPlayer and DisconnectPlayer update in place. Each method is proved
 * against the specification functions of ClientRegistry, whose properties
 * are proved there.
 */
module ClientManagement {
  import opened Wrappers
  import GameProtocol
  import opened PlayerIds
  import opened ClientRegistry

  class ClientManager {
    var clients: map<string, ClientInfo>
    var endPointToPlayerId: map<string, string>
    var nextPlayerId: nat

    /** The registry value the fields hold. */
    function State(): Registry
      reads this
    {
      Registry(clients, endPointToPlayerId, nextPlayerId)
    }

    ghost predicate Valid()
      reads this
    {
      ClientRegistry.Valid(State())
    }

    /** Both dictionaries empty, the counter at 1. */
    constructor ()
      ensures Valid()
      ensures State() == Empty
    {
      clients := map[];
      endPointToPlayerId := map[];
      nextPlayerId := 1;
    }

    /**
     * Registers the client at `endPointKey` unless that address is already
     * indexed. `now` stands for the clock read that stamps the first heartbeat.
     */
    method ConnectPlayer(endPointKey: string, connectData: GameProtocol.ConnectData, now: int) returns (response: GameProtocol.ConnectResponseData)
      requires Valid()
      modifies this
      ensures Valid()
      ensures State() == Connect(old(State()), endPointKey, connectData, now).registry
      ensures response == Connect(old(State()), endPointKey, connectData, now).response
    {
      ConnectPreservesValid(State(), endPointKey, connectData, now);
      if endPointKey in endPointToPlayerId {
        var playerId := endPointToPlayerId[endPointKey];
        return GameProtocol.ConnectResponseData(false, playerId, AlreadyConnectedMessage);
      }

      var newPlayerId := PlayerId(nextPlayerId);
      nextPlayerId := nextPlayerId + 1;

      var clientInfo := ClientInfo(newPlayerId, connectData.playerName, endPointKey, now, Origin, Origin);

      if newPlayerId !in clients {
        clients := clients[newPlayerId := clientInfo];
      }
      if endPointKey !in endPointToPlayerId {
        endPointToPlayerId := endPointToPlayerId[endPointKey := newPlayerId];
      }

      return GameProtocol.ConnectResponseData(true, newPlayerId, ConnectedMessagePrefix + connectData.playerName);
    }

    /**
     * Removes and returns the session the address is indexed to, if there is
     * one; the address index keeps its entry.
     */
    method DisconnectPlayer(endPointKey: string) returns (removed: Option<ClientInfo>)
      requires Valid()
      modifies this
      ensures Valid()
      ensures State() == Disconnect(old(State()), endPointKey).registry
      ensures removed == Disconnect(old(State()), endPointKey).removed
    {
      DisconnectPreservesValid(State(), endPointKey);
      if endPointKey in endPointToPlayerId {
        var playerId := endPointToPlayerId[endPointKey];
        if playerId in clients {
          var clientInfo := clients[playerId];
          clients := clients - {playerId};
          return Some(clientInfo);
        }
      }
      return None;
    }
  }

  /**
   * A client of the class: one address connects twice, disconnects twice and
   * connects again, and a second address connects; the outcomes follow from
   * the method contracts and the registry lemmas alone.
   */
  method ReconnectScenario(a: string, b: string, now: int)
    requires a != b
  {
    var manager := new ClientManager();
    var r1 := manager.ConnectPlayer(a, GameProtocol.ConnectData("alice"), now);
    assert r1 == GameProtocol.ConnectResponseData(true, "Player_1", "연결 성공: alice");
    var r2 := manager.ConnectPlayer(a, GameProtocol.ConnectData("alice"), now);
    assert r2 == GameProtocol.ConnectResponseData(false, "Player_1", AlreadyConnectedMessage);
    var gone := manager.DisconnectPlayer(a);
    assert gone.Some? && gone.value.playerId == "Player_1" && gone.value.playerName == "alice";
    var again := manager.DisconnectPlayer(a);
    assert again == None;
    var r3 := manager.ConnectPlayer(a, GameProtocol.ConnectData("alice"), now);
    assert !r3.success && r3.playerId == "Player_1";
    var r4 := manager.ConnectPlayer(b, GameProtocol.ConnectData("bob"), now);
    assert r4.success && r4.playerId == "Player_2";
  }
}
