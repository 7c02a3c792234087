/**
 * The game protocol vocabulary and envelope (Protocal/GameProtocal.cs):
 * the closed set of message kinds with their byte codes, the envelope every
 * datagram carries, the connect payloads, and the static helpers that build,
 * unpack, serialise and deserialise envelopes.
 *
 * The JSON text layer (System.Text.Json) and the UTF-8 layer (Encoding.UTF8)
 * are foreign code. They are modelled as codec values passed in as
 * parameters; what the model relies on is only their inverse law, stated by
 * the predicates JsonRoundTrips and Utf8RoundTrips.
 */
module GameProtocol {
  import opened Wrappers

  newtype byte = x: int | 0 <= x < 0x100

  /** C# `long`, the type of the envelope's timestamp. */
  newtype int64 = x: int | -0x8000_0000_0000_0000 <= x < 0x8000_0000_0000_0000

  /** The eleven message kinds, `enum MessageType : byte`. */
  datatype MessageType =
    | Connect | ConnectResponse | Disconnect
    | PlayerJoin | PlayerLeave
    | TransformUpdate | TransformSync
    | RpcCall | RpcCallResponse
    | Heartbeat | Echo

  /** The five groups the enumeration is laid out in. */
  datatype Category = Connection | Player | Sync | Rpc | System

  function CategoryOf(t: MessageType): Category {
    match t
    case Connect | ConnectResponse | Disconnect => Connection
    case PlayerJoin | PlayerLeave => Player
    case TransformUpdate | TransformSync => Sync
    case RpcCall | RpcCallResponse => Rpc
    case Heartbeat | Echo => System
  }

  /** The high nibble a category's codes are meant to share. */
  function CategoryNibble(c: Category): byte {
    match c
    case Connection => 0x0
    case Player => 0x1
    case Sync => 0x2
    case Rpc => 0x3
    case System => 0x4
  }

  /** The byte code of a kind; codes are grouped by the kind's category. */
  function Code(t: MessageType): (b: byte)
    ensures b / 0x10 == CategoryNibble(CategoryOf(t))
    ensures b != 0
  {
    match t
    case Connect => 0x01
    case ConnectResponse => 0x02
    case Disconnect => 0x03
    case PlayerJoin => 0x10
    case PlayerLeave => 0x11
    case TransformUpdate => 0x20
    case TransformSync => 0x21
    case RpcCall => 0x30
    case RpcCallResponse => 0x31
    case Heartbeat => 0x40
    case Echo => 0x41
  }

  /** The kind a byte code names, if any: a partial inverse of Code. */
  function FromCode(b: byte): (r: Option<MessageType>)
    ensures forall t :: r == Some(t) <==> Code(t) == b
  {
    match b
    case 0x01 => Some(Connect)
    case 0x02 => Some(ConnectResponse)
    case 0x03 => Some(Disconnect)
    case 0x10 => Some(PlayerJoin)
    case 0x11 => Some(PlayerLeave)
    case 0x20 => Some(TransformUpdate)
    case 0x21 => Some(TransformSync)
    case 0x30 => Some(RpcCall)
    case 0x31 => Some(RpcCallResponse)
    case 0x40 => Some(Heartbeat)
    case 0x41 => Some(Echo)
    case _ => None
  }

  const AllKinds: seq<MessageType> :=
    [Connect, ConnectResponse, Disconnect, PlayerJoin, PlayerLeave,
     TransformUpdate, TransformSync, RpcCall, RpcCallResponse, Heartbeat, Echo]

  /** There are exactly eleven kinds, and no two share a code. */
  lemma ElevenDistinctKinds()
    ensures |AllKinds| == 11
    ensures forall t :: t in AllKinds
    ensures forall i, j :: 0 <= i < j < |AllKinds| ==> Code(AllKinds[i]) != Code(AllKinds[j])
  {
    forall t ensures t in AllKinds {
      match t
      case Connect => assert AllKinds[0] == t;
      case ConnectResponse => assert AllKinds[1] == t;
      case Disconnect => assert AllKinds[2] == t;
      case PlayerJoin => assert AllKinds[3] == t;
      case PlayerLeave => assert AllKinds[4] == t;
      case TransformUpdate => assert AllKinds[5] == t;
      case TransformSync => assert AllKinds[6] == t;
      case RpcCall => assert AllKinds[7] == t;
      case RpcCallResponse => assert AllKinds[8] == t;
      case Heartbeat => assert AllKinds[9] == t;
      case Echo => assert AllKinds[10] == t;
    }
  }

  /** Distinct kinds have distinct codes. */
  lemma CodeInjective(s: MessageType, t: MessageType)
    ensures Code(s) == Code(t) <==> s == t
  {
    if Code(s) == Code(t) {
      assert FromCode(Code(s)) == Some(s);
      assert FromCode(Code(t)) == Some(t);
    }
  }

  /** The common envelope, `struct GameMessage`; Data holds the payload as JSON text. */
  datatype GameMessage = GameMessage(
    msgType: MessageType,
    playerId: string,
    timestamp: int64,
    data: string)

  /** Payload of a Connect request. */
  datatype ConnectData = ConnectData(playerName: string)

  /** Payload of a ConnectResponse reply. */
  datatype ConnectResponseData = ConnectResponseData(success: bool, playerId: string, message: string)

  /**
   * A JSON text codec for values of T, standing for JsonSerializer.Serialize<T>
   * and JsonSerializer.Deserialize<T>. Deserialisation may throw; that is None.
   */
  datatype JsonCodec<!T> = JsonCodec(serialize: T -> string, deserialize: string -> Option<T>)

  /** The inverse law the model assumes of the JSON layer. */
  ghost predicate JsonRoundTrips<T(!new)>(json: JsonCodec<T>) {
    forall x :: json.deserialize(json.serialize(x)) == Some(x)
  }

  /** Encoding.UTF8.GetBytes and Encoding.UTF8.GetString. */
  datatype Utf8Codec = Utf8Codec(getBytes: string -> seq<byte>, getString: seq<byte> -> string)

  /** The inverse law the model assumes of the UTF-8 layer. */
  ghost predicate Utf8RoundTrips(utf8: Utf8Codec) {
    forall s :: utf8.getString(utf8.getBytes(s)) == s
  }

  /** An envelope as the UTF-8 bytes of its JSON text. */
  function Serialize(json: JsonCodec<GameMessage>, utf8: Utf8Codec, message: GameMessage): (bytes: seq<byte>)
    ensures Utf8RoundTrips(utf8) ==> utf8.getString(bytes) == json.serialize(message)
  {
    utf8.getBytes(json.serialize(message))
  }

  /**
   * The envelope held in the first `length` bytes of `data`. A length outside
   * the buffer makes GetString throw, as does text that is not a GameMessage.
   */
  function Deserialize(json: JsonCodec<GameMessage>, utf8: Utf8Codec, data: seq<byte>, length: int): (r: Option<GameMessage>)
    ensures r.Some? ==> 0 <= length <= |data|
  {
    if 0 <= length <= |data| then json.deserialize(utf8.getString(data[..length])) else None
  }

  /**
   * An envelope of the given kind from the given player carrying `data` as
   * JSON text. The clock read is the parameter `now` (Unix seconds).
   */
  function CreateMessage<T(!new)>(json: JsonCodec<T>, msgType: MessageType, playerId: string, data: T, now: int64): (m: GameMessage)
    ensures m.msgType == msgType && m.playerId == playerId && m.timestamp == now
    ensures JsonRoundTrips(json) ==> json.deserialize(m.data) == Some(data)
  {
    GameMessage(msgType, playerId, now, json.serialize(data))
  }

  /** The payload of an envelope decoded as a T; None where the decoder throws. */
  function GetData<T(!new)>(json: JsonCodec<T>, message: GameMessage): (r: Option<T>)
    ensures JsonRoundTrips(json) ==> forall x | message.data == json.serialize(x) :: r == Some(x)
  {
    json.deserialize(message.data)
  }

  /** Unpacking what CreateMessage packed gives back the payload. */
  lemma GetDataCreateMessage<T(!new)>(json: JsonCodec<T>, msgType: MessageType, playerId: string, data: T, now: int64)
    requires JsonRoundTrips(json)
    ensures GetData(json, CreateMessage(json, msgType, playerId, data, now)) == Some(data)
  {
  }

  /** Deserialising the whole of a serialised envelope gives the envelope back. */
  lemma DeserializeSerialize(json: JsonCodec<GameMessage>, utf8: Utf8Codec, message: GameMessage)
    requires JsonRoundTrips(json) && Utf8RoundTrips(utf8)
    ensures var bytes := Serialize(json, utf8, message);
      Deserialize(json, utf8, bytes, |bytes|) == Some(message)
  {
    var bytes := Serialize(json, utf8, message);
    assert bytes[..|bytes|] == bytes;
  }

  /** Bytes past `length` never influence the result. */
  lemma DeserializeReadsPrefix(json: JsonCodec<GameMessage>, utf8: Utf8Codec, data: seq<byte>, other: seq<byte>, length: int)
    requires 0 <= length <= |data| && 0 <= length <= |other|
    requires data[..length] == other[..length]
    ensures Deserialize(json, utf8, data, length) == Deserialize(json, utf8, other, length)
  {
  }

  /**
   * A serialised envelope received into a larger pooled buffer, whatever the
   * buffer holds after it, decodes to the envelope when the received length is used.
   */
  lemma DeserializePooledBuffer(json: JsonCodec<GameMessage>, utf8: Utf8Codec, message: GameMessage, trailing: seq<byte>)
    requires JsonRoundTrips(json) && Utf8RoundTrips(utf8)
    ensures var bytes := Serialize(json, utf8, message);
      Deserialize(json, utf8, bytes + trailing, |bytes|) == Some(message)
  {
    var bytes := Serialize(json, utf8, message);
    assert (bytes + trailing)[..|bytes|] == bytes;
  }
}
