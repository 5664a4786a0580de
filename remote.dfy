/**
 * A stand-in for a pool on another node: `RemoteWorkerPool.feedData` turns a
 * value into one network packet addressed to the remote pool. The packet
 * encoding depends only on the shape of the value. JSON encoding is supplied
 * by the caller (`dumps`), as the transport and its JSON library are outside
 * this model; `dumps` answers None where `json.dumps` raises.
 */
module Remote {
  import opened Wrappers

  /** A Python value fed to a pool, as far as the dispatch looks at it. */
  datatype Value =
    | NdArray(cells: seq<int>)   // a numpy array: an image-like frame
    | Tuple(items: seq<Value>)   // a Python tuple
    | Atom(repr: string)         // any other value: number, string, list, dict, ...

  datatype PacketType = Image | Data

  /** A network packet: its type, the raw frame of an image packet, the JSON `data` field and the target pool. */
  datatype Packet = Packet(kind: PacketType, frame: Option<seq<int>>, data: Option<string>, target: string)

  /** Why feeding a remote pool raises. */
  datatype FeedError =
    | TupleTooShort     // IndexError on data[1]
    | NotSerializable   // TypeError from json.dumps

  /** `network.createImagePacket(frame)` with its `data` field filled in. */
  function ImagePacket(frame: seq<int>, data: Option<string>, target: string): Packet {
    Packet(Image, Some(frame), data, target)
  }

  /** The packet `feedData(data)` sends to the remote pool `identifier`. */
  function EncodePacket(identifier: string, data: Value, dumps: Value -> Option<string>): (r: Result<Packet, FeedError>)
    ensures r.Success? ==> r.value.target == identifier
    ensures r.Success? ==> (r.value.kind == Image <==> data.NdArray? || (data.Tuple? && |data.items| >= 2 && data.items[1].NdArray?))
  {
    if data.NdArray? then
      Success(ImagePacket(data.cells, None, identifier))
    else if data.Tuple? && |data.items| < 2 then
      Failure(TupleTooShort)
    else if data.Tuple? && data.items[1].NdArray? then
      match dumps(data.items[0])
      case None => Failure(NotSerializable)
      case Some(meta) => Success(ImagePacket(data.items[1].cells, Some(meta), identifier))
    else
      match dumps(data)
      case None => Failure(NotSerializable)
      case Some(json) => Success(Packet(Data, None, Some(json), identifier))
  }

  /** The three payload shapes and the one encoding each gets. */
  lemma PayloadShapes(identifier: string, data: Value, dumps: Value -> Option<string>)
    ensures data.NdArray? ==>
      EncodePacket(identifier, data, dumps) == Success(Packet(Image, Some(data.cells), None, identifier))
    ensures data.Tuple? && |data.items| >= 2 && data.items[1].NdArray? && dumps(data.items[0]).Some? ==>
      EncodePacket(identifier, data, dumps) ==
        Success(Packet(Image, Some(data.items[1].cells), dumps(data.items[0]), identifier))
    ensures (data.Atom? || (data.Tuple? && |data.items| >= 2 && !data.items[1].NdArray?)) && dumps(data).Some? ==>
      EncodePacket(identifier, data, dumps) == Success(Packet(Data, None, dumps(data), identifier))
    ensures EncodePacket(identifier, data, dumps).Failure? <==>
      || (data.Tuple? && |data.items| < 2)
      || (data.Tuple? && |data.items| >= 2 && data.items[1].NdArray? && dumps(data.items[0]).None?)
      || (!data.NdArray? && !(data.Tuple? && (|data.items| < 2 || data.items[1].NdArray?)) && dumps(data).None?)
  {
  }

  /** How the receiving side reads a packet back into a value, given the inverse of `dumps`. */
  function DecodePacket(p: Packet, loads: string -> Option<Value>): Option<Value> {
    match p.kind
    case Image =>
      if p.frame.None? then None
      else if p.data.None? then Some(NdArray(p.frame.value))
      else
        (match loads(p.data.value)
         case None => None
         case Some(meta) => Some(Tuple([meta, NdArray(p.frame.value)])))
    case Data =>
      if p.data.None? then None else loads(p.data.value)
  }

  /**
   * The encoding loses nothing: a bare frame, a (metadata, frame) pair and any
   * other value are each read back as sent, provided JSON round-trips.
   */
  lemma EncodeDecodeRoundTrip(identifier: string, data: Value, dumps: Value -> Option<string>, loads: string -> Option<Value>)
    requires forall v :: dumps(v).Some? ==> loads(dumps(v).value) == Some(v)
    requires EncodePacket(identifier, data, dumps).Success?
    requires !(data.Tuple? && |data.items| > 2 && data.items[1].NdArray?)
    ensures DecodePacket(EncodePacket(identifier, data, dumps).value, loads) == Some(data)
  {
    if data.Tuple? && data.items[1].NdArray? {
      assert data.items == [data.items[0], data.items[1]];
    }
  }

  /** A tuple with more than two items and a frame second is sent without its extra items. */
  lemma LongTupleTruncated(identifier: string, data: Value, dumps: Value -> Option<string>, loads: string -> Option<Value>)
    requires forall v :: dumps(v).Some? ==> loads(dumps(v).value) == Some(v)
    requires data.Tuple? && |data.items| > 2 && data.items[1].NdArray?
    requires EncodePacket(identifier, data, dumps).Success?
    ensures DecodePacket(EncodePacket(identifier, data, dumps).value, loads) == Some(Tuple(data.items[..2]))
    ensures DecodePacket(EncodePacket(identifier, data, dumps).value, loads) != Some(data)
  {
    assert data.items[..2] == [data.items[0], data.items[1]];
  }

  /** The network link to another node; it records what was sent. */
  class Connection {
    var sent: seq<Packet>

    constructor ()
      ensures sent == []
    {
      sent := [];
    }

    method Send(p: Packet)
      modifies this
      ensures sent == old(sent) + [p]
    {
      sent := sent + [p];
    }
  }

  /** A pool on a remote node, reached through a shared connection. */
  class RemoteWorkerPool {
    const identifier: string
    const connection: Connection
    const wid: string

    constructor (identifier: string, connection: Connection, wid: string)
      ensures this.identifier == identifier && this.connection == connection && this.wid == wid
    {
      this.identifier := identifier;
      this.connection := connection;
      this.wid := wid;
    }

    /** Sends `data` to the remote pool, or raises without sending anything. */
    method FeedData(data: Value, dumps: Value -> Option<string>) returns (err: Option<FeedError>)
      modifies connection
      ensures EncodePacket(identifier, data, dumps).Success? ==>
        err.None? && connection.sent == old(connection.sent) + [EncodePacket(identifier, data, dumps).value]
      ensures EncodePacket(identifier, data, dumps).Failure? ==>
        err == Some(EncodePacket(identifier, data, dumps).error) && connection.sent == old(connection.sent)
    {
      match EncodePacket(identifier, data, dumps)
      case Failure(e) =>
        return Some(e);
      case Success(pck) =>
        connection.Send(pck);
        return None;
    }
  }
}
