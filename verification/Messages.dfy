/**
 * The messages of the peer-status protocol (src/models, src/requests,
 * src/responses) and how an incoming payload is classified.
 *
 * Payloads are JSON text.  The model does not spell out the JSON text; a
 * payload is seen through its top-level fields or array elements, which is
 * all the decoders look at.
 */
module Messages {
  import opened Wrappers

  /** The string form of a libp2p peer id. */
  type PeerId = string

  /** One node's self-reported status (`Peer`). */
  datatype Peer = Peer(id: PeerId, hostname: string, description: string)

  /** `PeerListMode`: ask every node, or one node by id. */
  datatype PeerListMode = All | One(peerId: PeerId)

  datatype PeerListRequest = PeerListRequest(mode: PeerListMode)

  /** A status reply: `receiver` is the node that asked, `data` the replying node. */
  datatype ListResponse = ListResponse(mode: PeerListMode, data: Peer, receiver: PeerId)

  /** A free-text broadcast. */
  datatype MessageRequest = MessageRequest(message: string, hostname: string)

  /** Everything a node publishes on the topic. */
  datatype Outgoing =
    | SendRequest(request: PeerListRequest)
    | SendResponse(response: ListResponse)
    | SendMessage(broadcast: MessageRequest)

  /**
   * One element of a JSON array, seen through the three readings a decoder
   * may ask of it: as a `PeerListMode`, as a `Peer`, or as a string.  One
   * value can have several readings (`"ALL"` is both a mode and a string).
   */
  datatype Element = Element(asMode: Option<PeerListMode>, asPeer: Option<Peer>, asString: Option<string>)

  /**
   * A payload received on the topic, in one of three forms.
   *  - `Malformed`: text that is neither a JSON object nor a JSON array.
   *  - `Object`: a JSON object seen through the top-level fields the three
   *    records declare.  A field is `Some` when it is present with a value
   *    of the declared type.  A field of the wrong type fails exactly the
   *    decoders that declare it, as an absent one does, so it is `None`
   *    here.  Other fields are ignored by every decoder and are not
   *    represented.
   *  - `Array`: a JSON array.  A derived decoder also accepts a record as
   *    the array of its fields in declaration order, with no elements
   *    missing and none left over.
   */
  datatype Payload =
    | Malformed
    | Object(mode: Option<PeerListMode>, data: Option<Peer>, receiver: Option<PeerId>,
             message: Option<string>, hostname: Option<string>)
    | Array(elements: seq<Element>)

  /**
   * Decoding as a `ListResponse`: an object with `mode`, `data` and
   * `receiver` all present, or the array `[mode, data, receiver]`.
   */
  function DecodeListResponse(p: Payload): (r: Option<ListResponse>)
  {
    match p
    case Object(mode, data, receiver, _, _) =>
      if mode.Some? && data.Some? && receiver.Some?
      then Some(ListResponse(mode.value, data.value, receiver.value))
      else None
    case Array(es) =>
      if |es| == 3 && es[0].asMode.Some? && es[1].asPeer.Some? && es[2].asString.Some?
      then Some(ListResponse(es[0].asMode.value, es[1].asPeer.value, es[2].asString.value))
      else None
    case Malformed => None
  }

  /** Decoding as a `PeerListRequest`: an object with `mode` present, or the array `[mode]`. */
  function DecodePeerListRequest(p: Payload): (q: Option<PeerListRequest>)
  {
    match p
    case Object(mode, _, _, _, _) =>
      if mode.Some? then Some(PeerListRequest(mode.value)) else None
    case Array(es) =>
      if |es| == 1 && es[0].asMode.Some? then Some(PeerListRequest(es[0].asMode.value)) else None
    case Malformed => None
  }

  /** The outcome of classifying a payload. */
  datatype Decoded = IsResponse(response: ListResponse) | IsRequest(request: PeerListRequest) | Unrecognised

  /**
   * The dispatcher's classification: the first decoder that succeeds wins,
   * and the `ListResponse` decoder is tried first.
   */
  function Classify(p: Payload): (d: Decoded)
    ensures DecodeListResponse(p).Some? ==> d == IsResponse(DecodeListResponse(p).value)
    ensures d.IsResponse? ==> DecodeListResponse(p) == Some(d.response)
    ensures d.IsRequest? ==> DecodeListResponse(p).None? && DecodePeerListRequest(p) == Some(d.request)
    ensures d.Unrecognised? <==> DecodeListResponse(p).None? && DecodePeerListRequest(p).None?
  {
    match DecodeListResponse(p)
    case Some(r) => IsResponse(r)
    case None =>
      match DecodePeerListRequest(p)
      case Some(q) => IsRequest(q)
      case None => Unrecognised
  }

  /** The JSON object a published message is sent as: the fields its record declares. */
  function Encode(m: Outgoing): (p: Payload)
  {
    match m
    case SendRequest(q) => Object(Some(q.mode), None, None, None, None)
    case SendResponse(r) => Object(Some(r.mode), Some(r.data), Some(r.receiver), None, None)
    case SendMessage(b) => Object(None, None, None, Some(b.message), Some(b.hostname))
  }

  /**
   * What the decoders make of a published message.  A request decodes only
   * as itself.  A response decodes as itself and, because it carries a
   * `mode` field, ALSO as a request with that mode.  A broadcast decodes as
   * neither.
   */
  lemma DecodeEncode(m: Outgoing)
    ensures m.SendRequest? ==>
      DecodeListResponse(Encode(m)) == None && DecodePeerListRequest(Encode(m)) == Some(m.request)
    ensures m.SendResponse? ==>
      DecodeListResponse(Encode(m)) == Some(m.response)
      && DecodePeerListRequest(Encode(m)) == Some(PeerListRequest(m.response.mode))
    ensures m.SendMessage? ==>
      DecodeListResponse(Encode(m)) == None && DecodePeerListRequest(Encode(m)) == None
  {
  }

  /**
   * Classifying what a node published gives back the request or the response
   * it published, and a broadcast is not part of the status protocol: the
   * classification order is what keeps a response from being read as the
   * request its `mode` field also spells.
   */
  lemma ClassifyEncode(m: Outgoing)
    ensures m.SendRequest? ==> Classify(Encode(m)) == IsRequest(m.request)
    ensures m.SendResponse? ==> Classify(Encode(m)) == IsResponse(m.response)
    ensures m.SendMessage? ==> Classify(Encode(m)) == Unrecognised
  {
    DecodeEncode(m);
  }

  /**
   * The one-element array `["ALL"]`, which no node publishes, is still
   * classified as an `All` request; a three-element array of a mode, a peer
   * and a string is classified as a response.
   */
  lemma ArraysAreDecoded(mode: Element, peer: Element, receiver: Element)
    requires mode.asMode.Some? && peer.asPeer.Some? && receiver.asString.Some?
    ensures Classify(Array([Element(Some(All), None, Some("ALL"))])) == IsRequest(PeerListRequest(All))
    ensures Classify(Array([mode])) == IsRequest(PeerListRequest(mode.asMode.value))
    ensures Classify(Array([mode, peer, receiver]))
         == IsResponse(ListResponse(mode.asMode.value, peer.asPeer.value, receiver.asString.value))
  {
  }
}
