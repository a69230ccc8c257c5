/**
 * The network behaviour (src/behaviors/peer_status.rs): the gossip
 * dispatcher that answers status requests, and the discovery handler that
 * keeps the floodsub partial view in step with mdns.
 */
module PeerStatus {
  import opened Wrappers
  import opened Messages

  /** The single topic every node subscribes to and publishes on. */
  const TOPIC: string := "recipes"

  /** One call of floodsub's `publish`. */
  datatype Publication = Publication(topic: string, message: Outgoing)

  /** The floodsub events the behaviour receives. */
  datatype FloodsubEvent =
    | Message(source: PeerId, data: Payload)
    | Subscribed(peerId: PeerId, topic: string)
    | Unsubscribed(peerId: PeerId, topic: string)

  /** The mdns events, with the address half of each entry dropped. */
  datatype MdnsEvent = Discovered(peers: seq<PeerId>) | Expired(peers: seq<PeerId>)

  /**
   * The reply `respond_with_peer_info` builds for `receiver`: always in mode
   * `All`, carrying this node's id, the host name and this node's description.
   */
  function RespondWithPeerInfo(receiver: PeerId, peerId: PeerId, description: string, hostname: string): (r: ListResponse)
  {
    ListResponse(All, Peer(peerId, hostname, description), receiver)
  }

  /** Whether a request in `mode` is one node `peerId` answers. */
  predicate Addressed(mode: PeerListMode, peerId: PeerId)
  {
    mode.All? || mode.peerId == peerId
  }

  /**
   * The decision the floodsub handler takes on `event` at node `peerId`: the
   * reply it queues for the actor, if any.  Responses, whoever they are for,
   * are only logged.
   */
  function Dispatch(event: FloodsubEvent, peerId: PeerId, description: string, hostname: string): (reply: Option<ListResponse>)
  {
    match event
    case Message(source, data) =>
      (match Classify(data)
       case IsResponse(_) => None
       case IsRequest(req) =>
         if Addressed(req.mode, peerId) then Some(RespondWithPeerInfo(source, peerId, description, hostname)) else None
       case Unrecognised => None)
    case _ => None
  }

  /** A payload that decodes as a response is never answered, even when it also decodes as a request. */
  lemma ResponsesAreNotAnswered(source: PeerId, data: Payload, peerId: PeerId, description: string, hostname: string)
    requires DecodeListResponse(data).Some?
    ensures Dispatch(Message(source, data), peerId, description, hostname) == None
  {
  }

  /** An `All` request is answered with exactly one reply, addressed to the requester. */
  lemma AllRequestsAreAnswered(source: PeerId, data: Payload, peerId: PeerId, description: string, hostname: string)
    requires Classify(data) == IsRequest(PeerListRequest(All))
    ensures Dispatch(Message(source, data), peerId, description, hostname).Some?
    ensures Dispatch(Message(source, data), peerId, description, hostname).value.receiver == source
  {
  }

  /** A `One(x)` request is answered if and only if `x` is this node's id. */
  lemma OneRequestAnsweredIff(source: PeerId, data: Payload, x: PeerId, peerId: PeerId, description: string, hostname: string)
    requires Classify(data) == IsRequest(PeerListRequest(One(x)))
    ensures Dispatch(Message(source, data), peerId, description, hostname).Some? <==> x == peerId
  {
  }

  /**
   * Every reply has mode `All` (also when it answers a `One` request), names
   * this node and its description as its data, and goes to the requester.
   */
  lemma ReplyShape(event: FloodsubEvent, peerId: PeerId, description: string, hostname: string)
    requires Dispatch(event, peerId, description, hostname).Some?
    ensures event.Message?
    ensures Dispatch(event, peerId, description, hostname).value == ListResponse(All, Peer(peerId, hostname, description), event.source)
  {
  }

  /** Undecodable payloads and events other than messages are ignored. */
  lemma IgnoredInput(event: FloodsubEvent, peerId: PeerId, description: string, hostname: string)
    requires !event.Message? || Classify(event.data) == Unrecognised
    ensures Dispatch(event, peerId, description, hostname) == None
  {
  }

  /**
   * What a node publishes, delivered to node `peerId`: an `All` request is
   * answered, a response (which also spells an `All` or `One` request) and
   * a broadcast are not.
   */
  lemma DispatchPublished(source: PeerId, m: Outgoing, peerId: PeerId, description: string, hostname: string)
    ensures m.SendRequest? && m.request.mode.All? ==>
      Dispatch(Message(source, Encode(m)), peerId, description, hostname) == Some(RespondWithPeerInfo(source, peerId, description, hostname))
    ensures !m.SendRequest? ==> Dispatch(Message(source, Encode(m)), peerId, description, hostname) == None
  {
    ClassifyEncode(m);
  }

  /**
   * `PeerStatusBehaviour`: floodsub's partial view and what it was asked to
   * publish, the node list mdns holds, and the channel of replies the
   * dispatcher has queued for the actor and the actor has not yet taken.
   */
  class PeerStatusBehaviour {
    /** Floodsub's partial view: the peers gossip is forwarded to. */
    var partialView: set<PeerId>
    /** Floodsub's publications, oldest first. */
    var published: seq<Publication>
    /** The peers mdns currently knows, one entry per (peer, address) pair, so a peer can appear more than once; mdns alone updates it. */
    var discoveredNodes: seq<PeerId>
    /** The reply channel to the actor: sent and not yet received, oldest first. */
    var responses: seq<ListResponse>
    const description: string
    const peerId: PeerId

    /** Every queued reply is one of this node's own, in mode `All`. */
    ghost predicate Valid()
      reads this
    {
      forall i | 0 <= i < |responses| ::
        responses[i].mode == All && responses[i].data.id == peerId && responses[i].data.description == description
    }

    constructor (peerId: PeerId, description: string)
      ensures Valid()
      ensures this.peerId == peerId && this.description == description
      ensures partialView == {} && published == [] && discoveredNodes == [] && responses == []
    {
      this.peerId := peerId;
      this.description := description;
      partialView := {};
      published := [];
      discoveredNodes := [];
      responses := [];
    }

    /** mdns's `has_node`. */
    predicate HasNode(peer: PeerId)
      reads this
    {
      peer in discoveredNodes
    }

    /** Floodsub's `publish` on the topic. */
    method Publish(m: Outgoing)
      modifies this`published
      ensures published == old(published) + [Publication(TOPIC, m)]
    {
      published := published + [Publication(TOPIC, m)];
    }

    /** The floodsub handler: queue the reply `Dispatch` decides on, if any, and change nothing else. */
    method InjectFloodsubEvent(event: FloodsubEvent, hostname: string)
      requires Valid()
      modifies this`responses
      ensures Valid()
      ensures responses == old(responses) + OptionToSeq(Dispatch(event, peerId, description, hostname))
    {
      match event
      case Message(source, data) =>
        var response := DecodeListResponse(data);
        var request := DecodePeerListRequest(data);
        if response.Some? {
          // a response, for this node or another: only logged
        } else if request.Some? {
          var req := request.value;
          match req.mode
          case All =>
            responses := responses + [RespondWithPeerInfo(source, peerId, description, hostname)];
          case One(id) =>
            if id == peerId {
              responses := responses + [RespondWithPeerInfo(source, peerId, description, hostname)];
            }
        }
      case _ =>
    }

    /**
     * The mdns handler: a discovered peer joins the partial view; an expired
     * peer leaves it only if mdns no longer has it.  Nothing else changes.
     */
    method InjectMdnsEvent(event: MdnsEvent)
      modifies this`partialView
      ensures event.Discovered? ==> partialView == old(partialView) + (set p | p in event.peers)
      ensures event.Expired? ==> partialView == old(partialView) - (set p | p in event.peers && !HasNode(p))
    {
      match event
      case Discovered(peers) =>
        for i := 0 to |peers|
          invariant partialView == old(partialView) + (set p | p in peers[..i])
        {
          assert peers[..i + 1] == peers[..i] + [peers[i]];
          partialView := partialView + {peers[i]};
        }
        assert peers[..|peers|] == peers;
      case Expired(peers) =>
        for i := 0 to |peers|
          invariant partialView == old(partialView) - (set p | p in peers[..i] && !HasNode(p))
        {
          assert peers[..i + 1] == peers[..i] + [peers[i]];
          if !HasNode(peers[i]) {
            partialView := partialView - {peers[i]};
          }
        }
        assert peers[..|peers|] == peers;
    }
  }
}
