/**
 * The node actor (src/network/p2p_network.rs): it owns the swarm and the
 * directory of peer records, runs the commands callers send it, and folds
 * the replies the dispatcher queues into the directory.
 */
module Network {
  import opened Wrappers
  import opened Messages
  import opened PeerStatus

  /** `peer_info_responses`: peer id to the latest record stored for it. */
  type Directory = map<PeerId, Peer>

  /** The commands a `Client` sends the actor; each carries its own reply slot in the source. */
  datatype Command = GetAllPeerIds | SendPeerInfoRequest | GetPeerInfoResponses

  /** What the actor sends back on a command's reply slot. */
  datatype Reply = PeerIds(ids: seq<string>) | Sent(result: Result<(), ()>) | PeerInfo(responses: Directory)

  /** Whether no element of `s` occurs twice. */
  predicate NoDuplicates<T(==)>(s: seq<T>)
  {
    forall i, j | 0 <= i < j < |s| :: s[i] != s[j]
  }

  /** The ids the records in `events` are about. */
  function Ids(events: seq<ListResponse>): (ids: set<PeerId>)
  {
    set e | e in events :: e.data.id
  }

  /** The directory after `handle_event` has run on each of `events`, in order, starting from `d`. */
  function Accumulate(d: Directory, events: seq<ListResponse>): (d': Directory)
    ensures d'.Keys == d.Keys + Ids(events)
  {
    if events == [] then d
    else
      var last := events[|events| - 1];
      Accumulate(d, events[..|events| - 1])[last.data.id := last.data]
  }

  /** The record of the last of `events` that is about `id`, if any. */
  function Latest(events: seq<ListResponse>, id: PeerId): (r: Option<Peer>)
    ensures r.Some? <==> id in Ids(events)
    ensures r.Some? ==> r.value.id == id
    ensures r.Some? ==> exists i | 0 <= i < |events| ::
      events[i].data == r.value && forall j | i < j < |events| :: events[j].data.id != id
  {
    if events == [] then None
    else
      var last := events[|events| - 1];
      if last.data.id == id then Some(last.data)
      else
        assert events == events[..|events| - 1] + [last];
        Latest(events[..|events| - 1], id)
  }

  /**
   * Last writer wins: after a run of events, `id` maps to the record of the
   * last event about it, or keeps its old entry when no event is about it.
   */
  lemma {:induction false} AccumulateAt(d: Directory, events: seq<ListResponse>, id: PeerId)
    ensures id in Accumulate(d, events) <==> id in d || id in Ids(events)
    ensures id in Accumulate(d, events) ==>
      Accumulate(d, events)[id] == if id in Ids(events) then Latest(events, id).value else d[id]
  {
    if events != [] {
      var init := events[..|events| - 1];
      assert events == init + [events[|events| - 1]];
      AccumulateAt(d, init, id);
    }
  }

  /** Handling the same run of events a second time changes nothing. */
  lemma AccumulateIdempotent(d: Directory, events: seq<ListResponse>)
    ensures Accumulate(Accumulate(d, events), events) == Accumulate(d, events)
  {
    var once := Accumulate(d, events);
    forall id | true
      ensures id in Accumulate(once, events) <==> id in once
      ensures id in once ==> Accumulate(once, events)[id] == once[id]
    {
      AccumulateAt(d, events, id);
      AccumulateAt(once, events, id);
    }
  }

  /**
   * From an empty directory, events about pairwise distinct peers leave
   * exactly those peers, each with its own record, whatever their order.
   */
  lemma AccumulateDistinct(events: seq<ListResponse>)
    requires forall i, j | 0 <= i < j < |events| :: events[i].data.id != events[j].data.id
    ensures Accumulate(map[], events).Keys == Ids(events)
    ensures forall i | 0 <= i < |events| :: Accumulate(map[], events)[events[i].data.id] == events[i].data
  {
    forall id | true
      ensures id in Accumulate(map[], events) <==> id in Ids(events)
    {
      AccumulateAt(map[], events, id);
    }
    forall i | 0 <= i < |events|
      ensures Accumulate(map[], events)[events[i].data.id] == events[i].data
    {
      var id := events[i].data.id;
      AccumulateAt(map[], events, id);
      var k :| 0 <= k < |events| && events[k].data == Latest(events, id).value;
    }
  }

  /** A command's own prefix-stripping: `Some(rest)` exactly when `s` is `prefix + rest`. */
  function StripPrefix(s: string, prefix: string): (rest: Option<string>)
    ensures rest.Some? <==> prefix <= s
    ensures rest.Some? ==> s == prefix + rest.value
  {
    if prefix <= s then Some(s[|prefix|..]) else None
  }

  /** The console's `send` command word, with its trailing space. */
  const SEND_PREFIX: string := "send "

  /**
   * `handle_message_send`: a line `send <text>` publishes one broadcast of
   * `<text>` from `hostname`; any other line publishes nothing.
   */
  method HandleMessageSend(cmd: string, hostname: string, swarm: PeerStatusBehaviour)
    modifies swarm`published
    ensures SEND_PREFIX <= cmd ==>
      swarm.published == old(swarm.published) + [Publication(TOPIC, SendMessage(MessageRequest(cmd[|SEND_PREFIX|..], hostname)))]
    ensures !(SEND_PREFIX <= cmd) ==> swarm.published == old(swarm.published)
  {
    var rest := StripPrefix(cmd, SEND_PREFIX);
    match rest
    case Some(content) =>
      swarm.Publish(SendMessage(MessageRequest(content, hostname)));
    case None =>
  }

  /** Turns a set of ids into a vector: every id once, in some order. */
  method CollectIds(peers: set<PeerId>) returns (ids: seq<string>)
    ensures forall p :: p in ids <==> p in peers
    ensures NoDuplicates(ids)
    ensures |ids| == |peers|
  {
    ids := [];
    var rest := peers;
    while rest != {}
      invariant rest <= peers
      invariant forall p :: p in ids <==> p in peers - rest
      invariant NoDuplicates(ids)
      invariant |ids| + |rest| == |peers|
      decreases |rest|
    {
      var p :| p in rest;
      assert p !in ids;
      assert |rest - {p}| == |rest| - 1;
      ids := ids + [p];
      rest := rest - {p};
    }
  }

  /** `P2PNetwork`, the actor: the swarm (with its behaviour) and the directory. */
  class P2PNetwork {
    const swarm: PeerStatusBehaviour
    var peerInfoResponses: Directory

    /**
     * Each record is stored under its own id, and the only id ever stored is
     * this node's: the directory is fed by the replies this node itself
     * queues, never by the responses it receives.
     */
    ghost predicate Valid()
      reads this, swarm
    {
      && swarm.Valid()
      && forall id | id in peerInfoResponses :: id == swarm.peerId && peerInfoResponses[id].id == id
    }

    constructor (peerId: PeerId, description: string)
      ensures Valid() && fresh(swarm)
      ensures swarm.peerId == peerId && swarm.description == description
      ensures swarm.partialView == {} && swarm.published == [] && swarm.discoveredNodes == [] && swarm.responses == []
      ensures peerInfoResponses == map[]
    {
      swarm := new PeerStatusBehaviour(peerId, description);
      peerInfoResponses := map[];
    }

    /** `handle_list_peers`: the peers mdns knows, each once. */
    method HandleListPeers() returns (peers: set<PeerId>)
      ensures forall p :: p in peers <==> swarm.HasNode(p)
    {
      var nodes := swarm.discoveredNodes;
      peers := {};
      for i := 0 to |nodes|
        invariant forall p :: p in peers <==> p in nodes[..i]
      {
        assert nodes[..i + 1] == nodes[..i] + [nodes[i]];
        peers := peers + {nodes[i]};
      }
      assert nodes[..|nodes|] == nodes;
    }

    /** `send_peer_list_request`: publish one request to all nodes. */
    method SendPeerListRequest()
      modifies swarm`published
      ensures swarm.published == old(swarm.published) + [Publication(TOPIC, SendRequest(PeerListRequest(All)))]
    {
      swarm.Publish(SendRequest(PeerListRequest(All)));
    }

    /**
     * `handle_command`.  Listing peers and reading the directory change
     * nothing; a status request publishes one `All` request, answers
     * `Ok(())` and then empties the directory, whatever it held.
     */
    method HandleCommand(command: Command) returns (reply: Reply)
      requires Valid()
      modifies this`peerInfoResponses, swarm`published
      ensures Valid()
      ensures command.GetAllPeerIds? ==>
        && reply.PeerIds?
        && (forall p :: p in reply.ids <==> swarm.HasNode(p))
        && NoDuplicates(reply.ids)
        && peerInfoResponses == old(peerInfoResponses) && swarm.published == old(swarm.published)
      ensures command.SendPeerInfoRequest? ==>
        && reply == Sent(Ok(()))
        && swarm.published == old(swarm.published) + [Publication(TOPIC, SendRequest(PeerListRequest(All)))]
        && peerInfoResponses == map[]
      ensures command.GetPeerInfoResponses? ==>
        && reply == PeerInfo(old(peerInfoResponses))
        && peerInfoResponses == old(peerInfoResponses) && swarm.published == old(swarm.published)
    {
      match command
      case GetAllPeerIds =>
        var peers := HandleListPeers();
        var ids := CollectIds(peers);
        reply := PeerIds(ids);
      case SendPeerInfoRequest =>
        SendPeerListRequest();
        reply := Sent(Ok(()));
        peerInfoResponses := map[];
      case GetPeerInfoResponses =>
        reply := PeerInfo(peerInfoResponses);
    }

    /**
     * `handle_event`: publish the reply the dispatcher queued, then store its record under the
     * record's id, replacing any earlier one; every other entry is kept.
     */
    method HandleEvent(event: ListResponse)
      modifies this`peerInfoResponses, swarm`published
      ensures swarm.published == old(swarm.published) + [Publication(TOPIC, SendResponse(event))]
      ensures peerInfoResponses == old(peerInfoResponses)[event.data.id := event.data]
    {
      swarm.Publish(SendResponse(event));
      peerInfoResponses := peerInfoResponses[event.data.id := event.data];
    }

    /**
     * The reply-channel branch of `listen`: take the oldest queued reply, if
     * there is one, and handle it.
     */
    method ReceiveResponse() returns (received: bool)
      requires Valid()
      modifies this`peerInfoResponses, swarm`published, swarm`responses
      ensures Valid()
      ensures received <==> old(swarm.responses) != []
      ensures received ==>
        && swarm.responses == old(swarm.responses)[1..]
        && swarm.published == old(swarm.published) + [Publication(TOPIC, SendResponse(old(swarm.responses)[0]))]
        && peerInfoResponses == Accumulate(old(peerInfoResponses), [old(swarm.responses)[0]])
      ensures !received ==>
        swarm.responses == old(swarm.responses) && swarm.published == old(swarm.published)
        && peerInfoResponses == old(peerInfoResponses)
    {
      if swarm.responses == [] {
        return false;
      }
      var event := swarm.responses[0];
      swarm.responses := swarm.responses[1..];
      HandleEvent(event);
      received := true;
    }
  }

  /**
   * Node "p1" asks for status; node "p2" (host "h2", description "d2")
   * hears the request, queues its reply and its actor handles it; "p1"
   * then hears that reply.  The record lands in p2's own directory, and
   * p1's stays empty: a response is only logged by the node it reaches.
   */
  method TwoNodeExchange() returns (atRequester: Directory, atResponder: Directory)
    ensures atRequester == map[]
    ensures atResponder == map["p2" := Peer("p2", "h2", "d2")]
  {
    var n1 := new P2PNetwork("p1", "d1");
    var n2 := new P2PNetwork("p2", "d2");
    var ack := n1.HandleCommand(SendPeerInfoRequest);
    var request := n1.swarm.published[|n1.swarm.published| - 1].message;
    n2.swarm.InjectFloodsubEvent(Message("p1", Encode(request)), "h2");
    var handled := n2.ReceiveResponse();
    var response := n2.swarm.published[|n2.swarm.published| - 1].message;
    n1.swarm.InjectFloodsubEvent(Message("p2", Encode(response)), "h1");
    handled := n1.ReceiveResponse();
    var r1 := n1.HandleCommand(GetPeerInfoResponses);
    var r2 := n2.HandleCommand(GetPeerInfoResponses);
    atRequester, atResponder := r1.responses, r2.responses;
  }
}
