# p2p-status: the peer-status state machine

A model of the core of `p2p-status`, a peer-to-peer node that finds its
neighbours on the local network with mdns, gossips on a single floodsub
topic (`"recipes"`) and keeps a directory of peer status records.

- `Messages.dfy`: the protocol records (`Peer`, `PeerListMode`,
  `PeerListRequest`, `ListResponse`, `MessageRequest`). An incoming payload
  is one of three things: neither a JSON object nor an array; an object
  seen through its top-level fields; or an array of elements. A decoder
  accepts an object exactly when the fields its record declares are
  present, and it ignores the others. It accepts an array exactly when the
  array holds the record's fields in declaration order, with none missing
  and none extra. `Classify` keeps the source's order:
  response first, then request. `Encode` gives the fields of each message a
  node publishes. `DecodeEncode` proves that a `ListResponse` also decodes
  as a `PeerListRequest` carrying its `mode`. The classification order is
  what stops a response from being answered as a request.
- `PeerStatus.dfy`: the network behaviour, as the class
  `PeerStatusBehaviour`. Its fields are floodsub's partial view and
  publications, mdns's node list and the reply channel to the actor. The
  floodsub handler is the pure decision `Dispatch` plus one channel send.
  The mdns handler loops over the event's peers and updates the partial
  view.
- `Network.dfy`: the actor `P2PNetwork`, which owns the swarm and the
  directory `peerInfoResponses`. It models the three commands, the handling
  of one queued reply, and `handle_message_send`. `Accumulate` is the
  directory after a run of replies, with last-writer-wins, idempotence and
  order-independence lemmas. `TwoNodeExchange` walks one request/response
  round between two nodes.

Behaviour of the code worth knowing:

- The directory is filled only by this node's own outgoing replies. The
  dispatcher queues each reply it builds on the channel to the actor
  (src/behaviors/peer_status.rs:88-100). The actor publishes it and stores
  its record, which is this node's own (src/network/p2p_network.rs:147-155).
  An incoming response addressed to this node is only logged
  (src/behaviors/peer_status.rs:30-37). `P2PNetwork.Valid` states the
  consequence: the directory holds at most one entry, under this node's id.
  `TwoNodeExchange` shows that the requester's directory stays empty.
- A status request always answers `Ok(())`
  (src/network/p2p_network.rs:134-139). The swarm's publish reports no
  failure, so there is no error path to model.
- The dispatcher never publishes. The actor publishes each reply the
  dispatcher queues (src/network/p2p_network.rs:150-153).
- Reading the directory copies it (src/network/p2p_network.rs:142). It does
  not drain it.
- Nothing in the program calls `handle_message_send`
  (src/network/p2p_network.rs:171-189). The stdin reader built at
  src/network/p2p_network.rs:71 is never read. `HandleMessageSend` models
  the function as written, not a live path.
- The decoders also accept arrays, such as `["ALL"]`, which no node
  publishes. Such an array from a peer is answered like an object request.

## Model

| member | source | states |
|---|---|---|
| `Messages.Classify` | src/behaviors/peer_status.rs:30-38 | a payload is a response exactly when the response decoder accepts it, with that decoder's result, even if the request decoder also accepts it; otherwise it is the request decoder's result if that decoder accepts it; it is unrecognised iff both decoders fail |
| `Messages.Encode` | src/responses/list_response.rs:8-12 | the object a published message is sent as; its contract is stated by `DecodeEncode` and `ClassifyEncode` |
| `Messages.DecodeEncode` | src/responses/list_response.rs:8-12 | a published request decodes only as itself; a published response decodes as itself and also as a request with the response's mode (the untagged-wire ambiguity); a broadcast decodes as neither |
| `Messages.ClassifyEncode` | src/behaviors/peer_status.rs:30-38 | classifying what a node published gives back the published request or response, and a broadcast is unrecognised |
| `Messages.ArraysAreDecoded` | src/behaviors/peer_status.rs:30-38 | an array of a mode is classified as a request with that mode (`["ALL"]` is an `All` request), and an array of a mode, a peer and a string is classified as a response |
| `PeerStatus.RespondWithPeerInfo` | src/behaviors/peer_status.rs:88-97 | the reply built for a requester; its contract is stated by `ReplyShape` |
| `PeerStatus.Dispatch` | src/behaviors/peer_status.rs:26-66 | the floodsub handler's decision; its contract is stated by `ResponsesAreNotAnswered`, `AllRequestsAreAnswered`, `OneRequestAnsweredIff`, `ReplyShape`, `IgnoredInput` and `DispatchPublished` |
| `PeerStatus.ResponsesAreNotAnswered` | src/behaviors/peer_status.rs:30-37 | a payload that decodes as a response gets no reply, whoever its receiver is and whether or not it also decodes as a request |
| `PeerStatus.AllRequestsAreAnswered` | src/behaviors/peer_status.rs:41-49 | an `All` request gets exactly one reply, addressed to the message's source |
| `PeerStatus.OneRequestAnsweredIff` | src/behaviors/peer_status.rs:50-60 | a `One(x)` request gets a reply iff `x` is this node's id |
| `PeerStatus.ReplyShape` | src/behaviors/peer_status.rs:88-97 | every reply has mode `All` (also for a `One` request), carries this node's id, the host name and this node's description, and goes to the requester |
| `PeerStatus.IgnoredInput` | src/behaviors/peer_status.rs:28-64 | undecodable payloads and events other than messages get no reply |
| `PeerStatus.DispatchPublished` | src/behaviors/peer_status.rs:26-66 | an `All` request another node published is answered with this node's record; a published response or broadcast is never answered |
| `PeerStatus.PeerStatusBehaviour.constructor` | src/network/p2p_network.rs:53-61 | the behaviour starts with this node's id and description, an empty partial view, no publications and an empty reply channel |
| `PeerStatus.PeerStatusBehaviour.Publish` | src/network/p2p_network.rs:150-153 | a publish appends exactly one publication on the topic |
| `PeerStatus.PeerStatusBehaviour.InjectFloodsubEvent` | src/behaviors/peer_status.rs:26-66 | the handler queues the reply `Dispatch` decides on, if any, and changes nothing else; queued replies stay this node's own |
| `PeerStatus.PeerStatusBehaviour.InjectMdnsEvent` | src/behaviors/peer_status.rs:70-85 | `Discovered` adds every listed peer to the partial view and removes none; `Expired` removes exactly the listed peers mdns no longer has; peers mdns still has and unlisted peers stay |
| `Network.Accumulate` | src/network/p2p_network.rs:147-155 | the directory after `handle_event` has run on a sequence of replies holds exactly the old ids and the ids the replies are about; values are stated by `AccumulateAt`, `AccumulateIdempotent` and `AccumulateDistinct` |
| `Network.AccumulateAt` | src/network/p2p_network.rs:147-155 | after a run of replies, an id is in the directory iff it was there or some reply is about it, and it maps to the record of the last reply about it, or keeps its old record |
| `Network.AccumulateIdempotent` | src/network/p2p_network.rs:154 | handling the same replies a second time leaves the directory as it was after the first time |
| `Network.AccumulateDistinct` | src/network/p2p_network.rs:154 | from an empty directory, replies about distinct peers leave exactly those peers, each with its own record, in any arrival order |
| `Network.StripPrefix` | src/network/p2p_network.rs:172 | the stripped rest exists iff the line starts with the prefix, and prefix plus rest gives back the line |
| `Network.HandleMessageSend` | src/network/p2p_network.rs:171-189 | a line starting with `"send "` publishes exactly one broadcast of the rest of the line; any other line publishes nothing |
| `Network.CollectIds` | src/network/p2p_network.rs:131 | the vector holds every id of the set, each once, and nothing else |
| `Network.P2PNetwork.constructor` | src/network/p2p_network.rs:83-91 | the actor starts with an empty directory and a fresh behaviour |
| `Network.P2PNetwork.HandleListPeers` | src/network/p2p_network.rs:116-123 | the result holds exactly the peers mdns has, with duplicates gone |
| `Network.P2PNetwork.SendPeerListRequest` | src/network/p2p_network.rs:157-166 | appends exactly one `All` request to the publications |
| `Network.P2PNetwork.HandleCommand` | src/network/p2p_network.rs:125-145 | listing peers returns each discovered peer once and changes nothing; a status request publishes one `All` request, answers `Ok(())` and leaves the directory empty whatever it held; reading returns the current directory and changes nothing |
| `Network.P2PNetwork.HandleEvent` | src/network/p2p_network.rs:147-155 | publishes the reply itself once, and maps the record's id to the record, overwriting any earlier entry and keeping every other one |
| `Network.P2PNetwork.ReceiveResponse` | src/network/p2p_network.rs:99-102 | the oldest queued reply, if any, is taken off the channel and handled; the directory still holds only this node's own record |
| `Network.TwoNodeExchange` | src/network/p2p_network.rs:125-155 | after one request and reply between two nodes, the responder's directory holds its own record and the requester's is empty |

## Left out

- Swarm and transport set-up in `P2PNetwork::new` (TCP, noise, mplex, mdns,
  listening socket) and the key pair and peer id it generates: the peer id,
  description and topic are parameters and constants.
- The `listen` select loop and its channels: each branch is a separate
  step. Only the reply-channel branch (`ReceiveResponse`) and the command
  branch (`HandleCommand`) are modelled. The raw swarm-event branch only
  logs. Shutting down when a channel closes is not modelled.
- The `Client` proxy and the reply slots of `Command`. A reply is the
  method's return value.
- Panics from `.expect` on dropped channels, and the error that
  `respond_with_peer_info` logs when the reply channel is closed. The
  channel is modelled as always open.
- JSON text and serde. A payload is reduced to one of three forms: neither
  an object nor an array, an object's top-level fields, or an array's
  elements. Object decoding is modelled by field presence, with unknown
  fields ignored, which is serde's default for these records. Array
  decoding is modelled by element count and order. Duplicate fields and
  the text-level grammar are not modelled.
- Floodsub and mdns internals. Subscription, delivery to peers, and how the
  partial view affects delivery are not modelled. mdns's node list changes
  only through mdns itself; the model only reads it.
- The host name lookup, and the panic of its UTF-8 conversion: the host
  name is a parameter.
- Logging; the admin HTTP server and `main`, which are not part of this model.
- `CollectIds`: the order of the vector is left open, as the source's
  hash-set iteration order is.
