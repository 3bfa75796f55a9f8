# Mesh signaling relay: peer registry and message routing

This project models the core of a WebSocket signaling server for WebRTC
meshes. The server keeps a registry of connected peers. It assigns each new
connection an id, welcomes it with the ids of everyone already present and
announces it to them. It forwards a peer's messages to one named peer
(unicast) or to everyone except the message's `from` (broadcast). When a
connection closes, it tells the remaining peers. The connection handler,
message handler, close handler and the `broadcastExcept` fan-out all live in
`ws-signal-server.js`.

The model has two modules:

- `Signaling` (protocol.dfy) holds values and pure specification functions.
  It defines inbound messages (`Msg`, with the fields `to`, `from` and
  `type`, plus an opaque rest), parse outcomes (`Frame`), outbound envelopes
  (`Welcome`, `NewPeer`, `PeerLeft`, `Forward`) and deliveries. It also
  defines the functions that say which sends each event makes (`Fanout`,
  `ConnectOutput`, `CloseOutput`, `Route`, `Deliveries`), and the lemmas
  about them.
- `SignalServer` (relay.dfy) holds the class `Relay`. It has the registry as
  a map from id to an "is OPEN" flag, the Map's insertion order as a
  sequence, and an outbox that records every `send` call. Its methods are the
  event handlers. They update these fields in place, and their ensures tie
  the new state to the functions of `Signaling`. `BroadcastExcept` is the loop
  over `peers.entries()`, with its invariant.

A field value is a `Field`. It is either absent, a string, or some other
JSON value, and for the last kind only its truthiness matters. This is all
routing can observe: `msg.to && peers.has(msg.to)` needs a non-empty string
that is a registered key. `msg.type === 'broadcast'` and `peerId !== senderId`
compare strings strictly. A JSON value that is not an object (a number, a
string, an array) has none of the three fields, so it is a `Msg` whose fields
are all absent.

The socket's readyState is a per-peer boolean. A new connection is
registered as OPEN. The environment method `Relay.SocketLeavesOpen` clears the
flag when the transport starts closing a socket before its close event
arrives. The broadcast loop skips such peers. Unicast (line 58) does not check
readyState, so the model records a unicast send to such a peer as well.

A few facts about the code shape the model:

- The close handler deletes the id unconditionally and broadcasts
  `peer-left` even when the id was already absent (lines 69-75).
  `Signaling.CloseAbsent` and `Signaling.CloseDeliveries` cover that case.
- Only the lower-case keys `to`, `from` and `type` are read (lines 56-61).
- The `new-peer` broadcast runs even when nobody else is connected (line 42).
  It then sends nothing.
- The relay answers no query besides the welcome it sends on connect.

## Model

| member | source | states |
|---|---|---|
| SignalServer.Relay.constructor | ws-signal-server.js:14-15 | the registry starts empty, with no sends |
| SignalServer.Relay.BroadcastExcept | ws-signal-server.js:21-27 | the outbox grows by exactly `Fanout(order, open, exclude, env)`: in Map order, one send of `env` to each registered id that is OPEN and not the excluded string; the registry is untouched |
| SignalServer.Relay.Register | ws-signal-server.js:31 | `peers.set` of a fresh id: it becomes registered and OPEN, goes last in insertion order, and every earlier entry is kept |
| SignalServer.Relay.Connect | ws-signal-server.js:29-45 | given a fresh id: the new registry is the old one plus the id, appended last; the outbox grows by the welcome (listing `Others(order, id)`, which is proved to be the old order) followed by the `new-peer` fan-out excluding the id |
| SignalServer.Relay.Message | ws-signal-server.js:47-66 | the registry is unchanged (only the outbox may be modified) and stays valid, and the outbox grows by exactly the sends of `Route(frame, open)` |
| SignalServer.Relay.Close | ws-signal-server.js:68-76 | the id is deleted from the map and from the insertion order, which also covers an absent id; the outbox grows by the `peer-left` fan-out over what remains |
| SignalServer.Relay.SocketLeavesOpen | ws-signal-server.js:23 | the OPEN flag of a registered id is cleared, so the broadcast loop's readyState test skips it; an absent id changes nothing; the insertion order and the outbox are untouched, and the registry stays valid |
| Signaling.OthersMembers | ws-signal-server.js:38 | the welcome filter keeps exactly the ids different from the new one |
| Signaling.OthersDistinct | ws-signal-server.js:38 | the filtered list has no duplicates when the registry has none |
| Signaling.OthersOfAppended | ws-signal-server.js:31-38 | after a fresh id is appended, filtering it out gives back exactly the previous ids in insertion order |
| Signaling.OthersAbsent | ws-signal-server.js:69 | removing an id that is not present leaves the insertion order unchanged |
| Signaling.FanoutSends | ws-signal-server.js:21-27 | every send of the fan-out carries the given object to an id of the registry that is OPEN and not excluded |
| Signaling.FanoutCount | ws-signal-server.js:21-27 | over a duplicate-free registry, the fan-out sends to each id exactly once if it is registered, OPEN and not excluded, and zero times otherwise, so closed peers and the excluded id get nothing |
| Signaling.ConnectKeepsRegistry | ws-signal-server.js:30-31 | inserting a fresh id keeps ids unique and keeps the map and the insertion order in agreement |
| Signaling.ConnectFanout | ws-signal-server.js:42-45 | the `new-peer` fan-out over the grown registry, excluding the new id, equals the fan-out over the peers that were there before |
| Signaling.ConnectDeliveries | ws-signal-server.js:35-45 | on connect the first send is the welcome to the new peer; its list is the registry without the new id, in insertion order, and as a set it is exactly the previously registered ids; every OPEN earlier peer gets exactly one send, a `new-peer` carrying the id; the new peer gets only its welcome; nobody else gets anything |
| Signaling.CloseKeepsRegistry | ws-signal-server.js:69 | after the delete the id is not registered, and the registry stays unique and in agreement with the insertion order |
| Signaling.CloseAbsent | ws-signal-server.js:69 | deleting an absent id changes neither the map nor the order |
| Signaling.CloseDeliveries | ws-signal-server.js:68-76 | on close every remaining OPEN peer gets exactly one send, a `peer-left` carrying the closed id; the closed id and non-OPEN peers get none |
| Signaling.NullFrameCrashesAsWritten | ws-signal-server.js:49-56 | the handler as written throws on the frame `null` |
| Signaling.RouteNeverCrashes | ws-signal-server.js:49-54 | the corrected handler never throws and differs from the handler as written only on `null`; unparsable and `null` frames cause no send |
| Signaling.UnicastDelivery | ws-signal-server.js:56-58 | a message whose `to` is a non-empty registered id is sent unchanged to that one peer and to nobody else, even when its `type` is "broadcast" |
| Signaling.FalsyToNeverUnicasts | ws-signal-server.js:56 | a falsy `to` (absent, empty string, 0, false, null) never unicasts; the message is then a broadcast or dropped, according to its `type` alone |
| Signaling.BroadcastDelivery | ws-signal-server.js:59-61 | a broadcast that is not a unicast is sent unchanged exactly once to every OPEN registered peer whose id is not the payload's `from`, and to nobody else |
| Signaling.SenderReceivesOwnBroadcast | ws-signal-server.js:61 | because exclusion uses the payload's `from`, an OPEN sender whose `from` is missing or different receives its own broadcast |
| Signaling.UnroutableDropped | ws-signal-server.js:62-65 | a message that is neither a unicast nor a broadcast causes no send |

## Findings

| source | as written | input that shows it | evidently intended | confidence | as-written member | corrected member |
|---|---|---|---|---|---|---|
| ws-signal-server.js:49-56 | only `JSON.parse` is inside the try block; `msg.to` is read after it, and `JSON.parse('null')` returns `null`, so that read throws a TypeError that escapes the message listener, uncaught, and brings down the server | a text frame consisting of `null` | a frame that is not a usable message is dropped, like an unparsable one | not executed; high | Signaling.RouteAsWritten, Signaling.NullFrameCrashesAsWritten | Signaling.Route, Signaling.RouteNeverCrashes |

`Relay.Message` uses the corrected `Route`. For every other frame, `Route`
and `RouteAsWritten` agree.

## Left out

- The HTTP server, the `WebSocket.Server` set-up, `server.listen`, PORT and
  PATH (lines 4-12, 83-85) are I/O plumbing.
- `console.log` calls and the `error` handler (lines 78-80) only log.
- Id generation with `uuidv4` is left out. `Connect` takes the id as a
  parameter and requires that it is not registered.
- `JSON.parse` is not modelled. Its outcome is the `Frame` that `Message`
  receives.
- `JSON.stringify` is not modelled. An outbound object is an `Envelope`, and a
  forwarded message is the parsed `Msg` itself. The keys other than
  `to`/`from`/`type` are an opaque string.
- `send` and the sockets are not modelled. A send is an entry of the outbox.
  Whether the transport then delivers it (it drops sends to a socket that is
  no longer OPEN) is not modelled.
- The message handler does not consult the id of the connection the frame
  arrived on, so `Message` does not take it.
- Concurrency and backpressure: the handlers run to completion one at a time
  on one event loop, as the model's sequential methods do.
