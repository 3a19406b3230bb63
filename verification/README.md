# distortedvoice signaling server — a Dafny model

The distortedvoice app is a browser voice-call app. Its server side is a
Socket.io signaling server (`app/api/route.js`). The server keeps one
registry, `users`: a JavaScript `Map` from username to socket id. It
handles five events from each connected socket:

- `register(username)` claims a name;
- `offer`, `answer` and `ice-candidate` are WebRTC negotiation messages,
  relayed to the socket registered under the payload's `to` name;
- `disconnect` drops the socket's name.

Whenever membership changes, the full list of names is broadcast as `users`.

The model is a pure state machine. `Signaling.Step(state, socket, event)`
returns the next state and the emissions, which are either sent to one
socket (`Unicast`) or to everyone (`Broadcast`). The parts are:

- `optional.dfy`: `Option`, which stands in for JavaScript's `undefined`.
- `ordered_map.dfy`: a JavaScript `Map` as an insertion-ordered list of
  entries. This matters because `[...users.keys()]`, the broadcast list,
  follows insertion order.
- `signaling.dfy`: the state, the events, the messages, the five handlers
  and the invariant `Valid`. `Valid` says names are unique keys, socket
  ids are unique values, and every bound `socket.username` resolves back
  to its own socket.
- `properties.dfy`: invariant preservation, and what each event emits, to
  whom, and what it leaves unchanged.
- `traces.dfy`: runs over event sequences, and worked scenarios.

Modelling choices:

- Socket ids are non-empty strings, because Socket.io always assigns a
  non-empty id. So the truthiness test `if (targetId)` holds exactly when
  the name is found. The test is still written out, as `Truthy`.
- `socket.username` is the map `State.usernames`. A disconnected socket
  is removed from it, because Socket.io delivers no further events from
  that socket.
- The guard `if (socket.username)` on disconnect is modelled literally.
  A socket registered under the empty string keeps its entry after it
  disconnects. The server does no length check; only the browser client
  does.

The browser client emits `end-call` (app/page.js:181) and listens for
`call-ended` (app/page.js:56), but the server has no handler for either
and keeps no record of who is in a call with whom, so the model has
neither.

## Model

| member | source | states |
|---|---|---|
| OrderedMap.Keys | app/api/route.js:36 | `[...users.keys()]` lists exactly the key of each entry, position by position, in insertion order |
| OrderedMap.Values | app/api/route.js:30 | `[...users.values()]` lists exactly the socket id of each entry, in insertion order |
| OrderedMap.Get | app/api/route.js:41 | `users.get(to)` is defined exactly when `to` is a key, and then returns the value of an entry carrying `to` |
| OrderedMap.Set | app/api/route.js:34 | `users.set` keeps the key order when the key is present and appends the key otherwise; every other key maps as before |
| OrderedMap.GetAfterSet | app/api/route.js:34 | after `users.set(k, v)`, `users.get(k)` returns `v` |
| OrderedMap.Delete | app/api/route.js:57 | `users.delete` leaves the key absent, every other key mapped as before, and adds no entry |
| OrderedMap.GetFindsEntry | app/api/route.js:4 | with unique keys, every stored entry is what `get` returns for its key |
| OrderedMap.SetAbsentAppends | app/api/route.js:31-34 | `set` on a name that is not yet a key appends the entry at the end of the insertion order |
| OrderedMap.DeleteAt | app/api/route.js:57 | with unique keys, `delete` removes exactly the one entry with that key and keeps all other entries in order |
| OrderedMap.DeleteKeepsUnique | app/api/route.js:57 | deleting a key keeps keys unique and values unique |
| OrderedMap.AppendKeepsUnique | app/api/route.js:34 | appending a fresh name with a fresh socket id keeps keys unique and values unique |
| Signaling.BoundName | app/api/route.js:42 | `socket.username`, the `from` of an offer, is undefined for a socket that never registered; under the invariant a set `username` resolves in the registry to the caller's own socket |
| Signaling.Snapshot | app/api/route.js:36 | the `users` broadcast goes to everyone and lists exactly the currently registered names |
| Signaling.OnRegister | app/api/route.js:29-38 | a socket that already owns an entry is ignored with no emission; a taken name gets one `username-error` "Username already taken" to the caller only, with no state change; otherwise the pair is appended, the socket is bound to the name and the new list is broadcast |
| Signaling.Forward | app/api/route.js:41-42 | a relay to an unregistered name emits nothing; a relay to a registered name emits exactly one unicast, to a socket registered under that name |
| Signaling.OnOffer | app/api/route.js:40-43 | an `offer` leaves the state unchanged and emits at most one unicast `{from: sender's username or none, offer}` |
| Signaling.OnAnswer | app/api/route.js:45-48 | an `answer` leaves the state unchanged and emits at most one unicast `{answer}`, with no sender |
| Signaling.OnIceCandidate | app/api/route.js:50-53 | an `ice-candidate` leaves the state unchanged and emits at most one unicast `{candidate}`, with no sender |
| Signaling.OnDisconnect | app/api/route.js:55-59 | `disconnect` always broadcasts the remaining list and drops the socket's binding; a truthy bound name loses its entry while every other name resolves as before; otherwise the registry is untouched |
| Signaling.Step | app/api/route.js:26-60 | only `register` and `disconnect` can change the state, and no event emits more than one message |
| SignalingProperties.LookupTestIsFound | app/api/route.js:41-42 | the `if (targetId)` truthiness test after `users.get(to)` passes exactly when `to` is a registered name (likewise at lines 46-47 and 51-52) |
| SignalingProperties.InitialValid | app/api/route.js:4 | the empty registry satisfies the invariant |
| SignalingProperties.RegisterKeepsValid | app/api/route.js:29-38 | `register` keeps names unique, socket ids unique and bindings consistent with the registry |
| SignalingProperties.DisconnectKeepsValid | app/api/route.js:55-59 | `disconnect` keeps names unique, socket ids unique and bindings consistent with the registry |
| SignalingProperties.StepKeepsValid | app/api/route.js:29-59 | every event keeps the invariant |
| SignalingProperties.OneNamePerSocket | app/api/route.js:30 | under the invariant a socket id is the value of at most one entry |
| SignalingProperties.RegisterBroadcastsNameOnce | app/api/route.js:33-36 | a successful `register` broadcasts the old list followed by the new name, so the name appears exactly once; the name then resolves to the caller and the caller is bound to it |
| SignalingProperties.RejectedRegisterChangesNothing | app/api/route.js:30-32 | an ignored or refused `register` changes no state and emits at most a `username-error` to the caller |
| SignalingProperties.OfferReachesOwner | app/api/route.js:40-43 | an `offer` to a registered name emits exactly `{from, offer}` to that name's socket |
| SignalingProperties.AnswerReachesOwner | app/api/route.js:45-48 | an `answer` to a registered name emits exactly `{answer}` to that name's socket |
| SignalingProperties.IceCandidateReachesOwner | app/api/route.js:50-53 | an `ice-candidate` to a registered name emits exactly `{candidate}` to that name's socket |
| SignalingProperties.RelayToUnknownIsDropped | app/api/route.js:40-53 | a relay to an unregistered name emits nothing and changes nothing |
| SignalingProperties.DisconnectRemovesOwnEntry | app/api/route.js:55-58 | disconnecting a socket bound to the non-empty name of entry `i` removes exactly entry `i`, and the other entries keep their order |
| SignalingProperties.BoundSocketHasEntry | app/api/route.js:34-35 | under the invariant, every socket with a `username` owns the registry entry for that name |
| SignalingProperties.DisconnectKeepsEmptyName | app/api/route.js:57 | a socket bound to the empty name keeps its entry after disconnect, and that name still appears in the broadcast |
| Traces.StepBroadcastsSnapshot | app/api/route.js:36 | every `users` message an event emits lists the registry that event leaves behind |
| Traces.Run | app/api/route.js:26-60 | events from all sockets are handled one at a time; an empty run changes nothing, and a run emits at most one message per event |
| Traces.RunKeepsValid | app/api/route.js:26-60 | any sequence of events from a valid state ends in a valid state |
| Traces.BroadcastListsDistinct | app/api/route.js:58 | in any run from a valid state, no broadcast `users` list names a user twice |
| Traces.AliceThenBobRegister | app/api/route.js:29-38 | registering alice and then bob broadcasts `["alice"]`, then `["alice", "bob"]` |
| Traces.AliceAndBobNegotiate | app/api/route.js:40-53 | alice's offer reaches bob with `from` set to alice; bob's answer and candidates reach alice |
| Traces.AliceLeaves | app/api/route.js:55-59 | when alice disconnects, the broadcast list becomes `["bob"]` |
| Traces.AnonymousOffer | app/api/route.js:42 | an offer from a socket that never registered carries no `from` |
| Traces.DuplicateDave | app/api/route.js:31-32 | a second "dave" gets "Username already taken"; the first socket keeps the name |

## Left out

- Server start-up is not modelled: creating the Socket.io server, the singleton check on `res.socket.server.io`, path and CORS options, `bodyParser` and `res.end()`. These are framework plumbing (lines 6-25, 61-64).
- `console.log` calls are not modelled. They are logging only.
- Message delivery is not modelled. `socket.emit`, `io.to(id).emit` and `io.emit` become `Unicast` and `Broadcast` values, with no network, no buffering and no cross-socket ordering.
- Liveness of sockets is not tracked. The model accepts events from any socket id, although in reality the transport stops a disconnected socket from raising events.
- Payloads are strings only. Usernames and `to` fields are strings, and negotiation payloads are uninterpreted strings. JavaScript would accept any value, including a missing `to`, and a missing payload object would make the destructuring handler throw. None of that is modelled.
- `app/page.js` (the React client) is not part of this model. It contains the UI, WebRTC negotiation, audio pitch-shifting, and the client-side minimum name length of 3.
- Call pairing, busy-peer rejection and `end-call` are not modelled, because the server code has no such state or handlers.
