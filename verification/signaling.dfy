/**
 The Socket.io signaling server of app/api/route.js as a pure step function.

 The server holds one registry, `users`, a `Map` from username to socket id
 kept in insertion order, and on each socket a `username` property that is
 set when that socket registers. Each inbound event from one socket yields
 the next state and the list of messages the server emits, either to one
 socket or to every connected socket.
 */
module Signaling {
  import opened Optional
  import OrderedMap

  type Username = string

  /** Socket.io assigns every connection a non-empty id. */
  type SocketId = id: string | id != "" witness "socket"

  /** A negotiation payload (session description or ICE candidate), never inspected. */
  type Json = string

  /** JavaScript truthiness of a string: only the empty string is falsy. */
  predicate Truthy(s: string): (b: bool)
    ensures b <==> |s| > 0
  {
    s != ""
  }

  /**
   `users` is the registry; `usernames` holds `socket.username` for each
   socket that set it (a socket absent from it has `username` undefined).
   */
  datatype State = State(users: OrderedMap.Entries<Username, SocketId>, usernames: map<SocketId, Username>)

  /** Events a client socket raises, with their payloads. */
  datatype Event =
    | Register(username: Username)
    | Offer(to: Username, offer: Json)
    | Answer(to: Username, answer: Json)
    | IceCandidate(to: Username, candidate: Json)
    | Disconnect

  /** Events the server emits, with their payloads. */
  datatype Message =
    | Users(names: seq<Username>)
    | UsernameError(reason: string)
    | OfferMsg(from: Option<Username>, offer: Json)
    | AnswerMsg(answer: Json)
    | IceCandidateMsg(candidate: Json)

  /** One emission: to a single socket, or to every connected socket. */
  datatype Emission = Unicast(target: SocketId, msg: Message) | Broadcast(msg: Message)

  /** The state after an event and what the server emitted while handling it. */
  datatype Reaction = Reaction(state: State, out: seq<Emission>)

  const Initial: State := State([], map[])

  const UsernameTaken: string := "Username already taken"

  /**
   The server's invariant: a name has at most one entry, a socket id is
   the value of at most one entry, and a socket whose `username` is set
   is the socket registered under that name.
   */
  ghost predicate Valid(s: State) {
    && OrderedMap.UniqueKeys(s.users)
    && OrderedMap.UniqueValues(s.users)
    && forall id :: id in s.usernames ==> OrderedMap.Get(s.users, s.usernames[id]) == Some(id)
  }

  /** `socket.username` of socket `sid`. */
  function BoundName(s: State, sid: SocketId): (r: Option<Username>)
    ensures r.Some? <==> sid in s.usernames
    // a set `username` names the caller's own registry entry
    ensures Valid(s) && r.Some? ==> OrderedMap.Get(s.users, r.value) == Some(sid)
  {
    if sid in s.usernames then Some(s.usernames[sid]) else None
  }

  /** The registry snapshot sent as the `users` event. */
  function Snapshot(s: State): (e: Emission)
    ensures e.Broadcast? && e.msg.Users?
    ensures forall n :: n in e.msg.names <==> OrderedMap.Get(s.users, n).Some?
  {
    Broadcast(Users(OrderedMap.Keys(s.users)))
  }

  /** The `register` handler. */
  function OnRegister(s: State, sid: SocketId, name: Username): (r: Reaction)
    // a socket that already owns an entry is ignored
    ensures sid in OrderedMap.Values(s.users) ==> r == Reaction(s, [])
    // a taken name is refused to the caller alone, without any state change
    ensures sid !in OrderedMap.Values(s.users) && name in OrderedMap.Keys(s.users) ==>
      r == Reaction(s, [Unicast(sid, UsernameError(UsernameTaken))])
    // otherwise the name is appended, bound to the socket, and the list broadcast
    ensures sid !in OrderedMap.Values(s.users) && name !in OrderedMap.Keys(s.users) ==>
      && r.state.users == s.users + [(name, sid)]
      && r.state.usernames == s.usernames[sid := name]
      && r.out == [Snapshot(r.state)]
  {
    if sid in OrderedMap.Values(s.users) then Reaction(s, [])
    else if name in OrderedMap.Keys(s.users) then
      Reaction(s, [Unicast(sid, UsernameError(UsernameTaken))])
    else
      OrderedMap.SetAbsentAppends(s.users, name, sid);
      var s' := State(OrderedMap.Set(s.users, name, sid), s.usernames[sid := name]);
      Reaction(s', [Snapshot(s')])
  }

  /**
   The common shape of the three relays: look `to` up in the registry and,
   when the socket id found is truthy, emit `msg` to that socket alone.
   */
  function Forward(s: State, to: Username, msg: Message): (out: seq<Emission>)
    ensures to !in OrderedMap.Keys(s.users) ==> out == []
    ensures to in OrderedMap.Keys(s.users) ==> |out| == 1 && out[0].Unicast? && out[0].msg == msg
    ensures forall e :: e in out ==> (to, e.target) in s.users
  {
    var target := OrderedMap.Get(s.users, to);
    if target.Some? && Truthy(target.value) then [Unicast(target.value, msg)] else []
  }

  /** The `offer` handler: relay with the sender's `username` as `from`. */
  function OnOffer(s: State, sid: SocketId, to: Username, offer: Json): (r: Reaction)
    ensures r.state == s
    ensures |r.out| <= 1
    ensures forall e :: e in r.out ==> e.Unicast? && e.msg == OfferMsg(BoundName(s, sid), offer)
  {
    Reaction(s, Forward(s, to, OfferMsg(BoundName(s, sid), offer)))
  }

  /** The `answer` handler: relay the answer alone, without a sender. */
  function OnAnswer(s: State, to: Username, answer: Json): (r: Reaction)
    ensures r.state == s
    ensures |r.out| <= 1
    ensures forall e :: e in r.out ==> e.Unicast? && e.msg == AnswerMsg(answer)
  {
    Reaction(s, Forward(s, to, AnswerMsg(answer)))
  }

  /** The `ice-candidate` handler: relay the candidate alone, without a sender. */
  function OnIceCandidate(s: State, to: Username, candidate: Json): (r: Reaction)
    ensures r.state == s
    ensures |r.out| <= 1
    ensures forall e :: e in r.out ==> e.Unicast? && e.msg == IceCandidateMsg(candidate)
  {
    Reaction(s, Forward(s, to, IceCandidateMsg(candidate)))
  }

  /**
   The `disconnect` handler: delete the entry of the socket's `username`
   when that name is truthy, then broadcast the list in every case. The
   socket itself is gone, so its `username` is dropped too.
   */
  function OnDisconnect(s: State, sid: SocketId): (r: Reaction)
    ensures r.out == [Snapshot(r.state)]
    ensures r.state.usernames == s.usernames - {sid}
    ensures sid in s.usernames && Truthy(s.usernames[sid]) ==>
      && s.usernames[sid] !in OrderedMap.Keys(r.state.users)
      && forall n :: n != s.usernames[sid] ==> OrderedMap.Get(r.state.users, n) == OrderedMap.Get(s.users, n)
    ensures !(sid in s.usernames && Truthy(s.usernames[sid])) ==> r.state.users == s.users
  {
    var users' :=
      if sid in s.usernames && Truthy(s.usernames[sid])
      then OrderedMap.Delete(s.users, s.usernames[sid])
      else s.users;
    var s' := State(users', s.usernames - {sid});
    Reaction(s', [Snapshot(s')])
  }

  /** Dispatch one event raised by socket `sid`. */
  function Step(s: State, sid: SocketId, e: Event): (r: Reaction)
    ensures !e.Register? && !e.Disconnect? ==> r.state == s
    ensures |r.out| <= 1
  {
    match e
    case Register(name) => OnRegister(s, sid, name)
    case Offer(to, offer) => OnOffer(s, sid, to, offer)
    case Answer(to, answer) => OnAnswer(s, to, answer)
    case IceCandidate(to, candidate) => OnIceCandidate(s, to, candidate)
    case Disconnect => OnDisconnect(s, sid)
  }
}
