/**
 Properties of the signaling server's handlers: the registry invariant that
 every event keeps, what each event emits and to whom, and what it leaves
 unchanged.
 */
module SignalingProperties {
  import opened Optional
  import OrderedMap
  import opened Signaling

  /** The server starts with an empty registry and no bound sockets. */
  lemma InitialValid()
    ensures Valid(Initial)
    ensures Initial.users == [] && OrderedMap.Keys(Initial.users) == []
  {
  }

  /**
   The `if (targetId)` test of the relays passes exactly when `to` is a
   registered name, because socket ids are never empty.
   */
  lemma LookupTestIsFound(s: State, to: Username)
    ensures var t := OrderedMap.Get(s.users, to);
      (t.Some? && Truthy(t.value)) <==> to in OrderedMap.Keys(s.users)
  {
  }

  /** A successful registration keeps the invariant. */
  lemma RegisterKeepsValid(s: State, sid: SocketId, name: Username)
    requires Valid(s)
    ensures Valid(OnRegister(s, sid, name).state)
  {
    var r := OnRegister(s, sid, name);
    if sid !in OrderedMap.Values(s.users) && name !in OrderedMap.Keys(s.users) {
      var users' := s.users + [(name, sid)];
      OrderedMap.AppendKeepsUnique(s.users, name, sid);
      forall id | id in r.state.usernames
        ensures OrderedMap.Get(users', r.state.usernames[id]) == Some(id)
      {
        var n := r.state.usernames[id];
        if id != sid {
          assert OrderedMap.Get(s.users, n) == Some(id);
          assert (n, id) in users';
        }
        OrderedMap.GetFindsEntry(users', n, id);
      }
    }
  }

  /** A disconnection keeps the invariant. */
  lemma DisconnectKeepsValid(s: State, sid: SocketId)
    requires Valid(s)
    ensures Valid(OnDisconnect(s, sid).state)
  {
    var r := OnDisconnect(s, sid);
    if sid in s.usernames && Truthy(s.usernames[sid]) {
      var gone := s.usernames[sid];
      OrderedMap.DeleteKeepsUnique(s.users, gone);
      forall id | id in r.state.usernames
        ensures OrderedMap.Get(r.state.users, r.state.usernames[id]) == Some(id)
      {
        var n := r.state.usernames[id];
        assert OrderedMap.Get(s.users, n) == Some(id);
        assert n != gone by {
          assert OrderedMap.Get(s.users, gone) == Some(sid);
        }
      }
    }
  }

  /**
   Every event keeps the invariant: names are unique, each socket id holds
   at most one entry, and each bound socket is the one registered under its
   name.
   */
  lemma StepKeepsValid(s: State, sid: SocketId, e: Event)
    requires Valid(s)
    ensures Valid(Step(s, sid, e).state)
  {
    match e
    case Register(name) => RegisterKeepsValid(s, sid, name);
    case Disconnect => DisconnectKeepsValid(s, sid);
    case _ =>
  }

  /**
   Under the invariant, a socket id owns at most one registry entry: the
   `UniqueValues` conjunct of `Valid`, restated in terms of entries.
   */
  lemma OneNamePerSocket(s: State, n1: Username, n2: Username, id: SocketId)
    requires Valid(s)
    requires (n1, id) in s.users && (n2, id) in s.users
    ensures n1 == n2
  {
    var i :| 0 <= i < |s.users| && s.users[i] == (n1, id);
    var j :| 0 <= j < |s.users| && s.users[j] == (n2, id);
    assert s.users[i].1 == s.users[j].1;
  }

  /**
   A successful registration broadcasts the old list followed by the new
   name, which therefore appears in it exactly once, and afterwards the name
   resolves to the caller's socket.
   */
  lemma RegisterBroadcastsNameOnce(s: State, sid: SocketId, name: Username)
    requires Valid(s)
    requires sid !in OrderedMap.Values(s.users) && name !in OrderedMap.Keys(s.users)
    ensures var r := OnRegister(s, sid, name);
      && r.out == [Broadcast(Users(OrderedMap.Keys(s.users) + [name]))]
      && multiset(r.out[0].msg.names)[name] == 1
      && OrderedMap.Get(r.state.users, name) == Some(sid)
      && BoundName(r.state, sid) == Some(name)
  {
    var r := OnRegister(s, sid, name);
    var ks := OrderedMap.Keys(r.state.users);
    assert ks == OrderedMap.Keys(s.users) + [name];
    assert multiset(OrderedMap.Keys(s.users))[name] == 0;
    OrderedMap.AppendKeepsUnique(s.users, name, sid);
    OrderedMap.GetFindsEntry(r.state.users, name, sid);
  }

  /** A registration that fails changes neither the registry nor any binding. */
  lemma RejectedRegisterChangesNothing(s: State, sid: SocketId, name: Username)
    requires sid in OrderedMap.Values(s.users) || name in OrderedMap.Keys(s.users)
    ensures OnRegister(s, sid, name).state == s
    ensures forall e :: e in OnRegister(s, sid, name).out ==> e == Unicast(sid, UsernameError(UsernameTaken))
  {
  }

  /**
   Relays reach exactly the socket registered under `to`; `offer` carries
   the sender's `username`, or none when the sender never registered.
   */
  lemma OfferReachesOwner(s: State, sid: SocketId, to: Username, id: SocketId, offer: Json)
    requires Valid(s)
    requires (to, id) in s.users
    ensures Step(s, sid, Offer(to, offer)).out == [Unicast(id, OfferMsg(BoundName(s, sid), offer))]
  {
    OrderedMap.GetFindsEntry(s.users, to, id);
  }

  lemma AnswerReachesOwner(s: State, sid: SocketId, to: Username, id: SocketId, answer: Json)
    requires Valid(s)
    requires (to, id) in s.users
    ensures Step(s, sid, Answer(to, answer)).out == [Unicast(id, AnswerMsg(answer))]
  {
    OrderedMap.GetFindsEntry(s.users, to, id);
  }

  lemma IceCandidateReachesOwner(s: State, sid: SocketId, to: Username, id: SocketId, candidate: Json)
    requires Valid(s)
    requires (to, id) in s.users
    ensures Step(s, sid, IceCandidate(to, candidate)).out == [Unicast(id, IceCandidateMsg(candidate))]
  {
    OrderedMap.GetFindsEntry(s.users, to, id);
  }

  /** Relays to a name nobody holds are dropped, and no relay touches the state. */
  lemma RelayToUnknownIsDropped(s: State, sid: SocketId, e: Event)
    requires e.Offer? || e.Answer? || e.IceCandidate?
    requires e.to !in OrderedMap.Keys(s.users)
    ensures Step(s, sid, e) == Reaction(s, [])
  {
  }

  /**
   Disconnecting a socket bound to a non-empty name removes exactly that
   name's entry, wherever it sits; the remaining entries keep their order.
   Under `Valid` the entry `i` exists for every bound socket
   (`BoundSocketHasEntry`).
   */
  lemma DisconnectRemovesOwnEntry(s: State, sid: SocketId, i: nat)
    requires OrderedMap.UniqueKeys(s.users)
    requires i < |s.users| && s.users[i].1 == sid
    requires sid in s.usernames && s.usernames[sid] == s.users[i].0 && Truthy(s.users[i].0)
    ensures OnDisconnect(s, sid).state.users == s.users[..i] + s.users[i + 1..]
  {
    OrderedMap.DeleteAt(s.users, i);
  }

  /**
   Under the invariant, every socket bound to a name owns an entry for it,
   so `DisconnectRemovesOwnEntry` applies to every bound socket.
   */
  lemma BoundSocketHasEntry(s: State, sid: SocketId)
    requires Valid(s)
    requires sid in s.usernames
    ensures exists i :: 0 <= i < |s.users| && s.users[i].1 == sid && s.users[i].0 == s.usernames[sid]
  {
    assert (s.usernames[sid], sid) in s.users;
  }

  /**
   A socket bound to the empty name is not removed on disconnect: its entry
   stays in the registry and in the broadcast list.
   */
  lemma DisconnectKeepsEmptyName(s: State, sid: SocketId)
    requires sid in s.usernames && s.usernames[sid] == ""
    requires ("", sid) in s.users
    ensures ("", sid) in OnDisconnect(s, sid).state.users
    ensures "" in OnDisconnect(s, sid).out[0].msg.names
  {
  }
}
