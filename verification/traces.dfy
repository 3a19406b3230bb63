/**
 Runs of the signaling server over a sequence of events, and worked
 scenarios of a two-party call set-up.
 */
module Traces {
  import opened Optional
  import OrderedMap
  import opened Signaling
  import SignalingProperties

  /** One inbound event together with the socket that raised it. */
  datatype Input = Input(sender: SocketId, event: Event)

  /**
   Handle the events one at a time, collecting every emission in order.
   No event makes the server emit more than one message.
   */
  function Run(s: State, trace: seq<Input>): (r: Reaction)
    ensures trace == [] ==> r == Reaction(s, [])
    ensures |r.out| <= |trace|
    decreases |trace|
  {
    if trace == [] then Reaction(s, [])
    else
      var first := Step(s, trace[0].sender, trace[0].event);
      var rest := Run(first.state, trace[1..]);
      Reaction(rest.state, first.out + rest.out)
  }

  /**
   A list of names in which no name appears twice: `OrderedMap.UniqueKeys`
   read on the list of keys rather than on the entries.
   */
  ghost predicate Distinct(names: seq<Username>) {
    forall i, j :: 0 <= i < j < |names| ==> names[i] != names[j]
  }

  /** Every `users` broadcast of one event lists the registry it leaves behind. */
  lemma StepBroadcastsSnapshot(s: State, sid: SocketId, e: Event)
    ensures forall m :: m in Step(s, sid, e).out && m.msg.Users? ==>
      m == Snapshot(Step(s, sid, e).state)
  {
  }

  /** Any run from a valid state ends in a valid state. */
  lemma {:induction false} RunKeepsValid(s: State, trace: seq<Input>)
    requires Valid(s)
    ensures Valid(Run(s, trace).state)
    decreases |trace|
  {
    if trace != [] {
      SignalingProperties.StepKeepsValid(s, trace[0].sender, trace[0].event);
      RunKeepsValid(Step(s, trace[0].sender, trace[0].event).state, trace[1..]);
    }
  }

  /**
   In any run from a valid state (in particular from the initial state),
   every `users` list the server broadcasts names each user at most once.
   */
  lemma {:induction false} BroadcastListsDistinct(s: State, trace: seq<Input>)
    requires Valid(s)
    ensures forall m :: m in Run(s, trace).out && m.msg.Users? ==> Distinct(m.msg.names)
    decreases |trace|
  {
    if trace != [] {
      var first := Step(s, trace[0].sender, trace[0].event);
      SignalingProperties.StepKeepsValid(s, trace[0].sender, trace[0].event);
      StepBroadcastsSnapshot(s, trace[0].sender, trace[0].event);
      BroadcastListsDistinct(first.state, trace[1..]);
      forall m | m in first.out && m.msg.Users?
        ensures Distinct(m.msg.names)
      {
        assert m.msg.names == OrderedMap.Keys(first.state.users);
      }
    }
  }

  /** The state once alice (socket s1) and then bob (socket s2) have registered. */
  const AliceAndBob: State := State([("alice", "s1"), ("bob", "s2")], map["s1" := "alice", "s2" := "bob"])

  /** alice and bob register; each registration broadcasts the list so far. */
  lemma AliceThenBobRegister()
    ensures var s1 := Step(Initial, "s1", Register("alice"));
      var s2 := Step(s1.state, "s2", Register("bob"));
      && s1.out == [Broadcast(Users(["alice"]))]
      && s2.out == [Broadcast(Users(["alice", "bob"]))]
      && s2.state == AliceAndBob
  {
    var s1 := Step(Initial, "s1", Register("alice"));
    assert s1.state.users == [("alice", "s1")];
    assert OrderedMap.Keys(s1.state.users) == ["alice"];
    assert "s2" != "s1" by { assert "s2"[1] != "s1"[1]; }
    assert "bob" != "alice" by { assert "bob"[0] != "alice"[0]; }
    assert "s2" !in OrderedMap.Values(s1.state.users);
    assert "bob" !in OrderedMap.Keys(s1.state.users);
    var s2 := Step(s1.state, "s2", Register("bob"));
    assert s2.state.users == AliceAndBob.users;
    assert s2.state.usernames == AliceAndBob.usernames;
    assert OrderedMap.Keys(AliceAndBob.users) == ["alice", "bob"];
  }

  /**
   alice's offer reaches bob with `from` set to alice; bob's answer and
   candidates reach alice without a sender.
   */
  lemma AliceAndBobNegotiate()
    ensures Step(AliceAndBob, "s1", Offer("bob", "O")).out == [Unicast("s2", OfferMsg(Some("alice"), "O"))]
    ensures Step(AliceAndBob, "s2", Answer("alice", "A")).out == [Unicast("s1", AnswerMsg("A"))]
    ensures Step(AliceAndBob, "s2", IceCandidate("alice", "C")).out == [Unicast("s1", IceCandidateMsg("C"))]
  {
    assert Valid(AliceAndBob) by {
      assert OrderedMap.Get(AliceAndBob.users, "alice") == Some("s1");
      assert OrderedMap.Get(AliceAndBob.users, "bob") == Some("s2");
    }
    SignalingProperties.OfferReachesOwner(AliceAndBob, "s1", "bob", "s2", "O");
    SignalingProperties.AnswerReachesOwner(AliceAndBob, "s2", "alice", "s1", "A");
    SignalingProperties.IceCandidateReachesOwner(AliceAndBob, "s2", "alice", "s1", "C");
  }

  /** When alice's socket goes away, the list shrinks to bob. */
  lemma AliceLeaves()
    ensures Step(AliceAndBob, "s1", Disconnect).out == [Broadcast(Users(["bob"]))]
  {
    assert "bob" != "alice" by { assert "bob"[0] != "alice"[0]; }
    assert OrderedMap.Delete(AliceAndBob.users, "alice") == [("bob", "s2")];
    assert OrderedMap.Keys([("bob", "s2")]) == ["bob"];
  }

  /** An offer from a socket that never registered carries no `from`. */
  lemma AnonymousOffer()
    ensures var s1 := Step(Initial, "s1", Register("bob"));
      Step(s1.state, "s9", Offer("bob", "O")).out == [Unicast("s1", OfferMsg(None, "O"))]
  {
  }

  /** A second "dave" is refused to its own socket; the first keeps the name. */
  lemma DuplicateDave()
    ensures var s1 := Step(Initial, "s1", Register("dave"));
      var s2 := Step(s1.state, "s2", Register("dave"));
      && s2.state == s1.state
      && s2.out == [Unicast("s2", UsernameError("Username already taken"))]
      && OrderedMap.Get(s2.state.users, "dave") == Some("s1")
  {
  }
}
