/**
 * The signalling server's event handlers. Each handler runs to its end before the next event;
 * a handler that closes the connection it serves ends there. Timers may fire at any time.
 */
module SignalServers {
  import opened Basics
  import opened SignalState

  const MIN_SIZE := 2
  const MAX_SIZE := 1024
  const CHANNEL_ID: Byte := 1
  const PEER_CANDIDATES: Byte := 3

  datatype Event =
    | Connected(address: nat, port: nat, accepted: bool)
    | Received(peer: nat, bytes: seq<Byte>)
    | Closed(peer: nat)
    | TimedOut(peer: nat)

  /** The bytes before the first zero. */
  function CString(bytes: seq<Byte>): (r: Name)
    ensures |r| <= |bytes| && r == bytes[..|r|] && 0 !in r && (|r| < |bytes| ==> bytes[|r|] == 0)
  {
    if bytes == [] || bytes[0] == 0 then [] else [bytes[0]] + CString(bytes[1..])
  }

  /** What the candidates of `p` become on a walk over the channel's members. */
  function Relays(walk: seq<nat>, p: nat, connection: nat, channel: Name, members: set<nat>, payload: seq<Byte>): seq<Message>
  {
    if walk == [] then []
    else
      var q := walk[|walk| - 1];
      Relays(walk[..|walk| - 1], p, connection, channel, members, payload)
      + if q == p then [] else [Candidates(connection, p, q, channel, members, payload)]
  }

  /** They go to the other member, if there is one. */
  lemma RelaysToOther(walk: seq<nat>, p: nat, connection: nat, channel: Name, members: set<nat>, payload: seq<Byte>)
    requires InOrder(members, walk) && |walk| == |members| <= 2 && p in members
    ensures var r := Relays(walk, p, connection, channel, members, payload);
            if |members| == 1 then r == [] && members == {p}
            else exists q :: q != p && members == {p, q} && r == [Candidates(connection, p, q, channel, members, payload)]
  {
    assert p in walk;
    if |members| == 1 {
      assert walk == [p];
      assert walk[..0] == [];
      assert forall x :: x in members <==> x in walk;
    } else {
      var q := if walk[0] == p then walk[1] else walk[0];
      assert walk[..1] == [walk[0]] && walk[..1][..0] == [];
      assert q in walk && members == {p, q};
      assert Relays(walk[..1], p, connection, channel, members, payload)
          == if walk[0] == p then [] else [Candidates(connection, p, walk[0], channel, members, payload)];
    }
  }

  /** From one state to a later one, the records of a connection only rise in state. */
  ghost predicate Rises(before: Peers, after: Peers, next: nat)
  {
    forall p | p in after ::
      if p in before && before[p].connection == after[p].connection
      then before[p].state.Rank() <= after[p].state.Rank()
      else after[p].connection >= next
  }

  class SignalServer {
    /** How the message buffer reads a string of some length from what is left of it, or fails. */
    const readString: (seq<Byte>, nat) -> Option<seq<Byte>>
    var peers: Peers
    var channels: Channels
    var sent: seq<Message>
    /** The number of the next connection. */
    var next: nat

    ghost predicate Valid()
      reads this
    {
      Agree(peers, channels) && Sending(sent) && Numbered(peers, sent, next)
    }

    constructor (readString: (seq<Byte>, nat) -> Option<seq<Byte>>)
      ensures Valid() && peers == map[] && channels == map[] && sent == [] && this.readString == readString
    {
      this.readString, peers, channels, sent, next := readString, map[], map[], [], 0;
    }

    /** `CreatePeer`. */
    method CreatePeer(p: nat)
      requires Valid() && p !in peers
      modifies this`peers, this`next
      ensures Valid() && peers == old(peers)[p := Peer(old(next), NoChannel, [])] && next == old(next) + 1
    {
      Connects(peers, channels, p, next);
      assert !Relayed(sent, next);
      peers, next := peers[p := Peer(next, NoChannel, [])], next + 1;
    }

    /** `DisconnectPeer`. */
    method Disconnect(p: nat)
      requires Valid()
      modifies this`peers, this`channels
      ensures Valid() && peers == old(peers) - {p}
      ensures channels == if p in old(peers) then WithoutPeer(old(channels), old(peers)[p].channel, p) else old(channels)
    {
      if p in peers {
        Disconnects(peers, channels, p);
        var c := peers[p].channel;
        channels := WithoutPeer(channels, c, p);
        peers := peers - {p};
      }
    }

    /** `connect_handler`: live connections have different addresses or ports. */
    method Connect(address: nat, port: nat, accepted: bool)
      requires Valid() && address < 0x1_0000_0000 && port < 0x1_0000 && PeerId(address, port) !in peers
      modifies this`peers, this`channels, this`next
      ensures Valid() && Rises(old(peers), peers, old(next))
      ensures peers == if accepted then old(peers)[PeerId(address, port) := Peer(old(next), NoChannel, [])] else old(peers)
      ensures channels == old(channels) && next == old(next) + 1
    {
      var p := PeerId(address, port);
      CreatePeer(p);
      if !accepted {
        Disconnect(p);
      }
    }

    /** The first member of a channel opens it. */
    method Open(p: nat, c: Name)
      requires Valid() && p in peers && peers[p].state.NoChannel? && c != [] && c !in channels
      modifies this`peers, this`channels
      ensures Valid() && peers == old(peers)[p := old(peers)[p].(state := SignalState.Valid, channel := c)]
      ensures channels == old(channels)[c := Channel(AwaitPeer, {p})]
    {
      Enters(peers, channels, p, c, AwaitPeer);
      assert {} + {p} == {p};
      channels := channels[c := Channel(AwaitPeer, {p})];
      peers := peers[p := peers[p].(state := SignalState.Valid, channel := c)];
    }

    /** The second member joins. */
    method Join(p: nat, c: Name)
      requires Valid() && p in peers && peers[p].state.NoChannel? && c in channels && |channels[c].peers| < 2
      modifies this`peers, this`channels
      ensures Valid() && peers == old(peers)[p := old(peers)[p].(state := SignalState.Valid, channel := c)]
      ensures channels == old(channels)[c := Channel(Exchange, old(channels)[c].peers + {p})] && |channels[c].peers| == 2
    {
      assert ChannelOk(c, peers, channels);
      Enters(peers, channels, p, c, Exchange);
      peers := peers[p := peers[p].(state := SignalState.Valid, channel := c)];
      channels := channels[c := Channel(Exchange, channels[c].peers + {p})];
    }

    /** `ChannelReady` goes to both members of a channel. */
    method SendReady(c: Name)
      requires Valid() && c in channels && |channels[c].peers| == 2
      modifies this`sent
      ensures Valid() && ReadyToBoth(old(sent), sent, c, channels[c].peers)
    {
      var members := channels[c].peers;
      var walk := Walk(members);
      TwoMembers(members, walk);
      for k := 0 to |walk|
        invariant Valid() && sent == old(sent) + Readies(walk[..k], c, members)
      {
        SendOneReady(c, walk[k]);
        ReadiesPush(walk, k, c, members);
      }
      assert walk[..|walk|] == walk;
      BothTold(old(sent), walk, c, members);
    }

    /** One send of that loop; the member is always found. */
    method SendOneReady(c: Name, q: nat)
      requires Valid() && c in channels && |channels[c].peers| == 2 && q in channels[c].peers
      modifies this`sent
      ensures Valid() && sent == old(sent) + [Ready(q, c, channels[c].peers)]
    {
      assert ChannelOk(c, peers, channels);
      var _ := peers[q];
      SendsReady(sent, Ready(q, c, channels[c].peers));
      sent := sent + [Ready(q, c, channels[c].peers)];
    }

    /** A peer without a channel names one; `recv_handler` for the state `NoChannel`. */
    method Identify(p: nat, bytes: seq<Byte>)
      requires Valid() && p in peers && peers[p].state.NoChannel? && |bytes| >= MIN_SIZE
      modifies this`peers, this`channels, this`sent
      ensures Valid() && Rises(old(peers), peers, next) && old(sent) <= sent
      ensures Settled(old(peers), old(channels), old(sent), p, Named(readString, bytes), peers, channels, sent)
    {
      Settle(p, Named(readString, bytes));
    }

    /** A peer without a channel goes to channel `c`, or is closed if `c` is no name or is full. */
    method Settle(p: nat, c: Name)
      requires Valid() && p in peers && peers[p].state.NoChannel?
      modifies this`peers, this`channels, this`sent
      ensures Valid() && Rises(old(peers), peers, next) && old(sent) <= sent
      ensures Settled(old(peers), old(channels), old(sent), p, c, peers, channels, sent)
    {
      assert PeerOk(p, peers, channels);
      if c == [] || (c in channels && |channels[c].peers| >= 2) {
        NoSuchChannel();
        RisesWithout(peers, p, next);
        Disconnect(p);
      } else {
        RisesAt(peers, p, peers[p].(state := SignalState.Valid, channel := c), next);
        if c !in channels {
          Open(p, c);
        } else {
          Join(p, c);
          SendReady(c);
        }
      }
    }

    lemma NoSuchChannel()
      requires Valid()
      ensures [] !in channels
    {
      assert forall c | c in channels :: ChannelOk(c, peers, channels);
    }

    /** Pass the candidates on to the other member; `recv_handler` for the state `Valid`. */
    method Relay(p: nat, bytes: seq<Byte>)
      requires Valid() && p in peers && peers[p].state.Valid?
      modifies this`peers, this`sent
      ensures Valid() && peers == old(peers)[p := old(peers)[p].(state := SentCandidates)]
      ensures old(peers)[p].channel in channels && p in channels[old(peers)[p].channel].peers
      ensures ToTheOther(old(sent), sent, p, old(peers)[p], channels[old(peers)[p].channel].peers, bytes)
    {
      assert PeerOk(p, peers, channels);
      assert ChannelOk(peers[p].channel, peers, channels);
      var out := Outgoing(p, bytes);
      MarksSent(peers, channels, p);
      SentOnce(peers, sent, next, p, out);
      assert sent + [] == sent;
      sent, peers := sent + out, peers[p := peers[p].(state := SentCandidates)];
    }

    /** The loop over the channel's members; each of them is found. */
    method Outgoing(p: nat, bytes: seq<Byte>) returns (out: seq<Message>)
      requires p in peers && peers[p].channel in channels && p in channels[peers[p].channel].peers
      requires ChannelOk(peers[p].channel, peers, channels)
      ensures var members := channels[peers[p].channel].peers;
        if |members| == 1 then out == [] && members == {p}
        else exists q :: q != p && members == {p, q} && out == [Candidates(peers[p].connection, p, q, peers[p].channel, members, bytes)]
    {
      var x, members := peers[p], channels[peers[p].channel].peers;
      var walk := Walk(members);
      RelaysToOther(walk, p, x.connection, x.channel, members, bytes);
      out := [];
      for k := 0 to |walk|
        invariant out == Relays(walk[..k], p, x.connection, x.channel, members, bytes)
      {
        assert walk[k] in walk;
        var _ := peers[walk[k]];
        assert walk[..k + 1][..k] == walk[..k];
        if walk[k] != p {
          out := out + [Candidates(x.connection, p, walk[k], x.channel, members, bytes)];
        }
      }
      assert walk[..|walk|] == walk;
    }

    /** `recv_handler`: one message from a peer. */
    method Receive(p: nat, bytes: seq<Byte>)
      requires Valid()
      modifies this`peers, this`channels, this`sent
      ensures Valid() && Rises(old(peers), peers, next) && old(sent) <= sent
      ensures Handled(readString, old(peers), old(channels), old(sent), p, bytes, peers, channels, sent)
    {
      if p !in peers {
        return;
      }
      assert PeerOk(p, peers, channels);
      if |bytes| < MIN_SIZE || |bytes| >= MAX_SIZE {
        Disconnect(p);
      } else if peers[p].state.NoChannel? {
        Identify(p, bytes);
      } else if peers[p].state.Valid? {
        if bytes[0] != PEER_CANDIDATES || bytes[1] % 6 != 0 {
          Disconnect(p);
        } else {
          Relay(p, bytes);
        }
      }
    }

    ghost function State(): ServerState
      reads this
    {
      ServerState(peers, channels, sent, next)
    }

    /** Any event; a connection from an address that is in use does not occur. */
    method Handle(e: Event)
      requires Valid()
      modifies this
      ensures Valid() && Stepped(readString, old(State()), e, State())
      ensures Rises(old(peers), peers, old(next)) && old(sent) <= sent && old(next) <= next
    {
      match e
      case Connected(address, port, accepted) =>
        if address < 0x1_0000_0000 && port < 0x1_0000 && PeerId(address, port) !in peers {
          Connect(address, port, accepted);
        }
      case Received(p, bytes) => Receive(p, bytes);
      case Closed(p) => Close(p);
      case TimedOut(p) => TimeOut(p);
    }

    /** `close_handler`. */
    method Close(p: nat)
      requires Valid()
      modifies this`peers, this`channels
      ensures Valid() && Rises(old(peers), peers, next)
      ensures Stepped(readString, old(State()), Closed(p), State())
    {
      RisesWithout(peers, p, next);
      if p in peers {
        LeavesAll(peers, channels, p);
        Disconnect(p);
      }
    }

    /** `peer_timer_handler`. */
    method TimeOut(p: nat)
      requires Valid()
      modifies this`peers, this`channels
      ensures Valid() && Rises(old(peers), peers, next)
      ensures Stepped(readString, old(State()), TimedOut(p), State())
    {
      if p in peers {
        Close(p);
      }
    }

    /** Any run of the server; `states` are what it goes through, one event at a time. */
    method Run(events: seq<Event>) returns (ghost states: seq<ServerState>)
      requires Valid()
      modifies this
      ensures Valid() && Rises(old(peers), peers, old(next)) && old(sent) <= sent
      ensures SteppedThrough(readString, states, events) && states[0] == old(State()) && states[|events|] == State()
    {
      states := [State()];
      for k := 0 to |events|
        invariant Valid() && Rises(old(peers), peers, old(next)) && old(sent) <= sent && old(next) <= next
        invariant SteppedThrough(readString, states, events[..k]) && states[0] == old(State()) && states[k] == State()
      {
        ghost var before, n := peers, next;
        Handle(events[k]);
        RisesOn(old(peers), before, peers, old(next), n);
        StepsOn(readString, states, events, k, State());
        states := states + [State()];
      }
      assert events[..|events|] == events;
    }

    method DisconnectAll(list: seq<nat>)
      requires Valid()
      modifies this`peers, this`channels
      ensures Valid() && forall p :: p in peers <==> p in old(peers) && p !in list
    {
      for k := 0 to |list|
        invariant Valid() && forall p :: p in peers <==> p in old(peers) && p !in list[..k]
      {
        Disconnect(list[k]);
        assert list[..k + 1] == list[..k] + [list[k]];
      }
      assert list[..|list|] == list;
    }

    /** `Shutdown`: every peer is disconnected and every channel closed before the maps are cleared. */
    method Shutdown()
      requires Valid()
      modifies this`peers, this`channels
      ensures Valid() && peers == map[] && channels == map[]
    {
      var ids := Walk(peers.Keys);
      var list := seq(|ids|, _ => 0) + ids;
      assert forall p | p in ids :: p in list;
      DisconnectAll(list);
      assert peers.Keys == {};
      NoPeersNoChannels(peers, channels);
      peers, channels := map[], map[];
    }
  }

  /** Without peers there are no channels. */
  lemma NoPeersNoChannels(peers: Peers, channels: Channels)
    requires Agree(peers, channels) && peers.Keys == {}
    ensures channels.Keys == {}
  {
    if channels.Keys != {} {
      var c :| c in channels.Keys;
      var p := MemberOf(peers, channels, c);
    }
  }

  lemma MemberOf(peers: Peers, channels: Channels, c: Name) returns (p: nat)
    requires Agree(peers, channels) && c in channels
    ensures p in peers && p in channels[c].peers
  {
    assert ChannelOk(c, peers, channels);
    p :| p in channels[c].peers;
  }

  /** The channel that a message names, or nothing if it is not such a message. */
  function Named(readString: (seq<Byte>, nat) -> Option<seq<Byte>>, bytes: seq<Byte>): Name
    requires |bytes| >= MIN_SIZE
  {
    if bytes[0] != CHANNEL_ID || bytes[1] == 0 then []
    else match readString(bytes[2..], bytes[1])
      case None => []
      case Some(s) => CString(s)
  }

  /** A peer names a channel exactly by a message of that kind, with a length, whose string has something before its first zero. */
  lemma NamedBy(readString: (seq<Byte>, nat) -> Option<seq<Byte>>, bytes: seq<Byte>, c: Name)
    requires |bytes| >= MIN_SIZE && c != []
    ensures Named(readString, bytes) == c <==>
      && bytes[0] == 1 && bytes[1] > 0 && readString(bytes[2..], bytes[1]).Some?
      && var s := readString(bytes[2..], bytes[1]).value; c <= s && 0 !in c && (|s| == |c| || s[|c|] == 0)
  {
    if readString(bytes[2..], bytes[1]).Some? {
      var s := readString(bytes[2..], bytes[1]).value;
      if c <= s && 0 !in c && (|s| == |c| || s[|c|] == 0) {
        PrefixUnique(s, c);
      }
    }
  }

  lemma {:induction false} PrefixUnique(s: seq<Byte>, c: Name)
    requires c <= s && 0 !in c && (|s| == |c| || s[|c|] == 0)
    ensures CString(s) == c
  {
    if c != [] {
      PrefixUnique(s[1..], c[1..]);
    }
  }

  function Readies(walk: seq<nat>, c: Name, members: set<nat>): (r: seq<Message>)
    ensures |r| == |walk| && forall i | 0 <= i < |walk| :: r[i] == Ready(walk[i], c, members)
  {
    seq(|walk|, i requires 0 <= i < |walk| => Ready(walk[i], c, members))
  }

  lemma ReadiesPush(walk: seq<nat>, k: nat, c: Name, members: set<nat>)
    requires k < |walk|
    ensures Readies(walk[..k + 1], c, members) == Readies(walk[..k], c, members) + [Ready(walk[k], c, members)]
  {
  }

  lemma TwoMembers(members: set<nat>, walk: seq<nat>)
    requires InOrder(members, walk) && |walk| == |members| == 2
    ensures walk[0] < walk[1] && members == {walk[0], walk[1]} && forall k | 0 <= k < 2 :: walk[k] in members
  {
    assert walk[0] in walk && walk[1] in walk;
  }

  /** `ChannelReady` has gone to exactly the two members of a channel. */
  ghost predicate ReadyToBoth(before: seq<Message>, after: seq<Message>, c: Name, members: set<nat>)
  {
    exists p, q :: p < q && members == {p, q} && after == before + [Ready(p, c, members), Ready(q, c, members)]
  }

  /**
   * Peer `p` has named channel `c`: it is closed if that is no name or is full; it opens a new
   * channel; or it joins a single member, and both are told.
   */
  ghost predicate Settled(
    peers: Peers, channels: Channels, sent: seq<Message>, p: nat, c: Name, peers': Peers, channels': Channels, sent': seq<Message>)
    requires p in peers
  {
    if c == [] || (c in channels && |channels[c].peers| >= 2) then
      peers' == peers - {p} && channels' == channels && sent' == sent
    else (
      && peers' == peers[p := peers[p].(state := Valid, channel := c)]
      && if c in channels then
           var members := channels[c].peers + {p};
           channels' == channels[c := Channel(Exchange, members)] && ReadyToBoth(sent, sent', c, members)
         else channels' == channels[c := Channel(AwaitPeer, {p})] && sent' == sent)
  }

  /** The connection of `p` has been closed. */
  ghost predicate Shut(peers: Peers, channels: Channels, sent: seq<Message>, p: nat, peers': Peers, channels': Channels, sent': seq<Message>)
    requires p in peers
  {
    peers' == peers - {p} && channels' == WithoutPeer(channels, peers[p].channel, p) && sent' == sent
  }

  /** What a message does: everything about the server afterwards. */
  ghost predicate Handled(
    readString: (seq<Byte>, nat) -> Option<seq<Byte>>, peers: Peers, channels: Channels, sent: seq<Message>, p: nat, bytes: seq<Byte>,
    peers': Peers, channels': Channels, sent': seq<Message>)
  {
    if p !in peers then peers' == peers && channels' == channels && sent' == sent
    else if |bytes| < MIN_SIZE || |bytes| >= MAX_SIZE || peers[p].state.NoState? then Shut(peers, channels, sent, p, peers', channels', sent')
    else match peers[p].state
      case NoChannel => Settled(peers, channels, sent, p, Named(readString, bytes), peers', channels', sent')
      case Valid =>
        if bytes[0] != PEER_CANDIDATES || bytes[1] % 6 != 0 then Shut(peers, channels, sent, p, peers', channels', sent')
        else (
          && peers' == peers[p := peers[p].(state := SentCandidates)] && channels' == channels
          && peers[p].channel in channels && ToTheOther(sent, sent', p, peers[p], channels[peers[p].channel].peers, bytes))
      case _ => peers' == peers && channels' == channels && sent' == sent
  }

  /** All of a server. */
  datatype ServerState = ServerState(peers: Peers, channels: Channels, sent: seq<Message>, next: nat)

  /** What an event does: everything about the server afterwards. */
  ghost predicate Stepped(readString: (seq<Byte>, nat) -> Option<seq<Byte>>, s: ServerState, e: Event, s': ServerState)
  {
    match e
    case Connected(address, port, accepted) =>
      if address < 0x1_0000_0000 && port < 0x1_0000 && PeerId(address, port) !in s.peers then
        s' == ServerState(
          if accepted then s.peers[PeerId(address, port) := Peer(s.next, NoChannel, [])] else s.peers, s.channels, s.sent, s.next + 1)
      else s' == s
    case Received(p, bytes) =>
      s'.next == s.next && Handled(readString, s.peers, s.channels, s.sent, p, bytes, s'.peers, s'.channels, s'.sent)
    case Closed(p) => Gone(s, p, s')
    case TimedOut(p) => Gone(s, p, s')
  }

  /** A peer's record and its place in its channel are gone, and the channel if that was the last. */
  ghost predicate Gone(s: ServerState, p: nat, s': ServerState)
  {
    if p !in s.peers then s' == s
    else (
      && s'.sent == s.sent && s'.next == s.next && s'.peers == s.peers - {p}
      && forall c :: LeftBy(s.channels, p, c, s'.channels))
  }

  /** Channel `c` has lost `p`, and is there as long as it has other members. */
  ghost predicate LeftBy(channels: Channels, p: nat, c: Name, after: Channels)
  {
    if c in channels && channels[c].peers - {p} != {}
    then c in after && after[c] == Channel(channels[c].state, channels[c].peers - {p})
    else c !in after
  }

  /** Leaving the channel that a peer names takes it out of all channels. */
  lemma LeavesAll(peers: Peers, channels: Channels, p: nat)
    requires Agree(peers, channels) && p in peers
    ensures forall c :: LeftBy(channels, p, c, WithoutPeer(channels, peers[p].channel, p))
  {
    forall c ensures LeftBy(channels, p, c, WithoutPeer(channels, peers[p].channel, p)) {
      if c in channels {
        LeavesOne(peers, channels, p, c);
      }
    }
  }

  lemma LeavesOne(peers: Peers, channels: Channels, p: nat, c: Name)
    requires Agree(peers, channels) && p in peers && c in channels
    ensures LeftBy(channels, p, c, WithoutPeer(channels, peers[p].channel, p))
  {
    assert ChannelOk(c, peers, channels);
    if c != peers[p].channel {
      assert p !in channels[c].peers;
      assert channels[c].peers - {p} == channels[c].peers;
    }
  }

  ghost predicate SteppedThrough(readString: (seq<Byte>, nat) -> Option<seq<Byte>>, states: seq<ServerState>, events: seq<Event>)
  {
    |states| == |events| + 1 && forall i: nat | i < |events| :: Stepped(readString, states[i], events[i], states[i + 1])
  }

  lemma StepsOn(readString: (seq<Byte>, nat) -> Option<seq<Byte>>, states: seq<ServerState>, events: seq<Event>, k: nat, s: ServerState)
    requires k < |events| && SteppedThrough(readString, states, events[..k]) && Stepped(readString, states[k], events[k], s)
    ensures SteppedThrough(readString, states + [s], events[..k + 1])
  {
  }

  /** The candidates of `p` have gone to the other member of its channel, if there is one. */
  ghost predicate ToTheOther(before: seq<Message>, after: seq<Message>, p: nat, x: Peer, members: set<nat>, payload: seq<Byte>)
  {
    if |members| == 1 then members == {p} && after == before
    else exists q :: q != p && members == {p, q} && after == before + [Candidates(x.connection, p, q, x.channel, members, payload)]
  }

  /** The first candidates of a connection go out. */
  lemma SentOnce(peers: Peers, sent: seq<Message>, next: nat, p: nat, out: seq<Message>)
    requires Sending(sent) && Numbered(peers, sent, next) && p in peers && peers[p].state.Valid?
    requires out == [] || (|out| == 1 && out[0].Candidates? && Proper(out[0]) && out[0].connection == peers[p].connection)
    ensures Sending(sent + out) && Numbered(peers[p := peers[p].(state := SentCandidates)], sent + out, next)
  {
    if out == [] {
      assert sent + out == sent;
    } else {
      assert sent + out == sent + [out[0]];
      SendsCandidates(sent, out[0]);
      forall q | q in peers ensures Relayed(sent + out, peers[q].connection) ==> q == p || peers[q].state.SentCandidates? {
        RelayedPush(sent, out[0], peers[q].connection);
      }
    }
  }

  lemma BothTold(before: seq<Message>, walk: seq<nat>, c: Name, members: set<nat>)
    requires |walk| == 2 && walk[0] < walk[1] && members == {walk[0], walk[1]}
    ensures ReadyToBoth(before, before + Readies(walk, c, members), c, members)
  {
    assert Readies(walk, c, members) == [Ready(walk[0], c, members), Ready(walk[1], c, members)];
  }

  lemma RisesWithout(peers: Peers, p: nat, n: nat)
    ensures Rises(peers, peers - {p}, n)
  {
  }

  lemma RisesAt(peers: Peers, p: nat, x: Peer, n: nat)
    requires p in peers && x.connection == peers[p].connection && peers[p].state.Rank() <= x.state.Rank()
    ensures Rises(peers, peers[p := x], n)
  {
  }

  lemma RisesOn(a: Peers, b: Peers, c: Peers, m: nat, n: nat)
    requires Rises(a, b, m) && Rises(b, c, n) && m <= n && forall p | p in a :: a[p].connection < m
    ensures Rises(a, c, m)
  {
  }
}
