/**
 * The signalling server's records: connected peers, channels of at most two of them, and the
 * messages that have gone out.
 */
module SignalState {
  import opened Basics

  type Name = seq<Byte>

  datatype PeerState = NoState | NoChannel | Valid | SentCandidates {
    function Rank(): nat
    {
      match this
      case NoState => 0
      case NoChannel => 1
      case Valid => 2
      case SentCandidates => 3
    }
  }

  datatype ChannelState = NoChannelState | AwaitPeer | Exchange | Complete

  /** A peer; `connection` numbers connections, as an id may come back with a later one. */
  datatype Peer = Peer(connection: nat, state: PeerState, channel: Name)

  datatype Channel = Channel(state: ChannelState, peers: set<nat>)

  /** A message that went out; `members` are the peers of the channel when it did. */
  datatype Message =
    | Ready(to: nat, channel: Name, members: set<nat>)
    | Candidates(connection: nat, from: nat, to: nat, channel: Name, members: set<nat>, payload: seq<Byte>)

  type Peers = map<nat, Peer>

  type Channels = map<Name, Channel>

  /** `hashFromSockAddress`: the port above the 32 bits of the address. */
  function PeerId(address: nat, port: nat): nat
    requires address < 0x1_0000_0000 && port < 0x1_0000
  {
    port * 0x1_0000_0000 + address
  }

  lemma PeerIdInjective(a: nat, p: nat, b: nat, q: nat)
    requires a < 0x1_0000_0000 && b < 0x1_0000_0000 && p < 0x1_0000 && q < 0x1_0000
    ensures PeerId(a, p) == PeerId(b, q) <==> a == b && p == q
    ensures PeerId(a, p) < 0x1_0000_0000_0000_0000 && PeerId(a, p) / 0x1_0000_0000 == p && PeerId(a, p) % 0x1_0000_0000 == a
  {
  }

  // --- agreement of peers and channels ---------------------------------------------------

  /** A peer is in no channel, or in the one it names. */
  ghost predicate PeerOk(p: nat, peers: Peers, channels: Channels)
    requires p in peers
  {
    var x := peers[p];
    match x.state
    case NoState => false
    case NoChannel => x.channel == []
    case _ => x.channel in channels && p in channels[x.channel].peers
  }

  /** A channel has a name and one or two members, which name it. */
  ghost predicate ChannelOk(c: Name, peers: Peers, channels: Channels)
    requires c in channels
  {
    && c != [] && 1 <= |channels[c].peers| <= 2
    && forall p | p in channels[c].peers :: p in peers && peers[p].channel == c
  }

  ghost predicate Agree(peers: Peers, channels: Channels)
  {
    && (forall p | p in peers :: PeerOk(p, peers, channels))
    && (forall c | c in channels :: ChannelOk(c, peers, channels))
  }

  lemma Connects(peers: Peers, channels: Channels, p: nat, connection: nat)
    requires Agree(peers, channels) && p !in peers
    ensures Agree(peers[p := Peer(connection, NoChannel, [])], channels)
  {
    var after := peers[p := Peer(connection, NoChannel, [])];
    forall q | q in after ensures PeerOk(q, after, channels) {
      assert q != p ==> PeerOk(q, peers, channels);
    }
    forall c | c in channels ensures ChannelOk(c, after, channels) {
      assert ChannelOk(c, peers, channels);
    }
  }

  /** A peer that is in no channel opens one or joins one with a single member. */
  lemma Enters(peers: Peers, channels: Channels, p: nat, c: Name, state: ChannelState)
    requires Agree(peers, channels) && p in peers && peers[p].state.NoChannel? && c != []
    requires c in channels ==> |channels[c].peers| < 2
    ensures var members := if c in channels then channels[c].peers else {};
            Agree(peers[p := peers[p].(state := Valid, channel := c)], channels[c := Channel(state, members + {p})])
    ensures c in channels ==> p !in channels[c].peers
  {
    var members := if c in channels then channels[c].peers else {};
    var peers', channels' := peers[p := peers[p].(state := Valid, channel := c)], channels[c := Channel(state, members + {p})];
    assert PeerOk(p, peers, channels);
    forall d | d in channels ensures p !in channels[d].peers {
      assert ChannelOk(d, peers, channels);
    }
    forall q | q in peers' ensures PeerOk(q, peers', channels') {
      assert PeerOk(q, peers, channels);
    }
    forall d | d in channels' ensures ChannelOk(d, peers', channels') {
      if d in channels {
        assert ChannelOk(d, peers, channels);
      }
    }
  }

  /** The channels when peer `p` has left channel `c`, which closes when it is empty. */
  function WithoutPeer(channels: Channels, c: Name, p: nat): Channels
  {
    if c !in channels then channels
    else
      var rest := channels[c].peers - {p};
      if rest == {} then channels - {c} else channels[c := channels[c].(peers := rest)]
  }

  lemma Disconnects(peers: Peers, channels: Channels, p: nat)
    requires Agree(peers, channels) && p in peers
    ensures Agree(peers - {p}, WithoutPeer(channels, peers[p].channel, p))
  {
    var c := peers[p].channel;
    var peers', channels' := peers - {p}, WithoutPeer(channels, c, p);
    assert PeerOk(p, peers, channels);
    forall q | q in peers' ensures PeerOk(q, peers', channels') {
      assert PeerOk(q, peers, channels);
      StaysIn(peers, channels, p, q);
    }
    forall d | d in channels' ensures ChannelOk(d, peers', channels') {
      assert ChannelOk(d, peers, channels);
      assert p in channels[d].peers ==> d == c;
    }
  }

  lemma StaysIn(peers: Peers, channels: Channels, p: nat, q: nat)
    requires Agree(peers, channels) && p in peers && q in peers && q != p
    ensures PeerOk(q, peers - {p}, WithoutPeer(channels, peers[p].channel, p))
  {
    assert PeerOk(q, peers, channels);
    if !peers[q].state.NoChannel? && peers[q].channel == peers[p].channel {
      assert q in channels[peers[q].channel].peers - {p};
    }
  }

  lemma MarksSent(peers: Peers, channels: Channels, p: nat)
    requires Agree(peers, channels) && p in peers && peers[p].state.Valid?
    ensures Agree(peers[p := peers[p].(state := SentCandidates)], channels)
  {
    var after := peers[p := peers[p].(state := SentCandidates)];
    forall q | q in after ensures PeerOk(q, after, channels) {
      assert PeerOk(q, peers, channels);
    }
    forall c | c in channels ensures ChannelOk(c, after, channels) {
      assert ChannelOk(c, peers, channels);
    }
  }

  // --- what has been sent ----------------------------------------------------------------

  /** No connection's candidates have gone out twice. */
  ghost predicate OnceEach(sent: seq<Message>)
  {
    forall i, j | 0 <= i < j < |sent| && sent[i].Candidates? && sent[j].Candidates? :: sent[i].connection != sent[j].connection
  }

  ghost predicate Relayed(sent: seq<Message>, connection: nat)
  {
    exists m :: m in sent && m.Candidates? && m.connection == connection
  }

  /** `ChannelReady` goes to one of two members, candidates to the other one of the sender's two. */
  ghost predicate Proper(m: Message)
  {
    match m
    case Ready(to, _, members) => |members| == 2 && to in members
    case Candidates(_, from, to, _, members, _) => members == {from, to} && from != to
  }

  ghost predicate Sending(sent: seq<Message>)
  {
    OnceEach(sent) && forall m | m in sent :: Proper(m)
  }

  /** Connections are numbered apart, and only a peer that has sent its candidates has had them relayed. */
  ghost predicate Numbered(peers: Peers, sent: seq<Message>, next: nat)
  {
    && (forall p, q | p in peers && q in peers && p != q :: peers[p].connection != peers[q].connection)
    && (forall p | p in peers :: peers[p].connection < next && (Relayed(sent, peers[p].connection) ==> peers[p].state.SentCandidates?))
    && (forall m | m in sent && m.Candidates? :: m.connection < next)
  }

  lemma SendsReady(sent: seq<Message>, m: Message)
    requires Sending(sent) && m.Ready? && Proper(m)
    ensures Sending(sent + [m]) && forall c :: Relayed(sent + [m], c) == Relayed(sent, c)
  {
    forall c ensures Relayed(sent + [m], c) == Relayed(sent, c) {
      RelayedPush(sent, m, c);
    }
  }

  lemma RelayedPush(sent: seq<Message>, m: Message, c: nat)
    ensures Relayed(sent + [m], c) <==> Relayed(sent, c) || (m.Candidates? && m.connection == c)
  {
    if Relayed(sent, c) {
      var x :| x in sent && x.Candidates? && x.connection == c;
      assert x in sent + [m];
    }
    if m.Candidates? && m.connection == c {
      assert m in sent + [m];
    }
  }

  lemma SendsCandidates(sent: seq<Message>, m: Message)
    requires Sending(sent) && m.Candidates? && Proper(m) && !Relayed(sent, m.connection)
    ensures Sending(sent + [m])
  {
    forall i | 0 <= i < |sent| && sent[i].Candidates? ensures sent[i].connection != m.connection {
      assert sent[i] in sent;
    }
  }

  // --- sets in order ---------------------------------------------------------------------

  /** A set's members in ascending order, as an ordered set is walked. */
  ghost predicate InOrder(s: set<nat>, l: seq<nat>)
  {
    && (forall i, j | 0 <= i < j < |l| :: l[i] < l[j])
    && (forall x :: x in s <==> x in l)
  }

  ghost predicate Least(x: nat, s: set<nat>)
  {
    x in s && forall y | y in s :: x <= y
  }

  lemma {:induction false} LeastOf(s: set<nat>)
    requires s != {}
    ensures exists x :: Least(x, s)
  {
    var x :| x in s;
    var rest := s - {x};
    assert s == rest + {x};
    if rest == {} {
      assert Least(x, s);
    } else {
      LeastOf(rest);
      var z :| Least(z, rest);
      assert Least(if x < z then x else z, s);
    }
  }

  lemma InOrderFirst(s: set<nat>, x: nat, l: seq<nat>)
    requires Least(x, s) && InOrder(s - {x}, l)
    ensures InOrder(s, [x] + l)
  {
    var r := [x] + l;
    forall i, j | 0 <= i < j < |r| ensures r[i] < r[j] {
      assert r[j] in l;
      assert r[j] in s - {x};
    }
    forall y ensures y in s <==> y in [x] + l {
      assert y in s - {x} <==> y in l;
    }
  }

  method Walk(s: set<nat>) returns (l: seq<nat>)
    ensures InOrder(s, l) && |l| == |s|
    decreases s
  {
    if s == {} {
      return [];
    }
    LeastOf(s);
    var x :| x in s && forall y | y in s :: x <= y;
    var rest := Walk(s - {x});
    InOrderFirst(s, x, rest);
    return [x] + rest;
  }
}
