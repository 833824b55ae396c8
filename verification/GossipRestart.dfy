/**
 The network of crates/opsense-mlib/src/gossip.rs with nodes that restart: `Gossip::new` starts again with
 an empty map and the clock at 0, while everybody else still has what the node published before. Its own
 entry then stays its own exactly when every publication is newer than all its earlier ones.
 */
module GossipRestart {
  import opened Gossip
  import opened GossipNetwork
  import opened Words
  import opened Wrappers

  datatype Life =
    | Act(event: Event)
    | Restart(id: string)

  ghost function Live(net: Network, l: Life): Network {
    match l
    case Act(e) => Step(net, e)
    case Restart(id) =>
      if id in net.nodes then net.(nodes := net.nodes[id := Node(State(0, map[]), None, {})]) else net
  }

  ghost function Lives(net: Network, lives: seq<Life>): Network {
    if lives == [] then net else Live(Lives(net, lives[..|lives| - 1]), lives[|lives| - 1])
  }

  // ---------------------------------------------------------------- what is promised, and when

  /** Since its start the node has published `published`, its entry says so, and nobody ever got a newer one from it. */
  ghost predicate OwnStands(net: Network, id: string)
    requires id in net.nodes
  {
    var n := net.nodes[id];
    n.published.Some? ==>
      && id in n.state.entries && n.state.entries[id].info == n.published.value
      && forall p {:trigger Best(n.state.entries, p)} | p in net.log && p.id == id :: Best(n.state.entries, p)
  }

  ghost predicate Sound(net: Network) {
    Unambiguous(net.log) && forall id {:trigger OwnStands(net, id)} | id in net.nodes :: OwnStands(net, id)
  }

  /** The network is sound after every prefix of the run. */
  ghost predicate AlwaysSound(net: Network, lives: seq<Life>) {
    Sound(Lives(net, lives)) && (lives != [] ==> AlwaysSound(net, lives[..|lives| - 1]))
  }

  /** A publication is newer than all earlier ones of the node, in all its lives, or repeats one. */
  ghost predicate FreshLife(net: Network, l: Life) {
    l.Act? && l.event.Publish? && l.event.id in net.nodes ==> Fresh(net, l.event.id, l.event.info)
  }

  ghost predicate AllFresh(net: Network, lives: seq<Life>) {
    || lives == []
    || (AllFresh(net, lives[..|lives| - 1]) && FreshLife(Lives(net, lives[..|lives| - 1]), lives[|lives| - 1]))
  }

  /** With a running clock: it has reached that of every earlier publication, except for a repetition. */
  lemma FreshByClock(net: Network, id: string, info: Info)
    requires id in net.nodes && net.nodes[id].state.lamport < U64_MAX
    requires forall p | p in net.log :: p.entry.version.author == p.id
    ensures Fresh(net, id, info) <==>
            forall p | p in net.log && p.id == id ::
              p.entry.version.lamport <= net.nodes[id].state.lamport || p == Upcoming(net, id, info)
  {
    LessTotal(id, id);
  }

  // ---------------------------------------------------------------- the invariant

  ghost predicate NodeKnown(net: Network, id: string)
    requires id in net.nodes
  {
    KnownState(net, net.nodes[id].state, net.nodes[id].seen)
  }

  ghost predicate InvR(net: Network) {
    && LogOk(net)
    && (forall id {:trigger NodeKnown(net, id)} | id in net.nodes :: NodeKnown(net, id))
    && (forall id {:trigger OwnStands(net, id)} | id in net.nodes :: OwnStands(net, id))
    && (forall k: nat {:trigger MessageOk(net, k)} | k < |net.messages| :: MessageOk(net, k))
  }

  lemma LivePublish(net: Network, id: string, info: Info)
    requires InvR(net) && id in net.nodes && Fresh(net, id, info)
    ensures InvR(Publishing(net, id, info))
  {
    var net' := Publishing(net, id, info);
    assert NodeKnown(net, id);
    PublishKnown(net, id, info);
    PublishLog(net, id, info);
    forall k | k in net'.nodes && k != id ensures NodeKnown(net', k) && OwnStands(net', k) {
      assert NodeKnown(net, k) && OwnStands(net, k);
      GrowLog(net, net', net.nodes[k].state, net.nodes[k].seen);
    }
    forall k: nat | k < |net'.messages| ensures MessageOk(net', k) {
      assert MessageOk(net, k);
      GrowLog(net, net', net.messages[k].state, net.messages[k].seen);
    }
    assert NodeKnown(net', id) && OwnStands(net', id);
  }

  /** A delivery leaves the entry of a node that has published since its start alone. */
  lemma LiveDeliver(net: Network, to: string, k: nat)
    requires InvR(net) && to in net.nodes && k < |net.messages|
    ensures InvR(Delivered(net, to, net.messages[k]))
    ensures var own, own' := net.nodes[to].state.entries, Delivered(net, to, net.messages[k]).nodes[to].state.entries;
            net.nodes[to].published.Some? ==> to in own && to in own' && own'[to] == own[to]
  {
    var m, n := net.messages[k], net.nodes[to];
    var net' := Delivered(net, to, m);
    assert NodeKnown(net, to) && OwnStands(net, to) && MessageOk(net, k);
    KnowsMerged(n.state.entries, n.seen, m.state.entries, m.seen);
    if to in m.state.entries {
      assert Origin(m.state.entries, m.seen, to);
      var p := Publication(to, m.state.entries[to]);
      assert p in net.log && (n.published.Some? ==> Best(n.state.entries, p));
    }
    if n.published.Some? {
      forall p | p in net'.log && p.id == to ensures Best(net'.nodes[to].state.entries, p) {
        assert Best(n.state.entries, p);
        MergedBest(n.state.entries, m.state.entries, p);
      }
    }
    assert NodeKnown(net', to) && OwnStands(net', to);
    forall id | id in net'.nodes && id != to ensures NodeKnown(net', id) && OwnStands(net', id) {
      assert NodeKnown(net, id) && OwnStands(net, id);
    }
    forall j: nat | j < |net'.messages| ensures MessageOk(net', j) {
      assert MessageOk(net, j);
    }
  }

  lemma LiveSend(net: Network, from: string)
    requires InvR(net) && from in net.nodes
    ensures InvR(Step(net, Send(from)))
  {
    var net' := Step(net, Send(from));
    assert NodeKnown(net, from);
    forall id | id in net'.nodes ensures NodeKnown(net', id) && OwnStands(net', id) {
      assert NodeKnown(net, id) && OwnStands(net, id);
    }
    forall k: nat | k < |net'.messages| ensures MessageOk(net', k) {
      assert k < |net.messages| ==> MessageOk(net, k);
    }
  }

  lemma LiveRestart(net: Network, id: string)
    requires InvR(net) && id in net.nodes
    ensures InvR(Live(net, Restart(id)))
  {
    var net' := Live(net, Restart(id));
    forall k | k in net'.nodes ensures NodeKnown(net', k) && OwnStands(net', k) {
      assert NodeKnown(net, k) && OwnStands(net, k);
    }
    forall k: nat | k < |net'.messages| ensures MessageOk(net', k) {
      assert MessageOk(net, k);
    }
  }

  lemma LiveInv(net: Network, l: Life)
    requires InvR(net) && FreshLife(net, l)
    ensures InvR(Live(net, l)) && Live(net, l).nodes.Keys == net.nodes.Keys
  {
    match l
    case Act(Publish(id, info)) =>
      if id in net.nodes {
        LivePublish(net, id, info);
      }
    case Act(Send(from)) =>
      if from in net.nodes {
        LiveSend(net, from);
      }
    case Act(Deliver(to, k)) =>
      if to in net.nodes && k < |net.messages| {
        LiveDeliver(net, to, k);
      }
    case Restart(id) =>
      if id in net.nodes {
        LiveRestart(net, id);
      }
  }

  lemma {:induction false} LivesInv(ids: set<string>, lives: seq<Life>)
    requires AllFresh(Init(ids), lives)
    ensures InvR(Lives(Init(ids), lives)) && Lives(Init(ids), lives).nodes.Keys == ids
  {
    if lives != [] {
      LivesInv(ids, lives[..|lives| - 1]);
      LiveInv(Lives(Init(ids), lives[..|lives| - 1]), lives[|lives| - 1]);
    }
  }

  // ---------------------------------------------------------------- the exact condition

  /** A publication that is not fresh is ambiguous, or older than one that others may have. */
  lemma StaleUnsound(net: Network, l: Life)
    requires !FreshLife(net, l)
    ensures !Sound(Live(net, l))
  {
    var id, info := l.event.id, l.event.info;
    var net', q := Live(net, l), Upcoming(net, id, info);
    var p :| p in net.log && p.id == id && !(Newer(q.entry.version, p.entry.version) || p == q);
    NewerTotal(q.entry.version, p.entry.version);
    assert p in net'.log && q in net'.log;
    assert net'.nodes[id].state.entries[id] == q.entry;
    assert Newer(p.entry.version, q.entry.version) ==> !Best(net'.nodes[id].state.entries, p) && !OwnStands(net', id);
  }

  /**
   In every run with restarts: versions are unambiguous, and every node that has published since its start
   holds the newest entry for its id, namely that publication, at all times, if and only if every
   publication is newer than all earlier ones of the node or repeats one.
   */
  lemma {:induction false} SoundExactly(ids: set<string>, lives: seq<Life>)
    ensures AlwaysSound(Init(ids), lives) <==> AllFresh(Init(ids), lives)
  {
    if lives != [] {
      var front := lives[..|lives| - 1];
      SoundExactly(ids, front);
      if AllFresh(Init(ids), front) {
        LivesInv(ids, front);
        if FreshLife(Lives(Init(ids), front), lives[|lives| - 1]) {
          LivesInv(ids, lives);
        } else {
          StaleUnsound(Lives(Init(ids), front), lives[|lives| - 1]);
        }
      }
    }
  }

  /** In those runs, nodes that merged the same publications since their start agree. */
  lemma LivesConverge(ids: set<string>, lives: seq<Life>, a: string, b: string)
    requires AllFresh(Init(ids), lives) && a in ids && b in ids
    ensures Lives(Init(ids), lives).nodes.Keys == ids
    ensures var net := Lives(Init(ids), lives);
            net.nodes[a].seen == net.nodes[b].seen ==> net.nodes[a].state.entries == net.nodes[b].state.entries
  {
    LivesInv(ids, lives);
    var net := Lives(Init(ids), lives);
    assert NodeKnown(net, a) && NodeKnown(net, b);
    if net.nodes[a].seen == net.nodes[b].seen {
      SameEntries(net.log, net.nodes[a].state.entries, net.nodes[b].state.entries, net.nodes[a].seen);
    }
  }

  /** In those runs, no `apply` replaces the entry of a node that has published since its start. */
  lemma LivesKeepOwn(ids: set<string>, lives: seq<Life>, to: string, k: nat)
    requires AllFresh(Init(ids), lives) && to in ids
    ensures Lives(Init(ids), lives).nodes.Keys == ids
    ensures var net := Lives(Init(ids), lives);
            var own, own' := net.nodes[to].state.entries, Live(net, Act(Deliver(to, k))).nodes[to].state.entries;
            net.nodes[to].published.Some? ==> to in own && to in own' && own'[to] == own[to]
  {
    LivesInv(ids, lives);
    var net := Lives(Init(ids), lives);
    assert OwnStands(net, to);
    if k < |net.messages| {
      LiveDeliver(net, to, k);
    }
  }

  // ---------------------------------------------------------------- a restarted node that publishes too early

  /** Two publications, a message, a restart, and a publication before anything was merged. */
  function TooEarly(a: string, x: Info, y: Info): seq<Life> {
    [Act(Publish(a, x)), Act(Publish(a, x)), Act(Send(a)), Restart(a), Act(Publish(a, y)), Act(Deliver(a, 0))]
  }

  /** The node's own older entry comes back and replaces the new one. */
  lemma RestartOverwritten(a: string, x: Info, y: Info)
    requires x != y
    ensures var net := Lives(Init({a}), TooEarly(a, x, y));
            && a in net.nodes && net.nodes[a].published == Some(y)
            && a in net.nodes[a].state.entries && net.nodes[a].state.entries[a].info == x
  {
    var all := TooEarly(a, x, y);
    var n0 := Init({a});
    var n1 := Live(n0, all[0]);
    var n2 := Live(n1, all[1]);
    var n3 := Live(n2, all[2]);
    var n4 := Live(n3, all[3]);
    var n5 := Live(n4, all[4]);
    assert n3.messages[0].state.entries == map[a := Entry(x, Version(2, a))];
    assert n5.nodes[a].state.entries == map[a := Entry(y, Version(1, a))] && n5.messages == n3.messages;
    assert Newer(Version(2, a), Version(1, a));
    SixLives(n0, all);
  }

  lemma SixLives(net: Network, all: seq<Life>)
    requires |all| == 6
    ensures Lives(net, all) == Live(Live(Live(Live(Live(Live(net, all[0]), all[1]), all[2]), all[3]), all[4]), all[5])
  {
    assert all[..5][..4] == all[..4] && all[..4][..3] == all[..3] && all[..3][..2] == all[..2];
    assert all[..2][..1] == all[..1] && all[..1][..0] == [];
    assert Lives(net, all[..1]) == Live(net, all[0]);
    assert Lives(net, all[..2]) == Live(Lives(net, all[..1]), all[1]);
    assert Lives(net, all[..3]) == Live(Lives(net, all[..2]), all[2]);
    assert Lives(net, all[..4]) == Live(Lives(net, all[..3]), all[3]);
    assert Lives(net, all[..5]) == Live(Lives(net, all[..4]), all[4]);
  }
}
