/**
 A network of gossiping nodes (crates/opsense-mlib/src/gossip.rs). Each id is published only by
 its own node. A message is a copy of the sender's state; it may be delivered to any node, any
 number of times, at any later moment, or never. `seen` and `log` record, for the proofs, which
 publications a state has merged and which were ever made.
 */
module GossipNetwork {
  import opened Gossip
  import opened Words
  import opened Wrappers

  datatype Node = Node(state: State, published: Option<Info>, seen: set<Publication>)

  datatype Message = Message(state: State, seen: set<Publication>)

  datatype Network = Network(nodes: map<string, Node>, messages: seq<Message>, log: set<Publication>)

  datatype Event =
    | Publish(id: string, info: Info)
    | Send(from: string)
    | Deliver(to: string, message: nat)

  ghost function Step(net: Network, e: Event): Network {
    match e
    case Publish(id, info) => if id in net.nodes then Publishing(net, id, info) else net
    case Send(from) =>
      if from !in net.nodes then net
      else net.(messages := net.messages + [Message(net.nodes[from].state, net.nodes[from].seen)])
    case Deliver(to, k) => if to in net.nodes && k < |net.messages| then Delivered(net, to, net.messages[k]) else net
  }

  ghost function Publishing(net: Network, id: string, info: Info): Network
    requires id in net.nodes
  {
    var n := net.nodes[id];
    var state := WithLocal(n.state, id, info);
    var p := Publication(id, state.entries[id]);
    net.(nodes := net.nodes[id := Node(state, Some(info), n.seen + {p})], log := net.log + {p})
  }

  ghost function Delivered(net: Network, to: string, m: Message): Network
    requires to in net.nodes
  {
    var n := net.nodes[to];
    net.(nodes := net.nodes[to := Node(Merged(n.state, m.state), n.published, n.seen + m.seen)])
  }

  ghost function Init(ids: set<string>): Network {
    Network(map id | id in ids :: Node(State(0, map[]), None, {}), [], {})
  }

  ghost function Run(net: Network, events: seq<Event>): Network {
    if events == [] then net else Step(Run(net, events[..|events| - 1]), events[|events| - 1])
  }

  /** What a node is about to publish. */
  ghost function Upcoming(net: Network, id: string, info: Info): Publication
    requires id in net.nodes
  {
    Publication(id, Entry(info, Version(Increment(net.nodes[id].state.lamport), id)))
  }

  /** It is newer than everything the node has ever published, or has been published already. */
  ghost predicate Fresh(net: Network, id: string, info: Info)
    requires id in net.nodes
  {
    var q := Upcoming(net, id, info);
    forall p | p in net.log && p.id == id :: Newer(q.entry.version, p.entry.version) || p == q
  }

  /**
   What the node itself can see before it publishes: its clock still runs, or it has no own entry of the
   largest version yet, or it repeats the info of that entry.
   */
  ghost predicate Safe(net: Network, e: Event) {
    e.Publish? && e.id in net.nodes ==>
      var s := net.nodes[e.id].state;
      || s.lamport < U64_MAX || e.id !in s.entries || s.entries[e.id].version.lamport < U64_MAX
      || s.entries[e.id].info == e.info
  }

  /** Every publication of the run is safe. */
  ghost predicate AllSafe(net: Network, events: seq<Event>) {
    || events == []
    || (AllSafe(net, events[..|events| - 1]) && Safe(Run(net, events[..|events| - 1]), events[|events| - 1]))
  }

  // ---------------------------------------------------------------- the invariant

  ghost predicate Dated(seen: set<Publication>, lamport: U64) {
    forall p | p in seen :: p.entry.version.lamport <= lamport
  }

  ghost predicate KnownState(net: Network, s: State, seen: set<Publication>) {
    Knows(s.entries, seen) && seen <= net.log && Dated(seen, s.lamport)
  }

  ghost predicate OwnOk(net: Network, id: string)
    requires id in net.nodes
  {
    var n := net.nodes[id];
    && (forall p {:trigger Best(n.state.entries, p)} | p in net.log && p.id == id :: Best(n.state.entries, p))
    && (match n.published
        case None => id !in n.state.entries
        case Some(info) => id in n.state.entries && n.state.entries[id].info == info)
  }

  ghost predicate NodeOk(net: Network, id: string)
    requires id in net.nodes
  {
    KnownState(net, net.nodes[id].state, net.nodes[id].seen) && OwnOk(net, id)
  }

  ghost predicate MessageOk(net: Network, k: nat)
    requires k < |net.messages|
  {
    KnownState(net, net.messages[k].state, net.messages[k].seen)
  }

  ghost predicate LogOk(net: Network) {
    Unambiguous(net.log) && forall p | p in net.log :: p.id in net.nodes && p.entry.version.author == p.id
  }

  ghost predicate Inv(net: Network) {
    && LogOk(net)
    && (forall id {:trigger NodeOk(net, id)} | id in net.nodes :: NodeOk(net, id))
    && (forall k: nat {:trigger MessageOk(net, k)} | k < |net.messages| :: MessageOk(net, k))
  }

  lemma InitInv(ids: set<string>)
    ensures Inv(Init(ids))
  {
  }

  lemma GrowLog(net: Network, net': Network, s: State, seen: set<Publication>)
    requires KnownState(net, s, seen) && net.log <= net'.log
    ensures KnownState(net', s, seen)
  {
  }

  /** Without restarts, what the node can see decides whether its publication is fresh. */
  lemma SafeIsFresh(net: Network, id: string, info: Info)
    requires Inv(net) && id in net.nodes
    ensures Safe(net, Publish(id, info)) <==> Fresh(net, id, info)
  {
    var s, q := net.nodes[id].state, Upcoming(net, id, info);
    assert NodeOk(net, id);
    if Safe(net, Publish(id, info)) {
      forall p | p in net.log && p.id == id ensures Newer(q.entry.version, p.entry.version) || p == q {
        assert Best(s.entries, p);
        assert Origin(s.entries, net.nodes[id].seen, id);
        OwnVersions(net, id, p);
      }
    } else {
      var p := Publication(id, s.entries[id]);
      assert Origin(s.entries, net.nodes[id].seen, id);
      NewerTotal(p.entry.version, p.entry.version);
      assert p in net.log && p != q && p.entry.version == q.entry.version;
    }
  }

  /** Publications of one node are ordered by their clocks. */
  lemma OwnVersions(net: Network, id: string, p: Publication)
    requires Inv(net) && id in net.nodes && p in net.log && p.id == id
    ensures var s := net.nodes[id].state;
            && id in s.entries && p.entry.version.lamport <= s.entries[id].version.lamport <= s.lamport
            && p.entry.version.author == s.entries[id].version.author == id
            && (p.entry.version == s.entries[id].version ==> p.entry == s.entries[id])
  {
    var s := net.nodes[id].state;
    assert NodeOk(net, id);
    assert Best(s.entries, p) && Origin(s.entries, net.nodes[id].seen, id);
    LessTotal(id, id);
  }

  lemma PublishKnown(net: Network, id: string, info: Info)
    requires id in net.nodes && KnownState(net, net.nodes[id].state, net.nodes[id].seen) && Fresh(net, id, info)
    ensures var net' := Publishing(net, id, info);
            && KnownState(net', net'.nodes[id].state, net'.nodes[id].seen)
            && forall p | p in net'.log && p.id == id :: Best(net'.nodes[id].state.entries, p)
  {
    var n, net' := net.nodes[id], Publishing(net, id, info);
    var n', q := net'.nodes[id], Upcoming(net, id, info);
    forall k | k in n'.state.entries ensures Origin(n'.state.entries, n'.seen, k) {
      assert k != id ==> Origin(n.state.entries, n.seen, k);
    }
    NewerTotal(q.entry.version, q.entry.version);
    forall p | p in net'.log && p.id == id ensures Best(n'.state.entries, p) {
      NewerTotal(q.entry.version, p.entry.version);
    }
    forall p | p in n'.seen ensures Best(n'.state.entries, p) {
      assert p in n.seen ==> Best(n.state.entries, p);
    }
  }

  lemma PublishLog(net: Network, id: string, info: Info)
    requires LogOk(net) && id in net.nodes && Fresh(net, id, info)
    ensures LogOk(Publishing(net, id, info))
  {
    var v := Upcoming(net, id, info).entry.version;
    NewerTotal(v, v);
  }

  lemma PublishInv(net: Network, id: string, info: Info)
    requires Inv(net) && id in net.nodes && Safe(net, Publish(id, info))
    ensures Inv(Publishing(net, id, info))
  {
    var net' := Publishing(net, id, info);
    assert NodeOk(net, id);
    SafeIsFresh(net, id, info);
    PublishKnown(net, id, info);
    PublishLog(net, id, info);
    forall k | k in net'.nodes && k != id ensures NodeOk(net', k) {
      assert NodeOk(net, k);
      GrowLog(net, net', net.nodes[k].state, net.nodes[k].seen);
    }
    forall k: nat | k < |net'.messages| ensures MessageOk(net', k) {
      assert MessageOk(net, k);
      GrowLog(net, net', net.messages[k].state, net.messages[k].seen);
    }
  }

  /** An entry for `id` in any state of the system is not newer than the entry of node `id` itself. */
  lemma OwnIsNewest(net: Network, s: State, seen: set<Publication>, id: string)
    requires Inv(net) && KnownState(net, s, seen) && id in s.entries
    ensures id in net.nodes && id in net.nodes[id].state.entries
    ensures !Newer(s.entries[id].version, net.nodes[id].state.entries[id].version)
  {
    var p := Publication(id, s.entries[id]);
    assert Origin(s.entries, seen, id);
    assert p in net.log && id in net.nodes;
    assert NodeOk(net, id);
    assert Best(net.nodes[id].state.entries, p);
  }

  lemma DeliverInv(net: Network, to: string, k: nat)
    requires Inv(net) && to in net.nodes && k < |net.messages|
    ensures Inv(Delivered(net, to, net.messages[k]))
    ensures var own, own' := net.nodes[to].state.entries, Delivered(net, to, net.messages[k]).nodes[to].state.entries;
            (to in own <==> to in own') && (to in own ==> own'[to] == own[to])
  {
    var m, n := net.messages[k], net.nodes[to];
    var net' := Delivered(net, to, m);
    assert NodeOk(net, to) && MessageOk(net, k);
    KnowsMerged(n.state.entries, n.seen, m.state.entries, m.seen);
    if to in m.state.entries {
      OwnIsNewest(net, m.state, m.seen, to);
    }
    forall p | p in net'.log && p.id == to ensures Best(net'.nodes[to].state.entries, p) {
      assert Best(n.state.entries, p);
      MergedBest(n.state.entries, m.state.entries, p);
    }
    assert NodeOk(net', to);
    forall id | id in net'.nodes && id != to ensures NodeOk(net', id) {
      assert NodeOk(net, id);
    }
    forall j: nat | j < |net'.messages| ensures MessageOk(net', j) {
      assert MessageOk(net, j);
    }
  }

  lemma SendInv(net: Network, from: string)
    requires Inv(net) && from in net.nodes
    ensures Inv(Step(net, Send(from)))
  {
    var net' := Step(net, Send(from));
    assert NodeOk(net, from);
    forall id | id in net'.nodes ensures NodeOk(net', id) {
      assert NodeOk(net, id);
    }
    forall k: nat | k < |net'.messages| ensures MessageOk(net', k) {
      assert k < |net.messages| ==> MessageOk(net, k);
    }
  }

  lemma StepInv(net: Network, e: Event)
    requires Inv(net) && Safe(net, e)
    ensures Inv(Step(net, e)) && Step(net, e).nodes.Keys == net.nodes.Keys
  {
    match e
    case Publish(id, info) =>
      if id in net.nodes {
        PublishInv(net, id, info);
      }
    case Send(from) =>
      if from in net.nodes {
        SendInv(net, from);
      }
    case Deliver(to, k) =>
      if to in net.nodes && k < |net.messages| {
        DeliverInv(net, to, k);
      }
  }

  /** The invariant holds after every run of safe publications. */
  lemma {:induction false} RunInv(net: Network, events: seq<Event>)
    requires Inv(net) && AllSafe(net, events)
    ensures Inv(Run(net, events)) && Run(net, events).nodes.Keys == net.nodes.Keys
  {
    if events != [] {
      var front := events[..|events| - 1];
      RunInv(net, front);
      StepInv(Run(net, front), events[|events| - 1]);
    }
  }

  // ---------------------------------------------------------------- convergence

  lemma SameEntries(log: set<Publication>, a: Entries, b: Entries, seen: set<Publication>)
    requires Unambiguous(log) && seen <= log && Knows(a, seen) && Knows(b, seen)
    ensures a == b
  {
    forall id | id in a ensures id in b && b[id] == a[id] {
      SameEntry(log, a, b, seen, id);
    }
    forall id | id in b ensures id in a {
      assert Origin(b, seen, id);
      assert Best(a, Publication(id, b[id]));
    }
  }

  lemma SameEntry(log: set<Publication>, a: Entries, b: Entries, seen: set<Publication>, id: string)
    requires Unambiguous(log) && seen <= log && Knows(a, seen) && Knows(b, seen) && id in a
    ensures id in b && b[id] == a[id]
  {
    assert Origin(a, seen, id);
    assert Best(b, Publication(id, a[id]));
    assert Origin(b, seen, id);
    assert Best(a, Publication(id, b[id]));
    NewerTotal(a[id].version, b[id].version);
    assert Publication(id, a[id]) == Publication(id, b[id]);
  }

  /** Nodes that have merged the same publications agree, whatever the order, repetition or relaying. */
  lemma Convergence(ids: set<string>, events: seq<Event>, a: string, b: string)
    requires AllSafe(Init(ids), events) && a in ids && b in ids
    ensures Run(Init(ids), events).nodes.Keys == ids
    ensures var net := Run(Init(ids), events);
            net.nodes[a].seen == net.nodes[b].seen ==>
              && net.nodes[a].state.entries == net.nodes[b].state.entries
              && Snapshot(net.nodes[a].state.entries) == Snapshot(net.nodes[b].state.entries)
  {
    InitInv(ids);
    RunInv(Init(ids), events);
    var net := Run(Init(ids), events);
    assert NodeOk(net, a) && NodeOk(net, b);
    if net.nodes[a].seen == net.nodes[b].seen {
      SameEntries(net.log, net.nodes[a].state.entries, net.nodes[b].state.entries, net.nodes[a].seen);
    }
  }

  /**
   In every run, no node holds a newer entry for `id` than node `id` itself, whose entry is what it published
   last.
   */
  lemma OwnEntry(ids: set<string>, events: seq<Event>, id: string, other: string)
    requires AllSafe(Init(ids), events) && id in ids && other in ids
    ensures Run(Init(ids), events).nodes.Keys == ids
    ensures var net := Run(Init(ids), events);
            var own, there := net.nodes[id].state.entries, net.nodes[other].state.entries;
            && (id in there ==> id in own && !Newer(there[id].version, own[id].version))
            && (match net.nodes[id].published
                case None => id !in own
                case Some(info) => id in own && own[id].info == info)
  {
    InitInv(ids);
    RunInv(Init(ids), events);
    var net := Run(Init(ids), events);
    assert NodeOk(net, id) && NodeOk(net, other);
    if id in net.nodes[other].state.entries {
      OwnIsNewest(net, net.nodes[other].state, net.nodes[other].seen, id);
    }
  }

  /** No `apply` ever replaces a node's own entry. */
  lemma OwnEntryKept(ids: set<string>, events: seq<Event>, to: string, k: nat)
    requires AllSafe(Init(ids), events) && to in ids
    ensures Run(Init(ids), events).nodes.Keys == ids
    ensures var net := Run(Init(ids), events);
            var own, own' := net.nodes[to].state.entries, Step(net, Deliver(to, k)).nodes[to].state.entries;
            (to in own <==> to in own') && (to in own ==> own'[to] == own[to])
  {
    InitInv(ids);
    RunInv(Init(ids), events);
    var net := Run(Init(ids), events);
    if k < |net.messages| {
      DeliverInv(net, to, k);
    }
  }

  // ---------------------------------------------------------------- at the limit of the clock

  /** An unsafe publication puts two infos of one version into the log. */
  lemma UnsafeAmbiguous(net: Network, e: Event)
    requires Inv(net) && !Safe(net, e)
    ensures !Unambiguous(Step(net, e).log)
  {
    var s, q := net.nodes[e.id].state, Upcoming(net, e.id, e.info);
    var p := Publication(e.id, s.entries[e.id]);
    assert NodeOk(net, e.id);
    assert Origin(s.entries, net.nodes[e.id].seen, e.id);
    assert p in net.log && p != q && p.entry.version == q.entry.version;
    assert p in Step(net, e).log && q in Step(net, e).log;
  }

  lemma LogGrows(net: Network, e: Event)
    ensures net.log <= Step(net, e).log
  {
  }

  /** In every run: no two infos were published under one version if and only if every publication was safe. */
  lemma {:induction false} UnambiguousExactly(ids: set<string>, events: seq<Event>)
    ensures Unambiguous(Run(Init(ids), events).log) <==> AllSafe(Init(ids), events)
  {
    if events != [] {
      var front, e := events[..|events| - 1], events[|events| - 1];
      var before := Run(Init(ids), front);
      UnambiguousExactly(ids, front);
      LogGrows(before, e);
      if AllSafe(Init(ids), front) {
        InitInv(ids);
        RunInv(Init(ids), front);
        if Safe(before, e) {
          StepInv(before, e);
        } else {
          UnsafeAmbiguous(before, e);
        }
      }
    }
  }

  lemma {:induction false} RunAppend(net: Network, a: seq<Event>, b: seq<Event>)
    ensures Run(net, a + b) == Run(Run(net, a), b)
  {
    if b == [] {
      assert a + b == a;
    } else {
      var front := b[..|b| - 1];
      RunAppend(net, a, front);
      assert (a + b)[..|a + b| - 1] == a + front;
    }
  }

  function Repeat(e: Event, k: nat): seq<Event> {
    seq(k, i => e)
  }

  /** After `k` publications by `a` its clock is `k`; nobody else has heard. */
  lemma {:induction false} Climb(ids: set<string>, a: string, x: Info, k: nat)
    requires a in ids && k <= U64_MAX
    ensures var net, start := Run(Init(ids), Repeat(Publish(a, x), k)), Init(ids);
            && net.nodes.Keys == ids && net.messages == []
            && (forall id | id in ids && id != a :: net.nodes[id] == start.nodes[id])
            && net.nodes[a].state.lamport == k
            && (k > 0 ==> net.nodes[a].state.entries == map[a := Entry(x, Version(k, a))])
            && (k == 0 ==> net.nodes[a].state.entries == map[])
  {
    if k > 0 {
      Climb(ids, a, x, k - 1);
      assert Repeat(Publish(a, x), k)[..k - 1] == Repeat(Publish(a, x), k - 1);
    }
  }

  /** A node without entries that gets two messages with one version keeps the first. */
  lemma FirstOfEqualStays(net: Network, n: string, j: nat, k: nat, a: string, e: Entry, f: Entry)
    requires n in net.nodes && j < |net.messages| && k < |net.messages|
    requires net.nodes[n].state.entries == map[] && net.nodes[n].seen == {}
    requires net.messages[j].state.entries == map[a := e] && net.messages[k].state.entries == map[a := f]
             && e.version == f.version
    ensures var net' := Step(Step(net, Deliver(n, j)), Deliver(n, k));
            && net'.nodes == net.nodes[n := net'.nodes[n]] && net'.messages == net.messages
            && net'.nodes[n].state.entries == map[a := e]
            && net'.nodes[n].seen == net.messages[j].seen + net.messages[k].seen
  {
    NewerTotal(e.version, e.version);
    assert MergedEntries(map[], map[a := e]) == map[a := e];
    assert MergedEntries(map[a := e], map[a := f]) == map[a := e];
  }

  /** What is left to do after the climb. */
  function Divergence(a: string, b: string, c: string, y: Info): seq<Event> {
    [Send(a)] + ([Publish(a, y)] + ([Send(a)] + Exchange(b, c)))
  }

  /** Both messages for `b`, and in the opposite order for `c`. */
  function Exchange(b: string, c: string): seq<Event> {
    [Deliver(b, 0)] + ([Deliver(b, 1)] + ([Deliver(c, 1)] + ([Deliver(c, 0)] + [])))
  }

  /**
   A node that publishes with its clock at the limit breaks convergence: two others that have
   merged the same publications, in opposite orders, keep different info for it.
   */
  lemma SaturatedRunDiverges(a: string, b: string, c: string, x: Info, y: Info) returns (events: seq<Event>)
    requires a != b && a != c && b != c && x != y
    ensures var net := Run(Init({a, b, c}), events);
            && net.nodes.Keys == {a, b, c} && net.nodes[b].seen == net.nodes[c].seen
            && net.nodes[b].state.entries == map[a := Entry(x, Version(U64_MAX, a))]
            && net.nodes[c].state.entries == map[a := Entry(y, Version(U64_MAX, a))]
  {
    var ids, climb, rest := {a, b, c}, Repeat(Publish(a, x), U64_MAX), Divergence(a, b, c, y);
    events := climb + rest;
    Climb(ids, a, x, U64_MAX);
    RunAppend(Init(ids), climb, rest);
    var top := Run(Init(ids), climb);
    var sent := Step(Step(Step(top, Send(a)), Publish(a, y)), Send(a));
    SentTwice(top, a, b, c, x, y);
    FirstOfEqualStays(sent, b, 0, 1, a, Entry(x, Version(U64_MAX, a)), Entry(y, Version(U64_MAX, a)));
    var there := Step(Step(sent, Deliver(b, 0)), Deliver(b, 1));
    FirstOfEqualStays(there, c, 1, 0, a, Entry(y, Version(U64_MAX, a)), Entry(x, Version(U64_MAX, a)));
    RunsDivergence(top, a, b, c, y);
  }

  lemma SentTwice(top: Network, a: string, b: string, c: string, x: Info, y: Info)
    requires a != b && a != c && top.nodes.Keys == {a, b, c} && top.messages == []
    requires top.nodes[a].state == State(U64_MAX, map[a := Entry(x, Version(U64_MAX, a))])
    ensures var sent := Step(Step(Step(top, Send(a)), Publish(a, y)), Send(a));
            && sent.nodes.Keys == {a, b, c} && sent.nodes[b] == top.nodes[b] && sent.nodes[c] == top.nodes[c]
            && |sent.messages| == 2
            && sent.messages[0].state.entries == map[a := Entry(x, Version(U64_MAX, a))]
            && sent.messages[1].state.entries == map[a := Entry(y, Version(U64_MAX, a))]
  {
  }

  /** The seven steps one after the other. */
  lemma RunsDivergence(top: Network, a: string, b: string, c: string, y: Info)
    ensures var sent := Step(Step(Step(top, Send(a)), Publish(a, y)), Send(a));
            Run(top, Divergence(a, b, c, y)) ==
            Step(Step(Step(Step(sent, Deliver(b, 0)), Deliver(b, 1)), Deliver(c, 1)), Deliver(c, 0))
  {
    var n1 := Step(top, Send(a));
    var n2 := Step(n1, Publish(a, y));
    RunCons(top, Send(a), [Publish(a, y)] + ([Send(a)] + Exchange(b, c)));
    RunCons(n1, Publish(a, y), [Send(a)] + Exchange(b, c));
    RunCons(n2, Send(a), Exchange(b, c));
    RunsExchange(Step(n2, Send(a)), b, c);
  }

  lemma RunsExchange(net: Network, b: string, c: string)
    ensures Run(net, Exchange(b, c)) ==
            Step(Step(Step(Step(net, Deliver(b, 0)), Deliver(b, 1)), Deliver(c, 1)), Deliver(c, 0))
  {
    var n1 := Step(net, Deliver(b, 0));
    var n2 := Step(n1, Deliver(b, 1));
    var n3 := Step(n2, Deliver(c, 1));
    RunCons(net, Deliver(b, 0), [Deliver(b, 1)] + ([Deliver(c, 1)] + ([Deliver(c, 0)] + [])));
    RunCons(n1, Deliver(b, 1), [Deliver(c, 1)] + ([Deliver(c, 0)] + []));
    RunCons(n2, Deliver(c, 1), [Deliver(c, 0)] + []);
    RunCons(n3, Deliver(c, 0), []);
  }

  lemma RunCons(net: Network, e: Event, rest: seq<Event>)
    ensures Run(net, [e] + rest) == Run(Step(net, e), rest)
  {
    RunAppend(net, [e], rest);
    assert [e][..0] == [];
    assert Run(net, [e]) == Step(Run(net, []), e);
  }

  // ---------------------------------------------------------------- quiescence

  /** What a node is still missing: publications newer than its entry. */
  ghost function Missing(net: Network): set<(string, Publication)> {
    set id, p | id in net.nodes && p in net.log && !Best(net.nodes[id].state.entries, p) :: (id, p)
  }

  /** The delivery makes `apply` return true. */
  ghost predicate Changing(net: Network, e: Event) {
    e.Deliver? && e.to in net.nodes && e.message < |net.messages|
    && Changes(net.nodes[e.to].state.entries, net.messages[e.message].state.entries)
  }

  ghost function ChangeCount(net: Network, events: seq<Event>): nat {
    if events == [] then 0
    else
      var front := events[..|events| - 1];
      ChangeCount(net, front) + if Changing(Run(net, front), events[|events| - 1]) then 1 else 0
  }

  lemma MissingShrinks(net: Network, to: string, k: nat)
    requires Inv(net) && to in net.nodes && k < |net.messages|
    ensures Missing(Delivered(net, to, net.messages[k])) <= Missing(net)
    ensures Changing(net, Deliver(to, k)) ==> Missing(Delivered(net, to, net.messages[k])) < Missing(net)
  {
    var m, own := net.messages[k], net.nodes[to].state.entries;
    var net' := Delivered(net, to, m);
    forall p | Best(own, p) ensures Best(net'.nodes[to].state.entries, p) {
      MergedBest(own, m.state.entries, p);
    }
    if Changing(net, Deliver(to, k)) {
      var id :| id in m.state.entries && Wins(own, id, m.state.entries[id]);
      var p := Publication(id, m.state.entries[id]);
      assert MessageOk(net, k) && Origin(m.state.entries, m.seen, id);
      assert (to, p) in Missing(net);
      NewerTotal(p.entry.version, p.entry.version);
      assert Best(net'.nodes[to].state.entries, p);
      assert (to, p) !in Missing(net');
    }
  }

  lemma {:induction false} NoPublishSafe(net: Network, events: seq<Event>)
    requires forall i | 0 <= i < |events| :: !events[i].Publish?
    ensures AllSafe(net, events)
  {
    if events != [] {
      NoPublishSafe(net, events[..|events| - 1]);
    }
  }

  lemma Smaller<T>(a: set<T>, b: set<T>)
    requires a <= b
    ensures |a| <= |b| && (a < b ==> |a| < |b|)
  {
    var d := b - a;
    assert b == a + d;
    assert a < b ==> d != {};
  }

  /**
   Once publishing has stopped, only finitely many deliveries change anything: at most as many as there are
   missing publications.
   */
  lemma {:induction false} FinitelyManyChanges(net: Network, events: seq<Event>)
    requires Inv(net) && forall i | 0 <= i < |events| :: !events[i].Publish?
    ensures ChangeCount(net, events) + |Missing(Run(net, events))| <= |Missing(net)|
  {
    if events != [] {
      var front, e := events[..|events| - 1], events[|events| - 1];
      var before := Run(net, front);
      FinitelyManyChanges(net, front);
      NoPublishSafe(net, front);
      RunInv(net, front);
      if e.Deliver? && e.to in before.nodes && e.message < |before.messages| {
        MissingShrinks(before, e.to, e.message);
      }
      assert Missing(Step(before, e)) <= Missing(before);
      Smaller(Missing(Step(before, e)), Missing(before));
    }
  }

  /** Nothing is missing exactly when all nodes agree. */
  lemma NothingMissing(net: Network)
    requires Inv(net)
    ensures Missing(net) == {} <==> forall a, b | a in net.nodes && b in net.nodes ::
              net.nodes[a].state.entries == net.nodes[b].state.entries
  {
    if Missing(net) == {} {
      forall a, b | a in net.nodes && b in net.nodes ensures net.nodes[a].state.entries == net.nodes[b].state.entries {
        AllKnown(net, a);
        AllKnown(net, b);
        SameEntries(net.log, net.nodes[a].state.entries, net.nodes[b].state.entries, net.log);
      }
    } else {
      var id, p :| (id, p) in Missing(net);
      assert NodeOk(net, p.id);
      assert Best(net.nodes[p.id].state.entries, p);
    }
  }

  lemma AllKnown(net: Network, a: string)
    requires Inv(net) && Missing(net) == {} && a in net.nodes
    ensures Knows(net.nodes[a].state.entries, net.log)
  {
    var entries := net.nodes[a].state.entries;
    assert NodeOk(net, a);
    forall id | id in entries ensures Origin(entries, net.log, id) {
      assert Origin(entries, net.nodes[a].seen, id);
    }
    forall p | p in net.log ensures Best(entries, p) {
      assert (a, p) !in Missing(net);
    }
  }
}
