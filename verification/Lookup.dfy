/** One Kademlia lookup as a state machine: the run loop takes updates off a channel, and up to alpha workers
    query peers and put updates on it. */
module Lookup {
  import opened Peers

  datatype PeerState = Heard | Waiting | Queried | Unreachable

  type PeerStates = map<PeerId, PeerState>

  datatype Update = Update(cause: PeerId, heard: seq<PeerId>, queried: seq<PeerId>, unreachable: seq<PeerId>)

  /** What stays fixed during a lookup: our own id, the concurrency, how many closest peers must answer, the
      distance to the target, the seed peers, and the peers there are. */
  datatype Config = Config(self: PeerId, alpha: nat, beta: nat, dist: PeerId -> nat, seeds: seq<PeerId>,
                           universe: set<PeerId>)

  predicate ValidConfig(c: Config) {
    c.alpha > 0 && ToSet(c.seeds) <= c.universe
  }

  /** `running` are the workers that have not reported yet; `channel` holds reports not yet taken off.
      `processed`, `spawned` and `panicked` record what happened. */
  datatype State = State(peers: PeerStates, running: set<PeerId>, channel: seq<Update>, terminated: bool,
                         processed: nat, spawned: seq<PeerId>, panicked: bool)

  function InState(peers: PeerStates, st: PeerState): set<PeerId> {
    set p | p in peers && peers[p] == st
  }

  function Reachable(peers: PeerStates): set<PeerId> {
    set p | p in peers && peers[p] != Unreachable
  }

  // ---------------------------------------------------------------- updates

  datatype Outcome = Ok(peers: PeerStates) | Panic

  /** Peers heard of for the first time, other than ourselves, are added as Heard. */
  function WithHeard(peers: PeerStates, heard: seq<PeerId>, self: PeerId): PeerStates {
    map p | p in peers.Keys + (ToSet(heard) - {self}) :: if p in peers then peers[p] else Heard
  }

  /** Moves waiting peers to state `st`; any other peer makes the code panic. */
  function Marked(o: Outcome, ps: seq<PeerId>, st: PeerState, self: PeerId): Outcome
    decreases |ps|
  {
    if ps == [] || o.Panic? then o
    else
      var p := ps[0];
      if p == self then Marked(o, ps[1..], st, self)
      else if p in o.peers && o.peers[p] == Waiting then Marked(Ok(o.peers[p := st]), ps[1..], st, self)
      else Panic
  }

  function Updated(peers: PeerStates, u: Update, self: PeerId): Outcome {
    Marked(Marked(Ok(WithHeard(peers, u.heard, self)), u.queried, Queried, self), u.unreachable, Unreachable, self)
  }

  // ---------------------------------------------------------------- choosing peers

  /** `list` is the first `n` of `from` by distance (all of them if there are fewer), nearest first. */
  ghost predicate Closest(list: seq<PeerId>, from: set<PeerId>, n: nat, dist: PeerId -> nat) {
    && NoDuplicates(list) && ToSet(list) <= from && (|list| == n || (|list| < n && ToSet(list) == from))
    && (forall i, j :: 0 <= i < j < |list| ==> dist(list[i]) <= dist(list[j]))
    && (forall p, q :: p in list && q in from && q !in list ==> dist(p) <= dist(q))
  }

  predicate Starved(peers: PeerStates) {
    InState(peers, Heard) == {} && InState(peers, Waiting) == {}
  }

  /** The lookup is complete when the beta closest peers not known to be unreachable have all answered. */
  predicate AllQueried(peers: PeerStates, top: seq<PeerId>) {
    forall p :: p in top ==> p in peers && peers[p] == Queried
  }

  /** The code stops collecting peers when it has `budget` of them, so a budget of 0 collects them all. */
  ghost predicate Picks(list: seq<PeerId>, peers: PeerStates, budget: int, c: Config) {
    var heard := InState(peers, Heard);
    Closest(list, heard, if budget <= 0 then |heard| else budget, c.dist)
  }

  function Spawn(peers: PeerStates, list: seq<PeerId>): PeerStates {
    map p | p in peers :: if p in list then Waiting else peers[p]
  }

  // ---------------------------------------------------------------- steps

  function Seed(c: Config): Update { Update(c.self, c.seeds, [], []) }

  function Init(c: Config): State {
    State(map[], {}, [Seed(c)], false, 0, [], false)
  }

  /** The budget is what NumWaiting leaves of alpha. */
  ghost predicate Spawned(s: State, s': State, list: seq<PeerId>, c: Config) {
    && Picks(list, s.peers, c.alpha - |InState(s.peers, Waiting)|, c)
    && s' == s.(peers := Spawn(s.peers, list), running := s.running + ToSet(list), spawned := s.spawned + list)
  }

  function Taken(s: State): State
    requires s.channel != []
  {
    s.(channel := s.channel[1..], processed := s.processed + 1)
  }

  /** After an update: termination if the stop function says so, on starvation or on completion; else queries
      are spawned for the closest heard peers. */
  ghost predicate Decided(s: State, s': State, stop: bool, c: Config) {
    if stop || Starved(s.peers) then s' == s.(terminated := true)
    else exists top :: Closest(top, Reachable(s.peers), c.beta, c.dist) && Looked(s, s', top, c)
  }

  ghost predicate Looked(s: State, s': State, top: seq<PeerId>, c: Config) {
    if AllQueried(s.peers, top) then s' == s.(terminated := true) else exists list :: Spawned(s, s', list, c)
  }

  /** The run loop takes an update. */
  ghost predicate Deliver(s: State, s': State, stop: bool, c: Config) {
    && s.channel != [] && !s.terminated && !s.panicked
    && match Updated(s.peers, s.channel[0], c.self)
       case Panic => s' == Taken(s).(panicked := true)
       case Ok(peers) => Decided(Taken(s).(peers := peers), s', stop, c)
  }

  ghost predicate Cancel(s: State, s': State) {
    !s.terminated && !s.panicked && s' == s.(terminated := true)
  }

  /** A worker's report: the peer answered, naming peers other than us, or it could not be reached. */
  predicate Report(u: Update, p: PeerId, c: Config) {
    && u.cause == p && c.self !in u.heard && ToSet(u.heard) <= c.universe
    && ((u.queried == [p] && u.unreachable == []) || (u.queried == [] && u.unreachable == [p]))
  }

  /** A worker reports; the send would block if the channel were full. */
  ghost predicate Send(s: State, s': State, p: PeerId, u: Update, c: Config) {
    && p in s.running && Report(u, p, c) && |s.channel| < c.alpha
    && s' == s.(running := s.running - {p}, channel := s.channel + [u])
  }

  ghost predicate Step(s: State, s': State, c: Config) {
    (exists stop :: Deliver(s, s', stop, c)) || Cancel(s, s') || exists p, u :: Send(s, s', p, u, c)
  }

  ghost predicate Run(states: seq<State>, c: Config) {
    states != [] && states[0] == Init(c) && forall i :: 0 <= i < |states| - 1 ==> Step(states[i], states[i + 1], c)
  }

  /** The call returns once it has terminated and every worker is done. */
  predicate Finished(s: State) {
    s.terminated && s.running == {}
  }

  // ---------------------------------------------------------------- the invariant

  function Causes(channel: seq<Update>): seq<PeerId> {
    seq(|channel|, i requires 0 <= i < |channel| => channel[i].cause)
  }

  /** The peers that have been asked. */
  function Asked(peers: PeerStates): set<PeerId> {
    set p | p in peers && peers[p] != Heard
  }

  /** The channel holds reports of different peers, none of them still running; the waiting peers are the running
      ones and those whose report is in the channel; and the peers ever asked are those spawned, each once. */
  ghost predicate Accounted(s: State, c: Config) {
    && c.self !in s.peers && s.peers.Keys <= c.universe
    && (forall i :: 0 <= i < |s.channel| ==> Report(s.channel[i], s.channel[i].cause, c))
    && NoDuplicates(Causes(s.channel)) && ToSet(Causes(s.channel)) !! s.running
    && InState(s.peers, Waiting) == s.running + ToSet(Causes(s.channel))
    && NoDuplicates(s.spawned) && ToSet(s.spawned) == Asked(s.peers)
  }

  ghost predicate Inv(s: State, c: Config) {
    && !s.panicked
    && if s.processed == 0 then s == Init(c).(terminated := s.terminated)
       else
         && Accounted(s, c) && |s.running| + |s.channel| <= c.alpha
         && s.processed + |s.channel| + |s.running| == 1 + |s.spawned|
         && (!s.terminated ==> InState(s.peers, Waiting) != {})
  }

  /** The waiting peers are as many as the running workers and the reports in the channel together. */
  lemma WaitingCount(s: State, c: Config)
    requires Accounted(s, c)
    ensures |InState(s.peers, Waiting)| == |s.running| + |s.channel|
  {
    DistinctCount(Causes(s.channel));
    DisjointCard(s.running, ToSet(Causes(s.channel)));
  }

  lemma {:induction false} MarkOne(peers: PeerStates, p: PeerId, st: PeerState, self: PeerId)
    requires p != self && p in peers && peers[p] == Waiting
    ensures Marked(Ok(peers), [p], st, self) == Ok(peers[p := st])
  {
  }

  /** The report of a waiting peer never makes the code panic. */
  lemma ReportTaken(peers: PeerStates, u: Update, c: Config)
    requires Report(u, u.cause, c) && u.cause in peers && peers[u.cause] == Waiting && u.cause != c.self
    ensures Updated(peers, u, c.self) ==
      Ok(WithHeard(peers, u.heard, c.self)[u.cause := if u.queried == [] then Unreachable else Queried])
  {
    var p := WithHeard(peers, u.heard, c.self);
    MarkOne(p, u.cause, if u.queried == [] then Unreachable else Queried, c.self);
  }

  /** Taking the seed update. */
  lemma SeedTaken(s: State, c: Config)
    requires ValidConfig(c) && s == Init(c)
    ensures var peers := WithHeard(s.peers, c.seeds, c.self);
      Updated(s.peers, s.channel[0], c.self) == Ok(peers) && Accounted(Taken(s).(peers := peers), c)
  {
  }

  lemma CausesTail(channel: seq<Update>)
    requires channel != [] && NoDuplicates(Causes(channel))
    ensures NoDuplicates(Causes(channel[1..])) && channel[0].cause !in ToSet(Causes(channel[1..]))
    ensures ToSet(Causes(channel)) == {channel[0].cause} + ToSet(Causes(channel[1..]))
  {
    var all, rest := Causes(channel), Causes(channel[1..]);
    assert all == [channel[0].cause] + rest;
    DistinctTail(all, channel[0].cause, rest);
  }

  lemma DistinctTail(all: seq<PeerId>, p: PeerId, rest: seq<PeerId>)
    requires all == [p] + rest && NoDuplicates(all)
    ensures NoDuplicates(rest) && p !in ToSet(rest) && ToSet(all) == {p} + ToSet(rest)
  {
    forall i, j | 0 <= i < j < |rest| ensures rest[i] != rest[j] { assert all[i + 1] != all[j + 1]; }
    forall i | 0 <= i < |rest| ensures rest[i] != p { assert all[0] != all[i + 1]; }
  }

  lemma DistinctJoin(a: seq<PeerId>, b: seq<PeerId>)
    requires NoDuplicates(a) && NoDuplicates(b) && ToSet(a) !! ToSet(b)
    ensures NoDuplicates(a + b) && ToSet(a + b) == ToSet(a) + ToSet(b)
  {
    forall i, j | 0 <= i < j < |a + b| ensures (a + b)[i] != (a + b)[j] {
      if i < |a| <= j { assert a[i] in ToSet(a) && b[j - |a|] in ToSet(b); }
    }
  }

  /** Taking a report: the books still balance and one more query may be spawned. */
  lemma WorkerReportTaken(s: State, c: Config)
    requires Accounted(s, c) && s.channel != []
    ensures Updated(s.peers, s.channel[0], c.self).Ok?
    ensures Accounted(Taken(s).(peers := Updated(s.peers, s.channel[0], c.self).peers), c)
  {
    var u := s.channel[0];
    CausesTail(s.channel);
    assert u.cause in InState(s.peers, Waiting);
    ReportTaken(s.peers, u, c);
    var s1 := Taken(s).(peers := Updated(s.peers, u, c.self).peers);
    assert InState(s1.peers, Waiting) == InState(s.peers, Waiting) - {u.cause};
    assert Asked(s1.peers) == Asked(s.peers);
    assert forall i :: 0 <= i < |s1.channel| ==> s1.channel[i] == s.channel[i + 1];
  }

  /** Spawning within the budget: the books still balance, and at most alpha peers are waiting. */
  lemma SpawnKeeps(s: State, s': State, list: seq<PeerId>, c: Config)
    requires Accounted(s, c) && |s.running| + |s.channel| < c.alpha && !Starved(s.peers) && Spawned(s, s', list, c)
    ensures Accounted(s', c) && |s'.running| + |s'.channel| <= c.alpha && InState(s'.peers, Waiting) != {}
    ensures |s'.running| == |s.running| + |list| && |s'.spawned| == |s.spawned| + |list|
  {
    SpawnAccounted(s, s', list, c);
    WaitingCount(s, c);
    DistinctCount(list);
    SpawnSets(s, list, c);
    DisjointCard(s.running, ToSet(list));
    SpawnFacts(s.peers, list);
    if list == [] { assert ToSet(list) == {}; } else { assert list[0] in ToSet(list); }
  }

  lemma SpawnAccounted(s: State, s': State, list: seq<PeerId>, c: Config)
    requires Accounted(s, c) && Spawned(s, s', list, c)
    ensures Accounted(s', c)
  {
    SpawnFacts(s.peers, list);
    SpawnSets(s, list, c);
    assert s'.running + ToSet(Causes(s.channel)) == InState(s'.peers, Waiting);
  }

  lemma SpawnSets(s: State, list: seq<PeerId>, c: Config)
    requires Accounted(s, c) && NoDuplicates(list) && ToSet(list) <= InState(s.peers, Heard)
    ensures ToSet(list) !! s.running && ToSet(list) !! ToSet(Causes(s.channel))
    ensures NoDuplicates(s.spawned + list) && ToSet(s.spawned + list) == ToSet(s.spawned) + ToSet(list)
  {
    assert ToSet(list) !! InState(s.peers, Waiting) && ToSet(list) !! Asked(s.peers);
    DistinctJoin(s.spawned, list);
  }

  lemma SpawnFacts(peers: PeerStates, list: seq<PeerId>)
    requires ToSet(list) <= InState(peers, Heard)
    ensures InState(Spawn(peers, list), Waiting) == InState(peers, Waiting) + ToSet(list)
    ensures Asked(Spawn(peers, list)) == Asked(peers) + ToSet(list)
    ensures Spawn(peers, list).Keys == peers.Keys
  {
  }

  /** Taking an update never panics and leaves room for one more query. */
  lemma UpdateTaken(s: State, c: Config) returns (s1: State)
    requires ValidConfig(c) && Inv(s, c) && s.channel != [] && !s.terminated
    ensures Updated(s.peers, s.channel[0], c.self).Ok?
    ensures s1 == Taken(s).(peers := Updated(s.peers, s.channel[0], c.self).peers)
    ensures Accounted(s1, c) && |s1.running| + |s1.channel| < c.alpha
    ensures s1.processed + |s1.channel| + |s1.running| == 1 + |s1.spawned|
  {
    if s.processed == 0 { SeedTaken(s, c); } else { WorkerReportTaken(s, c); }
    s1 := Taken(s).(peers := Updated(s.peers, s.channel[0], c.self).peers);
  }

  lemma DeliverKeepsInv(s: State, s': State, stop: bool, c: Config)
    requires ValidConfig(c) && Inv(s, c) && Deliver(s, s', stop, c)
    ensures Inv(s', c)
  {
    var s1 := UpdateTaken(s, c);
    if s' != s1.(terminated := true) {
      var top :| Closest(top, Reachable(s1.peers), c.beta, c.dist) && Looked(s1, s', top, c);
      var list :| Spawned(s1, s', list, c);
      SpawnKeeps(s1, s', list, c);
    }
  }

  lemma CausesSent(channel: seq<Update>, u: Update)
    requires NoDuplicates(Causes(channel)) && u.cause !in ToSet(Causes(channel))
    ensures NoDuplicates(Causes(channel + [u]))
    ensures ToSet(Causes(channel + [u])) == ToSet(Causes(channel)) + {u.cause}
  {
    assert Causes(channel + [u]) == Causes(channel) + [u.cause] && ToSet([u.cause]) == {u.cause};
    DistinctJoin(Causes(channel), [u.cause]);
  }

  lemma SendAccounted(s: State, s': State, p: PeerId, u: Update, c: Config)
    requires Accounted(s, c) && Send(s, s', p, u, c)
    ensures Accounted(s', c)
  {
    CausesSent(s.channel, u);
    MovedOver(s.running, ToSet(Causes(s.channel)), p);
  }

  lemma MovedOver(a: set<PeerId>, b: set<PeerId>, p: PeerId)
    requires p in a
    ensures a + b == (a - {p}) + (b + {p})
  {
  }

  lemma SendKeepsInv(s: State, s': State, p: PeerId, u: Update, c: Config)
    requires Inv(s, c) && Send(s, s', p, u, c)
    ensures Inv(s', c)
  {
    SendAccounted(s, s', p, u, c);
  }

  lemma StepKeepsInv(s: State, s': State, c: Config)
    requires ValidConfig(c) && Inv(s, c) && Step(s, s', c)
    ensures Inv(s', c)
  {
    if stop :| Deliver(s, s', stop, c) { DeliverKeepsInv(s, s', stop, c); }
    else if p, u :| Send(s, s', p, u, c) { SendKeepsInv(s, s', p, u, c); }
  }

  lemma {:induction false} RunKeepsInv(states: seq<State>, c: Config, i: nat)
    requires ValidConfig(c) && Run(states, c) && i < |states|
    ensures Inv(states[i], c)
  {
    if i > 0 {
      RunKeepsInv(states, c, i - 1);
      StepKeepsInv(states[i - 1], states[i], c);
    }
  }

  // ---------------------------------------------------------------- safety of every run

  /** In every state of every run: no panic, the waiting peers are exactly those with a running query or an
      undelivered report, at most alpha of them, and no peer is ever queried twice. */
  lemma RunIsSafe(states: seq<State>, c: Config, i: nat)
    requires ValidConfig(c) && Run(states, c) && i < |states|
    ensures var s := states[i];
      && !s.panicked
      && (s.processed > 0 ==> InState(s.peers, Waiting) == s.running + ToSet(Causes(s.channel)))
      && (s.processed > 0 ==> s.running !! ToSet(Causes(s.channel)) && NoDuplicates(Causes(s.channel)))
    ensures |InState(states[i].peers, Waiting)| <= c.alpha && NoDuplicates(states[i].spawned)
  {
    RunKeepsInv(states, c, i);
    if states[i].processed > 0 { WaitingCount(states[i], c); } else { assert InState(map[], Waiting) == {}; }
  }

  /** Whenever the run loop takes an update, the update is accepted and the budget for new queries is positive. */
  lemma BudgetPositive(states: seq<State>, c: Config, i: nat)
    requires ValidConfig(c) && Run(states, c) && i < |states| && states[i].channel != [] && !states[i].terminated
    ensures var o := Updated(states[i].peers, states[i].channel[0], c.self);
      o.Ok? && c.alpha - |InState(o.peers, Waiting)| >= 1
  {
    RunKeepsInv(states, c, i);
    var s1 := UpdateTaken(states[i], c);
    WaitingCount(s1, c);
  }

  // ---------------------------------------------------------------- progress

  /** While the lookup goes on, there is an update to take or a query still running. */
  lemma NeverStuckWaiting(states: seq<State>, c: Config, i: nat)
    requires ValidConfig(c) && Run(states, c) && i < |states| && !states[i].terminated
    ensures states[i].channel != [] || states[i].running != {}
  {
    RunKeepsInv(states, c, i);
    if states[i].channel == [] { assert Causes(states[i].channel) == []; }
  }

  /** A worker that has its report can always put it on the channel, also after termination. */
  lemma SendsNeverBlock(states: seq<State>, c: Config, i: nat, p: PeerId, u: Update)
    requires ValidConfig(c) && Run(states, c) && i < |states| && p in states[i].running && Report(u, p, c)
    ensures exists s' :: Send(states[i], s', p, u, c)
  {
    var s := states[i];
    RunKeepsInv(states, c, i);
    assert |s.running| > 0;
    assert Send(s, s.(running := s.running - {p}, channel := s.channel + [u]), p, u, c);
  }

  lemma AskedBound(s: State, c: Config)
    requires Inv(s, c)
    ensures |s.spawned| <= |c.universe| && s.processed <= |c.universe| + 1
    ensures s.processed > 0 ==> |s.running| <= |s.spawned|
  {
    DistinctCount(s.spawned);
    if s.processed > 0 {
      assert Asked(s.peers) <= c.universe;
      SubsetCard(Asked(s.peers), c.universe);
      AskedCount(s, c);
    }
  }

  lemma AskedCount(s: State, c: Config)
    requires Accounted(s, c)
    ensures |s.running| + |s.channel| <= |s.spawned|
  {
    WaitingCount(s, c);
    DistinctCount(s.spawned);
    assert InState(s.peers, Waiting) <= Asked(s.peers);
    SubsetCard(InState(s.peers, Waiting), Asked(s.peers));
  }

  /** What is left to do: updates to process, reports to send, and the termination itself. */
  function Remaining(s: State, c: Config): int {
    (|c.universe| + 1 - s.processed) + (|c.universe| - (|s.spawned| - |s.running|)) + if s.terminated then 0 else 1
  }

  lemma StepProgresses(s: State, s': State, c: Config)
    requires ValidConfig(c) && Inv(s, c) && Step(s, s', c)
    ensures Remaining(s', c) < Remaining(s, c)
  {
    if stop :| Deliver(s, s', stop, c) {
      var s1 := UpdateTaken(s, c);
      if s' != s1.(terminated := true) {
        var top :| Closest(top, Reachable(s1.peers), c.beta, c.dist) && Looked(s1, s', top, c);
        var list :| Spawned(s1, s', list, c);
        SpawnKeeps(s1, s', list, c);
      }
    }
  }

  lemma {:induction false} RunShortens(states: seq<State>, c: Config, i: nat)
    requires ValidConfig(c) && Run(states, c) && i < |states|
    ensures Remaining(states[i], c) + i <= 2 * |c.universe| + 2
  {
    if i > 0 {
      RunShortens(states, c, i - 1);
      RunKeepsInv(states, c, i - 1);
      StepProgresses(states[i - 1], states[i], c);
    }
  }

  /** Over a finite universe of peers, at most one update per peer and the seed update are processed, and every
      run is over after at most twice as many steps as there are peers, and two. */
  lemma RunsAreShort(states: seq<State>, c: Config)
    requires ValidConfig(c) && Run(states, c)
    ensures |states| <= 2 * |c.universe| + 3
    ensures forall i :: 0 <= i < |states| ==> states[i].processed <= |c.universe| + 1
  {
    var n := |states| - 1;
    RunShortens(states, c, n);
    RunKeepsInv(states, c, n);
    AskedBound(states[n], c);
    forall i | 0 <= i < |states| ensures states[i].processed <= |c.universe| + 1 {
      RunKeepsInv(states, c, i);
      AskedBound(states[i], c);
    }
  }

  lemma {:induction false} ClosestExists(from: set<PeerId>, n: nat, dist: PeerId -> nat)
    ensures exists list :: Closest(list, from, n, dist)
  {
    if n == 0 || from == {} {
      assert Closest([], from, n, dist);
    } else {
      var p := Nearest(from, dist);
      ClosestExists(from - {p}, n - 1, dist);
      var rest :| Closest(rest, from - {p}, n - 1, dist);
      NearestFirst(p, rest, from, n, dist);
    }
  }

  lemma {:induction false} Nearest(from: set<PeerId>, dist: PeerId -> nat) returns (p: PeerId)
    requires from != {}
    ensures p in from && forall q :: q in from ==> dist(p) <= dist(q)
    decreases |from|
  {
    p :| p in from;
    if from != {p} {
      var q := Nearest(from - {p}, dist);
      if dist(q) < dist(p) { p := q; }
    }
  }

  lemma NearestFirst(p: PeerId, rest: seq<PeerId>, from: set<PeerId>, n: nat, dist: PeerId -> nat)
    requires n > 0 && p in from && (forall q :: q in from ==> dist(p) <= dist(q))
    requires Closest(rest, from - {p}, n - 1, dist)
    ensures Closest([p] + rest, from, n, dist)
  {
    var list := [p] + rest;
    assert ToSet(list) == {p} + ToSet(rest);
    assert forall q :: q in rest ==> q in ToSet(rest);
    DistinctJoin([p], rest);
    if |rest| < n - 1 { assert ToSet(list) == from; }
  }

  /** Once an update is there the run loop can take it, whatever the stop function says. */
  lemma CanDeliver(s: State, stop: bool, c: Config)
    requires ValidConfig(c) && Inv(s, c) && s.channel != [] && !s.terminated
    ensures exists s' :: Deliver(s, s', stop, c)
  {
    var s1 := UpdateTaken(s, c);
    ClosestExists(Reachable(s1.peers), c.beta, c.dist);
    var top :| Closest(top, Reachable(s1.peers), c.beta, c.dist);
    if stop || Starved(s1.peers) || AllQueried(s1.peers, top) {
      var s' := s1.(terminated := true);
      assert Looked(s1, s', top, c) || stop || Starved(s1.peers);
      assert Deliver(s, s', stop, c);
    } else {
      var s', list := CanSpawn(s1, c);
      assert Looked(s1, s', top, c);
      assert Deliver(s, s', stop, c);
    }
  }

  lemma CanSpawn(s: State, c: Config) returns (s': State, list: seq<PeerId>)
    ensures Spawned(s, s', list, c)
  {
    var heard, budget := InState(s.peers, Heard), c.alpha - |InState(s.peers, Waiting)|;
    var n := if budget <= 0 then |heard| else budget;
    ClosestExists(heard, n, c.dist);
    list :| Closest(list, heard, n, c.dist);
    s' := s.(peers := Spawn(s.peers, list), running := s.running + ToSet(list), spawned := s.spawned + list);
  }

  /** Until it has finished, some query is running whose report can be sent, or an update can be taken: with
      every query returning, no lookup deadlocks. */
  lemma NoDeadlock(states: seq<State>, c: Config, i: nat, stop: bool)
    requires ValidConfig(c) && Run(states, c) && i < |states| && !Finished(states[i])
    ensures states[i].running == {} ==> exists s' :: Deliver(states[i], s', stop, c)
    ensures forall p, u :: p in states[i].running && Report(u, p, c) ==> exists s' :: Send(states[i], s', p, u, c)
  {
    var s := states[i];
    forall p, u | p in s.running && Report(u, p, c) ensures exists s' :: Send(s, s', p, u, c) {
      SendsNeverBlock(states, c, i, p, u);
    }
    if s.running == {} {
      RunKeepsInv(states, c, i);
      NeverStuckWaiting(states, c, i);
      CanDeliver(s, stop, c);
    }
  }
}
