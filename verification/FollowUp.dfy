/** The follow-up after a lookup: the peers of the result that were not queried are queried once each, while the
    caller counts completions and may abort. */
module FollowUp {
  import opened Peers
  import opened Lookup
  import opened LookupQuery

  /** Where the caller is: counting completions, draining what is still out after an abort, or back. */
  datatype Phase = Counting(i: nat) | Draining(i: nat) | Returned

  /** `running` and `finished` are the follow-up calls; `buffered` is how many completions wait in the channel. */
  datatype Progress = Progress(running: set<PeerId>, finished: set<PeerId>, buffered: nat, received: nat,
                               completed: bool, phase: Phase)

  predicate Unqueried(st: PeerState) {
    st == Heard || st == Waiting
  }

  function ToQuery(peers: seq<PeerId>, states: seq<PeerState>): seq<PeerId>
    requires |peers| == |states|
  {
    if peers == [] then []
    else
      var n := |peers| - 1;
      ToQuery(peers[..n], states[..n]) + if Unqueried(states[n]) then [peers[n]] else []
  }

  lemma {:induction false} ToQueryAre(peers: seq<PeerId>, states: seq<PeerState>, p: PeerId)
    requires |peers| == |states|
    ensures p in ToQuery(peers, states) <==> exists i :: 0 <= i < |peers| && peers[i] == p && Unqueried(states[i])
  {
    if peers != [] {
      var n := |peers| - 1;
      var init, st := peers[..n], states[..n];
      ToQueryAre(init, st, p);
      if i :| 0 <= i < |peers| && peers[i] == p && Unqueried(states[i]) && i < n {
        assert init[i] == p && Unqueried(st[i]);
      }
      if i :| 0 <= i < |init| && init[i] == p && Unqueried(st[i]) { assert peers[i] == p && Unqueried(states[i]); }
    }
  }

  lemma {:induction false} ToQueryDistinct(peers: seq<PeerId>, states: seq<PeerState>)
    requires |peers| == |states| && NoDuplicates(peers)
    ensures NoDuplicates(ToQuery(peers, states))
  {
    if peers != [] {
      var n := |peers| - 1;
      ToQueryDistinct(peers[..n], states[..n]);
      ToQueryAre(peers[..n], states[..n], peers[n]);
    }
  }

  /** The loop that collects the peers to follow up. */
  method Collect(r: LookupResult) returns (list: seq<PeerId>)
    requires |r.peers| == |r.states|
    ensures list == ToQuery(r.peers, r.states)
  {
    list := [];
    for i := 0 to |r.peers|
      invariant list == ToQuery(r.peers[..i], r.states[..i])
    {
      assert r.peers[..i + 1][..i] == r.peers[..i] && r.states[..i + 1][..i] == r.states[..i];
      if Unqueried(r.states[i]) {
        list := list + [r.peers[i]];
      }
    }
    assert r.peers[..|r.peers|] == r.peers && r.states[..|r.states|] == r.states;
  }

  // ---------------------------------------------------------------- steps

  /** Nothing to follow up: the result as it is. Stopped from outside: not completed. Else one call per peer. */
  function Start(r: LookupResult, list: seq<PeerId>, stopped: bool): Progress {
    if list == [] then Progress({}, {}, 0, 0, r.completed, Returned)
    else if stopped then Progress({}, {}, 0, 0, false, Returned)
    else Progress(ToSet(list), {}, 0, 0, r.completed, Counting(0))
  }

  /** A call ends and sends its completion. The channel has room for all `n`. */
  ghost predicate CallEnds(s: Progress, s': Progress, p: PeerId, n: nat) {
    && p in s.running && s.buffered < n
    && s' == s.(running := s.running - {p}, finished := s.finished + {p}, buffered := s.buffered + 1)
  }

  /** Where the caller goes when it leaves the counting loop. */
  function AfterLoop(s: Progress): Progress {
    s.(phase := if s.completed then Returned else Draining(s.received))
  }

  /** The caller receives a completion; a stop before the last one makes the result incomplete. */
  ghost predicate Count(s: Progress, s': Progress, stop: bool, n: nat) {
    && s.phase.Counting? && s.phase.i < n && s.buffered > 0
    && var s1 := s.(buffered := s.buffered - 1, received := s.received + 1);
       s' == if stop then AfterLoop(s1.(completed := s1.completed && s.phase.i >= n - 1))
             else s1.(phase := Counting(s.phase.i + 1))
  }

  ghost predicate AllCounted(s: Progress, s': Progress, n: nat) {
    s.phase == Counting(n) && s' == AfterLoop(s)
  }

  ghost predicate Abort(s: Progress, s': Progress, n: nat) {
    s.phase.Counting? && s.phase.i < n && s' == AfterLoop(s.(completed := false))
  }

  ghost predicate Drain(s: Progress, s': Progress, n: nat) {
    && s.phase.Draining?
    && if s.phase.i < n
       then
         && s.buffered > 0
         && s' == s.(buffered := s.buffered - 1, received := s.received + 1, phase := Draining(s.phase.i + 1))
       else s' == s.(phase := Returned)
  }

  ghost predicate Step(s: Progress, s': Progress, n: nat) {
    || (exists p :: CallEnds(s, s', p, n)) || (exists stop :: Count(s, s', stop, n))
    || AllCounted(s, s', n) || Abort(s, s', n) || Drain(s, s', n)
  }

  ghost predicate Run(states: seq<Progress>, r: LookupResult, list: seq<PeerId>, stopped: bool) {
    && states != [] && states[0] == Start(r, list, stopped)
    && forall i :: 0 <= i < |states| - 1 ==> Step(states[i], states[i + 1], |list|)
  }

  // ---------------------------------------------------------------- invariant

  /** The return before any call was started. */
  predicate Skipped(s: Progress) {
    s == Progress({}, {}, 0, 0, s.completed, Returned)
  }

  /** Every call is running, or finished with its completion waiting or received. */
  ghost predicate Balanced(s: Progress, list: seq<PeerId>) {
    && s.running !! s.finished && s.running + s.finished == ToSet(list)
    && |s.running| + s.buffered + s.received == |list|
    && match s.phase
       case Counting(i) => i == s.received
       case Draining(i) => i == s.received && !s.completed
       case Returned => s.received == |list|
  }

  ghost predicate Inv(s: Progress, list: seq<PeerId>) {
    if Skipped(s) then list == [] || !s.completed else Balanced(s, list)
  }

  lemma StartInv(r: LookupResult, list: seq<PeerId>, stopped: bool)
    requires NoDuplicates(list)
    ensures Inv(Start(r, list, stopped), list)
  {
    DistinctCount(list);
    if list != [] { assert list[0] in ToSet(list); }
  }

  lemma CallEndKeeps(s: Progress, s': Progress, p: PeerId, list: seq<PeerId>)
    requires Balanced(s, list) && CallEnds(s, s', p, |list|)
    ensures Balanced(s', list) && Remaining(s', |list|) < Remaining(s, |list|)
  {
  }

  lemma CountKeeps(s: Progress, s': Progress, stop: bool, list: seq<PeerId>)
    requires Balanced(s, list) && Count(s, s', stop, |list|)
    ensures Balanced(s', list) && Remaining(s', |list|) < Remaining(s, |list|)
  {
  }

  lemma CallerKeeps(s: Progress, s': Progress, list: seq<PeerId>)
    requires Balanced(s, list) && (AllCounted(s, s', |list|) || Abort(s, s', |list|) || Drain(s, s', |list|))
    ensures Balanced(s', list) && Remaining(s', |list|) < Remaining(s, |list|)
  {
  }

  lemma BalancedMeansInv(s: Progress, list: seq<PeerId>)
    requires Balanced(s, list)
    ensures Inv(s, list)
  {
  }

  lemma StepKeepsInv(s: Progress, s': Progress, list: seq<PeerId>)
    requires Inv(s, list) && Step(s, s', |list|)
    ensures Inv(s', list) && Remaining(s', |list|) < Remaining(s, |list|)
  {
    assert Balanced(s, list);
    if p :| CallEnds(s, s', p, |list|) { CallEndKeeps(s, s', p, list); }
    else if stop :| Count(s, s', stop, |list|) { CountKeeps(s, s', stop, list); }
    else { CallerKeeps(s, s', list); }
    BalancedMeansInv(s', list);
  }

  /** What is left: calls to end, completions to receive, and the caller's own way back. */
  function Remaining(s: Progress, n: nat): int {
    |s.running| + (n - s.received) + match s.phase case Counting(_) => 2 case Draining(_) => 1 case Returned => 0
  }

  lemma {:induction false} RunKeepsInv(states: seq<Progress>, r: LookupResult, list: seq<PeerId>, stopped: bool, i: nat)
    requires NoDuplicates(list) && Run(states, r, list, stopped) && i < |states|
    ensures Inv(states[i], list)
  {
    if i == 0 {
      StartInv(r, list, stopped);
    } else {
      RunKeepsInv(states, r, list, stopped, i - 1);
      StepKeepsInv(states[i - 1], states[i], list);
    }
  }

  /** On return no follow-up call is running. If the result is completed, every peer in it was queried in the
      lookup or its follow-up call has finished. */
  lemma ReturnIsClean(states: seq<Progress>, r: LookupResult, stopped: bool, i: nat, j: nat)
    requires |r.peers| == |r.states| && NoDuplicates(r.peers) && j < |r.peers|
    requires Run(states, r, ToQuery(r.peers, r.states), stopped) && i < |states| && states[i].phase.Returned?
    ensures states[i].running == {}
    ensures states[i].completed ==> !Unqueried(r.states[j]) || r.peers[j] in states[i].finished
  {
    var list := ToQuery(r.peers, r.states);
    ToQueryDistinct(r.peers, r.states);
    ToQueryAre(r.peers, r.states, r.peers[j]);
    RunKeepsInv(states, r, list, stopped, i);
    if Unqueried(r.states[j]) && states[i].completed { assert r.peers[j] in ToSet(list); }
  }

  /** The completion of a result never turns from false to true. */
  lemma {:induction false} CompletedOnlyIfLookupWas(states: seq<Progress>, r: LookupResult, list: seq<PeerId>,
                                                    stopped: bool, i: nat)
    requires Run(states, r, list, stopped) && i < |states| && states[i].completed
    ensures r.completed
  {
    if i > 0 { CompletedOnlyIfLookupWas(states, r, list, stopped, i - 1); }
  }

  /** Until it is back, the caller can go on or a call is still running that can send: nothing deadlocks. */
  lemma NoDeadlock(states: seq<Progress>, r: LookupResult, list: seq<PeerId>, stopped: bool, i: nat)
    requires NoDuplicates(list) && Run(states, r, list, stopped) && i < |states| && !states[i].phase.Returned?
    ensures states[i].running == {} ==>
      exists s' ::
        Count(states[i], s', false, |list|) || AllCounted(states[i], s', |list|) || Drain(states[i], s', |list|)
    ensures forall p :: p in states[i].running ==> exists s' :: CallEnds(states[i], s', p, |list|)
  {
    var s, n := states[i], |list|;
    RunKeepsInv(states, r, list, stopped, i);
    forall p | p in s.running ensures exists s' :: CallEnds(s, s', p, n) {
      assert |s.running| > 0;
      var s' := s.(running := s.running - {p}, finished := s.finished + {p}, buffered := s.buffered + 1);
      assert CallEnds(s, s', p, n);
    }
    if s.running == {} {
      match s.phase
      case Counting(k) =>
        if k == n { assert AllCounted(s, AfterLoop(s), n); }
        else {
          var s' := s.(buffered := s.buffered - 1, received := s.received + 1, phase := Counting(k + 1));
          assert Count(s, s', false, n);
        }
      case Draining(k) =>
        if k < n {
          assert Drain(s, s.(buffered := s.buffered - 1, received := s.received + 1, phase := Draining(k + 1)), n);
        }
        else { assert Drain(s, s.(phase := Returned), n); }
    }
  }

  lemma {:induction false} RunShortens(states: seq<Progress>, r: LookupResult, list: seq<PeerId>, stopped: bool, i: nat)
    requires NoDuplicates(list) && Run(states, r, list, stopped) && i < |states|
    ensures Remaining(states[i], |list|) + i <= 2 * |list| + 2
  {
    if i == 0 {
      StartRemaining(r, list, stopped);
    } else {
      RunShortens(states, r, list, stopped, i - 1);
      RunStepShortens(states, r, list, stopped, i - 1);
      Shorter(Remaining(states[i], |list|), Remaining(states[i - 1], |list|), i, 2 * |list| + 2);
    }
  }

  lemma RunStepShortens(states: seq<Progress>, r: LookupResult, list: seq<PeerId>, stopped: bool, i: nat)
    requires NoDuplicates(list) && Run(states, r, list, stopped) && i + 1 < |states|
    ensures Remaining(states[i + 1], |list|) < Remaining(states[i], |list|)
  {
    RunKeepsInv(states, r, list, stopped, i);
    StepKeepsInv(states[i], states[i + 1], list);
  }

  lemma Shorter(after: int, before: int, i: nat, most: nat)
    requires after < before && before + (i - 1) <= most
    ensures after + i <= most
  {
  }

  lemma StartRemaining(r: LookupResult, list: seq<PeerId>, stopped: bool)
    requires NoDuplicates(list)
    ensures Remaining(Start(r, list, stopped), |list|) <= 2 * |list| + 2
  {
    DistinctCount(list);
  }

  /** Every run is short: each call ends once, and the caller takes at most one step per call and two more. */
  lemma RunsAreShort(states: seq<Progress>, r: LookupResult, list: seq<PeerId>, stopped: bool)
    requires NoDuplicates(list) && Run(states, r, list, stopped)
    ensures |states| <= 2 * |list| + 3
  {
    RunShortens(states, r, list, stopped, |states| - 1);
    RunKeepsInv(states, r, list, stopped, |states| - 1);
  }
}
