/** The wait for ADD_PROVIDER RPCs of an optimistic provide: RPCs complete on a channel, the caller counts a
    threshold of them, and leased consumers or the caller itself receive the rest and close the channel. */
module OptimisticProvide {

  /** `n` RPCs were issued; the channel has room for `threshold` completions; the lease pool has `pool` places. */
  datatype Setup = Setup(n: nat, threshold: nat, pool: nat) {
    /** The number of RPCs the caller waits for: the threshold, but no more than were issued. */
    function Awaited(): nat { if threshold > n then n else threshold }
    function Rest(): nat { n - Awaited() }
  }

  /** Where the caller is. `i` counts the iterations of its second loop. */
  datatype Caller = Receiving | Counting | Choosing(i: nat) | Adding(i: nat) | Closing(i: nat) | Returned

  /** `unsent` RPCs have not completed; `buffered` completions wait in the channel; `done` is the shared counter.
      Consumers wait for a completion, then release their lease, then count, then may close. `others` are leases
      of other provides. `closes` counts how often the channel was closed. */
  datatype State = State(unsent: nat, buffered: nat, done: nat, closes: nat, caller: Caller,
                         waiting: nat, releasing: nat, adding: nat, closing: nat, others: nat)

  predicate Closed(s: State) { s.closes > 0 }

  function Leases(s: State): nat { s.waiting + s.releasing }

  function Init(x: Setup): State {
    State(x.n, 0, 0, 0, Receiving, 0, 0, 0, 0, 0)
  }

  // ---------------------------------------------------------------- steps

  /** An RPC completes. Sending on a closed channel would panic. */
  predicate Send(s: State, s': State, x: Setup) {
    s.unsent > 0 && s.buffered < x.threshold && s' == s.(unsent := s.unsent - 1, buffered := s.buffered + 1)
  }

  predicate CallerReceives(s: State, s': State) {
    s.caller == Receiving && s.buffered > 0 && s' == s.(buffered := s.buffered - 1, caller := Counting)
  }

  /** The first loop ends when the counter reaches the awaited number exactly. */
  predicate CallerCounts(s: State, s': State, x: Setup) {
    && s.caller == Counting
    && s' == s.(done := s.done + 1, caller := if s.done + 1 == x.Awaited() then Choosing(0) else Receiving)
  }

  predicate CallerLeases(s: State, s': State, x: Setup) {
    && s.caller.Choosing? && s.caller.i < x.Rest() && s.others + Leases(s) < x.pool
    && s' == s.(waiting := s.waiting + 1, caller := Choosing(s.caller.i + 1))
  }

  predicate CallerTakes(s: State, s': State, x: Setup) {
    && s.caller.Choosing? && s.caller.i < x.Rest() && s.buffered > 0
    && s' == s.(buffered := s.buffered - 1, caller := Adding(s.caller.i))
  }

  predicate CallerAdds(s: State, s': State, x: Setup) {
    && s.caller.Adding?
    && s' == s.(done := s.done + 1,
                caller := if s.done + 1 == x.n then Closing(s.caller.i) else Choosing(s.caller.i + 1))
  }

  predicate CallerCloses(s: State, s': State) {
    s.caller.Closing? && s' == s.(closes := s.closes + 1, caller := Choosing(s.caller.i + 1))
  }

  predicate CallerReturns(s: State, s': State, x: Setup) {
    s.caller == Choosing(x.Rest()) && s' == s.(caller := Returned)
  }

  predicate ConsumerTakes(s: State, s': State) {
    && s.waiting > 0 && s.buffered > 0
    && s' == s.(waiting := s.waiting - 1, buffered := s.buffered - 1, releasing := s.releasing + 1)
  }

  /** Releasing takes a token out of the pool, which blocks on an empty pool. */
  predicate ConsumerReleases(s: State, s': State) {
    s.releasing > 0 && s.others + Leases(s) > 0 && s' == s.(releasing := s.releasing - 1, adding := s.adding + 1)
  }

  predicate ConsumerAdds(s: State, s': State, x: Setup) {
    && s.adding > 0
    && s' == s.(adding := s.adding - 1, done := s.done + 1, closing := s.closing + if s.done + 1 == x.n then 1 else 0)
  }

  predicate ConsumerCloses(s: State, s': State) {
    s.closing > 0 && s' == s.(closing := s.closing - 1, closes := s.closes + 1)
  }

  predicate CallerStep(s: State, s': State, x: Setup) {
    || CallerReceives(s, s') || CallerCounts(s, s', x) || CallerLeases(s, s', x) || CallerTakes(s, s', x)
    || CallerAdds(s, s', x) || CallerCloses(s, s') || CallerReturns(s, s', x)
  }

  predicate ConsumerStep(s: State, s': State, x: Setup) {
    ConsumerTakes(s, s') || ConsumerReleases(s, s') || ConsumerAdds(s, s', x) || ConsumerCloses(s, s')
  }

  /** A step of this provide. */
  predicate Step(s: State, s': State, x: Setup) {
    Send(s, s', x) || CallerStep(s, s', x) || ConsumerStep(s, s', x)
  }

  /** Other provides take and release leases. */
  predicate OthersMove(s: State, s': State, x: Setup) {
    s' == s.(others := s'.others) && s'.others + Leases(s) <= x.pool
  }

  ghost predicate Run(states: seq<State>, x: Setup) {
    && states != [] && states[0] == Init(x)
    && forall i :: 0 <= i < |states| - 1 ==>
         Step(states[i], states[i + 1], x) || OthersMove(states[i], states[i + 1], x)
  }

  // ---------------------------------------------------------------- invariant

  /** Completions taken off the channel so far: counted ones and those whose taker has yet to count. */
  function Received(s: State): nat {
    s.done + s.releasing + s.adding + if s.caller.Counting? || s.caller.Adding? then 1 else 0
  }

  /** Receives still to come: the caller's own remaining rounds and the waiting consumers. */
  function ToReceive(s: State, x: Setup): int {
    s.waiting + match s.caller
      case Receiving => x.n - s.done
      case Counting => x.n - s.done - 1
      case Choosing(i) => x.Rest() - i
      case Adding(i) => x.Rest() - i - 1
      case Closing(i) => x.Rest() - i - 1
      case Returned => 0
  }

  predicate Inv(s: State, x: Setup) {
    && Received(s) + s.buffered + s.unsent == x.n && Received(s) + ToReceive(s, x) == x.n
    && s.others + Leases(s) <= x.pool
    && (match s.caller
        case Receiving =>
             s.done < x.Awaited() && s.closes == 0 && s.waiting == s.releasing == s.adding == s.closing == 0
        case Counting => s.done < x.Awaited() && s.closes == 0 && s.waiting == s.releasing == s.adding == s.closing == 0
        case Choosing(i) => i <= x.Rest() && s.done >= x.Awaited()
        case Adding(i) => i < x.Rest() && s.done >= x.Awaited()
        case Closing(i) => i < x.Rest() && s.done >= x.Awaited()
        case Returned => s.done >= x.Awaited())
    && s.closing + s.closes + (if s.caller.Closing? then 1 else 0) == (if s.done == x.n && x.Rest() > 0 then 1 else 0)
  }

  lemma CallerKeepsInv(s: State, s': State, x: Setup)
    requires x.threshold > 0 && x.n > 0 && Inv(s, x) && CallerStep(s, s', x)
    ensures Inv(s', x)
  {
  }

  lemma ConsumerKeepsInv(s: State, s': State, x: Setup)
    requires x.threshold > 0 && x.n > 0 && Inv(s, x) && ConsumerStep(s, s', x)
    ensures Inv(s', x)
  {
  }

  lemma StepKeepsInv(s: State, s': State, x: Setup)
    requires x.threshold > 0 && x.n > 0 && Inv(s, x) && (Step(s, s', x) || OthersMove(s, s', x))
    ensures Inv(s', x)
  {
    if CallerStep(s, s', x) { CallerKeepsInv(s, s', x); }
    else if ConsumerStep(s, s', x) { ConsumerKeepsInv(s, s', x); }
  }

  lemma {:induction false} RunKeepsInv(states: seq<State>, x: Setup, i: nat)
    requires x.threshold > 0 && x.n > 0 && Run(states, x) && i < |states|
    ensures Inv(states[i], x)
  {
    if i > 0 {
      RunKeepsInv(states, x, i - 1);
      StepKeepsInv(states[i - 1], states[i], x);
    }
  }

  // ---------------------------------------------------------------- safety of every run

  /** The channel is closed at most once, and only when every RPC has completed and been received. */
  lemma ClosedOnceAtTheEnd(states: seq<State>, x: Setup, i: nat)
    requires x.threshold > 0 && x.n > 0 && Run(states, x) && i < |states|
    ensures states[i].closes <= 1
    ensures Closed(states[i]) ==> states[i].done == x.n && states[i].unsent == 0 && states[i].buffered == 0
  {
    RunKeepsInv(states, x, i);
  }

  /** Nobody can send on, receive from or close a closed channel: no RPC is left to complete, no consumer waits,
      and the caller has no round left and closes nothing. */
  lemma ClosedIsNotUsed(states: seq<State>, x: Setup, i: nat)
    requires x.threshold > 0 && x.n > 0 && Run(states, x) && i < |states| && Closed(states[i])
    ensures var s := states[i];
      s.unsent == 0 && s.waiting == 0 && s.closing == 0 && (s.caller == Choosing(x.Rest()) || s.caller.Returned?)
  {
    RunKeepsInv(states, x, i);
  }

  /** Never more than `n` completions are received, and the leases never exceed the pool. */
  lemma ReceivesAreBounded(states: seq<State>, x: Setup, i: nat)
    requires x.threshold > 0 && x.n > 0 && Run(states, x) && i < |states|
    ensures Received(states[i]) <= x.n && states[i].others + Leases(states[i]) <= x.pool
    ensures states[i].caller.Returned? ==> states[i].done >= x.Awaited()
  {
    RunKeepsInv(states, x, i);
  }

  // ---------------------------------------------------------------- progress

  ghost predicate Quiet(s: State, x: Setup) {
    forall s' :: !Step(s, s', x)
  }

  /** The state in which all is done: every completion received and counted, every lease released, the channel
      closed if the caller did not receive them all itself. */
  predicate AllDone(s: State, x: Setup) {
    && s.caller.Returned? && s.unsent == 0 && s.buffered == 0 && s.done == x.n
    && Leases(s) == 0 && s.adding == 0 && s.closing == 0
    && (Closed(s) <==> x.Rest() > 0)
  }

  lemma CanStep(s: State, x: Setup) returns (s': State)
    requires x.threshold > 0 && x.n > 0 && Inv(s, x) && !AllDone(s, x)
    ensures Step(s, s', x)
  {
    if s.closing > 0 { s' := s.(closing := s.closing - 1, closes := s.closes + 1); }
    else if s.adding > 0 {
      s' := s.(adding := s.adding - 1, done := s.done + 1, closing := s.closing + if s.done + 1 == x.n then 1 else 0);
    }
    else if s.releasing > 0 { s' := s.(releasing := s.releasing - 1, adding := s.adding + 1); }
    else if s.waiting > 0 && s.buffered > 0 {
      s' := s.(waiting := s.waiting - 1, buffered := s.buffered - 1, releasing := s.releasing + 1);
    }
    else if s.unsent > 0 && s.buffered < x.threshold { s' := s.(unsent := s.unsent - 1, buffered := s.buffered + 1); }
    else { s' := CallerCanStep(s, x); }
  }

  lemma CallerCanStep(s: State, x: Setup) returns (s': State)
    requires x.threshold > 0 && x.n > 0 && Inv(s, x) && !AllDone(s, x)
    requires s.closing == 0 && s.adding == 0 && s.releasing == 0
    requires (s.waiting == 0 || s.buffered == 0) && (s.unsent == 0 || s.buffered >= x.threshold)
    ensures Step(s, s', x)
  {
    match s.caller
    case Receiving => s' := s.(buffered := s.buffered - 1, caller := Counting);
    case Counting =>
      s' := s.(done := s.done + 1, caller := if s.done + 1 == x.Awaited() then Choosing(0) else Receiving);
    case Choosing(i) =>
      s' := if i == x.Rest() then s.(caller := Returned) else s.(buffered := s.buffered - 1, caller := Adding(i));
    case Adding(i) => s' := s.(done := s.done + 1, caller := if s.done + 1 == x.n then Closing(i) else Choosing(i + 1));
    case Closing(i) => s' := s.(closes := s.closes + 1, caller := Choosing(i + 1));
    case Returned => s' := s; assert false;
  }

  /** A run comes to rest only when all is done. In particular the caller has returned by then. */
  lemma QuietMeansDone(states: seq<State>, x: Setup, i: nat)
    requires x.threshold > 0 && x.n > 0 && Run(states, x) && i < |states| && Quiet(states[i], x)
    ensures AllDone(states[i], x)
  {
    RunKeepsInv(states, x, i);
    if !AllDone(states[i], x) {
      var s' := CanStep(states[i], x);
    }
  }

  /** An upper bound on the steps still to come. */
  function Work(s: State, x: Setup): int {
    s.unsent + 4 * s.waiting + 3 * s.releasing + 2 * s.adding + s.closing + match s.caller
      case Receiving => 2 * (x.Awaited() - s.done) + 6 * x.Rest() + 1
      case Counting => 2 * (x.Awaited() - s.done) + 6 * x.Rest()
      case Choosing(i) => 6 * (x.Rest() - i) + 1
      case Adding(i) => 6 * (x.Rest() - i)
      case Closing(i) => 6 * (x.Rest() - i) - 1
      case Returned => 0
  }

  lemma CallerUsesUpWork(s: State, s': State, x: Setup)
    requires x.threshold > 0 && x.n > 0 && Inv(s, x) && CallerStep(s, s', x)
    ensures Work(s', x) < Work(s, x)
  {
  }

  /** Every step of this provide uses up some of the work, and the others add none: it comes to rest. */
  lemma StepsUseUpWork(s: State, s': State, x: Setup)
    requires x.threshold > 0 && x.n > 0 && Inv(s, x)
    ensures Work(s, x) >= 0
    ensures Step(s, s', x) ==> Work(s', x) < Work(s, x)
    ensures OthersMove(s, s', x) ==> Work(s', x) == Work(s, x)
  {
    WorkIsThere(s, x);
    if CallerStep(s, s', x) { CallerUsesUpWork(s, s', x); }
    if ConsumerStep(s, s', x) || Send(s, s', x) { WorkersUseUpWork(s, s', x); }
  }

  lemma WorkIsThere(s: State, x: Setup)
    requires x.threshold > 0 && x.n > 0 && Inv(s, x)
    ensures Work(s, x) >= 0
  {
  }

  lemma WorkersUseUpWork(s: State, s': State, x: Setup)
    requires ConsumerStep(s, s', x) || Send(s, s', x)
    ensures Work(s', x) < Work(s, x)
  {
  }

  /** The steps of this provide among the first `i` steps of a run. */
  ghost function Own(states: seq<State>, x: Setup, i: nat): nat
    requires i < |states|
  {
    if i == 0 then 0 else Own(states, x, i - 1) + if Step(states[i - 1], states[i], x) then 1 else 0
  }

  /** However others interleave, this provide takes a bounded number of steps. */
  lemma {:induction false} StepsAreBounded(states: seq<State>, x: Setup, i: nat)
    requires x.threshold > 0 && x.n > 0 && Run(states, x) && i < |states|
    ensures Own(states, x, i) + Work(states[i], x) <= 7 * x.n + 1 && Work(states[i], x) >= 0
  {
    RunKeepsInv(states, x, i);
    if i > 0 {
      StepsAreBounded(states, x, i - 1);
      RunKeepsInv(states, x, i - 1);
      StepsUseUpWork(states[i - 1], states[i], x);
    }
    StepsUseUpWork(states[i], states[i], x);
  }

  /** With no RPC issued the caller waits for ever: the very first state is at rest. */
  lemma StuckWithoutRpcs(x: Setup)
    requires x.threshold > 0
    ensures Quiet(Init(x), x) <==> x.n == 0
  {
    if x.n > 0 {
      var s' := CanStep(Init(x), x);
    }
  }
}
