/** The peer event log of a bitmask event handler: joins and leaves are logged, opposite events cancel, and
    consumers pull events or block on a signal. */
module EventLog {
  import opened Basics
  import opened Peers

  datatype EventType = PeerJoin | PeerLeave
  datatype PeerEvent = PeerEvent(kind: EventType, peer: PeerId)

  type Log = map<PeerId, EventType>

  /** addToEventLog: a new event is logged, the opposite of a logged one cancels it. */
  function Added(log: Log, e: PeerEvent): Log {
    if e.peer !in log then log[e.peer := e.kind] else if log[e.peer] != e.kind then log - {e.peer} else log
  }

  class EventHandler {
    var log: Log
    /** Whether the signal channel, which has room for one signal, holds it. */
    var signal: bool

    /** A new handler has every current peer logged as joined, and no signal. */
    constructor (members: set<PeerId>)
      ensures log.Keys == members && (forall p :: p in members ==> log[p] == PeerJoin) && !signal
    {
      log, signal := map p | p in members :: PeerJoin, false;
    }

    method AddToEventLog(e: PeerEvent)
      modifies this
      ensures log == Added(old(log), e) && signal == (old(signal) || e.peer !in old(log))
    {
      if e.peer !in log {
        log := log[e.peer := e.kind];
        if !signal { signal := true; }
      } else if log[e.peer] != e.kind {
        log := log - {e.peer};
      }
    }

    method PullFromEventLog() returns (e: Option<PeerEvent>)
      modifies this`log
      ensures e.None? <==> old(log) == map[]
      ensures e.None? ==> log == old(log)
      ensures e.Some? ==>
        e.value.peer in old(log) && old(log)[e.value.peer] == e.value.kind && log == old(log) - {e.value.peer}
    {
      var keys := log.Keys;
      if keys == {} {
        return None;
      }
      var k :| k in keys;
      e := Some(PeerEvent(log[k], k));
      log := log - {k};
    }

    /** The locked part of NextPeerEvent: pull an event, and leave a signal if there are more. */
    method TryNext() returns (e: Option<PeerEvent>)
      modifies this
      ensures e.None? <==> old(log) == map[]
      ensures e.None? ==> log == old(log) && signal == old(signal)
      ensures e.Some? ==> Pulled(old(log), log, e.value) && signal == (old(signal) || log != map[])
    {
      e := PullFromEventLog();
      if e.Some? && |log| > 0 {
        if !signal { signal := true; }
      }
    }
  }

  ghost predicate Pulled(log: Log, log': Log, e: PeerEvent) {
    e.peer in log && log[e.peer] == e.kind && log' == log - {e.peer}
  }

  // ---------------------------------------------------------------- runs

  /** The bitmask's true peers, the handler's log and signal, the events emitted so far, and how many consumers
      are about to look at the log or blocked on the signal. */
  datatype State = State(members: set<PeerId>, log: Log, signal: bool, emitted: seq<PeerEvent>,
                         looking: nat, blocked: nat)

  function Init(members: set<PeerId>): State {
    State(members, map p | p in members :: PeerJoin, false, [], 0, 0)
  }

  function Notified(s: State, members: set<PeerId>, e: PeerEvent): State {
    s.(members := members, log := Added(s.log, e), signal := s.signal || e.peer !in s.log)
  }

  /** The process loop notifies a join only of a peer that was not there, and a leave only of one that was. */
  ghost predicate Join(s: State, s': State, p: PeerId) {
    p !in s.members && s' == Notified(s, s.members + {p}, PeerEvent(PeerJoin, p))
  }

  ghost predicate Leave(s: State, s': State, p: PeerId) {
    p in s.members && s' == Notified(s, s.members - {p}, PeerEvent(PeerLeave, p))
  }

  /** A consumer calls NextPeerEvent. */
  ghost predicate Call(s: State, s': State) {
    s' == s.(looking := s.looking + 1)
  }

  ghost predicate Emit(s: State, s': State, e: PeerEvent) {
    && s.looking > 0 && Pulled(s.log, s'.log, e)
    && s' == s.(log := s'.log, signal := s.signal || s'.log != map[],
                emitted := s.emitted + [e], looking := s.looking - 1)
  }

  ghost predicate Block(s: State, s': State) {
    s.looking > 0 && s.log == map[] && s' == s.(looking := s.looking - 1, blocked := s.blocked + 1)
  }

  ghost predicate Wake(s: State, s': State) {
    s.blocked > 0 && s.signal && s' == s.(signal := false, blocked := s.blocked - 1, looking := s.looking + 1)
  }

  ghost predicate GiveUp(s: State, s': State) {
    s.blocked > 0 && s' == s.(blocked := s.blocked - 1)
  }

  ghost predicate Step(s: State, s': State) {
    || (exists p :: Join(s, s', p)) || (exists p :: Leave(s, s', p)) || (exists e :: Emit(s, s', e))
    || Call(s, s') || Block(s, s') || Wake(s, s') || GiveUp(s, s')
  }

  ghost predicate Run(states: seq<State>) {
    && states != [] && states[0] == Init(states[0].members)
    && forall i :: 0 <= i < |states| - 1 ==> Step(states[i], states[i + 1])
  }

  // ---------------------------------------------------------------- replaying

  /** The peers a consumer believes are there after the events. */
  function Replay(events: seq<PeerEvent>): set<PeerId> {
    if events == [] then {}
    else
      var before, e := Replay(events[..|events| - 1]), events[|events| - 1];
      if e.kind == PeerJoin then before + {e.peer} else before - {e.peer}
  }

  /** Applying what is pending. */
  function Settle(believed: set<PeerId>, log: Log): set<PeerId> {
    (set p | p in believed && !(p in log && log[p] == PeerLeave)) + set p | p in log && log[p] == PeerJoin
  }

  /** Every event changes what the consumer believes: joins are of peers not there, leaves of peers that are. */
  ghost predicate Alternating(events: seq<PeerEvent>) {
    forall i :: 0 <= i < |events| ==> (events[i].kind == PeerJoin <==> events[i].peer !in Replay(events[..i]))
  }

  ghost predicate Inv(s: State) {
    && Alternating(s.emitted)
    && (forall p :: p in s.log ==> (s.log[p] == PeerJoin <==> p !in Replay(s.emitted)))
    && Settle(Replay(s.emitted), s.log) == s.members
    && (s.log != map[] ==> s.signal || s.looking > 0 || s.blocked == 0)
  }

  lemma NotifyKeepsInv(s: State, members: set<PeerId>, e: PeerEvent)
    requires Inv(s) && (e.kind == PeerJoin <==> e.peer !in s.members)
    requires members == if e.kind == PeerJoin then s.members + {e.peer} else s.members - {e.peer}
    ensures Inv(Notified(s, members, e))
  {
  }

  lemma ReplayAppend(events: seq<PeerEvent>, e: PeerEvent)
    ensures Replay(events + [e]) == if e.kind == PeerJoin then Replay(events) + {e.peer} else Replay(events) - {e.peer}
  {
  }

  lemma AlternatingAppend(events: seq<PeerEvent>, e: PeerEvent)
    requires Alternating(events) && (e.kind == PeerJoin <==> e.peer !in Replay(events))
    ensures Alternating(events + [e])
  {
    var more := events + [e];
    forall i | 0 <= i < |more| ensures more[i].kind == PeerJoin <==> more[i].peer !in Replay(more[..i]) {
      assert more[..i] == events[..i] && events[..|events|] == events;
    }
  }

  /** Moving an event from the log to the emitted ones does not change what all of them say. */
  lemma SettleMoves(believed: set<PeerId>, log: Log, log': Log, e: PeerEvent)
    requires Pulled(log, log', e) && (e.kind == PeerJoin <==> e.peer !in believed)
    ensures Settle(if e.kind == PeerJoin then believed + {e.peer} else believed - {e.peer}, log') ==
      Settle(believed, log)
  {
  }

  lemma EmitKeepsInv(s: State, s': State, e: PeerEvent)
    requires Inv(s) && Emit(s, s', e)
    ensures Inv(s')
  {
    ReplayAppend(s.emitted, e);
    AlternatingAppend(s.emitted, e);
    SettleMoves(Replay(s.emitted), s.log, s'.log, e);
  }

  lemma StepKeepsInv(s: State, s': State)
    requires Inv(s) && Step(s, s')
    ensures Inv(s')
  {
    if p :| Join(s, s', p) { NotifyKeepsInv(s, s.members + {p}, PeerEvent(PeerJoin, p)); }
    else if p :| Leave(s, s', p) { NotifyKeepsInv(s, s.members - {p}, PeerEvent(PeerLeave, p)); }
    else if e :| Emit(s, s', e) { EmitKeepsInv(s, s', e); }
  }

  lemma {:induction false} RunKeepsInv(states: seq<State>, i: nat)
    requires Run(states) && i < |states|
    ensures Inv(states[i])
  {
    if i > 0 {
      RunKeepsInv(states, i - 1);
      StepKeepsInv(states[i - 1], states[i]);
    }
  }

  /** In every state of every run, replaying the emitted events and then the pending log gives exactly the peers
      of the bitmask. */
  lemma ReplayIsTrue(states: seq<State>, i: nat)
    requires Run(states) && i < |states|
    ensures Settle(Replay(states[i].emitted), states[i].log) == states[i].members
    ensures states[i].log == map[] ==> Replay(states[i].emitted) == states[i].members
  {
    RunKeepsInv(states, i);
  }

  /** The events of one peer. */
  function Of(events: seq<PeerEvent>, p: PeerId): seq<EventType> {
    if events == [] then []
    else Of(events[..|events| - 1], p) + if events[|events| - 1].peer == p then [events[|events| - 1].kind] else []
  }

  lemma {:induction false} AlternatingPerPeer(events: seq<PeerEvent>, p: PeerId)
    requires Alternating(events)
    ensures forall k :: 0 <= k < |Of(events, p)| ==> Of(events, p)[k] == if k % 2 == 0 then PeerJoin else PeerLeave
    ensures p in Replay(events) <==> |Of(events, p)| % 2 == 1
  {
    if events != [] {
      var init := events[..|events| - 1];
      assert forall i :: 0 <= i < |init| ==> init[..i] == events[..i];
      AlternatingPerPeer(init, p);
    }
  }

  /** In every run the events emitted for a peer alternate, starting with a join. */
  lemma EmittedAlternate(states: seq<State>, i: nat, p: PeerId, k: nat)
    requires Run(states) && i < |states| && k < |Of(states[i].emitted, p)|
    ensures Of(states[i].emitted, p)[k] == if k % 2 == 0 then PeerJoin else PeerLeave
  {
    RunKeepsInv(states, i);
    AlternatingPerPeer(states[i].emitted, p);
  }

  /** Whenever events are pending and a consumer is blocked, a signal is there to wake it or another consumer is
      about to look, which will leave a signal if it does not empty the log. */
  lemma NobodyIsForgotten(states: seq<State>, i: nat)
    requires Run(states) && i < |states| && states[i].log != map[] && states[i].blocked > 0
    ensures states[i].looking == 0 ==> exists s' :: Wake(states[i], s')
    ensures states[i].looking > 0 ==>
      exists e, s' :: Emit(states[i], s', e) && (s'.log != map[] ==> exists s'' :: Wake(s', s''))
  {
    RunKeepsInv(states, i);
    var s := states[i];
    if s.looking == 0 {
      assert Wake(s, s.(signal := false, blocked := s.blocked - 1, looking := s.looking + 1));
    } else {
      assert s.log.Keys != {};
      var p :| p in s.log.Keys;
      var e, log := PeerEvent(s.log[p], p), s.log - {p};
      var s' := s.(log := log, signal := s.signal || log != map[],
                   emitted := s.emitted + [e], looking := s.looking - 1);
      assert Emit(s, s', e);
      if log != map[] { assert Wake(s', s'.(signal := false, blocked := s'.blocked - 1, looking := s'.looking + 1)); }
    }
  }
}
