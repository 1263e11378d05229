/** Message delivery records of the peer score: a map of records and a linked queue of their expiry times. */
module Deliveries {
  import opened Basics
  import opened Peers

  datatype Status = Unknown | Valid | Invalid | Ignored | Throttled

  /** `peers` are the peers that sent the message; None is the released (nil) map. */
  datatype Record = Record(status: Status, firstSeen: int, validated: int, peers: Option<set<PeerId>>)

  type Records = map<MessageId, Record>

  datatype Queued = Queued(id: MessageId, expire: int)

  /** The queue in order and the records. */
  datatype State = State(queue: seq<Queued>, records: Records)

  datatype Reason =
    | BadSignature | SelfOrigin | Blacklisted | QueueFull | ValidationThrottled | ValidationIgnored | ValidationFailed

  // ---------------------------------------------------------------- what the operations do

  function Fresh(now: int): Record { Record(Unknown, now, 0, Some({})) }

  /** getRecord: a message seen for the first time gets a record and a place at the end of the queue. */
  function Got(s: State, id: MessageId, now: int, ttl: nat): State {
    if id in s.records then s else State(s.queue + [Queued(id, now + ttl)], s.records[id := Fresh(now)])
  }

  function Put(s: State, id: MessageId, r: Record): State { s.(records := s.records[id := r]) }

  /** A message is delivered: its record becomes valid unless it was decided before. */
  function Delivered(s: State, id: MessageId, now: int, ttl: nat): State {
    var s1 := Got(s, id, now, ttl);
    var r := s1.records[id];
    if r.status != Unknown then s1 else Put(s1, id, r.(status := Valid, validated := now))
  }

  /** The reasons for which a rejection leaves no trace in the records. */
  predicate Untracked(reason: Reason) {
    reason == BadSignature || reason == SelfOrigin || reason == Blacklisted || reason == QueueFull
  }

  function Verdict(reason: Reason): Status {
    if reason == ValidationThrottled then Throttled else if reason == ValidationIgnored then Ignored else Invalid
  }

  function Rejected(s: State, id: MessageId, reason: Reason, now: int, ttl: nat): State {
    if Untracked(reason) then s
    else
      var s1 := Got(s, id, now, ttl);
      var r := s1.records[id];
      if r.status != Unknown then s1 else Put(s1, id, r.(status := Verdict(reason), peers := None))
  }

  predicate Sent(r: Record, p: PeerId) { r.peers.Some? && p in r.peers.value }

  /** Whether another copy would be written to a released map, which panics. */
  predicate Panics(s: State, id: MessageId) {
    id in s.records && Open(s.records[id]) && s.records[id].peers.None?
  }

  /** Another copy arrives from `p`: it is noted while the message is undecided or valid. */
  function Duplicated(s: State, id: MessageId, p: PeerId, now: int, ttl: nat): State {
    var s1 := Got(s, id, now, ttl);
    var r := s1.records[id];
    if Sent(r, p) || r.peers.None? || (r.status != Unknown && r.status != Valid) then s1
    else Put(s1, id, r.(peers := Some(r.peers.value + {p})))
  }

  datatype Event =
    | Validate(id: MessageId)
    | Deliver(id: MessageId, from: PeerId)
    | Reject(id: MessageId, from: PeerId, reason: Reason)
    | Duplicate(id: MessageId, from: PeerId)
    | Collect

  /** The peers that sent an undecided message. */
  function Senders(s: State, id: MessageId): set<PeerId> {
    if id in s.records && s.records[id].status == Unknown && s.records[id].peers.Some?
    then s.records[id].peers.value else {}
  }

  predicate NewSender(r: Record, p: PeerId) { r.peers.Some? && p !in r.peers.value }

  predicate Undecided(s: State, id: MessageId) { id in s.records ==> s.records[id].status == Unknown }

  /** Who is rewarded for a duplicate: the other senders when a message is delivered, and whoever sends a valid
      message for the first time. */
  function RewardedBy(s: State, e: Event): set<PeerId> {
    match e
    case Deliver(id, from) => Senders(s, id) - {from}
    case Duplicate(id, from) =>
      if id in s.records && s.records[id].status == Valid && NewSender(s.records[id], from) then {from} else {}
    case _ => {}
  }

  /** Who is penalised: the sender of an unsigned message or of one of our own; all senders of a message that fails
      validation; and whoever sends it later. */
  function PenalisedBy(s: State, e: Event): set<PeerId> {
    match e
    case Reject(id, from, reason) =>
      if reason == BadSignature || reason == SelfOrigin then {from}
      else if reason == ValidationFailed && Undecided(s, id) then {from} + Senders(s, id)
      else {}
    case Duplicate(id, from) =>
      if id in s.records && s.records[id].status == Invalid && !Sent(s.records[id], from) then {from} else {}
    case _ => {}
  }

  /** How many entries at the front of the queue have expired. */
  function Expired(queue: seq<Queued>, now: int): (n: nat)
    ensures n <= |queue| && (forall i :: 0 <= i < n ==> now > queue[i].expire)
    ensures n < |queue| ==> now <= queue[n].expire
  {
    if queue == [] || now <= queue[0].expire then 0 else 1 + Expired(queue[1..], now)
  }

  function Ids(queue: seq<Queued>): seq<MessageId> { seq(|queue|, i requires 0 <= i < |queue| => queue[i].id) }

  function Collected(s: State, now: int): State {
    var n := Expired(s.queue, now);
    State(s.queue[n..], s.records - ToSet(Ids(s.queue[..n])))
  }

  // ---------------------------------------------------------------- invariant

  ghost predicate Ordered(queue: seq<Queued>, latest: int) {
    && (forall i, j :: 0 <= i < j < |queue| ==> queue[i].expire <= queue[j].expire)
    && (forall i :: 0 <= i < |queue| ==> queue[i].expire <= latest)
  }

  /** Whether other senders are still noted. */
  predicate Open(r: Record) { r.status == Unknown || r.status == Valid }

  ghost predicate Tracked(records: Records) {
    forall id :: id in records && Open(records[id]) ==> records[id].peers.Some?
  }

  /** The queued ids are distinct and are the records' keys, the queue is ordered by expiry, nothing expires later
      than a record made now would, and peers are tracked while the status is unknown or valid. */
  ghost predicate Inv(s: State, now: int, ttl: nat) {
    && NoDuplicates(Ids(s.queue)) && ToSet(Ids(s.queue)) == s.records.Keys
    && Ordered(s.queue, now + ttl) && Tracked(s.records)
  }

  lemma AppendedId(ids: seq<MessageId>, id: MessageId)
    requires NoDuplicates(ids) && id !in ToSet(ids)
    ensures NoDuplicates(ids + [id]) && ToSet(ids + [id]) == ToSet(ids) + {id}
  {
  }

  lemma GotKeepsInv(s: State, id: MessageId, before: int, now: int, ttl: nat)
    requires Inv(s, before, ttl) && before <= now
    ensures Inv(Got(s, id, now, ttl), now, ttl) && id in Got(s, id, now, ttl).records
  {
    var s' := Got(s, id, now, ttl);
    if id !in s.records {
      AppendedId(Ids(s.queue), id);
      assert Ids(s'.queue) == Ids(s.queue) + [id];
      assert s'.records.Keys == s.records.Keys + {id};
    }
  }

  lemma PutKeepsInv(s: State, id: MessageId, r: Record, now: int, ttl: nat)
    requires Inv(s, now, ttl) && id in s.records && (r.status == Unknown || r.status == Valid ==> r.peers.Some?)
    ensures Inv(Put(s, id, r), now, ttl)
  {
  }

  lemma DeliveredKeepsInv(s: State, id: MessageId, before: int, now: int, ttl: nat)
    requires Inv(s, before, ttl) && before <= now
    ensures Inv(Delivered(s, id, now, ttl), now, ttl)
  {
    GotKeepsInv(s, id, before, now, ttl);
    var s1 := Got(s, id, now, ttl);
    var r := s1.records[id];
    if r.status == Unknown { PutKeepsInv(s1, id, r.(status := Valid, validated := now), now, ttl); }
  }

  lemma RejectedKeepsInv(s: State, id: MessageId, reason: Reason, before: int, now: int, ttl: nat)
    requires Inv(s, before, ttl) && before <= now
    ensures Inv(Rejected(s, id, reason, now, ttl), now, ttl)
  {
    GotKeepsInv(s, id, before, now, ttl);
    var s1 := Got(s, id, now, ttl);
    PutKeepsInv(s1, id, s1.records[id].(status := Verdict(reason), peers := None), now, ttl);
  }

  lemma DuplicatedKeepsInv(s: State, id: MessageId, p: PeerId, before: int, now: int, ttl: nat)
    requires Inv(s, before, ttl) && before <= now
    ensures Inv(Duplicated(s, id, p, now, ttl), now, ttl)
  {
    GotKeepsInv(s, id, before, now, ttl);
    var s1 := Got(s, id, now, ttl);
    var r := s1.records[id];
    if r.peers.Some? { PutKeepsInv(s1, id, r.(peers := Some(r.peers.value + {p})), now, ttl); }
  }

  lemma DistinctParts(a: seq<MessageId>, b: seq<MessageId>)
    requires NoDuplicates(a + b)
    ensures NoDuplicates(b) && ToSet(a) !! ToSet(b) && ToSet(a + b) == ToSet(a) + ToSet(b)
  {
    forall i, j | 0 <= i < j < |b| ensures b[i] != b[j] { assert (a + b)[|a| + i] != (a + b)[|a| + j]; }
    forall i, j | 0 <= i < |a| && 0 <= j < |b| ensures a[i] != b[j] { assert (a + b)[i] != (a + b)[|a| + j]; }
  }

  lemma CollectedIds(s: State, now: int)
    requires NoDuplicates(Ids(s.queue)) && ToSet(Ids(s.queue)) == s.records.Keys
    ensures var n := Expired(s.queue, now);
      && ToSet(Ids(s.queue[..n])) !! ToSet(Ids(s.queue[n..])) && NoDuplicates(Ids(s.queue[n..]))
      && Collected(s, now).records.Keys == ToSet(Ids(s.queue[n..]))
  {
    var n := Expired(s.queue, now);
    var front, back := Ids(s.queue[..n]), Ids(s.queue[n..]);
    assert Ids(s.queue) == front + back;
    DistinctParts(front, back);
  }

  lemma CollectedKeepsInv(s: State, before: int, now: int, ttl: nat)
    requires Inv(s, before, ttl) && before <= now
    ensures Inv(Collected(s, now), now, ttl)
  {
    CollectedIds(s, now);
  }

  /** Collecting removes exactly the expired records and keeps the others as they are. */
  lemma CollectedExactly(s: State, before: int, now: int, ttl: nat, i: nat)
    requires Inv(s, before, ttl) && i < |s.queue|
    ensures s.queue[i].id in Collected(s, now).records <==> now <= s.queue[i].expire
    ensures forall id :: id in Collected(s, now).records ==>
      id in s.records && Collected(s, now).records[id] == s.records[id]
  {
    var n, id := Expired(s.queue, now), s.queue[i].id;
    CollectedIds(s, now);
    if i < n { assert Ids(s.queue[..n])[i] == id; } else { assert Ids(s.queue[n..])[i - n] == id; }
  }

  lemma CollectStep(s: State, now: int)
    requires s.queue != [] && now > s.queue[0].expire
    ensures Collected(s, now) == Collected(State(s.queue[1..], s.records - {s.queue[0].id}), now)
  {
    var n, rest := Expired(s.queue, now), s.queue[1..];
    assert s.queue[n..] == rest[n - 1..];
    assert Ids(s.queue[..n]) == [s.queue[0].id] + Ids(rest[..n - 1]);
    assert ToSet(Ids(s.queue[..n])) == {s.queue[0].id} + ToSet(Ids(rest[..n - 1]));
  }

  // ---------------------------------------------------------------- runs

  function After(s: State, e: Event, now: int, ttl: nat): State {
    match e
    case Validate(id) => Got(s, id, now, ttl)
    case Deliver(id, _) => Delivered(s, id, now, ttl)
    case Reject(id, _, reason) => Rejected(s, id, reason, now, ttl)
    case Duplicate(id, p) => Duplicated(s, id, p, now, ttl)
    case Collect => Collected(s, now)
  }

  /** Events at times that never go back. */
  function RunOf(events: seq<(Event, int)>, ttl: nat): State {
    if events == [] then State([], map[])
    else
      var (e, now) := events[|events| - 1];
      After(RunOf(events[..|events| - 1], ttl), e, now, ttl)
  }

  ghost predicate InTime(events: seq<(Event, int)>) {
    forall i, j :: 0 <= i < j < |events| ==> events[i].1 <= events[j].1
  }

  lemma AfterKeepsInv(s: State, e: Event, before: int, now: int, ttl: nat)
    requires Inv(s, before, ttl) && before <= now
    ensures Inv(After(s, e, now, ttl), now, ttl)
  {
    match e
    case Validate(id) => GotKeepsInv(s, id, before, now, ttl);
    case Collect => CollectedKeepsInv(s, before, now, ttl);
    case Deliver(id, _) => DeliveredKeepsInv(s, id, before, now, ttl);
    case Reject(id, _, reason) => RejectedKeepsInv(s, id, reason, before, now, ttl);
    case Duplicate(id, from) => DuplicatedKeepsInv(s, id, from, before, now, ttl);
  }

  /** In every run the queue and the records agree, the queue is in order of expiry, and peers are tracked while
      they can still be written. */
  lemma {:induction false} RunKeepsInv(events: seq<(Event, int)>, ttl: nat, now: int)
    requires InTime(events) && forall i :: 0 <= i < |events| ==> events[i].1 <= now
    ensures Inv(RunOf(events, ttl), now, ttl)
  {
    if events == [] {
      assert Ids([]) == [];
    } else {
      var init := events[..|events| - 1];
      RunKeepsInv(init, ttl, events[|events| - 1].1);
      AfterKeepsInv(RunOf(init, ttl), events[|events| - 1].0, events[|events| - 1].1, events[|events| - 1].1, ttl);
    }
  }

  /** No run ever writes to a released peer map. */
  lemma {:induction false} NeverPanics(events: seq<(Event, int)>, ttl: nat, id: MessageId)
    requires InTime(events)
    ensures !Panics(RunOf(events, ttl), id)
  {
    RunKeepsInv(events, ttl, if events == [] then 0 else events[|events| - 1].1);
  }

  /** A decided record keeps its status for as long as it is kept: the status leaves unknown at most once. */
  lemma DecidedStays(s: State, e: Event, id: MessageId, now: int, ttl: nat)
    requires id in s.records && s.records[id].status != Unknown && id in After(s, e, now, ttl).records
    ensures After(s, e, now, ttl).records[id].status == s.records[id].status
  {
  }

  /** As long as a record is kept, what was decided about it once stays decided. */
  lemma {:induction false} DecidedForGood(events: seq<(Event, int)>, ttl: nat, id: MessageId, i: nat, j: nat)
    requires i <= j <= |events| && (forall k :: i <= k <= j ==> id in RunOf(events[..k], ttl).records)
    requires RunOf(events[..i], ttl).records[id].status != Unknown
    ensures RunOf(events[..j], ttl).records[id].status == RunOf(events[..i], ttl).records[id].status
    decreases j
  {
    if i < j {
      DecidedForGood(events, ttl, id, i, j - 1);
      RunOfNext(events, ttl, j);
      DecidedStays(RunOf(events[..j - 1], ttl), events[j - 1].0, id, events[j - 1].1, ttl);
    }
  }

  lemma RunOfNext(events: seq<(Event, int)>, ttl: nat, j: nat)
    requires 0 < j <= |events|
    ensures RunOf(events[..j], ttl) == After(RunOf(events[..j - 1], ttl), events[j - 1].0, events[j - 1].1, ttl)
  {
    var run, last := events[..j], events[j - 1];
    assert run[..|run| - 1] == events[..j - 1] && run[|run| - 1] == last;
  }

  // ---------------------------------------------------------------- rewards and penalties

  /** How often `p` is rewarded for a duplicate of message `id` by the events from the ith up to the jth. */
  function RewardsIn(events: seq<(Event, int)>, ttl: nat, id: MessageId, p: PeerId, i: nat, j: nat): nat
    requires j <= |events|
  {
    if i >= j then 0
    else
      var e := events[j - 1].0;
      RewardsIn(events, ttl, id, p, i, j - 1) + if Rewards(RunOf(events[..j - 1], ttl), e, id, p) then 1 else 0
  }

  predicate Rewards(s: State, e: Event, id: MessageId, p: PeerId) {
    (e.Deliver? || e.Duplicate?) && e.id == id && p in RewardedBy(s, e)
  }

  predicate Penalises(s: State, e: Event, id: MessageId, p: PeerId) {
    (e.Duplicate? || e.Reject?) && e.id == id && p in PenalisedBy(s, e)
  }

  /** A copy of the message that is rejected before it is looked up: it is unsigned, or claims to be our own. */
  predicate Refused(e: Event, id: MessageId, p: PeerId) {
    e == Reject(id, p, BadSignature) || e == Reject(id, p, SelfOrigin)
  }

  /** Rewards still to be had: one while the message is undecided, or valid and not sent by `p`. */
  function Outstanding(s: State, id: MessageId, p: PeerId): nat {
    if id in s.records && Open(s.records[id]) && (s.records[id].status == Valid ==> !Sent(s.records[id], p))
    then 1 else 0
  }

  lemma RewardStep(s: State, e: Event, id: MessageId, p: PeerId, now: int, ttl: nat)
    requires id in s.records && id in After(s, e, now, ttl).records
    ensures Outstanding(After(s, e, now, ttl), id, p) + (if Rewards(s, e, id, p) then 1 else 0) <= Outstanding(s, id, p)
  {
  }

  /** As long as a record is kept, no peer is rewarded twice for duplicates of its message. */
  lemma {:induction false} RewardedOnce(events: seq<(Event, int)>, ttl: nat, id: MessageId, p: PeerId, i: nat, j: nat)
    requires i <= j <= |events| && forall k :: i <= k <= j ==> id in RunOf(events[..k], ttl).records
    ensures RewardsIn(events, ttl, id, p, i, j) + Outstanding(RunOf(events[..j], ttl), id, p) <=
            Outstanding(RunOf(events[..i], ttl), id, p) <= 1
    decreases j
  {
    if i < j {
      RewardedOnce(events, ttl, id, p, i, j - 1);
      RunOfNext(events, ttl, j);
      RewardStep(RunOf(events[..j - 1], ttl), events[j - 1].0, id, p, events[j - 1].1, ttl);
    }
  }

  /** Rewards go out only for messages that are, or become, valid; penalties only for messages that are, or become,
      invalid, and for refused copies. */
  lemma MarksFollowStatus(s: State, e: Event, id: MessageId, p: PeerId, now: int, ttl: nat)
    requires id in After(s, e, now, ttl).records
    ensures Rewards(s, e, id, p) ==> After(s, e, now, ttl).records[id].status == Valid
    ensures Penalises(s, e, id, p) ==> After(s, e, now, ttl).records[id].status == Invalid || Refused(e, id, p)
    ensures Refused(e, id, p) ==> Penalises(s, e, id, p)
  {
  }

  /** Once somebody was rewarded for a message, and as long as its record is kept, and before it as well as after, the
      only ones penalised for it are those who send a copy that is unsigned or claims to be our own; and each of these
      is, because such copies are rejected before anybody looks whether the message is known. */
  lemma PenalisedBesidesIff(events: seq<(Event, int)>, ttl: nat, id: MessageId, p: PeerId, q: PeerId, i: nat, j: nat)
    requires i < |events| && j < |events| && Rewards(RunOf(events[..i], ttl), events[i].0, id, p)
    requires forall k :: Min(i, j) < k <= Max(i, j) + 1 ==> id in RunOf(events[..k], ttl).records
    ensures Penalises(RunOf(events[..j], ttl), events[j].0, id, q) <==> Refused(events[j].0, id, q)
  {
    MarkAt(events, ttl, id, p, i);
    MarkAt(events, ttl, id, q, j);
    FinalStatus(events, ttl, id, i, j);
  }

  /** A run with both: a delivery, a copy from another peer, and an unsigned copy. */
  lemma RewardedAndPenalised(id: MessageId, p: PeerId, r: PeerId, q: PeerId, now: int, ttl: nat)
    requires p != r
    ensures var events := [(Deliver(id, p), now), (Duplicate(id, r), now), (Reject(id, q, BadSignature), now)];
      && Rewards(RunOf(events[..1], ttl), events[1].0, id, r)
      && Penalises(RunOf(events[..2], ttl), events[2].0, id, q)
      && forall k :: 0 < k <= 3 ==> id in RunOf(events[..k], ttl).records
  {
    var events := [(Deliver(id, p), now), (Duplicate(id, r), now), (Reject(id, q, BadSignature), now)];
    assert events[..0] == [];
    RunOfNext(events, ttl, 1);
    RunOfNext(events, ttl, 2);
    RunOfNext(events, ttl, 3);
  }

  lemma MarkAt(events: seq<(Event, int)>, ttl: nat, id: MessageId, p: PeerId, i: nat)
    requires i < |events| && id in RunOf(events[..i + 1], ttl).records
    ensures Rewards(RunOf(events[..i], ttl), events[i].0, id, p) ==>
      RunOf(events[..i + 1], ttl).records[id].status == Valid
    ensures Penalises(RunOf(events[..i], ttl), events[i].0, id, p) ==>
      RunOf(events[..i + 1], ttl).records[id].status == Invalid || Refused(events[i].0, id, p)
    ensures Refused(events[i].0, id, p) ==> Penalises(RunOf(events[..i], ttl), events[i].0, id, p)
  {
    RunOfNext(events, ttl, i + 1);
    MarksFollowStatus(RunOf(events[..i], ttl), events[i].0, id, p, events[i].1, ttl);
  }

  lemma FinalStatus(events: seq<(Event, int)>, ttl: nat, id: MessageId, i: nat, j: nat)
    requires i < |events| && j < |events|
    requires forall k :: Min(i, j) < k <= Max(i, j) + 1 ==> id in RunOf(events[..k], ttl).records
    requires id in RunOf(events[..i + 1], ttl).records && RunOf(events[..i + 1], ttl).records[id].status != Unknown
    ensures id in RunOf(events[..j + 1], ttl).records && RunOf(events[..j + 1], ttl).records[id].status != Unknown ==>
      RunOf(events[..j + 1], ttl).records[id].status == RunOf(events[..i + 1], ttl).records[id].status
  {
    if i < j {
      DecidedForGood(events, ttl, id, i + 1, j + 1);
    } else if RunOf(events[..j + 1], ttl).records[id].status != Unknown {
      DecidedForGood(events, ttl, id, j + 1, i + 1);
    }
  }

  /** Whether `p` sends message `id` again after the ith event and before the jth. */
  ghost predicate SendsAgain(events: seq<(Event, int)>, id: MessageId, p: PeerId, i: nat, j: nat)
    requires j <= |events|
  {
    exists k :: i < k < j && events[k].0 == Duplicate(id, p)
  }

  /** While a message is valid, a copy makes its sender a known one, and earns it a reward if it was not. */
  lemma ValidStep(s: State, e: Event, id: MessageId, p: PeerId, now: int, ttl: nat)
    requires id in s.records && s.records[id].status == Valid && s.records[id].peers.Some?
    requires id in After(s, e, now, ttl).records
    ensures var r, r' := s.records[id], After(s, e, now, ttl).records[id];
      && r'.status == Valid && r'.peers.Some?
      && (p in r'.peers.value <==> p in r.peers.value || e == Duplicate(id, p))
      && (Rewards(s, e, id, p) <==> e == Duplicate(id, p) && p !in r.peers.value)
  {
  }

  /** The books on the peer that delivered a message first: it is a known sender exactly if it had sent another copy
      before, or did later; and it was rewarded in the second case only. */
  ghost predicate Books(s: State, rewards: nat, known: bool, again: bool, id: MessageId, p: PeerId) {
    && id in s.records && s.records[id].status == Valid && s.records[id].peers.Some?
    && (p in s.records[id].peers.value <==> known || again)
    && rewards == if !known && again then 1 else 0
  }

  lemma BooksStep(s: State, e: Event, now: int, ttl: nat, rewards: nat, known: bool, again: bool, id: MessageId,
                  p: PeerId)
    requires Books(s, rewards, known, again, id, p) && id in After(s, e, now, ttl).records
    ensures Books(After(s, e, now, ttl), rewards + if Rewards(s, e, id, p) then 1 else 0,
                  known, again || e == Duplicate(id, p), id, p)
  {
    ValidStep(s, e, id, p, now, ttl);
  }

  lemma {:induction false} AfterDelivery(events: seq<(Event, int)>, ttl: nat, id: MessageId, p: PeerId, i: nat, j: nat)
    requires InTime(events) && i < j <= |events| && events[i].0 == Deliver(id, p)
    requires Undecided(RunOf(events[..i], ttl), id)
    requires forall k :: i < k <= j ==> id in RunOf(events[..k], ttl).records
    ensures BooksAt(events, ttl, p in Senders(RunOf(events[..i], ttl), id), id, p, i, j)
    decreases j
  {
    var known := p in Senders(RunOf(events[..i], ttl), id);
    if j == i + 1 {
      RightAfterDelivery(events, ttl, id, p, i, known);
    } else {
      AfterDelivery(events, ttl, id, p, i, j - 1);
      NextBooks(events, ttl, known, id, p, i, j);
    }
  }

  ghost predicate BooksAt(events: seq<(Event, int)>, ttl: nat, known: bool, id: MessageId, p: PeerId, i: nat, j: nat)
    requires j <= |events|
  {
    Books(RunOf(events[..j], ttl), RewardsIn(events, ttl, id, p, i, j), known, SendsAgain(events, id, p, i, j), id, p)
  }

  lemma NextBooks(events: seq<(Event, int)>, ttl: nat, known: bool, id: MessageId, p: PeerId, i: nat, j: nat)
    requires i + 1 < j <= |events| && BooksAt(events, ttl, known, id, p, i, j - 1)
    requires id in RunOf(events[..j], ttl).records
    ensures BooksAt(events, ttl, known, id, p, i, j)
  {
    RunOfNext(events, ttl, j);
    BooksStep(RunOf(events[..j - 1], ttl), events[j - 1].0, events[j - 1].1, ttl,
              RewardsIn(events, ttl, id, p, i, j - 1), known, SendsAgain(events, id, p, i, j - 1), id, p);
    SendsAgainNext(events, id, p, i, j);
  }

  lemma SendsAgainNext(events: seq<(Event, int)>, id: MessageId, p: PeerId, i: nat, j: nat)
    requires i + 1 < j <= |events|
    ensures SendsAgain(events, id, p, i, j) <==>
            SendsAgain(events, id, p, i, j - 1) || events[j - 1].0 == Duplicate(id, p)
  {
  }

  lemma DeliveryStep(s: State, id: MessageId, p: PeerId, now: int, ttl: nat)
    requires Tracked(s.records) && Undecided(s, id)
    ensures var r := After(s, Deliver(id, p), now, ttl).records[id];
      && r.status == Valid && r.peers.Some? && r.peers.value == Senders(s, id)
      && !Rewards(s, Deliver(id, p), id, p)
  {
  }

  lemma RightAfterDelivery(events: seq<(Event, int)>, ttl: nat, id: MessageId, p: PeerId, i: nat, known: bool)
    requires InTime(events) && i < |events| && events[i].0 == Deliver(id, p)
    requires Undecided(RunOf(events[..i], ttl), id) && known == (p in Senders(RunOf(events[..i], ttl), id))
    ensures BooksAt(events, ttl, known, id, p, i, i + 1)
  {
    assert Tracked(RunOf(events[..i], ttl).records) by { RunKeepsInv(events[..i], ttl, events[i].1); }
    RunOfNext(events, ttl, i + 1);
    DeliveryStep(RunOf(events[..i], ttl), id, p, events[i].1, ttl);
    assert RewardsIn(events, ttl, id, p, i, i) == 0;
  }

  /** The peer that delivers a message first is rewarded for a duplicate as well, while the record is kept, exactly if
      it had not sent another copy before the delivery and sends one after it. */
  lemma DelivererRewardedIff(events: seq<(Event, int)>, ttl: nat, id: MessageId, p: PeerId, i: nat, j: nat)
    requires InTime(events) && i < j <= |events| && events[i].0 == Deliver(id, p)
    requires Undecided(RunOf(events[..i], ttl), id)
    requires forall k :: i < k <= j ==> id in RunOf(events[..k], ttl).records
    ensures RewardsIn(events, ttl, id, p, i, j) > 0 <==>
            p !in Senders(RunOf(events[..i], ttl), id) && SendsAgain(events, id, p, i, j)
  {
    AfterDelivery(events, ttl, id, p, i, j);
  }

  /** Such a run exists: a delivery, and another copy from the same peer. */
  lemma DelivererRewardedAgain(id: MessageId, p: PeerId, now: int, ttl: nat)
    ensures RewardsIn([(Deliver(id, p), now), (Duplicate(id, p), now)], ttl, id, p, 0, 2) == 1
  {
    var events := [(Deliver(id, p), now), (Duplicate(id, p), now)];
    assert events[..0] == [];
    RunOfNext(events, ttl, 1);
    RunOfNext(events, ttl, 2);
    assert events[1].0 == Duplicate(id, p);
    AfterDelivery(events, ttl, id, p, 0, 2);
  }

  // ---------------------------------------------------------------- the linked queue

  class Entry {
    const id: MessageId
    const expire: int
    var next: Entry?

    constructor (id: MessageId, expire: int)
      ensures this.id == id && this.expire == expire && next == null
    {
      this.id, this.expire, next := id, expire, null;
    }
  }

  class MessageDeliveries {
    const ttl: nat
    var records: Records
    var head: Entry?
    var tail: Entry?
    /** The entries from head to tail. */
    ghost var spine: seq<Entry>

    /** The entries hang together. The tail of an empty queue may be stale. */
    ghost predicate Chained()
      reads this`head, this`tail, this`spine, spine
    {
      && (if spine == [] then head == null
          else head == spine[0] && tail == spine[|spine| - 1] && spine[|spine| - 1].next == null)
      && (forall i, j :: 0 <= i && j == i + 1 < |spine| ==> spine[i].next == spine[j])
      && NoDuplicates(spine)
    }

    ghost predicate Linked()
      reads this`head, this`tail, this`spine, spine
    {
      Chained() && (spine == [] ==> tail == null)
    }

    ghost function View(): State
      reads this
    {
      State(seq(|spine|, i requires 0 <= i < |spine| reads this => Queued(spine[i].id, spine[i].expire)), records)
    }

    constructor (ttl: nat)
      ensures Linked() && View() == State([], map[]) && this.ttl == ttl
    {
      this.ttl := ttl;
      records, head, tail, spine := map[], null, null, [];
    }

    method GetRecord(id: MessageId, now: int) returns (r: Record)
      requires Linked()
      modifies this, spine
      ensures Linked() && View() == Got(old(View()), id, now, ttl) && r == records[id]
      ensures fresh(ToSet(spine) - ToSet(old(spine)))
    {
      if id in records {
        return records[id];
      }
      r := Fresh(now);
      records := records[id := r];
      var entry := new Entry(id, now + ttl);
      if tail != null {
        tail.next := entry;
        tail := entry;
      } else {
        head := entry;
        tail := entry;
      }
      spine := spine + [entry];
    }

    method Gc(now: int)
      requires Linked()
      modifies this
      ensures Linked() && View() == Collected(old(View()), now)
    {
      if head == null {
        return;
      }
      while head != null && now > head.expire
        invariant Chained() && Collected(old(View()), now) == Collected(View(), now)
        decreases |spine|
      {
        CollectStep(View(), now);
        DropHead();
      }
      if head == null {
        tail := null;
      }
      assert View().queue[0..] == View().queue;
      assert Ids(View().queue[..0]) == [];
    }

    method DropHead()
      requires Chained() && head != null
      modifies this`records, this`head, this`spine
      ensures Chained() && |spine| == |old(spine)| - 1
      ensures View() == State(old(View()).queue[1..], old(records) - {old(View()).queue[0].id})
    {
      records := records - {head.id};
      head := head.next;
      if |spine| > 1 { assert spine[0].next == spine[1]; }
      assert forall i :: 0 <= i < |spine| - 1 ==> spine[1..][i] == spine[i + 1];
      spine := spine[1..];
    }

    /** DeliverMessage: the peers rewarded for having sent it already. */
    method DeliverMessage(id: MessageId, from: PeerId, now: int) returns (rewarded: set<PeerId>)
      requires Linked()
      modifies this, spine
      ensures Linked() && View() == Delivered(old(View()), id, now, ttl) && fresh(ToSet(spine) - ToSet(old(spine)))
      ensures rewarded == RewardedBy(old(View()), Deliver(id, from))
    {
      var r := GetRecord(id, now);
      if r.status != Unknown {
        return {};
      }
      records := records[id := r.(status := Valid, validated := now)];
      rewarded := if r.peers.Some? then r.peers.value - {from} else {};
    }

    /** RejectMessage: the peers penalised for it. */
    method RejectMessage(id: MessageId, from: PeerId, reason: Reason, now: int) returns (penalised: set<PeerId>)
      requires Linked()
      modifies this, spine
      ensures Linked() && View() == Rejected(old(View()), id, reason, now, ttl)
      ensures fresh(ToSet(spine) - ToSet(old(spine)))
      ensures penalised == PenalisedBy(old(View()), Reject(id, from, reason))
    {
      if reason == BadSignature || reason == SelfOrigin {
        return {from};
      }
      if reason == Blacklisted || reason == QueueFull {
        return {};
      }
      var r := GetRecord(id, now);
      if r.status != Unknown {
        return {};
      }
      records := records[id := r.(status := Verdict(reason), peers := None)];
      if reason == ValidationThrottled || reason == ValidationIgnored {
        return {};
      }
      penalised := {from} + if r.peers.Some? then r.peers.value else {};
    }

    /** DuplicateMessage. Writing to a released map would panic; the precondition is what every run keeps. */
    method DuplicateMessage(id: MessageId, from: PeerId, now: int)
      returns (rewarded: set<PeerId>, penalised: set<PeerId>)
      requires Linked() && Tracked(records)
      modifies this, spine
      ensures Linked() && View() == Duplicated(old(View()), id, from, now, ttl) && Tracked(records)
      ensures fresh(ToSet(spine) - ToSet(old(spine)))
      ensures rewarded == RewardedBy(old(View()), Duplicate(id, from))
      ensures penalised == PenalisedBy(old(View()), Duplicate(id, from))
    {
      rewarded, penalised := {}, {};
      var r := GetRecord(id, now);
      if r.peers.Some? && from in r.peers.value {
        return;
      }
      if r.status == Unknown || r.status == Valid {
        records := records[id := r.(peers := Some(r.peers.value + {from}))];
        rewarded := if r.status == Valid then {from} else {};
      } else if r.status == Invalid {
        penalised := {from};
      }
    }
  }
}
