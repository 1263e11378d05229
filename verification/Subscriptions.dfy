/** Subscriptions and relays of slices, and the composites that they make the router join and leave. */
module Subscriptions {
  import opened Basics
  import opened Bitmasks
  import opened Peers
  import opened RouterSpec
  import opened Router

  /** The subscriptions and the number of relays of each slice, the multi-bit masks listed under each of their slices,
      and the composites the router has. */
  datatype Books = Books(subs: map<Bitmask, set<nat>>, relays: map<Bitmask, nat>, listed: Index, joined: set<Bitmask>)

  predicate Active(k: Books, s: Bitmask) {
    (s in k.subs && k.subs[s] != {}) || (s in k.relays && k.relays[s] > 0)
  }

  ghost predicate AllActive(k: Books, m: Bitmask) {
    forall s :: s in Slices(m) ==> Active(k, s)
  }

  /** Whether no slice of `m` but `s` is active. */
  ghost predicate Idle(k: Books, s: Bitmask, m: Bitmask) {
    forall t :: t in Slices(m) && t != s ==> !Active(k, t)
  }

  function Under(listed: Index, s: Bitmask): seq<Bitmask> { if s in listed then listed[s] else [] }

  // ---------------------------------------------------------------- what the handlers do

  /** tryJoinComposite: which of the masks listed under a slice are joined. */
  ghost function Ready(k: Books, s: Bitmask): set<Bitmask> {
    set m | m in Under(k.listed, s) && |Slices(m)| > 1 && AllActive(k, m)
  }

  /** tryLeaveComposite for one mask: it is left, and struck off all its lists if no other slice is active. */
  ghost function LeaveMask(k: Books, s: Bitmask, m: Bitmask): Books {
    k.(joined := k.joined - {m}, listed := if Idle(k, s, m) then Unindexed(k.listed, Slices(m), m) else k.listed)
  }

  ghost function LeaveAll(k: Books, s: Bitmask, masks: seq<Bitmask>): Books {
    if masks == [] then k else LeaveMask(LeaveAll(k, s, masks[..|masks| - 1]), s, masks[|masks| - 1])
  }

  datatype Event =
    | Register(mask: Bitmask)
    | Subscribe(slice: Bitmask, sub: nat)
    | Unsubscribe(slice: Bitmask, sub: nat)
    | Relay(slice: Bitmask)
    | Unrelay(slice: Bitmask)

  /** The subscriptions and relays after an event. */
  function Counted(k: Books, e: Event): Books {
    match e
    case Register(_) => k
    case Subscribe(s, id) => k.(subs := k.subs[s := (if s in k.subs then k.subs[s] else {}) + {id}])
    case Unsubscribe(s, id) =>
      if s !in k.subs then k
      else if k.subs[s] - {id} == {} then k.(subs := k.subs - {s})
      else k.(subs := k.subs[s := k.subs[s] - {id}])
    case Relay(s) => k.(relays := k.relays[s := (if s in k.relays then k.relays[s] else 0) + 1])
    case Unrelay(s) =>
      if s !in k.relays || k.relays[s] == 0 then k
      else if k.relays[s] == 1 then k.(relays := k.relays - {s})
      else k.(relays := k.relays[s := k.relays[s] - 1])
  }

  /** A slice is no longer active after the event. */
  predicate Deactivates(k: Books, e: Event) {
    match e
    case Unsubscribe(s, _) => s in k.subs && !Active(Counted(k, e), s)
    case Unrelay(s) => s in k.relays && k.relays[s] > 0 && !Active(Counted(k, e), s)
    case _ => false
  }

  /** The handlers: a subscription is recorded only after the composites were tried, a relay before. */
  ghost function After(k: Books, e: Event): Books {
    var k' := Counted(k, e);
    match e
    case Register(m) => if |Slices(m)| > 1 then k.(listed := Indexed(k.listed, Slices(m), m)) else k
    case Subscribe(s, _) => if Active(k, s) then k' else k'.(joined := k.joined + Ready(k, s))
    case Relay(s) => if Active(k, s) then k' else k'.(joined := k.joined + Ready(k', s))
    case _ => if Deactivates(k, e) then LeaveAll(k', e.slice, Under(k.listed, e.slice)) else k'
  }

  // ---------------------------------------------------------------- how often a mask is listed

  function Times(listed: Index, s: Bitmask, m: Bitmask): nat { multiset(Under(listed, s))[m] }

  function Less(n: nat, d: nat): nat { if n < d then 0 else n - d }

  lemma ListedIff(listed: Index, s: Bitmask, m: Bitmask)
    ensures m in Under(listed, s) <==> Times(listed, s, m) > 0
  {
  }

  lemma {:induction false} IndexedTimes(listed: Index, slices: seq<Bitmask>, m: Bitmask, s: Bitmask, o: Bitmask)
    requires NoDuplicates(slices)
    ensures Times(Indexed(listed, slices, m), s, o) == Times(listed, s, o) + if o == m && s in slices then 1 else 0
  {
    if slices != [] {
      var init, last := slices[..|slices| - 1], slices[|slices| - 1];
      assert slices == init + [last];
      IndexedTimes(listed, init, m, s, o);
    }
  }

  lemma {:induction false} WithoutTimes(keys: seq<Bitmask>, m: Bitmask, o: Bitmask)
    ensures multiset(Without(keys, m))[o] == if o == m then Less(multiset(keys)[o], 1) else multiset(keys)[o]
  {
    if keys != [] {
      assert keys == [keys[0]] + keys[1..];
      WithoutTimes(keys[1..], m, o);
    }
  }

  lemma {:induction false} UnindexedTimes(listed: Index, slices: seq<Bitmask>, m: Bitmask, s: Bitmask, o: Bitmask)
    requires NoDuplicates(slices)
    ensures Times(Unindexed(listed, slices, m), s, o) ==
            if o == m && s in slices then Less(Times(listed, s, o), 1) else Times(listed, s, o)
  {
    if slices != [] {
      var init, last := slices[..|slices| - 1], slices[|slices| - 1];
      assert slices == init + [last];
      UnindexedTimes(listed, init, m, s, o);
      RemovedTimes(Unindexed(listed, init, m), last, m, s, o);
    }
  }

  lemma RemovedTimes(listed: Index, last: Bitmask, m: Bitmask, s: Bitmask, o: Bitmask)
    ensures Times(Removed(listed, last, m), s, o) ==
            if o == m && s == last then Less(Times(listed, s, o), 1) else Times(listed, s, o)
  {
    WithoutTimes(Under(listed, last), m, o);
    assert Under(Removed(listed, last, m), last) == Without(Under(listed, last), m);
    assert s != last ==> Under(Removed(listed, last, m), s) == Under(listed, s);
  }

  lemma SlicesAreDistinct(m: Bitmask)
    ensures Slices(m) != [] && NoDuplicates(Slices(m))
  {
    SlicesDistinct(m);
  }

  // ---------------------------------------------------------------- invariant

  /** How often a mask is listed under each of its slices. */
  ghost function Copies(listed: Index, m: Bitmask): nat {
    if |Slices(m)| > 0 then Times(listed, Slices(m)[0], m) else 0
  }

  ghost predicate EvenOver(listed: Index, m: Bitmask, slices: seq<Bitmask>, n: nat) {
    forall s :: Times(listed, s, m) == if s in slices then n else 0
  }

  ghost predicate Even(listed: Index, m: Bitmask) {
    EvenOver(listed, m, Slices(m), Copies(listed, m))
  }

  lemma EvenCopies(listed: Index, m: Bitmask, n: nat)
    requires EvenOver(listed, m, Slices(m), n)
    ensures Copies(listed, m) == n && Even(listed, m)
  {
    SlicesAreDistinct(m);
    assert Slices(m)[0] in Slices(m);
  }

  /** A mask is listed equally often under each of its slices and nowhere else, and only if it has several; and if it
      is joined, it is listed and all its slices are active. */
  ghost predicate Fine(k: Books, m: Bitmask) {
    && Even(k.listed, m) && (Copies(k.listed, m) > 0 ==> |Slices(m)| > 1)
    && (m in k.joined ==> Copies(k.listed, m) > 0 && AllActive(k, m))
  }

  ghost predicate AllFine(k: Books) {
    forall m :: Fine(k, m)
  }

  /** Under what a slice of a mask is listed. */
  lemma FineMeans(k: Books, s: Bitmask, m: Bitmask)
    requires Fine(k, m)
    ensures m in Under(k.listed, s) <==> s in Slices(m) && Copies(k.listed, m) > 0
  {
    assert Times(k.listed, s, m) == if s in Slices(m) then Copies(k.listed, m) else 0;
    ListedIff(k.listed, s, m);
  }

  /** What a mask is like stays so if its lists do, and it is joined only with all its slices active. */
  lemma FineStays(k: Books, k': Books, m: Bitmask)
    requires Fine(k, m) && k'.listed == k.listed
    requires m in k'.joined ==> Copies(k.listed, m) > 0 && AllActive(k', m)
    ensures Fine(k', m)
  {
  }

  lemma SameActive(k: Books, k': Books, m: Bitmask)
    requires k'.subs == k.subs && k'.relays == k.relays
    ensures AllActive(k', m) <==> AllActive(k, m)
  {
    assert forall s :: Active(k', s) <==> Active(k, s);
  }

  lemma IndexedEven(listed: Index, m: Bitmask, slices: seq<Bitmask>, o: Bitmask, others: seq<Bitmask>, n: nat)
    requires NoDuplicates(slices) && (o == m ==> others == slices) && EvenOver(listed, o, others, n)
    ensures EvenOver(Indexed(listed, slices, m), o, others, n + if o == m then 1 else 0)
  {
    forall s ensures Times(Indexed(listed, slices, m), s, o) ==
                     if s in others then n + (if o == m then 1 else 0) else 0
    {
      IndexedTimes(listed, slices, m, s, o);
      assert Times(listed, s, o) == if s in others then n else 0;
    }
  }

  lemma RegisterKeeps(k: Books, m: Bitmask, o: Bitmask)
    requires Fine(k, o)
    ensures Fine(After(k, Register(m)), o)
  {
    var k' := After(k, Register(m));
    SameActive(k, k', o);
    if |Slices(m)| > 1 {
      SlicesAreDistinct(m);
      IndexedEven(k.listed, m, Slices(m), o, Slices(o), Copies(k.listed, o));
      EvenCopies(k'.listed, o, Copies(k.listed, o) + if o == m then 1 else 0);
    }
  }

  /** Only the slice of the event changes. */
  lemma OthersKept(k: Books, e: Event, s: Bitmask)
    requires e.Register? || s != e.slice
    ensures Active(Counted(k, e), s) <==> Active(k, s)
  {
  }

  lemma MoreActive(k: Books, e: Event, m: Bitmask)
    requires (e.Subscribe? || e.Relay?) && AllActive(k, m)
    ensures AllActive(Counted(k, e), m)
  {
    forall s | s in Slices(m) ensures Active(Counted(k, e), s) { assert Active(k, s); }
  }

  /** A new subscription never makes the router join a composite: when the composites are tried it is not yet recorded,
      so that its own slice is missing in each of them. */
  lemma SubscribingJoinsNothing(k: Books, s: Bitmask, sub: nat)
    requires AllFine(k)
    ensures After(k, Subscribe(s, sub)).joined == k.joined
  {
    if !Active(k, s) {
      forall m | m in Ready(k, s) ensures false {
        assert Fine(k, m);
        FineMeans(k, s, m);
      }
    }
  }

  /** What a slice's first relay makes the router join: the masks listed that it completes. */
  ghost predicate Joins(k: Books, e: Event, m: Bitmask) {
    && e.Relay? && e.slice in Slices(m) && !Active(k, e.slice)
    && Copies(k.listed, m) > 0 && AllActive(Counted(k, e), m)
  }

  ghost predicate Leaves(k: Books, e: Event, m: Bitmask) {
    Deactivates(k, e) && e.slice in Slices(m)
  }

  // ---------------------------------------------------------------- leaving

  lemma {:induction false} LeaveAllCounts(k: Books, s: Bitmask, masks: seq<Bitmask>)
    ensures var k' := LeaveAll(k, s, masks); k'.subs == k.subs && k'.relays == k.relays
    ensures LeaveAll(k, s, masks).joined == k.joined - ToSet(masks)
  {
    if masks != [] {
      var init, last := masks[..|masks| - 1], masks[|masks| - 1];
      LeaveAllCounts(k, s, init);
      assert ToSet(masks) == ToSet(init) + {last} by { assert masks == init + [last]; }
    }
  }

  lemma LeaveMaskTimes(k: Books, s: Bitmask, last: Bitmask, t: Bitmask, m: Bitmask)
    ensures Times(LeaveMask(k, s, last).listed, t, m) ==
            if m == last && t in Slices(m) && Idle(k, s, m) then Less(Times(k.listed, t, m), 1)
            else Times(k.listed, t, m)
  {
    SlicesAreDistinct(last);
    UnindexedTimes(k.listed, Slices(last), last, t, m);
  }

  lemma SameIdle(k: Books, k': Books, s: Bitmask, m: Bitmask)
    requires k'.subs == k.subs && k'.relays == k.relays
    ensures Idle(k', s, m) <==> Idle(k, s, m)
  {
    assert forall t :: Active(k', t) <==> Active(k, t);
  }

  /** A mask that no other active slice keeps is struck off as often as it was left. */
  lemma {:induction false} LeaveAllTimes(k: Books, s: Bitmask, masks: seq<Bitmask>, t: Bitmask, m: Bitmask)
    ensures Times(LeaveAll(k, s, masks).listed, t, m) ==
            if t in Slices(m) && Idle(k, s, m) then Less(Times(k.listed, t, m), multiset(masks)[m])
            else Times(k.listed, t, m)
  {
    if masks != [] {
      var init, last := masks[..|masks| - 1], masks[|masks| - 1];
      assert multiset(masks)[m] == multiset(init)[m] + if m == last then 1 else 0 by { assert masks == init + [last]; }
      LeaveAllTimes(k, s, init, t, m);
      LeaveAllCounts(k, s, init);
      SameIdle(k, LeaveAll(k, s, init), s, m);
      LeaveMaskTimes(LeaveAll(k, s, init), s, last, t, m);
    }
  }

  lemma LeavingEven(k: Books, s: Bitmask, masks: seq<Bitmask>, m: Bitmask, n: nat)
    requires EvenOver(k.listed, m, Slices(m), n) && masks == Under(k.listed, s)
    ensures EvenOver(LeaveAll(k, s, masks).listed, m, Slices(m), if s in Slices(m) && Idle(k, s, m) then 0 else n)
  {
    assert multiset(masks)[m] == if s in Slices(m) then n else 0 by {
      assert Times(k.listed, s, m) == multiset(masks)[m];
    }
    forall t ensures Times(LeaveAll(k, s, masks).listed, t, m) ==
                     if t in Slices(m) then (if s in Slices(m) && Idle(k, s, m) then 0 else n) else 0
    {
      LeaveAllTimes(k, s, masks, t, m);
      assert Times(k.listed, t, m) == if t in Slices(m) then n else 0;
    }
  }

  lemma AfterLeaving(k: Books, e: Event)
    requires Deactivates(k, e)
    ensures var k' := Counted(k, e);
      k'.listed == k.listed && k'.joined == k.joined && After(k, e) == LeaveAll(k', e.slice, Under(k'.listed, e.slice))
  {
  }

  /** When a slice is left, each mask with that slice and no other active one is struck off all lists; any other stays
      listed as often as it was. */
  lemma LeavingCopies(k: Books, e: Event, m: Bitmask)
    requires Fine(k, m) && Deactivates(k, e)
    ensures Even(After(k, e).listed, m)
    ensures Copies(After(k, e).listed, m) ==
            if e.slice in Slices(m) && Idle(k, e.slice, m) then 0 else Copies(k.listed, m)
  {
    var k1, n := Counted(k, e), Copies(k.listed, m);
    AfterLeaving(k, e);
    IdleKept(k, e, m);
    LeavingEven(k1, e.slice, Under(k1.listed, e.slice), m, n);
    EvenCopies(After(k, e).listed, m, if e.slice in Slices(m) && Idle(k1, e.slice, m) then 0 else n);
  }

  /** And every composite with that slice is left, and no other. */
  lemma LeavingJoined(k: Books, e: Event, m: Bitmask)
    requires Fine(k, m) && Deactivates(k, e)
    ensures m in After(k, e).joined <==> m in k.joined && e.slice !in Slices(m)
    ensures m in After(k, e).joined ==> AllActive(After(k, e), m)
  {
    var k1 := Counted(k, e);
    FineMeans(k, e.slice, m);
    AfterLeaving(k, e);
    LeaveAllCounts(k1, e.slice, Under(k1.listed, e.slice));
    SameActive(k1, After(k, e), m);
    if m in After(k, e).joined {
      forall t | t in Slices(m) ensures Active(k1, t) {
        assert Active(k, t);
        OthersKept(k, e, t);
      }
    }
  }

  lemma IdleKept(k: Books, e: Event, m: Bitmask)
    requires !e.Register?
    ensures Idle(Counted(k, e), e.slice, m) <==> Idle(k, e.slice, m)
  {
    forall t | t != e.slice ensures Active(Counted(k, e), t) <==> Active(k, t) { OthersKept(k, e, t); }
  }

  // ---------------------------------------------------------------- steps and runs

  /** What one event does to a mask: it is joined if this relay completes it, and stays joined until a slice of it is
      left. */
  ghost predicate Stepped(k: Books, e: Event, m: Bitmask) {
    m in After(k, e).joined <==> Joins(k, e, m) || (m in k.joined && !Leaves(k, e, m))
  }

  lemma SubscribeStep(k: Books, e: Event, m: Bitmask)
    requires AllFine(k) && e.Subscribe?
    ensures Fine(After(k, e), m) && Stepped(k, e, m)
  {
    assert Fine(k, m);
    SubscribingJoinsNothing(k, e.slice, e.sub);
    var k' := After(k, e);
    assert k'.listed == k.listed && k'.subs == Counted(k, e).subs && k'.relays == Counted(k, e).relays;
    SameActive(Counted(k, e), k', m);
    if m in k.joined { MoreActive(k, e, m); }
    FineStays(k, k', m);
  }

  lemma AfterRelay(k: Books, e: Event)
    requires e.Relay?
    ensures var k', k1 := After(k, e), Counted(k, e);
      && k'.subs == k1.subs && k'.relays == k1.relays && k'.listed == k.listed && k1.listed == k.listed
      && k'.joined == k.joined + if Active(k, e.slice) then {} else Ready(k1, e.slice)
  {
  }

  lemma RelayJoins(k: Books, e: Event, m: Bitmask)
    requires Fine(k, m) && e.Relay?
    ensures Stepped(k, e, m)
  {
    AfterRelay(k, e);
    FineMeans(k, e.slice, m);
  }

  lemma RelayKeeps(k: Books, e: Event, m: Bitmask)
    requires Fine(k, m) && e.Relay?
    ensures Fine(After(k, e), m)
  {
    var k1 := Counted(k, e);
    AfterRelay(k, e);
    FineMeans(k, e.slice, m);
    SameActive(k1, After(k, e), m);
    if m in k.joined { MoreActive(k, e, m); }
    FineStays(k, After(k, e), m);
  }

  lemma LeavingKeeps(k: Books, e: Event, m: Bitmask)
    requires Fine(k, m) && Deactivates(k, e)
    ensures Fine(After(k, e), m)
  {
    LeavingCopies(k, e, m);
    LeavingJoined(k, e, m);
  }

  lemma StayingKeeps(k: Books, e: Event, m: Bitmask)
    requires Fine(k, m) && (e.Unsubscribe? || e.Unrelay?) && !Deactivates(k, e)
    ensures Fine(After(k, e), m)
  {
    StillActive(k, e, m);
    assert After(k, e) == Counted(k, e);
    FineStays(k, Counted(k, e), m);
  }

  lemma StepKeeps(k: Books, e: Event, m: Bitmask)
    requires AllFine(k)
    ensures Fine(After(k, e), m)
  {
    assert Fine(k, m);
    match e
    case Register(mask) => RegisterKeeps(k, mask, m);
    case Subscribe(_, _) => SubscribeStep(k, e, m);
    case Relay(_) => RelayKeeps(k, e, m);
    case _ => if Deactivates(k, e) { LeavingKeeps(k, e, m); } else { StayingKeeps(k, e, m); }
  }

  lemma StepJoins(k: Books, e: Event, m: Bitmask)
    requires AllFine(k)
    ensures Stepped(k, e, m)
  {
    assert Fine(k, m);
    match e
    case Register(_) =>
    case Subscribe(_, _) => SubscribeStep(k, e, m);
    case Relay(_) => RelayJoins(k, e, m);
    case _ => if Deactivates(k, e) { LeavingJoined(k, e, m); }
  }

  lemma StillActive(k: Books, e: Event, m: Bitmask)
    requires (e.Unsubscribe? || e.Unrelay?) && !Deactivates(k, e)
    ensures AllActive(k, m) ==> AllActive(Counted(k, e), m)
  {
    if AllActive(k, m) {
      forall s | s in Slices(m) ensures Active(Counted(k, e), s) { assert Active(k, s); }
    }
  }

  lemma AfterIsFine(k: Books, e: Event)
    requires AllFine(k)
    ensures AllFine(After(k, e))
  {
    forall m ensures Fine(After(k, e), m) { StepKeeps(k, e, m); }
  }

  ghost function RunOf(events: seq<Event>): Books {
    if events == [] then Books(map[], map[], map[], {}) else After(RunOf(events[..|events| - 1]), events[|events| - 1])
  }

  /** In every run every mask is listed evenly, and every composite is listed and has all its slices active. */
  lemma {:induction false} RunIsFine(events: seq<Event>)
    ensures AllFine(RunOf(events))
  {
    if events == [] {
      forall m ensures Fine(RunOf([]), m) { }
    } else {
      var init, e := events[..|events| - 1], events[|events| - 1];
      RunIsFine(init);
      AfterIsFine(RunOf(init), e);
    }
  }

  ghost predicate JoinsAt(events: seq<Event>, t: int, m: Bitmask) {
    0 <= t < |events| && Joins(RunOf(events[..t]), events[t], m)
  }

  ghost predicate LeavesAt(events: seq<Event>, u: int, m: Bitmask) {
    0 <= u < |events| && Leaves(RunOf(events[..u]), events[u], m)
  }

  ghost predicate JoinedSince(events: seq<Event>, t: int, m: Bitmask) {
    JoinsAt(events, t, m) && forall u :: t < u ==> !LeavesAt(events, u, m)
  }

  /** In every run a composite is there if and only if some slice's first relay completed it, all its other slices being
      active and the mask listed by then, and none of its slices was left since. */
  lemma {:induction false} JoinedIff(events: seq<Event>, m: Bitmask)
    ensures m in RunOf(events).joined <==> exists t :: JoinedSince(events, t, m)
  {
    if events != [] {
      var init, e := events[..|events| - 1], events[|events| - 1];
      assert events == init + [e];
      JoinedIff(init, m);
      JoinedNext(init, e, m);
      RunSteps(init, e, m);
    }
  }

  lemma RunNext(init: seq<Event>, e: Event)
    ensures RunOf(init + [e]) == After(RunOf(init), e)
  {
    var events := init + [e];
    assert events[..|events| - 1] == init && events[|events| - 1] == e;
  }

  lemma RunSteps(init: seq<Event>, e: Event, m: Bitmask)
    ensures m in RunOf(init + [e]).joined <==>
            Joins(RunOf(init), e, m) || (m in RunOf(init).joined && !Leaves(RunOf(init), e, m))
  {
    RunNext(init, e);
    RunIsFine(init);
    StepJoins(RunOf(init), e, m);
  }

  lemma EarlierSame(init: seq<Event>, e: Event, t: int, m: Bitmask)
    requires t != |init|
    ensures JoinsAt(init + [e], t, m) <==> JoinsAt(init, t, m)
    ensures LeavesAt(init + [e], t, m) <==> LeavesAt(init, t, m)
  {
    if 0 <= t < |init| { assert (init + [e])[..t] == init[..t]; }
  }

  lemma NowSame(init: seq<Event>, e: Event, m: Bitmask)
    ensures JoinsAt(init + [e], |init|, m) <==> Joins(RunOf(init), e, m)
    ensures LeavesAt(init + [e], |init|, m) <==> Leaves(RunOf(init), e, m)
  {
    assert (init + [e])[..|init|] == init;
  }

  lemma SinceNow(init: seq<Event>, e: Event, m: Bitmask)
    ensures JoinedSince(init + [e], |init|, m) <==> Joins(RunOf(init), e, m)
  {
    NowSame(init, e, m);
  }

  lemma SinceBefore(init: seq<Event>, e: Event, t: int, m: Bitmask)
    requires t != |init|
    ensures JoinedSince(init + [e], t, m) <==> JoinedSince(init, t, m) && !Leaves(RunOf(init), e, m)
  {
    NowSame(init, e, m);
    EarlierSame(init, e, t, m);
    forall u | u != |init| ensures LeavesAt(init + [e], u, m) <==> LeavesAt(init, u, m) { EarlierSame(init, e, u, m); }
    assert !LeavesAt(init, |init|, m);
  }

  lemma JoinedNext(init: seq<Event>, e: Event, m: Bitmask)
    ensures (exists t :: JoinedSince(init + [e], t, m)) <==>
            Joins(RunOf(init), e, m) || ((exists t :: JoinedSince(init, t, m)) && !Leaves(RunOf(init), e, m))
  {
    SinceNow(init, e, m);
    forall t | t != |init|
      ensures JoinedSince(init + [e], t, m) <==> JoinedSince(init, t, m) && !Leaves(RunOf(init), e, m)
    {
      SinceBefore(init, e, t, m);
    }
    assert !JoinedSince(init, |init|, m);
  }

  /** Without relays there is never a composite, whatever is subscribed to. */
  lemma NoCompositeWithoutRelay(events: seq<Event>)
    requires forall i :: 0 <= i < |events| ==> !events[i].Relay?
    ensures RunOf(events).joined == {}
  {
    forall m ensures m !in RunOf(events).joined {
      JoinedIff(events, m);
      assert forall t :: !JoinsAt(events, t, m);
    }
  }

  function Opener(s: Bitmask, relay: bool): Event { if relay then Relay(s) else Subscribe(s, 0) }

  /** A mask is registered and then some slices are relayed, or subscribed to. */
  function Opening(m: Bitmask, slices: seq<Bitmask>, relay: bool): seq<Event> {
    if slices == [] then [Register(m)]
    else Opening(m, slices[..|slices| - 1], relay) + [Opener(slices[|slices| - 1], relay)]
  }

  /** The mask is listed, and exactly these slices are active. */
  ghost predicate Opened(k: Books, m: Bitmask, slices: seq<Bitmask>) {
    Copies(k.listed, m) > 0 && forall s :: Active(k, s) <==> s in slices
  }

  lemma RunOfOne(m: Bitmask)
    requires |Slices(m)| > 1
    ensures Opened(RunOf([Register(m)]), m, [])
  {
    assert [Register(m)][..0] == [];
    SlicesAreDistinct(m);
    IndexedTimes(map[], Slices(m), m, Slices(m)[0], m);
    assert Slices(m)[0] in Slices(m);
  }

  lemma OpenedNext(k: Books, m: Bitmask, slices: seq<Bitmask>, s: Bitmask, relay: bool)
    requires Opened(k, m, slices)
    ensures Opened(After(k, Opener(s, relay)), m, slices + [s])
  {
    var e := Opener(s, relay);
    assert After(k, e).listed == k.listed;
    forall t ensures Active(After(k, e), t) <==> t in slices + [s] {
      assert Active(After(k, e), t) <==> Active(Counted(k, e), t);
      if t != s { OthersKept(k, e, t); }
    }
  }

  lemma OpeningStep(events: seq<Event>, m: Bitmask, slices: seq<Bitmask>, s: Bitmask, relay: bool)
    requires Opened(RunOf(events), m, slices)
    ensures Opened(RunOf(events + [Opener(s, relay)]), m, slices + [s])
  {
    OpenedNext(RunOf(events), m, slices, s, relay);
    RunNext(events, Opener(s, relay));
  }

  lemma {:induction false} OpeningOpens(m: Bitmask, slices: seq<Bitmask>, relay: bool)
    requires |Slices(m)| > 1
    ensures Opened(RunOf(Opening(m, slices, relay)), m, slices)
  {
    if slices == [] {
      RunOfOne(m);
    } else {
      var init, last := slices[..|slices| - 1], slices[|slices| - 1];
      assert slices == init + [last];
      OpeningOpens(m, init, relay);
      OpeningStep(Opening(m, init, relay), m, init, last, relay);
    }
  }

  lemma {:induction false} OpeningWithoutRelay(m: Bitmask, slices: seq<Bitmask>)
    ensures forall e :: e in Opening(m, slices, false) ==> !e.Relay?
  {
    if slices != [] { OpeningWithoutRelay(m, slices[..|slices| - 1]); }
  }

  /** Every multi-bit mask can be registered and have all its slices subscribed to without being joined. */
  lemma SubscribedNotJoined(m: Bitmask)
    requires |Slices(m)| > 1
    ensures var k := RunOf(Opening(m, Slices(m), false));
      Copies(k.listed, m) > 0 && AllActive(k, m) && m !in k.joined
  {
    OpeningOpens(m, Slices(m), false);
    OpeningWithoutRelay(m, Slices(m));
    NoCompositeWithoutRelay(Opening(m, Slices(m), false));
  }

  /** With relays in their place it is joined. */
  lemma RelayedIsJoined(m: Bitmask)
    requires |Slices(m)| > 1
    ensures m in RunOf(Opening(m, Slices(m), true)).joined
  {
    var slices := Slices(m);
    var init, last := slices[..|slices| - 1], slices[|slices| - 1];
    var events, e := Opening(m, init, true), Relay(last);
    SlicesAreDistinct(m);
    OpeningOpens(m, init, true);
    OpeningOpens(m, slices, true);
    RunNext(events, e);
    SameActive(After(RunOf(events), e), Counted(RunOf(events), e), m);
    RunSteps(events, e, m);
  }

  // ---------------------------------------------------------------- the handlers

  /** The masks that the first so many listed make the router join. */
  ghost function ReadyOf(k: Books, masks: seq<Bitmask>): set<Bitmask> {
    set m | m in masks && |Slices(m)| > 1 && AllActive(k, m)
  }

  lemma ReadyNext(k: Books, k': Books, masks: seq<Bitmask>, i: nat)
    requires i < |masks| && k'.subs == k.subs && k'.relays == k.relays
    ensures ReadyOf(k, masks[..i + 1]) == ReadyOf(k, masks[..i]) + ReadyOf(k', [masks[i]])
  {
    assert masks[..i + 1] == masks[..i] + [masks[i]];
    assert forall s :: Active(k', s) <==> Active(k, s);
  }

  /** No composite keeps a slice that is left. */
  lemma NoneLeft(k: Books, e: Event)
    requires AllFine(k) && Deactivates(k, e)
    ensures forall m :: m in After(k, e).joined ==> e.slice !in Slices(m)
  {
    forall m | m in After(k, e).joined ensures e.slice !in Slices(m) {
      assert Fine(k, m);
      LeavingJoined(k, e, m);
    }
  }

  /** A managed slice is one of some composite. */
  lemma ManagedBy(s: State, direct: set<PeerId>, b: Bitmask)
    requires RouterSpec.Inv(s, direct)
    ensures b in s.index ==> exists ck :: ck in s.composites && b in Slices(ck)
  {
    InvMeans(s, direct);
    if b in s.index {
      var ck := s.index[b][0];
      assert ck in s.index[b];
      assert ck in s.composites && b in s.composites[ck].slices;
    }
  }

  lemma JoinedKeys(s: State, s': State, m: Bitmask, direct: set<PeerId>)
    requires JoinCompositeStep(s, s', m, direct)
    ensures s'.composites.Keys == s.composites.Keys + if |Slices(m)| > 1 then {m} else {}
  {
  }

  class PubSub {
    const router: BlossomSubRouter
    var mySubs: map<Bitmask, set<nat>>
    var myRelays: map<Bitmask, nat>
    var compositeSlices: Index

    ghost function View(): Books
      reads this, router
    {
      Books(mySubs, myRelays, compositeSlices, router.composites.Keys)
    }

    ghost predicate Valid()
      reads this, router
    {
      router.Valid() && AllFine(View())
    }

    constructor (router: BlossomSubRouter)
      requires router.Valid() && router.composites == map[]
      ensures Valid() && View() == RunOf([]) && this.router == router
    {
      this.router := router;
      mySubs, myRelays, compositeSlices := map[], map[], map[];
      new;
      RunIsFine([]);
    }

    predicate IsActive(s: Bitmask)
      reads this
    {
      (s in mySubs && mySubs[s] != {}) || (s in myRelays && myRelays[s] > 0)
    }

    /** Whether all slices of a mask are active. */
    method AllReady(m: Bitmask) returns (ready: bool)
      ensures ready <==> AllActive(View(), m)
    {
      var slices := SliceBitmask(m);
      for i := 0 to |slices|
        invariant forall j :: 0 <= j < i ==> Active(View(), slices[j])
      {
        if !IsActive(slices[i]) {
          assert slices[i] in Slices(m);
          return false;
        }
      }
      return true;
    }

    /** One turn of the loop of tryJoinComposite. */
    method JoinOne(m: Bitmask, env: Env)
      requires router.Valid()
      modifies router
      ensures router.Valid() && router.composites.Keys == old(router.composites.Keys) + ReadyOf(old(View()), [m])
    {
      var ready := AllReady(m);
      ghost var s := router.View();
      if ready {
        router.JoinComposite(m, env);
        JoinedKeys(s, router.View(), m, router.direct);
      }
    }

    /** tryJoinComposite: joins every mask listed under the slice that has all its slices active. */
    method TryJoinComposite(slice: Bitmask, env: Env)
      requires router.Valid()
      modifies router
      ensures router.Valid() && router.composites.Keys == old(router.composites.Keys) + Ready(old(View()), slice)
    {
      if slice !in compositeSlices {
        return;
      }
      var masks := compositeSlices[slice];
      ghost var k := View();
      for i := 0 to |masks|
        invariant router.Valid() && router.composites.Keys == k.joined + ReadyOf(k, masks[..i])
      {
        ReadyNext(k, View(), masks, i);
        JoinOne(masks[i], env);
      }
      assert masks[..|masks|] == masks;
    }

    /** The beginning of a slice: the router joins it, and the composites that are complete. */
    method Start(slice: Bitmask, env: Env)
      requires router.Valid()
      modifies router
      ensures router.Valid() && router.composites.Keys == old(router.composites.Keys) + Ready(old(View()), slice)
    {
      router.Join(slice, env);
      assert View() == old(View());
      TryJoinComposite(slice, env);
    }

    /** removeCompositeSliceEntry, for each slice of the mask. */
    method RemoveEntries(m: Bitmask, slices: seq<Bitmask>)
      modifies this`compositeSlices
      ensures compositeSlices == Unindexed(old(compositeSlices), slices, m)
    {
      for i := 0 to |slices|
        invariant compositeSlices == Unindexed(old(compositeSlices), slices[..i], m)
      {
        assert slices[..i + 1][..i] == slices[..i];
        var s := slices[i];
        var entries := RemoveFirst(if s in compositeSlices then compositeSlices[s] else [], m);
        compositeSlices := if entries == [] then compositeSlices - {s} else compositeSlices[s := entries];
      }
      assert slices[..|slices|] == slices;
    }

    /** Whether no slice of the mask but this one is active. */
    method AllLeaving(slice: Bitmask, slices: seq<Bitmask>) returns (leaving: bool)
      ensures leaving <==> forall t :: t in slices && t != slice ==> !Active(View(), t)
    {
      for i := 0 to |slices|
        invariant forall j :: 0 <= j < i && slices[j] != slice ==> !Active(View(), slices[j])
      {
        if slices[i] != slice && IsActive(slices[i]) {
          assert slices[i] in slices;
          return false;
        }
      }
      return true;
    }

    /** One turn of the loop of tryLeaveComposite. */
    method LeaveOne(slice: Bitmask, m: Bitmask, env: Env)
      requires router.Valid()
      modifies router, this`compositeSlices
      ensures router.Valid() && View() == LeaveMask(old(View()), slice, m)
    {
      router.LeaveComposite(m, env);
      var slices := SliceBitmask(m);
      var leaving := AllLeaving(slice, slices);
      assert leaving <==> Idle(old(View()), slice, m);
      if leaving {
        RemoveEntries(m, slices);
      }
    }

    /** tryLeaveComposite: leaves every mask listed under the slice, and strikes those off that nothing keeps. */
    method TryLeaveComposite(slice: Bitmask, env: Env)
      requires router.Valid()
      modifies router, this`compositeSlices
      ensures router.Valid() && View() == LeaveAll(old(View()), slice, Under(old(compositeSlices), slice))
    {
      if slice !in compositeSlices {
        return;
      }
      var masks := compositeSlices[slice];
      for i := 0 to |masks|
        invariant router.Valid() && View() == LeaveAll(old(View()), slice, masks[..i])
      {
        assert masks[..i + 1][..i] == masks[..i];
        LeaveOne(slice, masks[i], env);
      }
      assert masks[..|masks|] == masks;
    }

    /** The end of a slice: the composites with it are left first, so that the router may leave the slice itself. */
    method Stop(slice: Bitmask, env: Env, ghost k: Books, ghost e: Event)
      requires router.Valid() && AllFine(k) && Deactivates(k, e) && e.slice == slice && View() == Counted(k, e)
      modifies router, this`compositeSlices
      ensures router.Valid() && View() == After(k, e)
    {
      AfterLeaving(k, e);
      TryLeaveComposite(slice, env);
      NoneLeft(k, e);
      ManagedBy(router.View(), router.direct, slice);
      router.Leave(slice, env.now);
    }

    /** The part of tryJoin that lists a multi-bit mask under its slices. */
    method RegisterMask(m: Bitmask)
      requires Valid()
      modifies this`compositeSlices
      ensures Valid() && View() == After(old(View()), Register(m))
    {
      var slices := SliceBitmask(m);
      if |slices| > 1 {
        AddEntries(m, slices);
      }
      AfterIsFine(old(View()), Register(m));
    }

    method AddEntries(m: Bitmask, slices: seq<Bitmask>)
      modifies this`compositeSlices
      ensures compositeSlices == Indexed(old(compositeSlices), slices, m)
    {
      for i := 0 to |slices|
        invariant compositeSlices == Indexed(old(compositeSlices), slices[..i], m)
      {
        assert slices[..i + 1][..i] == slices[..i];
        var s := slices[i];
        compositeSlices := compositeSlices[s := (if s in compositeSlices then compositeSlices[s] else []) + [m]];
      }
      assert slices[..|slices|] == slices;
    }

    method HandleAddSubscription(slice: Bitmask, sub: nat, env: Env)
      requires Valid()
      modifies this, router
      ensures Valid() && View() == After(old(View()), Subscribe(slice, sub))
    {
      AfterIsFine(View(), Subscribe(slice, sub));
      if !IsActive(slice) {
        Start(slice, env);
      }
      mySubs := mySubs[slice := (if slice in mySubs then mySubs[slice] else {}) + {sub}];
    }

    method AddRelay(slice: Bitmask)
      modifies this`myRelays
      ensures View() == Counted(old(View()), Relay(slice))
    {
      myRelays := myRelays[slice := (if slice in myRelays then myRelays[slice] else 0) + 1];
    }

    method HandleAddRelay(slice: Bitmask, env: Env)
      requires Valid()
      modifies this, router
      ensures Valid() && View() == After(old(View()), Relay(slice))
    {
      AfterIsFine(View(), Relay(slice));
      AfterRelay(View(), Relay(slice));
      var first := !IsActive(slice);
      AddRelay(slice);
      if first {
        Start(slice, env);
      }
    }

    method HandleRemoveSubscription(slice: Bitmask, sub: nat, env: Env)
      requires Valid()
      modifies this, router
      ensures Valid() && View() == After(old(View()), Unsubscribe(slice, sub))
    {
      AfterIsFine(View(), Unsubscribe(slice, sub));
      if slice !in mySubs {
        return;
      }
      var rest := mySubs[slice] - {sub};
      if rest != {} {
        mySubs := mySubs[slice := rest];
        return;
      }
      mySubs := mySubs - {slice};
      if slice !in myRelays || myRelays[slice] == 0 {
        Stop(slice, env, old(View()), Unsubscribe(slice, sub));
      }
    }

    method HandleRemoveRelay(slice: Bitmask, env: Env)
      requires Valid()
      modifies this, router
      ensures Valid() && View() == After(old(View()), Unrelay(slice))
    {
      AfterIsFine(View(), Unrelay(slice));
      if slice !in myRelays || myRelays[slice] == 0 {
        return;
      }
      var count := myRelays[slice] - 1;
      if count > 0 {
        myRelays := myRelays[slice := count];
        return;
      }
      myRelays := myRelays - {slice};
      if slice !in mySubs || mySubs[slice] == {} {
        Stop(slice, env, old(View()), Unrelay(slice));
      }
    }
  }
}
