/** The message cache: a window of history slots that a heartbeat shifts by one, with the slots' buffers recycled. */
module MessageCache {
  import opened Basics
  import opened Bitmasks
  import opened Peers

  datatype Message = Message(id: MessageId, mask: Bitmask, data: nat)
  datatype Entry = Entry(id: MessageId, mask: Bitmask)

  type Transmissions = map<MessageId, map<PeerId, nat>>

  /** The slots, newest first, the messages, and how often each was sent to whom. */
  datatype State = State(slots: seq<seq<Entry>>, msgs: map<MessageId, Message>, sent: Transmissions)

  // ---------------------------------------------------------------- what the operations do

  function EntriesFor(id: MessageId, slices: seq<Bitmask>): seq<Entry> {
    seq(|slices|, i requires 0 <= i < |slices| => Entry(id, slices[i]))
  }

  /** Put: remembers the message and lists it in the newest slot under each of its slices. */
  ghost function PutMessage(s: State, m: Message): State
    requires s.slots != []
  {
    s.(slots := s.slots[0 := s.slots[0] + EntriesFor(m.id, Slices(m.mask))], msgs := s.msgs[m.id := m])
  }

  function IdsIn(slot: seq<Entry>): set<MessageId> { set e | e in slot :: e.id }

  /** Shift: the oldest slot's messages are forgotten and an empty slot comes in front. */
  function Shifted(s: State): State
    requires s.slots != []
  {
    var gone := IdsIn(s.slots[|s.slots| - 1]);
    State([[]] + s.slots[..|s.slots| - 1], s.msgs - gone, s.sent - gone)
  }

  function Count(s: State, id: MessageId, p: PeerId): nat {
    if id in s.sent && p in s.sent[id] then s.sent[id][p] else 0
  }

  /** GetForPeer: hands out a message and counts it. */
  function Fetched(s: State, id: MessageId, p: PeerId): State {
    if id !in s.msgs then s
    else s.(sent := s.sent[id := (if id in s.sent then s.sent[id] else map[])[p := Count(s, id, p) + 1]])
  }

  /** The ids listed under `mask` in a slot. */
  function Listed(slot: seq<Entry>, mask: Bitmask): seq<MessageId> {
    if slot == [] then []
    else
      var e := slot[|slot| - 1];
      Listed(slot[..|slot| - 1], mask) + if e.mask == mask then [e.id] else []
  }

  /** GetGossipIDs: the ids listed under `mask` in the newest slots. */
  function Gossip(slots: seq<seq<Entry>>, mask: Bitmask): seq<MessageId> {
    if slots == [] then [] else Gossip(slots[..|slots| - 1], mask) + Listed(slots[|slots| - 1], mask)
  }

  // ---------------------------------------------------------------- ages

  /** The slices an id is listed under in a slot. */
  function MasksOf(slot: seq<Entry>, id: MessageId): seq<Bitmask> {
    if slot == [] then []
    else
      var e := slot[|slot| - 1];
      MasksOf(slot[..|slot| - 1], id) + if e.id == id then [e.mask] else []
  }

  /** The message is `age` shifts old: held, and listed under its slices in just that slot; or, once older than
      the history, gone without a trace. */
  ghost predicate Aged(s: State, m: Message, age: nat) {
    && (age < |s.slots| ==> m.id in s.msgs && s.msgs[m.id] == m)
    && (age >= |s.slots| ==> m.id !in s.msgs)
    && forall i :: 0 <= i < |s.slots| ==> MasksOf(s.slots[i], m.id) == if i == age then Slices(m.mask) else []
  }

  ghost predicate NotListed(s: State, id: MessageId) {
    forall i :: 0 <= i < |s.slots| ==> MasksOf(s.slots[i], id) == []
  }

  /** An id is listed in one slot at most, and only if its message is held. */
  ghost predicate Tidy(s: State, id: MessageId) {
    && (id !in s.msgs ==> NotListed(s, id))
    && forall i, j :: 0 <= i < j < |s.slots| ==> MasksOf(s.slots[i], id) == [] || MasksOf(s.slots[j], id) == []
  }

  ghost predicate Inv(s: State) {
    s.slots != [] && forall id :: Tidy(s, id)
  }

  lemma {:induction false} MasksAppend(a: seq<Entry>, b: seq<Entry>, id: MessageId)
    ensures MasksOf(a + b, id) == MasksOf(a, id) + MasksOf(b, id)
  {
    if b == [] {
      assert a + b == a;
    } else {
      assert (a + b)[..|a + b| - 1] == a + b[..|b| - 1];
      MasksAppend(a, b[..|b| - 1], id);
    }
  }

  lemma {:induction false} MasksOfEntries(id: MessageId, slices: seq<Bitmask>, other: MessageId)
    ensures MasksOf(EntriesFor(id, slices), other) == if other == id then slices else []
  {
    if slices != [] {
      var init := slices[..|slices| - 1];
      MasksOfEntries(id, init, other);
      assert EntriesFor(id, slices)[..|slices| - 1] == EntriesFor(id, init);
      assert slices == init + [slices[|slices| - 1]];
    }
  }

  lemma {:induction false} MasksAndIds(slot: seq<Entry>, id: MessageId)
    ensures MasksOf(slot, id) != [] <==> id in IdsIn(slot)
  {
    if slot != [] {
      var init, e := slot[..|slot| - 1], slot[|slot| - 1];
      MasksAndIds(init, id);
      assert slot == init + [e];
      assert IdsIn(slot) == IdsIn(init) + {e.id};
    }
  }

  /** Putting a message adds its slices to the newest slot, for its own id only. */
  lemma PutMasks(s: State, m: Message, id: MessageId, i: nat)
    requires s.slots != [] && i < |s.slots|
    ensures MasksOf(PutMessage(s, m).slots[i], id) ==
      MasksOf(s.slots[i], id) + if i == 0 && id == m.id then Slices(m.mask) else []
  {
    if i == 0 {
      MasksAppend(s.slots[0], EntriesFor(m.id, Slices(m.mask)), id);
      MasksOfEntries(m.id, Slices(m.mask), id);
    }
  }

  /** A message put while it is not held starts at age 0. */
  lemma PutStarts(s: State, m: Message)
    requires Inv(s) && m.id !in s.msgs
    ensures Aged(PutMessage(s, m), m, 0)
  {
    assert Tidy(s, m.id);
    forall i | 0 <= i < |s.slots|
      ensures MasksOf(PutMessage(s, m).slots[i], m.id) == if i == 0 then Slices(m.mask) else []
    {
      PutMasks(s, m, m.id, i);
    }
  }

  /** Putting another message does not change an age. */
  lemma PutKeepsAge(s: State, m: Message, other: Message, age: nat)
    requires s.slots != [] && Aged(s, m, age) && other.id != m.id
    ensures Aged(PutMessage(s, other), m, age)
  {
    forall i | 0 <= i < |s.slots|
      ensures MasksOf(PutMessage(s, other).slots[i], m.id) == if i == age then Slices(m.mask) else []
    {
      PutMasks(s, other, m.id, i);
    }
  }

  lemma ShiftMasks(s: State, id: MessageId, i: nat)
    requires s.slots != [] && i < |s.slots|
    ensures MasksOf(Shifted(s).slots[i], id) == if i == 0 then [] else MasksOf(s.slots[i - 1], id)
  {
  }

  /** A shift makes every message one older; the ones that fall out of the history are gone. */
  lemma ShiftAges(s: State, m: Message, age: nat)
    requires s.slots != [] && Aged(s, m, age)
    ensures Aged(Shifted(s), m, age + 1)
  {
    var s', h := Shifted(s), |s.slots|;
    MasksAndIds(s.slots[h - 1], m.id);
    SlicesDistinct(m.mask);
    assert MasksOf(s.slots[h - 1], m.id) == if h - 1 == age then Slices(m.mask) else [];
    forall i | 0 <= i < h ensures MasksOf(s'.slots[i], m.id) == if i == age + 1 then Slices(m.mask) else [] {
      ShiftMasks(s, m.id, i);
    }
  }

  lemma PutKeepsInv(s: State, m: Message)
    requires Inv(s) && m.id !in s.msgs
    ensures Inv(PutMessage(s, m))
  {
    var s' := PutMessage(s, m);
    forall id ensures Tidy(s', id) {
      assert Tidy(s, id) && Tidy(s, m.id);
      forall i | 0 <= i < |s.slots|
        ensures MasksOf(s'.slots[i], id) ==
          MasksOf(s.slots[i], id) + if i == 0 && id == m.id then Slices(m.mask) else []
      {
        PutMasks(s, m, id, i);
      }
    }
  }

  lemma ShiftKeepsInv(s: State)
    requires Inv(s)
    ensures Inv(Shifted(s))
  {
    var s', h := Shifted(s), |s.slots|;
    forall id ensures Tidy(s', id) {
      assert Tidy(s, id);
      MasksAndIds(s.slots[h - 1], id);
      forall i | 0 <= i < h
        ensures MasksOf(s'.slots[i], id) == if i == 0 then [] else MasksOf(s.slots[i - 1], id)
      {
        ShiftMasks(s, id, i);
      }
    }
  }

  // ---------------------------------------------------------------- runs

  datatype Op = PutOp(m: Message) | ShiftOp | FetchOp(id: MessageId, p: PeerId)

  ghost function Apply(s: State, op: Op): State
    requires s.slots != []
  {
    match op
    case PutOp(m) => PutMessage(s, m)
    case ShiftOp => Shifted(s)
    case FetchOp(id, p) => Fetched(s, id, p)
  }

  ghost function Exec(s: State, ops: seq<Op>): (s': State)
    requires s.slots != []
    ensures |s'.slots| == |s.slots|
  {
    if ops == [] then s else Apply(Exec(s, ops[..|ops| - 1]), ops[|ops| - 1])
  }

  function Shifts(ops: seq<Op>): nat {
    if ops == [] then 0 else Shifts(ops[..|ops| - 1]) + if ops[|ops| - 1].ShiftOp? then 1 else 0
  }

  /** The message is not put by these operations. */
  ghost predicate NotPut(ops: seq<Op>, id: MessageId) {
    forall i :: 0 <= i < |ops| && ops[i].PutOp? ==> ops[i].m.id != id
  }

  /** The cache as an age map: if a message is not put again, it ages by one with every shift and by nothing else. */
  lemma {:induction false} AgesWithShifts(s: State, ops: seq<Op>, m: Message, age: nat)
    requires s.slots != [] && Aged(s, m, age) && NotPut(ops, m.id)
    ensures Aged(Exec(s, ops), m, age + Shifts(ops))
  {
    if ops != [] {
      var init, op := ops[..|ops| - 1], ops[|ops| - 1];
      AgesWithShifts(s, init, m, age);
      var s1, a := Exec(s, init), age + Shifts(init);
      match op
      case PutOp(other) => PutKeepsAge(s1, m, other, a);
      case ShiftOp => ShiftAges(s1, m, a);
      case FetchOp(id, p) =>
    }
  }

  /** No message is put while it is held. */
  ghost predicate Disciplined(s: State, ops: seq<Op>)
    requires s.slots != []
  {
    forall i :: 0 <= i < |ops| && ops[i].PutOp? ==> ops[i].m.id !in Exec(s, ops[..i]).msgs
  }

  /** As long as no message is put while it is held, every listed id is held, and listed in one slot only. */
  lemma {:induction false} DisciplineKeepsInv(s: State, ops: seq<Op>)
    requires Inv(s) && Disciplined(s, ops)
    ensures Inv(Exec(s, ops))
  {
    if ops != [] {
      var init, op := ops[..|ops| - 1], ops[|ops| - 1];
      assert forall i :: 0 <= i < |init| ==> init[..i] == ops[..i];
      DisciplineKeepsInv(s, init);
      var s1 := Exec(s, init);
      match op
      case PutOp(m) => PutKeepsInv(s1, m);
      case ShiftOp => ShiftKeepsInv(s1);
      case FetchOp(id, p) => FetchKeepsInv(s1, id, p);
    }
  }

  lemma FetchKeepsInv(s: State, id: MessageId, p: PeerId)
    requires Inv(s)
    ensures Inv(Fetched(s, id, p))
  {
    forall other ensures Tidy(Fetched(s, id, p), other) { assert Tidy(s, other); }
  }

  lemma {:induction false} ListedIff(slot: seq<Entry>, mask: Bitmask, id: MessageId)
    ensures id in Listed(slot, mask) <==> mask in MasksOf(slot, id)
  {
    if slot != [] { ListedIff(slot[..|slot| - 1], mask, id); }
  }

  ghost predicate ListedAt(slots: seq<seq<Entry>>, i: int, mask: Bitmask, id: MessageId) {
    0 <= i < |slots| && mask in MasksOf(slots[i], id)
  }

  lemma {:induction false} GossipIff(slots: seq<seq<Entry>>, mask: Bitmask, id: MessageId)
    ensures id in Gossip(slots, mask) <==> exists i :: ListedAt(slots, i, mask, id)
  {
    if slots != [] {
      var init, last := slots[..|slots| - 1], slots[|slots| - 1];
      GossipIff(init, mask, id);
      ListedIff(last, mask, id);
      if i :| ListedAt(slots, i, mask, id) && i < |init| { assert ListedAt(init, i, mask, id); }
      if i :| ListedAt(init, i, mask, id) { assert ListedAt(slots, i, mask, id); }
      if mask in MasksOf(last, id) { assert ListedAt(slots, |init|, mask, id); }
    }
  }

  /** A message put while it is not held, and not put again: after any operations with `k` shifts among them it
      can be retrieved exactly if k < history, and is advertised under a mask exactly if k < gossip and the mask
      is one of its slices. */
  lemma RetrievableAndAdvertised(s: State, m: Message, ops: seq<Op>, gossip: nat, mask: Bitmask)
    requires Inv(s) && m.id !in s.msgs && gossip <= |s.slots|
    requires NotPut(ops, m.id)
    ensures var s', k := Exec(PutMessage(s, m), ops), Shifts(ops);
      && (m.id in s'.msgs <==> k < |s.slots|) && (k < |s.slots| ==> s'.msgs[m.id] == m)
      && (m.id in Gossip(s'.slots[..gossip], mask) <==> k < gossip && mask in Slices(m.mask))
  {
    PutStarts(s, m);
    AgesWithShifts(PutMessage(s, m), ops, m, 0);
    var s', k := Exec(PutMessage(s, m), ops), Shifts(ops);
    GossipIff(s'.slots[..gossip], mask, m.id);
    AdvertisedIff(s', m, k, gossip, mask);
  }

  lemma AdvertisedIff(s: State, m: Message, age: nat, gossip: nat, mask: Bitmask)
    requires Aged(s, m, age) && gossip <= |s.slots|
    ensures (exists i :: ListedAt(s.slots[..gossip], i, mask, m.id)) <==> age < gossip && mask in Slices(m.mask)
  {
    var slots := s.slots[..gossip];
    forall i | 0 <= i < gossip ensures MasksOf(slots[i], m.id) == if i == age then Slices(m.mask) else [] { }
    if age < gossip && mask in Slices(m.mask) { assert ListedAt(s.slots[..gossip], age, mask, m.id); }
  }

  /** Whatever is advertised now, was put once, and is not put again, can still be retrieved after history - gossip
      more shifts. */
  lemma AdvertisedStaysRetrievable(s: State, m: Message, age: nat, ops: seq<Op>, gossip: nat, mask: Bitmask)
    requires s.slots != [] && Aged(s, m, age) && gossip <= |s.slots| && m.id in Gossip(s.slots[..gossip], mask)
    requires NotPut(ops, m.id) && Shifts(ops) <= |s.slots| - gossip
    ensures m.id in Exec(s, ops).msgs && Exec(s, ops).msgs[m.id] == m
  {
    GossipIff(s.slots[..gossip], mask, m.id);
    AdvertisedIff(s, m, age, gossip, mask);
    AgesWithShifts(s, ops, m, age);
  }

  // ---------------------------------------------------------------- putting a message again

  /** The message has two listings, `young` and `aged` shifts old. It is held while the older one lasts. */
  ghost predicate Twice(s: State, m: Message, young: nat, aged: nat) {
    && (m.id in s.msgs <==> aged < |s.slots|) && (m.id in s.msgs ==> s.msgs[m.id] == m)
    && forall i :: 0 <= i < |s.slots| ==> MasksOf(s.slots[i], m.id) == TwoListings(m, young, aged, i)
  }

  ghost function TwoListings(m: Message, young: nat, aged: nat, i: int): seq<Bitmask> {
    (if i == aged then Slices(m.mask) else []) + if i == young then Slices(m.mask) else []
  }

  lemma PutAgainLists(s: State, m: Message, age: nat)
    requires Aged(s, m, age) && age < |s.slots|
    ensures Twice(PutMessage(s, m), m, 0, age)
  {
    forall i | 0 <= i < |s.slots| ensures MasksOf(PutMessage(s, m).slots[i], m.id) == TwoListings(m, 0, age, i) {
      PutMasks(s, m, m.id, i);
    }
  }

  lemma TwiceShift(s: State, m: Message, young: nat, aged: nat)
    requires s.slots != [] && Twice(s, m, young, aged) && young <= aged
    ensures Twice(Shifted(s), m, young + 1, aged + 1)
  {
    var s', h := Shifted(s), |s.slots|;
    MasksAndIds(s.slots[h - 1], m.id);
    SlicesDistinct(m.mask);
    assert MasksOf(s.slots[h - 1], m.id) == TwoListings(m, young, aged, h - 1);
    forall i | 0 <= i < h ensures MasksOf(s'.slots[i], m.id) == TwoListings(m, young + 1, aged + 1, i) {
      ShiftMasks(s, m.id, i);
    }
  }

  lemma TwicePut(s: State, m: Message, other: Message, young: nat, aged: nat)
    requires s.slots != [] && Twice(s, m, young, aged) && other.id != m.id
    ensures Twice(PutMessage(s, other), m, young, aged)
  {
    forall i | 0 <= i < |s.slots|
      ensures MasksOf(PutMessage(s, other).slots[i], m.id) == TwoListings(m, young, aged, i)
    {
      PutMasks(s, other, m.id, i);
    }
  }

  lemma {:induction false} TwiceAges(s: State, ops: seq<Op>, m: Message, young: nat, aged: nat)
    requires s.slots != [] && Twice(s, m, young, aged) && young <= aged && NotPut(ops, m.id)
    ensures Twice(Exec(s, ops), m, young + Shifts(ops), aged + Shifts(ops))
  {
    if ops != [] {
      var init, op := ops[..|ops| - 1], ops[|ops| - 1];
      TwiceAges(s, init, m, young, aged);
      TwiceStep(Exec(s, init), op, m, young + Shifts(init), aged + Shifts(init));
    }
  }

  lemma TwiceStep(s: State, op: Op, m: Message, young: nat, aged: nat)
    requires s.slots != [] && Twice(s, m, young, aged) && young <= aged && (op.PutOp? ==> op.m.id != m.id)
    ensures var k := if op.ShiftOp? then 1 else 0;
      Twice(Apply(s, op), m, young + k, aged + k)
  {
    match op
    case PutOp(other) => TwicePut(s, m, other, young, aged);
    case ShiftOp => TwiceShift(s, m, young, aged);
    case FetchOp(id, p) =>
  }

  /** A message put again when it is `age` shifts old lasts exactly as long as it would have without that: after
      `k` more shifts it is held if and only if k < history - age. It is advertised as if it were new, though, so
      for history - age <= k < gossip it is advertised and cannot be retrieved. */
  lemma PutAgain(s: State, m: Message, age: nat, ops: seq<Op>, gossip: nat, mask: Bitmask)
    requires s.slots != [] && Aged(s, m, age) && age < |s.slots| && NotPut(ops, m.id) && gossip <= |s.slots|
    ensures var s', k := Exec(PutMessage(s, m), ops), Shifts(ops);
      && (m.id in s'.msgs <==> k < |s.slots| - age)
      && (m.id in s'.msgs ==> s'.msgs[m.id] == m)
      && (m.id in Gossip(s'.slots[..gossip], mask) <==> k < gossip && mask in Slices(m.mask))
  {
    PutAgainLists(s, m, age);
    TwiceAges(PutMessage(s, m), ops, m, 0, age);
    TwiceAdvertisedIff(Exec(PutMessage(s, m), ops), m, Shifts(ops), age + Shifts(ops), gossip, mask);
  }

  lemma TwiceAdvertisedIff(s: State, m: Message, young: nat, aged: nat, gossip: nat, mask: Bitmask)
    requires Twice(s, m, young, aged) && young <= aged && gossip <= |s.slots|
    ensures m.id in Gossip(s.slots[..gossip], mask) <==> young < gossip && mask in Slices(m.mask)
  {
    var slots := s.slots[..gossip];
    GossipIff(slots, mask, m.id);
    forall i | 0 <= i < gossip ensures MasksOf(slots[i], m.id) == TwoListings(m, young, aged, i) { }
    if young < gossip && mask in Slices(m.mask) { assert ListedAt(slots, young, mask, m.id); }
  }

  /** So the second put gives the message a whole history's worth of shifts exactly if it comes before any shift. */
  lemma PutAgainLastsIff(s: State, m: Message, age: nat)
    requires s.slots != [] && Aged(s, m, age) && age < |s.slots|
    ensures (forall ops :: NotPut(ops, m.id) && Shifts(ops) < |s.slots| ==> m.id in Exec(PutMessage(s, m), ops).msgs)
            <==> age == 0
  {
    forall ops | NotPut(ops, m.id)
      ensures m.id in Exec(PutMessage(s, m), ops).msgs <==> Shifts(ops) < |s.slots| - age
    {
      PutAgain(s, m, age, ops, 0, m.mask);
    }
    var ops := seq(|s.slots| - age, _ => ShiftOp);
    AllShifts(ops);
    assert NotPut(ops, m.id);
  }

  lemma {:induction false} AllShifts(ops: seq<Op>)
    requires forall i :: 0 <= i < |ops| ==> ops[i] == ShiftOp
    ensures Shifts(ops) == |ops|
  {
    if ops != [] { AllShifts(ops[..|ops| - 1]); }
  }

  // ---------------------------------------------------------------- any number of puts

  ghost predicate PutAt(ops: seq<Op>, i: int, id: MessageId) {
    0 <= i < |ops| && ops[i].PutOp? && ops[i].m.id == id
  }

  /** How many shifts ago operation `i` was. */
  function Age(ops: seq<Op>, i: nat): nat
    requires i <= |ops|
  {
    Shifts(ops[i..])
  }

  lemma {:induction false} ShiftsJoin(a: seq<Op>, b: seq<Op>)
    ensures Shifts(a + b) == Shifts(a) + Shifts(b)
  {
    if b == [] {
      assert a + b == a;
    } else {
      assert (a + b)[..|a + b| - 1] == a + b[..|b| - 1];
      ShiftsJoin(a, b[..|b| - 1]);
    }
  }

  lemma AgeStep(init: seq<Op>, op: Op, i: nat)
    requires i <= |init|
    ensures Age(init + [op], i) == Age(init, i) + if op.ShiftOp? then 1 else 0
  {
    assert (init + [op])[i..] == init[i..] + [op];
    assert [op][..0] == [];
    ShiftsJoin(init[i..], [op]);
  }

  ghost predicate ListedBy(ops: seq<Op>, i: int, age: int, id: MessageId, mask: Bitmask) {
    PutAt(ops, i, id) && Age(ops, i) == age && mask in Slices(ops[i].m.mask)
  }

  /** The message was put that many shifts ago, with that slice. */
  ghost predicate PutUnder(ops: seq<Op>, age: int, id: MessageId, mask: Bitmask) {
    exists i :: ListedBy(ops, i, age, id, mask)
  }

  /** A slot lists what was put as many shifts ago as the slot is old, under the slices it was put with. */
  lemma {:induction false} ListedByPuts(s: State, ops: seq<Op>, j: nat, id: MessageId, mask: Bitmask)
    requires j < |s.slots| && NotListed(s, id)
    ensures mask in MasksOf(Exec(s, ops).slots[j], id) <==> PutUnder(ops, j, id, mask)
  {
    if ops == [] {
      assert MasksOf(s.slots[j], id) == [];
    } else {
      var init, op := ops[..|ops| - 1], ops[|ops| - 1];
      assert ops == init + [op];
      ListedByPuts(s, init, j, id, mask);
      if j > 0 { ListedByPuts(s, init, j - 1, id, mask); }
      ListedStep(Exec(s, init), init, op, j, id, mask);
    }
  }

  lemma ListedStep(s: State, init: seq<Op>, op: Op, j: nat, id: MessageId, mask: Bitmask)
    requires j < |s.slots| && (mask in MasksOf(s.slots[j], id) <==> PutUnder(init, j, id, mask))
    requires j > 0 ==> (mask in MasksOf(s.slots[j - 1], id) <==> PutUnder(init, j - 1, id, mask))
    ensures mask in MasksOf(Apply(s, op).slots[j], id) <==> PutUnder(init + [op], j, id, mask)
  {
    ListingStep(init, op, j, id, mask);
    SlotStep(s, op, j, id, mask);
  }

  ghost predicate NewlyListed(op: Op, j: int, id: MessageId, mask: Bitmask) {
    op.PutOp? && op.m.id == id && j == 0 && mask in Slices(op.m.mask)
  }

  lemma SlotStep(s: State, op: Op, j: nat, id: MessageId, mask: Bitmask)
    requires j < |s.slots|
    ensures mask in MasksOf(Apply(s, op).slots[j], id) <==>
            if op.ShiftOp? then j > 0 && mask in MasksOf(s.slots[j - 1], id)
            else NewlyListed(op, j, id, mask) || mask in MasksOf(s.slots[j], id)
  {
    match op
    case PutOp(m) => PutMasks(s, m, id, j);
    case ShiftOp => ShiftMasks(s, id, j);
    case FetchOp(_, _) =>
  }

  lemma ListingStep(init: seq<Op>, op: Op, j: nat, id: MessageId, mask: Bitmask)
    ensures PutUnder(init + [op], j, id, mask) <==>
            NewlyListed(op, j, id, mask) || PutUnder(init, if op.ShiftOp? then j - 1 else j, id, mask)
  {
    var ops, before := init + [op], if op.ShiftOp? then j - 1 else j;
    AgeStep(init, op, |init|);
    if i :| ListedBy(ops, i, j, id, mask) && i < |init| {
      AgeStep(init, op, i);
      assert ListedBy(init, i, before, id, mask);
    }
    if i :| ListedBy(init, i, before, id, mask) {
      AgeStep(init, op, i);
      assert ListedBy(ops, i, j, id, mask);
    }
    if NewlyListed(op, j, id, mask) { assert ListedBy(ops, |init|, j, id, mask); }
  }

  ghost predicate PutAged(ops: seq<Op>, i: int, age: int, id: MessageId) {
    PutAt(ops, i, id) && Age(ops, i) == age
  }

  ghost predicate WasPut(ops: seq<Op>, age: int, id: MessageId) {
    exists i :: PutAged(ops, i, age, id)
  }

  lemma InSlotIff(s: State, ops: seq<Op>, j: nat, id: MessageId)
    requires j < |s.slots| && NotListed(s, id)
    ensures id in IdsIn(Exec(s, ops).slots[j]) <==> WasPut(ops, j, id)
  {
    var masks := MasksOf(Exec(s, ops).slots[j], id);
    MasksAndIds(Exec(s, ops).slots[j], id);
    if masks != [] {
      ListedByPuts(s, ops, j, id, masks[0]);
      var i :| ListedBy(ops, i, j, id, masks[0]);
      assert PutAged(ops, i, j, id);
    }
    if i :| PutAged(ops, i, j, id) {
      SlicesDistinct(ops[i].m.mask);
      var mask := Slices(ops[i].m.mask)[0];
      assert ListedBy(ops, i, j, id, mask);
      ListedByPuts(s, ops, j, id, mask);
    }
  }

  /** The listing that put `i` made was still in the history at put `t`, but has dropped out of it since. */
  ghost predicate DroppedSince(ops: seq<Op>, i: int, t: int, h: nat, id: MessageId) {
    PutAt(ops, i, id) && i <= t <= |ops| && Shifts(ops[i..t]) < h <= Age(ops, i)
  }

  ghost predicate LastPut(ops: seq<Op>, t: int, id: MessageId) {
    PutAt(ops, t, id) && forall i :: t < i ==> !PutAt(ops, i, id)
  }

  /** `t` is the last put of the message, and no listing of it has dropped out of the history since. */
  ghost predicate Lasts(ops: seq<Op>, t: int, h: nat, id: MessageId) {
    LastPut(ops, t, id) && forall i :: !DroppedSince(ops, i, t, h, id)
  }

  /** What the cache holds of a message is what was put last, while that lasts. */
  ghost predicate HeldRight(msgs: map<MessageId, Message>, ops: seq<Op>, h: nat, id: MessageId) {
    && (id in msgs <==> exists t :: Lasts(ops, t, h, id))
    && forall t :: Lasts(ops, t, h, id) ==> id in msgs && msgs[id] == ops[t].m
  }

  /** Whatever is put, as often as it may be: a message is held if and only if it was put and none of its listings
      has dropped out of the history since it was last put; then the cache holds what was put last. */
  lemma {:induction false} HeldIff(s: State, ops: seq<Op>, id: MessageId)
    requires s.slots != [] && id !in s.msgs && NotListed(s, id)
    ensures HeldRight(Exec(s, ops).msgs, ops, |s.slots|, id)
  {
    if ops != [] {
      var init, op := ops[..|ops| - 1], ops[|ops| - 1];
      assert ops == init + [op];
      HeldIff(s, init, id);
      InSlotIff(s, init, |s.slots| - 1, id);
      HeldStep(Exec(s, init), init, op, id);
    }
  }

  lemma HeldStep(s: State, init: seq<Op>, op: Op, id: MessageId)
    requires s.slots != [] && HeldRight(s.msgs, init, |s.slots|, id)
    requires id in IdsIn(s.slots[|s.slots| - 1]) <==> WasPut(init, |s.slots| - 1, id)
    ensures HeldRight(Apply(s, op).msgs, init + [op], |s.slots|, id)
  {
    HeldAfter(s.msgs, Apply(s, op).msgs, init, op, |s.slots|, id);
  }

  lemma HeldAfter(msgs: map<MessageId, Message>, msgs': map<MessageId, Message>, init: seq<Op>, op: Op, h: nat,
                  id: MessageId)
    requires h > 0 && HeldRight(msgs, init, h, id)
    requires op.PutOp? && op.m.id == id ==> id in msgs' && msgs'[id] == op.m
    requires !(op.PutOp? && op.m.id == id) ==> (id in msgs' <==> id in msgs && !DropsOut(init, op, h, id))
    requires !(op.PutOp? && op.m.id == id) && id in msgs' ==> msgs'[id] == msgs[id]
    ensures HeldRight(msgs', init + [op], h, id)
  {
    if op.PutOp? && op.m.id == id {
      LastsFromPut(init, op, h, id);
      assert Lasts(init + [op], |init|, h, id);
    } else {
      forall t ensures Lasts(init + [op], t, h, id) <==> Lasts(init, t, h, id) && !DropsOut(init, op, h, id) {
        LastsStep(init, op, t, h, id);
      }
    }
  }

  /** The operation is the shift that makes a listing of the message drop out. */
  ghost predicate DropsOut(ops: seq<Op>, op: Op, h: nat, id: MessageId) {
    op.ShiftOp? && WasPut(ops, h - 1, id)
  }

  lemma LastsFromPut(init: seq<Op>, op: Op, h: nat, id: MessageId)
    requires h > 0 && op.PutOp? && op.m.id == id
    ensures forall t :: Lasts(init + [op], t, h, id) <==> t == |init|
  {
    var ops, n := init + [op], |init|;
    assert LastPut(ops, n, id);
    forall i | PutAt(ops, i, id) && Shifts(ops[i..n]) < h ensures Age(ops, i) < h {
      AgeStep(init, op, i);
      assert ops[i..n] == init[i..];
    }
    assert forall i :: !DroppedSince(ops, i, n, h, id);
  }

  lemma LastsStep(init: seq<Op>, op: Op, t: int, h: nat, id: MessageId)
    requires h > 0 && (op.PutOp? ==> op.m.id != id)
    ensures Lasts(init + [op], t, h, id) <==> Lasts(init, t, h, id) && !DropsOut(init, op, h, id)
  {
    var ops := init + [op];
    forall i ensures PutAt(ops, i, id) <==> PutAt(init, i, id) { }
    assert LastPut(ops, t, id) <==> LastPut(init, t, id);
    if LastPut(init, t, id) {
      forall i ensures DroppedSince(ops, i, t, h, id) <==>
                       DroppedSince(init, i, t, h, id) || (op.ShiftOp? && PutAged(init, i, h - 1, id))
      {
        DroppedStep(init, op, i, t, h, id);
      }
      if DropsOut(init, op, h, id) {
        var i :| PutAged(init, i, h - 1, id);
        assert DroppedSince(ops, i, t, h, id);
      }
      if i :| DroppedSince(init, i, t, h, id) { assert DroppedSince(ops, i, t, h, id); }
    }
  }

  lemma DroppedStep(init: seq<Op>, op: Op, i: int, t: nat, h: nat, id: MessageId)
    requires h > 0 && t < |init| && LastPut(init, t, id) && (op.PutOp? ==> op.m.id != id)
    ensures DroppedSince(init + [op], i, t, h, id) <==>
            DroppedSince(init, i, t, h, id) || (op.ShiftOp? && PutAged(init, i, h - 1, id))
  {
    var ops := init + [op];
    assert PutAt(ops, i, id) <==> PutAt(init, i, id);
    if PutAt(init, i, id) {
      assert i <= t;
      AgeStep(init, op, i);
      assert ops[i..t] == init[i..t] && init[i..] == init[i..t] + init[t..];
      ShiftsJoin(init[i..t], init[t..]);
    }
  }

  ghost predicate PutWithin(ops: seq<Op>, i: int, slots: nat, id: MessageId, mask: Bitmask) {
    PutAt(ops, i, id) && Age(ops, i) < slots && mask in Slices(ops[i].m.mask)
  }

  /** And it is advertised under a mask if and only if one of the puts in the newest slots had that slice. */
  lemma AdvertisedPutsIff(s: State, ops: seq<Op>, gossip: nat, id: MessageId, mask: Bitmask)
    requires s.slots != [] && NotListed(s, id) && gossip <= |s.slots|
    ensures id in Gossip(Exec(s, ops).slots[..gossip], mask) <==> exists i :: PutWithin(ops, i, gossip, id, mask)
  {
    var slots := Exec(s, ops).slots[..gossip];
    GossipIff(slots, mask, id);
    if j :| ListedAt(slots, j, mask, id) {
      ListedByPuts(s, ops, j, id, mask);
      var i :| ListedBy(ops, i, j, id, mask);
      assert PutWithin(ops, i, gossip, id, mask);
    }
    if i :| PutWithin(ops, i, gossip, id, mask) {
      assert ListedBy(ops, i, Age(ops, i), id, mask);
      ListedByPuts(s, ops, Age(ops, i), id, mask);
      assert ListedAt(slots, Age(ops, i), mask, id);
    }
  }

  // ---------------------------------------------------------------- the cache in place

  /** A slice of a buffer: the first `len` entries are in use. */
  datatype Slot = Slot(buffer: array<Entry>, len: nat)

  /** append: writes in place while there is room, else moves to a larger buffer. */
  method Append(slot: Slot, e: Entry) returns (slot': Slot)
    requires slot.len <= slot.buffer.Length
    modifies slot.buffer
    ensures slot'.len == slot.len + 1 <= slot'.buffer.Length
    ensures slot'.buffer[..slot'.len] == old(slot.buffer[..slot.len]) + [e]
    ensures slot'.buffer == slot.buffer || fresh(slot'.buffer)
    ensures slot.buffer.Length == slot.len ==> slot.buffer[..] == old(slot.buffer[..])
  {
    if slot.len < slot.buffer.Length {
      slot.buffer[slot.len] := e;
      return Slot(slot.buffer, slot.len + 1);
    }
    var bigger := new Entry[2 * slot.len + 1](_ => e);
    for i := 0 to slot.len
      invariant forall k :: 0 <= k < i ==> bigger[k] == slot.buffer[k]
      invariant bigger[slot.len] == e && slot.buffer[..] == old(slot.buffer[..])
    {
      bigger[i] := slot.buffer[i];
    }
    return Slot(bigger, slot.len + 1);
  }

  class Cache {
    const history: array<Slot>
    const gossip: nat
    var msgs: map<MessageId, Message>
    var sent: Transmissions

    ghost function Buffers(): set<object>
      reads history
    {
      set i | 0 <= i < history.Length :: history[i].buffer
    }

    /** Slots lie within their buffers, and no two share a buffer (unless it has no room at all). */
    ghost predicate Valid()
      reads this, history, Buffers()
    {
      && 0 < history.Length && gossip <= history.Length
      && (forall i :: 0 <= i < history.Length ==> history[i].len <= history[i].buffer.Length)
      && (forall i, j :: 0 <= i < j < history.Length ==>
            history[i].buffer != history[j].buffer || history[i].buffer.Length == 0)
    }

    ghost function SlotAt(i: nat): seq<Entry>
      requires i < history.Length && history[i].len <= history[i].buffer.Length
      reads history, history[i].buffer
    {
      history[i].buffer[..history[i].len]
    }

    ghost function View(): State
      requires Valid()
      reads this, history, Buffers()
    {
      var slots := seq(history.Length,
                       i requires 0 <= i < history.Length && Valid() reads this, history, Buffers() => SlotAt(i));
      State(slots, msgs, sent)
    }

    constructor (gossip: nat, length: nat)
      requires gossip <= length && length > 0
      ensures Valid() && fresh(history) && fresh(Buffers()) && history.Length == length && this.gossip == gossip
      ensures View() == State(seq(length, _ => []), map[], map[])
    {
      var nothing := new Entry[0];
      history := new Slot[length](_ => Slot(nothing, 0));
      this.gossip := gossip;
      msgs, sent := map[], map[];
    }

    /** One append to the newest slot. */
    method Push(e: Entry)
      requires Valid()
      modifies history, history[0].buffer
      ensures Valid() && (history[0].buffer == old(history[0].buffer) || fresh(history[0].buffer))
      ensures forall i :: 0 < i < history.Length ==> history[i] == old(history[i])
      ensures SlotAt(0) == old(SlotAt(0)) + [e]
      ensures forall i :: 0 < i < history.Length ==> SlotAt(i) == old(SlotAt(i))
    {
      var slot := Append(history[0], e);
      history[0] := slot;
    }

    method Put(m: Message)
      requires Valid()
      modifies this, history, history[0].buffer
      ensures Valid() && View() == PutMessage(old(View()), m)
      ensures history[0].buffer == old(history[0].buffer) || fresh(history[0].buffer)
    {
      msgs := msgs[m.id := m];
      var slices := SliceBitmask(m.mask);
      PushAll(m.id, slices);
      assert View().slots == PutMessage(old(View()), m).slots;
    }

    /** The message is listed under each of the slices. */
    method PushAll(id: MessageId, slices: seq<Bitmask>)
      requires Valid()
      modifies history, history[0].buffer
      ensures Valid() && (history[0].buffer == old(history[0].buffer) || fresh(history[0].buffer))
      ensures SlotAt(0) == old(SlotAt(0)) + EntriesFor(id, slices)
      ensures forall i :: 0 < i < history.Length ==> SlotAt(i) == old(SlotAt(i))
    {
      for k := 0 to |slices|
        invariant Valid() && (history[0].buffer == old(history[0].buffer) || fresh(history[0].buffer))
        invariant forall i :: 0 < i < history.Length ==> history[i] == old(history[i])
        invariant SlotAt(0) == old(SlotAt(0)) + EntriesFor(id, slices[..k])
        invariant forall i :: 0 < i < history.Length ==> SlotAt(i) == old(SlotAt(i))
      {
        assert EntriesFor(id, slices[..k + 1]) == EntriesFor(id, slices[..k]) + [Entry(id, slices[k])];
        Push(Entry(id, slices[k]));
      }
      assert slices[..|slices|] == slices;
    }

    /** Shift: the last slot's messages are forgotten and its buffer becomes the newest, empty slot. */
    method Shift()
      requires Valid()
      modifies this, history
      ensures Valid() && View() == Shifted(old(View()))
    {
      ghost var s := View();
      ForgetSlot(history[history.Length - 1]);
      assert msgs == Shifted(s).msgs && sent == Shifted(s).sent;
      Rotate();
      assert forall i :: 0 <= i < history.Length ==> SlotAt(i) == Shifted(s).slots[i];
      assert View().slots == Shifted(s).slots;
    }

    /** Every slot moves one place; the last buffer comes to the front, emptied. */
    method Rotate()
      requires Valid()
      modifies history
      ensures Valid() && SlotAt(0) == [] && forall i :: 0 < i < history.Length ==> SlotAt(i) == old(SlotAt(i - 1))
    {
      var last := history[history.Length - 1];
      MoveSlots();
      history[0] := Slot(last.buffer, 0);
      assert forall i :: 0 < i < history.Length ==> history[i] == old(history[i - 1]);
    }

    method MoveSlots()
      requires 0 < history.Length
      modifies history
      ensures history[0] == old(history[0]) && forall i :: 0 < i < history.Length ==> history[i] == old(history[i - 1])
    {
      for k := history.Length - 1 downto 0
        invariant forall i :: 0 <= i <= k ==> history[i] == old(history[i])
        invariant forall i :: k < i < history.Length ==> history[i] == old(history[i - 1])
      {
        history[k + 1] := history[k];
      }
    }

    /** The loop that forgets the messages of the last slot. */
    method ForgetSlot(slot: Slot)
      requires slot.len <= slot.buffer.Length
      modifies this`msgs, this`sent
      ensures msgs == old(msgs) - IdsIn(slot.buffer[..slot.len]) && sent == old(sent) - IdsIn(slot.buffer[..slot.len])
    {
      for k := 0 to slot.len
        invariant msgs == old(msgs) - IdsIn(slot.buffer[..k]) && sent == old(sent) - IdsIn(slot.buffer[..k])
      {
        assert slot.buffer[..k + 1] == slot.buffer[..k] + [slot.buffer[k]];
        assert IdsIn(slot.buffer[..k + 1]) == IdsIn(slot.buffer[..k]) + {slot.buffer[k].id};
        msgs, sent := msgs - {slot.buffer[k].id}, sent - {slot.buffer[k].id};
      }
    }

    method Get(id: MessageId) returns (m: Option<Message>)
      requires Valid()
      ensures m == if id in View().msgs then Some(View().msgs[id]) else None
    {
      m := if id in msgs then Some(msgs[id]) else None;
    }

    /** GetForPeer: the message and how often this peer has now asked for it. */
    method GetForPeer(id: MessageId, p: PeerId) returns (m: Option<Message>, count: nat)
      requires Valid()
      modifies this`sent
      ensures Valid() && View() == Fetched(old(View()), id, p)
      ensures m == if id in msgs then Some(msgs[id]) else None
      ensures count == if id in msgs then old(Count(View(), id, p)) + 1 else 0
    {
      if id !in msgs {
        return None, 0;
      }
      var tx := if id in sent then sent[id] else map[];
      tx := tx[p := (if p in tx then tx[p] else 0) + 1];
      sent := sent[id := tx];
      return Some(msgs[id]), tx[p];
    }

    method GetGossipIDs(mask: Bitmask) returns (ids: seq<MessageId>)
      requires Valid()
      ensures ids == Gossip(View().slots[..gossip], mask)
    {
      ids := [];
      ghost var slots := View().slots;
      for i := 0 to gossip
        invariant ids == Gossip(slots[..i], mask) && View().slots == slots
      {
        assert slots[..i + 1][..i] == slots[..i] && slots[i] == SlotAt(i);
        var more := ListSlot(history[i], mask);
        ids := ids + more;
      }
    }
  }

  method ListSlot(slot: Slot, mask: Bitmask) returns (ids: seq<MessageId>)
    requires slot.len <= slot.buffer.Length
    ensures ids == Listed(slot.buffer[..slot.len], mask)
  {
    ids := [];
    for k := 0 to slot.len
      invariant ids == Listed(slot.buffer[..k], mask)
    {
      assert slot.buffer[..k + 1][..k] == slot.buffer[..k];
      if slot.buffer[k].mask == mask {
        ids := ids + [slot.buffer[k].id];
      }
    }
  }
}
