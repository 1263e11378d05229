/** The gate for IHAVE gossip: how often a peer may advertise between heartbeats and how many messages are asked
    for, with a promise recorded for every request. */
module IHaveGate {
  import opened Basics
  import opened Peers
  import opened GossipPromises

  /** One IHAVE: whether its bitmask is joined and passes the peer filter, and the advertised ids. */
  datatype IHave = IHave(wanted: bool, ids: seq<MessageId>)

  datatype Limits = Limits(maxMessages: nat, maxLength: nat)

  function CountFor(counts: map<PeerId, nat>, p: PeerId): nat { if p in counts then counts[p] else 0 }

  /** What may be asked for: ids not seen yet, among the first `maxLength` of an IHAVE that is wanted. */
  ghost predicate Askable(haves: seq<IHave>, seen: set<MessageId>, limits: Limits, m: MessageId) {
    m !in seen && exists i, j ::
      0 <= i < |haves| && haves[i].wanted && 0 <= j < |haves[i].ids| && j < limits.maxLength && haves[i].ids[j] == m
  }

  class Gate {
    const limits: Limits
    const tracer: GossipTracer
    var peerhave: map<PeerId, nat>
    var iasked: map<PeerId, nat>

    /** No peer is ever asked for more than the limit between two heartbeats. */
    ghost predicate Valid()
      reads this, tracer
    {
      tracer.Valid() && forall p :: CountFor(iasked, p) <= limits.maxLength
    }

    constructor (limits: Limits, tracer: GossipTracer)
      requires tracer.Valid()
      ensures Valid() && this.limits == limits && this.tracer == tracer
    {
      this.limits, this.tracer := limits, tracer;
      peerhave, iasked := map[], map[];
    }

    /** clearIHaveCounters, at a heartbeat. */
    method Clear()
      requires Valid()
      modifies this
      ensures Valid() && peerhave == map[] && iasked == map[]
    {
      peerhave, iasked := map[], map[];
    }

    /** The ids an IHAVE control message makes us want. */
    method Collect(haves: seq<IHave>, seen: set<MessageId>) returns (want: set<MessageId>)
      ensures forall m :: m in want <==> Askable(haves, seen, limits, m)
    {
      want := {};
      for i := 0 to |haves|
        invariant forall m :: m in want <==> Askable(haves[..i], seen, limits, m)
      {
        if haves[i].wanted {
          want := CollectOne(haves[i].ids, seen, want);
        }
        forall m
          ensures m in want <==> Askable(haves[..i + 1], seen, limits, m)
        {
          AskableMore(haves, i, seen, limits, m);
        }
      }
      assert haves[..|haves|] == haves;
    }

    method CollectOne(ids: seq<MessageId>, seen: set<MessageId>, want0: set<MessageId>) returns (want: set<MessageId>)
      ensures forall m :: m in want <==> m in want0 || FirstOf(ids, seen, limits, m)
    {
      want := want0;
      for j := 0 to |ids|
        invariant forall m :: m in want <==> m in want0 || FirstOf(ids[..j], seen, limits, m)
        invariant j <= limits.maxLength
      {
        if j >= limits.maxLength {
          forall m
            ensures FirstOf(ids[..j], seen, limits, m) <==> FirstOf(ids, seen, limits, m)
          {
            CutOff(ids, j, seen, limits, m);
          }
          return;
        }
        forall m
          ensures FirstOf(ids[..j + 1], seen, limits, m) <==>
            FirstOf(ids[..j], seen, limits, m) || (m !in seen && m == ids[j])
        {
          OneMore(ids, j, seen, limits, m);
        }
        if ids[j] !in seen {
          want := want + {ids[j]};
        }
      }
      assert ids[..|ids|] == ids;
    }

    /** How many of `n` wanted ids may be asked for. */
    ghost function Allowance(p: PeerId, acceptable: bool, n: nat): nat
      reads this
      requires CountFor(iasked, p) <= limits.maxLength
    {
      if !acceptable || CountFor(peerhave, p) >= limits.maxMessages then 0
      else Min(n, limits.maxLength - CountFor(iasked, p))
    }

    /** handleIHave: the ids asked for, [] if none: as many of those that are wanted as the limits allow, all of them
        if they allow it. A request is never empty when it is recorded as a promise, and at most one of its ids is
        promised anew. */
    method HandleIHave(p: PeerId, acceptable: bool, haves: seq<IHave>, seen: set<MessageId>, now: int)
      returns (ask: seq<MessageId>, ghost want: set<MessageId>, ghost promised: set<MessageId>)
      requires Valid()
      modifies this, tracer
      ensures Valid() && forall m :: m in want <==> Askable(haves, seen, limits, m)
      ensures NoDuplicates(ask) && ToSet(ask) <= want && |ask| == old(Allowance(p, acceptable, |want|))
      ensures |ask| == |want| ==> ToSet(ask) == want
      ensures CountFor(iasked, p) == CountFor(old(iasked), p) + |ask|
      ensures forall q :: q != p ==> CountFor(iasked, q) == CountFor(old(iasked), q)
      ensures CountFor(peerhave, p) == CountFor(old(peerhave), p) + if acceptable then 1 else 0
      ensures forall q :: q != p ==> CountFor(peerhave, q) == CountFor(old(peerhave), q)
      ensures promised <= ToSet(ask) && |promised| == if ask == [] then 0 else 1
      ensures PromiseMade(old(tracer.promises), tracer.promises, p, promised, now + tracer.followUp)
    {
      want := Wanted(haves, seen);
      ask, promised := [], {};
      if !acceptable {
        return;
      }
      peerhave := peerhave[p := CountFor(peerhave, p) + 1];
      if CountFor(peerhave, p) > limits.maxMessages || CountFor(iasked, p) >= limits.maxLength {
        return;
      }
      var iwant := Collect(haves, seen);
      assert want == iwant;
      if |iwant| == 0 {
        return;
      }
      var iask := |iwant|;
      if iask + CountFor(iasked, p) > limits.maxLength {
        iask := limits.maxLength - CountFor(iasked, p);
      }
      ask, promised := Ask(p, iwant, iask, now);
    }

    method Ask(p: PeerId, iwant: set<MessageId>, iask: nat, now: int)
      returns (ask: seq<MessageId>, ghost promised: set<MessageId>)
      requires Valid() && 0 < iask <= |iwant| && CountFor(iasked, p) + iask <= limits.maxLength
      modifies this`iasked, tracer
      ensures Valid() && NoDuplicates(ask) && ToSet(ask) <= iwant && |ask| == iask
      ensures (iask == |iwant| ==> ToSet(ask) == iwant)
      ensures iasked == old(iasked)[p := CountFor(old(iasked), p) + iask]
      ensures promised <= ToSet(ask) && |promised| == 1
      ensures PromiseMade(old(tracer.promises), tracer.promises, p, promised, now + tracer.followUp)
    {
      ask := TakeFirst(iwant, iask);
      iasked := iasked[p := CountFor(iasked, p) + iask];
      assert forall q :: q != p ==> CountFor(iasked, q) == CountFor(old(iasked), q);
      var m := tracer.AddPromise(p, ask, now);
      promised := {m};
    }

    ghost function Wanted(haves: seq<IHave>, seen: set<MessageId>): (want: set<MessageId>)
      ensures forall m :: m in want <==> Askable(haves, seen, limits, m)
    {
      set i, j | 0 <= i < |haves| && 0 <= j < |haves[i].ids| && Askable(haves, seen, limits, haves[i].ids[j]) ::
        haves[i].ids[j]
    }
  }

  /** A new promise is recorded, an earlier one stands, and nothing else changes. */
  ghost predicate PromiseMade(before: Promises, after: Promises, p: PeerId, promised: set<MessageId>, expire: int) {
    forall m, q :: At(after, m, q) == AfterAsking(At(before, m, q), q == p && m in promised, expire)
  }

  function AfterAsking(promise: Option<int>, promised: bool, expire: int): Option<int> {
    if promised && promise.None? then Some(expire) else promise
  }

  /** The first `n` of the wanted ids, in some order. */
  method TakeFirst(want: set<MessageId>, n: nat) returns (ask: seq<MessageId>)
    requires n <= |want|
    ensures NoDuplicates(ask) && ToSet(ask) <= want && |ask| == n && (n == |want| ==> ToSet(ask) == want)
  {
    var list := ToList(want);
    DistinctCount(list);
    ask := list[..n];
    if n == |want| { assert ask == list; }
  }

  ghost predicate FirstOf(ids: seq<MessageId>, seen: set<MessageId>, limits: Limits, m: MessageId) {
    m !in seen && exists j :: 0 <= j < |ids| && j < limits.maxLength && ids[j] == m
  }

  lemma CutOff(ids: seq<MessageId>, j: nat, seen: set<MessageId>, limits: Limits, m: MessageId)
    requires j <= |ids| && limits.maxLength <= j
    ensures FirstOf(ids[..j], seen, limits, m) <==> FirstOf(ids, seen, limits, m)
  {
  }

  lemma OneMore(ids: seq<MessageId>, j: nat, seen: set<MessageId>, limits: Limits, m: MessageId)
    requires j < |ids| && j < limits.maxLength
    ensures FirstOf(ids[..j + 1], seen, limits, m) <==>
            FirstOf(ids[..j], seen, limits, m) || (m !in seen && m == ids[j])
  {
  }

  lemma AskableMore(haves: seq<IHave>, i: nat, seen: set<MessageId>, limits: Limits, m: MessageId)
    requires i < |haves|
    ensures Askable(haves[..i + 1], seen, limits, m) <==>
            Askable(haves[..i], seen, limits, m) || (haves[i].wanted && FirstOf(haves[i].ids, seen, limits, m))
  {
  }
}
