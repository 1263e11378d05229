/** How the router picks peers for a mask: getPeers, and the backoff table it consults. */
module PeerChoice {
  import opened Basics
  import opened Bitmasks
  import opened Peers
  import opened RouterSpec

  /** The peers of one slice that may be picked. */
  function Eligible(env: Env, f: PeerId -> bool, slice: Bitmask): set<PeerId>
    requires slice in env.subs
  {
    set p | p in env.subs[slice] && p in env.capable && f(p) && env.filter(p, slice)
  }

  /** The peers left after the remaining slices: a slice nobody announced ends the search, and so does an
      empty intersection, but an empty result so far is replaced rather than intersected. */
  ghost function Narrow(env: Env, f: PeerId -> bool, acc: set<PeerId>, slices: seq<Bitmask>): set<PeerId>
    decreases |slices|
  {
    if slices == [] then acc
    else if slices[0] !in env.subs then {}
    else
      var e := Eligible(env, f, slices[0]);
      if acc == {} then Narrow(env, f, e, slices[1..])
      else if acc * e == {} then {}
      else Narrow(env, f, acc * e, slices[1..])
  }

  ghost function Candidates(env: Env, f: PeerId -> bool, mask: Bitmask): set<PeerId> {
    Narrow(env, f, {}, Slices(mask))
  }

  /** getPeers: up to `count` candidates in random order, all of them if `count` is not positive. */
  method GetPeers(env: Env, mask: Bitmask, count: int, f: PeerId -> bool) returns (list: seq<PeerId>)
    ensures NoDuplicates(list) && ToSet(list) <= Candidates(env, f, mask)
    ensures |list| == if count > 0 && |Candidates(env, f, mask)| > count then count else |Candidates(env, f, mask)|
  {
    var slices := SliceBitmask(mask);
    var found: set<PeerId> := {};
    for i := 0 to |slices|
      invariant Narrow(env, f, found, slices[i..]) == Candidates(env, f, mask)
    {
      assert slices[i..][1..] == slices[i + 1..];
      if slices[i] !in env.subs {
        return [];
      }
      var peers := Eligible(env, f, slices[i]);
      if found == {} {
        found := peers;
      } else {
        if found * peers == {} {
          return [];
        }
        found := found * peers;
      }
    }
    list := ToList(found);
    var a := new PeerId[|list|](i requires 0 <= i < |list| => list[i]);
    assert a[..] == list;
    Shuffle(a, 0);
    PermutationFacts(list, a[..]);
    list := a[..];
    if count > 0 && |list| > count {
      list := list[..count];
    }
  }

  // ---------------------------------------------------------------- when it is the intersection

  /** Eligible on every slice of the list. */
  ghost predicate EligibleOnAll(env: Env, f: PeerId -> bool, slices: seq<Bitmask>, p: PeerId) {
    forall i :: 0 <= i < |slices| ==> slices[i] in env.subs && p in Eligible(env, f, slices[i])
  }

  ghost predicate Announced(env: Env, slices: seq<Bitmask>) {
    forall i :: 0 <= i < |slices| ==> slices[i] in env.subs
  }

  lemma {:induction false} NarrowNonEmpty(env: Env, f: PeerId -> bool, acc: set<PeerId>, slices: seq<Bitmask>)
    requires acc != {}
    ensures forall p :: p in Narrow(env, f, acc, slices) <==> p in acc && EligibleOnAll(env, f, slices, p)
  {
    if slices != [] {
      assert forall p :: EligibleOnAll(env, f, slices, p) <==>
        slices[0] in env.subs && p in Eligible(env, f, slices[0]) && EligibleOnAll(env, f, slices[1..], p) by {
        forall p ensures EligibleOnAll(env, f, slices, p) <==>
          slices[0] in env.subs && p in Eligible(env, f, slices[0]) && EligibleOnAll(env, f, slices[1..], p)
        {
          EligibleStep(env, f, slices, p);
        }
      }
      if slices[0] in env.subs {
        var e := Eligible(env, f, slices[0]);
        if acc * e != {} { NarrowNonEmpty(env, f, acc * e, slices[1..]); }
      }
    }
  }

  lemma EligibleStep(env: Env, f: PeerId -> bool, slices: seq<Bitmask>, p: PeerId)
    requires slices != []
    ensures EligibleOnAll(env, f, slices, p) <==>
      slices[0] in env.subs && p in Eligible(env, f, slices[0]) && EligibleOnAll(env, f, slices[1..], p)
  {
  }

  /** The first slice with an eligible peer. */
  ghost predicate IsFirst(env: Env, f: PeerId -> bool, slices: seq<Bitmask>, k: nat)
    requires Announced(env, slices)
  {
    && k < |slices| && Eligible(env, f, slices[k]) != {}
    && forall i :: 0 <= i < k ==> Eligible(env, f, slices[i]) == {}
  }

  /** Leading slices with no eligible peer are skipped; from the first other slice on it is the intersection. */
  lemma {:induction false} NarrowSkipsLeading(env: Env, f: PeerId -> bool, slices: seq<Bitmask>, k: nat)
    requires Announced(env, slices) && IsFirst(env, f, slices, k)
    ensures forall p :: p in Narrow(env, f, {}, slices) <==> EligibleOnAll(env, f, slices[k..], p)
  {
    if k > 0 {
      NarrowSkipsLeading(env, f, slices[1..], k - 1);
      assert slices[1..][k - 1..] == slices[k..];
    } else {
      NarrowNonEmpty(env, f, Eligible(env, f, slices[0]), slices[1..]);
      forall p ensures EligibleOnAll(env, f, slices[0..], p) <==>
        p in Eligible(env, f, slices[0]) && EligibleOnAll(env, f, slices[1..], p)
      {
        EligibleStep(env, f, slices, p);
        assert slices[0..] == slices;
      }
    }
  }

  lemma {:induction false} NarrowAllEmpty(env: Env, f: PeerId -> bool, slices: seq<Bitmask>)
    requires forall i :: 0 <= i < |slices| && slices[i] in env.subs ==> Eligible(env, f, slices[i]) == {}
    ensures Narrow(env, f, {}, slices) == {}
  {
    if slices != [] { NarrowAllEmpty(env, f, slices[1..]); }
  }

  lemma {:induction false} NarrowUnannounced(env: Env, f: PeerId -> bool, acc: set<PeerId>, slices: seq<Bitmask>)
    requires !Announced(env, slices)
    ensures Narrow(env, f, acc, slices) == {}
    decreases |slices|
  {
    if slices[0] in env.subs {
      var e := Eligible(env, f, slices[0]);
      assert !Announced(env, slices[1..]) by {
        var i :| 0 <= i < |slices| && slices[i] !in env.subs;
        assert slices[1..][i - 1] == slices[i];
      }
      if acc == {} { NarrowUnannounced(env, f, e, slices[1..]); }
      else if acc * e != {} { NarrowUnannounced(env, f, acc * e, slices[1..]); }
    }
  }

  /** Every candidate is eligible on the last slice at least, hence announced a slice of the mask. */
  lemma CandidatesSubscribe(env: Env, f: PeerId -> bool, mask: Bitmask, p: PeerId)
    requires p in Candidates(env, f, mask)
    ensures SubscribedToSome(env.subs, Slices(mask), p) && p in env.capable && f(p)
  {
    var slices := Slices(mask);
    SlicesDistinct(mask);
    if !Announced(env, slices) { NarrowUnannounced(env, f, {}, slices); }
    if forall i :: 0 <= i < |slices| ==> Eligible(env, f, slices[i]) == {} { NarrowAllEmpty(env, f, slices); }
    var k := FirstEligible(env, f, slices);
    NarrowSkipsLeading(env, f, slices, k);
    assert EligibleOnAll(env, f, slices[k..], p);
    assert slices[k..][0] == slices[k];
    assert Subscribed(env.subs, slices[k], p);
  }

  lemma {:induction false} FirstEligible(env: Env, f: PeerId -> bool, slices: seq<Bitmask>) returns (k: nat)
    requires Announced(env, slices) && exists i :: 0 <= i < |slices| && Eligible(env, f, slices[i]) != {}
    ensures IsFirst(env, f, slices, k)
  {
    if Eligible(env, f, slices[0]) != {} {
      k := 0;
    } else {
      var i :| 0 <= i < |slices| && Eligible(env, f, slices[i]) != {};
      assert slices[1..][i - 1] == slices[i];
      k := FirstEligible(env, f, slices[1..]);
      k := k + 1;
    }
  }

  /** The comment says the intersection of all slices. It is exactly that unless every slice is announced,
      leading slices are skipped and some peer is eligible on all the slices after them. */
  lemma CandidatesAreIntersectionIff(env: Env, f: PeerId -> bool, mask: Bitmask)
    ensures (forall p :: p in Candidates(env, f, mask) <==> EligibleOnAll(env, f, Slices(mask), p)) <==>
            !(Announced(env, Slices(mask)) &&
              exists k, p :: k > 0 && IsFirst(env, f, Slices(mask), k) && EligibleOnAll(env, f, Slices(mask)[k..], p))
  {
    var slices := Slices(mask);
    SlicesDistinct(mask);
    if !Announced(env, slices) {
      NarrowUnannounced(env, f, {}, slices);
    } else if forall i :: 0 <= i < |slices| ==> Eligible(env, f, slices[i]) == {} {
      NarrowAllEmpty(env, f, slices);
    } else {
      var k := FirstEligible(env, f, slices);
      NarrowSkipsLeading(env, f, slices, k);
      assert slices[0..] == slices;
      if k > 0 {
        forall p ensures !EligibleOnAll(env, f, slices, p) { assert Eligible(env, f, slices[0]) == {}; }
        if p :| EligibleOnAll(env, f, slices[k..], p) { assert p in Candidates(env, f, mask); }
      }
      forall j: nat | IsFirst(env, f, slices, j) ensures j == k { }
    }
  }

  /** A two-slice mask on which one peer announced only the second slice, and is still returned. */
  lemma LeadingSliceSkipped() returns (env: Env, mask: Bitmask)
    ensures Announced(env, Slices(mask)) && |Slices(mask)| == 2
    ensures PeerId(7) in Candidates(env, _ => true, mask) && !SubscribedToAll(env.subs, Slices(mask), PeerId(7))
  {
    mask := [3];
    TwoSlices();
    env := Env(map[[2] := {}, [1] := {PeerId(7)}], _ => 0.0, {}, {PeerId(7)}, (_, _) => true, 0);
    var e := Eligible(env, _ => true, [1]);
    assert PeerId(7) in e;
    assert Slices(mask)[1..] == [[1]];
    assert Slices(mask)[1..][1..] == [];
    assert Eligible(env, _ => true, [2]) == {};
  }

  lemma TwoSlices()
    ensures Slices([3]) == [[2], [1]]
  {
    var m: Bitmask := [3];
    assert !IsZero(m) by { assert m[0] == 3; }
    SkipClearBits(m, 0, 6);
    assert Bit(m, 6) && Bit(m, 7);
    assert OneBit(1, 6) == [2] && OneBit(1, 7) == [1];
    assert SlicesUpTo(m, 7) == [[2]];
  }

  // ---------------------------------------------------------------- backoff

  type Backoff = map<Bitmask, map<PeerId, int>>

  predicate HasBackoff(backoff: Backoff, slice: Bitmask, p: PeerId) {
    slice in backoff && p in backoff[slice]
  }

  /** Entry (s, p) after an extension that hits it or not: the later of the recorded expiry and `expire` if it is
      hit, else as it was. */
  ghost predicate ExtendedAt(b: Backoff, b': Backoff, s: Bitmask, p: PeerId, hit: bool, expire: int) {
    && (HasBackoff(b', s, p) <==> HasBackoff(b, s, p) || hit)
    && (HasBackoff(b', s, p) ==> b'[s][p] == if hit then Later(b, s, p, expire) else b[s][p])
  }

  function Later(b: Backoff, s: Bitmask, p: PeerId, expire: int): int {
    if HasBackoff(b, s, p) then Max(b[s][p], expire) else expire
  }

  /** The whole table after an extension: exactly the entries in `hits` are new or later. */
  ghost predicate Extended(b: Backoff, b': Backoff, hits: (Bitmask, PeerId) -> bool, expire: int) {
    forall s, p :: ExtendedAt(b, b', s, p, hits(s, p), expire)
  }

  /** No backoff is dropped or shortened. */
  ghost predicate BackoffGrows(b: Backoff, b': Backoff) {
    forall s, p :: HasBackoff(b, s, p) ==> HasBackoff(b', s, p) && b'[s][p] >= b[s][p]
  }

  /** The entries of some peers on one mask. */
  ghost function Row(b: Bitmask, peers: set<PeerId>): (Bitmask, PeerId) -> bool {
    (s, p) => s == b && p in peers
  }

  ghost function Nothing(): (Bitmask, PeerId) -> bool {
    (_, _) => false
  }

  lemma ExtendedMeans(b: Backoff, b': Backoff, hits: (Bitmask, PeerId) -> bool, expire: int)
    requires Extended(b, b', hits, expire)
    ensures BackoffGrows(b, b')
    ensures forall s, p :: hits(s, p) ==> HasBackoff(b', s, p) && b'[s][p] >= expire
  {
    forall s, p | HasBackoff(b, s, p) ensures HasBackoff(b', s, p) && b'[s][p] >= b[s][p] {
      assert ExtendedAt(b, b', s, p, hits(s, p), expire);
    }
    forall s, p | hits(s, p) ensures HasBackoff(b', s, p) && b'[s][p] >= expire {
      assert ExtendedAt(b, b', s, p, hits(s, p), expire);
    }
  }

  lemma ExtendedTwice(b: Backoff, b1: Backoff, b2: Backoff, hits1: (Bitmask, PeerId) -> bool,
                      hits2: (Bitmask, PeerId) -> bool, hits: (Bitmask, PeerId) -> bool, expire: int)
    requires Extended(b, b1, hits1, expire) && Extended(b1, b2, hits2, expire)
    requires forall s, p :: hits(s, p) <==> hits1(s, p) || hits2(s, p)
    ensures Extended(b, b2, hits, expire)
  {
    forall s, p ensures ExtendedAt(b, b2, s, p, hits(s, p), expire) {
      assert ExtendedAt(b, b1, s, p, hits1(s, p), expire) && ExtendedAt(b1, b2, s, p, hits2(s, p), expire);
    }
  }

  lemma NotExtended(b: Backoff, hits: (Bitmask, PeerId) -> bool, expire: int)
    requires forall s, p :: !hits(s, p)
    ensures Extended(b, b, hits, expire)
  {
  }

  /** doAddBackoff. */
  function WithBackoff(backoff: Backoff, slice: Bitmask, p: PeerId, expire: int): (b: Backoff)
    ensures Extended(backoff, b, Row(slice, {p}), expire)
  {
    var known := if slice in backoff then backoff[slice] else map[];
    backoff[slice := if p in known && known[p] >= expire then known else known[p := expire]]
  }

  /** Whether `p` is backing off on some slice at time `now`, as the merged table of a composite says. */
  predicate BackingOffOnAny(backoff: Backoff, slices: seq<Bitmask>, p: PeerId, now: int) {
    exists i :: 0 <= i < |slices| && HasBackoff(backoff, slices[i], p) && now < backoff[slices[i]][p]
  }
}
