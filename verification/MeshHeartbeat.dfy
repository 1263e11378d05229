/** One heartbeat of the mesh of a mask that no composite manages. */
module MeshHeartbeat {
  import opened Basics
  import opened Bitmasks
  import opened Peers
  import opened Selection
  import opened PeerChoice
  import opened CompositeHeartbeat

  /** A mesh under maintenance, the backoff table, and the peers pruned so far. */
  datatype MeshWork = MeshWork(peers: set<PeerId>, backoff: Backoff, pruned: set<PeerId>)

  /** No direct peers, no negative scores, and whoever was pruned is out and backing off: peer by peer. */
  ghost predicate PeerFits(w: MeshWork, b: Bitmask, p: PeerId, x: Context) {
    && (p in w.peers ==> p !in x.direct && p !in w.pruned && x.env.score(p) >= 0.0)
    && (p in w.pruned ==> HasBackoff(w.backoff, b, p) && w.backoff[b][p] >= x.Expire())
  }

  /** Every peer fits, and the backoffs are those at the start, with exactly the pruned peers' extended. */
  ghost predicate MeshGood(w: MeshWork, b: Bitmask, x: Context) {
    Extended(x.table, w.backoff, Row(b, w.pruned), x.Expire()) && forall p :: PeerFits(w, b, p, x)
  }

  function BackOffAll(backoff: Backoff, b: Bitmask, list: seq<PeerId>, expire: int): Backoff {
    if list == [] then backoff
    else WithBackoff(BackOffAll(backoff, b, list[..|list| - 1], expire), b, list[|list| - 1], expire)
  }

  lemma {:induction false} BackOffAllFacts(backoff: Backoff, b: Bitmask, list: seq<PeerId>, expire: int)
    ensures Extended(backoff, BackOffAll(backoff, b, list, expire), Row(b, ToSet(list)), expire)
  {
    if list == [] {
      NotExtended(backoff, Row(b, ToSet(list)), expire);
    } else {
      var init, last := list[..|list| - 1], list[|list| - 1];
      BackOffAllFacts(backoff, b, init, expire);
      assert list == init + [last];
      ExtendedTwice(backoff, BackOffAll(backoff, b, init, expire), BackOffAll(backoff, b, list, expire),
                    Row(b, ToSet(init)), Row(b, {last}), Row(b, ToSet(list)), expire);
    }
  }

  /** prunePeer for several peers. */
  method PrunePeers(w0: MeshWork, b: Bitmask, keep: set<PeerId>, list: seq<PeerId>, x: Context) returns (w: MeshWork)
    requires MeshGood(w0.(peers := keep), b, x) && keep !! ToSet(list)
    ensures MeshGood(w, b, x) && w.peers == keep && w.pruned == w0.pruned + ToSet(list)
  {
    w := MeshWork(keep, BackOffAll(w0.backoff, b, list, x.Expire()), w0.pruned + ToSet(list));
    BackOffAllFacts(w0.backoff, b, list, x.Expire());
    ExtendedTwice(x.table, w0.backoff, w.backoff, Row(b, w0.pruned), Row(b, ToSet(list)), Row(b, w.pruned), x.Expire());
    ExtendedMeans(x.table, w.backoff, Row(b, w.pruned), x.Expire());
    forall p ensures PeerFits(w, b, p, x) {
      assert PeerFits(w0.(peers := keep), b, p, x);
      assert p in w.pruned ==> Row(b, w.pruned)(b, p);
    }
  }

  /** Who may be grafted: not in the mesh, no backoff entry, not direct, score not negative. */
  predicate Graftable(w: MeshWork, b: Bitmask, p: PeerId, x: Context) {
    p !in w.peers && !HasBackoff(w.backoff, b, p) && p !in x.direct && x.env.score(p) >= 0.0
  }

  function GraftTest(w: MeshWork, b: Bitmask, x: Context): PeerId -> bool {
    p => Graftable(w, b, p, x)
  }

  function OutboundTest(w: MeshWork, b: Bitmask, x: Context): PeerId -> bool {
    p => Graftable(w, b, p, x) && p in x.env.outbound
  }

  function BetterTest(w: MeshWork, b: Bitmask, median: real, x: Context): PeerId -> bool {
    p => p !in w.peers && !HasBackoff(w.backoff, b, p) && p !in x.direct && x.env.score(p) > median
  }

  /** Grafts up to `need` candidates that pass a test at least as strict as Graftable. */
  method GraftSome(w0: MeshWork, b: Bitmask, need: nat, f: PeerId -> bool, x: Context)
    returns (w: MeshWork, ghost more: set<PeerId>)
    requires MeshGood(w0, b, x) && need > 0 && forall p :: f(p) ==> Graftable(w0, b, p, x)
    ensures MeshGood(w, b, x) && w == w0.(peers := w0.peers + more) && |w.peers| == |w0.peers| + |more|
    ensures more <= Candidates(x.env, f, b) && |more| == Min(need, |Candidates(x.env, f, b)|)
    ensures forall p :: p in more ==> f(p)
  {
    var list := GetPeers(x.env, b, need, f);
    more := ToSet(list);
    DistinctCount(list);
    forall p | p in more ensures f(p) && Graftable(w0, b, p, x) { CandidatesSubscribe(x.env, f, b, p); }
    w := w0.(peers := w0.peers + ToSet(list));
    DisjointCard(w0.peers, more);
    forall p ensures PeerFits(w, b, p, x) { assert PeerFits(w0, b, p, x); }
  }

  /** The score of a member with more than half of the mesh at or below it and at least half at or above it. */
  ghost predicate IsMedian(peers: set<PeerId>, score: PeerId -> real, median: real) {
    && (exists p :: p in peers && score(p) == median)
    && (exists low :: low <= peers && |low| == |peers| / 2 + 1 && forall p :: p in low ==> score(p) <= median)
    && (exists high :: high <= peers && |high| == |peers| - |peers| / 2 && forall p :: p in high ==> score(p) >= median)
  }

  /** The score in the middle of the mesh, counted from the lowest. */
  method MedianScore(peers: set<PeerId>, score: PeerId -> real) returns (median: real)
    requires |peers| > 1
    ensures IsMedian(peers, score, median)
  {
    var list := ToList(peers);
    var sorted := SortList(list, p => 0.0 - score(p));
    DistinctCount(sorted);
    var m := |peers| / 2;
    median := score(sorted[m]);
    ghost var low, high := ToSet(sorted[..m + 1]), ToSet(sorted[m..]);
    DistinctCount(sorted[..m + 1]);
    DistinctCount(sorted[m..]);
    assert low <= peers && forall p :: p in low ==> score(p) <= median;
    assert high <= peers && forall p :: p in high ==> score(p) >= median;
    assert sorted[m] in peers;
  }

  /** The members whose score is not negative. */
  function Fit(peers: set<PeerId>, x: Context): set<PeerId> {
    set p | p in peers && x.env.score(p) >= 0.0
  }

  /** Step 1: negative scores go. */
  method DropNegativePeers(peers: set<PeerId>, b: Bitmask, x: Context) returns (w: MeshWork)
    requires peers !! x.direct
    ensures MeshGood(w, b, x) && w.peers == Fit(peers, x) && w.pruned == peers - Fit(peers, x)
  {
    var negative := ToList(peers - Fit(peers, x));
    var w0 := MeshWork(peers, x.table, {});
    NotExtended(x.table, Row(b, {}), x.Expire());
    forall p ensures PeerFits(w0.(peers := Fit(peers, x)), b, p, x) { }
    w := PrunePeers(w0, b, Fit(peers, x), negative, x);
  }

  /** A selection of exactly D peers that keeps the outbound quota and, if D has room for both, the best scores. */
  ghost predicate CutTo(kept: set<PeerId>, peers: set<PeerId>, x: Context) {
    && kept <= peers && |kept| == x.q.D
    && |kept * x.env.outbound| >= Min(x.q.Dout, |peers * x.env.outbound|)
    && (x.q.Dscore + x.q.Dout <= x.q.D ==> exists best :: IsBest(best, x.q.Dscore, peers, x.env.score) && best <= kept)
  }

  /** Step 3: a mesh above Dhi is cut to exactly D, keeping the outbound quota and the best scores. */
  method CutMesh(w0: MeshWork, b: Bitmask, x: Context) returns (w: MeshWork)
    requires ValidContext(x) && MeshGood(w0, b, x) && |w0.peers| > x.q.Dhi
    ensures MeshGood(w, b, x) && w.peers <= w0.peers && w.pruned == w0.pruned + (w0.peers - w.peers)
    ensures CutTo(w.peers, w0.peers, x)
  {
    var keep, prune := SelectKept(w0.peers, x.env.score, x.env.outbound, x.q);
    forall p ensures PeerFits(w0.(peers := keep), b, p, x) { assert PeerFits(w0, b, p, x); }
    w := PrunePeers(w0, b, keep, prune, x);
  }

  /** Only grafts happened, and only of candidates. */
  ghost predicate GraftedFrom(w0: MeshWork, w: MeshWork, candidates: set<PeerId>) {
    w == w0.(peers := w.peers) && w0.peers <= w.peers && w.peers - w0.peers <= candidates
  }

  /** Step 2: a mesh below Dlo gets as many candidates as D and their number allow. */
  ghost predicate GrownTo(w0: MeshWork, w: MeshWork, b: Bitmask, x: Context) {
    var candidates := Candidates(x.env, GraftTest(w0, b, x), b);
    if |w0.peers| >= x.q.Dlo then w == w0
    else GraftedFrom(w0, w, candidates) && |w.peers| == |w0.peers| + Min(x.q.D - |w0.peers|, |candidates|)
  }

  method GrowMesh(w0: MeshWork, b: Bitmask, x: Context) returns (w: MeshWork)
    requires ValidContext(x) && MeshGood(w0, b, x)
    ensures MeshGood(w, b, x) && GrownTo(w0, w, b, x)
  {
    w := w0;
    if |w.peers| < x.q.Dlo {
      ghost var more;
      w, more := GraftSome(w, b, x.q.D - |w.peers|, GraftTest(w, b, x), x);
    }
  }

  /** Steps 1 to 3: negative scores go, a mesh below Dlo grows to at most D, a mesh above Dhi is cut to D. */
  method Resize(peers: set<PeerId>, b: Bitmask, x: Context) returns (w: MeshWork, ghost w1: MeshWork)
    requires ValidContext(x) && peers !! x.direct
    ensures MeshGood(w, b, x) && w1.peers == Fit(peers, x) && w1.pruned == peers - Fit(peers, x)
    ensures |Fit(peers, x)| <= x.q.Dhi ==> GrownTo(w1, w, b, x) && |w.peers| <= x.q.Dhi
    ensures |Fit(peers, x)| > x.q.Dhi ==> CutTo(w.peers, Fit(peers, x), x) && w.pruned == peers - w.peers
  {
    w := DropNegativePeers(peers, b, x);
    w1 := w;
    w := GrowMesh(w, b, x);
    if |w.peers| > x.q.Dhi {
      w := CutMesh(w, b, x);
    }
  }

  /** Step 4: outbound candidates are grafted until Dout are outbound or no candidate is left. */
  ghost predicate SuppliedTo(w0: MeshWork, w: MeshWork, b: Bitmask, x: Context) {
    var candidates := Candidates(x.env, OutboundTest(w0, b, x), b);
    && GraftedFrom(w0, w, candidates) && w.peers - w0.peers <= x.env.outbound
    && |w.peers| == |w0.peers| + if |w0.peers| >= x.q.Dlo then Missing(w0.peers, |candidates|, x) else 0
  }

  /** So with at least Dlo members before it, step 4 leaves Dout outbound members, or as many as can be had. */
  lemma SuppliedToMeetsQuota(w0: MeshWork, w: MeshWork, b: Bitmask, x: Context)
    requires SuppliedTo(w0, w, b, x) && |w0.peers| >= x.q.Dlo
    ensures |w.peers * x.env.outbound| == Attainable(w0.peers, |Candidates(x.env, OutboundTest(w0, b, x), b)|, x)
  {
    QuotaReached(w0.peers, w.peers, |Candidates(x.env, OutboundTest(w0, b, x), b)|, x);
  }

  lemma QuotaReached(before: set<PeerId>, after: set<PeerId>, available: nat, x: Context)
    requires before <= after && after - before <= x.env.outbound && |after| == |before| + Missing(before, available, x)
    ensures |after * x.env.outbound| == Attainable(before, available, x)
  {
    var more := after - before;
    assert after == before + more;
    DisjointCard(before, more);
    QuotaAfter(before, after, more, available, x);
  }

  method KeepOutboundPeers(w0: MeshWork, b: Bitmask, x: Context) returns (w: MeshWork)
    requires ValidContext(x) && MeshGood(w0, b, x)
    ensures MeshGood(w, b, x) && SuppliedTo(w0, w, b, x)
  {
    w := w0;
    if |w.peers| >= x.q.Dlo {
      var outbound := |w.peers * x.env.outbound|;
      if outbound < x.q.Dout {
        ghost var more;
        w, more := GraftSome(w, b, x.q.Dout - outbound, OutboundTest(w, b, x), x);
      }
    }
  }

  /** Step 5: when the median score is below the threshold, up to `extra` candidates scoring above it are grafted. */
  ghost predicate ImprovedTo(w0: MeshWork, w: MeshWork, b: Bitmask, x: Context, threshold: real, extra: nat,
                             median: real) {
    var candidates := Candidates(x.env, BetterTest(w0, b, median, x), b);
    && IsMedian(w0.peers, x.env.score, median) && GraftedFrom(w0, w, candidates)
    && (forall p :: p in w.peers - w0.peers ==> x.env.score(p) > median)
    && |w.peers| == |w0.peers| + if median < threshold then Min(extra, |candidates|) else 0
  }

  method Improve(w0: MeshWork, b: Bitmask, x: Context, threshold: real, extra: nat) returns (w: MeshWork, median: real)
    requires MeshGood(w0, b, x) && extra > 0 && |w0.peers| > 1
    ensures MeshGood(w, b, x) && ImprovedTo(w0, w, b, x, threshold, extra, median)
  {
    w := w0;
    median := MedianScore(w.peers, x.env.score);
    if median < threshold {
      MedianNotNegative(w, b, median, x);
      ghost var more;
      w, more := GraftSome(w, b, extra, BetterTest(w, b, median, x), x);
    }
  }

  /** The meshes after steps 1, 3 and 4. */
  datatype MeshStages = MeshStages(fit: MeshWork, sized: MeshWork, supplied: MeshWork)

  /** What opportunistic grafting may do: whether this heartbeat looks for peers above the median score, below
      which threshold, and how many at most. */
  datatype Opportunity = Opportunity(now: bool, threshold: real, extra: nat)

  /** What step `k` did, with steps 2 and 3 as one. */
  ghost predicate MeshStep(k: nat, peers: set<PeerId>, b: Bitmask, x: Context, o: Opportunity, t: MeshStages,
                           w: MeshWork) {
    match k
    case 1 => t.fit.peers == Fit(peers, x) && t.fit.pruned == peers - Fit(peers, x)
    case 3 =>
      if |Fit(peers, x)| <= x.q.Dhi then GrownTo(t.fit, t.sized, b, x)
      else CutTo(t.sized.peers, Fit(peers, x), x) && t.sized.pruned == peers - t.sized.peers
    case 4 => SuppliedTo(t.sized, t.supplied, b, x)
    case 5 =>
      if o.now && |t.supplied.peers| > 1 then exists m :: ImprovedTo(t.supplied, w, b, x, o.threshold, o.extra, m)
      else w == t.supplied
    case _ => true
  }

  /** All five steps were done, in order. The quantifier keeps them folded where they are only passed on. */
  ghost predicate MeshMaintained(peers: set<PeerId>, b: Bitmask, x: Context, o: Opportunity, t: MeshStages,
                                 w: MeshWork) {
    forall k :: MeshStep(k, peers, b, x, o, t, w)
  }

  /** All five steps. */
  method MaintainMesh(peers: set<PeerId>, b: Bitmask, x: Context, o: Opportunity)
    returns (w: MeshWork, ghost stages: MeshStages)
    requires ValidContext(x) && peers !! x.direct && o.extra > 0
    ensures MeshGood(w, b, x) && MeshMaintained(peers, b, x, o, stages, w)
    ensures |w.peers| <= x.q.Dhi + x.q.Dout + o.extra
  {
    ghost var fit, sized;
    w, fit := Resize(peers, b, x);
    sized := w;
    w := KeepOutboundPeers(w, b, x);
    stages := MeshStages(fit, sized, w);
    if o.now && |w.peers| > 1 {
      var median;
      w, median := Improve(w, b, x, o.threshold, o.extra);
    }
  }

  /** All mesh scores being non-negative, so is their median, and so are scores above it. */
  lemma MedianNotNegative(w: MeshWork, b: Bitmask, median: real, x: Context)
    requires MeshGood(w, b, x) && IsMedian(w.peers, x.env.score, median)
    ensures forall p :: BetterTest(w, b, median, x)(p) ==> Graftable(w, b, p, x)
  {
    var p :| p in w.peers && x.env.score(p) == median;
    assert PeerFits(w, b, p, x);
  }
}
