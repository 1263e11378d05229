/** One heartbeat of one composite mesh: drop negative scores, reclassify, graft when short, prune when
    over, look for more same peers, and keep the outbound quota. */
module CompositeHeartbeat {
  import opened Basics
  import opened Bitmasks
  import opened Peers
  import opened Selection
  import opened RouterSpec
  import opened PeerChoice

  /** What stays fixed during a heartbeat, `table` being the backoffs at its start. */
  datatype Context = Context(env: Env, direct: set<PeerId>, q: Params, pruneBackoff: int, table: Backoff) {
    /** When the backoff of a peer pruned in this heartbeat ends. */
    function Expire(): int { env.now + pruneBackoff }
  }

  predicate ValidContext(x: Context) {
    ValidParams(x.q) && x.pruneBackoff > 0
  }

  /** A composite under maintenance, the backoff table, the peers pruned so far, and whether anything changed. */
  datatype Work = Work(c: Composite, backoff: Backoff, pruned: set<PeerId>, changed: bool)

  // ---------------------------------------------------------------- what each step keeps

  /** Exactly classified: same peers subscribe to every slice, brokers to some but not all. */
  ghost predicate Classified(c: Composite, subs: Meshes) {
    && (forall p :: p in c.same ==> SubscribedToAll(subs, c.slices, p))
    && (forall p :: p in c.broker ==> SubscribedToSome(subs, c.slices, p) && !SubscribedToAll(subs, c.slices, p))
  }

  ghost predicate NonNegative(c: Composite, env: Env) {
    forall p :: p in c.Members() ==> env.score(p) >= 0.0
  }

  /** A peer pruned in this heartbeat is out, and cannot come back: it is backing off on a slice it announced. */
  ghost predicate Barred(w: Work, env: Env) {
    forall p :: p in w.pruned ==>
      && p !in w.c.Members()
      && (SubscribedToSome(env.subs, w.c.slices, p) ==> BackingOffOnAny(w.backoff, w.c.slices, p, env.now))
  }

  /** The entries of some peers on the slices they announced. */
  ghost function Announcements(peers: set<PeerId>, slices: seq<Bitmask>, subs: Meshes): (Bitmask, PeerId) -> bool {
    (s, p) => p in peers && s in slices && Subscribed(subs, s, p)
  }

  /** The backoff table is the one at the start, with the backoffs of exactly the pruned peers, on the slices
      they announced, extended to the end of a prune backoff from now. */
  ghost predicate Tabled(w: Work, x: Context) {
    Extended(x.table, w.backoff, Announcements(w.pruned, w.c.slices, x.env.subs), x.Expire())
  }

  /** What every step after reclassification keeps, peer by peer. */
  ghost predicate PeerGood(w: Work, p: PeerId, x: Context) {
    && (p in w.c.same ==> p !in w.c.broker && SubscribedToAll(x.env.subs, w.c.slices, p))
    && (p in w.c.broker ==> SubscribedToSome(x.env.subs, w.c.slices, p) && !SubscribedToAll(x.env.subs, w.c.slices, p))
    && (p in w.c.Members() ==> p !in x.direct && x.env.score(p) >= 0.0)
    && (p in w.pruned ==> p !in w.c.Members())
    && (p in w.pruned && SubscribedToSome(x.env.subs, w.c.slices, p) ==>
          BackingOffOnAny(w.backoff, w.c.slices, p, x.env.now))
  }

  ghost predicate Good(w: Work, x: Context) {
    Tabled(w, x) && forall p :: PeerGood(w, p, x)
  }

  lemma GoodMeans(w: Work, x: Context)
    requires Good(w, x)
    ensures w.c.same !! w.c.broker && w.c.Members() !! x.direct && w.pruned !! w.c.Members()
    ensures Classified(w.c, x.env.subs) && NonNegative(w.c, x.env) && Barred(w, x.env) && Tabled(w, x)
  {
    forall p | p in w.c.Members() || p in w.pruned
      ensures (p in w.c.same ==> p !in w.c.broker) && PeerGood(w, p, x)
    {
      assert PeerGood(w, p, x);
    }
    assert w.c.same !! w.c.broker;
  }

  // ---------------------------------------------------------------- grafting and pruning one peer

  function AddBackoffs(backoff: Backoff, slices: seq<Bitmask>, subs: Meshes, p: PeerId, expire: int): Backoff {
    if slices == [] then backoff else
      var b := AddBackoffs(backoff, slices[..|slices| - 1], subs, p, expire);
      var last := slices[|slices| - 1];
      if Subscribed(subs, last, p) then WithBackoff(b, last, p, expire) else b
  }

  lemma {:induction false} AddBackoffsFacts(backoff: Backoff, slices: seq<Bitmask>, subs: Meshes, p: PeerId,
                                            expire: int)
    ensures Extended(backoff, AddBackoffs(backoff, slices, subs, p, expire), Announcements({p}, slices, subs), expire)
  {
    if slices == [] {
      NotExtended(backoff, Announcements({p}, slices, subs), expire);
    } else {
      var init, last := slices[..|slices| - 1], slices[|slices| - 1];
      AddBackoffsFacts(backoff, init, subs, p, expire);
      var b, b' := AddBackoffs(backoff, init, subs, p, expire), AddBackoffs(backoff, slices, subs, p, expire);
      var hits := if Subscribed(subs, last, p) then Row(last, {p}) else Nothing();
      assert slices == init + [last];
      if !Subscribed(subs, last, p) { NotExtended(b, hits, expire); }
      ExtendedTwice(backoff, b, b', Announcements({p}, init, subs), hits, Announcements({p}, slices, subs), expire);
    }
  }

  /** pruneComposite: out of both sets, and backing off on each slice the peer announced. */
  function PruneOne(w: Work, p: PeerId, x: Context): Work {
    w.(c := w.c.(same := w.c.same - {p}, broker := w.c.broker - {p}),
       backoff := AddBackoffs(w.backoff, w.c.slices, x.env.subs, p, x.Expire()),
       pruned := w.pruned + {p}, changed := true)
  }

  /** graftComposite: into the set its subscriptions call for. */
  function GraftOne(w: Work, p: PeerId, x: Context): Work {
    if SubscribedToAll(x.env.subs, w.c.slices, p) then w.(c := w.c.(same := w.c.same + {p}), changed := true)
    else w.(c := w.c.(broker := w.c.broker + {p}), changed := true)
  }

  lemma PruneOneBars(w: Work, p: PeerId, x: Context)
    requires ValidContext(x) && Barred(w, x.env)
    ensures Barred(PruneOne(w, p, x), x.env)
  {
    var w', slices := PruneOne(w, p, x), w.c.slices;
    AddBackoffsFacts(w.backoff, slices, x.env.subs, p, x.Expire());
    ExtendedMeans(w.backoff, w'.backoff, Announcements({p}, slices, x.env.subs), x.Expire());
    forall r | r in w'.pruned && SubscribedToSome(x.env.subs, slices, r)
      ensures BackingOffOnAny(w'.backoff, slices, r, x.env.now)
    {
      if r == p {
        var i :| 0 <= i < |slices| && Subscribed(x.env.subs, slices[i], p);
        assert Announcements({p}, slices, x.env.subs)(slices[i], p);
      } else {
        var i :| 0 <= i < |slices| && HasBackoff(w.backoff, slices[i], r) && x.env.now < w.backoff[slices[i]][r];
        assert HasBackoff(w'.backoff, slices[i], r);
      }
    }
  }

  lemma PruneOneTabled(w: Work, p: PeerId, x: Context)
    requires Tabled(w, x)
    ensures Tabled(PruneOne(w, p, x), x)
  {
    var w', slices, subs := PruneOne(w, p, x), w.c.slices, x.env.subs;
    AddBackoffsFacts(w.backoff, slices, subs, p, x.Expire());
    ExtendedTwice(x.table, w.backoff, w'.backoff, Announcements(w.pruned, slices, subs),
                  Announcements({p}, slices, subs), Announcements(w'.pruned, slices, subs), x.Expire());
  }

  lemma PruneOneGood(w: Work, p: PeerId, x: Context)
    requires ValidContext(x) && Good(w, x)
    ensures Good(PruneOne(w, p, x), x)
  {
    GoodMeans(w, x);
    PruneOneBars(w, p, x);
    PruneOneTabled(w, p, x);
    forall r ensures PeerGood(PruneOne(w, p, x), r, x) { assert PeerGood(w, r, x); }
  }

  /** A peer outside the composite that may be grafted into it. */
  predicate Fresh(w: Work, p: PeerId, x: Context) {
    && p !in w.c.Members() && p !in x.direct
    && !BackingOffOnAny(w.backoff, w.c.slices, p, x.env.now) && x.env.score(p) >= 0.0
  }

  function FreshTest(w: Work, x: Context): PeerId -> bool {
    p => Fresh(w, p, x)
  }

  lemma GraftOneGood(w: Work, p: PeerId, x: Context)
    requires Good(w, x) && Fresh(w, p, x) && SubscribedToSome(x.env.subs, w.c.slices, p)
    ensures Good(GraftOne(w, p, x), x)
  {
    forall r ensures PeerGood(GraftOne(w, p, x), r, x) { assert PeerGood(w, r, x); }
  }

  // ---------------------------------------------------------------- 1. negative scores, 2. reclassification

  function Negative(c: Composite, env: Env): set<PeerId> {
    set p | p in c.Members() && env.score(p) < 0.0
  }

  /** 1. Peers with a negative score are pruned. */
  method DropNegative(w0: Work, x: Context) returns (w: Work)
    requires ValidContext(x) && Barred(w0, x.env) && Tabled(w0, x)
    ensures w.c.slices == w0.c.slices && Barred(w, x.env) && Tabled(w, x)
    ensures w.c.same == set p | p in w0.c.same && x.env.score(p) >= 0.0
    ensures w.c.broker == set p | p in w0.c.broker && x.env.score(p) >= 0.0
    ensures w.pruned == w0.pruned + Negative(w0.c, x.env)
    ensures !w.changed ==> w == w0
  {
    w := w0;
    var left := w.c.Members();
    while left != {}
      invariant left <= w0.c.Members() && w.c.slices == w0.c.slices && Barred(w, x.env) && Tabled(w, x)
      invariant w.pruned == w0.pruned + (Negative(w0.c, x.env) - left)
      invariant w.c.same == set p | p in w0.c.same && (p in left || x.env.score(p) >= 0.0)
      invariant w.c.broker == set p | p in w0.c.broker && (p in left || x.env.score(p) >= 0.0)
      invariant !w.changed ==> w == w0
      decreases left
    {
      var p :| p in left;
      left := left - {p};
      if x.env.score(p) < 0.0 {
        PruneOneBars(w, p, x);
        PruneOneTabled(w, p, x);
        w := PruneOne(w, p, x);
      }
    }
  }

  /** Subscribed to some slices but not to all. */
  predicate Partly(subs: Meshes, slices: seq<Bitmask>, p: PeerId) {
    SubscribedToSome(subs, slices, p) && !SubscribedToAll(subs, slices, p)
  }

  /** 2. Same peers that lost a slice become brokers, brokers that gained all become same peers, and peers
      left without any slice go. */
  method Reclassify(w0: Work, x: Context) returns (w: Work)
    requires ValidContext(x) && Barred(w0, x.env) && w0.c.same !! w0.c.broker && w0.c.slices != []
    ensures w.c.slices == w0.c.slices && w.backoff == w0.backoff && w.pruned == w0.pruned && Barred(w, x.env)
    ensures w.c.same == set p | p in w0.c.Members() && SubscribedToAll(x.env.subs, w0.c.slices, p)
    ensures w.c.broker == set p | p in w0.c.Members() && SubscribedToSome(x.env.subs, w0.c.slices, p) &&
                                  !SubscribedToAll(x.env.subs, w0.c.slices, p)
    ensures !w.changed ==> w == w0
  {
    var subs, slices := x.env.subs, w0.c.slices;
    w := w0;
    var left := w.c.same;
    while left != {}
      invariant left <= w0.c.same && w == w0.(c := w.c, changed := w.changed) && w.c.slices == slices
      invariant w.c.same == set p | p in w0.c.same && (p in left || SubscribedToAll(subs, slices, p))
      invariant w.c.broker == w0.c.broker + set p | p in w0.c.same - left && Partly(subs, slices, p)
      invariant !w.changed ==> w == w0
      decreases left
    {
      var p :| p in left;
      left := left - {p};
      if !SubscribedToAll(subs, slices, p) {
        w := w.(c := w.c.(same := w.c.same - {p}), changed := true);
        if SubscribedToSome(subs, slices, p) {
          w := w.(c := w.c.(broker := w.c.broker + {p}));
        }
      }
    }
    ghost var w1 := w;
    left := w.c.broker;
    while left != {}
      invariant left <= w1.c.broker && w == w1.(c := w.c, changed := w.changed) && w.c.slices == slices
      invariant w.c.broker == set p | p in w1.c.broker && (p in left || Partly(subs, slices, p))
      invariant w.c.same == w1.c.same + set p | p in w1.c.broker - left && SubscribedToAll(subs, slices, p)
      invariant !w.changed ==> w == w0
      decreases left
    {
      var p :| p in left;
      left := left - {p};
      assert SubscribedToAll(subs, slices, p) ==> Subscribed(subs, slices[0], p);
      if !SubscribedToSome(subs, slices, p) {
        w := w.(c := w.c.(broker := w.c.broker - {p}), changed := true);
      } else if SubscribedToAll(subs, slices, p) {
        w := w.(c := w.c.(broker := w.c.broker - {p}, same := w.c.same + {p}), changed := true);
      }
    }
  }

  /** After both steps the work is in good order. */
  lemma GoodAfterReclassify(w0: Work, w1: Work, w: Work, x: Context)
    requires ValidContext(x) && w0.c.slices != [] && w0.c.Members() !! x.direct
    requires w1.c.slices == w0.c.slices == w.c.slices && Barred(w, x.env) && Tabled(w, x)
    requires w1.c.Members() <= w0.c.Members() && NonNegative(w1.c, x.env)
    requires w.c.same == set p | p in w1.c.Members() && SubscribedToAll(x.env.subs, w1.c.slices, p)
    requires w.c.broker == set p | p in w1.c.Members() && SubscribedToSome(x.env.subs, w1.c.slices, p) &&
                                   !SubscribedToAll(x.env.subs, w1.c.slices, p)
    ensures Good(w, x)
  {
  }

  // ---------------------------------------------------------------- 3. too few peers

  /** Grafting the peers of a list, first to last. */
  function GraftList(w: Work, list: seq<PeerId>, x: Context): Work {
    if list == [] then w else GraftOne(GraftList(w, list[..|list| - 1], x), list[|list| - 1], x)
  }

  lemma {:induction false} GraftListFacts(w0: Work, list: seq<PeerId>, x: Context)
    requires Good(w0, x) && NoDuplicates(list)
    requires forall p :: p in list ==> Fresh(w0, p, x) && SubscribedToSome(x.env.subs, w0.c.slices, p)
    ensures Good(GraftList(w0, list, x), x) && Grown(w0, GraftList(w0, list, x), ToSet(list))
    ensures GraftList(w0, list, x).c.Total() == w0.c.Total() + |list|
  {
    if list != [] {
      var init, last := list[..|list| - 1], list[|list| - 1];
      assert list == init + [last] && last !in init;
      GraftListFacts(w0, init, x);
      var w, more := GraftList(w0, init, x), ToSet(init);
      GrownByOne(w0, w, more, last, x);
      assert ToSet(list) == more + {last};
      assert GraftList(w0, list, x) == GraftOne(w, last, x);
    }
  }

  /** Grafts a list of distinct fresh peers, each of which announced a slice. */
  method GraftAll(w0: Work, list: seq<PeerId>, x: Context) returns (w: Work)
    requires ValidContext(x) && Good(w0, x) && NoDuplicates(list)
    requires forall p :: p in list ==> Fresh(w0, p, x) && SubscribedToSome(x.env.subs, w0.c.slices, p)
    ensures w.c.slices == w0.c.slices
    ensures Good(w, x) && Grown(w0, w, ToSet(list)) && w.c.Total() == w0.c.Total() + |list|
    ensures list == [] ==> w == w0
    ensures list != [] ==> w.changed
  {
    w := w0;
    for i := 0 to |list|
      invariant w == GraftList(w0, list[..i], x)
    {
      assert list[..i + 1][..i] == list[..i];
      w := GraftOne(w, list[i], x);
    }
    assert list[..|list|] == list;
    GraftListFacts(w0, list, x);
    if list != [] { assert GrownAt(w0, w, ToSet(list), list[0]); }
  }

  /** Only grafts happened: the new members are `more`, everything else is as before. */
  ghost predicate Grown(w0: Work, w: Work, more: set<PeerId>) {
    forall p :: GrownAt(w0, w, more, p)
  }

  ghost predicate GrownAt(w0: Work, w: Work, more: set<PeerId>, p: PeerId) {
    && w == w0.(c := w0.c.(same := w.c.same, broker := w.c.broker), changed := w.changed)
    && (p in w.c.Members() <==> p in w0.c.Members() || p in more)
    && (p in w0.c.same ==> p in w.c.same) && (p in w0.c.broker ==> p in w.c.broker)
  }

  lemma GrownByOne(w0: Work, w: Work, more: set<PeerId>, p: PeerId, x: Context)
    requires Good(w, x) && Grown(w0, w, more) && p !in more
    requires Fresh(w0, p, x) && SubscribedToSome(x.env.subs, w0.c.slices, p)
    ensures Good(GraftOne(w, p, x), x) && Grown(w0, GraftOne(w, p, x), more + {p})
    ensures GraftOne(w, p, x).c.Total() == w.c.Total() + 1
  {
    assert GrownAt(w0, w, more, p);
    assert Fresh(w, p, x);
    GraftOneGood(w, p, x);
    GraftedWork(w, p, x);
    var w', more' := GraftOne(w, p, x), more + {p};
    forall r ensures GrownAt(w0, w', more', r) { assert GrownAt(w0, w, more, r); }
  }

  /** The peers that announced at least one of the slices. */
  function Announcers(subs: Meshes, slices: seq<Bitmask>): set<PeerId> {
    if slices == [] then {} else
      Announcers(subs, slices[1..]) + if slices[0] in subs then subs[slices[0]] else {}
  }

  lemma {:induction false} AnnouncersAre(subs: Meshes, slices: seq<Bitmask>, p: PeerId)
    ensures p in Announcers(subs, slices) <==> SubscribedToSome(subs, slices, p)
  {
    if slices != [] {
      AnnouncersAre(subs, slices[1..], p);
      if SubscribedToSome(subs, slices, p) {
        var i :| 0 <= i < |slices| && Subscribed(subs, slices[i], p);
        if i > 0 { assert Subscribed(subs, slices[1..][i - 1], p); }
      }
      if SubscribedToSome(subs, slices[1..], p) {
        var i :| 0 <= i < |slices[1..]| && Subscribed(subs, slices[1..][i], p);
        assert Subscribed(subs, slices[i + 1], p);
      }
    }
  }

  /** Everyone who could be grafted: fresh, mesh-capable, and announcing at least one slice. */
  function Pool(w: Work, x: Context): set<PeerId> {
    set p | p in Announcers(x.env.subs, w.c.slices) && p in x.env.capable && Fresh(w, p, x)
  }

  /** The fresh peers getPeers offers for the composite's whole mask. */
  ghost function SamePool(w: Work, mask: Bitmask, x: Context): set<PeerId> {
    Candidates(x.env, FreshTest(w, x), mask)
  }

  lemma SamePoolWithin(w: Work, mask: Bitmask, x: Context)
    requires w.c.slices == Slices(mask)
    ensures SamePool(w, mask, x) <= Pool(w, x)
  {
    forall p | p in SamePool(w, mask, x) ensures p in Pool(w, x) {
      CandidatesSubscribe(x.env, FreshTest(w, x), mask, p);
      AnnouncersAre(x.env.subs, w.c.slices, p);
    }
  }

  /** Grafts up to `need` candidates for the whole mask. */
  method GraftSame(w0: Work, mask: Bitmask, need: nat, x: Context) returns (w: Work, ghost more: set<PeerId>)
    requires ValidContext(x) && Good(w0, x) && w0.c.slices == Slices(mask) && need > 0
    ensures Grafting(w0, w, more, x) && more <= SamePool(w0, mask, x) <= Pool(w0, x)
    ensures |more| == Min(need, |SamePool(w0, mask, x)|)
  {
    SamePoolWithin(w0, mask, x);
    var list := GetPeers(x.env, mask, need, FreshTest(w0, x));
    more := ToSet(list);
    DistinctCount(list);
    forall p | p in list ensures Fresh(w0, p, x) && SubscribedToSome(x.env.subs, w0.c.slices, p) {
      assert p in more;
      AnnouncersAre(x.env.subs, w0.c.slices, p);
    }
    w := GraftAll(w0, list, x);
  }

  /** Grafts up to `need` announcers of any slice. */
  method GraftBrokers(w0: Work, need: nat, x: Context) returns (w: Work, ghost more: set<PeerId>)
    requires ValidContext(x) && Good(w0, x)
    ensures Grafting(w0, w, more, x) && |more| == Min(need, |Pool(w0, x)|)
  {
    var list := ToList(Pool(w0, x));
    list := Shortlist(list, need);
    more := ToSet(list);
    DistinctCount(list);
    forall p | p in list ensures Fresh(w0, p, x) && SubscribedToSome(x.env.subs, w0.c.slices, p) {
      assert p in more;
      AnnouncersAre(x.env.subs, w0.c.slices, p);
    }
    w := GraftAll(w0, list, x);
  }

  /** Grafts up to `need` peers, candidates for the whole mask first, then any announcer. */
  method GraftUpTo(w0: Work, mask: Bitmask, need: nat, x: Context) returns (w: Work, ghost more: set<PeerId>)
    requires ValidContext(x) && Good(w0, x) && w0.c.slices == Slices(mask) && need > 0
    ensures Grafting(w0, w, more, x) && |more| == Min(need, |Pool(w0, x)|)
    ensures more <= SamePool(w0, mask, x) || SamePool(w0, mask, x) <= more
  {
    w, more := GraftSame(w0, mask, need, x);
    var stillNeed := need - (w.c.Total() - w0.c.Total());
    if stillNeed > 0 {
      ghost var w1, first := w, more;
      w, more := GraftBrokers(w, stillNeed, x);
      GraftingTwice(w0, w1, w, first, more, x);
      TwoRounds(Pool(w0, x), Pool(w1, x), SamePool(w0, mask, x), first, more, need);
      more := first + more;
    } else {
      SubsetCard(more, Pool(w0, x));
    }
  }

  /** Members of the pool were grafted, and nothing else happened. */
  ghost predicate Grafting(w0: Work, w: Work, more: set<PeerId>, x: Context) {
    && Good(w, x) && Grown(w0, w, more) && more <= Pool(w0, x)
    && w.c.slices == w0.c.slices && w.c.Total() == w0.c.Total() + |more| && (w == w0 || w.changed)
  }

  lemma GraftingTwice(w0: Work, w1: Work, w2: Work, first: set<PeerId>, second: set<PeerId>, x: Context)
    requires Grafting(w0, w1, first, x) && Grafting(w1, w2, second, x)
    ensures Grafting(w0, w2, first + second, x)
    ensures Pool(w1, x) == Pool(w0, x) - first && |Pool(w0, x)| == |Pool(w1, x)| + |first|
  {
    PoolShrinks(w0, w1, first, x);
    GrownTwice(w0, w1, w2, first, second);
    DisjointCard(first, second);
    assert GrownAt(w0, w1, first, PeerId(0)) && GrownAt(w1, w2, second, PeerId(0));
  }

  /** What a second round from the rest of a pool comes to when the first took all the same peers there are. */
  lemma TwoRounds(pool: set<PeerId>, rest: set<PeerId>, same: set<PeerId>, first: set<PeerId>, second: set<PeerId>,
                  need: nat)
    requires first <= same <= pool && |first| == Min(need, |same|) < need && rest == pool - first
    requires |pool| == |rest| + |first| && second <= rest && |second| == Min(need - |first|, |rest|)
    ensures first + second <= pool && same <= first + second
    ensures |first + second| == |first| + |second| == Min(need, |pool|)
  {
    SubsetEqual(first, same);
    DisjointCard(first, second);
  }

  /** Step 3: below Dlo the total becomes what D and the pool allow, candidates for the whole mask going first. */
  ghost predicate Replenished(w0: Work, w: Work, more: set<PeerId>, mask: Bitmask, x: Context) {
    && Grown(w0, w, more) && more <= Pool(w0, x)
    && (if w0.c.Total() >= x.q.Dlo then w == w0 else w.c.Total() == Min(x.q.D, w0.c.Total() + |Pool(w0, x)|))
    && (more <= SamePool(w0, mask, x) || SamePool(w0, mask, x) <= more)
  }

  /** 3. Below Dlo: grafts up to D peers in total. */
  method GraftMore(w0: Work, mask: Bitmask, x: Context) returns (w: Work, ghost more: set<PeerId>)
    requires ValidContext(x) && Good(w0, x) && w0.c.slices == Slices(mask)
    ensures w.c.slices == w0.c.slices
    ensures Good(w, x) && Replenished(w0, w, more, mask, x)
    ensures w == w0 || w.changed
  {
    w, more := w0, {};
    if w0.c.Total() < x.q.Dlo {
      w, more := GraftUpTo(w0, mask, x.q.D - w0.c.Total(), x);
    }
  }

  lemma GrownTwice(w0: Work, w1: Work, w2: Work, more1: set<PeerId>, more2: set<PeerId>)
    requires Grown(w0, w1, more1) && Grown(w1, w2, more2)
    ensures Grown(w0, w2, more1 + more2)
  {
    var more := more1 + more2;
    forall p ensures GrownAt(w0, w2, more, p) {
      assert GrownAt(w0, w1, more1, p) && GrownAt(w1, w2, more2, p);
    }
  }

  lemma PoolShrinks(w0: Work, w: Work, more: set<PeerId>, x: Context)
    requires Grown(w0, w, more) && more <= Pool(w0, x)
    ensures Pool(w, x) == Pool(w0, x) - more
    ensures |Pool(w0, x)| == |Pool(w, x)| + |more|
  {
    forall p ensures p in Pool(w, x) <==> p in Pool(w0, x) && p !in more { assert GrownAt(w0, w, more, p); }
    assert Pool(w0, x) == Pool(w, x) + more;
    DisjointCard(Pool(w, x), more);
  }

  /** Shuffle, and keep the first `n`. */
  method Shortlist(list: seq<PeerId>, n: nat) returns (short: seq<PeerId>)
    requires NoDuplicates(list)
    ensures NoDuplicates(short) && ToSet(short) <= ToSet(list) && |short| == Min(n, |list|)
  {
    var a := new PeerId[|list|](i requires 0 <= i < |list| => list[i]);
    assert a[..] == list;
    Shuffle(a, 0);
    PermutationFacts(list, a[..]);
    short := a[..];
    if |short| > n { short := short[..n]; }
  }

  // ---------------------------------------------------------------- 4. too many peers

  /** The work after only prunes: members gone to `pruned`, the sets otherwise as before. */
  ghost predicate Shrunk(w0: Work, w: Work, gone: set<PeerId>) {
    && w.c == w0.c.(same := w0.c.same - gone, broker := w0.c.broker - gone) && w.pruned == w0.pruned + gone
    && (gone == {} ==> w == w0) && (gone != {} ==> w.changed)
  }

  ghost predicate LowestGone(list: seq<PeerId>, gone: set<PeerId>, x: Context) {
    forall g, k :: g in gone && k in list && k !in gone && k !in x.env.outbound ==> x.env.score(k) >= x.env.score(g)
  }

  function PruneAll(w: Work, victims: seq<PeerId>, x: Context): Work {
    if victims == [] then w else PruneOne(PruneAll(w, victims[..|victims| - 1], x), victims[|victims| - 1], x)
  }

  lemma {:induction false} PruneAllFacts(w: Work, victims: seq<PeerId>, x: Context)
    requires ValidContext(x) && Good(w, x)
    ensures Good(PruneAll(w, victims, x), x) && Shrunk(w, PruneAll(w, victims, x), ToSet(victims))
  {
    if victims == [] {
      assert ToSet(victims) == {};
    } else {
      var init, last := victims[..|victims| - 1], victims[|victims| - 1];
      PruneAllFacts(w, init, x);
      PruneOneGood(PruneAll(w, init, x), last, x);
      assert ToSet(victims) == ToSet(init) + {last};
      assert w.c.same - ToSet(init) - {last} == w.c.same - ToSet(victims);
      assert w.c.broker - ToSet(init) - {last} == w.c.broker - ToSet(victims);
    }
  }

  /** The peers of a list that may be pruned. */
  ghost function Prunable(list: seq<PeerId>, x: Context): set<PeerId> {
    ToSet(list) - x.env.outbound
  }

  lemma PrunableStep(list: seq<PeerId>, i: nat, x: Context)
    requires i < |list| && NoDuplicates(list)
    ensures list[i] !in Prunable(list[i + 1..], x)
    ensures Prunable(list[i..], x) == Prunable(list[i + 1..], x) + if list[i] in x.env.outbound then {} else {list[i]}
  {
  }

  lemma TailIsLowest(list: seq<PeerId>, i: nat, x: Context)
    requires i <= |list| && Descending(list, x.env.score)
    ensures LowestGone(list, Prunable(list[i..], x), x)
    ensures Prunable(list[i..], x) <= Prunable(list, x)
  {
  }

  /** Walks a list sorted by falling score from its end and prunes peers that are not outbound, until the excess is
      gone. */
  method PruneFrom(w0: Work, list: seq<PeerId>, excess0: nat, x: Context)
    returns (w: Work, excess: nat, ghost gone: set<PeerId>)
    requires ValidContext(x) && Good(w0, x) && NoDuplicates(list) && Descending(list, x.env.score)
    ensures Good(w, x) && Shrunk(w0, w, gone)
    ensures gone <= Prunable(list, x) && LowestGone(list, gone, x)
    ensures excess0 == excess + |gone| && (excess > 0 ==> gone == Prunable(list, x))
  {
    w, excess := w0, excess0;
    ghost var victims := [];
    var i := |list|;
    while i > 0 && excess > 0
      invariant 0 <= i <= |list| && w == PruneAll(w0, victims, x)
      invariant ToSet(victims) == Prunable(list[i..], x) && |victims| + excess == excess0 && NoDuplicates(victims)
    {
      i := i - 1;
      PrunableStep(list, i, x);
      if list[i] !in x.env.outbound {
        w := PruneOne(w, list[i], x);
        excess := excess - 1;
        assert list[i] !in ToSet(victims);
        victims := AppendVictim(victims, list[i]);
      }
    }
    gone := ToSet(victims);
    DistinctCount(victims);
    PruneAllFacts(w0, victims, x);
    TailIsLowest(list, i, x);
    if excess > 0 { assert list[i..] == list; }
  }

  ghost function AppendVictim(victims: seq<PeerId>, p: PeerId): (v: seq<PeerId>)
    requires NoDuplicates(victims) && p !in ToSet(victims)
    ensures v == victims + [p] && NoDuplicates(v) && ToSet(v) == ToSet(victims) + {p}
    ensures v[..|v| - 1] == victims
  {
    assert forall q :: q in victims <==> q in ToSet(victims);
    victims + [p]
  }

  /** Of a set, the pruned peers are the ones with the lowest scores that are not outbound. */
  ghost predicate LowestOf(peers: set<PeerId>, gone: set<PeerId>, out: set<PeerId>, score: PeerId -> real) {
    forall g, k :: g in peers * gone && k in peers - gone - out ==> score(k) >= score(g)
  }

  /** A composite cut down: outbound peers stay, max(D, outbound) peers are left, no same peer goes while a
      broker that is not outbound remains, and the lowest scores go first. */
  ghost predicate Cut(same: set<PeerId>, broker: set<PeerId>, gone: set<PeerId>, out: set<PeerId>, D: nat,
                      score: PeerId -> real) {
    && gone <= same + broker - out
    && |same - gone| + |broker - gone| == Max(D, |(same + broker) * out|)
    && (same * gone != {} ==> broker - gone <= out)
    && LowestOf(broker, gone, out, score) && LowestOf(same, gone, out, score)
  }

  lemma CutBoth(same: set<PeerId>, broker: set<PeerId>, gone1: set<PeerId>, gone2: set<PeerId>, out: set<PeerId>,
                excess1: nat, excess2: nat, D: nat, score: PeerId -> real)
    requires same !! broker && |same| + |broker| - D == excess1 + |gone1|
    requires gone1 <= broker - out && LowestOf(broker, gone1, out, score) && (excess1 > 0 ==> gone1 == broker - out)
    requires gone2 <= same - out && LowestOf(same, gone2, out, score) && (excess2 > 0 ==> gone2 == same - out)
    requires excess1 == excess2 + |gone2|
    ensures Cut(same, broker, gone1 + gone2, out, D, score)
  {
    var gone := gone1 + gone2;
    PartsOf(same, broker, gone1, gone2, out);
    DisjointCard(gone1, gone2);
    if excess2 > 0 { assert gone == same + broker - out; }
    CutTotal(same, broker, gone, out, excess2, D);
    if gone2 != {} { assert excess1 > 0; }
  }

  lemma PartsOf(same: set<PeerId>, broker: set<PeerId>, gone1: set<PeerId>, gone2: set<PeerId>, out: set<PeerId>)
    requires same !! broker && gone1 <= broker - out && gone2 <= same - out
    ensures var gone := gone1 + gone2;
      && gone1 !! gone2 && broker * gone == gone1 && same * gone == gone2
      && broker - gone == broker - gone1 && same - gone == same - gone2 && gone <= same + broker - out
  {
  }

  lemma CutFromParts(same: set<PeerId>, broker: set<PeerId>, gone1: set<PeerId>, gone2: set<PeerId>, out: set<PeerId>,
                     excess1: nat, excess2: nat, D: nat, score: PeerId -> real)
    requires same !! broker && |same| + |broker| - D == excess1 + |gone1|
    requires gone1 <= broker - out && LowestOf(broker, gone1, out, score) && (excess1 > 0 ==> gone1 == broker - out)
    requires var peers := if excess1 > 0 then same else {};
      gone2 <= peers - out && LowestOf(peers, gone2, out, score) && (excess2 > 0 ==> gone2 == peers - out)
    requires excess1 == excess2 + |gone2|
    ensures Cut(same, broker, gone1 + gone2, out, D, score)
  {
    if excess1 == 0 { assert gone2 == {}; }
    CutBoth(same, broker, gone1, gone2, out, excess1, excess2, D, score);
  }

  /** Step 4: above Dhi the composite is cut, else it stays. */
  ghost predicate Trimmed(w0: Work, w: Work, gone: set<PeerId>, x: Context) {
    && Shrunk(w0, w, gone)
    && (w0.c.Total() <= x.q.Dhi ==> w == w0)
    && (w0.c.Total() > x.q.Dhi ==> Cut(w0.c.same, w0.c.broker, gone, x.env.outbound, x.q.D, x.env.score))
  }

  /** 4. Above Dhi: down to D, brokers first and lowest scores first, but outbound peers always stay. */
  method PruneExcess(w0: Work, x: Context) returns (w: Work, ghost gone: set<PeerId>)
    requires ValidContext(x) && Good(w0, x)
    ensures Good(w, x) && Trimmed(w0, w, gone, x)
  {
    if w0.c.Total() <= x.q.Dhi {
      return w0, {};
    }
    w, gone := PruneDown(w0, x);
  }

  /** Brokers first, then same peers. */
  method PruneDown(w0: Work, x: Context) returns (w: Work, ghost gone: set<PeerId>)
    requires ValidContext(x) && Good(w0, x) && w0.c.Total() > x.q.D
    ensures Good(w, x) && Shrunk(w0, w, gone) && Cut(w0.c.same, w0.c.broker, gone, x.env.outbound, x.q.D, x.env.score)
  {
    var excess;
    w, excess, gone := PruneSet(w0, w0.c.broker, w0.c.Total() - x.q.D, x);
    ghost var w1, gone1, excess1 := w, gone, excess;
    w, excess, gone := PruneSet(w, if excess > 0 then w.c.same else {}, excess, x);
    SameUntouched(w0, w1, gone1, x);
    ShrunkTwice(w0, w1, w, gone1, gone);
    CutFromParts(w0.c.same, w0.c.broker, gone1, gone, x.env.outbound, excess1, excess, x.q.D, x.env.score);
    gone := gone1 + gone;
  }

  method PruneSet(w0: Work, peers: set<PeerId>, excess0: nat, x: Context)
    returns (w: Work, excess: nat, ghost gone: set<PeerId>)
    requires ValidContext(x) && Good(w0, x)
    ensures Good(w, x) && Shrunk(w0, w, gone)
    ensures gone <= peers - x.env.outbound && LowestOf(peers, gone, x.env.outbound, x.env.score)
    ensures excess0 == excess + |gone| && (excess > 0 ==> gone == peers - x.env.outbound)
  {
    var list := ToList(peers);
    list := SortList(list, x.env.score);
    w, excess, gone := PruneFrom(w0, list, excess0, x);
  }

  lemma SameUntouched(w0: Work, w1: Work, gone: set<PeerId>, x: Context)
    requires Good(w0, x) && Shrunk(w0, w1, gone) && gone <= w0.c.broker
    ensures w1.c.same == w0.c.same && w0.c.same !! w0.c.broker
  {
    GoodDisjoint(w0, x);
  }

  lemma ShrunkTwice(w0: Work, w1: Work, w2: Work, gone1: set<PeerId>, gone2: set<PeerId>)
    requires Shrunk(w0, w1, gone1) && Shrunk(w1, w2, gone2)
    ensures Shrunk(w0, w2, gone1 + gone2)
  {
  }

  lemma CutCount(all: set<PeerId>, gone: set<PeerId>, out: set<PeerId>, excess: nat, D: nat)
    requires gone <= all - out && |all| - D == excess + |gone| && (excess > 0 ==> gone == all - out)
    ensures |all - gone| == Max(D, |all * out|)
  {
    var stay := all - gone;
    assert all == stay + gone;
    assert all * out <= stay;
    SubsetCard(all * out, stay);
    if excess > 0 { assert stay == all * out; }
  }

  /** Pruning down to D while every outbound peer stays leaves max(D, outbound) peers. */
  lemma CutTotal(same: set<PeerId>, broker: set<PeerId>, gone: set<PeerId>, out: set<PeerId>, excess: nat, D: nat)
    requires same !! broker && gone <= same + broker - out
    requires |same| + |broker| - D == excess + |gone| && (excess > 0 ==> gone == same + broker - out)
    ensures |same - gone| + |broker - gone| == Max(D, |(same + broker) * out|)
  {
    DisjointCard(same, broker);
    DisjointCard(same - gone, broker - gone);
    assert (same - gone) + (broker - gone) == (same + broker) - gone;
    CutCount(same + broker, gone, out, excess, D);
  }

  lemma GoodDisjoint(w: Work, x: Context)
    requires Good(w, x)
    ensures w.c.same !! w.c.broker
  {
    forall p | p in w.c.same ensures p !in w.c.broker { assert PeerGood(w, p, x); }
  }

  /** Shuffle, then sort by falling score. */
  method SortList(list: seq<PeerId>, score: PeerId -> real) returns (sorted: seq<PeerId>)
    requires NoDuplicates(list)
    ensures NoDuplicates(sorted) && ToSet(sorted) == ToSet(list) && Descending(sorted, score)
  {
    var a := new PeerId[|list|](i requires 0 <= i < |list| => list[i]);
    assert a[..] == list;
    Shuffle(a, 0);
    SortByScore(a, score);
    PermutationFacts(list, a[..]);
    sorted := a[..];
  }

  // ---------------------------------------------------------------- 5. too few same peers

  const WORST: real := 1000000000000000000.0

  /** A broker step 5 may displace. */
  predicate Displaceable(c: Composite, b: PeerId, x: Context) {
    b in c.broker && b !in x.env.outbound && x.env.score(b) < WORST
  }

  datatype Choice = Nobody | Chosen(peer: PeerId)

  /** The displaceable broker with the lowest score, if there is one. */
  method WorstBroker(c: Composite, x: Context) returns (worst: Choice)
    ensures worst.Nobody? ==> forall b :: !Displaceable(c, b, x)
    ensures worst.Chosen? ==> Displaceable(c, worst.peer, x)
    ensures worst.Chosen? ==> forall b :: Displaceable(c, b, x) ==> x.env.score(worst.peer) <= x.env.score(b)
  {
    worst := Nobody;
    var worstScore := WORST;
    var left := c.broker;
    while left != {}
      invariant left <= c.broker && worstScore <= WORST
      invariant worst.Nobody? ==> worstScore == WORST
      invariant worst.Chosen? ==> Displaceable(c, worst.peer, x) && worstScore == x.env.score(worst.peer)
      invariant forall b :: Displaceable(c, b, x) && b !in left ==> worstScore <= x.env.score(b) && worst.Chosen?
      decreases left
    {
      var b :| b in left;
      left := left - {b};
      if b !in x.env.outbound && x.env.score(b) < worstScore {
        worst, worstScore := Chosen(b), x.env.score(b);
      }
    }
  }

  /** Pruning one peer, or grafting one, leaves every other fresh peer fresh. */
  lemma StaysFresh(w: Work, p: PeerId, q: PeerId, x: Context)
    requires Fresh(w, q, x) && p != q
    ensures Fresh(PruneOne(w, p, x), q, x) && Fresh(GraftOne(w, p, x), q, x)
  {
    var w', slices := PruneOne(w, p, x), w.c.slices;
    var hits := Announcements({p}, slices, x.env.subs);
    AddBackoffsFacts(w.backoff, slices, x.env.subs, p, x.Expire());
    forall i | 0 <= i < |slices| && HasBackoff(w'.backoff, slices[i], q) ensures w'.backoff[slices[i]][q] <= x.env.now {
      assert ExtendedAt(w.backoff, w'.backoff, slices[i], q, hits(slices[i], q), x.Expire());
    }
  }

  /** What the search for same peers keeps: same and outbound members, and the size unless nobody can be displaced. */
  ghost predicate Searched(w0: Work, w: Work, x: Context) {
    && w.c.slices == w0.c.slices && w0.c.same <= w.c.same && w0.c.Members() * x.env.outbound <= w.c.Members()
    && Bounded(w0, w, x) && (w == w0 || w.changed)
  }

  ghost predicate Bounded(w0: Work, w: Work, x: Context) {
    w.c.Total() <= Max(x.q.D, w0.c.Total()) || forall b :: !Displaceable(w.c, b, x)
  }

  lemma GraftedWork(w: Work, p: PeerId, x: Context)
    requires Good(w, x) && Fresh(w, p, x)
    ensures GraftOne(w, p, x).c.Total() == w.c.Total() + 1
    ensures w.c.same <= GraftOne(w, p, x).c.same && w.c.Members() <= GraftOne(w, p, x).c.Members()
  {
  }

  /** Members, pruned peers and `more` newcomers add up: whoever left was pruned, and was not outbound. */
  ghost predicate Accounted(w0: Work, w: Work, more: set<PeerId>, x: Context) {
    && w.c.Members() + w.pruned == w0.c.Members() + w0.pruned + more
    && w0.pruned <= w.pruned && (w.pruned - w0.pruned) !! x.env.outbound
  }

  lemma AccountedTwice(w0: Work, w1: Work, w2: Work, more1: set<PeerId>, more2: set<PeerId>, x: Context)
    requires Accounted(w0, w1, more1, x) && Accounted(w1, w2, more2, x)
    ensures Accounted(w0, w2, more1 + more2, x)
  {
  }

  /** What grafting a fresh peer does for the search. */
  lemma GraftStep(w: Work, p: PeerId, x: Context)
    requires Good(w, x) && Fresh(w, p, x) && SubscribedToSome(x.env.subs, w.c.slices, p)
    ensures var w' := GraftOne(w, p, x);
      && Good(w', x) && Accounted(w, w', {p}, x)
      && w'.c.same == w.c.same + (if SubscribedToAll(x.env.subs, w.c.slices, p) then {p} else {})
      && w'.c.broker <= w.c.broker + {p}
    ensures forall q :: q != p && Fresh(w, q, x) ==> Fresh(GraftOne(w, p, x), q, x)
  {
    GraftOneGood(w, p, x);
  }

  /** What displacing a broker does for it. */
  lemma DisplaceStep(w: Work, b: PeerId, x: Context)
    requires ValidContext(x) && Good(w, x) && Displaceable(w.c, b, x)
    ensures var w' := PruneOne(w, b, x);
      && Good(w', x) && Accounted(w, w', {}, x) && w'.c.Total() == w.c.Total() - 1
      && w'.c.same == w.c.same && w'.c.broker == w.c.broker - {b}
      && w.c.Members() * x.env.outbound <= w'.c.Members()
    ensures forall q :: Fresh(w, q, x) ==> Fresh(PruneOne(w, b, x), q, x)
  {
    PruneOneGood(w, b, x);
    assert PeerGood(w, b, x);
    var w' := PruneOne(w, b, x);
    assert w'.c.same == w.c.same;
    assert w'.c.Members() + w'.pruned == w.c.Members() + w.pruned;
    forall q | Fresh(w, q, x) ensures Fresh(w', q, x) { StaysFresh(w, b, q, x); }
  }

  lemma StillBounded(w0: Work, w1: Work, w2: Work, w3: Work, p: PeerId, b: PeerId, x: Context)
    requires Bounded(w0, w1, x) && w3.c.Total() == w1.c.Total()
    requires w2.c.broker <= w1.c.broker + {p} && Displaceable(w2.c, b, x) && w3.c.broker == w2.c.broker - {b}
    ensures Bounded(w0, w3, x)
  {
    if forall r :: !Displaceable(w1.c, r, x) {
      assert !Displaceable(w1.c, b, x);
      assert b == p;
      forall r ensures !Displaceable(w3.c, r, x) { assert !Displaceable(w1.c, r, x); }
    }
  }

  /** Grafts one peer and, if that makes more than D, displaces the worst broker. */
  method GraftAndDisplace(w0: Work, w1: Work, p: PeerId, x: Context) returns (w: Work)
    requires ValidContext(x) && Good(w1, x) && Searched(w0, w1, x)
    requires Fresh(w1, p, x) && SubscribedToSome(x.env.subs, w1.c.slices, p)
    ensures Good(w, x) && Searched(w0, w, x)
    ensures w.c.same == w1.c.same + if SubscribedToAll(x.env.subs, w1.c.slices, p) then {p} else {}
    ensures forall q :: q != p && Fresh(w1, q, x) ==> Fresh(w, q, x)
    ensures Accounted(w1, w, {p}, x)
  {
    GraftStep(w1, p, x);
    GraftedWork(w1, p, x);
    w := GraftOne(w1, p, x);
    if w.c.Total() > x.q.D && |w.c.broker| > 0 {
      w := Displace(w0, w1, w, p, x);
    } else if w.c.Total() > x.q.D {
      assert w.c.broker == {};
    }
  }

  method Displace(ghost w0: Work, ghost w1: Work, w2: Work, ghost p: PeerId, x: Context) returns (w: Work)
    requires ValidContext(x) && Good(w2, x) && Bounded(w0, w1, x)
    requires w2.c.Total() == w1.c.Total() + 1 && w2.c.broker <= w1.c.broker + {p} && w2.changed
    ensures Good(w, x) && Bounded(w0, w, x) && w.changed && Accounted(w2, w, {}, x)
    ensures w.c.same == w2.c.same && w.c.slices == w2.c.slices && w2.c.Members() * x.env.outbound <= w.c.Members()
    ensures forall q :: Fresh(w2, q, x) ==> Fresh(w, q, x)
  {
    var worst := WorstBroker(w2.c, x);
    if worst.Nobody? {
      return w2;
    }
    DisplaceStep(w2, worst.peer, x);
    w := PruneOne(w2, worst.peer, x);
    StillBounded(w0, w1, w2, w, p, worst.peer, x);
  }

  /** The peers of a set that subscribe to every slice. */
  ghost function Full(peers: set<PeerId>, slices: seq<Bitmask>, x: Context): set<PeerId> {
    set p | p in peers && SubscribedToAll(x.env.subs, slices, p)
  }

  /** Step 5: candidates for the whole mask are tried, up to Dsame same peers in all; those with all slices stay as
      same peers, no same or outbound member is lost, and everyone else who goes is pruned. Beyond D the composite
      grows only if nobody can be displaced. */
  ghost predicate Sought(w0: Work, w: Work, tried: set<PeerId>, mask: Bitmask, x: Context) {
    && Searched(w0, w, x)
    && (if |w0.c.same| >= x.q.DsameLo then tried == {} && w == w0
        else tried <= SamePool(w0, mask, x) && |tried| == Min(x.q.Dsame - |w0.c.same|, |SamePool(w0, mask, x)|))
    && w.c.same == w0.c.same + Full(tried, w0.c.slices, x) && Accounted(w0, w, tried, x)
  }

  /** 5. Fewer than DsameLo same peers: grafts candidates for the whole mask, displacing brokers beyond D. */
  method SeekSame(w0: Work, mask: Bitmask, x: Context) returns (w: Work, ghost tried: set<PeerId>)
    requires ValidContext(x) && Good(w0, x) && w0.c.slices == Slices(mask)
    ensures Good(w, x) && Sought(w0, w, tried, mask, x)
  {
    if |w0.c.same| < x.q.DsameLo {
      w, tried := SeekAmong(w0, mask, x);
    } else {
      w, tried := w0, {};
      NobodyTried(w0, x);
    }
  }

  method SeekAmong(w0: Work, mask: Bitmask, x: Context) returns (w: Work, ghost tried: set<PeerId>)
    requires ValidContext(x) && Good(w0, x) && w0.c.slices == Slices(mask) && |w0.c.same| < x.q.DsameLo
    ensures Good(w, x) && Sought(w0, w, tried, mask, x)
  {
    var list := FindSame(w0, mask, x.q.Dsame - |w0.c.same|, x);
    w := TryEach(w0, list, x);
    tried := ToSet(list);
  }

  lemma NobodyTried(w: Work, x: Context)
    ensures w.c.same == w.c.same + Full({}, w.c.slices, x) && Accounted(w, w, {}, x) && Searched(w, w, x)
  {
    assert Full({}, w.c.slices, x) == {};
  }

  method FindSame(w0: Work, mask: Bitmask, need: nat, x: Context) returns (list: seq<PeerId>)
    requires w0.c.slices == Slices(mask) && need > 0
    ensures NoDuplicates(list) && ToSet(list) <= SamePool(w0, mask, x)
    ensures |ToSet(list)| == Min(need, |SamePool(w0, mask, x)|)
    ensures forall j :: 0 <= j < |list| ==> Fresh(w0, list[j], x) && SubscribedToSome(x.env.subs, w0.c.slices, list[j])
  {
    list := GetPeers(x.env, mask, need, FreshTest(w0, x));
    DistinctCount(list);
    forall j | 0 <= j < |list| ensures Fresh(w0, list[j], x) && SubscribedToSome(x.env.subs, w0.c.slices, list[j]) {
      assert list[j] in ToSet(list);
      CandidatesSubscribe(x.env, FreshTest(w0, x), mask, list[j]);
    }
  }

  method TryEach(w0: Work, list: seq<PeerId>, x: Context) returns (w: Work)
    requires ValidContext(x) && Good(w0, x) && NoDuplicates(list)
    requires forall j :: 0 <= j < |list| ==> Fresh(w0, list[j], x) && SubscribedToSome(x.env.subs, w0.c.slices, list[j])
    ensures Good(w, x) && Searched(w0, w, x) && w.c.same == w0.c.same + Full(ToSet(list), w0.c.slices, x)
    ensures Accounted(w0, w, ToSet(list), x)
  {
    w := w0;
    ghost var full: set<PeerId> := {};
    for i := 0 to |list|
      invariant Good(w, x) && Searched(w0, w, x) && w.c.same == w0.c.same + full
      invariant full == Full(ToSet(list[..i]), w0.c.slices, x) && Accounted(w0, w, ToSet(list[..i]), x)
      invariant forall j :: i <= j < |list| ==> Fresh(w, list[j], x)
    {
      FullGrows(list, i, w0.c.slices, x);
      var p := list[i];
      ghost var one := if SubscribedToAll(x.env.subs, w0.c.slices, p) then {p} else {};
      ghost var w1 := w;
      w := GraftAndDisplace(w0, w, p, x);
      AccountedTwice(w0, w1, w, ToSet(list[..i]), {p}, x);
      UnionAssociates(w0.c.same, full, one);
      full := full + one;
    }
    assert list[..|list|] == list;
  }

  lemma UnionAssociates(a: set<PeerId>, b: set<PeerId>, c: set<PeerId>)
    ensures a + b + c == a + (b + c)
  {
  }

  lemma FullGrows(list: seq<PeerId>, i: nat, slices: seq<Bitmask>, x: Context)
    requires i < |list|
    ensures ToSet(list[..i + 1]) == ToSet(list[..i]) + {list[i]}
    ensures Full(ToSet(list[..i + 1]), slices, x) ==
      Full(ToSet(list[..i]), slices, x) + if SubscribedToAll(x.env.subs, slices, list[i]) then {list[i]} else {}
  {
    assert list[..i + 1] == list[..i] + [list[i]];
  }

  // ---------------------------------------------------------------- 6. the outbound quota

  function OutTest(w: Work, x: Context): PeerId -> bool {
    p => Fresh(w, p, x) && p in x.env.outbound
  }

  /** Step 6: as many outbound candidates as are missing and available are grafted, and nothing else. */
  ghost predicate Supplied(w0: Work, w: Work, more: set<PeerId>, mask: Bitmask, x: Context) {
    var candidates := Candidates(x.env, OutTest(w0, x), mask);
    && Grown(w0, w, more) && more <= x.env.outbound && more <= candidates
    && |more| == if w0.c.Total() >= x.q.Dlo then Missing(w0.c.Members(), |candidates|, x) else 0
  }

  /** How many outbound peers a mesh lacks, as far as there are any. */
  function Missing(peers: set<PeerId>, available: nat, x: Context): nat {
    var have := |peers * x.env.outbound|;
    if have < x.q.Dout then Min(x.q.Dout - have, available) else 0
  }

  /** The outbound members after that: Dout, or as many as can be had, and more only if there already were more. */
  function Attainable(peers: set<PeerId>, available: nat, x: Context): nat {
    var have := |peers * x.env.outbound|;
    if have < x.q.Dout then Min(x.q.Dout, have + available) else have
  }

  /** So with at least Dlo members before it, step 6 leaves Dout outbound members, or as many as can be had. */
  lemma SuppliedMeetsQuota(w0: Work, w: Work, more: set<PeerId>, mask: Bitmask, x: Context)
    requires Supplied(w0, w, more, mask, x) && w0.c.Total() >= x.q.Dlo
    ensures |w.c.Members() * x.env.outbound| == Attainable(w0.c.Members(), |Candidates(x.env, OutTest(w0, x), mask)|, x)
  {
    GrownMembers(w0, w, more);
    forall p | p in more ensures p !in w0.c.Members() { CandidatesSubscribe(x.env, OutTest(w0, x), mask, p); }
    QuotaAfter(w0.c.Members(), w.c.Members(), more, |Candidates(x.env, OutTest(w0, x), mask)|, x);
  }

  lemma GrownMembers(w0: Work, w: Work, more: set<PeerId>)
    requires Grown(w0, w, more)
    ensures w.c.Members() == w0.c.Members() + more
  {
    forall p ensures p in w.c.Members() <==> p in w0.c.Members() || p in more { assert GrownAt(w0, w, more, p); }
  }

  lemma QuotaAfter(before: set<PeerId>, after: set<PeerId>, more: set<PeerId>, available: nat, x: Context)
    requires after == before + more && before !! more && more <= x.env.outbound
    requires |more| == Missing(before, available, x)
    ensures |after * x.env.outbound| == Attainable(before, available, x)
  {
    assert after * x.env.outbound == (before * x.env.outbound) + more;
    DisjointCard(before * x.env.outbound, more);
  }

  /** 6. With at least Dlo peers, outbound candidates are grafted until Dout are outbound or none is left. */
  method KeepOutbound(w0: Work, mask: Bitmask, x: Context) returns (w: Work, ghost more: set<PeerId>)
    requires ValidContext(x) && Good(w0, x) && w0.c.slices == Slices(mask)
    ensures w.c.slices == w0.c.slices
    ensures Good(w, x) && Supplied(w0, w, more, mask, x) && (w == w0 || w.changed)
  {
    w, more := w0, {};
    if w.c.Total() >= x.q.Dlo {
      var outbound := |w.c.Members() * x.env.outbound|;
      if outbound < x.q.Dout {
        var list := GetPeers(x.env, mask, x.q.Dout - outbound, OutTest(w0, x));
        more := ToSet(list);
        DistinctCount(list);
        forall p | p in list ensures OutTest(w0, x)(p) && SubscribedToSome(x.env.subs, w0.c.slices, p) {
          assert p in more;
          CandidatesSubscribe(x.env, OutTest(w0, x), mask, p);
        }
        w := GraftAll(w0, list, x);
      }
    }
  }

  // ---------------------------------------------------------------- the six steps together

  /** Steps 1 and 2 keep exactly the members with a score that is not negative and a slice, classified anew. */
  ghost predicate Settled(c: Composite, w: Work, x: Context) {
    && w.c.same == (set p | p in c.Members() && x.env.score(p) >= 0.0 && SubscribedToAll(x.env.subs, c.slices, p))
    && w.c.broker == (set p | p in c.Members() && x.env.score(p) >= 0.0 && SubscribedToSome(x.env.subs, c.slices, p) &&
                               !SubscribedToAll(x.env.subs, c.slices, p))
    && w.pruned == Negative(c, x.env)
  }

  /** Steps 1 and 2 bring any composite into the shape the later steps keep. */
  method Settle(c: Composite, mask: Bitmask, x: Context) returns (w: Work)
    requires ValidContext(x) && c.slices == Slices(mask) && c.same !! c.broker && c.Members() !! x.direct
    ensures Good(w, x) && w.c.slices == c.slices && (!w.changed ==> w == Work(c, x.table, {}, false))
    ensures Settled(c, w, x)
  {
    ghost var w0 := Work(c, x.table, {}, false);
    SlicesDistinct(mask);
    NotExtended(x.table, Announcements({}, c.slices, x.env.subs), x.Expire());
    w := DropNegative(Work(c, x.table, {}, false), x);
    ghost var w1 := w;
    w := Reclassify(w, x);
    GoodAfterReclassify(w0, w1, w, x);
  }

  /** The works after the four balancing steps, and who came, went and was tried in them. */
  datatype Stages = Stages(grown: Work, more: set<PeerId>, cut: Work, gone: set<PeerId>,
                           sought: Work, tried: set<PeerId>, added: set<PeerId>)

  /** What step `k` did. */
  ghost predicate StepDone(k: nat, w0: Work, w: Work, t: Stages, mask: Bitmask, x: Context) {
    match k
    case 3 => Replenished(w0, t.grown, t.more, mask, x)
    case 4 => Trimmed(t.grown, t.cut, t.gone, x)
    case 5 => Sought(t.cut, t.sought, t.tried, mask, x)
    case 6 => Supplied(t.sought, w, t.added, mask, x)
    case _ => true
  }

  /** Steps 3 to 6 were done, in this order. The quantifier keeps the steps folded where they are only passed on. */
  ghost predicate Balanced(w0: Work, w: Work, t: Stages, mask: Bitmask, x: Context) {
    forall k :: StepDone(k, w0, w, t, mask, x)
  }

  /** Steps 3 to 6, in this order, keep that shape. */
  method Balance(w0: Work, mask: Bitmask, x: Context) returns (w: Work, ghost t: Stages)
    requires ValidContext(x) && Good(w0, x) && w0.c.slices == Slices(mask)
    ensures Good(w, x) && w.c.slices == w0.c.slices && (w == w0 || w.changed)
    ensures Balanced(w0, w, t, mask, x)
  {
    ghost var more, gone, tried, added;
    w, more := GraftMore(w0, mask, x);
    ghost var w1 := w;
    w, gone := PruneExcess(w, x);
    ghost var w2 := w;
    w, tried := SeekSame(w, mask, x);
    ghost var w3 := w;
    w, added := KeepOutbound(w, mask, x);
    t := Stages(w1, more, w2, gone, w3, tried, added);
  }

  /** One heartbeat of one composite. Afterwards it is exactly classified, has no negative scores and no direct
      peers, nobody pruned in it is back, the backoffs of exactly the pruned peers are extended, and an unset flag
      means nothing changed. */
  method Maintain(c: Composite, mask: Bitmask, x: Context) returns (w: Work, ghost settled: Work, ghost t: Stages)
    requires ValidContext(x) && c.slices == Slices(mask) && c.same !! c.broker && c.Members() !! x.direct
    ensures w.c.slices == c.slices && w.c.same !! w.c.broker && w.c.Members() !! x.direct && w.pruned !! w.c.Members()
    ensures Classified(w.c, x.env.subs) && NonNegative(w.c, x.env)
    ensures Tabled(w, x) && (!w.changed ==> w.c == c && w.backoff == x.table)
    ensures Settled(c, settled, x) && Balanced(settled, w, t, mask, x)
  {
    w := Settle(c, mask, x);
    settled := w;
    w, t := Balance(w, mask, x);
    GoodMeans(w, x);
  }
}
