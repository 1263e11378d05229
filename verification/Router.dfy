/** The BlossomSub router: its mesh tables as mutable fields and the operations that change them. Each operation
    is proved to take the tables through the step that RouterSpec describes, so every run keeps the invariant. */
module Router {
  import opened Basics
  import opened Bitmasks
  import opened Peers
  import opened Selection
  import opened RouterSpec
  import opened PeerChoice
  import opened CompositeHeartbeat
  import opened MeshHeartbeat

  /** Times are in nanoseconds. */
  const HEARTBEAT_INTERVAL := 700_000_000
  const CLEAR_TICKS := 15
  const TWO_TO_THE_64 := 0x1_0000_0000_0000_0000

  class BlossomSubRouter {
    const direct: set<PeerId>
    const q: Params
    const pruneBackoff: int
    const unsubscribeBackoff: int
    const opportunisticGraftTicks: nat

    var mesh: Meshes
    var fanout: Meshes
    var composites: Composites
    var sliceToComposite: Index
    var backoff: Backoff
    var lastPublished: map<Bitmask, int>
    var heartbeatTicks: nat

    ghost function View(): State
      reads this
    {
      State(mesh, fanout, composites, sliceToComposite)
    }

    ghost predicate Valid()
      reads this
    {
      && Inv(View(), direct) && ValidParams(q) && pruneBackoff > 0 && opportunisticGraftTicks > 0
      && fanout.Keys <= lastPublished.Keys
    }

    /** What a heartbeat works with, but for the backoffs. */
    ghost function Setting(env: Env): Context {
      Context(env, direct, q, pruneBackoff, map[])
    }

    constructor (direct: set<PeerId>, q: Params, pruneBackoff: int, unsubscribeBackoff: int,
                 opportunisticGraftTicks: nat)
      requires ValidParams(q) && pruneBackoff > 0 && opportunisticGraftTicks > 0
      ensures Valid() && View() == Empty && backoff == map[] && heartbeatTicks == 0
      ensures this.direct == direct && this.q == q
    {
      this.direct, this.q, this.pruneBackoff, this.unsubscribeBackoff := direct, q, pruneBackoff, unsubscribeBackoff;
      this.opportunisticGraftTicks, heartbeatTicks := opportunisticGraftTicks, 0;
      mesh, fanout, composites, sliceToComposite, backoff := map[], map[], map[], map[], map[];
      lastPublished := map[];
    }

    // -------------------------------------------------------------- backoff

    /** addBackoff for several peers of one mask. */
    method AddBackoff(peers: set<PeerId>, b: Bitmask, expire: int)
      modifies this`backoff
      ensures Extended(old(backoff), backoff, Row(b, peers), expire)
    {
      var left := peers;
      NotExtended(backoff, Row(b, {}), expire);
      assert peers - left == {};
      while left != {}
        invariant left <= peers && Extended(old(backoff), backoff, Row(b, peers - left), expire)
        decreases left
      {
        var p :| p in left;
        ghost var before := backoff;
        backoff := WithBackoff(backoff, b, p, expire);
        ExtendedTwice(old(backoff), before, backoff, Row(b, peers - left), Row(b, {p}), Row(b, peers - (left - {p})),
                      expire);
        left := left - {p};
      }
      assert peers - left == peers;
    }

    /** clearBackoff: on every 15th tick, drops the entries that have been expired for more than two heartbeats, and
        the masks that have none left. */
    method ClearBackoff(now: int)
      modifies this`backoff
      ensures backoff == Tidied(old(backoff), heartbeatTicks, now)
    {
      if heartbeatTicks % CLEAR_TICKS != 0 {
        return;
      }
      var left := backoff.Keys;
      while left != {}
        invariant left <= old(backoff).Keys
        invariant forall b :: ClearedRow(old(backoff), backoff, b, b in left, now)
        decreases left
      {
        var b :| b in left;
        assert ClearedRow(old(backoff), backoff, b, true, now);
        var row := DropExpired(backoff[b], now);
        ghost var was := backoff;
        backoff := if |row| == 0 then backoff - {b} else backoff[b := row];
        forall s ensures ClearedRow(old(backoff), backoff, s, s in left - {b}, now) {
          assert ClearedRow(old(backoff), was, s, s in left, now);
        }
        left := left - {b};
      }
      AllRowsCleared(old(backoff), backoff, now);
    }

    // -------------------------------------------------------------- rebuilding

    /** rebuildSliceMeshes: clears the managed meshes, then adds every composite's members to all its slices. */
    method RebuildSliceMeshes()
      requires IndexExact(composites, sliceToComposite)
      modifies this`mesh
      ensures mesh == Rebuilt(old(mesh), composites, sliceToComposite)
    {
      mesh := map b | b in mesh :: if b in sliceToComposite then {} else mesh[b];
      ghost var done: Composites := map[];
      var left := composites.Keys;
      while left != {}
        invariant left <= composites.Keys && done.Keys == composites.Keys - left
        invariant forall ck :: ck in done ==> done[ck] == composites[ck]
        invariant Partial(old(mesh), mesh, done, sliceToComposite)
        decreases left
      {
        var ck :| ck in left;
        left := left - {ck};
        AddComposite(ck, done, old(mesh));
        done := done[ck := composites[ck]];
      }
      assert done == composites;
      PartialIsRebuilt(old(mesh), mesh, composites, sliceToComposite);
    }

    /** The inner loop of the rebuild: one composite's members go to the mesh of each of its slices. */
    method AddComposite(ck: Bitmask, ghost done: Composites, ghost before: Meshes)
      requires ck in composites && ck !in done && Partial(before, mesh, done, sliceToComposite)
      requires forall s :: s in composites[ck].slices ==> s in sliceToComposite
      modifies this`mesh
      ensures Partial(before, mesh, done[ck := composites[ck]], sliceToComposite)
    {
      var c := composites[ck];
      for i := 0 to |c.slices|
        invariant forall b :: b in mesh <==> b in old(mesh) || b in c.slices[..i]
        invariant forall b :: b in mesh ==>
          mesh[b] == (if b in old(mesh) then old(mesh)[b] else {}) + if b in c.slices[..i] then c.Members() else {}
      {
        var s := c.slices[i];
        assert c.slices[..i + 1] == c.slices[..i] + [s];
        mesh := mesh[s := (if s in mesh then mesh[s] else {}) + c.same + c.broker];
      }
      assert c.slices[..|c.slices|] == c.slices;
      ghost var done' := done[ck := c];
      forall b ensures PartialAt(before, mesh, done', sliceToComposite, b) {
        AddedIsPartial(before, old(mesh), mesh, done, ck, c, sliceToComposite, b);
      }
    }

    // -------------------------------------------------------------- single masks

    /** Join: starts a mesh from the fanout peers that still qualify, topped up to D, or from scratch. */
    method Join(b: Bitmask, env: Env)
      requires Valid()
      modifies this`mesh, this`fanout, this`lastPublished
      ensures Valid() && JoinStep(old(View()), View(), b, direct)
      ensures b !in old(mesh) ==> forall p :: p in mesh[b] ==> env.score(p) >= 0.0 && !HasBackoff(backoff, b, p)
      ensures b !in old(mesh) ==> JoinedWith(old(fanout), mesh[b], direct, backoff, b, env, q.D)
    {
      if b in mesh {
        return;
      }
      assert Avoids(fanout, direct) by { InvMeans(View(), direct); }
      var gmap := PickForJoin(b, env);
      mesh := mesh[b := gmap];
      fanout, lastPublished := fanout - {b}, if b in fanout then lastPublished - {b} else lastPublished;
      JoinKeepsInv(old(View()), View(), b, direct);
    }

    /** The fanout peers that still qualify, and as many others as D asks for. */
    method PickForJoin(b: Bitmask, env: Env) returns (gmap: set<PeerId>)
      requires Avoids(fanout, direct)
      ensures forall p :: p in gmap ==> p !in direct && env.score(p) >= 0.0 && !HasBackoff(backoff, b, p)
      ensures JoinedWith(fanout, gmap, direct, backoff, b, env, q.D)
    {
      var kept := Qualified(if b in fanout then fanout[b] else {}, backoff, b, env);
      gmap := TopUp(kept, b, JoinTest(kept, direct, backoff, b, env), env);
    }

    /** Candidates that are not there yet come in up to D. */
    method TopUp(kept: set<PeerId>, b: Bitmask, f: PeerId -> bool, env: Env) returns (peers: set<PeerId>)
      requires forall p :: f(p) ==> p !in kept
      ensures ToppedUp(kept, peers, Candidates(env, f, b), q.D)
      ensures forall p :: p in peers ==> p in kept || f(p)
    {
      peers := kept;
      if |kept| < q.D {
        var more := GetPeers(env, b, q.D - |kept|, f);
        DistinctCount(more);
        forall p | p in ToSet(more) ensures f(p) { CandidatesSubscribe(env, f, b, p); }
        DisjointCard(kept, ToSet(more));
        peers := kept + ToSet(more);
      }
    }

    /** Leave of a mask that no composite manages: the mesh goes and its peers back off. */
    method Leave(b: Bitmask, now: int)
      requires Valid() && b !in sliceToComposite
      modifies this`mesh, this`backoff
      ensures Valid() && LeaveStep(old(View()), View(), b)
      ensures if b in old(mesh) then Extended(old(backoff), backoff, Row(b, old(mesh)[b]), now + unsubscribeBackoff)
              else backoff == old(backoff)
    {
      if b !in mesh {
        assert mesh == mesh - {b};
        return;
      }
      var gmap := mesh[b];
      mesh := mesh - {b};
      LeaveKeepsInv(old(View()), View(), b, direct);
      AddBackoff(gmap, b, now + unsubscribeBackoff);
    }

    // -------------------------------------------------------------- composites

    /** The peers of a new composite: up to D candidates for the whole mask, then announcers of any slice. */
    method PickComposite(b: Bitmask, slices: seq<Bitmask>, env: Env) returns (same: set<PeerId>, broker: set<PeerId>)
      requires slices == Slices(b) && ValidParams(q)
      ensures Picked(same, broker, b, backoff, direct, env, q.D)
    {
      var f := PickTest(slices, backoff, direct, env);
      var list := GetPeers(env, b, q.D, f);
      same, broker := ToSet(list), {};
      DistinctCount(list);
      forall p | p in same ensures f(p) && SubscribedToSome(env.subs, slices, p) { CandidatesSubscribe(env, f, b, p); }
      if |same| < q.D {
        SubsetEqual(same, Candidates(env, f, b));
        broker := PickBrokers(slices, same, q.D - |same|, f, env);
      }
    }

    /** Up to `need` other peers that pass the test and announced a slice. */
    method PickBrokers(slices: seq<Bitmask>, same: set<PeerId>, need: nat, f: PeerId -> bool, env: Env)
      returns (broker: set<PeerId>)
      ensures broker !! same && |broker| <= need
      ensures forall p :: p in broker ==> f(p) && SubscribedToSome(env.subs, slices, p)
      ensures |broker| == need || forall p :: p in env.capable && f(p) && SubscribedToSome(env.subs, slices, p) ==>
        p in same + broker
    {
      var candidates := set p | p in Announcers(env.subs, slices) && p !in same && f(p) && p in env.capable;
      var rest := ToList(candidates);
      var short := Shortlist(rest, need);
      broker := ToSet(short);
      DistinctCount(short);
      forall p ensures p in Announcers(env.subs, slices) <==> SubscribedToSome(env.subs, slices, p) {
        AnnouncersAre(env.subs, slices, p);
      }
      if |short| < need { SubsetEqual(broker, candidates); }
    }

    /** JoinComposite: registers the composite under its mask and under each of its slices, and rebuilds.
        Peers of the old per-slice meshes that are not in it back off. */
    method JoinComposite(b: Bitmask, env: Env)
      requires Valid()
      modifies this`mesh, this`composites, this`sliceToComposite, this`backoff
      ensures Valid() && JoinCompositeStep(old(View()), View(), b, direct)
      ensures |Slices(b)| > 1 && b !in old(composites) ==>
        && Picked(composites[b].same, composites[b].broker, b, old(backoff), direct, env, q.D)
        && Extended(old(backoff), backoff, LeftBehind(old(mesh), Slices(b), composites[b].Members()),
                    env.now + pruneBackoff)
      ensures !(|Slices(b)| > 1 && b !in old(composites)) ==> backoff == old(backoff)
    {
      var slices := SliceBitmask(b);
      if |slices| <= 1 || b in composites {
        return;
      }
      JoinNew(b, slices, env);
    }

    method JoinNew(b: Bitmask, slices: seq<Bitmask>, env: Env)
      requires Valid() && slices == Slices(b) && |slices| > 1 && b !in composites
      modifies this`mesh, this`composites, this`sliceToComposite, this`backoff
      ensures Valid() && JoinCompositeStep(old(View()), View(), b, direct) && b in composites
      ensures Picked(composites[b].same, composites[b].broker, b, old(backoff), direct, env, q.D)
      ensures Extended(old(backoff), backoff, LeftBehind(old(mesh), slices, composites[b].Members()),
                       env.now + pruneBackoff)
    {
      var same, broker := PickComposite(b, slices, env);
      var before := mesh;
      PickedAvoids(same, broker, b, backoff, direct, env, q.D);
      AddNew(b, slices, same, broker);
      BackOffDropped(before, slices, composites[b].Members(), env.now + pruneBackoff);
    }

    method AddNew(b: Bitmask, slices: seq<Bitmask>, same: set<PeerId>, broker: set<PeerId>)
      requires Valid() && slices == Slices(b) && |slices| > 1 && b !in composites
      requires same !! broker && same + broker !! direct
      modifies this`mesh, this`composites, this`sliceToComposite
      ensures Valid() && JoinCompositeStep(old(View()), View(), b, direct)
      ensures b in composites && composites[b] == Composite(slices, same, broker)
    {
      assert CompositesWellFormed(composites) && IndexExact(composites, sliceToComposite) by {
        InvMeans(View(), direct);
      }
      InstallComposite(b, slices, same, broker);
      JoinedIsStep(old(View()), View(), b, same, broker, direct);
    }

    method InstallComposite(b: Bitmask, slices: seq<Bitmask>, same: set<PeerId>, broker: set<PeerId>)
      requires CompositesWellFormed(composites) && IndexExact(composites, sliceToComposite)
      requires b !in composites && slices == Slices(b)
      modifies this`mesh, this`composites, this`sliceToComposite
      ensures View() == JoinedComposite(old(View()), b, same, broker)
      ensures b in composites && composites[b] == Composite(slices, same, broker)
    {
      composites := composites[b := Composite(slices, same, broker)];
      RegisterSlices(slices, b);
      IndexedIsExact(old(View()), b, composites[b]);
      RebuildSliceMeshes();
    }

    /** Peers of the old per-slice meshes that are not in the composite back off. */
    method BackOffDropped(before: Meshes, slices: seq<Bitmask>, members: set<PeerId>, expire: int)
      modifies this`backoff
      ensures Extended(old(backoff), backoff, LeftBehind(before, slices, members), expire)
    {
      NotExtended(backoff, LeftBehind(before, [], members), expire);
      for i := 0 to |slices|
        invariant Extended(old(backoff), backoff, LeftBehind(before, slices[..i], members), expire)
      {
        var s := slices[i];
        ghost var table, row := backoff, if s in before then before[s] - members else {};
        assert slices[..i + 1] == slices[..i] + [s];
        NotExtended(backoff, Row(s, {}), expire);
        if s in before {
          AddBackoff(before[s] - members, s, expire);
        }
        ExtendedTwice(old(backoff), table, backoff, LeftBehind(before, slices[..i], members), Row(s, row),
                      LeftBehind(before, slices[..i + 1], members), expire);
      }
      assert slices[..|slices|] == slices;
    }

    method RegisterSlices(slices: seq<Bitmask>, ck: Bitmask)
      modifies this`sliceToComposite
      ensures sliceToComposite == Indexed(old(sliceToComposite), slices, ck)
    {
      for i := 0 to |slices|
        invariant sliceToComposite == Indexed(old(sliceToComposite), slices[..i], ck)
      {
        assert slices[..i + 1][..i] == slices[..i];
        var s := slices[i];
        sliceToComposite := sliceToComposite[s := (if s in sliceToComposite then sliceToComposite[s] else []) + [ck]];
      }
      assert slices[..|slices|] == slices;
    }

    /** LeaveComposite: unregisters the composite, drops the meshes nobody manages any more, and rebuilds. */
    method LeaveComposite(b: Bitmask, env: Env)
      requires Valid()
      modifies this`mesh, this`composites, this`sliceToComposite, this`backoff
      ensures Valid() && LeaveCompositeStep(old(View()), View(), b)
      ensures b in old(composites) ==> LeftBackOff(old(backoff), backoff, old(composites)[b], env, unsubscribeBackoff)
      ensures b !in old(composites) ==> backoff == old(backoff)
    {
      if b !in composites {
        return;
      }
      assert CompositesWellFormed(composites) && IndexExact(composites, sliceToComposite) by {
        InvMeans(View(), direct);
      }
      RetireComposite(b, env);
      LeaveCompositeKeepsInv(old(View()), View(), b, direct);
    }

    method RetireComposite(b: Bitmask, env: Env)
      requires CompositesWellFormed(composites) && IndexExact(composites, sliceToComposite) && b in composites
      modifies this`mesh, this`composites, this`sliceToComposite, this`backoff
      ensures View() == LeftComposite(old(View()), b)
      ensures LeftBackOff(old(backoff), backoff, old(composites)[b], env, unsubscribeBackoff)
    {
      BackOffComposite(composites[b], env);
      DetachComposite(b);
    }

    method DetachComposite(b: Bitmask)
      requires CompositesWellFormed(composites) && IndexExact(composites, sliceToComposite) && b in composites
      modifies this`mesh, this`composites, this`sliceToComposite
      ensures View() == LeftComposite(old(View()), b)
    {
      var slices := composites[b].slices;
      UnregisterSlices(slices, b);
      composites := composites - {b};
      UnindexedIsExact(old(View()), b);
      var index := sliceToComposite;
      mesh := mesh - (set s | s in slices && s !in index);
      RebuildSliceMeshes();
    }

    /** The members back off, as after an unsubscribe, on the slices they announced. */
    method BackOffComposite(c: Composite, env: Env)
      modifies this`backoff
      ensures LeftBackOff(old(backoff), backoff, c, env, unsubscribeBackoff)
    {
      var expire, members := env.now + unsubscribeBackoff, c.Members();
      NotExtended(backoff, Announcements(members, [], env.subs), expire);
      for i := 0 to |c.slices|
        invariant Extended(old(backoff), backoff, Announcements(members, c.slices[..i], env.subs), expire)
      {
        var s := c.slices[i];
        ghost var table := backoff;
        var there := set p | p in members && Subscribed(env.subs, s, p);
        assert c.slices[..i + 1] == c.slices[..i] + [s];
        AddBackoff(there, s, expire);
        ExtendedTwice(old(backoff), table, backoff, Announcements(members, c.slices[..i], env.subs), Row(s, there),
                      Announcements(members, c.slices[..i + 1], env.subs), expire);
      }
      assert c.slices[..|c.slices|] == c.slices;
    }

    method UnregisterSlices(slices: seq<Bitmask>, ck: Bitmask)
      modifies this`sliceToComposite
      ensures sliceToComposite == Unindexed(old(sliceToComposite), slices, ck)
    {
      for i := 0 to |slices|
        invariant sliceToComposite == Unindexed(old(sliceToComposite), slices[..i], ck)
      {
        assert slices[..i + 1][..i] == slices[..i];
        var s := slices[i];
        var keys := RemoveFirst(if s in sliceToComposite then sliceToComposite[s] else [], ck);
        if keys == [] {
          sliceToComposite := sliceToComposite - {s};
        } else {
          sliceToComposite := sliceToComposite[s := keys];
        }
      }
      assert slices[..|slices|] == slices;
    }

    // -------------------------------------------------------------- GRAFT and PRUNE

    predicate BackingOff(b: Bitmask, p: PeerId, now: int)
      reads this`backoff
    {
      HasBackoff(backoff, b, p) && now < backoff[b][p]
    }

    /** One GRAFT of a control message. `times` is how many PRUNEs are sent back. */
    method HandleOneGraft(p: PeerId, b: Bitmask, env: Env) returns (times: nat)
      requires Valid()
      modifies this`mesh, this`composites, this`backoff
      ensures Valid() && View() == Grafted(old(View()), direct, p, b, env, old(BackingOff(b, p, env.now)), q.Dhi)
      ensures times == Refusals(old(View()), View(), direct, p, b, env, old(BackingOff(b, p, env.now)))
      ensures backoff == AfterGraft(old(backoff), direct, p, b, times > 0, env.now + pruneBackoff)
    {
      GraftKeepsInv(View(), direct, p, b, env, BackingOff(b, p, env.now), q.Dhi);
      assert IndexExact(composites, sliceToComposite) by { InvMeans(View(), direct); }
      times := TryGraft(p, b, env);
      if !old(GraftAdmissible(mesh, direct, p, b, env, BackingOff(b, p, env.now))) {
        NotAdmitted(View(), p, b, env, direct);
      }
    }

    method TryGraft(p: PeerId, b: Bitmask, env: Env) returns (times: nat)
      requires IndexExact(composites, sliceToComposite)
      modifies this`mesh, this`composites, this`backoff
      ensures View() == Grafted(old(View()), direct, p, b, env, old(BackingOff(b, p, env.now)), q.Dhi)
      ensures !old(GraftAdmissible(mesh, direct, p, b, env, BackingOff(b, p, env.now))) ==>
        times == if env.filter(p, b) && b in old(mesh) && p !in old(mesh)[b] then 1 else 0
      ensures old(GraftAdmissible(mesh, direct, p, b, env, BackingOff(b, p, env.now))) ==>
        times == Refusals(old(View()), View(), direct, p, b, env, old(BackingOff(b, p, env.now)))
      ensures backoff == AfterGraft(old(backoff), direct, p, b, times > 0, env.now + pruneBackoff)
    {
      times := 0;
      if !env.filter(p, b) || b !in mesh || p in mesh[b] {
        return;
      }
      if p in direct {
        return 1;
      }
      if BackingOff(b, p, env.now) || env.score(p) < 0.0 {
        backoff := WithBackoff(backoff, b, p, env.now + pruneBackoff);
        return 1;
      }
      if b in sliceToComposite {
        times := GraftManaged(p, b, env);
        if times > 0 { backoff := WithBackoff(backoff, b, p, env.now + pruneBackoff); }
        return;
      }
      if |mesh[b]| >= q.Dhi && p !in env.outbound {
        backoff := WithBackoff(backoff, b, p, env.now + pruneBackoff);
        return 1;
      }
      mesh := mesh[b := mesh[b] + {p}];
    }

    /** The loop over the composites of a managed slice, and the rebuild. */
    method GraftManaged(p: PeerId, b: Bitmask, env: Env) returns (times: nat)
      requires IndexExact(composites, sliceToComposite) && b in sliceToComposite
      modifies this`mesh, this`composites
      ensures composites == GraftedComposites(old(composites), b, p, env, q.Dhi)
      ensures mesh == Rebuilt(old(mesh), composites, sliceToComposite)
      ensures times == Lacking(sliceToComposite[b], composites, p)
      ensures times > 0 <==> exists ck :: LeftOut(old(View()), View(), ck, p, b)
    {
      times := GraftComposites(p, b, env);
      RebuildSliceMeshes();
      SomeLeftOut(old(View()), View(), p, b);
    }

    method GraftComposites(p: PeerId, b: Bitmask, env: Env) returns (times: nat)
      requires IndexExact(composites, sliceToComposite) && b in sliceToComposite
      modifies this`composites
      ensures composites == GraftedComposites(old(composites), b, p, env, q.Dhi)
      ensures IndexExact(composites, sliceToComposite)
      ensures times == Lacking(sliceToComposite[b], composites, p)
    {
      var keys := sliceToComposite[b];
      times := GraftListed(keys, p, env);
      assert composites == GraftedComposites(old(composites), b, p, env, q.Dhi);
      GraftKeepsShape(old(composites), b, p, env, q.Dhi, sliceToComposite);
    }

    method GraftListed(keys: seq<Bitmask>, p: PeerId, env: Env) returns (times: nat)
      requires NoDuplicates(keys) && forall ck :: ck in keys ==> ck in composites
      modifies this`composites
      ensures composites.Keys == old(composites).Keys
      ensures forall ck :: ck in composites ==>
        composites[ck] == GraftedIf(ck in keys, old(composites)[ck], p, env, q.Dhi)
      ensures times == Lacking(keys, composites, p)
    {
      times := 0;
      for i := 0 to |keys|
        invariant composites.Keys == old(composites).Keys
        invariant forall ck :: ck in composites ==>
          composites[ck] == GraftedIf(ck in keys[..i], old(composites)[ck], p, env, q.Dhi)
        invariant times == Lacking(keys[..i], composites, p)
      {
        var ck := keys[i];
        assert keys[..i + 1] == keys[..i] + [ck] && ck !in keys[..i];
        ghost var was := composites;
        composites := composites[ck := GraftedComposite(composites[ck], p, env, q.Dhi)];
        LackingNext(keys, i, was, composites, p);
        if p !in composites[ck].Members() { times := times + 1; }
      }
      assert keys[..|keys|] == keys;
    }

    /** handleGraft: all the GRAFTs of a message, in order. `prune` lists the refused masks, a managed one once for
        every composite that is full. */
    method HandleGraft(p: PeerId, grafts: seq<Bitmask>, env: Env) returns (prune: seq<Bitmask>)
      requires Valid()
      modifies this`mesh, this`composites, this`backoff
      ensures Valid()
      ensures Answer(View(), backoff, prune) ==
        GraftsDone(Answer(old(View()), old(backoff), []), direct, p, grafts, env, q.Dhi, pruneBackoff)
    {
      prune := [];
      for i := 0 to |grafts|
        invariant Valid()
        invariant Answer(View(), backoff, prune) ==
          GraftsDone(Answer(old(View()), old(backoff), []), direct, p, grafts[..i], env, q.Dhi, pruneBackoff)
      {
        GraftsDoneNext(Answer(old(View()), old(backoff), []), direct, p, grafts, i, env, q.Dhi, pruneBackoff);
        ghost var a := Answer(View(), backoff, prune);
        var times := HandleOneGraft(p, grafts[i], env);
        prune := prune + Repeated(grafts[i], times);
        AnsweredIsDone(a, Answer(View(), backoff, prune), direct, p, grafts[i], times, env, q.Dhi, pruneBackoff);
      }
      assert grafts[..|grafts|] == grafts;
    }

    /** One PRUNE of a control message. */
    method HandleOnePrune(p: PeerId, b: Bitmask, interval: int, now: int)
      requires Valid()
      modifies this`mesh, this`composites, this`backoff
      ensures Valid() && View() == Pruned(old(View()), p, b)
      ensures backoff == AfterPrune(old(backoff), old(mesh), p, b, interval, now, pruneBackoff)
    {
      PruneKeepsInv(View(), p, b, direct);
      assert IndexExact(composites, sliceToComposite) by { InvMeans(View(), direct); }
      ApplyPrune(p, b, interval, now);
    }

    method ApplyPrune(p: PeerId, b: Bitmask, interval: int, now: int)
      requires IndexExact(composites, sliceToComposite)
      modifies this`mesh, this`composites, this`backoff
      ensures View() == Pruned(old(View()), p, b)
      ensures backoff == AfterPrune(old(backoff), old(mesh), p, b, interval, now, pruneBackoff)
    {
      if b !in mesh {
        return;
      }
      if b in sliceToComposite {
        DemoteAll(p, b);
      } else if p in mesh[b] {
        mesh := mesh[b := mesh[b] - {p}];
      } else {
        assert mesh[b] - {p} == mesh[b];
        assert mesh[b := mesh[b]] == mesh;
      }
      backoff := WithBackoff(backoff, b, p, now + if interval > 0 then interval else pruneBackoff);
    }

    /** handlePrune: all the PRUNEs of a message, in order, with the backoff each asks for. */
    method HandlePrune(p: PeerId, prunes: seq<(Bitmask, int)>, now: int)
      requires Valid()
      modifies this`mesh, this`composites, this`backoff
      ensures Valid() && (View(), backoff) == PrunesDone(old(View()), old(backoff), p, prunes, now, pruneBackoff)
    {
      for i := 0 to |prunes|
        invariant Valid()
        invariant (View(), backoff) == PrunesDone(old(View()), old(backoff), p, prunes[..i], now, pruneBackoff)
      {
        assert prunes[..i + 1][..i] == prunes[..i];
        HandleOnePrune(p, prunes[i].0, prunes[i].1, now);
      }
      assert prunes[..|prunes|] == prunes;
    }

    method DemoteAll(p: PeerId, b: Bitmask)
      requires IndexExact(composites, sliceToComposite) && b in sliceToComposite && b in mesh
      modifies this`composites
      ensures composites == Pruned(old(View()), p, b).composites
    {
      var keys := sliceToComposite[b];
      for i := 0 to |keys|
        invariant composites.Keys == old(composites).Keys
        invariant forall ck :: ck in composites ==>
          composites[ck] == if ck in keys[..i] then Demoted(old(composites)[ck], p) else old(composites)[ck]
      {
        var ck := keys[i];
        assert keys[..i + 1] == keys[..i] + [ck] && ck !in keys[..i];
        composites := composites[ck := Demoted(composites[ck], p)];
      }
      assert keys[..|keys|] == keys;
    }

    /** RemovePeer: out of every composite, mesh and fanout. */
    method RemovePeer(p: PeerId)
      requires Valid()
      modifies this`mesh, this`fanout, this`composites
      ensures Valid() && View() == PeerRemoved(old(View()), p)
    {
      RemovePeerKeepsInv(View(), p, direct);
      RemovedMesh(View(), p, direct);
      assert IndexExact(composites, sliceToComposite) by { InvMeans(View(), direct); }
      var changed := DropFromComposites(p);
      if changed {
        RebuildSliceMeshes();
      }
      mesh := map b | b in mesh :: mesh[b] - {p};
      fanout := map b | b in fanout :: fanout[b] - {p};
    }

    method DropFromComposites(p: PeerId) returns (changed: bool)
      requires IndexExact(composites, sliceToComposite)
      modifies this`composites
      ensures composites == PeerRemoved(old(View()), p).composites && IndexExact(composites, sliceToComposite)
    {
      changed := exists ck :: ck in composites && p in composites[ck].Members();
      composites := map ck | ck in composites :: Left(composites[ck], p);
      SameShape(old(View()), composites);
    }

    // -------------------------------------------------------------- publishing and the heartbeat

    /** The peers a publish on slice `b` goes to: the mesh, or else the fanout, picked now if there is none. */
    method PublishPeers(b: Bitmask, env: Env, threshold: real) returns (peers: set<PeerId>)
      requires Valid()
      modifies this`fanout, this`lastPublished
      ensures Valid() && FanoutStep(old(View()), View(), direct)
      ensures peers == if b in mesh then mesh[b] else if b in fanout then fanout[b] else {}
      ensures b !in mesh && b in old(fanout) && old(fanout)[b] != {} ==> peers == old(fanout)[b]
      ensures b !in mesh && !(b in old(fanout) && old(fanout)[b] != {}) ==>
        && peers <= Candidates(env, FanoutTest({}, direct, env, threshold), b)
        && |peers| == Min(q.D, |Candidates(env, FanoutTest({}, direct, env, threshold), b)|)
        && forall p :: p in peers ==> env.score(p) >= threshold && SubscribedToSome(env.subs, Slices(b), p)
      ensures b !in mesh ==> b in lastPublished && lastPublished[b] == env.now
    {
      assert Avoids(fanout, direct) by { InvMeans(View(), direct); }
      if b in mesh {
        return mesh[b];
      }
      peers := if b in fanout then fanout[b] else {};
      if peers == {} {
        var f := FanoutTest({}, direct, env, threshold);
        var list := GetPeers(env, b, q.D, f);
        DistinctCount(list);
        forall p | p in ToSet(list)
          ensures f(p) && SubscribedToSome(env.subs, Slices(b), p)
        {
          CandidatesSubscribe(env, f, b, p);
        }
        if |list| > 0 {
          peers := ToSet(list);
          fanout := fanout[b := peers];
        }
      }
      lastPublished := lastPublished[b := env.now];
      FanoutKeepsInv(old(View()), View(), direct);
    }

    /** heartbeatComposites: maintains every composite, then rebuilds the managed meshes if one changed. */
    method HeartbeatComposites(env: Env) returns (changed: bool, ghost runs: seq<CompositeRun>)
      requires Valid()
      modifies this`mesh, this`composites, this`backoff
      ensures Valid() && HeartbeatStep(old(View()), View(), changed, direct)
      ensures AllMaintained(old(composites), composites, composites.Keys, env, direct)
      ensures CompositeRuns(runs, old(composites), composites, old(backoff), backoff, Setting(env))
      ensures Visited(runs) == composites.Keys && BackoffGrows(old(backoff), backoff)
      ensures forall b :: b in mesh && b !in sliceToComposite ==> mesh[b] == old(mesh)[b]
    {
      InvIsSound(View(), direct);
      changed, runs := MaintainComposites(env);
      RebuildIf(changed, old(View()), env);
      CompositesBeat(old(View()), View(), changed, env, direct);
    }

    method RebuildIf(changed: bool, ghost s: State, ghost env: Env)
      requires Inv(s, direct) && View() == s.(composites := composites) && composites.Keys == s.composites.Keys
      requires AllMaintained(s.composites, composites, composites.Keys, env, direct)
      modifies this`mesh
      ensures mesh == if changed then Rebuilt(s.mesh, composites, s.index) else s.mesh
    {
      if changed {
        MaintainedMeans(s, composites, env, direct);
        RebuildSliceMeshes();
      }
    }

    method MaintainComposites(env: Env) returns (changed: bool, ghost runs: seq<CompositeRun>)
      requires ValidParams(q) && pruneBackoff > 0 && forall ck :: Sound(composites, ck, direct)
      modifies this`composites, this`backoff
      ensures composites.Keys == old(composites).Keys && (!changed ==> composites == old(composites))
      ensures AllMaintained(old(composites), composites, composites.Keys, env, direct)
      ensures CompositeRuns(runs, old(composites), composites, old(backoff), backoff, Setting(env))
      ensures Visited(runs) == composites.Keys && BackoffGrows(old(backoff), backoff)
    {
      changed, runs := false, [];
      var left := composites.Keys;
      while left != {}
        invariant left <= composites.Keys && (!changed ==> composites == old(composites))
        invariant Progress(old(composites), composites, left, runs, old(backoff), backoff, Setting(env))
        decreases left
      {
        var ck :| ck in left;
        ghost var was, table := composites, backoff;
        assert Sound(old(composites), ck, direct);
        var altered;
        ghost var run;
        altered, run := MaintainOne(ck, env);
        ProgressMade(old(composites), was, composites, left, runs, run, old(backoff), Setting(env));
        left, changed, runs := left - {ck}, changed || altered, runs + [run];
      }
      assert composites.Keys - left == composites.Keys;
    }

    method MaintainOne(ck: Bitmask, env: Env) returns (altered: bool, ghost run: CompositeRun)
      requires ValidParams(q) && pruneBackoff > 0 && ck in composites && Sound(composites, ck, direct)
      modifies this`composites, this`backoff
      ensures run.ck == ck && run.table == old(backoff) && run.final.backoff == backoff
      ensures composites == old(composites)[ck := run.final.c] && (!altered ==> composites == old(composites))
      ensures CompositeRan(old(composites)[ck], run, Setting(env)) && BackoffGrows(old(backoff), backoff)
    {
      var x := Context(env, direct, q, pruneBackoff, backoff);
      ghost var settled, stages;
      var w;
      w, settled, stages := Maintain(composites[ck], ck, x);
      ExtendedMeans(x.table, w.backoff, Announcements(w.pruned, w.c.slices, x.env.subs), x.Expire());
      composites, backoff, altered := composites[ck := w.c], w.backoff, w.changed;
      run := CompositeRun(ck, x.table, settled, stages, w);
    }

    /** The loop over the meshes that no composite manages. */
    method HeartbeatMeshes(env: Env, o: Opportunity) returns (ghost runs: seq<MeshRun>)
      requires Valid() && o.extra > 0
      modifies this`mesh, this`backoff
      ensures Valid() && HeartbeatStep(old(View()), View(), false, direct)
      ensures forall b :: b in mesh && b in sliceToComposite ==> mesh[b] == old(mesh)[b]
      ensures forall b :: b in mesh && b !in sliceToComposite ==>
        MeshFit(mesh[b], env, direct, q.Dhi + q.Dout + o.extra)
      ensures MeshRuns(runs, old(mesh), mesh, old(backoff), backoff, Setting(env), o)
      ensures VisitedMeshes(runs) == mesh.Keys - sliceToComposite.Keys && BackoffGrows(old(backoff), backoff)
    {
      assert Avoids(mesh, direct) by { InvMeans(View(), direct); }
      runs := MaintainMeshes(env, o);
      MeshesBeat(old(View()), mesh, env, direct, q.Dhi + q.Dout + o.extra);
    }

    method MaintainMeshes(env: Env, o: Opportunity) returns (ghost runs: seq<MeshRun>)
      requires Avoids(mesh, direct) && ValidParams(q) && pruneBackoff > 0 && o.extra > 0
      modifies this`mesh, this`backoff
      ensures mesh.Keys == old(mesh).Keys
      ensures forall b :: b in mesh && b in sliceToComposite ==> mesh[b] == old(mesh)[b]
      ensures forall b :: b in mesh && b !in sliceToComposite ==>
        MeshFit(mesh[b], env, direct, q.Dhi + q.Dout + o.extra)
      ensures MeshRuns(runs, old(mesh), mesh, old(backoff), backoff, Setting(env), o)
      ensures VisitedMeshes(runs) == mesh.Keys - sliceToComposite.Keys && BackoffGrows(old(backoff), backoff)
    {
      runs := [];
      var left := mesh.Keys - sliceToComposite.Keys;
      ghost var keys, most := left, q.Dhi + q.Dout + o.extra;
      while left != {}
        invariant left <= keys
        invariant MeshProgress(old(mesh), mesh, keys, left, runs, old(backoff), backoff, Setting(env), o, most)
        decreases left
      {
        var b :| b in left;
        ghost var was := mesh;
        ghost var run := MaintainOneMesh(b, env, o);
        MeshProgressMade(old(mesh), was, mesh, keys, left, runs, run, old(backoff), Setting(env), o, most);
        left, runs := left - {b}, runs + [run];
      }
      assert keys - left == keys;
    }

    method MaintainOneMesh(b: Bitmask, env: Env, o: Opportunity) returns (ghost run: MeshRun)
      requires b in mesh && mesh[b] !! direct && ValidParams(q) && pruneBackoff > 0 && o.extra > 0
      modifies this`mesh, this`backoff
      ensures run.b == b && run.table == old(backoff) && run.final.backoff == backoff
      ensures mesh == old(mesh)[b := run.final.peers]
      ensures MeshFit(run.final.peers, env, direct, q.Dhi + q.Dout + o.extra) && BackoffGrows(old(backoff), backoff)
      ensures MeshRan(old(mesh)[b], run, Setting(env), o)
    {
      var x := Context(env, direct, q, pruneBackoff, backoff);
      ghost var stages;
      var w;
      w, stages := MaintainMesh(mesh[b], b, x, o);
      GoodMeshFits(w, b, x);
      ExtendedMeans(x.table, w.backoff, Row(b, w.pruned), x.Expire());
      mesh, backoff := mesh[b := w.peers], w.backoff;
      run := MeshRun(b, x.table, stages, w);
    }

    /** Expires fanouts not published to within `ttl` and tops up the others. */
    method HeartbeatFanout(env: Env, threshold: real, ttl: int)
      requires Avoids(fanout, direct) && fanout.Keys <= lastPublished.Keys
      modifies this`fanout, this`lastPublished
      ensures Avoids(fanout, direct) && fanout.Keys <= lastPublished.Keys
      ensures FanoutsBeat(old(fanout), fanout, old(lastPublished), direct, env, threshold, ttl, q.D)
    {
      var expired := set b | b in lastPublished && lastPublished[b] + ttl < env.now;
      fanout, lastPublished := fanout - expired, lastPublished - expired;
      RefreshFanouts(env, threshold);
    }

    method RefreshFanouts(env: Env, threshold: real)
      requires Avoids(fanout, direct)
      modifies this`fanout
      ensures fanout.Keys == old(fanout).Keys && Avoids(fanout, direct)
      ensures forall b :: b in fanout ==> Refreshed(old(fanout)[b], fanout[b], b, direct, env, threshold, q.D)
    {
      var left := fanout.Keys;
      while left != {}
        invariant left <= fanout.Keys == old(fanout).Keys && Avoids(fanout, direct)
        invariant forall b :: b in left ==> fanout[b] == old(fanout)[b]
        invariant forall b :: b in fanout && b !in left ==>
          Refreshed(old(fanout)[b], fanout[b], b, direct, env, threshold, q.D)
        decreases left
      {
        var b :| b in left;
        left := left - {b};
        var peers := RefreshFanout(fanout[b], b, env, threshold);
        fanout := fanout[b := peers];
      }
    }

    /** One fanout: peers that left or scored too low go, and others come in up to D. */
    method RefreshFanout(peers0: set<PeerId>, b: Bitmask, env: Env, threshold: real) returns (peers: set<PeerId>)
      requires peers0 !! direct
      ensures peers !! direct && Refreshed(peers0, peers, b, direct, env, threshold, q.D)
    {
      var kept := Lasting(peers0, b, env, threshold);
      peers := TopUp(kept, b, FanoutTest(kept, direct, env, threshold), env);
    }

    /** A whole heartbeat of the mesh tables: old backoffs go, then come the composites, then the other meshes, then
        the fanouts. */
    method Heartbeat(env: Env, threshold: real, extra: nat, publishThreshold: real, ttl: int)
      returns (changed: bool, ghost r: BeatRun)
      requires Valid() && extra > 0
      modifies this`mesh, this`composites, this`backoff, this`fanout, this`lastPublished, this`heartbeatTicks
      ensures Valid() && heartbeatTicks == (old(heartbeatTicks) + 1) % TWO_TO_THE_64
      ensures Beaten(old(View()), View(), changed, Tidied(old(backoff), heartbeatTicks, env.now), backoff, r,
                     Setting(env), Opportunity(heartbeatTicks % opportunisticGraftTicks == 0, threshold, extra))
      ensures RecentKept(old(backoff), backoff, env.now)
      ensures FanoutsBeat(old(fanout), fanout, old(lastPublished), direct, env, publishThreshold, ttl, q.D)
    {
      Tick(env.now);
      ghost var table := backoff;
      var o := Opportunity(heartbeatTicks % opportunisticGraftTicks == 0, threshold, extra);
      changed, r := HeartbeatMesh(env, o);
      ghost var s := View();
      BeatFanout(env, publishThreshold, ttl);
      FanoutBeats(old(View()), s, View(), changed, table, backoff, r, Setting(env), o);
      RecentOutlast(old(backoff), heartbeatTicks, env.now, backoff, old(View()), View(), changed, r, Setting(env), o);
    }

    method Tick(now: int)
      modifies this`backoff, this`heartbeatTicks
      ensures heartbeatTicks == (old(heartbeatTicks) + 1) % TWO_TO_THE_64
      ensures backoff == Tidied(old(backoff), heartbeatTicks, now)
    {
      heartbeatTicks := (heartbeatTicks + 1) % TWO_TO_THE_64;
      ClearBackoff(now);
    }

    method BeatFanout(env: Env, threshold: real, ttl: int)
      requires Valid()
      modifies this`fanout, this`lastPublished
      ensures Valid() && FanoutStep(old(View()), View(), direct)
      ensures FanoutsBeat(old(fanout), fanout, old(lastPublished), direct, env, threshold, ttl, q.D)
    {
      assert Avoids(fanout, direct) by { InvMeans(View(), direct); }
      HeartbeatFanout(env, threshold, ttl);
      FanoutKeepsInv(old(View()), View(), direct);
    }

    /** The composites, then the other meshes. */
    method HeartbeatMesh(env: Env, o: Opportunity) returns (changed: bool, ghost r: BeatRun)
      requires Valid() && o.extra > 0
      modifies this`mesh, this`composites, this`backoff
      ensures Valid()
      ensures Beaten(old(View()), View(), changed, old(backoff), backoff, r, Setting(env), o)
    {
      ghost var runs, meshRuns;
      changed, runs := HeartbeatComposites(env);
      ghost var s1, middle, between := View(), mesh, backoff;
      meshRuns := HeartbeatMeshes(env, o);
      MeshRunsKept(meshRuns, middle, old(mesh), mesh, mesh, between, backoff, Setting(env), o);
      BeatsTogether(old(View()), s1, View(), changed, direct);
      r := BeatRun(runs, between, meshRuns);
      IsBeaten(old(View()), View(), changed, old(backoff), backoff, r, Setting(env), o);
    }
  }

  /** How a heartbeat went: the composites, the backoffs then, and the other meshes. */
  datatype BeatRun = BeatRun(composites: seq<CompositeRun>, between: Backoff, meshes: seq<MeshRun>)

  /** What a heartbeat that took the backoffs from `table` to `table'` did to the tables, part by part. Every
      composite and every mesh that none manages was maintained, once; nobody in a mesh has a negative score, and no
      backoff got shorter. The quantifier keeps the parts folded where they are only passed on. */
  ghost predicate Beaten(s: State, s': State, changed: bool, table: Backoff, table': Backoff, r: BeatRun, x: Context,
                         o: Opportunity) {
    forall k: nat :: BeatPart(k, s, s', changed, table, table', r, x, o)
  }

  ghost predicate BeatPart(k: nat, s: State, s': State, changed: bool, table: Backoff, table': Backoff, r: BeatRun,
                           x: Context, o: Opportunity) {
    match k
    case 0 => HeartbeatStep(s, s', changed, x.direct)
    case 1 => AllMaintained(s.composites, s'.composites, s'.composites.Keys, x.env, x.direct)
    case 2 => CompositeRuns(r.composites, s.composites, s'.composites, table, r.between, x)
    case 3 => Visited(r.composites) == s.composites.Keys && |r.composites| == |s.composites|
    case 4 => MeshRuns(r.meshes, s.mesh, s'.mesh, r.between, table', x, o)
    case 5 => var keys := s.mesh.Keys - s.index.Keys; VisitedMeshes(r.meshes) == keys && |r.meshes| == |keys|
    case 6 => AllFit(s'.mesh, s.index, x, x.q.Dhi + x.q.Dout + o.extra)
    case 7 => forall b, p :: b in s'.mesh && p in s'.mesh[b] ==> x.env.score(p) >= 0.0
    case _ => BackoffGrows(table, table')
  }

  ghost predicate AllFit(mesh: Meshes, index: Index, x: Context, most: nat) {
    forall b :: b in mesh && b !in index ==> MeshFit(mesh[b], x.env, x.direct, most)
  }

  lemma IsBeaten(s: State, s': State, changed: bool, table: Backoff, table': Backoff, r: BeatRun, x: Context,
                 o: Opportunity)
    requires Inv(s', x.direct) && HeartbeatStep(s, s', changed, x.direct)
    requires AllMaintained(s.composites, s'.composites, s'.composites.Keys, x.env, x.direct)
    requires CompositeRuns(r.composites, s.composites, s'.composites, table, r.between, x)
    requires Visited(r.composites) == s.composites.Keys
    requires MeshRuns(r.meshes, s.mesh, s'.mesh, r.between, table', x, o)
    requires VisitedMeshes(r.meshes) == s.mesh.Keys - s.index.Keys
    requires AllFit(s'.mesh, s.index, x, x.q.Dhi + x.q.Dout + o.extra)
    requires BackoffGrows(table, r.between) && BackoffGrows(r.between, table')
    ensures Beaten(s, s', changed, table, table', r, x, o)
  {
    forall k: nat ensures BeatPart(k, s, s', changed, table, table', r, x, o) {
      if k == 3 {
        CompositeRunsOnce(r.composites, s.composites, s'.composites, table, r.between, x);
      } else if k == 5 {
        MeshRunsOnce(r.meshes, s.mesh, s'.mesh, r.between, table', x, o);
      } else if k == 7 {
        AllNonNegative(s', s.composites, x, x.q.Dhi + x.q.Dout + o.extra);
      }
    }
  }

  lemma AllNonNegative(s: State, before: Composites, x: Context, most: nat)
    requires Inv(s, x.direct) && AllMaintained(before, s.composites, s.composites.Keys, x.env, x.direct)
    requires AllFit(s.mesh, s.index, x, most)
    ensures forall b, p :: b in s.mesh && p in s.mesh[b] ==> x.env.score(p) >= 0.0
  {
    ManagedNonNegative(s, before, x.env, x.direct);
  }

  /** The fanouts are no part of it. */
  lemma FanoutBeats(s: State, s2: State, s3: State, changed: bool, table: Backoff, table': Backoff, r: BeatRun,
                    x: Context, o: Opportunity)
    requires Beaten(s, s2, changed, table, table', r, x, o) && FanoutStep(s2, s3, x.direct)
    ensures Beaten(s, s3, changed, table, table', r, x, o)
  {
    forall k: nat ensures BeatPart(k, s, s3, changed, table, table', r, x, o) {
      assert BeatPart(k, s, s2, changed, table, table', r, x, o);
    }
  }

  // ---------------------------------------------------------------- clearing backoffs

  /** The entries of a mask that have not been expired for more than two heartbeats. */
  function Recent(row: map<PeerId, int>, now: int): map<PeerId, int> {
    map p | p in row && row[p] + 2 * HEARTBEAT_INTERVAL >= now :: row[p]
  }

  function Cleared(b: Backoff, now: int): Backoff {
    map s | s in b && Recent(b[s], now) != map[] :: Recent(b[s], now)
  }

  /** The table a heartbeat starts from. */
  function Tidied(b: Backoff, ticks: nat, now: int): Backoff {
    if ticks % CLEAR_TICKS == 0 then Cleared(b, now) else b
  }

  /** Clearing keeps exactly the entries that have not been expired for more than two heartbeats, unchanged, and no
      mask without entries. */
  lemma ClearedIff(b: Backoff, now: int, s: Bitmask, p: PeerId)
    ensures HasBackoff(Cleared(b, now), s, p) <==> HasBackoff(b, s, p) && b[s][p] + 2 * HEARTBEAT_INTERVAL >= now
    ensures HasBackoff(Cleared(b, now), s, p) ==> Cleared(b, now)[s][p] == b[s][p]
    ensures s in Cleared(b, now) <==> exists p' :: HasBackoff(b, s, p') && b[s][p'] + 2 * HEARTBEAT_INTERVAL >= now
  {
    if HasBackoff(b, s, p) && b[s][p] + 2 * HEARTBEAT_INTERVAL >= now { assert p in Recent(b[s], now); }
    if p' :| HasBackoff(b, s, p') && b[s][p'] + 2 * HEARTBEAT_INTERVAL >= now { assert p' in Recent(b[s], now); }
    if s in Cleared(b, now) {
      var p' :| p' in Recent(b[s], now);
      assert HasBackoff(b, s, p') && b[s][p'] + 2 * HEARTBEAT_INTERVAL >= now;
    }
  }

  /** One row while the table is being cleared, as it was or done. */
  ghost predicate ClearedRow(b: Backoff, b': Backoff, s: Bitmask, left: bool, now: int) {
    && (s in b' <==> s in b && (left || Recent(b[s], now) != map[]))
    && (s in b' ==> b'[s] == if left then b[s] else Recent(b[s], now))
  }

  lemma AllRowsCleared(b: Backoff, b': Backoff, now: int)
    requires forall s :: ClearedRow(b, b', s, false, now)
    ensures b' == Cleared(b, now)
  {
    forall s ensures s in b' <==> s in Cleared(b, now)
             ensures s in b' ==> b'[s] == Cleared(b, now)[s]
    {
      assert ClearedRow(b, b', s, false, now);
    }
  }

  /** The inner loop of clearBackoff. */
  method DropExpired(row: map<PeerId, int>, now: int) returns (kept: map<PeerId, int>)
    ensures kept == Recent(row, now)
  {
    kept := row;
    var left := row.Keys;
    while left != {}
      invariant left <= row.Keys
      invariant forall p :: p in kept <==> p in row && (p in left || p in Recent(row, now))
      invariant forall p :: p in kept ==> kept[p] == row[p]
      decreases left
    {
      var p :| p in left;
      left := left - {p};
      if row[p] + 2 * HEARTBEAT_INTERVAL < now {
        kept := kept - {p};
      }
    }
  }

  /** No backoff that is running, or expired for no more than two heartbeats, is dropped or shortened. */
  ghost predicate RecentKept(b: Backoff, b': Backoff, now: int) {
    forall s, p :: HasBackoff(b, s, p) && b[s][p] + 2 * HEARTBEAT_INTERVAL >= now ==>
      HasBackoff(b', s, p) && b'[s][p] >= b[s][p]
  }

  lemma RecentOutlast(b: Backoff, ticks: nat, now: int, b': Backoff, s: State, s': State, changed: bool, r: BeatRun,
                      x: Context, o: Opportunity)
    requires Beaten(s, s', changed, Tidied(b, ticks, now), b', r, x, o)
    ensures RecentKept(b, b', now)
  {
    assert BeatPart(8, s, s', changed, Tidied(b, ticks, now), b', r, x, o);
    forall s, p | HasBackoff(b, s, p) && b[s][p] + 2 * HEARTBEAT_INTERVAL >= now
      ensures HasBackoff(b', s, p) && b'[s][p] >= b[s][p]
    {
      ClearedIff(b, now, s, p);
      assert HasBackoff(Tidied(b, ticks, now), s, p);
    }
  }

  // ---------------------------------------------------------------- what a heartbeat keeps

  /** What one heartbeat leaves of a composite: same slices, exactly classified, no negative scores, no direct peers. */
  ghost predicate Maintained(before: Composite, c: Composite, env: Env, direct: set<PeerId>) {
    && c.slices == before.slices && c.same !! c.broker && c.Members() !! direct
    && Classified(c, env.subs) && NonNegative(c, env)
  }

  ghost predicate AllMaintained(before: Composites, composites: Composites, keys: set<Bitmask>, env: Env,
                                direct: set<PeerId>) {
    forall ck :: ck in keys ==> MaintainedAt(before, composites, ck, env, direct)
  }

  ghost predicate MaintainedAt(before: Composites, composites: Composites, ck: Bitmask, env: Env, direct: set<PeerId>) {
    ck in before && ck in composites && Maintained(before[ck], composites[ck], env, direct)
  }

  /** What a heartbeat relies on about a composite. */
  ghost predicate Sound(composites: Composites, ck: Bitmask, direct: set<PeerId>) {
    var c := if ck in composites then composites[ck] else Composite([], {}, {});
    ck in composites ==> c.slices == Slices(ck) && c.same !! c.broker && c.Members() !! direct
  }

  ghost predicate MeshFit(peers: set<PeerId>, env: Env, direct: set<PeerId>, most: nat) {
    peers !! direct && |peers| <= most && forall p :: p in peers ==> env.score(p) >= 0.0
  }

  lemma GoodMeshFits(w: MeshWork, b: Bitmask, x: Context)
    requires MeshGood(w, b, x)
    ensures MeshFit(w.peers, x.env, x.direct, |w.peers|)
  {
    forall p | p in w.peers ensures p !in x.direct && x.env.score(p) >= 0.0 { assert PeerFits(w, b, p, x); }
  }

  lemma MaintainedMeans(s: State, composites: Composites, env: Env, direct: set<PeerId>)
    requires Inv(s, direct) && composites.Keys == s.composites.Keys
    requires AllMaintained(s.composites, composites, composites.Keys, env, direct)
    ensures IndexExact(composites, s.index) && CompositesAvoid(composites, direct)
    ensures forall ck :: ck in composites ==>
      composites[ck].slices == s.composites[ck].slices && composites[ck].same !! composites[ck].broker
  {
    InvMeans(s, direct);
    forall ck | ck in composites
      ensures composites[ck].slices == s.composites[ck].slices && composites[ck].same !! composites[ck].broker
      ensures composites[ck].Members() !! direct
    {
      assert ck in composites.Keys;
      assert MaintainedAt(s.composites, composites, ck, env, direct);
    }
    SameShape(s, composites);
  }

  lemma InvIsSound(s: State, direct: set<PeerId>)
    requires Inv(s, direct)
    ensures forall ck :: Sound(s.composites, ck, direct)
  {
    forall ck ensures Sound(s.composites, ck, direct) { assert InvAt(s, direct, ck); }
  }

  /** Maintaining the composites, and rebuilding if one changed, is a heartbeat step. */
  lemma CompositesBeat(s: State, s': State, changed: bool, env: Env, direct: set<PeerId>)
    requires Inv(s, direct) && s' == s.(composites := s'.composites, mesh := s'.mesh)
    requires s'.composites.Keys == s.composites.Keys && (!changed ==> s'.composites == s.composites)
    requires AllMaintained(s.composites, s'.composites, s'.composites.Keys, env, direct)
    requires s'.mesh == if changed then Rebuilt(s.mesh, s'.composites, s.index) else s.mesh
    ensures HeartbeatStep(s, s', changed, direct) && Inv(s', direct)
    ensures forall b :: b in s'.mesh && b !in s.index ==> b in s.mesh && s'.mesh[b] == s.mesh[b]
  {
    InvMeans(s, direct);
    MaintainedMeans(s, s'.composites, env, direct);
    RebuiltAvoids(s.mesh, s'.composites, s.index, direct);
    HeartbeatKeepsInv(s, s', changed, direct);
  }

  /** So is maintaining the meshes no composite manages. */
  lemma MeshesBeat(s: State, mesh: Meshes, env: Env, direct: set<PeerId>, most: nat)
    requires Inv(s, direct) && mesh.Keys == s.mesh.Keys
    requires forall b :: b in mesh && b in s.index ==> mesh[b] == s.mesh[b]
    requires forall b :: b in mesh && b !in s.index ==> MeshFit(mesh[b], env, direct, most)
    ensures HeartbeatStep(s, s.(mesh := mesh), false, direct) && Inv(s.(mesh := mesh), direct)
  {
    InvMeans(s, direct);
    HeartbeatKeepsInv(s, s.(mesh := mesh), false, direct);
  }

  lemma BeatsTogether(s: State, s1: State, s2: State, changed: bool, direct: set<PeerId>)
    requires Inv(s, direct) && HeartbeatStep(s, s1, changed, direct) && HeartbeatStep(s1, s2, false, direct)
    ensures HeartbeatStep(s, s2, changed, direct) && Inv(s2, direct)
  {
    assert MeshDerived(s.mesh, s.composites, s.index) by { InvMeans(s, direct); }
    assert HeartbeatStep(s, s2, changed, direct);
    HeartbeatKeepsInv(s, s2, changed, direct);
  }

  lemma ManagedNonNegative(s: State, before: Composites, env: Env, direct: set<PeerId>)
    requires Inv(s, direct) && AllMaintained(before, s.composites, s.composites.Keys, env, direct)
    ensures forall b, p :: b in s.index && b in s.mesh && p in s.mesh[b] ==> env.score(p) >= 0.0
  {
    assert MeshDerived(s.mesh, s.composites, s.index) by { InvMeans(s, direct); }
    forall b, p | b in s.index && b in s.mesh && p in s.mesh[b] ensures env.score(p) >= 0.0 {
      if ck :| Contributes(s.composites, ck, b, p) {
        assert ck in s.composites.Keys;
        assert MaintainedAt(before, s.composites, ck, env, direct);
      }
    }
  }

  /** The old mesh entries of some slices that are not among the new members. */
  ghost function LeftBehind(before: Meshes, slices: seq<Bitmask>, members: set<PeerId>): (Bitmask, PeerId) -> bool {
    (s, p) => s in slices && s in before && p in before[s] && p !in members
  }

  /** The members of a composite that was left back off on every slice they announced, and nobody else does. */
  ghost predicate LeftBackOff(b: Backoff, b': Backoff, c: Composite, env: Env, interval: int) {
    Extended(b, b', Announcements(c.Members(), c.slices, env.subs), env.now + interval)
  }

  lemma JoinedIsStep(s: State, s': State, b: Bitmask, same: set<PeerId>, broker: set<PeerId>, direct: set<PeerId>)
    requires Inv(s, direct) && |Slices(b)| > 1 && b !in s.composites && s' == JoinedComposite(s, b, same, broker)
    requires same !! broker && same + broker !! direct
    ensures JoinCompositeStep(s, s', b, direct) && Inv(s', direct)
  {
    assert s'.composites[b] == Composite(Slices(b), same, broker);
    JoinCompositeKeepsInv(s, s', b, direct);
  }

  /** Who may be picked for a composite: not direct, not backing off on any slice, score not negative. */
  function PickTest(slices: seq<Bitmask>, backoff: Backoff, direct: set<PeerId>, env: Env): PeerId -> bool {
    p => p !in direct && !BackingOffOnAny(backoff, slices, p, env.now) && env.score(p) >= 0.0
  }

  /** The peers of a new composite: as many candidates for the whole mask as D allows, and only when there are no
      more of those, announcers of any slice, up to D in all or until nobody is left. */
  ghost predicate Picked(same: set<PeerId>, broker: set<PeerId>, b: Bitmask, backoff: Backoff, direct: set<PeerId>,
                         env: Env, D: nat) {
    var slices := Slices(b);
    var f := PickTest(slices, backoff, direct, env);
    && same !! broker && |same| + |broker| <= D
    && same <= Candidates(env, f, b) && |same| == Min(D, |Candidates(env, f, b)|)
    && (broker != {} ==> same == Candidates(env, f, b))
    && (forall p :: p in same + broker ==> f(p) && SubscribedToSome(env.subs, slices, p))
    && (|same| + |broker| == D ||
        forall p :: p in env.capable && f(p) && SubscribedToSome(env.subs, slices, p) ==> p in same + broker)
  }

  lemma PickedAvoids(same: set<PeerId>, broker: set<PeerId>, b: Bitmask, backoff: Backoff, direct: set<PeerId>,
                     env: Env, D: nat)
    requires Picked(same, broker, b, backoff, direct, env, D)
    ensures same + broker !! direct
  {
  }

  /** What is kept, and as many candidates as D and their number allow. */
  ghost predicate ToppedUp(kept: set<PeerId>, peers: set<PeerId>, candidates: set<PeerId>, D: nat) {
    && kept <= peers && peers - kept <= candidates
    && |peers| == |kept| + if |kept| < D then Min(D - |kept|, |candidates|) else 0
  }

  /** A fanout after a heartbeat: the peers that are still there and score high enough, topped up to D. */
  ghost predicate Refreshed(peers0: set<PeerId>, peers: set<PeerId>, b: Bitmask, direct: set<PeerId>, env: Env,
                            threshold: real, D: nat) {
    var kept := Lasting(peers0, b, env, threshold);
    && ToppedUp(kept, peers, Candidates(env, FanoutTest(kept, direct, env, threshold), b), D)
    && forall p :: p in peers ==> env.score(p) >= threshold
  }

  /** A heartbeat drops the fanouts not published to within `ttl`, and refreshes the others. */
  ghost predicate FanoutsBeat(fanout: Meshes, fanout': Meshes, published: map<Bitmask, int>, direct: set<PeerId>,
                              env: Env, threshold: real, ttl: int, D: nat) {
    forall b :: FanoutBeat(fanout, fanout', published, b, direct, env, threshold, ttl, D)
  }

  ghost predicate FanoutBeat(fanout: Meshes, fanout': Meshes, published: map<Bitmask, int>, b: Bitmask,
                             direct: set<PeerId>, env: Env, threshold: real, ttl: int, D: nat) {
    && (b in fanout' <==> b in fanout && (b in published ==> published[b] + ttl >= env.now))
    && (b in fanout' ==> Refreshed(fanout[b], fanout'[b], b, direct, env, threshold, D))
  }

  /** A joined mesh: the fanout peers that qualify, topped up to D. */
  ghost predicate JoinedWith(fanout: Meshes, peers: set<PeerId>, direct: set<PeerId>, backoff: Backoff, b: Bitmask,
                             env: Env, D: nat) {
    var kept := Qualified(if b in fanout then fanout[b] else {}, backoff, b, env);
    ToppedUp(kept, peers, Candidates(env, JoinTest(kept, direct, backoff, b, env), b), D)
  }

  function GraftedIf(listed: bool, c: Composite, p: PeerId, env: Env, Dhi: nat): Composite {
    if listed then GraftedComposite(c, p, env, Dhi) else c
  }

  /** The peers of a fanout that may enter a mesh. */
  function Qualified(peers: set<PeerId>, backoff: Backoff, b: Bitmask, env: Env): set<PeerId> {
    set p | p in peers && env.score(p) >= 0.0 && !HasBackoff(backoff, b, p)
  }

  function JoinTest(have: set<PeerId>, direct: set<PeerId>, backoff: Backoff, b: Bitmask, env: Env): PeerId -> bool {
    p => p !in have && p !in direct && !HasBackoff(backoff, b, p) && env.score(p) >= 0.0
  }

  function FanoutTest(have: set<PeerId>, direct: set<PeerId>, env: Env, threshold: real): PeerId -> bool {
    p => p !in have && p !in direct && env.score(p) >= threshold
  }

  /** The peers of a fanout that are still there and score high enough. */
  function Lasting(peers: set<PeerId>, b: Bitmask, env: Env, threshold: real): set<PeerId> {
    set p | p in peers && Subscribed(env.subs, b, p) && env.score(p) >= threshold
  }

  // ---------------------------------------------------------------- GRAFT and PRUNE messages

  /** A GRAFT that is passed by the filter, names a mesh and does not come from a member is refused exactly if the
      sender is not a member afterwards: of the mesh or, if composites manage it, of each of these. */
  ghost predicate Refused(s: State, s': State, p: PeerId, b: Bitmask, env: Env) {
    && env.filter(p, b) && b in s.mesh && p !in s.mesh[b]
    && if b in s.index then exists ck :: LeftOut(s, s', ck, p, b) else b !in s'.mesh || p !in s'.mesh[b]
  }

  ghost predicate LeftOut(s: State, s': State, ck: Bitmask, p: PeerId, b: Bitmask) {
    ck in s.composites && b in s.composites[ck].slices && ck in s'.composites && p !in s'.composites[ck].Members()
  }

  /** Nobody outside the mesh of a managed slice is in a composite that manages it. */
  lemma NotAdmitted(s: State, p: PeerId, b: Bitmask, env: Env, direct: set<PeerId>)
    requires Inv(s, direct)
    ensures Refused(s, s, p, b, env) <==> env.filter(p, b) && b in s.mesh && p !in s.mesh[b]
  {
    InvMeans(s, direct);
    if b in s.mesh && p !in s.mesh[b] && b in s.index {
      var ck := s.index[b][0];
      assert p in s.composites[ck].Members() ==> Contributes(s.composites, ck, b, p);
      assert LeftOut(s, s, ck, p, b);
    }
  }

  /** How many of the composites listed the peer is not a member of. */
  function Lacking(keys: seq<Bitmask>, composites: Composites, p: PeerId): nat {
    if keys == [] then 0
    else
      var init, ck := keys[..|keys| - 1], keys[|keys| - 1];
      Lacking(init, composites, p) + if ck in composites && p !in composites[ck].Members() then 1 else 0
  }

  lemma {:induction false} LackingKept(keys: seq<Bitmask>, was: Composites, composites: Composites, p: PeerId)
    requires forall ck :: ck in keys ==> ck in was && ck in composites && composites[ck] == was[ck]
    ensures Lacking(keys, composites, p) == Lacking(keys, was, p)
  {
    if keys != [] { LackingKept(keys[..|keys| - 1], was, composites, p); }
  }

  lemma LackingNext(keys: seq<Bitmask>, i: nat, was: Composites, composites: Composites, p: PeerId)
    requires i < |keys| && keys[i] in composites
    requires forall ck :: ck in keys[..i] ==> ck in was && ck in composites && composites[ck] == was[ck]
    ensures Lacking(keys[..i + 1], composites, p) ==
      Lacking(keys[..i], was, p) + if p !in composites[keys[i]].Members() then 1 else 0
  {
    assert keys[..i + 1][..i] == keys[..i];
    LackingKept(keys[..i], was, composites, p);
  }

  lemma {:induction false} LackingIff(keys: seq<Bitmask>, composites: Composites, p: PeerId)
    ensures Lacking(keys, composites, p) > 0 <==>
            exists ck :: ck in keys && ck in composites && p !in composites[ck].Members()
  {
    if keys != [] { LackingIff(keys[..|keys| - 1], composites, p); }
  }

  lemma SomeLeftOut(s: State, s': State, p: PeerId, b: Bitmask)
    requires IndexExact(s.composites, s.index) && b in s.index && s'.composites.Keys == s.composites.Keys
    ensures Lacking(s.index[b], s'.composites, p) > 0 <==> exists ck :: LeftOut(s, s', ck, p, b)
  {
    LackingIff(s.index[b], s'.composites, p);
    if ck :| ck in s.index[b] && ck in s'.composites && p !in s'.composites[ck].Members() {
      assert LeftOut(s, s', ck, p, b);
    }
  }

  /** How often a GRAFT is refused: an admissible one on a managed slice once by every composite that does not let
      the sender in, any other once at most. */
  ghost function Refusals(s: State, s': State, direct: set<PeerId>, p: PeerId, b: Bitmask, env: Env, off: bool): nat {
    if !Refused(s, s', p, b, env) then 0
    else if b in s.index && GraftAdmissible(s.mesh, direct, p, b, env, off) then Lacking(s.index[b], s'.composites, p)
    else 1
  }

  function Repeated(b: Bitmask, n: nat): seq<Bitmask> { seq(n, _ => b) }

  /** A refused sender backs off, unless it is a direct peer. */
  function AfterGraft(backoff: Backoff, direct: set<PeerId>, p: PeerId, b: Bitmask, refused: bool,
                      expire: int): Backoff {
    if refused && p !in direct then WithBackoff(backoff, b, p, expire) else backoff
  }

  /** The tables while the GRAFTs of a message are handled, and the masks refused so far. */
  datatype Answer = Answer(s: State, backoff: Backoff, prune: seq<Bitmask>)

  ghost function GraftDone(a: Answer, direct: set<PeerId>, p: PeerId, b: Bitmask, env: Env, Dhi: nat,
                           interval: int): Answer {
    var off := HasBackoff(a.backoff, b, p) && env.now < a.backoff[b][p];
    var s := Grafted(a.s, direct, p, b, env, off, Dhi);
    var times := Refusals(a.s, s, direct, p, b, env, off);
    Answer(s, AfterGraft(a.backoff, direct, p, b, times > 0, env.now + interval), a.prune + Repeated(b, times))
  }

  ghost function GraftsDone(a: Answer, direct: set<PeerId>, p: PeerId, grafts: seq<Bitmask>, env: Env, Dhi: nat,
                            interval: int): Answer {
    if grafts == [] then a
    else
      var init, last := grafts[..|grafts| - 1], grafts[|grafts| - 1];
      GraftDone(GraftsDone(a, direct, p, init, env, Dhi, interval), direct, p, last, env, Dhi, interval)
  }

  lemma AnsweredIsDone(a: Answer, a': Answer, direct: set<PeerId>, p: PeerId, b: Bitmask, times: nat, env: Env,
                       Dhi: nat, interval: int)
    requires var off := HasBackoff(a.backoff, b, p) && env.now < a.backoff[b][p];
      && a'.s == Grafted(a.s, direct, p, b, env, off, Dhi)
      && times == Refusals(a.s, a'.s, direct, p, b, env, off)
    requires a'.backoff == AfterGraft(a.backoff, direct, p, b, times > 0, env.now + interval)
    requires a'.prune == a.prune + Repeated(b, times)
    ensures a' == GraftDone(a, direct, p, b, env, Dhi, interval)
  {
  }

  lemma GraftsDoneNext(a: Answer, direct: set<PeerId>, p: PeerId, grafts: seq<Bitmask>, i: nat, env: Env, Dhi: nat,
                       interval: int)
    requires i < |grafts|
    ensures GraftsDone(a, direct, p, grafts[..i + 1], env, Dhi, interval) ==
      GraftDone(GraftsDone(a, direct, p, grafts[..i], env, Dhi, interval), direct, p, grafts[i], env, Dhi, interval)
  {
    assert grafts[..i + 1][..i] == grafts[..i];
  }

  /** What a message of GRAFTs keeps: the invariant, the backoffs, which are not shortened, and if it comes from a
      direct peer, everything. Whoever is refused otherwise backs off on the mask for a whole prune backoff. */
  ghost predicate GraftLaws(a: Answer, a': Answer, direct: set<PeerId>, p: PeerId, grafts: seq<Bitmask>, expire: int) {
    && Inv(a'.s, direct) && BackoffGrows(a.backoff, a'.backoff)
    && (p in direct ==> a'.s == a.s && a'.backoff == a.backoff)
    && forall b :: b in a'.prune ==> b in grafts && (p in direct || BackedOff(a'.backoff, b, p, expire))
  }

  lemma {:induction false} GraftsDoneLaws(a: Answer, direct: set<PeerId>, p: PeerId, grafts: seq<Bitmask>, env: Env,
                                          Dhi: nat, interval: int)
    requires Inv(a.s, direct) && a.prune == []
    ensures GraftLaws(a, GraftsDone(a, direct, p, grafts, env, Dhi, interval), direct, p, grafts, env.now + interval)
  {
    if grafts != [] {
      var init, b := grafts[..|grafts| - 1], grafts[|grafts| - 1];
      GraftsDoneLaws(a, direct, p, init, env, Dhi, interval);
      GraftDoneLaws(a, GraftsDone(a, direct, p, init, env, Dhi, interval), direct, p, init, b, env, Dhi, interval);
      assert grafts == init + [b];
    }
  }

  lemma GraftDoneLaws(a: Answer, a1: Answer, direct: set<PeerId>, p: PeerId, init: seq<Bitmask>, b: Bitmask, env: Env,
                      Dhi: nat, interval: int)
    requires GraftLaws(a, a1, direct, p, init, env.now + interval)
    ensures GraftLaws(a, GraftDone(a1, direct, p, b, env, Dhi, interval), direct, p, init + [b], env.now + interval)
  {
    var off := HasBackoff(a1.backoff, b, p) && env.now < a1.backoff[b][p];
    var a2 := GraftDone(a1, direct, p, b, env, Dhi, interval);
    GraftKeepsInv(a1.s, direct, p, b, env, off, Dhi);
    AnsweredLaws(a, a1, a2, direct, p, init, b, Refusals(a1.s, a2.s, direct, p, b, env, off), env.now + interval);
  }

  lemma AnsweredLaws(a: Answer, a1: Answer, a2: Answer, direct: set<PeerId>, p: PeerId, init: seq<Bitmask>, b: Bitmask,
                     times: nat, expire: int)
    requires GraftLaws(a, a1, direct, p, init, expire) && Inv(a2.s, direct) && (p in direct ==> a2.s == a1.s)
    requires a2.backoff == AfterGraft(a1.backoff, direct, p, b, times > 0, expire)
    requires a2.prune == a1.prune + Repeated(b, times)
    ensures GraftLaws(a, a2, direct, p, init + [b], expire)
  {
    AfterGraftGrows(a1.backoff, direct, p, b, times > 0, expire);
    forall m | m in a2.prune ensures m in init + [b] && (p in direct || BackedOff(a2.backoff, m, p, expire)) {
      assert m in a1.prune || (m == b && times > 0);
    }
  }

  ghost predicate BackedOff(backoff: Backoff, b: Bitmask, p: PeerId, expire: int) {
    HasBackoff(backoff, b, p) && backoff[b][p] >= expire
  }

  lemma AfterGraftGrows(backoff: Backoff, direct: set<PeerId>, p: PeerId, b: Bitmask, refused: bool, expire: int)
    ensures BackoffGrows(backoff, AfterGraft(backoff, direct, p, b, refused, expire))
    ensures refused && p !in direct ==> BackedOff(AfterGraft(backoff, direct, p, b, refused, expire), b, p, expire)
  {
    if refused && p !in direct {
      ExtendedMeans(backoff, WithBackoff(backoff, b, p, expire), Row(b, {p}), expire);
      assert Row(b, {p})(b, p);
    }
  }

  /** The sender of a PRUNE backs off for as long as it asks, or else for a prune backoff. */
  function AfterPrune(backoff: Backoff, mesh: Meshes, p: PeerId, b: Bitmask, interval: int, now: int,
                      pruneBackoff: int): Backoff {
    if b in mesh then WithBackoff(backoff, b, p, now + Asked(interval, pruneBackoff)) else backoff
  }

  function Asked(interval: int, pruneBackoff: int): int {
    if interval > 0 then interval else pruneBackoff
  }

  ghost function PrunesDone(s: State, backoff: Backoff, p: PeerId, prunes: seq<(Bitmask, int)>, now: int,
                            pruneBackoff: int): (State, Backoff) {
    if prunes == [] then (s, backoff)
    else
      var (s1, backoff1) := PrunesDone(s, backoff, p, prunes[..|prunes| - 1], now, pruneBackoff);
      var (b, interval) := prunes[|prunes| - 1];
      (Pruned(s1, p, b), AfterPrune(backoff1, s1.mesh, p, b, interval, now, pruneBackoff))
  }

  /** No message of PRUNEs breaks the invariant or shortens a backoff, and on every mask with a mesh the sender backs
      off for as long as each PRUNE asks. */
  lemma {:induction false} PrunesDoneLaws(s: State, backoff: Backoff, p: PeerId, prunes: seq<(Bitmask, int)>, now: int,
                                          pruneBackoff: int, direct: set<PeerId>)
    requires Inv(s, direct)
    ensures var (s', backoff') := PrunesDone(s, backoff, p, prunes, now, pruneBackoff);
      && Inv(s', direct) && s'.mesh.Keys == s.mesh.Keys && BackoffGrows(backoff, backoff')
      && forall i :: 0 <= i < |prunes| && prunes[i].0 in s.mesh ==>
           BackedOff(backoff', prunes[i].0, p, now + Asked(prunes[i].1, pruneBackoff))
  {
    if prunes != [] {
      var init, last := prunes[..|prunes| - 1], prunes[|prunes| - 1];
      PrunesDoneLaws(s, backoff, p, init, now, pruneBackoff, direct);
      var (s1, backoff1) := PrunesDone(s, backoff, p, init, now, pruneBackoff);
      PruneKeepsInv(s1, p, last.0, direct);
      AfterPruneGrows(backoff1, s1.mesh, p, last.0, last.1, now, pruneBackoff);
      assert forall i :: 0 <= i < |init| ==> init[i] == prunes[i];
    }
  }

  lemma AfterPruneGrows(backoff: Backoff, mesh: Meshes, p: PeerId, b: Bitmask, interval: int, now: int,
                        pruneBackoff: int)
    ensures BackoffGrows(backoff, AfterPrune(backoff, mesh, p, b, interval, now, pruneBackoff))
    ensures b in mesh ==>
      BackedOff(AfterPrune(backoff, mesh, p, b, interval, now, pruneBackoff), b, p, now + Asked(interval, pruneBackoff))
  {
    if b in mesh {
      var expire := now + Asked(interval, pruneBackoff);
      ExtendedMeans(backoff, WithBackoff(backoff, b, p, expire), Row(b, {p}), expire);
      assert Row(b, {p})(b, p);
    }
  }

  // ---------------------------------------------------------------- the runs of a heartbeat

  /** How one composite was maintained: the backoffs before, the works after steps 2 to 5, and the last one. */
  datatype CompositeRun = CompositeRun(ck: Bitmask, table: Backoff, settled: Work, stages: Stages, final: Work)

  ghost predicate CompositeRan(c: Composite, r: CompositeRun, x: Context) {
    var x' := x.(table := r.table);
    && Settled(c, r.settled, x') && Balanced(r.settled, r.final, r.stages, r.ck, x') && Tabled(r.final, x')
    && Maintained(c, r.final.c, x.env, x.direct)
  }

  /** The composites were maintained one after the other, each once, starting from the backoffs the last one left. */
  ghost predicate CompositeRuns(runs: seq<CompositeRun>, before: Composites, after: Composites, table: Backoff,
                                table': Backoff, x: Context) {
    if runs == [] then table' == table
    else
      var r := runs[|runs| - 1];
      && r.ck in before && r.ck in after && after[r.ck] == r.final.c && table' == r.final.backoff
      && CompositeRan(before[r.ck], r, x) && r.ck !in Visited(runs[..|runs| - 1])
      && CompositeRuns(runs[..|runs| - 1], before, after, table, r.table, x)
  }

  ghost function Visited(runs: seq<CompositeRun>): set<Bitmask> {
    set r | r in runs :: r.ck
  }

  /** There are as many runs as composites. */
  lemma {:induction false} CompositeRunsOnce(runs: seq<CompositeRun>, before: Composites, after: Composites,
                                             table: Backoff, table': Backoff, x: Context)
    requires CompositeRuns(runs, before, after, table, table', x)
    ensures |runs| == |Visited(runs)|
  {
    if runs != [] {
      var init, r := runs[..|runs| - 1], runs[|runs| - 1];
      CompositeRunsOnce(init, before, after, table, r.table, x);
      assert runs == init + [r];
      OneMoreVisited(init, r);
    }
  }

  lemma OneMoreVisited(runs: seq<CompositeRun>, r: CompositeRun)
    requires r.ck !in Visited(runs)
    ensures |Visited(runs + [r])| == |Visited(runs)| + 1
  {
    VisitedAdded(runs, r);
  }

  lemma {:induction false} RunsKept(runs: seq<CompositeRun>, before: Composites, after: Composites, after': Composites,
                                    table: Backoff, table': Backoff, x: Context)
    requires CompositeRuns(runs, before, after, table, table', x)
    requires forall ck :: ck in Visited(runs) ==> ck in after' && ck in after && after'[ck] == after[ck]
    ensures CompositeRuns(runs, before, after', table, table', x)
  {
    if runs != [] {
      var init, r := runs[..|runs| - 1], runs[|runs| - 1];
      assert r in runs && forall q :: q in init ==> q in runs;
      RunsKept(init, before, after, after', table, r.table, x);
    }
  }

  lemma RunAdded(runs: seq<CompositeRun>, r: CompositeRun, before: Composites, was: Composites, after: Composites,
                 table: Backoff, x: Context)
    requires CompositeRuns(runs, before, was, table, r.table, x) && r.ck !in Visited(runs) && Visited(runs) <= was.Keys
    requires r.ck in before && CompositeRan(before[r.ck], r, x) && after == was[r.ck := r.final.c]
    ensures CompositeRuns(runs + [r], before, after, table, r.final.backoff, x)
  {
    RunsKept(runs, before, was, after, table, r.table, x);
    var all := runs + [r];
    assert all[..|all| - 1] == runs && all[|all| - 1] == r;
  }

  /** Where the maintenance of the composites stands when those in `left` are still to come. */
  ghost predicate Progress(before: Composites, after: Composites, left: set<Bitmask>, runs: seq<CompositeRun>,
                           table: Backoff, table': Backoff, x: Context) {
    && after.Keys == before.Keys && (forall ck :: ck in left && ck in after ==> after[ck] == before[ck])
    && AllMaintained(before, after, after.Keys - left, x.env, x.direct)
    && CompositeRuns(runs, before, after, table, table', x) && Visited(runs) == after.Keys - left
    && BackoffGrows(table, table')
  }

  lemma ProgressMade(before: Composites, was: Composites, after: Composites, left: set<Bitmask>,
                     runs: seq<CompositeRun>,
                     r: CompositeRun, table: Backoff, x: Context)
    requires Progress(before, was, left, runs, table, r.table, x) && r.ck in left && r.ck in was
    requires CompositeRan(was[r.ck], r, x) && after == was[r.ck := r.final.c] && BackoffGrows(r.table, r.final.backoff)
    ensures Progress(before, after, left - {r.ck}, runs + [r], table, r.final.backoff, x)
  {
    RunAdded(runs, r, before, was, after, table, x);
    VisitedAdded(runs, r);
    assert after.Keys - (left - {r.ck}) == (was.Keys - left) + {r.ck};
    forall k | k in after.Keys - (left - {r.ck}) ensures MaintainedAt(before, after, k, x.env, x.direct) {
      assert k != r.ck ==> MaintainedAt(before, was, k, x.env, x.direct);
    }
  }

  lemma VisitedAdded(runs: seq<CompositeRun>, r: CompositeRun)
    ensures Visited(runs + [r]) == Visited(runs) + {r.ck}
  {
    forall ck | ck in Visited(runs) + {r.ck} ensures ck in Visited(runs + [r]) {
      if ck == r.ck {
        assert r in runs + [r];
      } else {
        var q :| q in runs && q.ck == ck;
        assert q in runs + [r];
      }
    }
  }

  /** After all of them, whoever was pruned in one of them backs off on every slice it announced. */
  lemma {:induction false} CompositeRunsBackOff(runs: seq<CompositeRun>, before: Composites, after: Composites,
                                                table: Backoff,
                                                table': Backoff, x: Context, i: nat, s: Bitmask, p: PeerId)
    requires CompositeRuns(runs, before, after, table, table', x) && i < |runs| && p in runs[i].final.pruned
    requires s in runs[i].final.c.slices && Subscribed(x.env.subs, s, p)
    ensures BackedOff(table', s, p, x.Expire())
  {
    var init, r := runs[..|runs| - 1], runs[|runs| - 1];
    var hits := Announcements(r.final.pruned, r.final.c.slices, x.env.subs);
    ExtendedMeans(r.table, table', hits, x.Expire());
    if i < |init| {
      CompositeRunsBackOff(init, before, after, table, r.table, x, i, s, p);
    } else {
      assert hits(s, p);
    }
  }

  /** How one mesh was maintained: the backoffs before, the meshes after steps 1 to 4, and the last one. */
  datatype MeshRun = MeshRun(b: Bitmask, table: Backoff, stages: MeshStages, final: MeshWork)

  ghost predicate MeshRan(peers: set<PeerId>, r: MeshRun, x: Context, o: Opportunity) {
    && MeshMaintained(peers, r.b, x.(table := r.table), o, r.stages, r.final)
    && MeshGood(r.final, r.b, x.(table := r.table))
  }

  /** The same for the meshes that no composite manages. */
  ghost predicate MeshRuns(runs: seq<MeshRun>, before: Meshes, after: Meshes, table: Backoff, table': Backoff,
                           x: Context, o: Opportunity) {
    if runs == [] then table' == table
    else
      var r := runs[|runs| - 1];
      && r.b in before && r.b in after && after[r.b] == r.final.peers && table' == r.final.backoff
      && MeshRan(before[r.b], r, x, o) && r.b !in VisitedMeshes(runs[..|runs| - 1])
      && MeshRuns(runs[..|runs| - 1], before, after, table, r.table, x, o)
  }

  ghost function VisitedMeshes(runs: seq<MeshRun>): set<Bitmask> {
    set r | r in runs :: r.b
  }

  lemma {:induction false} MeshRunsOnce(runs: seq<MeshRun>, before: Meshes, after: Meshes, table: Backoff,
                                        table': Backoff, x: Context, o: Opportunity)
    requires MeshRuns(runs, before, after, table, table', x, o)
    ensures |runs| == |VisitedMeshes(runs)|
  {
    if runs != [] {
      var init, r := runs[..|runs| - 1], runs[|runs| - 1];
      MeshRunsOnce(init, before, after, table, r.table, x, o);
      assert runs == init + [r];
      OneMoreMeshVisited(init, r);
    }
  }

  lemma OneMoreMeshVisited(runs: seq<MeshRun>, r: MeshRun)
    requires r.b !in VisitedMeshes(runs)
    ensures |VisitedMeshes(runs + [r])| == |VisitedMeshes(runs)| + 1
  {
    VisitedMeshesAdded(runs, r);
  }

  /** After all of them, whoever was pruned in one of them backs off on its mask. */
  lemma {:induction false} MeshRunsBackOff(runs: seq<MeshRun>, before: Meshes, after: Meshes, table: Backoff,
                                           table': Backoff,
                                           x: Context, o: Opportunity, i: nat, p: PeerId)
    requires MeshRuns(runs, before, after, table, table', x, o) && i < |runs| && p in runs[i].final.pruned
    ensures BackedOff(table', runs[i].b, p, x.Expire())
  {
    var init, r := runs[..|runs| - 1], runs[|runs| - 1];
    var hits := Row(r.b, r.final.pruned);
    ExtendedMeans(r.table, table', hits, x.Expire());
    if i < |init| {
      MeshRunsBackOff(init, before, after, table, r.table, x, o, i, p);
    } else {
      assert hits(r.b, p);
    }
  }

  lemma {:induction false} MeshRunsKept(runs: seq<MeshRun>, before: Meshes, before': Meshes, after: Meshes,
                                        after': Meshes,
                                        table: Backoff, table': Backoff, x: Context, o: Opportunity)
    requires MeshRuns(runs, before, after, table, table', x, o)
    requires forall b :: b in VisitedMeshes(runs) ==>
      b in after && b in after' && after'[b] == after[b] && b in before && b in before' && before'[b] == before[b]
    ensures MeshRuns(runs, before', after', table, table', x, o)
  {
    if runs != [] {
      var init, r := runs[..|runs| - 1], runs[|runs| - 1];
      assert r in runs && forall q :: q in init ==> q in runs;
      MeshRunsKept(init, before, before', after, after', table, r.table, x, o);
    }
  }

  lemma MeshRunAdded(runs: seq<MeshRun>, r: MeshRun, before: Meshes, was: Meshes, after: Meshes, table: Backoff,
                     x: Context, o: Opportunity)
    requires MeshRuns(runs, before, was, table, r.table, x, o) && r.b !in VisitedMeshes(runs)
    requires VisitedMeshes(runs) <= was.Keys && VisitedMeshes(runs) <= before.Keys && r.b in before
    requires MeshRan(before[r.b], r, x, o) && after == was[r.b := r.final.peers]
    ensures MeshRuns(runs + [r], before, after, table, r.final.backoff, x, o)
  {
    MeshRunsKept(runs, before, before, was, after, table, r.table, x, o);
    var all := runs + [r];
    assert all[..|all| - 1] == runs && all[|all| - 1] == r;
  }

  /** Where the maintenance of the meshes in `keys` stands when those in `left` are still to come. */
  ghost predicate MeshProgress(before: Meshes, after: Meshes, keys: set<Bitmask>, left: set<Bitmask>,
                               runs: seq<MeshRun>,
                               table: Backoff, table': Backoff, x: Context, o: Opportunity, most: nat) {
    && after.Keys == before.Keys && keys <= before.Keys
    && (forall b :: b in after && (b in left || b !in keys) ==> after[b] == before[b])
    && (forall b :: b in keys - left ==> MeshFit(after[b], x.env, x.direct, most))
    && MeshRuns(runs, before, after, table, table', x, o) && VisitedMeshes(runs) == keys - left
    && BackoffGrows(table, table')
  }

  lemma MeshProgressMade(before: Meshes, was: Meshes, after: Meshes, keys: set<Bitmask>, left: set<Bitmask>,
                         runs: seq<MeshRun>,
                         r: MeshRun, table: Backoff, x: Context, o: Opportunity, most: nat)
    requires MeshProgress(before, was, keys, left, runs, table, r.table, x, o, most) && r.b in left && left <= keys
    requires MeshRan(was[r.b], r, x, o) && after == was[r.b := r.final.peers] && BackoffGrows(r.table, r.final.backoff)
    requires MeshFit(r.final.peers, x.env, x.direct, most)
    ensures MeshProgress(before, after, keys, left - {r.b}, runs + [r], table, r.final.backoff, x, o, most)
  {
    MeshRunAdded(runs, r, before, was, after, table, x, o);
    VisitedMeshesAdded(runs, r);
    assert keys - (left - {r.b}) == (keys - left) + {r.b};
  }

  lemma VisitedMeshesAdded(runs: seq<MeshRun>, r: MeshRun)
    ensures VisitedMeshes(runs + [r]) == VisitedMeshes(runs) + {r.b}
  {
    forall b | b in VisitedMeshes(runs) + {r.b} ensures b in VisitedMeshes(runs + [r]) {
      if b == r.b {
        assert r in runs + [r];
      } else {
        var q :| q in runs && q.b == b;
        assert q in runs + [r];
      }
    }
  }

  lemma GraftKeepsShape(composites: Composites, b: Bitmask, p: PeerId, env: Env, Dhi: nat, index: Index)
    requires IndexExact(composites, index)
    ensures IndexExact(GraftedComposites(composites, b, p, env, Dhi), index)
  {
    var grafted := GraftedComposites(composites, b, p, env, Dhi);
    assert forall ck :: ck in composites ==> grafted[ck].slices == composites[ck].slices;
  }

  /** The mesh of slice `b` in the middle of a rebuild, when the composites in `done` have been added. */
  ghost predicate PartialAt(before: Meshes, mesh: Meshes, done: Composites, index: Index, b: Bitmask) {
    if b in index then
      && (b in mesh <==> b in before || exists ck :: ck in done && b in done[ck].slices)
      && (b in mesh ==> mesh[b] == MembersOn(done, b))
    else (b in mesh <==> b in before) && (b in mesh ==> mesh[b] == before[b])
  }

  ghost predicate Partial(before: Meshes, mesh: Meshes, done: Composites, index: Index) {
    forall b :: PartialAt(before, mesh, done, index, b)
  }

  lemma PartialIsRebuilt(before: Meshes, mesh: Meshes, composites: Composites, index: Index)
    requires IndexExact(composites, index) && Partial(before, mesh, composites, index)
    ensures mesh == Rebuilt(before, composites, index)
  {
    forall b ensures b in mesh <==> b in before || b in index
             ensures b in mesh ==> mesh[b] == if b in index then MembersOn(composites, b) else before[b]
    {
      assert PartialAt(before, mesh, composites, index, b);
      if b in index { assert index[b][0] in composites && b in composites[index[b][0]].slices; }
    }
  }

  /** Adding one composite to the meshes of its slices takes one partial rebuild to the next. */
  lemma AddedIsPartial(before: Meshes, m: Meshes, mesh: Meshes, done: Composites, ck: Bitmask, c: Composite,
                       index: Index, b: Bitmask)
    requires ck !in done && PartialAt(before, m, done, index, b) && (b in c.slices ==> b in index)
    requires b in mesh <==> b in m || b in c.slices
    requires b in mesh ==> mesh[b] == (if b in m then m[b] else {}) + if b in c.slices then c.Members() else {}
    ensures PartialAt(before, mesh, done[ck := c], index, b)
  {
    var done' := done[ck := c];
    MembersOnAdded(done, ck, c, b);
    if k :| k in done && b in done[k].slices { assert k in done' && done'[k] == done[k]; }
    if k :| k in done' && b in done'[k].slices { assert k == ck || (k in done && done'[k] == done[k]); }
    if b in c.slices { assert ck in done' && done'[ck] == c; }
    if b !in m { assert forall p :: p in MembersOn(done, b) ==> exists k :: Contributes(done, k, b, p); }
  }

  lemma MembersOnAdded(done: Composites, ck: Bitmask, c: Composite, b: Bitmask)
    requires ck !in done
    ensures MembersOn(done[ck := c], b) == MembersOn(done, b) + if b in c.slices then c.Members() else {}
  {
    var done' := done[ck := c];
    forall p ensures p in MembersOn(done', b) <==> p in MembersOn(done, b) || (b in c.slices && p in c.Members()) {
      if k :| Contributes(done, k, b, p) { assert done'[k] == done[k] && Contributes(done', k, b, p); }
      if b in c.slices && p in c.Members() { assert Contributes(done', ck, b, p); }
      if k :| Contributes(done', k, b, p) && k != ck { assert done'[k] == done[k] && Contributes(done, k, b, p); }
    }
  }

  /** Cuts the first occurrence of `ck` out of a list. */
  method RemoveFirst(keys: seq<Bitmask>, ck: Bitmask) returns (rest: seq<Bitmask>)
    ensures rest == Without(keys, ck)
  {
    for i := 0 to |keys|
      invariant ck !in keys[..i]
    {
      assert keys == keys[..i] + keys[i..] && keys[..i + 1] == keys[..i] + [keys[i]];
      if keys[i] == ck {
        WithoutAfter(keys[..i], keys[i..], ck);
        assert keys[i..][1..] == keys[i + 1..];
        return keys[..i] + keys[i + 1..];
      }
    }
    assert keys[..|keys|] == keys && keys + [] == keys;
    WithoutAfter(keys, [], ck);
    return keys;
  }

  lemma {:induction false} WithoutAfter(a: seq<Bitmask>, b: seq<Bitmask>, ck: Bitmask)
    requires ck !in a
    ensures Without(a + b, ck) == a + Without(b, ck)
  {
    if a == [] {
      assert a + b == b;
    } else {
      assert (a + b)[1..] == a[1..] + b;
      WithoutAfter(a[1..], b, ck);
    }
  }

  /** Rebuilding before the peer is dropped makes no difference to the mesh that results. */
  lemma RemovedMeshAt(s: State, p: PeerId, direct: set<PeerId>, b: Bitmask)
    requires Inv(s, direct)
    ensures var rebuilt := Rebuilt(s.mesh, PeerRemoved(s, p).composites, s.index);
      (b in rebuilt <==> b in s.mesh) && (b in s.mesh ==> rebuilt[b] - {p} == s.mesh[b] - {p})
  {
    assert InvAt(s, direct, b);
    if b in s.index { RemovedMembers(s, p, b); }
  }

  lemma RemovedMesh(s: State, p: PeerId, direct: set<PeerId>)
    requires Inv(s, direct)
    ensures Dropped(Rebuilt(s.mesh, PeerRemoved(s, p).composites, s.index), p) == Dropped(s.mesh, p)
  {
    var rebuilt := Rebuilt(s.mesh, PeerRemoved(s, p).composites, s.index);
    forall b ensures (b in rebuilt <==> b in s.mesh) && (b in s.mesh ==> rebuilt[b] - {p} == s.mesh[b] - {p}) {
      RemovedMeshAt(s, p, direct, b);
    }
    assert rebuilt.Keys == s.mesh.Keys;
  }
}
