/** The mesh tables of the BlossomSub router as values: what each operation does to them,
    the invariant every operation keeps, and the invariant over every run. */
module RouterSpec {
  import opened Bitmasks
  import opened Peers

  /** A composite mesh: `same` peers subscribe to all slices, `broker` peers to some. */
  datatype Composite = Composite(slices: seq<Bitmask>, same: set<PeerId>, broker: set<PeerId>) {
    function Members(): set<PeerId> { same + broker }
    function Total(): nat { |same| + |broker| }
  }

  type Meshes = map<Bitmask, set<PeerId>>
  type Composites = map<Bitmask, Composite>
  type Index = map<Bitmask, seq<Bitmask>>

  datatype State = State(mesh: Meshes, fanout: Meshes, composites: Composites, index: Index)

  /** What an operation reads from outside the mesh tables: the peers' announced subscriptions, their
      scores, connection directions and protocol features, the application's peer filter, the clock. */
  datatype Env = Env(subs: Meshes, score: PeerId -> real, outbound: set<PeerId>, capable: set<PeerId>,
                     filter: (PeerId, Bitmask) -> bool, now: int)

  predicate Subscribed(subs: Meshes, slice: Bitmask, p: PeerId) {
    slice in subs && p in subs[slice]
  }

  predicate SubscribedToAll(subs: Meshes, slices: seq<Bitmask>, p: PeerId) {
    forall i :: 0 <= i < |slices| ==> Subscribed(subs, slices[i], p)
  }

  predicate SubscribedToSome(subs: Meshes, slices: seq<Bitmask>, p: PeerId) {
    exists i :: 0 <= i < |slices| && Subscribed(subs, slices[i], p)
  }

  // ---------------------------------------------------------------- invariant

  ghost predicate CompositesWellFormed(composites: Composites) {
    forall ck :: ck in composites ==>
      composites[ck].slices == Slices(ck) && |composites[ck].slices| > 1 && composites[ck].same !! composites[ck].broker
  }

  /** The reverse index lists, for each managed slice, exactly the composites containing it, each once. */
  ghost predicate IndexExact(composites: Composites, index: Index) {
    && (forall s :: s in index ==> index[s] != [] && NoDuplicates(index[s]))
    && (forall s, ck :: (s in index && ck in index[s]) <==> (ck in composites && s in composites[ck].slices))
  }

  /** Whether composite `ck` puts peer `p` into the mesh of slice `s`. */
  ghost predicate Contributes(composites: Composites, ck: Bitmask, s: Bitmask, p: PeerId) {
    ck in composites && s in composites[ck].slices && p in composites[ck].Members()
  }

  /** The union of same and broker over the composites containing slice `s`. */
  ghost function MembersOn(composites: Composites, s: Bitmask): set<PeerId> {
    set ck, p | ck in composites && p in composites[ck].Members() && Contributes(composites, ck, s, p) :: p
  }

  ghost predicate MeshDerived(mesh: Meshes, composites: Composites, index: Index) {
    forall s :: s in index ==> s in mesh && mesh[s] == MembersOn(composites, s)
  }

  ghost predicate Avoids(meshes: Meshes, direct: set<PeerId>) {
    forall b :: b in meshes ==> meshes[b] !! direct
  }

  ghost predicate CompositesAvoid(composites: Composites, direct: set<PeerId>) {
    forall ck :: ck in composites ==> composites[ck].Members() !! direct
  }

  /** The invariant, mask by mask: a composite of mask `b` has its slices and disjoint members; slice `b` is listed
      with exactly the composites containing it, each once, and if it is listed its mesh is the union over them;
      and no direct peer is in anything under `b`. */
  ghost predicate InvAt(s: State, direct: set<PeerId>, b: Bitmask) {
    && (b in s.composites ==> var c := s.composites[b];
          c.slices == Slices(b) && |c.slices| > 1 && c.same !! c.broker && c.Members() !! direct)
    && (b in s.index ==> s.index[b] != [] && NoDuplicates(s.index[b]))
    && (b in s.index ==> b in s.mesh && s.mesh[b] == MembersOn(s.composites, b))
    && (forall ck :: (b in s.index && ck in s.index[b]) <==> (ck in s.composites && b in s.composites[ck].slices))
    && (b in s.mesh ==> s.mesh[b] !! direct) && (b in s.fanout ==> s.fanout[b] !! direct)
  }

  ghost predicate Inv(s: State, direct: set<PeerId>) {
    forall b :: InvAt(s, direct, b)
  }

  lemma InvMeans(s: State, direct: set<PeerId>)
    requires Inv(s, direct)
    ensures CompositesWellFormed(s.composites) && IndexExact(s.composites, s.index)
    ensures MeshDerived(s.mesh, s.composites, s.index)
    ensures Avoids(s.mesh, direct) && Avoids(s.fanout, direct) && CompositesAvoid(s.composites, direct)
  {
    InvMeansIndex(s, direct);
    forall b ensures (b in s.mesh ==> s.mesh[b] !! direct) && (b in s.fanout ==> s.fanout[b] !! direct) {
      assert InvAt(s, direct, b);
    }
    forall ck | ck in s.composites
      ensures s.composites[ck].slices == Slices(ck) && |s.composites[ck].slices| > 1
      ensures s.composites[ck].same !! s.composites[ck].broker && s.composites[ck].Members() !! direct
    {
      assert InvAt(s, direct, ck);
    }
  }

  lemma InvMeansIndex(s: State, direct: set<PeerId>)
    requires Inv(s, direct)
    ensures IndexExact(s.composites, s.index) && MeshDerived(s.mesh, s.composites, s.index)
  {
    forall b | b in s.index
      ensures s.index[b] != [] && NoDuplicates(s.index[b]) && b in s.mesh && s.mesh[b] == MembersOn(s.composites, b)
    {
      assert InvAt(s, direct, b);
    }
    forall b, ck ensures (b in s.index && ck in s.index[b]) <==> (ck in s.composites && b in s.composites[ck].slices) {
      assert InvAt(s, direct, b);
    }
  }

  lemma MeansInv(s: State, direct: set<PeerId>)
    requires CompositesWellFormed(s.composites) && IndexExact(s.composites, s.index)
    requires MeshDerived(s.mesh, s.composites, s.index)
    requires Avoids(s.mesh, direct) && Avoids(s.fanout, direct) && CompositesAvoid(s.composites, direct)
    ensures Inv(s, direct)
  {
    forall b ensures InvAt(s, direct, b) { }
  }

  // ---------------------------------------------------------------- rebuilding

  /** The meshes after a rebuild: managed slices from the composites, the others untouched. */
  ghost function Rebuilt(mesh: Meshes, composites: Composites, index: Index): Meshes {
    map b | b in mesh.Keys + index.Keys :: if b in index then MembersOn(composites, b) else mesh[b]
  }

  lemma RebuiltAvoids(mesh: Meshes, composites: Composites, index: Index, direct: set<PeerId>)
    requires Avoids(mesh, direct) && CompositesAvoid(composites, direct)
    ensures Avoids(Rebuilt(mesh, composites, index), direct)
    ensures MeshDerived(Rebuilt(mesh, composites, index), composites, index)
  {
  }

  // ---------------------------------------------------------------- composites and the index

  ghost function Appended(index: Index, s: Bitmask, ck: Bitmask): Index {
    index[s := (if s in index then index[s] else []) + [ck]]
  }

  /** The index after `ck` is appended to the list of each slice. */
  ghost function Indexed(index: Index, slices: seq<Bitmask>, ck: Bitmask): Index {
    if slices == [] then index
    else Appended(Indexed(index, slices[..|slices| - 1], ck), slices[|slices| - 1], ck)
  }

  /** A list without the first occurrence of `ck`. */
  function Without(keys: seq<Bitmask>, ck: Bitmask): seq<Bitmask> {
    if keys == [] then [] else if keys[0] == ck then keys[1..] else [keys[0]] + Without(keys[1..], ck)
  }

  ghost function Removed(index: Index, s: Bitmask, ck: Bitmask): Index {
    var keys := Without(if s in index then index[s] else [], ck);
    if keys == [] then index - {s} else index[s := keys]
  }

  /** The index after `ck` is taken off the list of each slice, empty lists being dropped. */
  ghost function Unindexed(index: Index, slices: seq<Bitmask>, ck: Bitmask): Index {
    if slices == [] then index
    else Removed(Unindexed(index, slices[..|slices| - 1], ck), slices[|slices| - 1], ck)
  }

  /** JoinComposite of a new multi-bit mask with the chosen peers. */
  ghost function JoinedComposite(s: State, ck: Bitmask, same: set<PeerId>, broker: set<PeerId>): State {
    var composites := s.composites[ck := Composite(Slices(ck), same, broker)];
    var index := Indexed(s.index, Slices(ck), ck);
    s.(composites := composites, index := index, mesh := Rebuilt(s.mesh, composites, index))
  }

  /** LeaveComposite of an existing composite. Slices no other composite manages lose their mesh. */
  ghost function LeftComposite(s: State, ck: Bitmask): State {
    var composites := s.composites - {ck};
    var index := Unindexed(s.index, Slices(ck), ck);
    var mesh := s.mesh - (set b | b in Slices(ck) && b !in index);
    s.(composites := composites, index := index, mesh := Rebuilt(mesh, composites, index))
  }

  // ---------------------------------------------------------------- GRAFT, PRUNE and disconnects

  /** A composite after a GRAFT from `p` has been accepted for one of its slices. */
  function GraftedComposite(c: Composite, p: PeerId, env: Env, Dhi: nat): Composite {
    var all := SubscribedToAll(env.subs, c.slices, p);
    if p in c.same then c
    else if p in c.broker then
      if all then c.(broker := c.broker - {p}, same := c.same + {p}) else c
    else if |c.same| + |c.broker| >= Dhi && p !in env.outbound then c
    else if all then c.(same := c.same + {p})
    else c.(broker := c.broker + {p})
  }

  ghost function GraftedComposites(composites: Composites, b: Bitmask, p: PeerId, env: Env, Dhi: nat): Composites {
    map ck | ck in composites ::
      if b in composites[ck].slices then GraftedComposite(composites[ck], p, env, Dhi) else composites[ck]
  }

  /** The tests a GRAFT must pass before the mesh is touched. */
  predicate GraftAdmissible(mesh: Meshes, direct: set<PeerId>, p: PeerId, b: Bitmask, env: Env, backingOff: bool) {
    env.filter(p, b) && b in mesh && p !in mesh[b] && p !in direct && !backingOff && env.score(p) >= 0.0
  }

  ghost function Grafted(s: State, direct: set<PeerId>, p: PeerId, b: Bitmask, env: Env, backingOff: bool,
                         Dhi: nat): State {
    if !GraftAdmissible(s.mesh, direct, p, b, env, backingOff) then s
    else if b in s.index then
      var composites := GraftedComposites(s.composites, b, p, env, Dhi);
      s.(composites := composites, mesh := Rebuilt(s.mesh, composites, s.index))
    else if |s.mesh[b]| >= Dhi && p !in env.outbound then s
    else s.(mesh := s.mesh[b := s.mesh[b] + {p}])
  }

  function Demoted(c: Composite, p: PeerId): Composite {
    if p in c.same then c.(same := c.same - {p}, broker := c.broker + {p}) else c
  }

  /** A PRUNE on a managed slice only demotes the peer; the meshes are not rebuilt. */
  ghost function Pruned(s: State, p: PeerId, b: Bitmask): State {
    if b !in s.mesh then s
    else if b in s.index then
      s.(composites := map ck | ck in s.composites ::
           if b in s.composites[ck].slices then Demoted(s.composites[ck], p) else s.composites[ck])
    else s.(mesh := s.mesh[b := s.mesh[b] - {p}])
  }

  ghost function Dropped(meshes: Meshes, p: PeerId): Meshes {
    map b | b in meshes :: meshes[b] - {p}
  }

  ghost function PeerRemoved(s: State, p: PeerId): State {
    State(Dropped(s.mesh, p), Dropped(s.fanout, p), map ck | ck in s.composites :: Left(s.composites[ck], p), s.index)
  }

  function Left(c: Composite, p: PeerId): Composite {
    c.(same := c.same - {p}, broker := c.broker - {p})
  }

  // ---------------------------------------------------------------- one step, and runs

  ghost predicate JoinStep(s: State, s': State, b: Bitmask, direct: set<PeerId>) {
    if b in s.mesh then s' == s
    else b in s'.mesh && s'.mesh[b] !! direct && s' == s.(mesh := s.mesh[b := s'.mesh[b]], fanout := s.fanout - {b})
  }

  ghost predicate LeaveStep(s: State, s': State, b: Bitmask) {
    b !in s.index && s' == s.(mesh := s.mesh - {b})
  }

  ghost predicate JoinCompositeStep(s: State, s': State, b: Bitmask, direct: set<PeerId>) {
    if |Slices(b)| <= 1 || b in s.composites then s' == s
    else
      && b in s'.composites
      && s'.composites[b].same !! s'.composites[b].broker && s'.composites[b].Members() !! direct
      && s' == JoinedComposite(s, b, s'.composites[b].same, s'.composites[b].broker)
  }

  ghost predicate LeaveCompositeStep(s: State, s': State, b: Bitmask) {
    s' == if b in s.composites then LeftComposite(s, b) else s
  }

  /** A fanout entry is created for a publish, or replaced, or expires. */
  ghost predicate FanoutStep(s: State, s': State, direct: set<PeerId>) {
    s' == s.(fanout := s'.fanout) && Avoids(s'.fanout, direct)
  }

  /** A heartbeat keeps the composites and their slices and reshapes their membership and the unmanaged
      meshes without admitting direct peers. It rebuilds the managed meshes only if a composite changed. */
  ghost predicate HeartbeatStep(s: State, s': State, changed: bool, direct: set<PeerId>) {
    && s'.index == s.index && s'.composites.Keys == s.composites.Keys && s'.mesh.Keys == s.mesh.Keys
    && (forall ck :: ck in s.composites ==>
          s'.composites[ck].slices == s.composites[ck].slices && s'.composites[ck].same !! s'.composites[ck].broker)
    && CompositesAvoid(s'.composites, direct) && Avoids(s'.mesh, direct) && Avoids(s'.fanout, direct)
    && (!changed ==> s'.composites == s.composites)
    && (forall b :: b in s.index && b in s.mesh ==>
          s'.mesh[b] == if changed then MembersOn(s'.composites, b) else s.mesh[b])
  }

  ghost predicate Step(s: State, s': State, direct: set<PeerId>) {
    || (exists b :: JoinStep(s, s', b, direct))
    || (exists b :: LeaveStep(s, s', b))
    || (exists b :: JoinCompositeStep(s, s', b, direct))
    || (exists b :: LeaveCompositeStep(s, s', b))
    || (exists p, b, env, off, Dhi :: s' == Grafted(s, direct, p, b, env, off, Dhi))
    || (exists p, b :: s' == Pruned(s, p, b))
    || (exists p :: s' == PeerRemoved(s, p))
    || FanoutStep(s, s', direct)
    || (exists changed :: HeartbeatStep(s, s', changed, direct))
  }

  const Empty := State(map[], map[], map[], map[])

  ghost predicate Run(states: seq<State>, direct: set<PeerId>) {
    states != [] && states[0] == Empty && forall i :: 0 <= i < |states| - 1 ==> Step(states[i], states[i + 1], direct)
  }

  // ---------------------------------------------------------------- lemmas: the index

  lemma {:induction false} IndexedAt(index: Index, slices: seq<Bitmask>, ck: Bitmask, s: Bitmask)
    requires NoDuplicates(slices)
    ensures s in Indexed(index, slices, ck) <==> s in index || s in slices
    ensures s in Indexed(index, slices, ck) ==>
      Indexed(index, slices, ck)[s] == (if s in index then index[s] else []) + if s in slices then [ck] else []
  {
    if slices != [] {
      var init, last := slices[..|slices| - 1], slices[|slices| - 1];
      assert slices == init + [last];
      IndexedAt(index, init, ck, s);
    }
  }

  lemma {:induction false} WithoutFacts(keys: seq<Bitmask>, ck: Bitmask)
    requires NoDuplicates(keys)
    ensures NoDuplicates(Without(keys, ck))
    ensures forall k :: k in Without(keys, ck) <==> k in keys && k != ck
  {
    if keys != [] {
      WithoutFacts(keys[1..], ck);
      assert keys == [keys[0]] + keys[1..];
      var rest := Without(keys[1..], ck);
      forall i | 0 <= i < |rest| ensures rest[i] != keys[0] { assert rest[i] in rest; }
    }
  }

  lemma {:induction false} UnindexedAt(index: Index, slices: seq<Bitmask>, ck: Bitmask, s: Bitmask)
    requires NoDuplicates(slices)
    requires forall b :: b in index ==> index[b] != []
    ensures forall b :: b in Unindexed(index, slices, ck) ==> Unindexed(index, slices, ck)[b] != []
    ensures s !in slices ==> (s in Unindexed(index, slices, ck) <==> s in index)
    ensures s !in slices && s in index ==> Unindexed(index, slices, ck)[s] == index[s]
    ensures var keys := Without(if s in index then index[s] else [], ck);
      s in slices ==> if keys == [] then s !in Unindexed(index, slices, ck)
                      else s in Unindexed(index, slices, ck) && Unindexed(index, slices, ck)[s] == keys
  {
    if slices != [] {
      var init, last := slices[..|slices| - 1], slices[|slices| - 1];
      assert slices == init + [last];
      UnindexedAt(index, init, ck, s);
      UnindexedAt(index, init, ck, last);
    }
  }

  // ---------------------------------------------------------------- lemmas: each step keeps the invariant

  lemma JoinKeepsInv(s: State, s': State, b: Bitmask, direct: set<PeerId>)
    requires Inv(s, direct) && JoinStep(s, s', b, direct)
    ensures Inv(s', direct)
  {
    InvMeans(s, direct);
    MeansInv(s', direct);
  }

  lemma LeaveKeepsInv(s: State, s': State, b: Bitmask, direct: set<PeerId>)
    requires Inv(s, direct) && LeaveStep(s, s', b)
    ensures Inv(s', direct)
  {
    InvMeans(s, direct);
    MeansInv(s', direct);
  }

  lemma FanoutKeepsInv(s: State, s': State, direct: set<PeerId>)
    requires Inv(s, direct) && FanoutStep(s, s', direct)
    ensures Inv(s', direct)
  {
    InvMeans(s, direct);
    MeansInv(s', direct);
  }

  lemma JoinCompositeKeepsInv(s: State, s': State, ck: Bitmask, direct: set<PeerId>)
    requires Inv(s, direct) && JoinCompositeStep(s, s', ck, direct)
    ensures Inv(s', direct)
  {
    if s' != s {
      InvMeans(s, direct);
      IndexedIsExact(s, ck, s'.composites[ck]);
      RebuiltAvoids(s.mesh, s'.composites, s'.index, direct);
      MeansInv(s', direct);
    }
  }

  lemma IndexedIsExact(s: State, ck: Bitmask, c: Composite)
    requires CompositesWellFormed(s.composites) && IndexExact(s.composites, s.index)
    requires ck !in s.composites && c.slices == Slices(ck)
    ensures IndexExact(s.composites[ck := c], Indexed(s.index, Slices(ck), ck))
  {
    var index := Indexed(s.index, Slices(ck), ck);
    SlicesDistinct(ck);
    forall b | b in index ensures index[b] != [] && NoDuplicates(index[b]) {
      IndexedAt(s.index, Slices(ck), ck, b);
      assert b in s.index ==> ck !in s.index[b];
    }
    var composites := s.composites[ck := c];
    forall b, k ensures (b in index && k in index[b]) <==> (k in composites && b in composites[k].slices) {
      IndexedPair(s, ck, c, b, k);
    }
  }

  lemma IndexedPair(s: State, ck: Bitmask, c: Composite, b: Bitmask, k: Bitmask)
    requires CompositesWellFormed(s.composites) && IndexExact(s.composites, s.index)
    requires ck !in s.composites && c.slices == Slices(ck)
    ensures var index, composites := Indexed(s.index, Slices(ck), ck), s.composites[ck := c];
      (b in index && k in index[b]) <==> (k in composites && b in composites[k].slices)
  {
    SlicesDistinct(ck);
    IndexedAt(s.index, Slices(ck), ck, b);
    assert (b in s.index && k in s.index[b]) <==> (k in s.composites && b in s.composites[k].slices);
  }

  lemma LeaveCompositeKeepsInv(s: State, s': State, ck: Bitmask, direct: set<PeerId>)
    requires Inv(s, direct) && LeaveCompositeStep(s, s', ck)
    ensures Inv(s', direct)
  {
    if ck in s.composites {
      var slices := Slices(ck);
      InvMeans(s, direct);
      UnindexedIsExact(s, ck);
      RebuiltAvoids(s.mesh - (set b | b in slices && b !in s'.index), s'.composites, s'.index, direct);
      MeansInv(s', direct);
    }
  }

  lemma UnindexedEntry(s: State, ck: Bitmask, b: Bitmask)
    requires CompositesWellFormed(s.composites) && IndexExact(s.composites, s.index) && ck in s.composites
    ensures EntryWithout(s.index, Unindexed(s.index, Slices(ck), ck), ck, b)
  {
    SlicesDistinct(ck);
    UnindexedAt(s.index, Slices(ck), ck, b);
    if b in s.index {
      WithoutFacts(s.index[b], ck);
      assert b !in Slices(ck) ==> ck !in s.index[b];
    }
  }

  lemma UnindexedIsExact(s: State, ck: Bitmask)
    requires CompositesWellFormed(s.composites) && IndexExact(s.composites, s.index) && ck in s.composites
    ensures IndexExact(s.composites - {ck}, Unindexed(s.index, Slices(ck), ck))
  {
    var index := Unindexed(s.index, Slices(ck), ck);
    forall b ensures EntryWithout(s.index, index, ck, b) { UnindexedEntry(s, ck, b); }
    ExactWithout(s, index, ck);
  }

  /** Slice `b` is listed with the same composites as before but `ck`, if any are left. */
  ghost predicate EntryWithout(index: Index, index': Index, ck: Bitmask, b: Bitmask) {
    && (b in index' ==> index'[b] != [] && NoDuplicates(index'[b]))
    && forall k :: (b in index' && k in index'[b]) <==> (b in index && k in index[b] && k != ck)
  }

  lemma ExactWithout(s: State, index: Index, ck: Bitmask)
    requires IndexExact(s.composites, s.index) && forall b :: EntryWithout(s.index, index, ck, b)
    ensures IndexExact(s.composites - {ck}, index)
  {
    var composites := s.composites - {ck};
    forall b | b in index
      ensures index[b] != [] && NoDuplicates(index[b])
    {
      assert EntryWithout(s.index, index, ck, b);
    }
    forall b, k ensures (b in index && k in index[b]) <==> (k in composites && b in composites[k].slices) {
      assert EntryWithout(s.index, index, ck, b);
      assert (b in s.index && k in s.index[b]) <==> (k in s.composites && b in s.composites[k].slices);
    }
  }

  /** Composites changed only in membership, with the slices kept, still match the index. */
  lemma SameShape(s: State, composites: Composites)
    requires IndexExact(s.composites, s.index)
    requires composites.Keys == s.composites.Keys
    requires forall ck :: ck in composites ==> composites[ck].slices == s.composites[ck].slices
    ensures IndexExact(composites, s.index)
  {
  }

  lemma GraftedCompositeFacts(c: Composite, p: PeerId, env: Env, Dhi: nat)
    requires c.same !! c.broker
    ensures var c' := GraftedComposite(c, p, env, Dhi);
      c'.slices == c.slices && c'.same !! c'.broker && c'.Members() <= c.Members() + {p}
  {
  }

  lemma GraftedCompositesFacts(c: Composites, b: Bitmask, p: PeerId, env: Env, Dhi: nat, direct: set<PeerId>)
    requires CompositesWellFormed(c) && CompositesAvoid(c, direct) && p !in direct
    ensures CompositesWellFormed(GraftedComposites(c, b, p, env, Dhi))
    ensures CompositesAvoid(GraftedComposites(c, b, p, env, Dhi), direct)
    ensures forall ck :: ck in c ==> GraftedComposites(c, b, p, env, Dhi)[ck].slices == c[ck].slices
  {
    var c' := GraftedComposites(c, b, p, env, Dhi);
    forall ck | ck in c
      ensures c'[ck].slices == c[ck].slices && c'[ck].same !! c'[ck].broker && c'[ck].Members() <= c[ck].Members() + {p}
    {
      GraftedCompositeFacts(c[ck], p, env, Dhi);
    }
  }

  lemma GraftKeepsInv(s: State, direct: set<PeerId>, p: PeerId, b: Bitmask, env: Env, off: bool, Dhi: nat)
    requires Inv(s, direct)
    ensures Inv(Grafted(s, direct, p, b, env, off, Dhi), direct)
  {
    if GraftAdmissible(s.mesh, direct, p, b, env, off) {
      if b in s.index {
        GraftManagedKeepsInv(s, direct, p, b, env, Dhi);
      } else {
        GraftUnmanagedKeepsInv(s, direct, p, b);
      }
    }
  }

  lemma GraftManagedKeepsInv(s: State, direct: set<PeerId>, p: PeerId, b: Bitmask, env: Env, Dhi: nat)
    requires Inv(s, direct) && p !in direct
    ensures var composites := GraftedComposites(s.composites, b, p, env, Dhi);
      Inv(s.(composites := composites, mesh := Rebuilt(s.mesh, composites, s.index)), direct)
  {
    InvMeans(s, direct);
    var composites := GraftedComposites(s.composites, b, p, env, Dhi);
    GraftedCompositesFacts(s.composites, b, p, env, Dhi, direct);
    SameShape(s, composites);
    RebuiltAvoids(s.mesh, composites, s.index, direct);
    MeansInv(s.(composites := composites, mesh := Rebuilt(s.mesh, composites, s.index)), direct);
  }

  lemma GraftUnmanagedKeepsInv(s: State, direct: set<PeerId>, p: PeerId, b: Bitmask)
    requires Inv(s, direct) && b in s.mesh && b !in s.index && p !in direct
    ensures Inv(s.(mesh := s.mesh[b := s.mesh[b] + {p}]), direct)
  {
    InvMeans(s, direct);
    MeansInv(s.(mesh := s.mesh[b := s.mesh[b] + {p}]), direct);
  }

  /** The comment "no rebuild needed" in the PRUNE handler, proved: demotion changes no derived mesh. */
  lemma PruneKeepsInv(s: State, p: PeerId, b: Bitmask, direct: set<PeerId>)
    requires Inv(s, direct)
    ensures Inv(Pruned(s, p, b), direct)
    ensures b in s.index ==> Pruned(s, p, b).mesh == Rebuilt(s.mesh, Pruned(s, p, b).composites, s.index)
  {
    InvMeans(s, direct);
    if b in s.index {
      DemotionKeepsInv(s, p, b, direct);
    } else if b in s.mesh {
      MeansInv(s.(mesh := s.mesh[b := s.mesh[b] - {p}]), direct);
    }
  }

  lemma DemotionKeepsInv(s: State, p: PeerId, b: Bitmask, direct: set<PeerId>)
    requires Inv(s, direct) && b in s.index && b in s.mesh
    ensures Inv(Pruned(s, p, b), direct) && Pruned(s, p, b).mesh == Rebuilt(s.mesh, Pruned(s, p, b).composites, s.index)
  {
    var composites := Pruned(s, p, b).composites;
    InvMeans(s, direct);
    DemotionKeepsMembers(s, p, b, direct);
    SameMembers(s.composites, composites);
    SameShape(s, composites);
    assert s.mesh == Rebuilt(s.mesh, composites, s.index);
    MeansInv(s.(composites := composites), direct);
  }

  lemma DemotionKeepsMembers(s: State, p: PeerId, b: Bitmask, direct: set<PeerId>)
    requires CompositesWellFormed(s.composites) && CompositesAvoid(s.composites, direct) && b in s.index && b in s.mesh
    ensures var c := Pruned(s, p, b).composites;
      && c.Keys == s.composites.Keys && CompositesWellFormed(c) && CompositesAvoid(c, direct)
      && forall ck :: ck in c ==>
           c[ck].slices == s.composites[ck].slices && c[ck].Members() == s.composites[ck].Members()
  {
    forall ck | ck in s.composites ensures Pruned(s, p, b).composites[ck].Members() == s.composites[ck].Members() {
      DemotedMembers(s.composites[ck], p);
    }
  }

  lemma DemotedMembers(c: Composite, p: PeerId)
    ensures Demoted(c, p).Members() == c.Members()
  {
  }

  lemma SameMembers(c: Composites, c': Composites)
    requires c.Keys == c'.Keys
    requires forall ck :: ck in c ==> c'[ck].slices == c[ck].slices && c'[ck].Members() == c[ck].Members()
    ensures forall b :: MembersOn(c', b) == MembersOn(c, b)
  {
  }

  lemma RemovePeerKeepsInv(s: State, p: PeerId, direct: set<PeerId>)
    requires Inv(s, direct)
    ensures Inv(PeerRemoved(s, p), direct)
  {
    var s' := PeerRemoved(s, p);
    InvMeans(s, direct);
    SameShape(s, s'.composites);
    forall b ensures MembersOn(s'.composites, b) == MembersOn(s.composites, b) - {p} { RemovedMembers(s, p, b); }
    MeansInv(s', direct);
  }

  lemma RemovedMembers(s: State, p: PeerId, b: Bitmask)
    ensures MembersOn(PeerRemoved(s, p).composites, b) == MembersOn(s.composites, b) - {p}
  {
    var c := PeerRemoved(s, p).composites;
    forall x ensures x in MembersOn(c, b) <==> x in MembersOn(s.composites, b) && x != p {
      if ck :| Contributes(s.composites, ck, b, x) && x != p { assert Contributes(c, ck, b, x); }
      if ck :| Contributes(c, ck, b, x) { assert Contributes(s.composites, ck, b, x); }
    }
  }

  lemma HeartbeatKeepsInv(s: State, s': State, changed: bool, direct: set<PeerId>)
    requires Inv(s, direct) && HeartbeatStep(s, s', changed, direct)
    ensures Inv(s', direct)
  {
    InvMeans(s, direct);
    SameShape(s, s'.composites);
    MeansInv(s', direct);
  }

  lemma StepKeepsInv(s: State, s': State, direct: set<PeerId>)
    requires Inv(s, direct) && Step(s, s', direct)
    ensures Inv(s', direct)
  {
    if b :| JoinStep(s, s', b, direct) { JoinKeepsInv(s, s', b, direct); }
    else if b :| LeaveStep(s, s', b) { LeaveKeepsInv(s, s', b, direct); }
    else if b :| JoinCompositeStep(s, s', b, direct) { JoinCompositeKeepsInv(s, s', b, direct); }
    else if b :| LeaveCompositeStep(s, s', b) { LeaveCompositeKeepsInv(s, s', b, direct); }
    else if p, b, env, off, Dhi :| s' == Grafted(s, direct, p, b, env, off, Dhi) {
      GraftKeepsInv(s, direct, p, b, env, off, Dhi);
    }
    else if p, b :| s' == Pruned(s, p, b) { PruneKeepsInv(s, p, b, direct); }
    else if p :| s' == PeerRemoved(s, p) { RemovePeerKeepsInv(s, p, direct); }
    else if FanoutStep(s, s', direct) { FanoutKeepsInv(s, s', direct); }
    else {
      var changed :| HeartbeatStep(s, s', changed, direct);
      HeartbeatKeepsInv(s, s', changed, direct);
    }
  }

  /** In every state of every run the index is exact, managed meshes are the unions over their
      composites, same and broker are disjoint, and no direct peer is in any table. */
  lemma {:induction false} RunKeepsInv(states: seq<State>, direct: set<PeerId>, i: nat)
    requires Run(states, direct) && i < |states|
    ensures Inv(states[i], direct)
  {
    if i > 0 {
      RunKeepsInv(states, direct, i - 1);
      StepKeepsInv(states[i - 1], states[i], direct);
    }
  }

  // ---------------------------------------------------------------- joining then leaving a composite

  lemma {:induction false} WithoutAppended(keys: seq<Bitmask>, ck: Bitmask)
    requires ck !in keys
    ensures Without(keys + [ck], ck) == keys
  {
    if keys != [] {
      assert (keys + [ck])[1..] == keys[1..] + [ck];
      WithoutAppended(keys[1..], ck);
    }
  }

  lemma JoinLeaveEntry(index: Index, slices: seq<Bitmask>, ck: Bitmask, b: Bitmask)
    requires NoDuplicates(slices) && forall k :: k in index ==> index[k] != [] && ck !in index[k]
    ensures var index' := Unindexed(Indexed(index, slices, ck), slices, ck);
      (b in index' <==> b in index) && (b in index ==> index'[b] == index[b])
  {
    var joined := Indexed(index, slices, ck);
    forall k ensures k in joined ==> joined[k] != [] { IndexedAt(index, slices, ck, k); }
    IndexedAt(index, slices, ck, b);
    UnindexedAt(joined, slices, ck, b);
    WithoutAppended(if b in index then index[b] else [], ck);
  }

  /** Leaving a composite just joined restores the composites and the index. */
  lemma JoinLeaveRestores(s: State, ck: Bitmask, same: set<PeerId>, broker: set<PeerId>)
    requires CompositesWellFormed(s.composites) && IndexExact(s.composites, s.index) && ck !in s.composites
    ensures LeftComposite(JoinedComposite(s, ck, same, broker), ck).composites == s.composites
    ensures LeftComposite(JoinedComposite(s, ck, same, broker), ck).index == s.index
  {
    IndexRestored(s, ck);
    assert s.composites[ck := Composite(Slices(ck), same, broker)] - {ck} == s.composites;
  }

  lemma IndexRestored(s: State, ck: Bitmask)
    requires CompositesWellFormed(s.composites) && IndexExact(s.composites, s.index) && ck !in s.composites
    ensures Unindexed(Indexed(s.index, Slices(ck), ck), Slices(ck), ck) == s.index
  {
    var index := Unindexed(Indexed(s.index, Slices(ck), ck), Slices(ck), ck);
    SlicesDistinct(ck);
    forall b ensures (b in index <==> b in s.index) && (b in s.index ==> index[b] == s.index[b]) {
      JoinLeaveEntry(s.index, Slices(ck), ck, b);
    }
  }

  /** The meshes are restored exactly when no unmanaged slice of the composite had one. */
  lemma JoinLeaveRestoresMeshIff(s: State, ck: Bitmask, same: set<PeerId>, broker: set<PeerId>, direct: set<PeerId>)
    requires Inv(s, direct) && ck !in s.composites
    ensures LeftComposite(JoinedComposite(s, ck, same, broker), ck).mesh == s.mesh <==>
            forall b :: b in Slices(ck) && b in s.mesh ==> b in s.index
  {
    var mesh := LeftComposite(JoinedComposite(s, ck, same, broker), ck).mesh;
    InvMeans(s, direct);
    JoinLeaveRestores(s, ck, same, broker);
    forall b ensures b in mesh <==> (b in s.mesh && (b in Slices(ck) ==> b in s.index))
             ensures b in mesh ==> mesh[b] == s.mesh[b]
    {
      JoinLeaveMeshEntry(s, ck, same, broker, direct, b);
    }
    if forall b :: b in Slices(ck) && b in s.mesh ==> b in s.index { assert mesh == s.mesh; }
  }

  lemma JoinLeaveMeshEntry(s: State, ck: Bitmask, same: set<PeerId>, broker: set<PeerId>, direct: set<PeerId>,
                           b: Bitmask)
    requires Inv(s, direct) && ck !in s.composites
    requires LeftComposite(JoinedComposite(s, ck, same, broker), ck).index == s.index
    requires LeftComposite(JoinedComposite(s, ck, same, broker), ck).composites == s.composites
    ensures var mesh := LeftComposite(JoinedComposite(s, ck, same, broker), ck).mesh;
      && (b in mesh <==> (b in s.mesh && (b in Slices(ck) ==> b in s.index)))
      && (b in mesh ==> mesh[b] == s.mesh[b])
  {
    InvMeans(s, direct);
    SlicesDistinct(ck);
    IndexedAt(s.index, Slices(ck), ck, b);
    var joined := JoinedComposite(s, ck, same, broker);
    assert b in joined.mesh <==> b in s.mesh || b in Slices(ck);
    assert b in joined.mesh && b !in joined.index ==> joined.mesh[b] == s.mesh[b];
  }
}
