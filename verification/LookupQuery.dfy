/** The query object of a lookup: what the run loop does with one update, and the result it is turned into. */
module LookupQuery {
  import opened Peers
  import opened Lookup

  function InStates(peers: PeerStates, states: set<PeerState>): set<PeerId> {
    set p | p in peers && peers[p] in states
  }

  class Query {
    const c: Config
    var peers: PeerStates
    var terminated: bool

    constructor (c: Config)
      ensures this.c == c && peers == map[] && !terminated
    {
      this.c, peers, terminated := c, map[], false;
    }

    /** updateState. Where the source panics, `panicked` is set and the lookup is over. */
    method UpdateState(u: Update) returns (panicked: bool)
      modifies this`peers
      ensures panicked <==> terminated || Updated(old(peers), u, c.self).Panic?
      ensures !panicked ==> peers == Updated(old(peers), u, c.self).peers
    {
      if terminated {
        return true;
      }
      AddHeard(u.heard);
      panicked := Mark(u.queried, Queried);
      if !panicked {
        panicked := Mark(u.unreachable, Unreachable);
      }
    }

    method AddHeard(heard: seq<PeerId>)
      modifies this`peers
      ensures peers == WithHeard(old(peers), heard, c.self)
    {
      for i := 0 to |heard|
        invariant peers == WithHeard(old(peers), heard[..i], c.self)
      {
        assert heard[..i + 1] == heard[..i] + [heard[i]];
        if heard[i] != c.self && heard[i] !in peers {
          peers := peers[heard[i] := Heard];
        }
      }
      assert heard[..|heard|] == heard;
    }

    method Mark(ps: seq<PeerId>, st: PeerState) returns (panicked: bool)
      modifies this`peers
      ensures panicked <==> Marked(Ok(old(peers)), ps, st, c.self).Panic?
      ensures !panicked ==> peers == Marked(Ok(old(peers)), ps, st, c.self).peers
    {
      panicked := false;
      for i := 0 to |ps|
        invariant Marked(Ok(old(peers)), ps, st, c.self) == Marked(Ok(peers), ps[i..], st, c.self)
      {
        assert ps[i..][1..] == ps[i + 1..];
        var p := ps[i];
        if p != c.self {
          if p in peers && peers[p] == Waiting {
            peers := peers[p := st];
          } else {
            return true;
          }
        }
      }
    }

    /** GetClosestNInStates: sorts all peers by distance and keeps the first `n` in one of the states. */
    method GetClosest(n: nat, states: set<PeerState>) returns (list: seq<PeerId>)
      ensures Closest(list, InStates(peers, states), n, c.dist)
    {
      var dist := c.dist;
      var from := InStates(peers, states);
      var all := ToList(from);
      var a := new PeerId[|all|](i requires 0 <= i < |all| => all[i]);
      assert a[..] == all;
      SortByScore(a, p => -(dist(p) as real));
      PermutationFacts(all, a[..]);
      list := a[..];
      if |list| >= n { list := list[..n]; }
      FirstAreClosest(a[..], list, from, n, dist);
    }

    /** isLookupTermination, and the peers it looked at. */
    method IsLookupTermination() returns (done: bool, top: seq<PeerId>)
      ensures Closest(top, Reachable(peers), c.beta, c.dist) && (done <==> AllQueried(peers, top))
    {
      var list := GetClosest(c.beta, {Heard, Waiting, Queried});
      top := list;
      assert InStates(peers, {Heard, Waiting, Queried}) == Reachable(peers);
      assert forall i :: 0 <= i < |list| ==> list[i] in ToSet(list);
      done := true;
      for i := 0 to |list|
        invariant done && forall j :: 0 <= j < i ==> list[j] in peers && peers[list[j]] == Queried
      {
        if peers[list[i]] != Queried {
          return false, list;
        }
      }
    }

    /** isReadyToTerminate: whether to stop, and otherwise whom to query next. */
    method IsReadyToTerminate(budget: int, stop: bool) returns (ready: bool, list: seq<PeerId>, ghost top: seq<PeerId>)
      ensures Closest(top, Reachable(peers), c.beta, c.dist)
      ensures ready <==> stop || Starved(peers) || AllQueried(peers, top)
      ensures if ready then list == [] else Picks(list, peers, budget, c)
    {
      var done;
      done, top := IsLookupTermination();
      var heard, waiting := InState(peers, Heard), InState(peers, Waiting);
      if stop || (|heard| == 0 && |waiting| == 0) || done {
        return true, [], top;
      }
      list := PickHeard(budget);
      return false, list, top;
    }

    /** The closest heard peers, collected until there are `budget` of them. */
    method PickHeard(budget: int) returns (list: seq<PeerId>)
      ensures Picks(list, peers, budget, c)
    {
      var heard := InState(peers, Heard);
      var all := GetClosest(|peers.Keys|, {Heard});
      assert InStates(peers, {Heard}) == heard;
      SubsetCard(heard, peers.Keys);
      AllOfThem(all, heard, |peers.Keys|, c.dist);
      list := [];
      for i := 0 to |all|
        invariant list == all[..i] && (budget <= 0 || i < budget)
      {
        list := list + [all[i]];
        if |list| == budget {
          break;
        }
      }
      assert list == if 0 < budget <= |all| then all[..budget] else all[..|all|];
      PrefixIsClosest(all, list, heard, |peers.Keys|, if budget <= 0 then |heard| else budget, c.dist);
    }

    /** One turn of the run loop with an update `u`: the peers whose queries are spawned. `s` and `s'` are the
        whole lookup before and after. */
    method Take(u: Update, stop: bool, ghost s: State) returns (list: seq<PeerId>, panicked: bool, ghost s': State)
      requires !terminated && s.peers == peers && !s.terminated && !s.panicked && s.channel != [] && s.channel[0] == u
      modifies this
      ensures Deliver(s, s', stop, c) && s'.panicked == panicked
      ensures !panicked ==> s'.peers == peers && s'.terminated == terminated && s'.spawned == s.spawned + list
    {
      list, s' := [], Taken(s).(panicked := true);
      panicked := UpdateState(u);
      if panicked {
        return;
      }
      ghost var s1 := Taken(s).(peers := peers);
      var waiting := InState(peers, Waiting);
      var ready;
      ghost var top;
      ready, list, top := IsReadyToTerminate(c.alpha - |waiting|, stop);
      if ready {
        terminated := true;
        s' := s1.(terminated := true);
        assert Looked(s1, s', top, c) || stop || Starved(s1.peers);
        return;
      }
      for i := 0 to |list|
        invariant peers == Spawn(s1.peers, list[..i]) && !terminated
      {
        assert list[i] in ToSet(list);
        assert list[..i + 1] == list[..i] + [list[i]];
        peers := peers[list[i] := Waiting];
      }
      assert list[..|list|] == list;
      s' := s1.(peers := peers, running := s.running + ToSet(list), spawned := s.spawned + list);
      assert Spawned(s1, s', list, c) && Looked(s1, s', top, c);
    }

    /** constructLookupResult: the K closest peers not known to be unreachable with their states, the K closest of
        all, and whether the lookup came to its own end. */
    method ConstructResult(k: nat) returns (r: LookupResult, ghost top: seq<PeerId>)
      ensures Closest(r.peers, Reachable(peers), k, c.dist) && Aligned(r, peers)
      ensures Closest(r.closest, peers.Keys, k, c.dist)
      ensures Closest(top, Reachable(peers), c.beta, c.dist)
      ensures (r.completed <==> Starved(peers) || AllQueried(peers, top))
    {
      var done;
      done, top := IsLookupTermination();
      var heard, waiting := InState(peers, Heard), InState(peers, Waiting);
      var completed := done || (|heard| == 0 && |waiting| == 0);
      var list := GetClosest(k, {Heard, Waiting, Queried});
      assert InStates(peers, {Heard, Waiting, Queried}) == Reachable(peers);
      assert forall i :: 0 <= i < |list| ==> list[i] in ToSet(list);
      var known := peers;
      var states := seq(|list|, i requires 0 <= i < |list| && list[i] in known => known[list[i]]);
      var closest := GetClosest(k, {Heard, Waiting, Queried, Unreachable});
      assert InStates(peers, {Heard, Waiting, Queried, Unreachable}) == peers.Keys;
      r := LookupResult(list, states, closest, completed);
    }
  }

  datatype LookupResult = LookupResult(peers: seq<PeerId>, states: seq<PeerState>, closest: seq<PeerId>,
                                       completed: bool)

  /** Each peer of the result stands next to its own state. */
  ghost predicate Aligned(r: LookupResult, peers: PeerStates) {
    && |r.states| == |r.peers|
    && forall i :: 0 <= i < |r.peers| ==> r.peers[i] in peers && r.states[i] == peers[r.peers[i]]
  }

  lemma FirstAreClosest(all: seq<PeerId>, list: seq<PeerId>, from: set<PeerId>, n: nat, dist: PeerId -> nat)
    requires NoDuplicates(all) && ToSet(all) == from && Descending(all, p => -(dist(p) as real))
    requires list == if |all| >= n then all[..n] else all
    ensures Closest(list, from, n, dist)
  {
  }

  lemma AllOfThem(all: seq<PeerId>, from: set<PeerId>, m: nat, dist: PeerId -> nat)
    requires Closest(all, from, m, dist) && |from| <= m
    ensures |all| == |from| && ToSet(all) == from
  {
    DistinctCount(all);
    SubsetCard(ToSet(all), from);
    if |all| == m { SubsetEqual(ToSet(all), from); }
  }

  lemma PrefixIsClosest(all: seq<PeerId>, list: seq<PeerId>, from: set<PeerId>, m: nat, n: nat, dist: PeerId -> nat)
    requires Closest(all, from, m, dist) && |from| <= m && list == if |all| >= n then all[..n] else all
    ensures Closest(list, from, n, dist)
  {
    AllOfThem(all, from, m, dist);
    forall p, q | p in list && q in from && q !in list ensures dist(p) <= dist(q) {
      var i :| 0 <= i < |list| && list[i] == p;
      assert q in ToSet(all);
      var j :| 0 <= j < |all| && all[j] == q;
      assert forall k :: 0 <= k < |list| ==> list[k] == all[k];
      assert j >= |list|;
    }
  }
}
