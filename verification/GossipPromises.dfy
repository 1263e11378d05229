/** Promises made by IHAVE gossip: which peer promised which message and by when, indexed both ways. */
module GossipPromises {
  import opened Basics
  import opened Peers

  type Promises = map<MessageId, map<PeerId, int>>
  type PeerPromises = map<PeerId, set<MessageId>>

  /** By when `p` promised `m`. */
  function At(promises: Promises, m: MessageId, p: PeerId): Option<int> {
    if m in promises && p in promises[m] then Some(promises[m][p]) else None
  }

  predicate Lists(byPeer: PeerPromises, p: PeerId, m: MessageId) {
    p in byPeer && m in byPeer[p]
  }

  /** Both indexes hold the same pairs. */
  ghost predicate TwoWay(promises: Promises, byPeer: PeerPromises) {
    forall m, p :: At(promises, m, p).Some? <==> Lists(byPeer, p, m)
  }

  ghost predicate NoEmptyMessages(promises: Promises) {
    forall m :: m in promises ==> promises[m] != map[]
  }

  ghost predicate NoEmptyPeers(byPeer: PeerPromises) {
    forall p :: p in byPeer ==> byPeer[p] != {}
  }

  /** Both indexes agree and neither keeps empty inner sets. */
  ghost predicate Consistent(promises: Promises, byPeer: PeerPromises) {
    TwoWay(promises, byPeer) && NoEmptyMessages(promises) && NoEmptyPeers(byPeer)
  }

  // ---------------------------------------------------------------- one pair in, one pair out

  function Promised(promises: Promises, m: MessageId, p: PeerId, expire: int): (r: Promises)
    ensures forall n, q :: At(r, n, q) == if n == m && q == p then Some(expire) else At(promises, n, q)
    ensures NoEmptyMessages(promises) ==> NoEmptyMessages(r)
  {
    var inner := if m in promises then promises[m] else map[];
    assert p in inner[p := expire];
    promises[m := inner[p := expire]]
  }

  function Listed(byPeer: PeerPromises, p: PeerId, m: MessageId): (r: PeerPromises)
    ensures forall q, n :: Lists(r, q, n) <==> Lists(byPeer, q, n) || (q == p && n == m)
    ensures NoEmptyPeers(byPeer) ==> NoEmptyPeers(r)
  {
    var list := if p in byPeer then byPeer[p] else {};
    assert m in list + {m};
    byPeer[p := list + {m}]
  }

  /** Taking one message off a peer's list; an empty list goes too. */
  function Unlisted(byPeer: PeerPromises, p: PeerId, m: MessageId): (r: PeerPromises)
    ensures forall q, n :: Lists(r, q, n) <==> Lists(byPeer, q, n) && !(q == p && n == m)
    ensures NoEmptyPeers(byPeer) ==> NoEmptyPeers(r)
  {
    if p !in byPeer then byPeer
    else
      var list := byPeer[p] - {m};
      assert forall n :: n in byPeer[p] ==> n == m || n in list;
      if list == {} then byPeer - {p} else byPeer[p := list]
  }

  /** Taking one peer off a message's promises; an empty entry goes too. */
  function Unpromised(promises: Promises, m: MessageId, p: PeerId): (r: Promises)
    ensures forall n, q :: At(r, n, q) == if n == m && q == p then None else At(promises, n, q)
    ensures NoEmptyMessages(promises) ==> NoEmptyMessages(r)
    ensures forall n :: n != m && n in promises ==> n in r && r[n] == promises[n]
  {
    if m !in promises then promises
    else
      var inner := promises[m] - {p};
      assert forall q :: q in promises[m] ==> q == p || q in inner;
      if inner == map[] then promises - {m} else promises[m := inner]
  }

  function CountOf(res: map<PeerId, nat>, p: PeerId): nat { if p in res then res[p] else 0 }

  predicate IsBroken(promise: Option<int>, now: int) { promise.Some? && promise.value < now }

  /** The messages `p` promised by a time before `now`, among those in `ms`. */
  function Broken(promises: Promises, ms: set<MessageId>, p: PeerId, now: int): set<MessageId> {
    set m | m in ms && IsBroken(At(promises, m, p), now)
  }

  /** What is left of a promise once its message has been looked at. */
  function After(promise: Option<int>, looked: bool, now: int): Option<int> {
    if looked && IsBroken(promise, now) then None else promise
  }

  class GossipTracer {
    var promises: Promises
    var peerPromises: PeerPromises
    const followUp: int

    ghost predicate Valid()
      reads this
    {
      Consistent(promises, peerPromises)
    }

    constructor (followUp: int)
      ensures Valid() && promises == map[] && this.followUp == followUp
    {
      promises, peerPromises := map[], map[];
      this.followUp := followUp;
    }

    /** AddPromise: one of the requested messages, picked at random, is promised; an earlier promise stands. */
    method AddPromise(p: PeerId, ids: seq<MessageId>, now: int) returns (m: MessageId)
      requires Valid() && ids != []
      modifies this
      ensures Valid() && m in ids
      ensures At(promises, m, p) ==
        if At(old(promises), m, p).None? then Some(now + followUp) else At(old(promises), m, p)
      ensures forall n, q :: n != m || q != p ==> At(promises, n, q) == At(old(promises), n, q)
    {
      var k :| 0 <= k < |ids|;
      m := ids[k];
      if At(promises, m, p).None? {
        promises := Promised(promises, m, p, now + followUp);
        peerPromises := Listed(peerPromises, p, m);
      }
    }

    /** fulfillPromise: all promises of a message end with it. */
    method FulfillPromise(m: MessageId)
      requires Valid()
      modifies this
      ensures Valid()
      ensures forall n, q :: At(promises, n, q) == if n == m then None else At(old(promises), n, q)
    {
      if m !in promises {
        return;
      }
      var left := promises[m].Keys;
      promises := promises - {m};
      while left != {}
        invariant promises == old(promises) - {m} && NoEmptyPeers(peerPromises)
        invariant forall q, n :: Lists(peerPromises, q, n) <==> At(old(promises), n, q).Some? && (n != m || q in left)
        decreases left
      {
        var p :| p in left;
        left := left - {p};
        peerPromises := Unlisted(peerPromises, p, m);
      }
    }

    /** ThrottlePeer: all promises of a peer are forgotten. */
    method ThrottlePeer(p: PeerId)
      requires Valid()
      modifies this
      ensures Valid()
      ensures forall n, q :: At(promises, n, q) == if q == p then None else At(old(promises), n, q)
    {
      if p !in peerPromises {
        assert forall n :: !Lists(peerPromises, p, n);
        return;
      }
      var left := peerPromises[p];
      assert forall n :: n in left <==> Lists(peerPromises, p, n);
      while left != {}
        invariant peerPromises == old(peerPromises) && NoEmptyMessages(promises)
        invariant forall n, q :: At(promises, n, q) == if q == p && n !in left then None else At(old(promises), n, q)
        decreases left
      {
        var m :| m in left;
        left := left - {m};
        promises := Unpromised(promises, m, p);
      }
      peerPromises := peerPromises - {p};
      assert forall q, n :: Lists(peerPromises, q, n) <==> q != p && Lists(old(peerPromises), q, n);
    }

    /** GetBrokenPromises: takes out exactly the promises whose time is over and counts them by peer. */
    method GetBrokenPromises(now: int) returns (res: map<PeerId, nat>)
      requires Valid()
      modifies this
      ensures Valid()
      ensures forall n, q :: At(promises, n, q) == After(At(old(promises), n, q), true, now)
      ensures forall q :: CountOf(res, q) == |Broken(old(promises), old(promises).Keys, q, now)|
    {
      res := map[];
      var left := promises.Keys;
      ghost var done: set<MessageId> := {};
      while left != {}
        invariant Valid() && left !! done && left + done == old(promises).Keys
        invariant forall n, q :: At(promises, n, q) == After(At(old(promises), n, q), n in done, now)
        invariant forall q :: CountOf(res, q) == |Broken(old(promises), done, q, now)|
        decreases left
      {
        var m :| m in left;
        left := left - {m};
        ghost var before := promises;
        res := BreakFor(m, now, res);
        forall q ensures CountOf(res, q) == |Broken(old(promises), done + {m}, q, now)| {
          assert At(before, m, q) == At(old(promises), m, q);
          BrokenGrows(old(promises), done, m, q, now);
        }
        done := done + {m};
      }
    }

    /** The inner loop for one message. */
    method BreakFor(m: MessageId, now: int, res0: map<PeerId, nat>) returns (res: map<PeerId, nat>)
      requires Valid()
      modifies this
      ensures Valid()
      ensures forall n, q :: At(promises, n, q) == After(At(old(promises), n, q), n == m, now)
      ensures forall q :: CountOf(res, q) == CountOf(res0, q) + if IsBroken(At(old(promises), m, q), now) then 1 else 0
    {
      res := res0;
      var all := if m in promises then promises[m] else map[];
      var left := set p | p in all && all[p] < now;
      assert forall q :: q in left <==> IsBroken(At(promises, m, q), now);
      ghost var gone: set<PeerId> := {};
      while left != {}
        invariant Valid() && left !! gone && forall q :: q in left + gone <==> IsBroken(At(old(promises), m, q), now)
        invariant forall n, q :: At(promises, n, q) == if n == m && q in gone then None else At(old(promises), n, q)
        invariant forall q :: CountOf(res, q) == CountOf(res0, q) + if q in gone then 1 else 0
        decreases left
      {
        var p :| p in left;
        left, gone := left - {p}, gone + {p};
        res := res[p := CountOf(res, p) + 1];
        promises := Unpromised(promises, m, p);
        peerPromises := Unlisted(peerPromises, p, m);
      }
    }
  }

  lemma BrokenGrows(promises: Promises, done: set<MessageId>, m: MessageId, p: PeerId, now: int)
    requires m !in done
    ensures |Broken(promises, done + {m}, p, now)| ==
      |Broken(promises, done, p, now)| + if IsBroken(At(promises, m, p), now) then 1 else 0
  {
    assert Broken(promises, done + {m}, p, now) ==
      Broken(promises, done, p, now) + if IsBroken(At(promises, m, p), now) then {m} else {};
  }
}
