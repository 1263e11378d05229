/** The IP tracking of the peer score: for every IP address the peers using it, kept exact as peers come and go. */
module PeerIps {
  import opened Peers

  datatype Ip = Ip(text: nat)

  /** What the score remembers about a peer, as far as addresses go. */
  datatype Stats = Stats(connected: bool, ips: seq<Ip>, expire: int)

  type Index = map<Ip, set<PeerId>>
  type PeerStats = map<PeerId, Stats>

  predicate At(index: Index, ip: Ip, p: PeerId) {
    ip in index && p in index[ip]
  }

  predicate Tracks(stats: PeerStats, p: PeerId, ip: Ip) {
    p in stats && ip in stats[p].ips
  }

  /** The index lists, for every address, exactly the peers whose tracked addresses contain it. */
  ghost predicate Exact(index: Index, stats: PeerStats) {
    forall ip, p :: At(index, ip, p) <==> Tracks(stats, p, ip)
  }

  ghost predicate NoEmpty(index: Index) {
    forall ip :: ip in index ==> index[ip] != {}
  }

  function Added(index: Index, ip: Ip, p: PeerId): (r: Index)
    ensures forall i, q :: At(r, i, q) <==> At(index, i, q) || (i == ip && q == p)
    ensures NoEmpty(index) ==> NoEmpty(r)
  {
    var peers := (if ip in index then index[ip] else {}) + {p};
    assert p in peers;
    index[ip := peers]
  }

  function Removed(index: Index, ip: Ip, p: PeerId): (r: Index)
    ensures forall i, q :: At(r, i, q) <==> At(index, i, q) && !(i == ip && q == p)
    ensures NoEmpty(index) ==> NoEmpty(r)
  {
    if ip !in index then index
    else
      var peers := index[ip] - {p};
      assert forall q :: q in index[ip] ==> q == p || q in peers;
      if peers == {} then index - {ip} else index[ip := peers]
  }

  class PeerScore {
    var peerIPs: Index
    var peerStats: PeerStats

    ghost predicate Valid()
      reads this
    {
      Exact(peerIPs, peerStats) && NoEmpty(peerIPs)
    }

    constructor ()
      ensures Valid() && peerStats == map[]
    {
      peerIPs, peerStats := map[], map[];
    }

    /** setIPs: new addresses are added and obsolete ones removed; common ones are left alone. */
    method SetIPs(p: PeerId, newIps: seq<Ip>, oldIps: seq<Ip>)
      requires NoEmpty(peerIPs) && forall ip :: At(peerIPs, ip, p) <==> ip in oldIps
      modifies this`peerIPs
      ensures NoEmpty(peerIPs)
      ensures forall ip, q :: At(peerIPs, ip, q) <==> if q == p then ip in newIps else At(old(peerIPs), ip, q)
    {
      for k := 0 to |newIps|
        invariant NoEmpty(peerIPs)
        invariant forall ip, q :: At(peerIPs, ip, q) <==> At(old(peerIPs), ip, q) || (q == p && ip in newIps[..k])
      {
        var known := Contains(oldIps, newIps[k]);
        if !known {
          peerIPs := Added(peerIPs, newIps[k], p);
        }
      }
      assert newIps[..|newIps|] == newIps;
      for k := 0 to |oldIps|
        invariant NoEmpty(peerIPs)
        invariant forall ip, q :: At(peerIPs, ip, q) <==>
          if q == p then ip in newIps || (ip in oldIps && ip !in oldIps[..k]) else At(old(peerIPs), ip, q)
      {
        assert oldIps[..k + 1] == oldIps[..k] + [oldIps[k]];
        var kept := Contains(newIps, oldIps[k]);
        if !kept {
          peerIPs := Removed(peerIPs, oldIps[k], p);
        }
      }
      assert oldIps[..|oldIps|] == oldIps;
    }

    /** removeIPs. */
    method RemoveIPs(p: PeerId, ips: seq<Ip>)
      requires NoEmpty(peerIPs)
      modifies this`peerIPs
      ensures NoEmpty(peerIPs)
      ensures forall ip, q :: At(peerIPs, ip, q) <==> At(old(peerIPs), ip, q) && !(q == p && ip in ips)
    {
      for k := 0 to |ips|
        invariant NoEmpty(peerIPs)
        invariant forall ip, q :: At(peerIPs, ip, q) <==> At(old(peerIPs), ip, q) && !(q == p && ip in ips[..k])
      {
        assert ips[..k + 1] == ips[..k] + [ips[k]];
        peerIPs := Removed(peerIPs, ips[k], p);
      }
      assert ips[..|ips|] == ips;
    }

    /** AddPeer: the peer is connected and its current addresses are tracked. */
    method AddPeer(p: PeerId, ips: seq<Ip>)
      requires Valid()
      modifies this
      ensures Valid() && p in peerStats && peerStats[p].connected && peerStats[p].ips == ips
      ensures p in old(peerStats) ==> peerStats[p] == old(peerStats)[p].(connected := true, ips := ips)
      ensures forall q :: q != p ==>
        (q in peerStats <==> q in old(peerStats)) && (q in peerStats ==> peerStats[q] == old(peerStats)[q])
    {
      var stats := if p in peerStats then peerStats[p] else Stats(true, [], 0);
      assert forall ip :: At(peerIPs, ip, p) <==> Tracks(peerStats, p, ip);
      SetIPs(p, ips, stats.ips);
      peerStats := peerStats[p := stats.(connected := true, ips := ips)];
      assert forall ip, q :: Tracks(peerStats, q, ip) <==> if q == p then ip in ips else Tracks(old(peerStats), q, ip);
    }

    /** RemovePeer: a positive score is dropped at once, any other is kept until it expires. */
    method RemovePeer(p: PeerId, score: real, expire: int)
      requires Valid()
      modifies this
      ensures Valid()
      ensures peerStats == if p !in old(peerStats) then old(peerStats) else if score > 0.0 then old(peerStats) - {p}
                           else old(peerStats)[p := old(peerStats)[p].(connected := false, expire := expire)]
    {
      if p !in peerStats {
        return;
      }
      if score > 0.0 {
        Forget(p);
        return;
      }
      peerStats := peerStats[p := peerStats[p].(connected := false, expire := expire)];
      assert forall ip, q :: Tracks(peerStats, q, ip) <==> Tracks(old(peerStats), q, ip);
    }

    method Forget(p: PeerId)
      requires Valid() && p in peerStats
      modifies this
      ensures Valid() && peerStats == old(peerStats) - {p}
    {
      RemoveIPs(p, peerStats[p].ips);
      peerStats := peerStats - {p};
      assert forall ip, q :: Tracks(peerStats, q, ip) <==> q != p && Tracks(old(peerStats), q, ip);
    }

    /** The purge in refreshScores: disconnected peers whose retention is over are forgotten, exactly those. */
    method Purge(now: int)
      requires Valid()
      modifies this
      ensures Valid()
      ensures peerStats == old(peerStats) - OverDue(old(peerStats), now)
    {
      var left := OverDue(peerStats, now);
      while left != {}
        invariant Valid() && left <= OverDue(old(peerStats), now)
        invariant peerStats == old(peerStats) - (OverDue(old(peerStats), now) - left)
        decreases left
      {
        var p :| p in left;
        left := left - {p};
        Forget(p);
      }
    }

    /** refreshIPs: every connected peer's addresses are looked up again. */
    method RefreshIPs(current: PeerId -> seq<Ip>)
      requires Valid()
      modifies this
      ensures Valid() && peerStats.Keys == old(peerStats).Keys
      ensures forall p :: p in peerStats ==> peerStats[p] == Refreshed(old(peerStats)[p], current(p))
    {
      var left := set p | p in peerStats && peerStats[p].connected;
      while left != {}
        invariant Valid() && peerStats.Keys == old(peerStats).Keys
        invariant forall p :: p in left ==> p in old(peerStats) && old(peerStats)[p].connected
        invariant forall p :: p in peerStats ==>
          peerStats[p] == if p in left then old(peerStats)[p] else Refreshed(old(peerStats)[p], current(p))
        decreases left
      {
        var p :| p in left;
        left := left - {p};
        AddPeer(p, current(p));
      }
    }
  }

  function OverDue(stats: PeerStats, now: int): set<PeerId> {
    set p | p in stats && !stats[p].connected && now > stats[p].expire
  }

  function Refreshed(s: Stats, ips: seq<Ip>): Stats {
    if s.connected then s.(ips := ips) else s
  }

  method Contains(ips: seq<Ip>, ip: Ip) returns (found: bool)
    ensures found <==> ip in ips
  {
    for k := 0 to |ips|
      invariant ip !in ips[..k]
    {
      assert ips[..k + 1] == ips[..k] + [ips[k]];
      if ips[k] == ip {
        return true;
      }
    }
    assert ips[..|ips|] == ips;
    return false;
  }
}
