/** How a heartbeat cuts an oversized mesh down to D peers: the best scores first, the rest at random,
    with outbound peers rotated to the front until the Dout quota is met. */
module Selection {
  import opened Basics
  import opened Peers

  function Reverse<T>(s: seq<T>): (r: seq<T>)
    ensures |r| == |s|
  {
    if s == [] then [] else Reverse(s[1..]) + [s[0]]
  }

  /** The outbound peers of a list, in order. */
  function Outs(s: seq<PeerId>, outbound: set<PeerId>): seq<PeerId> {
    if s == [] then [] else
      var init := Outs(s[..|s| - 1], outbound);
      if s[|s| - 1] in outbound then init + [s[|s| - 1]] else init
  }

  /** The other peers of a list, in order. */
  function Ins(s: seq<PeerId>, outbound: set<PeerId>): seq<PeerId> {
    if s == [] then [] else
      var init := Ins(s[..|s| - 1], outbound);
      if s[|s| - 1] in outbound then init else init + [s[|s| - 1]]
  }

  /** The list after a scan of `s` that rotates outbound entries in front of a block. */
  ghost function Scanned(block: seq<PeerId>, s: seq<PeerId>, outbound: set<PeerId>): seq<PeerId> {
    Reverse(Outs(s, outbound)) + block + Ins(s, outbound)
  }

  /** The first `need` of `more`, or all of them, in front of a selection. */
  ghost function Refilled(selected: seq<PeerId>, more: seq<PeerId>, need: nat): seq<PeerId> {
    Reverse(more[..Min(need, |more|)]) + selected
  }

  /** The first D entries after the quota has been enforced on a list. */
  ghost function Kept(s: seq<PeerId>, D: nat, Dout: nat, outbound: set<PeerId>): seq<PeerId>
    requires Dout <= D <= |s|
  {
    var have := |Outs(s[..D], outbound)|;
    if have >= Dout then s[..D]
    else
      OutsAndIns(s[..D], outbound);
      Refilled(Scanned([], s[..D], outbound), Outs(s[D..], outbound), Dout - have)[..D]
  }

  lemma {:induction false} OutsAndIns(s: seq<PeerId>, outbound: set<PeerId>)
    ensures |Outs(s, outbound)| + |Ins(s, outbound)| == |s|
    ensures forall p :: p in Outs(s, outbound) <==> p in s && p in outbound
    ensures forall p :: p in Ins(s, outbound) <==> p in s && p !in outbound
  {
    if s != [] {
      OutsAndIns(s[..|s| - 1], outbound);
      assert s == s[..|s| - 1] + [s[|s| - 1]];
    }
  }

  /** rotate: puts the ith entry in front and moves the ones before it right by one. */
  method Rotate(a: array<PeerId>, i: nat)
    requires i < a.Length
    modifies a
    ensures a[..i + 1] == [old(a[i])] + old(a[..i])
    ensures forall k :: i < k < a.Length ==> a[k] == old(a[k])
    ensures multiset(a[..]) == multiset(old(a[..]))
  {
    var p := a[i];
    for j := i downto 0
      invariant forall k :: 0 <= k < j ==> a[k] == old(a[k])
      invariant forall k :: j < k <= i ==> a[k] == old(a[k - 1])
      invariant forall k :: i < k < a.Length ==> a[k] == old(a[k])
      invariant j == i ==> a[i] == old(a[i])
    {
      a[j + 1] := a[j];
    }
    a[0] := p;
    RotatedSeq(old(a[..]), a[..], i);
  }

  lemma RotatedSeq(before: seq<PeerId>, after: seq<PeerId>, i: nat)
    requires i < |before| == |after| && after[0] == before[i]
    requires forall k :: 0 < k <= i ==> after[k] == before[k - 1]
    requires forall k :: i < k < |after| ==> after[k] == before[k]
    ensures after[..i + 1] == [before[i]] + before[..i] && multiset(after) == multiset(before)
  {
    var x, l, r := [before[i]], before[..i], before[i + 1..];
    assert after == x + l + r && before == l + x + r;
  }

  lemma {:induction false} ReverseAppend<T>(s: seq<T>, x: T)
    ensures Reverse(s + [x]) == [x] + Reverse(s)
  {
    if s != [] {
      assert (s + [x])[1..] == s[1..] + [x];
      ReverseAppend(s[1..], x);
    }
  }

  lemma OutsStep(s: seq<PeerId>, i: nat, outbound: set<PeerId>)
    requires i < |s|
    ensures s[i] in outbound ==>
      && Outs(s[..i + 1], outbound) == Outs(s[..i], outbound) + [s[i]]
      && Ins(s[..i + 1], outbound) == Ins(s[..i], outbound)
    ensures s[i] !in outbound ==>
      && Outs(s[..i + 1], outbound) == Outs(s[..i], outbound)
      && Ins(s[..i + 1], outbound) == Ins(s[..i], outbound) + [s[i]]
  {
    assert s[..i + 1][..i] == s[..i];
  }

  lemma {:induction false} OutsPrefix(s: seq<PeerId>, i: nat, outbound: set<PeerId>)
    requires i <= |s|
    ensures |Outs(s[..i], outbound)| <= |Outs(s, outbound)| && |Ins(s[..i], outbound)| <= |Ins(s, outbound)|
    ensures Outs(s[..i], outbound) == Outs(s, outbound)[..|Outs(s[..i], outbound)|]
    ensures Ins(s[..i], outbound) == Ins(s, outbound)[..|Ins(s[..i], outbound)|]
  {
    if i < |s| {
      OutsPrefix(s[..|s| - 1], i, outbound);
      assert s[..|s| - 1][..i] == s[..i];
    } else {
      assert s[..i] == s;
    }
  }

  lemma {:induction false} InsAfterLastOut(s: seq<PeerId>, i: nat, outbound: set<PeerId>)
    requires i <= |s| && |Outs(s[..i], outbound)| == |Outs(s, outbound)|
    ensures Ins(s, outbound) == Ins(s[..i], outbound) + s[i..]
  {
    if i < |s| {
      var init := s[..|s| - 1];
      assert init[..i] == s[..i];
      OutsPrefix(init, i, outbound);
      InsAfterLastOut(init, i, outbound);
      assert init[i..] + [s[|s| - 1]] == s[i..];
    } else {
      assert s[..i] == s;
    }
  }

  /** Once all outbound entries have been scanned the rest of the list stays as it is. */
  lemma ScannedAll(s: seq<PeerId>, i: nat, outbound: set<PeerId>)
    requires i <= |s| && |Outs(s[..i], outbound)| >= |Outs(s, outbound)|
    ensures Scanned([], s[..i], outbound) + s[i..] == Scanned([], s, outbound)
  {
    OutsPrefix(s, i, outbound);
    InsAfterLastOut(s, i, outbound);
    var outs, ins := Outs(s[..i], outbound), Ins(s[..i], outbound);
    assert outs == Outs(s, outbound);
    assert Reverse(outs) + [] + ins + s[i..] == Reverse(outs) + [] + (ins + s[i..]);
  }

  lemma ScanStep(block: seq<PeerId>, s: seq<PeerId>, i: nat, outbound: set<PeerId>)
    requires i < |s|
    ensures var before, after := Scanned(block, s[..i], outbound), Scanned(block, s[..i + 1], outbound);
      after == if s[i] in outbound then [s[i]] + before else before + [s[i]]
  {
    OutsStep(s, i, outbound);
    var outs, ins := Outs(s[..i], outbound), Ins(s[..i], outbound);
    if s[i] in outbound {
      ReverseAppend(outs, s[i]);
      assert [s[i]] + Reverse(outs) + block + ins == [s[i]] + (Reverse(outs) + block + ins);
    } else {
      assert Reverse(outs) + block + (ins + [s[i]]) == (Reverse(outs) + block + ins) + [s[i]];
    }
  }

  /** The loop body both scans share: rotate entry i to the front if it is outbound. */
  method ScanEntry(a: array<PeerId>, i: nat, outbound: set<PeerId>, ghost block: seq<PeerId>, ghost s: seq<PeerId>,
                   ghost k: nat)
    returns (rotated: bool)
    requires i < a.Length && k < |s|
    requires a[..i] == Scanned(block, s[..k], outbound) && a[i] == s[k]
    modifies a
    ensures rotated == (s[k] in outbound)
    ensures a[..i + 1] == Scanned(block, s[..k + 1], outbound)
    ensures forall k :: i < k < a.Length ==> a[k] == old(a[k])
    ensures multiset(a[..]) == multiset(old(a[..]))
    ensures |Outs(s[..k + 1], outbound)| == |Outs(s[..k], outbound)| + if rotated then 1 else 0
  {
    ScanStep(block, s, k, outbound);
    OutsStep(s, k, outbound);
    assert a[..i + 1] == a[..i] + [a[i]];
    rotated := a[i] in outbound;
    if rotated { Rotate(a, i); }
  }

  /** The loop both scans share: goes on while there are entries and the budget lasts. */
  method Scan(a: array<PeerId>, from: nat, end: nat, budget: nat, outbound: set<PeerId>,
              ghost block: seq<PeerId>, ghost s: seq<PeerId>, ghost done: nat) returns (i: nat, left: nat, ghost k: nat)
    requires from <= end <= a.Length && done <= |s| && end - from == |s| - done
    requires a[..from] == Scanned(block, s[..done], outbound) && a[from..end] == s[done..]
    modifies a
    ensures from <= i <= end && k - done == i - from && (i == end || left == 0)
    ensures a[..i] == Scanned(block, s[..k], outbound) && forall j :: i <= j < a.Length ==> a[j] == old(a[j])
    ensures left + |Outs(s[..k], outbound)| == budget + |Outs(s[..done], outbound)|
    ensures multiset(a[..]) == multiset(old(a[..]))
  {
    i, left, k := from, budget, done;
    while i < end && left > 0
      invariant from <= i <= end && k - done == i - from
      invariant a[..i] == Scanned(block, s[..k], outbound) && forall j :: i <= j < a.Length ==> a[j] == old(a[j])
      invariant left + |Outs(s[..k], outbound)| == budget + |Outs(s[..done], outbound)|
      invariant multiset(a[..]) == multiset(old(a[..]))
    {
      assert old(a[from..end])[i - from] == s[done..][i - from];
      var rotated := ScanEntry(a, i, outbound, block, s, k);
      if rotated { left := left - 1; }
      i, k := i + 1, k + 1;
    }
  }

  /** The quota: counts the outbound peers among the first D and, when there are fewer than Dout,
      bubbles up first those already selected and then enough of those outside the selection. */
  method EnforceOutbound(a: array<PeerId>, D: nat, Dout: nat, outbound: set<PeerId>)
    requires Dout <= D <= a.Length
    modifies a
    ensures a[..D] == Kept(old(a[..]), D, Dout, outbound)
    ensures multiset(a[..]) == multiset(old(a[..]))
  {
    ghost var s := a[..];
    var n := 0;
    for i := 0 to D
      invariant a[..] == s && n == |Outs(s[..i], outbound)|
    {
      OutsStep(s, i, outbound);
      if a[i] in outbound { n := n + 1; }
    }
    assert a[..D] == s[..D] && a[D..] == s[D..];
    if n < Dout {
      BubbleSelected(a, D, n, outbound);
      BubbleOutside(a, D, Dout - n, outbound);
    }
  }

  /** First loop: outbound peers already in the selection move to its front until all `n` are there. */
  method BubbleSelected(a: array<PeerId>, D: nat, n: nat, outbound: set<PeerId>)
    requires D <= a.Length && n == |Outs(a[..D], outbound)|
    modifies a
    ensures a[..D] == Scanned([], old(a[..D]), outbound)
    ensures a[D..] == old(a[D..])
    ensures multiset(a[..]) == multiset(old(a[..]))
  {
    ghost var s := a[..D];
    if n > 0 {
      OutsAndIns(s, outbound);
      var i := BubbleLoop(a, D, n, outbound, s);
      ScannedAll(s, i, outbound);
      assert a[..D] == a[..i] + s[i..];
      assert a[D..] == old(a[D..]);
    } else {
      ScannedAll(s, 0, outbound);
      assert s[..0] == [] && Scanned([], [], outbound) == [];
      assert [] + s[0..] == s;
    }
  }

  /** The first entry need not be scanned. */
  lemma FirstEntry(s: seq<PeerId>, outbound: set<PeerId>)
    requires s != []
    ensures Scanned([], s[..1], outbound) == [s[0]]
  {
    OutsStep(s, 0, outbound);
    assert s[..0] == [];
  }

  method BubbleLoop(a: array<PeerId>, D: nat, n: nat, outbound: set<PeerId>, ghost s: seq<PeerId>) returns (i: nat)
    requires 0 < D <= a.Length && s == a[..D] && n == |Outs(s, outbound)|
    modifies a
    ensures i <= D && a[..i] == Scanned([], s[..i], outbound)
    ensures forall k :: i <= k < a.Length ==> a[k] == old(a[k])
    ensures |Outs(s[..i], outbound)| >= n
    ensures multiset(a[..]) == multiset(old(a[..]))
  {
    FirstEntry(s, outbound);
    assert a[..1] == [s[0]] && a[1..D] == s[1..];
    var ihave;
    ghost var k;
    i, ihave, k := Scan(a, 1, D, n, outbound, [], s, 1);
    assert s[..D] == s;
  }

  /** Second loop: enough outbound peers from outside the selection move to the very front. */
  method BubbleOutside(a: array<PeerId>, D: nat, need: nat, outbound: set<PeerId>)
    requires D <= a.Length
    modifies a
    ensures a[..D] == Refilled(old(a[..D]), Outs(old(a[D..]), outbound), need)[..D]
    ensures multiset(a[..]) == multiset(old(a[..]))
  {
    ghost var block, rest := a[..D], a[D..];
    assert rest[..0] == [] && Scanned(block, [], outbound) == block;
    var i, ineed;
    ghost var k;
    i, ineed, k := Scan(a, D, a.Length, need, outbound, block, rest, 0);
    assert a[..D] == a[..i][..D];
    OutsideDone(a[..i], block, rest, k, ineed, need, outbound);
  }

  /** The second scan has moved the first `need` outside peers, or all of them. */
  lemma OutsideDone(front: seq<PeerId>, block: seq<PeerId>, rest: seq<PeerId>, k: nat, ineed: nat, need: nat,
                    outbound: set<PeerId>)
    requires k <= |rest| && front == Scanned(block, rest[..k], outbound)
    requires ineed + |Outs(rest[..k], outbound)| == need && (k == |rest| || ineed == 0)
    ensures |front| >= |block|
    ensures front[..|block|] == Refilled(block, Outs(rest, outbound), need)[..|block|]
  {
    OutsPrefix(rest, k, outbound);
    if k == |rest| { assert rest[..k] == rest; }
    var more, moved := Outs(rest, outbound), Outs(rest[..k], outbound);
    assert moved == more[..Min(need, |more|)];
  }

  // ---------------------------------------------------------------- laws of the selection

  lemma {:induction false} OutsConcat(s: seq<PeerId>, t: seq<PeerId>, outbound: set<PeerId>)
    ensures Outs(s + t, outbound) == Outs(s, outbound) + Outs(t, outbound)
  {
    if t == [] {
      assert s + t == s;
    } else {
      var init := t[..|t| - 1];
      assert (s + t)[..|s + t| - 1] == s + init;
      OutsConcat(s, init, outbound);
    }
  }

  lemma {:induction false} AllOuts(s: seq<PeerId>, outbound: set<PeerId>)
    requires forall p :: p in s ==> p in outbound
    ensures Outs(s, outbound) == s
  {
    if s != [] {
      AllOuts(s[..|s| - 1], outbound);
      assert s == s[..|s| - 1] + [s[|s| - 1]];
    }
  }

  lemma {:induction false} ReverseMembers<T>(s: seq<T>)
    ensures forall x :: x in Reverse(s) <==> x in s
  {
    if s != [] {
      ReverseMembers(s[1..]);
      assert s == [s[0]] + s[1..];
    }
  }

  /** The quota is met whenever enough outbound peers exist. */
  lemma KeptMeetsQuota(s: seq<PeerId>, D: nat, Dout: nat, outbound: set<PeerId>)
    requires Dout <= D <= |s|
    ensures |Kept(s, D, Dout, outbound)| == D
    ensures |Outs(Kept(s, D, Dout, outbound), outbound)| >= Min(Dout, |Outs(s, outbound)|)
  {
    var a, b, kept := s[..D], s[D..], Kept(s, D, Dout, outbound);
    assert |Outs(s, outbound)| == |Outs(a, outbound)| + |Outs(b, outbound)| by {
      assert s == a + b;
      OutsConcat(a, b, outbound);
    }
    if |Outs(a, outbound)| < Dout {
      OutsAndIns(a, outbound);
      OutsAndIns(b, outbound);
      var have, ins, more := Outs(a, outbound), Ins(a, outbound), Outs(b, outbound);
      assert kept == Refilled(Reverse(have) + [] + ins, more, Dout - |have|)[..D];
      RefilledMeetsQuota(have, ins, more, Dout, D, outbound);
    } else {
      assert kept == a;
    }
  }

  lemma RefilledMeetsQuota(have: seq<PeerId>, ins: seq<PeerId>, more: seq<PeerId>, Dout: nat, D: nat,
                           outbound: set<PeerId>)
    requires |have| < Dout <= D == |have| + |ins|
    requires (forall p :: p in have ==> p in outbound) && forall p :: p in more ==> p in outbound
    ensures |Outs(Refilled(Reverse(have) + [] + ins, more, Dout - |have|)[..D], outbound)| >= Min(Dout, |have| + |more|)
  {
    var taken := more[..Min(Dout - |have|, |more|)];
    ReverseMembers(taken);
    ReverseMembers(have);
    FrontCounts(Reverse(taken), Reverse(have), ins, D, outbound);
  }

  lemma FrontCounts(x: seq<PeerId>, y: seq<PeerId>, z: seq<PeerId>, n: nat, outbound: set<PeerId>)
    requires |x| + |y| <= n <= |x| + |y| + |z|
    requires (forall p :: p in x ==> p in outbound) && forall p :: p in y ==> p in outbound
    ensures |Outs((x + (y + [] + z))[..n], outbound)| >= |x| + |y|
  {
    RefilledIs(x, y, z, n);
    AllOuts(x + y, outbound);
    OutsConcat(x + y, z[..n - |x| - |y|], outbound);
  }

  lemma RefilledIs<T>(x: seq<T>, y: seq<T>, z: seq<T>, n: nat)
    requires |x| + |y| <= n <= |x| + |y| + |z|
    ensures (x + (y + [] + z))[..n] == x + y + z[..n - |x| - |y|]
  {
  }

  /** The list whose first D entries are kept when the quota bites. */
  ghost function Bubbled(a: seq<PeerId>, b: seq<PeerId>, Dout: nat, outbound: set<PeerId>): seq<PeerId>
    requires |Outs(a, outbound)| < Dout
  {
    Refilled(Scanned([], a, outbound), Outs(b, outbound), Dout - |Outs(a, outbound)|)
  }

  /** Outbound entries of the selection sit before position Dout, the others no more than Dout places later. */
  lemma BubbledAt(a: seq<PeerId>, b: seq<PeerId>, Dout: nat, outbound: set<PeerId>, i: nat) returns (at: nat)
    requires |Outs(a, outbound)| < Dout && i < |a|
    ensures at < |Bubbled(a, b, Dout, outbound)| && Bubbled(a, b, Dout, outbound)[at] == a[i]
    ensures at < Dout + i + 1
  {
    var have, ins, more := Outs(a, outbound), Ins(a, outbound), Outs(b, outbound);
    var taken := more[..Min(Dout - |have|, |more|)];
    OutsAndIns(a, outbound);
    if a[i] in outbound {
      ReverseMembers(have);
      var j :| 0 <= j < |have| && Reverse(have)[j] == a[i];
      at := |taken| + j;
      InMiddle(Reverse(taken), Reverse(have), ins, j);
    } else {
      var j := InsAt(a, i, outbound);
      at := |taken| + |have| + j;
      AtEnd(Reverse(taken), Reverse(have), ins, j);
    }
  }

  lemma InMiddle<T>(x: seq<T>, y: seq<T>, z: seq<T>, j: nat)
    requires j < |y|
    ensures (x + (y + [] + z))[|x| + j] == y[j]
  {
  }

  lemma AtEnd<T>(x: seq<T>, y: seq<T>, z: seq<T>, j: nat)
    requires j < |z|
    ensures (x + (y + [] + z))[|x| + |y| + j] == z[j]
  {
  }

  lemma InsAt(s: seq<PeerId>, i: nat, outbound: set<PeerId>) returns (j: nat)
    requires i < |s| && s[i] !in outbound
    ensures j <= i && j < |Ins(s, outbound)| && Ins(s, outbound)[j] == s[i]
  {
    OutsStep(s, i, outbound);
    OutsPrefix(s, i + 1, outbound);
    OutsAndIns(s[..i], outbound);
    j := |Ins(s[..i], outbound)|;
    assert Ins(s[..i + 1], outbound)[j] == s[i];
  }

  /** With Dscore + Dout <= D no entry among the first Dscore is displaced. */
  lemma KeptKeepsTop(s: seq<PeerId>, D: nat, Dout: nat, Dscore: nat, outbound: set<PeerId>, i: nat)
    requires Dscore + Dout <= D <= |s| && i < Dscore
    ensures s[i] in Kept(s, D, Dout, outbound)
  {
    assert s[..D][i] == s[i];
    if |Outs(s[..D], outbound)| < Dout {
      var at := BubbledAt(s[..D], s[D..], Dout, outbound, i);
      OutsAndIns(s[..D], outbound);
      assert Bubbled(s[..D], s[D..], Dout, outbound)[..D][at] == s[i];
    }
  }

  /** Best `n` of a set: nobody outside scores higher than anybody inside. */
  ghost predicate IsBest(best: set<PeerId>, n: nat, peers: set<PeerId>, score: PeerId -> real) {
    best <= peers && |best| == n && forall b, q :: b in best && q in peers - best ==> score(b) >= score(q)
  }

  datatype Params = Params(D: nat, Dlo: nat, Dhi: nat, Dscore: nat, Dout: nat, Dsame: nat, DsameLo: nat)

  predicate ValidParams(q: Params) {
    0 < q.Dlo <= q.D <= q.Dhi && q.Dout <= q.D && q.DsameLo <= q.Dsame
  }

  /** The first `n` are in descending order of score, and nobody after them scores higher. */
  ghost predicate Arranged(s: seq<PeerId>, score: PeerId -> real, n: nat) {
    forall i, j :: 0 <= i < j < |s| && i < n ==> score(s[i]) >= score(s[j])
  }

  /** Shuffle, sort by score, then shuffle everything after the first Dscore. */
  method Arrange(a: array<PeerId>, score: PeerId -> real, Dscore: nat)
    modifies a
    ensures multiset(a[..]) == multiset(old(a[..])) && Arranged(a[..], score, Dscore)
  {
    Shuffle(a, 0);
    SortByScore(a, score);
    ghost var sorted := a[..];
    if a.Length > Dscore {
      Shuffle(a, Dscore);
      ShuffledTail(sorted, a[..], score, Dscore);
    }
  }

  lemma ShuffledTail(sorted: seq<PeerId>, s: seq<PeerId>, score: PeerId -> real, n: nat)
    requires Descending(sorted, score) && n <= |sorted| == |s|
    requires s[..n] == sorted[..n] && multiset(s[n..]) == multiset(sorted[n..])
    ensures Arranged(s, score, n)
  {
    forall i, j | 0 <= i < j < |s| && i < n ensures score(s[i]) >= score(s[j]) {
      assert s[i] == s[..n][i] == sorted[i];
      if j < n {
        assert s[j] == s[..n][j] == sorted[j];
      } else {
        assert s[n..][j - n] in multiset(sorted[n..]);
        var k :| 0 <= k < |sorted[n..]| && sorted[n..][k] == s[j];
        assert sorted[n + k] == s[j];
      }
    }
  }

  /** "Do we have too many peers?": which peers of an oversized mesh stay and which are pruned. */
  method SelectKept(peers: set<PeerId>, score: PeerId -> real, outbound: set<PeerId>, q: Params)
    returns (keep: set<PeerId>, prune: seq<PeerId>)
    requires ValidParams(q) && |peers| > q.Dhi
    ensures keep + ToSet(prune) == peers && keep !! ToSet(prune) && NoDuplicates(prune)
    ensures |keep| == q.D
    ensures |keep * outbound| >= Min(q.Dout, |peers * outbound|)
    ensures q.Dscore + q.Dout <= q.D ==> exists best :: IsBest(best, q.Dscore, peers, score) && best <= keep
  {
    var list := ToList(peers);
    var a := new PeerId[|list|](i requires 0 <= i < |list| => list[i]);
    assert a[..] == list;
    Arrange(a, score, q.Dscore);
    ghost var s := a[..];
    EnforceOutbound(a, q.D, q.Dout, outbound);
    keep := set i | 0 <= i < q.D :: a[i];
    prune := a[q.D..];
    assert keep == ToSet(a[..q.D]);
    PermutationFacts(list, a[..]);
    PermutationFacts(list, s);
    SplitLaws(s, a[..], peers, outbound, q, keep);
    if q.Dscore + q.Dout <= q.D { BestAreKept(s, peers, score, outbound, q, keep); }
  }

  lemma SplitLaws(s: seq<PeerId>, final: seq<PeerId>, peers: set<PeerId>, outbound: set<PeerId>, q: Params,
                  keep: set<PeerId>)
    requires ValidParams(q) && q.D <= |s| == |final|
    requires NoDuplicates(s) && NoDuplicates(final) && ToSet(s) == ToSet(final) == peers
    requires final[..q.D] == Kept(s, q.D, q.Dout, outbound)
    requires keep == set i | 0 <= i < q.D :: final[i]
    ensures keep + ToSet(final[q.D..]) == peers && keep !! ToSet(final[q.D..]) && NoDuplicates(final[q.D..])
    ensures |keep| == q.D
    ensures |keep * outbound| >= Min(q.Dout, |peers * outbound|)
  {
    assert keep == ToSet(final[..q.D]);
    CutDistinct(final, q.D);
    QuotaCounted(s, final[..q.D], outbound, q);
  }

  lemma CutDistinct<T>(s: seq<T>, n: nat)
    requires NoDuplicates(s) && n <= |s|
    ensures NoDuplicates(s[..n]) && NoDuplicates(s[n..]) && |ToSet(s[..n])| == n
    ensures ToSet(s[..n]) + ToSet(s[n..]) == ToSet(s) && ToSet(s[..n]) !! ToSet(s[n..])
  {
    assert s == s[..n] + s[n..];
    DistinctCount(s[..n]);
  }

  lemma QuotaCounted(s: seq<PeerId>, kept: seq<PeerId>, outbound: set<PeerId>, q: Params)
    requires ValidParams(q) && q.D <= |s| && NoDuplicates(s) && NoDuplicates(kept)
    requires kept == Kept(s, q.D, q.Dout, outbound)
    ensures |ToSet(kept) * outbound| >= Min(q.Dout, |ToSet(s) * outbound|)
  {
    OutsCount(kept, outbound);
    OutsCount(s, outbound);
    KeptMeetsQuota(s, q.D, q.Dout, outbound);
  }

  lemma BestAreKept(s: seq<PeerId>, peers: set<PeerId>, score: PeerId -> real,
                    outbound: set<PeerId>, q: Params, keep: set<PeerId>)
    requires ValidParams(q) && q.Dscore + q.Dout <= q.D < |s|
    requires NoDuplicates(s) && ToSet(s) == peers && Arranged(s, score, q.Dscore)
    requires keep == ToSet(Kept(s, q.D, q.Dout, outbound))
    ensures exists best :: IsBest(best, q.Dscore, peers, score) && best <= keep
  {
    var top := s[..q.Dscore];
    var best := ToSet(top);
    FirstAreBest(s, score, q.Dscore);
    forall b | b in best ensures b in keep {
      var i :| 0 <= i < |top| && top[i] == b;
      KeptKeepsTop(s, q.D, q.Dout, q.Dscore, outbound, i);
    }
    assert IsBest(best, q.Dscore, peers, score);
  }

  lemma FirstAreBest(s: seq<PeerId>, score: PeerId -> real, n: nat)
    requires n <= |s| && NoDuplicates(s) && Arranged(s, score, n)
    ensures IsBest(ToSet(s[..n]), n, ToSet(s), score)
  {
    var top, rest := s[..n], s[n..];
    DistinctCount(top);
    assert s == top + rest;
    forall b, x | b in ToSet(top) && x in ToSet(s) - ToSet(top) ensures score(b) >= score(x) {
      var i :| 0 <= i < |top| && top[i] == b;
      var j :| 0 <= j < |rest| && rest[j] == x;
      assert s[i] == b && s[n + j] == x;
    }
  }

  lemma {:induction false} OutsCount(s: seq<PeerId>, outbound: set<PeerId>)
    requires NoDuplicates(s)
    ensures |Outs(s, outbound)| == |ToSet(s) * outbound|
  {
    if s == [] {
      assert ToSet(s) * outbound == {};
    } else {
      var init, last := s[..|s| - 1], s[|s| - 1];
      OutsCount(init, outbound);
      assert ToSet(s) == ToSet(init) + {last};
      AddedCount(ToSet(init), last, outbound);
    }
  }

  lemma AddedCount(peers: set<PeerId>, p: PeerId, outbound: set<PeerId>)
    requires p !in peers
    ensures |(peers + {p}) * outbound| == |peers * outbound| + if p in outbound then 1 else 0
  {
    assert (peers + {p}) * outbound == (peers * outbound) + if p in outbound then {p} else {};
  }

  /** What the pruning of an oversized mesh should do for a list it may be handed, negative scores having been pruned
      before: keep some choice of the Dscore best peers. */
  ghost predicate KeepsBest(q: Params, s: seq<PeerId>, score: PeerId -> real, outbound: set<PeerId>)
    requires ValidParams(q)
  {
    |s| > q.Dhi && NoDuplicates(s) && Arranged(s, score, q.Dscore) && (forall p :: p in s ==> score(p) >= 0.0) ==>
      exists best :: IsBest(best, q.Dscore, ToSet(s), score) && best <= ToSet(Kept(s, q.D, q.Dout, outbound))
  }

  /** The best peers always stay if and only if the parameters leave room for them beside the outbound quota. */
  lemma TopScoresKeptIff(q: Params)
    requires ValidParams(q)
    ensures (forall s, score, outbound :: KeepsBest(q, s, score, outbound)) <==> q.Dscore + q.Dout <= q.D
  {
    if q.Dscore + q.Dout <= q.D {
      forall s, score, outbound | |s| > q.Dhi && NoDuplicates(s) && Arranged(s, score, q.Dscore)
        ensures KeepsBest(q, s, score, outbound)
      {
        BestAreKept(s, ToSet(s), score, outbound, q, ToSet(Kept(s, q.D, q.Dout, outbound)));
      }
    } else {
      var s, score, outbound := TopScoresNeedRoom(q);
      assert !KeepsBest(q, s, score, outbound);
    }
  }

  /** For parameters that do not: an oversized mesh without negative scores, listed by descending score, of which the
      quota prunes a peer that every choice of the Dscore best holds. */
  lemma TopScoresNeedRoom(q: Params) returns (s: seq<PeerId>, score: PeerId -> real, outbound: set<PeerId>)
    requires ValidParams(q) && q.Dscore + q.Dout > q.D
    ensures |s| > q.Dhi && NoDuplicates(s) && Descending(s, score) && forall p :: p in s ==> score(p) >= 0.0
    ensures forall best :: IsBest(best, q.Dscore, ToSet(s), score) ==>
      !(best <= ToSet(Kept(s, q.D, q.Dout, outbound)))
  {
    var n := q.Dhi + 1 + q.Dout;
    s, score := Numbered(0, n), ByNumber(n);
    outbound := ToSet(Numbered(q.Dhi + 1, n));
    NumberedDescend(n);
    forall best | IsBest(best, q.Dscore, ToSet(s), score) ensures !(best <= ToSet(Kept(s, q.D, q.Dout, outbound))) {
      if q.Dscore > q.D {
        KeptMeetsQuota(s, q.D, q.Dout, outbound);
        MoreThanKept(best, Kept(s, q.D, q.Dout, outbound));
      } else {
        TopIsBest(s, score, best, q.Dscore - 1);
        LastBestPruned(q, s, outbound);
      }
    }
  }

  lemma LastBestPruned(q: Params, s: seq<PeerId>, outbound: set<PeerId>)
    requires ValidParams(q) && q.Dscore <= q.D < q.Dscore + q.Dout && s == Numbered(0, q.Dhi + 1 + q.Dout)
    requires outbound == ToSet(Numbered(q.Dhi + 1, q.Dhi + 1 + q.Dout))
    ensures s[q.Dscore - 1] !in Kept(s, q.D, q.Dout, outbound)
  {
    var a, b, c := Numbered(0, q.D), Numbered(q.D, q.Dhi + 1), Numbered(q.Dhi + 1, q.Dhi + 1 + q.Dout);
    assert s == a + b + c;
    KeptFromOutside(a, b, c, q.Dout, outbound);
    NotKept(c, a[..q.D - q.Dout], PeerId(q.Dscore - 1));
  }

  function ByNumber(n: nat): PeerId -> real { (p: PeerId) => (n - p.id) as real }

  lemma NumberedDescend(n: nat)
    ensures NoDuplicates(Numbered(0, n)) && forall p :: p in Numbered(0, n) ==> ByNumber(n)(p) >= 0.0
    ensures forall j, k :: 0 <= j < k < n ==> ByNumber(n)(Numbered(0, n)[j]) > ByNumber(n)(Numbered(0, n)[k])
  {
  }

  lemma NotKept(c: seq<PeerId>, a: seq<PeerId>, p: PeerId)
    requires p !in c && p !in a
    ensures p !in Reverse(c) + a
  {
    ReverseMembers(c);
  }

  function Numbered(from: nat, end: nat): (s: seq<PeerId>)
    requires from <= end
    ensures |s| == end - from && forall i :: 0 <= i < |s| ==> s[i] == PeerId(from + i)
  {
    seq(end - from, i requires 0 <= i => PeerId(from + i))
  }

  lemma MoreThanKept(best: set<PeerId>, kept: seq<PeerId>)
    requires |best| > |kept|
    ensures !(best <= ToSet(kept))
  {
    if best <= ToSet(kept) {
      SubsetCard(best, ToSet(kept));
      SetAtMost(kept);
    }
  }

  /** With strictly descending scores, the best peers are the first ones. */
  lemma TopIsBest(s: seq<PeerId>, score: PeerId -> real, best: set<PeerId>, i: nat)
    requires i < |s| && IsBest(best, i + 1, ToSet(s), score)
    requires NoDuplicates(s) && forall j, k :: 0 <= j < k < |s| ==> score(s[j]) > score(s[k])
    ensures s[i] in best
  {
    if s[i] !in best {
      forall p | p in best ensures p in ToSet(s[..i]) {
        var j :| 0 <= j < |s| && s[j] == p;
        assert score(p) >= score(s[i]);
      }
      DistinctCount(s[..i]);
      SubsetCard(best, ToSet(s[..i]));
    }
  }

  /** When the outbound peers come last, the quota takes all of them and drops the end of the first D. */
  lemma KeptFromOutside(a: seq<PeerId>, b: seq<PeerId>, c: seq<PeerId>, Dout: nat, outbound: set<PeerId>)
    requires 0 < Dout == |c| <= |a|
    requires (forall p :: p in a + b ==> p !in outbound) && forall p :: p in c ==> p in outbound
    ensures Kept(a + b + c, |a|, Dout, outbound) == Reverse(c) + a[..|a| - Dout]
  {
    CutAfter(a, b, c);
    NoOuts(a, outbound);
    NoOuts(b, outbound);
    AllOuts(c, outbound);
    OutsConcat(b, c, outbound);
    AllTaken(a, c, outbound);
  }

  lemma CutAfter<T>(a: seq<T>, b: seq<T>, c: seq<T>)
    ensures (a + b + c)[..|a|] == a && (a + b + c)[|a|..] == b + c
    ensures [] + c == c
  {
  }

  lemma AllTaken(a: seq<PeerId>, c: seq<PeerId>, outbound: set<PeerId>)
    requires |c| <= |a| && Outs(a, outbound) == [] && Ins(a, outbound) == a
    ensures Refilled(Scanned([], a, outbound), c, |c|)[..|a|] == Reverse(c) + a[..|a| - |c|]
  {
    assert c[..|c|] == c;
    RefilledIs(Reverse(c), [], a, |a|);
    assert Reverse(c) + [] == Reverse(c);
  }

  lemma {:induction false} NoOuts(s: seq<PeerId>, outbound: set<PeerId>)
    requires forall p :: p in s ==> p !in outbound
    ensures Outs(s, outbound) == [] && Ins(s, outbound) == s
  {
    if s != [] {
      NoOuts(s[..|s| - 1], outbound);
      assert s == s[..|s| - 1] + [s[|s| - 1]];
    }
  }
}
