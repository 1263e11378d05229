/** Peers, peer lists and the library calls the router makes on them. */
module Peers {

  /** Peer IDs are only ever compared for equality. */
  datatype PeerId = PeerId(id: nat)

  predicate NoDuplicates<T(==)>(s: seq<T>) {
    forall i, j :: 0 <= i < j < |s| ==> s[i] != s[j]
  }

  function ToSet<T(==)>(s: seq<T>): set<T> {
    set x | x in s
  }

  lemma {:induction false} DistinctCount<T>(s: seq<T>)
    requires NoDuplicates(s)
    ensures |ToSet(s)| == |s|
  {
    if s != [] {
      var init, last := s[..|s| - 1], s[|s| - 1];
      DistinctCount(init);
      assert ToSet(s) == ToSet(init) + {last};
    }
  }

  lemma PermutationFacts<T>(a: seq<T>, b: seq<T>)
    requires multiset(a) == multiset(b)
    ensures |a| == |b| && ToSet(a) == ToSet(b)
    ensures NoDuplicates(a) ==> NoDuplicates(b)
  {
    assert |multiset(a)| == |a| && |multiset(b)| == |b|;
    forall x ensures x in a <==> x in b { assert x in multiset(a) <==> x in multiset(b); }
    assert ToSet(a) == ToSet(b);
    if NoDuplicates(a) {
      DistinctCount(a);
      forall i, j | 0 <= i < j < |b| ensures b[i] != b[j] {
        if b[i] == b[j] {
          var rest := b[..i] + b[i + 1..];
          forall k | 0 <= k < |b| ensures b[k] in rest {
            assert b[k] == if k < i then rest[k] else if k == i then rest[j - 1] else rest[k - 1];
          }
          assert ToSet(rest) == ToSet(b);
          SetAtMost(rest);
        }
      }
    }
  }

  lemma {:induction false} SetAtMost<T>(s: seq<T>)
    ensures |ToSet(s)| <= |s|
  {
    if s != [] {
      SetAtMost(s[..|s| - 1]);
      assert ToSet(s) == ToSet(s[..|s| - 1]) + {s[|s| - 1]};
    }
  }

  lemma SubsetCard<T>(a: set<T>, b: set<T>)
    requires a <= b
    ensures |a| <= |b|
  {
    assert b == a + (b - a);
  }

  lemma SubsetEqual<T>(a: set<T>, b: set<T>)
    requires a <= b && |a| == |b|
    ensures a == b
  {
    assert b == a + (b - a);
  }

  lemma DisjointCard<T>(a: set<T>, b: set<T>)
    requires a !! b
    ensures |a + b| == |a| + |b|
  {
  }

  /** peerMapToList: the keys of a map, in whatever order the range loop visits them. */
  method ToList<T(==)>(peers: set<T>) returns (list: seq<T>)
    ensures NoDuplicates(list) && ToSet(list) == peers && |list| == |peers|
  {
    list := [];
    var left := peers;
    while left != {}
      invariant left <= peers && NoDuplicates(list) && ToSet(list) == peers - left
      decreases left
    {
      var p :| p in left;
      left := left - {p};
      assert ToSet(list + [p]) == ToSet(list) + {p};
      list := list + [p];
    }
    DistinctCount(list);
  }

  /** shufflePeers on the part of the list from `lo` on: each entry swaps with a random earlier one. */
  method Shuffle<T>(a: array<T>, lo: nat)
    requires lo <= a.Length
    modifies a
    ensures a[..lo] == old(a[..lo])
    ensures multiset(a[lo..]) == multiset(old(a[lo..]))
    ensures multiset(a[..]) == multiset(old(a[..]))
  {
    for i := lo to a.Length
      invariant a[..lo] == old(a[..lo])
      invariant multiset(a[lo..]) == multiset(old(a[lo..]))
    {
      var j :| lo <= j <= i;
      Swap(a, lo, i, j);
    }
    assert a[..] == a[..lo] + a[lo..];
    assert old(a[..]) == old(a[..lo]) + old(a[lo..]);
  }

  method Swap<T>(a: array<T>, ghost lo: nat, i: nat, j: nat)
    requires lo <= j <= i < a.Length
    modifies a
    ensures a[..lo] == old(a[..lo])
    ensures multiset(a[lo..]) == multiset(old(a[lo..]))
  {
    a[i], a[j] := a[j], a[i];
    ghost var before, after := old(a[lo..]), a[lo..];
    assert after == before[i - lo := before[j - lo]][j - lo := before[i - lo]];
  }

  predicate Descending(s: seq<PeerId>, score: PeerId -> real) {
    forall i, j :: 0 <= i < j < |s| ==> score(s[i]) >= score(s[j])
  }

  function InsertByScore(p: PeerId, s: seq<PeerId>, score: PeerId -> real): seq<PeerId> {
    if s == [] || score(p) >= score(s[0]) then [p] + s else [s[0]] + InsertByScore(p, s[1..], score)
  }

  function SortedByScore(s: seq<PeerId>, score: PeerId -> real): seq<PeerId> {
    if s == [] then [] else InsertByScore(s[0], SortedByScore(s[1..], score), score)
  }

  lemma {:induction false} InsertIsPermutation(p: PeerId, s: seq<PeerId>, score: PeerId -> real)
    ensures multiset(InsertByScore(p, s, score)) == multiset(s) + multiset{p}
  {
    if s != [] && score(p) < score(s[0]) {
      InsertIsPermutation(p, s[1..], score);
      assert s == [s[0]] + s[1..];
    }
  }

  lemma {:induction false} InsertKeepsOrder(p: PeerId, s: seq<PeerId>, score: PeerId -> real)
    requires Descending(s, score)
    ensures Descending(InsertByScore(p, s, score), score)
    ensures forall q :: q in InsertByScore(p, s, score) ==> q == p || q in s
  {
    if s == [] || score(p) >= score(s[0]) {
      PutInFront(p, s, score);
    } else {
      var rest := InsertByScore(p, s[1..], score);
      InsertKeepsOrder(p, s[1..], score);
      forall q | q in rest ensures score(s[0]) >= score(q) && (q == p || q in s) {
        if q != p {
          var i :| 0 <= i < |s[1..]| && s[1..][i] == q;
          assert s[i + 1] == q;
        }
      }
      PutInFront(s[0], rest, score);
    }
  }

  lemma PutInFront(p: PeerId, s: seq<PeerId>, score: PeerId -> real)
    requires Descending(s, score)
    ensures (forall q :: q in s ==> score(p) >= score(q)) ==> Descending([p] + s, score)
    ensures s != [] && score(p) >= score(s[0]) ==> Descending([p] + s, score)
    ensures forall q :: q in [p] + s ==> q == p || q in s
  {
  }

  lemma {:induction false} SortedIsSorted(s: seq<PeerId>, score: PeerId -> real)
    ensures Descending(SortedByScore(s, score), score)
    ensures multiset(SortedByScore(s, score)) == multiset(s)
  {
    if s != [] {
      SortedIsSorted(s[1..], score);
      InsertKeepsOrder(s[0], SortedByScore(s[1..], score), score);
      InsertIsPermutation(s[0], SortedByScore(s[1..], score), score);
      assert s == [s[0]] + s[1..];
    }
  }

  /** sort.Slice by falling score. */
  method SortByScore(a: array<PeerId>, score: PeerId -> real)
    modifies a
    ensures Descending(a[..], score) && multiset(a[..]) == multiset(old(a[..]))
  {
    var sorted := SortedByScore(a[..], score);
    SortedIsSorted(a[..], score);
    PermutationFacts(sorted, a[..]);
    forall i | 0 <= i < a.Length { a[i] := sorted[i]; }
    assert a[..] == sorted;
  }
}
