/** Joining, splitting and decapsulating multiaddrs. Components are compared by their bytes. */
module MultiaddrOps {
  import opened Basics
  import opened Varint
  import opened Multiaddr

  type Address = seq<Component>

  predicate SameBytes(a: Address, b: Address) {
    |a| == |b| && forall i :: 0 <= i < |a| ==> a[i].bytes == b[i].bytes
  }

  lemma CodeOfBytes(g: Registry, c: Component)
    requires ValidRegistry(g) && Validated(g, c)
    ensures ReadCode(c.bytes).Some? && ReadCode(c.bytes).value.value == c.code
  {
    var p := g.byCode[c.code];
    assert CodeFits(p) && p.code == c.code;
    assert c.bytes == p.vcode + c.bytes[|p.vcode|..];
    CodeRoundTrip(c.code, c.bytes[|p.vcode|..]);
  }

  /** Among valid components the bytes say everything. */
  lemma BytesDetermine(g: Registry, a: Component, b: Component)
    requires ValidRegistry(g) && Validated(g, a) && Validated(g, b) && a.bytes == b.bytes
    ensures a == b
  {
    CodeOfBytes(g, a);
    CodeOfBytes(g, b);
  }

  lemma SameBytesSame(g: Registry, a: Address, b: Address)
    requires ValidRegistry(g) && SameBytes(a, b) && forall i :: 0 <= i < |a| ==>
      Validated(g, a[i]) && Validated(g, b[i])
    ensures a == b
  {
    forall i | 0 <= i < |a| ensures a[i] == b[i] { BytesDetermine(g, a[i], b[i]); }
  }

  /** Multiaddr.Equal, component by component. */
  method Equal(a: Address, b: Address) returns (eq: bool)
    ensures eq <==> SameBytes(a, b)
  {
    if |a| != |b| {
      return false;
    }
    for i := 0 to |a|
      invariant forall j :: 0 <= j < i ==> a[j].bytes == b[j].bytes
    {
      if a[i].bytes != b[i].bytes {
        return false;
      }
    }
    return true;
  }

  /** Encapsulate: both addresses one after the other. */
  method Encapsulate(a: Address, b: Address) returns (out: Address)
    ensures out == a + b
  {
    var parts := [a, b];
    out := [];
    for i := 0 to |parts|
      invariant out == if i == 0 then [] else if i == 1 then a else a + b
    {
      out := out + parts[i];
    }
  }

  // ---------------------------------------------------------------- decapsulating

  predicate MatchesAt(m: Address, right: Address, i: nat) {
    right != [] && i + |right| <= |m| && SameBytes(m[i..i + |right|], right)
  }

  /** The last place before `n` where `right` occurs in `m`. */
  function LastMatch(m: Address, right: Address, n: nat): (r: Option<nat>)
    ensures r.Some? ==> r.value < n && MatchesAt(m, right, r.value)
    ensures forall i :: (if r.Some? then r.value + 1 else 0) <= i < n ==> !MatchesAt(m, right, i)
  {
    if n == 0 then None else if MatchesAt(m, right, n - 1) then Some(n - 1) else LastMatch(m, right, n - 1)
  }

  /** What is left of `m` before the last occurrence of `right`; all of it if there is none. */
  function Decapsulated(m: Address, right: Address): Address {
    match LastMatch(m, right, |m|)
    case None => m
    case Some(i) => m[..i]
  }

  /** The inner loop of Decapsulate: compares component by component from start `i`. */
  method MatchHere(m: Address, right: Address, i: nat) returns (found: bool)
    requires i < |m|
    ensures found <==> MatchesAt(m, right, i)
  {
    found := false;
    for j := 0 to |right|
      invariant found <==> j > 0
      invariant i + j <= |m| && forall k :: 0 <= k < j ==> right[k].bytes == m[i + k].bytes
    {
      if |m| <= i + j {
        return false;
      }
      found := right[j].bytes == m[i + j].bytes;
      if !found {
        return;
      }
    }
  }

  /** Decapsulate: tries every start, and at every start every component. */
  method Decapsulate(m: Address, right: Address) returns (r: Address)
    ensures r == Decapsulated(m, right)
  {
    var last := -1;
    for i := 0 to |m|
      invariant LastMatch(m, right, i) == if last < 0 then None else Some(last)
      invariant -1 <= last < i
    {
      var found := MatchHere(m, right, i);
      if found {
        last := i;
      }
    }
    if last == 0 {
      return [];
    }
    if last < 0 {
      return m;
    }
    return m[..last];
  }

  /** Decapsulating what was encapsulated gives the address back, for all addresses. */
  lemma DecapsulateEncapsulate(a: Address, b: Address)
    ensures Decapsulated(a + b, b) == a
  {
    var m := a + b;
    if b != [] {
      assert m[|a|..|a| + |b|] == b;
      assert MatchesAt(m, b, |a|);
      var r := LastMatch(m, b, |m|);
      assert r.Some? && r.value == |a|;
      assert m[..|a|] == a;
    } else {
      assert m == a;
    }
  }

  /** If `right` is a suffix, exactly the suffix is cut off. */
  lemma DecapsulateSuffix(m: Address, right: Address)
    requires right != [] && |right| <= |m| && SameBytes(m[|m| - |right|..], right)
    ensures Decapsulated(m, right) == m[..|m| - |right|]
  {
    var k := |m| - |right|;
    assert m[k..k + |right|] == m[k..];
    assert MatchesAt(m, right, k);
  }

  // ---------------------------------------------------------------- splitting

  /** SplitFunc: splits before the first component the callback accepts. */
  method SplitAt(m: Address, accept: Component -> bool) returns (pre: Address, post: Address)
    ensures pre + post == m && (forall i :: 0 <= i < |pre| ==> !accept(pre[i])) && (post != [] ==> accept(post[0]))
  {
    var idx := |m|;
    for i := 0 to |m|
      invariant idx == |m| && forall j :: 0 <= j < i ==> !accept(m[j])
    {
      if accept(m[i]) {
        idx := i;
        break;
      }
    }
    pre, post := m[..idx], m[idx..];
  }
}
