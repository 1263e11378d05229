/** The order of multiaddrs, and the removal of duplicates that relies on it. */
module MultiaddrOrder {
  import opened Varint
  import opened Multiaddr
  import opened MultiaddrOps

  // ---------------------------------------------------------------- comparing

  /** A comparison that says -1, 0 or 1, the opposite the other way round, and is transitive. */
  ghost predicate TotalOrder<T(!new)>(cmp: (T, T) -> int) {
    && (forall a, b :: -1 <= cmp(a, b) <= 1 && cmp(b, a) == -cmp(a, b))
    && (forall a, b, c :: cmp(a, b) <= 0 && cmp(b, c) <= 0 ==> cmp(a, c) <= 0)
  }

  /** Comparing lists entry by entry; a proper prefix comes first. */
  function Lex<T>(a: seq<T>, b: seq<T>, cmp: (T, T) -> int): int {
    if |a| == 0 || |b| == 0 then Sign(|a| - |b|)
    else if cmp(a[0], b[0]) != 0 then cmp(a[0], b[0])
    else Lex(a[1..], b[1..], cmp)
  }

  function Sign(n: int): int { if n < 0 then -1 else if n > 0 then 1 else 0 }

  lemma {:induction false} LexFlips<T(!new)>(a: seq<T>, b: seq<T>, cmp: (T, T) -> int)
    requires TotalOrder(cmp)
    ensures -1 <= Lex(a, b, cmp) <= 1 && Lex(b, a, cmp) == -Lex(a, b, cmp)
  {
    if |a| > 0 && |b| > 0 { LexFlips(a[1..], b[1..], cmp); }
  }

  /** What comes before, or is equal, taken together: strictly before if one of them is strict. */
  lemma Chain<T(!new)>(a: T, b: T, c: T, cmp: (T, T) -> int)
    requires TotalOrder(cmp) && cmp(a, b) <= 0 && cmp(b, c) <= 0
    ensures cmp(a, c) <= 0 && (cmp(a, c) == 0 ==> cmp(a, b) == 0 && cmp(b, c) == 0)
  {
    if cmp(a, c) == 0 {
      assert cmp(c, a) <= 0;
      assert cmp(c, b) <= 0 && cmp(b, a) <= 0;
    }
  }

  lemma {:induction false} LexTransitive<T(!new)>(a: seq<T>, b: seq<T>, c: seq<T>, cmp: (T, T) -> int)
    requires TotalOrder(cmp) && Lex(a, b, cmp) <= 0 && Lex(b, c, cmp) <= 0
    ensures Lex(a, c, cmp) <= 0
  {
    if |a| > 0 && |b| > 0 && |c| > 0 {
      Chain(a[0], b[0], c[0], cmp);
      if cmp(a[0], c[0]) == 0 { LexTransitive(a[1..], b[1..], c[1..], cmp); }
    }
  }

  lemma LexIsOrder<T(!new)>(cmp: (T, T) -> int, lex: (seq<T>, seq<T>) -> int)
    requires TotalOrder(cmp) && forall a, b :: lex(a, b) == Lex(a, b, cmp)
    ensures TotalOrder(lex)
  {
    forall a, b ensures -1 <= lex(a, b) <= 1 && lex(b, a) == -lex(a, b) { LexFlips(a, b, cmp); }
    forall a, b, c | lex(a, b) <= 0 && lex(b, c) <= 0 ensures lex(a, c) <= 0 { LexTransitive(a, b, c, cmp); }
  }

  lemma {:induction false} LexEqual<T>(a: seq<T>, b: seq<T>, cmp: (T, T) -> int)
    ensures Lex(a, b, cmp) == 0 <==> |a| == |b| && forall i :: 0 <= i < |a| ==> cmp(a[i], b[i]) == 0
  {
    if |a| > 0 && |b| > 0 {
      LexEqual(a[1..], b[1..], cmp);
      assert forall i :: 0 < i < |a| ==> a[i] == a[1..][i - 1];
      assert forall i :: 0 < i < |b| ==> b[i] == b[1..][i - 1];
      if cmp(a[0], b[0]) == 0 && |a| == |b| && forall i :: 0 <= i < |a| - 1 ==> cmp(a[1..][i], b[1..][i]) == 0 {
        forall i | 0 <= i < |a| ensures cmp(a[i], b[i]) == 0 {
          if i > 0 { assert cmp(a[1..][i - 1], b[1..][i - 1]) == 0; }
        }
      }
      if |a| == |b| && forall i :: 0 <= i < |a| ==> cmp(a[i], b[i]) == 0 {
        forall i | 0 <= i < |a| - 1 ensures cmp(a[1..][i], b[1..][i]) == 0 {
          assert cmp(a[i + 1], b[i + 1]) == 0;
        }
      }
    }
  }

  function ByteOrder(): (Byte, Byte) -> int { (x: Byte, y: Byte) => Sign(x - y) }

  function BytesOrder(): (Bytes, Bytes) -> int { (x: Bytes, y: Bytes) => Lex<Byte>(x, y, ByteOrder()) }

  /** Component.Compare. */
  function ComponentOrder(): (Component, Component) -> int {
    (c: Component, d: Component) => BytesOrder()(c.bytes, d.bytes)
  }

  function Compared(a: Address, b: Address): int { Lex(a, b, ComponentOrder()) }

  function AddressOrder(): (Address, Address) -> int { (a: Address, b: Address) => Compared(a, b) }

  lemma BytesCompare(a: Byte, b: Byte)
    ensures ByteOrder()(a, b) == Sign(a - b)
  {
  }

  lemma BytesAreOrdered()
    ensures TotalOrder(BytesOrder())
  {
    forall a: Byte, b: Byte ensures ByteOrder()(a, b) == Sign(a - b) { BytesCompare(a, b); }
    LexIsOrder<Byte>(ByteOrder(), BytesOrder());
  }

  lemma ComponentsAreOrdered()
    ensures TotalOrder(ComponentOrder())
  {
    BytesAreOrdered();
    var cmp, of := ComponentOrder(), BytesOrder();
    forall a, b ensures -1 <= cmp(a, b) <= 1 && cmp(b, a) == -cmp(a, b) {
      assert of(b.bytes, a.bytes) == -of(a.bytes, b.bytes);
    }
    forall a, b, c | cmp(a, b) <= 0 && cmp(b, c) <= 0 ensures cmp(a, c) <= 0 {
      assert of(a.bytes, b.bytes) <= 0 && of(b.bytes, c.bytes) <= 0;
    }
  }

  /** Comparing multiaddrs is a total order. */
  lemma CompareIsOrder()
    ensures TotalOrder(AddressOrder())
  {
    ComponentsAreOrdered();
    LexIsOrder(ComponentOrder(), AddressOrder());
  }

  lemma BytesEqual(x: Bytes, y: Bytes)
    ensures BytesOrder()(x, y) == 0 <==> x == y
  {
    LexEqual<Byte>(x, y, ByteOrder());
    forall i | 0 <= i < |x| && i < |y| ensures ByteOrder()(x[i], y[i]) == 0 <==> x[i] == y[i] {
      BytesCompare(x[i], y[i]);
    }
  }

  /** It calls exactly those multiaddrs equal that Equal does. */
  lemma CompareAgreesWithEqual(a: Address, b: Address)
    ensures Compared(a, b) == 0 <==> SameBytes(a, b)
  {
    LexEqual(a, b, ComponentOrder());
    forall i | 0 <= i < |a| && i < |b| ensures ComponentOrder()(a[i], b[i]) == 0 <==> a[i].bytes == b[i].bytes {
      BytesEqual(a[i].bytes, b[i].bytes);
    }
  }

  /** Compare, component by component. */
  method Compare(m: Address, o: Address) returns (c: int)
    ensures c == Compared(m, o)
  {
    var i := 0;
    while i < |m| && i < |o|
      invariant i <= |m| && i <= |o| && Compared(m, o) == Lex(m[i..], o[i..], ComponentOrder())
    {
      c := ComponentOrder()(m[i], o[i]);
      if c != 0 {
        return;
      }
      assert m[i..][1..] == m[i + 1..] && o[i..][1..] == o[i + 1..];
      i := i + 1;
    }
    return Sign(|m| - |o|);
  }

  // ---------------------------------------------------------------- removing duplicates

  ghost predicate Ascending(s: seq<Address>) {
    forall i, j :: 0 <= i < j < |s| ==> Compared(s[i], s[j]) <= 0
  }

  ghost predicate StrictlyAscending(s: seq<Address>) {
    forall i, j :: 0 <= i < j < |s| ==> Compared(s[i], s[j]) < 0
  }

  lemma Between(a: Address, b: Address, c: Address)
    requires Compared(a, b) <= 0 && Compared(b, c) <= 0
    ensures Compared(a, c) <= 0 && (Compared(a, c) == 0 ==> Compared(a, b) == 0 && Compared(b, c) == 0)
  {
    CompareIsOrder();
    Chain(a, b, c, AddressOrder());
  }

  lemma Flipped(a: Address, b: Address)
    ensures Compared(b, a) == -Compared(a, b)
  {
    CompareIsOrder();
    assert AddressOrder()(b, a) == -AddressOrder()(a, b);
  }

  /** A sort of the library, up to the order of equal addresses. */
  function Sorted(s: seq<Address>): (r: seq<Address>)
    ensures |r| == |s| && Ascending(r) && forall a :: a in r <==> a in s
  {
    if |s| == 0 then [] else
      assert s == [s[0]] + s[1..];
      Inserted(Sorted(s[1..]), s[0])
  }

  function Inserted(s: seq<Address>, a: Address): (r: seq<Address>)
    requires Ascending(s)
    ensures |r| == |s| + 1 && Ascending(r) && forall b :: b in r <==> b in s || b == a
  {
    if |s| == 0 then [a]
    else if Compared(a, s[0]) <= 0 then
      InFront(a, s);
      [a] + s
    else
      Flipped(a, s[0]);
      assert s == [s[0]] + s[1..];
      var rest := Inserted(s[1..], a);
      assert forall b :: b in rest ==> Compared(s[0], b) <= 0;
      [s[0]] + rest
  }

  lemma InFront(a: Address, s: seq<Address>)
    requires Ascending(s) && |s| > 0 && Compared(a, s[0]) <= 0
    ensures Ascending([a] + s)
  {
    forall j | 0 <= j < |s| ensures Compared(a, s[j]) <= 0 {
      if j > 0 { Between(a, s[0], s[j]); }
    }
  }

  /** The distinct addresses among the first `i` of `s`, in order. */
  ghost predicate Compacted(s: seq<Address>, i: nat, out: seq<Address>) {
    && 0 < i <= |s| && 0 < |out| <= i && StrictlyAscending(out) && SameBytes(out[|out| - 1], s[i - 1])
    && (forall a :: a in out ==> a in s) && HoldsAll(out, s[..i])
  }

  ghost predicate HoldsAll(out: seq<Address>, s: seq<Address>) {
    forall a :: a in s ==> Held(out, a)
  }

  ghost predicate Held(out: seq<Address>, a: Address) {
    exists j :: 0 <= j < |out| && SameBytes(out[j], a)
  }

  lemma CompactedSame(s: seq<Address>, i: nat, out: seq<Address>)
    requires Compacted(s, i, out) && i < |s| && SameBytes(s[i - 1], s[i])
    ensures Compacted(s, i + 1, out)
  {
    assert Held(out, s[i]);
    assert s[..i + 1] == s[..i] + [s[i]];
  }

  lemma CompactedNew(s: seq<Address>, i: nat, out: seq<Address>)
    requires Ascending(s) && Compacted(s, i, out) && i < |s| && !SameBytes(s[i - 1], s[i])
    ensures Compacted(s, i + 1, out + [s[i]])
  {
    var out', last := out + [s[i]], out[|out| - 1];
    CompareAgreesWithEqual(s[i - 1], s[i]);
    CompareAgreesWithEqual(last, s[i - 1]);
    Between(last, s[i - 1], s[i]);
    forall k | 0 <= k < |out| ensures Compared(out[k], s[i]) < 0 {
      if k < |out| - 1 { Between(out[k], last, s[i]); }
    }
    assert s[..i + 1] == s[..i] + [s[i]];
    forall a | a in s[..i + 1] ensures Held(out', a) {
      if a in s[..i] {
        var j :| 0 <= j < |out| && SameBytes(out[j], a);
        assert out'[j] == out[j];
      } else {
        assert out'[|out|] == a;
      }
    }
  }

  /** Unique: sorts, and moves the first of each run of equal addresses to the front; the rest is cleared. The addresses
      in front are distinct and in order, are among those given, and hold each of them. */
  method Unique(addrs: array<Address>) returns (n: nat)
    modifies addrs
    ensures n <= addrs.Length && StrictlyAscending(addrs[..n])
    ensures forall a :: a in addrs[..n] ==> a in old(addrs[..])
    ensures HoldsAll(addrs[..n], old(addrs[..]))
    ensures forall i :: n <= i < addrs.Length ==> addrs[i] == []
  {
    if addrs.Length == 0 {
      return 0;
    }
    var s := Sorted(addrs[..]);
    forall i | 0 <= i < addrs.Length { addrs[i] := s[i]; }
    n := Compact(addrs, s);
    ghost var front := addrs[..n];
    for i := n to addrs.Length
      invariant forall k :: n <= k < i ==> addrs[k] == []
      invariant addrs[..n] == front
    {
      addrs[i] := [];
    }
    assert s[..|s|] == s;
  }

  method Compact(addrs: array<Address>, ghost s: seq<Address>) returns (n: nat)
    requires addrs.Length > 0 && Ascending(s) && addrs[..] == s
    modifies addrs
    ensures n <= addrs.Length && Compacted(s, |s|, addrs[..n])
  {
    n := 1;
    ghost var out := addrs[..n];
    FirstCompacted(s);
    assert out == [s[0]];
    for i := 1 to addrs.Length
      invariant 1 <= n <= i && addrs[i - 1] == s[i - 1] && forall k :: i <= k < |s| ==> addrs[k] == s[k]
      invariant addrs[..n] == out && Compacted(s, i, out)
    {
      var same := Equal(addrs[i - 1], addrs[i]);
      if same {
        CompactedSame(s, i, out);
      } else {
        CompactedNew(s, i, out);
        out := out + [s[i]];
        addrs[n] := addrs[i];
        n := n + 1;
      }
    }
  }

  lemma FirstCompacted(s: seq<Address>)
    requires s != []
    ensures Compacted(s, 1, [s[0]])
  {
    assert Held([s[0]], s[0]) by { assert SameBytes([s[0]][0], s[0]); }
  }
}
