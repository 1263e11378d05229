/** Bitmasks and their slicing: a multi-bit mask is cut into its one-bit masks, most significant bit first. */
module Bitmasks {
  import opened Peers

  type Bitmask = seq<bv8>

  /** The byte whose only set bit is bit `j`. */
  function PowerOfTwo(j: nat): bv8
    requires j < 8
  {
    (1 as bv8) << j
  }

  /** Whether bit `j` of a byte is set. */
  predicate ByteBit(b: bv8, j: nat)
    requires j < 8
  {
    (b >> j) & 1 == 1
  }

  /** Bit `n` of a mask, counted from the most significant bit of its first byte. */
  predicate Bit(mask: Bitmask, n: nat)
    requires n < 8 * |mask|
  {
    ByteBit(mask[n / 8], 7 - n % 8)
  }

  predicate IsZero(mask: Bitmask) {
    forall i :: 0 <= i < |mask| ==> mask[i] == 0
  }

  /** A mask of `len` zero bytes. */
  function Zeros(len: nat): (z: Bitmask)
    ensures |z| == len && IsZero(z)
  {
    seq(len, _ => 0)
  }

  /** The mask of `len` bytes whose only set bit is bit `n`. */
  function OneBit(len: nat, n: nat): (mask: Bitmask)
    requires n < 8 * len
  {
    Zeros(len)[n / 8 := PowerOfTwo(7 - n % 8)]
  }

  /** The one-bit masks of the first `n` bits of a mask. */
  ghost function SlicesUpTo(mask: Bitmask, n: nat): seq<Bitmask>
    requires n <= 8 * |mask|
  {
    if n == 0 then []
    else SlicesUpTo(mask, n - 1) + (if Bit(mask, n - 1) then [OneBit(|mask|, n - 1)] else [])
  }

  /** What slicing yields. The all-zero mask is its own only slice. */
  ghost function Slices(mask: Bitmask): seq<Bitmask> {
    if IsZero(mask) then [mask] else SlicesUpTo(mask, 8 * |mask|)
  }

  // ---------------------------------------------------------------- bytes

  lemma ByteBits(b: bv8)
    ensures b == 0 <==> forall j: nat | j < 8 :: !ByteBit(b, j)
  {
    if forall j: nat | j < 8 :: !ByteBit(b, j) {
      assert !ByteBit(b, 0) && !ByteBit(b, 1) && !ByteBit(b, 2) && !ByteBit(b, 3);
      assert !ByteBit(b, 4) && !ByteBit(b, 5) && !ByteBit(b, 6) && !ByteBit(b, 7);
      assert b == 0;
    }
  }

  /** A non-zero byte with b & (b - 1) == 0 has exactly one bit set. */
  lemma SingleBit(b: bv8) returns (j: nat)
    requires b != 0 && b & (b - 1) == 0
    ensures j < 8 && b == PowerOfTwo(j)
  {
    j := if b == 1 then 0 else if b == 2 then 1 else if b == 4 then 2 else if b == 8 then 3
         else if b == 16 then 4 else if b == 32 then 5 else if b == 64 then 6 else 7;
  }

  lemma PowerBits(j: nat, k: nat)
    requires j < 8 && k < 8
    ensures PowerOfTwo(j) != 0
    ensures ByteBit(PowerOfTwo(j), k) <==> j == k
  {
    match j
    case 0 => BitsOfConstant(1, k);
    case 1 => BitsOfConstant(2, k);
    case 2 => BitsOfConstant(4, k);
    case 3 => BitsOfConstant(8, k);
    case 4 => BitsOfConstant(16, k);
    case 5 => BitsOfConstant(32, k);
    case 6 => BitsOfConstant(64, k);
    case _ => BitsOfConstant(128, k);
  }

  lemma BitsOfConstant(b: bv8, k: nat)
    requires k < 8
    ensures b == 1 ==> (ByteBit(b, k) <==> k == 0)
    ensures b == 2 ==> (ByteBit(b, k) <==> k == 1)
    ensures b == 4 ==> (ByteBit(b, k) <==> k == 2)
    ensures b == 8 ==> (ByteBit(b, k) <==> k == 3)
    ensures b == 16 ==> (ByteBit(b, k) <==> k == 4)
    ensures b == 32 ==> (ByteBit(b, k) <==> k == 5)
    ensures b == 64 ==> (ByteBit(b, k) <==> k == 6)
    ensures b == 128 ==> (ByteBit(b, k) <==> k == 7)
  {
    match k
    case 0 => case 1 => case 2 => case 3 => case 4 => case 5 => case 6 => case _ =>
  }

  /** Bytes with the same bits are the same byte. */
  lemma ByteExtensionality(a: bv8, b: bv8)
    requires forall j: nat | j < 8 :: ByteBit(a, j) == ByteBit(b, j)
    ensures a == b
  {
    assert ByteBit(a, 0) == ByteBit(b, 0) && ByteBit(a, 1) == ByteBit(b, 1) && ByteBit(a, 2) == ByteBit(b, 2);
    assert ByteBit(a, 3) == ByteBit(b, 3) && ByteBit(a, 4) == ByteBit(b, 4) && ByteBit(a, 5) == ByteBit(b, 5);
    assert ByteBit(a, 6) == ByteBit(b, 6) && ByteBit(a, 7) == ByteBit(b, 7);
  }

  lemma OrBits(a: bv8, b: bv8, j: nat)
    requires j < 8
    ensures ByteBit(a | b, j) <==> ByteBit(a, j) || ByteBit(b, j)
  {
    match j
    case 0 => case 1 => case 2 => case 3 => case 4 => case 5 => case 6 => case _ =>
  }

  // ---------------------------------------------------------------- masks

  /** Masks of one length with the same bits are the same mask. */
  lemma MaskExtensionality(a: Bitmask, b: Bitmask)
    requires |a| == |b|
    requires forall n: nat | n < 8 * |a| :: Bit(a, n) == Bit(b, n)
    ensures a == b
  {
    forall i | 0 <= i < |a| ensures a[i] == b[i] {
      forall j: nat | j < 8 ensures ByteBit(a[i], j) == ByteBit(b[i], j) {
        var n := 8 * i + (7 - j);
        assert n / 8 == i && n % 8 == 7 - j;
        assert Bit(a, n) == Bit(b, n);
      }
      ByteExtensionality(a[i], b[i]);
    }
  }

  lemma OneBitBits(len: nat, n: nat, m: nat)
    requires n < 8 * len && m < 8 * len
    ensures Bit(OneBit(len, n), m) <==> n == m
  {
    if n / 8 == m / 8 {
      PowerBits(7 - n % 8, 7 - m % 8);
    } else {
      ByteBits(0);
    }
  }

  lemma ZeroHasNoBits(mask: Bitmask)
    ensures IsZero(mask) <==> forall n: nat | n < 8 * |mask| :: !Bit(mask, n)
  {
    if IsZero(mask) {
      ByteBits(0);
    } else {
      var i :| 0 <= i < |mask| && mask[i] != 0;
      ByteBits(mask[i]);
      var j: nat :| j < 8 && ByteBit(mask[i], j);
      var n := 8 * i + (7 - j);
      assert n / 8 == i && n % 8 == 7 - j;
      assert Bit(mask, n);
    }
  }

  /** Clear bits add no slices. */
  lemma {:induction false} SkipClearBits(mask: Bitmask, n: nat, m: nat)
    requires n <= m <= 8 * |mask|
    requires forall k :: n <= k < m ==> !Bit(mask, k)
    ensures SlicesUpTo(mask, m) == SlicesUpTo(mask, n)
  {
    if n < m { SkipClearBits(mask, n, m - 1); }
  }

  /** Bit `j` of byte `i` is the next bit to slice after the first 8i + 7 - j. */
  lemma NextSlice(mask: Bitmask, i: nat, j: nat)
    requires i < |mask| && j < 8
    ensures Bit(mask, 8 * i + (7 - j)) == ByteBit(mask[i], j)
    ensures SlicesUpTo(mask, 8 * i + (8 - j)) == SlicesUpTo(mask, 8 * i + (7 - j)) +
            if ByteBit(mask[i], j) then [Zeros(|mask|)[i := PowerOfTwo(j)]] else []
  {
    var n := 8 * i + (7 - j);
    assert n / 8 == i && n % 8 == 7 - j;
  }

  lemma BitOfByte(mask: Bitmask, i: nat, d: nat)
    requires i < |mask| && d < 8
    ensures Bit(mask, 8 * i + d) == ByteBit(mask[i], 7 - d)
  {
    assert (8 * i + d) / 8 == i && (8 * i + d) % 8 == d;
  }

  lemma ZeroBits(mask: Bitmask, i: nat)
    requires i < |mask| && mask[i] == 0
    ensures forall k :: 8 * i <= k < 8 * i + 8 ==> !Bit(mask, k)
  {
    ByteBits(0);
    forall k | 8 * i <= k < 8 * i + 8 ensures !Bit(mask, k) { BitOfByte(mask, i, k - 8 * i); }
  }

  lemma ZeroByte(mask: Bitmask, i: nat)
    requires i < |mask| && mask[i] == 0
    ensures SlicesUpTo(mask, 8 * i + 8) == SlicesUpTo(mask, 8 * i)
  {
    ZeroBits(mask, i);
    SkipClearBits(mask, 8 * i, 8 * i + 8);
  }

  /** A stretch with one set bit contributes one slice. */
  lemma IsolatedBit(mask: Bitmask, lo: nat, n: nat, hi: nat)
    requires lo <= n < hi <= 8 * |mask|
    requires forall k :: lo <= k < hi ==> (Bit(mask, k) <==> k == n)
    ensures SlicesUpTo(mask, hi) == SlicesUpTo(mask, lo) + [OneBit(|mask|, n)]
  {
    SkipClearBits(mask, lo, n);
    SkipClearBits(mask, n + 1, hi);
  }

  lemma OneBitOfByte(mask: Bitmask, i: nat, j: nat, d: nat)
    requires i < |mask| && j < 8 && d < 8 && mask[i] == PowerOfTwo(j)
    ensures Bit(mask, 8 * i + d) <==> d == 7 - j
  {
    BitOfByte(mask, i, d);
    PowerBits(j, 7 - d);
  }

  /** The one-bit fast path: a byte holding just 2^j contributes the one slice holding that byte. */
  lemma OneBitByte(mask: Bitmask, i: nat, j: nat)
    requires i < |mask| && j < 8 && mask[i] == PowerOfTwo(j)
    ensures SlicesUpTo(mask, 8 * i + 8) == SlicesUpTo(mask, 8 * i) + [Zeros(|mask|)[i := mask[i]]]
  {
    OneBitOnly(mask, i, j);
    IsolatedBit(mask, 8 * i, 8 * i + (7 - j), 8 * i + 8);
    OneBitIs(|mask|, i, j);
  }

  lemma OneBitOnly(mask: Bitmask, i: nat, j: nat)
    requires i < |mask| && j < 8 && mask[i] == PowerOfTwo(j)
    ensures forall k :: 8 * i <= k < 8 * i + 8 ==> (Bit(mask, k) <==> k == 8 * i + (7 - j))
  {
    forall k | 8 * i <= k < 8 * i + 8 ensures Bit(mask, k) <==> k == 8 * i + (7 - j) {
      OneBitOfByte(mask, i, j, k - 8 * i);
    }
  }

  lemma OneBitIs(len: nat, i: nat, j: nat)
    requires i < len && j < 8
    ensures OneBit(len, 8 * i + (7 - j)) == Zeros(len)[i := PowerOfTwo(j)]
  {
    var n := 8 * i + (7 - j);
    assert n / 8 == i && n % 8 == 7 - j;
  }

  /** SliceBitmask: the nested loops, with the fast path for a byte holding one bit. */
  method SliceBitmask(mask: Bitmask) returns (sliced: seq<Bitmask>)
    ensures sliced == Slices(mask)
  {
    if mask == Zeros(|mask|) {
      return [mask];
    }
    assert !IsZero(mask);
    sliced := [];
    for i := 0 to |mask|
      invariant sliced == SlicesUpTo(mask, 8 * i)
    {
      var b := mask[i];
      if b == 0 {
        ZeroByte(mask, i);
      } else if b & (b - 1) == 0 {
        ghost var j := SingleBit(b);
        OneBitByte(mask, i, j);
        sliced := sliced + [Zeros(|mask|)[i := b]];
      } else {
        sliced := SliceByte(mask, i, sliced);
      }
    }
  }

  /** The general loop over the bits of byte `i`. */
  method SliceByte(mask: Bitmask, i: nat, before: seq<Bitmask>) returns (sliced: seq<Bitmask>)
    requires i < |mask| && before == SlicesUpTo(mask, 8 * i)
    ensures sliced == SlicesUpTo(mask, 8 * i + 8)
  {
    var b := mask[i];
    sliced := before;
    for j := 8 downto 0
      invariant sliced == SlicesUpTo(mask, 8 * i + (8 - j))
    {
      NextSlice(mask, i, j);
      if ByteBit(b, j) {
        sliced := sliced + [Zeros(|mask|)[i := PowerOfTwo(j)]];
      }
    }
  }

  // ---------------------------------------------------------------- laws

  /** The positions of the set bits among the first `n`. */
  ghost function Positions(mask: Bitmask, n: nat): seq<nat>
    requires n <= 8 * |mask|
  {
    if n == 0 then [] else Positions(mask, n - 1) + (if Bit(mask, n - 1) then [n - 1] else [])
  }

  lemma {:induction false} PositionsMembers(mask: Bitmask, n: nat, k: nat)
    requires n <= 8 * |mask|
    ensures k in Positions(mask, n) <==> k < n && Bit(mask, k)
  {
    if n > 0 { PositionsMembers(mask, n - 1, k); }
  }

  lemma {:induction false} PositionsIncrease(mask: Bitmask, n: nat)
    requires n <= 8 * |mask|
    ensures forall a :: 0 <= a < |Positions(mask, n)| ==> Positions(mask, n)[a] < n
    ensures forall a, b :: 0 <= a < b < |Positions(mask, n)| ==> Positions(mask, n)[a] < Positions(mask, n)[b]
  {
    if n > 0 { PositionsIncrease(mask, n - 1); }
  }

  lemma {:induction false} SliceAtPosition(mask: Bitmask, n: nat, a: nat)
    requires n <= 8 * |mask|
    ensures |SlicesUpTo(mask, n)| == |Positions(mask, n)|
    ensures a < |Positions(mask, n)| ==>
      Positions(mask, n)[a] < n && SlicesUpTo(mask, n)[a] == OneBit(|mask|, Positions(mask, n)[a])
  {
    if n > 0 { SliceAtPosition(mask, n - 1, a); }
  }

  /** The set bits, and their number. */
  ghost function BitSet(mask: Bitmask): set<nat> {
    set n: nat | n < 8 * |mask| && Bit(mask, n)
  }

  ghost function Popcount(mask: Bitmask): nat {
    |BitSet(mask)|
  }

  lemma PositionsCount(mask: Bitmask)
    ensures ToSet(Positions(mask, 8 * |mask|)) == BitSet(mask)
    ensures |Positions(mask, 8 * |mask|)| == Popcount(mask)
  {
    var at := Positions(mask, 8 * |mask|);
    forall n: nat ensures n in at <==> n in BitSet(mask) { PositionsMembers(mask, 8 * |mask|, n); }
    PositionsIncrease(mask, 8 * |mask|);
    DistinctCount(at);
    assert ToSet(at) == BitSet(mask);
  }

  /** Order and count: the slices are one-bit masks of the mask's length, at strictly increasing bit
      positions that are exactly the set bits, so they are pairwise distinct and as many as the popcount. */
  lemma SlicesAreTheSetBits(mask: Bitmask) returns (at: seq<nat>)
    requires !IsZero(mask)
    ensures |Slices(mask)| == |at| == Popcount(mask)
    ensures forall a, b :: 0 <= a < b < |at| ==> at[a] < at[b]
    ensures forall a :: 0 <= a < |at| ==> at[a] < 8 * |mask| && Slices(mask)[a] == OneBit(|mask|, at[a])
    ensures ToSet(at) == BitSet(mask)
  {
    var all := 8 * |mask|;
    at := Positions(mask, all);
    PositionsIncrease(mask, all);
    PositionsCount(mask);
    SliceAtPosition(mask, all, 0);
    forall a | 0 <= a < |at| ensures at[a] < all && Slices(mask)[a] == OneBit(|mask|, at[a]) {
      SliceAtPosition(mask, all, a);
    }
  }

  /** Slices are pairwise distinct and never none. */
  lemma SlicesDistinct(mask: Bitmask)
    ensures |Slices(mask)| >= 1
    ensures forall a, b :: 0 <= a < b < |Slices(mask)| ==> Slices(mask)[a] != Slices(mask)[b]
  {
    if !IsZero(mask) {
      var at := SlicesAreTheSetBits(mask);
      forall a, b | 0 <= a < b < |at| ensures Slices(mask)[a] != Slices(mask)[b] {
        OneBitBits(|mask|, at[a], at[a]);
        OneBitBits(|mask|, at[b], at[a]);
      }
      ZeroHasNoBits(mask);
      var n: nat :| n < 8 * |mask| && Bit(mask, n);
      assert n in BitSet(mask);
    }
  }

  function Or(a: Bitmask, b: Bitmask): (c: Bitmask)
    requires |a| == |b|
  {
    seq(|a|, i requires 0 <= i < |a| => a[i] | b[i])
  }

  /** The OR of a list of masks of one length. */
  function OrAll(masks: seq<Bitmask>, len: nat): (c: Bitmask)
    requires forall i :: 0 <= i < |masks| ==> |masks[i]| == len
    ensures |c| == len
  {
    if masks == [] then Zeros(len) else Or(masks[0], OrAll(masks[1..], len))
  }

  lemma {:induction false} OrAllBits(masks: seq<Bitmask>, len: nat, n: nat)
    requires forall i :: 0 <= i < |masks| ==> |masks[i]| == len
    requires n < 8 * len
    ensures Bit(OrAll(masks, len), n) <==> exists i :: 0 <= i < |masks| && Bit(masks[i], n)
  {
    if masks == [] {
      ByteBits(0);
    } else {
      OrAllBits(masks[1..], len, n);
      OrBits(masks[0][n / 8], OrAll(masks[1..], len)[n / 8], 7 - n % 8);
      assert Bit(OrAll(masks, len), n) <==> Bit(masks[0], n) || Bit(OrAll(masks[1..], len), n);
      assert forall i :: 0 <= i < |masks[1..]| ==> masks[1..][i] == masks[i + 1];
      if i :| 0 <= i < |masks| && Bit(masks[i], n) {
        if i > 0 { assert masks[1..][i - 1] == masks[i]; }
      }
    }
  }

  /** Nothing is lost: the slices OR back to the mask, so slicing is injective on masks of one length. */
  lemma SlicesOrToMask(mask: Bitmask)
    ensures forall i :: 0 <= i < |Slices(mask)| ==> |Slices(mask)[i]| == |mask|
    ensures OrAll(Slices(mask), |mask|) == mask
  {
    if IsZero(mask) {
      assert OrAll([mask][1..], |mask|) == Zeros(|mask|);
      assert mask == Zeros(|mask|);
    } else {
      var at := SlicesAreTheSetBits(mask);
      var all := OrAll(Slices(mask), |mask|);
      forall n: nat | n < 8 * |mask| ensures Bit(all, n) == Bit(mask, n) {
        OrAllBits(Slices(mask), |mask|, n);
        forall a | 0 <= a < |at| ensures Bit(Slices(mask)[a], n) <==> at[a] == n {
          OneBitBits(|mask|, at[a], n);
        }
        assert n in ToSet(at) <==> n in BitSet(mask);
        if n in at { var a :| 0 <= a < |at| && at[a] == n; assert Bit(Slices(mask)[a], n); }
      }
      MaskExtensionality(all, mask);
    }
  }

  /** Slicing a slice returns just that slice. */
  lemma SliceOfSlice(mask: Bitmask, s: Bitmask)
    requires s in Slices(mask)
    ensures Slices(s) == [s]
  {
    if !IsZero(mask) {
      var at := SlicesAreTheSetBits(mask);
      var a :| 0 <= a < |at| && s == OneBit(|mask|, at[a]);
      OneBitSlices(|mask|, at[a]);
    }
  }

  lemma OneBitSlices(len: nat, n: nat)
    requires n < 8 * len
    ensures Slices(OneBit(len, n)) == [OneBit(len, n)]
  {
    var mask := OneBit(len, n);
    forall m: nat | m < 8 * len ensures Bit(mask, m) <==> n == m { OneBitBits(len, n, m); }
    assert !IsZero(mask) by {
      ZeroHasNoBits(mask);
      assert Bit(mask, n);
    }
    IsolatedBit(mask, 0, n, 8 * len);
  }
}
