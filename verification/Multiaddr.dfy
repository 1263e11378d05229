/** Multiaddr components and the binary codec: reading components off a byte string and writing them back. */
module Multiaddr {
  import opened Basics
  import opened Varint

  type Bytes = seq<Byte>

  /** How the value of a protocol is turned into bytes and back, and which bytes are legal. */
  datatype Transcoder = Transcoder(toBytes: string -> Option<Bytes>, toText: Bytes -> Option<string>,
                                   legal: Bytes -> bool)

  /** `size` is 0 for no value, positive for a fixed number of bits, negative for a length-prefixed value. */
  datatype Protocol = Protocol(name: string, code: int, vcode: Bytes, size: int, path: bool,
                               transcoder: Option<Transcoder>)

  /** The registered protocols, by code and by name. */
  datatype Registry = Registry(byCode: map<int, Protocol>, byName: map<string, int>)

  /** The code of the protocol fits a varint code, and `vcode` is that varint. */
  predicate CodeFits(p: Protocol) {
    0 < p.code <= MAX_CODE && p.vcode == Encode(p.code)
  }

  /** What AddProtocol checks, and codes that fit. */
  ghost predicate ValidRegistry(g: Registry) {
    && (forall k :: k in g.byCode ==>
          && g.byCode[k].code == k && CodeFits(g.byCode[k])
          && g.byCode[k].name in g.byName && g.byName[g.byCode[k].name] == k
          && (g.byCode[k].size != 0 ==> g.byCode[k].transcoder.Some?) && (g.byCode[k].path ==> g.byCode[k].size < 0))
    && (forall name :: name in g.byName ==> g.byName[name] in g.byCode && g.byCode[g.byName[name]].name == name)
  }

  /** A component: its raw bytes, its protocol's code, and where its value starts. */
  datatype Component = Component(bytes: Bytes, code: int, start: nat) {
    function Value(): Bytes { if start <= |bytes| then bytes[start..] else [] }
  }

  /** Adding a protocol to the registry; names and codes must be new, and `vcode` not empty. */
  function AddProtocol(g: Registry, p: Protocol): Option<Registry> {
    if p.name in g.byName || p.code in g.byCode then None
    else if (p.size != 0 && p.transcoder.None?) || (p.path && p.size >= 0) || p.vcode == [] then None
    else Some(Registry(g.byCode[p.code := p], g.byName[p.name := p.code]))
  }

  /** An accepted protocol leaves the registry in order if and only if its code fits. */
  lemma RegistryStaysValidIff(g: Registry, p: Protocol)
    requires ValidRegistry(g) && AddProtocol(g, p).Some?
    ensures ValidRegistry(AddProtocol(g, p).value) <==> CodeFits(p)
  {
    var r := AddProtocol(g, p).value;
    assert p.code in r.byCode && p.name in r.byName;
    if CodeFits(p) {
      forall name | name in r.byName ensures r.byName[name] in r.byCode && r.byCode[r.byName[name]].name == name {
        assert name != p.name ==> g.byName[name] in g.byCode;
      }
    }
  }

  // ---------------------------------------------------------------- validation

  /** The number of bytes a fixed-size value takes. */
  function FixedSize(p: Protocol): int
    requires p.size >= 0
  {
    p.size / 8
  }

  function LengthPrefix(p: Protocol, value: Bytes): Bytes {
    if p.size < 0 then Encode(|value|) else []
  }

  predicate ValueIsLegal(p: Protocol, value: Bytes) {
    p.transcoder.Some? ==> p.transcoder.value.toText(value).Some? && p.transcoder.value.legal(value)
  }

  /** validateComponent, for a component of protocol `p`. */
  predicate ValidatedBy(p: Protocol, c: Component) {
    && c.start <= |c.bytes| && p.vcode != [] && p.vcode <= c.bytes
    && (if p.size < 0 then
          var r := ReadCode(c.bytes[|p.vcode|..]);
          r.Some? && r.value.value == |c.Value()| && |p.vcode| + r.value.length + r.value.value == |c.bytes|
        else FixedSize(p) == |c.Value()| && |p.vcode| + FixedSize(p) == |c.bytes|)
    && ValueIsLegal(p, c.Value())
  }

  predicate Validated(g: Registry, c: Component) {
    c.code in g.byCode && ValidatedBy(g.byCode[c.code], c)
  }

  /** What comes before the value: the protocol code, and the length if the protocol has one. */
  function Header(p: Protocol, value: Bytes): Bytes {
    p.vcode + LengthPrefix(p, value)
  }

  function Laid(p: Protocol, value: Bytes): Bytes {
    Header(p, value) + value
  }

  /** What newComponent accepts: a length-prefixed value whose length is a varint code, or a value of the fixed
      size; and the transcoder must like it. */
  predicate Acceptable(p: Protocol, value: Bytes) {
    (if p.size < 0 then |value| <= MAX_CODE else |value| == FixedSize(p)) && ValueIsLegal(p, value)
  }

  /** The bytes of a valid component are its header and its value. */
  lemma ValidatedLayout(p: Protocol, c: Component)
    requires ValidatedBy(p, c)
    ensures c.bytes == Laid(p, c.Value()) && c.start == |Header(p, c.Value())| && Acceptable(p, c.Value())
  {
    var k, prefix := |p.vcode|, LengthPrefix(p, c.Value());
    if p.size < 0 { CodeReadIsEncoding(c.bytes[k..]); }
    assert c.start == k + |prefix|;
    CutInThree(c.bytes, p.vcode, prefix);
  }

  lemma CutInThree(b: Bytes, front: Bytes, middle: Bytes)
    requires front <= b && middle <= b[|front|..]
    ensures b == front + middle + b[|front| + |middle|..]
  {
  }

  // ---------------------------------------------------------------- reading one component

  /** The length of the value, and where it starts, if the front of `b` holds a component of protocol `p`. */
  function ValueSpan(p: Protocol, b: Bytes, offset: nat): (r: Option<Read>)
    requires offset <= |b|
    ensures r.Some? ==> r.value.value + r.value.length <= |b|
  {
    if p.size == 0 then Some(Read(0, offset))
    else if p.size < 0 then
      match ReadCode(b[offset..])
      case None => None
      case Some(r) =>
        if |b| - offset - r.length < r.value || r.value <= 0 then None else Some(Read(r.value, offset + r.length))
    else if |b| - offset < FixedSize(p) || FixedSize(p) <= 0 then None
    else Some(Read(FixedSize(p), offset))
  }

  /** readComponent: the component at the front of `b`. */
  function ReadComponent(g: Registry, b: Bytes): (r: Option<Component>)
    ensures r.Some? ==> 0 < |r.value.bytes| && r.value.bytes <= b && Validated(g, r.value)
  {
    match ReadCode(b)
    case None => None
    case Some(code) =>
      if code.value !in g.byCode || g.byCode[code.value].code == 0 then None
      else
        match ValueSpan(g.byCode[code.value], b, code.length)
        case None => None
        case Some(span) =>
          var c := Component(b[..span.length + span.value], code.value, span.length);
          if Validated(g, c) then Some(c) else None
  }

  /** Whether the value can be read back: a protocol that takes a value needs a non-empty one. */
  predicate Readable(g: Registry, c: Component) {
    c.code in g.byCode && (g.byCode[c.code].size != 0 ==> c.Value() != [])
  }

  lemma ReadIsReadable(g: Registry, b: Bytes)
    ensures ReadComponent(g, b).Some? ==> Readable(g, ReadComponent(g, b).value)
  {
  }

  /** A valid component of a protocol whose code fits is read back from its bytes, whatever follows, if and only if
      it is readable. */
  lemma FittingRoundTrip(g: Registry, c: Component, rest: Bytes)
    requires Validated(g, c) && g.byCode[c.code].code == c.code && CodeFits(g.byCode[c.code])
    ensures ReadComponent(g, c.bytes + rest) == (if Readable(g, c) then Some(c) else None)
  {
    var p, b := g.byCode[c.code], c.bytes + rest;
    ValidatedLayout(p, c);
    CodeInFront(p, c.Value(), c.bytes, rest);
    SpanInFront(p, c.Value(), c.bytes, rest);
    assert b[..|c.bytes|] == c.bytes;
  }

  lemma ComponentRoundTrip(g: Registry, c: Component, rest: Bytes)
    requires ValidRegistry(g) && Validated(g, c)
    ensures ReadComponent(g, c.bytes + rest) == (if Readable(g, c) then Some(c) else None)
  {
    FittingRoundTrip(g, c, rest);
  }

  /** What is read back as itself is of a protocol whose code fits. */
  lemma ReadBackFits(g: Registry, c: Component, rest: Bytes)
    requires Validated(g, c) && g.byCode[c.code].code == c.code && ReadComponent(g, c.bytes + rest) == Some(c)
    ensures CodeFits(g.byCode[c.code])
  {
    var p, b := g.byCode[c.code], c.bytes + rest;
    var n := ReadCode(b).value.length;
    CodeReadIsEncoding(b);
    ValidatedLayout(p, c);
    if p.size < 0 { CodeReadIsEncoding(b[n..]); }
    assert n == |p.vcode|;
    assert b[..n] == p.vcode;
  }

  /** The registry checks a new protocol's code against those it has, not that the code is a varint code or `vcode`
      its encoding: readable components of the new protocol are read back from their bytes if and only if it fits. */
  lemma NewProtocolReadsBackIff(g: Registry, p: Protocol, c: Component, rest: Bytes)
    requires AddProtocol(g, p).Some? && c.code == p.code && ValidatedBy(p, c) && (p.size != 0 ==> c.Value() != [])
    ensures ReadComponent(AddProtocol(g, p).value, c.bytes + rest) == Some(c) <==>
            0 < p.code <= MAX_CODE && p.vcode == Encode(p.code)
  {
    var g' := AddProtocol(g, p).value;
    if CodeFits(p) { FittingRoundTrip(g', c, rest); }
    if ReadComponent(g', c.bytes + rest) == Some(c) { ReadBackFits(g', c, rest); }
  }

  /** A protocol whose `vcode` belongs to another code is accepted, and what is built for it cannot be read. */
  lemma MiscodedIsAccepted()
    ensures var p := Protocol("x", 5, [6], 0, false, None);
      var c, g := Component([6], 5, 1), AddProtocol(Registry(map[], map[]), p);
      g.Some? && Validated(g.value, c) && ReadComponent(g.value, c.bytes).None?
  {
    var p, c := Protocol("x", 5, [6], 0, false, None), Component([6], 5, 1);
    assert [6] + [] == c.bytes && c.Value() == [];
    assert Encode(6) == [6];
    CodeRoundTrip(6, []);
  }

  /** The components of the other protocols are read as before, whatever protocol is added. */
  lemma OthersReadAsBefore(g: Registry, p: Protocol, c: Component, rest: Bytes)
    requires ValidRegistry(g) && AddProtocol(g, p).Some? && Validated(g, c)
    ensures ReadComponent(AddProtocol(g, p).value, c.bytes + rest) == ReadComponent(g, c.bytes + rest)
  {
    FittingRoundTrip(g, c, rest);
    FittingRoundTrip(AddProtocol(g, p).value, c, rest);
  }

  lemma ThreeParts<T>(a: seq<T>, b: seq<T>, c: seq<T>)
    ensures (a + b + c)[..|a|] == a && (a + b + c)[|a|..] == b + c && (a + b + c)[|a| + |b|..] == c
  {
  }

  lemma CodeInFront(p: Protocol, value: Bytes, bytes: Bytes, rest: Bytes)
    requires bytes == Laid(p, value) && CodeFits(p)
    ensures ReadCode(bytes + rest) == Some(Read(p.code, |p.vcode|))
  {
    var after := LengthPrefix(p, value) + value + rest;
    assert bytes + rest == p.vcode + after;
    CodeRoundTrip(p.code, after);
  }

  /** The value of a laid-out component is found again, unless it is empty where one is called for. */
  lemma SpanInFront(p: Protocol, value: Bytes, bytes: Bytes, rest: Bytes)
    requires bytes == Laid(p, value) && if p.size < 0 then |value| <= MAX_CODE else |value| == FixedSize(p)
    ensures ValueSpan(p, bytes + rest, |p.vcode|) ==
      if p.size != 0 && value == [] then None else Some(Read(|value|, |Header(p, value)|))
  {
    var k, prefix := |p.vcode|, LengthPrefix(p, value);
    if p.size < 0 {
      assert (bytes + rest)[k..] == prefix + (value + rest);
      CodeRoundTrip(|value|, value + rest);
    }
  }

  // ---------------------------------------------------------------- whole addresses

  function ToBytes(m: seq<Component>): Bytes {
    if m == [] then [] else ToBytes(m[..|m| - 1]) + m[|m| - 1].bytes
  }

  /** Reads components up to the end. Nothing may follow a path component. */
  function ReadAll(g: Registry, b: Bytes, sawPath: bool): Option<seq<Component>>
    decreases |b|
  {
    if b == [] then Some([])
    else
      match ReadComponent(g, b)
      case None => None
      case Some(c) =>
        if sawPath then None
        else
          match ReadAll(g, b[|c.bytes|..], g.byCode[c.code].path)
          case None => None
          case Some(m) => Some([c] + m)
  }

  function Decode(g: Registry, b: Bytes): Option<seq<Component>> {
    if b == [] then None else ReadAll(g, b, false)
  }

  lemma {:induction false} ToBytesFirst(c: Component, m: seq<Component>)
    ensures ToBytes([c] + m) == c.bytes + ToBytes(m)
  {
    if m == [] {
      assert ([c] + m)[..0] == [];
    } else {
      assert ([c] + m)[..|m|] == [c] + m[..|m| - 1];
      ToBytesFirst(c, m[..|m| - 1]);
    }
  }

  /** No component but the last is a path. */
  predicate PathOnlyLast(g: Registry, m: seq<Component>) {
    forall i :: 0 <= i < |m| - 1 ==> m[i].code in g.byCode && !g.byCode[m[i].code].path
  }

  predicate Proper(g: Registry, m: seq<Component>) {
    (forall i :: 0 <= i < |m| ==> Readable(g, m[i])) && PathOnlyLast(g, m)
  }

  lemma {:induction false} ReadAllThenBytes(g: Registry, b: Bytes, sawPath: bool)
    requires ReadAll(g, b, sawPath).Some?
    ensures ToBytes(ReadAll(g, b, sawPath).value) == b
    decreases |b|
  {
    if b != [] {
      var c := ReadComponent(g, b).value;
      var rest := b[|c.bytes|..];
      ReadAllThenBytes(g, rest, g.byCode[c.code].path);
      ToBytesFirst(c, ReadAll(g, rest, g.byCode[c.code].path).value);
      assert b == c.bytes + rest;
    }
  }

  lemma {:induction false} ReadAllIsProper(g: Registry, b: Bytes, sawPath: bool, i: nat)
    requires ReadAll(g, b, sawPath).Some? && i < |ReadAll(g, b, sawPath).value|
    ensures var m := ReadAll(g, b, sawPath).value;
      !sawPath && Readable(g, m[i]) && Validated(g, m[i]) && (i < |m| - 1 ==> !g.byCode[m[i].code].path)
    decreases |b|
  {
    var c := ReadComponent(g, b).value;
    var rest, path := b[|c.bytes|..], g.byCode[c.code].path;
    var m := ReadAll(g, rest, path).value;
    ReadIsReadable(g, b);
    if i > 0 { ReadAllIsProper(g, rest, path, i - 1); }
    else if m != [] { ReadAllIsProper(g, rest, path, 0); }
  }

  /** A decoded address re-encodes to the bytes it was read from, and is a proper one. */
  lemma DecodeThenEncode(g: Registry, b: Bytes)
    requires Decode(g, b).Some?
    ensures var m := Decode(g, b).value;
      ToBytes(m) == b && m != [] && Proper(g, m) && (forall i :: 0 <= i < |m| ==> Validated(g, m[i]))
  {
    ReadAllThenBytes(g, b, false);
    var m := Decode(g, b).value;
    forall i | 0 <= i < |m|
      ensures Readable(g, m[i]) && Validated(g, m[i]) && (i < |m| - 1 ==> !g.byCode[m[i].code].path)
    {
      ReadAllIsProper(g, b, false, i);
    }
  }

  lemma {:induction false} BytesThenReadAll(g: Registry, m: seq<Component>, sawPath: bool)
    requires ValidRegistry(g) && Proper(g, m) && (sawPath ==> m == [])
    requires forall i :: 0 <= i < |m| ==> Validated(g, m[i])
    ensures ReadAll(g, ToBytes(m), sawPath) == Some(m)
  {
    if m != [] {
      var c, rest := m[0], m[1..];
      assert m == [c] + rest;
      ToBytesFirst(c, rest);
      ComponentRoundTrip(g, c, ToBytes(rest));
      BytesThenReadAll(g, rest, g.byCode[c.code].path);
      ReadAllStep(g, c, ToBytes(rest));
    }
  }

  lemma ReadAllStep(g: Registry, c: Component, rest: Bytes)
    requires ReadComponent(g, c.bytes + rest) == Some(c)
    ensures ReadAll(g, c.bytes + rest, false) == Following([c], ReadAll(g, rest, g.byCode[c.code].path))
  {
    var b := c.bytes + rest;
    assert b[|c.bytes|..] == rest;
  }

  /** The components read, after those read before. */
  function Following(m: seq<Component>, r: Option<seq<Component>>): Option<seq<Component>> {
    match r
    case None => None
    case Some(rest) => Some(m + rest)
  }

  lemma FollowingTwice(a: seq<Component>, b: seq<Component>, r: Option<seq<Component>>)
    ensures Following(a, Following(b, r)) == Following(a + b, r)
  {
    if r.Some? { assert a + (b + r.value) == a + b + r.value; }
  }

  /** An address of valid components decodes back from its bytes exactly when it is not empty, every value that
      is called for is there, and only the last component is a path. */
  lemma EncodeThenDecodeIff(g: Registry, m: seq<Component>)
    requires ValidRegistry(g) && forall i :: 0 <= i < |m| ==> Validated(g, m[i])
    ensures Decode(g, ToBytes(m)) == Some(m) <==> m != [] && Proper(g, m)
  {
    if m != [] && Proper(g, m) {
      BytesThenReadAll(g, m, false);
      ToBytesFirst(m[0], m[1..]);
      assert m == [m[0]] + m[1..] && m[0].bytes != [];
    }
    if Decode(g, ToBytes(m)) == Some(m) { DecodeThenEncode(g, ToBytes(m)); }
  }

  // ---------------------------------------------------------------- the loops

  lemma OneMoreRead(g: Registry, b: Bytes, c: Component, res: seq<Component>)
    requires ReadComponent(g, b) == Some(c)
    ensures Following(res, ReadAll(g, b, false)) ==
      Following(res + [c], ReadAll(g, b[|c.bytes|..], g.byCode[c.code].path))
  {
    var rest := b[|c.bytes|..];
    assert b == c.bytes + rest;
    ReadAllStep(g, c, rest);
    FollowingTwice(res, [c], ReadAll(g, rest, g.byCode[c.code].path));
  }

  /** readMultiaddr. */
  method ReadMultiaddr(g: Registry, bytes: Bytes) returns (r: Option<seq<Component>>)
    ensures r == Decode(g, bytes)
  {
    if |bytes| == 0 {
      return None;
    }
    var b, res, sawPath := bytes, [], false;
    ghost var whole := Decode(g, bytes);
    assert whole.Some? ==> [] + whole.value == whole.value;
    while |b| > 0
      invariant whole == Following(res, ReadAll(g, b, sawPath))
      decreases |b|
    {
      var read := ReadComponent(g, b);
      if read.None? {
        return None;
      }
      var c := read.value;
      if sawPath {
        return None;
      }
      OneMoreRead(g, b, c, res);
      b, sawPath, res := b[|c.bytes|..], g.byCode[c.code].path, res + [c];
    }
    assert res + [] == res;
    return Some(res);
  }

  /** Bytes: all components' bytes one after the other. */
  method Write(m: seq<Component>) returns (out: Bytes)
    ensures out == ToBytes(m)
  {
    out := [];
    for i := 0 to |m|
      invariant out == ToBytes(m[..i])
    {
      assert m[..i + 1][..i] == m[..i];
      out := out + m[i].bytes;
    }
    assert m[..|m|] == m;
  }

  /** Bytes laid out for protocol `p` are a valid component of protocol `q` if and only if `q` lays the value out the
      same way and accepts it. */
  lemma LaidIsValidatedIff(p: Protocol, q: Protocol, value: Bytes)
    ensures var c := Component(Laid(p, value), q.code, |Header(p, value)|);
      c.Value() == value && (ValidatedBy(q, c) <==> q.vcode != [] && Header(q, value) == Header(p, value) &&
                                                    Acceptable(q, value))
  {
    var c := Component(Laid(p, value), q.code, |Header(p, value)|);
    if ValidatedBy(q, c) {
      ValidatedLayout(q, c);
      assert c.bytes[..c.start] == Header(q, value) && c.bytes[..c.start] == Header(p, value);
    } else if q.vcode != [] && Header(q, value) == Header(p, value) && Acceptable(q, value) {
      ThreeParts(q.vcode, LengthPrefix(q, value), value);
      if q.size < 0 { CodeRoundTrip(|value|, value); }
      assert false;
    }
  }

  /** The registered protocol with the code of `p`, if there is one, else `p` itself. */
  function Registered(g: Registry, p: Protocol): Protocol {
    if p.code in g.byCode then g.byCode[p.code] else p
  }

  /** newComponent: code, length and value are copied into one buffer at growing offsets. It is laid out for the
      protocol given and validated by the registered one, so it is accepted if and only if the two agree on the
      header and the value is acceptable. */
  method NewComponent(g: Registry, p: Protocol, value: Bytes) returns (r: Option<Component>)
    ensures var q := Registered(g, p);
      && (r.Some? <==> q.vcode != [] && Header(q, value) == Header(p, value) && Acceptable(q, value))
      && (r.Some? ==> r.value.code == q.code && r.value.Value() == value && ValidatedBy(q, r.value))
  {
    var q, prefix := Registered(g, p), LengthPrefix(p, value);
    var maddr := new Byte[|value| + |p.vcode| + |prefix|](_ => 0);
    var offset := 0;
    CopyInto(maddr, offset, p.vcode);
    offset := offset + |p.vcode|;
    if p.size < 0 {
      CopyInto(maddr, offset, prefix);
      offset := offset + |prefix|;
    }
    assert maddr[..offset] == Header(p, value);
    CopyInto(maddr, offset, value);
    assert maddr[..] == maddr[..offset + |value|];
    LaidIsValidatedIff(p, q, value);
    var c := Component(maddr[..], q.code, offset);
    r := if ValidatedBy(q, c) then Some(c) else None;
  }

  method CopyInto(buffer: array<Byte>, offset: nat, data: Bytes)
    requires offset + |data| <= buffer.Length
    modifies buffer
    ensures buffer[..offset + |data|] == old(buffer[..offset]) + data
  {
    for i := 0 to |data|
      invariant buffer[..offset + i] == old(buffer[..offset]) + data[..i]
    {
      buffer[offset + i] := data[i];
      assert buffer[..offset + i + 1] == buffer[..offset + i] + [data[i]];
    }
  }
}
