/** The text form of multiaddrs: printing components and parsing slash-separated text back. */
module MultiaddrText {
  import opened Basics
  import opened Varint
  import opened Multiaddr

  // ---------------------------------------------------------------- splitting and joining at slashes

  predicate SlashFree(s: string) { '/' !in s }

  function Split(s: string): (sp: seq<string>)
    ensures sp != []
  {
    if s == "" then [""]
    else if s[0] == '/' then [""] + Split(s[1..])
    else
      var sp := Split(s[1..]);
      [[s[0]] + sp[0]] + sp[1..]
  }

  function Join(sp: seq<string>): string
    requires sp != []
  {
    if |sp| == 1 then sp[0] else sp[0] + "/" + Join(sp[1..])
  }

  function TrimRight(s: string): string {
    if s != "" && s[|s| - 1] == '/' then TrimRight(s[..|s| - 1]) else s
  }

  lemma {:induction false} SplitPiece(t: string)
    requires SlashFree(t)
    ensures Split(t) == [t]
  {
    if t != "" {
      SplitPiece(t[1..]);
      assert [t[0]] + t[1..] == t;
    }
  }

  lemma {:induction false} SplitAtSlash(t: string, rest: string)
    requires SlashFree(t)
    ensures Split(t + "/" + rest) == [t] + Split(rest)
  {
    var s := t + "/" + rest;
    if t == "" {
      assert s[1..] == rest;
    } else {
      assert s[1..] == t[1..] + "/" + rest;
      SplitAtSlash(t[1..], rest);
      assert [t[0]] + t[1..] == t;
    }
  }

  /** Splitting undoes joining of pieces without slashes. */
  lemma {:induction false} SplitJoin(sp: seq<string>)
    requires sp != [] && forall i :: 0 <= i < |sp| ==> SlashFree(sp[i])
    ensures Split(Join(sp)) == sp
  {
    if |sp| == 1 {
      SplitPiece(sp[0]);
    } else {
      SplitJoin(sp[1..]);
      SplitAtSlash(sp[0], Join(sp[1..]));
    }
  }

  lemma {:induction false} SplitSlashFree(s: string)
    ensures forall i :: 0 <= i < |Split(s)| ==> SlashFree(Split(s)[i])
  {
    if s != "" { SplitSlashFree(s[1..]); }
  }

  /** Putting something in front of the first piece. */
  lemma JoinLonger(x: string, sp: seq<string>)
    requires sp != []
    ensures Join([x + sp[0]] + sp[1..]) == x + Join(sp)
  {
  }

  lemma JoinEmptyFirst(sp: seq<string>)
    requires sp != []
    ensures Join([""] + sp) == "/" + Join(sp)
  {
  }

  /** Joining undoes splitting, and the pieces have no slashes. */
  lemma {:induction false} JoinSplit(s: string)
    ensures Join(Split(s)) == s && forall i :: 0 <= i < |Split(s)| ==> SlashFree(Split(s)[i])
  {
    SplitSlashFree(s);
    if s != "" {
      JoinSplit(s[1..]);
      assert [s[0]] + s[1..] == s;
      if s[0] == '/' { JoinEmptyFirst(Split(s[1..])); } else { JoinLonger([s[0]], Split(s[1..])); }
    }
  }

  lemma {:induction false} JoinConcat(a: seq<string>, b: seq<string>)
    requires a != [] && b != []
    ensures Join(a + b) == Join(a) + "/" + Join(b)
  {
    if |a| == 1 {
      assert (a + b)[1..] == b;
    } else {
      assert (a + b)[1..] == a[1..] + b;
      JoinConcat(a[1..], b);
    }
  }

  /** A join ends as its last piece does. */
  lemma {:induction false} JoinEnd(sp: seq<string>)
    requires sp != [] && sp[|sp| - 1] != ""
    ensures var last := sp[|sp| - 1]; Join(sp) != "" && Join(sp)[|Join(sp)| - 1] == last[|last| - 1]
  {
    if |sp| > 1 { JoinEnd(sp[1..]); }
  }

  // ---------------------------------------------------------------- parsing

  function Prepend(b: Bytes, r: Option<Bytes>): Option<Bytes> {
    if r.Some? then Some(b + r.value) else None
  }

  /** The parse loop over the pieces between slashes. A path takes all that is left. */
  function ParsePieces(g: Registry, sp: seq<string>): Option<Bytes> {
    if sp == [] then Some([])
    else if sp[0] !in g.byName || g.byName[sp[0]] !in g.byCode then None
    else
      var p := g.byCode[g.byName[sp[0]]];
      if p.code == 0 then None
      else if p.size == 0 then Prepend(p.vcode, ParsePieces(g, sp[1..]))
      else if |sp| < 2 || p.transcoder.None? then None
      else
        match ValueOf(p, sp[1..])
        case None => None
        case Some(a) => Prepend(Laid(p, a), if p.path then Some([]) else ParsePieces(g, sp[2..]))
  }

  /** The value at the front of the pieces, if it is one; for a path, all of them. */
  function ValueOf(p: Protocol, sp: seq<string>): Option<Bytes>
    requires |sp| > 0 && p.transcoder.Some?
  {
    var a := p.transcoder.value.toBytes(if p.path then "/" + Join(sp) else sp[0]);
    if a.None? || !p.transcoder.value.legal(a.value) then None else a
  }

  /** stringToBytes. */
  function Parse(g: Registry, s: string): Option<Bytes> {
    var sp := Split(TrimRight(s));
    if sp[0] != "" || |sp| == 1 then None else ParsePieces(g, sp[1..])
  }

  /** NewMultiaddr: text to bytes to components. */
  function FromText(g: Registry, s: string): Option<seq<Component>> {
    match Parse(g, s)
    case None => None
    case Some(b) => Decode(g, b)
  }

  // ---------------------------------------------------------------- printing

  function ValueText(g: Registry, c: Component): string {
    if c.code !in g.byCode then "" else
    var p := g.byCode[c.code];
    if p.transcoder.None? || p.transcoder.value.toText(c.Value()).None? then ""
    else p.transcoder.value.toText(c.Value()).value
  }

  /** writeTo: the slash before a value is left out when a path brings its own. */
  function ComponentText(g: Registry, c: Component): string {
    if c.code !in g.byCode then "" else TextOf(g.byCode[c.code].name, ValueText(g, c), g.byCode[c.code].path)
  }

  function TextOf(name: string, value: string, path: bool): string {
    "/" + name + if value == "" then "" else (if path && value[0] == '/' then "" else "/") + value
  }

  /** What `f` gives for each component, one after the other. */
  function Flat<T>(m: seq<Component>, f: Component -> seq<T>): seq<T> {
    if m == [] then [] else Flat(m[..|m| - 1], f) + f(m[|m| - 1])
  }

  lemma {:induction false} FlatFirst<T>(c: Component, m: seq<Component>, f: Component -> seq<T>)
    ensures Flat([c] + m, f) == f(c) + Flat(m, f)
  {
    if m == [] {
      assert ([c] + m)[..0] == [];
    } else {
      assert ([c] + m)[..|m|] == [c] + m[..|m| - 1];
      FlatFirst(c, m[..|m| - 1], f);
    }
  }

  function Printed(g: Registry): Component -> string { (c: Component) => ComponentText(g, c) }

  function ToText(g: Registry, m: seq<Component>): string {
    Flat(m, Printed(g))
  }

  // ---------------------------------------------------------------- the round trip

  /** What a value's text must be like to survive: read back by the transcoder, not empty, and free of slashes
      or, for a path, starting but not ending with one. */
  predicate Printable(g: Registry, c: Component) {
    && c.code in g.byCode
    && var p, value := g.byCode[c.code], ValueText(g, c);
    && p.name != "" && SlashFree(p.name)
    && if p.size == 0 then value == ""
       else
         && value != "" && p.transcoder.Some? && p.transcoder.value.toBytes(value) == Some(c.Value())
         && if p.path then value[0] == '/' && value[|value| - 1] != '/' else SlashFree(value)
  }

  /** The pieces a component prints as. */
  function Pieces(g: Registry, c: Component): seq<string>
    requires Printable(g, c)
  {
    PiecesOf(g.byCode[c.code].name, ValueText(g, c), g.byCode[c.code].path)
  }

  function PiecesOf(name: string, value: string, path: bool): seq<string> {
    [name] + if value == "" then [] else if path then Split(value[1..]) else [value]
  }

  /** Pieces free of slashes, the last one not empty. */
  predicate Clean(sp: seq<string>) {
    sp != [] && sp[|sp| - 1] != "" && forall i :: 0 <= i < |sp| ==> SlashFree(sp[i])
  }

  lemma PiecesFacts(g: Registry, c: Component)
    requires ValidRegistry(g) && Printable(g, c)
    ensures ComponentText(g, c) == "/" + Join(Pieces(g, c)) && Clean(Pieces(g, c))
  {
    PiecesOfFacts(g.byCode[c.code].name, ValueText(g, c), g.byCode[c.code].path);
  }

  lemma PiecesOfFacts(name: string, value: string, path: bool)
    requires name != "" && SlashFree(name)
    requires value == "" || if path then value[0] == '/' && value[|value| - 1] != '/' else SlashFree(value)
    ensures TextOf(name, value, path) == "/" + Join(PiecesOf(name, value, path)) && Clean(PiecesOf(name, value, path))
  {
    if value == "" {
      FlagPieces(name);
    } else if path {
      PathPieces(name, value);
      assert "/" + name + ("" + value) == "/" + name + value;
    } else {
      PlainPieces(name, value);
    }
  }

  lemma FlagPieces(name: string)
    requires name != "" && SlashFree(name)
    ensures "/" + name + "" == "/" + Join([name] + []) && Clean([name] + [])
  {
    assert [name] + [] == [name];
  }

  lemma PlainPieces(name: string, value: string)
    requires value != "" && SlashFree(value) && SlashFree(name)
    ensures "/" + name + ("/" + value) == "/" + Join([name] + [value]) && Clean([name] + [value])
  {
  }

  lemma PathPieces(name: string, value: string)
    requires value != "" && value[0] == '/' && value[|value| - 1] != '/' && name != "" && SlashFree(name)
    ensures var sp := [name] + Split(value[1..]);
      "/" + name + value == "/" + Join(sp) && Clean(sp)
  {
    var rest := value[1..];
    JoinSplit(rest);
    var sp := [name] + Split(rest);
    assert sp[1..] == Split(rest);
    assert value == "/" + rest;
    assert "/" + name + ("/" + rest) == "/" + (name + "/" + rest);
    SplitEnd(rest);
  }

  lemma {:induction false} SplitEnd(s: string)
    requires s != "" && s[|s| - 1] != '/'
    ensures Split(s)[|Split(s)| - 1] != ""
  {
    if |s| > 1 {
      var rest := Split(s[1..]);
      SplitEnd(s[1..]);
      if s[0] == '/' {
        assert Split(s) == [""] + rest;
      } else {
        assert Split(s) == [[s[0]] + rest[0]] + rest[1..];
        if |rest| > 1 { assert Split(s)[|rest| - 1] == rest[1..][|rest| - 2]; }
      }
    } else {
      assert s[1..] == "";
    }
  }

  function AllPieces(g: Registry, m: seq<Component>): seq<string>
    requires forall i :: 0 <= i < |m| ==> Printable(g, m[i])
  {
    if m == [] then [] else Pieces(g, m[0]) + AllPieces(g, m[1..])
  }

  lemma {:induction false} AllPiecesFacts(g: Registry, m: seq<Component>)
    requires ValidRegistry(g) && m != [] && forall i :: 0 <= i < |m| ==> Printable(g, m[i])
    ensures Clean(AllPieces(g, m)) && ToText(g, m) == "/" + Join(AllPieces(g, m))
  {
    var c, rest := m[0], m[1..];
    PiecesFacts(g, c);
    FlatFirst(c, rest, Printed(g));
    assert m == [c] + rest;
    if |m| > 1 {
      AllPiecesFacts(g, rest);
      TextConcat(Pieces(g, c), AllPieces(g, rest));
    } else {
      assert Pieces(g, c) + [] == Pieces(g, c) && ComponentText(g, c) + "" == ComponentText(g, c);
    }
  }

  lemma TextConcat(a: seq<string>, b: seq<string>)
    requires Clean(a) && Clean(b)
    ensures Clean(a + b) && "/" + Join(a) + ("/" + Join(b)) == "/" + Join(a + b)
  {
    JoinConcat(a, b);
    assert "/" + Join(a) + ("/" + Join(b)) == "/" + (Join(a) + "/" + Join(b));
  }

  /** Clean pieces come back from their text. */
  lemma CleanSplits(sp: seq<string>)
    requires Clean(sp)
    ensures Split(TrimRight("/" + Join(sp))) == [""] + sp
  {
    var s, last := "/" + Join(sp), sp[|sp| - 1];
    JoinEnd(sp);
    assert last[|last| - 1] in last;
    assert TrimRight(s) == s;
    SplitJoin(sp);
    SplitAtSlash("", Join(sp));
    assert "" + "/" + Join(sp) == s;
  }

  /** The pieces of one component parse to its bytes; a path must come last. */
  lemma ParseComponent(g: Registry, c: Component, rest: seq<string>)
    requires ValidRegistry(g) && Validated(g, c) && Printable(g, c) && (g.byCode[c.code].path ==> rest == [])
    ensures ParsePieces(g, Pieces(g, c) + rest) == Prepend(c.bytes, ParsePieces(g, rest))
  {
    var p := g.byCode[c.code];
    if p.size == 0 {
      ParseFlag(g, c, rest);
    } else if p.path {
      ParsePath(g, c);
      assert Pieces(g, c) + [] == Pieces(g, c);
      assert c.bytes + [] == c.bytes;
    } else {
      var sp := Pieces(g, c) + rest;
      assert sp[1] == ValueText(g, c) && sp[2..] == rest;
      ParseValue(g, sp, p, ValueText(g, c), c.Value());
      ValidatedLayout(g.byCode[c.code], c);
    }
  }

  /** One turn of the parse loop on a protocol with a value. */
  lemma ParseValue(g: Registry, sp: seq<string>, p: Protocol, text: string, value: Bytes)
    requires |sp| > 1 && sp[0] in g.byName && g.byName[sp[0]] in g.byCode && p == g.byCode[g.byName[sp[0]]]
    requires p.code != 0 && p.size != 0 && p.transcoder.Some? && text == if p.path then "/" + Join(sp[1..]) else sp[1]
    requires p.transcoder.value.toBytes(text) == Some(value) && p.transcoder.value.legal(value)
    ensures ParsePieces(g, sp) == Prepend(Laid(p, value), if p.path then Some([]) else ParsePieces(g, sp[2..]))
  {
  }

  lemma ParseFlag(g: Registry, c: Component, rest: seq<string>)
    requires ValidRegistry(g) && Validated(g, c) && Printable(g, c) && g.byCode[c.code].size == 0
    ensures ParsePieces(g, Pieces(g, c) + rest) == Prepend(c.bytes, ParsePieces(g, rest))
  {
    var p, sp := g.byCode[c.code], Pieces(g, c) + rest;
    ValidatedLayout(g.byCode[c.code], c);
    assert sp[1..] == rest;
    assert c.Value() == [] by { assert |c.Value()| == FixedSize(p) == 0; }
    assert Laid(p, []) == p.vcode;
  }

  lemma PathText(g: Registry, c: Component)
    requires Printable(g, c) && g.byCode[c.code].path && g.byCode[c.code].size != 0
    ensures |Pieces(g, c)| > 1 && Pieces(g, c)[0] == g.byCode[c.code].name
    ensures "/" + Join(Pieces(g, c)[1..]) == ValueText(g, c)
  {
    var value := ValueText(g, c);
    JoinSplit(value[1..]);
    assert Pieces(g, c)[1..] == Split(value[1..]);
    assert "/" + value[1..] == value;
  }

  lemma ParsePath(g: Registry, c: Component)
    requires ValidRegistry(g) && Validated(g, c) && Printable(g, c) && g.byCode[c.code].path
    ensures ParsePieces(g, Pieces(g, c)) == Some(c.bytes)
  {
    var p := g.byCode[c.code];
    PathText(g, c);
    ParseValue(g, Pieces(g, c), p, ValueText(g, c), c.Value());
    ValidatedLayout(g.byCode[c.code], c);
    assert Laid(p, c.Value()) + [] == Laid(p, c.Value());
  }

  lemma {:induction false} ParseAllPieces(g: Registry, m: seq<Component>)
    requires ValidRegistry(g) && PathOnlyLast(g, m) && forall i :: 0 <= i < |m| ==>
      Validated(g, m[i]) && Printable(g, m[i])
    ensures ParsePieces(g, AllPieces(g, m)) == Some(ToBytes(m))
  {
    if m != [] {
      var c, rest := m[0], m[1..];
      assert m == [c] + rest;
      ToBytesFirst(c, rest);
      ParseAllPieces(g, rest);
      ParseComponent(g, c, AllPieces(g, rest));
    }
  }

  /** Printing a proper address of valid, printable components and parsing the text gives the address back. */
  lemma TextRoundTrip(g: Registry, m: seq<Component>)
    requires ValidRegistry(g) && m != [] && Proper(g, m) && forall i :: 0 <= i < |m| ==>
      Validated(g, m[i]) && Printable(g, m[i])
    ensures FromText(g, ToText(g, m)) == Some(m)
  {
    var sp := AllPieces(g, m);
    AllPiecesFacts(g, m);
    CleanSplits(sp);
    assert ([""] + sp)[1..] == sp;
    ParseAllPieces(g, m);
    EncodeThenDecodeIff(g, m);
  }

  /** A protocol whose transcoder reads back every legal value from the text it prints for it, the text being of
      the shape the parser can find again. */
  ghost predicate Faithful(p: Protocol) {
    && p.name != "" && SlashFree(p.name)
    && (p.size == 0 ==> p.transcoder.None?)
    && (p.size != 0 ==> p.transcoder.Some? && forall v :: FaithfulAt(p.transcoder.value, v, p.path))
  }

  predicate FaithfulAt(t: Transcoder, v: Bytes, path: bool) {
    v != [] && t.legal(v) && t.toText(v).Some? ==>
      var text := t.toText(v).value;
      && text != "" && t.toBytes(text) == Some(v)
      && if path then text[0] == '/' && text[|text| - 1] != '/' else SlashFree(text)
  }

  /** With faithful transcoders, every address that can be decoded survives printing and parsing. */
  lemma DecodedSurvivesText(g: Registry, b: Bytes)
    requires ValidRegistry(g) && (forall k :: k in g.byCode ==> Faithful(g.byCode[k])) && Decode(g, b).Some?
    ensures var m := Decode(g, b).value;
      FromText(g, ToText(g, m)) == Some(m)
  {
    DecodeThenEncode(g, b);
    var m := Decode(g, b).value;
    forall i | 0 <= i < |m| ensures Printable(g, m[i]) { FaithfulPrints(g, m[i]); }
    TextRoundTrip(g, m);
  }

  lemma FaithfulPrints(g: Registry, c: Component)
    requires Validated(g, c) && Readable(g, c) && Faithful(g.byCode[c.code])
    ensures Printable(g, c)
  {
    var p := g.byCode[c.code];
    if p.size != 0 { assert FaithfulAt(p.transcoder.value, c.Value(), p.path); }
  }

  // ---------------------------------------------------------------- the loops

  /** Names lead to protocols, and those with values have transcoders. */
  ghost predicate NamesKnown(g: Registry) {
    forall name :: name in g.byName ==> NameKnown(g, name)
  }

  predicate NameKnown(g: Registry, name: string) {
    name in g.byName ==>
      && g.byName[name] in g.byCode
      && (g.byCode[g.byName[name]].size != 0 ==> g.byCode[g.byName[name]].transcoder.Some?)
  }

  /** Every registry that protocols are added to one by one is such a registry, whatever their codes. */
  lemma AddingKeepsNames(g: Registry, p: Protocol)
    requires NamesKnown(g) && AddProtocol(g, p).Some?
    ensures NamesKnown(AddProtocol(g, p).value)
  {
    var g' := AddProtocol(g, p).value;
    forall name | name in g'.byName ensures NameKnown(g', name) {
      if name != p.name { assert NameKnown(g, name); }
    }
  }

  /** stringToBytes: cuts pieces off the front and appends to a buffer. */
  method StringToBytes(g: Registry, s: string) returns (r: Option<Bytes>)
    requires NamesKnown(g)
    ensures r == Parse(g, s)
  {
    var sp := Split(TrimRight(s));
    if sp[0] != "" {
      return None;
    }
    sp := sp[1..];
    if |sp| == 0 {
      return None;
    }
    r := PiecesToBytes(g, sp);
  }

  /** The loop of stringToBytes. */
  method PiecesToBytes(g: Registry, all: seq<string>) returns (r: Option<Bytes>)
    requires NamesKnown(g)
    ensures r == ParsePieces(g, all)
  {
    var sp := all;
    r := Some([]);
    PrependNothing(ParsePieces(g, all));
    while |sp| > 0 && r.Some?
      invariant ParsePieces(g, all) == Continued(g, r, sp)
      decreases |sp|
    {
      r, sp := Turn(g, r.value, sp);
    }
    if r.Some? { assert r.value + [] == r.value; }
  }

  /** What has been written, and then what the pieces that are left parse to. */
  function Continued(g: Registry, b: Option<Bytes>, sp: seq<string>): Option<Bytes> {
    if b.None? then None else Prepend(b.value, ParsePieces(g, sp))
  }

  /** One turn of the loop: a protocol, and its value if it has one, is written to the buffer. */
  method Turn(g: Registry, b: Bytes, sp0: seq<string>) returns (r: Option<Bytes>, sp: seq<string>)
    requires NamesKnown(g) && |sp0| > 0
    ensures Continued(g, r, sp) == Prepend(b, ParsePieces(g, sp0)) && |sp| < |sp0|
  {
    var name := sp0[0];
    sp := sp0[1..];
    if name !in g.byName {
      return None, sp;
    }
    assert NameKnown(g, name);
    var p := g.byCode[g.byName[name]];
    if p.code == 0 {
      return None, sp;
    }
    if p.size == 0 {
      PrependTwice(b, p.vcode, ParsePieces(g, sp));
      return Some(b + p.vcode), sp;
    }
    if |sp| < 1 {
      return None, sp;
    }
    var a;
    a, sp := TakeValue(p, sp);
    if a.None? {
      return None, sp;
    }
    r := Some(b + p.vcode + LengthPrefix(p, a.value) + a.value);
    assert r.value == b + Laid(p, a.value);
    assert !p.path ==> sp == sp0[2..];
    PrependTwice(b, Laid(p, a.value), ParsePieces(g, sp));
  }

  /** The value of a protocol, and the pieces after it. */
  method TakeValue(p: Protocol, sp0: seq<string>) returns (a: Option<Bytes>, sp: seq<string>)
    requires |sp0| > 0 && p.transcoder.Some?
    ensures a == ValueOf(p, sp0) && sp == if p.path then [] else sp0[1..]
  {
    sp := sp0;
    if p.path {
      sp := ["/" + Join(sp)];
    }
    a := p.transcoder.value.toBytes(sp[0]);
    if a.Some? && !p.transcoder.value.legal(a.value) {
      a := None;
    }
    sp := sp[1..];
  }

  lemma PrependNothing(r: Option<Bytes>)
    ensures Prepend([], r) == r
  {
    if r.Some? { assert [] + r.value == r.value; }
  }

  lemma PrependTwice(a: Bytes, b: Bytes, r: Option<Bytes>)
    ensures Prepend(a, Prepend(b, r)) == Prepend(a + b, r)
  {
    if r.Some? { assert a + (b + r.value) == a + b + r.value; }
  }

  /** writeTo. */
  method PrintComponent(g: Registry, c: Component) returns (text: string)
    ensures text == ComponentText(g, c)
  {
    if c.code !in g.byCode {
      return "";
    }
    var p, value := g.byCode[c.code], ValueText(g, c);
    text := "/" + p.name;
    if |value| == 0 {
      assert text + "" == text;
      return;
    }
    var sep := if !(p.path && value[0] == '/') then "/" else "";
    assert text + sep + value == text + (sep + value);
    text := text + sep + value;
  }

  /** String: prints the components one after the other. */
  method Print(g: Registry, m: seq<Component>) returns (s: string)
    ensures s == ToText(g, m)
  {
    s := "";
    for i := 0 to |m|
      invariant s == Flat(m[..i], Printed(g))
    {
      assert m[..i + 1][..i] == m[..i];
      var text := PrintComponent(g, m[i]);
      s := s + text;
    }
    assert m[..|m|] == m;
  }
}
