/** Resolving the first DNS component of a multiaddr. The answers of the DNS are parameters. */
module DnsResolve {
  import opened Basics
  import opened Multiaddr
  import opened MultiaddrText
  import opened MultiaddrOps

  const DNS := 0x35
  const DNS4 := 0x36
  const DNS6 := 0x37
  const DNSADDR := 0x38
  const MAX_RESOLVED := 100
  const TXT_PREFIX := "dnsaddr="

  /** An IP address record: whether it is (or embeds) an IPv4 address, and its text. */
  datatype IpRecord = IpRecord(v4: bool, text: string)

  /** What a lookup of the name answers; None is an error. */
  datatype Answers = Answers(ips: Option<seq<IpRecord>>, txts: Option<seq<string>>)

  predicate IsDns(c: Component) {
    c.code == DNS || c.code == DNS4 || c.code == DNS6 || c.code == DNSADDR
  }

  predicate IsSuffix(post: Address, m: Address) {
    |post| <= |m| && m[|m| - |post|..] == post
  }

  // ---------------------------------------------------------------- what the results are

  /** The address of a TXT record, if the record holds one. */
  function TxtAddress(g: Registry, record: string): Option<Address> {
    if TXT_PREFIX <= record then FromText(g, record[|TXT_PREFIX|..]) else None
  }

  /** The address a TXT record contributes: one that ends with, and is longer than, what follows the DNS component. */
  function TxtAnswer(g: Registry, record: string, post: Address): Option<Address> {
    Ending(TxtAddress(g, record), post)
  }

  function Ending(parsed: Option<Address>, post: Address): Option<Address> {
    match parsed
    case None => None
    case Some(t) => if post == [] || (IsSuffix(post, t) && |post| < |t|) then Some(t) else None
  }

  /** An address that ends with `post`, without it. */
  function Stripped(answer: Option<Address>, post: Address): Option<Address> {
    match answer
    case None => None
    case Some(t) => if |post| <= |t| then Some(t[..|t| - |post|]) else None
  }

  /** What `f` accepts of a list of records, in order. */
  function Collected(records: seq<string>, f: string -> Option<Address>): seq<Address> {
    if records == [] then []
    else
      var a := f(records[|records| - 1]);
      Collected(records[..|records| - 1], f) + if a.Some? then [a.value] else []
  }

  lemma {:induction false} CollectedAre(records: seq<string>, f: string -> Option<Address>, t: Address)
    ensures t in Collected(records, f) <==> exists i :: 0 <= i < |records| && f(records[i]) == Some(t)
  {
    if records != [] {
      var init := records[..|records| - 1];
      CollectedAre(init, f, t);
      if i :| 0 <= i < |records| && f(records[i]) == Some(t) && i < |init| { assert init[i] == records[i]; }
      if i :| 0 <= i < |init| && f(init[i]) == Some(t) { assert records[i] == init[i]; }
    }
  }

  function Txt(g: Registry, post: Address): string -> Option<Address> { (record: string) => TxtAnswer(g, record, post) }

  function TxtAnswers(g: Registry, records: seq<string>, post: Address): seq<Address> {
    Collected(records, Txt(g, post))
  }

  function AtMost(list: seq<Address>, n: nat): seq<Address> {
    if |list| > n then list[..n] else list
  }

  function Prefixed(pre: Address, list: seq<Address>): seq<Address> {
    seq(|list|, i requires 0 <= i < |list| => pre + list[i])
  }

  /** The text a record resolves to, unless the protocol asks for the other kind. */
  function IpText(code: int, r: IpRecord): Option<string> {
    if r.v4 then
      if code == DNS6 then None else Some("/ip4/" + r.text)
    else if code == DNS4 then None
    else Some("/ip6/" + r.text)
  }

  /** The addresses of all records of the right kind; None if one of them is not an address. */
  function IpAnswers(g: Registry, code: int, records: seq<IpRecord>): Option<seq<Address>> {
    if records == [] then Some([])
    else
      match IpAnswers(g, code, records[..|records| - 1])
      case None => None
      case Some(list) =>
        var text := IpText(code, records[|records| - 1]);
        if text.None? then Some(list)
        else
          var a := FromText(g, text.value);
          if a.None? then None else Some(list + [a.value])
  }

  // ---------------------------------------------------------------- the loops

  ghost predicate ValidAddress(g: Registry, m: Address) {
    forall i :: 0 <= i < |m| ==> Validated(g, m[i])
  }

  lemma ParsedIsValid(g: Registry, s: string)
    requires FromText(g, s).Some?
    ensures ValidAddress(g, FromText(g, s).value) && FromText(g, s).value != []
  {
    DecodeThenEncode(g, Parse(g, s).value);
  }

  /** One TXT record of a dnsaddr: its address without the suffix, which is put back at the end. */
  method TakeTxt(g: Registry, record: string, post: Address) returns (r: Option<Address>)
    requires ValidRegistry(g) && ValidAddress(g, post)
    ensures r == Stripped(TxtAnswer(g, record, post), post)
  {
    if !(TXT_PREFIX <= record) {
      return None;
    }
    var parsed := FromText(g, record[|TXT_PREFIX|..]);
    if parsed.Some? { ParsedIsValid(g, record[|TXT_PREFIX|..]); }
    r := TakeAddress(g, parsed, post);
  }

  method TakeAddress(g: Registry, parsed: Option<Address>, post: Address) returns (r: Option<Address>)
    requires ValidRegistry(g) && ValidAddress(g, post) && (parsed.Some? ==> ValidAddress(g, parsed.value))
    ensures r == Stripped(Ending(parsed, post), post)
  {
    if parsed.None? {
      return None;
    }
    var t := parsed.value;
    if post == [] {
      assert t[..|t|] == t;
      return Some(t);
    }
    r := StripSuffix(g, t, post);
  }

  /** Whether the last components are equal, as far as their bytes go. */
  method EndsWith(g: Registry, t: Address, post: Address) returns (ends: bool)
    requires ValidRegistry(g) && ValidAddress(g, t) && ValidAddress(g, post)
    ensures ends <==> IsSuffix(post, t)
  {
    if |t| < |post| {
      return false;
    }
    var tail := t[|t| - |post|..];
    ends := Equal(post, tail);
    if ends { SameBytesSame(g, post, tail); }
  }

  /** The address without the suffix, unless it lacks the suffix or has nothing else. */
  method StripSuffix(g: Registry, t: Address, post: Address) returns (r: Option<Address>)
    requires ValidRegistry(g) && ValidAddress(g, t) && ValidAddress(g, post) && post != []
    ensures r == if IsSuffix(post, t) && |post| < |t| then Some(t[..|t| - |post|]) else None
  {
    var ends := EndsWith(g, t, post);
    if !ends {
      return None;
    }
    DecapsulateSuffix(t, post);
    var rest := Decapsulate(t, post);
    if rest == [] {
      return None;
    }
    return Some(rest);
  }

  /** The list without `post` at the end of each address. */
  ghost predicate AllStripped(resolved: seq<Address>, answers: seq<Address>, post: Address) {
    |resolved| == |answers| && forall i :: 0 <= i < |resolved| ==> resolved[i] + post == answers[i]
  }

  lemma OneMoreStripped(resolved: seq<Address>, answers: seq<Address>, r: Address, t: Address, post: Address)
    requires AllStripped(resolved, answers, post) && r + post == t
    ensures AllStripped(resolved + [r], answers + [t], post)
  {
  }

  method TakeTxts(g: Registry, records: seq<string>, post: Address) returns (resolved: seq<Address>)
    requires ValidRegistry(g) && ValidAddress(g, post)
    ensures AllStripped(resolved, TxtAnswers(g, records, post), post)
  {
    resolved := [];
    ghost var f := Txt(g, post);
    for k := 0 to |records|
      invariant AllStripped(resolved, Collected(records[..k], f), post)
    {
      CollectedNext(records, k, f);
      var r := TakeTxt(g, records[k], post);
      if r.Some? {
        ghost var t := f(records[k]).value;
        CutEnd(t, post);
        OneMoreStripped(resolved, Collected(records[..k], f), r.value, t, post);
        resolved := resolved + [r.value];
      } else {
        assert Collected(records[..k + 1], f) == Collected(records[..k], f);
      }
    }
    assert records[..|records|] == records;
  }

  lemma CollectedNext(records: seq<string>, k: nat, f: string -> Option<Address>)
    requires k < |records|
    ensures Collected(records[..k + 1], f) ==
      Collected(records[..k], f) + if f(records[k]).Some? then [f(records[k]).value] else []
  {
    assert records[..k + 1][..k] == records[..k];
  }

  lemma CutEnd(t: Address, post: Address)
    requires |post| <= |t| && t[|t| - |post|..] == post
    ensures t[..|t| - |post|] + post == t
  {
  }

  method TakeIps(g: Registry, code: int, records: seq<IpRecord>) returns (resolved: Option<seq<Address>>)
    ensures resolved == IpAnswers(g, code, records)
  {
    resolved := Some([]);
    for k := 0 to |records|
      invariant resolved == IpAnswers(g, code, records[..k])
    {
      assert records[..k + 1][..k] == records[..k];
      if resolved.Some? {
        var text := IpText(code, records[k]);
        if text.Some? {
          var a := FromText(g, text.value);
          resolved := if a.None? then None else Some(resolved.value + [a.value]);
        }
      }
    }
    assert records[..|records|] == records;
  }

  // ---------------------------------------------------------------- resolving

  function Wrapped(pre: Address, list: seq<Address>, post: Address): seq<Address> {
    seq(|list|, i requires 0 <= i < |list| => pre + list[i] + post)
  }

  /** What resolving the DNS component at position `k` gives. */
  function ResolvedAt(g: Registry, m: Address, k: nat, answers: Answers): Option<seq<Address>>
    requires k < |m|
  {
    var pre, post := m[..k], m[k + 1..];
    if m[k].code == DNSADDR then
      if answers.txts.None? then None
        else Some(Prefixed(pre, AtMost(TxtAnswers(g, answers.txts.value, post), MAX_RESOLVED)))
    else if answers.ips.None? then None
    else
      var list := IpAnswers(g, m[k].code, answers.ips.value);
      if list.None? then None else Some(Wrapped(pre, AtMost(list.value, MAX_RESOLVED), post))
  }

  ghost predicate FirstDns(m: Address, k: nat) {
    k < |m| && IsDns(m[k]) && forall j :: 0 <= j < k ==> !IsDns(m[j])
  }

  /** The two loops at the end: what comes before and after the DNS component goes around every result. */
  method Wrap(pre: Address, list: seq<Address>, post: Address) returns (out: seq<Address>)
    ensures out == Wrapped(pre, list, post)
  {
    out := list;
    if pre != [] {
      for i := 0 to |out|
        invariant |out| == |list|
        invariant forall j :: 0 <= j < |out| ==> out[j] == if j < i then pre + list[j] else list[j]
      {
        var joined := Encapsulate(pre, out[i]);
        out := out[i := joined];
      }
    }
    ghost var mid := out;
    assert forall j :: 0 <= j < |mid| ==> mid[j] == pre + list[j];
    if post != [] {
      for i := 0 to |out|
        invariant |out| == |mid|
        invariant forall j :: 0 <= j < |out| ==> out[j] == if j < i then mid[j] + post else mid[j]
      {
        var joined := Encapsulate(out[i], post);
        out := out[i := joined];
      }
    }
    assert forall j :: 0 <= j < |out| ==> out[j] == mid[j] + post;
  }

  /** Resolve: no address (nil) resolves to none; an address without DNS components, the empty one among them,
      resolves to itself; else the first DNS component is resolved. */
  method Resolve(g: Registry, maddr: Option<Address>, answers: Answers) returns (r: Option<seq<Address>>)
    requires ValidRegistry(g) && (maddr.Some? ==> ValidAddress(g, maddr.value))
    ensures maddr.None? ==> r == Some([])
    ensures maddr.Some? && (forall i :: 0 <= i < |maddr.value| ==> !IsDns(maddr.value[i])) ==> r == Some([maddr.value])
    ensures forall k :: maddr.Some? && FirstDns(maddr.value, k) ==> r == ResolvedAt(g, maddr.value, k, answers)
  {
    if maddr.None? {
      return Some([]);
    }
    var m := maddr.value;
    var pre, rest := SplitAt(m, IsDns);
    ghost var at := |pre|;
    if rest == [] {
      assert pre == m;
      return Some([pre]);
    }
    assert m[at] == rest[0] && FirstDns(m, at);
    assert forall k :: FirstDns(m, k) ==> k == at;
    var post := rest[1..];
    assert pre == m[..at] && post == m[at + 1..];
    if rest[0].code == DNSADDR {
      if answers.txts.None? {
        return None;
      }
      var list := ResolveTxts(g, answers.txts.value, pre, post);
      return Some(list);
    }
    if answers.ips.None? {
      return None;
    }
    var list := TakeIps(g, rest[0].code, answers.ips.value);
    if list.None? {
      return None;
    }
    var resolved := list.value;
    if |resolved| > MAX_RESOLVED { resolved := resolved[..MAX_RESOLVED]; }
    resolved := Wrap(pre, resolved, post);
    return Some(resolved);
  }

  method ResolveTxts(g: Registry, records: seq<string>, pre: Address, post: Address) returns (out: seq<Address>)
    requires ValidRegistry(g) && ValidAddress(g, post)
    ensures out == Prefixed(pre, AtMost(TxtAnswers(g, records, post), MAX_RESOLVED))
  {
    var resolved := TakeTxts(g, records, post);
    ghost var answers := TxtAnswers(g, records, post);
    if |resolved| > MAX_RESOLVED { resolved := resolved[..MAX_RESOLVED]; }
    out := Wrap(pre, resolved, post);
    forall i | 0 <= i < |out| ensures out[i] == pre + answers[i] {
      assert pre + resolved[i] + post == pre + (resolved[i] + post);
    }
  }

  /** Address `t` is a whole TXT record's address and ends with `post`. */
  ghost predicate OfRecord(g: Registry, records: seq<string>, post: Address, j: nat, t: Address) {
    j < |records| && TxtAddress(g, records[j]) == Some(t) && IsSuffix(post, t)
  }

  lemma AnswerIsOfRecord(g: Registry, records: seq<string>, post: Address, t: Address)
    requires t in TxtAnswers(g, records, post)
    ensures exists j :: OfRecord(g, records, post, j, t)
  {
    var f := Txt(g, post);
    CollectedAre(records, f, t);
    var j :| 0 <= j < |records| && f(records[j]) == Some(t);
    assert TxtAnswer(g, records[j], post) == Some(t);
    assert OfRecord(g, records, post, j, t);
  }

  /** Every address a dnsaddr resolves to is what came before it followed by one whole address of a TXT record,
      which ends with what came after it; there are at most 100 of them. */
  lemma DnsaddrResults(g: Registry, pre: Address, post: Address, records: seq<string>, result: Address)
    requires result in Prefixed(pre, AtMost(TxtAnswers(g, records, post), MAX_RESOLVED))
    ensures |Prefixed(pre, AtMost(TxtAnswers(g, records, post), MAX_RESOLVED))| <= MAX_RESOLVED
    ensures exists t, j :: OfRecord(g, records, post, j, t) && result == pre + t
  {
    var list := AtMost(TxtAnswers(g, records, post), MAX_RESOLVED);
    var i :| 0 <= i < |list| && result == pre + list[i];
    AnswerIsOfRecord(g, records, post, list[i]);
  }

  // ---------------------------------------------------------------- choosing a resolver

  function Fqdn(domain: string): string {
    if domain != "" && domain[|domain| - 1] == '.' then domain else domain + "."
  }

  /** Whether a label of the name starts at `k`. */
  predicate LabelStart(f: string, k: nat) {
    k < |f| && (k == 0 || f[k - 1] == '.')
  }

  predicate Custom<R>(custom: map<string, R>, f: string, k: nat) {
    LabelStart(f, k) && f[k..] in custom
  }

  /** The most specific parent domain with a custom resolver starts at `k`. */
  ghost predicate MostSpecific<R>(custom: map<string, R>, f: string, k: nat) {
    Custom(custom, f, k) && forall j: nat :: j < k ==> !Custom(custom, f, j)
  }

  /** getResolver: the custom resolver of the most specific parent domain that has one, else the default. */
  method GetResolver<R>(custom: map<string, R>, def: R, domain: string) returns (r: R)
    ensures (forall k: nat :: !Custom(custom, Fqdn(domain), k)) ==> r == def
    ensures forall k: nat :: MostSpecific(custom, Fqdn(domain), k) ==> r == custom[Fqdn(domain)[k..]]
  {
    var f := Fqdn(domain);
    assert f[0..] == f;
    if f in custom {
      assert Custom(custom, f, 0);
      return custom[f];
    }
    var k := 0;
    while k < |f|
      invariant k <= |f| && forall j: nat :: j <= k ==> !Custom(custom, f, j)
    {
      var i := k;
      while i < |f| && f[i] != '.'
        invariant k <= i <= |f| && forall j :: k <= j < i ==> f[j] != '.'
      {
        i := i + 1;
      }
      assert forall j: nat :: k < j <= i ==> !LabelStart(f, j);
      if i == |f| {
        break;
      }
      k := i + 1;
      if k == |f| {
        break;
      }
      if f[k..] in custom {
        assert MostSpecific(custom, f, k);
        return custom[f[k..]];
      }
    }
    return def;
  }
}
