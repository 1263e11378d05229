/** Merging and splitting of outgoing RPCs under a size limit. The merged list is specified as a run of small
    actions, each of which goes into the last RPC if that still fits and otherwise opens a new one. */
module RpcSplit {
  import opened Basics
  import opened Peers

  // Merging looks at the contents only through equality and the size function, so each is a number here.
  datatype Message = Message(n: nat)
  datatype Subscription = Subscription(n: nat)
  datatype Graft = Graft(n: nat)
  datatype Prune = Prune(n: nat)
  datatype Mask = Mask(n: nat)
  datatype IWant = IWant(ids: seq<MessageId>)
  datatype IHave = IHave(mask: Mask, ids: seq<MessageId>)
  datatype IDontWant = IDontWant(ids: seq<MessageId>)
  datatype Control = Control(grafts: seq<Graft>, prunes: seq<Prune>, wants: seq<IWant>, haves: seq<IHave>,
                             dontWants: seq<IDontWant>)
  datatype Rpc = Rpc(publish: seq<Message>, subs: seq<Subscription>, control: Option<Control>, from: PeerId)

  const NoControl := Control([], [], [], [], [])

  function Blank(from: PeerId): Rpc { Rpc([], [], None, from) }

  function ControlOf(r: Rpc): Control { if r.control.Some? then r.control.value else NoControl }

  // ---------------------------------------------------------------- actions

  /** One append of the merge loop: an item, or the empty header it needs first. */
  datatype Action =
    | AddMessage(msg: Message) | AddSub(sub: Subscription) | OpenControl
    | AddGraft(graft: Graft) | AddPrune(prune: Prune)
    | OpenWant | AddWant(id: MessageId) | OpenHave(mask: Mask) | AddHave(mask: Mask, id: MessageId)

  function MoreWanted(wants: seq<IWant>, id: MessageId): seq<IWant> {
    if wants == [] then [IWant([id])] else wants[0 := IWant(wants[0].ids + [id])]
  }

  predicate LastIs(haves: seq<IHave>, mask: Mask) {
    haves != [] && haves[|haves| - 1].mask == mask
  }

  function MoreOffered(haves: seq<IHave>, mask: Mask, id: MessageId): seq<IHave> {
    if LastIs(haves, mask) then haves[|haves| - 1 := IHave(mask, haves[|haves| - 1].ids + [id])]
    else haves + [IHave(mask, [id])]
  }

  /** Whether a header that the action would open is there already. */
  predicate Present(r: Rpc, a: Action) {
    match a
    case OpenControl => r.control.Some?
    case OpenWant => ControlOf(r).wants != []
    case OpenHave(mask) => LastIs(ControlOf(r).haves, mask)
    case _ => false
  }

  function WithControl(r: Rpc, c: Control): Rpc { r.(control := Some(c)) }

  /** The RPC with the action's item appended. */
  function With(r: Rpc, a: Action): Rpc {
    var c := ControlOf(r);
    match a
    case AddMessage(m) => r.(publish := r.publish + [m])
    case AddSub(s) => r.(subs := r.subs + [s])
    case OpenControl => WithControl(r, c)
    case AddGraft(g) => WithControl(r, c.(grafts := c.grafts + [g]))
    case AddPrune(p) => WithControl(r, c.(prunes := c.prunes + [p]))
    case OpenWant => WithControl(r, c.(wants := c.wants + [IWant([])]))
    case AddWant(id) => WithControl(r, c.(wants := MoreWanted(c.wants, id)))
    case OpenHave(mask) => WithControl(r, c.(haves := c.haves + [IHave(mask, [])]))
    case AddHave(mask, id) => WithControl(r, c.(haves := MoreOffered(c.haves, mask, id)))
  }

  /** Who sends, how large an RPC may be, and how RPCs are measured. */
  datatype Sink = Sink(from: PeerId, limit: int, size: Rpc -> nat)

  /** The item goes into the last RPC if that still fits, else into a new one of its own. */
  function Apply(out: seq<Rpc>, a: Action, x: Sink): (r: seq<Rpc>)
    requires out != []
    ensures r != []
  {
    var last := out[|out| - 1];
    if Present(last, a) then out
    else if x.size(With(last, a)) <= x.limit then out[|out| - 1 := With(last, a)]
    else out + [With(Blank(x.from), a)]
  }

  function ApplyAll(out: seq<Rpc>, actions: seq<Action>, x: Sink): (r: seq<Rpc>)
    requires out != []
    ensures r != []
  {
    if actions == [] then out
    else Apply(ApplyAll(out, actions[..|actions| - 1], x), actions[|actions| - 1], x)
  }

  // ---------------------------------------------------------------- merging

  function MessageItems(ms: seq<Message>): seq<Action> { seq(|ms|, i requires 0 <= i < |ms| => AddMessage(ms[i])) }
  function SubItems(ss: seq<Subscription>): seq<Action> { seq(|ss|, i requires 0 <= i < |ss| => AddSub(ss[i])) }
  function GraftItems(gs: seq<Graft>): seq<Action> { seq(|gs|, i requires 0 <= i < |gs| => AddGraft(gs[i])) }
  function PruneItems(ps: seq<Prune>): seq<Action> { seq(|ps|, i requires 0 <= i < |ps| => AddPrune(ps[i])) }
  function WantItems(ids: seq<MessageId>): seq<Action> { seq(|ids|, i requires 0 <= i < |ids| => AddWant(ids[i])) }
  function HaveItems(mask: Mask, ids: seq<MessageId>): seq<Action> {
    seq(|ids|, i requires 0 <= i < |ids| => AddHave(mask, ids[i]))
  }

  function PutWants(out: seq<Rpc>, wants: seq<IWant>, x: Sink): (r: seq<Rpc>)
    requires out != []
    ensures r != []
  {
    if wants == [] then out
    else ApplyAll(Apply(PutWants(out, wants[..|wants| - 1], x), OpenWant, x), WantItems(wants[|wants| - 1].ids), x)
  }

  function PutHaves(out: seq<Rpc>, haves: seq<IHave>, x: Sink): (r: seq<Rpc>)
    requires out != []
    ensures r != []
  {
    if haves == [] then out
    else
      var h := haves[|haves| - 1];
      ApplyAll(Apply(PutHaves(out, haves[..|haves| - 1], x), OpenHave(h.mask), x), HaveItems(h.mask, h.ids), x)
  }

  function PutControl(out: seq<Rpc>, c: Control, x: Sink): (r: seq<Rpc>)
    requires out != []
    ensures r != []
  {
    var o := ApplyAll(ApplyAll(Apply(out, OpenControl, x), GraftItems(c.grafts), x), PruneItems(c.prunes), x);
    PutHaves(PutWants(o, c.wants, x), c.haves, x)
  }

  function PutRpc(out: seq<Rpc>, r: Rpc, x: Sink): (r': seq<Rpc>)
    requires out != []
    ensures r' != []
  {
    var o := ApplyAll(ApplyAll(out, MessageItems(r.publish), x), SubItems(r.subs), x);
    if r.control.Some? then PutControl(o, r.control.value, x) else o
  }

  function MergeAll(out: seq<Rpc>, elems: seq<Rpc>, limit: int, size: Rpc -> nat): (r: seq<Rpc>)
    requires out != []
    ensures r != []
  {
    if elems == [] then out
    else
      var last := elems[|elems| - 1];
      PutRpc(MergeAll(out, elems[..|elems| - 1], limit, size), last, Sink(last.from, limit, size))
  }

  /** A single RPC below the limit, with nothing to merge it into, is passed on as it is. */
  predicate FastPath(slice: seq<Rpc>, elems: seq<Rpc>, limit: int, size: Rpc -> nat) {
    slice == [] && |elems| == 1 && size(elems[0]) < limit
  }

  function Merged(slice: seq<Rpc>, elems: seq<Rpc>, limit: int, size: Rpc -> nat): seq<Rpc> {
    if elems == [] then slice
    else if FastPath(slice, elems, limit, size) then elems
    else MergeAll(if slice == [] then [Blank(elems[0].from)] else slice, elems, limit, size)
  }

  // ---------------------------------------------------------------- what RPCs carry

  datatype Kind = Messages | Subscriptions | Grafts | Prunes | WantedIds | OfferedIds

  /** The kind of item an action adds; opening a header adds none. */
  function KindOf(a: Action): Option<Kind> {
    match a
    case AddMessage(_) => Some(Messages)
    case AddSub(_) => Some(Subscriptions)
    case AddGraft(_) => Some(Grafts)
    case AddPrune(_) => Some(Prunes)
    case AddWant(_) => Some(WantedIds)
    case AddHave(_, _) => Some(OfferedIds)
    case _ => None
  }

  function AllWantItems(wants: seq<IWant>): seq<Action> {
    if wants == [] then [] else AllWantItems(wants[..|wants| - 1]) + WantItems(wants[|wants| - 1].ids)
  }

  function AllHaveItems(haves: seq<IHave>): seq<Action> {
    if haves == [] then []
    else AllHaveItems(haves[..|haves| - 1]) + HaveItems(haves[|haves| - 1].mask, haves[|haves| - 1].ids)
  }

  /** The items of one kind in an RPC, in order. An IHAVE item is its bitmask together with the message id. */
  function Items(r: Rpc, k: Kind): seq<Action> {
    match k
    case Messages => MessageItems(r.publish)
    case Subscriptions => SubItems(r.subs)
    case Grafts => GraftItems(ControlOf(r).grafts)
    case Prunes => PruneItems(ControlOf(r).prunes)
    case WantedIds => AllWantItems(ControlOf(r).wants)
    case OfferedIds => AllHaveItems(ControlOf(r).haves)
  }

  function ItemsOf(k: Kind): Rpc -> seq<Action> { (r: Rpc) => Items(r, k) }

  /** What a list of RPCs carries, in order, when `f` reads it off one. */
  function Carried<T>(rpcs: seq<Rpc>, f: Rpc -> seq<T>): seq<T> {
    if rpcs == [] then [] else Carried(rpcs[..|rpcs| - 1], f) + f(rpcs[|rpcs| - 1])
  }

  // ---------------------------------------------------------------- one action adds its item

  function Own(a: Action, k: Kind): seq<Action> { if KindOf(a) == Some(k) then [a] else [] }

  predicate SilentAfterFirst(wants: seq<IWant>) {
    forall i :: 0 < i < |wants| ==> wants[i].ids == []
  }

  /** New IWANT ids go into the first IWANT entry; they come last only if the later entries are empty. */
  predicate Orderly(r: Rpc, k: Kind) {
    k == WantedIds ==> SilentAfterFirst(ControlOf(r).wants)
  }

  lemma PlainAdds(r: Rpc, a: Action, k: Kind)
    requires a.AddMessage? || a.AddSub?
    ensures Items(With(r, a), k) == Items(r, k) + Own(a, k)
  {
    if a.AddMessage? { assert MessageItems(r.publish + [a.msg]) == MessageItems(r.publish) + [a]; }
    else { assert SubItems(r.subs + [a.sub]) == SubItems(r.subs) + [a]; }
  }

  lemma ControlAdds(r: Rpc, a: Action, k: Kind)
    requires a.AddGraft? || a.AddPrune? || a.OpenControl?
    ensures Items(With(r, a), k) == Items(r, k) + Own(a, k)
  {
    var c := ControlOf(r);
    if a.AddGraft? { assert GraftItems(c.grafts + [a.graft]) == GraftItems(c.grafts) + [a]; }
    else if a.AddPrune? { assert PruneItems(c.prunes + [a.prune]) == PruneItems(c.prunes) + [a]; }
  }

  lemma WantAdds(r: Rpc, a: Action, k: Kind)
    requires (a.OpenWant? || a.AddWant?) && Orderly(r, k)
    ensures Orderly(With(r, a), k) && Items(With(r, a), k) == Items(r, k) + Own(a, k)
  {
    var wants := ControlOf(r).wants;
    if k == WantedIds {
      if a.OpenWant? { WantAppended(wants, IWant([])); } else { WantInserted(wants, a.id); }
    }
  }

  lemma HaveAdds(r: Rpc, a: Action, k: Kind)
    requires a.OpenHave? || a.AddHave?
    ensures Items(With(r, a), k) == Items(r, k) + Own(a, k)
  {
    var haves := ControlOf(r).haves;
    if k == OfferedIds {
      if a.OpenHave? { HaveAppended(haves, IHave(a.mask, [])); } else { HaveInserted(haves, a.mask, a.id); }
    }
  }

  /** An action adds its own item, and nothing else, at the end. */
  lemma WithAdds(r: Rpc, a: Action, k: Kind)
    requires Orderly(r, k)
    ensures Orderly(With(r, a), k) && Items(With(r, a), k) == Items(r, k) + Own(a, k)
  {
    if a.AddMessage? || a.AddSub? { PlainAdds(r, a, k); }
    else if a.OpenWant? || a.AddWant? { WantAdds(r, a, k); }
    else if a.OpenHave? || a.AddHave? { HaveAdds(r, a, k); }
    else { ControlAdds(r, a, k); }
  }

  lemma WantAppended(wants: seq<IWant>, w: IWant)
    ensures AllWantItems(wants + [w]) == AllWantItems(wants) + WantItems(w.ids)
  {
    assert (wants + [w])[..|wants|] == wants;
  }

  lemma HaveAppended(haves: seq<IHave>, h: IHave)
    ensures AllHaveItems(haves + [h]) == AllHaveItems(haves) + HaveItems(h.mask, h.ids)
  {
    assert (haves + [h])[..|haves|] == haves;
  }

  lemma {:induction false} SilentTail(wants: seq<IWant>)
    requires wants != [] && SilentAfterFirst(wants)
    ensures AllWantItems(wants) == WantItems(wants[0].ids)
  {
    if |wants| > 1 {
      SilentTail(wants[..|wants| - 1]);
    } else {
      assert wants[..0] == [];
    }
  }

  lemma WantInserted(wants: seq<IWant>, id: MessageId)
    requires SilentAfterFirst(wants)
    ensures AllWantItems(MoreWanted(wants, id)) == AllWantItems(wants) + [AddWant(id)]
  {
    var ids := if wants == [] then [] else wants[0].ids;
    SilentTail(MoreWanted(wants, id));
    if wants != [] { SilentTail(wants); }
    WantItemAdds(ids, id);
  }

  lemma WantItemAdds(ids: seq<MessageId>, id: MessageId)
    ensures WantItems(ids + [id]) == WantItems(ids) + [AddWant(id)]
  {
  }

  lemma HaveItemAdds(mask: Mask, ids: seq<MessageId>, id: MessageId)
    ensures HaveItems(mask, ids + [id]) == HaveItems(mask, ids) + [AddHave(mask, id)]
  {
  }

  lemma HaveInserted(haves: seq<IHave>, mask: Mask, id: MessageId)
    ensures AllHaveItems(MoreOffered(haves, mask, id)) == AllHaveItems(haves) + [AddHave(mask, id)]
  {
    if LastIs(haves, mask) {
      var init, ids := haves[..|haves| - 1], haves[|haves| - 1].ids;
      assert MoreOffered(haves, mask, id) == init + [IHave(mask, ids + [id])];
      HaveAppended(init, IHave(mask, ids + [id]));
      HaveItemAdds(mask, ids, id);
    } else {
      HaveAppended(haves, IHave(mask, [id]));
      HaveItemAdds(mask, [], id);
    }
  }

  // ---------------------------------------------------------------- conservation

  /** Where `p` holds of an RPC, an action adds exactly `g(a)` at the end of what `f` reads off it. */
  ghost predicate Additive<T>(f: Rpc -> seq<T>, g: Action -> seq<T>, p: Rpc -> bool) {
    && (forall r, a :: p(r) ==> p(With(r, a)) && f(With(r, a)) == f(r) + g(a))
    && (forall from: PeerId :: p(Blank(from)) && f(Blank(from)) == [])
    && (forall r, a :: Present(r, a) ==> g(a) == [])
  }

  /** Going from `out` to `out'` appends `items` to what is carried. */
  ghost predicate Adds<T>(out: seq<Rpc>, out': seq<Rpc>, items: seq<T>, f: Rpc -> seq<T>, p: Rpc -> bool) {
    out' != [] && p(out'[|out'| - 1]) && Carried(out', f) == Carried(out, f) + items
  }

  lemma ApplyAdds<T>(out: seq<Rpc>, a: Action, x: Sink, f: Rpc -> seq<T>, g: Action -> seq<T>, p: Rpc -> bool)
    requires Additive(f, g, p) && out != [] && p(out[|out| - 1])
    ensures Adds(out, Apply(out, a, x), g(a), f, p)
  {
    var last := out[|out| - 1];
    if Present(last, a) {
      assert Carried(out, f) + [] == Carried(out, f);
    } else if x.size(With(last, a)) <= x.limit {
      LastReplaced(out, With(last, a), g(a), f);
    } else {
      LastAdded(out, With(Blank(x.from), a), f);
      assert f(With(Blank(x.from), a)) == f(Blank(x.from)) + g(a) == g(a);
    }
  }

  lemma LastReplaced<T>(out: seq<Rpc>, r: Rpc, items: seq<T>, f: Rpc -> seq<T>)
    requires out != [] && f(r) == f(out[|out| - 1]) + items
    ensures Carried(out[|out| - 1 := r], f) == Carried(out, f) + items
  {
    assert out[|out| - 1 := r][..|out| - 1] == out[..|out| - 1];
  }

  lemma LastAdded<T>(out: seq<Rpc>, r: Rpc, f: Rpc -> seq<T>)
    ensures Carried(out + [r], f) == Carried(out, f) + f(r)
  {
    assert (out + [r])[..|out|] == out;
  }

  lemma AddsTrans<T>(a: seq<Rpc>, b: seq<Rpc>, c: seq<Rpc>, s: seq<T>, t: seq<T>, f: Rpc -> seq<T>, p: Rpc -> bool)
    requires Adds(a, b, s, f, p) && Adds(b, c, t, f, p)
    ensures Adds(a, c, s + t, f, p)
  {
  }

  /** What actions add, in order, when `g` says what one adds. */
  function Gather<T>(actions: seq<Action>, g: Action -> seq<T>): seq<T> {
    if actions == [] then [] else Gather(actions[..|actions| - 1], g) + g(actions[|actions| - 1])
  }

  lemma {:induction false} GatherConcat<T>(a: seq<Action>, b: seq<Action>, g: Action -> seq<T>)
    ensures Gather(a + b, g) == Gather(a, g) + Gather(b, g)
  {
    if b == [] {
      assert a + b == a;
    } else {
      assert (a + b)[..|a + b| - 1] == a + b[..|b| - 1];
      GatherConcat(a, b[..|b| - 1], g);
    }
  }

  lemma {:induction false} ApplyAllAdds<T>(out: seq<Rpc>, actions: seq<Action>, x: Sink, f: Rpc -> seq<T>,
                                           g: Action -> seq<T>, p: Rpc -> bool)
    requires Additive(f, g, p) && out != [] && p(out[|out| - 1])
    ensures Adds(out, ApplyAll(out, actions, x), Gather(actions, g), f, p)
  {
    if actions != [] {
      var init, last := actions[..|actions| - 1], actions[|actions| - 1];
      var o := ApplyAll(out, init, x);
      ApplyAllAdds(out, init, x, f, g, p);
      ApplyAdds(o, last, x, f, g, p);
      AddsTrans(out, o, Apply(o, last, x), Gather(init, g), g(last), f, p);
    }
  }

  /** Opening a header adds nothing. */
  ghost predicate HeadersSilent<T>(g: Action -> seq<T>) {
    forall a :: KindOf(a) == None ==> g(a) == []
  }

  lemma SectionAdds<T>(out: seq<Rpc>, header: Action, items: seq<Action>, x: Sink, f: Rpc -> seq<T>,
                       g: Action -> seq<T>, p: Rpc -> bool)
    requires Additive(f, g, p) && HeadersSilent(g) && out != [] && p(out[|out| - 1]) && KindOf(header) == None
    ensures Adds(out, ApplyAll(Apply(out, header, x), items, x), Gather(items, g), f, p)
  {
    var o := Apply(out, header, x);
    ApplyAdds(out, header, x, f, g, p);
    ApplyAllAdds(o, items, x, f, g, p);
    AddsTrans(out, o, ApplyAll(o, items, x), [], Gather(items, g), f, p);
    assert [] + Gather(items, g) == Gather(items, g);
  }

  lemma {:induction false} PutWantsAdds<T>(out: seq<Rpc>, wants: seq<IWant>, x: Sink, f: Rpc -> seq<T>,
                                           g: Action -> seq<T>, p: Rpc -> bool)
    requires Additive(f, g, p) && HeadersSilent(g) && out != [] && p(out[|out| - 1])
    ensures Adds(out, PutWants(out, wants, x), Gather(AllWantItems(wants), g), f, p)
  {
    if wants != [] {
      var init, items := wants[..|wants| - 1], WantItems(wants[|wants| - 1].ids);
      var o := PutWants(out, init, x);
      PutWantsAdds(out, init, x, f, g, p);
      SectionAdds(o, OpenWant, items, x, f, g, p);
      AddsTrans(out, o, PutWants(out, wants, x), Gather(AllWantItems(init), g), Gather(items, g), f, p);
      GatherConcat(AllWantItems(init), items, g);
    }
  }

  lemma {:induction false} PutHavesAdds<T>(out: seq<Rpc>, haves: seq<IHave>, x: Sink, f: Rpc -> seq<T>,
                                           g: Action -> seq<T>, p: Rpc -> bool)
    requires Additive(f, g, p) && HeadersSilent(g) && out != [] && p(out[|out| - 1])
    ensures Adds(out, PutHaves(out, haves, x), Gather(AllHaveItems(haves), g), f, p)
  {
    if haves != [] {
      var init, h := haves[..|haves| - 1], haves[|haves| - 1];
      var items := HaveItems(h.mask, h.ids);
      var o := PutHaves(out, init, x);
      PutHavesAdds(out, init, x, f, g, p);
      SectionAdds(o, OpenHave(h.mask), items, x, f, g, p);
      AddsTrans(out, o, PutHaves(out, haves, x), Gather(AllHaveItems(init), g), Gather(items, g), f, p);
      GatherConcat(AllHaveItems(init), items, g);
    }
  }

  function ControlTotal<T>(c: Control, g: Action -> seq<T>): seq<T> {
    Gather(GraftItems(c.grafts), g) + Gather(PruneItems(c.prunes), g) +
    Gather(AllWantItems(c.wants), g) + Gather(AllHaveItems(c.haves), g)
  }

  lemma PutControlAdds<T>(out: seq<Rpc>, c: Control, x: Sink, f: Rpc -> seq<T>, g: Action -> seq<T>, p: Rpc -> bool)
    requires Additive(f, g, p) && HeadersSilent(g) && out != [] && p(out[|out| - 1])
    ensures Adds(out, PutControl(out, c, x), ControlTotal(c, g), f, p)
  {
    var gs, ps := GraftItems(c.grafts), PruneItems(c.prunes);
    var o1 := ApplyAll(Apply(out, OpenControl, x), gs, x);
    SectionAdds(out, OpenControl, gs, x, f, g, p);
    var o2 := ApplyAll(o1, ps, x);
    ApplyAllAdds(o1, ps, x, f, g, p);
    AddsTrans(out, o1, o2, Gather(gs, g), Gather(ps, g), f, p);
    var o3 := PutWants(o2, c.wants, x);
    PutWantsAdds(o2, c.wants, x, f, g, p);
    AddsTrans(out, o2, o3, Gather(gs, g) + Gather(ps, g), Gather(AllWantItems(c.wants), g), f, p);
    PutHavesAdds(o3, c.haves, x, f, g, p);
    AddsTrans(out, o3, PutHaves(o3, c.haves, x), Gather(gs, g) + Gather(ps, g) + Gather(AllWantItems(c.wants), g),
              Gather(AllHaveItems(c.haves), g), f, p);
  }

  function Total<T>(r: Rpc, g: Action -> seq<T>): seq<T> {
    Gather(MessageItems(r.publish), g) + Gather(SubItems(r.subs), g) +
    if r.control.Some? then ControlTotal(r.control.value, g) else []
  }

  lemma PutRpcAdds<T>(out: seq<Rpc>, r: Rpc, x: Sink, f: Rpc -> seq<T>, g: Action -> seq<T>, p: Rpc -> bool)
    requires Additive(f, g, p) && HeadersSilent(g) && out != [] && p(out[|out| - 1])
    ensures Adds(out, PutRpc(out, r, x), Total(r, g), f, p)
  {
    var ms, ss := MessageItems(r.publish), SubItems(r.subs);
    var o1 := ApplyAll(out, ms, x);
    ApplyAllAdds(out, ms, x, f, g, p);
    var o2 := ApplyAll(o1, ss, x);
    ApplyAllAdds(o1, ss, x, f, g, p);
    AddsTrans(out, o1, o2, Gather(ms, g), Gather(ss, g), f, p);
    if r.control.Some? {
      PutControlAdds(o2, r.control.value, x, f, g, p);
      AddsTrans(out, o2, PutControl(o2, r.control.value, x), Gather(ms, g) + Gather(ss, g),
                ControlTotal(r.control.value, g), f, p);
    }
  }

  function AllTotals<T>(elems: seq<Rpc>, g: Action -> seq<T>): seq<T> {
    if elems == [] then [] else AllTotals(elems[..|elems| - 1], g) + Total(elems[|elems| - 1], g)
  }

  lemma {:induction false} MergeAllAdds<T>(out: seq<Rpc>, elems: seq<Rpc>, limit: int, size: Rpc -> nat,
                                           f: Rpc -> seq<T>, g: Action -> seq<T>, p: Rpc -> bool)
    requires Additive(f, g, p) && HeadersSilent(g) && out != [] && p(out[|out| - 1])
    ensures Adds(out, MergeAll(out, elems, limit, size), AllTotals(elems, g), f, p)
  {
    if elems != [] {
      var init, last := elems[..|elems| - 1], elems[|elems| - 1];
      var o, x := MergeAll(out, init, limit, size), Sink(last.from, limit, size);
      MergeAllAdds(out, init, limit, size, f, g, p);
      PutRpcAdds(o, last, x, f, g, p);
      AddsTrans(out, o, PutRpc(o, last, x), AllTotals(init, g), Total(last, g), f, p);
    }
  }

  /** Outside the fast path, merging appends to what `slice` carries all that the actions of `elems` add. */
  lemma MergedAdds<T>(slice: seq<Rpc>, elems: seq<Rpc>, limit: int, size: Rpc -> nat, f: Rpc -> seq<T>,
                      g: Action -> seq<T>, p: Rpc -> bool)
    requires Additive(f, g, p) && HeadersSilent(g) && (slice != [] ==> p(slice[|slice| - 1]))
    requires !FastPath(slice, elems, limit, size)
    ensures Carried(Merged(slice, elems, limit, size), f) == Carried(slice, f) + AllTotals(elems, g)
  {
    if elems != [] {
      var start := if slice == [] then [Blank(elems[0].from)] else slice;
      MergeAllAdds(start, elems, limit, size, f, g, p);
      if slice == [] { assert start[..0] == [] && Carried(start, f) == Carried([], f) + []; }
    }
  }

  lemma {:induction false} TotalsAreCarried<T>(elems: seq<Rpc>, f: Rpc -> seq<T>, g: Action -> seq<T>)
    requires forall r: Rpc :: Total(r, g) == f(r)
    ensures AllTotals(elems, g) == Carried(elems, f)
  {
    if elems != [] { TotalsAreCarried(elems[..|elems| - 1], f, g); }
  }

  // ---------------------------------------------------------------- kind by kind

  function OwnOf(k: Kind): Action -> seq<Action> { (a: Action) => Own(a, k) }
  function OrderlyFor(k: Kind): Rpc -> bool { (r: Rpc) => Orderly(r, k) }

  lemma {:induction false} GatherSome(a: seq<Action>, g: Action -> seq<Action>, kept: bool)
    requires forall i :: 0 <= i < |a| ==> g(a[i]) == if kept then [a[i]] else []
    ensures Gather(a, g) == if kept then a else []
  {
    if a != [] {
      GatherSome(a[..|a| - 1], g, kept);
      InitLast(a);
    }
  }

  lemma InitLast(a: seq<Action>)
    requires a != []
    ensures a[..|a| - 1] + [a[|a| - 1]] == a
  {
  }

  lemma {:induction false} WantKinds(wants: seq<IWant>)
    ensures forall i :: 0 <= i < |AllWantItems(wants)| ==> AllWantItems(wants)[i].AddWant?
  {
    if wants != [] { WantKinds(wants[..|wants| - 1]); }
  }

  lemma {:induction false} HaveKinds(haves: seq<IHave>)
    ensures forall i :: 0 <= i < |AllHaveItems(haves)| ==> AllHaveItems(haves)[i].AddHave?
  {
    if haves != [] { HaveKinds(haves[..|haves| - 1]); }
  }

  lemma GraftKinds(c: Control, k: Kind)
    ensures Gather(GraftItems(c.grafts), OwnOf(k)) == if k == Grafts then GraftItems(c.grafts) else []
    ensures Gather(PruneItems(c.prunes), OwnOf(k)) == if k == Prunes then PruneItems(c.prunes) else []
  {
    GatherAlike(GraftItems(c.grafts), Grafts, k);
    GatherAlike(PruneItems(c.prunes), Prunes, k);
  }

  lemma WantsOfKind(wants: seq<IWant>, k: Kind)
    ensures Gather(AllWantItems(wants), OwnOf(k)) == if k == WantedIds then AllWantItems(wants) else []
  {
    WantKinds(wants);
    GatherAlike(AllWantItems(wants), WantedIds, k);
  }

  lemma HavesOfKind(haves: seq<IHave>, k: Kind)
    ensures Gather(AllHaveItems(haves), OwnOf(k)) == if k == OfferedIds then AllHaveItems(haves) else []
  {
    HaveKinds(haves);
    GatherAlike(AllHaveItems(haves), OfferedIds, k);
  }

  lemma GatherAlike(a: seq<Action>, j: Kind, k: Kind)
    requires forall i :: 0 <= i < |a| ==> KindOf(a[i]) == Some(j)
    ensures Gather(a, OwnOf(k)) == if k == j then a else []
  {
    GatherSome(a, OwnOf(k), k == j);
  }

  lemma PlainKinds(r: Rpc, k: Kind)
    ensures Gather(MessageItems(r.publish), OwnOf(k)) == if k == Messages then MessageItems(r.publish) else []
    ensures Gather(SubItems(r.subs), OwnOf(k)) == if k == Subscriptions then SubItems(r.subs) else []
  {
    GatherAlike(MessageItems(r.publish), Messages, k);
    GatherAlike(SubItems(r.subs), Subscriptions, k);
  }

  lemma OneOfFour(a: seq<Action>, b: seq<Action>, c: seq<Action>, d: seq<Action>)
    ensures b == [] && c == [] && d == [] ==> a + b + c + d == a
    ensures a == [] && c == [] && d == [] ==> a + b + c + d == b
    ensures a == [] && b == [] && d == [] ==> a + b + c + d == c
    ensures a == [] && b == [] && c == [] ==> a + b + c + d == d
  {
  }

  lemma ControlTotalIs(c: Control, k: Kind)
    ensures ControlTotal(c, OwnOf(k)) ==
      match k
      case Grafts => GraftItems(c.grafts)
      case Prunes => PruneItems(c.prunes)
      case WantedIds => AllWantItems(c.wants)
      case OfferedIds => AllHaveItems(c.haves)
      case _ => []
  {
    GraftKinds(c, k);
    WantsOfKind(c.wants, k);
    HavesOfKind(c.haves, k);
    var g := OwnOf(k);
    OneOfFour(Gather(GraftItems(c.grafts), g), Gather(PruneItems(c.prunes), g), Gather(AllWantItems(c.wants), g),
              Gather(AllHaveItems(c.haves), g));
  }

  /** The actions an RPC is taken apart into add, kind by kind, exactly its items. */
  lemma TotalIsItems(r: Rpc, k: Kind)
    ensures Total(r, OwnOf(k)) == Items(r, k)
  {
    PlainKinds(r, k);
    if r.control.Some? { ControlTotalIs(r.control.value, k); }
  }

  lemma KindIsAdditive(k: Kind)
    ensures Additive(ItemsOf(k), OwnOf(k), OrderlyFor(k)) && HeadersSilent(OwnOf(k))
  {
    forall r, a | Orderly(r, k)
      ensures Orderly(With(r, a), k) && Items(With(r, a), k) == Items(r, k) + Own(a, k)
    {
      WithAdds(r, a, k);
    }
  }

  /** Merging conserves, in order, all items of every kind. For IWANT ids the last RPC merged into must hold
      its ids in its first IWANT entry. */
  lemma MergedCarries(slice: seq<Rpc>, elems: seq<Rpc>, limit: int, size: Rpc -> nat, k: Kind)
    requires slice != [] ==> Orderly(slice[|slice| - 1], k)
    ensures Carried(Merged(slice, elems, limit, size), ItemsOf(k)) ==
      Carried(slice, ItemsOf(k)) + Carried(elems, ItemsOf(k))
  {
    if !FastPath(slice, elems, limit, size) {
      var f, g := ItemsOf(k), OwnOf(k);
      KindIsAdditive(k);
      MergedAdds(slice, elems, limit, size, f, g, OrderlyFor(k));
      forall r: Rpc ensures Total(r, g) == f(r) { TotalIsItems(r, k); }
      TotalsAreCarried(elems, f, g);
    }
  }

  // ---------------------------------------------------------------- IDONTWANT

  function DontWants(): Rpc -> seq<IDontWant> { (r: Rpc) => ControlOf(r).dontWants }
  function Nothing(): Action -> seq<IDontWant> { (a: Action) => [] }
  function Always(): Rpc -> bool { (r: Rpc) => true }

  lemma {:induction false} GatherNothing(a: seq<Action>)
    ensures Gather(a, Nothing()) == []
  {
    if a != [] { GatherNothing(a[..|a| - 1]); }
  }

  lemma {:induction false} NothingAdded(elems: seq<Rpc>)
    ensures AllTotals(elems, Nothing()) == []
  {
    if elems != [] {
      NothingAdded(elems[..|elems| - 1]);
      var r := elems[|elems| - 1];
      var c := ControlOf(r);
      GatherNothing(MessageItems(r.publish));
      GatherNothing(SubItems(r.subs));
      GatherNothing(GraftItems(c.grafts));
      GatherNothing(PruneItems(c.prunes));
      GatherNothing(AllWantItems(c.wants));
      GatherNothing(AllHaveItems(c.haves));
    }
  }

  /** IDONTWANTs are not merged: they survive exactly on the fast path, or when there are none. */
  lemma DontWantsSurviveIff(slice: seq<Rpc>, elems: seq<Rpc>, limit: int, size: Rpc -> nat)
    ensures (Carried(Merged(slice, elems, limit, size), DontWants()) ==
             Carried(slice, DontWants()) + Carried(elems, DontWants()))
            <==> FastPath(slice, elems, limit, size) || Carried(elems, DontWants()) == []
  {
    if !FastPath(slice, elems, limit, size) {
      MergedAdds(slice, elems, limit, size, DontWants(), Nothing(), Always());
      NothingAdded(elems);
    }
  }

  /** So an RPC that has to be split because it is not below the limit loses all of its IDONTWANTs, however RPCs
      are measured. */
  lemma DontWantsLost(r: Rpc, limit: int, size: Rpc -> nat)
    requires limit <= size(r)
    ensures Carried(Merged([], [r], limit, size), DontWants()) == []
    ensures ControlOf(r).dontWants != [] ==> Carried([r], DontWants()) != []
  {
    MergedAdds([], [r], limit, size, DontWants(), Nothing(), Always());
    NothingAdded([r]);
    assert [r][..0] == [];
  }

  // ---------------------------------------------------------------- IWANT ids

  function Copy(id: MessageId): Action -> seq<Action> { (a: Action) => if a == AddWant(id) then [a] else [] }

  /** The copies of one id among the IWANT ids of an RPC. */
  function CopiesOf(id: MessageId): Rpc -> seq<Action> { (r: Rpc) => Copies(ControlOf(r).wants, id) }

  predicate AllAre(s: seq<Action>, a: Action) {
    forall i :: 0 <= i < |s| ==> s[i] == a
  }

  lemma {:induction false} CopiesAlike(actions: seq<Action>, id: MessageId)
    ensures AllAre(Gather(actions, Copy(id)), AddWant(id))
  {
    if actions != [] { CopiesAlike(actions[..|actions| - 1], id); }
  }

  lemma CopyOne(ids: seq<MessageId>, more: MessageId, id: MessageId)
    ensures Gather(WantItems(ids + [more]), Copy(id)) == Gather(WantItems(ids), Copy(id)) + Copy(id)(AddWant(more))
  {
    WantItemAdds(ids, more);
    var w := WantItems(ids);
    assert (w + [AddWant(more)])[..|w|] == w;
  }

  function Copies(wants: seq<IWant>, id: MessageId): seq<Action> { Gather(AllWantItems(wants), Copy(id)) }

  lemma WantsSplit(all: seq<IWant>, wants: seq<IWant>, w: IWant, id: MessageId)
    requires all == wants + [w]
    ensures Copies(all, id) == Copies(wants, id) + Gather(WantItems(w.ids), Copy(id))
  {
    WantAppended(wants, w);
    GatherConcat(AllWantItems(wants), WantItems(w.ids), Copy(id));
  }

  lemma Commute(s: seq<Action>, t: seq<Action>, u: seq<Action>, a: Action)
    requires AllAre(s, a) && AllAre(t, a) && AllAre(u, a)
    ensures s + t + u == s + u + t
  {
  }

  lemma CopiesInOne(w: IWant, id: MessageId)
    ensures Copies([w], id) == Gather(WantItems(w.ids), Copy(id))
  {
    WantsSplit([w], [], w, id);
  }

  lemma CopyInFirst(wants: seq<IWant>, more: MessageId, id: MessageId)
    requires |wants| <= 1
    ensures Copies(MoreWanted(wants, more), id) == Copies(wants, id) + Copy(id)(AddWant(more))
  {
    var ids := if wants == [] then [] else wants[0].ids;
    assert wants == [] ==> ids + [more] == [more];
    assert MoreWanted(wants, more) == [IWant(ids + [more])];
    CopiesInOne(IWant(ids + [more]), id);
    CopyOne(ids, more, id);
    if wants != [] {
      assert wants == [wants[0]];
      CopiesInOne(wants[0], id);
    }
  }

  lemma {:induction false} CopyInserted(wants: seq<IWant>, more: MessageId, id: MessageId)
    ensures Copies(MoreWanted(wants, more), id) == Copies(wants, id) + Copy(id)(AddWant(more))
  {
    if |wants| <= 1 {
      CopyInFirst(wants, more, id);
    } else {
      var init, last := wants[..|wants| - 1], wants[|wants| - 1];
      CopyInserted(init, more, id);
      assert wants == init + [last] && MoreWanted(wants, more) == MoreWanted(init, more) + [last];
      CopyPutBefore(wants, init, last, MoreWanted(wants, more), MoreWanted(init, more), Copy(id)(AddWant(more)), id);
    }
  }

  /** A copy put into the front entries comes to the same as one put at the end. */
  lemma CopyPutBefore(all: seq<IWant>, init: seq<IWant>, last: IWant, all': seq<IWant>, init': seq<IWant>,
                      more: seq<Action>, id: MessageId)
    requires all == init + [last] && all' == init' + [last]
    requires Copies(init', id) == Copies(init, id) + more && AllAre(more, AddWant(id))
    ensures Copies(all', id) == Copies(all, id) + more
  {
    WantsSplit(all, init, last, id);
    WantsSplit(all', init', last, id);
    CopiesAlike(AllWantItems(init), id);
    CopiesAlike(WantItems(last.ids), id);
    Commute(Copies(init, id), more, Gather(WantItems(last.ids), Copy(id)), AddWant(id));
  }

  lemma WantsAfter(r: Rpc, a: Action)
    ensures ControlOf(With(r, a)).wants ==
            if a.OpenWant? then ControlOf(r).wants + [IWant([])]
            else if a.AddWant? then MoreWanted(ControlOf(r).wants, a.id)
            else ControlOf(r).wants
  {
  }

  lemma CopiesAdd(r: Rpc, a: Action, id: MessageId)
    ensures Copies(ControlOf(With(r, a)).wants, id) == Copies(ControlOf(r).wants, id) + Copy(id)(a)
  {
    WantsAfter(r, a);
    var wants := ControlOf(r).wants;
    if a.OpenWant? {
      WantsSplit(wants + [IWant([])], wants, IWant([]), id);
    } else if a.AddWant? {
      CopyInserted(wants, a.id, id);
    }
  }

  lemma {:induction false} CopyElsewhere(a: seq<Action>, id: MessageId)
    requires forall i :: 0 <= i < |a| ==> !a[i].AddWant?
    ensures Gather(a, Copy(id)) == []
  {
    if a != [] { CopyElsewhere(a[..|a| - 1], id); }
  }

  lemma TotalIsCopies(r: Rpc, id: MessageId)
    ensures Total(r, Copy(id)) == Copies(ControlOf(r).wants, id)
  {
    CopyElsewhere(MessageItems(r.publish), id);
    CopyElsewhere(SubItems(r.subs), id);
    if r.control.Some? { ControlTotalIsCopies(r.control.value, id); }
  }

  lemma ControlTotalIsCopies(c: Control, id: MessageId)
    ensures ControlTotal(c, Copy(id)) == Copies(c.wants, id)
  {
    CopyElsewhere(GraftItems(c.grafts), id);
    CopyElsewhere(PruneItems(c.prunes), id);
    HaveKinds(c.haves);
    CopyElsewhere(AllHaveItems(c.haves), id);
  }

  /** Whatever the last RPC looks like, every IWANT id occurs in the result as often as it was put in. */
  lemma WantedIdsKept(slice: seq<Rpc>, elems: seq<Rpc>, limit: int, size: Rpc -> nat, id: MessageId)
    ensures Carried(Merged(slice, elems, limit, size), CopiesOf(id)) ==
      Carried(slice, CopiesOf(id)) + Carried(elems, CopiesOf(id))
  {
    if !FastPath(slice, elems, limit, size) {
      var f, g := CopiesOf(id), Copy(id);
      CopiesAreAdditive(id);
      MergedAdds(slice, elems, limit, size, f, g, Always());
      forall r: Rpc ensures Total(r, g) == f(r) { TotalIsCopies(r, id); }
      TotalsAreCarried(elems, f, g);
    }
  }

  lemma CopiesAreAdditive(id: MessageId)
    ensures Additive(CopiesOf(id), Copy(id), Always())
  {
    var f, g := CopiesOf(id), Copy(id);
    forall r: Rpc, a ensures f(With(r, a)) == f(r) + g(a) { CopiesAdd(r, a, id); }
  }

  /** Whether the IWANT ids come out in the order they were put in. */
  ghost predicate IdsInOrder(slice: seq<Rpc>, elems: seq<Rpc>, limit: int, size: Rpc -> nat) {
    var f := ItemsOf(WantedIds);
    Carried(Merged(slice, elems, limit, size), f) == Carried(slice, f) + Carried(elems, f)
  }

  /** The ids of the first entry come first. */
  lemma {:induction false} FirstEntryFirst(wants: seq<IWant>) returns (rest: seq<Action>)
    requires wants != []
    ensures AllWantItems(wants) == WantItems(wants[0].ids) + rest
    ensures rest == [] ==> SilentAfterFirst(wants)
  {
    var init, last := wants[..|wants| - 1], wants[|wants| - 1];
    if |wants| > 1 {
      rest := FirstEntryFirst(init);
      AssociateItems(WantItems(wants[0].ids), rest, WantItems(last.ids));
      rest := rest + WantItems(last.ids);
    } else {
      assert init == [];
      rest := [];
    }
  }

  lemma AssociateItems(a: seq<Action>, b: seq<Action>, c: seq<Action>)
    ensures a + b + c == a + (b + c)
  {
  }

  /** The RPC asking for just one id. */
  function Asking(id: MessageId, from: PeerId): Rpc { Rpc([], [], Some(NoControl.(wants := [IWant([id])])), from) }

  lemma ApplyOne(out: seq<Rpc>, a: Action, x: Sink)
    requires out != []
    ensures ApplyAll(out, [a], x) == Apply(out, a, x)
  {
    assert [a][..0] == [];
  }

  lemma PutOneWant(out: seq<Rpc>, w: IWant, x: Sink)
    requires out != []
    ensures PutWants(out, [w], x) == ApplyAll(Apply(out, OpenWant, x), WantItems(w.ids), x)
  {
    assert [w][..0] == [];
  }

  lemma MergeOne(out: seq<Rpc>, r: Rpc, limit: int, size: Rpc -> nat)
    requires out != []
    ensures MergeAll(out, [r], limit, size) == PutRpc(out, r, Sink(r.from, limit, size))
  {
    assert [r][..0] == [];
  }

  lemma AskingMerged(slice: seq<Rpc>, id: MessageId, from: PeerId, limit: int, size: Rpc -> nat)
    requires slice != [] && ControlOf(slice[|slice| - 1]).wants != []
    requires size(With(slice[|slice| - 1], AddWant(id))) <= limit
    ensures Merged(slice, [Asking(id, from)], limit, size) ==
      slice[|slice| - 1 := With(slice[|slice| - 1], AddWant(id))]
  {
    var x := Sink(from, limit, size);
    MergeOne(slice, Asking(id, from), limit, size);
    PutAsking(slice, id, from, x);
    ApplyOne(slice, AddWant(id), x);
  }

  lemma PutAsking(out: seq<Rpc>, id: MessageId, from: PeerId, x: Sink)
    requires out != [] && ControlOf(out[|out| - 1]).wants != []
    ensures PutRpc(out, Asking(id, from), x) == ApplyAll(out, [AddWant(id)], x)
  {
    assert Present(out[|out| - 1], OpenControl) && Present(out[|out| - 1], OpenWant);
    assert MessageItems([]) == [] && SubItems([]) == [] && GraftItems([]) == [] && PruneItems([]) == [];
    PutOneWant(out, IWant([id]), x);
    assert WantItems([id]) == [AddWant(id)];
  }

  /** Replacing the last RPC by one that carries something else at position `m`. */
  lemma LastDiffers(slice: seq<Rpc>, r: Rpc, m: nat, f: Rpc -> seq<Action>)
    requires slice != [] && m < |f(r)| && m < |f(slice[|slice| - 1])| && f(r)[m] != f(slice[|slice| - 1])[m]
    ensures forall more :: Carried(slice[|slice| - 1 := r], f) != Carried(slice, f) + more
  {
    var merged, n := slice[|slice| - 1 := r], |Carried(slice[..|slice| - 1], f)|;
    assert merged[..|slice| - 1] == slice[..|slice| - 1];
    forall more ensures Carried(merged, f) != Carried(slice, f) + more {
      assert Carried(merged, f)[n + m] == f(r)[m] && (Carried(slice, f) + more)[n + m] == f(slice[|slice| - 1])[m];
    }
  }

  /** Some id would jump the queue: it goes into the first IWANT entry, before a different id already there. */
  lemma JumpsQueue(wants: seq<IWant>) returns (id: MessageId, m: nat)
    requires !SilentAfterFirst(wants)
    ensures var more := MoreWanted(wants, id);
      m < |AllWantItems(wants)| && m < |AllWantItems(more)| && AllWantItems(more)[m] != AllWantItems(wants)[m]
  {
    m := |wants[0].ids|;
    var rest := FirstEntryFirst(wants);
    var z := AllWantItems(wants)[m];
    id := MessageId(if z.AddWant? then z.id.id + 1 else 0);
    var more := MoreWanted(wants, id);
    var rest' := FirstEntryFirst(more);
    assert more[0].ids == wants[0].ids + [id];
    assert WantItems(more[0].ids)[m] == AddWant(id);
  }

  /** However RPCs are measured, with a limit that leaves room for it an id put into the first of several non-empty
      IWANT entries comes out before the later ones. */
  lemma OutOfOrder(slice: seq<Rpc>, size: Rpc -> nat)
    requires slice != [] && !SilentAfterFirst(ControlOf(slice[|slice| - 1]).wants)
    ensures exists elems, limit :: !IdsInOrder(slice, elems, limit, size)
  {
    var last, f := slice[|slice| - 1], ItemsOf(WantedIds);
    var id, m := JumpsQueue(ControlOf(last).wants);
    var limit := size(With(last, AddWant(id)));
    AskingMerged(slice, id, PeerId(0), limit, size);
    LastDiffers(slice, With(last, AddWant(id)), m, f);
    assert !IdsInOrder(slice, [Asking(id, PeerId(0))], limit, size);
  }

  /** However RPCs are measured, IWANT ids keep their order in every merge into `slice` exactly when its last RPC has
      no ids beyond its first IWANT entry. */
  lemma IdsInOrderIff(slice: seq<Rpc>, size: Rpc -> nat)
    ensures (forall elems, limit :: IdsInOrder(slice, elems, limit, size)) <==>
            slice == [] || SilentAfterFirst(ControlOf(slice[|slice| - 1]).wants)
  {
    if slice == [] || SilentAfterFirst(ControlOf(slice[|slice| - 1]).wants) {
      forall elems, limit ensures IdsInOrder(slice, elems, limit, size) {
        MergedCarries(slice, elems, limit, size, WantedIds);
      }
    } else {
      OutOfOrder(slice, size);
    }
  }

  // ---------------------------------------------------------------- the size limit

  function Weight(r: Rpc): nat {
    var c := ControlOf(r);
    |r.publish| + |r.subs| + |c.grafts| + |c.prunes| + |AllWantItems(c.wants)| + |AllHaveItems(c.haves)| + |c.dontWants|
  }

  /** At most one item, under at most one header of a kind: nothing to split. */
  predicate Unsplittable(r: Rpc) {
    Weight(r) <= 1 && |ControlOf(r).wants| <= 1 && |ControlOf(r).haves| <= 1
  }

  predicate FitsAt(out: seq<Rpc>, base: seq<Rpc>, x: Sink, i: nat)
    requires i < |out|
  {
    x.size(out[i]) <= x.limit || Unsplittable(out[i]) || (i < |base| && out[i] == base[i])
  }

  /** Every RPC fits, cannot be split, or was there before; and all but the last that were there are untouched. */
  ghost predicate Fits(out: seq<Rpc>, base: seq<Rpc>, x: Sink) {
    && 0 < |base| <= |out|
    && (forall i :: 0 <= i < |out| ==> FitsAt(out, base, x, i))
    && (forall i :: 0 <= i < |base| - 1 ==> out[i] == base[i])
  }

  lemma FreshWants(a: Action, from: PeerId)
    ensures |ControlOf(With(Blank(from), a)).wants| <= 1
    ensures |AllWantItems(ControlOf(With(Blank(from), a)).wants)| == if a.AddWant? then 1 else 0
  {
    WantsAfter(Blank(from), a);
    if a.OpenWant? {
      WantAppended([], IWant([]));
    } else if a.AddWant? {
      WantAppended([], IWant([a.id]));
    }
  }

  lemma FreshHaves(a: Action, from: PeerId)
    ensures |ControlOf(With(Blank(from), a)).haves| <= 1
    ensures |AllHaveItems(ControlOf(With(Blank(from), a)).haves)| == if a.AddHave? then 1 else 0
  {
    if a.OpenHave? {
      HaveAppended([], IHave(a.mask, []));
    } else if a.AddHave? {
      HaveAppended([], IHave(a.mask, [a.id]));
    }
  }

  lemma FreshIsUnsplittable(a: Action, from: PeerId)
    ensures Unsplittable(With(Blank(from), a))
  {
    FreshWants(a, from);
    FreshHaves(a, from);
  }

  lemma ApplyFits(out: seq<Rpc>, a: Action, base: seq<Rpc>, x: Sink)
    requires Fits(out, base, x)
    ensures Fits(Apply(out, a, x), base, x)
  {
    FreshIsUnsplittable(a, x.from);
    var out' := Apply(out, a, x);
    forall i | 0 <= i < |out'| ensures FitsAt(out', base, x, i) {
      if i < |out| { assert FitsAt(out, base, x, i); }
    }
  }

  lemma {:induction false} ApplyAllFits(out: seq<Rpc>, actions: seq<Action>, base: seq<Rpc>, x: Sink)
    requires Fits(out, base, x)
    ensures Fits(ApplyAll(out, actions, x), base, x)
  {
    if actions != [] {
      ApplyAllFits(out, actions[..|actions| - 1], base, x);
      ApplyFits(ApplyAll(out, actions[..|actions| - 1], x), actions[|actions| - 1], base, x);
    }
  }

  lemma {:induction false} PutWantsFits(out: seq<Rpc>, wants: seq<IWant>, base: seq<Rpc>, x: Sink)
    requires Fits(out, base, x)
    ensures Fits(PutWants(out, wants, x), base, x)
  {
    if wants != [] {
      var init := wants[..|wants| - 1];
      PutWantsFits(out, init, base, x);
      ApplyFits(PutWants(out, init, x), OpenWant, base, x);
      ApplyAllFits(Apply(PutWants(out, init, x), OpenWant, x), WantItems(wants[|wants| - 1].ids), base, x);
    }
  }

  lemma {:induction false} PutHavesFits(out: seq<Rpc>, haves: seq<IHave>, base: seq<Rpc>, x: Sink)
    requires Fits(out, base, x)
    ensures Fits(PutHaves(out, haves, x), base, x)
  {
    if haves != [] {
      var init, h := haves[..|haves| - 1], haves[|haves| - 1];
      PutHavesFits(out, init, base, x);
      ApplyFits(PutHaves(out, init, x), OpenHave(h.mask), base, x);
      ApplyAllFits(Apply(PutHaves(out, init, x), OpenHave(h.mask), x), HaveItems(h.mask, h.ids), base, x);
    }
  }

  lemma PutControlFits(out: seq<Rpc>, c: Control, base: seq<Rpc>, x: Sink)
    requires Fits(out, base, x)
    ensures Fits(PutControl(out, c, x), base, x)
  {
    ApplyFits(out, OpenControl, base, x);
    var o := Apply(out, OpenControl, x);
    ApplyAllFits(o, GraftItems(c.grafts), base, x);
    o := ApplyAll(o, GraftItems(c.grafts), x);
    ApplyAllFits(o, PruneItems(c.prunes), base, x);
    o := ApplyAll(o, PruneItems(c.prunes), x);
    PutWantsFits(o, c.wants, base, x);
    PutHavesFits(PutWants(o, c.wants, x), c.haves, base, x);
  }

  lemma PutRpcFits(out: seq<Rpc>, r: Rpc, base: seq<Rpc>, x: Sink)
    requires Fits(out, base, x)
    ensures Fits(PutRpc(out, r, x), base, x)
  {
    ApplyAllFits(out, MessageItems(r.publish), base, x);
    var o := ApplyAll(out, MessageItems(r.publish), x);
    ApplyAllFits(o, SubItems(r.subs), base, x);
    if r.control.Some? { PutControlFits(ApplyAll(o, SubItems(r.subs), x), r.control.value, base, x); }
  }

  lemma {:induction false} MergeAllFits(elems: seq<Rpc>, base: seq<Rpc>, x: Sink)
    requires base != []
    ensures Fits(MergeAll(base, elems, x.limit, x.size), base, x)
  {
    if elems == [] {
      forall i | 0 <= i < |base| ensures FitsAt(base, base, x, i) { }
    } else {
      var init, last := elems[..|elems| - 1], elems[|elems| - 1];
      var o := MergeAll(base, init, x.limit, x.size);
      MergeAllFits(init, base, x);
      OtherSender(o, base, x, last.from);
      PutRpcFits(o, last, base, x.(from := last.from));
      OtherSender(PutRpc(o, last, x.(from := last.from)), base, x.(from := last.from), x.from);
    }
  }

  lemma OtherSender(out: seq<Rpc>, base: seq<Rpc>, x: Sink, from: PeerId)
    requires Fits(out, base, x)
    ensures Fits(out, base, x.(from := from))
  {
    forall i | 0 <= i < |out| ensures FitsAt(out, base, x.(from := from), i) { assert FitsAt(out, base, x, i); }
  }

  /** Every RPC of the result fits the limit, or cannot be split, or was given and is unchanged. */
  lemma MergedFits(slice: seq<Rpc>, elems: seq<Rpc>, limit: int, size: Rpc -> nat, i: nat)
    requires i < |Merged(slice, elems, limit, size)|
    ensures var r := Merged(slice, elems, limit, size)[i];
      size(r) <= limit || Unsplittable(r) || (i < |slice| && r == slice[i])
    ensures |slice| <= |Merged(slice, elems, limit, size)|
    ensures (i < |slice| - 1 ==> Merged(slice, elems, limit, size)[i] == slice[i])
  {
    if elems != [] && !FastPath(slice, elems, limit, size) {
      var start, x := if slice == [] then [Blank(elems[0].from)] else slice, Sink(elems[0].from, limit, size);
      MergeAllFits(elems, start, x);
      assert FitsAt(Merged(slice, elems, limit, size), start, x, i);
    }
  }

  // ---------------------------------------------------------------- the loops

  /** A new RPC with just the item of the action. */
  function Alone(a: Action, from: PeerId): Rpc {
    match a
    case AddMessage(m) => Rpc([m], [], None, from)
    case AddSub(s) => Rpc([], [s], None, from)
    case OpenControl => Rpc([], [], Some(NoControl), from)
    case AddGraft(g) => Rpc([], [], Some(NoControl.(grafts := [g])), from)
    case AddPrune(p) => Rpc([], [], Some(NoControl.(prunes := [p])), from)
    case OpenWant => Rpc([], [], Some(NoControl.(wants := [IWant([])])), from)
    case AddWant(id) => Rpc([], [], Some(NoControl.(wants := [IWant([id])])), from)
    case OpenHave(mask) => Rpc([], [], Some(NoControl.(haves := [IHave(mask, [])])), from)
    case AddHave(mask, id) => Rpc([], [], Some(NoControl.(haves := [IHave(mask, [id])])), from)
  }

  lemma WithBlank(a: Action, from: PeerId)
    ensures With(Blank(from), a) == Alone(a, from)
  {
    match a
    case AddMessage(m) => assert [] + [m] == [m];
    case AddSub(s) => assert [] + [s] == [s];
    case AddGraft(g) => assert [] + [g] == [g];
    case AddPrune(p) => assert [] + [p] == [p];
    case OpenWant => assert [] + [IWant([])] == [IWant([])];
    case OpenHave(mask) => assert [] + [IHave(mask, [])] == [IHave(mask, [])];
    case AddHave(mask, id) => assert [] + [IHave(mask, [id])] == [IHave(mask, [id])];
    case _ =>
  }

  method AppendMessages(out0: seq<Rpc>, ms: seq<Message>, x: Sink) returns (out: seq<Rpc>)
    requires out0 != []
    ensures out == ApplyAll(out0, MessageItems(ms), x)
  {
    out := out0;
    ghost var items := MessageItems(ms);
    for i := 0 to |ms|
      invariant out != [] && out == ApplyAll(out0, items[..i], x)
    {
      assert items[..i + 1][..i] == items[..i];
      var last := out[|out| - 1];
      WithBlank(AddMessage(ms[i]), x.from);
      var tried := last.(publish := last.publish + [ms[i]]);
      if x.size(tried) > x.limit {
        out := out + [Blank(x.from).(publish := [ms[i]])];
      } else {
        out := out[|out| - 1 := tried];
      }
    }
    assert items[..|ms|] == items;
  }

  method AppendSubs(out0: seq<Rpc>, ss: seq<Subscription>, x: Sink) returns (out: seq<Rpc>)
    requires out0 != []
    ensures out == ApplyAll(out0, SubItems(ss), x)
  {
    out := out0;
    ghost var items := SubItems(ss);
    for i := 0 to |ss|
      invariant out != [] && out == ApplyAll(out0, items[..i], x)
    {
      assert items[..i + 1][..i] == items[..i];
      var last := out[|out| - 1];
      WithBlank(AddSub(ss[i]), x.from);
      var tried := last.(subs := last.subs + [ss[i]]);
      if x.size(tried) > x.limit {
        out := out + [Blank(x.from).(subs := [ss[i]])];
      } else {
        out := out[|out| - 1 := tried];
      }
    }
    assert items[..|ss|] == items;
  }

  /** The last RPC has a control message to append to. */
  predicate Controlled(out: seq<Rpc>) {
    out != [] && out[|out| - 1].control.Some?
  }

  /** One append into the control message of the last RPC, undone in favour of a new RPC when it does not fit. */
  method TryControl(out0: seq<Rpc>, grown: Control, alone: Control, ghost a: Action, x: Sink) returns (out: seq<Rpc>)
    requires Controlled(out0) && !Present(out0[|out0| - 1], a)
    requires With(out0[|out0| - 1], a) == out0[|out0| - 1].(control := Some(grown))
    requires Alone(a, x.from) == Blank(x.from).(control := Some(alone))
    ensures Controlled(out) && out == Apply(out0, a, x)
    ensures ControlOf(out[|out| - 1]) == grown || ControlOf(out[|out| - 1]) == alone
  {
    WithBlank(a, x.from);
    var tried := out0[|out0| - 1].(control := Some(grown));
    if x.size(tried) > x.limit {
      out := out0 + [Blank(x.from).(control := Some(alone))];
    } else {
      out := out0[|out0| - 1 := tried];
    }
  }

  method AppendGrafts(out0: seq<Rpc>, gs: seq<Graft>, x: Sink) returns (out: seq<Rpc>)
    requires Controlled(out0)
    ensures Controlled(out) && out == ApplyAll(out0, GraftItems(gs), x)
  {
    out := out0;
    ghost var items := GraftItems(gs);
    for i := 0 to |gs|
      invariant Controlled(out) && out == ApplyAll(out0, items[..i], x)
    {
      assert items[..i + 1][..i] == items[..i];
      var c := out[|out| - 1].control.value;
      out := TryControl(out, c.(grafts := c.grafts + [gs[i]]), NoControl.(grafts := [gs[i]]), AddGraft(gs[i]), x);
    }
    assert items[..|gs|] == items;
  }

  method AppendPrunes(out0: seq<Rpc>, ps: seq<Prune>, x: Sink) returns (out: seq<Rpc>)
    requires Controlled(out0)
    ensures Controlled(out) && out == ApplyAll(out0, PruneItems(ps), x)
  {
    out := out0;
    ghost var items := PruneItems(ps);
    for i := 0 to |ps|
      invariant Controlled(out) && out == ApplyAll(out0, items[..i], x)
    {
      assert items[..i + 1][..i] == items[..i];
      var c := out[|out| - 1].control.value;
      out := TryControl(out, c.(prunes := c.prunes + [ps[i]]), NoControl.(prunes := [ps[i]]), AddPrune(ps[i]), x);
    }
    assert items[..|ps|] == items;
  }

  /** The ids of one IWANT, all going to the first IWANT entry of the last RPC. */
  method AppendWantedIds(out0: seq<Rpc>, ids: seq<MessageId>, x: Sink) returns (out: seq<Rpc>)
    requires Controlled(out0) && ControlOf(out0[|out0| - 1]).wants != []
    ensures Controlled(out) && out == ApplyAll(out0, WantItems(ids), x)
  {
    out := out0;
    ghost var items := WantItems(ids);
    for i := 0 to |ids|
      invariant Controlled(out) && ControlOf(out[|out| - 1]).wants != [] && out == ApplyAll(out0, items[..i], x)
    {
      assert items[..i + 1][..i] == items[..i];
      var c := out[|out| - 1].control.value;
      var first := IWant(c.wants[0].ids + [ids[i]]);
      out := TryControl(out, c.(wants := c.wants[0 := first]), NoControl.(wants := [IWant([ids[i]])]),
                        AddWant(ids[i]), x);
    }
    assert items[..|ids|] == items;
  }

  method AppendWants(out0: seq<Rpc>, wants: seq<IWant>, x: Sink) returns (out: seq<Rpc>)
    requires Controlled(out0)
    ensures Controlled(out) && out == PutWants(out0, wants, x)
  {
    out := out0;
    for i := 0 to |wants|
      invariant Controlled(out) && out == PutWants(out0, wants[..i], x)
    {
      assert wants[..i + 1][..i] == wants[..i];
      out := AppendWant(out, wants[i], x);
    }
    assert wants[..|wants|] == wants;
  }

  method AppendWant(out0: seq<Rpc>, w: IWant, x: Sink) returns (out: seq<Rpc>)
    requires Controlled(out0)
    ensures Controlled(out) && out == ApplyAll(Apply(out0, OpenWant, x), WantItems(w.ids), x)
  {
    out := out0;
    var c := out[|out| - 1].control.value;
    if |c.wants| == 0 {
      out := TryControl(out, c.(wants := c.wants + [IWant([])]), NoControl.(wants := [IWant([])]), OpenWant, x);
    }
    out := AppendWantedIds(out, w.ids, x);
  }

  /** The ids of one IHAVE, all going to the last IHAVE entry of the last RPC, which has the same bitmask. */
  method AppendOfferedIds(out0: seq<Rpc>, mask: Mask, ids: seq<MessageId>, x: Sink) returns (out: seq<Rpc>)
    requires Controlled(out0) && LastIs(ControlOf(out0[|out0| - 1]).haves, mask)
    ensures Controlled(out) && out == ApplyAll(out0, HaveItems(mask, ids), x)
  {
    out := out0;
    ghost var items := HaveItems(mask, ids);
    for i := 0 to |ids|
      invariant Controlled(out) && LastIs(ControlOf(out[|out| - 1]).haves, mask) && out == ApplyAll(out0, items[..i], x)
    {
      assert items[..i + 1][..i] == items[..i] && items[i] == AddHave(mask, ids[i]);
      out := AppendOfferedId(out, mask, ids[i], x);
    }
    assert items[..|ids|] == items;
  }

  method AppendOfferedId(out0: seq<Rpc>, mask: Mask, id: MessageId, x: Sink) returns (out: seq<Rpc>)
    requires Controlled(out0) && LastIs(ControlOf(out0[|out0| - 1]).haves, mask)
    ensures Controlled(out) && LastIs(ControlOf(out[|out| - 1]).haves, mask) && out == Apply(out0, AddHave(mask, id), x)
  {
    var c := out0[|out0| - 1].control.value;
    var n := |c.haves| - 1;
    var last := IHave(c.haves[n].mask, c.haves[n].ids + [id]);
    out := TryControl(out0, c.(haves := c.haves[n := last]), NoControl.(haves := [IHave(mask, [id])]),
                      AddHave(mask, id), x);
  }

  method AppendHaves(out0: seq<Rpc>, haves: seq<IHave>, x: Sink) returns (out: seq<Rpc>)
    requires Controlled(out0)
    ensures Controlled(out) && out == PutHaves(out0, haves, x)
  {
    out := out0;
    for i := 0 to |haves|
      invariant Controlled(out) && out == PutHaves(out0, haves[..i], x)
    {
      assert haves[..i + 1][..i] == haves[..i];
      out := AppendHave(out, haves[i], x);
    }
    assert haves[..|haves|] == haves;
  }

  method AppendHave(out0: seq<Rpc>, h: IHave, x: Sink) returns (out: seq<Rpc>)
    requires Controlled(out0)
    ensures Controlled(out) && out == ApplyAll(Apply(out0, OpenHave(h.mask), x), HaveItems(h.mask, h.ids), x)
  {
    out := out0;
    var c, mask := out[|out| - 1].control.value, h.mask;
    if |c.haves| == 0 || c.haves[|c.haves| - 1].mask != mask {
      out := TryControl(out, c.(haves := c.haves + [IHave(mask, [])]), NoControl.(haves := [IHave(mask, [])]),
                        OpenHave(mask), x);
    }
    out := AppendOfferedIds(out, mask, h.ids, x);
  }

  method AppendControl(out0: seq<Rpc>, c: Control, x: Sink) returns (out: seq<Rpc>)
    requires out0 != []
    ensures out == PutControl(out0, c, x)
  {
    out := out0;
    var last := out[|out| - 1];
    if last.control.None? {
      var tried := last.(control := Some(NoControl));
      if x.size(tried) > x.limit {
        out := out + [Blank(x.from).(control := Some(NoControl))];
      } else {
        out := out[|out| - 1 := tried];
      }
    }
    out := AppendGrafts(out, c.grafts, x);
    out := AppendPrunes(out, c.prunes, x);
    out := AppendWants(out, c.wants, x);
    out := AppendHaves(out, c.haves, x);
  }

  /** appendOrMergeRPC: appends `elems` to `slice`, merging into its last RPC and splitting at the size limit. */
  method AppendOrMerge(slice: seq<Rpc>, limit: int, elems: seq<Rpc>, size: Rpc -> nat) returns (out: seq<Rpc>)
    ensures out == Merged(slice, elems, limit, size)
  {
    if |elems| == 0 {
      return slice;
    }
    if |slice| == 0 && |elems| == 1 && size(elems[0]) < limit {
      return slice + [elems[0]];
    }
    var start := slice;
    if |start| == 0 {
      start := [Blank(elems[0].from)];
    }
    out := AppendAll(start, limit, elems, size);
  }

  method AppendAll(start: seq<Rpc>, limit: int, elems: seq<Rpc>, size: Rpc -> nat) returns (out: seq<Rpc>)
    requires start != []
    ensures out != [] && out == MergeAll(start, elems, limit, size)
  {
    out := start;
    for i := 0 to |elems|
      invariant out != [] && out == MergeAll(start, elems[..i], limit, size)
    {
      assert elems[..i + 1][..i] == elems[..i];
      out := AppendRpc(out, elems[i], Sink(elems[i].from, limit, size));
    }
    assert elems[..|elems|] == elems;
  }

  method AppendRpc(out0: seq<Rpc>, r: Rpc, x: Sink) returns (out: seq<Rpc>)
    requires out0 != []
    ensures out != [] && out == PutRpc(out0, r, x)
  {
    out := AppendMessages(out0, r.publish, x);
    out := AppendSubs(out, r.subs, x);
    if r.control.Some? {
      out := AppendControl(out, r.control.value, x);
    }
  }
}
