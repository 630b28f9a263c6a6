/** Applying the requested settings (nettool.c): which adapters are to change, and the calls that
    change them, as a function of the adapters found and the option list. */
module ApplySpec {
  import opened Text
  import opened OptionSpec
  import Names

  /** What is known of a network adapter. */
  datatype Adapter = Adapter(
    mac: string,
    ip: seq<string>,
    ipLink: seq<string>,
    dns: seq<string>,
    gateway: seq<string>,
    dhcp4: bool,
    dhcp6: bool)

  /** `netinfo_search_mac`: the index of the first adapter with the MAC, or their number. */
  function SearchMac(ifs: seq<Adapter>, mac: string): (k: nat)
    ensures k <= |ifs|
    ensures k < |ifs| ==> ifs[k].mac == mac
  {
    if ifs == [] || ifs[0].mac == mac then 0 else 1 + SearchMac(ifs[1..], mac)
  }

  /** The entry names no MAC, or one that was found. */
  predicate Known(ifs: seq<Adapter>, e: Entry) {
    e.mac.Some? ==> SearchMac(ifs, e.mac.value) < |ifs|
  }

  /** An entry whose MAC was not found is left without a kind. */
  function Checked(ifs: seq<Adapter>, e: Entry): Entry {
    if Known(ifs, e) then e else e.(kinds := {})
  }

  /** `check MACs from options` */
  function Exclude(ifs: seq<Adapter>, macs: seq<Entry>): seq<Entry> {
    if macs == [] then [] else [Checked(ifs, macs[0])] + Exclude(ifs, macs[1..])
  }

  lemma {:induction false} ExcludeAt(ifs: seq<Adapter>, macs: seq<Entry>)
    ensures |Exclude(ifs, macs)| == |macs|
    ensures forall i :: 0 <= i < |macs| ==> Exclude(ifs, macs)[i] == Checked(ifs, macs[i])
  {
    if macs != [] {
      ExcludeAt(ifs, macs[1..]);
    }
  }

  /** The first `k` entries checked. */
  function ExcludeTo(ifs: seq<Adapter>, macs: seq<Entry>, k: nat): seq<Entry>
    requires k <= |macs|
  {
    ExcludeAt(ifs, macs);
    Exclude(ifs, macs)[..k] + macs[k..]
  }

  lemma ExcludeEnds(ifs: seq<Adapter>, macs: seq<Entry>)
    ensures ExcludeTo(ifs, macs, 0) == macs && ExcludeTo(ifs, macs, |macs|) == Exclude(ifs, macs)
  {
    ExcludeAt(ifs, macs);
  }

  lemma ExcludeNext(ifs: seq<Adapter>, macs: seq<Entry>, k: nat)
    requires k < |macs|
    ensures |ExcludeTo(ifs, macs, k)| == |macs| && ExcludeTo(ifs, macs, k)[k] == macs[k]
    ensures ExcludeTo(ifs, macs, k + 1) == ExcludeTo(ifs, macs, k)[k := Checked(ifs, macs[k])]
    ensures Known(ifs, macs[k]) ==> ExcludeTo(ifs, macs, k + 1) == ExcludeTo(ifs, macs, k)
  {
    ExcludeAt(ifs, macs);
  }

  /** Every entry that still sets something has a value, as parsing leaves them. */
  predicate HasValues(macs: seq<Entry>) {
    forall e <- macs :: e.kinds != {} ==> e.value.Some?
  }

  lemma ExcludeKeepsValued(ifs: seq<Adapter>, macs: seq<Entry>)
    requires HasValues(macs)
    ensures HasValues(Exclude(ifs, macs))
  {
    var now := Exclude(ifs, macs);
    ExcludeAt(ifs, macs);
    forall i | 0 <= i < |now| && now[i].kinds != {}
      ensures now[i].value.Some?
    {
      assert macs[i] in macs;
    }
  }

  // ---- deciding -----------------------------------------------------------

  /** `is_equal_dhcp` */
  predicate EqualDhcp(a: Adapter, value: string) {
    ('4' in value <==> a.dhcp4) && ('6' in value <==> a.dhcp6)
  }

  /** `is_equal_ip` */
  predicate EqualIp(a: Adapter, value: string) {
    a.ip != [] && Names.Matches(a.ip, a.ipLink, value, ' ')
  }

  /** What the entry asks for differs from what the adapter has, or nothing is compared. */
  predicate Differs(kind: Kind, a: Adapter, value: string, compare: bool) {
    || !compare
    || (kind == Dhcp && !EqualDhcp(a, value))
    || (kind == Ip && !EqualIp(a, value))
    || (kind == Gateway && !Names.Matches(a.gateway, [], value, ' '))
    || (kind == Dns && !Names.Matches(a.dns, [], value, ' '))
  }

  /** The order in which kinds are looked at, and in which they are applied. */
  const ORDER: seq<Kind> := [Dhcp, Ip, Gateway, Search, Dns, Route, Hostname]

  /** The entry for an adapter, or the number of entries. */
  function EntryFor(macs: seq<Entry>, a: Adapter, kind: Kind): (k: nat)
    ensures k <= |macs|
  {
    GetOptMac(macs, Some(a.mac), {kind})
  }

  lemma EntryForFits(macs: seq<Entry>, a: Adapter, kind: Kind)
    requires EntryFor(macs, a, kind) < |macs|
    ensures var e := macs[EntryFor(macs, a, kind)];
      e in macs && kind in e.kinds && e.mac == Some(a.mac) && (HasValues(macs) ==> e.value.Some?)
  {
    assert Fits(macs[EntryFor(macs, a, kind)], Some(a.mac), {kind});
  }

  function ValueFor(macs: seq<Entry>, a: Adapter, kind: Kind): string
    requires HasValues(macs) && EntryFor(macs, a, kind) < |macs|
  {
    EntryForFits(macs, a, kind);
    macs[EntryFor(macs, a, kind)].value.value
  }

  /** This kind alone makes the adapter one to change. */
  predicate DiffersIn(kind: Kind, a: Adapter, macs: seq<Entry>, compare: bool)
    requires HasValues(macs)
  {
    EntryFor(macs, a, kind) < |macs| && Differs(kind, a, ValueFor(macs, a, kind), compare)
  }

  /** Looking at the first `n` kinds makes the adapter one to change. */
  predicate ChangedBy(n: nat, a: Adapter, macs: seq<Entry>, compare: bool)
    requires n <= |ORDER| && HasValues(macs)
  {
    n > 0 && (ChangedBy(n - 1, a, macs, compare) || DiffersIn(ORDER[n - 1], a, macs, compare))
  }

  predicate Changed(a: Adapter, macs: seq<Entry>, compare: bool)
    requires HasValues(macs)
  {
    ChangedBy(|ORDER|, a, macs, compare)
  }

  /** Which adapters are to change. */
  function Decide(ifs: seq<Adapter>, macs: seq<Entry>, compare: bool): seq<bool>
    requires HasValues(macs)
  {
    seq(|ifs|, i requires 0 <= i < |ifs| => Changed(ifs[i], macs, compare))
  }

  // ---- acting -------------------------------------------------------------

  /** A call of a setter: for one adapter, or for the system; `k` is the entry that it gets. */
  datatype Act =
    | SetFor(kind: Kind, i: nat, k: nat)
    | SetGateway(i: nat, k: nat)
    | SetGlobal(kind: Kind, k: nat)

  const PERIF: set<Kind> := {Dhcp, Ip, Dns, Route}

  /** Whether the value of a gateway entry is a part of "remove", so that it goes first. */
  predicate IsRemoval(value: string) {
    Occurs(value, "remove")
  }

  predicate GatewayEntry(e: Entry, removal: bool) {
    Gateway in e.kinds && e.value.Some? && IsRemoval(e.value.value) == removal
  }

  /** The entry leads to a call of the setter of this kind for adapter `i`. */
  predicate Calling(kind: Kind, ifs: seq<Adapter>, macs: seq<Entry>, changed: seq<bool>, i: nat)
    requires i < |ifs| == |changed|
  {
    EntryFor(macs, ifs[i], kind) < |macs| && changed[i] && kind in PERIF
  }

  /** For each adapter the entry its setter is called with, if any. */
  function Marks(kind: Kind, ifs: seq<Adapter>, macs: seq<Entry>, changed: seq<bool>): (marks: seq<Option<nat>>)
    requires |changed| == |ifs|
    ensures |marks| == |ifs|
  {
    seq(|ifs|, i requires 0 <= i < |ifs| =>
      if Calling(kind, ifs, macs, changed, i) then Some(EntryFor(macs, ifs[i], kind)) else None)
  }

  /** The calls in `acc` and behind them those for the first `n` adapters. */
  function IfaceActs(acc: seq<Act>, kind: Kind, marks: seq<Option<nat>>, n: nat): seq<Act>
    requires n <= |marks|
  {
    if n == 0 then acc else
      var before := IfaceActs(acc, kind, marks, n - 1);
      if marks[n - 1].Some? then before + [SetFor(kind, n - 1, marks[n - 1].value)] else before
  }

  /** Which entries belong to a pass over the gateways. */
  function Pass(removal: bool, macs: seq<Entry>): (pass: seq<bool>)
    ensures |pass| == |macs|
  {
    seq(|macs|, k requires 0 <= k < |macs| => GatewayEntry(macs[k], removal))
  }

  /** The entry is one of the pass, for an adapter that was found. */
  predicate Routing(pass: seq<bool>, ifs: seq<Adapter>, macs: seq<Entry>, k: nat)
    requires k < |macs| == |pass|
  {
    pass[k] && macs[k].mac.Some? && Known(ifs, macs[k])
  }

  /** ... those for the gateways among the first `n` entries. */
  function GatewayActs(acc: seq<Act>, pass: seq<bool>, ifs: seq<Adapter>, macs: seq<Entry>, n: nat): seq<Act>
    requires n <= |macs| == |pass|
  {
    if n == 0 then acc else
      var before := GatewayActs(acc, pass, ifs, macs, n - 1);
      if Routing(pass, ifs, macs, n - 1) then
        before + [SetGateway(SearchMac(ifs, macs[n - 1].mac.value), n - 1)]
      else before
  }

  /** ... the one for the system. */
  function GlobalActs(acc: seq<Act>, kind: Kind, macs: seq<Entry>): seq<Act> {
    var k := GetOptMac(macs, None, {kind});
    if k < |macs| then acc + [SetGlobal(kind, k)] else acc
  }

  /** ... those behind the adapters' own: gateways, removals first, and settings of the system. */
  function OtherActs(acc: seq<Act>, kind: Kind, ifs: seq<Adapter>, macs: seq<Entry>): seq<Act> {
    if kind == Gateway then
      GatewayActs(GatewayActs(acc, Pass(true, macs), ifs, macs, |macs|), Pass(false, macs), ifs, macs, |macs|)
    else if kind in NOTMAC then GlobalActs(acc, kind, macs)
    else acc
  }

  function KindActs(acc: seq<Act>, kind: Kind, ifs: seq<Adapter>, macs: seq<Entry>, changed: seq<bool>): seq<Act>
    requires |changed| == |ifs|
  {
    OtherActs(IfaceActs(acc, kind, Marks(kind, ifs, macs, changed), |ifs|), kind, ifs, macs)
  }

  /** The calls for the first `n` kinds. */
  function PlanTo(n: nat, ifs: seq<Adapter>, macs: seq<Entry>, changed: seq<bool>): seq<Act>
    requires n <= |ORDER| && |changed| == |ifs|
  {
    if n == 0 then [] else KindActs(PlanTo(n - 1, ifs, macs, changed), ORDER[n - 1], ifs, macs, changed)
  }

  function Plan(ifs: seq<Adapter>, macs: seq<Entry>, changed: seq<bool>): seq<Act>
    requires |changed| == |ifs|
  {
    PlanTo(|ORDER|, ifs, macs, changed)
  }

  lemma GatewayActsNone(acc: seq<Act>, pass: seq<bool>, ifs: seq<Adapter>, macs: seq<Entry>)
    requires |pass| == |macs|
    ensures GatewayActs(acc, pass, ifs, macs, 0) == acc
  {
  }

  lemma PassMeans(removal: bool, macs: seq<Entry>, k: nat)
    requires k < |macs|
    ensures Pass(removal, macs)[k] ==> Gateway in macs[k].kinds
  {
  }

  lemma GatewayActsNext(acc: seq<Act>, pass: seq<bool>, ifs: seq<Adapter>, macs: seq<Entry>, k: nat)
    requires k < |macs| == |pass|
    ensures var before := GatewayActs(acc, pass, ifs, macs, k);
      GatewayActs(acc, pass, ifs, macs, k + 1) ==
        if Routing(pass, ifs, macs, k) then before + [SetGateway(SearchMac(ifs, macs[k].mac.value), k)] else before
  {
  }

  /** Entries that are not to be applied in this pass add no call. */
  lemma {:induction false} GatewayActsSkip(acc: seq<Act>, pass: seq<bool>, ifs: seq<Adapter>, macs: seq<Entry>, m: nat, n: nat)
    requires m <= n <= |macs| == |pass| && forall k :: m <= k < n ==> !pass[k]
    ensures GatewayActs(acc, pass, ifs, macs, n) == GatewayActs(acc, pass, ifs, macs, m)
  {
    if m < n {
      GatewayActsSkip(acc, pass, ifs, macs, m, n - 1);
    }
  }

  lemma {:induction false} CountedIsNone(macs: seq<Entry>, mac: Option<string>, kinds: set<Kind>)
    requires Count(macs, kinds) == 0
    ensures GetOptMac(macs, mac, kinds) == |macs|
    ensures forall i :: 0 <= i < |macs| ==> macs[i].kinds !! kinds
  {
    if macs != [] {
      CountedIsNone(macs[1..], mac, kinds);
      assert forall i :: 0 < i < |macs| ==> macs[i] == macs[1..][i - 1];
    }
  }

  lemma {:induction false} NoneIsFound(macs: seq<Entry>, mac: Option<string>, kinds: set<Kind>)
    requires forall i :: 0 <= i < |macs| ==> macs[i].kinds !! kinds
    ensures GetOptMac(macs, mac, kinds) == |macs|
  {
    if macs != [] {
      NoneIsFound(macs[1..], mac, kinds);
    }
  }

  /** A kind that no entry has leads to no call. */
  lemma NoKindActs(acc: seq<Act>, kind: Kind, ifs: seq<Adapter>, macs: seq<Entry>, changed: seq<bool>)
    requires |changed| == |ifs| && forall i :: 0 <= i < |macs| ==> macs[i].kinds !! {kind}
    ensures KindActs(acc, kind, ifs, macs, changed) == acc
  {
    forall i | 0 <= i < |ifs|
      ensures Marks(kind, ifs, macs, changed)[i].None?
    {
      NoneIsFound(macs, Some(ifs[i].mac), {kind});
    }
    NoIfaceActs(acc, kind, Marks(kind, ifs, macs, changed), |ifs|);
    NoneIsFound(macs, None, {kind});
    if kind == Gateway {
      GatewayActsSkip(acc, Pass(true, macs), ifs, macs, 0, |macs|);
      GatewayActsSkip(acc, Pass(false, macs), ifs, macs, 0, |macs|);
    }
  }

  lemma {:induction false} NoIfaceActs(acc: seq<Act>, kind: Kind, marks: seq<Option<nat>>, n: nat)
    requires n <= |marks| && forall i :: 0 <= i < |marks| ==> marks[i].None?
    ensures IfaceActs(acc, kind, marks, n) == acc
  {
    if n > 0 {
      NoIfaceActs(acc, kind, marks, n - 1);
    }
  }

  /** Without any setting there is nothing to do. */
  lemma NothingPlanned(ifs: seq<Adapter>, macs: seq<Entry>, changed: seq<bool>)
    requires |changed| == |ifs| && Count(macs, BYMAC) == 0 && Count(macs, NOTMAC) == 0
    ensures Plan(ifs, Exclude(ifs, macs), changed) == []
  {
    var now := Exclude(ifs, macs);
    ExcludeAt(ifs, macs);
    CountedIsNone(macs, None, BYMAC);
    CountedIsNone(macs, None, NOTMAC);
    forall kind, i | kind in ORDER && 0 <= i < |now|
      ensures now[i].kinds !! {kind}
    {
      assert kind in BYMAC || kind in NOTMAC;
    }
    PlanToNothing(|ORDER|, ifs, now, changed);
  }

  lemma {:induction false} PlanToNothing(n: nat, ifs: seq<Adapter>, macs: seq<Entry>, changed: seq<bool>)
    requires n <= |ORDER| && |changed| == |ifs|
    requires forall kind, i :: kind in ORDER && 0 <= i < |macs| ==> macs[i].kinds !! {kind}
    ensures PlanTo(n, ifs, macs, changed) == []
  {
    if n > 0 {
      PlanToNothing(n - 1, ifs, macs, changed);
      NoKindActs([], ORDER[n - 1], ifs, macs, changed);
    }
  }

  /** An entry for the adapter's MAC is found, or a newer one. */
  lemma {:induction false} EntryForFound(macs: seq<Entry>, a: Adapter, kind: Kind, k: nat)
    requires k < |macs| && kind in macs[k].kinds && macs[k].mac == Some(a.mac)
    ensures EntryFor(macs, a, kind) <= k
  {
    GetOptMacFirst(macs, Some(a.mac), {kind});
    assert Fits(macs[k], Some(a.mac), {kind});
  }

  // ---- which calls, how often ---------------------------------------------

  /** The calls that the options ask for. */
  predicate Due(a: Act, ifs: seq<Adapter>, macs: seq<Entry>, changed: seq<bool>)
    requires |changed| == |ifs|
  {
    match a
    case SetFor(kind, i, k) => (
      && kind in {Dhcp, Ip, Dns, Route} && i < |ifs| && k < |macs|
      && changed[i] && k == EntryFor(macs, ifs[i], kind))
    case SetGateway(i, k) => (
      && k < |macs| && Gateway in macs[k].kinds && macs[k].mac.Some? && macs[k].value.Some?
      && i == SearchMac(ifs, macs[k].mac.value) < |ifs|)
    case SetGlobal(kind, k) => kind in {Search, Hostname} && k == GetOptMac(macs, None, {kind}) < |macs|
  }

  function KindOf(a: Act): Kind {
    match a
    case SetFor(kind, _, _) => kind
    case SetGateway(_, _) => Gateway
    case SetGlobal(kind, _) => kind
  }

  function Rank(kind: Kind): nat {
    match kind
    case Dhcp => 0
    case Ip => 1
    case Gateway => 2
    case Search => 3
    case Dns => 4
    case Route => 5
    case Hostname => 6
    case DhcpV6 => 7
  }

  lemma RankInOrder(n: nat)
    requires n < |ORDER|
    ensures Rank(ORDER[n]) == n
  {
  }

  /** How often a call is made. */
  function Times(acts: seq<Act>, a: Act): nat {
    if acts == [] then 0
    else Times(acts[..|acts| - 1], a) + if acts[|acts| - 1] == a then 1 else 0
  }

  lemma TimesNext(acts: seq<Act>, b: Act, a: Act)
    ensures Times(acts + [b], a) == Times(acts, a) + if a == b then 1 else 0
  {
    assert (acts + [b])[..|acts|] == acts;
  }

  /** The call for adapter `i`. */
  predicate CalledFor(a: Act, kind: Kind, marks: seq<Option<nat>>, i: nat)
    requires i < |marks|
  {
    marks[i].Some? && a == SetFor(kind, i, marks[i].value)
  }

  lemma CalledIsDue(a: Act, kind: Kind, ifs: seq<Adapter>, macs: seq<Entry>, changed: seq<bool>)
    requires |changed| == |ifs| && a.SetFor? && a.i < |ifs|
    ensures CalledFor(a, kind, Marks(kind, ifs, macs, changed), a.i) <==> a.kind == kind && Due(a, ifs, macs, changed)
  {
  }

  lemma {:induction false} IfaceActsOwn(acc: seq<Act>, kind: Kind, marks: seq<Option<nat>>, n: nat, a: Act)
    requires n <= |marks|
    ensures Times(IfaceActs(acc, kind, marks, n), a) == Times(acc, a) +
      if a.SetFor? && a.i < n && CalledFor(a, kind, marks, a.i) then 1 else 0
  {
    if n > 0 {
      IfaceActsOwn(acc, kind, marks, n - 1, a);
      if marks[n - 1].Some? {
        TimesNext(IfaceActs(acc, kind, marks, n - 1), SetFor(kind, n - 1, marks[n - 1].value), a);
      }
    }
  }

  lemma IfaceActsCount(acc: seq<Act>, kind: Kind, ifs: seq<Adapter>, macs: seq<Entry>, changed: seq<bool>, a: Act)
    requires |ifs| == |changed|
    ensures Times(IfaceActs(acc, kind, Marks(kind, ifs, macs, changed), |ifs|), a) == Times(acc, a) +
      if a.SetFor? && a.kind == kind && Due(a, ifs, macs, changed) then 1 else 0
  {
    IfaceActsOwn(acc, kind, Marks(kind, ifs, macs, changed), |ifs|, a);
    if a.SetFor? && a.i < |ifs| {
      CalledIsDue(a, kind, ifs, macs, changed);
    }
  }

  /** The call of a pass for entry `k`. */
  predicate Routed(a: Act, pass: seq<bool>, ifs: seq<Adapter>, macs: seq<Entry>, k: nat)
    requires k < |macs| == |pass|
  {
    Routing(pass, ifs, macs, k) && a == SetGateway(SearchMac(ifs, macs[k].mac.value), k)
  }

  lemma RoutedIsDue(a: Act, removal: bool, ifs: seq<Adapter>, macs: seq<Entry>, changed: seq<bool>)
    requires |changed| == |ifs| && a.SetGateway? && a.k < |macs|
    ensures Routed(a, Pass(removal, macs), ifs, macs, a.k) <==>
      Due(a, ifs, macs, changed) && GatewayEntry(macs[a.k], removal)
  {
  }

  lemma {:induction false} GatewayActsOwn(acc: seq<Act>, pass: seq<bool>, ifs: seq<Adapter>, macs: seq<Entry>, n: nat, a: Act)
    requires n <= |macs| == |pass|
    ensures Times(GatewayActs(acc, pass, ifs, macs, n), a) == Times(acc, a) +
      if a.SetGateway? && a.k < n && Routed(a, pass, ifs, macs, a.k) then 1 else 0
  {
    if n > 0 {
      GatewayActsOwn(acc, pass, ifs, macs, n - 1, a);
      if Routing(pass, ifs, macs, n - 1) {
        TimesNext(GatewayActs(acc, pass, ifs, macs, n - 1), SetGateway(SearchMac(ifs, macs[n - 1].mac.value), n - 1), a);
      }
    }
  }

  lemma GatewayActsCount(acc: seq<Act>, removal: bool, ifs: seq<Adapter>, macs: seq<Entry>, changed: seq<bool>, a: Act)
    requires |changed| == |ifs|
    ensures Times(GatewayActs(acc, Pass(removal, macs), ifs, macs, |macs|), a) == Times(acc, a) +
      if a.SetGateway? && Due(a, ifs, macs, changed) && GatewayEntry(macs[a.k], removal) then 1 else 0
  {
    GatewayActsOwn(acc, Pass(removal, macs), ifs, macs, |macs|, a);
    if a.SetGateway? && a.k < |macs| {
      RoutedIsDue(a, removal, ifs, macs, changed);
    }
  }

  lemma OtherActsCount(acc: seq<Act>, kind: Kind, ifs: seq<Adapter>, macs: seq<Entry>, changed: seq<bool>, a: Act)
    requires |changed| == |ifs|
    ensures Times(OtherActs(acc, kind, ifs, macs), a) == Times(acc, a) +
      if !a.SetFor? && KindOf(a) == kind && Due(a, ifs, macs, changed) then 1 else 0
  {
    if kind == Gateway {
      GatewayActsCount(acc, true, ifs, macs, changed, a);
      GatewayActsCount(GatewayActs(acc, Pass(true, macs), ifs, macs, |macs|), false, ifs, macs, changed, a);
    } else if kind in NOTMAC {
      TimesNext(acc, SetGlobal(kind, GetOptMac(macs, None, {kind})), a);
    }
  }

  lemma KindActsCount(acc: seq<Act>, kind: Kind, ifs: seq<Adapter>, macs: seq<Entry>, changed: seq<bool>, a: Act)
    requires |changed| == |ifs|
    ensures Times(KindActs(acc, kind, ifs, macs, changed), a) == Times(acc, a) +
      if KindOf(a) == kind && Due(a, ifs, macs, changed) then 1 else 0
  {
    IfaceActsCount(acc, kind, ifs, macs, changed, a);
    OtherActsCount(IfaceActs(acc, kind, Marks(kind, ifs, macs, changed), |ifs|), kind, ifs, macs, changed, a);
  }

  lemma {:induction false} PlanToCount(n: nat, ifs: seq<Adapter>, macs: seq<Entry>, changed: seq<bool>, a: Act)
    requires n <= |ORDER| && |changed| == |ifs|
    ensures Times(PlanTo(n, ifs, macs, changed), a) ==
      if Rank(KindOf(a)) < n && Due(a, ifs, macs, changed) then 1 else 0
  {
    if n > 0 {
      RankInOrder(n - 1);
      PlanToCount(n - 1, ifs, macs, changed, a);
      KindActsCount(PlanTo(n - 1, ifs, macs, changed), ORDER[n - 1], ifs, macs, changed, a);
      assert Rank(KindOf(a)) == n - 1 ==> KindOf(a) == ORDER[n - 1];
    }
  }

  /** Every call that is due is made exactly once, and no other is made: an unchanged adapter gets
      none but for its gateways, a changed one each setting it has an entry for, the newest; every
      gateway entry with a known MAC is applied, changed or not. */
  lemma PlanExact(ifs: seq<Adapter>, macs: seq<Entry>, changed: seq<bool>, a: Act)
    requires |changed| == |ifs|
    ensures Times(Plan(ifs, macs, changed), a) == if Due(a, ifs, macs, changed) then 1 else 0
  {
    PlanToCount(|ORDER|, ifs, macs, changed, a);
  }

  // ---- in which order -----------------------------------------------------

  /** Kinds in their order; among the gateways the removals first. */
  function Stage(a: Act, macs: seq<Entry>): nat {
    2 * Rank(KindOf(a)) +
    if a.SetGateway? && a.k < |macs| && GatewayEntry(macs[a.k], false) then 1 else 0
  }

  /** Stages never fall, and end at `hi` at most. */
  predicate Rising(acts: seq<Act>, macs: seq<Entry>, hi: nat) {
    acts == [] || (
      var s := Stage(acts[|acts| - 1], macs);
      s <= hi && Rising(acts[..|acts| - 1], macs, s))
  }

  lemma {:induction false} RisingMeans(acts: seq<Act>, macs: seq<Entry>, hi: nat)
    requires Rising(acts, macs, hi)
    ensures forall p, q :: 0 <= p <= q < |acts| ==> Stage(acts[p], macs) <= Stage(acts[q], macs) <= hi
  {
    if acts != [] {
      var front := acts[..|acts| - 1];
      RisingMeans(front, macs, Stage(acts[|acts| - 1], macs));
      assert forall p :: 0 <= p < |front| ==> acts[p] == front[p];
    }
  }

  lemma RisingNext(acts: seq<Act>, b: Act, macs: seq<Entry>, hi: nat)
    requires Rising(acts, macs, hi) && hi <= Stage(b, macs)
    ensures Rising(acts + [b], macs, Stage(b, macs))
  {
    assert (acts + [b])[..|acts|] == acts;
    RisingMore(acts, macs, hi, Stage(b, macs));
  }

  lemma RisingMore(acts: seq<Act>, macs: seq<Entry>, lo: nat, hi: nat)
    requires Rising(acts, macs, lo) && lo <= hi
    ensures Rising(acts, macs, hi)
  {
  }

  lemma {:induction false} IfaceActsRise(acc: seq<Act>, kind: Kind, marks: seq<Option<nat>>, n: nat, macs: seq<Entry>)
    requires n <= |marks| && Rising(acc, macs, 2 * Rank(kind))
    ensures Rising(IfaceActs(acc, kind, marks, n), macs, 2 * Rank(kind))
  {
    if n > 0 {
      IfaceActsRise(acc, kind, marks, n - 1, macs);
      if marks[n - 1].Some? {
        RisingNext(IfaceActs(acc, kind, marks, n - 1), SetFor(kind, n - 1, marks[n - 1].value), macs, 2 * Rank(kind));
      }
    }
  }

  lemma GatewayStage(removal: bool, macs: seq<Entry>, i: nat, k: nat)
    requires k < |macs| && Pass(removal, macs)[k]
    ensures Stage(SetGateway(i, k), macs) == if removal then 4 else 5
  {
  }

  lemma {:induction false} GatewayActsRise(acc: seq<Act>, pass: seq<bool>, ifs: seq<Adapter>, macs: seq<Entry>, n: nat, s: nat)
    requires n <= |macs| == |pass| && Rising(acc, macs, s)
    requires forall i, k: nat :: k < |macs| && pass[k] ==> Stage(SetGateway(i, k), macs) == s
    ensures Rising(GatewayActs(acc, pass, ifs, macs, n), macs, s)
  {
    if n > 0 {
      GatewayActsRise(acc, pass, ifs, macs, n - 1, s);
      if Routing(pass, ifs, macs, n - 1) {
        RisingNext(GatewayActs(acc, pass, ifs, macs, n - 1), SetGateway(SearchMac(ifs, macs[n - 1].mac.value), n - 1), macs, s);
      }
    }
  }

  lemma PassRises(acc: seq<Act>, removal: bool, ifs: seq<Adapter>, macs: seq<Entry>)
    requires Rising(acc, macs, if removal then 4 else 5)
    ensures Rising(GatewayActs(acc, Pass(removal, macs), ifs, macs, |macs|), macs, if removal then 4 else 5)
  {
    forall i: nat, k: nat | k < |macs| && Pass(removal, macs)[k]
      ensures Stage(SetGateway(i, k), macs) == if removal then 4 else 5
    {
      GatewayStage(removal, macs, i, k);
    }
    GatewayActsRise(acc, Pass(removal, macs), ifs, macs, |macs|, if removal then 4 else 5);
  }

  lemma GatewaysRise(acc: seq<Act>, ifs: seq<Adapter>, macs: seq<Entry>)
    requires Rising(acc, macs, 4)
    ensures Rising(OtherActs(acc, Gateway, ifs, macs), macs, 5)
  {
    var x := GatewayActs(acc, Pass(true, macs), ifs, macs, |macs|);
    PassRises(acc, true, ifs, macs);
    RisingMore(x, macs, 4, 5);
    PassRises(x, false, ifs, macs);
  }

  lemma GlobalRises(acc: seq<Act>, kind: Kind, macs: seq<Entry>)
    requires Rising(acc, macs, 2 * Rank(kind)) && kind in NOTMAC
    ensures Rising(GlobalActs(acc, kind, macs), macs, 2 * Rank(kind))
  {
    RisingNext(acc, SetGlobal(kind, GetOptMac(macs, None, {kind})), macs, 2 * Rank(kind));
  }

  lemma OtherActsRise(acc: seq<Act>, kind: Kind, ifs: seq<Adapter>, macs: seq<Entry>)
    requires Rising(acc, macs, 2 * Rank(kind))
    ensures Rising(OtherActs(acc, kind, ifs, macs), macs, 2 * Rank(kind) + 1)
  {
    if kind == Gateway {
      GatewaysRise(acc, ifs, macs);
    } else {
      if kind in NOTMAC {
        GlobalRises(acc, kind, macs);
      }
      RisingMore(OtherActs(acc, kind, ifs, macs), macs, 2 * Rank(kind), 2 * Rank(kind) + 1);
    }
  }

  lemma {:induction false} PlanToRises(n: nat, ifs: seq<Adapter>, macs: seq<Entry>, changed: seq<bool>)
    requires n <= |ORDER| && |changed| == |ifs|
    ensures Rising(PlanTo(n, ifs, macs, changed), macs, 2 * n)
  {
    if n > 0 {
      var before, kind := PlanTo(n - 1, ifs, macs, changed), ORDER[n - 1];
      RankInOrder(n - 1);
      PlanToRises(n - 1, ifs, macs, changed);
      IfaceActsRise(before, kind, Marks(kind, ifs, macs, changed), |ifs|, macs);
      OtherActsRise(IfaceActs(before, kind, Marks(kind, ifs, macs, changed), |ifs|), kind, ifs, macs);
      RisingMore(PlanTo(n, ifs, macs, changed), macs, 2 * n - 1, 2 * n);
    }
  }

  /** The calls come in the fixed order of kinds, and every gateway removal before every other
      gateway call. */
  lemma PlanOrdered(ifs: seq<Adapter>, macs: seq<Entry>, changed: seq<bool>, p: nat, q: nat)
    requires |changed| == |ifs| && p <= q < |Plan(ifs, macs, changed)|
    ensures var acts := Plan(ifs, macs, changed); Stage(acts[p], macs) <= Stage(acts[q], macs)
  {
    PlanToRises(|ORDER|, ifs, macs, changed);
    RisingMeans(Plan(ifs, macs, changed), macs, 2 * |ORDER|);
  }

  // ---- what is left alone -------------------------------------------------

  /** The kinds that can make an adapter one to change: when settings are compared, only those that
      the scan of the system tells about. */
  predicate Decides(kind: Kind, compare: bool) {
    if compare then kind in {Dhcp, Ip, Gateway, Dns} else kind in ORDER
  }

  lemma {:induction false} ChangedByMeans(n: nat, a: Adapter, macs: seq<Entry>, compare: bool)
    requires n <= |ORDER| && HasValues(macs)
    ensures ChangedBy(n, a, macs, compare) <==> exists i :: 0 <= i < n && DiffersIn(ORDER[i], a, macs, compare)
  {
    if n > 0 {
      ChangedByMeans(n - 1, a, macs, compare);
    }
  }

  /** An adapter is one to change exactly when an entry of a deciding kind differs from what it has.
      So with a comparison a lone route or search domain is never applied to it. */
  lemma ChangedExactly(a: Adapter, macs: seq<Entry>, compare: bool)
    requires HasValues(macs)
    ensures Changed(a, macs, compare) <==>
      exists kind :: Decides(kind, compare) && DiffersIn(kind, a, macs, compare)
  {
    ChangedByMeans(|ORDER|, a, macs, compare);
    forall kind | Decides(kind, compare) && DiffersIn(kind, a, macs, compare)
      ensures exists i :: 0 <= i < |ORDER| && DiffersIn(ORDER[i], a, macs, compare)
    {
      assert ORDER[Rank(kind)] == kind;
    }
    forall i | 0 <= i < |ORDER| && DiffersIn(ORDER[i], a, macs, compare)
      ensures Decides(ORDER[i], compare)
    {
    }
  }

  /** For example, a route alone is set without a comparison and not set with one. */
  lemma LoneRoute()
    ensures var a, macs := Adapter("m", [], [], [], [], false, false), [Entry({Route}, Some("m"), Some("10.0.0.0"))];
      HasValues(macs) && !Changed(a, macs, true) && Changed(a, macs, false)
  {
    var a, macs := Adapter("m", [], [], [], [], false, false), [Entry({Route}, Some("m"), Some("10.0.0.0"))];
    ChangedExactly(a, macs, true);
    ChangedExactly(a, macs, false);
    assert Fits(macs[0], Some("m"), {Route}) && EntryFor(macs, a, Route) == 0;
    assert Decides(Route, false) && DiffersIn(Route, a, macs, false);
    forall kind | Decides(kind, true)
      ensures !DiffersIn(kind, a, macs, true)
    {
      NoneIsFound(macs, Some(a.mac), {kind});
    }
  }

  /** The adapter has what the value asks for: the same DHCP flags, or, ignoring case and but for
      removals and link-local addresses, the same set of names. */
  predicate HasAlready(kind: Kind, a: Adapter, value: string) {
    match kind
    case Dhcp => ('4' in value) == a.dhcp4 && ('6' in value) == a.dhcp6
    case Ip => a.ip != [] && Names.SameSets(a.ip, a.ipLink, value, ' ')
    case Gateway => Names.SameSets(a.gateway, [], value, ' ')
    case Dns => Names.SameSets(a.dns, [], value, ' ')
    case _ => true
  }

  /** A name of the adapter that nobody asked for is part of one that is asked for, and nothing else is
      different. */
  predicate Misled(kind: Kind, a: Adapter, value: string) {
    match kind
    case Ip => Names.PartsOnly(a.ip, a.ipLink, value, ' ')
    case Gateway => Names.PartsOnly(a.gateway, [], value, ' ')
    case Dns => Names.PartsOnly(a.dns, [], value, ' ')
    case _ => false
  }

  /** The adapter has what its entries ask for. */
  predicate Satisfied(a: Adapter, macs: seq<Entry>)
    requires HasValues(macs)
  {
    forall kind | EntryFor(macs, a, kind) < |macs| :: HasAlready(kind, a, ValueFor(macs, a, kind))
  }

  /** Such an adapter is left alone when settings are compared. */
  lemma SatisfiedIsLeftAlone(a: Adapter, macs: seq<Entry>)
    requires HasValues(macs) && Satisfied(a, macs)
    ensures !Changed(a, macs, true)
  {
    ChangedExactly(a, macs, true);
    forall kind | Decides(kind, true)
      ensures !DiffersIn(kind, a, macs, true)
    {
      if EntryFor(macs, a, kind) < |macs| {
        var value := ValueFor(macs, a, kind);
        if kind == Ip {
          Names.AgreeingListsMatch(a.ip, a.ipLink, value, ' ');
        } else if kind == Gateway {
          Names.AgreeingListsMatch(a.gateway, [], value, ' ');
        } else if kind == Dns {
          Names.AgreeingListsMatch(a.dns, [], value, ' ');
        }
      }
    }
  }

  /** The names of the adapter are names: not empty and without a blank. */
  predicate WellNamed(a: Adapter) {
    Names.GoodNames(a.ip, ' ') && Names.GoodNames(a.gateway, ' ') && Names.GoodNames(a.dns, ' ')
  }

  /** Comparing one value: a difference is found exactly when there is one and no part of a longer name
      hides it. */
  lemma DifferenceIsSeen(kind: Kind, a: Adapter, value: string)
    requires WellNamed(a)
    ensures Decides(kind, true) && Differs(kind, a, value, true) <==> !HasAlready(kind, a, value) && !Misled(kind, a, value)
  {
    hide Names.Matches, Names.SameSets;
    if kind == Ip {
      SeenInList(a.ip, a.ipLink, value);
    } else if kind == Gateway {
      SeenInList(a.gateway, [], value);
    } else if kind == Dns {
      SeenInList(a.dns, [], value);
    }
  }

  lemma SeenInList(names: seq<string>, skip: seq<string>, value: string)
    requires Names.GoodNames(names, ' ')
    ensures Names.Matches(names, skip, value, ' ') <==>
      Names.SameSets(names, skip, value, ' ') || Names.PartsOnly(names, skip, value, ' ')
    ensures names == [] ==> !Names.PartsOnly(names, skip, value, ' ')
    ensures Names.SameSets(names, skip, value, ' ') ==> !Names.PartsOnly(names, skip, value, ' ')
  {
    Names.MatchesExactly(names, skip, value, ' ');
    if Names.SameSets(names, skip, value, ' ') {
      Names.AgreeingListsMatch(names, skip, value, ' ');
    }
  }

  /** With a comparison an adapter is one to change exactly when it lacks something its entries ask for
      and no part of a longer name hides that; so, where no such part is there, exactly when it is not
      satisfied. */
  lemma ChangedWhenUnsatisfied(a: Adapter, macs: seq<Entry>)
    requires HasValues(macs) && WellNamed(a)
    ensures Changed(a, macs, true) <==> exists kind ::
      EntryFor(macs, a, kind) < |macs| && !HasAlready(kind, a, ValueFor(macs, a, kind)) && !Misled(kind, a, ValueFor(macs, a, kind))
    ensures (forall kind | EntryFor(macs, a, kind) < |macs| :: !Misled(kind, a, ValueFor(macs, a, kind))) ==>
      (Changed(a, macs, true) <==> !Satisfied(a, macs))
  {
    hide HasAlready, Misled, Differs, WellNamed, Decides;
    ChangedExactly(a, macs, true);
    forall kind | EntryFor(macs, a, kind) < |macs|
      ensures Decides(kind, true) && DiffersIn(kind, a, macs, true) <==>
        !HasAlready(kind, a, ValueFor(macs, a, kind)) && !Misled(kind, a, ValueFor(macs, a, kind))
    {
      DifferenceIsSeen(kind, a, ValueFor(macs, a, kind));
    }
  }

  /** For example, one address is asked for and one other is there. */
  lemma OtherAddress(there: string, asked: string)
    requires Names.GoodName(asked, ' ') && !SameFold(there, asked) && !Names.SaysRemove(asked)
    ensures var a, macs := Adapter("m", [there], [], [], [], false, false), [Entry({Ip}, Some("m"), Some(asked))];
      HasValues(macs) && Changed(a, macs, true)
  {
    var a, macs := Adapter("m", [there], [], [], [], false, false), [Entry({Ip}, Some("m"), Some(asked))];
    assert Fits(macs[0], Some("m"), {Ip}) && EntryFor(macs, a, Ip) == 0;
    Names.OneOther(there, asked);
    assert Decides(Ip, true) && DiffersIn(Ip, a, macs, true);
    ChangedExactly(a, macs, true);
  }

  // ---- what happens to the system -----------------------------------------

  datatype Platform = Unix | Win2003 | Vista

  /** The build and the system it runs on: the platform, whether the macro DEBUG_OPT_COMPARE was defined,
      as the makefile for Windows does, and whether there is IPv6. */
  datatype Host = Host(platform: Platform, debug: bool, ipv6: bool)

  /** A setter was called and gave a code, an adapter was switched off or on, or one that was not found
      was woken, with the answer to that. */
  datatype Event = Called(act: Act, rc: int) | Power(i: nat, on: bool) | Woke(mac: string, res: int)

  function Calls(log: seq<Event>): seq<Act> {
    if log == [] then [] else
      var e := log[|log| - 1];
      if e.Called? then Calls(log[..|log| - 1]) + [e.act] else Calls(log[..|log| - 1])
  }

  /** The MACs that were woken, and those for which that worked. */
  function Woken(log: seq<Event>): seq<string> {
    if log == [] then [] else
      var e := log[|log| - 1];
      if e.Woke? then Woken(log[..|log| - 1]) + [e.mac] else Woken(log[..|log| - 1])
  }

  function Waking(log: seq<Event>): seq<string> {
    if log == [] then [] else
      var e := log[|log| - 1];
      if e.Woke? && e.res > 0 then Waking(log[..|log| - 1]) + [e.mac] else Waking(log[..|log| - 1])
  }

  /** The adapters that are switched off. */
  function Down(log: seq<Event>): set<nat> {
    if log == [] then {} else
      var e, before := log[|log| - 1], Down(log[..|log| - 1]);
      if !e.Power? then before else if e.on then before - {e.i} else before + {e.i}
  }

  /** Every setter returned 0. */
  predicate AllZero(log: seq<Event>) {
    log == [] || (
      var e := log[|log| - 1];
      AllZero(log[..|log| - 1]) && (e.Called? ==> e.rc == 0))
  }

  /** Some setter returned this code. */
  predicate Answered(log: seq<Event>, rc: int) {
    log != [] && (
      var e := log[|log| - 1];
      (e.Called? && e.rc == rc) || Answered(log[..|log| - 1], rc))
  }

  lemma {:induction false} CodesMean(log: seq<Event>, rc: int)
    ensures AllZero(log) <==> forall e <- log :: e.Called? ==> e.rc == 0
    ensures Answered(log, rc) <==> exists a :: Called(a, rc) in log
  {
    if log != [] {
      var e := log[|log| - 1];
      CodesMean(log[..|log| - 1], rc);
      assert log == log[..|log| - 1] + [e];
      assert e.Called? ==> Called(e.act, e.rc) in log;
    }
  }

  /** What a run goes by once it has decided. */
  datatype Job = Job(host: Host, ifs: seq<Adapter>, macs: seq<Entry>, compare: bool, changed: seq<bool>)
  {
    predicate Valid() {
      |changed| == |ifs| && HasValues(macs)
    }

    /** `disable_adapter_if_needed`: the adapter has a gateway or a route to be set. */
    predicate NeedsDown(i: nat)
      requires i < |ifs|
    {
      host.platform == Win2003 && (EntryFor(macs, ifs[i], Gateway) < |macs| || EntryFor(macs, ifs[i], Route) < |macs|)
    }

    /** The first phase looks at DHCP of adapter `i`: there is an entry for it, and settings are compared
        or the build prints what a comparison would give. */
    predicate DhcpLookedAt(i: nat)
      requires i < |ifs| && Valid()
    {
      EntryFor(macs, ifs[i], Dhcp) < |macs| && (compare || host.debug)
    }

    /** It notes a difference for IPv4, or for IPv6: both when nothing is compared. */
    predicate Note4(i: nat)
      requires i < |ifs| && Valid()
    {
      DhcpLookedAt(i) && (!compare || ('4' in ValueFor(macs, ifs[i], Dhcp)) != ifs[i].dhcp4)
    }

    predicate Note6(i: nat)
      requires i < |ifs| && Valid()
    {
      DhcpLookedAt(i) && (!compare || ('6' in ValueFor(macs, ifs[i], Dhcp)) != ifs[i].dhcp6)
    }

    /** `set_dhcp` switches DHCP on for IPv4, or for IPv6, which it does also unasked when there is IPv6
        and no address is given. */
    predicate Switches4(i: nat)
      requires i < |ifs| && Valid() && EntryFor(macs, ifs[i], Dhcp) < |macs|
    {
      '4' in ValueFor(macs, ifs[i], Dhcp) && !ifs[i].dhcp4
    }

    predicate Switches6(i: nat)
      requires i < |ifs| && Valid() && EntryFor(macs, ifs[i], Dhcp) < |macs|
    {
      ('6' in ValueFor(macs, ifs[i], Dhcp) || (EntryFor(macs, ifs[i], Ip) == |macs| && host.ipv6)) && !ifs[i].dhcp6
    }

    /** A note that the setter leaves. */
    predicate On4(i: nat)
      requires i < |ifs| && Valid()
    {
      Note4(i) && Switches4(i)
    }

    predicate On6(i: nat)
      requires i < |ifs| && Valid()
    {
      Note6(i) && Switches6(i)
    }

    /** What is noted about DHCP of an adapter: what the first phase noted, until the setter of DHCP has
        been called; after that, where the setter came to its end, what it switched on. */
    predicate Notes(i: nat, n4: bool, n6: bool, called: bool)
      requires i < |ifs| && Valid()
    {
      || host.platform == Unix
      || (!called && n4 == Note4(i) && n6 == Note6(i))
      || (n4 == On4(i) && (n6 == On6(i) || (On4(i) && n6 == Note6(i))))
    }

    /** The adapter is restarted at the end. */
    predicate Restarts(i: nat)
      requires i < |ifs| && Valid()
    {
      host.platform == Vista && (On4(i) || On6(i))
    }

    /** The adapters that are to be woken. */
    function Wakes(): seq<string> {
      if host.platform == Vista then Missing(ifs, macs, |macs|) else []
    }

    /** The setter of DHCP was called for the adapter. */
    predicate DhcpCalled(i: nat, acts: seq<Act>)
      requires i < |ifs|
    {
      SetFor(Dhcp, i, EntryFor(macs, ifs[i], Dhcp)) in acts
    }

    /** Adapters are switched off once, where the platform needs it, and switched on only from off;
        a changed adapter that has to be off is off while it is set. */
    predicate Allowed(down: set<nat>, e: Event)
      requires Valid()
    {
      match e
      case Power(i, on) => (
        && i < |ifs| && (on <==> i in down)
        && (!on ==> (changed[i] && NeedsDown(i)) || Restarts(i)))
      case Called(SetFor(_, i, _), _) => i < |ifs| && (NeedsDown(i) ==> i in down)
      case Called(SetGateway(i, _), _) => i < |ifs| && (changed[i] && NeedsDown(i) ==> i in down)
      case Called(SetGlobal(_, _), _) => true
      case Woke(mac, _) => host.platform == Vista && SearchMac(ifs, mac) == |ifs|
    }

    /** The loop over the adapters for this kind switches the adapter off. */
    predicate MustBeDown(kind: Kind, i: nat)
      requires Valid() && i < |ifs|
    {
      changed[i] && NeedsDown(i) && EntryFor(macs, ifs[i], kind) < |macs|
    }

    /** The adapters for which it does. */
    function Downs(kind: Kind): (must: seq<bool>)
      requires Valid()
      ensures |must| == |ifs|
    {
      seq(|ifs|, i requires 0 <= i < |ifs| => MustBeDown(kind, i))
    }

    predicate Follows(log: seq<Event>)
      requires Valid()
    {
      log == [] || (
        && Follows(log[..|log| - 1])
        && Allowed(Down(log[..|log| - 1]), log[|log| - 1])
        && (log[|log| - 1].Woke? ==> forall e <- log :: e.Woke?))
    }
  }

  /** Those of the first `n` adapters that have to be off are off. */
  predicate AllDown(down: set<nat>, must: seq<bool>, n: nat)
    requires n <= |must|
  {
    n == 0 || (AllDown(down, must, n - 1) && (must[n - 1] ==> n - 1 in down))
  }

  /** Those that are off when the first `n` that have to be off were switched off too. */
  function DownWith(down: set<nat>, must: seq<bool>, n: nat): set<nat>
    requires n <= |must|
  {
    if n == 0 then down
    else if must[n - 1] then DownWith(down, must, n - 1) + {n - 1}
    else DownWith(down, must, n - 1)
  }

  lemma {:induction false} DownWithMeans(down: set<nat>, must: seq<bool>, n: nat)
    requires n <= |must|
    ensures forall i: nat :: i in DownWith(down, must, n) <==> i in down || (i < n && must[i])
  {
    if n > 0 {
      DownWithMeans(down, must, n - 1);
    }
  }

  lemma NoneDown(down: set<nat>, must: seq<bool>)
    requires forall i :: 0 <= i < |must| ==> !must[i]
    ensures DownWith(down, must, |must|) == down
  {
    DownWithMeans(down, must, |must|);
  }

  /** ... by the loops over the adapters for the first `n` kinds. */
  function DownBy(job: Job, n: nat): set<nat>
    requires job.Valid() && n <= |ORDER|
  {
    if n == 0 then {} else DownWith(DownBy(job, n - 1), job.Downs(ORDER[n - 1]), |job.ifs|)
  }

  lemma {:induction false} DownByMeans(job: Job, n: nat, i: nat)
    requires job.Valid() && n <= |ORDER|
    ensures i in DownBy(job, n) <==> i < |job.ifs| && exists m :: 0 <= m < n && job.Downs(ORDER[m])[i]
  {
    hide Job.Downs;
    if n > 0 {
      DownByMeans(job, n - 1, i);
      DownWithMeans(DownBy(job, n - 1), job.Downs(ORDER[n - 1]), |job.ifs|);
    }
  }

  lemma {:induction false} DownWithAll(down: set<nat>, must: seq<bool>, n: nat)
    requires n <= |must|
    ensures forall now: set<nat> :: DownWith(down, must, n) <= now ==> AllDown(now, must, n)
  {
    if n > 0 {
      DownWithAll(down, must, n - 1);
    }
  }

  lemma {:induction false} DownAt(down: set<nat>, must: seq<bool>, n: nat, i: nat)
    requires i < n <= |must| && AllDown(down, must, n) && must[i]
    ensures i in down
  {
    if i < n - 1 {
      DownAt(down, must, n - 1, i);
    }
  }

  lemma FollowsNext(job: Job, log: seq<Event>, e: Event)
    requires job.Valid() && job.Follows(log) && job.Allowed(Down(log), e) && !e.Woke?
    ensures job.Follows(log + [e])
  {
    assert (log + [e])[..|log|] == log;
  }

  lemma {:induction false} DownIsFound(job: Job, log: seq<Event>)
    requires job.Valid() && job.Follows(log)
    ensures forall i <- Down(log) :: i < |job.ifs|
  {
    if log != [] {
      DownIsFound(job, log[..|log| - 1]);
    }
  }

  /** Only Windows switches adapters off and on. */
  lemma {:induction false} UnixNoPower(job: Job, log: seq<Event>)
    requires job.Valid() && job.Follows(log) && job.host.platform == Unix
    ensures Down(log) == {} && forall e <- log :: e.Called?
  {
    if log != [] {
      UnixNoPower(job, log[..|log| - 1]);
    }
  }

  /** The codes kept by a run: `rc2` is 0 exactly when no setter failed, and otherwise one of the
      codes; `rc` may be left from an earlier call. */
  ghost predicate Status(log: seq<Event>, rc: int, rc2: int) {
    && (rc2 == 0 <==> AllZero(log))
    && (rc2 != 0 ==> Answered(log, rc2)) && (rc != 0 ==> Answered(log, rc))
  }

  lemma LogCall(log: seq<Event>, a: Act, rc: int, stale: int, rc2: int)
    requires Status(log, stale, rc2)
    ensures var now := log + [Called(a, rc)];
      && Calls(now) == Calls(log) + [a] && Down(now) == Down(log) && Woken(now) == Woken(log)
      && Status(now, rc, if rc != 0 then rc else rc2)
      && Status(now, stale, if rc != 0 then rc else rc2)
  {
    var e := Called(a, rc);
    var now := log + [e];
    assert now[..|log|] == log && now[|log|] == e;
    if stale != 0 {
      AnsweredIsNotZero(log, stale);
    }
  }

  lemma LogPower(log: seq<Event>, i: nat, on: bool, rc: int, rc2: int)
    requires Status(log, rc, rc2)
    ensures var now := log + [Power(i, on)];
      && Calls(now) == Calls(log) && Status(now, rc, rc2) && Woken(now) == Woken(log)
      && Down(now) == if on then Down(log) - {i} else Down(log) + {i}
  {
    var e := Power(i, on);
    var now := log + [e];
    assert now[..|log|] == log && now[|log|] == e;
  }

  lemma {:induction false} AnsweredIsNotZero(log: seq<Event>, rc: int)
    requires Answered(log, rc) && rc != 0
    ensures !AllZero(log)
  {
    var e := log[|log| - 1];
    if !(e.Called? && e.rc == rc) {
      AnsweredIsNotZero(log[..|log| - 1], rc);
    }
  }

  /** Missing adapters were woken, the setters were called as in `acts`, and the two codes are those of
      the log. */
  ghost predicate Kept(job: Job, log: seq<Event>, rc: int, rc2: int, acts: seq<Act>)
    requires job.Valid()
  {
    job.Follows(log) && Status(log, rc, rc2) && Calls(log) == acts && Woken(log) == job.Wakes()
  }

  lemma KeptPower(job: Job, log: seq<Event>, i: nat, on: bool, rc: int, rc2: int, acts: seq<Act>)
    requires job.Valid() && Kept(job, log, rc, rc2, acts) && job.Allowed(Down(log), Power(i, on))
    ensures Kept(job, log + [Power(i, on)], rc, rc2, acts)
    ensures Down(log + [Power(i, on)]) == if on then Down(log) - {i} else Down(log) + {i}
  {
    LogPower(log, i, on, rc, rc2);
    FollowsNext(job, log, Power(i, on));
  }

  lemma KeptCall(job: Job, log: seq<Event>, a: Act, rc: int, stale: int, rc2: int, acts: seq<Act>)
    requires job.Valid() && Kept(job, log, stale, rc2, acts) && job.Allowed(Down(log), Called(a, rc))
    ensures Kept(job, log + [Called(a, rc)], rc, if rc != 0 then rc else rc2, acts + [a])
    ensures Kept(job, log + [Called(a, rc)], stale, if rc != 0 then rc else rc2, acts + [a])
    ensures Down(log + [Called(a, rc)]) == Down(log)
  {
    LogCall(log, a, rc, stale, rc2);
    FollowsNext(job, log, Called(a, rc));
  }

  // ---- restarts -----------------------------------------------------------

  lemma TimesIn(acts: seq<Act>, a: Act)
    requires Times(acts, a) > 0
    ensures a in acts
  {
  }

  lemma NotesAnyway(job: Job, i: nat, n4: bool, n6: bool, called: bool)
    requires job.Valid() && i < |job.ifs| && job.Notes(i, n4, n6, true)
    ensures job.Notes(i, n4, n6, called)
  {
  }

  /** At the end a note is left for exactly the adapters that are to be restarted. */
  lemma NotesAtEnd(job: Job, i: nat, n4: bool, n6: bool)
    requires job.Valid() && i < |job.ifs| && job.host.platform == Vista
    requires job.changed == Decide(job.ifs, job.macs, job.compare)
    requires job.Notes(i, n4, n6, job.DhcpCalled(i, Plan(job.ifs, job.macs, job.changed)))
    ensures n4 || n6 <==> job.Restarts(i)
  {
    var k := EntryFor(job.macs, job.ifs[i], Dhcp);
    if job.Note4(i) || job.Note6(i) {
      DhcpMakesChange(job.ifs[i], job.macs, job.compare);
      PlanExact(job.ifs, job.macs, job.changed, SetFor(Dhcp, i, k));
      TimesIn(Plan(job.ifs, job.macs, job.changed), SetFor(Dhcp, i, k));
    }
  }

  lemma DhcpMakesChange(a: Adapter, macs: seq<Entry>, compare: bool)
    requires HasValues(macs) && DiffersIn(Dhcp, a, macs, compare)
    ensures Changed(a, macs, compare)
  {
    ChangedExactly(a, macs, compare);
    assert Decides(Dhcp, compare);
  }

  /** What the last loop adds for one adapter: it is switched off if it is to be restarted, and on if
      it is off. */
  function RestartedOne(job: Job, log: seq<Event>, i: nat): seq<Event>
    requires job.Valid() && i < |job.ifs|
  {
    if job.Restarts(i) && i !in Down(log) then log + [Power(i, false)] + [Power(i, true)]
    else if i in Down(log) then log + [Power(i, true)]
    else log
  }

  /** ... for the first `n` adapters. */
  function Restarted(job: Job, log: seq<Event>, n: nat): seq<Event>
    requires job.Valid() && n <= |job.ifs|
  {
    if n == 0 then log else RestartedOne(job, Restarted(job, log, n - 1), n - 1)
  }

  lemma DownNext(log: seq<Event>, i: nat, on: bool)
    ensures Down(log + [Power(i, on)]) == if on then Down(log) - {i} else Down(log) + {i}
  {
    assert (log + [Power(i, on)])[..|log|] == log;
  }

  lemma RestartedOneDown(job: Job, log: seq<Event>, i: nat)
    requires job.Valid() && i < |job.ifs|
    ensures Down(RestartedOne(job, log, i)) == Down(log) - {i}
    ensures log <= RestartedOne(job, log, i)
  {
    DownNext(log, i, false);
    DownNext(log, i, true);
    DownNext(log + [Power(i, false)], i, true);
  }

  lemma {:induction false} RestartedDown(job: Job, log: seq<Event>, n: nat)
    requires job.Valid() && n <= |job.ifs|
    ensures log <= Restarted(job, log, n)
    ensures forall i :: i in Down(Restarted(job, log, n)) <==> i in Down(log) && i >= n
  {
    hide Down, RestartedOne;
    if n > 0 {
      RestartedDown(job, log, n - 1);
      RestartedOneDown(job, Restarted(job, log, n - 1), n - 1);
    }
  }

  lemma AddedSplit<T>(a: seq<T>, b: seq<T>, c: seq<T>)
    requires a <= b <= c
    ensures a <= c && c[|a|..] == b[|a|..] + c[|b|..]
  {
  }

  lemma AddedIs<T>(a: seq<T>, b: seq<T>)
    ensures a <= a + b && (a + b)[|a|..] == b
  {
  }

  /** The events that restarting adapter `i` takes. */
  predicate Restarting(job: Job, down: set<nat>, i: nat, e: Event)
    requires job.Valid() && i < |job.ifs|
  {
    || (e == Power(i, false) && job.Restarts(i) && i !in down)
    || (e == Power(i, true) && (job.Restarts(i) || i in down))
  }

  lemma RestartedOneAdds(job: Job, log: seq<Event>, i: nat, e: Event)
    requires job.Valid() && i < |job.ifs|
    ensures var now := RestartedOne(job, log, i);
      log <= now && (e in now[|log|..] <==> Restarting(job, Down(log), i, e))
  {
    hide Down, Job.Restarts;
    var now, off, on := RestartedOne(job, log, i), Power(i, false), Power(i, true);
    if job.Restarts(i) && i !in Down(log) {
      assert log + [off] + [on] == log + ([off] + [on]);
      AddedIs(log, [off] + [on]);
    } else if i in Down(log) {
      AddedIs(log, [on]);
    } else {
      assert log[|log|..] == [];
    }
  }

  /** The turns before that of adapter `i` do not touch it. */
  lemma RestartingStill(job: Job, log: seq<Event>, i: nat, e: Event)
    requires job.Valid() && i < |job.ifs|
    ensures Restarting(job, Down(Restarted(job, log, i)), i, e) <==> Restarting(job, Down(log), i, e)
    ensures Restarting(job, Down(log), i, e) ==> e.Power? && e.i == i
  {
    RestartedDown(job, log, i);
  }

  /** An adapter is switched off and on behind the last setter exactly when its DHCP was to be switched
      on and it was not off already; an adapter that was off is switched on; nothing else happens. */
  lemma {:induction false} RestartedExactly(job: Job, log: seq<Event>, n: nat, e: Event)
    requires job.Valid() && n <= |job.ifs|
    ensures var now := Restarted(job, log, n);
      log <= now && (e in now[|log|..] <==> e.Power? && e.i < n && Restarting(job, Down(log), e.i, e))
  {
    hide Restarting, RestartedOne, Down;
    if n > 0 {
      var before := Restarted(job, log, n - 1);
      RestartedExactly(job, log, n - 1, e);
      RestartedOneAdds(job, before, n - 1, e);
      RestartingStill(job, log, n - 1, e);
      AddedSplit(log, before, Restarted(job, log, n));
    } else {
      assert log[|log|..] == [];
    }
  }

  /** Exactly when an adapter is restarted, in terms of its flags and of the value of its newest DHCP
      entry. With a comparison: when DHCP that was asked for is off. Without one: when any is switched on,
      in a build that prints the comparison, and never in another. */
  lemma RestartsExactly(job: Job, i: nat)
    requires job.Valid() && i < |job.ifs|
    ensures var a, macs := job.ifs[i], job.macs;
      job.Restarts(i) <==>
        job.host.platform == Vista && EntryFor(macs, a, Dhcp) < |macs| && (
          var value := ValueFor(macs, a, Dhcp);
          var unasked := job.host.ipv6 && EntryFor(macs, a, Ip) == |macs| && !a.dhcp6;
          var asked := ('4' in value && !a.dhcp4) || ('6' in value && !a.dhcp6);
          if job.compare then asked else job.host.debug && (asked || unasked))
  {
  }

  /** On newer Windows, as it is built, DHCP is switched on without a restart exactly when settings are
      compared and IPv6 alone is switched on, unasked. */
  lemma SwitchedWithoutRestart(job: Job, i: nat)
    requires job.Valid() && i < |job.ifs| && job.host.platform == Vista && job.host.debug
    requires EntryFor(job.macs, job.ifs[i], Dhcp) < |job.macs|
    ensures (job.Switches4(i) || job.Switches6(i)) && !job.Restarts(i) <==>
      job.compare && !job.Switches4(i) && job.Switches6(i) && '6' !in ValueFor(job.macs, job.ifs[i], Dhcp)
  {
  }

  /** For example, when DHCP is asked for and off, and nothing is compared, the macro that adds debug
      output makes the difference. */
  lemma DebugRestarts(debug: bool, ipv6: bool)
    ensures var a, e := Adapter("m", [], [], [], [], false, false), Entry({Dhcp}, Some("m"), Some("4"));
      var job := Job(Host(Vista, debug, ipv6), [a], [e], false, [true]);
      job.Valid() && job.changed == Decide(job.ifs, job.macs, job.compare) && (job.Restarts(0) <==> debug)
  {
    var a, e := Adapter("m", [], [], [], [], false, false), Entry({Dhcp}, Some("m"), Some("4"));
    assert Fits(e, Some("m"), {Dhcp}) && EntryFor([e], a, Dhcp) == 0;
    DhcpMakesChange(a, [e], false);
  }

  lemma {:induction false} NoRestarts(job: Job, log: seq<Event>, n: nat)
    requires job.Valid() && n <= |job.ifs| && Down(log) == {}
    requires forall i :: 0 <= i < |job.ifs| ==> !job.Restarts(i)
    ensures Restarted(job, log, n) == log
  {
    if n > 0 {
      NoRestarts(job, log, n - 1);
    }
  }

  /** Without settings nothing is compared. */
  lemma NothingCompared(ifs: seq<Adapter>, macs: seq<Entry>, job: Job)
    requires job.Valid() && job.ifs == ifs && job.macs == Exclude(ifs, macs) && Count(macs, BYMAC) == 0
    ensures forall i :: 0 <= i < |ifs| ==> !job.Restarts(i)
  {
    ExcludeAt(ifs, macs);
    CountedIsNone(macs, None, BYMAC);
    forall i | 0 <= i < |ifs|
      ensures !job.Restarts(i)
    {
      NoneIsFound(job.macs, Some(ifs[i].mac), {Dhcp});
    }
  }

  /** ... and no adapter is switched off. */
  lemma NothingDown(ifs: seq<Adapter>, macs: seq<Entry>, job: Job)
    requires job.Valid() && job.ifs == ifs && job.macs == Exclude(ifs, macs) && Count(macs, BYMAC) == 0
    ensures DownBy(job, |ORDER|) == {}
  {
    ExcludeAt(ifs, macs);
    CountedIsNone(macs, None, BYMAC);
    forall i, m | 0 <= i < |ifs| && 0 <= m < |ORDER|
      ensures !job.Downs(ORDER[m])[i]
    {
      NoneIsFound(job.macs, Some(ifs[i].mac), {Gateway});
      NoneIsFound(job.macs, Some(ifs[i].mac), {Route});
    }
    forall i | i in DownBy(job, |ORDER|)
      ensures false
    {
      DownByMeans(job, |ORDER|, i);
    }
  }

  /** Behind the last loop every adapter is on. */
  lemma AllUpAtEnd(job: Job, log: seq<Event>)
    requires job.Valid() && job.Follows(log)
    ensures Down(Restarted(job, log, |job.ifs|)) == {}
  {
    DownIsFound(job, log);
    RestartedDown(job, log, |job.ifs|);
  }

  /** Something is to be set. */
  predicate Asking(macs: seq<Entry>) {
    Count(macs, BYMAC) > 0 || Count(macs, NOTMAC) > 0
  }

  // ---- missing adapters ---------------------------------------------------

  /** The MACs of the first `n` entries that were not found, in order. */
  function Missing(ifs: seq<Adapter>, macs: seq<Entry>, n: nat): seq<string>
    requires n <= |macs|
  {
    if n == 0 then []
    else if Known(ifs, macs[n - 1]) then Missing(ifs, macs, n - 1)
    else Missing(ifs, macs, n - 1) + [macs[n - 1].mac.value]
  }

  lemma {:induction false} MissingSame(ifs: seq<Adapter>, a: seq<Entry>, b: seq<Entry>, n: nat)
    requires n <= |a| && n <= |b| && forall i :: 0 <= i < n ==> a[i].mac == b[i].mac
    ensures Missing(ifs, a, n) == Missing(ifs, b, n)
  {
    if n > 0 {
      MissingSame(ifs, a, b, n - 1);
    }
  }

  /** Excluding entries does not change which are missing. */
  lemma MissingExclude(ifs: seq<Adapter>, macs: seq<Entry>)
    ensures |Exclude(ifs, macs)| == |macs|
    ensures Missing(ifs, Exclude(ifs, macs), |macs|) == Missing(ifs, macs, |macs|)
  {
    ExcludeAt(ifs, macs);
    MissingSame(ifs, Exclude(ifs, macs), macs, |macs|);
  }

  /** While adapters are woken nothing else happens. */
  ghost predicate OnlyWoken(job: Job, log: seq<Event>, macs: seq<string>, wait: seq<string>)
    requires job.Valid()
  {
    && job.Follows(log) && Status(log, 0, 0) && Calls(log) == [] && Down(log) == {}
    && Woken(log) == macs && Waking(log) == wait && forall e <- log :: e.Woke?
  }

  lemma OneMoreWoken(job: Job, log: seq<Event>, macs: seq<string>, wait: seq<string>, mac: string, rc: int)
    requires job.Valid() && OnlyWoken(job, log, macs, wait)
    requires job.host.platform == Vista && SearchMac(job.ifs, mac) == |job.ifs|
    ensures OnlyWoken(job, log + [Woke(mac, rc)], macs + [mac], if rc > 0 then wait + [mac] else wait)
  {
    assert (log + [Woke(mac, rc)])[..|log|] == log;
  }

  /** Missing adapters are woken before anything else happens. */
  lemma {:induction false} WokenFirst(job: Job, log: seq<Event>)
    requires job.Valid() && job.Follows(log)
    ensures forall p, q :: 0 <= p < q < |log| && log[q].Woke? ==> log[p].Woke?
  {
    if log != [] {
      WokenFirst(job, log[..|log| - 1]);
      assert forall p :: 0 <= p < |log| - 1 ==> log[p] == log[..|log| - 1][p] && log[p] in log;
    }
  }

  /** Exactly the MACs in the options that no adapter has. */
  lemma {:induction false} MissingExactly(ifs: seq<Adapter>, macs: seq<Entry>, n: nat, mac: string)
    requires n <= |macs|
    ensures mac in Missing(ifs, macs, n) <==>
      SearchMac(ifs, mac) == |ifs| && exists k :: 0 <= k < n && macs[k].mac == Some(mac)
  {
    if n > 0 {
      MissingExactly(ifs, macs, n - 1, mac);
    }
  }
}
