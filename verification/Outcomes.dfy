/** What applying settings comes to, in plain words (nettool.c): which entry an adapter gets, in which
    order the setters are called, and when adapters are switched off and restarted. */
module Outcomes {
  import opened Text
  import opened OptionSpec
  import opened ApplySpec
  import Names

  // ---- which entry --------------------------------------------------------

  /** The first adapter with the MAC is found, and none exactly when none has it. */
  lemma {:induction false} SearchMacMeans(ifs: seq<Adapter>, mac: string)
    ensures var k := SearchMac(ifs, mac);
      && (k < |ifs| <==> exists a <- ifs :: a.mac == mac)
      && forall j :: 0 <= j < k ==> ifs[j].mac != mac
  {
    if ifs != [] {
      SearchMacMeans(ifs[1..], mac);
      assert ifs == [ifs[0]] + ifs[1..];
    }
  }

  /** An entry loses its kinds exactly when it names a MAC that no adapter has. */
  lemma ExcludeMeans(ifs: seq<Adapter>, macs: seq<Entry>, i: nat)
    requires i < |macs|
    ensures |Exclude(ifs, macs)| == |macs|
    ensures var e, now := macs[i], Exclude(ifs, macs)[i];
      && now.mac == e.mac && now.value == e.value
      && now.kinds == if e.mac.None? || exists a <- ifs :: Some(a.mac) == e.mac then e.kinds else {}
  {
    ExcludeAt(ifs, macs);
    if macs[i].mac.Some? {
      SearchMacMeans(ifs, macs[i].mac.value);
      assert forall a <- ifs :: Some(a.mac) == macs[i].mac <==> a.mac == macs[i].mac.value;
    }
  }

  /** An adapter gets the first entry that names its MAC and the kind. */
  lemma EntryForMeans(macs: seq<Entry>, a: Adapter, kind: Kind)
    ensures var k := EntryFor(macs, a, kind);
      && (k < |macs| ==> kind in macs[k].kinds && macs[k].mac == Some(a.mac))
      && forall j :: 0 <= j < k ==> kind !in macs[j].kinds || macs[j].mac != Some(a.mac)
  {
    GetOptMacFirst(macs, Some(a.mac), {kind});
    assert forall e: Entry :: kind in e.kinds ==> kind in e.kinds * {kind};
    assert forall j :: 0 <= j < EntryFor(macs, a, kind) ==> !Fits(macs[j], Some(a.mac), {kind});
    if EntryFor(macs, a, kind) < |macs| {
      assert Fits(macs[EntryFor(macs, a, kind)], Some(a.mac), {kind});
    }
  }

  /** The system gets the first entry with the kind. */
  lemma EntryForSystem(macs: seq<Entry>, kind: Kind)
    ensures var k := GetOptMac(macs, None, {kind});
      && (k < |macs| ==> kind in macs[k].kinds)
      && forall j :: 0 <= j < k ==> kind !in macs[j].kinds
  {
    GetOptMacFirst(macs, None, {kind});
    assert forall e: Entry :: kind in e.kinds ==> kind in e.kinds * {kind};
    assert forall j :: 0 <= j < GetOptMac(macs, None, {kind}) ==> !Fits(macs[j], None, {kind});
  }

  /** The MAC woken in place `p` is that of an entry. */
  lemma {:induction false} MissingAt(ifs: seq<Adapter>, macs: seq<Entry>, n: nat, p: nat) returns (k: nat)
    requires n <= |macs| && p < |Missing(ifs, macs, n)|
    ensures k < n && macs[k].mac == Some(Missing(ifs, macs, n)[p])
  {
    if p < |Missing(ifs, macs, n - 1)| {
      k := MissingAt(ifs, macs, n - 1, p);
    } else {
      k := n - 1;
    }
  }

  /** Missing adapters are woken in the order of their entries. */
  lemma {:induction false} MissingInOrder(ifs: seq<Adapter>, macs: seq<Entry>, n: nat, p: nat, q: nat) returns (k: nat, l: nat)
    requires n <= |macs| && p < q < |Missing(ifs, macs, n)|
    ensures k < l < n
    ensures macs[k].mac == Some(Missing(ifs, macs, n)[p]) && macs[l].mac == Some(Missing(ifs, macs, n)[q])
  {
    if q < |Missing(ifs, macs, n - 1)| {
      k, l := MissingInOrder(ifs, macs, n - 1, p, q);
    } else {
      k := MissingAt(ifs, macs, n - 1, p);
      l := n - 1;
    }
  }

  // ---- in which order -----------------------------------------------------

  /** Setters are called kind by kind in this order. */
  lemma KindsInOrder(ifs: seq<Adapter>, macs: seq<Entry>, changed: seq<bool>, p: nat, q: nat, x: nat, y: nat)
    requires |changed| == |ifs| && p <= q < |Plan(ifs, macs, changed)|
    requires x < 7 && y < 7
    requires var order, acts := [Dhcp, Ip, Gateway, Search, Dns, Route, Hostname], Plan(ifs, macs, changed);
      KindOf(acts[p]) == order[x] && KindOf(acts[q]) == order[y]
    ensures x <= y
  {
    hide Plan;
    PlanOrdered(ifs, macs, changed, p, q);
    var order := [Dhcp, Ip, Gateway, Search, Dns, Route, Hostname];
    assert Rank(order[x]) == x && Rank(order[y]) == y;
  }

  lemma IsRemovalMeans(value: string)
    ensures IsRemoval(value) <==> exists a, b :: "remove" == a + value + b
  {
    OccursMeans(value, "remove");
  }

  /** Of two gateways the one whose value is a part of the word "remove" comes first. */
  lemma RemovalsFirst(ifs: seq<Adapter>, macs: seq<Entry>, changed: seq<bool>, p: nat, q: nat)
    requires |changed| == |ifs| && p < |Plan(ifs, macs, changed)| && q < |Plan(ifs, macs, changed)|
    requires var acts := Plan(ifs, macs, changed);
      && acts[p].SetGateway? && acts[p].k < |macs| && Gateway in macs[acts[p].k].kinds && macs[acts[p].k].value.Some?
      && acts[q].SetGateway? && acts[q].k < |macs| && Gateway in macs[acts[q].k].kinds && macs[acts[q].k].value.Some?
    requires var acts := Plan(ifs, macs, changed);
      && (exists a, b :: "remove" == a + macs[acts[p].k].value.value + b)
      && !exists a, b :: "remove" == a + macs[acts[q].k].value.value + b
    ensures p < q
  {
    hide Plan, IsRemoval;
    var acts := Plan(ifs, macs, changed);
    IsRemovalMeans(macs[acts[p].k].value.value);
    IsRemovalMeans(macs[acts[q].k].value.value);
    if q <= p {
      PlanOrdered(ifs, macs, changed, q, p);
    }
  }

  // ---- off and on ---------------------------------------------------------

  /** An adapter is off when it was switched off and not on again. */
  lemma {:induction false} DownMeans(log: seq<Event>, i: nat)
    ensures i in Down(log) <==>
      exists p :: 0 <= p < |log| && log[p] == Power(i, false) && forall q :: p < q < |log| ==> log[q] != Power(i, true)
  {
    if log != [] {
      var n := |log| - 1;
      var before := log[..n];
      DownMeans(before, i);
      assert forall p :: 0 <= p < n ==> before[p] == log[p];
      assert |log| == n + 1;
      if log[n] != Power(i, false) && i in Down(log) {
        var p :| 0 <= p < n && before[p] == Power(i, false) && forall q :: p < q < n ==> before[q] != Power(i, true);
        assert log[p] == Power(i, false) && forall q :: p < q < |log| ==> log[q] != Power(i, true);
      }
    }
  }

  lemma {:induction false} AllowedAt(job: Job, log: seq<Event>, p: nat)
    requires job.Valid() && job.Follows(log) && p < |log|
    ensures job.Allowed(Down(log[..p]), log[p])
  {
    hide Job.Allowed, Down;
    if p < |log| - 1 {
      AllowedAt(job, log[..|log| - 1], p);
      assert log[..|log| - 1][..p] == log[..p];
    }
  }

  /** The adapter has an entry for a gateway or a route. */
  predicate Routed(a: Adapter, macs: seq<Entry>) {
    exists e <- macs :: e.mac == Some(a.mac) && (Gateway in e.kinds || Route in e.kinds)
  }

  lemma RoutedNeedsDown(job: Job, i: nat)
    requires job.Valid() && i < |job.ifs|
    ensures job.NeedsDown(i) <==> job.host.platform == Win2003 && Routed(job.ifs[i], job.macs)
  {
    var a, macs := job.ifs[i], job.macs;
    EntryForMeans(macs, a, Gateway);
    EntryForMeans(macs, a, Route);
    if Routed(a, macs) {
      var e :| e in macs && e.mac == Some(a.mac) && (Gateway in e.kinds || Route in e.kinds);
      var k :| 0 <= k < |macs| && macs[k] == e;
    }
  }

  /** Behind the last setter exactly these adapters are off: on older Windows, the changed ones with a gateway
      or a route. */
  lemma OffAtEnd(job: Job, i: nat)
    requires job.Valid()
    ensures i in DownBy(job, |ORDER|) <==>
      i < |job.ifs| && job.changed[i] && job.host.platform == Win2003 && Routed(job.ifs[i], job.macs)
  {
    hide Routed, DownBy;
    DownByMeans(job, |ORDER|, i);
    if i < |job.ifs| {
      RoutedNeedsDown(job, i);
      if job.changed[i] && job.NeedsDown(i) {
        var m := if EntryFor(job.macs, job.ifs[i], Gateway) < |job.macs| then 2 else 5;
        assert job.Downs(ORDER[m])[i];
      }
    }
  }

  /** The loop for one kind switches off exactly those of them that have an entry of that kind. */
  lemma OffForKind(job: Job, kind: Kind, i: nat)
    requires job.Valid() && i < |job.ifs|
    ensures job.Downs(kind)[i] <==>
      && job.changed[i] && job.host.platform == Win2003 && Routed(job.ifs[i], job.macs)
      && exists e <- job.macs :: e.mac == Some(job.ifs[i].mac) && kind in e.kinds
  {
    hide Routed;
    RoutedNeedsDown(job, i);
    EntryForMeans(job.macs, job.ifs[i], kind);
    if EntryFor(job.macs, job.ifs[i], kind) == |job.macs| {
      assert forall k :: 0 <= k < |job.macs| ==> kind !in job.macs[k].kinds || job.macs[k].mac != Some(job.ifs[i].mac);
    } else {
      assert job.macs[EntryFor(job.macs, job.ifs[i], kind)] in job.macs;
    }
  }

  /** On older Windows, whatever is set for an adapter with a gateway or a route is set while it is off. */
  lemma SetWhileOff(job: Job, log: seq<Event>, p: nat, kind: Kind, i: nat, k: nat, rc: int)
    requires job.Valid() && job.Follows(log) && p < |log| && log[p] == Called(SetFor(kind, i, k), rc)
    requires i < |job.ifs| && job.host.platform == Win2003 && Routed(job.ifs[i], job.macs)
    ensures exists q :: 0 <= q < p && log[q] == Power(i, false) && forall r :: q < r < p ==> log[r] != Power(i, true)
  {
    hide Down, Routed, Job.NeedsDown, Job.Follows;
    AllowedAt(job, log, p);
    RoutedNeedsDown(job, i);
    DownMeans(log[..p], i);
    var q :| 0 <= q < p && log[..p][q] == Power(i, false) && forall r :: q < r < p ==> log[..p][r] != Power(i, true);
    assert log[q] == Power(i, false) && forall r :: q < r < p ==> log[..p][r] == log[r];
  }

  /** No adapter is switched off but there for that, or to be restarted. */
  lemma OffOnlyWhen(job: Job, log: seq<Event>, p: nat, i: nat)
    requires job.Valid() && job.Follows(log) && p < |log| && log[p] == Power(i, false)
    ensures i < |job.ifs|
    ensures (job.host.platform == Win2003 && job.changed[i] && Routed(job.ifs[i], job.macs)) || job.Restarts(i)
  {
    hide Down, Routed, Job.NeedsDown, Job.Follows, Job.Restarts;
    AllowedAt(job, log, p);
    RoutedNeedsDown(job, i);
  }
}
