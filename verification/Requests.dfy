/** From the command line to the calls: what is asked for is what is applied (options.c, nettool.c). */
module Requests {
  import opened Text
  import opened OptionSpec
  import opened OptionRuns
  import opened ApplySpec
  import Names

  /** What parsing leaves is what applying needs. */
  lemma SetListIsValued(macs: seq<Entry>)
    requires SetList(macs)
    ensures HasValues(macs)
  {
    forall e | e in macs && e.kinds != {}
      ensures e.value.Some?
    {
      assert IsSetting(e);
    }
  }

  /** Excluding unknown MACs does not change what is found for a known one. */
  lemma {:induction false} KnownIsKept(ifs: seq<Adapter>, macs: seq<Entry>, mac: string, kinds: set<Kind>)
    requires SearchMac(ifs, mac) < |ifs|
    ensures GetOptMac(Exclude(ifs, macs), Some(mac), kinds) == GetOptMac(macs, Some(mac), kinds)
    ensures |Exclude(ifs, macs)| == |macs|
  {
    if macs != [] {
      KnownIsKept(ifs, macs[1..], mac, kinds);
      assert Exclude(ifs, macs)[1..] == Exclude(ifs, macs[1..]);
    }
  }

  lemma {:induction false} SearchMacFound(ifs: seq<Adapter>, i: nat)
    requires i < |ifs|
    ensures SearchMac(ifs, ifs[i].mac) <= i
  {
    if i > 0 {
      SearchMacFound(ifs[1..], i - 1);
    }
  }

  /** The entry found for an adapter holds what the list says. */
  lemma EntryIsSetting(ifs: seq<Adapter>, macs: seq<Entry>, i: nat, kind: Kind)
    requires i < |ifs| && HasValues(macs)
    ensures var now, a := Exclude(ifs, macs), ifs[i];
      && HasValues(now)
      && (EntryFor(now, a, kind) < |now| <==> Setting(macs, Some(a.mac), kind).Some?)
      && (EntryFor(now, a, kind) < |now| ==> Some(ValueFor(now, a, kind)) == Setting(macs, Some(a.mac), kind))
  {
    var a, now := ifs[i], Exclude(ifs, macs);
    ExcludeKeepsValued(ifs, macs);
    ExcludeAt(ifs, macs);
    SearchMacFound(ifs, i);
    KnownIsKept(ifs, macs, a.mac, {kind});
    if EntryFor(now, a, kind) < |now| {
      EntryForFits(now, a, kind);
    }
  }

  /** The job that a command line of settings leads to. */
  function JobOf(p: Parsed, ifs: seq<Adapter>, host: Host): (job: Job)
    requires HasValues(p.opts.macs)
    ensures job.Valid() && job.ifs == ifs
  {
    ExcludeKeepsValued(ifs, p.opts.macs);
    var macs := Exclude(ifs, p.opts.macs);
    Job(host, ifs, macs, p.opts.compare, Decide(ifs, macs, p.opts.compare))
  }

  /** What a line of settings leaves. */
  lemma ParsedIsValued(cmds: seq<Cmd>, ipv6: bool, env: bool)
    requires forall c <- cmds :: GoodCmd(c, ipv6)
    ensures var macs := Parse(["set"] + AllWords(cmds), ipv6, env).opts.macs; SetList(macs) && HasValues(macs)
  {
    ParsedSettings(cmds, ipv6, env);
    ParsedIsSound(["set"] + AllWords(cmds), ipv6, env);
    SetListIsValued(Parse(["set"] + AllWords(cmds), ipv6, env).opts.macs);
  }

  lemma {:induction false} SwitchesAskNothing(done: seq<Cmd>, mac: Option<string>, kind: Kind)
    requires OnlySwitches(done)
    ensures Asked(done, mac, kind) == None
  {
    if done != [] {
      assert done[|done| - 1] in done && forall c <- done[..|done| - 1] :: c in done;
      SwitchesAskNothing(done[..|done| - 1], mac, kind);
    }
  }

  /** The setter of a kind is called for adapter `i` exactly once, with the value asked for, if
      there is one and the adapter is to change; and otherwise never. */
  predicate Serves(job: Job, kind: Kind, i: nat, asked: Option<string>, k: nat)
    requires job.Valid() && i < |job.ifs|
  {
    var entry := EntryFor(job.macs, job.ifs[i], kind);
    && (Times(Plan(job.ifs, job.macs, job.changed), SetFor(kind, i, k)) ==
          if asked.Some? && job.changed[i] && k == entry then 1 else 0)
    && (asked.Some? ==> entry < |job.macs| && asked == Some(ValueFor(job.macs, job.ifs[i], kind)))
  }

  /** What is asked for in a kind that adapters have differs from what this one has; without a comparison
      everything does. */
  predicate Wants(kind: Kind, a: Adapter, done: seq<Cmd>, compare: bool) {
    var asked := Asked(done, Some(a.mac), kind);
    Asks(Some(a.mac), kind) && asked.Some? && (compare ==>
      match kind
      case Dhcp => ('4' in asked.value) != a.dhcp4 || ('6' in asked.value) != a.dhcp6
      case Ip => a.ip == [] || !Names.Matches(a.ip, a.ipLink, asked.value, ' ')
      case Gateway => !Names.Matches(a.gateway, [], asked.value, ' ')
      case Dns => !Names.Matches(a.dns, [], asked.value, ' ')
      case _ => false)
  }

  /** ... in some kind. */
  predicate ToChange(a: Adapter, done: seq<Cmd>, compare: bool) {
    exists kind :: Wants(kind, a, done, compare)
  }

  /** For every line of settings and switches, every adapter and every kind that adapters have:
      exactly what the line asks for last, up to where reading stops, is applied, and to exactly the
      adapters for which something asked for makes a difference, or anything is asked for when
      nothing is compared. */
  lemma AskedIsApplied(cmds: seq<Cmd>, ipv6: bool, env: bool, ifs: seq<Adapter>, host: Host, i: nat, kind: Kind, k: nat)
    requires forall c <- cmds :: GoodCmd(c, ipv6)
    requires i < |ifs| && kind in {Dhcp, Ip, Dns, Route}
    ensures var p, n := Parse(["set"] + AllWords(cmds), ipv6, env), Accepted(cmds, 0);
      var done, asked := cmds[..n], Asked(cmds[..n], Some(ifs[i].mac), kind);
      && HasValues(p.opts.macs) && Serves(JobOf(p, ifs, host), kind, i, asked, k)
      && (asked.Some? ==> p.end == Returned)
      && (JobOf(p, ifs, host).changed[i] <==>
            ToChange(ifs[i], done, Compares(p, done, n == |cmds|, env)))
  {
    var p, n := Parse(["set"] + AllWords(cmds), ipv6, env), Accepted(cmds, 0);
    ParsedIsValued(cmds, ipv6, env);
    ParsedSettings(cmds, ipv6, env);
    if OnlySwitches(cmds[..n]) {
      SwitchesAskNothing(cmds[..n], Some(ifs[i].mac), kind);
    }
    assert p.opts.compare == Compares(p, cmds[..n], n == |cmds|, env);
    ListIsApplied(p, cmds[..n], ifs, host, i, kind, k);
    ListDecides(p, cmds[..n], ifs, host, i);
  }

  lemma ListIsApplied(p: Parsed, done: seq<Cmd>, ifs: seq<Adapter>, host: Host, i: nat, kind: Kind, k: nat)
    requires HasValues(p.opts.macs) && Holds(p.opts.macs, done)
    requires i < |ifs| && kind in {Dhcp, Ip, Dns, Route}
    ensures Serves(JobOf(p, ifs, host), kind, i, Asked(done, Some(ifs[i].mac), kind), k)
  {
    var job, a := JobOf(p, ifs, host), ifs[i];
    assert Asks(Some(a.mac), kind);
    assert Setting(p.opts.macs, Some(a.mac), kind) == Asked(done, Some(a.mac), kind);
    EntryIsSetting(ifs, p.opts.macs, i, kind);
    PlanExact(ifs, job.macs, job.changed, SetFor(kind, i, k));
  }

  /** Whether one kind makes an adapter one to change is what the commands say about it. */
  lemma DiffersIsWanted(p: Parsed, done: seq<Cmd>, ifs: seq<Adapter>, i: nat, kind: Kind)
    requires SetList(p.opts.macs) && HasValues(p.opts.macs) && Holds(p.opts.macs, done) && i < |ifs|
    ensures HasValues(Exclude(ifs, p.opts.macs))
    ensures Decides(kind, p.opts.compare) && DiffersIn(kind, ifs[i], Exclude(ifs, p.opts.macs), p.opts.compare) <==>
      Wants(kind, ifs[i], done, p.opts.compare)
  {
    var mac, macs := Some(ifs[i].mac), p.opts.macs;
    EntryIsSetting(ifs, macs, i, kind);
    if Asks(mac, kind) {
      assert Setting(macs, mac, kind) == Asked(done, mac, kind);
    } else if GetOptMac(macs, mac, {kind}) < |macs| {
      NoOtherSetting(macs, mac, kind);
    }
  }

  lemma NoOtherSetting(macs: seq<Entry>, mac: Option<string>, kind: Kind)
    requires SetList(macs) && mac.Some? && GetOptMac(macs, mac, {kind}) < |macs|
    ensures Asks(mac, kind)
  {
    var e := macs[GetOptMac(macs, mac, {kind})];
    assert e in macs && Fits(e, mac, {kind}) && kind in e.kinds;
  }

  lemma ListDecides(p: Parsed, done: seq<Cmd>, ifs: seq<Adapter>, host: Host, i: nat)
    requires SetList(p.opts.macs) && HasValues(p.opts.macs) && Holds(p.opts.macs, done) && i < |ifs|
    ensures JobOf(p, ifs, host).changed[i] <==> ToChange(ifs[i], done, p.opts.compare)
  {
    var macs := Exclude(ifs, p.opts.macs);
    ExcludeKeepsValued(ifs, p.opts.macs);
    ChangedExactly(ifs[i], macs, p.opts.compare);
    forall kd | Decides(kd, p.opts.compare) && DiffersIn(kd, ifs[i], macs, p.opts.compare)
      ensures Wants(kd, ifs[i], done, p.opts.compare)
    {
      DiffersIsWanted(p, done, ifs, i, kd);
    }
    forall kd | Wants(kd, ifs[i], done, p.opts.compare)
      ensures Decides(kd, p.opts.compare) && DiffersIn(kd, ifs[i], macs, p.opts.compare)
    {
      DiffersIsWanted(p, done, ifs, i, kd);
    }
  }

  /** The same for adapters whose names are names, without the comparison: the ones to change are those
      that lack something the line asks for, unless a part of a longer name hides that. */
  lemma LackingIsChanged(cmds: seq<Cmd>, ipv6: bool, env: bool, ifs: seq<Adapter>, host: Host, i: nat)
    requires forall c <- cmds :: GoodCmd(c, ipv6)
    requires i < |ifs| && WellNamed(ifs[i])
    ensures var p, n := Parse(["set"] + AllWords(cmds), ipv6, env), Accepted(cmds, 0);
      var done, compare := cmds[..n], Compares(p, cmds[..n], n == |cmds|, env);
      HasValues(p.opts.macs) &&
      (JobOf(p, ifs, host).changed[i] <==> exists kind :: Lacks(kind, ifs[i], done, compare))
  {
    var p, n := Parse(["set"] + AllWords(cmds), ipv6, env), Accepted(cmds, 0);
    var done, compare := cmds[..n], Compares(p, cmds[..n], n == |cmds|, env);
    AskedIsApplied(cmds, ipv6, env, ifs, host, i, Dhcp, 0);
    forall kind
      ensures Wants(kind, ifs[i], done, compare) <==> Lacks(kind, ifs[i], done, compare)
    {
      WantsWhatItLacks(kind, ifs[i], done, compare);
    }
  }

  predicate Lacks(kind: Kind, a: Adapter, done: seq<Cmd>, compare: bool) {
    var asked := Asked(done, Some(a.mac), kind);
    Asks(Some(a.mac), kind) && asked.Some? &&
    (compare ==> !HasAlready(kind, a, asked.value) && !Misled(kind, a, asked.value))
  }

  lemma WantsWhatItLacks(kind: Kind, a: Adapter, done: seq<Cmd>, compare: bool)
    requires WellNamed(a)
    ensures Wants(kind, a, done, compare) <==> Lacks(kind, a, done, compare)
  {
    hide Names.Matches, HasAlready, Misled;
    var asked := Asked(done, Some(a.mac), kind);
    if asked.Some? {
      DifferenceIsSeen(kind, a, asked.value);
    }
  }
}
