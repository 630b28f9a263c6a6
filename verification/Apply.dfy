/** `apply_parameters` on the heap (nettool.c), proved to make the calls of `ApplySpec`. */
module Apply {
  import opened Text
  import opened OptionSpec
  import opened Options
  import opened ApplySpec
  import opened Invariants
  import Names

  /** An adapter that was found, with what the run notes about it. */
  class Iface {
    const info: Adapter
    const next: Iface?
    var changed: bool
    var dhcp4Changed: bool
    var dhcp6Changed: bool
    var disabled: bool

    constructor (info: Adapter, next: Iface?)
      ensures this.info == info && this.next == next
      ensures !changed && !dhcp4Changed && !dhcp6Changed && !disabled
    {
      this.info, this.next := info, next;
      changed, dhcp4Changed, dhcp6Changed, disabled := false, false, false, false;
    }
  }

  class Run {
    const host: Host
    const opts: NetOpts
    const head: Iface?
    ghost const nodes: seq<Iface>
    ghost const ifs: seq<Adapter>
    ghost var log: seq<Event>

    /** The list of adapters. */
    ghost predicate Linked() {
      && |nodes| == |ifs| && head == At(0)
      && (forall i, j :: 0 <= i < j < |nodes| ==> nodes[i] != nodes[j])
      && (forall i {:trigger nodes[i].next} :: 0 <= i < |nodes| ==> nodes[i].next == At(i + 1))
      && (forall i {:trigger nodes[i].info} :: 0 <= i < |nodes| ==> nodes[i].info == ifs[i])
    }

    ghost function At(i: nat): Iface?
      requires i <= |nodes|
    {
      if i < |nodes| then nodes[i] else null
    }

    lemma Distinct(i: nat)
      requires Linked() && i < |nodes|
      ensures |nodes| == |ifs| && forall j :: 0 <= j < |nodes| && j != i ==> nodes[j] != nodes[i]
    {
    }

    /** One step along the list. */
    lemma Step(k: nat)
      requires Linked() && k <= |nodes|
      ensures |nodes| == |ifs| && head == At(0) && (At(k) == null <==> k == |nodes|)
      ensures k < |nodes| ==> At(k) == nodes[k] && nodes[k].next == At(k + 1)
    {
    }

    ghost predicate Valid()
      reads opts, opts.Repr
    {
      && opts.Valid() && this !in opts.Repr
      && forall i :: 0 <= i < |nodes| ==> nodes[i] !in opts.Repr
    }

    /** `get_device_list` found these adapters. */
    constructor (host: Host, opts: NetOpts, head: Iface?, ghost nodes: seq<Iface>, ghost ifs: seq<Adapter>)
      requires opts.Valid() && forall i :: 0 <= i < |nodes| ==> nodes[i] !in opts.Repr
      requires |nodes| == |ifs| && head == (if nodes == [] then null else nodes[0])
      requires forall i, j :: 0 <= i < j < |nodes| ==> nodes[i] != nodes[j]
      requires forall i {:trigger nodes[i].next} :: 0 <= i < |nodes| ==>
        nodes[i].next == if i + 1 < |nodes| then nodes[i + 1] else null
      requires forall i {:trigger nodes[i].info} :: 0 <= i < |nodes| ==> nodes[i].info == ifs[i]
      ensures Linked() && Valid() && log == [] && this.host == host && this.opts == opts
      ensures this.nodes == nodes && this.ifs == ifs
    {
      this.host, this.opts, this.head, this.nodes, this.ifs, log := host, opts, head, nodes, ifs, [];
    }

    // ---- finding ----------------------------------------------------------

    /** `netinfo_search_mac` */
    method FindIface(mac: string) returns (it: Iface?, ghost i: nat)
      requires Linked()
      ensures i == SearchMac(ifs, mac) && it == At(SearchMac(ifs, mac))
    {
      it, i := head, 0;
      while it != null
        invariant i <= |nodes| && it == At(i)
        invariant SearchMac(ifs, mac) == i + SearchMac(ifs[i..], mac)
        decreases |nodes| - i
      {
        assert ifs[i..][1..] == ifs[i + 1..] && it.info == ifs[i];
        if it.info.mac == mac {
          return;
        }
        it, i := it.next, i + 1;
      }
    }

    /** Entries whose MAC was not found lose their kind. */
    method ExcludeUnknown()
      requires Linked() && Valid()
      modifies opts.Repr
      ensures Valid() && opts.nodes == old(opts.nodes) && opts.Repr == old(opts.Repr)
      ensures opts.Value() == old(opts.Value()).(macs := Exclude(ifs, old(opts.macs)))
    {
      ghost var was := opts.macs;
      ExcludeEnds(ifs, was);
      var it := opts.head;
      ghost var k := 0;
      while it != null
        invariant Valid() && opts.nodes == old(opts.nodes) && opts.Repr == old(opts.Repr)
        invariant k <= |opts.nodes| && it == opts.At(k) && |was| == |opts.nodes|
        invariant opts.Value() == old(opts.Value()).(macs := ExcludeTo(ifs, was, k))
        decreases |opts.nodes| - k
      {
        CheckNext(it, k, was);
        it, k := it.next, k + 1;
      }
    }

    /** ... when the first `k` entries have been checked. */
    method CheckNext(it: MacOpt, ghost k: nat, ghost was: seq<Entry>)
      requires Linked() && Valid() && k < |opts.nodes| == |was| && it == opts.nodes[k]
      requires opts.macs == ExcludeTo(ifs, was, k)
      modifies opts.Repr
      ensures Valid() && opts.nodes == old(opts.nodes) && opts.Repr == old(opts.Repr)
      ensures opts.Value() == old(opts.Value()).(macs := ExcludeTo(ifs, was, k + 1))
    {
      ExcludeNext(ifs, was, k);
      CheckMac(it, k);
    }

    method CheckMac(it: MacOpt, ghost k: nat)
      requires Linked() && Valid() && k < |opts.nodes| && it == opts.nodes[k]
      modifies opts.Repr
      ensures Valid() && opts.nodes == old(opts.nodes) && opts.Repr == old(opts.Repr)
      ensures opts.Value() == old(opts.Value()).(macs := old(opts.macs)[k := Checked(ifs, old(opts.macs)[k])])
    {
      assert it.Value() == opts.macs[k];
      if it.mac.Some? {
        var found, i := FindIface(it.mac.value);
        if found == null {
          opts.Update(it, k, {}, it.value);
        }
      }
    }

    /** The job is about the adapters of this run. */
    ghost predicate About(job: Job) {
      Linked() && job.Valid() && job.ifs == ifs
    }

    // ---- deciding ---------------------------------------------------------

    /** `is_equal_dhcp` */
    method IsEqualDhcp(it: Iface, value: string) returns (same: bool)
      modifies it`dhcp4Changed, it`dhcp6Changed
      ensures same <==> opts.compare && EqualDhcp(it.info, value)
      ensures it.dhcp4Changed == (!opts.compare || ('4' in value) != it.info.dhcp4)
      ensures it.dhcp6Changed == (!opts.compare || ('6' in value) != it.info.dhcp6)
    {
      var dhcpv4, dhcpv6 := '4' in value, '6' in value;
      if !opts.compare {
        it.dhcp4Changed := true;
        it.dhcp6Changed := true;
        return false;
      }
      it.dhcp4Changed := dhcpv4 != it.info.dhcp4;
      it.dhcp6Changed := dhcpv6 != it.info.dhcp6;
      return !it.dhcp4Changed && !it.dhcp6Changed;
    }

    /** Whether the entry of a kind makes the adapter one to change. */
    method IsToChange(kind: Kind, it: Iface, value: string) returns (differs: bool)
      modifies it`dhcp4Changed, it`dhcp6Changed
      ensures differs <==> Differs(kind, it.info, value, opts.compare)
      ensures kind == Dhcp && opts.compare ==>
        it.dhcp4Changed == (('4' in value) != it.info.dhcp4) && it.dhcp6Changed == (('6' in value) != it.info.dhcp6)
      ensures kind != Dhcp || !opts.compare ==>
        it.dhcp4Changed == old(it.dhcp4Changed) && it.dhcp6Changed == old(it.dhcp6Changed)
    {
      if !opts.compare {
        return true;
      }
      if kind == Dhcp {
        var same := IsEqualDhcp(it, value);
        return !same;
      }
      if kind == Ip {
        return it.info.ip == [] || !Names.Matches(it.info.ip, it.info.ipLink, value, ' ');
      }
      if kind == Gateway {
        return !Names.Matches(it.info.gateway, [], value, ' ');
      }
      return kind == Dns && !Names.Matches(it.info.dns, [], value, ' ');
    }

    /** One turn of the inner loop of the first phase. A build that prints what a comparison would give
        makes the one of DHCP in any case; the others have no effect. */
    method DecideOne(kind: Kind, it: Iface, ghost i: nat, ghost job: Job)
      requires Linked() && Valid() && i < |nodes| && it == nodes[i] && job.Valid() && DecidedFrom(job)
      requires kind == Dhcp ==> !it.dhcp4Changed && !it.dhcp6Changed
      modifies it
      ensures it.changed <==> old(it.changed) || DiffersIn(kind, ifs[i], opts.macs, opts.compare)
      ensures it.disabled == old(it.disabled)
      ensures it.dhcp4Changed == if kind == Dhcp then job.Note4(i) else old(it.dhcp4Changed)
      ensures it.dhcp6Changed == if kind == Dhcp then job.Note6(i) else old(it.dhcp6Changed)
    {
      var macIt, k := opts.GetOptMac(Some(it.info.mac), {kind});
      if macIt == null {
        return;
      }
      assert macIt.Value() == opts.macs[k] && k == EntryFor(opts.macs, ifs[i], kind);
      EntryForFits(opts.macs, ifs[i], kind);
      if host.debug && kind == Dhcp {
        var same := IsEqualDhcp(it, macIt.value.value);
      }
      var differs := IsToChange(kind, it, macIt.value.value);
      if differs {
        it.changed := true;
      }
    }

    ghost predicate DecidedFrom(job: Job)
      reads opts
    {
      job.ifs == ifs && job.macs == opts.macs && job.compare == opts.compare && job.host == host
    }

    /** The first `m` kinds, of which DHCP comes first, have been decided for adapter `i`: it is marked,
        and the difference in DHCP is noted. */
    ghost predicate DecidedFor(job: Job, it: Iface, i: nat, m: nat)
      requires job.Valid() && i < |job.ifs| && m <= |ORDER|
      reads it
    {
      && (it.changed <==> ChangedBy(m, job.ifs[i], job.macs, job.compare))
      && it.dhcp4Changed == (m > 0 && job.Note4(i))
      && it.dhcp6Changed == (m > 0 && job.Note6(i))
    }

    /** `n` kinds have been decided, and for the first `k` adapters one more. */
    ghost predicate DecidedTo(job: Job, n: nat, k: nat)
      requires About(job) && n <= |ORDER| && (k > 0 ==> n < |ORDER|)
      reads nodes
    {
      forall i :: 0 <= i < |nodes| ==> DecidedFor(job, nodes[i], i, if i < k then n + 1 else n)
    }

    /** Nothing was switched off meanwhile. */
    twostate predicate SameDisabled()
      reads nodes
    {
      forall i :: 0 <= i < |nodes| ==> nodes[i].disabled == old(nodes[i].disabled)
    }

    /** One turn of the inner loop. */
    method DecideNext(n: nat, it: Iface, ghost k: nat, ghost job: Job)
      requires About(job) && Valid() && DecidedFrom(job) && n < |ORDER|
      requires k < |nodes| && it == nodes[k] && DecidedFor(job, it, k, n)
      modifies it
      ensures DecidedFor(job, it, k, n + 1) && it.disabled == old(it.disabled)
    {
      DecideOne(ORDER[n], it, k, job);
      hide Job.Note4, Job.Note6, DiffersIn;
      assert ORDER[n] == Dhcp <==> n == 0;
    }

    /** The inner loop of the first phase for the kind at `n`. */
    method DecideKind(n: nat, ghost job: Job)
      requires About(job) && Valid() && DecidedFrom(job) && n < |ORDER| && DecidedTo(job, n, 0)
      modifies nodes
      ensures DecidedTo(job, n + 1, 0) && SameDisabled()
    {
      hide DecidedFor;
      Step(0);
      var it := head;
      ghost var k := 0;
      while it != null
        invariant Valid() && k <= |nodes| && it == At(k) && DecidedTo(job, n, k) && SameDisabled()
        decreases |nodes| - k
      {
        Step(k);
        DecideNext(n, it, k, job);
        it, k := it.next, k + 1;
      }
    }

    /** A kind that no entry has decides nothing. */
    lemma NothingDecided(job: Job, n: nat)
      requires About(job) && n < |ORDER| && DecidedTo(job, n, 0) && Count(job.macs, {ORDER[n]}) == 0
      ensures DecidedTo(job, n + 1, 0)
    {
      NoneToChange(ORDER[n], ifs, job.macs, job.compare);
      NothingToCompare(ORDER[n], job);
      forall i | 0 <= i < |nodes|
        ensures DecidedFor(job, nodes[i], i, n + 1)
      {
        assert DecidedFor(job, nodes[i], i, n);
        assert ORDER[n] == Dhcp <==> n == 0;
      }
    }

    /** The first phase: no setter is called, and the adapters to change are marked. */
    method DecideAll(ghost job: Job)
      requires About(job) && Valid() && DecidedFrom(job) && DecidedTo(job, 0, 0)
      modifies nodes
      ensures DecidedTo(job, |ORDER|, 0) && SameDisabled()
    {
      hide DecidedFor;
      var n := 0;
      while n < |ORDER|
        invariant n <= |ORDER| && DecidedTo(job, n, 0) && SameDisabled()
      {
        var count := opts.CountOptMac({ORDER[n]});
        if count == 0 {
          NothingDecided(job, n);
        } else {
          DecideKind(n, job);
        }
        n := n + 1;
      }
    }

    // ---- acting -----------------------------------------------------------

    /** The notes about each adapter agree with the job and with what was done. */
    ghost predicate Noted(job: Job)
      requires job.Valid() && job.ifs == ifs && |nodes| == |ifs|
      reads this, nodes
    {
      && (forall i :: 0 <= i < |nodes| ==> nodes[i].changed == job.changed[i])
      && (forall i :: 0 <= i < |nodes| ==> (nodes[i].disabled <==> i in Down(log)))
    }

    ghost predicate DhcpNoted(job: Job, acts: seq<Act>)
      requires job.Valid() && job.ifs == ifs && |nodes| == |ifs|
      reads nodes
    {
      forall i :: 0 <= i < |nodes| ==>
        job.Notes(i, nodes[i].dhcp4Changed, nodes[i].dhcp6Changed, job.DhcpCalled(i, acts))
    }

    ghost predicate Good(job: Job, rc: int, rc2: int, acts: seq<Act>)
      reads this, nodes, opts, opts.Repr
    {
      && About(job) && Valid() && DecidedFrom(job)
      && Noted(job) && DhcpNoted(job, acts) && Kept(job, log, rc, rc2, acts)
    }

    /** `Good` as a value, which is handed on from call to call without being taken apart: the notes,
        the log and the two codes agree, and the setters were called as in `acts`. */
    ghost function State(job: Job, rc: int, rc2: int, acts: seq<Act>): Standing
      reads this, nodes, opts, opts.Repr
    {
      if Good(job, rc, rc2, acts) then Sound else Broken
    }

    lemma SoundMeans(job: Job, rc: int, rc2: int, acts: seq<Act>)
      requires State(job, rc, rc2, acts) == Sound
      ensures About(job) && Valid() && DecidedFrom(job) && Noted(job)
    {
    }

    lemma SoundLog(job: Job, rc2: int, acts: seq<Act>)
      requires State(job, 0, rc2, acts) == Sound
      ensures job.Valid() && job.Follows(log) && Calls(log) == acts && Woken(log) == job.Wakes()
      ensures (rc2 == 0 <==> AllZero(log)) && (rc2 != 0 ==> Answered(log, rc2))
    {
    }

    lemma CodeForgotten(job: Job, rc: int, rc2: int, acts: seq<Act>)
      requires State(job, rc, rc2, acts) == Sound
      ensures State(job, 0, rc2, acts) == Sound
    {
    }

    lemma StaleCounted(job: Job, rc: int, rc2: int, acts: seq<Act>)
      requires State(job, rc, rc2, acts) == Sound && rc != 0
      ensures State(job, rc, rc, acts) == Sound
    {
      AnsweredIsNotZero(log, rc);
    }

    /** `enable_adapter`: its answer is not looked at. */
    method EnableAdapter(it: Iface, on: bool, ghost i: nat, ghost job: Job, ghost rc: int, ghost rc2: int, ghost acts: seq<Act>)
      requires About(job)
      requires State(job, rc, rc2, acts) == Sound
      requires i < |nodes| && it == nodes[i] && job.Allowed(Down(log), Power(i, on))
      modifies this`log, it`disabled
      ensures State(job, rc, rc2, acts) == Sound && log == old(log) + [Power(i, on)]
      ensures Down(log) == if on then old(Down(log)) - {i} else old(Down(log)) + {i}
    {
      hide Kept, Linked, Job.Notes, Job.DhcpCalled, Job.Allowed, Down, NetOpts.Valid;
      Distinct(i);
      KeptPower(job, log, i, on, rc, rc2, acts);
      log := log + [Power(i, on)];
      it.disabled := !on;
    }

    /** `do_disable_adapter` */
    method DoDisableAdapter(it: Iface, ghost i: nat, ghost job: Job, ghost rc: int, ghost rc2: int, ghost acts: seq<Act>)
      requires About(job)
      requires State(job, rc, rc2, acts) == Sound && i < |nodes| == |ifs| && it == nodes[i]
      requires (job.changed[i] && job.NeedsDown(i)) || job.Restarts(i)
      modifies this`log, it`disabled
      ensures State(job, rc, rc2, acts) == Sound && Down(log) == old(Down(log)) + {i}
      ensures log == if i in old(Down(log)) then old(log) else old(log) + [Power(i, false)]
    {
      if it.disabled {
        return;
      }
      EnableAdapter(it, false, i, job, rc, rc2, acts);
    }

    /** `disable_adapter_if_needed` */
    method DisableAdapterIfNeeded(it: Iface, ghost i: nat, ghost job: Job, ghost rc: int, ghost rc2: int, ghost acts: seq<Act>)
      requires About(job)
      requires State(job, rc, rc2, acts) == Sound && i < |nodes| && it == nodes[i] && job.changed[i]
      modifies this`log, it`disabled
      ensures State(job, rc, rc2, acts) == Sound
      ensures Down(log) == if job.NeedsDown(i) then old(Down(log)) + {i} else old(Down(log))
    {
      if host.platform == Win2003 {
        var gateway, g := opts.GetOptMac(Some(it.info.mac), {Gateway});
        var route, r := opts.GetOptMac(Some(it.info.mac), {Route});
        if gateway == null && route == null {
          return;
        }
        DoDisableAdapter(it, i, job, rc, rc2, acts);
      }
    }

    /** `enable_adapter_if_needed` */
    method EnableAdapterIfNeeded(it: Iface, ghost i: nat, ghost job: Job, ghost rc: int, ghost rc2: int, ghost acts: seq<Act>)
      requires About(job)
      requires State(job, rc, rc2, acts) == Sound && i < |nodes| && it == nodes[i]
      modifies this`log, it`disabled
      ensures State(job, rc, rc2, acts) == Sound && Down(log) == old(Down(log)) - {i}
      ensures log == if i in old(Down(log)) then old(log) + [Power(i, true)] else old(log)
    {
      if !it.disabled {
        return;
      }
      EnableAdapter(it, true, i, job, rc, rc2, acts);
    }

    /** The call is made with the adapter and the entry it speaks of. */
    ghost predicate Targets(a: Act, it: Iface?, macIt: MacOpt)
      reads opts
    {
      match a
      case SetFor(_, i, k) => i < |nodes| && it == nodes[i] && k < |opts.nodes| && macIt == opts.nodes[k]
      case SetGateway(i, k) => i < |nodes| && it == nodes[i] && k < |opts.nodes| && macIt == opts.nodes[k]
      case SetGlobal(_, k) => it == null && k < |opts.nodes| && macIt == opts.nodes[k]
    }

    /** The notes about the adapter that a call of the setter of DHCP speaks of. */
    ghost predicate SetNoted(job: Job, a: Act)
      requires job.Valid() && job.ifs == ifs && |nodes| == |ifs|
      reads nodes
    {
      forall i :: 0 <= i < |nodes| && job.DhcpCalled(i, [a]) ==>
        job.Notes(i, nodes[i].dhcp4Changed, nodes[i].dhcp6Changed, true)
    }

    ghost method Record(a: Act, rc: int, job: Job, stale: int, rc2: int, acts: seq<Act>)
      requires State(job, stale, rc2, acts) == Sound && job.Allowed(Down(log), Called(a, rc)) && SetNoted(job, a)
      modifies this`log
      ensures State(job, rc, if rc != 0 then rc else rc2, acts + [a]) == Sound
      ensures State(job, stale, if rc != 0 then rc else rc2, acts + [a]) == Sound
      ensures Down(log) == old(Down(log))
    {
      KeptCall(job, log, a, rc, stale, rc2, acts);
      NotedNext(job, a, acts);
      log := log + [Called(a, rc)];
    }

    lemma NotedNext(job: Job, a: Act, acts: seq<Act>)
      requires job.Valid() && job.ifs == ifs && |nodes| == |ifs|
      requires DhcpNoted(job, acts) && SetNoted(job, a)
      ensures DhcpNoted(job, acts + [a])
    {
      forall i | 0 <= i < |nodes|
        ensures job.Notes(i, nodes[i].dhcp4Changed, nodes[i].dhcp6Changed, job.DhcpCalled(i, acts + [a]))
      {
        assert job.DhcpCalled(i, acts + [a]) <==> job.DhcpCalled(i, acts) || job.DhcpCalled(i, [a]);
      }
    }

    method Note(it: Iface, n4: bool, n6: bool, ghost i: nat, ghost job: Job, ghost rc: int, ghost rc2: int, ghost acts: seq<Act>)
      requires About(job)
      requires State(job, rc, rc2, acts) == Sound && i < |nodes| && it == nodes[i]
      requires job.Notes(i, n4, n6, true)
      modifies it`dhcp4Changed, it`dhcp6Changed
      ensures State(job, rc, rc2, acts) == Sound
      ensures it.dhcp4Changed == n4 && it.dhcp6Changed == n6
    {
      hide Kept, Linked, Job.Notes, Job.DhcpCalled, Down, NetOpts.Valid;
      Distinct(i);
      NotesAnyway(job, i, n4, n6, job.DhcpCalled(i, acts));
      it.dhcp4Changed, it.dhcp6Changed := n4, n6;
    }

    /** What `set_dhcp` does on Windows to the notes about the adapter: a note of what is not switched on
        is forgotten, unless the setter gives up before it comes to IPv6. */
    method TakeBack(it: Iface, value: string, givesUp: bool, ghost i: nat, ghost job: Job, ghost rc: int, ghost rc2: int, ghost acts: seq<Act>)
      requires About(job)
      requires State(job, rc, rc2, acts) == Sound && i < |nodes| && it == nodes[i]
      requires EntryFor(job.macs, ifs[i], Dhcp) < |job.macs| && value == ValueFor(job.macs, ifs[i], Dhcp)
      modifies it`dhcp4Changed, it`dhcp6Changed
      ensures State(job, rc, rc2, acts) == Sound
      ensures job.Notes(i, it.dhcp4Changed, it.dhcp6Changed, true)
      ensures it.dhcp4Changed == (old(it.dhcp4Changed) && (host.platform == Unix || job.Switches4(i)))
      ensures it.dhcp6Changed ==
        (old(it.dhcp6Changed) && (host.platform == Unix || (job.Switches4(i) && givesUp) || job.Switches6(i)))
    {
      hide Kept, NetOpts.Valid, Down, EntryFor;
      SoundMeans(job, rc, rc2, acts);
      var ipIt, k := opts.GetOptMac(Some(it.info.mac), {Ip});
      opts.Next(k);
      IpEntry(job.macs, ifs[i], k);
      var on4 := '4' in value && !it.info.dhcp4;
      var on6 := ('6' in value || (ipIt == null && host.ipv6)) && !it.info.dhcp6;
      assert on4 == job.Switches4(i) && on6 == job.Switches6(i);
      var n4 := it.dhcp4Changed && (host.platform == Unix || on4);
      var n6 := it.dhcp6Changed && (host.platform == Unix || (on4 && givesUp) || on6);
      assert job.Notes(i, it.dhcp4Changed, it.dhcp6Changed, job.DhcpCalled(i, acts));
      Note(it, n4, n6, i, job, rc, rc2, acts);
    }

    /** `set_dhcp`, with any answer. */
    method SetDhcp(it: Iface, macIt: MacOpt, ghost i: nat, ghost job: Job,
                   ghost stale: int, ghost rc2: int, ghost acts: seq<Act>) returns (rc: int)
      requires About(job)
      requires State(job, stale, rc2, acts) == Sound && i < |nodes| && it == nodes[i]
      requires EntryFor(job.macs, ifs[i], Dhcp) < |opts.nodes| == |job.macs|
      requires macIt == opts.nodes[EntryFor(job.macs, ifs[i], Dhcp)]
      requires job.Allowed(Down(log), Called(SetFor(Dhcp, i, EntryFor(job.macs, ifs[i], Dhcp)), 0))
      modifies this`log, it
      ensures var a := SetFor(Dhcp, i, EntryFor(job.macs, ifs[i], Dhcp));
        && State(job, rc, if rc != 0 then rc else rc2, acts + [a]) == Sound
        && State(job, stale, if rc != 0 then rc else rc2, acts + [a]) == Sound
      ensures Down(log) == old(Down(log))
    {
      ghost var k := EntryFor(job.macs, ifs[i], Dhcp);
      assert macIt.Value() == opts.macs[k];
      EntryForFits(job.macs, ifs[i], Dhcp);
      rc := *;
      var givesUp: bool := *;
      TakeBack(it, macIt.value.value, givesUp, i, job, stale, rc2, acts);
      Record(SetFor(Dhcp, i, k), rc, job, stale, rc2, acts);
    }

    /** A setter other than that of DHCP, with any answer. */
    method Setter(kind: Kind, it: Iface?, macIt: MacOpt, ghost a: Act, ghost job: Job,
                  ghost stale: int, ghost rc2: int, ghost acts: seq<Act>) returns (rc: int)
      requires About(job)
      requires State(job, stale, rc2, acts) == Sound && Targets(a, it, macIt) && KindOf(a) == kind != Dhcp
      requires job.Allowed(Down(log), Called(a, 0))
      modifies this`log
      ensures State(job, rc, if rc != 0 then rc else rc2, acts + [a]) == Sound
      ensures State(job, stale, if rc != 0 then rc else rc2, acts + [a]) == Sound
      ensures Down(log) == old(Down(log))
    {
      rc := *;
      Record(a, rc, job, stale, rc2, acts);
    }

    /** One turn of the loop over the adapters. A code of an earlier call is counted again when the
        kind has no setter for adapters. */
    method ApplyToIface(kind: Kind, it: Iface, ghost i: nat, rc0: int, rc20: int, ghost job: Job, ghost acts: seq<Act>)
      returns (rc: int, rc2: int)
      requires About(job)
      requires State(job, rc0, rc20, acts) == Sound && i < |nodes| && it == nodes[i]
      modifies this`log, it
      ensures Marks(kind, ifs, job.macs, job.changed)[i].Some? ==>
        State(job, rc, rc2, acts + [SetFor(kind, i, Marks(kind, ifs, job.macs, job.changed)[i].value)]) == Sound
      ensures Marks(kind, ifs, job.macs, job.changed)[i].None? ==> State(job, rc, rc2, acts) == Sound
      ensures Down(log) == if job.Downs(kind)[i] then old(Down(log)) + {i} else old(Down(log))
    {
      hide Good, NetOpts.Valid, Down;
      rc, rc2 := rc0, rc20;
      SoundMeans(job, rc, rc2, acts);
      var macIt, k := opts.GetOptMac(Some(it.info.mac), {kind});
      opts.Next(k);
      if macIt == null || !it.changed {
        return;
      }
      DisableAdapterIfNeeded(it, i, job, rc, rc2, acts);
      if kind == Dhcp {
        rc := SetDhcp(it, macIt, i, job, rc, rc2, acts);
      } else if kind in PERIF {
        rc := Setter(kind, it, macIt, SetFor(kind, i, k), job, rc, rc2, acts);
      } else if rc != 0 {
        StaleCounted(job, rc, rc2, acts);
      }
      if rc != 0 {
        rc2 := rc;
      }
    }

    /** ... behind the calls for the first `i` adapters. */
    method ApplyToNext(kind: Kind, it: Iface, ghost i: nat, rc0: int, rc20: int, ghost job: Job, ghost acts: seq<Act>,
                       ghost marks: seq<Option<nat>>, ghost must: seq<bool>, ghost down: set<nat>)
      returns (rc: int, rc2: int)
      requires About(job)
      requires i < |nodes| == |marks| == |must| && it == nodes[i] && marks == Marks(kind, ifs, job.macs, job.changed) && must == job.Downs(kind)
      requires State(job, rc0, rc20, IfaceActs(acts, kind, marks, i)) == Sound
      requires Down(log) == DownWith(down, must, i)
      modifies this`log, it
      ensures State(job, rc, rc2, IfaceActs(acts, kind, marks, i + 1)) == Sound
      ensures Down(log) == DownWith(down, must, i + 1)
    {
      hide Good, Down;
      rc, rc2 := ApplyToIface(kind, it, i, rc0, rc20, job, IfaceActs(acts, kind, marks, i));
    }

    /** The loop over the adapters. */
    method ApplyToIfaces(kind: Kind, rc0: int, rc20: int, ghost job: Job, ghost acts: seq<Act>) returns (rc: int, rc2: int)
      requires About(job)
      requires State(job, rc0, rc20, acts) == Sound
      modifies this`log, nodes
      ensures State(job, rc, rc2, IfaceActs(acts, kind, Marks(kind, ifs, job.macs, job.changed), |ifs|)) == Sound
      ensures Down(log) == DownWith(old(Down(log)), job.Downs(kind), |ifs|)
    {
      hide Good, Linked, IfaceActs, Down, DownWith;
      rc, rc2 := rc0, rc20;
      Step(0);
      var it := head;
      ghost var k, marks, must := 0, Marks(kind, ifs, job.macs, job.changed), job.Downs(kind);
      NoIfaceYet(acts, kind, marks);
      ghost var down := Down(log);
      NoneDownYet(down, must);
      while it != null
        invariant k <= |nodes| && it == At(k)
        invariant State(job, rc, rc2, IfaceActs(acts, kind, marks, k)) == Sound
        invariant Down(log) == DownWith(down, must, k)
        decreases |nodes| - k
      {
        Step(k);
        rc, rc2 := ApplyToNext(kind, it, k, rc, rc2, job, acts, marks, must, down);
        it, k := it.next, k + 1;
      }
    }

    /** `get_opt_val_substr`, or `get_opt_val_no_substr` when it is not for removals, for gateways. */
    method GetOptVal(from: MacOpt?, removal: bool, ghost start: nat) returns (macIt: MacOpt?, ghost k: nat)
      requires opts.Valid() && start <= |opts.nodes| && from == opts.At(start)
      ensures start <= k <= |opts.nodes| && macIt == opts.At(k)
      ensures k < |opts.nodes| ==> GatewayEntry(opts.macs[k], removal)
      ensures forall j :: start <= j < k ==> !GatewayEntry(opts.macs[j], removal)
    {
      macIt, k := from, start;
      while macIt != null
        invariant start <= k <= |opts.nodes| && macIt == opts.At(k)
        invariant forall j :: start <= j < k ==> !GatewayEntry(opts.macs[j], removal)
        decreases |opts.nodes| - k
      {
        assert macIt.Value() == opts.macs[k];
        if Gateway in macIt.kinds && macIt.value.Some? && IsRemoval(macIt.value.value) == removal {
          return;
        }
        macIt, k := macIt.next, k + 1;
      }
    }

    /** Between two entries of a pass there is nothing to do. */
    method NextGateway(from: MacOpt?, removal: bool, ghost start: nat, ghost acts: seq<Act>,
                       ghost pass: seq<bool>, ghost macs: seq<Entry>)
      returns (macIt: MacOpt?, ghost k: nat)
      requires opts.Valid() && start <= |opts.nodes| && from == opts.At(start)
      requires macs == opts.macs && pass == Pass(removal, macs)
      ensures start <= k <= |opts.nodes| == |macs| && macIt == opts.At(k) && (k < |macs| ==> pass[k])
      ensures GatewayActs(acts, pass, ifs, macs, k) == GatewayActs(acts, pass, ifs, macs, start)
    {
      macIt, k := GetOptVal(from, removal, start);
      GatewayActsSkip(acts, pass, ifs, macs, start, k);
    }

    /** One gateway entry, whether its adapter is to change or not. */
    method ApplyGateway(macIt: MacOpt, rc0: int, rc20: int, ghost pass: seq<bool>, ghost k: nat, ghost job: Job, ghost acts: seq<Act>)
      returns (rc: int, rc2: int)
      requires About(job)
      requires State(job, rc0, rc20, acts) == Sound && k < |opts.nodes| == |job.macs| && macIt == opts.nodes[k]
      requires |pass| == |job.macs| && pass[k] && Gateway in job.macs[k].kinds
      requires AllDown(Down(log), job.Downs(Gateway), |ifs|)
      modifies this`log, nodes
      ensures Routing(pass, ifs, job.macs, k) ==>
        State(job, rc, rc2, acts + [SetGateway(SearchMac(ifs, job.macs[k].mac.value), k)]) == Sound
      ensures !Routing(pass, ifs, job.macs, k) ==> State(job, rc, rc2, acts) == Sound
      ensures Down(log) == old(Down(log))
    {
      rc, rc2 := rc0, rc20;
      assert macIt.Value() == opts.macs[k];
      var it: Iface? := null;
      ghost var i := |ifs|;
      if macIt.mac.Some? {
        it, i := FindIface(macIt.mac.value);
      }
      if it != null {
        EntryForFound(opts.macs, ifs[i], Gateway, k);
        if job.Downs(Gateway)[i] {
          DownAt(Down(log), job.Downs(Gateway), |ifs|, i);
        }
        rc := Setter(Gateway, it, macIt, SetGateway(i, k), job, rc, rc2, acts);
        if rc != 0 {
          rc2 := rc;
        }
      }
    }

    /** ... behind the calls for the entries before it; the next entry follows. */
    method ApplyNextGateway(removal: bool, macIt: MacOpt, rc0: int, rc20: int, ghost k: nat, ghost job: Job, ghost acts: seq<Act>,
                            ghost pass: seq<bool>)
      returns (rc: int, rc2: int, next: MacOpt?, ghost n: nat)
      requires About(job) && pass == Pass(removal, job.macs)
      requires k < |opts.nodes| == |job.macs| && macIt == opts.nodes[k] && pass[k]
      requires State(job, rc0, rc20, GatewayActs(acts, pass, ifs, job.macs, k)) == Sound
      requires AllDown(Down(log), job.Downs(Gateway), |ifs|)
      modifies this`log, nodes
      ensures k < n <= |opts.nodes| && next == opts.At(n) && (n < |opts.nodes| ==> pass[n])
      ensures State(job, rc, rc2, GatewayActs(acts, pass, ifs, job.macs, n)) == Sound
      ensures Down(log) == old(Down(log))
    {
      hide Good, Linked, GatewayActs, Routing, AllDown, Job.Downs, Down, NetOpts.Valid, Pass;
      SoundMeans(job, rc0, rc20, GatewayActs(acts, pass, ifs, job.macs, k));
      PassMeans(removal, job.macs, k);
      GatewayActsNext(acts, pass, ifs, job.macs, k);
      opts.Next(k);
      rc, rc2 := ApplyGateway(macIt, rc0, rc20, pass, k, job, GatewayActs(acts, pass, ifs, job.macs, k));
      SoundMeans(job, rc, rc2, GatewayActs(acts, pass, ifs, job.macs, k + 1));
      next, n := NextGateway(macIt.next, removal, k + 1, acts, pass, job.macs);
    }

    /** One pass over the gateway entries. */
    method ApplyGateways(removal: bool, rc0: int, rc20: int, ghost job: Job, ghost acts: seq<Act>) returns (rc: int, rc2: int)
      requires About(job)
      requires State(job, rc0, rc20, acts) == Sound && AllDown(Down(log), job.Downs(Gateway), |ifs|)
      modifies this`log, nodes
      ensures State(job, rc, rc2, GatewayActs(acts, Pass(removal, job.macs), ifs, job.macs, |job.macs|)) == Sound
      ensures Down(log) == old(Down(log))
    {
      hide Good, Pass, Linked, GatewayActs, AllDown, Job.Downs, Down, NetOpts.Valid;
      rc, rc2 := rc0, rc20;
      ghost var pass := Pass(removal, job.macs);
      SoundMeans(job, rc, rc2, acts);
      opts.Next(0);
      GatewayActsNone(acts, pass, ifs, job.macs);
      var macIt, k := NextGateway(opts.head, removal, 0, acts, pass, job.macs);
      while macIt != null
        invariant k <= |opts.nodes| == |job.macs| && macIt == opts.At(k) && Down(log) == old(Down(log))
        invariant k < |opts.nodes| ==> pass[k]
        invariant State(job, rc, rc2, GatewayActs(acts, pass, ifs, job.macs, k)) == Sound
        decreases |opts.nodes| - k
      {
        rc, rc2, macIt, k := ApplyNextGateway(removal, macIt, rc, rc2, k, job, acts, pass);
      }
    }

    /** The search domains or the host name; the answer is kept apart from `rc`. */
    method ApplyGlobal(kind: Kind, rc0: int, rc20: int, ghost job: Job, ghost acts: seq<Act>) returns (rc2: int)
      requires About(job)
      requires State(job, rc0, rc20, acts) == Sound && kind in NOTMAC
      modifies this`log
      ensures State(job, rc0, rc2, GlobalActs(acts, kind, job.macs)) == Sound && Down(log) == old(Down(log))
    {
      rc2 := rc20;
      var macIt, k := opts.GetOptMac(None, {kind});
      if macIt == null {
        return;
      }
      var rc := Setter(kind, null, macIt, SetGlobal(kind, k), job, rc0, rc20, acts);
      if rc != 0 {
        rc2 := rc;
      }
    }

    /** What follows the loop over the adapters. */
    method ApplyOthers(kind: Kind, rc0: int, rc20: int, ghost job: Job, ghost acts: seq<Act>) returns (rc: int, rc2: int)
      requires About(job)
      requires State(job, rc0, rc20, acts) == Sound && AllDown(Down(log), job.Downs(kind), |ifs|)
      modifies this`log, nodes
      ensures State(job, rc, rc2, OtherActs(acts, kind, ifs, job.macs)) == Sound && Down(log) == old(Down(log))
    {
      rc, rc2 := rc0, rc20;
      if kind == Gateway {
        rc, rc2 := ApplyGateways(true, rc, rc2, job, acts);
        rc, rc2 := ApplyGateways(false, rc, rc2, job,
                                 GatewayActs(acts, Pass(true, job.macs), ifs, job.macs, |job.macs|));
      } else if kind in NOTMAC {
        rc2 := ApplyGlobal(kind, rc, rc2, job, acts);
      }
    }

    lemma NoKindDowns(job: Job, kind: Kind, down: set<nat>)
      requires job.Valid() && forall i :: 0 <= i < |job.macs| ==> job.macs[i].kinds !! {kind}
      ensures DownWith(down, job.Downs(kind), |job.ifs|) == down
    {
      forall i | 0 <= i < |job.ifs|
        ensures !job.Downs(kind)[i]
      {
        NoneIsFound(job.macs, Some(job.ifs[i].mac), {kind});
      }
      NoneDown(down, job.Downs(kind));
    }

    /** One turn of the loop over the kinds. */
    method ApplyKind(kind: Kind, rc0: int, rc20: int, ghost job: Job, ghost acts: seq<Act>) returns (rc: int, rc2: int)
      requires About(job)
      requires State(job, rc0, rc20, acts) == Sound
      modifies this`log, nodes
      ensures State(job, rc, rc2, KindActs(acts, kind, ifs, job.macs, job.changed)) == Sound
      ensures Down(log) == DownWith(old(Down(log)), job.Downs(kind), |ifs|)
    {
      hide Down, AllDown, DownWith, Job.Downs;
      rc, rc2 := rc0, rc20;
      var count := opts.CountOptMac({kind});
      if count == 0 {
        CountedIsNone(opts.macs, None, {kind});
        NoKindActs(acts, kind, ifs, opts.macs, job.changed);
        NoKindDowns(job, kind, Down(log));
        return;
      }
      rc, rc2 := ApplyToIfaces(kind, rc, rc2, job, acts);
      DownWithAll(old(Down(log)), job.Downs(kind), |ifs|);
      rc, rc2 := ApplyOthers(kind, rc, rc2, job, IfaceActs(acts, kind, Marks(kind, ifs, job.macs, job.changed), |ifs|));
    }

    /** The second phase. */
    method ApplyAll(ghost job: Job) returns (rc2: int)
      requires About(job)
      requires State(job, 0, 0, []) == Sound && Down(log) == {}
      modifies this`log, nodes
      ensures State(job, 0, rc2, Plan(ifs, job.macs, job.changed)) == Sound
      ensures Down(log) == DownBy(job, |ORDER|)
    {
      hide Good, KindActs, Down, DownWith, Job.Downs;
      var n, rc := 0, 0;
      rc2 := 0;
      while n < |ORDER|
        invariant n <= |ORDER| && State(job, rc, rc2, PlanTo(n, ifs, job.macs, job.changed)) == Sound
        invariant Down(log) == DownBy(job, n)
      {
        rc, rc2 := ApplyKind(ORDER[n], rc, rc2, job, PlanTo(n, ifs, job.macs, job.changed));
        n := n + 1;
      }
      CodeForgotten(job, rc, rc2, Plan(ifs, job.macs, job.changed));
    }

    /** One turn of the last loop. */
    method Restart(it: Iface, ghost i: nat, ghost job: Job, ghost rc2: int, ghost acts: seq<Act>)
      requires About(job)
      requires host.platform != Unix && State(job, 0, rc2, acts) == Sound && i < |nodes| && it == nodes[i]
      requires job.changed == Decide(ifs, job.macs, job.compare)
      requires acts == Plan(ifs, job.macs, job.changed)
      modifies this`log, it`disabled
      ensures State(job, 0, rc2, acts) == Sound && log == RestartedOne(job, old(log), i)
    {
      if host.platform == Vista {
        NotesAtEnd(job, i, it.dhcp4Changed, it.dhcp6Changed);
      }
      if host.platform == Vista && (it.dhcp4Changed || it.dhcp6Changed) {
        var macIt, j := opts.GetOptMac(Some(it.info.mac), {Dhcp});
        if macIt != null {
          DoDisableAdapter(it, i, job, 0, rc2, acts);
        }
      }
      EnableAdapterIfNeeded(it, i, job, 0, rc2, acts);
    }

    /** The last loop, on Windows: an adapter whose DHCP was to be switched on is restarted, and every
        adapter that was switched off is switched on again. */
    method RestartAdapters(ghost job: Job, ghost rc2: int, ghost acts: seq<Act>)
      requires About(job)
      requires State(job, 0, rc2, acts) == Sound
      requires job.changed == Decide(ifs, job.macs, job.compare)
      requires acts == Plan(ifs, job.macs, job.changed)
      modifies this`log, nodes
      ensures State(job, 0, rc2, acts) == Sound && log == Restarted(job, old(log), |ifs|)
    {
      hide Good, RestartedOne, Plan, Decide;
      if host.platform == Unix {
        SoundMeans(job, 0, rc2, acts);
        SoundLog(job, rc2, acts);
        UnixNoPower(job, log);
        NoRestarts(job, log, |ifs|);
        return;
      }
      RestartAll(job, rc2, acts);
    }

    method RestartAll(ghost job: Job, ghost rc2: int, ghost acts: seq<Act>)
      requires About(job)
      requires host.platform != Unix && State(job, 0, rc2, acts) == Sound
      requires job.changed == Decide(ifs, job.macs, job.compare)
      requires acts == Plan(ifs, job.macs, job.changed)
      modifies this`log, nodes
      ensures State(job, 0, rc2, acts) == Sound && log == Restarted(job, old(log), |ifs|)
    {
      hide Good, Linked, RestartedOne, Plan, Decide;
      Step(0);
      var it := head;
      ghost var k := 0;
      while it != null
        invariant State(job, 0, rc2, acts) == Sound && k <= |nodes| && it == At(k)
        invariant log == Restarted(job, old(log), k)
        decreases |nodes| - k
      {
        Step(k);
        Restart(it, k, job, rc2, acts);
        it, k := it.next, k + 1;
      }
    }

    /** Adapters that were asked for and not found may be switched off: they are woken, and those for
        which that works are waited for. */
    method EnableMissing(ghost job: Job) returns (wait: seq<string>)
      requires About(job) && Valid() && host.platform == Vista && job.host == host && log == []
      modifies this`log
      ensures OnlyWoken(job, log, Missing(ifs, opts.macs, |opts.macs|), wait)
    {
      hide Linked, NetOpts.Valid;
      Step(0);
      opts.Next(0);
      wait := [];
      var it := opts.head;
      ghost var k := 0;
      while it != null
        invariant k <= |opts.nodes| == |opts.macs| && it == opts.At(k)
        invariant OnlyWoken(job, log, Missing(ifs, opts.macs, k), wait)
        decreases |opts.nodes| - k
      {
        opts.Next(k);
        if it.mac.Some? {
          var found, i := FindIface(it.mac.value);
          Step(i);
          if found == null {
            var rc: int := *;
            OneMoreWoken(job, log, Missing(ifs, opts.macs, k), wait, it.mac.value, rc);
            log := log + [Woke(it.mac.value, rc)];
            if rc > 0 {
              wait := wait + [it.mac.value];
            }
          }
        }
        it, k := it.next, k + 1;
      }
      opts.Next(k);
    }

    lemma DecidedIsNoted(job: Job)
      requires About(job) && DecidedTo(job, |ORDER|, 0)
      requires job.changed == Decide(ifs, job.macs, job.compare)
      ensures DhcpNoted(job, []) && forall i :: 0 <= i < |nodes| ==> nodes[i].changed == job.changed[i]
    {
      hide ChangedBy, Job.Note4, Job.Note6;
      forall i | 0 <= i < |nodes|
        ensures job.Notes(i, nodes[i].dhcp4Changed, nodes[i].dhcp6Changed, job.DhcpCalled(i, []))
        ensures nodes[i].changed == job.changed[i]
      {
        assert DecidedFor(job, nodes[i], i, |ORDER|);
      }
    }

    lemma UndecidedYet(job: Job)
      requires About(job)
      requires forall i :: 0 <= i < |nodes| ==> !nodes[i].changed && !nodes[i].dhcp4Changed && !nodes[i].dhcp6Changed
      ensures DecidedTo(job, 0, 0)
    {
    }

    /** Everything before the first setter; the adapters that were woken are in the log. */
    method Prepare(ghost job: Job)
      requires About(job) && Valid() && Kept(job, log, 0, 0, []) && Down(log) == {}
      requires forall i :: 0 <= i < |nodes| ==>
        !nodes[i].changed && !nodes[i].dhcp4Changed && !nodes[i].dhcp6Changed && !nodes[i].disabled
      requires job == Job(host, ifs, Exclude(ifs, opts.macs), opts.compare, job.changed)
      requires job.changed == Decide(ifs, job.macs, job.compare)
      modifies nodes, opts.Repr
      ensures State(job, 0, 0, []) == Sound && log == old(log)
    {
      hide Decide, Exclude, Linked, Job.Notes, NetOpts.Valid, Kept, Down, DhcpNoted, DecidedTo;
      ExcludeUnknown();
      UndecidedYet(job);
      DecideAll(job);
      DecidedIsNoted(job);
    }

    /** The second phase and the last loop; `acted` is the log behind the last setter. */
    method Act(ghost job: Job) returns (rc: int, ghost acted: seq<Event>)
      requires About(job) && State(job, 0, 0, []) == Sound && job.changed == Decide(ifs, job.macs, job.compare)
      requires Down(log) == {}
      modifies this`log, nodes
      ensures Down(acted) == DownBy(job, |ORDER|)
      ensures Calls(log) == Calls(acted) == Plan(ifs, job.macs, job.changed) && job.Follows(log)
      ensures log == Restarted(job, acted, |ifs|) && Down(log) == {} && Woken(log) == job.Wakes()
      ensures (rc == 0 <==> AllZero(log)) && (rc != 0 ==> Answered(log, rc))
    {
      hide Good, Linked, Plan, Decide, Restarted;
      rc := ApplyAll(job);
      acted := log;
      SoundLog(job, rc, Plan(ifs, job.macs, job.changed));
      AllUpAtEnd(job, acted);
      RestartAdapters(job, rc, Plan(ifs, job.macs, job.changed));
      SoundLog(job, rc, Plan(ifs, job.macs, job.changed));
    }

    /** `apply_parameters`, for what `get_device_list` found; `acted` is the log behind the last setter. */
    method ApplyParameters() returns (rc: int, ghost job: Job, ghost acted: seq<Event>)
      requires Linked() && Valid() && HasValues(opts.macs) && log == []
      requires forall i :: 0 <= i < |nodes| ==>
        !nodes[i].changed && !nodes[i].dhcp4Changed && !nodes[i].dhcp6Changed && !nodes[i].disabled
      modifies this, nodes, opts.Repr
      ensures job.ifs == ifs && job.host == host && job.compare == old(opts.compare)
      ensures job.macs == Exclude(ifs, old(opts.macs)) && job.Valid()
      ensures job.changed == Decide(ifs, job.macs, job.compare)
      ensures Calls(log) == Calls(acted) == Plan(ifs, job.macs, job.changed) && job.Follows(log)
      ensures log == Restarted(job, acted, |ifs|) && Down(log) == {}
      ensures Down(acted) == DownBy(job, |ORDER|)
      ensures Woken(log) == if host.platform == Vista && Asking(old(opts.macs)) then Missing(ifs, old(opts.macs), |old(opts.macs)|) else []
      ensures forall p, q :: 0 <= p < q < |log| && log[q].Woke? ==> log[p].Woke?
      ensures (rc == 0 <==> AllZero(log)) && (rc != 0 ==> Answered(log, rc))
    {
      job, acted := JobFor(), [];
      var byMac := opts.CountOptMac(BYMAC);
      var notMac := opts.CountOptMac(NOTMAC);
      if byMac == 0 && notMac == 0 {
        NothingPlanned(ifs, opts.macs, job.changed);
        NothingCompared(ifs, opts.macs, job);
        NoRestarts(job, [], |ifs|);
        NothingDown(ifs, opts.macs, job);
        return 0, job, [];
      }
      rc, acted := Apply(job);
    }

    /** ... when something is to be set. */
    method Apply(ghost job: Job) returns (rc: int, ghost acted: seq<Event>)
      requires About(job) && Valid() && HasValues(opts.macs) && log == []
      requires forall i :: 0 <= i < |nodes| ==>
        !nodes[i].changed && !nodes[i].dhcp4Changed && !nodes[i].dhcp6Changed && !nodes[i].disabled
      requires job == Job(host, ifs, Exclude(ifs, opts.macs), opts.compare, job.changed)
      requires job.changed == Decide(ifs, job.macs, job.compare)
      modifies this`log, nodes, opts.Repr
      ensures Calls(log) == Calls(acted) == Plan(ifs, job.macs, job.changed) && job.Follows(log)
      ensures log == Restarted(job, acted, |ifs|) && Down(log) == {}
      ensures Down(acted) == DownBy(job, |ORDER|)
      ensures Woken(log) == if host.platform == Vista then Missing(ifs, old(opts.macs), |old(opts.macs)|) else []
      ensures forall p, q :: 0 <= p < q < |log| && log[q].Woke? ==> log[p].Woke?
      ensures (rc == 0 <==> AllZero(log)) && (rc != 0 ==> Answered(log, rc))
    {
      hide Good, Linked, Plan, Decide, Restarted, Missing, Exclude, Job.Follows, NetOpts.Valid;
      MissingExclude(ifs, opts.macs);
      if host.platform == Vista {
        var wait := EnableMissing(job);
        WokenIsKept(job, log, Missing(ifs, opts.macs, |opts.macs|), wait);
      } else {
        NoneIsWoken(job);
      }
      Prepare(job);
      rc, acted := Act(job);
      WokenFirst(job, log);
    }

    /** What the run is to go by. */
    ghost function JobFor(): (job: Job)
      requires HasValues(opts.macs)
      reads opts
      ensures job.Valid() && job.ifs == ifs
    {
      ExcludeKeepsValued(ifs, opts.macs);
      var macs := Exclude(ifs, opts.macs);
      Job(host, ifs, macs, opts.compare, Decide(ifs, macs, opts.compare))
    }
  }

  lemma WokenIsKept(job: Job, log: seq<Event>, macs: seq<string>, wait: seq<string>)
    requires job.Valid() && OnlyWoken(job, log, macs, wait) && macs == job.Wakes()
    ensures Kept(job, log, 0, 0, []) && Down(log) == {}
  {
  }

  lemma NoneIsWoken(job: Job)
    requires job.Valid() && job.host.platform != Vista
    ensures Kept(job, [], 0, 0, []) && Down([]) == {}
  {
  }

  lemma IpEntry(macs: seq<Entry>, a: Adapter, k: nat)
    requires k == GetOptMac(macs, Some(a.mac), {Ip})
    ensures k == EntryFor(macs, a, Ip)
  {
  }

  lemma NothingToCompare(kind: Kind, job: Job)
    requires job.Valid() && Count(job.macs, {kind}) == 0
    ensures kind == Dhcp ==> forall i :: 0 <= i < |job.ifs| ==> !job.Note4(i) && !job.Note6(i)
  {
    if kind == Dhcp {
      forall i | 0 <= i < |job.ifs|
        ensures !job.Note4(i) && !job.Note6(i)
      {
        CountedIsNone(job.macs, Some(job.ifs[i].mac), {Dhcp});
      }
    }
  }

  /** A kind that no entry has makes no adapter one to change. */
  lemma NoneToChange(kind: Kind, ifs: seq<Adapter>, macs: seq<Entry>, compare: bool)
    requires HasValues(macs) && Count(macs, {kind}) == 0
    ensures forall i :: 0 <= i < |ifs| ==> !DiffersIn(kind, ifs[i], macs, compare)
  {
    forall i | 0 <= i < |ifs|
      ensures !DiffersIn(kind, ifs[i], macs, compare)
    {
      CountedIsNone(macs, Some(ifs[i].mac), {kind});
    }
  }

  lemma NoneDownYet(down: set<nat>, must: seq<bool>)
    ensures DownWith(down, must, 0) == down
  {
  }

  lemma NoIfaceYet(acts: seq<Act>, kind: Kind, marks: seq<Option<nat>>)
    ensures IfaceActs(acts, kind, marks, 0) == acts
  {
  }
}
