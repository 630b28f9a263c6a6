/** The option list on the heap and the parser that fills it (options.c), proved against
    `OptionSpec`. */
module Options {
  import opened Text
  import opened OptionSpec

  class MacOpt {
    var kinds: set<Kind>
    var mac: Option<string>
    var value: Option<string>
    var next: MacOpt?

    constructor (kinds: set<Kind>, mac: Option<string>, value: Option<string>, next: MacOpt?)
      ensures this.kinds == kinds && this.mac == mac && this.value == value && this.next == next
    {
      this.kinds, this.mac, this.value, this.next := kinds, mac, value, next;
    }

    ghost function Value(): Entry
      reads this
    {
      Entry(kinds, mac, value)
    }
  }

  class NetOpts {
    var action: Action
    var flags: set<Kind>
    var verbose: bool
    var debug: bool
    var compare: bool
    var head: MacOpt?
    ghost var nodes: seq<MacOpt>
    ghost var macs: seq<Entry>
    ghost var Repr: set<object>

    ghost predicate Valid()
      reads this, Repr
    {
      && this in Repr && (forall i :: 0 <= i < |nodes| ==> nodes[i] in Repr)
      && |nodes| == |macs| && head == At(0)
      && (forall i, j :: 0 <= i < j < |nodes| ==> nodes[i] != nodes[j])
      && (forall i {:trigger nodes[i].next} :: 0 <= i < |nodes| ==> nodes[i].next == At(i + 1))
      && (forall i {:trigger nodes[i].Value()} :: 0 <= i < |nodes| ==> nodes[i].Value() == macs[i])
    }

    /** The node of entry `k`, or NULL behind the last. */
    ghost function At(k: nat): MacOpt?
      requires k <= |nodes|
      reads this
    {
      if k < |nodes| then nodes[k] else null
    }

    /** One step along the list. */
    lemma Next(k: nat)
      requires Valid() && k <= |nodes|
      ensures |nodes| == |macs| && head == At(0) && (At(k) == null <==> k == |nodes|)
      ensures k < |nodes| ==> nodes[k].next == At(k + 1) && nodes[k].Value() == macs[k]
    {
    }

    ghost function Value(): Opts
      reads this
    {
      Opts(action, flags, verbose, debug, compare, macs)
    }

    /** `set_empty_options` */
    constructor ()
      ensures Valid() && Value() == START && fresh(Repr)
    {
      action, flags, verbose, debug, compare := Get, {}, false, false, false;
      head, nodes, macs, Repr := null, [], [], {this};
    }

    method Prepend(kinds: set<Kind>, mac: Option<string>, value: Option<string>)
      requires Valid()
      modifies Repr
      ensures fresh(Repr - old(Repr))
      ensures Valid() && Value() == old(Value()).(macs := [Entry(kinds, mac, value)] + old(macs))
    {
      var made := new MacOpt(kinds, mac, value, head);
      head := made;
      nodes, macs, Repr := [made] + nodes, [Entry(kinds, mac, value)] + macs, Repr + {made};
    }

    /** Changing one entry in place. */
    method Update(it: MacOpt, ghost k: nat, kinds: set<Kind>, value: Option<string>)
      requires Valid() && k < |nodes| && it == nodes[k]
      modifies Repr
      ensures fresh(Repr - old(Repr))
      ensures Valid() && nodes == old(nodes) && Repr == old(Repr)
      ensures Value() == old(Value()).(macs := old(macs)[k := Entry(kinds, old(macs)[k].mac, value)])
    {
      assert it.Value() == macs[k];
      it.kinds, it.value := kinds, value;
      macs := macs[k := Entry(kinds, it.mac, value)];
    }

    /** `add_opt_mac` */
    method AddOptMac(kind: Kind, mac: string)
      requires Valid()
      modifies Repr
      ensures fresh(Repr - old(Repr))
      ensures Valid() && Value() == old(Value()).(macs := OptionSpec.AddOptMac(old(macs), kind, mac))
    {
      var it := head;
      ghost var k := 0;
      while it != null
        invariant k <= |nodes| && it == At(k)
        invariant FindMac(macs, mac) == k + FindMac(macs[k..], mac)
        decreases |nodes| - k
      {
        assert macs[k..][1..] == macs[k + 1..] && it.Value() == macs[k];
        if it.mac == Some(mac) {
          Update(it, k, it.kinds + {kind}, it.value);
          return;
        }
        it, k := it.next, k + 1;
      }
      Prepend({kind}, Some(mac), None);
    }

    /** `clean_opt_mac` */
    method CleanOptMac(kinds: set<Kind>)
      requires Valid()
      modifies Repr
      ensures fresh(Repr - old(Repr))
      ensures Valid() && Value() == old(Value()).(macs := OptionSpec.CleanOptMac(old(macs), kinds))
    {
      ghost var was := macs;
      var it := head;
      ghost var k := 0;
      while it != null
        invariant Valid() && nodes == old(nodes) && Repr == old(Repr) && k <= |nodes| && it == At(k)
        invariant |was| == |nodes| && Value() == old(Value()).(macs := Cleaned(was, kinds, k))
        decreases |nodes| - k
      {
        CleanedNext(was, kinds, k);
        assert it.Value() == macs[k];
        if !(it.kinds !! kinds) {
          Update(it, k, it.kinds - kinds, it.value);
        }
        it, k := it.next, k + 1;
      }
      CleanedAll(was, kinds);
    }

    /** `count_opt_mac` */
    method CountOptMac(kinds: set<Kind>) returns (count: nat)
      requires Valid()
      ensures count == Count(macs, kinds)
    {
      var it := head;
      ghost var k := 0;
      count := 0;
      while it != null
        invariant k <= |nodes| && it == At(k)
        invariant Count(macs, kinds) == count + Count(macs[k..], kinds)
        decreases |nodes| - k
      {
        assert macs[k..][1..] == macs[k + 1..] && it.Value() == macs[k];
        if !(it.kinds !! kinds) {
          count := count + 1;
        }
        it, k := it.next, k + 1;
      }
    }

    /** `get_opt_mac` */
    method GetOptMac(mac: Option<string>, kinds: set<Kind>) returns (it: MacOpt?, ghost k: nat)
      requires Valid()
      ensures k == OptionSpec.GetOptMac(macs, mac, kinds) && k <= |nodes|
      ensures it == At(OptionSpec.GetOptMac(macs, mac, kinds))
    {
      it, k := head, 0;
      while it != null
        invariant k <= |nodes| && it == At(k)
        invariant OptionSpec.GetOptMac(macs, mac, kinds) == k + OptionSpec.GetOptMac(macs[k..], mac, kinds)
        decreases |nodes| - k
      {
        assert macs[k..][1..] == macs[k + 1..] && it.Value() == macs[k];
        if !(it.kinds !! kinds) {
          if mac.None? || it.mac == mac {
            return;
          }
        }
        it, k := it.next, k + 1;
      }
    }

    /** The DHCP flags of `parse_options`. */
    method DhcpFlag(mac: string, v6: bool, ipv6: bool) returns (end: Option<End>)
      requires Valid()
      modifies Repr
      ensures fresh(Repr - old(Repr))
      ensures Valid()
      ensures match MergeDhcp(old(macs), mac, v6, ipv6)
        case Merged(now) => end == None && Value() == old(Value()).(macs := now)
        case TooMany => end == Some(Returned) && Value() == old(Value())
        case NoIpv6 => end == Some(Exited(3)) && Value() == old(Value())
    {
      var it, k := GetOptMac(Some(mac), {Dhcp});
      assert it != null ==> it.Value() == macs[k];
      if it != null && (it.value == Some("4") || it.value == Some("6")) {
        Update(it, k, it.kinds, Some("4 6"));
      } else if it != null {
        return Some(Returned);
      } else if !v6 {
        Prepend({Dhcp}, Some(mac), Some("4"));
      } else {
        if !ipv6 {
          return Some(Exited(3));
        }
        Prepend({Dhcp}, Some(mac), Some("6"));
      }
      return None;
    }

    /** An option of a query, whose arguments start at word `i`. */
    method Query(kind: Kind, argv: seq<string>, i: nat) returns (j: nat)
      requires Valid() && i <= |argv|
      modifies Repr
      ensures fresh(Repr - old(Repr))
      ensures Valid() && ReadQuery(old(Value()), kind, argv, i) == Go(Value(), j)
    {
      j := i;
      if kind in BYMAC {
        if i < |argv| && !IsDash(argv[i]) {
          AddOptMac(kind, argv[i]);
          j := i + 1;
        } else {
          flags := flags + {kind};
        }
      }
      if kind in NOTMAC {
        flags := flags + {kind};
      }
    }

    /** An option that sets something, whose arguments start at word `i`. */
    method Setting(kind: Kind, argv: seq<string>, i: nat, ipv6: bool) returns (j: nat, end: Option<End>)
      requires Valid() && i <= |argv|
      modifies Repr
      ensures fresh(Repr - old(Repr))
      ensures Valid()
      ensures ReadSetting(old(Value()), kind, argv, i, ipv6) ==
        if end.None? then Go(Value(), j) else Stop(end.value)
      ensures end.Some? ==> Value() == old(Value())
    {
      j, end := i, None;
      if i == |argv| || IsDash(argv[i]) {
        return i, Some(Exited(1));
      }
      if kind in BYMAC {
        var mac := argv[i];
        j := i + 1;
        if kind == Dhcp || kind == DhcpV6 {
          end := DhcpFlag(mac, kind == DhcpV6, ipv6);
        } else {
          if j == |argv| {
            return j, Some(Exited(1));
          }
          if !ipv6 && IsIpv6Value(argv[j]) {
            return j, Some(Exited(3));
          }
          Prepend({kind}, Some(mac), Some(argv[j]));
          j := j + 1;
        }
      } else if kind in NOTMAC {
        Prepend({kind}, None, Some(argv[i]));
        j := i + 1;
      }
    }

    /** One turn of the loop of `parse_options` at word `i`. */
    method ReadTurn(argv: seq<string>, i: nat, ipv6: bool) returns (j: nat, end: Option<End>)
      requires Valid() && i < |argv|
      modifies Repr
      ensures fresh(Repr - old(Repr))
      ensures Valid()
      ensures Turn(old(Value()), argv, i, ipv6) == if end.None? then Go(Value(), j) else Stop(end.value)
      ensures end.Some? ==> Value() == old(Value())
    {
      j, end := i + 1, None;
      match ReadWord(argv[i], i == 0) {
        case Act(a) => action := a;
        case Verbose => verbose := true;
        case Debug => debug := true;
        case Compare => compare := true;
        case Unknown => end := Some(Exited(1));
        case Opt(kind) =>
          if action == Get {
            j := Query(kind, argv, j);
          } else if action == Set {
            j, end := Setting(kind, argv, j, ipv6);
          }
      }
    }

    /** Behind the last word. */
    method AtEnd(env: bool) returns (end: End)
      requires Valid()
      modifies Repr
      ensures fresh(Repr - old(Repr))
      ensures Valid() && Parsed(end, Value()) == Finish(old(Value()), env)
    {
      var byMac := CountOptMac(BYMAC);
      var notMac := CountOptMac(NOTMAC);
      if action == Get {
        if flags == {} && byMac == 0 {
          flags := ALL;
        }
      } else if action == Set {
        if byMac == 0 && notMac == 0 {
          return Exited(0);
        }
      }
      if env {
        compare := true;
      }
      return Returned;
    }

    /** `parse_options` behind the program's name: the cursor stays within the words and their end. */
    method ParseOptions(argv: seq<string>, ipv6: bool, env: bool) returns (end: End)
      requires Valid() && Value() == START
      modifies Repr
      ensures fresh(Repr - old(Repr))
      ensures Valid() && Parsed(end, Value()) == Parse(argv, ipv6, env)
    {
      ghost var goal := Parse(argv, ipv6, env);
      var i := 0;
      while i < |argv|
        invariant i <= |argv| && Valid() && fresh(Repr - old(Repr))
        invariant goal == ParseFrom(Value(), argv, i, ipv6, env)
        decreases |argv| - i
      {
        if argv[i] == "--all" {
          flags := ALL;
          CleanOptMac(ALL);
          return Returned;
        }
        if argv[i] == "-V" || argv[i] == "--version" || argv[i] == "-h" || argv[i] == "--help" {
          return Exited(0);
        }
        var j, stop := ReadTurn(argv, i, ipv6);
        if stop.Some? {
          return stop.value;
        }
        i := j;
      }
      end := AtEnd(env);
    }
  }

  /** The first `k` entries cleaned. */
  function Cleaned(macs: seq<Entry>, kinds: set<Kind>, k: nat): (now: seq<Entry>)
    requires k <= |macs|
    ensures |now| == |macs|
  {
    if k == 0 then macs
    else Cleaned(macs, kinds, k - 1)[k - 1 := macs[k - 1].(kinds := macs[k - 1].kinds - kinds)]
  }

  lemma {:induction false} CleanedAt(macs: seq<Entry>, kinds: set<Kind>, k: nat, i: nat)
    requires k <= |macs| && i < |macs|
    ensures Cleaned(macs, kinds, k)[i] == if i < k then macs[i].(kinds := macs[i].kinds - kinds) else macs[i]
  {
    if k > 0 {
      CleanedAt(macs, kinds, k - 1, i);
    }
  }

  lemma {:induction false} CleanOptMacAt(macs: seq<Entry>, kinds: set<Kind>)
    ensures |OptionSpec.CleanOptMac(macs, kinds)| == |macs|
    ensures forall i :: 0 <= i < |macs| ==>
      OptionSpec.CleanOptMac(macs, kinds)[i] == macs[i].(kinds := macs[i].kinds - kinds)
  {
    if macs != [] {
      CleanOptMacAt(macs[1..], kinds);
    }
  }

  lemma CleanedAll(macs: seq<Entry>, kinds: set<Kind>)
    ensures Cleaned(macs, kinds, |macs|) == OptionSpec.CleanOptMac(macs, kinds)
  {
    CleanOptMacAt(macs, kinds);
    forall i | 0 <= i < |macs|
      ensures Cleaned(macs, kinds, |macs|)[i] == OptionSpec.CleanOptMac(macs, kinds)[i]
    {
      CleanedAt(macs, kinds, |macs|, i);
    }
  }

  /** An entry that has none of the kinds is the same when cleaned. */
  lemma CleanedNext(macs: seq<Entry>, kinds: set<Kind>, k: nat)
    requires k < |macs|
    ensures Cleaned(macs, kinds, k)[k] == macs[k]
    ensures macs[k].kinds !! kinds ==> Cleaned(macs, kinds, k + 1) == Cleaned(macs, kinds, k)
  {
    CleanedAt(macs, kinds, k, k);
    if macs[k].kinds !! kinds {
      assert macs[k].kinds - kinds == macs[k].kinds;
    }
  }
}
