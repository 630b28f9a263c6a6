/** The command line as a function of its words (options.c): the list of requested settings, newest
    first, and the way parsing ends. */
module OptionSpec {
  import opened Text

  /** The option bits that name a setting. */
  datatype Kind = Gateway | Dns | Search | Ip | Dhcp | Route | DhcpV6 | Hostname

  const ALL: set<Kind> := {Gateway, Dns, Search, Ip, Dhcp, Route, DhcpV6, Hostname}
  const BYMAC: set<Kind> := {Gateway, Dns, Dhcp, DhcpV6, Ip, Route}
  const NOTMAC: set<Kind> := {Search, Hostname}

  datatype Action = Get | Set | Clean | Restart

  /** One element of the option list; an excluded one has no kind left. */
  datatype Entry = Entry(kinds: set<Kind>, mac: Option<string>, value: Option<string>)

  datatype Opts = Opts(
    action: Action,
    flags: set<Kind>,
    verbose: bool,
    debug: bool,
    compare: bool,
    macs: seq<Entry>)

  /** Parsing comes to its end or returns early, or it ends the process. */
  datatype End = Returned | Exited(code: nat)

  datatype Parsed = Parsed(end: End, opts: Opts)

  const START := Opts(Get, {}, false, false, false, [])

  // ---- the option list ----------------------------------------------------

  predicate Fits(e: Entry, mac: Option<string>, kinds: set<Kind>) {
    !(e.kinds !! kinds) && (mac.None? || e.mac == mac)
  }

  /** `get_opt_mac`: the index of the first entry that fits, or the length. */
  function GetOptMac(macs: seq<Entry>, mac: Option<string>, kinds: set<Kind>): (k: nat)
    ensures k <= |macs|
    ensures k < |macs| ==> Fits(macs[k], mac, kinds)
  {
    if macs == [] || Fits(macs[0], mac, kinds) then 0 else 1 + GetOptMac(macs[1..], mac, kinds)
  }

  lemma {:induction false} GetOptMacFirst(macs: seq<Entry>, mac: Option<string>, kinds: set<Kind>)
    ensures forall i :: 0 <= i < GetOptMac(macs, mac, kinds) ==> !Fits(macs[i], mac, kinds)
  {
    if macs != [] && !Fits(macs[0], mac, kinds) {
      GetOptMacFirst(macs[1..], mac, kinds);
    }
  }

  /** `count_opt_mac` */
  function Count(macs: seq<Entry>, kinds: set<Kind>): nat {
    if macs == [] then 0
    else (if !(macs[0].kinds !! kinds) then 1 else 0) + Count(macs[1..], kinds)
  }

  /** `clean_opt_mac` */
  function CleanOptMac(macs: seq<Entry>, kinds: set<Kind>): seq<Entry> {
    if macs == [] then [] else [macs[0].(kinds := macs[0].kinds - kinds)] + CleanOptMac(macs[1..], kinds)
  }

  /** The index of the first entry for a MAC, or the length. */
  function FindMac(macs: seq<Entry>, mac: string): (k: nat)
    ensures k <= |macs|
    ensures k < |macs| ==> macs[k].mac == Some(mac)
  {
    if macs == [] || macs[0].mac == Some(mac) then 0 else 1 + FindMac(macs[1..], mac)
  }

  /** `add_opt_mac`, for a query. */
  function AddOptMac(macs: seq<Entry>, kind: Kind, mac: string): seq<Entry> {
    var k := FindMac(macs, mac);
    if k < |macs| then macs[k := macs[k].(kinds := macs[k].kinds + {kind})]
    else [Entry({kind}, Some(mac), None)] + macs
  }

  /** `add_set_opt`: the newest setting comes first. */
  function AddSetOpt(macs: seq<Entry>, kind: Kind, mac: Option<string>, value: string): seq<Entry> {
    [Entry({kind}, mac, Some(value))] + macs
  }

  /** The DHCP flags of one MAC share an entry: the first sets its digit, the second completes
      it, and a third is an error. */
  datatype Merge = Merged(macs: seq<Entry>) | TooMany | NoIpv6

  function MergeDhcp(macs: seq<Entry>, mac: string, v6: bool, ipv6: bool): Merge {
    var k := GetOptMac(macs, Some(mac), {Dhcp});
    if k < |macs| then
      if macs[k].value == Some("4") || macs[k].value == Some("6") then
        Merged(macs[k := macs[k].(value := Some("4 6"))])
      else TooMany
    else if !v6 then Merged(AddSetOpt(macs, Dhcp, Some(mac), "4"))
    else if !ipv6 then NoIpv6
    else Merged(AddSetOpt(macs, Dhcp, Some(mac), "6"))
  }

  // ---- one word -----------------------------------------------------------

  datatype Word = Act(action: Action) | Verbose | Debug | Compare | Opt(kind: Kind) | Unknown

  function ReadWord(w: string, first: bool): Word {
    if first && w == "get" then Act(Get)
    else if first && w == "set" then Act(Set)
    else if first && w == "clean" then Act(Clean)
    else if first && w == "restart" then Act(Restart)
    else if w == "-v" || w == "--verbose" then Verbose
    else if w == "-d" || w == "--debug" then Debug
    else if w == "--gateway" then Opt(Gateway)
    else if w == "--dns" then Opt(Dns)
    else if w == "--search-domain" then Opt(Search)
    else if w == "--dhcp" then Opt(Dhcp)
    else if w == "--dhcpv6" then Opt(DhcpV6)
    else if w == "--ip" then Opt(Ip)
    else if w == "--default-route" then Opt(Gateway)
    else if w == "--route" then Opt(Route)
    else if w == "--hostname" then Opt(Hostname)
    else if w == "--compare" then Compare
    else Unknown
  }

  predicate IsDash(w: string) {
    w != "" && w[0] == '-'
  }

  /** `is_ipv6_value` */
  predicate IsIpv6Value(value: string) {
    exists t <- Tokens(value, ' ') :: ':' in t || "removev6" <= t
  }

  // ---- the whole line -----------------------------------------------------

  /** One option with its arguments: where parsing goes on, or how it ends. */
  datatype Next = Go(opts: Opts, i: nat) | Stop(end: End)

  function ReadQuery(o: Opts, kind: Kind, args: seq<string>, i: nat): (r: Next)
    requires i <= |args|
    ensures r.Go? && i <= r.i <= |args|
  {
    if kind in BYMAC && i < |args| && !IsDash(args[i]) then
      Go(o.(macs := AddOptMac(o.macs, kind, args[i])), i + 1)
    else Go(o.(flags := o.flags + {kind}), i)
  }

  function ReadSetting(o: Opts, kind: Kind, args: seq<string>, i: nat, ipv6: bool): (r: Next)
    requires i <= |args|
    ensures r.Go? ==> i < r.i <= |args|
  {
    if i == |args| || IsDash(args[i]) then Stop(Exited(1))
    else if kind in NOTMAC then Go(o.(macs := AddSetOpt(o.macs, kind, None, args[i])), i + 1)
    else if kind == Dhcp || kind == DhcpV6 then
      match MergeDhcp(o.macs, args[i], kind == DhcpV6, ipv6)
      case Merged(macs) => Go(o.(macs := macs), i + 1)
      case TooMany => Stop(Returned)
      case NoIpv6 => Stop(Exited(3))
    else if i + 1 == |args| then Stop(Exited(1))
    else if !ipv6 && IsIpv6Value(args[i + 1]) then Stop(Exited(3))
    else Go(o.(macs := AddSetOpt(o.macs, kind, Some(args[i]), args[i + 1])), i + 2)
  }

  /** One turn of the loop at word `i`. */
  function Turn(o: Opts, args: seq<string>, i: nat, ipv6: bool): (r: Next)
    requires i < |args|
    ensures r.Go? ==> i < r.i <= |args|
  {
    match ReadWord(args[i], i == 0)
    case Act(a) => Go(o.(action := a), i + 1)
    case Verbose => Go(o.(verbose := true), i + 1)
    case Debug => Go(o.(debug := true), i + 1)
    case Compare => Go(o.(compare := true), i + 1)
    case Unknown => Stop(Exited(1))
    case Opt(kind) =>
      if o.action == Get then ReadQuery(o, kind, args, i + 1)
      else if o.action == Set then ReadSetting(o, kind, args, i + 1, ipv6)
      else Go(o, i + 1)
  }

  /** Behind the last word. */
  function Finish(o: Opts, env: bool): Parsed {
    if o.action == Set && Count(o.macs, BYMAC) == 0 && Count(o.macs, NOTMAC) == 0 then Parsed(Exited(0), o)
    else
      var q := if o.action == Get && o.flags == {} && Count(o.macs, BYMAC) == 0 then o.(flags := ALL) else o;
      Parsed(Returned, q.(compare := q.compare || env))
  }

  /** `parse_options` from word `i` on, where `ipv6` says whether the system has IPv6 and `env`
      whether the environment asks for a comparison. */
  function ParseFrom(o: Opts, args: seq<string>, i: nat, ipv6: bool, env: bool): Parsed
    requires i <= |args|
    decreases |args| - i
  {
    if i == |args| then Finish(o, env)
    else if args[i] == "--all" then
      Parsed(Returned, o.(flags := ALL, macs := CleanOptMac(o.macs, ALL)))
    else if args[i] == "-V" || args[i] == "--version" || args[i] == "-h" || args[i] == "--help" then
      Parsed(Exited(0), o)
    else match Turn(o, args, i, ipv6)
      case Stop(end) => Parsed(end, o)
      case Go(next, j) => ParseFrom(next, args, j, ipv6, env)
  }

  function Parse(args: seq<string>, ipv6: bool, env: bool): Parsed {
    ParseFrom(START, args, 0, ipv6, env)
  }
}
