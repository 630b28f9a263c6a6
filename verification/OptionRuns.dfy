/** What parsing any command line keeps, and what a line of settings leaves in the option list. */
module OptionRuns {
  import opened Text
  import opened OptionSpec

  // ---- every argument vector ----------------------------------------------

  /** A setting for one MAC or for the whole system. */
  predicate IsSetting(e: Entry) {
    && e.value.Some?
    && (if e.mac.Some? then e.kinds in {{Gateway}, {Dns}, {Ip}, {Dhcp}, {Route}}
        else e.kinds in {{Search}, {Hostname}})
    && (Dhcp in e.kinds ==> e.value.value in {"4", "6", "4 6"})
  }

  /** The list that setting leaves: an excluded entry has no kind. */
  predicate SetList(macs: seq<Entry>) {
    && (forall e <- macs :: IsSetting(e) || e.kinds == {})
    && OneDhcp(macs)
  }

  /** No MAC has two DHCP entries. */
  predicate OneDhcp(macs: seq<Entry>) {
    forall i, j :: 0 <= i < j < |macs| && Dhcp in macs[i].kinds && Dhcp in macs[j].kinds ==>
      macs[i].mac != macs[j].mac
  }

  /** The list that a query leaves: one entry for each MAC, without a value. */
  predicate GetList(macs: seq<Entry>) {
    && (forall e <- macs :: e.mac.Some? && e.value.None?)
    && (forall i, j :: 0 <= i < j < |macs| ==> macs[i].mac != macs[j].mac)
  }

  predicate Sound(o: Opts) {
    match o.action
    case Set => SetList(o.macs)
    case Get => GetList(o.macs)
    case _ => o.macs == []
  }

  lemma {:induction false} FindMacFirst(macs: seq<Entry>, mac: string)
    ensures forall i :: 0 <= i < FindMac(macs, mac) ==> macs[i].mac != Some(mac)
  {
    if macs != [] && macs[0].mac != Some(mac) {
      FindMacFirst(macs[1..], mac);
    }
  }

  lemma AddOptMacKeeps(macs: seq<Entry>, kind: Kind, mac: string)
    requires GetList(macs)
    ensures GetList(AddOptMac(macs, kind, mac))
  {
    FindMacFirst(macs, mac);
  }

  lemma MergeKeeps(macs: seq<Entry>, mac: string, v6: bool, ipv6: bool)
    requires SetList(macs) && MergeDhcp(macs, mac, v6, ipv6).Merged?
    ensures SetList(MergeDhcp(macs, mac, v6, ipv6).macs)
  {
    GetOptMacFirst(macs, Some(mac), {Dhcp});
    var k := GetOptMac(macs, Some(mac), {Dhcp});
    if k < |macs| {
      assert macs[k] in macs;
    } else {
      forall i | 0 <= i < |macs| && Dhcp in macs[i].kinds
        ensures macs[i].mac != Some(mac)
      {
        assert Dhcp in macs[i].kinds * {Dhcp};
      }
    }
  }

  lemma AddSetOptKeeps(macs: seq<Entry>, kind: Kind, mac: Option<string>, value: string)
    requires SetList(macs) && kind != Dhcp && IsSetting(Entry({kind}, mac, Some(value)))
    ensures SetList(AddSetOpt(macs, kind, mac, value))
  {
  }

  lemma QueryKeeps(o: Opts, kind: Kind, args: seq<string>, i: nat)
    requires i <= |args| && o.action == Get && Sound(o)
    ensures Sound(ReadQuery(o, kind, args, i).opts)
  {
    if i < |args| {
      AddOptMacKeeps(o.macs, kind, args[i]);
    }
  }

  lemma SettingKeeps(o: Opts, kind: Kind, args: seq<string>, i: nat, ipv6: bool)
    requires i <= |args| && o.action == Set && Sound(o) && ReadSetting(o, kind, args, i, ipv6).Go?
    ensures Sound(ReadSetting(o, kind, args, i, ipv6).opts)
  {
    if kind in NOTMAC {
      AddSetOptKeeps(o.macs, kind, None, args[i]);
    } else if kind == Dhcp || kind == DhcpV6 {
      MergeKeeps(o.macs, args[i], kind == DhcpV6, ipv6);
    } else {
      AddSetOptKeeps(o.macs, kind, Some(args[i]), args[i + 1]);
    }
  }

  /** The action is read from the first word only. */
  lemma ActionIsFirst(w: string, first: bool)
    requires ReadWord(w, first).Act?
    ensures first
  {
  }

  lemma TurnKeeps(o: Opts, args: seq<string>, i: nat, ipv6: bool)
    requires i < |args| && Sound(o) && (i == 0 ==> o.macs == [])
    requires Turn(o, args, i, ipv6).Go?
    ensures Sound(Turn(o, args, i, ipv6).opts)
  {
    var w := ReadWord(args[i], i == 0);
    match w {
      case Act(_) => ActionIsFirst(args[i], i == 0);
      case Opt(kind) =>
        if o.action == Get {
          QueryKeeps(o, kind, args, i + 1);
        } else if o.action == Set {
          SettingKeeps(o, kind, args, i + 1, ipv6);
        }
      case _ =>
    }
  }

  lemma EveryKind(k: Kind)
    ensures k in ALL
  {
  }

  lemma {:induction false} CleanAllKeeps(macs: seq<Entry>)
    ensures |CleanOptMac(macs, ALL)| == |macs|
    ensures forall i :: 0 <= i < |macs| ==> CleanOptMac(macs, ALL)[i] == macs[i].(kinds := {})
  {
    if macs != [] {
      forall k: Kind
        ensures k in ALL
      {
        EveryKind(k);
      }
      assert macs[0].kinds - ALL == {};
      CleanAllKeeps(macs[1..]);
    }
  }

  lemma {:induction false} ParseFromKeeps(o: Opts, args: seq<string>, i: nat, ipv6: bool, env: bool)
    requires i <= |args| && Sound(o) && (i == 0 ==> o.macs == [])
    ensures Sound(ParseFrom(o, args, i, ipv6, env).opts)
    decreases |args| - i
  {
    hide Turn, Fits;
    CleanAllKeeps(o.macs);
    if i < |args| && Turn(o, args, i, ipv6).Go? {
      TurnKeeps(o, args, i, ipv6);
      var next := Turn(o, args, i, ipv6);
      ParseFromKeeps(next.opts, args, next.i, ipv6, env);
    }
  }

  /** However parsing ends, on every argument vector: what is to be set is a list of settings with
      at most one DHCP entry for a MAC, whose value is "4", "6" or "4 6"; what is to be queried has
      one entry for a MAC. */
  lemma ParsedIsSound(args: seq<string>, ipv6: bool, env: bool)
    ensures Sound(Parse(args, ipv6, env).opts)
  {
    ParseFromKeeps(START, args, 0, ipv6, env);
  }

  // ---- a line of settings -------------------------------------------------

  /** One option of a line of settings with its arguments. */
  datatype Cmd =
    | Valued(word: string, kind: Kind, mac: string, value: string)
    | Flag(mac: string, v6: bool)
    | Global(kind: Kind, value: string)
    | Switch(word: string)

  const VALUED: set<Kind> := {Gateway, Dns, Ip, Route}
  const VERBOSE: set<string> := {"-v", "--verbose"}
  const DEBUG: set<string> := {"-d", "--debug"}
  const COMPARE: set<string> := {"--compare"}

  predicate GoodCmd(c: Cmd, ipv6: bool) {
    match c
    case Valued(word, kind, mac, value) => kind in VALUED && MeansKind(word, kind) && NoDash(mac) && (ipv6 || Ipv4Only(value))
    case Flag(mac, v6) => NoDash(mac) && (ipv6 || !v6)
    case Global(kind, value) => kind in {Search, Hostname} && NoDash(value)
    case Switch(word) => word in VERBOSE + DEBUG + COMPARE
  }

  /** What can be an argument. */
  predicate NoDash(w: string) {
    w == "" || w[0] != '-'
  }

  /** No part of the value is an IPv6 address or a removal of one. */
  predicate Ipv4Only(value: string) {
    forall t <- Tokens(value, ' ') :: ':' !in t && !("removev6" <= t)
  }

  /** A gateway has two names. */
  predicate MeansKind(word: string, kind: Kind) {
    word == OptWord(kind) || (kind == Gateway && word == "--default-route")
  }

  function OptWord(kind: Kind): string {
    match kind
    case Gateway => "--gateway"
    case Dns => "--dns"
    case Search => "--search-domain"
    case Ip => "--ip"
    case Dhcp => "--dhcp"
    case Route => "--route"
    case DhcpV6 => "--dhcpv6"
    case Hostname => "--hostname"
  }

  function Words(c: Cmd): seq<string> {
    match c
    case Valued(word, _, mac, value) => [word, mac, value]
    case Flag(mac, v6) => [OptWord(if v6 then DhcpV6 else Dhcp), mac]
    case Global(kind, value) => [OptWord(kind), value]
    case Switch(word) => [word]
  }

  function AllWords(cmds: seq<Cmd>): seq<string> {
    if cmds == [] then [] else Words(cmds[0]) + AllWords(cmds[1..])
  }

  /** The DHCP flags given for a MAC, in order: true for IPv6. */
  function Flags(cmds: seq<Cmd>, mac: string): seq<bool> {
    if cmds == [] then []
    else
      var c, before := cmds[|cmds| - 1], Flags(cmds[..|cmds| - 1], mac);
      if c.Flag? && c.mac == mac then before + [c.v6] else before
  }

  function DhcpValue(flags: seq<bool>): Option<string> {
    if |flags| == 0 then None
    else if |flags| == 1 then Some(if flags[0] then "6" else "4")
    else Some("4 6")
  }

  predicate Gives(c: Cmd, mac: Option<string>, kind: Kind) {
    match c
    case Valued(_, k, m, _) => k == kind && mac == Some(m)
    case Global(k, _) => k == kind && mac == None
    case _ => false
  }

  /** The value of the latest command that sets this kind. */
  function Latest(cmds: seq<Cmd>, mac: Option<string>, kind: Kind): Option<string> {
    if cmds == [] then None
    else
      var c := cmds[|cmds| - 1];
      if Gives(c, mac, kind) then Some(c.value) else Latest(cmds[..|cmds| - 1], mac, kind)
  }

  /** What the commands ask for. */
  function Asked(cmds: seq<Cmd>, mac: Option<string>, kind: Kind): Option<string> {
    if kind == Dhcp && mac.Some? then DhcpValue(Flags(cmds, mac.value)) else Latest(cmds, mac, kind)
  }

  /** Where reading stops when the first `k` commands have been read: at the next that is a third
      DHCP flag for its MAC, or behind the last. */
  function Accepted(cmds: seq<Cmd>, k: nat): (n: nat)
    requires k <= |cmds|
    ensures k <= n <= |cmds|
    decreases |cmds| - k
  {
    if k == |cmds| || (cmds[k].Flag? && |Flags(cmds[..k], cmds[k].mac)| >= 2) then k
    else Accepted(cmds, k + 1)
  }

  /** What `get_opt_mac` finds for a kind. */
  function Setting(macs: seq<Entry>, mac: Option<string>, kind: Kind): Option<string> {
    var k := GetOptMac(macs, mac, {kind});
    if k < |macs| then macs[k].value else None
  }

  predicate Asks(mac: Option<string>, kind: Kind) {
    if mac.Some? then kind in VALUED || kind == Dhcp else kind in NOTMAC
  }

  /** The list holds what the commands ask for. */
  ghost predicate Holds(macs: seq<Entry>, done: seq<Cmd>) {
    forall mac: Option<string>, kind: Kind :: Asks(mac, kind) ==>
      Setting(macs, mac, kind) == Asked(done, mac, kind)
  }

  /** The setting that was added is the one that is found; no other changes. */
  lemma AddedIsFound(macs: seq<Entry>, kind: Kind, mac: Option<string>, value: string,
                     m: Option<string>, k: Kind)
    requires k == kind ==> (m.Some? <==> mac.Some?)
    ensures Setting(AddSetOpt(macs, kind, mac, value), m, k) ==
            if m == mac && k == kind then Some(value) else Setting(macs, m, k)
  {
    var now := AddSetOpt(macs, kind, mac, value);
    assert now[1..] == macs;
    assert k == kind ==> kind in now[0].kinds * {k};
  }

  /** A new value stays at the place of the old one. */
  lemma {:induction false} ReplacedIsFound(macs: seq<Entry>, j: nat, value: string,
                                           m: Option<string>, kinds: set<Kind>)
    requires j < |macs|
    ensures GetOptMac(macs[j := macs[j].(value := Some(value))], m, kinds) == GetOptMac(macs, m, kinds)
  {
    var now := macs[j := macs[j].(value := Some(value))];
    if j == 0 {
      assert now[1..] == macs[1..];
    } else {
      assert now[1..] == macs[1..][j - 1 := macs[j].(value := Some(value))];
      ReplacedIsFound(macs[1..], j - 1, value, m, kinds);
    }
  }

  lemma MergedIsFound(macs: seq<Entry>, c: Cmd, ipv6: bool, m: Option<string>, k: Kind)
    requires SetList(macs) && c.Flag? && Asks(m, k) && MergeDhcp(macs, c.mac, c.v6, ipv6).Merged?
    ensures Setting(MergeDhcp(macs, c.mac, c.v6, ipv6).macs, m, k) ==
      if m != Some(c.mac) || k != Dhcp then Setting(macs, m, k)
      else if Setting(macs, m, k).Some? then Some("4 6")
      else Some(if c.v6 then "6" else "4")
  {
    hide SetList, Fits;
    var at := GetOptMac(macs, Some(c.mac), {Dhcp});
    if at < |macs| {
      ReplacedIsFound(macs, at, "4 6", m, {k});
      if m != Some(c.mac) || k != Dhcp {
        OtherPlace(macs, Some(c.mac), m, k);
      }
    } else {
      AddedIsFound(macs, Dhcp, Some(c.mac), if c.v6 then "6" else "4", m, k);
    }
  }

  /** A DHCP flag, merged into the list. */
  lemma FlagIsFound(macs: seq<Entry>, done: seq<Cmd>, c: Cmd, ipv6: bool)
    requires SetList(macs) && Holds(macs, done) && c.Flag? && (ipv6 || !c.v6)
    ensures MergeDhcp(macs, c.mac, c.v6, ipv6) == TooMany <==> |Flags(done, c.mac)| >= 2
    ensures var merge := MergeDhcp(macs, c.mac, c.v6, ipv6);
      merge.Merged? || merge == TooMany
    ensures var merge := MergeDhcp(macs, c.mac, c.v6, ipv6);
      merge.Merged? ==> Holds(merge.macs, done + [c])
  {
    var at, merge := GetOptMac(macs, Some(c.mac), {Dhcp}), MergeDhcp(macs, c.mac, c.v6, ipv6);
    assert Asks(Some(c.mac), Dhcp);
    assert Setting(macs, Some(c.mac), Dhcp) == DhcpValue(Flags(done, c.mac));
    assert at < |macs| ==> macs[at] in macs;
    assert (done + [c])[..|done|] == done;
    if merge.Merged? {
      forall m: Option<string>, k: Kind | Asks(m, k)
        ensures Setting(merge.macs, m, k) == Asked(done + [c], m, k)
      {
        assert Setting(macs, m, k) == Asked(done, m, k);
        MergedIsFound(macs, c, ipv6, m, k);
      }
    }
  }

  /** No other lookup finds the DHCP entry of a MAC. */
  lemma OtherPlace(macs: seq<Entry>, mac: Option<string>, m: Option<string>, k: Kind)
    requires SetList(macs) && mac.Some? && Asks(m, k) && (m != mac || k != Dhcp)
    requires GetOptMac(macs, mac, {Dhcp}) < |macs|
    ensures GetOptMac(macs, m, {k}) != GetOptMac(macs, mac, {Dhcp})
  {
    var at := GetOptMac(macs, mac, {Dhcp});
    assert macs[at] in macs;
    assert Fits(macs[at], mac, {Dhcp});
  }

  lemma ValueIsFound(macs: seq<Entry>, done: seq<Cmd>, c: Cmd, ipv6: bool)
    requires Holds(macs, done) && (c.Valued? || c.Global?) && GoodCmd(c, ipv6)
    ensures Holds(AddSetOpt(macs, c.kind, if c.Valued? then Some(c.mac) else None, c.value), done + [c])
  {
    assert (done + [c])[..|done|] == done;
    var mac := if c.Valued? then Some(c.mac) else None;
    forall m: Option<string>, k: Kind | Asks(m, k)
      ensures Setting(AddSetOpt(macs, c.kind, mac, c.value), m, k) == Asked(done + [c], m, k)
    {
      assert Setting(macs, m, k) == Asked(done, m, k);
      AddedIsFound(macs, c.kind, mac, c.value, m, k);
    }
  }

  lemma SwitchAsksNothing(macs: seq<Entry>, done: seq<Cmd>, c: Cmd)
    requires Holds(macs, done) && c.Switch?
    ensures Holds(macs, done + [c])
  {
    assert (done + [c])[..|done|] == done;
    forall m: Option<string>, k: Kind | Asks(m, k)
      ensures Setting(macs, m, k) == Asked(done + [c], m, k)
    {
      assert Setting(macs, m, k) == Asked(done, m, k);
      assert m.Some? ==> Flags(done + [c], m.value) == Flags(done, m.value);
    }
  }

  lemma {:induction false} FoundCounts(macs: seq<Entry>, mac: Option<string>, kinds: set<Kind>)
    requires GetOptMac(macs, mac, kinds) < |macs|
    ensures Count(macs, kinds) > 0
  {
    if !Fits(macs[0], mac, kinds) {
      FoundCounts(macs[1..], mac, kinds);
    }
  }

  lemma {:induction false} CountMore(macs: seq<Entry>, less: set<Kind>, more: set<Kind>)
    requires less <= more
    ensures Count(macs, less) <= Count(macs, more)
  {
    if macs != [] {
      CountMore(macs[1..], less, more);
      var kinds := macs[0].kinds;
      assert forall k :: k in kinds * less ==> k in kinds * more;
    }
  }

  /** Which setting a command is about. */
  function MacOf(c: Cmd): Option<string>
    requires !c.Switch?
  {
    if c.Global? then None else Some(c.mac)
  }

  function KindOf(c: Cmd): Kind
    requires !c.Switch?
  {
    if c.Flag? then Dhcp else c.kind
  }

  lemma {:induction false} GivenIsAsked(done: seq<Cmd>, i: nat)
    requires i < |done| && !done[i].Switch? && GoodCmd(done[i], true)
    ensures Asks(MacOf(done[i]), KindOf(done[i])) && Asked(done, MacOf(done[i]), KindOf(done[i])).Some?
  {
    if i < |done| - 1 {
      GivenIsAsked(done[..|done| - 1], i);
    }
  }

  lemma FoundIsSetting(macs: seq<Entry>, done: seq<Cmd>, i: nat)
    requires Holds(macs, done) && i < |done| && !done[i].Switch? && GoodCmd(done[i], true)
    ensures Count(macs, BYMAC) > 0 || Count(macs, NOTMAC) > 0
  {
    var mac, kind := MacOf(done[i]), KindOf(done[i]);
    GivenIsAsked(done, i);
    assert Setting(macs, mac, kind).Some?;
    FoundCounts(macs, mac, {kind});
    CountMore(macs, {kind}, if mac.None? then NOTMAC else BYMAC);
  }

  /** The words of the next command, at word `i`. */
  lemma NextWords(args: seq<string>, i: nat, c: Cmd, rest: seq<Cmd>, tail: seq<string>)
    requires i <= |args| && args[i..] == AllWords([c] + rest) + tail
    ensures |args| >= i + |Words(c)| && args[i + |Words(c)|..] == AllWords(rest) + tail
    ensures forall j :: 0 <= j < |Words(c)| ==> args[i + j] == Words(c)[j]
  {
    var w := Words(c);
    assert ([c] + rest)[1..] == rest;
    assert args[i..] == w + (AllWords(rest) + tail) by {
      Associative(w, AllWords(rest), tail);
    }
    assert forall j :: 0 <= j < |w| ==> args[i + j] == args[i..][j] == w[j];
    assert args[i + |w|..] == args[i..][|w|..];
  }

  /** The words that end parsing at once. */
  const ENDING: set<string> := {"--all", "-V", "--version", "-h", "--help"}

  lemma ReadOptWord(word: string, kind: Kind)
    requires MeansKind(word, kind)
    ensures ReadWord(word, false) == Opt(kind)
    ensures word !in ENDING
  {
    if word == "--default-route" {
      assert word[2..4] == "de" && |word| == 15;
    } else {
      match kind {
        case Gateway => assert word[2] == 'g';
        case Dns => assert word[2..4] == "dn";
        case Search => assert word[2] == 's';
        case Ip => assert word[2] == 'i';
        case Dhcp => assert word[2..4] == "dh" && |word| == 6;
        case Route => assert word[2] == 'r';
        case DhcpV6 => assert word[2..4] == "dh" && |word| == 8;
        case Hostname => assert word[2] == 'h' && word[3] == 'o';
      }
    }
  }

  /** A switch sets one mark of the options. */
  function SwitchOn(o: Opts, word: string): Opts {
    o.(verbose := o.verbose || word in VERBOSE,
       debug := o.debug || word in DEBUG,
       compare := o.compare || word in COMPARE)
  }

  lemma SwitchReads(o: Opts, args: seq<string>, i: nat, ipv6: bool)
    requires 0 < i < |args| && args[i] in VERBOSE + DEBUG + COMPARE
    ensures args[i] !in ENDING && Turn(o, args, i, ipv6) == Go(SwitchOn(o, args[i]), i + 1)
  {
    var w := args[i];
    if w in COMPARE {
      assert w[2] == 'c';
    } else if w == "-v" || w == "-d" {
      assert |w| == 2 && w[1] != 'h';
    } else if w == "--verbose" {
      assert w[2] == 'v' && w[5] == 'b';
    } else {
      assert w[2] == 'd' && w[4] == 'b';
    }
  }

  /** Reading one setting. */
  lemma TurnReads(o: Opts, args: seq<string>, i: nat, c: Cmd, rest: seq<Cmd>, tail: seq<string>, ipv6: bool)
    requires 0 < i <= |args| && args[i..] == AllWords([c] + rest) + tail
    requires o.action == Set && GoodCmd(c, ipv6) && !c.Switch?
    ensures i < |args| && args[i] !in ENDING
    ensures !c.Flag? ==> (
      var now := o.(macs := AddSetOpt(o.macs, c.kind, if c.Valued? then Some(c.mac) else None, c.value));
      Turn(o, args, i, ipv6) == Go(now, i + |Words(c)|))
    ensures c.Flag? ==> (
      var merge := MergeDhcp(o.macs, c.mac, c.v6, ipv6);
      && (merge.Merged? ==> Turn(o, args, i, ipv6) == Go(o.(macs := merge.macs), i + |Words(c)|))
      && (merge == TooMany ==> Turn(o, args, i, ipv6) == Stop(Returned)))
  {
    NextWords(args, i, c, rest, tail);
    var kind := if c.Flag? then (if c.v6 then DhcpV6 else Dhcp) else c.kind;
    assert args[i] == args[i + 0] == Words(c)[0];
    ReadOptWord(args[i], kind);
    assert args[i + 1] == Words(c)[1];
    assert c.Valued? ==> args[i + 2] == Words(c)[2];
    assert Turn(o, args, i, ipv6) == ReadSetting(o, kind, args, i + 1, ipv6);
  }

  /** The list behind one command, unless the command stops parsing. */
  function Added(macs: seq<Entry>, c: Cmd, ipv6: bool): Merge {
    match c
    case Flag(mac, v6) => MergeDhcp(macs, mac, v6, ipv6)
    case Valued(_, kind, mac, value) => Merged(AddSetOpt(macs, kind, Some(mac), value))
    case Global(kind, value) => Merged(AddSetOpt(macs, kind, None, value))
    case Switch(_) => Merged(macs)
  }

  /** The options behind it. */
  function After(o: Opts, c: Cmd, macs: seq<Entry>): Opts {
    (if c.Switch? then SwitchOn(o, c.word) else o).(macs := macs)
  }

  lemma AddedHolds(macs: seq<Entry>, done: seq<Cmd>, c: Cmd, ipv6: bool)
    requires SetList(macs) && Holds(macs, done) && GoodCmd(c, ipv6)
    ensures Added(macs, c, ipv6) == TooMany <==> c.Flag? && |Flags(done, c.mac)| >= 2
    ensures Added(macs, c, ipv6).Merged? || Added(macs, c, ipv6) == TooMany
    ensures Added(macs, c, ipv6).Merged? ==>
      SetList(Added(macs, c, ipv6).macs) && Holds(Added(macs, c, ipv6).macs, done + [c])
  {
    if c.Flag? {
      FlagIsFound(macs, done, c, ipv6);
      if Added(macs, c, ipv6).Merged? {
        MergeKeeps(macs, c.mac, c.v6, ipv6);
      }
    } else if c.Switch? {
      SwitchAsksNothing(macs, done, c);
    } else {
      ValueIsFound(macs, done, c, ipv6);
      AddSetOptKeeps(macs, c.kind, if c.Valued? then Some(c.mac) else None, c.value);
    }
  }

  lemma SwitchWord(args: seq<string>, i: nat, c: Cmd, rest: seq<Cmd>, tail: seq<string>, ipv6: bool)
    requires i <= |args| && args[i..] == AllWords([c] + rest) + tail && c.Switch? && GoodCmd(c, ipv6)
    ensures i < |args| && args[i] == c.word && |Words(c)| == 1 && c.word in VERBOSE + DEBUG + COMPARE
  {
    NextWords(args, i, c, rest, tail);
    assert args[i + 0] == Words(c)[0];
  }

  lemma ParseReads(o: Opts, args: seq<string>, i: nat, c: Cmd, rest: seq<Cmd>, tail: seq<string>, ipv6: bool, env: bool)
    requires 0 < i <= |args| && args[i..] == AllWords([c] + rest) + tail
    requires o.action == Set && GoodCmd(c, ipv6)
    ensures i + |Words(c)| <= |args| && args[i + |Words(c)|..] == AllWords(rest) + tail
    ensures var merge := Added(o.macs, c, ipv6);
      && (merge.Merged? ==>
        ParseFrom(o, args, i, ipv6, env) == ParseFrom(After(o, c, merge.macs), args, i + |Words(c)|, ipv6, env))
      && (merge == TooMany ==> ParseFrom(o, args, i, ipv6, env) == Parsed(Returned, o))
  {
    hide GoodCmd, Turn, Words, AllWords, MergeDhcp, AddSetOpt;
    NextWords(args, i, c, rest, tail);
    if c.Switch? {
      SwitchWord(args, i, c, rest, tail, ipv6);
      SwitchReads(o, args, i, ipv6);
    } else {
      TurnReads(o, args, i, c, rest, tail, ipv6);
    }
  }

  /** What reading the commands `todo` leads to, when word `j` stands behind them. */
  function Final(o: Opts, todo: seq<Cmd>, args: seq<string>, j: nat, ipv6: bool, env: bool): Parsed
    requires j <= |args|
    decreases |todo|
  {
    if todo == [] then ParseFrom(o, args, j, ipv6, env)
    else match Added(o.macs, todo[0], ipv6)
      case Merged(macs) => Final(After(o, todo[0], macs), todo[1..], args, j, ipv6, env)
      case _ => Parsed(Returned, o)
  }

  lemma AfterIsSet(o: Opts, c: Cmd, ipv6: bool)
    requires o.action == Set
    ensures Added(o.macs, c, ipv6).Merged? ==>
      var now := After(o, c, Added(o.macs, c, ipv6).macs); now.action == Set && now.macs == Added(o.macs, c, ipv6).macs
  {
  }

  /** The words are read command by command. */
  lemma {:induction false} ParseIsFinal(o: Opts, args: seq<string>, i: nat, todo: seq<Cmd>, tail: seq<string>, ipv6: bool, env: bool)
    requires 0 < i <= |args| && args[i..] == AllWords(todo) + tail
    requires o.action == Set && forall c <- todo :: GoodCmd(c, ipv6)
    ensures |tail| <= |args|
    ensures ParseFrom(o, args, i, ipv6, env) == Final(o, todo, args, |args| - |tail|, ipv6, env)
    decreases |todo|
  {
    hide GoodCmd, Words, Added, After, ParseFrom;
    if todo == [] {
      assert AllWords(todo) + tail == tail;
    } else {
      var c, rest := todo[0], todo[1..];
      assert todo == [c] + rest && c in todo && forall d <- rest :: d in todo;
      AfterIsSet(o, c, ipv6);
      ParseReads(o, args, i, c, rest, tail, ipv6, env);
      AddedOrStopped(o.macs, c, ipv6);
      var merge := Added(o.macs, c, ipv6);
      if merge.Merged? {
        ParseIsFinal(After(o, c, merge.macs), args, i + |Words(c)|, rest, tail, ipv6, env);
      }
    }
  }

  lemma AddedOrStopped(macs: seq<Entry>, c: Cmd, ipv6: bool)
    requires GoodCmd(c, ipv6)
    ensures Added(macs, c, ipv6).Merged? || Added(macs, c, ipv6) == TooMany
  {
  }

  /** One of these words was given. */
  predicate Given(cmds: seq<Cmd>, words: set<string>) {
    exists c <- cmds :: c.Switch? && c.word in words
  }

  /** Nothing is to be set. */
  predicate OnlySwitches(cmds: seq<Cmd>) {
    forall c <- cmds :: c.Switch?
  }

  /** The options that the commands read so far leave, with this list. */
  function OptsOf(cmds: seq<Cmd>, macs: seq<Entry>): Opts {
    Opts(Set, {}, Given(cmds, VERBOSE), Given(cmds, DEBUG), Given(cmds, COMPARE), macs)
  }

  lemma GivenNext(cmds: seq<Cmd>, c: Cmd, words: set<string>)
    ensures Given(cmds + [c], words) <==> Given(cmds, words) || (c.Switch? && c.word in words)
  {
    assert forall d :: d in cmds + [c] <==> d in cmds || d == c;
  }

  lemma AfterIsNext(cmds: seq<Cmd>, macs: seq<Entry>, c: Cmd, now: seq<Entry>)
    ensures After(OptsOf(cmds, macs), c, now) == OptsOf(cmds + [c], now)
  {
    GivenNext(cmds, c, VERBOSE);
    GivenNext(cmds, c, DEBUG);
    GivenNext(cmds, c, COMPARE);
  }

  /** Parsing ended with what `cmds` leave: their list and their switches, and, if it came to the end
      of the line, a look at the environment. Only a whole line that sets nothing ends the process. */
  ghost predicate Ends(p: Parsed, cmds: seq<Cmd>, whole: bool, env: bool) {
    && p.end == (if whole && OnlySwitches(cmds) then Exited(0) else Returned)
    && p.opts == OptsOf(cmds, p.opts.macs).(compare := Compares(p, cmds, whole, env))
    && Holds(p.opts.macs, cmds)
  }

  /** A comparison was asked for, by a word or by the environment. */
  predicate Compares(p: Parsed, cmds: seq<Cmd>, whole: bool, env: bool) {
    Given(cmds, COMPARE) || (whole && env && p.end == Returned)
  }

  lemma FinishEnds(cmds: seq<Cmd>, macs: seq<Entry>, env: bool)
    requires forall c <- cmds :: GoodCmd(c, true)
    requires Holds(macs, cmds) && (OnlySwitches(cmds) ==> macs == [])
    ensures Ends(Finish(OptsOf(cmds, macs), env), cmds, true, env)
  {
    if !OnlySwitches(cmds) {
      var i :| 0 <= i < |cmds| && !cmds[i].Switch?;
      assert cmds[i] in cmds;
      FoundIsSetting(macs, cmds, i);
    }
  }

  /** A list that `cmds` can leave. */
  ghost predicate Leaves(cmds: seq<Cmd>, macs: seq<Entry>) {
    SetList(macs) && Holds(macs, cmds) && (OnlySwitches(cmds) ==> macs == [])
  }

  /** Either parsing stops at a third flag, or it goes on behind the last command. */
  lemma {:induction false} FinalRuns(cmds: seq<Cmd>, macs: seq<Entry>, k: nat, args: seq<string>, j: nat, ipv6: bool, env: bool)
    returns (now: seq<Entry>)
    requires j <= |args| && k <= |cmds| && forall c <- cmds :: GoodCmd(c, ipv6)
    requires Leaves(cmds[..k], macs)
    ensures var n, p := Accepted(cmds, k), Final(OptsOf(cmds[..k], macs), cmds[k..], args, j, ipv6, env);
      Leaves(cmds[..n], now) &&
      p == if n < |cmds| then Parsed(Returned, OptsOf(cmds[..n], now)) else ParseFrom(OptsOf(cmds, now), args, j, ipv6, env)
    decreases |cmds| - k
  {
    hide ParseFrom, Holds, SetList;
    now := macs;
    if k == |cmds| {
      assert cmds[..k] == cmds;
    } else {
      var c, merge := cmds[k], Added(macs, cmds[k], ipv6);
      assert c in cmds && cmds[k..][1..] == cmds[k + 1..] && cmds[..k] + [c] == cmds[..k + 1];
      AddedHolds(macs, cmds[..k], c, ipv6);
      if merge.Merged? {
        AfterIsNext(cmds[..k], macs, c, merge.macs);
        assert OnlySwitches(cmds[..k + 1]) ==> OnlySwitches(cmds[..k]) && c in cmds[..k + 1];
        now := FinalRuns(cmds, merge.macs, k + 1, args, j, ipv6, env);
      }
    }
  }

  lemma ParseStarts(args: seq<string>, ipv6: bool, env: bool)
    requires args != [] && args[0] == "set"
    ensures Parse(args, ipv6, env) == ParseFrom(OptsOf([], []), args, 1, ipv6, env)
  {
    assert Turn(START, args, 0, ipv6) == Go(START.(action := Set), 1);
  }

  /** A line of settings and whatever stands behind them. */
  lemma ParseLine(cmds: seq<Cmd>, tail: seq<string>, ipv6: bool, env: bool)
    requires forall c <- cmds :: GoodCmd(c, ipv6)
    ensures var args := ["set"] + AllWords(cmds) + tail;
      Parse(args, ipv6, env) == Final(OptsOf([], []), cmds, args, |args| - |tail|, ipv6, env)
  {
    var args := ["set"] + AllWords(cmds) + tail;
    assert args[1..] == AllWords(cmds) + tail;
    ParseStarts(args, ipv6, env);
    ParseIsFinal(OptsOf([], []), args, 1, cmds, tail, ipv6, env);
  }

  /** Reading a line comes to what stands behind its settings with the options they leave, unless it stops
      before, at a DHCP flag that is the third for its MAC. */
  lemma ParsedUpTo(cmds: seq<Cmd>, tail: seq<string>, ipv6: bool, env: bool) returns (macs: seq<Entry>)
    requires forall c <- cmds :: GoodCmd(c, ipv6)
    ensures var n, args := Accepted(cmds, 0), ["set"] + AllWords(cmds) + tail;
      Leaves(cmds[..n], macs) &&
      Parse(args, ipv6, env) == if n < |cmds| then Parsed(Returned, OptsOf(cmds[..n], macs))
        else ParseFrom(OptsOf(cmds, macs), args, |args| - |tail|, ipv6, env)
  {
    var args := ["set"] + AllWords(cmds) + tail;
    assert cmds[..0] == [] && cmds[0..] == cmds && Holds([], []);
    ParseLine(cmds, tail, ipv6, env);
    macs := FinalRuns(cmds, [], 0, args, |args| - |tail|, ipv6, env);
  }

  /** A line of settings and switches, whatever their number and order: parsing stops at the first
      DHCP flag that is the third for its MAC; of the commands before it, each kind of each MAC has
      the value given last, DHCP the digit of the one flag or both digits, and each switch that was
      given is on. */
  lemma ParsedSettings(cmds: seq<Cmd>, ipv6: bool, env: bool)
    requires forall c <- cmds :: GoodCmd(c, ipv6)
    ensures var n := Accepted(cmds, 0);
      Ends(Parse(["set"] + AllWords(cmds), ipv6, env), cmds[..n], n == |cmds|, env)
  {
    hide *;
    var n := Accepted(cmds, 0);
    var macs := ParsedUpTo(cmds, [], ipv6, env);
    assert ["set"] + AllWords(cmds) + [] == ["set"] + AllWords(cmds);
    if n == |cmds| {
      assert cmds[..n] == cmds;
      LeavesEnds(cmds, macs, ipv6, env);
      ParseAtEnd(OptsOf(cmds, macs), ["set"] + AllWords(cmds), ipv6, env);
    } else {
      StopEnds(cmds[..n], macs, env);
    }
  }

  lemma ParseAtEnd(o: Opts, args: seq<string>, ipv6: bool, env: bool)
    ensures ParseFrom(o, args, |args|, ipv6, env) == Finish(o, env)
  {
  }

  lemma LeavesEnds(cmds: seq<Cmd>, macs: seq<Entry>, ipv6: bool, env: bool)
    requires Leaves(cmds, macs) && forall c <- cmds :: GoodCmd(c, ipv6)
    ensures Ends(Finish(OptsOf(cmds, macs), env), cmds, true, env)
  {
    FinishEnds(cmds, macs, env);
  }

  lemma StopEnds(cmds: seq<Cmd>, macs: seq<Entry>, env: bool)
    requires Leaves(cmds, macs)
    ensures Ends(Parsed(Returned, OptsOf(cmds, macs)), cmds, false, env)
  {
  }
}
