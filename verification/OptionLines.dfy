/** What every line of words means to the option parser (options.c): the action, the lines of queries, and
    the words at which reading stops. */
module OptionLines {
  import opened Text
  import opened OptionSpec
  import opened OptionRuns

  // ---- the action ---------------------------------------------------------

  lemma {:induction false} ActionStays(o: Opts, args: seq<string>, i: nat, ipv6: bool, env: bool)
    requires 0 < i <= |args|
    ensures ParseFrom(o, args, i, ipv6, env).opts.action == o.action
    decreases |args| - i
  {
    hide ReadQuery, ReadSetting, ReadWord, CleanOptMac;
    if i < |args| && Turn(o, args, i, ipv6).Go? {
      var next := Turn(o, args, i, ipv6);
      TurnSameAction(o, args, i, ipv6);
      ActionStays(next.opts, args, next.i, ipv6, env);
    }
  }

  lemma TurnSameAction(o: Opts, args: seq<string>, i: nat, ipv6: bool)
    requires 0 < i < |args| && Turn(o, args, i, ipv6).Go?
    ensures Turn(o, args, i, ipv6).opts.action == o.action
  {
    if ReadWord(args[i], false).Act? {
      ActionIsFirst(args[i], false);
    }
  }

  /** For every line: the first word alone decides the action. */
  lemma FirstWordDecides(args: seq<string>, ipv6: bool, env: bool)
    ensures Parse(args, ipv6, env).opts.action ==
      if args != [] && args[0] == "set" then Set
      else if args != [] && args[0] == "clean" then Clean
      else if args != [] && args[0] == "restart" then Restart
      else Get
  {
    if args != [] && Turn(START, args, 0, ipv6).Go? {
      var next := Turn(START, args, 0, ipv6);
      FirstTurn(args, ipv6);
      ActionStays(next.opts, args, next.i, ipv6, env);
    }
    assert "--all"[0] == '-' && "-V"[0] == '-' && "--version"[0] == '-' && "-h"[0] == '-' && "--help"[0] == '-';
  }

  lemma FirstTurn(args: seq<string>, ipv6: bool)
    requires args != []
    ensures var turn, w := Turn(START, args, 0, ipv6), args[0];
      if w == "set" then turn == Go(START.(action := Set), 1)
      else if w == "clean" then turn == Go(START.(action := Clean), 1)
      else if w == "restart" then turn == Go(START.(action := Restart), 1)
      else if w == "get" then turn == Go(START, 1)
      else turn.Go? ==> turn.opts.action == Get
  {
  }

  // ---- where reading stops ------------------------------------------------

  /** "--all" asks for all kinds, empties the entries and ends the reading. */
  lemma AllWord(o: Opts, args: seq<string>, j: nat, ipv6: bool, env: bool)
    requires j < |args| && args[j] == "--all"
    ensures var p := ParseFrom(o, args, j, ipv6, env);
      && p.end == Returned
      && p.opts == o.(flags := {Gateway, Dns, Search, Ip, Dhcp, Route, DhcpV6, Hostname}, macs := p.opts.macs)
      && |p.opts.macs| == |o.macs|
      && forall i :: 0 <= i < |o.macs| ==> p.opts.macs[i] == o.macs[i].(kinds := {})
  {
    CleanAllKeeps(o.macs);
  }

  /** A word that asks for the version or for help ends the process. */
  lemma EndingWord(o: Opts, args: seq<string>, j: nat, ipv6: bool, env: bool)
    requires j < |args| && args[j] in {"-V", "--version", "-h", "--help"}
    ensures ParseFrom(o, args, j, ipv6, env) == Parsed(Exited(0), o)
  {
    assert "--all"[2] == 'a' && (args[j] == "-V" || args[j] == "-h" || args[j][2] == 'v' || args[j][2] == 'h');
  }

  /** So does a word that means nothing. */
  lemma UnknownWord(o: Opts, args: seq<string>, j: nat, ipv6: bool, env: bool)
    requires 0 < j < |args|
    requires args[j] !in {"--all", "-V", "--version", "-h", "--help", "-v", "--verbose", "-d", "--debug", "--gateway",
      "--dns", "--search-domain", "--dhcp", "--dhcpv6", "--ip", "--default-route", "--route", "--hostname", "--compare"}
    ensures ParseFrom(o, args, j, ipv6, env) == Parsed(Exited(1), o)
  {
    assert ReadWord(args[j], false) == Unknown;
  }

  /** Something is missing behind an option that sets: a MAC or a value of the system, or the value for
      a MAC. */
  predicate Incomplete(tail: seq<string>, kind: Kind) {
    && tail != [] && MeansKind(tail[0], kind)
    && (|tail| == 1 || !NoDash(tail[1]) || (kind in {Gateway, Dns, Ip, Route} && |tail| == 2))
  }

  /** An IPv6 value. */
  predicate Ipv6Value(tail: seq<string>, kind: Kind) {
    && |tail| >= 3 && MeansKind(tail[0], kind) && kind in {Gateway, Dns, Ip, Route}
    && NoDash(tail[1]) && !Ipv4Only(tail[2])
  }

  lemma TailWords(args: seq<string>, tail: seq<string>)
    requires |tail| <= |args| && args[|args| - |tail|..] == tail
    ensures forall k :: 0 <= k < |tail| ==> args[|args| - |tail| + k] == tail[k]
  {
    forall k | 0 <= k < |tail|
      ensures args[|args| - |tail| + k] == tail[k]
    {
      assert args[|args| - |tail|..][k] == args[|args| - |tail| + k];
    }
  }

  lemma IncompleteStops(o: Opts, args: seq<string>, tail: seq<string>, kind: Kind, ipv6: bool, env: bool)
    requires o.action == Set && |tail| < |args| && args[|args| - |tail|..] == tail && Incomplete(tail, kind)
    ensures ParseFrom(o, args, |args| - |tail|, ipv6, env) == Parsed(Exited(1), o)
  {
    var j := |args| - |tail|;
    TailWords(args, tail);
    assert args[j + 0] == tail[0];
    ReadOptWord(args[j], kind);
    assert |tail| > 1 ==> args[j + 1] == tail[1];
    assert ReadSetting(o, kind, args, j + 1, ipv6) == Stop(Exited(1));
  }

  lemma Ipv6Stops(o: Opts, args: seq<string>, tail: seq<string>, kind: Kind, env: bool)
    requires o.action == Set && |tail| < |args| && args[|args| - |tail|..] == tail && Ipv6Value(tail, kind)
    ensures ParseFrom(o, args, |args| - |tail|, false, env) == Parsed(Exited(3), o)
  {
    var j := |args| - |tail|;
    TailWords(args, tail);
    assert args[j + 0] == tail[0];
    ReadOptWord(args[j], kind);
    assert args[j + 1] == tail[1] && args[j + 2] == tail[2];
    assert ReadSetting(o, kind, args, j + 1, false) == Stop(Exited(3));
  }

  lemma FlagStops(o: Opts, args: seq<string>, tail: seq<string>, env: bool)
    requires o.action == Set && |tail| < |args| && args[|args| - |tail|..] == tail
    requires |tail| >= 2 && tail[0] == "--dhcpv6" && NoDash(tail[1]) && GetOptMac(o.macs, Some(tail[1]), {Dhcp}) == |o.macs|
    ensures ParseFrom(o, args, |args| - |tail|, false, env) == Parsed(Exited(3), o)
  {
    var j := |args| - |tail|;
    TailWords(args, tail);
    assert args[j + 0] == tail[0];
    ReadOptWord(args[j], DhcpV6);
    assert args[j + 1] == tail[1];
    assert ReadSetting(o, DhcpV6, args, j + 1, false) == Stop(Exited(3));
  }

  lemma NoFlagNoEntry(cmds: seq<Cmd>, macs: seq<Entry>, mac: string)
    requires Leaves(cmds, macs) && Flags(cmds, mac) == []
    ensures GetOptMac(macs, Some(mac), {Dhcp}) == |macs|
  {
    assert forall e <- macs :: Fits(e, Some(mac), {Dhcp}) ==> e.value.Some?;
    assert Asks(Some(mac), Dhcp) && Setting(macs, Some(mac), Dhcp) == Asked(cmds, Some(mac), Dhcp) == None;
  }

  /** Behind any settings: reading ends the process with code 1 at an option that misses its arguments, and,
      on a system without IPv6, with code 3 at an IPv6 value or a first flag for DHCP over IPv6. */
  lemma SettingStops(cmds: seq<Cmd>, tail: seq<string>, kind: Kind, ipv6: bool, env: bool) returns (macs: seq<Entry>)
    requires (forall c <- cmds :: GoodCmd(c, ipv6)) && Accepted(cmds, 0) == |cmds|
    ensures Leaves(cmds, macs)
    ensures var p, flag := Parse(["set"] + AllWords(cmds) + tail, ipv6, env), |tail| >= 2 && tail[0] == "--dhcpv6" && NoDash(tail[1]);
      && (Incomplete(tail, kind) ==> p == Parsed(Exited(1), OptsOf(cmds, macs)))
      && (!ipv6 && Ipv6Value(tail, kind) ==> p == Parsed(Exited(3), OptsOf(cmds, macs)))
      && (!ipv6 && flag && Flags(cmds, tail[1]) == [] ==> p == Parsed(Exited(3), OptsOf(cmds, macs)))
  {
    hide *;
    macs := ParsedUpTo(cmds, tail, ipv6, env);
    assert cmds[..|cmds|] == cmds;
    var args := ["set"] + AllWords(cmds) + tail;
    assert |tail| < |args| && args[|args| - |tail|..] == tail;
    var o := OptsOf(cmds, macs);
    assert o.action == Set by {
      OptsOfIsSet(cmds, macs);
    }
    if Incomplete(tail, kind) {
      IncompleteStops(o, args, tail, kind, ipv6, env);
    }
    if !ipv6 && Ipv6Value(tail, kind) {
      Ipv6Stops(o, args, tail, kind, env);
    }
    if !ipv6 && |tail| >= 2 && tail[0] == "--dhcpv6" && NoDash(tail[1]) && Flags(cmds, tail[1]) == [] {
      NoFlagNoEntry(cmds, macs, tail[1]);
      assert o.macs == macs by {
        OptsOfIsSet(cmds, macs);
      }
      FlagStops(o, args, tail, env);
    }
  }

  lemma OptsOfIsSet(cmds: seq<Cmd>, macs: seq<Entry>)
    ensures OptsOf(cmds, macs).action == Set && OptsOf(cmds, macs).macs == macs
  {
  }

  // ---- lines of queries ---------------------------------------------------

  /** One option of a line of queries: with a MAC behind it or without, or a switch. */
  datatype Query =
    | OfMac(word: string, kind: Kind, mac: string)
    | OfSystem(word: string, kind: Kind)
    | Mark(word: string)

  predicate GoodQuery(q: Query) {
    match q
    case OfMac(word, kind, mac) => kind in {Gateway, Dns, Dhcp, DhcpV6, Ip, Route} && MeansKind(word, kind) && NoDash(mac)
    case OfSystem(word, kind) => MeansKind(word, kind)
    case Mark(word) => word in VERBOSE + DEBUG + COMPARE
  }

  function QueryWords(q: Query): seq<string> {
    if q.OfMac? then [q.word, q.mac] else [q.word]
  }

  function AllQueries(qs: seq<Query>): seq<string> {
    if qs == [] then [] else QueryWords(qs[0]) + AllQueries(qs[1..])
  }

  /** The list has exactly the kinds asked for about each MAC, in one entry without a value, and the
      flags are exactly the kinds asked for without one. */
  ghost predicate Answers(o: Opts, qs: seq<Query>) {
    && (forall mac, kind :: Listed(o.macs, mac, kind) <==> exists q <- qs :: q.OfMac? && q.mac == mac && q.kind == kind)
    && (forall kind :: kind in o.flags <==> exists q <- qs :: q.OfSystem? && q.kind == kind)
    && GetList(o.macs) && forall e <- o.macs :: e.kinds != {}
  }

  /** There is an entry of this MAC with the kind. */
  predicate Listed(macs: seq<Entry>, mac: string, kind: Kind) {
    exists e <- macs :: e.mac == Some(mac) && kind in e.kinds
  }

  lemma AddOptMacLists(macs: seq<Entry>, kind: Kind, mac: string, m: string, k: Kind)
    requires GetList(macs)
    ensures Listed(AddOptMac(macs, kind, mac), m, k) <==> Listed(macs, m, k) || (m == mac && k == kind)
  {
    var i, now := FindMac(macs, mac), AddOptMac(macs, kind, mac);
    FindMacFirst(macs, mac);
    if i < |macs| {
      assert now[i].mac == Some(mac) && now[i].kinds == macs[i].kinds + {kind};
      forall e | e in macs
        ensures exists f <- now :: f.mac == e.mac && e.kinds <= f.kinds
      {
        var j :| 0 <= j < |macs| && macs[j] == e;
        assert now[j] in now;
      }
    } else {
      assert now[0] in now && now[1..] == macs;
    }
  }

  /** What one query makes of the options. */
  function AfterQuery(o: Opts, q: Query): Opts {
    match q
    case OfMac(_, kind, mac) => o.(macs := AddOptMac(o.macs, kind, mac))
    case OfSystem(_, kind) => o.(flags := o.flags + {kind})
    case Mark(word) => SwitchOn(o, word)
  }

  lemma AnswersNext(o: Opts, qs: seq<Query>, q: Query)
    requires Answers(o, qs)
    ensures Answers(AfterQuery(o, q), qs + [q])
  {
    hide SwitchOn, AddOptMac, Listed;
    var now := AfterQuery(o, q);
    assert forall p :: p in qs + [q] <==> p in qs || p == q;
    if q.OfMac? {
      AddOptMacKeeps(o.macs, q.kind, q.mac);
      AddOptMacKinds(o.macs, q.kind, q.mac);
      forall m, k
        ensures Listed(now.macs, m, k) <==> Listed(o.macs, m, k) || (m == q.mac && k == q.kind)
      {
        AddOptMacLists(o.macs, q.kind, q.mac, m, k);
      }
    } else if q.Mark? {
      SwitchOnKeeps(o, q.word);
    }
  }

  lemma AddOptMacKinds(macs: seq<Entry>, kind: Kind, mac: string)
    requires forall e <- macs :: e.kinds != {}
    ensures forall e <- AddOptMac(macs, kind, mac) :: e.kinds != {}
  {
    assert kind in {kind};
  }

  lemma SwitchOnKeeps(o: Opts, word: string)
    ensures SwitchOn(o, word).macs == o.macs && SwitchOn(o, word).flags == o.flags
  {
  }

  /** Reading stands at a word that is no argument, or at the end. */
  predicate AtOption(words: seq<string>) {
    words == [] || !NoDash(words[0])
  }

  lemma MeansDash(word: string, kind: Kind)
    requires MeansKind(word, kind) || word in VERBOSE + DEBUG + COMPARE
    ensures !NoDash(word)
  {
    if MeansKind(word, kind) {
      match kind
      case Gateway =>
      case Dns =>
      case Search =>
      case Ip =>
      case Dhcp =>
      case Route =>
      case DhcpV6 =>
      case Hostname =>
    }
  }

  lemma QueryDash(qs: seq<Query>, tail: seq<string>)
    requires (forall q <- qs :: GoodQuery(q)) && AtOption(tail)
    ensures AtOption(AllQueries(qs) + tail)
  {
    if qs != [] {
      var q := qs[0];
      assert q in qs;
      MeansDash(q.word, if q.Mark? then Ip else q.kind);
      assert QueryWords(q)[0] == q.word;
    } else {
      assert AllQueries(qs) + tail == tail;
    }
  }

  /** At the first word an option is read like at any other. */
  lemma ReadAnywhere(w: string)
    requires !NoDash(w)
    ensures ReadWord(w, true) == ReadWord(w, false)
  {
  }

  lemma TurnQuery(o: Opts, args: seq<string>, i: nat, q: Query, ipv6: bool)
    requires o.action == Get && i < |args| && !q.Mark? && GoodQuery(q) && args[i] == q.word
    requires q.OfMac? ==> i + 1 < |args| && args[i + 1] == q.mac
    requires q.OfSystem? ==> AtOption(args[i + 1..])
    ensures args[i] !in ENDING && Turn(o, args, i, ipv6) == Go(AfterQuery(o, q), i + |QueryWords(q)|)
  {
    hide AddOptMac, ReadWord, MeansKind;
    ReadOptWord(q.word, q.kind);
    MeansDash(q.word, q.kind);
    ReadAnywhere(q.word);
    assert Turn(o, args, i, ipv6) == ReadQuery(o, q.kind, args, i + 1);
    if q.OfSystem? && i + 1 < |args| {
      assert args[i + 1..][0] == args[i + 1];
    }
  }

  lemma TurnMark(o: Opts, args: seq<string>, i: nat, ipv6: bool)
    requires i < |args| && args[i] in VERBOSE + DEBUG + COMPARE
    ensures args[i] !in ENDING && Turn(o, args, i, ipv6) == Go(SwitchOn(o, args[i]), i + 1)
  {
    MeansDash(args[i], Ip);
    ReadAnywhere(args[i]);
    assert ["set", args[i]][1] == args[i];
    SwitchReads(o, ["set", args[i]], 1, ipv6);
  }

  lemma QueryReads(o: Opts, args: seq<string>, i: nat, q: Query, rest: seq<string>, ipv6: bool, env: bool)
    requires o.action == Get && i <= |args| && GoodQuery(q) && args[i..] == QueryWords(q) + rest
    requires q.OfSystem? ==> AtOption(rest)
    ensures i + |QueryWords(q)| <= |args| && args[i + |QueryWords(q)|..] == rest
    ensures ParseFrom(o, args, i, ipv6, env) == ParseFrom(AfterQuery(o, q), args, i + |QueryWords(q)|, ipv6, env)
  {
    hide Turn, AddOptMac, ReadWord, GoodQuery, AtOption;
    var w := QueryWords(q);
    assert forall j :: 0 <= j < |w| ==> args[i + j] == args[i..][j] == w[j];
    assert args[i + |w|..] == args[i..][|w|..];
    assert args[i] == args[i + 0] == q.word;
    if q.Mark? {
      assert q.word in VERBOSE + DEBUG + COMPARE by {
        MarkWord(q);
      }
      TurnMark(o, args, i, ipv6);
    } else {
      assert q.OfMac? ==> args[i + 1] == w[1];
      TurnQuery(o, args, i, q, ipv6);
    }
  }

  lemma MarkWord(q: Query)
    requires q.Mark? && GoodQuery(q)
    ensures q.word in VERBOSE + DEBUG + COMPARE
  {
  }

  /** What the queries make of the options, one by one. */
  function AfterAll(o: Opts, qs: seq<Query>): Opts
    decreases |qs|
  {
    if qs == [] then o else AfterAll(AfterQuery(o, qs[0]), qs[1..])
  }

  lemma {:induction false} QueriesRead(o: Opts, args: seq<string>, i: nat, qs: seq<Query>, tail: seq<string>, ipv6: bool, env: bool)
    requires o.action == Get && i <= |args| && (forall q <- qs :: GoodQuery(q))
    requires args[i..] == AllQueries(qs) + tail && AtOption(tail)
    ensures |tail| <= |args|
    ensures ParseFrom(o, args, i, ipv6, env) == ParseFrom(AfterAll(o, qs), args, |args| - |tail|, ipv6, env)
    decreases |qs|
  {
    hide ParseFrom, QueryWords, GoodQuery, AtOption, AfterQuery;
    if qs == [] {
      assert AllQueries(qs) + tail == tail;
    } else {
      var q, rest := qs[0], AllQueries(qs[1..]) + tail;
      assert q in qs && forall p <- qs[1..] :: p in qs;
      Associative(QueryWords(q), AllQueries(qs[1..]), tail);
      QueryDash(qs[1..], tail);
      QueryReads(o, args, i, q, rest, ipv6, env);
      AfterQueryIsGet(o, q);
      QueriesRead(AfterQuery(o, q), args, i + |QueryWords(q)|, qs[1..], tail, ipv6, env);
    }
  }

  lemma AfterQueryIsGet(o: Opts, q: Query)
    ensures AfterQuery(o, q).action == o.action
  {
  }

  /** One of these switches was given. */
  predicate Marked(qs: seq<Query>, words: set<string>) {
    exists q <- qs :: q.Mark? && q.word in words
  }

  /** The switches are those given. */
  predicate Switched(o: Opts, qs: seq<Query>) {
    && (o.verbose <==> Marked(qs, {"-v", "--verbose"}))
    && (o.debug <==> Marked(qs, {"-d", "--debug"}))
    && (o.compare <==> Marked(qs, {"--compare"}))
  }

  lemma MarkedNext(qs: seq<Query>, q: Query, words: set<string>)
    ensures Marked(qs + [q], words) <==> Marked(qs, words) || (q.Mark? && q.word in words)
  {
    assert forall p :: p in qs + [q] <==> p in qs || p == q;
  }

  lemma SwitchedNext(o: Opts, qs: seq<Query>, q: Query)
    requires Switched(o, qs)
    ensures Switched(if q.Mark? then SwitchOn(o, q.word) else o, qs + [q])
  {
    MarkedNext(qs, q, {"-v", "--verbose"});
    MarkedNext(qs, q, {"-d", "--debug"});
    MarkedNext(qs, q, {"--compare"});
  }

  lemma AfterQuerySwitched(o: Opts, qs: seq<Query>, q: Query)
    requires Switched(o, qs)
    ensures Switched(AfterQuery(o, q), qs + [q])
  {
    SwitchedNext(o, qs, q);
  }

  lemma {:induction false} AfterAllAnswers(o: Opts, done: seq<Query>, todo: seq<Query>)
    requires Answers(o, done) && Switched(o, done)
    ensures Answers(AfterAll(o, todo), done + todo) && Switched(AfterAll(o, todo), done + todo)
    ensures AfterAll(o, todo).action == o.action
    decreases |todo|
  {
    hide AfterQuery, Answers, Switched;
    if todo == [] {
      assert done + todo == done;
    } else {
      AnswersNext(o, done, todo[0]);
      AfterQuerySwitched(o, done, todo[0]);
      AfterQueryIsGet(o, todo[0]);
      AfterAllAnswers(AfterQuery(o, todo[0]), done + [todo[0]], todo[1..]);
      assert done + [todo[0]] + todo[1..] == done + todo;
    }
  }

  lemma StartAnswers()
    ensures Answers(START, []) && Switched(START, [])
  {
  }

  /** A line of queries and what stands behind it: with "get" in front or without. */
  function QueryLine(get: bool, qs: seq<Query>, tail: seq<string>): seq<string> {
    (if get then ["get"] else []) + (AllQueries(qs) + tail)
  }

  lemma ReadsUpTo(get: bool, qs: seq<Query>, tail: seq<string>, ipv6: bool, env: bool) returns (o: Opts)
    requires (forall q <- qs :: GoodQuery(q)) && AtOption(tail)
    ensures Answers(o, qs) && Switched(o, qs) && o.action == Get
    ensures var args := QueryLine(get, qs, tail);
      |tail| <= |args| && Parse(args, ipv6, env) == ParseFrom(o, args, |args| - |tail|, ipv6, env)
  {
    hide ParseFrom, Answers, Switched, AtOption, GoodQuery, AllQueries;
    o := AfterAll(START, qs);
    StartAnswers();
    AfterAllAnswers(START, [], qs);
    assert [] + qs == qs;
    var args := QueryLine(get, qs, tail);
    if get {
      assert args[1..] == AllQueries(qs) + tail;
      GetWord(args, ipv6, env);
      QueriesRead(START, args, 1, qs, tail, ipv6, env);
    } else {
      assert args[0..] == AllQueries(qs) + tail;
      QueriesRead(START, args, 0, qs, tail, ipv6, env);
    }
  }

  lemma GetWord(args: seq<string>, ipv6: bool, env: bool)
    requires args != [] && args[0] == "get"
    ensures Parse(args, ipv6, env) == ParseFrom(START, args, 1, ipv6, env)
  {
    FirstTurn(args, ipv6);
  }

  lemma {:induction false} CountNone(macs: seq<Entry>, kinds: set<Kind>)
    ensures Count(macs, kinds) == 0 <==> forall e <- macs, k <- kinds :: k !in e.kinds
  {
    if macs != [] {
      CountNone(macs[1..], kinds);
      assert macs == [macs[0]] + macs[1..];
      assert forall k :: k in macs[0].kinds * kinds <==> k in macs[0].kinds && k in kinds;
    }
  }

  /** Nothing was asked for exactly when there is nothing to be answered. */
  lemma BareIsEmpty(o: Opts, qs: seq<Query>)
    requires Answers(o, qs) && forall q <- qs :: GoodQuery(q)
    ensures o.flags == {} && Count(o.macs, BYMAC) == 0 <==> forall q <- qs :: q.Mark?
    ensures (forall q <- qs :: q.Mark?) ==> o.macs == []
  {
    CountNone(o.macs, BYMAC);
    if q :| q in qs && !q.Mark? {
      assert GoodQuery(q);
      if q.OfMac? {
        assert Listed(o.macs, q.mac, q.kind);
        var e :| e in o.macs && e.mac == Some(q.mac) && q.kind in e.kinds;
        assert q.kind in BYMAC && q.kind in e.kinds;
      } else {
        assert q.kind in o.flags;
      }
    } else {
      BareHasNone(o, qs);
    }
  }

  lemma BareHasNone(o: Opts, qs: seq<Query>)
    requires Answers(o, qs) && forall q <- qs :: q.Mark?
    ensures o.flags == {} && o.macs == []
  {
    if o.macs != [] {
      var e := o.macs[0];
      assert e in o.macs;
      var k :| k in e.kinds;
      assert Listed(o.macs, e.mac.value, k);
    }
  }

  /** Every line of queries and switches, in any number and order: an entry for a MAC has exactly the kinds
      asked for it, and the flags are exactly the kinds asked for without one. A line that asks for nothing
      asks for all. */
  lemma ParsedQueries(get: bool, qs: seq<Query>, ipv6: bool, env: bool)
    requires forall q <- qs :: GoodQuery(q)
    ensures var p := Parse(QueryLine(get, qs, []), ipv6, env);
      && p.end == Returned && p.opts.action == Get
      && Switched(p.opts.(compare := Marked(qs, {"--compare"})), qs)
      && (p.opts.compare <==> Marked(qs, {"--compare"}) || env)
      && if forall q <- qs :: q.Mark? then
           p.opts.macs == [] && p.opts.flags == {Gateway, Dns, Search, Ip, Dhcp, Route, DhcpV6, Hostname}
         else Answers(p.opts, qs)
  {
    hide ParseFrom, AllQueries;
    var o := ReadsUpTo(get, qs, [], ipv6, env);
    ParseAtEnd(o, QueryLine(get, qs, []), ipv6, env);
    BareIsEmpty(o, qs);
  }

  /** "--all" behind such a line asks for all kinds, and empties the entries. */
  lemma ParsedAll(get: bool, qs: seq<Query>, rest: seq<string>, ipv6: bool, env: bool)
    requires forall q <- qs :: GoodQuery(q)
    ensures var p := Parse(QueryLine(get, qs, ["--all"] + rest), ipv6, env);
      && p.end == Returned && p.opts.action == Get && Switched(p.opts, qs)
      && p.opts.flags == {Gateway, Dns, Search, Ip, Dhcp, Route, DhcpV6, Hostname}
      && forall e <- p.opts.macs :: e.kinds == {}
  {
    hide ParseFrom, AllQueries;
    var tail := ["--all"] + rest;
    var args := QueryLine(get, qs, tail);
    var o := ReadsUpTo(get, qs, tail, ipv6, env);
    assert args[|args| - |tail|..] == tail && args[|args| - |tail|] == tail[0] by {
      TailStands(if get then ["get"] else [], AllQueries(qs), tail);
    }
    AllWord(o, args, |args| - |tail|, ipv6, env);
  }

  /** Search domains and the host name are not asked for by MAC: a word behind them that means nothing ends
      the process. */
  lemma NoMacForSystem(get: bool, qs: seq<Query>, word: string, kind: Kind, w: string, rest: seq<string>, ipv6: bool, env: bool)
    requires (forall q <- qs :: GoodQuery(q)) && kind in {Search, Hostname} && MeansKind(word, kind) && NoDash(w)
    ensures Parse(QueryLine(get, qs, [word, w] + rest), ipv6, env).end == Exited(1)
  {
    hide ParseFrom, AllQueries, ReadWord, MeansKind, GoodQuery, Turn;
    var tail := [word, w] + rest;
    var args := QueryLine(get, qs, tail);
    MeansDash(word, kind);
    var o := ReadsUpTo(get, qs, tail, ipv6, env);
    var j := |args| - |tail|;
    TailStands(if get then ["get"] else [], AllQueries(qs), tail);
    TailWords(args, tail);
    assert args[j + 0] == word && args[j + 1] == w;
    SystemWord(o, args, j, word, kind, ipv6, env);
    PlainIsUnknown(w);
    UnknownWord(o.(flags := o.flags + {kind}), args, j + 1, ipv6, env);
  }

  lemma SystemWord(o: Opts, args: seq<string>, j: nat, word: string, kind: Kind, ipv6: bool, env: bool)
    requires o.action == Get && j < |args| && args[j] == word && kind in {Search, Hostname} && MeansKind(word, kind)
    ensures ParseFrom(o, args, j, ipv6, env) == ParseFrom(o.(flags := o.flags + {kind}), args, j + 1, ipv6, env)
  {
    hide ReadWord, MeansKind;
    ReadOptWord(word, kind);
    MeansDash(word, kind);
    ReadAnywhere(word);
    assert Turn(o, args, j, ipv6) == ReadQuery(o, kind, args, j + 1);
  }

  lemma PlainIsUnknown(w: string)
    requires NoDash(w)
    ensures w !in {"--all", "-V", "--version", "-h", "--help", "-v", "--verbose", "-d", "--debug", "--gateway",
      "--dns", "--search-domain", "--dhcp", "--dhcpv6", "--ip", "--default-route", "--route", "--hostname", "--compare"}
  {
  }

  lemma TailStands(a: seq<string>, b: seq<string>, tail: seq<string>)
    requires tail != []
    ensures var args := a + (b + tail); args[|args| - |tail|..] == tail && args[|args| - |tail|] == tail[0]
  {
  }

  // ---- lines that clean or restart ----------------------------------------

  lemma OtherReads(o: Opts, args: seq<string>, i: nat, q: Query, rest: seq<string>, ipv6: bool, env: bool)
    requires o.action == Clean || o.action == Restart
    requires i <= |args| && GoodQuery(q) && !q.OfMac? && args[i..] == QueryWords(q) + rest
    ensures i < |args| && args[i + 1..] == rest
    ensures ParseFrom(o, args, i, ipv6, env) ==
      ParseFrom(if q.Mark? then SwitchOn(o, q.word) else o, args, i + 1, ipv6, env)
  {
    hide ReadWord, MeansKind;
    assert args[i] == args[i..][0] == q.word && args[i + 1..] == args[i..][1..];
    if q.Mark? {
      TurnMark(o, args, i, ipv6);
    } else {
      ReadOptWord(q.word, q.kind);
      MeansDash(q.word, q.kind);
      ReadAnywhere(q.word);
    }
  }

  lemma {:induction false} OthersRead(o: Opts, args: seq<string>, i: nat, done: seq<Query>, qs: seq<Query>, ipv6: bool, env: bool)
    returns (now: Opts)
    requires (o.action == Clean || o.action == Restart) && Switched(o, done)
    requires i <= |args| && args[i..] == AllQueries(qs) && forall q <- qs :: GoodQuery(q) && !q.OfMac?
    ensures Switched(now, done + qs) && now.action == o.action && now.flags == o.flags && now.macs == o.macs
    ensures ParseFrom(o, args, i, ipv6, env) == Finish(now, env)
    decreases |qs|
  {
    hide ParseFrom, GoodQuery, Switched, Finish;
    if qs == [] {
      now := o;
      assert done + qs == done;
      assert i == |args|;
      ParseAtEnd(o, args, ipv6, env);
    } else {
      var q := qs[0];
      assert q in qs && forall p <- qs[1..] :: p in qs;
      OtherReads(o, args, i, q, AllQueries(qs[1..]), ipv6, env);
      SwitchedNext(o, done, q);
      SwitchOnKeeps(o, q.word);
      now := OthersRead(if q.Mark? then SwitchOn(o, q.word) else o, args, i + 1, done + [q], qs[1..], ipv6, env);
      assert done + [q] + qs[1..] == done + qs;
    }
  }

  /** A line that cleans or restarts: options are read and not kept, but for the switches. */
  lemma ParsedOthers(clean: bool, qs: seq<Query>, ipv6: bool, env: bool)
    requires forall q <- qs :: GoodQuery(q) && !q.OfMac?
    ensures var p := Parse([if clean then "clean" else "restart"] + AllQueries(qs), ipv6, env);
      && p.end == Returned && p.opts.action == (if clean then Clean else Restart)
      && p.opts.flags == {} && p.opts.macs == []
      && Switched(p.opts.(compare := Marked(qs, {"--compare"})), qs)
      && (p.opts.compare <==> Marked(qs, {"--compare"}) || env)
  {
    hide ParseFrom, AllQueries, GoodQuery;
    var args := [if clean then "clean" else "restart"] + AllQueries(qs);
    var o := START.(action := if clean then Clean else Restart);
    assert args[1..] == AllQueries(qs);
    FirstTurn(args, ipv6);
    ActionWord(args, clean, ipv6, env);
    StartAnswers();
    var now := OthersRead(o, args, 1, [], qs, ipv6, env);
    assert [] + qs == qs;
  }

  lemma ActionWord(args: seq<string>, clean: bool, ipv6: bool, env: bool)
    requires args != [] && args[0] == if clean then "clean" else "restart"
    ensures Parse(args, ipv6, env) == ParseFrom(START.(action := if clean then Clean else Restart), args, 1, ipv6, env)
  {
    hide Turn;
    FirstTurn(args, ipv6);
  }
}
