/** What the texts of `set_route` say, word by word: the command of each requested route and the
    value stored for it (BSD/setnet.c). A request is written "ip", "ip=gateway" or
    "ip=gateway" with a metric "m..." behind it. */
module RouteWords {
  import opened Text
  import opened RcLine
  import opened RcItems
  import opened Numbered
  import opened RouteText
  import opened SetRoute
  import opened Sublist

  /** One word of a request or the name of an interface. */
  predicate Word(s: string) {
    s != "" && ' ' !in s && ';' !in s
  }

  /** Nothing, or a metric. */
  predicate MetricTail(s: string) {
    s != "" ==> s[0] == 'm'
  }

  // ---- how a request is read ----------------------------------------------

  lemma ReadsPlain(ip: string)
    requires '=' !in ip
    ensures ParseC(ip).ip == ip && ParseC(ip).gw == None
  {
    NoIndex(ip, '=');
  }

  lemma ReadsGateway(ip: string, gw: string, tail: string)
    requires '=' !in ip && 'm' !in gw && MetricTail(tail)
    ensures var r := ParseC(ip + "=" + gw + tail); r.ip == ip && r.gw == Some(gw)
  {
    var g := gw + tail;
    assert ip + "=" + gw + tail == ip + ['='] + g;
    CutFirst(ip, '=', g);
    if tail == "" {
      assert g == gw;
      NoIndex(gw, 'm');
    } else {
      assert g == gw + ['m'] + tail[1..];
      CutFirst(gw, 'm', tail[1..]);
    }
  }

  // ---- words --------------------------------------------------------------

  lemma Cut(w: string, d: char, t: string, rest: seq<string>)
    requires w != "" && d !in w && Tokens(t, d) == rest
    ensures Tokens(w + [d] + t, d) == [w] + rest
  {
    TokensCut(w, d, t);
  }

  lemma Words2(a: string, b: string, d: char)
    requires a != "" && b != "" && d !in a && d !in b
    ensures Tokens(a + [d] + b, d) == [a, b]
  {
    TokenOne(b, d);
    Cut(a, d, b, [b]);
  }

  lemma Words4(a: string, b: string, c: string, e: string)
    requires Word(a) && Word(b) && Word(c) && Word(e)
    ensures Tokens(a + " " + b + " " + c + " " + e, ' ') == [a, b, c, e]
  {
    hide Tokens;
    var tail := b + [' '] + (c + [' '] + e);
    Words2(c, e, ' ');
    Cut(b, ' ', c + [' '] + e, [c, e]);
    Cut(a, ' ', tail, [b, c, e]);
    assert a + " " + b + " " + c + " " + e == a + [' '] + tail;
    assert [a] + [b, c, e] == [a, b, c, e] && [b] + [c, e] == [b, c, e];
  }

  lemma Words5(a: string, b: string, c: string, e: string, f: string)
    requires Word(a) && Word(b) && Word(c) && Word(e) && Word(f)
    ensures Tokens(a + " " + b + " " + c + " " + e + " " + f, ' ') == [a, b, c, e, f]
  {
    hide Tokens;
    var tail := b + " " + c + " " + e + " " + f;
    Words4(b, c, e, f);
    Cut(a, ' ', tail, [b, c, e, f]);
    assert a + " " + b + " " + c + " " + e + " " + f == a + [' '] + tail;
    assert [a] + [b, c, e, f] == [a, b, c, e, f];
  }

  /** Two blanks separate words like one. */
  lemma Words4Apart(a: string, b: string, c: string, e: string)
    requires Word(a) && Word(b) && Word(c) && Word(e)
    ensures Tokens(a + " " + b + " " + " " + c + " " + e, ' ') == [a, b, c, e]
  {
    hide Tokens;
    var last := c + [' '] + e;
    Words2(c, e, ' ');
    TokensCut("", ' ', last);
    Cut(b, ' ', "" + [' '] + last, [c, e]);
    Cut(a, ' ', b + [' '] + ("" + [' '] + last), [b, c, e]);
    assert a + " " + b + " " + " " + c + " " + e == a + [' '] + (b + [' '] + ("" + [' '] + last));
    assert [a] + [b, c, e] == [a, b, c, e] && [b] + [c, e] == [b, c, e];
  }

  /** The option for the protocol: an address with a colon is an IPv6 address. */
  lemma VersionWord(ip: string)
    ensures IpVersion(ip) == if ':' in ip then "-6" else "-4"
    ensures Word(IpVersion(ip))
  {
  }

  lemma Whole(s: string)
    requires |s| <= 1023
    ensures CutCmd(s) == s
  {
    assert s[..|s|] == s;
  }

  lemma Regroup3(a: string, b: string, c: string, d: string, e: string)
    ensures a + b + (c + d) + e == a + b + c + d + e
  {
    Associative(a + b, c, d);
  }

  /** The stored value of a route without a gateway. */
  lemma PlainValue(ip: string, ifname: string)
    requires Word(ip) && '=' !in ip && Word(ifname) && |ip| + |ifname| <= 1007
    ensures Tokens(RouteVal(ParseC(ip), ifname), ' ') == [if ':' in ip then "-6" else "-4", ip, "-interface", ifname]
  {
    hide Tokens, ParseC, IpVersion, Word, CutCmd;
    var v := IpVersion(ip);
    ReadsPlain(ip);
    VersionWord(ip);
    assert Word("-interface") by { InterfaceWord(); }
    Whole(v + " " + ip + " " + " -interface" + " " + ifname);
    assert " -interface" == " " + "-interface";
    Regroup3(v + " " + ip, " ", " ", "-interface", " ");
    Words4Apart(v, ip, "-interface", ifname);
  }

  lemma InterfaceWord()
    ensures Word("-interface") && Word("-ifp") && Word("route") && Word("del") && Word("add")
  {
  }

  /** ... and of a route with one; a metric is not stored. */
  lemma GatewayValue(ip: string, gw: string, tail: string, ifname: string)
    requires Word(ip) && '=' !in ip && Word(gw) && 'm' !in gw && MetricTail(tail)
    requires Word(ifname) && |ip| + |gw| + |ifname| <= 1013
    ensures Tokens(RouteVal(ParseC(ip + "=" + gw + tail), ifname), ' ') ==
      [if ':' in ip then "-6" else "-4", ip, gw, "-ifp", ifname]
  {
    hide Tokens, ParseC, IpVersion, Word, CutCmd;
    var v := IpVersion(ip);
    ReadsGateway(ip, gw, tail);
    VersionWord(ip);
    assert Word("-ifp") by { InterfaceWord(); }
    Whole(v + " " + ip + " " + (gw + " -ifp") + " " + ifname);
    assert " -ifp" == " " + "-ifp";
    assert v + " " + ip + " " + (gw + " -ifp") + " " + ifname == v + " " + ip + " " + gw + " " + "-ifp" + " " + ifname;
    Words5(v, ip, gw, "-ifp", ifname);
  }

  /** Two commands joined by a semicolon. */
  lemma Halves(a: string, b: string, rest: string)
    requires a != "" && b != "" && ';' !in a && ';' !in b && rest == a + ";" + b
    ensures Tokens(rest, ';') == [a, b]
  {
    Words2(a, b, ';');
  }

  lemma DeleteWords(v: string, ip: string)
    requires Word(v) && Word(ip)
    ensures var a := "route del " + v + " " + ip; ';' !in a && Tokens(a, ' ') == ["route", "del", v, ip]
  {
    InterfaceWord();
    Words4("route", "del", v, ip);
    assert "route del " == "route" + " " + "del" + " ";
  }

  lemma AddWords(v: string, ip: string, args: string, rest: seq<string>)
    requires Word(v) && Word(ip) && args != "" && ';' !in args && Tokens(args, ' ') == rest
    ensures var b := "route add " + v + " " + ip + " " + args;
      ';' !in b && Tokens(b, ' ') == ["route", "add", v, ip] + rest
  {
    hide Tokens;
    InterfaceWord();
    var b := "route add " + v + " " + ip + " " + args;
    Words4("route", "add", v, ip);
    assert "route add " == "route" + " " + "add" + " ";
    TokensAppend("route" + " " + "add" + " " + v + " " + ip, ' ', args);
    assert b == "route" + " " + "add" + " " + v + " " + ip + [' '] + args;
  }

  lemma CommandHalves(r: Route, ifname: string, rest: seq<string>)
    requires Word(r.ip) && 2 * |r.ip| + |GatewayArgs(r)| + |ifname| <= 994
    requires var args := GatewayArgs(r) + " " + ifname; args != "" && ';' !in args && Tokens(args, ' ') == rest
    ensures var halves := Tokens(RouteCmd(r, ifname), ';');
      && |halves| == 2
      && Tokens(halves[0], ' ') == ["route", "del", if ':' in r.ip then "-6" else "-4", r.ip]
      && Tokens(halves[1], ' ') == ["route", "add", if ':' in r.ip then "-6" else "-4", r.ip] + rest
  {
    hide Tokens, GatewayArgs, IpVersion, Word, CutCmd;
    var v, args := IpVersion(r.ip), GatewayArgs(r) + " " + ifname;
    var a, b := "route del " + v + " " + r.ip, "route add " + v + " " + r.ip + " " + args;
    VersionWord(r.ip);
    DeleteWords(v, r.ip);
    AddWords(v, r.ip, args, rest);
    assert a + ";" + b == "route del " + v + " " + r.ip + ";route add " + v + " " + r.ip + " " + GatewayArgs(r) + " " + ifname by {
      JoinedCommand(a, v, r.ip, GatewayArgs(r), ifname);
    }
    Whole(a + ";" + b);
    Halves(a, b, a + ";" + b);
  }

  lemma JoinedCommand(a: string, v: string, ip: string, args: string, ifname: string)
    ensures a + ";" + ("route add " + v + " " + ip + " " + (args + " " + ifname))
      == a + ";route add " + v + " " + ip + " " + args + " " + ifname
  {
    assert ";" + "route add " == ";route add ";
  }

  lemma PlainArgs(ifname: string)
    requires Word(ifname)
    ensures var args := " -interface" + " " + ifname; ';' !in args && Tokens(args, ' ') == ["-interface", ifname]
  {
    InterfaceWord();
    Words2("-interface", ifname, ' ');
    TokensCut("", ' ', "-interface" + [' '] + ifname);
    assert " -interface" + " " + ifname == "" + [' '] + ("-interface" + [' '] + ifname);
  }

  lemma HopArgs(gw: string, ifname: string)
    requires Word(gw) && Word(ifname)
    ensures var args := gw + " -ifp" + " " + ifname; ';' !in args && Tokens(args, ' ') == [gw, "-ifp", ifname]
  {
    hide Tokens;
    InterfaceWord();
    Words2("-ifp", ifname, ' ');
    Cut(gw, ' ', "-ifp" + [' '] + ifname, ["-ifp", ifname]);
    assert gw + " -ifp" + " " + ifname == gw + [' '] + ("-ifp" + [' '] + ifname);
  }

  /** The command for a route without a gateway: delete the route, then add it on the interface. */
  lemma PlainCommand(ip: string, ifname: string)
    requires Word(ip) && '=' !in ip && Word(ifname) && 2 * |ip| + |ifname| <= 983
    ensures var v, halves := if ':' in ip then "-6" else "-4", Tokens(RouteCmd(ParseC(ip), ifname), ';');
      && |halves| == 2
      && Tokens(halves[0], ' ') == ["route", "del", v, ip]
      && Tokens(halves[1], ' ') == ["route", "add", v, ip, "-interface", ifname]
  {
    hide Tokens, ParseC, RouteCmd;
    ReadsPlain(ip);
    PlainArgs(ifname);
    CommandHalves(ParseC(ip), ifname, ["-interface", ifname]);
  }

  /** ... and with one. */
  lemma GatewayCommand(ip: string, gw: string, tail: string, ifname: string)
    requires Word(ip) && '=' !in ip && Word(gw) && 'm' !in gw && MetricTail(tail)
    requires Word(ifname) && 2 * |ip| + |gw| + |ifname| <= 989
    ensures var v, halves := if ':' in ip then "-6" else "-4", Tokens(RouteCmd(ParseC(ip + "=" + gw + tail), ifname), ';');
      && |halves| == 2
      && Tokens(halves[0], ' ') == ["route", "del", v, ip]
      && Tokens(halves[1], ' ') == ["route", "add", v, ip, gw, "-ifp", ifname]
  {
    hide Tokens, ParseC, RouteCmd;
    ReadsGateway(ip, gw, tail);
    HopArgs(gw, ifname);
    CommandHalves(ParseC(ip + "=" + gw + tail), ifname, [gw, "-ifp", ifname]);
  }

  // ---- carried to a run ---------------------------------------------------

  /** A run adds one command for each request it comes to, in order. */
  lemma {:induction false} CmdsMeans(acc: seq<string>, tokens: seq<string>, ifname: string, n: nat)
    requires n <= |tokens|
    ensures var all := Cmds(acc, tokens, ifname, n);
      && |all| == |acc| + n && all[..|acc|] == acc
      && forall i :: 0 <= i < n ==> all[|acc| + i] == RouteCmd(ParseC(tokens[i]), ifname)
  {
    hide RouteCmd, ParseC;
    if n > 0 {
      CmdsMeans(acc, tokens, ifname, n - 1);
    }
  }

  /** The `i`-th command of a run, for a request with a gateway. */
  lemma RanGateway(acc: seq<string>, tokens: seq<string>, ifname: string, n: nat, i: nat, ip: string, gw: string, tail: string)
    requires i < n <= |tokens| && tokens[i] == ip + "=" + gw + tail
    requires Word(ip) && '=' !in ip && Word(gw) && 'm' !in gw && MetricTail(tail)
    requires Word(ifname) && 2 * |ip| + |gw| + |ifname| <= 989
    ensures |Cmds(acc, tokens, ifname, n)| == |acc| + n
    ensures var v, halves := if ':' in ip then "-6" else "-4", Tokens(Cmds(acc, tokens, ifname, n)[|acc| + i], ';');
      && |halves| == 2
      && Tokens(halves[0], ' ') == ["route", "del", v, ip]
      && Tokens(halves[1], ' ') == ["route", "add", v, ip, gw, "-ifp", ifname]
  {
    hide Cmds, Tokens, ParseC, RouteCmd, Word;
    CmdsMeans(acc, tokens, ifname, n);
    GatewayCommand(ip, gw, tail, ifname);
  }

  /** ... and without one. */
  lemma RanPlain(acc: seq<string>, tokens: seq<string>, ifname: string, n: nat, i: nat)
    requires i < n <= |tokens| && Word(tokens[i]) && '=' !in tokens[i]
    requires Word(ifname) && 2 * |tokens[i]| + |ifname| <= 983
    ensures |Cmds(acc, tokens, ifname, n)| == |acc| + n
    ensures var ip := tokens[i];
      var v, halves := if ':' in ip then "-6" else "-4", Tokens(Cmds(acc, tokens, ifname, n)[|acc| + i], ';');
      && |halves| == 2
      && Tokens(halves[0], ' ') == ["route", "del", v, ip]
      && Tokens(halves[1], ' ') == ["route", "add", v, ip, "-interface", ifname]
  {
    hide Cmds, Tokens, ParseC, RouteCmd, Word;
    CmdsMeans(acc, tokens, ifname, n);
    PlainCommand(tokens[i], ifname);
  }

  // ---- the room for routes ------------------------------------------------

  lemma DecimalLength(n: nat)
    requires n < 1000
    ensures |Decimal(n)| == if n < 10 then 1 else if n < 100 then 2 else 3
  {
    if n >= 10 {
      assert Decimal(n) == Decimal(n / 10) + [Digit(n % 10)];
    }
    if n >= 100 {
      assert Decimal(n / 10) == Decimal(n / 10 / 10) + [Digit(n / 10 % 10)];
    }
  }

  lemma {:induction false} DigitsSum(n: nat)
    requires n <= 1000
    ensures DigitsBelow(n) == if n <= 10 then n else if n <= 100 then 2 * n - 10 else 3 * n - 110
  {
    hide Decimal;
    if n > 0 {
      DigitsSum(n - 1);
      DecimalLength(n - 1);
    }
  }

  lemma RouteIndexLength(n: nat)
    requires 100 < n <= 1000
    ensures |ROUTES.Index(n)| == 7 * n - 111
  {
    IndexLength(ROUTES, n);
    DigitsSum(n);
  }

  /** The list of routes can be saved exactly when it has no more than 600 elements. */
  lemma RouteCapacity(n: nat)
    ensures Fits(ROUTES, n) <==> n <= 600
  {
    RouteIndexLength(599);
    RouteIndexLength(600);
    RouteIndexLength(601);
    DecimalLength(599);
    DecimalLength(600);
    assert Fits(ROUTES, 600) && !Fits(ROUTES, 601);
    if n <= 600 {
      FitsAll(ROUTES, 600);
    } else if Fits(ROUTES, n) {
      FitsAll(ROUTES, n);
    }
  }

  // ---- what is in the file ------------------------------------------------

  lemma {:induction false} RouteValIn(ifname: string, tokens: seq<string>, token: string)
    requires token in tokens
    ensures RouteVal(ParseC(token), ifname) in RouteVals(ifname, tokens)
  {
    if token != tokens[0] {
      RouteValIn(ifname, tokens[1..], token);
    }
  }

  /** The entry of a value: a key that the index names. */
  predicate Entry(items: seq<Item>, j: nat, val: string) {
    && Lookup(items, "route_prl" + Decimal(j)) == Some(val)
    && Lookup(items, "static_routes").Some?
    && "prl" + Decimal(j) in Tokens(Lookup(items, "static_routes").value, ' ')
  }

  /** After a run every requested route is in the file. */
  lemma StoredRequest(text: string, ifname: string, value: string, now: string, token: string) returns (j: nat)
    requires LineText(ifname) && LineText(value) && Stored(text, ifname, value, now)
    requires |EndVals(text, ifname, value)| <= 600 && token in Tokens(value, ' ')
    ensures Entry(LoadText(now), j, RouteVal(ParseC(token), ifname))
  {
    hide RouteVal, ParseC, Tokens, LoadText, SaveText, Decimal;
    var vals, val := EndVals(text, ifname, value), RouteVal(ParseC(token), ifname);
    SetAllMembers(StartVals(LoadText(text)), ifname, Tokens(value, ' '));
    RouteValIn(ifname, Tokens(value, ' '), token);
    assert val in vals;
    j :| 0 <= j < |vals| && vals[j] == val;
    RouteCapacity(|vals|);
    EntryAt(text, ifname, value, j);
  }

  lemma EntryAt(text: string, ifname: string, value: string, j: nat)
    requires LineText(ifname) && LineText(value)
    requires j < |EndVals(text, ifname, value)| && Fits(ROUTES, |EndVals(text, ifname, value)|)
    ensures Entry(LoadText(EndText(text, ifname, value)), j, EndVals(text, ifname, value)[j])
  {
    hide Tokens, LoadText, SaveText, Decimal, EndVals, Numbered.Save, StartItems, Fits, GoodNames;
    var items, vals := StartItems(LoadText(text)), EndVals(text, ifname, value);
    RoutesReload(text, ifname, value);
    EndValsPrintable(text, ifname, value);
    RoutesGood(|vals|);
    SavedLookup(ROUTES, vals, items);
    TokensOfIndex(ROUTES, |vals|);
    ElemsAt(ROUTES, |vals|);
    assert ROUTES.Full(j) == "route_prl" + Decimal(j) by {
      assert "route_" + ("prl" + Decimal(j)) == "route_prl" + Decimal(j);
    }
    assert ROUTES.Elems(|vals|)[j] == "prl" + Decimal(j);
  }

  /** The entry of a request with a gateway. */
  lemma StoredGateway(text: string, ifname: string, value: string, now: string, ip: string, gw: string, tail: string)
    returns (j: nat, val: string)
    requires LineText(ifname) && LineText(value) && Stored(text, ifname, value, now)
    requires |EndVals(text, ifname, value)| <= 600 && ip + "=" + gw + tail in Tokens(value, ' ')
    requires Word(ip) && '=' !in ip && Word(gw) && 'm' !in gw && MetricTail(tail)
    requires Word(ifname) && |ip| + |gw| + |ifname| <= 1013
    ensures Entry(LoadText(now), j, val)
    ensures Tokens(val, ' ') == [if ':' in ip then "-6" else "-4", ip, gw, "-ifp", ifname]
  {
    hide RouteVal, ParseC, Tokens, Stored, Word;
    val := RouteVal(ParseC(ip + "=" + gw + tail), ifname);
    j := StoredRequest(text, ifname, value, now, ip + "=" + gw + tail);
    GatewayValue(ip, gw, tail, ifname);
  }

  /** ... and of one without. */
  lemma StoredPlain(text: string, ifname: string, value: string, now: string, ip: string) returns (j: nat, val: string)
    requires LineText(ifname) && LineText(value) && Stored(text, ifname, value, now)
    requires |EndVals(text, ifname, value)| <= 600 && ip in Tokens(value, ' ')
    requires Word(ip) && '=' !in ip && Word(ifname) && |ip| + |ifname| <= 1007
    ensures Entry(LoadText(now), j, val)
    ensures Tokens(val, ' ') == [if ':' in ip then "-6" else "-4", ip, "-interface", ifname]
  {
    hide RouteVal, ParseC, Tokens, Stored, Word;
    val := RouteVal(ParseC(ip), ifname);
    j := StoredRequest(text, ifname, value, now, ip);
    PlainValue(ip, ifname);
  }

  /** Longer texts are cut to the buffer. */
  lemma LongTexts(r: Route, ifname: string)
    ensures |RouteVal(r, ifname)| <= 1023 && |RouteCmd(r, ifname)| <= 1023
    ensures |r.ip| >= 1023 ==> |RouteVal(r, ifname)| == 1023 == |RouteCmd(r, ifname)|
  {
  }

  lemma OneEntry(val: string)
    ensures Numbered.Save(ROUTES, [val], []).items == [Item("route_prl0", val), Item("static_routes", "prl0")]
  {
    assert Decimal(0) == "0";
    assert ROUTES.Full(0) == "route_prl0" && ROUTES.Index(1) == "prl0" && ROUTES.Index(0) == "";
    assert "route_prl0"[..10] == "route_prl0";
    assert SaveFrom(ROUTES, [val], [], 0) == SaveFrom(ROUTES, [val], SetItem([], "route_prl0", val), 1);
    assert SetItem([], "route_prl0", val) == [Item("route_prl0", val)];
    assert "route_prl0" != "static_routes" by { assert "route_prl0"[0] == 'r' && "static_routes"[0] == 's'; }
    assert FindKey([Item("route_prl0", val)], "static_routes") == 1;
  }

  lemma PrintTwo(a: Item, b: Item)
    ensures PrintItems([a, b]) == PrintItem(a) + PrintItem(b)
  {
    hide PrintItem;
    assert [a, b][1..] == [b] && [b][1..] == [];
    assert PrintItems([b]) == PrintItem(b) + PrintItems([]) == PrintItem(b);
  }

  /** The file of a first run: the header and the two entries. */
  lemma TwoLines(val: string)
    ensures SaveText([Item("route_prl0", val), Item("static_routes", "prl0")], Some(HEADER)) ==
      HEADER + "\n" + ("route_prl0=\"" + val + "\"\n") + "static_routes=\"prl0\"\n"
  {
    hide PrintItems;
    var a, b := Item("route_prl0", val), Item("static_routes", "prl0");
    PrintTwo(a, b);
    assert "route_prl0" + "=\"" == "route_prl0=\"";
    assert "static_routes" + "=\"" + "prl0" + "\"\n" == "static_routes=\"prl0\"\n";
    Associative(HEADER + "\n", PrintItem(a), PrintItem(b));
  }

  /** What the value of a first route spells. */
  lemma FirstValue(ifname: string, ip: string)
    requires '=' !in ip && |ip| + |ifname| <= 1007
    ensures RouteVal(ParseC(ip), ifname) == (if ':' in ip then "-6" else "-4") + " " + ip + "  -interface " + ifname
  {
    hide ParseC, CutCmd;
    var front := (if ':' in ip then "-6" else "-4") + " " + ip;
    ReadsPlain(ip);
    Whole(front + " " + " -interface" + " " + ifname);
    assert " " + " -interface" + " " == "  -interface ";
    assert front + " " + " -interface" + " " + ifname == front + (" " + " -interface" + " ") + ifname;
  }

  lemma FirstVals(ifname: string, ip: string)
    requires Word(ip)
    ensures StartItems(LoadText("")) == [] && EndVals("", ifname, ip) == [RouteVal(ParseC(ip), ifname)]
  {
    hide ParseC, RouteVal;
    assert LoadText("") == [];
    TokenOne(ip, ' ');
    OneRequest([], ifname, ip);
  }

  /** For example, a request for one route on an empty file. */
  lemma FirstFile(ifname: string, ip: string) returns (val: string)
    requires Word(ip) && '=' !in ip && |ip| + |ifname| <= 1007
    ensures val == (if ':' in ip then "-6" else "-4") + " " + ip + "  -interface " + ifname
    ensures EndText("", ifname, ip) ==
      ("### This file was created " + "automatically by prl_nettool. ###\n" +
      "### Don't change any line " + "of the file.                  ###\n") + "\n" +
      ("route_prl0=\"" + val + "\"\n") + "static_routes=\"prl0\"\n"
  {
    hide Numbered.Save, SaveText, RouteVal, ParseC, EndVals, StartItems, LoadText;
    val := RouteVal(ParseC(ip), ifname);
    FirstValue(ifname, ip);
    FirstVals(ifname, ip);
    OneEntry(val);
    TwoLines(val);
  }
}
