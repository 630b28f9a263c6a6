/** `set_route` on BSD (BSD/setnet.c): load the stored routes, edit them, save them. */
module SetRoute {
  import opened Text
  import opened CBuffer
  import opened RcLine
  import opened RcItems
  import opened RcStore
  import opened Files
  import opened Numbered
  import opened Resave
  import opened Sublist
  import opened RouteText

  const PATH_MAX := 1024

  /** The names of the route list in the store. */
  const ROUTES := Naming("static_routes", "route_", "prl")

  /** In pieces: the verifier looks through a short literal only. */
  const HEADER :=
    "### This file was created " + "automatically by prl_nettool. ###\n" +
    "### Don't change any line " + "of the file.                  ###\n"

  /** `snprintf` into the command buffer. */
  function CutCmd(s: string): string {
    s[..Min(|s|, PATH_MAX - 1)]
  }

  function IpVersion(ip: string): string {
    if ':' in ip then "-6" else "-4"
  }

  function GatewayArgs(r: Route): string {
    match r.gw case None => " -interface" case Some(g) => g + " -ifp"
  }

  /** The command that replaces a route. */
  function RouteCmd(r: Route, ifname: string): string {
    CutCmd("route del " + IpVersion(r.ip) + " " + r.ip + ";route add " + IpVersion(r.ip) + " " + r.ip + " "
      + GatewayArgs(r) + " " + ifname)
  }

  /** The value stored for a route. */
  function RouteVal(r: Route, ifname: string): string {
    CutCmd(IpVersion(r.ip) + " " + r.ip + " " + GatewayArgs(r) + " " + ifname)
  }

  /** The stored values after setting the routes of `tokens` one by one. */
  function SetAll(vals: seq<string>, ifname: string, tokens: seq<string>): seq<string>
    decreases |tokens|
  {
    if tokens == [] then vals
    else SetAll(SetVal(vals, RouteVal(ParseC(tokens[0]), ifname)), ifname, tokens[1..])
  }

  /** The values a run starts from: none when the list cannot be loaded. */
  function StartVals(items: seq<Item>): seq<string> {
    var r := Numbered.Load(ROUTES, items);
    if r.Values? then r.vals else []
  }

  /** The store a run saves into: without route entries when the list was loaded. */
  function StartItems(items: seq<Item>): seq<Item> {
    if Numbered.Load(ROUTES, items).Values? then Numbered.Clean(items, ROUTES.prefix) else items
  }

  function EndVals(text: string, ifname: string, value: string): seq<string> {
    SetAll(StartVals(LoadText(text)), ifname, Tokens(value, ' '))
  }

  /** The file after a run in which every command succeeded. */
  function EndText(text: string, ifname: string, value: string): string {
    SaveText(Numbered.Save(ROUTES, EndVals(text, ifname, value), StartItems(LoadText(text))).items, Some(HEADER))
  }

  /** What a run leaves in the file: without any route, an index that was never written. */
  ghost predicate Stored(text: string, ifname: string, value: string, now: string) {
    if EndVals(text, ifname, value) != [] then now == EndText(text, ifname, value)
    else IndexOnly(StartItems(LoadText(text)), now)
  }

  ghost predicate IndexOnly(items: seq<Item>, now: string) {
    exists index :: now == SaveText(SetItem(items, ROUTES.key, index), Some(HEADER))
  }

  /** What runs commands: any answer to each. */
  class Shell {
    var ran: seq<string>
    var codes: seq<int>

    method RunCmd(cmd: string) returns (res: int)
      modifies this
      ensures ran == old(ran) + [cmd] && codes == old(codes) + [res]
    {
      res := *;
      ran, codes := ran + [cmd], codes + [res];
    }
  }

  /** The answers to `n` more commands: 0 to each but the last, and `res` to the last. */
  predicate StoppedAt(was: seq<int>, now: seq<int>, n: nat, res: int) {
    && |now| == |was| + n && now[..|was|] == was
    && (forall k :: |was| <= k < |now| - 1 ==> now[k] == 0)
    && res == if n == 0 then 0 else now[|now| - 1]
  }

  lemma StoppedNext(was: seq<int>, now: seq<int>, n: nat, res: int)
    requires StoppedAt(was, now, n, 0)
    ensures StoppedAt(was, now + [res], n + 1, res)
  {
    var all := now + [res];
    assert all[..|was|] == now[..|was|];
    assert forall k :: |was| <= k < |now| ==> all[k] == now[k];
  }

  /** The commands in `acc` and behind them those for the first `n` tokens. */
  function Cmds(acc: seq<string>, tokens: seq<string>, ifname: string, n: nat): seq<string>
    requires n <= |tokens|
  {
    if n == 0 then acc else Cmds(acc, tokens, ifname, n - 1) + [RouteCmd(ParseC(tokens[n - 1]), ifname)]
  }

  method ParseToken(token: string) returns (route: Route)
    requires '\0' !in token
    ensures route == ParseC(token)
  {
    var buf := LineBuffer(token);
    StrAtNulFree(token);
    route := ParseRoute(buf);
  }

  /** The loop over the requested routes: each is set in the system and in the list, until a
      command fails. */
  method SetEach(shell: Shell, sublist: RcSublist, ifname: string, tokens: seq<string>) returns (res: int, n: nat)
    requires sublist.Valid() && shell !in sublist.ring.Repr
    requires forall t <- tokens :: '\0' !in t
    modifies shell, sublist, sublist.ring.Repr
    ensures sublist.Valid() && fresh(sublist.ring.Repr - old(sublist.ring.Repr))
    ensures n <= |tokens| && shell.ran == Cmds(old(shell.ran), tokens, ifname, n)
    ensures res == 0 ==> n == |tokens| && sublist.ring.contents == SetAll(old(sublist.ring.contents), ifname, tokens)
    ensures StoppedAt(old(shell.codes), shell.codes, n, res)
  {
    hide RouteCmd, RouteVal, ParseC, SetVal, StoppedAt;
    ghost var codes := shell.codes;
    NoneRan(codes);
    ghost var log, goal := shell.ran, SetAll(sublist.ring.contents, ifname, tokens);
    n, res := 0, 0;
    assert tokens[0..] == tokens;
    while n < |tokens| && res == 0
      invariant sublist.Valid() && fresh(sublist.ring.Repr - old(sublist.ring.Repr)) && shell !in sublist.ring.Repr
      invariant n <= |tokens| && shell.ran == Cmds(log, tokens, ifname, n)
      invariant StoppedAt(codes, shell.codes, n, res)
      invariant res == 0 ==> SetAll(sublist.ring.contents, ifname, tokens[n..]) == goal
    {
      assert tokens[n] in tokens;
      SetAllStep(sublist.ring.contents, ifname, tokens, n);
      ghost var before := shell.codes;
      res := SetOne(shell, sublist, ifname, tokens[n]);
      StoppedNext(codes, before, n, res);
      n := n + 1;
    }
  }

  lemma NoneRan(codes: seq<int>)
    ensures StoppedAt(codes, codes, 0, 0)
  {
  }

  lemma SetAllStep(vals: seq<string>, ifname: string, tokens: seq<string>, n: nat)
    requires n < |tokens|
    ensures SetAll(vals, ifname, tokens[n..]) ==
      SetAll(SetVal(vals, RouteVal(ParseC(tokens[n]), ifname)), ifname, tokens[n + 1..])
  {
    assert tokens[n..][1..] == tokens[n + 1..];
  }

  /** One turn of the loop. */
  method SetOne(shell: Shell, sublist: RcSublist, ifname: string, token: string) returns (res: int)
    requires sublist.Valid() && shell !in sublist.ring.Repr && '\0' !in token
    modifies shell, sublist, sublist.ring.Repr
    ensures sublist.Valid() && fresh(sublist.ring.Repr - old(sublist.ring.Repr)) && shell !in sublist.ring.Repr
    ensures shell.ran == old(shell.ran) + [RouteCmd(ParseC(token), ifname)] && shell.codes == old(shell.codes) + [res]
    ensures sublist.ring.contents ==
      if res == 0 then SetVal(old(sublist.ring.contents), RouteVal(ParseC(token), ifname)) else old(sublist.ring.contents)
  {
    var route := ParseToken(token);
    res := shell.RunCmd(RouteCmd(route, ifname));
    if res == 0 {
      sublist.Set(RouteVal(route, ifname));
    }
  }

  /** `set_route`, for an interface without DHCP on both protocols. */
  method Run(file: File, shell: Shell, ifname: string, value: string, dhcp: bool, dhcpv6: bool) returns (res: int)
    requires '\0' !in value
    modifies file, shell
    ensures dhcp && dhcpv6 ==> res == 0 && file.text == old(file.text) && shell.ran == old(shell.ran) && shell.codes == old(shell.codes)
    ensures !(dhcp && dhcpv6) && file.readErr != 0 ==>
      res == -file.readErr && file.text == old(file.text) && shell.ran == old(shell.ran) && shell.codes == old(shell.codes)
    ensures !(dhcp && dhcpv6) && file.readErr == 0 ==>
      exists n :: 0 <= n <= |Tokens(value, ' ')| && (res == 0 ==> n == |Tokens(value, ' ')|) &&
        shell.ran == Cmds(old(shell.ran), Tokens(value, ' '), ifname, n) && StoppedAt(old(shell.codes), shell.codes, n, res)
    ensures (dhcp && dhcpv6) || file.readErr != 0 || file.writeErr != 0 || res != 0 ==> file.text == old(file.text)
    ensures !(dhcp && dhcpv6) && file.readErr == 0 && file.writeErr == 0 && res == 0 ==>
      Stored(old(file.text), ifname, value, file.text)
    ensures file.readErr == old(file.readErr) && file.writeErr == old(file.writeErr)
  {
    if dhcp && dhcpv6 {
      return 0;
    }
    if file.readErr != 0 {
      return -file.readErr;
    }
    var cfg, sublist := LoadRoutes(file);
    var tokens := Tokens(value, ' ');
    TokensFree(value, ' ', '\0');
    var n;
    res, n := SetEach(shell, sublist, ifname, tokens);
    if res == 0 {
      StoreRoutes(cfg, sublist, file);
    }
  }

  /** The load half: the store, and the list taken out of it if it can be. */
  method LoadRoutes(file: File) returns (cfg: RcConf, sublist: RcSublist)
    requires file.readErr == 0
    ensures fresh(cfg) && fresh(cfg.ring.Repr) && fresh(sublist) && fresh(sublist.ring.Repr)
    ensures cfg.Valid() && sublist.Valid() && sublist.Apart(cfg) && sublist.names == ROUTES
    ensures cfg.ring.contents == StartItems(LoadText(file.text))
    ensures sublist.ring.contents == StartVals(LoadText(file.text))
  {
    cfg := new RcConf();
    var res := cfg.Load(file);
    sublist := new RcSublist(ROUTES);
    res := sublist.Load(cfg);
  }

  /** The save half; a failed save of the list does not stop the save of the store. */
  method StoreRoutes(cfg: RcConf, sublist: RcSublist, file: File)
    requires cfg.Valid() && sublist.Valid() && sublist.Apart(cfg) && file !in cfg.ring.Repr
    requires sublist.names == ROUTES
    modifies cfg.ring.Repr, file
    ensures file.writeErr != 0 ==> file.text == old(file.text)
    ensures file.writeErr == 0 && old(sublist.ring.contents) != [] ==>
      file.text == SaveText(Numbered.Save(ROUTES, old(sublist.ring.contents), old(cfg.ring.contents)).items, Some(HEADER))
    ensures file.writeErr == 0 && old(sublist.ring.contents) == [] ==> IndexOnly(old(cfg.ring.contents), file.text)
    ensures file.readErr == old(file.readErr) && file.writeErr == old(file.writeErr)
  {
    var _ := sublist.Save(cfg);
    var _ := cfg.Save(file, Some(HEADER));
  }

  // ---- what a run achieves ------------------------------------------------

  lemma {:induction false} DecimalShort(n: nat)
    requires n <= 4096
    ensures |Decimal(n)| <= 4
  {
    DecimalGrows(n, 9999);
    assert Decimal(9) == [Digit(9)] && Decimal(99) == Decimal(9) + [Digit(9)];
    assert Decimal(999) == Decimal(99) + [Digit(9)] && Decimal(9999) == Decimal(999) + [Digit(9)];
  }

  lemma {:induction false} RoutesGood(n: nat)
    requires Fits(ROUTES, n)
    ensures GoodNames(ROUTES, n)
  {
    if n > 0 {
      IndexLength(ROUTES, n);
      DecimalShort(n - 1);
    }
    assert PrintableKey("route_prl0") && ROUTES.prefix + ROUTES.itemKey + "0" == "route_prl0";
    assert ROUTES.prefix[0] == 'r' && ROUTES.key[0] == 's';
    GoodNamesWhen(ROUTES, n);
  }

  predicate LineText(s: string) {
    '\n' !in s && '\0' !in s
  }

  lemma RouteValPrintable(token: string, ifname: string)
    requires LineText(token) && LineText(ifname)
    ensures PrintableVal(RouteVal(ParseC(token), ifname))
  {
    var r := ParseC(token);
    assert LineText(r.ip) && (r.gw.Some? ==> LineText(r.gw.value));
    assert LineText(IpVersion(r.ip)) && LineText(GatewayArgs(r));
  }

  lemma {:induction false} SetAllPrintable(vals: seq<string>, ifname: string, tokens: seq<string>)
    requires LineText(ifname) && forall t <- tokens :: LineText(t)
    requires forall v <- vals :: PrintableVal(v)
    ensures forall v <- SetAll(vals, ifname, tokens) :: PrintableVal(v)
    decreases |tokens|
  {
    if tokens != [] {
      RouteValPrintable(tokens[0], ifname);
      var val := RouteVal(ParseC(tokens[0]), ifname);
      assert forall v <- SetVal(vals, val) :: v in vals || v == val;
      assert forall t <- tokens[1..] :: t in tokens;
      SetAllPrintable(SetVal(vals, val), ifname, tokens[1..]);
    }
  }

  lemma {:induction false} LoadedValsPrintable(prefix: string, items: seq<Item>, names: seq<string>)
    requires AllPrintable(items)
    ensures var r := LoadElems(prefix, items, names); r.Values? ==> forall v <- r.vals :: PrintableVal(v)
  {
    if names != [] {
      LoadedValsPrintable(prefix, items, names[1..]);
    }
  }

  lemma {:induction false} CleanPrintable(items: seq<Item>, prefix: string)
    requires AllPrintable(items)
    ensures AllPrintable(Numbered.Clean(items, prefix))
  {
    if items != [] {
      CleanPrintable(items[1..], prefix);
    }
  }

  lemma HeaderIsInert()
    ensures InertHeader(Some(HEADER))
  {
    NoEqualsIsInert(HEADER);
  }

  /** A run whose commands succeed and whose list fits persists the list: loading the routes from the
      file it wrote gives the old routes with each requested one moved to, or added at, the end. */
  lemma RoutesReload(text: string, ifname: string, value: string)
    requires LineText(ifname) && LineText(value)
    requires EndVals(text, ifname, value) != [] && Fits(ROUTES, |EndVals(text, ifname, value)|)
    ensures var items, vals := LoadText(text), EndVals(text, ifname, value);
      && LoadText(EndText(text, ifname, value)) == Numbered.Save(ROUTES, vals, StartItems(items)).items
      && Numbered.Load(ROUTES, LoadText(EndText(text, ifname, value))) == Values(vals)
  {
    var items, vals := LoadText(text), EndVals(text, ifname, value);
    RoutesGood(|vals|);
    EndValsPrintable(text, ifname, value);
    HeaderIsInert();
    PersistenceRoundTrip(ROUTES, vals, StartItems(items), Some(HEADER));
  }

  lemma EndValsPrintable(text: string, ifname: string, value: string)
    requires LineText(ifname) && LineText(value)
    ensures forall v <- EndVals(text, ifname, value) :: PrintableVal(v)
    ensures DistinctKeys(StartItems(LoadText(text))) && AllPrintable(StartItems(LoadText(text)))
  {
    var items := LoadText(text);
    LoadedIsWellFormed(text);
    TokensFree(value, ' ', '\n');
    TokensFree(value, ' ', '\0');
    if Numbered.Load(ROUTES, items).Values? {
      LoadedValsPrintable(ROUTES.prefix, items, Tokens(StrAt(Lookup(items, ROUTES.key).value, 0), ' '));
    }
    SetAllPrintable(StartVals(items), ifname, Tokens(value, ' '));
    CleanPrintable(items, ROUTES.prefix);
    CleanKeepsDistinct(items, ROUTES.prefix);
  }

  /** A run whose list does not fit is answered with 0 as well: the file then has the entries of the
      first `m` routes, which fit, and the old index. */
  lemma RoutesCut(text: string, ifname: string, value: string, m: nat)
    requires LineText(ifname) && LineText(value)
    requires m < |EndVals(text, ifname, value)| && Fits(ROUTES, m) && !Fits(ROUTES, m + 1)
    ensures var items, vals, now := LoadText(text), EndVals(text, ifname, value), LoadText(EndText(text, ifname, value));
      && now == ApplyEdits(StartItems(items), PutEdits(ROUTES, vals, 0, m))
      && Lookup(now, ROUTES.key) == Lookup(items, ROUTES.key)
      && forall i :: 0 <= i < m ==> Lookup(now, ROUTES.Full(i)) == Some(vals[i])
  {
    var items, vals := LoadText(text), EndVals(text, ifname, value);
    var es := PutEdits(ROUTES, vals, 0, m);
    var start, now := StartItems(items), ApplyEdits(StartItems(items), es);
    SaveStops(ROUTES, vals, start, m);
    EndValsPrintable(text, ifname, value);
    RoutesGood(m);
    PutPrintable(ROUTES, vals, 0, m);
    EditsLookup(start, es, ROUTES.key);
    HeaderIsInert();
    LoadSave(now, Some(HEADER));
    RouteKeyUnprefixed();
    forall j | 0 <= j < m
      ensures CutKey(ROUTES.Full(j)) != ROUTES.key
    {
      assert CutKey(ROUTES.Full(j)) == ROUTES.Full(j);
    }
    PutKeeps(ROUTES, vals, start, 0, m, ROUTES.key);
    CleanLookup(items, ROUTES.prefix, ROUTES.key);
    forall i | 0 <= i < m
      ensures Lookup(now, ROUTES.Full(i)) == Some(vals[i])
    {
      PutSets(ROUTES, vals, start, 0, m, i);
    }
  }

  /** When the old list could be loaded, the file holds besides it exactly what it held before: the
      index in its place, every unrelated item with its value, and no left-over route entry. */
  lemma RoutesLeaveTheRest(text: string, ifname: string, value: string)
    requires Numbered.Load(ROUTES, LoadText(text)).Values?
    requires LineText(ifname) && LineText(value)
    requires EndVals(text, ifname, value) != [] && Fits(ROUTES, |EndVals(text, ifname, value)|)
    ensures var items, vals := LoadText(text), EndVals(text, ifname, value);
      LoadText(EndText(text, ifname, value)) ==
        SetItem(Numbered.Clean(items, ROUTES.prefix), ROUTES.key, ROUTES.Index(|vals|)) + Entries(ROUTES, vals, 0)
  {
    RoutesReload(text, ifname, value);
    LoadedIsWellFormed(text);
    RoutesGood(|EndVals(text, ifname, value)|);
    RouteKeyUnprefixed();
    IndexAndEntriesAgree(ROUTES, EndVals(text, ifname, value), LoadText(text));
  }

  lemma SetValMembers(vals: seq<string>, val: string)
    ensures forall v :: v in SetVal(vals, val) <==> v in vals || v == val
    ensures val in vals ==> |SetVal(vals, val)| == |vals|
  {
    var k, now := FindVal(vals, val), DelVal(vals, val);
    forall v | v in vals && v != val
      ensures v in now
    {
      var i :| 0 <= i < |vals| && vals[i] == v;
      assert i != k && v == now[if i < k then i else i - 1];
    }
  }

  /** The list holds the old values, the requested ones and no other, and grows by new ones only. */
  lemma {:induction false} SetAllMembers(vals: seq<string>, ifname: string, tokens: seq<string>)
    ensures var now, req := SetAll(vals, ifname, tokens), RouteVals(ifname, tokens);
      && (forall v :: v in now <==> v in vals || v in req)
      && ((forall v <- req :: v in vals) ==> |now| == |vals|)
    decreases |tokens|
  {
    if tokens != [] {
      var val, rest := RouteVal(ParseC(tokens[0]), ifname), RouteVals(ifname, tokens[1..]);
      SetValMembers(vals, val);
      SetAllMembers(SetVal(vals, val), ifname, tokens[1..]);
      assert ([val] + rest)[0] == val && forall v :: v in [val] + rest <==> v == val || v in rest;
    }
  }

  /** A repeat-free list stays so. */
  lemma {:induction false} SetAllNoRepeat(vals: seq<string>, ifname: string, tokens: seq<string>)
    requires Sublist.NoRepeat(vals)
    ensures Sublist.NoRepeat(SetAll(vals, ifname, tokens))
    ensures forall v :: v in SetAll(vals, ifname, tokens) <==> v in vals || v in RouteVals(ifname, tokens)
    decreases |tokens|
  {
    SetAllMembers(vals, ifname, tokens);
    if tokens != [] {
      var val := RouteVal(ParseC(tokens[0]), ifname);
      SetValKeepsNoRepeat(vals, val);
      SetAllNoRepeat(SetVal(vals, val), ifname, tokens[1..]);
    }
  }

  // ---- running twice ------------------------------------------------------

  function RouteVals(ifname: string, tokens: seq<string>): seq<string> {
    if tokens == [] then [] else [RouteVal(ParseC(tokens[0]), ifname)] + RouteVals(ifname, tokens[1..])
  }

  /** The values that are not in `out`, in order. */
  function Minus(vals: seq<string>, out: set<string>): seq<string> {
    if vals == [] then [] else (if vals[0] in out then [] else [vals[0]]) + Minus(vals[1..], out)
  }

  lemma {:induction false} MinusAppend(a: seq<string>, b: seq<string>, out: set<string>)
    ensures Minus(a + b, out) == Minus(a, out) + Minus(b, out)
  {
    if a == [] {
      assert a + b == b;
    } else {
      TailAppend(a, b);
      MinusAppend(a[1..], b, out);
    }
  }

  lemma {:induction false} MinusNothing(vals: seq<string>, out: set<string>)
    requires forall v <- vals :: v !in out
    ensures Minus(vals, out) == vals
  {
    if vals != [] {
      assert vals[0] in vals && forall v <- vals[1..] :: v in vals;
      MinusNothing(vals[1..], out);
    }
  }

  lemma {:induction false} MinusAll(vals: seq<string>, out: set<string>)
    requires forall v <- vals :: v in out
    ensures Minus(vals, out) == []
  {
    if vals != [] {
      assert vals[0] in vals && forall v <- vals[1..] :: v in vals;
      MinusAll(vals[1..], out);
    }
  }

  lemma {:induction false} MinusTwice(vals: seq<string>, a: set<string>, b: set<string>)
    ensures Minus(Minus(vals, a), b) == Minus(vals, a + b)
  {
    if vals != [] {
      MinusTwice(vals[1..], a, b);
      if vals[0] !in a {
        assert ([vals[0]] + Minus(vals[1..], a))[1..] == Minus(vals[1..], a);
      } else {
        assert Minus(vals, a) == Minus(vals[1..], a);
      }
    }
  }

  lemma DelValStep(vals: seq<string>, val: string)
    requires vals != []
    ensures DelVal(vals, val) == if vals[0] == val then vals[1..] else [vals[0]] + DelVal(vals[1..], val)
  {
    var k := FindVal(vals, val);
    DropAt(vals, if k < |vals| then k else 0);
  }

  lemma DropAt<T>(s: seq<T>, k: nat)
    requires k < |s|
    ensures s == [s[0]] + s[1..]
    ensures s[..k] + s[k + 1..] == if k == 0 then s[1..] else [s[0]] + (s[1..][..k - 1] + s[1..][k..])
  {
  }

  function Members(vals: seq<string>): set<string> {
    set v <- vals :: v
  }

  /** No value of `out` is there twice. */
  predicate Once(vals: seq<string>, out: set<string>) {
    forall i, j :: 0 <= i < j < |vals| && vals[i] == vals[j] ==> vals[i] !in out
  }

  lemma OnceTail(vals: seq<string>, out: set<string>)
    requires Once(vals, out) && vals != []
    ensures Once(vals[1..], out) && (vals[0] in out ==> vals[0] !in vals[1..])
  {
    assert forall i :: 0 <= i < |vals| - 1 ==> vals[1..][i] == vals[i + 1];
  }

  lemma {:induction false} DelValIsMinus(vals: seq<string>, val: string)
    requires Once(vals, {val})
    ensures DelVal(vals, val) == Minus(vals, {val})
  {
    if vals != [] {
      DelValStep(vals, val);
      DropAt(vals, 0);
      OnceTail(vals, {val});
      if vals[0] == val {
        MinusNothing(vals[1..], {val});
      } else {
        DelValIsMinus(vals[1..], val);
      }
    }
  }

  /** Of several equal values the last is kept. */
  function Kept(vals: seq<string>): seq<string> {
    if vals == [] then [] else if vals[0] in vals[1..] then Kept(vals[1..]) else [vals[0]] + Kept(vals[1..])
  }

  lemma {:induction false} KeptOnce(vals: seq<string>)
    ensures forall v :: v in Kept(vals) <==> v in vals
    ensures Sublist.NoRepeat(Kept(vals))
  {
    if vals != [] {
      KeptOnce(vals[1..]);
      assert vals == [vals[0]] + vals[1..];
      assert forall i :: 0 <= i < |Kept(vals[1..])| ==> Kept(vals[1..])[i] in vals[1..];
    }
  }

  lemma {:induction false} OnceMinus(vals: seq<string>, less: set<string>, out: set<string>)
    requires Once(vals, out)
    ensures Once(Minus(vals, less), out)
    ensures forall v <- Minus(vals, less) :: v in vals && v !in less
  {
    if vals != [] {
      var rest := Minus(vals[1..], less);
      OnceTail(vals, out);
      OnceMinus(vals[1..], less, out);
      assert forall i :: 0 <= i < |rest| ==> rest[i] in rest;
    }
  }

  lemma OnceAppend(vals: seq<string>, val: string, out: set<string>)
    requires Once(vals, out) && val !in vals
    ensures Once(vals + [val], out)
  {
    assert forall i :: 0 <= i < |vals| ==> vals[i] in vals;
  }

  /** What a set leaves still holds the other requested values once at most. */
  lemma OnceSet(vals: seq<string>, val: string, out: set<string>)
    requires Once(vals, out + {val})
    ensures Once(SetVal(vals, val), out)
  {
    assert Once(vals, out) && Once(vals, {val});
    DelValIsMinus(vals, val);
    OnceMinus(vals, {val}, out);
    OnceAppend(Minus(vals, {val}), val, out);
  }

  lemma MoveStep(vals: seq<string>, val: string, rest: seq<string>)
    ensures Minus(Minus(vals, {val}) + [val], Members(rest)) + Kept(rest)
      == Minus(vals, Members([val] + rest)) + Kept([val] + rest)
  {
    var out, all := Members(rest), [val] + rest;
    MinusAppend(Minus(vals, {val}), [val], out);
    MinusTwice(vals, {val}, out);
    assert all[0] == val && all[1..] == rest;
    assert forall v :: v in {val} + out <==> v in all;
    assert {val} + out == Members(all);
    if val in rest {
      MinusAll([val], out);
      assert Minus(vals, Members(all)) + [] == Minus(vals, Members(all));
    } else {
      MinusNothing([val], out);
      Associative(Minus(vals, Members(all)), [val], Kept(rest));
    }
  }

  /** Setting all routes moves the requested values, each at its last mention, behind the others. */
  lemma {:induction false} SetAllMoves(vals: seq<string>, ifname: string, tokens: seq<string>)
    requires Once(vals, Members(RouteVals(ifname, tokens)))
    ensures var req := RouteVals(ifname, tokens);
      SetAll(vals, ifname, tokens) == Minus(vals, Members(req)) + Kept(req)
    decreases |tokens|
  {
    if tokens == [] {
      MinusNothing(vals, Members([]));
      assert vals + [] == vals;
    } else {
      var val, rest := RouteVal(ParseC(tokens[0]), ifname), RouteVals(ifname, tokens[1..]);
      var all := [val] + rest;
      assert forall v :: v in all <==> v in Members(rest) + {val};
      assert Members(all) == Members(rest) + {val};
      DelValIsMinus(vals, val);
      OnceSet(vals, val, Members(rest));
      SetAllMoves(SetVal(vals, val), ifname, tokens[1..]);
      MoveStep(vals, val, rest);
    }
  }

  lemma OnceBehind(front: seq<string>, back: seq<string>, out: set<string>)
    requires (forall v <- front :: v !in out) && Sublist.NoRepeat(back)
    ensures Once(front + back, out)
  {
    var all := front + back;
    forall i, j | 0 <= i < j < |all|
      ensures all[i] !in out || all[i] != all[j]
    {
      if i < |front| {
        assert all[i] in front;
      } else {
        assert all[i] == back[i - |front|] && all[j] == back[j - |front|];
      }
    }
  }

  /** A list that holds no requested value twice is settled by one run. */
  lemma SetAllTwice(vals: seq<string>, ifname: string, tokens: seq<string>)
    requires Once(vals, Members(RouteVals(ifname, tokens)))
    ensures var now := SetAll(vals, ifname, tokens);
      SetAll(now, ifname, tokens) == now && Once(now, Members(RouteVals(ifname, tokens)))
  {
    var req := RouteVals(ifname, tokens);
    var out, front := Members(req), Minus(vals, Members(req));
    SetAllMoves(vals, ifname, tokens);
    KeptOnce(req);
    OnceMinus(vals, out, out);
    OnceBehind(front, Kept(req), out);
    SetAllMoves(front + Kept(req), ifname, tokens);
    MinusAppend(front, Kept(req), out);
    MinusNothing(front, out);
    MinusAll(Kept(req), out);
    assert front + [] == front;
  }

  /** What deleting the value leaves of a list that ends in it. */
  lemma DelValAgain(d: seq<string>, val: string)
    ensures var p := FindVal(d, val); DelVal(d + [val], val) == (if p < |d| then d[..p] + d[p + 1..] + [val] else d)
  {
    hide FindVal;
    var p, all := FindVal(d, val), d + [val];
    FindValIs(all, val, if p < |d| then p else |d|);
    DropBeforeLast(d, val, p);
  }

  lemma DropBeforeLast(d: seq<string>, val: string, p: nat)
    requires p <= |d|
    ensures var all := d + [val];
      all[..p] + all[p + 1..] == if p < |d| then d[..p] + d[p + 1..] + [val] else d
  {
  }

  lemma {:induction false} FindValIs(vals: seq<string>, val: string, k: nat)
    requires k < |vals| && vals[k] == val && forall i :: 0 <= i < k ==> vals[i] != val
    ensures FindVal(vals, val) == k
  {
    if k > 0 {
      FindValIs(vals[1..], val, k - 1);
    }
  }

  /** Moving the first element to the end changes nothing exactly when all elements are the same. */
  lemma {:induction false} RotateSame(val: string, rest: seq<string>)
    ensures rest + [val] == [val] + rest <==> forall x <- rest :: x == val
  {
    if rest + [val] == [val] + rest && rest != [] {
      assert rest[0] == (rest + [val])[0] == ([val] + rest)[0] == val;
      assert rest[1..] + [val] == (rest + [val])[1..] == ([val] + rest)[1..] == rest == [val] + rest[1..];
      RotateSame(val, rest[1..]);
    } else if forall x <- rest :: x == val {
      assert forall i :: 0 <= i < |rest| ==> rest[i] in rest;
    }
  }

  /** Nothing else stands behind the second mention of the value. */
  predicate LastTwice(vals: seq<string>, val: string) {
    var d := DelVal(vals, val);
    forall x <- d[FindVal(d, val)..] :: x == val
  }

  lemma TwiceSame(d: seq<string>, val: string, p: nat)
    requires p < |d| && d[p] == val
    ensures d[..p] + d[p + 1..] + [val] + [val] == d + [val] <==> forall x <- d[p..] :: x == val
  {
    var front, rest := d[..p], d[p + 1..];
    assert d == front + ([val] + rest) && d[p..] == [val] + rest;
    Associative(front, rest, [val]);
    Behind(front, rest + [val], [val] + rest, [val]);
    RotateSame(val, rest);
    assert forall x :: x in [val] + rest <==> x == val || x in rest;
  }

  /** One request settles the list in one run exactly when nothing else stands behind its second
      mention. */
  lemma SetTwiceExactly(vals: seq<string>, val: string)
    ensures SetVal(SetVal(vals, val), val) == SetVal(vals, val) <==> LastTwice(vals, val)
  {
    hide DelVal, FindVal;
    var d := DelVal(vals, val);
    DelValAgain(d, val);
    if FindVal(d, val) < |d| {
      TwiceSame(d, val, FindVal(d, val));
    }
  }

  lemma Behind(front: seq<string>, a: seq<string>, b: seq<string>, c: seq<string>)
    ensures front + a + c == front + b + c <==> a == b
  {
    if front + a + c == front + b + c {
      assert a + c == (front + a + c)[|front|..] == (front + b + c)[|front|..] == b + c;
      assert |a| == |b| && (a + c)[..|a|] == a && (b + c)[..|a|] == b;
    }
  }

  /** For example, two mentions in front of another value: each run moves one of the two. */
  lemma RepeatMovesOn(token: string, ifname: string, other: string)
    requires other != RouteVal(ParseC(token), ifname)
    ensures var val := RouteVal(ParseC(token), ifname);
      && SetAll([val, val, other], ifname, [token]) == [val, other, val]
      && SetAll([val, other, val], ifname, [token]) == [other, val, val]
  {
    var val := RouteVal(ParseC(token), ifname);
    assert [token][1..] == [];
    assert FindVal([val, val, other], val) == 0 == FindVal([val, other, val], val);
  }

  lemma RouteKeyUnprefixed()
    ensures !(ROUTES.prefix <= ROUTES.key)
  {
    assert ROUTES.prefix[0] == 'r' && ROUTES.key[0] == 's';
  }

  /** The index was there, and what is left of an old list is out of the way or in its place. */
  predicate InPlace(items: seq<Item>, n: nat) {
    HasKey(items, ROUTES.key) && (Numbered.Load(ROUTES, items).Values? || TailNumbered(ROUTES, items, n))
  }

  lemma InPlaceAtStart(items: seq<Item>, n: nat)
    ensures InPlace(items, n) <==> HasKey(StartItems(items), ROUTES.key) && TailNumbered(ROUTES, StartItems(items), n)
  {
    if Numbered.Load(ROUTES, items).Values? {
      var kept := Numbered.Clean(items, ROUTES.prefix);
      RouteKeyUnprefixed();
      CleanLookup(items, ROUTES.prefix, ROUTES.key);
      CleanIsClean(items, ROUTES.prefix);
      CleanNothing(kept, ROUTES.prefix);
    }
  }

  /** The store and the list that a second identical run starts from. */
  lemma SecondStart(text: string, ifname: string, value: string)
    requires LineText(ifname) && LineText(value)
    requires EndVals(text, ifname, value) != [] && Fits(ROUTES, |EndVals(text, ifname, value)|)
    ensures var vals, next := EndVals(text, ifname, value), EndText(text, ifname, value);
      && EndVals(next, ifname, value) == SetAll(vals, ifname, Tokens(value, ' '))
      && |EndVals(next, ifname, value)| == |vals|
      && StartItems(LoadText(next)) == Numbered.Clean(LoadText(next), ROUTES.prefix)
  {
    var tokens := Tokens(value, ' ');
    RoutesReload(text, ifname, value);
    SetAllMembers(StartVals(LoadText(text)), ifname, tokens);
    SetAllMembers(EndVals(text, ifname, value), ifname, tokens);
  }

  /** A second identical run leaves the file as it is if and only if the list is settled, the index
      was in the store before the first, and the first could load it or found at most a numbered tail
      of entries. */
  lemma RunTwice(text: string, ifname: string, value: string)
    requires LineText(ifname) && LineText(value)
    requires EndVals(text, ifname, value) != [] && Fits(ROUTES, |EndVals(text, ifname, value)|)
    ensures var vals, next := EndVals(text, ifname, value), EndText(text, ifname, value);
      EndText(next, ifname, value) == next <==>
        SetAll(vals, ifname, Tokens(value, ' ')) == vals && InPlace(LoadText(text), |vals|)
  {
    var vals, next := EndVals(text, ifname, value), EndText(text, ifname, value);
    SecondStart(text, ifname, value);
    RoutesReload(text, ifname, value);
    RoutesReload(next, ifname, value);
    if SetAll(vals, ifname, Tokens(value, ' ')) == vals {
      LoadedIsWellFormed(text);
      CleanKeepsDistinct(LoadText(text), ROUTES.prefix);
      RoutesGood(|vals|);
      RouteKeyUnprefixed();
      SavedTwice(ROUTES, vals, StartItems(LoadText(text)));
      InPlaceAtStart(LoadText(text), |vals|);
    }
  }

  /** For one requested route everything can be read off the file: a second run changes nothing if and
      only if nothing else stands behind the second mention of the route in the old list, and the store
      is as above. */
  lemma RunTwiceOneRoute(text: string, ifname: string, route: string)
    requires LineText(ifname) && LineText(route) && route != "" && ' ' !in route
    requires Fits(ROUTES, |EndVals(text, ifname, route)|)
    ensures var vals, next := EndVals(text, ifname, route), EndText(text, ifname, route);
      EndText(next, ifname, route) == next <==>
        LastTwice(StartVals(LoadText(text)), RouteVal(ParseC(route), ifname)) && InPlace(LoadText(text), |vals|)
  {
    var vals, val := StartVals(LoadText(text)), RouteVal(ParseC(route), ifname);
    TokenOne(route, ' ');
    OneRequest(vals, ifname, route);
    OneRequest(SetVal(vals, val), ifname, route);
    RunTwice(text, ifname, route);
    SetTwiceExactly(vals, val);
  }

  lemma OneRequest(vals: seq<string>, ifname: string, route: string)
    ensures SetAll(vals, ifname, [route]) == SetVal(vals, RouteVal(ParseC(route), ifname))
  {
    assert [route][1..] == [];
  }

  /** When no requested route is in the old list twice, the store alone decides about the second run,
      and from the second run on the file stays as it is. */
  lemma RunOnceMore(text: string, ifname: string, value: string)
    requires LineText(ifname) && LineText(value)
    requires EndVals(text, ifname, value) != [] && Fits(ROUTES, |EndVals(text, ifname, value)|)
    requires Once(StartVals(LoadText(text)), Members(RouteVals(ifname, Tokens(value, ' '))))
    ensures var vals, next := EndVals(text, ifname, value), EndText(text, ifname, value);
      && (EndText(next, ifname, value) == next <==> InPlace(LoadText(text), |vals|))
      && EndText(EndText(next, ifname, value), ifname, value) == EndText(next, ifname, value)
  {
    var next := EndText(text, ifname, value);
    SetAllTwice(StartVals(LoadText(text)), ifname, Tokens(value, ' '));
    RunTwice(text, ifname, value);
    SecondStart(text, ifname, value);
    RoutesReload(text, ifname, value);
    RunTwice(next, ifname, value);
    InPlaceWhenLoaded(LoadText(next), |EndVals(text, ifname, value)|);
  }

  lemma InPlaceWhenLoaded(items: seq<Item>, n: nat)
    requires Numbered.Load(ROUTES, items).Values?
    ensures InPlace(items, n)
  {
  }

  /** For example, the first run on an empty file writes the index behind the entries, and the second
      the entries behind the index. */
  lemma FirstRunsDiffer()
    ensures var next := EndText("", "em0", "10.0.0.0"); EndText(next, "em0", "10.0.0.0") != next
  {
    var value := "10.0.0.0";
    assert LoadText("") == [];
    TokenOne(value, ' ');
    assert [value][1..] == [] && Token(value) == [value];
    assert Decimal(0) == "0";
    RunTwice("", "em0", value);
  }
}
