/** The route argument "ip[=gateway][m<metric>]" and its three parsers: `parse_route` in C,
    `split_route` in the shell functions and `split_route` in the netplan script. */
module RouteText {
  import opened Text
  import opened CBuffer

  /** The pieces between the separators, as `re.split` and awk find them. */
  function Split(s: string, c: char): (parts: seq<string>)
    ensures |parts| >= 1
    decreases |s|
  {
    var k := IndexOf(s, c);
    if k == |s| then [s] else [s[..k]] + Split(s[k + 1..], c)
  }

  datatype Route = Route(ip: string, gw: Option<string>, metric: Option<string>)

  function Render(r: Route): string {
    r.ip
    + (match r.gw case None => "" case Some(g) => "=" + g)
    + (match r.metric case None => "" case Some(m) => "m" + m)
  }

  // ---- C ------------------------------------------------------------------

  /** A metric is looked for only behind a '='. */
  function ParseC(v: string): Route {
    var k := IndexOf(v, '=');
    if k == |v| then Route(v, None, None) else
      var g := v[k + 1..];
      var m := IndexOf(g, 'm');
      if m == |g| then Route(v[..k], Some(g), None)
      else Route(v[..k], Some(g[..m]), Some(g[m + 1..]))
  }

  /** `parse_route`: the separators are overwritten in the caller's buffer. */
  method ParseRoute(value: array<char>) returns (route: Route)
    requires IsCString(value[..], 0)
    modifies value
    ensures route == ParseC(old(StrAt(value[..], 0)))
  {
    var k, gw, found := CutAt(value, 0, '=');
    var ip := StrAt(value[..], 0);
    if !found {
      return Route(ip, None, None);
    }
    var m, metric, hasMetric := CutAt(value, gw, 'm');
    route := Route(ip, Some(StrAt(value[..], gw)), None);
    if hasMetric {
      route := Route(ip, route.gw, Some(StrAt(value[..], metric)));
    }
  }

  // ---- shell --------------------------------------------------------------

  /** The index of the last `c` in `s`, or `|s|` when there is none. */
  function LastIndexOf(s: string, c: char): (k: nat)
    ensures k <= |s|
    ensures k < |s| ==> s[k] == c
  {
    if s == "" then 0
    else if s[|s| - 1] == c then |s| - 1
    else var k := LastIndexOf(s[..|s| - 1], c); if k == |s| - 1 then |s| else k
  }

  lemma {:induction false} LastIndexOfIs(s: string, c: char, k: nat)
    requires k <= |s| && (k < |s| ==> s[k] == c)
    requires forall i :: 0 <= i < |s| && (i > k || k == |s|) ==> s[i] != c
    ensures LastIndexOf(s, c) == k
  {
    if k < |s| - 1 {
      LastIndexOfIs(s[..|s| - 1], c, k);
    } else if k == |s| && s != "" {
      LastIndexOfIs(s[..|s| - 1], c, |s| - 1);
    }
  }

  /** `${s##*c}` */
  function AfterLast(s: string, c: char): string {
    var k := LastIndexOf(s, c);
    if k == |s| then s else s[k + 1..]
  }

  /** `${s%c*}` */
  function BeforeLast(s: string, c: char): string {
    s[..LastIndexOf(s, c)]
  }

  /** Missing parts come out empty. */
  datatype ShellRoute = ShellRoute(ip: string, gw: string, metric: string)

  /** The variables of `split_route`. */
  function ShellParts(v: string): ShellRoute {
    var metric := if AfterLast(v, 'm') == v then "" else AfterLast(v, 'm');
    var gw := BeforeLast(v, 'm');
    var hop := if AfterLast(gw, '=') == gw then "" else AfterLast(gw, '=');
    ShellRoute(BeforeLast(gw, '='), hop, metric)
  }

  /** The line that `split_route` prints. */
  function SplitRoute(v: string): string {
    var p := ShellParts(v);
    p.ip + " " + p.gw + " " + p.metric
  }

  predicate IsIfs(c: char) {
    c == ' ' || c == '\t' || c == '\n'
  }

  /** `$1` without quotes is split into words, of which `split_route` gets the first. */
  function FirstWord(v: string): string {
    if v == "" then ""
    else if IsIfs(v[0]) then FirstWord(v[1..])
    else [v[0]] + RestOfWord(v[1..])
  }

  function RestOfWord(v: string): string {
    if v == "" || IsIfs(v[0]) then "" else [v[0]] + RestOfWord(v[1..])
  }

  /** `awk -F '[ ]'` on a line: every single blank ends a field, and a missing field is empty. */
  function AwkField(line: string, k: nat): string {
    var fields := Split(line, ' ');
    if k < |fields| then fields[k] else ""
  }

  /** `route_ip`, `route_gw` and `route_metric` */
  function ParseShell(v: string): ShellRoute {
    var line := SplitRoute(FirstWord(v));
    ShellRoute(AwkField(line, 0), AwkField(line, 1), AwkField(line, 2))
  }

  // ---- Python -------------------------------------------------------------

  predicate IsPySpace(c: char) {
    c == ' ' || c == '\t' || c == '\n' || c == '\r' || c == 11 as char || c == 12 as char
  }

  function PyStrip(s: string): string {
    if s != "" && IsPySpace(s[0]) then PyStrip(s[1..])
    else if s != "" && IsPySpace(s[|s| - 1]) then PyStrip(s[..|s| - 1])
    else s
  }

  /** A missing gateway is 0.0.0.0; the metric is the text given to `int`. */
  datatype PyRoute = PyRoute(to: string, via: string, metric: Option<string>)

  function ParsePython(v: string): PyRoute {
    var res := Split(PyStrip(v), 'm');
    var metric := if |res| == 2 then Some(res[1]) else None;
    var parts := Split(res[0], '=');
    PyRoute(parts[0], if |parts| == 2 then parts[1] else "0.0.0.0", metric)
  }

  // ---- agreement ----------------------------------------------------------

  /** White space: blank, tab, newline, carriage return, vertical tab, form feed. */
  predicate White(c: char) {
    c in {' ', '\t', '\n', '\r', 11 as char, 12 as char}
  }

  /** A part is not empty and holds no separator and no white space. */
  predicate Clean(s: string) {
    s != "" && '=' !in s && 'm' !in s && forall c <- s :: !White(c)
  }

  predicate CleanRoute(r: Route) {
    && Clean(r.ip)
    && (r.gw.Some? ==> Clean(r.gw.value))
    && (r.metric.Some? ==> r.metric.value != "" && forall i :: 0 <= i < |r.metric.value| ==> IsDigit(r.metric.value[i]))
  }

  /** What the shell functions are to answer. */
  function AsShell(r: Route): ShellRoute {
    ShellRoute(r.ip, if r.gw.Some? then r.gw.value else "", if r.metric.Some? then r.metric.value else "")
  }

  /** What the netplan script is to answer. */
  function AsPython(r: Route): PyRoute {
    PyRoute(r.ip, if r.gw.Some? then r.gw.value else "0.0.0.0", r.metric)
  }

  function Front(r: Route): string {
    match r.gw case None => r.ip case Some(g) => r.ip + "=" + g
  }

  lemma CutFirst(a: string, c: char, b: string)
    requires c !in a
    ensures IndexOf(a + [c] + b, c) == |a|
    ensures (a + [c] + b)[..|a|] == a && (a + [c] + b)[|a| + 1..] == b
  {
    IndexOfUnique(a + [c] + b, c, |a|);
  }

  lemma NoIndex(a: string, c: char)
    requires c !in a
    ensures IndexOf(a, c) == |a|
    ensures AfterLast(a, c) == a == BeforeLast(a, c)
  {
    IndexOfUnique(a, c, |a|);
    LastIndexOfIs(a, c, |a|);
  }

  lemma CutLast(a: string, c: char, b: string)
    requires c !in b
    ensures AfterLast(a + [c] + b, c) == b && BeforeLast(a + [c] + b, c) == a
  {
    LastIndexOfIs(a + [c] + b, c, |a|);
  }

  lemma FrontHasNoM(r: Route)
    requires CleanRoute(r)
    ensures 'm' !in Front(r)
    ensures r.metric.Some? ==> 'm' !in r.metric.value
  {
  }

  /** The shell splits off the metric ... */
  lemma ShellMetric(r: Route)
    requires CleanRoute(r)
    ensures var v := Render(r);
      && BeforeLast(v, 'm') == Front(r)
      && (if AfterLast(v, 'm') == v then "" else AfterLast(v, 'm')) == AsShell(r).metric
  {
    FrontHasNoM(r);
    if r.metric.Some? {
      assert Render(r) == Front(r) + ['m'] + r.metric.value;
      CutLast(Front(r), 'm', r.metric.value);
    } else {
      assert Render(r) == Front(r);
      NoIndex(Front(r), 'm');
    }
  }

  /** ... and then the gateway. */
  lemma ShellGateway(r: Route)
    requires CleanRoute(r)
    ensures var f := Front(r);
      && BeforeLast(f, '=') == r.ip
      && (if AfterLast(f, '=') == f then "" else AfterLast(f, '=')) == AsShell(r).gw
  {
    if r.gw.Some? {
      assert Front(r) == r.ip + ['='] + r.gw.value;
      CutLast(r.ip, '=', r.gw.value);
    } else {
      NoIndex(r.ip, '=');
    }
  }

  lemma {:induction false} WholeWord(v: string)
    requires forall c <- v :: !IsIfs(c)
    ensures RestOfWord(v) == v && FirstWord(v) == v
  {
    if v != "" {
      assert v[0] in v && forall c <- v[1..] :: c in v;
      WholeWord(v[1..]);
    }
  }

  lemma RenderIsWord(r: Route)
    requires CleanRoute(r)
    ensures forall c <- Render(r) :: !IsIfs(c)
    ensures ' ' !in AsShell(r).ip && ' ' !in AsShell(r).gw && ' ' !in AsShell(r).metric
  {
    assert r.metric.Some? ==> forall c <- r.metric.value :: IsDigit(c);
  }

  /** awk gets the three parts back from the line, empty ones too. */
  lemma FieldsOfLine(a: string, b: string, c: string)
    requires ' ' !in a && ' ' !in b && ' ' !in c
    ensures var line := a + " " + b + " " + c;
      AwkField(line, 0) == a && AwkField(line, 1) == b && AwkField(line, 2) == c
  {
    var rest := b + [' '] + c;
    assert a + " " + b + " " + c == a + [' '] + rest;
    CutFirst(a, ' ', rest);
    SplitTwo(b, ' ', c);
    assert Split(a + [' '] + rest, ' ') == [a] + [b, c];
  }

  lemma ShellRecovers(r: Route)
    requires CleanRoute(r)
    ensures ParseShell(Render(r)) == AsShell(r)
  {
    hide CleanRoute, Clean, Split, BeforeLast, AfterLast, Render, Front, FirstWord, AwkField;
    var p := AsShell(r);
    RenderIsWord(r);
    WholeWord(Render(r));
    ShellMetric(r);
    ShellGateway(r);
    FieldsOfLine(p.ip, p.gw, p.metric);
  }

  lemma SplitOne(a: string, c: char)
    requires c !in a
    ensures Split(a, c) == [a]
  {
    NoIndex(a, c);
  }

  lemma SplitTwo(a: string, c: char, b: string)
    requires c !in a && c !in b
    ensures Split(a + [c] + b, c) == [a, b]
  {
    CutFirst(a, c, b);
    SplitOne(b, c);
  }

  lemma RenderIsWhole(r: Route)
    requires CleanRoute(r)
    ensures Render(r) != "" && forall c <- Render(r) :: !White(c)
  {
    assert r.metric.Some? ==> forall c <- r.metric.value :: IsDigit(c);
  }

  lemma NothingToStrip(r: Route)
    requires CleanRoute(r)
    ensures PyStrip(Render(r)) == Render(r)
  {
    hide Render, CleanRoute;
    var v := Render(r);
    RenderIsWhole(r);
    assert v[0] in v && v[|v| - 1] in v;
  }

  lemma PythonMetric(r: Route)
    requires CleanRoute(r)
    ensures Split(Render(r), 'm') == [Front(r)] + if r.metric.Some? then [r.metric.value] else []
  {
    FrontHasNoM(r);
    if r.metric.Some? {
      assert Render(r) == Front(r) + ['m'] + r.metric.value;
      SplitTwo(Front(r), 'm', r.metric.value);
    } else {
      assert Render(r) == Front(r);
      SplitOne(Front(r), 'm');
    }
  }

  lemma PythonGateway(r: Route)
    requires CleanRoute(r)
    ensures Split(Front(r), '=') == [r.ip] + if r.gw.Some? then [r.gw.value] else []
  {
    if r.gw.Some? {
      assert Front(r) == r.ip + ['='] + r.gw.value;
      SplitTwo(r.ip, '=', r.gw.value);
    } else {
      SplitOne(r.ip, '=');
    }
  }

  lemma PythonRecovers(r: Route)
    requires CleanRoute(r)
    ensures ParsePython(Render(r)) == AsPython(r)
  {
    hide CleanRoute, Clean, Split, PyStrip, Render, Front;
    NothingToStrip(r);
    PythonMetric(r);
    PythonGateway(r);
  }

  lemma CRecovers(r: Route)
    requires CleanRoute(r)
    ensures ParseC(Render(r)) == r <==> (r.metric.Some? ==> r.gw.Some?)
  {
    var v := Render(r);
    if r.gw.Some? {
      var g := r.gw.value + if r.metric.Some? then "m" + r.metric.value else "";
      assert v == r.ip + ['='] + g;
      CutFirst(r.ip, '=', g);
      if r.metric.Some? {
        assert g == r.gw.value + ['m'] + r.metric.value;
        CutFirst(r.gw.value, 'm', r.metric.value);
      } else {
        assert g == r.gw.value;
        NoIndex(g, 'm');
      }
    } else {
      NoIndex(v, '=');
      assert r.metric.None? ==> v == r.ip;
    }
  }

  /** For example, the metric becomes part of the address. */
  lemma MetricAloneIsKept()
    ensures ParseC(Render(Route("10.0.0.0", None, Some("5")))) == Route("10.0.0.0m5", None, None)
  {
    assert Render(Route("10.0.0.0", None, Some("5"))) == "10.0.0.0m5";
    NoIndex("10.0.0.0m5", '=');
  }

  /** Over every route with clean parts the shell and Python parsers invert rendering, and the C
      parser does so exactly when no metric is given without a gateway. */
  lemma ParsersAgree(r: Route)
    requires CleanRoute(r)
    ensures ParseShell(Render(r)) == AsShell(r)
    ensures ParsePython(Render(r)) == AsPython(r)
    ensures ParseC(Render(r)) == r <==> (r.metric.Some? ==> r.gw.Some?)
  {
    ShellRecovers(r);
    PythonRecovers(r);
    CRecovers(r);
  }

  /** A metric written in decimal reaches the netplan file as the same number. */
  lemma MetricNumber(ip: string, gw: Option<string>, n: nat)
    requires Clean(ip) && (gw.Some? ==> Clean(gw.value))
    ensures var py := ParsePython(Render(Route(ip, gw, Some(Decimal(n)))));
      py.metric.Some? && (forall i :: 0 <= i < |py.metric.value| ==> IsDigit(py.metric.value[i]))
      && Number(py.metric.value) == n
  {
    PythonRecovers(Route(ip, gw, Some(Decimal(n))));
    NumberOfDecimal(n);
  }

  // ---- around the route ---------------------------------------------------

  lemma {:induction false} FirstWordBehind(p: string, v: string, rest: string)
    requires forall i :: 0 <= i < |p| ==> p[i] in {' ', '\t', '\n'}
    requires v != "" && (forall c <- v :: !White(c)) && (rest == "" || rest[0] in {' ', '\t', '\n'})
    ensures FirstWord(p + v + rest) == v
  {
    if p == "" {
      assert p + v + rest == [v[0]] + (v[1..] + rest) && v[0] in v;
      WordEnds(v[1..], rest);
    } else {
      assert (p + v + rest)[1..] == p[1..] + v + rest;
      FirstWordBehind(p[1..], v, rest);
    }
  }

  lemma {:induction false} WordEnds(v: string, rest: string)
    requires (forall c <- v :: !White(c)) && (rest == "" || rest[0] in {' ', '\t', '\n'})
    ensures RestOfWord(v + rest) == v
  {
    if v == "" {
      assert v + rest == rest;
    } else {
      assert v[0] in v && (v + rest)[1..] == v[1..] + rest;
      WordEnds(v[1..], rest);
    }
  }

  /** The shell functions skip blanks, tabs and newlines in front of a route and whatever stands behind
      the next. */
  lemma ShellRecoversPadded(p: string, r: Route, rest: string)
    requires CleanRoute(r) && forall i :: 0 <= i < |p| ==> p[i] in {' ', '\t', '\n'}
    requires rest == "" || rest[0] in {' ', '\t', '\n'}
    ensures ParseShell(p + Render(r) + rest) == AsShell(r)
  {
    hide Clean, Split, BeforeLast, AfterLast, Front, FirstWord, AwkField, SplitRoute;
    RenderIsWhole(r);
    FirstWordBehind(p, Render(r), rest);
    FirstWordBehind("", Render(r), "");
    assert "" + Render(r) + "" == Render(r);
    ShellRecovers(r);
  }

  lemma {:induction false} StripBehind(v: string, q: string)
    requires (forall i :: 0 <= i < |q| ==> White(q[i])) && v != "" && !White(v[0]) && !White(v[|v| - 1])
    ensures PyStrip(v + q) == v
  {
    if q == "" {
      assert v + q == v;
    } else {
      assert (v + q)[..|v + q| - 1] == v + q[..|q| - 1];
      StripBehind(v, q[..|q| - 1]);
    }
  }

  lemma {:induction false} StripAround(p: string, v: string, q: string)
    requires (forall i :: 0 <= i < |p| ==> White(p[i])) && forall i :: 0 <= i < |q| ==> White(q[i])
    requires v != "" && !White(v[0]) && !White(v[|v| - 1])
    ensures PyStrip(p + v + q) == v
  {
    if p == "" {
      assert p + v + q == v + q;
      StripBehind(v, q);
    } else {
      assert (p + v + q)[1..] == p[1..] + v + q;
      StripAround(p[1..], v, q);
    }
  }

  /** The netplan script ignores white space around a route. */
  lemma PythonRecoversPadded(p: string, r: Route, q: string)
    requires CleanRoute(r)
    requires (forall i :: 0 <= i < |p| ==> White(p[i])) && forall i :: 0 <= i < |q| ==> White(q[i])
    ensures ParsePython(p + Render(r) + q) == AsPython(r)
  {
    hide Clean, CleanRoute, Split, PyStrip, Render, White;
    var v := Render(r);
    RenderIsWhole(r);
    assert v[0] in v && v[|v| - 1] in v;
    StripAround(p, v, q);
    StripAround("", v, "");
    assert "" + v + "" == v;
    PythonRecovers(r);
  }

  // ---- repeated separators ------------------------------------------------

  lemma SplitThree(a: string, c: char, b: string, d: string)
    requires c !in a && c !in b && c !in d
    ensures Split(a + [c] + (b + [c] + d), c) == [a, b, d]
  {
    CutFirst(a, c, b + [c] + d);
    SplitTwo(b, c, d);
  }

  /** Of two metrics, the C code takes everything behind the first 'm' for the metric, the shell functions
      take the first metric for a part of the gateway, and the netplan script drops both. */
  lemma TwoMetrics(ip: string, g: string, a: string, b: string)
    requires Clean(ip) && Clean(g) && Clean(a) && Clean(b)
    ensures var v := ip + ['='] + (g + ['m'] + (a + ['m'] + b));
      && ParseC(v) == Route(ip, Some(g), Some(a + ['m'] + b))
      && ParseShell(v) == ShellRoute(ip, g + ['m'] + a, b)
      && ParsePython(v) == PyRoute(ip, g, None)
  {
    hide *;
    TwoMetricsC(ip, g, a, b);
    TwoMetricsShell(ip, g, a, b);
    TwoMetricsPython(ip, g, a, b);
  }

  lemma CleanParts(s: string)
    requires Clean(s)
    ensures s != "" && '=' !in s && 'm' !in s && ' ' !in s && '\t' !in s && '\n' !in s
    ensures !White(s[0]) && !White(s[|s| - 1]) && WhiteFree(s)
  {
  }

  predicate WhiteFree(s: string) {
    forall c <- s :: !White(c)
  }

  lemma WhiteFreeJoined(a: string, c: char, b: string)
    requires WhiteFree(a) && WhiteFree(b) && (c == 'm' || c == '=')
    ensures WhiteFree(a + [c] + b)
  {
  }

  lemma TwoMetricsC(ip: string, g: string, a: string, b: string)
    requires Clean(ip) && Clean(g) && Clean(a) && Clean(b)
    ensures ParseC(ip + ['='] + (g + ['m'] + (a + ['m'] + b))) == Route(ip, Some(g), Some(a + ['m'] + b))
  {
    hide White;
    CutFirst(ip, '=', g + ['m'] + (a + ['m'] + b));
    CutFirst(g, 'm', a + ['m'] + b);
  }

  lemma TwoMetricsShell(ip: string, g: string, a: string, b: string)
    requires Clean(ip) && Clean(g) && Clean(a) && Clean(b)
    ensures ParseShell(ip + ['='] + (g + ['m'] + (a + ['m'] + b))) == ShellRoute(ip, g + ['m'] + a, b)
  {
    hide Split, LastIndexOf, FirstWord, AfterLast, BeforeLast, Clean, AwkField, White;
    var v, f := ip + ['='] + (g + ['m'] + (a + ['m'] + b)), ip + ['='] + (g + ['m'] + a);
    CleanParts(ip);
    CleanParts(g);
    CleanParts(a);
    CleanParts(b);
    WhiteFreeJoined(a, 'm', b);
    WhiteFreeJoined(g, 'm', a + ['m'] + b);
    WhiteFreeJoined(ip, '=', g + ['m'] + (a + ['m'] + b));
    FirstWordBehind("", v, "");
    assert "" + v + "" == v;
    assert v == f + ['m'] + b;
    CutLast(f, 'm', b);
    CutLast(ip, '=', g + ['m'] + a);
    assert |b| < |v| && |g + ['m'] + a| < |f|;
    FieldsOfLine(ip, g + ['m'] + a, b);
  }

  lemma TwoMetricsPython(ip: string, g: string, a: string, b: string)
    requires Clean(ip) && Clean(g) && Clean(a) && Clean(b)
    ensures ParsePython(ip + ['='] + (g + ['m'] + (a + ['m'] + b))) == PyRoute(ip, g, None)
  {
    hide Split, Clean, PyStrip, White;
    var f := ip + ['='] + g;
    var v := ip + ['='] + (g + ['m'] + (a + ['m'] + b));
    CleanParts(ip);
    CleanParts(g);
    CleanParts(a);
    CleanParts(b);
    assert v == f + ['m'] + (a + ['m'] + b);
    assert v[0] == ip[0] && v[|v| - 1] == b[|b| - 1];
    StripAround("", v, "");
    assert "" + v + "" == v;
    SplitThree(f, 'm', a, b);
    SplitTwo(ip, '=', g);
  }

  /** Of two gateways, the C code takes both for one, the shell functions take the first for a part of the
      address, and the netplan script drops both. */
  lemma TwoGateways(ip: string, g: string, h: string)
    requires Clean(ip) && Clean(g) && Clean(h)
    ensures var v := ip + ['='] + (g + ['='] + h);
      && ParseC(v) == Route(ip, Some(g + ['='] + h), None)
      && ParseShell(v) == ShellRoute(ip + ['='] + g, h, "")
      && ParsePython(v) == PyRoute(ip, "0.0.0.0", None)
  {
    hide *;
    TwoGatewaysC(ip, g, h);
    TwoGatewaysShell(ip, g, h);
    TwoGatewaysPython(ip, g, h);
  }

  lemma TwoGatewaysC(ip: string, g: string, h: string)
    requires Clean(ip) && Clean(g) && Clean(h)
    ensures ParseC(ip + ['='] + (g + ['='] + h)) == Route(ip, Some(g + ['='] + h), None)
  {
    hide White;
    CutFirst(ip, '=', g + ['='] + h);
    NoIndex(g + ['='] + h, 'm');
  }

  lemma TwoGatewaysShell(ip: string, g: string, h: string)
    requires Clean(ip) && Clean(g) && Clean(h)
    ensures ParseShell(ip + ['='] + (g + ['='] + h)) == ShellRoute(ip + ['='] + g, h, "")
  {
    hide Split, LastIndexOf, FirstWord, AfterLast, BeforeLast, Clean, AwkField, White;
    var v, f := ip + ['='] + (g + ['='] + h), ip + ['='] + g;
    CleanParts(ip);
    CleanParts(g);
    CleanParts(h);
    WhiteFreeJoined(g, '=', h);
    WhiteFreeJoined(ip, '=', g + ['='] + h);
    FirstWordBehind("", v, "");
    assert "" + v + "" == v;
    NoIndex(v, 'm');
    assert v == f + ['='] + h && |h| < |v|;
    CutLast(f, '=', h);
    FieldsOfLine(f, h, "");
  }

  lemma TwoGatewaysPython(ip: string, g: string, h: string)
    requires Clean(ip) && Clean(g) && Clean(h)
    ensures ParsePython(ip + ['='] + (g + ['='] + h)) == PyRoute(ip, "0.0.0.0", None)
  {
    hide Split, Clean, PyStrip, White;
    var v := ip + ['='] + (g + ['='] + h);
    CleanParts(ip);
    CleanParts(g);
    CleanParts(h);
    assert v[0] == ip[0] && v[|v| - 1] == h[|h| - 1];
    StripAround("", v, "");
    assert "" + v + "" == v;
    SplitOne(v, 'm');
    SplitThree(ip, '=', g, h);
  }
}
