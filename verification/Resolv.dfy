/** resolv.conf as a list of lines: what the scans see in a line, the two setters and the getters,
    and the text they are read from and written to (BSD/resolvconf.c). */
module Resolv {
  import opened Text
  import opened Errno

  const INET6_ADDRSTRLEN := 46
  const MAX_SEARCH_LIST_LEN := 256
  const MAX_LINES := 256

  // ---- scanning a line ----------------------------------------------------

  /** `isspace` */
  predicate IsWs(c: char) {
    c == ' ' || (9 as char <= c <= 13 as char)
  }

  function SkipWs(s: string): string {
    if s != "" && IsWs(s[0]) then SkipWs(s[1..]) else s
  }

  /** `" word "` at the start of a scan: white space, the word, white space. */
  function Behind(s: string, word: string): Option<string> {
    var t := SkipWs(s);
    if word <= t then Some(SkipWs(t[|word|..])) else None
  }

  /** The longest prefix of at most `max` characters without white space. */
  function TakeWord(s: string, max: nat): string {
    if max == 0 || s == "" || IsWs(s[0]) then "" else [s[0]] + TakeWord(s[1..], max - 1)
  }

  /** `sscanf(line, " nameserver %46s", buf)` */
  function ScanDns(line: string): Option<string> {
    match Behind(line, "nameserver")
    case None => None
    case Some(r) => var w := TakeWord(r, INET6_ADDRSTRLEN); if w == "" then None else Some(w)
  }

  /** `sscanf(line, " search %[^\n]s", buf)` */
  function ScanSearch(line: string): Option<string> {
    match Behind(line, "search")
    case None => None
    case Some(r) => var w := r[..IndexOf(r, '\n')]; if w == "" then None else Some(w)
  }

  function DnsLine(dns: string): string {
    "nameserver " + dns + "\n"
  }

  function SearchLine(list: string): string {
    "search " + list + "\n"
  }

  // ---- getters ------------------------------------------------------------

  /** What `resolvconf_dns_foreach` enumerates. */
  function Nameservers(lines: seq<string>): seq<string> {
    if lines == [] then [] else
      (match ScanDns(lines[0]) case None => [] case Some(d) => [d]) + Nameservers(lines[1..])
  }

  /** `resolvconf_get_search_list` */
  function SearchList(lines: seq<string>): Option<string> {
    if lines == [] then None
    else if ScanSearch(lines[0]).Some? then ScanSearch(lines[0])
    else SearchList(lines[1..])
  }

  // ---- setters ------------------------------------------------------------

  datatype Found = Present | TooMany | Absent

  /** The loop of `resolvconf_set_namserver` behind `i` lines; the limit is looked at only on
      nameserver lines. */
  function FindDns(lines: seq<string>, dns: string, i: nat): Found {
    if lines == [] then Absent
    else match ScanDns(lines[0])
      case None => FindDns(lines[1..], dns, i + 1)
      case Some(d) =>
        if d == dns then Present
        else if i + 1 >= MAX_LINES then TooMany
        else FindDns(lines[1..], dns, i + 1)
  }

  datatype Edited = Edited(res: int, lines: seq<string>)

  /** `resolvconf_set_namserver` */
  function SetDns(lines: seq<string>, dns: string): Edited {
    if |dns| > INET6_ADDRSTRLEN then Edited(-EINVAL, lines)
    else match FindDns(lines, dns, 0)
      case Present => Edited(0, lines)
      case TooMany => Edited(-ERANGE, lines)
      case Absent => Edited(0, lines + [DnsLine(dns)])
  }

  /** The index of the first search line, or the number of lines. */
  function FindSearch(lines: seq<string>): (k: nat)
    ensures k <= |lines|
    ensures k < |lines| ==> ScanSearch(lines[k]).Some?
  {
    if lines == [] || ScanSearch(lines[0]).Some? then 0 else 1 + FindSearch(lines[1..])
  }

  /** `resolvconf_set_search_list` */
  function SetSearch(lines: seq<string>, list: string): Edited {
    if |list| >= MAX_SEARCH_LIST_LEN then Edited(-EINVAL, lines)
    else
      var k := FindSearch(lines);
      Edited(0, if k < |lines| then lines[k := SearchLine(list)] else lines + [SearchLine(list)])
  }

  // ---- scanning what is written -------------------------------------------

  /** A nameserver that a scan returns as it was written. */
  predicate CleanDns(dns: string) {
    dns != "" && |dns| <= INET6_ADDRSTRLEN && forall i :: 0 <= i < |dns| ==> !IsWs(dns[i])
  }

  predicate CleanList(list: string) {
    list != "" && !IsWs(list[0]) && '\n' !in list
  }

  lemma {:induction false} TakeWordIs(w: string, rest: string, max: nat)
    requires |w| <= max && (forall i :: 0 <= i < |w| ==> !IsWs(w[i])) && rest != "" && IsWs(rest[0])
    ensures TakeWord(w + rest, max) == w
  {
    if w == "" {
      assert w + rest == rest;
    } else {
      TailAppend(w, rest);
      TakeWordIs(w[1..], rest, max - 1);
    }
  }

  lemma BehindWord(word: string, rest: string)
    requires word != "" && !IsWs(word[0]) && rest != "" && !IsWs(rest[0])
    ensures Behind(word + " " + rest, word) == Some(rest)
  {
    var s := word + " " + rest;
    assert s[0] == word[0] && word <= s;
    assert s[|word|..] == " " + rest && (" " + rest)[1..] == rest;
    assert SkipWs(" " + rest) == SkipWs(rest) == rest;
  }

  lemma ScanDnsLine(dns: string)
    requires CleanDns(dns)
    ensures ScanDns(DnsLine(dns)) == Some(dns)
  {
    BehindWord("nameserver", dns + "\n");
    assert DnsLine(dns) == "nameserver" + " " + (dns + "\n");
    TakeWordIs(dns, "\n", INET6_ADDRSTRLEN);
  }

  lemma ScanSearchLine(list: string)
    requires CleanList(list)
    ensures ScanSearch(SearchLine(list)) == Some(list)
  {
    var r := list + "\n";
    BehindWord("search", r);
    assert SearchLine(list) == "search" + " " + r;
    IndexOfUnique(r, '\n', |list|);
    assert r[..|list|] == list;
  }

  /** No line is both. */
  lemma DnsOrSearch(line: string)
    ensures ScanDns(line).None? || ScanSearch(line).None?
  {
    var t := SkipWs(line);
    assert "nameserver"[0] == 'n' && "search"[0] == 's';
  }

  lemma DnsLineNoSearch(dns: string)
    ensures ScanSearch(DnsLine(dns)).None?
  {
    assert DnsLine(dns)[0] == 'n' && "search"[0] == 's';
  }

  lemma SearchLineNoDns(list: string)
    ensures ScanDns(SearchLine(list)).None?
  {
    assert SearchLine(list)[0] == 's' && "nameserver"[0] == 'n';
  }

  // ---- setting and getting ------------------------------------------------

  lemma {:induction false} NameserversAppend(a: seq<string>, b: seq<string>)
    ensures Nameservers(a + b) == Nameservers(a) + Nameservers(b)
  {
    if a == [] {
      assert a + b == b;
    } else {
      TailAppend(a, b);
      NameserversAppend(a[1..], b);
    }
  }

  lemma NameserversOne(l: string)
    ensures Nameservers([l]) == match ScanDns(l) case None => [] case Some(d) => [d]
  {
    assert [l][1..] == [];
  }

  lemma {:induction false} FindDnsMeans(lines: seq<string>, dns: string, i: nat)
    ensures FindDns(lines, dns, i) == Present ==> dns in Nameservers(lines)
    ensures FindDns(lines, dns, i) == Absent ==> dns !in Nameservers(lines)
  {
    if lines != [] {
      FindDnsMeans(lines[1..], dns, i + 1);
    }
  }

  lemma {:induction false} FindDnsAppend(lines: seq<string>, l: string, dns: string, i: nat)
    ensures FindDns(lines + [l], dns, i) ==
      if FindDns(lines, dns, i) != Absent then FindDns(lines, dns, i)
      else FindDns([l], dns, i + |lines|)
  {
    if lines == [] {
      assert lines + [l] == [l];
    } else {
      TailAppend(lines, [l]);
      FindDnsAppend(lines[1..], l, dns, i + 1);
    }
  }

  /** A successful set of a clean nameserver makes it one of those enumerated, at the end if it is
      new; the others keep their order, and setting it again changes nothing. */
  lemma SetDnsThenGet(lines: seq<string>, dns: string)
    requires CleanDns(dns) && SetDns(lines, dns).res == 0
    ensures var now := SetDns(lines, dns).lines;
      && Nameservers(now) == Nameservers(lines) + (if dns in Nameservers(lines) then [] else [dns])
      && SetDns(now, dns) == Edited(0, now)
  {
    FindDnsMeans(lines, dns, 0);
    if FindDns(lines, dns, 0) == Absent {
      ScanDnsLine(dns);
      NameserversAppend(lines, [DnsLine(dns)]);
      NameserversOne(DnsLine(dns));
      FindDnsAppend(lines, DnsLine(dns), dns, 0);
    }
  }

  lemma {:induction false} SearchListAt(lines: seq<string>)
    ensures SearchList(lines) ==
      if FindSearch(lines) < |lines| then ScanSearch(lines[FindSearch(lines)]) else None
  {
    if lines != [] && ScanSearch(lines[0]).None? {
      SearchListAt(lines[1..]);
    }
  }

  lemma {:induction false} FindSearchIs(lines: seq<string>, k: nat)
    requires k <= |lines| && (k < |lines| ==> ScanSearch(lines[k]).Some?)
    requires forall i :: 0 <= i < k ==> ScanSearch(lines[i]).None?
    ensures FindSearch(lines) == k
  {
    if k > 0 {
      FindSearchIs(lines[1..], k - 1);
    }
  }

  lemma {:induction false} FindSearchFirst(lines: seq<string>)
    ensures forall i :: 0 <= i < FindSearch(lines) ==> ScanSearch(lines[i]).None?
  {
    if lines != [] && ScanSearch(lines[0]).None? {
      FindSearchFirst(lines[1..]);
    }
  }

  /** Setting a clean search list and getting it returns it; the nameservers stay as they are. */
  lemma SetSearchThenGet(lines: seq<string>, list: string)
    requires CleanList(list) && SetSearch(lines, list).res == 0
    ensures SearchList(SetSearch(lines, list).lines) == Some(list)
    ensures Nameservers(SetSearch(lines, list).lines) == Nameservers(lines)
  {
    var k, now := FindSearch(lines), SetSearch(lines, list).lines;
    FindSearchFirst(lines);
    ScanSearchLine(list);
    FindSearchIs(now, k);
    SearchListAt(now);
    SearchKeepsDns(lines, list);
  }

  lemma SearchKeepsDns(lines: seq<string>, list: string)
    requires SetSearch(lines, list).res == 0
    ensures Nameservers(SetSearch(lines, list).lines) == Nameservers(lines)
  {
    var k, l := FindSearch(lines), SearchLine(list);
    SearchLineNoDns(list);
    NameserversOne(l);
    if k < |lines| {
      var a, b := lines[..k], lines[k + 1..];
      DnsOrSearch(lines[k]);
      NameserversOne(lines[k]);
      assert lines == a + [lines[k]] + b && lines[k := l] == a + [l] + b;
      NameserversAppend(a + [lines[k]], b);
      NameserversAppend(a, [lines[k]]);
      NameserversAppend(a + [l], b);
      NameserversAppend(a, [l]);
    } else {
      NameserversAppend(lines, [l]);
    }
  }

  // ---- both setters -------------------------------------------------------

  /** The search that decides about a nameserver sees only what the lines scan to. */
  lemma {:induction false} FindDnsSame(a: seq<string>, b: seq<string>, dns: string, i: nat)
    requires |a| == |b| && forall j :: 0 <= j < |a| ==> ScanDns(a[j]) == ScanDns(b[j])
    ensures FindDns(a, dns, i) == FindDns(b, dns, i)
  {
    if a != [] {
      FindDnsSame(a[1..], b[1..], dns, i + 1);
    }
  }

  lemma SearchKeepsFindDns(lines: seq<string>, list: string, dns: string)
    requires SetSearch(lines, list).res == 0
    ensures FindDns(SetSearch(lines, list).lines, dns, 0) == FindDns(lines, dns, 0)
  {
    var k, l := FindSearch(lines), SearchLine(list);
    SearchLineNoDns(list);
    if k < |lines| {
      DnsOrSearch(lines[k]);
      FindDnsSame(lines, lines[k := l], dns, 0);
    } else {
      FindDnsAppend(lines, l, dns, 0);
    }
  }

  lemma DnsKeepsSearch(lines: seq<string>, dns: string)
    ensures SearchList(SetDns(lines, dns).lines) == SearchList(lines)
  {
    var k, now := FindSearch(lines), SetDns(lines, dns).lines;
    DnsLineNoSearch(dns);
    FindSearchFirst(lines);
    FindSearchIs(now, if k < |lines| then k else |now|);
    SearchListAt(lines);
    SearchListAt(now);
  }

  /** The two setters commute as seen by their results and by the getters, for all arguments. */
  lemma SettersCommute(lines: seq<string>, dns: string, list: string)
    ensures var d, s := SetDns(lines, dns), SetSearch(lines, list);
      var ds, sd := SetSearch(d.lines, list), SetDns(s.lines, dns);
      && ds.res == s.res && sd.res == d.res
      && Nameservers(ds.lines) == Nameservers(sd.lines)
      && SearchList(ds.lines) == SearchList(sd.lines)
  {
    var d, s := SetDns(lines, dns), SetSearch(lines, list);
    if s.res == 0 {
      SearchKeepsFindDns(lines, list, dns);
      SearchKeepsDns(lines, list);
      SearchKeepsDns(d.lines, list);
      if FindDns(lines, dns, 0) == Absent {
        NameserversAppend(lines, [DnsLine(dns)]);
        NameserversAppend(s.lines, [DnsLine(dns)]);
      }
      DnsKeepsSearch(s.lines, dns);
      SameSearch(lines, dns, list);
    }
    DnsKeepsSearch(lines, dns);
  }

  lemma SameSearch(lines: seq<string>, dns: string, list: string)
    requires |list| < MAX_SEARCH_LIST_LEN
    ensures SearchList(SetSearch(SetDns(lines, dns).lines, list).lines) == SearchList(SetSearch(lines, list).lines)
  {
    SearchAfterSet(lines, list);
    SearchAfterSet(SetDns(lines, dns).lines, list);
    DnsKeepsRest(lines, dns);
  }

  /** What a set leaves to be found: the new list, or, if it does not scan, the next search line. */
  lemma SearchAfterSet(lines: seq<string>, list: string)
    requires |list| < MAX_SEARCH_LIST_LEN
    ensures SearchList(SetSearch(lines, list).lines) ==
      if ScanSearch(SearchLine(list)).Some? then ScanSearch(SearchLine(list)) else SearchList(Rest(lines))
  {
    var k, l := FindSearch(lines), SearchLine(list);
    FindSearchFirst(lines);
    var front, back := lines[..k], Rest(lines);
    assert SetSearch(lines, list).lines == front + ([l] + back);
    SearchListSkip(front, [l] + back);
    assert ([l] + back)[1..] == back;
  }

  /** The lines behind the first search line. */
  function Rest(lines: seq<string>): seq<string> {
    var k := FindSearch(lines);
    if k < |lines| then lines[k + 1..] else []
  }

  lemma {:induction false} SearchListSkip(a: seq<string>, b: seq<string>)
    requires forall i :: 0 <= i < |a| ==> ScanSearch(a[i]).None?
    ensures SearchList(a + b) == SearchList(b)
  {
    if a == [] {
      assert a + b == b;
    } else {
      TailAppend(a, b);
      SearchListSkip(a[1..], b);
    }
  }

  lemma DnsKeepsRest(lines: seq<string>, dns: string)
    ensures SearchList(Rest(SetDns(lines, dns).lines)) == SearchList(Rest(lines))
  {
    var k, now := FindSearch(lines), SetDns(lines, dns).lines;
    DnsLineNoSearch(dns);
    FindSearchFirst(lines);
    FindSearchIs(now, if k < |lines| then k else |now|);
    if now != lines && k < |lines| {
      var rest := lines[k + 1..];
      assert now[k + 1..] == rest + [DnsLine(dns)];
      SearchListAppendNone(rest, DnsLine(dns));
    }
  }

  lemma {:induction false} SearchListAppendNone(lines: seq<string>, l: string)
    requires ScanSearch(l).None?
    ensures SearchList(lines + [l]) == SearchList(lines)
  {
    if lines == [] {
      assert lines + [l] == [l] && [l][1..] == [];
    } else {
      TailAppend(lines, [l]);
      SearchListAppendNone(lines[1..], l);
    }
  }

  // ---- files --------------------------------------------------------------

  /** The lines `resolvconf_load__` makes of a file. */
  function LoadLines(text: string): seq<string> {
    Lines(text)
  }

  /** The file `resolvconf_save__` writes. */
  function SaveText(lines: seq<string>): string {
    Concat(lines)
  }

  lemma {:induction false} ConcatLines(text: string)
    ensures Concat(Lines(text)) == text
    decreases |text|
  {
    var k := IndexOf(text, '\n');
    if k < |text| {
      ConcatLines(text[k + 1..]);
      assert text == text[..k + 1] + text[k + 1..];
    }
  }

  lemma {:induction false} TerminatedText(text: string)
    ensures Terminated(Lines(text))
    ensures forall i :: 0 <= i < |Lines(text)| - 1 ==> EndsLine(Lines(text)[i])
    ensures text != "" ==> Lines(text) != [] && (EndsLine(Lines(text)[|Lines(text)| - 1]) <==> EndsLine(text))
    decreases |text|
  {
    hide Terminated;
    var k := IndexOf(text, '\n');
    if k < |text| {
      var rest := text[k + 1..];
      TerminatedText(rest);
      TerminatedCons(text[..k + 1], Lines(rest));
    } else {
      TerminatedShort(Lines(text));
    }
  }

  lemma TerminatedShort(lines: seq<string>)
    requires |lines| <= 1
    ensures Terminated(lines)
  {
  }

  lemma TerminatedCons(l: string, rest: seq<string>)
    requires EndsLine(l) && Terminated(rest)
    requires forall i :: 0 <= i < |rest| - 1 ==> EndsLine(rest[i])
    ensures var ls := [l] + rest;
      && Terminated(ls) && (forall i :: 0 <= i < |ls| - 1 ==> EndsLine(ls[i]))
      && (rest != [] ==> ls[|ls| - 1] == rest[|rest| - 1])
  {
    var ls := [l] + rest;
    assert ls[1..] == rest;
    assert forall i :: 0 < i < |ls| ==> ls[i] == rest[i - 1];
  }

  lemma DnsLineIsLine(dns: string)
    requires CleanDns(dns)
    ensures IsLine(DnsLine(dns))
  {
    var l := DnsLine(dns);
    forall i | 0 <= i < |l| - 1
      ensures l[i] != '\n'
    {
      if i >= 11 {
        assert l[i] == dns[i - 11];
      }
    }
  }

  lemma {:induction false} AllEnd(text: string)
    ensures (forall i :: 0 <= i < |Lines(text)| ==> EndsLine(Lines(text)[i])) <==> text == "" || EndsLine(text)
  {
    TerminatedText(text);
  }

  /** Appending the line for a new nameserver and saving survives a reload exactly when the file was
      empty or ended in a newline; otherwise the new line runs into the last one. */
  lemma AppendSurvivesReload(text: string, dns: string)
    requires CleanDns(dns) && SetDns(LoadLines(text), dns).lines != LoadLines(text)
    ensures var now := SetDns(LoadLines(text), dns).lines;
      LoadLines(SaveText(now)) == now <==> text == "" || EndsLine(text)
  {
    var lines, l := Lines(text), DnsLine(dns);
    AppendedReload(lines, l, text) by {
      LinesAreLines(text);
      DnsLineIsLine(dns);
    }
  }

  /** Behind an unended last line the new line becomes its end. */
  lemma JoinedReload(lines: seq<string>, l: string, text: string)
    requires lines == Lines(text) && IsLine(l) && text != "" && !EndsLine(text)
    ensures lines != [] && '\n' !in lines[|lines| - 1]
    ensures var f := |lines| - 1; Lines(Concat(lines + [l])) == lines[..f] + [lines[f] + l]
  {
    LinesAreLines(text);
    TerminatedText(text);
    var f := |lines| - 1;
    var front, u := lines[..f], lines[f];
    assert u in lines && lines == front + [u];
    JoinedIsLine(u, l);
    ConcatJoined(front, u, l);
    hide Lines, Concat, EndsLine;
    AllLinesThenOne(front, u + l, lines);
    TerminatedAppend(front, u + l);
    LinesConcat(front + [u + l]);
  }

  lemma ConcatJoined(front: seq<string>, u: string, l: string)
    ensures Concat(front + [u] + [l]) == Concat(front + [u + l])
  {
    ConcatAppend(front + [u], [l]);
    ConcatAppend(front, [u]);
    ConcatAppend(front, [u + l]);
    ConcatOne(u);
    ConcatOne(l);
    ConcatOne(u + l);
    Associative(Concat(front), u, l);
  }

  lemma ConcatOne(l: string)
    ensures Concat([l]) == l
  {
    assert [l][1..] == [] && l + "" == l;
  }

  lemma JoinedIsLine(u: string, l: string)
    requires IsLine(u) && !EndsLine(u) && IsLine(l)
    ensures IsLine(u + l) && '\n' !in u
  {
    assert forall i :: 0 <= i < |u| ==> u[i] != '\n';
  }

  lemma AllLinesThenOne(front: seq<string>, l: string, lines: seq<string>)
    requires front <= lines && IsLine(l) && forall x <- lines :: IsLine(x)
    ensures forall i :: 0 <= i < |front + [l]| ==> IsLine((front + [l])[i])
  {
    assert forall i :: 0 <= i < |front| ==> front[i] == lines[i] && lines[i] in lines;
  }

  lemma {:induction false} SkipWsAppend(u: string, l: string)
    requires l != "" && !IsWs(l[0])
    ensures SkipWs(u + l) == SkipWs(u) + l
  {
    if u == "" {
      assert u + l == l;
    } else if IsWs(u[0]) {
      TailAppend(u, l);
      SkipWsAppend(u[1..], l);
    }
  }

  lemma {:induction false} SkipWsFirst(s: string)
    ensures SkipWs(s) != "" ==> !IsWs(SkipWs(s)[0])
  {
    if s != "" && IsWs(s[0]) {
      SkipWsFirst(s[1..]);
    }
  }

  /** No end of the word is its beginning, so it does not begin inside a part of itself. */
  lemma WordNotSplit(v: string, rest: string)
    requires v != "" && rest != "" && rest[0] == 'n' && !("nameserver" <= v)
    ensures !("nameserver" <= v + rest)
  {
    var w, t := "nameserver", v + rest;
    if |v| >= |w| {
      assert v[..|w|] == t[..|w|];
    } else {
      assert t[|v|] == 'n' && w[|v|] != 'n';
    }
  }

  lemma BehindJoined(u: string, l: string)
    requires l != "" && l[0] == 'n' && SkipWs(u) != ""
    ensures Behind(u + l, "nameserver") ==
      match Behind(u, "nameserver") case None => None case Some(r) => Some(r + l)
  {
    var v, w := SkipWs(u), |"nameserver"|;
    SkipWsAppend(u, l);
    if "nameserver" <= v {
      assert (v + l)[w..] == v[w..] + l;
      SkipWsAppend(v[w..], l);
    } else {
      WordNotSplit(v, l);
    }
  }

  lemma BehindFirst(s: string, word: string)
    ensures var r := Behind(s, word); r.Some? && r.value != "" ==> !IsWs(r.value[0])
  {
    var t := SkipWs(s);
    if word <= t {
      SkipWsFirst(t[|word|..]);
    }
  }

  lemma BlankJoined(u: string, dns: string)
    requires CleanDns(dns) && SkipWs(u) == ""
    ensures ScanDns(u) == None && ScanDns(u + DnsLine(dns)) == Some(dns)
  {
    var l := DnsLine(dns);
    SkipWsAppend(u, l);
    assert SkipWs(u) + l == l && SkipWs(l) == l;
    ScanDnsLine(dns);
  }

  lemma WordJoined(dns: string)
    requires CleanDns(dns)
    ensures TakeWord(DnsLine(dns), INET6_ADDRSTRLEN) == "nameserver"
  {
    assert DnsLine(dns) == "nameserver" + (" " + dns + "\n");
    TakeWordIs("nameserver", " " + dns + "\n", INET6_ADDRSTRLEN);
  }

  /** What the scan finds in an unended line `u` with the new line behind it. */
  lemma ScanJoined(u: string, dns: string)
    requires CleanDns(dns)
    ensures var r, now := Behind(u, "nameserver"), ScanDns(u + DnsLine(dns));
      if SkipWs(u) == "" then ScanDns(u) == None && now == Some(dns)
      else if r == None then ScanDns(u) == None && now == None
      else if r == Some("") then ScanDns(u) == None && now == Some("nameserver")
      else ScanDns(u).Some?
  {
    hide Behind, DnsLine, SkipWs;
    var l, r := DnsLine(dns), Behind(u, "nameserver");
    if SkipWs(u) == "" {
      BlankJoined(u, dns);
    } else {
      DnsLineStart(dns);
      BehindJoined(u, l);
      BehindFirst(u, "nameserver");
      WordJoined(dns);
      assert r == Some("") ==> r.value + l == l;
    }
  }

  lemma DnsLineStart(dns: string)
    ensures DnsLine(dns) != "" && DnsLine(dns)[0] == 'n'
  {
  }

  /** An unended last line of white space does no harm, and neither does the bare word in front of a
      nameserver of that name. */
  predicate Harmless(u: string, dns: string) {
    SkipWs(u) == "" || (Behind(u, "nameserver") == Some("") && dns == "nameserver")
  }

  lemma ListedJoined(u: string, dns: string)
    requires CleanDns(dns)
    ensures Nameservers([u + DnsLine(dns)]) == Nameservers([u]) + [dns] <==> Harmless(u, dns)
  {
    hide Behind, DnsLine, ScanDns, Nameservers;
    ScanJoined(u, dns);
    NameserversOne(u + DnsLine(dns));
    NameserversOne(u);
    assert |Nameservers([u]) + [dns]| == |Nameservers([u])| + 1;
    assert Nameservers([u]) == [] ==> Nameservers([u]) + [dns] == [dns];
    assert Behind(u, "nameserver") == Some("") ==> SkipWs(u) != "" by {
      BehindSome(u);
    }
  }

  lemma BehindSome(u: string)
    ensures Behind(u, "nameserver").Some? ==> SkipWs(u) != ""
  {
  }

  lemma SameBehind<T>(front: seq<T>, a: seq<T>, b: seq<T>)
    ensures front + a == front + b <==> a == b
  {
    if front + a == front + b {
      assert a == (front + a)[|front|..] == (front + b)[|front|..] == b;
    }
  }

  /** A nameserver that was appended is enumerated behind the old ones after a save and a load exactly
      when the file was empty, ended in a newline, or has a harmless last line. */
  lemma AppendIsListed(text: string, dns: string)
    requires CleanDns(dns) && SetDns(LoadLines(text), dns).lines != LoadLines(text)
    ensures var lines, now := LoadLines(text), SetDns(LoadLines(text), dns).lines;
      Nameservers(LoadLines(SaveText(now))) == Nameservers(lines) + [dns] <==>
        text == "" || EndsLine(text) || (lines != [] && Harmless(lines[|lines| - 1], dns))
  {
    var lines, l := Lines(text), DnsLine(dns);
    hide Nameservers, Harmless;
    if text == "" || EndsLine(text) {
      AppendSurvivesReload(text, dns);
      ScanDnsLine(dns);
      NameserversAppend(lines, [l]);
      NameserversOne(l);
    } else {
      DnsLineIsLine(dns);
      JoinedReload(lines, l, text);
      var front, u := lines[..|lines| - 1], lines[|lines| - 1];
      assert lines == front + [u];
      NameserversAppend(front, [u + l]);
      NameserversAppend(front, [u]);
      ListedJoined(u, dns);
      Associative(Nameservers(front), Nameservers([u]), [dns]);
      SameBehind(Nameservers(front), Nameservers([u + l]), Nameservers([u]) + [dns]);
    }
  }

  lemma {:induction false} TakeWordCut(w: string, rest: string, max: nat)
    requires (forall i :: 0 <= i < |w| ==> !IsWs(w[i])) && rest != "" && IsWs(rest[0])
    ensures TakeWord(w + rest, max) == w[..Min(|w|, max)]
  {
    if w == "" {
      assert w + rest == rest;
    } else if max > 0 {
      TailAppend(w, rest);
      TakeWordCut(w[1..], rest, max - 1);
      assert w[..Min(|w|, max)] == [w[0]] + w[1..][..Min(|w| - 1, max - 1)];
    }
  }

  /** A nameserver on an unended line makes one name with the word of the new line, and is lost unless it
      is as long as a scan goes. */
  lemma UnendedNameserverIsLost(text: string, given: string, dns: string)
    requires CleanDns(dns) && CleanDns(given) && SetDns(LoadLines(text), dns).lines != LoadLines(text)
    requires LoadLines(text) != [] && LoadLines(text)[|LoadLines(text)| - 1] == "nameserver " + given
    ensures var lines, now, both := LoadLines(text), SetDns(LoadLines(text), dns).lines, given + "nameserver";
      && Nameservers(lines) == Nameservers(lines[..|lines| - 1]) + [given]
      && Nameservers(LoadLines(SaveText(now))) ==
           Nameservers(lines[..|lines| - 1]) + [both[..Min(|both|, INET6_ADDRSTRLEN)]]
      && (both[..Min(|both|, INET6_ADDRSTRLEN)] == given <==> |given| == INET6_ADDRSTRLEN)
  {
    hide Nameservers, Lines, Concat, TakeWord;
    var lines, l := Lines(text), DnsLine(dns);
    var front, u := lines[..|lines| - 1], lines[|lines| - 1];
    UnendedText(text, given);
    DnsLineIsLine(dns);
    JoinedReload(lines, l, text);
    assert lines == front + [u];
    NameserversAppend(front, [u + l]);
    NameserversAppend(front, [u]);
    NameserversOne(u);
    NameserversOne(u + l);
    ScanUnended(given);
    ScanBoth(given, dns);
    BothIsLonger(given);
  }

  lemma UnendedText(text: string, given: string)
    requires CleanDns(given) && Lines(text) != [] && Lines(text)[|Lines(text)| - 1] == "nameserver " + given
    ensures text != "" && !EndsLine(text)
  {
    var u := "nameserver " + given;
    TerminatedText(text);
    assert u[|u| - 1] == given[|given| - 1];
  }

  lemma BothIsLonger(given: string)
    requires |given| <= INET6_ADDRSTRLEN
    ensures var both := given + "nameserver";
      both[..Min(|both|, INET6_ADDRSTRLEN)] == given <==> |given| == INET6_ADDRSTRLEN
  {
    var both := given + "nameserver";
    if |given| == INET6_ADDRSTRLEN {
      assert both[..|given|] == given;
    }
  }

  lemma {:induction false} TakeAll(w: string, max: nat)
    requires |w| <= max && forall i :: 0 <= i < |w| ==> !IsWs(w[i])
    ensures TakeWord(w, max) == w
  {
    if w != "" {
      TakeAll(w[1..], max - 1);
    }
  }

  lemma ScanUnended(d: string)
    requires CleanDns(d)
    ensures ScanDns("nameserver " + d) == Some(d)
  {
    BehindWord("nameserver", d);
    assert "nameserver " + d == "nameserver" + " " + d;
    TakeAll(d, INET6_ADDRSTRLEN);
  }

  lemma ScanBoth(d: string, dns: string)
    requires CleanDns(d) && CleanDns(dns)
    ensures var both := d + "nameserver";
      ScanDns("nameserver " + d + DnsLine(dns)) == Some(both[..Min(|both|, INET6_ADDRSTRLEN)])
  {
    var both, rest := d + "nameserver", " " + dns + "\n";
    assert "nameserver " + d + DnsLine(dns) == "nameserver" + " " + (both + rest);
    BehindWord("nameserver", both + rest);
    TakeWordCut(both, rest, INET6_ADDRSTRLEN);
  }

  /** For example, a nameserver added to a file whose only line lacks its newline. */
  lemma UnendedLineIsJoined()
    ensures SetDns(LoadLines("# dns"), "10.0.0.1").res == 0
    ensures Nameservers(LoadLines(SaveText(SetDns(LoadLines("# dns"), "10.0.0.1").lines))) == []
  {
    var u, l := "# dns", DnsLine("10.0.0.1");
    assert LoadLines(u) == [u] && SkipWs(u) == u;
    DnsLineIsLine("10.0.0.1");
    JoinedReload([u], l, u);
    assert [u][..0] + [u + l] == [u + l];
    ScanJoined(u, "10.0.0.1");
    NameserversOne(u + l);
  }

  /** A new search list survives a reload exactly when it took the place of an old one or, appended,
      has a file in front of it that was empty or ended in a newline. */
  lemma SearchSurvivesReload(text: string, list: string)
    requires '\n' !in list && |list| < MAX_SEARCH_LIST_LEN
    ensures var lines, now := LoadLines(text), SetSearch(LoadLines(text), list).lines;
      LoadLines(SaveText(now)) == now <==> FindSearch(lines) < |lines| || text == "" || EndsLine(text)
  {
    var lines, l := Lines(text), SearchLine(list);
    var k := FindSearch(lines);
    LinesAreLines(text);
    SearchLineIsLine(list);
    if k < |lines| {
      ReplacedReload(lines, k, l, text);
    } else {
      AppendedReload(lines, l, text);
    }
  }

  lemma SearchLineIsLine(list: string)
    requires '\n' !in list
    ensures IsLine(SearchLine(list)) && EndsLine(SearchLine(list))
  {
    var l := SearchLine(list);
    forall i | 0 <= i < |l| - 1
      ensures l[i] != '\n'
    {
      if i >= 7 {
        assert l[i] == list[i - 7];
      }
    }
  }

  lemma ReplacedReload(lines: seq<string>, k: nat, l: string, text: string)
    requires lines == Lines(text) && k < |lines| && IsLine(l) && EndsLine(l) && forall x <- lines :: IsLine(x)
    ensures Lines(Concat(lines[k := l])) == lines[k := l]
  {
    TerminatedText(text);
    TerminatedMeans(lines);
    TerminatedMeans(lines[k := l]);
    LinesConcat(lines[k := l]);
  }

  lemma {:induction false} TerminatedMeans(lines: seq<string>)
    ensures Terminated(lines) <==> forall i :: 0 <= i < |lines| - 1 ==> EndsLine(lines[i])
  {
    if |lines| > 1 {
      TerminatedMeans(lines[1..]);
      assert forall i :: 0 < i < |lines| ==> lines[i] == lines[1..][i - 1];
    }
  }

  lemma AppendedReload(lines: seq<string>, l: string, text: string)
    requires lines == Lines(text) && IsLine(l) && forall x <- lines :: IsLine(x)
    ensures Lines(Concat(lines + [l])) == lines + [l] <==> text == "" || EndsLine(text)
  {
    forall i | 0 <= i < |lines + [l]|
      ensures IsLine((lines + [l])[i])
    {
      assert i < |lines| ==> lines[i] in lines;
    }
    LinesConcat(lines + [l]);
    TerminatedAppend(lines, l);
    AllEnd(text);
  }

  lemma {:induction false} TerminatedAppend(lines: seq<string>, l: string)
    ensures Terminated(lines + [l]) <==> forall i :: 0 <= i < |lines| ==> EndsLine(lines[i])
  {
    if lines == [] {
      assert lines + [l] == [l];
    } else {
      TailAppend(lines, [l]);
      TerminatedAppend(lines[1..], l);
      assert forall i :: 0 < i < |lines| ==> lines[i] == lines[1..][i - 1];
    }
  }

  /** Loading and saving a file without any edit writes it back unchanged. */
  lemma LoadThenSave(text: string)
    ensures SaveText(LoadLines(text)) == text
  {
    ConcatLines(text);
  }
}
