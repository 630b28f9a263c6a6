/** resolv.conf on the heap: lines linked behind a head without data (BSD/resolvconf.c), proved
    against `Resolv`. */
module ResolvConf {
  import opened Text
  import opened CBuffer
  import opened Resolv
  import opened Errno
  import opened Files

  class Line {
    var data: string
    var next: Line?

    constructor (data: string)
      ensures this.data == data && next == null
    {
      this.data, next := data, null;
    }
  }

  class Conf {
    const head: Line
    ghost var nodes: seq<Line>     // the head and the lines behind it
    ghost var lines: seq<string>
    ghost var Repr: set<object>

    ghost predicate Valid()
      reads this, Repr
    {
      && this in Repr && (forall i :: 0 <= i < |nodes| ==> nodes[i] in Repr)
      && |nodes| == |lines| + 1 && nodes[0] == head
      && (forall i, j :: 0 <= i < j < |nodes| ==> nodes[i] != nodes[j])
      && (forall i {:trigger nodes[i].next} :: 0 <= i < |nodes| ==>
        nodes[i].next == if i + 1 < |nodes| then nodes[i + 1] else null)
      && (forall i {:trigger nodes[i].data} :: 1 <= i < |nodes| ==> nodes[i].data == lines[i - 1])
    }

    /** The line at `k`, or NULL behind the last. */
    ghost function At(k: nat): Line?
      requires k <= |nodes|
      reads this
    {
      if k < |nodes| then nodes[k] else null
    }

    /** `resolvconf_init` */
    constructor ()
      ensures Valid() && lines == [] && fresh(Repr)
    {
      head := new Line("");
      new;
      nodes, lines, Repr := [head], [], {this, head};
    }

    /** `add_line` behind the last line. */
    method AddLine(last: Line, str: string)
      requires Valid() && last == nodes[|nodes| - 1]
      modifies Repr
      ensures Valid() && fresh(Repr - old(Repr)) && lines == old(lines) + [str]
      ensures last.next == nodes[|nodes| - 1]
    {
      var line := new Line(str);
      last.next := line;
      nodes, lines, Repr := nodes + [line], lines + [str], Repr + {line};
    }

    /** `resolvconf_load__` into an empty list. */
    method Load(file: File) returns (res: int)
      requires Valid() && lines == [] && file !in Repr && '\0' !in file.text
      modifies Repr
      ensures Valid() && fresh(Repr - old(Repr)) && res == -file.readErr
      ensures lines == if file.readErr != 0 then [] else LoadLines(file.text)
    {
      if file.readErr != 0 {
        return -file.readErr;
      }
      var pos, last := 0, head;
      ghost var text, rest := file.text, Lines(file.text);
      assert text[0..] == text;
      while pos < |file.text|
        invariant Valid() && fresh(Repr - old(Repr)) && file !in Repr
        invariant file.text == text && file.readErr == 0 && pos <= |text|
        invariant last == nodes[|nodes| - 1]
        invariant rest == Lines(text[pos..]) && lines + rest == LoadLines(text)
      {
        var line, end := GetLine(file.text, pos);
        Shift(lines, rest);
        AddLine(last, line);
        last, pos, rest := last.next, end, rest[1..];
      }
      return 0;
    }

    /** `resolvconf_save__` */
    method Save(file: File) returns (res: int)
      requires Valid() && file !in Repr
      modifies file
      ensures res == -file.writeErr
      ensures file.text == if file.writeErr != 0 then old(file.text) else SaveText(lines)
      ensures file.readErr == old(file.readErr) && file.writeErr == old(file.writeErr)
    {
      if file.writeErr != 0 {
        return -file.writeErr;
      }
      file.text := "";
      var line := head.next;
      ghost var k := 1;
      while line != null
        invariant Valid() && file !in Repr && 1 <= k <= |nodes| && line == At(k)
        invariant file.text + Concat(lines[k - 1..]) == SaveText(lines)
        invariant file.readErr == old(file.readErr) && file.writeErr == old(file.writeErr)
        decreases |nodes| - k
      {
        assert lines[k - 1..][1..] == lines[k..];
        Associative(file.text, line.data, Concat(lines[k..]));
        file.text := file.text + line.data;
        line, k := line.next, k + 1;
      }
      return 0;
    }

    /** `resolvconf_set_namserver` */
    method SetNameserver(dns: string) returns (res: int)
      requires Valid() && '\0' !in dns
      modifies Repr
      ensures Valid() && fresh(Repr - old(Repr))
      ensures Edited(res, lines) == SetDns(old(lines), dns)
    {
      if |dns| > INET6_ADDRSTRLEN {
        return -EINVAL;
      }
      var last, i := head, 0;
      var line := head.next;
      while line != null
        invariant i < |nodes| && last == nodes[i] && line == At(i + 1)
        invariant FindDns(lines[i..], dns, i) == FindDns(lines, dns, 0)
        decreases |nodes| - i
      {
        assert lines[i..][1..] == lines[i + 1..];
        i := i + 1;
        last := line;
        var scanned := ScanDns(line.data);
        if scanned.Some? {
          if scanned.value == dns {
            return 0;
          }
          if i >= MAX_LINES {
            return -ERANGE;
          }
        }
        line := line.next;
      }
      var buf := Format(DnsLine(dns), INET6_ADDRSTRLEN + 14);
      AddLine(last, buf);
      return 0;
    }

    /** `resolvconf_get_search_list` */
    method GetSearchList() returns (list: Option<string>)
      requires Valid()
      ensures list == SearchList(lines)
    {
      var line := head.next;
      ghost var k := 1;
      while line != null
        invariant 1 <= k <= |nodes| && line == At(k)
        invariant SearchList(lines[k - 1..]) == SearchList(lines)
        decreases |nodes| - k
      {
        assert lines[k - 1..][1..] == lines[k..];
        if ScanSearch(line.data).Some? {
          return ScanSearch(line.data);
        }
        line, k := line.next, k + 1;
      }
      return None;
    }

    /** `resolvconf_set_search_list` */
    method SetSearchList(list: string) returns (res: int)
      requires Valid() && '\0' !in list
      modifies Repr
      ensures Valid() && fresh(Repr - old(Repr))
      ensures Edited(res, lines) == SetSearch(old(lines), list)
    {
      if |list| >= MAX_SEARCH_LIST_LEN {
        return -EINVAL;
      }
      var buf := Format(SearchLine(list), MAX_SEARCH_LIST_LEN + 10);
      var last := head;
      var line := head.next;
      ghost var k := 0;
      while line != null
        invariant k < |nodes| && last == nodes[k] && line == At(k + 1)
        invariant FindSearch(lines) == k + FindSearch(lines[k..])
        decreases |nodes| - k
      {
        assert lines[k..][1..] == lines[k + 1..];
        last := line;
        if ScanSearch(line.data).Some? {
          Replace(line, k, buf);
          return 0;
        }
        line, k := line.next, k + 1;
      }
      AddLine(last, buf);
      return 0;
    }

    method Replace(line: Line, ghost k: nat, data: string)
      requires Valid() && k < |lines| && line == nodes[k + 1]
      modifies Repr
      ensures Valid() && Repr == old(Repr) && lines == old(lines)[k := data]
    {
      line.data := data;
      lines := lines[k := data];
    }

    /** `resolvconf_get_next_dns`: the next line behind `line` that names a server. */
    method NextDns(line: Line, ghost k: nat) returns (next: Line?, dns: Option<string>, ghost n: nat)
      requires Valid() && k < |nodes| && line == nodes[k]
      ensures next == null <==> dns == None
      ensures dns == None ==> Nameservers(lines[k..]) == []
      ensures dns.Some? ==> (
        && k < n < |nodes| && next == nodes[n]
        && Nameservers(lines[k..]) == [dns.value] + Nameservers(lines[n..]))
    {
      next, n := line.next, k + 1;
      while next != null
        invariant k < n <= |nodes| && next == At(n)
        invariant Nameservers(lines[n - 1..]) == Nameservers(lines[k..])
        decreases |nodes| - n
      {
        assert lines[n - 1..][1..] == lines[n..];
        dns := ScanDns(next.data);
        if dns.Some? {
          return;
        }
        next, n := next.next, n + 1;
      }
      dns := None;
    }
  }

  /** The text printed into a buffer that is large enough for it and its NUL. */
  method Format(text: string, size: nat) returns (line: string)
    requires |text| < size && '\0' !in text
    ensures line == text
  {
    var buf := new char[size];
    var n := Snprintf(buf, 0, size, text);
    assert buf[..0 + n] == text[..n] == text;
    StrAtIs(buf[..], 0, n);
    assert buf[..][0..n] == text;
    line := StrAt(buf[..], 0);
  }
}
