/** One line of an rc.conf file: trimming, parsing in place and printing (BSD/rcconf.c). */
module RcLine {
  import opened Text
  import opened CBuffer

  datatype Item = Item(key: string, val: string)

  predicate IsSpace(c: char) {
    c == ' ' || c == '\t' || c == '\n' || c == '\0'
  }

  function TrimLeft(s: string): string {
    if s != "" && IsSpace(s[0]) then TrimLeft(s[1..]) else s
  }

  function TrimRight(s: string): string {
    if s != "" && IsSpace(s[|s| - 1]) then TrimRight(s[..|s| - 1]) else s
  }

  function Trim(s: string): string {
    TrimRight(TrimLeft(s))
  }

  lemma {:induction false} TrimLeftIs(s: string, b: nat)
    requires b <= |s| && forall i :: 0 <= i < b ==> IsSpace(s[i])
    requires b < |s| ==> !IsSpace(s[b])
    ensures TrimLeft(s) == s[b..]
  {
    if b > 0 {
      TrimLeftIs(s[1..], b - 1);
    }
  }

  lemma {:induction false} TrimRightIs(s: string, e: nat)
    requires e <= |s| && forall i :: e <= i < |s| ==> IsSpace(s[i])
    requires e > 0 ==> !IsSpace(s[e - 1])
    ensures TrimRight(s) == s[..e]
  {
    if e < |s| {
      TrimRightIs(s[..|s| - 1], e);
      assert s[..|s| - 1][..e] == s[..e];
    } else {
      assert s == s[..e];
    }
  }

  /** Trimming is exact: it removes the blanks at both ends and nothing else. */
  lemma TrimIs(s: string, b: nat, e: nat)
    requires b <= e <= |s|
    requires forall i :: (0 <= i < b || e <= i < |s|) ==> IsSpace(s[i])
    requires b < e ==> !IsSpace(s[b]) && !IsSpace(s[e - 1])
    ensures Trim(s) == s[b..e]
  {
    if b < e {
      TrimLeftIs(s, b);
      TrimRightIs(s[b..], e - b);
      assert s[b..][..e - b] == s[b..e];
    } else {
      TrimLeftIs(s, |s|);
    }
  }

  /** Nothing to trim at either end. */
  predicate Trimmed(s: string) {
    s == "" || (!IsSpace(s[0]) && !IsSpace(s[|s| - 1]))
  }

  /** The item a line stands for: everything before the first '=' is the key, the rest is the
      quoted value, both trimmed. */
  function ParseLine(line: string): Option<Item> {
    var s := StrAt(line, 0);
    var p := IndexOf(s, '=');
    if p == |s| then None else Unquote(Trim(s[..p]), Trim(s[p + 1..]))
  }

  function Unquote(key: string, val: string): Option<Item> {
    if key == "" || |val| < 2 || val[0] != '"' || val[|val| - 1] != '"' then None
    else Some(Item(key, val[1..|val| - 1]))
  }

  function PrintItem(it: Item): string {
    it.key + "=\"" + it.val + "\"\n"
  }

  predicate PrintableKey(k: string) {
    && k != "" && Trimmed(k)
    && '=' !in k && '\n' !in k && '\0' !in k
  }

  predicate PrintableVal(v: string) {
    '\n' !in v && '\0' !in v
  }

  predicate Printable(it: Item) {
    PrintableKey(it.key) && PrintableVal(it.val)
  }

  lemma TrimCells(was: string, str: nat, beg: nat, e: nat)
    requires IsCString(was, str) && str <= beg <= e <= str + |StrAt(was, str)|
    requires forall i :: str <= i < beg || e <= i < str + |StrAt(was, str)| ==> IsSpace(was[i])
    requires beg < e ==> !IsSpace(was[beg]) && !IsSpace(was[e - 1])
    ensures Trim(StrAt(was, str)) == was[beg..e]
  {
    StrAtCells(was, str);
    TrimIs(StrAt(was, str), beg - str, e - str);
    Slice(was, str, str + |StrAt(was, str)|, beg - str, e - str);
  }

  /** The end of `strip`: the text between the two pointers, then a NUL, at the old place
      of the string. */
  lemma StripMove(was: string, now: string, str: nat, beg: nat, end: nat)
    requires IsCString(was, str) && |now| == |was|
    requires str <= beg <= end <= str + |StrAt(was, str)| && str + (end - beg + 1) < |now|
    requires forall i :: str <= i < beg || end < i <= str + |StrAt(was, str)| ==> IsSpace(was[i])
    requires beg == end || !IsSpace(was[end])
    requires beg == str + |StrAt(was, str)| || !IsSpace(was[beg])
    requires now[str..str + (end - beg + 1)] == was[beg..end + 1]
    requires now[str + (end - beg + 1)] == '\0'
    ensures IsCString(now, str) && StrAt(now, str) == Trim(StrAt(was, str))
  {
    var e := Min(end + 1, str + |StrAt(was, str)|);
    StrAtCells(was, str);
    TrimCells(was, str, beg, e);
    MovedString(was, now, str, beg, end, e - beg);
  }

  lemma MovedString(was: string, now: string, str: nat, beg: nat, end: nat, len: nat)
    requires str <= beg <= end < |was| == |now| && str + (end - beg + 1) < |now|
    requires now[str..str + (end - beg + 1)] == was[beg..end + 1]
    requires now[str + (end - beg + 1)] == '\0'
    requires len == end + 1 - beg || (len == end - beg && was[end] == '\0')
    requires forall i :: beg <= i < beg + len ==> was[i] != '\0'
    ensures IsCString(now, str) && StrAt(now, str) == was[beg..beg + len]
  {
    var u := was[beg..end + 1];
    assert was[beg..beg + len] == u[..len];
    assert forall i :: str <= i < str + len ==> now[i] == u[i - str] == was[beg + (i - str)];
    assert len < |u| ==> now[str + len] == u[len] == was[beg + len];
    StrAtIs(now, str, len);
    assert now[str..str + len] == u[..len];
  }

  /** `strip` on the string at `str`; the buffer has one spare cell behind its NUL. */
  method Strip(a: array<char>, str: nat)
    requires IsCString(a[..], str) && str + |StrAt(a[..], str)| + 1 < a.Length
    modifies a
    ensures IsCString(a[..], str) && StrAt(a[..], str) == Trim(old(StrAt(a[..], str)))
    ensures forall k :: 0 <= k < str ==> a[k] == old(a[k])
    ensures forall k :: str + |old(StrAt(a[..], str))| < k < a.Length && k > str + 1 ==> a[k] == old(a[k])
  {
    ghost var was := a[..];
    var n := StrLen(a, str);
    var beg, end := str, str + n;
    while beg != end && IsSpace(a[beg])
      invariant str <= beg <= end
      invariant forall i :: str <= i < beg ==> IsSpace(was[i])
    {
      beg := beg + 1;
    }
    while beg != end && IsSpace(a[end])
      invariant beg <= end <= str + n
      invariant forall i :: end < i <= str + n ==> IsSpace(was[i])
    {
      end := end - 1;
    }
    assert beg != end ==> end < str + n by {
      StrAtCells(was, str);
    }
    MemMove(a, str, beg, end - beg + 1);
    ghost var moved := a[..];
    a[str + (end - beg + 1)] := '\0';
    assert a[..] == moved[str + (end - beg + 1) := '\0'];
    StripMove(was, a[..], str, beg, end);
  }

  /** `parse_line`: cuts the buffer at '=', trims both halves and unquotes the value, all in place. */
  method Parse(line: array<char>) returns (item: Option<Item>)
    requires IsCString(line[..], 0) && |StrAt(line[..], 0)| + 1 < line.Length
    modifies line
    ensures item == ParseLine(old(line[..]))
  {
    ghost var s := StrAt(line[..], 0);
    var p, found := StrChr(line, 0, '=');
    if !found {
      return None;
    }
    ghost var k, v := Trim(s[..p]), Trim(s[p + 1..]);
    assert ParseLine(old(line[..])) == Unquote(k, v);
    ghost var cut := line[..][p := '\0'];
    CutLine(line[..], p);
    line[p] := '\0';
    assert line[..] == cut;
    var key, val := 0, p + 1;
    Strip(line, key);
    var n := StrLen(line, key);
    if n == 0 {
      return None;
    }
    assert p > 0;
    StrAtSame(cut, line[..], val);
    ghost var keyed := line[..];
    TrimShorter(s[..p]);
    Strip(line, val);
    StrAtSame(keyed, line[..], key);
    item := TakeItem(line, key, val);
  }

  /** The last step of `parse_line`: a value in quotes is cut out of the buffer. */
  method TakeItem(line: array<char>, key: nat, val: nat) returns (item: Option<Item>)
    requires key + |StrAt(line[..], key)| < val && IsCString(line[..], val)
    requires StrAt(line[..], key) != ""
    modifies line
    ensures item == Unquote(old(StrAt(line[..], key)), old(StrAt(line[..], val)))
  {
    ghost var v := StrAt(line[..], val);
    var n := StrLen(line, val);
    if n < 2 {
      return None;
    }
    StrAtEnds(line[..], val);
    var end := val + n - 1;
    if line[val] != '"' || line[end] != '"' {
      return None;
    }
    ghost var was := line[..];
    CutQuote(was, key, val + 1, v);
    line[end] := '\0';
    assert line[..] == was[end := '\0'];
    return Some(Item(StrAt(line[..], key), StrAt(line[..], val + 1)));
  }

  lemma CutLine(buf: string, p: nat)
    requires IsCString(buf, 0) && p < |StrAt(buf, 0)|
    ensures var s, cut := StrAt(buf, 0), buf[p := '\0'];
      StrAt(cut, 0) == s[..p] && StrAt(cut, p + 1) == s[p + 1..]
  {
    CutHalves(buf, 0, p);
  }

  lemma StrAtEnds(s: string, off: nat)
    requires IsCString(s, off) && StrAt(s, off) != ""
    ensures var v := StrAt(s, off); v[0] == s[off] && v[|v| - 1] == s[off + |v| - 1]
  {
    StrAtCells(s, off);
  }

  /** Overwriting the closing quote leaves the unquoted value behind the opening one. */
  lemma CutQuote(s: string, key: nat, val: nat, v: string)
    requires key + |StrAt(s, key)| < val - 1 && IsCString(s, val - 1)
    requires StrAt(s, val - 1) == v && |v| >= 2
    ensures var t := s[val + |v| - 2 := '\0'];
      StrAt(t, key) == StrAt(s, key) && StrAt(t, val) == v[1..|v| - 1]
  {
    var t := s[val + |v| - 2 := '\0'];
    StrAtSame(s, t, key);
    StrAtCells(s, val - 1);
    StrAtIs(t, val, |v| - 2);
    Slice(s, val - 1, val - 1 + |v|, 1, |v| - 1);
    assert t[val..val + |v| - 2] == s[val..val + |v| - 2];
  }

  lemma TrimShorter(s: string)
    ensures |Trim(s)| <= |s|
  {
    var b, e := TrimBounds(s);
  }

  lemma TrimBounds(s: string) returns (b: nat, e: nat)
    ensures b <= e <= |s| && Trim(s) == s[b..e]
    ensures forall i :: (0 <= i < b || e <= i < |s|) ==> IsSpace(s[i])
    ensures b < e ==> !IsSpace(s[b]) && !IsSpace(s[e - 1])
  {
    b, e := 0, |s|;
    while b < |s| && IsSpace(s[b])
      invariant b <= |s| && forall i :: 0 <= i < b ==> IsSpace(s[i])
    {
      b := b + 1;
    }
    while b < e && IsSpace(s[e - 1])
      invariant b <= e <= |s| && forall i :: e <= i < |s| ==> IsSpace(s[i])
    {
      e := e - 1;
    }
    TrimIs(s, b, e);
  }

  lemma TrimQuoted(val: string)
    ensures var q := "\"" + val + "\""; Trim(q + "\n") == q && q[1..|q| - 1] == val
  {
    var q := "\"" + val + "\"";
    TrimIs(q + "\n", 0, |q|);
    assert (q + "\n")[0..|q|] == q;
  }

  lemma PrintedCut(it: Item)
    requires PrintableKey(it.key)
    ensures var s := PrintItem(it);
      IndexOf(s, '=') == |it.key| < |s| && s[..|it.key|] == it.key && s[|it.key| + 1..] == "\"" + it.val + "\"" + "\n"
  {
    var s, p := PrintItem(it), |it.key|;
    assert forall i :: 0 <= i < p ==> s[i] == it.key[i];
    IndexOfUnique(s, '=', p);
  }

  /** A printed item is parsed back. */
  lemma ParsePrint(it: Item)
    requires Printable(it)
    ensures ParseLine(PrintItem(it)) == Some(it)
  {
    StrAtNulFree(PrintItem(it));
    PrintedCut(it);
    TrimIs(it.key, 0, |it.key|);
    assert it.key[0..|it.key|] == it.key;
    TrimQuoted(it.val);
  }

  /** Trimming keeps only characters of the text, and drops a newline at its end. */
  lemma TrimChars(t: string)
    requires '\0' !in t && forall i :: 0 <= i < |t| - 1 ==> t[i] != '\n'
    ensures Trimmed(Trim(t)) && '\n' !in Trim(t)
    ensures forall c :: c in Trim(t) ==> c in t
  {
    var b, e := TrimBounds(t);
    assert b < e == |t| ==> t[e - 1] != '\n';
    assert forall i :: 0 <= i < e - b ==> t[b..e][i] == t[b + i] != '\n';
  }

  /** Whatever a line parses to is printed in a form that parses back. */
  lemma ParsedIsPrintable(line: string)
    requires IsLine(line) && ParseLine(line).Some?
    ensures Printable(ParseLine(line).value)
  {
    var s := StrAt(line, 0);
    StrAtCells(line, 0);
    var p := IndexOf(s, '=');
    var v := s[p + 1..];
    assert '\0' !in s;
    assert forall i :: 0 <= i < |s| - 1 ==> s[i] != '\n';
    assert forall c :: c in s[..p] ==> c in s && c != '=';
    assert '\n' !in s[..p] && forall i :: 0 <= i < |v| - 1 ==> v[i] == s[p + 1 + i];
    TrimChars(s[..p]);
    TrimChars(v);
    var val := Trim(v);
    assert forall c :: c in val[1..|val| - 1] ==> c in val;
  }

  // ---- padded lines -------------------------------------------------------

  /** Blanks and tabs alone. */
  predicate Padding(p: string) {
    forall i :: 0 <= i < |p| ==> p[i] == ' ' || p[i] == '\t'
  }

  /** What is at neither end of a key. */
  predicate Bare(c: char) {
    c != ' ' && c != '\t' && c != '\n' && c != '\0'
  }

  lemma TrimPadded(p: string, s: string, q: string)
    requires forall i :: 0 <= i < |p| ==> p[i] in {' ', '\t', '\n'}
    requires forall i :: 0 <= i < |q| ==> q[i] in {' ', '\t', '\n'}
    requires s != "" && Bare(s[0]) && Bare(s[|s| - 1])
    ensures Trim(p + s + q) == s
  {
    var all := p + s + q;
    TrimIs(all, |p|, |p| + |s|);
    assert all[|p|..|p| + |s|] == s;
  }

  /** A line without NUL is cut at its first '='. */
  lemma ParseHalves(left: string, right: string)
    requires '=' !in left && '\0' !in left && '\0' !in right
    ensures ParseLine(left + "=" + right) == Unquote(Trim(left), Trim(right))
  {
    hide Trim, Unquote;
    var line := left + "=" + right;
    StrAtNulFree(line);
    IndexOfUnique(line, '=', |left|);
    assert line[..|left|] == left && line[|left| + 1..] == right;
  }

  lemma UnquoteQuoted(key: string, val: string)
    requires key != ""
    ensures Unquote(key, "\"" + val + "\"") == Some(Item(key, val))
  {
    assert ("\"" + val + "\"")[1..|val| + 1] == val;
  }

  lemma Joined(p: string, key: string, q: string, r: string, val: string, s: string)
    ensures p + key + q + "=" + r + "\"" + val + "\"" + s == (p + key + q) + "=" + (r + ("\"" + val + "\"") + s)
  {
    var left, quoted := p + key + q + "=", "\"" + val + "\"";
    Associative(left + r, "\"" + val, "\"");
    Associative(left + r, "\"", val);
    Associative(left, r, quoted);
    Associative(left, r + quoted, s);
  }

  /** What stands behind the value: blanks and tabs, then perhaps the end of the line. */
  predicate Ending(s: string) {
    Padding(s) || (s != "" && s[|s| - 1] == '\n' && Padding(s[..|s| - 1]))
  }

  lemma EndingChars(s: string)
    requires Ending(s)
    ensures forall i :: 0 <= i < |s| ==> s[i] in {' ', '\t', '\n'}
  {
    if !Padding(s) {
      assert forall i :: 0 <= i < |s| - 1 ==> s[..|s| - 1][i] == s[i];
    }
  }

  lemma NulFreePadded(p: string, s: string, q: string)
    requires forall i :: 0 <= i < |p| ==> p[i] in {' ', '\t', '\n'}
    requires forall i :: 0 <= i < |q| ==> q[i] in {' ', '\t', '\n'}
    requires '\0' !in s
    ensures '\0' !in p + s + q
    ensures '=' !in s ==> '=' !in p + s + q
  {
  }

  /** A line is read with any blanks and tabs around the key and the quoted value, and any other
      character at the ends of the key is kept. */
  lemma ParsePadded(p: string, key: string, q: string, r: string, val: string, s: string)
    requires key != "" && Bare(key[0]) && Bare(key[|key| - 1]) && '=' !in key && '\0' !in key && '\0' !in val
    requires Padding(p) && Padding(q) && Padding(r) && Ending(s)
    ensures ParseLine(p + key + q + "=" + r + "\"" + val + "\"" + s) == Some(Item(key, val))
  {
    hide ParseLine, Trim, Unquote;
    var quoted := "\"" + val + "\"";
    EndingChars(s);
    Joined(p, key, q, r, val, s);
    NulFreePadded(p, key, q);
    NulFreePadded(r, quoted, s);
    ParseHalves(p + key + q, r + quoted + s);
    TrimPadded(p, key, q);
    TrimPadded(r, quoted, s);
    UnquoteQuoted(key, val);
  }

  /** A line without '=' is no item, nor is one with nothing but padding in front of it. */
  lemma ParseNothing(p: string, right: string)
    requires '\0' !in right
    ensures '=' !in right ==> ParseLine(right) == None
    ensures Padding(p) ==> ParseLine(p + "=" + right) == None
  {
    hide Trim;
    if '=' !in right {
      StrAtNulFree(right);
      IndexOfUnique(right, '=', |right|);
    }
    if Padding(p) {
      assert '=' !in p && '\0' !in p;
      ParseHalves(p, right);
      TrimIs(p, |p|, |p|);
    }
  }

  /** A value that is not in quotes makes no item. */
  lemma ParseUnquoted(left: string, r: string, v: string, s: string)
    requires '=' !in left && '\0' !in left && '\0' !in v && Padding(r) && Ending(s)
    requires v != "" ==> Bare(v[0]) && Bare(v[|v| - 1])
    requires |v| < 2 || v[0] != '"' || v[|v| - 1] != '"'
    ensures ParseLine(left + "=" + (r + v + s)) == None
  {
    hide Trim, ParseLine;
    EndingChars(s);
    NulFreePadded(r, v, s);
    ParseHalves(left, r + v + s);
    if v != "" {
      TrimPadded(r, v, s);
    } else {
      TrimNothing(r + v + s);
    }
  }

  lemma TrimNothing(s: string)
    requires forall i :: 0 <= i < |s| ==> s[i] in {' ', '\t', '\n'}
    ensures Trim(s) == ""
  {
    TrimIs(s, |s|, |s|);
  }
}
