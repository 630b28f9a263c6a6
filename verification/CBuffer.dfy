/** NUL-terminated character buffers and the library calls the tool makes on them. */
module CBuffer {
  import opened Text

  /** A NUL-terminated string starts at `off`. */
  predicate IsCString(s: string, off: nat) {
    off + |StrAt(s, off)| < |s|
  }

  lemma Slice(s: string, a: nat, b: nat, c: nat, d: nat)
    requires a <= b <= |s| && c <= d <= b - a
    ensures s[a..b][c..d] == s[a + c..a + d]
  {
    assert |s[a..b][c..d]| == |s[a + c..a + d]|;
    assert forall i :: 0 <= i < d - c ==> s[a..b][c..d][i] == s[a + c..a + d][i];
  }

  method StrLen(a: array<char>, off: nat) returns (n: nat)
    requires IsCString(a[..], off)
    ensures n == |StrAt(a[..], off)| && off + n < a.Length
  {
    StrAtCells(a[..], off);
    n := 0;
    while a[off + n] != '\0'
      invariant n <= |StrAt(a[..], off)|
      decreases |StrAt(a[..], off)| - n
    {
      n := n + 1;
    }
  }

  method StrChr(a: array<char>, off: nat, c: char) returns (k: nat, found: bool)
    requires IsCString(a[..], off) && c != '\0'
    ensures k == IndexOf(StrAt(a[..], off), c) && off + k < a.Length
    ensures found <==> k < |StrAt(a[..], off)|
  {
    ghost var s := StrAt(a[..], off);
    StrAtCells(a[..], off);
    k := 0;
    while a[off + k] != '\0' && a[off + k] != c
      invariant k <= |s|
      invariant forall i :: 0 <= i < k ==> s[i] != c
      decreases |s| - k
    {
      assert s[k] == a[off + k];
      k := k + 1;
    }
    found := a[off + k] == c;
    assert k < |s| ==> s[k] == a[off + k];
    IndexOfUnique(s, c, k);
  }

  /** `memmove` inside one buffer. */
  method MemMove(a: array<char>, dst: nat, src: nat, n: nat)
    requires dst + n <= a.Length && src + n <= a.Length
    modifies a
    ensures a[..][dst..dst + n] == old(a[..])[src..src + n]
    ensures forall i :: 0 <= i < a.Length && !(dst <= i < dst + n) ==> a[i] == old(a[i])
  {
    forall i | 0 <= i < n {
      a[dst + i] := a[src + i];
    }
  }

  /** `snprintf(a + off, size, "%s", text)`: at most `size - 1` characters are written,
      always followed by a NUL, and the full length is returned. */
  method Snprintf(a: array<char>, off: nat, size: nat, text: string) returns (res: nat)
    requires 0 < size && off + size <= a.Length
    modifies a
    ensures res == |text|
    ensures var m := Min(|text|, size - 1);
      a[..off + m] == old(a[..off]) + text[..m] && a[off + m] == '\0'
    ensures forall i :: off + size <= i < a.Length ==> a[i] == old(a[i])
  {
    res := |text|;
    var m := Min(|text|, size - 1);
    forall i | 0 <= i < m {
      a[off + i] := text[i];
    }
    a[off + m] := '\0';
  }

  /** A NUL written over a separator makes two strings of one. */
  lemma CutHalves(buf: string, off: nat, k: nat)
    requires IsCString(buf, off) && k < |StrAt(buf, off)|
    ensures var s, cut := StrAt(buf, off), buf[off + k := '\0'];
      && StrAt(cut, off) == s[..k] && StrAt(cut, off + k + 1) == s[k + 1..]
      && IsCString(cut, off) && IsCString(cut, off + k + 1)
  {
    var s, cut := StrAt(buf, off), buf[off + k := '\0'];
    StrAtCells(buf, off);
    StrAtIs(cut, off, k);
    StrAtIs(cut, off + k + 1, |s| - k - 1);
    assert cut[off..off + k] == s[..k];
    assert cut[off + k + 1..off + |s|] == s[k + 1..];
  }

  /** `strchr`, then a NUL over the character found; the rest of the string starts at `next`. */
  method CutAt(buf: array<char>, off: nat, c: char) returns (k: nat, next: nat, found: bool)
    requires IsCString(buf[..], off) && c != '\0'
    modifies buf
    ensures var s := old(StrAt(buf[..], off));
      && k == IndexOf(s, c) && next > off && (found <==> k < |s|)
      && StrAt(buf[..], off) == s[..k]
      && if found then IsCString(buf[..], next) && StrAt(buf[..], next) == s[k + 1..] else s[..k] == s
  {
    ghost var was := buf[..];
    k, found := StrChr(buf, off, c);
    next := off + k + 1;
    if found {
      CutHalves(was, off, k);
      buf[off + k] := '\0';
      assert buf[..] == was[off + k := '\0'];
    }
  }

  /** The buffer `getline` hands out: the line, its NUL and room to spare. */
  method LineBuffer(line: string) returns (buf: array<char>)
    ensures fresh(buf) && IsCString(buf[..], 0) && |StrAt(buf[..], 0)| + 1 < buf.Length
    ensures StrAt(buf[..], 0) == StrAt(line, 0)
  {
    buf := new char[|line| + 2](i => if 0 <= i < |line| then line[i] else '\0');
    StrAtCells(line, 0);
    StrAtIs(buf[..], 0, |StrAt(line, 0)|);
    assert buf[..][0..|StrAt(line, 0)|] == StrAt(line, 0);
  }
}
