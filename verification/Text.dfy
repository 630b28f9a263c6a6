/** Text shared by every component: C strings, lines, tokens, decimal numbers and case folding. */
module Text {

  datatype Option<+T> = None | Some(value: T)

  /** The index of the first `c` in `s`, or `|s|` when there is none. */
  function IndexOf(s: string, c: char): (k: nat)
    ensures k <= |s|
    ensures k < |s| ==> s[k] == c
    ensures forall i :: 0 <= i < k ==> s[i] != c
  {
    if s == "" || s[0] == c then 0 else 1 + IndexOf(s[1..], c)
  }

  lemma IndexOfUnique(s: string, c: char, k: nat)
    requires k <= |s| && (k < |s| ==> s[k] == c)
    requires forall i :: 0 <= i < k ==> s[i] != c
    ensures IndexOf(s, c) == k
  {
  }

  /** The C string at `off` of a buffer: the characters before the next NUL, or before the end. */
  function StrAt(s: string, off: nat): (r: string)
    ensures off <= |s| ==> off + |r| <= |s|
    decreases |s| - off
  {
    if off >= |s| || s[off] == '\0' then "" else [s[off]] + StrAt(s, off + 1)
  }

  lemma {:induction false} StrAtIs(s: string, off: nat, n: nat)
    requires off + n <= |s| && (off + n < |s| ==> s[off + n] == '\0')
    requires forall i :: off <= i < off + n ==> s[i] != '\0'
    ensures StrAt(s, off) == s[off..off + n]
    decreases n
  {
    if n > 0 {
      StrAtIs(s, off + 1, n - 1);
    }
  }

  lemma {:induction false} StrAtCells(s: string, off: nat)
    requires off <= |s|
    ensures var n := |StrAt(s, off)|;
      && (off + n < |s| ==> s[off + n] == '\0') && StrAt(s, off) == s[off..off + n]
      && forall i :: off <= i < off + n ==> s[i] != '\0'
    decreases |s| - off
  {
    if off < |s| && s[off] != '\0' {
      StrAtCells(s, off + 1);
    }
  }

  lemma StrAtSame(s: string, t: string, off: nat)
    requires |s| == |t| && off + |StrAt(s, off)| < |s|
    requires forall i :: off <= i <= off + |StrAt(s, off)| ==> s[i] == t[i]
    ensures StrAt(t, off) == StrAt(s, off)
  {
    StrAtCells(s, off);
    StrAtIs(t, off, |StrAt(s, off)|);
    assert s[off..off + |StrAt(s, off)|] == t[off..off + |StrAt(s, off)|];
  }

  lemma StrAtNulFree(s: string)
    requires '\0' !in s
    ensures StrAt(s, 0) == s
  {
    StrAtIs(s, 0, |s|);
  }

  lemma TailAppend<T>(a: seq<T>, b: seq<T>)
    requires a != []
    ensures (a + b)[0] == a[0] && (a + b)[1..] == a[1..] + b
  {
  }

  lemma Shift<T>(a: seq<T>, b: seq<T>)
    requires b != []
    ensures a + b == a + [b[0]] + b[1..]
  {
  }

  lemma TakeFront<T>(a: seq<T>, b: seq<T>, k: nat)
    requires k <= |a|
    ensures (a + b)[..k] == a[..k]
  {
  }

  lemma TakeBack<T>(a: seq<T>, b: seq<T>, k: nat)
    requires |a| <= k <= |a| + |b|
    ensures (a + b)[..k] == a + b[..k - |a|]
  {
  }

  lemma Associative<T>(a: seq<T>, b: seq<T>, c: seq<T>)
    ensures a + (b + c) == a + b + c
  {
  }

  function Min(a: int, b: int): int {
    if a <= b then a else b
  }

  /** The lines `getline` returns: each keeps its newline, the last may lack one. */
  function Lines(text: string): seq<string>
    decreases |text|
  {
    if text == "" then [] else
      var k := IndexOf(text, '\n');
      if k == |text| then
        [text]
      else
        [text[..k + 1]] + Lines(text[k + 1..])
  }

  /** A non-empty text whose only newline, if any, is its last character. */
  predicate IsLine(l: string) {
    l != "" && forall i :: 0 <= i < |l| - 1 ==> l[i] != '\n'
  }

  lemma {:induction false} LinesAreLines(text: string)
    ensures forall l :: l in Lines(text) ==> IsLine(l)
    decreases |text|
  {
    var k := IndexOf(text, '\n');
    if k < |text| {
      LinesAreLines(text[k + 1..]);
    }
  }

  lemma LinesCons(l: string, rest: string)
    requires IsLine(l) && EndsLine(l)
    ensures Lines(l + rest) == [l] + Lines(rest)
  {
    var t := l + rest;
    IndexOfUnique(t, '\n', |l| - 1);
    assert t[..|l|] == l && t[|l|..] == rest;
  }

  function Concat(parts: seq<string>): string {
    if parts == [] then "" else parts[0] + Concat(parts[1..])
  }

  lemma {:induction false} ConcatAppend(a: seq<string>, b: seq<string>)
    ensures Concat(a + b) == Concat(a) + Concat(b)
  {
    if a == [] {
      assert a + b == b;
    } else {
      ConcatAppend(a[1..], b);
      TailAppend(a, b);
    }
  }

  predicate EndsLine(l: string) {
    l != "" && l[|l| - 1] == '\n'
  }

  /** Every line but the last ends in a newline. */
  predicate Terminated(ls: seq<string>) {
    |ls| <= 1 || (EndsLine(ls[0]) && Terminated(ls[1..]))
  }

  /** Lines written one after the other are read back as the same lines exactly when
      every line but the last ends in a newline. */
  lemma {:induction false} LinesConcat(ls: seq<string>)
    requires forall i :: 0 <= i < |ls| ==> IsLine(ls[i])
    ensures Lines(Concat(ls)) == ls <==> Terminated(ls)
  {
    if ls == [] {
    } else if |ls| == 1 {
      assert ls[0] + Concat(ls[1..]) == ls[0];
      LinesOne(ls[0]);
    } else {
      var rest := ls[1..];
      LinesConcat(rest);
      if EndsLine(ls[0]) {
        LinesCons(ls[0], Concat(rest));
        assert ls == [ls[0]] + rest;
      } else {
        assert rest[0] != "";
        FirstLineLonger(ls[0], Concat(rest));
      }
    }
  }

  lemma LinesOne(l: string)
    requires IsLine(l)
    ensures Lines(l) == [l]
  {
    var k := IndexOf(l, '\n');
    if k < |l| {
      assert l[..k + 1] == l;
    }
  }

  /** A line without its newline runs into whatever is written after it. */
  lemma FirstLineLonger(l: string, rest: string)
    requires IsLine(l) && !EndsLine(l) && rest != ""
    ensures Lines(l + rest) != [] && |Lines(l + rest)[0]| > |l|
  {
    var t := l + rest;
    var k := IndexOf(t, '\n');
    assert forall i :: 0 <= i < |l| ==> t[i] == l[i];
  }

  // ---- tokens -------------------------------------------------------------

  /** The maximal `d`-free pieces of `s`, as `strtok` with a one-character delimiter finds them. */
  function Tokens(s: string, d: char): seq<string>
    decreases |s|
  {
    var k := IndexOf(s, d);
    var rest := if k < |s| then Tokens(s[k + 1..], d) else [];
    if k > 0 then [s[..k]] + rest else rest
  }

  lemma {:induction false} TokensGood(s: string, d: char)
    ensures forall t <- Tokens(s, d) :: t != "" && d !in t
    decreases |s|
  {
    var k := IndexOf(s, d);
    if k < |s| {
      TokensGood(s[k + 1..], d);
    }
  }

  /** The token list of a `d`-free text. */
  function Token(w: string): seq<string> {
    if w == "" then [] else [w]
  }

  lemma TokenOne(w: string, d: char)
    requires d !in w
    ensures Tokens(w, d) == Token(w)
  {
    IndexOfUnique(w, d, |w|);
    assert w[..|w|] == w;
  }

  lemma TokensCut(w: string, d: char, t: string)
    requires d !in w
    ensures Tokens(w + [d] + t, d) == Token(w) + Tokens(t, d)
  {
    var u := w + [d] + t;
    IndexOfUnique(u, d, |w|);
    assert u[..|w|] == w && u[|w| + 1..] == t;
  }

  lemma Regroup<T>(a: seq<T>, b: seq<T>, c: seq<T>, d: seq<T>)
    ensures a + b + c + d == a + (b + c + d)
  {
  }

  lemma TokensAppendCut(w: string, d: char, rest: string, t: string)
    requires d !in w && Tokens(rest + [d] + t, d) == Tokens(rest, d) + Tokens(t, d)
    ensures Tokens(w + [d] + rest + [d] + t, d) == Tokens(w + [d] + rest, d) + Tokens(t, d)
  {
    hide Tokens;
    Regroup(w + [d], rest, [d], t);
    TokensCut(w, d, rest + [d] + t);
    TokensCut(w, d, rest);
    Associative(Token(w), Tokens(rest, d), Tokens(t, d));
  }

  lemma FirstCut(s: string, d: char) returns (w: string, rest: string)
    requires d in s
    ensures d !in w && s == w + [d] + rest
  {
    var k := IndexOf(s, d);
    w, rest := s[..k], s[k + 1..];
  }

  lemma {:induction false} TokensAppend(s: string, d: char, t: string)
    ensures Tokens(s + [d] + t, d) == Tokens(s, d) + Tokens(t, d)
    decreases |s|
  {
    if d !in s {
      TokenOne(s, d);
      TokensCut(s, d, t);
    } else {
      var w, rest := FirstCut(s, d);
      TokensAppend(rest, d, t);
      TokensAppendCut(w, d, rest, t);
    }
  }

  lemma {:induction false} TokensFree(s: string, d: char, c: char)
    requires c !in s
    ensures forall t <- Tokens(s, d) :: c !in t
    decreases |s|
  {
    var k := IndexOf(s, d);
    if k < |s| {
      TokensFree(s[k + 1..], d, c);
    }
  }

  // ---- decimal numbers ----------------------------------------------------

  function Digit(n: nat): (c: char)
    requires n < 10
    ensures IsDigit(c)
  {
    '0' + n as char
  }

  predicate IsDigit(c: char) {
    '0' <= c <= '9'
  }

  /** What `%d` and `%u` print. */
  function Decimal(n: nat): (s: string)
    ensures s != ""
    ensures forall i :: 0 <= i < |s| ==> IsDigit(s[i])
  {
    if n < 10 then [Digit(n)] else Decimal(n / 10) + [Digit(n % 10)]
  }

  function Number(s: string): nat
    requires forall i :: 0 <= i < |s| ==> IsDigit(s[i])
  {
    if s == "" then 0 else
      assert IsDigit(s[|s| - 1]);
      10 * Number(s[..|s| - 1]) + (s[|s| - 1] as int - '0' as int)
  }

  lemma {:induction false} NumberOfDecimal(n: nat)
    ensures Number(Decimal(n)) == n
  {
    if n < 10 {
      assert Decimal(n)[..0] == "";
    } else {
      NumberOfDecimal(n / 10);
      assert Decimal(n)[..|Decimal(n)| - 1] == Decimal(n / 10);
    }
  }

  lemma DecimalInjective(m: nat, n: nat)
    requires Decimal(m) == Decimal(n)
    ensures m == n
  {
    NumberOfDecimal(m);
    NumberOfDecimal(n);
  }

  // ---- case-insensitive comparison ----------------------------------------

  function Lower(c: char): char {
    if 'A' <= c <= 'Z' then c - 'A' + 'a' else c
  }

  function Fold(s: string): (r: string)
    ensures |r| == |s|
    ensures forall i :: 0 <= i < |s| ==> r[i] == Lower(s[i])
  {
    seq(|s|, i requires 0 <= i < |s| => Lower(s[i]))
  }

  /** `strcasecmp` returns 0. */
  predicate SameFold(a: string, b: string) {
    Fold(a) == Fold(b)
  }

  /** `strstr(hay, needle)` finds something. */
  predicate Occurs(needle: string, hay: string) {
    exists i :: 0 <= i <= |hay| && OccursAt(needle, hay, i)
  }

  predicate OccursAt(needle: string, hay: string, i: nat) {
    i + |needle| <= |hay| && hay[i..i + |needle|] == needle
  }

  /** `strcasestr(hay, needle)` finds something. */
  predicate OccursFold(needle: string, hay: string) {
    Occurs(Fold(needle), Fold(hay))
  }

  /** Ignoring case: the same characters but for ASCII letters, which may differ by 32. */
  lemma SameFoldMeans(a: string, b: string)
    ensures SameFold(a, b) <==> |a| == |b| && forall i :: 0 <= i < |a| ==>
      || a[i] == b[i]
      || ('A' <= a[i] <= 'Z' && b[i] as int == a[i] as int + 32)
      || ('A' <= b[i] <= 'Z' && a[i] as int == b[i] as int + 32)
  {
    assert SameFold(a, b) <==> |a| == |b| && forall i :: 0 <= i < |a| ==> Fold(a)[i] == Fold(b)[i];
  }

  /** A needle occurs where the hay is cut in three with the needle in the middle, ... */
  lemma OccursMeans(needle: string, hay: string)
    ensures Occurs(needle, hay) <==> exists a, b :: hay == a + needle + b
  {
    if Occurs(needle, hay) {
      var i :| 0 <= i <= |hay| && OccursAt(needle, hay, i);
      assert hay == hay[..i] + needle + hay[i + |needle|..];
    }
    forall a, b | hay == a + needle + b
      ensures Occurs(needle, hay)
    {
      assert OccursAt(needle, a + needle + b, |a|);
    }
  }

  /** ... and ignoring case, with something that is the same but for case. */
  lemma OccursFoldMeans(needle: string, hay: string)
    ensures OccursFold(needle, hay) <==> exists a, x, b :: hay == a + x + b && SameFold(x, needle)
  {
    if OccursFold(needle, hay) {
      var i :| 0 <= i <= |Fold(hay)| && OccursAt(Fold(needle), Fold(hay), i);
      var x := hay[i..i + |needle|];
      assert hay == hay[..i] + x + hay[i + |needle|..];
      assert forall k :: 0 <= k < |x| ==> Fold(x)[k] == Fold(hay)[i..i + |needle|][k];
      assert Fold(x) == Fold(needle);
    }
    forall a, x, b | hay == a + x + b && SameFold(x, needle)
      ensures OccursFold(needle, hay)
    {
      FoldMiddle(a, x, b);
      assert OccursAt(Fold(needle), Fold(hay), |a|);
    }
  }

  lemma FoldMiddle(a: string, x: string, b: string)
    ensures Fold(a + x + b)[|a|..|a| + |x|] == Fold(x)
  {
    var all := a + x + b;
    assert forall k :: 0 <= k < |x| ==> Fold(all)[|a|..|a| + |x|][k] == Lower(all[|a| + k]) == Lower(x[k]);
  }
}
