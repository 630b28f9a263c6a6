/** Lists of names as values: case-insensitive search and removal, their text form in a bounded
    buffer, and their comparison with a requested text (namelist.c, nettool.c). */
module Names {
  import opened Text

  /** `namelist_search` finds the name. */
  predicate Has(names: seq<string>, name: string) {
    names != [] && (SameFold(names[0], name) || Has(names[1..], name))
  }

  /** `namelist_remove`: the first name that matches goes. */
  function RemoveName(names: seq<string>, name: string): seq<string> {
    if names == [] then []
    else if SameFold(names[0], name) then names[1..]
    else [names[0]] + RemoveName(names[1..], name)
  }

  lemma {:induction false} HasMeans(names: seq<string>, name: string)
    ensures Has(names, name) <==> exists n :: n in names && SameFold(n, name)
  {
    if names != [] {
      HasMeans(names[1..], name);
      assert names == [names[0]] + names[1..];
    }
  }

  lemma {:induction false} FirstMatch(names: seq<string>, name: string, k: nat)
    requires k <= |names| && (forall i :: 0 <= i < k ==> !SameFold(names[i], name))
    requires k < |names| ==> SameFold(names[k], name)
    ensures Has(names, name) <==> k < |names|
    ensures RemoveName(names, name) == if k < |names| then names[..k] + names[k + 1..] else names
  {
    if k > 0 {
      FirstMatch(names[1..], name, k - 1);
    }
  }

  /** No two names are the same but for case. */
  predicate NoRepeat(names: seq<string>) {
    names == [] || (!Has(names[1..], names[0]) && NoRepeat(names[1..]))
  }

  // ---- text form ----------------------------------------------------------

  /** Each name followed by the delimiter. */
  function Written(names: seq<string>, d: char): string {
    if names == [] then "" else names[0] + [d] + Written(names[1..], d)
  }

  /** `print_namelist_to_str_delim` with `used` characters already in a buffer of `size`:
      how many names are written before the first that does not fit. */
  function FitCount(names: seq<string>, used: nat, size: nat): (k: nat)
    ensures k <= |names|
  {
    if names == [] || |names[0]| + used >= size - 1 then 0
    else 1 + FitCount(names[1..], used + |names[0]| + 1, size)
  }

  function Printed(names: seq<string>, d: char, size: nat): string {
    PrintRest(names, d, 0, size)
  }

  /** What is still to be written behind `used` characters. */
  function PrintRest(names: seq<string>, d: char, used: nat, size: nat): string {
    Written(names[..FitCount(names, used, size)], d)
  }

  /** One turn of the printing loop at name `k`, with `acc` in the buffer. */
  lemma PrintStep(names: seq<string>, d: char, size: nat, k: nat, acc: string, goal: string)
    requires k <= |names| && goal == acc + PrintRest(names[k..], d, |acc|, size)
    ensures k == |names| || |names[k]| + |acc| >= size - 1 ==> goal == acc
    ensures k < |names| && |names[k]| + |acc| < size - 1 ==>
      var now := acc + (names[k] + [d]); goal == now + PrintRest(names[k + 1..], d, |now|, size)
  {
    if k < |names| && |names[k]| + |acc| < size - 1 {
      var now, rest := acc + (names[k] + [d]), names[k + 1..];
      var c := FitCount(rest, |now|, size);
      assert names[k..][1..] == rest && names[k..][..c + 1] == [names[k]] + rest[..c];
      Associative(acc, names[k] + [d], Written(rest[..c], d));
    }
  }

  predicate GoodName(name: string, d: char) {
    name != "" && d !in name
  }

  predicate GoodNames(names: seq<string>, d: char) {
    forall n <- names :: GoodName(n, d)
  }

  lemma {:induction false} WrittenAppend(a: seq<string>, b: seq<string>, d: char)
    ensures Written(a + b, d) == Written(a, d) + Written(b, d)
  {
    if a == [] {
      assert a + b == b;
    } else {
      WrittenAppend(a[1..], b, d);
      TailAppend(a, b);
    }
  }

  /** The output is whole names up to the first that does not fit: everything written fits the
      buffer with its NUL, and one more name would not. */
  lemma {:induction false} FitExact(names: seq<string>, d: char, used: nat, size: nat)
    requires used < size
    ensures var k := FitCount(names, used, size);
      && used + |Written(names[..k], d)| < size
      && (k < |names| ==> used + |Written(names[..k + 1], d)| >= size)
    ensures FitCount(names, used, size) == |names| <==> used + |Written(names, d)| < size
  {
    var k := FitCount(names, used, size);
    if names != [] {
      if k == 0 {
        assert names[..1] == [names[0]];
        WrittenAppend([names[0]], names[1..], d);
        assert names == [names[0]] + names[1..];
      } else {
        FitExact(names[1..], d, used + |names[0]| + 1, size);
        assert names[..k] == [names[0]] + names[1..][..k - 1];
        assert k < |names| ==> names[..k + 1] == [names[0]] + names[1..][..k];
      }
    }
  }

  /** Splitting what was written gives back the names. */
  lemma {:induction false} SplitWritten(names: seq<string>, d: char)
    requires GoodNames(names, d)
    ensures Tokens(Written(names, d), d) == names
  {
    if names != [] {
      assert GoodName(names[0], d) && forall n <- names[1..] :: n in names;
      SplitWritten(names[1..], d);
      TokensCut(names[0], d, Written(names[1..], d));
    }
  }

  /** Bounded printing and its inverse: splitting the output gives back a prefix of the list,
      and the whole list exactly when its text fits the buffer with its NUL. */
  lemma PrintSplit(names: seq<string>, d: char, size: nat)
    requires size > 0 && GoodNames(names, d)
    ensures |Printed(names, d, size)| < size
    ensures Tokens(Printed(names, d, size), d) == names[..FitCount(names, 0, size)]
    ensures Tokens(Printed(names, d, size), d) == names <==> |Written(names, d)| < size
  {
    var k := FitCount(names, 0, size);
    FitExact(names, d, 0, size);
    SplitWritten(names[..k], d);
    assert k == |names| ==> names[..k] == names;
  }

  // ---- comparison ---------------------------------------------------------

  predicate IsRemove(t: string) {
    OccursFold("remove", t)
  }

  /** `namelist_compare`, leaving out the names in `skip`: every token that is not a removal is in
      the list, and every name that is not skipped occurs in the text. */
  predicate Matches(names: seq<string>, skip: seq<string>, str: string, d: char) {
    && (forall t <- Tokens(str, d) :: IsRemove(t) || Has(names, t))
    && (forall n <- names :: Has(skip, n) || OccursFold(n, str))
  }

  /** Requested and present names are the same set, ignoring case: every token that is not a
      removal is in the list, and every name that is not skipped is a token. */
  predicate SameSets(names: seq<string>, skip: seq<string>, str: string, d: char) {
    && (forall t <- Tokens(str, d) :: IsRemove(t) || Has(names, t))
    && (forall n <- names :: Has(skip, n) || Has(Tokens(str, d), n))
  }

  lemma OccursMap(a: string, b: string)
    requires Occurs(a, b)
    ensures OccursFold(a, b)
  {
    var i :| 0 <= i <= |b| && OccursAt(a, b, i);
    assert forall k :: 0 <= k < |a| ==> a[k] == b[i..i + |a|][k] == b[i + k];
    assert Fold(b)[i..i + |a|] == Fold(a);
    assert OccursAt(Fold(a), Fold(b), i);
  }

  /** A token occurs in the text. */
  lemma {:induction false} TokenOccurs(s: string, d: char, t: string)
    requires t in Tokens(s, d)
    ensures Occurs(t, s)
    decreases |s|
  {
    var k := IndexOf(s, d);
    if k > 0 && t == s[..k] {
      assert OccursAt(t, s, 0);
    } else {
      TokenOccurs(s[k + 1..], d, t);
      var i :| 0 <= i <= |s[k + 1..]| && OccursAt(t, s[k + 1..], i);
      assert OccursAt(t, s, k + 1 + i);
    }
  }

  /** A name that is a token, up to case, occurs in the text, up to case. */
  lemma TokenOccursFold(s: string, d: char, n: string)
    requires Has(Tokens(s, d), n)
    ensures OccursFold(n, s)
  {
    HasMeans(Tokens(s, d), n);
    var t :| t in Tokens(s, d) && SameFold(t, n);
    TokenOccurs(s, d, t);
    OccursMap(t, s);
  }

  /** The delimiter is not a letter. */
  predicate PlainDelim(d: char) {
    !('A' <= d <= 'Z') && !('a' <= d <= 'z')
  }

  lemma OccursNoDelim(n: string, s: string, d: char, i: nat)
    requires GoodName(n, d) && PlainDelim(d) && OccursAt(Fold(n), Fold(s), i)
    ensures i + |n| <= |s| && forall x :: i <= x < i + |n| ==> s[x] != d
  {
    forall x | i <= x < i + |n|
      ensures s[x] != d
    {
      assert Lower(n[x - i]) == Fold(n)[x - i] == Fold(s)[i..i + |n|][x - i] == Lower(s[x]);
    }
  }

  lemma OccursPart(n: string, s: string, i: nat, a: nat, b: nat)
    requires OccursAt(Fold(n), Fold(s), i) && a <= i && i + |n| <= b <= |s|
    ensures OccursAt(Fold(n), Fold(s[a..b]), i - a)
  {
    var t, j := s[a..b], i - a;
    forall x | 0 <= x < |n|
      ensures Fold(t)[j..j + |n|][x] == Fold(n)[x]
    {
      assert Fold(s)[i..i + |n|][x] == Lower(s[i + x]) == Lower(t[j + x]);
    }
    assert Fold(t)[j..j + |n|] == Fold(n);
  }

  /** ... it lies on one side of a delimiter. */
  lemma OccursInHalf(n: string, w: string, d: char, rest: string, i: nat) returns (left: bool)
    requires GoodName(n, d) && PlainDelim(d) && OccursAt(Fold(n), Fold(w + [d] + rest), i)
    ensures left ==> w != "" && OccursFold(n, w)
    ensures !left ==> i > |w| && OccursAt(Fold(n), Fold(rest), i - |w| - 1)
  {
    var s := w + [d] + rest;
    OccursNoDelim(n, s, d, i);
    assert s[|w|] == d;
    left := i + |n| <= |w|;
    if left {
      OccursPart(n, s, i, 0, |w|);
      assert s[0..|w|] == w;
    } else {
      OccursPart(n, s, i, |w| + 1, |s|);
      assert s[|w| + 1..|s|] == rest;
    }
  }

  /** A name without the delimiter that occurs in the text occurs inside one of its tokens. */
  lemma {:induction false} OccursInToken(n: string, s: string, d: char, i: nat) returns (t: string)
    requires GoodName(n, d) && PlainDelim(d) && OccursAt(Fold(n), Fold(s), i)
    ensures t in Tokens(s, d) && OccursFold(n, t)
    decreases |s|
  {
    if d !in s {
      TokenOne(s, d);
      t := s;
    } else {
      var w, rest := FirstCut(s, d);
      TokensCut(w, d, rest);
      var left := OccursInHalf(n, w, d, rest, i);
      if left {
        t := w;
        assert t in Token(w);
      } else {
        t := OccursInToken(n, rest, d, i - |w| - 1);
      }
    }
  }

  lemma OccursTrans(a: string, b: string, c: string)
    requires Occurs(a, b) && Occurs(b, c)
    ensures Occurs(a, c)
  {
    var i :| 0 <= i <= |b| && OccursAt(a, b, i);
    var j :| 0 <= j <= |c| && OccursAt(b, c, j);
    assert forall k :: 0 <= k < |a| ==> a[k] == b[i..i + |a|][k] == b[i + k] == c[j..j + |b|][i + k] == c[j + i + k];
    assert c[j + i..j + i + |a|] == a;
    assert OccursAt(a, c, j + i);
  }

  /** A name occurs inside one of the tokens. */
  predicate InToken(n: string, str: string, d: char) {
    exists t <- Tokens(str, d) :: OccursFold(n, t)
  }

  lemma OccursIsInToken(n: string, str: string, d: char)
    requires GoodName(n, d) && PlainDelim(d)
    ensures OccursFold(n, str) <==> InToken(n, str, d)
  {
    if OccursFold(n, str) {
      var i :| 0 <= i <= |str| && OccursAt(Fold(n), Fold(str), i);
      var t := OccursInToken(n, str, d, i);
    } else if InToken(n, str, d) {
      var t :| t in Tokens(str, d) && OccursFold(n, t);
      TokenOccurs(str, d, t);
      OccursMap(t, str);
      OccursTrans(Fold(n), Fold(t), Fold(str));
    }
  }

  /** The comparison never reports a difference when the requested and the present names agree. */
  lemma AgreeingListsMatch(names: seq<string>, skip: seq<string>, str: string, d: char)
    requires SameSets(names, skip, str, d)
    ensures Matches(names, skip, str, d)
  {
    forall n | n in names && !Has(skip, n)
      ensures OccursFold(n, str)
    {
      TokenOccursFold(str, d, n);
    }
  }

  /** Every requested name is present and every name that is compared is part of a requested one, but
      one of them is no requested name itself. */
  predicate PartsOnly(names: seq<string>, skip: seq<string>, str: string, d: char) {
    && (forall t <- Tokens(str, d) :: IsRemove(t) || Has(names, t))
    && (forall n <- names :: Has(skip, n) || InToken(n, str, d))
    && (exists n <- names :: !Has(skip, n) && !Has(Tokens(str, d), n))
  }

  /** The comparison is set equality exactly when it is not misled by parts of longer names. */
  lemma MatchesExactly(names: seq<string>, skip: seq<string>, str: string, d: char)
    requires GoodNames(names, d) && PlainDelim(d)
    ensures (Matches(names, skip, str, d) <==> SameSets(names, skip, str, d)) <==> !PartsOnly(names, skip, str, d)
  {
    forall n | n in names
      ensures OccursFold(n, str) <==> InToken(n, str, d)
    {
      OccursIsInToken(n, str, d);
    }
    if SameSets(names, skip, str, d) {
      AgreeingListsMatch(names, skip, str, d);
    }
  }

  /** So it is when no compared name is part of a longer token. */
  lemma NoPartsMatch(names: seq<string>, skip: seq<string>, str: string, d: char)
    requires GoodNames(names, d) && PlainDelim(d)
    requires forall n <- names, t <- Tokens(str, d) :: !Has(skip, n) && OccursFold(n, t) ==> SameFold(t, n)
    ensures Matches(names, skip, str, d) <==> SameSets(names, skip, str, d)
  {
    MatchesExactly(names, skip, str, d);
    forall n | n in names && !Has(skip, n) && InToken(n, str, d)
      ensures Has(Tokens(str, d), n)
    {
      HasMeans(Tokens(str, d), n);
    }
  }

  /** For every name with a proper part: the part, present beside it, is taken for requested. */
  lemma PartOfTokenMatches(a: string, b: string, d: char)
    requires GoodName(b, d) && Occurs(a, b) && |a| < |b|
    ensures Matches([a, b], [], b, d) && !SameSets([a, b], [], b, d)
  {
    TokenOne(b, d);
    OccursMap(a, b);
    assert OccursAt(b, b, 0);
    OccursMap(b, b);
    assert [a, b][1..] == [b];
    assert |Fold(a)| != |Fold(b)|;
    assert a in [a, b] && !Has(Tokens(b, d), a);
  }

  /** For example, an address that begins another one. */
  lemma LongerAddressMatches()
    ensures Matches(["10.0.0.1", "10.0.0.12"], [], "10.0.0.12", ' ')
    ensures !SameSets(["10.0.0.1", "10.0.0.12"], [], "10.0.0.12", ' ')
  {
    assert OccursAt("10.0.0.1", "10.0.0.12", 0);
    PartOfTokenMatches("10.0.0.1", "10.0.0.12", ' ');
  }

  // ---- what a removal is --------------------------------------------------

  /** Somewhere in the token stands "remove", in any case. */
  ghost predicate SaysRemove(t: string) {
    exists a, x, b :: t == a + x + b && SameFold(x, "remove")
  }

  /** When the comparison finds no difference, each token is in the list ignoring case or says "remove". */
  lemma MatchedTokens(names: seq<string>, skip: seq<string>, str: string, d: char, t: string)
    requires Matches(names, skip, str, d) && t in Tokens(str, d)
    ensures (exists n <- names :: SameFold(n, t)) || exists a, x, b :: t == a + x + b && SameFold(x, "remove")
  {
    HasMeans(names, t);
    OccursFoldMeans("remove", t);
  }

  /** A request of removals alone matches the empty list. */
  lemma RemovalsMatchNothing(str: string, d: char)
    requires forall t <- Tokens(str, d) :: SaysRemove(t)
    ensures Matches([], [], str, d)
  {
    forall t | t in Tokens(str, d)
      ensures IsRemove(t)
    {
      OccursFoldMeans("remove", t);
    }
  }

  /** The comparison in full: no difference is found exactly when each token that does not say "remove"
      is in the list and each name that is not skipped stands in the text, all ignoring case. */
  lemma MatchesMeans(names: seq<string>, skip: seq<string>, str: string, d: char)
    ensures Matches(names, skip, str, d) <==>
      && (forall t <- Tokens(str, d) :: SaysRemove(t) || exists n <- names :: SameFold(n, t))
      && (forall n <- names :: (exists s <- skip :: SameFold(s, n)) || StandsIn(n, str))
  {
    forall t
      ensures IsRemove(t) <==> SaysRemove(t)
      ensures Has(names, t) <==> exists n <- names :: SameFold(n, t)
      ensures Has(skip, t) <==> exists s <- skip :: SameFold(s, t)
      ensures OccursFold(t, str) <==> StandsIn(t, str)
    {
      OccursFoldMeans("remove", t);
      OccursFoldMeans(t, str);
      HasMeans(names, t);
      HasMeans(skip, t);
    }
  }

  ghost predicate StandsIn(n: string, str: string) {
    exists a, x, b :: str == a + x + b && SameFold(x, n)
  }

  lemma NoRemoval(a: string, x: string, b: string)
    requires "8.8.4.4" == a + x + b
    ensures !SameFold(x, "remove")
  {
    var t := "8.8.4.4";
    SameFoldMeans(x, "remove");
    if |x| == 6 {
      assert t[|a|] == x[0];
      assert t[|a|] == '8' || t[|a|] == '.';
    }
  }

  lemma OtherServer(n: string)
    requires n == "8.8.8.8"
    ensures !SameFold(n, "8.8.4.4")
  {
    SameFoldMeans(n, "8.8.4.4");
    assert n[4] == '8' && "8.8.4.4"[4] == '4';
  }

  lemma TwoServers()
    ensures "8.8.4.4" in Tokens("8.8.8.8 8.8.4.4", ' ')
  {
    var a, b := "8.8.8.8", "8.8.4.4";
    TokensCut(a, ' ', b);
    TokenOne(b, ' ');
    assert a + [' '] + b == "8.8.8.8 8.8.4.4";
  }

  /** For example, a requested server that is not there. */
  lemma RealDifference()
    ensures !Matches(["8.8.8.8"], [], "8.8.8.8 8.8.4.4", ' ')
  {
    hide Matches, Tokens, SameFold;
    var names := ["8.8.8.8"];
    if Matches(names, [], "8.8.8.8 8.8.4.4", ' ') {
      TwoServers();
      MatchedTokens(names, [], "8.8.8.8 8.8.4.4", ' ', "8.8.4.4");
      forall a, x, b | "8.8.4.4" == a + x + b
        ensures !SameFold(x, "remove")
      {
        NoRemoval(a, x, b);
      }
      forall n | n in names
        ensures !SameFold(n, "8.8.4.4")
      {
        OtherServer(n);
      }
    }
  }

  /** A request for one name is not met by one other. */
  lemma OneOther(there: string, asked: string)
    requires GoodName(asked, ' ') && !SameFold(there, asked) && !SaysRemove(asked)
    ensures !Matches([there], [], asked, ' ')
  {
    TokenOne(asked, ' ');
    assert asked in Tokens(asked, ' ');
    if Matches([there], [], asked, ' ') {
      MatchedTokens([there], [], asked, ' ', asked);
    }
  }
}
