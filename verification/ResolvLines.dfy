/** What the scans of resolv.conf see in a line, character by character, and the codes of the two
    setters (BSD/resolvconf.c). */
module ResolvLines {
  import opened Text
  import opened Resolv

  /** White space of the C locale: blank, tab, newline, vertical tab, form feed, carriage return. */
  predicate Space(c: char) {
    c == ' ' || c == '\t' || c == '\n' || c == 11 as char || c == 12 as char || c == '\r'
  }

  predicate Spaces(s: string) {
    forall i :: 0 <= i < |s| ==> Space(s[i])
  }

  /** Nothing to skip. */
  predicate Solid(s: string) {
    s == "" || !Space(s[0])
  }

  lemma SpaceIs(c: char)
    ensures Space(c) <==> IsWs(c)
  {
    assert '\t' as int == 9 && '\n' as int == 10 && '\r' as int == 13;
  }

  lemma {:induction false} Skips(p: string, t: string)
    requires Spaces(p) && Solid(t)
    ensures SkipWs(p + t) == t
  {
    hide Space, IsWs;
    if p == "" {
      assert p + t == t;
      if t != "" {
        SpaceIs(t[0]);
      }
    } else {
      SpaceIs(p[0]);
      TailAppend(p, t);
      Skips(p[1..], t);
    }
  }

  /** Behind white space stands the word, and behind that white space or none. */
  lemma Finds(p: string, word: string, q: string, t: string)
    requires Spaces(p) && word != "" && Solid(word) && Spaces(q) && Solid(t)
    ensures Behind(p + word + q + t, word) == Some(t)
  {
    hide SkipWs, Spaces;
    Regroup(p, word, q, t);
    Associative(word, q, t);
    Skips(p, word + q + t);
    assert word <= word + q + t && (word + q + t)[|word|..] == q + t;
    Skips(q, t);
  }

  lemma FindsNot(p: string, t: string, word: string)
    requires Spaces(p) && Solid(t) && !(word <= t)
    ensures Behind(p + t, word) == None
  {
    Skips(p, t);
  }

  lemma {:induction false} Takes(w: string, rest: string, max: nat)
    requires (forall i :: 0 <= i < |w| ==> !Space(w[i])) && (rest == "" || Space(rest[0]))
    ensures TakeWord(w + rest, max) == w[..Min(|w|, max)]
  {
    hide Space, IsWs;
    if w == "" {
      assert w + rest == rest;
      if rest != "" {
        SpaceIs(rest[0]);
      }
    } else if max > 0 {
      SpaceIs(w[0]);
      TailAppend(w, rest);
      Takes(w[1..], rest, max - 1);
      assert w[..Min(|w|, max)] == [w[0]] + w[1..][..Min(|w| - 1, max - 1)];
    }
  }

  /** A line names a nameserver when it starts, behind any white space, with the word "nameserver" and
      something follows: up to the next white space, and 46 characters of it at most. */
  lemma ScanNameserver(p: string, q: string, w: string, rest: string)
    requires Spaces(p) && Spaces(q) && (forall i :: 0 <= i < |w| ==> !Space(w[i]))
    requires rest == "" || (w != "" && Space(rest[0]))
    ensures ScanDns(p + "nameserver" + q + (w + rest)) ==
      if w == "" then None else Some(if |w| <= 46 then w else w[..46])
  {
    hide Behind, TakeWord, Space;
    assert Solid(w + rest) by {
      assert w != "" ==> (w + rest)[0] == w[0];
    }
    assert Solid("nameserver") by {
      SolidWords();
    }
    Finds(p, "nameserver", q, w + rest);
    Takes(w, rest, 46);
    assert |w| <= 46 ==> w[..|w|] == w;
  }

  lemma SolidWords()
    ensures Solid("nameserver") && Solid("search")
  {
  }

  /** ... and no other line does. */
  lemma ScanOther(p: string, t: string)
    requires Spaces(p) && Solid(t)
    ensures !("nameserver" <= t) ==> ScanDns(p + t) == None
    ensures !("search" <= t) ==> ScanSearch(p + t) == None
  {
    hide Behind, Spaces, Solid;
    if !("nameserver" <= t) {
      FindsNot(p, t, "nameserver");
    }
    if !("search" <= t) {
      FindsNot(p, t, "search");
    }
  }

  /** A line is a search list when it starts, behind any white space, with the word "search" and something
      follows: all of it up to the newline, blanks too. */
  lemma ScanSearchWords(p: string, q: string, list: string, rest: string)
    requires Spaces(p) && Spaces(q) && '\n' !in list && Solid(list)
    requires rest == "" || (list != "" && rest[0] == '\n')
    ensures ScanSearch(p + "search" + q + (list + rest)) == if list == "" then None else Some(list)
  {
    hide Behind, Space;
    assert Solid(list + rest) by {
      assert list != "" ==> (list + rest)[0] == list[0];
    }
    assert Solid("search") by {
      SolidWords();
    }
    Finds(p, "search", q, list + rest);
    IndexOfUnique(list + rest, '\n', |list|);
    assert (list + rest)[..|list|] == list;
  }

  // ---- codes --------------------------------------------------------------

  lemma {:induction false} FindTooMany(lines: seq<string>, dns: string, i: nat)
    ensures FindDns(lines, dns, i) == TooMany <==>
      exists k :: 0 <= k < |lines| && i + k >= 255 && ScanDns(lines[k]).Some? &&
        forall j :: 0 <= j <= k ==> ScanDns(lines[j]) != Some(dns)
  {
    if lines != [] {
      var rest := lines[1..];
      FindTooMany(rest, dns, i + 1);
      assert forall j :: 0 <= j < |rest| ==> lines[j + 1] == rest[j];
      if FindDns(lines, dns, i) == TooMany && FindDns(rest, dns, i + 1) == TooMany && ScanDns(lines[0]) != Some(dns) {
        var k :| 0 <= k < |rest| && i + 1 + k >= 255 && ScanDns(rest[k]).Some? &&
          forall j :: 0 <= j <= k ==> ScanDns(rest[j]) != Some(dns);
        assert ScanDns(lines[k + 1]).Some? && forall j :: 1 <= j <= k + 1 ==> lines[j] == rest[j - 1];
      }
    }
  }

  /** Behind 255 lines a nameserver is met, and the one that is to be set is not met up to there. */
  predicate LateOther(lines: seq<string>, dns: string, k: int) {
    255 <= k < |lines| && ScanDns(lines[k]).Some? && forall j :: 0 <= j <= k ==> ScanDns(lines[j]) != Some(dns)
  }

  /** Setting a nameserver: -22 exactly for a text of more than 46 characters, and -34 exactly when another
      nameserver stands behind 255 lines or more and in front of the one that is to be set. */
  lemma SetDnsCodes(lines: seq<string>, dns: string)
    ensures var r := SetDns(lines, dns);
      && (r.res == -22 <==> |dns| > 46)
      && (r.res == -34 <==> |dns| <= 46 && exists k :: LateOther(lines, dns, k))
      && (r.res == -22 || r.res == -34 || r.res == 0)
      && (r.res != 0 ==> r.lines == lines)
  {
    FindTooMany(lines, dns, 0);
    if FindDns(lines, dns, 0) == TooMany {
      var k :| 0 <= k < |lines| && 0 + k >= 255 && ScanDns(lines[k]).Some? &&
        forall j :: 0 <= j <= k ==> ScanDns(lines[j]) != Some(dns);
      assert LateOther(lines, dns, k);
    }
  }

  /** Setting a search list: -22 exactly for a text of 256 characters or more. */
  lemma SetSearchCodes(lines: seq<string>, list: string)
    ensures var r := SetSearch(lines, list);
      if |list| >= 256 then r == Edited(-22, lines) else r.res == 0
  {
  }
}
