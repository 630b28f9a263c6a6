/** When saving a sub-list again, into the store that the last save of it left, changes nothing. */
module Resave {
  import opened Text
  import opened RcLine
  import opened RcItems
  import opened Numbered

  /** The prefixed items stand at the end, numbered from 0, and are `n` at most. */
  predicate TailNumbered(ns: Naming, items: seq<Item>, n: nat) {
    var f := |Clean(items, ns.prefix)|;
    |items| - f <= n && forall i: nat :: f <= i < |items| ==> items[i].key == ns.Full(i - f)
  }

  /** `f` items without the prefix, and behind them those numbered 0 .. c-1. */
  predicate Layout(ns: Naming, items: seq<Item>, f: nat, c: nat) {
    && |items| == f + c
    && (forall i :: 0 <= i < f ==> !(ns.prefix <= items[i].key))
    && forall j :: 0 <= j < c ==> items[f + j].key == ns.Full(j)
  }

  lemma {:induction false} CleanAll(items: seq<Item>, prefix: string)
    requires forall it <- items :: prefix <= it.key
    ensures Clean(items, prefix) == []
  {
    if items != [] {
      CleanAll(items[1..], prefix);
    }
  }

  lemma {:induction false} CleanLength(items: seq<Item>, prefix: string)
    ensures |Clean(items, prefix)| <= |items|
    ensures |Clean(items, prefix)| == |items| ==> forall it <- items :: !(prefix <= it.key)
  {
    if items != [] {
      CleanLength(items[1..], prefix);
      assert items == [items[0]] + items[1..];
    }
  }

  lemma CleanParts(items: seq<Item>, prefix: string, f: nat)
    requires f <= |items| && forall i :: f <= i < |items| ==> prefix <= items[i].key
    ensures Clean(items, prefix) == Clean(items[..f], prefix)
  {
    CleanAppend(items[..f], items[f..], prefix);
    assert items == items[..f] + items[f..];
    CleanAll(items[f..], prefix);
    assert Clean(items[..f], prefix) + [] == Clean(items[..f], prefix);
  }

  lemma FullIsPrefixed(ns: Naming, i: nat)
    ensures ns.prefix <= ns.Full(i)
  {
  }

  lemma LayoutClean(ns: Naming, items: seq<Item>, f: nat, c: nat)
    requires Layout(ns, items, f, c)
    ensures Clean(items, ns.prefix) == items[..f]
  {
    forall i | f <= i < |items|
      ensures ns.prefix <= items[i].key
    {
      assert items[f + (i - f)].key == ns.Full(i - f);
    }
    CleanParts(items, ns.prefix, f);
    CleanNothing(items[..f], ns.prefix);
  }

  /** The two descriptions agree. */
  lemma LayoutOfTail(ns: Naming, items: seq<Item>, n: nat)
    ensures var f := |Clean(items, ns.prefix)|;
      TailNumbered(ns, items, n) <==> f <= |items| <= f + n && Layout(ns, items, f, |items| - f)
  {
    var f := |Clean(items, ns.prefix)|;
    CleanLength(items, ns.prefix);
    if TailNumbered(ns, items, n) {
      CleanParts(items, ns.prefix, f);
      CleanLength(items[..f], ns.prefix);
      forall i | 0 <= i < f
        ensures !(ns.prefix <= items[i].key)
      {
        assert items[i] == items[..f][i];
      }
    }
  }

  lemma TailOfLayout(ns: Naming, items: seq<Item>, f: nat, n: nat)
    requires f <= |items| <= f + n && Layout(ns, items, f, |items| - f)
    ensures TailNumbered(ns, items, n)
  {
    LayoutClean(ns, items, f, |items| - f);
    assert |items[..f]| == f;
    LayoutOfTail(ns, items, n);
  }

  /** Setting the entry of element `i` keeps a layout or extends it. */
  lemma LayoutSet(ns: Naming, items: seq<Item>, f: nat, c: nat, i: nat, val: string)
    requires Layout(ns, items, f, c) && i <= c
    ensures Layout(ns, SetItem(items, ns.Full(i), val), f, if i == c then c + 1 else c)
  {
    var k := FindKey(items, ns.Full(i));
    FindKeyFirst(items, ns.Full(i));
    if i == c && k < |items| {
      var j := k - f;
      assert k >= f && items[f + j].key == ns.Full(j);
      FullInjective(ns, i, j);
    } else if i < c {
      assert items[f + i].key == ns.Full(i);
    }
  }

  lemma SetKeepsKeys(items: seq<Item>, key: string, val: string)
    ensures var now := SetItem(items, key, val);
      && |now| == |items| + (if HasKey(items, key) then 0 else 1)
      && (forall i :: 0 <= i < |items| ==> now[i].key == items[i].key)
      && (!HasKey(items, key) ==> now[|items|].key == key)
  {
  }

  lemma SetKeepsHas(items: seq<Item>, key: string, val: string, k: string)
    ensures HasKey(SetItem(items, key, val), k) <==> HasKey(items, k) || k == key
  {
    SetLookup(items, key, val, k);
  }

  /** A save completes a layout that starts with its elements. */
  lemma {:induction false} LayoutSaved(ns: Naming, vals: seq<string>, items: seq<Item>, f: nat, c: nat, i: nat)
    requires i <= c <= |vals| && GoodNames(ns, |vals|) && Layout(ns, items, f, c) && HasKey(items, ns.key)
    ensures Layout(ns, ApplyEdits(items, SaveEdits(ns, vals, i)), f, |vals|)
    decreases |vals| - i
  {
    if i < |vals| {
      var now := SetItem(items, ns.Full(i), vals[i]);
      assert CutKey(ns.Full(i)) == ns.Full(i);
      LayoutSet(ns, items, f, c, i, vals[i]);
      SetKeepsHas(items, ns.Full(i), vals[i], ns.key);
      assert SaveEdits(ns, vals, i)[1..] == SaveEdits(ns, vals, i + 1);
      LayoutSaved(ns, vals, now, f, if i == c then c + 1 else c, i + 1);
    } else {
      SetKeepsKeys(items, ns.key, ns.Index(|vals|));
    }
  }

  /** A save keeps the keys there are in their places; behind them come keys of elements and, if it
      is new, that of the index, which then is the last. */
  lemma {:induction false} SaveGrows(ns: Naming, vals: seq<string>, items: seq<Item>, i: nat)
    requires i <= |vals| && GoodNames(ns, |vals|)
    ensures var now := ApplyEdits(items, SaveEdits(ns, vals, i));
      && |items| <= |now|
      && (forall k :: 0 <= k < |items| ==> now[k].key == items[k].key)
      && (if HasKey(items, ns.key) then forall k :: |items| <= k < |now| ==> ns.prefix <= now[k].key
          else |now| > 0 && now[|now| - 1].key == ns.key)
    decreases |vals| - i
  {
    if i < |vals| {
      var now := SetItem(items, ns.Full(i), vals[i]);
      assert CutKey(ns.Full(i)) == ns.Full(i);
      SetKeepsKeys(items, ns.Full(i), vals[i]);
      SetKeepsHas(items, ns.Full(i), vals[i], ns.key);
      FullIsPrefixed(ns, i);
      assert SaveEdits(ns, vals, i)[1..] == SaveEdits(ns, vals, i + 1);
      SaveGrows(ns, vals, now, i + 1);
    } else {
      SetKeepsKeys(items, ns.key, ns.Index(|vals|));
    }
  }

  lemma {:induction false} EntriesAt(ns: Naming, vals: seq<string>, i: nat)
    requires i <= |vals|
    ensures var es := Entries(ns, vals, i);
      |es| == |vals| - i && forall k :: 0 <= k < |es| ==> es[k] == Item(ns.Full(i + k), vals[i + k])
    decreases |vals| - i
  {
    if i < |vals| {
      EntriesAt(ns, vals, i + 1);
      assert forall k :: 0 < k < |vals| - i ==> Entries(ns, vals, i)[k] == Entries(ns, vals, i + 1)[k - 1];
    }
  }

  lemma FoundAt(items: seq<Item>, k: nat)
    requires DistinctKeys(items) && k < |items|
    ensures Lookup(items, items[k].key) == Some(items[k].val)
  {
    DistinctKeysMeans(items);
    FindKeyIs(items, items[k].key, k);
  }

  lemma EntryIs(ns: Naming, vals: seq<string>, saved: seq<Item>, f: nat, j: nat)
    requires DistinctKeys(saved) && Layout(ns, saved, f, |vals|) && j < |vals|
    requires Lookup(saved, ns.Full(j)) == Some(vals[j])
    ensures saved[f + j] == Item(ns.Full(j), vals[j])
  {
    assert saved[f + j].key == ns.Full(j);
    FoundAt(saved, f + j);
  }

  /** A saved store in this layout ends in the entries of all elements. */
  lemma LayoutIsEntries(ns: Naming, vals: seq<string>, saved: seq<Item>, f: nat)
    requires DistinctKeys(saved) && Layout(ns, saved, f, |vals|)
    requires forall i :: 0 <= i < |vals| ==> Lookup(saved, ns.Full(i)) == Some(vals[i])
    ensures saved == saved[..f] + Entries(ns, vals, 0)
  {
    hide DistinctKeys, Lookup, Entries;
    var es := Entries(ns, vals, 0);
    EntriesAt(ns, vals, 0);
    forall j | 0 <= j < |vals|
      ensures saved[f..][j] == es[j]
    {
      EntryIs(ns, vals, saved, f, j);
    }
    assert saved[f..] == es;
    assert saved == saved[..f] + saved[f..];
  }

  lemma SetSame(items: seq<Item>, key: string, val: string)
    requires Lookup(items, key) == Some(val)
    ensures SetItem(items, key, val) == items
  {
  }

  /** What the next save leaves: the other items and the entries of all elements behind them. */
  lemma ResavedIs(ns: Naming, vals: seq<string>, items: seq<Item>)
    requires vals != [] && DistinctKeys(items) && !(ns.prefix <= ns.key)
    requires GoodNames(ns, |vals|) && Fits(ns, |vals|)
    ensures var saved := Save(ns, vals, items).items;
      Save(ns, vals, Clean(saved, ns.prefix)).items == Clean(saved, ns.prefix) + Entries(ns, vals, 0)
  {
    var saved := Save(ns, vals, items).items;
    SavedLookup(ns, vals, items);
    LoadSaved(ns, vals, items);
    IndexAndEntriesAgree(ns, vals, saved);
    CleanLookup(saved, ns.prefix, ns.key);
    SetSame(Clean(saved, ns.prefix), ns.key, ns.Index(|vals|));
  }

  lemma {:induction false} CleanAt(items: seq<Item>, prefix: string, i: nat)
    requires i < |Clean(items, prefix)|
    ensures !(prefix <= Clean(items, prefix)[i].key)
  {
    CleanIsClean(items, prefix);
    assert Clean(items, prefix)[i] in Clean(items, prefix);
  }

  lemma LayoutConcat(ns: Naming, front: seq<Item>, es: seq<Item>)
    requires forall i :: 0 <= i < |front| ==> !(ns.prefix <= front[i].key)
    requires forall j :: 0 <= j < |es| ==> es[j].key == ns.Full(j)
    ensures Layout(ns, front + es, |front|, |es|)
  {
    var all := front + es;
    forall j | 0 <= j < |es|
      ensures all[|front| + j].key == ns.Full(j)
    {
      assert all[|front| + j] == es[j];
    }
  }

  /** Items in front, all without the prefix, and the entries of all elements behind them. */
  lemma FrontAndEntries(ns: Naming, vals: seq<string>, saved: seq<Item>)
    ensures var front := Clean(saved, ns.prefix); Layout(ns, front + Entries(ns, vals, 0), |front|, |vals|)
  {
    var front := Clean(saved, ns.prefix);
    EntriesAt(ns, vals, 0);
    forall i | 0 <= i < |front|
      ensures !(ns.prefix <= front[i].key)
    {
      CleanAt(saved, ns.prefix, i);
    }
    LayoutConcat(ns, front, Entries(ns, vals, 0));
  }

  lemma PrefixedIsBehind(ns: Naming, items: seq<Item>, f: nat, c: nat, k: nat)
    requires Layout(ns, items, f, c) && k < |items| && ns.prefix <= items[k].key
    ensures k >= f
  {
  }

  /** Keys that were added behind others carry the prefix, so what is laid out with them was laid
      out without them. */
  lemma LayoutBefore(ns: Naming, items: seq<Item>, saved: seq<Item>, f: nat, n: nat)
    requires Layout(ns, saved, f, n) && |items| <= |saved|
    requires forall k :: 0 <= k < |items| ==> saved[k].key == items[k].key
    requires forall k :: |items| <= k < |saved| ==> ns.prefix <= saved[k].key
    ensures f <= |items| <= f + n && Layout(ns, items, f, |items| - f)
  {
    if |items| < |saved| {
      PrefixedIsBehind(ns, saved, f, n, |items|);
    }
    forall j | 0 <= j < |items| - f
      ensures items[f + j].key == ns.Full(j)
    {
      assert saved[f + j].key == items[f + j].key;
    }
  }

  /** The last item is that of an element. */
  lemma LayoutEnd(ns: Naming, saved: seq<Item>, f: nat, n: nat)
    requires Layout(ns, saved, f, n) && n > 0
    ensures |saved| > 0 && ns.prefix <= saved[|saved| - 1].key
  {
    assert saved[f + (n - 1)].key == ns.Full(n - 1);
    FullIsPrefixed(ns, n - 1);
  }

  lemma EntriesNeedTail(ns: Naming, vals: seq<string>, items: seq<Item>, saved: seq<Item>)
    requires vals != [] && !(ns.prefix <= ns.key) && GoodNames(ns, |vals|)
    requires saved == ApplyEdits(items, SaveEdits(ns, vals, 0))
    requires saved == Clean(saved, ns.prefix) + Entries(ns, vals, 0)
    ensures HasKey(items, ns.key) && TailNumbered(ns, items, |vals|)
  {
    var f := |Clean(saved, ns.prefix)|;
    FrontAndEntries(ns, vals, saved);
    SaveGrows(ns, vals, items, 0);
    hide SaveEdits, ApplyEdits, GoodNames, Entries, Layout, Clean, TailNumbered;
    LayoutEnd(ns, saved, f, |vals|);
    LayoutBefore(ns, items, saved, f, |vals|);
    TailOfLayout(ns, items, f, |vals|);
  }

  /** Saving a list again into the store that its save left, as a load leaves that, changes nothing
      if and only if the key of the index was there before the first save and the prefixed items were
      a numbered tail no longer than the list. */
  lemma SavedTwice(ns: Naming, vals: seq<string>, items: seq<Item>)
    requires vals != [] && DistinctKeys(items) && !(ns.prefix <= ns.key)
    requires GoodNames(ns, |vals|) && Fits(ns, |vals|)
    ensures var saved := Save(ns, vals, items).items;
      Save(ns, vals, Clean(saved, ns.prefix)).items == saved <==>
        HasKey(items, ns.key) && TailNumbered(ns, items, |vals|)
  {
    var saved := Save(ns, vals, items).items;
    ResavedIs(ns, vals, items);
    SaveCapacity(ns, vals, items);
    if HasKey(items, ns.key) && TailNumbered(ns, items, |vals|) {
      var f := |Clean(items, ns.prefix)|;
      LayoutOfTail(ns, items, |vals|);
      LayoutSaved(ns, vals, items, f, |items| - f, 0);
      SavedLookup(ns, vals, items);
      LayoutIsEntries(ns, vals, saved, f);
      LayoutClean(ns, saved, f, |vals|);
    } else if saved == Clean(saved, ns.prefix) + Entries(ns, vals, 0) {
      EntriesNeedTail(ns, vals, items, saved);
    }
  }
}
