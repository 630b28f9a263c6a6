/** A list of values encoded inside an rc.conf store: one index entry naming the elements
    ("prl0 prl1 ...") and one entry per element ("route_prl0", ...), as values
    (BSD/rcconf_sublist.c). */
module Numbered {
  import opened Text
  import opened RcLine
  import opened RcItems
  import opened Errno

  const KEY_SET_MAX_LEN := 4096
  const ITEM_KEY_MAX_LEN := 256

  /** The key of the index entry, the prefix of the element entries and the stem of their names. */
  datatype Naming = Naming(key: string, prefix: string, itemKey: string)
  {
    /** The name of element `i` in the index. */
    function Elem(i: nat): string {
      itemKey + Decimal(i)
    }

    /** The key of the entry of element `i`. */
    function Full(i: nat): string {
      prefix + Elem(i)
    }

    /** The index of `n` elements. */
    function Index(n: nat): string {
      if n == 0 then "" else if n == 1 then Elem(0) else Index(n - 1) + " " + Elem(n - 1)
    }

    /** The two texts that are printed with a number are C strings. */
    predicate CStrings() {
      '\0' !in prefix && '\0' !in itemKey
    }

    function Elems(n: nat): seq<string> {
      if n == 0 then [] else Elems(n - 1) + [Elem(n - 1)]
    }
  }

  lemma {:induction false} IndexIsCString(ns: Naming, n: nat)
    requires ns.CStrings()
    ensures '\0' !in ns.Index(n)
  {
    if n > 1 {
      IndexIsCString(ns, n - 1);
    }
  }

  /** What `snprintf` leaves of a text in the buffer for element keys. */
  function CutKey(s: string): string {
    s[..Min(|s|, ITEM_KEY_MAX_LEN - 1)]
  }

  // ---- saving -------------------------------------------------------------

  datatype Saved = Saved(res: int, items: seq<Item>)

  /** `rcconf_sublist_save` from element `i` on. Both length checks use the room left in the
      index buffer before element `i` is added. */
  function SaveFrom(ns: Naming, vals: seq<string>, items: seq<Item>, i: nat): Saved
    requires i <= |vals|
    decreases |vals| - i
  {
    if i == |vals| then
      Saved(0, SetItem(items, ns.key, ns.Index(|vals|)))
    else
      var room := KEY_SET_MAX_LEN - |ns.Index(i)|;
      if (if i == 0 then 0 else 1) + |ns.Elem(i)| >= room || |ns.Full(i)| >= room then
        Saved(-EINVAL, items)
      else
        SaveFrom(ns, vals, SetItem(items, CutKey(ns.Full(i)), vals[i]), i + 1)
  }

  function Save(ns: Naming, vals: seq<string>, items: seq<Item>): Saved {
    SaveFrom(ns, vals, items, 0)
  }

  /** The edits a save of elements `i..` amounts to. */
  function SaveEdits(ns: Naming, vals: seq<string>, i: nat): seq<Edit>
    requires i <= |vals|
    decreases |vals| - i
  {
    if i == |vals| then [Edit(ns.key, Some(ns.Index(|vals|)))]
    else [Edit(CutKey(ns.Full(i)), Some(vals[i]))] + SaveEdits(ns, vals, i + 1)
  }

  /** The buffers hold what is needed for the last of `n` elements. */
  predicate Fits(ns: Naming, n: nat) {
    n > 0 ==>
      && |ns.Index(n)| <= KEY_SET_MAX_LEN - 1
      && |ns.Index(n - 1)| + |ns.Full(n - 1)| <= KEY_SET_MAX_LEN - 1
  }

  lemma {:induction false} DecimalGrows(m: nat, n: nat)
    requires m <= n
    ensures |Decimal(m)| <= |Decimal(n)|
  {
    if n >= 10 && m >= 10 {
      DecimalGrows(m / 10, n / 10);
    }
  }

  lemma FitsLess(ns: Naming, n: nat)
    requires n > 1 && Fits(ns, n)
    ensures Fits(ns, n - 1)
  {
    DecimalGrows(n - 2, n - 1);
  }

  lemma {:induction false} SaveFromOk(ns: Naming, vals: seq<string>, items: seq<Item>, i: nat)
    requires i <= |vals|
    requires forall j :: i < j <= |vals| ==> Fits(ns, j)
    ensures SaveFrom(ns, vals, items, i) == Saved(0, ApplyEdits(items, SaveEdits(ns, vals, i)))
    decreases |vals| - i
  {
    if i < |vals| {
      assert Fits(ns, i + 1);
      SaveFromOk(ns, vals, SetItem(items, CutKey(ns.Full(i)), vals[i]), i + 1);
    }
  }

  lemma {:induction false} SaveFromFails(ns: Naming, vals: seq<string>, items: seq<Item>, i: nat)
    requires i < |vals| && !Fits(ns, |vals|)
    ensures SaveFrom(ns, vals, items, i).res == -EINVAL
    decreases |vals| - i
  {
    if i + 1 < |vals| {
      SaveFromFails(ns, vals, SetItem(items, CutKey(ns.Full(i)), vals[i]), i + 1);
    }
  }

  lemma {:induction false} FitsAll(ns: Naming, n: nat)
    requires Fits(ns, n)
    ensures forall j :: 0 <= j <= n ==> Fits(ns, j)
  {
    if n > 1 {
      FitsLess(ns, n);
      FitsAll(ns, n - 1);
    }
  }

  /** Exact capacity: a save succeeds if and only if the buffers suffice for the last element, and
      then it is the edits of every element followed by the whole, untruncated index. */
  lemma SaveCapacity(ns: Naming, vals: seq<string>, items: seq<Item>)
    requires vals != []
    ensures Save(ns, vals, items).res == 0 <==> Fits(ns, |vals|)
    ensures Fits(ns, |vals|) ==> Save(ns, vals, items).items == ApplyEdits(items, SaveEdits(ns, vals, 0))
  {
    if Fits(ns, |vals|) {
      FitsAll(ns, |vals|);
      SaveFromOk(ns, vals, items, 0);
    } else {
      SaveFromFails(ns, vals, items, 0);
    }
  }

  /** The edits of elements `i` to `m` alone. */
  function PutEdits(ns: Naming, vals: seq<string>, i: nat, m: nat): seq<Edit>
    requires i <= m <= |vals|
    decreases m - i
  {
    if i == m then [] else [Edit(CutKey(ns.Full(i)), Some(vals[i]))] + PutEdits(ns, vals, i + 1, m)
  }

  lemma {:induction false} SaveFromStops(ns: Naming, vals: seq<string>, items: seq<Item>, i: nat, m: nat)
    requires i <= m < |vals| && !Fits(ns, m + 1) && forall j :: i < j <= m ==> Fits(ns, j)
    ensures SaveFrom(ns, vals, items, i) == Saved(-EINVAL, ApplyEdits(items, PutEdits(ns, vals, i, m)))
    decreases m - i
  {
    if i < m {
      assert Fits(ns, i + 1);
      SaveFromStops(ns, vals, SetItem(items, CutKey(ns.Full(i)), vals[i]), i + 1, m);
    }
  }

  /** A save that does not fit has set the entries that do, and not the index; its code is -22. */
  lemma SaveStops(ns: Naming, vals: seq<string>, items: seq<Item>, m: nat)
    requires m < |vals| && Fits(ns, m) && !Fits(ns, m + 1)
    ensures Save(ns, vals, items) == Saved(-22, ApplyEdits(items, PutEdits(ns, vals, 0, m)))
  {
    FitsAll(ns, m);
    SaveFromStops(ns, vals, items, 0, m);
  }

  /** There is such a place in every list that does not fit, and one only. */
  lemma {:induction false} StopsSomewhere(ns: Naming, n: nat) returns (m: nat)
    requires !Fits(ns, n)
    ensures m < n && Fits(ns, m) && !Fits(ns, m + 1)
    ensures forall j :: m < j <= n ==> !Fits(ns, j)
  {
    if Fits(ns, n - 1) {
      m := n - 1;
    } else {
      m := StopsSomewhere(ns, n - 1);
    }
  }

  /** The decimal digits of 0 .. n-1, counted together. */
  function DigitsBelow(n: nat): nat {
    if n == 0 then 0 else DigitsBelow(n - 1) + |Decimal(n - 1)|
  }

  /** The length of an index: the stems, the digits and the separating blanks. */
  lemma {:induction false} IndexLength(ns: Naming, n: nat)
    requires n > 0
    ensures |ns.Index(n)| == n * |ns.itemKey| + DigitsBelow(n) + n - 1
  {
    if n > 1 {
      IndexLength(ns, n - 1);
      OneMore(n, |ns.itemKey|);
    }
  }

  lemma OneMore(n: nat, l: nat)
    requires n > 0
    ensures n * l == (n - 1) * l + l
  {
  }

  // ---- loading ------------------------------------------------------------

  datatype Loaded = Values(vals: seq<string>) | Failed(err: int)

  /** `load_item` for each name in turn; the first that fails decides. */
  function LoadElems(prefix: string, items: seq<Item>, names: seq<string>): Loaded {
    if names == [] then Values([]) else
      var full := prefix + names[0];
      if |full| >= ITEM_KEY_MAX_LEN then Failed(EINVAL)
      else match Lookup(items, full)
        case None => Failed(ENOENT)
        case Some(v) =>
          match LoadElems(prefix, items, names[1..])
          case Failed(e) => Failed(e)
          case Values(vs) => Values([v] + vs)
  }

  /** What `rcconf_sublist_load` reads from a store. */
  function Load(ns: Naming, items: seq<Item>): Loaded {
    match Lookup(items, ns.key)
    case None => Failed(EINVAL)
    case Some(index) => LoadElems(ns.prefix, items, Tokens(StrAt(index, 0), ' '))
  }

  /** `load_clean`: the items whose key does not start with the prefix. */
  function Clean(items: seq<Item>, prefix: string): seq<Item> {
    if items == [] then [] else
      (if prefix <= items[0].key then [] else [items[0]]) + Clean(items[1..], prefix)
  }

  /** Loading succeeds exactly when every name in the index fits the key buffer and has an entry,
      and then gives the entries' values in index order. */
  lemma {:induction false} LoadElemsExact(prefix: string, items: seq<Item>, names: seq<string>)
    ensures LoadElems(prefix, items, names).Values? <==>
      forall n <- names :: |prefix + n| < ITEM_KEY_MAX_LEN && HasKey(items, prefix + n)
    ensures var r := LoadElems(prefix, items, names); r.Values? ==>
      && |r.vals| == |names|
      && forall i :: 0 <= i < |names| ==> Lookup(items, prefix + names[i]) == Some(r.vals[i])
  {
    if names != [] {
      LoadElemsExact(prefix, items, names[1..]);
      assert names == [names[0]] + names[1..];
      assert forall i :: 0 < i < |names| ==> names[i] == names[1..][i - 1];
    }
  }

  // ---- round trip ---------------------------------------------------------

  /** The first name that fails decides about the code: 22 for a key of 256 characters or more, and 2 for
      an entry that is not there. */
  lemma {:induction false} LoadElemsFails(prefix: string, items: seq<Item>, names: seq<string>, k: nat)
    requires k < |names| && forall i :: 0 <= i < k ==> |prefix + names[i]| < 256 && HasKey(items, prefix + names[i])
    requires |prefix + names[k]| >= 256 || !HasKey(items, prefix + names[k])
    ensures LoadElems(prefix, items, names) == Failed(if |prefix + names[k]| >= 256 then 22 else 2)
  {
    if k > 0 {
      LoadElemsFails(prefix, items, names[1..], k - 1);
    }
  }

  /** Without an index the code is 22. */
  lemma LoadCodes(ns: Naming, items: seq<Item>)
    ensures Load(ns, items) == match Lookup(items, ns.key)
      case None => Failed(22)
      case Some(index) => LoadElems(ns.prefix, items, Tokens(StrAt(index, 0), ' '))
  {
  }

  /** Keys of up to 255 characters are set whole, longer ones cut to that. */
  lemma CutKeyMeans(s: string)
    ensures CutKey(s) <= s && (|s| <= 255 ==> CutKey(s) == s) && (|s| > 255 ==> |CutKey(s)| == 255)
  {
    if |s| <= 255 {
      assert s[..|s|] == s;
    }
  }

  /** What a caller has to respect for `n` elements to survive: the element names and the keys
      can be written and found again, keys are not cut, and none is the key of the index. */
  predicate GoodNames(ns: Naming, n: nat) {
    && PrintableKey(ns.key)
    && ' ' !in ns.itemKey
    && (forall i :: 0 <= i < n ==> PrintableKey(ns.Full(i)) && |ns.Full(i)| < ITEM_KEY_MAX_LEN)
    && (forall i :: 0 <= i < n ==> ns.Full(i) != ns.key)
  }

  /** Simple conditions on the three names that make them good. */
  lemma GoodNamesWhen(ns: Naming, n: nat)
    requires PrintableKey(ns.key) && ' ' !in ns.itemKey
    requires PrintableKey(ns.prefix + ns.itemKey + "0")
    requires n > 0 ==> |ns.Full(n - 1)| < ITEM_KEY_MAX_LEN
    requires !(ns.prefix <= ns.key)
    ensures GoodNames(ns, n)
  {
    forall i | 0 <= i < n
      ensures PrintableKey(ns.Full(i)) && |ns.Full(i)| < ITEM_KEY_MAX_LEN && ns.Full(i) != ns.key
    {
      DecimalGrows(i, n - 1);
      var stem, d := ns.prefix + ns.itemKey, Decimal(i);
      assert ns.Full(i) == stem + d;
      assert forall c :: c in stem ==> c in stem + "0";
      assert stem != "" ==> (stem + "0")[0] == stem[0];
      assert IsDigit(d[|d| - 1]) && IsDigit(d[0]);
      assert ns.prefix <= ns.Full(i);
    }
  }

  lemma {:induction false} TokensOfIndex(ns: Naming, n: nat)
    requires ' ' !in ns.itemKey
    ensures Tokens(ns.Index(n), ' ') == ns.Elems(n)
  {
    if n > 0 {
      TokenOne(ns.Elem(n - 1), ' ');
      if n > 1 {
        TokensOfIndex(ns, n - 1);
        TokensAppend(ns.Index(n - 1), ' ', ns.Elem(n - 1));
      } else {
        assert ns.Elems(0) == [];
      }
    }
  }

  lemma {:induction false} ElemsAt(ns: Naming, n: nat)
    ensures |ns.Elems(n)| == n && forall i :: 0 <= i < n ==> ns.Elems(n)[i] == ns.Elem(i)
  {
    if n > 0 {
      ElemsAt(ns, n - 1);
    }
  }

  lemma {:induction false} SaveEditsAt(ns: Naming, vals: seq<string>, i: nat)
    requires i <= |vals|
    ensures var es, n := SaveEdits(ns, vals, i), |vals| - i;
      && |es| == n + 1 && es[n] == Edit(ns.key, Some(ns.Index(|vals|)))
      && forall k :: 0 <= k < n ==> es[k] == Edit(CutKey(ns.Full(i + k)), Some(vals[i + k]))
    decreases |vals| - i
  {
    if i < |vals| {
      SaveEditsAt(ns, vals, i + 1);
      var es, rest := SaveEdits(ns, vals, i), SaveEdits(ns, vals, i + 1);
      assert forall k :: 0 < k < |es| ==> es[k] == rest[k - 1];
    }
  }

  lemma FullInjective(ns: Naming, i: nat, j: nat)
    requires ns.Full(i) == ns.Full(j)
    ensures i == j
  {
    var stem := ns.prefix + ns.itemKey;
    assert ns.Full(i) == stem + Decimal(i) && ns.Full(j) == stem + Decimal(j);
    assert ns.Full(i)[|stem|..] == Decimal(i) && ns.Full(j)[|stem|..] == Decimal(j);
    DecimalInjective(i, j);
  }

  lemma EditAt(ns: Naming, vals: seq<string>, k: nat)
    requires GoodNames(ns, |vals|) && k <= |vals|
    ensures var es := SaveEdits(ns, vals, 0);
      && |es| == |vals| + 1
      && es[k] == if k < |vals| then Edit(ns.Full(k), Some(vals[k])) else Edit(ns.key, Some(ns.Index(k)))
  {
    SaveEditsAt(ns, vals, 0);
    assert k < |vals| ==> CutKey(ns.Full(0 + k)) == ns.Full(k);
  }

  lemma SaveEditsDistinct(ns: Naming, vals: seq<string>)
    requires GoodNames(ns, |vals|)
    ensures DistinctEdits(SaveEdits(ns, vals, 0))
  {
    var es := SaveEdits(ns, vals, 0);
    EditAt(ns, vals, 0);
    forall i, j | 0 <= i < j < |es|
      ensures es[i].key != es[j].key
    {
      EditAt(ns, vals, i);
      EditAt(ns, vals, j);
      if j < |vals| && ns.Full(i) == ns.Full(j) {
        FullInjective(ns, i, j);
      }
    }
  }

  lemma SaveEditsPrintable(ns: Naming, vals: seq<string>)
    requires GoodNames(ns, |vals|) && forall v <- vals :: PrintableVal(v)
    ensures EditsPrintable(SaveEdits(ns, vals, 0))
  {
    var es := SaveEdits(ns, vals, 0);
    EditAt(ns, vals, 0);
    IndexIsPrintable(ns, |vals|);
    forall k | 0 <= k < |es|
      ensures PrintableKey(es[k].key) && es[k].val.Some? && PrintableVal(es[k].val.value)
    {
      EditAt(ns, vals, k);
      assert k < |vals| ==> vals[k] in vals;
    }
  }

  lemma {:induction false} IndexIsPrintable(ns: Naming, n: nat)
    requires forall i :: 0 <= i < n ==> PrintableKey(ns.Full(i))
    ensures PrintableVal(ns.Index(n))
  {
    if n > 0 {
      assert ns.Full(n - 1) == ns.prefix + ns.Elem(n - 1);
      if n > 1 {
        IndexIsPrintable(ns, n - 1);
      }
    }
  }

  lemma {:induction false} PutKeeps(ns: Naming, vals: seq<string>, items: seq<Item>, i: nat, m: nat, key: string)
    requires i <= m <= |vals| && DistinctKeys(items) && forall j :: i <= j < m ==> CutKey(ns.Full(j)) != key
    ensures DistinctKeys(ApplyEdits(items, PutEdits(ns, vals, i, m)))
    ensures Lookup(ApplyEdits(items, PutEdits(ns, vals, i, m)), key) == Lookup(items, key)
    decreases m - i
  {
    if i < m {
      var k := CutKey(ns.Full(i));
      assert PutEdits(ns, vals, i, m)[1..] == PutEdits(ns, vals, i + 1, m);
      StoreKeepsDistinct(items, k, vals[i]);
      SetLookup(items, k, vals[i], key);
      PutKeeps(ns, vals, SetItem(items, k, vals[i]), i + 1, m, key);
    }
  }

  lemma {:induction false} PutSets(ns: Naming, vals: seq<string>, items: seq<Item>, i: nat, m: nat, j: nat)
    requires i <= j < m <= |vals| && DistinctKeys(items) && GoodNames(ns, m)
    ensures Lookup(ApplyEdits(items, PutEdits(ns, vals, i, m)), ns.Full(j)) == Some(vals[j])
    decreases m - i
  {
    var now := SetItem(items, ns.Full(i), vals[i]);
    assert CutKey(ns.Full(i)) == ns.Full(i);
    assert PutEdits(ns, vals, i, m)[1..] == PutEdits(ns, vals, i + 1, m);
    StoreKeepsDistinct(items, ns.Full(i), vals[i]);
    if i < j {
      PutSets(ns, vals, now, i + 1, m, j);
    } else {
      SetLookup(items, ns.Full(j), vals[j], ns.Full(j));
      forall x | i + 1 <= x < m
        ensures CutKey(ns.Full(x)) != ns.Full(j)
      {
        assert CutKey(ns.Full(x)) == ns.Full(x);
        if ns.Full(x) == ns.Full(j) {
          FullInjective(ns, x, j);
        }
      }
      PutKeeps(ns, vals, now, i + 1, m, ns.Full(j));
    }
  }

  lemma {:induction false} PutPrintable(ns: Naming, vals: seq<string>, i: nat, m: nat)
    requires i <= m <= |vals| && GoodNames(ns, m) && forall v <- vals :: PrintableVal(v)
    ensures EditsPrintable(PutEdits(ns, vals, i, m))
    decreases m - i
  {
    if i < m {
      assert CutKey(ns.Full(i)) == ns.Full(i) && vals[i] in vals;
      PutPrintable(ns, vals, i + 1, m);
    }
  }

  lemma {:induction false} LoadElemsIs(prefix: string, items: seq<Item>, names: seq<string>, vals: seq<string>)
    requires |names| == |vals|
    requires forall i :: 0 <= i < |names| ==>
      |prefix + names[i]| < ITEM_KEY_MAX_LEN && Lookup(items, prefix + names[i]) == Some(vals[i])
    ensures LoadElems(prefix, items, names) == Values(vals)
  {
    if names != [] {
      LoadElemsIs(prefix, items, names[1..], vals[1..]);
      assert vals == [vals[0]] + vals[1..];
    }
  }

  lemma EditFound(ns: Naming, vals: seq<string>, items: seq<Item>, k: nat)
    requires DistinctKeys(items) && GoodNames(ns, |vals|) && k <= |vals|
    ensures var e := if k < |vals| then Edit(ns.Full(k), Some(vals[k])) else Edit(ns.key, Some(ns.Index(k)));
      Lookup(ApplyEdits(items, SaveEdits(ns, vals, 0)), e.key) == e.val
  {
    var es := SaveEdits(ns, vals, 0);
    SaveEditsDistinct(ns, vals);
    EditAt(ns, vals, k);
    EditsLookup(items, es, es[k].key);
    LastEditIs(es, k, Lookup(items, es[k].key));
  }

  /** What a save leaves under the keys that it sets. */
  lemma SavedLookup(ns: Naming, vals: seq<string>, items: seq<Item>)
    requires vals != [] && DistinctKeys(items) && GoodNames(ns, |vals|) && Fits(ns, |vals|)
    ensures var now := Save(ns, vals, items).items;
      && DistinctKeys(now) && Lookup(now, ns.key) == Some(ns.Index(|vals|))
      && forall i :: 0 <= i < |vals| ==> Lookup(now, ns.Full(i)) == Some(vals[i])
  {
    SaveCapacity(ns, vals, items);
    EditsLookup(items, SaveEdits(ns, vals, 0), ns.key);
    EditFound(ns, vals, items, |vals|);
    forall i | 0 <= i < |vals|
      ensures Lookup(Save(ns, vals, items).items, ns.Full(i)) == Some(vals[i])
    {
      EditFound(ns, vals, items, i);
    }
  }

  /** Reading back from the store that was saved to. */
  lemma LoadSaved(ns: Naming, vals: seq<string>, items: seq<Item>)
    requires vals != [] && DistinctKeys(items) && GoodNames(ns, |vals|) && Fits(ns, |vals|)
    ensures Load(ns, Save(ns, vals, items).items) == Values(vals)
  {
    var now, n := Save(ns, vals, items).items, |vals|;
    SavedLookup(ns, vals, items);
    IndexIsPrintable(ns, n);
    StrAtNulFree(ns.Index(n));
    TokensOfIndex(ns, n);
    ElemsAt(ns, n);
    forall i | 0 <= i < n
      ensures |ns.prefix + ns.Elems(n)[i]| < ITEM_KEY_MAX_LEN
      ensures Lookup(now, ns.prefix + ns.Elems(n)[i]) == Some(vals[i])
    {
      assert ns.prefix + ns.Elems(n)[i] == ns.Full(i);
    }
    LoadElemsIs(ns.prefix, now, ns.Elems(n), vals);
  }

  /** The full persistence round trip: a list saved into any well-formed store, written to the
      file, read again and loaded gives back the same values in the same order. */
  lemma PersistenceRoundTrip(ns: Naming, vals: seq<string>, items: seq<Item>, header: Option<string>)
    requires vals != [] && (forall v <- vals :: PrintableVal(v))
    requires DistinctKeys(items) && AllPrintable(items) && InertHeader(header)
    requires GoodNames(ns, |vals|) && Fits(ns, |vals|)
    ensures var saved := Save(ns, vals, items);
      && saved.res == 0
      && LoadText(SaveText(saved.items, header)) == saved.items
      && Load(ns, LoadText(SaveText(saved.items, header))) == Values(vals)
  {
    SaveCapacity(ns, vals, items);
    SaveEditsPrintable(ns, vals);
    EditsLookup(items, SaveEdits(ns, vals, 0), ns.key);
    LoadSave(Save(ns, vals, items).items, header);
    LoadSaved(ns, vals, items);
  }

  // ---- agreement of index and entries -------------------------------------

  /** The entries of elements `i..` as items. */
  function Entries(ns: Naming, vals: seq<string>, i: nat): seq<Item>
    requires i <= |vals|
    decreases |vals| - i
  {
    if i == |vals| then [] else [Item(ns.Full(i), vals[i])] + Entries(ns, vals, i + 1)
  }

  lemma {:induction false} CleanIsClean(items: seq<Item>, prefix: string)
    ensures forall it <- Clean(items, prefix) :: it in items && !(prefix <= it.key)
  {
    if items != [] {
      CleanIsClean(items[1..], prefix);
    }
  }

  lemma {:induction false} CleanKeepsDistinct(items: seq<Item>, prefix: string)
    requires DistinctKeys(items)
    ensures DistinctKeys(Clean(items, prefix))
  {
    if items != [] {
      var rest := Clean(items[1..], prefix);
      CleanKeepsDistinct(items[1..], prefix);
      CleanIsClean(items[1..], prefix);
      DistinctKeysMeans(items);
      DistinctKeysMeans(rest);
      DistinctKeysMeans(Clean(items, prefix));
      forall j | 0 <= j < |rest|
        ensures rest[j].key != items[0].key
      {
        assert rest[j] in rest;
      }
    }
  }

  lemma {:induction false} CleanLookup(items: seq<Item>, prefix: string, key: string)
    requires !(prefix <= key)
    ensures Lookup(Clean(items, prefix), key) == Lookup(items, key)
  {
    if items != [] {
      CleanLookup(items[1..], prefix, key);
      assert items == [items[0]] + items[1..];
      LookupCons(items[0], items[1..], key);
      LookupCons(items[0], Clean(items[1..], prefix), key);
      assert prefix <= items[0].key ==> Clean(items, prefix) == Clean(items[1..], prefix);
    }
  }

  lemma SetInFront(items: seq<Item>, it: Item, key: string, val: string)
    requires HasKey(items, key)
    ensures HasKey(items + [it], key)
    ensures SetItem(items + [it], key, val) == SetItem(items, key, val) + [it]
  {
    var k := FindKey(items, key);
    FindKeyFirst(items, key);
    FindKeyIs(items + [it], key, k);
  }

  lemma {:induction false} SaveAppends(ns: Naming, vals: seq<string>, items: seq<Item>, i: nat)
    requires i <= |vals| && GoodNames(ns, |vals|)
    requires HasKey(items, ns.key)
    requires forall j :: i <= j < |vals| ==> !HasKey(items, ns.Full(j))
    ensures ApplyEdits(items, SaveEdits(ns, vals, i)) ==
      SetItem(items, ns.key, ns.Index(|vals|)) + Entries(ns, vals, i)
    decreases |vals| - i
  {
    var index := ns.Index(|vals|);
    if i < |vals| {
      var it := Item(ns.Full(i), vals[i]);
      assert !HasKey(items, it.key);
      assert CutKey(it.key) == it.key;
      assert SaveEdits(ns, vals, i)[1..] == SaveEdits(ns, vals, i + 1);
      assert ApplyEdit(items, SaveEdits(ns, vals, i)[0]) == items + [it];
      SetInFront(items, it, ns.key, index);
      forall j | i < j < |vals|
        ensures !HasKey(items + [it], ns.Full(j))
      {
        if ns.Full(i) == ns.Full(j) {
          FullInjective(ns, i, j);
        }
        FindKeyFirst(items, ns.Full(j));
        FindKeyIs(items + [it], ns.Full(j), |items| + 1);
      }
      SaveAppends(ns, vals, items + [it], i + 1);
      Associative(SetItem(items, ns.key, index), [it], Entries(ns, vals, i + 1));
    } else {
      assert SetItem(items, ns.key, index) + [] == SetItem(items, ns.key, index);
    }
  }

  /** After a load and any edits, a save of a non-empty list that fits leaves: every unrelated item
      in its place with its value, the index rewritten in place, and behind them the entries
      numbered 0 .. n-1 in order and no other prefixed key. */
  lemma IndexAndEntriesAgree(ns: Naming, vals: seq<string>, items: seq<Item>)
    requires vals != [] && DistinctKeys(items)
    requires Load(ns, items).Values? && !(ns.prefix <= ns.key)
    requires GoodNames(ns, |vals|) && Fits(ns, |vals|)
    ensures var saved := Save(ns, vals, Clean(items, ns.prefix)).items;
      && saved == SetItem(Clean(items, ns.prefix), ns.key, ns.Index(|vals|)) + Entries(ns, vals, 0)
      && Clean(saved, ns.prefix) == SetItem(Clean(items, ns.prefix), ns.key, ns.Index(|vals|))
      && Tokens(ns.Index(|vals|), ' ') == ns.Elems(|vals|)
      && Load(ns, saved) == Values(vals)
  {
    var kept, n := Clean(items, ns.prefix), |vals|;
    CleanIsClean(items, ns.prefix);
    CleanKeepsDistinct(items, ns.prefix);
    CleanLookup(items, ns.prefix, ns.key);
    SaveCapacity(ns, vals, kept);
    forall j | 0 <= j < n
      ensures !HasKey(kept, ns.Full(j))
    {
      assert ns.prefix <= ns.Full(j);
    }
    SaveAppends(ns, vals, kept, 0);
    TokensOfIndex(ns, n);
    LoadSaved(ns, vals, kept);
    CleanSet(kept, ns, ns.Index(n));
    CleanEntries(ns, vals, 0);
    CleanAppend(SetItem(kept, ns.key, ns.Index(n)), Entries(ns, vals, 0), ns.prefix);
  }

  lemma CleanSet(kept: seq<Item>, ns: Naming, val: string)
    requires !(ns.prefix <= ns.key) && forall it <- kept :: !(ns.prefix <= it.key)
    ensures var now := SetItem(kept, ns.key, val); Clean(now, ns.prefix) + [] == now
  {
    var now := SetItem(kept, ns.key, val);
    forall it <- now
      ensures !(ns.prefix <= it.key)
    {
      assert it in kept || it.key == ns.key;
    }
    CleanNothing(now, ns.prefix);
  }

  lemma {:induction false} CleanAppend(a: seq<Item>, b: seq<Item>, prefix: string)
    ensures Clean(a + b, prefix) == Clean(a, prefix) + Clean(b, prefix)
  {
    if a == [] {
      assert a + b == b;
    } else {
      CleanAppend(a[1..], b, prefix);
      TailAppend(a, b);
    }
  }

  lemma {:induction false} CleanNothing(items: seq<Item>, prefix: string)
    requires forall it <- items :: !(prefix <= it.key)
    ensures Clean(items, prefix) == items
  {
    if items != [] {
      CleanNothing(items[1..], prefix);
    }
  }

  lemma {:induction false} CleanEntries(ns: Naming, vals: seq<string>, i: nat)
    requires i <= |vals|
    ensures Clean(Entries(ns, vals, i), ns.prefix) == []
    decreases |vals| - i
  {
    if i < |vals| {
      assert ns.prefix <= ns.Full(i);
      CleanEntries(ns, vals, i + 1);
    }
  }
}
