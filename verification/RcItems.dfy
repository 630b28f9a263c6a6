/** The rc.conf store as a value: an ordered list of items with distinct keys, its text form,
    and the laws that tie the two together (BSD/rcconf.c). */
module RcItems {
  import opened Text
  import opened RcLine

  function FindKey(items: seq<Item>, key: string): (k: nat)
    ensures k <= |items|
    ensures k < |items| ==> items[k].key == key
  {
    if items == [] || items[0].key == key then 0 else 1 + FindKey(items[1..], key)
  }

  /** It is the first of the items with that key. */
  lemma {:induction false} FindKeyFirst(items: seq<Item>, key: string)
    ensures forall i :: 0 <= i < FindKey(items, key) ==> items[i].key != key
  {
    if items != [] && items[0].key != key {
      FindKeyFirst(items[1..], key);
    }
  }

  lemma FindKeyFound(items: seq<Item>, k: nat)
    requires k < |items|
    ensures FindKey(items, items[k].key) <= k
  {
    FindKeyFirst(items, items[k].key);
  }

  predicate HasKey(items: seq<Item>, key: string) {
    FindKey(items, key) < |items|
  }

  function Lookup(items: seq<Item>, key: string): Option<string> {
    var k := FindKey(items, key);
    if k < |items| then Some(items[k].val) else None
  }

  lemma LookupCons(it: Item, items: seq<Item>, key: string)
    ensures Lookup([it] + items, key) == if it.key == key then Some(it.val) else Lookup(items, key)
  {
    assert ([it] + items)[1..] == items;
  }

  predicate DistinctKeys(items: seq<Item>) {
    items == [] || (!HasKey(items[1..], items[0].key) && DistinctKeys(items[1..]))
  }

  lemma {:induction false} DistinctKeysMeans(items: seq<Item>)
    ensures DistinctKeys(items) <==> forall i, j :: 0 <= i < j < |items| ==> items[i].key != items[j].key
  {
    if items != [] {
      var it, rest := items[0], items[1..];
      DistinctKeysMeans(rest);
      FindKeyFirst(rest, it.key);
      assert forall i :: 0 < i < |items| ==> items[i] == rest[i - 1];
      assert HasKey(rest, it.key) ==> items[FindKey(rest, it.key) + 1].key == it.key;
    }
  }

  predicate AllPrintable(items: seq<Item>) {
    forall i :: 0 <= i < |items| ==> Printable(items[i])
  }

  function AddItem(items: seq<Item>, it: Item): seq<Item> {
    if HasKey(items, it.key) then items else items + [it]
  }

  function SetItem(items: seq<Item>, key: string, val: string): seq<Item> {
    var k := FindKey(items, key);
    if k < |items| then items[k := Item(key, val)] else items + [Item(key, val)]
  }

  function DelItem(items: seq<Item>, key: string): seq<Item> {
    var k := FindKey(items, key);
    if k < |items| then items[..k] + items[k + 1..] else items
  }

  lemma FindKeyIs(items: seq<Item>, key: string, k: nat)
    requires k <= |items| && (k < |items| ==> items[k].key == key)
    requires forall i :: 0 <= i < k ==> items[i].key != key
    ensures FindKey(items, key) == k
  {
    FindKeyFirst(items, key);
  }

  lemma StoreKeepsDistinct(items: seq<Item>, key: string, val: string)
    requires DistinctKeys(items)
    ensures DistinctKeys(AddItem(items, Item(key, val)))
    ensures DistinctKeys(SetItem(items, key, val))
    ensures DistinctKeys(DelItem(items, key))
  {
    FindKeyFirst(items, key);
    DistinctKeysMeans(items);
    DistinctKeysMeans(AddItem(items, Item(key, val)));
    DistinctKeysMeans(SetItem(items, key, val));
    DistinctKeysMeans(DelItem(items, key));
  }

  lemma RemoveKeepsDistinct(items: seq<Item>, k: nat)
    requires DistinctKeys(items) && k < |items|
    ensures DistinctKeys(items[..k] + items[k + 1..])
  {
    DistinctKeysMeans(items);
    DistinctKeysMeans(items[..k] + items[k + 1..]);
  }

  // ---- text form ----------------------------------------------------------

  /** `rcconf_load` on one line: what does not parse, or repeats a key, is dropped. */
  function AddLine(items: seq<Item>, line: string): seq<Item> {
    match ParseLine(line)
    case None => items
    case Some(it) => AddItem(items, it)
  }

  function AddLines(items: seq<Item>, lines: seq<string>): seq<Item>
    decreases |lines|
  {
    if lines == [] then items else AddLines(AddLine(items, lines[0]), lines[1..])
  }

  function LoadText(text: string): seq<Item> {
    AddLines([], Lines(text))
  }

  function PrintItems(items: seq<Item>): string {
    if items == [] then "" else PrintItem(items[0]) + PrintItems(items[1..])
  }

  function HeaderText(header: Option<string>): string {
    match header
    case None => ""
    case Some(h) => h + "\n"
  }

  function SaveText(items: seq<Item>, header: Option<string>): string {
    HeaderText(header) + PrintItems(items)
  }

  /** No line of the header reads as an item. */
  predicate InertHeader(header: Option<string>) {
    LoadText(HeaderText(header)) == []
  }

  lemma {:induction false} AddLinesAppend(items: seq<Item>, a: seq<string>, b: seq<string>)
    ensures AddLines(items, a + b) == AddLines(AddLines(items, a), b)
    decreases |a|
  {
    if a == [] {
      assert a + b == b;
    } else {
      AddLinesAppend(AddLine(items, a[0]), a[1..], b);
      TailAppend(a, b);
    }
  }

  /** A header whose lines hold no '=' is inert, as the one the tool writes. */
  lemma NoEqualsIsInert(h: string)
    requires '=' !in h
    ensures InertHeader(Some(h))
  {
    var t := h + "\n";
    forall i | 0 <= i < |Lines(t)|
      ensures '=' !in Lines(t)[i]
    {
      LinesChars(t, i);
    }
    AddInert(Lines(t));
  }

  lemma {:induction false} LinesChars(t: string, i: nat)
    requires i < |Lines(t)|
    ensures forall c :: c in Lines(t)[i] ==> c in t
    decreases |t|
  {
    var k := IndexOf(t, '\n');
    if i > 0 {
      LinesChars(t[k + 1..], i - 1);
    }
  }

  lemma {:induction false} AddInert(lines: seq<string>)
    requires forall i :: 0 <= i < |lines| ==> '=' !in lines[i]
    ensures AddLines([], lines) == []
  {
    if lines != [] {
      var s := StrAt(lines[0], 0);
      StrAtCells(lines[0], 0);
      assert IndexOf(s, '=') == |s|;
      AddInert(lines[1..]);
    }
  }

  /** Every store that was loaded has distinct keys and prints in a form that parses back;
      of several lines with one key the first wins. */
  lemma {:induction false} AddLinesWellFormed(items: seq<Item>, lines: seq<string>)
    requires DistinctKeys(items) && AllPrintable(items)
    requires forall l :: l in lines ==> IsLine(l)
    ensures DistinctKeys(AddLines(items, lines)) && AllPrintable(AddLines(items, lines))
    ensures items <= AddLines(items, lines)
    decreases |lines|
  {
    if lines != [] {
      assert IsLine(lines[0]);
      if ParseLine(lines[0]).Some? {
        ParsedIsPrintable(lines[0]);
        StoreKeepsDistinct(items, ParseLine(lines[0]).value.key, ParseLine(lines[0]).value.val);
      }
      AddLinesWellFormed(AddLine(items, lines[0]), lines[1..]);
    }
  }

  lemma LoadedIsWellFormed(text: string)
    ensures DistinctKeys(LoadText(text)) && AllPrintable(LoadText(text))
  {
    LinesAreLines(text);
    AddLinesWellFormed([], Lines(text));
  }

  lemma {:induction false} LoadPrinted(before: seq<Item>, items: seq<Item>)
    requires DistinctKeys(before + items) && AllPrintable(items)
    ensures AddLines(before, Lines(PrintItems(items))) == before + items
    decreases |items|
  {
    if items == [] {
      assert before + items == before;
    } else {
      var it, rest := items[0], items[1..];
      PrintedIsLine(it);
      LinesCons(PrintItem(it), PrintItems(rest));
      ParsePrint(it);
      DistinctKeysMeans(before + items);
      assert forall i :: 0 <= i < |before| ==> (before + items)[i] == before[i];
      assert (before + items)[|before|] == it;
      FindKeyIs(before, it.key, |before|);
      Shift(before, items);
      LoadPrinted(before + [it], rest);
    }
  }

  lemma PrintedIsLine(it: Item)
    requires Printable(it)
    ensures IsLine(PrintItem(it)) && EndsLine(PrintItem(it))
  {
  }

  lemma FirstLineOf(a: string) returns (l: string, rest: string)
    requires EndsLine(a)
    ensures a == l + rest && IsLine(l) && EndsLine(l) && (rest == "" || EndsLine(rest))
  {
    var k := IndexOf(a, '\n');
    l, rest := a[..k + 1], a[k + 1..];
  }

  lemma {:induction false} LinesAppend(a: string, b: string)
    requires EndsLine(a)
    ensures Lines(a + b) == Lines(a) + Lines(b)
    decreases |a|
  {
    var l, rest := FirstLineOf(a);
    Associative(l, rest, b);
    LinesCons(l, rest + b);
    LinesCons(l, rest);
    if rest == "" {
      assert rest + b == b;
    } else {
      LinesAppend(rest, b);
      Associative([l], Lines(rest), Lines(b));
    }
  }

  /** Saving and loading a well-formed store gives the same store, under any inert header. */
  lemma LoadSave(items: seq<Item>, header: Option<string>)
    requires DistinctKeys(items) && AllPrintable(items) && InertHeader(header)
    ensures LoadText(SaveText(items, header)) == items
  {
    var h, t := HeaderText(header), PrintItems(items);
    assert [] + items == items;
    LoadPrinted([], items);
    if h == "" {
      assert h + t == t;
    } else {
      LinesAppend(h, t);
      AddLinesAppend([], Lines(h), Lines(t));
    }
  }

  /** Loading normalises: one save and load changes nothing that was loaded from any text. */
  lemma LoadNormalises(text: string, header: Option<string>)
    requires InertHeader(header)
    ensures LoadText(SaveText(LoadText(text), header)) == LoadText(text)
  {
    LoadedIsWellFormed(text);
    LoadSave(LoadText(text), header);
  }

  // ---- edits --------------------------------------------------------------

  /** One key/value pair of `rcconf_save_items`; NULL for the value deletes the key. */
  datatype Edit = Edit(key: string, val: Option<string>)

  function ApplyEdit(items: seq<Item>, e: Edit): seq<Item> {
    match e.val
    case None => DelItem(items, e.key)
    case Some(v) => SetItem(items, e.key, v)
  }

  function ApplyEdits(items: seq<Item>, es: seq<Edit>): seq<Item>
    decreases |es|
  {
    if es == [] then items else ApplyEdits(ApplyEdit(items, es[0]), es[1..])
  }

  function EditKeys(es: seq<Edit>): set<string> {
    set e <- es :: e.key
  }

  predicate EditsPrintable(es: seq<Edit>) {
    forall e <- es :: e.val.Some? ==> PrintableKey(e.key) && PrintableVal(e.val.value)
  }

  predicate DistinctEdits(es: seq<Edit>) {
    forall i, j :: 0 <= i < j < |es| ==> es[i].key != es[j].key
  }

  /** What the edits leave under a key whose value was `was`: the last edit of the key decides. */
  function LastEdit(es: seq<Edit>, key: string, was: Option<string>): Option<string> {
    if es == [] then was
    else LastEdit(es[1..], key, if es[0].key == key then es[0].val else was)
  }

  /** The items whose key is none of `keys`, in order. */
  function Others(items: seq<Item>, keys: set<string>): seq<Item> {
    if items == [] then [] else
      (if items[0].key in keys then [] else [items[0]]) + Others(items[1..], keys)
  }

  lemma EditWellFormed(items: seq<Item>, e: Edit)
    requires DistinctKeys(items)
    ensures DistinctKeys(ApplyEdit(items, e))
    ensures AllPrintable(items) && EditsPrintable([e]) ==> AllPrintable(ApplyEdit(items, e))
  {
    StoreKeepsDistinct(items, e.key, if e.val.Some? then e.val.value else "");
    assert e in [e];
  }

  lemma SetLookup(items: seq<Item>, k: string, v: string, key: string)
    ensures Lookup(SetItem(items, k, v), key) == if key == k then Some(v) else Lookup(items, key)
  {
    var i, j, now := FindKey(items, k), FindKey(items, key), SetItem(items, k, v);
    FindKeyFirst(items, k);
    FindKeyFirst(items, key);
    FindKeyIs(now, key, if key == k then i else if j < |items| then j else |now|);
  }

  lemma DelLookup(items: seq<Item>, k: string, key: string)
    requires DistinctKeys(items)
    ensures Lookup(DelItem(items, k), key) == if key == k then None else Lookup(items, key)
  {
    var i, j, now := FindKey(items, k), FindKey(items, key), DelItem(items, k);
    DistinctKeysMeans(items);
    FindKeyFirst(items, key);
    if i < |items| {
      FindKeyIs(now, key, if key == k then |now| else if j > i then j - 1 else j);
    }
  }

  lemma EditLookup(items: seq<Item>, e: Edit, key: string)
    requires DistinctKeys(items)
    ensures Lookup(ApplyEdit(items, e), key) == if key == e.key then e.val else Lookup(items, key)
  {
    match e.val
    case None => DelLookup(items, e.key, key);
    case Some(v) => SetLookup(items, e.key, v, key);
  }

  lemma {:induction false} EditsLookup(items: seq<Item>, es: seq<Edit>, key: string)
    requires DistinctKeys(items)
    ensures DistinctKeys(ApplyEdits(items, es))
    ensures AllPrintable(items) && EditsPrintable(es) ==> AllPrintable(ApplyEdits(items, es))
    ensures Lookup(ApplyEdits(items, es), key) == LastEdit(es, key, Lookup(items, key))
    decreases |es|
  {
    if es != [] {
      EditWellFormed(items, es[0]);
      EditLookup(items, es[0], key);
      EditsLookup(ApplyEdit(items, es[0]), es[1..], key);
    }
  }

  lemma {:induction false} OthersAppend(a: seq<Item>, b: seq<Item>, keys: set<string>)
    ensures Others(a + b, keys) == Others(a, keys) + Others(b, keys)
  {
    if a == [] {
      assert a + b == b;
    } else {
      OthersAppend(a[1..], b, keys);
      TailAppend(a, b);
    }
  }

  lemma OthersAround(a: seq<Item>, it: Item, b: seq<Item>, keys: set<string>)
    requires it.key in keys
    ensures Others(a + [it] + b, keys) == Others(a + b, keys)
  {
    OthersAppend(a + [it], b, keys);
    OthersAppend(a, [it], keys);
    OthersAppend(a, b, keys);
  }

  lemma EditKeepsOthers(items: seq<Item>, e: Edit, keys: set<string>)
    requires e.key in keys
    ensures Others(ApplyEdit(items, e), keys) == Others(items, keys)
  {
    var k, now := FindKey(items, e.key), ApplyEdit(items, e);
    if k < |items| {
      var a, b := items[..k], items[k + 1..];
      assert items == a + [items[k]] + b;
      OthersAround(a, items[k], b, keys);
      if e.val.Some? {
        assert now == a + [now[k]] + b;
        OthersAround(a, now[k], b, keys);
      }
    } else if e.val.Some? {
      OthersAround(items, Item(e.key, e.val.value), [], keys);
      assert now + [] == now && items + [] == items;
    }
  }

  /** Keys that no edit names keep their values and their order. */
  lemma {:induction false} EditsKeepOthers(items: seq<Item>, es: seq<Edit>, keys: set<string>)
    requires EditKeys(es) <= keys
    ensures Others(ApplyEdits(items, es), keys) == Others(items, keys)
    decreases |es|
  {
    if es != [] {
      assert es[0].key in EditKeys(es);
      EditKeepsOthers(items, es[0], keys);
      EditsKeepOthers(ApplyEdit(items, es[0]), es[1..], keys);
    }
  }

  lemma {:induction false} LastEditIs(es: seq<Edit>, i: nat, was: Option<string>)
    requires DistinctEdits(es) && i < |es|
    ensures LastEdit(es, es[i].key, was) == es[i].val
  {
    if i == 0 {
      LastEditNone(es[1..], es[0].key, es[0].val);
    } else {
      LastEditIs(es[1..], i - 1, was);
    }
  }

  lemma {:induction false} LastEditNone(es: seq<Edit>, key: string, was: Option<string>)
    requires forall i :: 0 <= i < |es| ==> es[i].key != key
    ensures LastEdit(es, key, was) == was
  {
    if es != [] {
      LastEditNone(es[1..], key, was);
    }
  }

  lemma {:induction false} EditsNothingToDo(items: seq<Item>, es: seq<Edit>)
    requires forall i :: 0 <= i < |es| ==> Lookup(items, es[i].key) == es[i].val
    ensures ApplyEdits(items, es) == items
    decreases |es|
  {
    if es != [] {
      var k := FindKey(items, es[0].key);
      assert es[0].val.Some? ==> items[k] == Item(es[0].key, es[0].val.value);
      assert ApplyEdit(items, es[0]) == items;
      EditsNothingToDo(items, es[1..]);
    }
  }

  lemma EditsIdempotent(items: seq<Item>, es: seq<Edit>)
    requires DistinctKeys(items) && DistinctEdits(es)
    ensures ApplyEdits(ApplyEdits(items, es), es) == ApplyEdits(items, es)
  {
    var now := ApplyEdits(items, es);
    forall i | 0 <= i < |es|
      ensures Lookup(now, es[i].key) == es[i].val
    {
      EditsLookup(items, es, es[i].key);
      LastEditIs(es, i, Lookup(items, es[i].key));
    }
    EditsNothingToDo(now, es);
  }

  /** The file `rcconf_save_items` writes over a file holding `text`. */
  function SavedItems(text: string, header: Option<string>, es: seq<Edit>): string {
    SaveText(ApplyEdits(LoadText(text), es), header)
  }

  /** `rcconf_save_items` is an ordered-map update of the file: reloading gives the old list with
      the edits applied, unnamed keys are untouched, the last edit of a key decides its value. */
  lemma SavedItemsReload(text: string, header: Option<string>, es: seq<Edit>, key: string)
    requires InertHeader(header) && EditsPrintable(es)
    ensures LoadText(SavedItems(text, header, es)) == ApplyEdits(LoadText(text), es)
    ensures Lookup(LoadText(SavedItems(text, header, es)), key) == LastEdit(es, key, Lookup(LoadText(text), key))
    ensures Others(LoadText(SavedItems(text, header, es)), EditKeys(es)) == Others(LoadText(text), EditKeys(es))
  {
    LoadedIsWellFormed(text);
    EditsLookup(LoadText(text), es, key);
    LoadSave(ApplyEdits(LoadText(text), es), header);
    EditsKeepOthers(LoadText(text), es, EditKeys(es));
  }

  /** The same call a second time writes the same file. */
  lemma SavedItemsTwice(text: string, header: Option<string>, es: seq<Edit>)
    requires InertHeader(header) && EditsPrintable(es) && DistinctEdits(es)
    ensures SavedItems(SavedItems(text, header, es), header, es) == SavedItems(text, header, es)
  {
    SavedItemsReload(text, header, es, "");
    LoadedIsWellFormed(text);
    EditsIdempotent(LoadText(text), es);
  }
}
