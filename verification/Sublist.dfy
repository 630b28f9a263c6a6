/** The numbered sub-list on the heap (BSD/rcconf_sublist.c), proved against `Numbered`. */
module Sublist {
  import opened Text
  import opened CBuffer
  import opened CircularList
  import opened RcLine
  import opened RcItems
  import opened RcStore
  import opened Numbered
  import opened Errno
  import opened Invariants

  /** The position of the first element equal to `val`, or the length. */
  function FindVal(vals: seq<string>, val: string): (k: nat)
    ensures k <= |vals|
    ensures k < |vals| ==> vals[k] == val
    ensures forall i :: 0 <= i < k ==> vals[i] != val
  {
    if vals == [] || vals[0] == val then 0 else 1 + FindVal(vals[1..], val)
  }

  function DelVal(vals: seq<string>, val: string): seq<string> {
    var k := FindVal(vals, val);
    if k < |vals| then vals[..k] + vals[k + 1..] else vals
  }

  /** `rcconf_sublist_set`: the value moves to, or is added at, the end. */
  function SetVal(vals: seq<string>, val: string): seq<string> {
    DelVal(vals, val) + [val]
  }

  predicate NoRepeat(vals: seq<string>) {
    forall i, j :: 0 <= i < j < |vals| ==> vals[i] != vals[j]
  }

  lemma DelValExact(vals: seq<string>, val: string)
    requires NoRepeat(vals)
    ensures NoRepeat(DelVal(vals, val))
    ensures forall v :: v in DelVal(vals, val) <==> v in vals && v != val
  {
    var k, now := FindVal(vals, val), DelVal(vals, val);
    forall v
      ensures v in now <==> v in vals && v != val
    {
      if v in vals && v != val {
        var i :| 0 <= i < |vals| && vals[i] == v;
        assert v == now[if i < k then i else i - 1];
      }
    }
  }

  /** A repeat-free sub-list stays so; it holds the value last and keeps the rest. */
  lemma SetValKeepsNoRepeat(vals: seq<string>, val: string)
    requires NoRepeat(vals)
    ensures NoRepeat(SetVal(vals, val))
    ensures forall v :: v in SetVal(vals, val) <==> v in vals || v == val
  {
    DelValExact(vals, val);
    assert forall i :: 0 <= i < |DelVal(vals, val)| ==> DelVal(vals, val)[i] in DelVal(vals, val);
  }

  /** The inner step of `rcconf_sublist_load`: the name at `key` is cut off at the next blank. */
  method NextName(keys: array<char>, key: nat) returns (next: nat, found: bool)
    requires IsCString(keys[..], key)
    modifies keys
    ensures next > key && (found ==> IsCString(keys[..], next))
    ensures old(Tokens(StrAt(keys[..], key), ' ')) ==
      Token(StrAt(keys[..], key)) + if found then Tokens(StrAt(keys[..], next), ' ') else []
  {
    ghost var s := StrAt(keys[..], key);
    var len;
    len, next, found := CutAt(keys, key, ' ');
    if found {
      assert s == s[..len] + [' '] + s[len + 1..];
      TokensCut(s[..len], ' ', s[len + 1..]);
    } else {
      TokenOne(s, ' ');
    }
  }

  lemma CleanStep(items: seq<Item>, k: nat, prefix: string)
    requires k < |items|
    ensures prefix <= items[k].key ==> Clean(items[k..], prefix) == Clean(items[k + 1..], prefix)
    ensures !(prefix <= items[k].key) ==>
      items[..k] + Clean(items[k..], prefix) == items[..k + 1] + Clean(items[k + 1..], prefix)
  {
    assert items[k..][1..] == items[k + 1..];
    assert items[..k + 1] == items[..k] + [items[k]];
  }

  class RcSublist {
    const names: Naming
    const ring: Ring<string>
    var size: nat

    ghost predicate Valid()
      reads this, ring, ring.Repr
    {
      && ring.Valid() && this !in ring.Repr
      && size == |ring.contents| && names.CStrings()
    }

    /** `rcconf_sublist_init` */
    constructor (names: Naming)
      requires names.CStrings()
      ensures Valid() && this.names == names && ring.contents == [] && fresh(ring.Repr)
    {
      this.names, size := names, 0;
      ring := new Ring();
    }

    /** `rcconf_sublist_append` */
    method Append(val: string)
      requires Valid()
      modifies this, ring.Repr
      ensures Valid() && fresh(ring.Repr - old(ring.Repr))
      ensures ring.contents == old(ring.contents) + [val]
    {
      var item := new Link(val);
      ring.Append(item);
      size := size + 1;
    }

    /** `rcconf_sublist_del_item` */
    method DelItem(item: Link<string>, ghost k: nat)
      requires Valid() && k < |ring.contents| && item == ring.At(k)
      modifies this, ring.Repr
      ensures Valid() && ring.Repr == old(ring.Repr)
      ensures ring.contents == old(ring.contents[..k] + ring.contents[k + 1..])
    {
      ring.Del(item, k);
      size := size - 1;
    }

    /** `rcconf_sublist_get_item_by_val` */
    method GetItemByVal(val: string) returns (item: Link?<string>, ghost k: nat)
      requires Valid()
      ensures k == FindVal(ring.contents, val)
      ensures item == if val in ring.contents then ring.At(FindVal(ring.contents, val)) else null
    {
      ring.Walk(0);
      item, k := ring.head.next, 0;
      while item != ring.head
        invariant k <= |ring.contents|
        invariant item == ring.At(k)
        invariant FindVal(ring.contents, val) == k + FindVal(ring.contents[k..], val)
        decreases |ring.contents| - k
      {
        ring.Walk(k);
        assert ring.contents[k..][1..] == ring.contents[k + 1..];
        if item.data == val {
          return;
        }
        item, k := item.next, k + 1;
      }
      ring.Walk(k);
      item := null;
    }

    /** `rcconf_sublist_del_item_by_val` */
    method DelItemByVal(val: string) returns (res: int)
      requires Valid()
      modifies this, ring.Repr
      ensures Valid() && ring.Repr == old(ring.Repr)
      ensures ring.contents == DelVal(old(ring.contents), val)
      ensures res == if val in old(ring.contents) then 0 else -ENOENT
    {
      var item, k := GetItemByVal(val);
      if item == null {
        return -ENOENT;
      }
      DelItem(item, k);
      return 0;
    }

    /** `rcconf_sublist_set` */
    method Set(val: string)
      requires Valid()
      modifies this, ring.Repr
      ensures Valid() && fresh(ring.Repr - old(ring.Repr))
      ensures ring.contents == SetVal(old(ring.contents), val)
    {
      var _ := DelItemByVal(val);
      Append(val);
    }

    /** `rcconf_sublist_free` */
    method Free()
      requires Valid()
      modifies this, ring.Repr
      ensures Valid() && ring.Repr == old(ring.Repr) && ring.contents == []
    {
      ring.Clear();
      size := 0;
    }

    /** The store and the sub-list share no link. */
    ghost predicate Apart(cfg: RcConf)
      reads ring, cfg.ring
    {
      ring.Repr !! cfg.ring.Repr && this !in cfg.ring.Repr
    }

    /** Sub-list and store are well formed and apart: as a value, which a loop hands on without
        its being taken apart. */
    ghost function Standing(cfg: RcConf): Standing
      reads this, ring, ring.Repr, cfg, cfg.ring, cfg.ring.Repr
    {
      if Valid() && cfg.Valid() && Apart(cfg) then Sound else Broken
    }

    /** `load_item` */
    method LoadItem(cfg: RcConf, name: string) returns (res: int)
      requires Valid() && cfg.Valid() && Apart(cfg)
      modifies this, ring.Repr
      ensures Valid() && cfg.Valid() && Apart(cfg) && fresh(ring.Repr - old(ring.Repr))
      ensures cfg.ring.contents == old(cfg.ring.contents)
      ensures var full := names.prefix + name;
        if |full| >= ITEM_KEY_MAX_LEN then res == -EINVAL
        else res == if HasKey(cfg.ring.contents, full) then 0 else -ENOENT
      ensures ring.contents == old(ring.contents) +
        if res == 0 then [Lookup(cfg.ring.contents, names.prefix + name).value] else []
    {
      var full := names.prefix + name;
      if |full| >= ITEM_KEY_MAX_LEN {
        return -EINVAL;
      }
      var item, k := cfg.GetItem(full);
      if item == null {
        return -ENOENT;
      }
      cfg.ring.Walk(k);
      Append(item.data.val);
      return 0;
    }

    /** `load_clean` */
    method LoadClean(cfg: RcConf)
      requires cfg.Valid()
      modifies cfg.ring.Repr
      ensures cfg.Valid() && cfg.ring.Repr == old(cfg.ring.Repr)
      ensures cfg.ring.contents == Clean(old(cfg.ring.contents), names.prefix)
    {
      cfg.ring.Walk(0);
      var item := cfg.ring.head.next;
      ghost var k := 0;
      while item != cfg.ring.head
        invariant cfg.Valid() && cfg.ring.Repr == old(cfg.ring.Repr) && k <= |cfg.ring.contents|
        invariant item == cfg.ring.At(k)
        invariant cfg.ring.contents[..k] + Clean(cfg.ring.contents[k..], names.prefix) == Clean(old(cfg.ring.contents), names.prefix)
        decreases |cfg.ring.contents| - k
      {
        cfg.ring.Walk(k);
        var next := item.next;
        CleanStep(cfg.ring.contents, k, names.prefix);
        if names.prefix <= item.data.key {
          ghost var was := cfg.ring.contents;
          RemoveKeepsDistinct(was, k);
          cfg.ring.Del(item, k);
          assert cfg.ring.contents[..k] == was[..k] && cfg.ring.contents[k..] == was[k + 1..];
        } else {
          k := k + 1;
        }
        item := next;
      }
      cfg.ring.Walk(k);
    }

    /** The values of a load are behind those there were, or the sub-list is empty. */
    ghost predicate Result(was: seq<string>, r: Loaded, res: int)
      reads ring
    {
      if r.Failed? then res == -r.err != 0 && ring.contents == [] else res == 0 && ring.contents == was + r.vals
    }

    /** One turn of the loop of `rcconf_sublist_load`: an empty name is skipped, and a name that
        cannot be loaded empties the sub-list. */
    method LoadName(cfg: RcConf, name: string) returns (res: int)
      requires Valid() && cfg.Valid() && Apart(cfg)
      modifies this, ring.Repr
      ensures Valid() && cfg.Valid() && Apart(cfg) && fresh(ring.Repr - old(ring.Repr))
      ensures cfg.ring.contents == old(cfg.ring.contents)
      ensures Result(old(ring.contents), LoadElems(names.prefix, cfg.ring.contents, Token(name)), res)
    {
      res := 0;
      if |name| > 0 {
        res := LoadItem(cfg, name);
        if res != 0 {
          Free();
        }
      }
    }

    /** One turn of the loop of `rcconf_sublist_load`, at the name at `key`; `got` has been loaded. */
    method LoadTurn(cfg: RcConf, keys: array<char>, key: nat, ghost goal: Loaded, ghost was: seq<string>, ghost got: seq<string>)
      returns (res: int, next: nat, found: bool, ghost now: seq<string>)
      requires Standing(cfg) == Sound && keys !in ring.Repr + cfg.ring.Repr && IsCString(keys[..], key)
      requires ring.contents == was + got
      requires goal == Then(Values(got), LoadElems(names.prefix, cfg.ring.contents, Tokens(StrAt(keys[..], key), ' ')))
      modifies this, ring.Repr, keys
      ensures Standing(cfg) == Sound && keys !in ring.Repr + cfg.ring.Repr && fresh(ring.Repr - old(ring.Repr))
      ensures cfg.ring.contents == old(cfg.ring.contents) && next > key && (found ==> IsCString(keys[..], next))
      ensures if res != 0 then Result(was, goal, res)
        else
          && ring.contents == was + now
          && goal == Then(Values(now), LoadElems(names.prefix, cfg.ring.contents,
                                                 if found then Tokens(StrAt(keys[..], next), ' ') else []))
    {
      ghost var items := cfg.ring.contents;
      next, found := NextName(keys, key);
      ghost var buf := keys[..];
      ghost var name, todo := Token(StrAt(buf, key)), if found then Tokens(StrAt(buf, next), ' ') else [];
      LoadNext(goal, names.prefix, items, got, name, todo);
      res := LoadName(cfg, StrAt(keys[..], key));
      now := got;
      if res == 0 {
        Associative(was, got, LoadElems(names.prefix, items, name).vals);
        now := got + LoadElems(names.prefix, items, name).vals;
      }
      assert keys[..] == buf;
    }

    /** The loop of `rcconf_sublist_load` over the names in the index. */
    method LoadNames(cfg: RcConf, index: string) returns (res: int)
      requires Valid() && cfg.Valid() && Apart(cfg)
      modifies this, ring.Repr
      ensures Valid() && cfg.Valid() && Apart(cfg) && fresh(ring.Repr - old(ring.Repr))
      ensures cfg.ring.contents == old(cfg.ring.contents)
      ensures Result(old(ring.contents), LoadElems(names.prefix, cfg.ring.contents, Tokens(StrAt(index, 0), ' ')), res)
    {
      hide Valid, RcConf.Valid, Apart, Tokens, LoadElems;
      ghost var items, was, got := cfg.ring.contents, ring.contents, [];
      ghost var goal := LoadElems(names.prefix, items, Tokens(StrAt(index, 0), ' '));
      var keys := LineBuffer(index);
      var key, found := 0, true;
      while found
        invariant Standing(cfg) == Sound && keys !in ring.Repr + cfg.ring.Repr
        invariant fresh(keys) && fresh(ring.Repr - old(ring.Repr))
        invariant cfg.ring.contents == items && ring.contents == was + got
        invariant found ==> IsCString(keys[..], key)
        invariant goal == Then(Values(got), LoadElems(names.prefix, items,
                                                      if found then Tokens(StrAt(keys[..], key), ' ') else []))
        decreases found, keys.Length - key
      {
        res, key, found, got := LoadTurn(cfg, keys, key, goal, was, got);
        if res != 0 {
          return;
        }
      }
      LoadElemsNone(names.prefix, items);
      return 0;
    }

    /** `rcconf_sublist_load`: the names in the index are loaded one by one; when one cannot be, the
        sub-list is emptied and the store left alone, otherwise every prefixed item leaves the store. */
    method Load(cfg: RcConf) returns (res: int)
      requires Valid() && cfg.Valid() && Apart(cfg)
      modifies this, ring.Repr, cfg.ring.Repr
      ensures Valid() && cfg.Valid() && Apart(cfg)
      ensures fresh(ring.Repr - old(ring.Repr)) && cfg.ring.Repr == old(cfg.ring.Repr)
      ensures match Numbered.Load(names, old(cfg.ring.contents))
        case Values(vs) => (
          && res == 0 && ring.contents == old(ring.contents) + vs
          && cfg.ring.contents == Clean(old(cfg.ring.contents), names.prefix))
        case Failed(e) => (
          && res == -e && cfg.ring.contents == old(cfg.ring.contents)
          && ring.contents == if HasKey(old(cfg.ring.contents), names.key) then [] else old(ring.contents))
    {
      var item, k := cfg.GetItem(names.key);
      if item == null {
        return -EINVAL;
      }
      cfg.ring.Walk(k);
      res := LoadNames(cfg, item.data.val);
      if res == 0 {
        LoadClean(cfg);
      }
    }

    /** Following the links of the list. */
    lemma Walks(cfg: RcConf, k: nat)
      requires Standing(cfg) == Sound && k <= |ring.contents|
      ensures ring.head.next == ring.At(0) && (ring.At(k) == ring.head <==> k == |ring.contents|)
      ensures names.CStrings()
    {
      ring.Walk(k);
    }

    /** The index is set at the end of `rcconf_sublist_save`. */
    method SetIndex(cfg: RcConf, index: string) returns (res: int)
      requires Standing(cfg) == Sound
      modifies cfg.ring.Repr
      ensures Standing(cfg) == Sound && fresh(cfg.ring.Repr - old(cfg.ring.Repr)) && res == 0
      ensures cfg.ring.contents == SetItem(old(cfg.ring.contents), names.key, index)
      ensures ring.contents == old(ring.contents)
    {
      res := cfg.SetItem(names.key, index);
    }

    /** One turn of the loop of `rcconf_sublist_save`, at item `i`. */
    method SaveNext(cfg: RcConf, keys: array<char>, p: nat, i: nat, item: Link<string>, ghost goal: Saved)
      returns (res: int, end: nat, next: Link<string>)
      requires Standing(cfg) == Sound && i < |ring.contents| && item == ring.At(i)
      requires keys !in cfg.ring.Repr + ring.Repr && keys.Length == KEY_SET_MAX_LEN
      requires IsIndex(keys[..], p, names, i) && SaveFrom(names, ring.contents, cfg.ring.contents, i) == goal
      modifies cfg.ring.Repr, keys
      ensures Standing(cfg) == Sound && fresh(cfg.ring.Repr - old(cfg.ring.Repr))
      ensures keys !in cfg.ring.Repr + ring.Repr && ring.contents == old(ring.contents)
      ensures if res == 0 then
          && next == ring.At(i + 1) && IsIndex(keys[..], end, names, i + 1)
          && SaveFrom(names, ring.contents, cfg.ring.contents, i + 1) == goal
        else Saved(res, cfg.ring.contents) == goal
    {
      ring.Walk(i);
      next := item.next;
      res, end := SaveItem(cfg, names, keys, p, i, item.data, ring.contents, goal);
    }

    /** `rcconf_sublist_save`: the element names are appended to the index buffer while the
        entries are set one by one; a name that does not fit stops the save halfway. For an empty
        list the buffer is never written, and any text becomes the index. */
    method Save(cfg: RcConf) returns (res: int)
      requires Valid() && cfg.Valid() && Apart(cfg)
      modifies cfg.ring.Repr
      ensures Valid() && cfg.Valid() && fresh(cfg.ring.Repr - old(cfg.ring.Repr))
      ensures ring.contents != [] ==>
        Saved(res, cfg.ring.contents) == Numbered.Save(names, ring.contents, old(cfg.ring.contents))
      ensures ring.contents == [] ==>
        res == 0 && exists index :: cfg.ring.contents == SetItem(old(cfg.ring.contents), names.key, index)
    {
      hide RcConf.Valid, Apart, Naming.Index, IsIndex, Numbered.Save;
      ghost var vals, items := ring.contents, cfg.ring.contents;
      ghost var goal := Numbered.Save(names, vals, items);
      var keys := new char[KEY_SET_MAX_LEN];
      var p: nat, i: nat := 0, 0;
      Walks(cfg, 0);
      EmptyIndex(keys[..], names);
      SaveStarts(names, vals, items);
      var item := ring.head.next;
      while item != ring.head
        invariant Standing(cfg) == Sound && fresh(cfg.ring.Repr - old(cfg.ring.Repr))
        invariant fresh(keys) && keys !in cfg.ring.Repr + ring.Repr && keys.Length == KEY_SET_MAX_LEN
        invariant ring.contents == vals && i <= |vals| && item == ring.At(i)
        invariant i == 0 ==> cfg.ring.contents == items
        invariant IsIndex(keys[..], p, names, i)
        invariant SaveFrom(names, vals, cfg.ring.contents, i) == goal
        decreases |vals| - i
      {
        Walks(cfg, i);
        res, p, item := SaveNext(cfg, keys, p, i, item, goal);
        if res != 0 {
          return;
        }
        i := i + 1;
      }
      Walks(cfg, i);
      SaveEnds(names, vals, cfg.ring.contents);
      var index := IndexText(keys, p, names, i);
      res := SetIndex(cfg, index);
      assert i == 0 ==> cfg.ring.contents == SetItem(items, names.key, index);
    }
  }

  /** The loop body of `rcconf_sublist_save` for element `i` of `vals`. */
  method SaveItem(cfg: RcConf, ns: Naming, keys: array<char>, p: nat, i: nat, val: string,
                  ghost vals: seq<string>, ghost goal: Saved)
    returns (res: int, next: nat)
    requires cfg.Valid() && keys !in cfg.ring.Repr && ns.CStrings()
    requires keys.Length == KEY_SET_MAX_LEN && IsIndex(keys[..], p, ns, i)
    requires i < |vals| && vals[i] == val && SaveFrom(ns, vals, cfg.ring.contents, i) == goal
    modifies cfg.ring.Repr, keys
    ensures cfg.Valid() && fresh(cfg.ring.Repr - old(cfg.ring.Repr)) && keys !in cfg.ring.Repr
    ensures res == 0 ==> IsIndex(keys[..], next, ns, i + 1)
    ensures goal == if res == 0 then SaveFrom(ns, vals, cfg.ring.contents, i + 1) else Saved(res, cfg.ring.contents)
  {
    next := p;
    var room := keys.Length - p;
    var n := PrintName(keys, p, ns, i);
    if n >= room {
      res := -EINVAL;
      return;
    }
    next := p + n;
    ghost var buf := keys[..];
    var key, len := PrintKey(ns.Full(i));
    if len >= room {
      res := -EINVAL;
      return;
    }
    res := cfg.SetItem(key, val);
    assert keys[..] == buf;
  }

  method IndexText(keys: array<char>, p: nat, ns: Naming, n: nat) returns (index: string)
    requires IsIndex(keys[..], p, ns, n) && ns.CStrings()
    ensures n > 0 ==> index == ns.Index(n)
  {
    if n > 0 {
      IndexIsCString(ns, n);
      assert forall j :: 0 <= j < p ==> keys[j] == keys[..p][j];
      StrAtIs(keys[..], 0, p);
    }
    index := StrAt(keys[..], 0);
  }

  /** The index of the first `i` elements fills the buffer up to `p`. */
  ghost predicate IsIndex(buf: string, p: nat, ns: Naming, i: nat) {
    p < |buf| && buf[..p] == ns.Index(i) && (i > 0 ==> buf[p] == '\0')
  }

  lemma EmptyIndex(buf: string, ns: Naming)
    requires |buf| > 0
    ensures IsIndex(buf, 0, ns, 0)
  {
  }

  lemma SaveStarts(ns: Naming, vals: seq<string>, items: seq<Item>)
    ensures SaveFrom(ns, vals, items, 0) == Numbered.Save(ns, vals, items)
  {
  }

  lemma SaveEnds(ns: Naming, vals: seq<string>, items: seq<Item>)
    ensures SaveFrom(ns, vals, items, |vals|) == Saved(0, SetItem(items, ns.key, ns.Index(|vals|)))
  {
  }

  lemma LoadElemsNone(prefix: string, items: seq<Item>)
    ensures LoadElems(prefix, items, []) == Values([])
  {
  }

  /** The name of element `i`, printed at the end of the index. */
  method PrintName(keys: array<char>, p: nat, ns: Naming, i: nat) returns (n: nat)
    requires IsIndex(keys[..], p, ns, i)
    modifies keys
    ensures n == (if i == 0 then 0 else 1) + |ns.Elem(i)|
    ensures p + n < keys.Length ==> IsIndex(keys[..], p + n, ns, i + 1)
  {
    var text := (if i == 0 then "" else " ") + (ns.itemKey + Decimal(i));
    n := Snprintf(keys, p, keys.Length - p, text);
    if p + n < keys.Length {
      assert text[..n] == text && keys[..][..p + n] == ns.Index(i) + text;
    }
  }

  /** The text of an element key, printed into its own short buffer. */
  method PrintKey(text: string) returns (key: string, len: nat)
    requires '\0' !in text
    ensures key == CutKey(text) && len == |text|
  {
    var buf := new char[ITEM_KEY_MAX_LEN];
    len := Snprintf(buf, 0, buf.Length, text);
    ghost var m := Min(|text|, ITEM_KEY_MAX_LEN - 1);
    assert buf[..0 + m] == text[..m];
    StrAtIs(buf[..], 0, m);
    key := StrAt(buf[..], 0);
  }

  /** One load after the other: the first failure decides. */
  function Then(a: Loaded, b: Loaded): Loaded {
    if a.Failed? then a else if b.Failed? then b else Values(a.vals + b.vals)
  }

  lemma ThenAssociative(a: Loaded, b: Loaded, c: Loaded)
    ensures Then(a, Then(b, c)) == Then(Then(a, b), c)
  {
    if a.Values? && b.Values? && c.Values? {
      Associative(a.vals, b.vals, c.vals);
    }
  }

  lemma LoadElemsCons(prefix: string, items: seq<Item>, names: seq<string>)
    requires names != []
    ensures LoadElems(prefix, items, names) ==
      Then(LoadElems(prefix, items, names[..1]), LoadElems(prefix, items, names[1..]))
  {
    hide Lookup;
    assert names[..1][1..] == [] && names[..1][0] == names[0];
  }

  lemma {:induction false} LoadElemsAppend(prefix: string, items: seq<Item>, a: seq<string>, b: seq<string>)
    ensures LoadElems(prefix, items, a + b) == Then(LoadElems(prefix, items, a), LoadElems(prefix, items, b))
  {
    hide LoadElems;
    LoadElemsNone(prefix, items);
    if a == [] {
      assert a + b == b;
    } else {
      LoadElemsCons(prefix, items, a + b);
      TailAppend(a, b);
      assert (a + b)[..1] == a[..1];
      LoadElemsAppend(prefix, items, a[1..], b);
      LoadElemsCons(prefix, items, a);
      ThenAssociative(LoadElems(prefix, items, a[..1]), LoadElems(prefix, items, a[1..]), LoadElems(prefix, items, b));
    }
  }

  lemma LoadNext(goal: Loaded, prefix: string, items: seq<Item>, got: seq<string>, a: seq<string>, b: seq<string>)
    requires goal == Then(Values(got), LoadElems(prefix, items, a + b))
    ensures var r := LoadElems(prefix, items, a);
      if r.Failed? then goal == r else goal == Then(Values(got + r.vals), LoadElems(prefix, items, b))
  {
    LoadElemsAppend(prefix, items, a, b);
    var r, q := LoadElems(prefix, items, a), LoadElems(prefix, items, b);
    if r.Values? && q.Values? {
      Associative(got, r.vals, q.vals);
    }
  }
}
