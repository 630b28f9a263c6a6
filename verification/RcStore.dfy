/** The rc.conf store on the heap: items linked into a circular list, loaded from and saved to a
    file (BSD/rcconf.c). Every method is proved against the value-level functions of `RcItems`. */
module RcStore {
  import opened Text
  import opened CBuffer
  import opened CircularList
  import opened RcLine
  import opened RcItems
  import opened Errno
  import opened Files

  /** The item `parse_line` makes of a line, or NULL. */
  method MakeItem(line: string) returns (item: Link?<Item>)
    ensures item != null ==> fresh(item)
    ensures match ParseLine(line) case None => item == null case Some(it) => item != null && item.data == it
  {
    var buf := LineBuffer(line);
    var parsed := Parse(buf);
    item := null;
    if parsed.Some? {
      item := new Link(parsed.value);
    }
  }

  class RcConf {
    const ring: Ring<Item>

    ghost predicate Valid()
      reads this, ring, ring.Repr
    {
      ring.Valid() && DistinctKeys(ring.contents)
    }

    /** `rcconf_init` */
    constructor ()
      ensures Valid() && ring.contents == [] && fresh(ring.Repr)
    {
      ring := new Ring();
    }

    /** `rcconf_get_item`; `k` is the position of the item found. */
    method GetItem(key: string) returns (item: Link?<Item>, ghost k: nat)
      requires Valid()
      ensures k == FindKey(ring.contents, key)
      ensures item == if HasKey(ring.contents, key) then ring.At(FindKey(ring.contents, key)) else null
    {
      ring.Walk(0);
      item, k := ring.head.next, 0;
      while item != ring.head
        invariant k <= |ring.contents|
        invariant item == ring.At(k)
        invariant forall i :: 0 <= i < k ==> ring.contents[i].key != key
        decreases |ring.contents| - k
      {
        ring.Walk(k);
        if item.data.key == key {
          FindKeyIs(ring.contents, key, k);
          return;
        }
        item, k := item.next, k + 1;
      }
      ring.Walk(k);
      FindKeyIs(ring.contents, key, k);
      item := null;
    }

    /** An item with a new key is not in the list yet. */
    lemma NotLinked(item: Link<Item>)
      requires Valid() && item != ring.head && !HasKey(ring.contents, item.data.key)
      ensures item !in ring.nodes
    {
      if item in ring.nodes {
        var i :| 0 <= i < |ring.nodes| && ring.nodes[i] == item;
        ring.Walk(i - 1);
        FindKeyFound(ring.contents, i - 1);
      }
    }

    /** `rcconf_add_item`; NULL stands for a line that did not parse. */
    method AddItem(item: Link?<Item>) returns (res: int)
      requires Valid() && item != ring.head
      modifies ring.Repr, item
      ensures Valid()
      ensures res == if item == null then -22
                     else if old(HasKey(ring.contents, item.data.key)) then -17 else 0
      ensures item == null ==> ring.contents == old(ring.contents)
      ensures item != null ==> ring.contents == RcItems.AddItem(old(ring.contents), old(item.data))
      ensures ring.Repr == old(ring.Repr) + (if res == 0 then {item} else {})
    {
      if item == null {
        return -EINVAL;
      }
      var check, k := GetItem(item.data.key);
      ring.Walk(k);
      if check != null {
        return -EEXIST;
      }
      NotLinked(item);
      StoreKeepsDistinct(ring.contents, item.data.key, item.data.val);
      ring.Append(item);
      return 0;
    }

    /** `rcconf_set_item` */
    method SetItem(key: string, val: string) returns (res: int)
      requires Valid()
      modifies ring.Repr
      ensures Valid() && res == 0
      ensures ring.contents == RcItems.SetItem(old(ring.contents), key, val)
      ensures fresh(ring.Repr - old(ring.Repr))
    {
      var item, k := GetItem(key);
      if item != null {
        ring.Walk(k);
        StoreKeepsDistinct(ring.contents, key, val);
        ring.SetData(item, k, Item(item.data.key, val));
        return 0;
      }
      var made := new Link(Item(key, val));
      res := AddItem(made);
    }

    /** `rcconf_del_item` */
    method DelItem(key: string) returns (res: int)
      requires Valid()
      modifies ring.Repr
      ensures Valid()
      ensures res == if old(HasKey(ring.contents, key)) then 0 else -2
      ensures ring.contents == RcItems.DelItem(old(ring.contents), key)
      ensures ring.Repr == old(ring.Repr)
    {
      var item, k := GetItem(key);
      if item == null {
        return -ENOENT;
      }
      StoreKeepsDistinct(ring.contents, key, "");
      ring.Del(item, k);
      return 0;
    }

    /** `rcconf_load`: the store is emptied even when the file cannot be opened. */
    method Load(file: File) returns (res: int)
      requires Valid() && file !in ring.Repr
      modifies ring.Repr
      ensures Valid() && res == -file.readErr
      ensures ring.contents == if file.readErr != 0 then [] else LoadText(file.text)
      ensures fresh(ring.Repr - old(ring.Repr))
    {
      ring.Clear();
      if file.readErr != 0 {
        return -file.readErr;
      }
      var pos := 0;
      ghost var rest := Lines(file.text);
      assert file.text[0..] == file.text;
      while pos < |file.text|
        invariant Valid() && file !in ring.Repr && pos <= |file.text|
        invariant rest == Lines(file.text[pos..])
        invariant AddLines(ring.contents, rest) == LoadText(file.text)
        invariant fresh(ring.Repr - old(ring.Repr))
      {
        var line, end := GetLine(file.text, pos);
        var item := MakeItem(line);
        var _ := AddItem(item);
        pos, rest := end, rest[1..];
      }
      return 0;
    }

    /** `rcconf_save` */
    method Save(file: File, header: Option<string>) returns (res: int)
      requires Valid() && file !in ring.Repr
      modifies file
      ensures res == -file.writeErr
      ensures file.text == if file.writeErr != 0 then old(file.text) else SaveText(ring.contents, header)
      ensures file.readErr == old(file.readErr) && file.writeErr == old(file.writeErr)
    {
      if file.writeErr != 0 {
        return -file.writeErr;
      }
      file.text := HeaderText(header);
      ring.Walk(0);
      var item, k := ring.head.next, 0;
      while item != ring.head
        invariant Valid() && file !in ring.Repr && k <= |ring.contents|
        invariant item == ring.At(k)
        invariant file.text + PrintItems(ring.contents[k..]) == SaveText(ring.contents, header)
        invariant file.readErr == old(file.readErr) && file.writeErr == old(file.writeErr)
        decreases |ring.contents| - k
      {
        ring.Walk(k);
        assert ring.contents[k..][1..] == ring.contents[k + 1..];
        Associative(file.text, PrintItem(item.data), PrintItems(ring.contents[k + 1..]));
        file.text := file.text + PrintItem(item.data);
        item, k := item.next, k + 1;
      }
      ring.Walk(k);
      return 0;
    }
  }

  /** `rcconf_save_items` */
  method SaveItems(file: File, header: Option<string>, args: seq<Edit>) returns (res: int)
    modifies file
    ensures res == if file.readErr != 0 then -file.readErr else -file.writeErr
    ensures file.text == if res != 0 then old(file.text) else SavedItems(old(file.text), header, args)
    ensures file.readErr == old(file.readErr) && file.writeErr == old(file.writeErr)
  {
    var cfg := new RcConf();
    res := cfg.Load(file);
    if res != 0 {
      return;
    }
    var i := 0;
    while i < |args|
      invariant i <= |args| && unchanged(file) && cfg.Valid() && fresh(cfg.ring.Repr)
      invariant ApplyEdits(cfg.ring.contents, args[i..]) == ApplyEdits(LoadText(file.text), args)
    {
      assert args[i..][1..] == args[i + 1..];
      var key := args[i].key;
      match args[i].val {
        case None =>
          res := cfg.DelItem(key);
        case Some(val) =>
          res := cfg.SetItem(key, val);
      }
      i := i + 1;
    }
    res := cfg.Save(file, header);
  }
}
