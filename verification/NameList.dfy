/** The singly linked name list on the heap (namelist.c), proved against `Names`. */
module NameList {
  import opened Text
  import opened CBuffer
  import opened Names

  class Node {
    var name: string
    var next: Node?

    constructor (name: string)
      ensures this.name == name && next == null
    {
      this.name, next := name, null;
    }
  }

  class List {
    var head: Node?
    ghost var nodes: seq<Node>
    ghost var names: seq<string>
    ghost var Repr: set<object>

    ghost predicate Valid()
      reads this, Repr
    {
      && this in Repr && (forall i :: 0 <= i < |nodes| ==> nodes[i] in Repr)
      && |nodes| == |names|
      && head == (if nodes == [] then null else nodes[0])
      && (forall i, j :: 0 <= i < j < |nodes| ==> nodes[i] != nodes[j])
      && (forall i {:trigger nodes[i].next} :: 0 <= i < |nodes| ==>
        nodes[i].next == if i + 1 < |nodes| then nodes[i + 1] else null)
      && (forall i {:trigger nodes[i].name} :: 0 <= i < |nodes| ==> nodes[i].name == names[i])
    }

    /** The node of name `k`, or NULL behind the last. */
    ghost function At(k: nat): Node?
      requires k <= |nodes|
      reads this
    {
      if k < |nodes| then nodes[k] else null
    }

    constructor ()
      ensures Valid() && names == [] && fresh(Repr)
    {
      head, nodes, names, Repr := null, [], [], {this};
    }

    /** `namelist_add` */
    method Add(name: string)
      requires Valid()
      modifies Repr
      ensures Valid() && names == old(names) + [name]
      ensures fresh(Repr - old(Repr))
    {
      var made := new Node(name);
      if head == null {
        head := made;
      } else {
        var it := head;
        ghost var k := 0;
        while it.next != null
          invariant k < |nodes| && it == nodes[k]
          decreases |nodes| - k
        {
          it, k := it.next, k + 1;
        }
        it.next := made;
      }
      nodes, names, Repr := nodes + [made], names + [name], Repr + {made};
    }

    /** `namelist_search` */
    method Search(name: string) returns (found: bool)
      requires Valid()
      ensures found <==> Has(names, name)
    {
      var it := head;
      ghost var k := 0;
      while it != null
        invariant k <= |nodes| && it == At(k)
        invariant Has(names, name) <==> Has(names[k..], name)
        decreases |nodes| - k
      {
        assert names[k..][1..] == names[k + 1..];
        if SameFold(it.name, name) {
          return true;
        }
        it, k := it.next, k + 1;
      }
      return false;
    }

    /** `namelist_remove`: 0 when a name was removed, 1 otherwise. */
    method Remove(name: string) returns (res: int)
      requires Valid()
      modifies Repr
      ensures Valid() && names == RemoveName(old(names), name)
      ensures res == if Has(old(names), name) then 0 else 1
      ensures Repr == old(Repr)
    {
      var it: Node?, prev: Node? := head, null;
      ghost var k := 0;
      while it != null
        invariant k <= |nodes| && it == At(k)
        invariant prev == if k == 0 then null else nodes[k - 1]
        invariant forall i :: 0 <= i < k ==> !SameFold(names[i], name)
        decreases |nodes| - k
      {
        if SameFold(it.name, name) {
          FirstMatch(names, name, k);
          Unlink(prev, it, k);
          return 0;
        }
        prev := it;
        it, k := it.next, k + 1;
      }
      FirstMatch(names, name, k);
      return 1;
    }

    /** The relinking step of `namelist_remove`. */
    method Unlink(prev: Node?, it: Node, ghost k: nat)
      requires Valid() && k < |nodes| && it == nodes[k]
      requires prev == if k == 0 then null else nodes[k - 1]
      modifies Repr
      ensures Valid() && Repr == old(Repr) && names == old(names[..k] + names[k + 1..])
    {
      if prev != null {
        prev.next := it.next;
      } else {
        head := it.next;
      }
      nodes, names := nodes[..k] + nodes[k + 1..], names[..k] + names[k + 1..];
    }

    /** `namelist_split_delim`: the tokens `strtok` finds are added one by one. */
    method Split(str: string, d: char)
      requires Valid()
      modifies Repr
      ensures Valid() && names == old(names) + Tokens(str, d)
      ensures fresh(Repr - old(Repr))
    {
      var tokens := Tokens(str, d);
      var i := 0;
      while i < |tokens|
        invariant i <= |tokens| && Valid() && names == old(names) + tokens[..i]
        invariant fresh(Repr - old(Repr))
      {
        Add(tokens[i]);
        assert tokens[..i + 1] == tokens[..i] + [tokens[i]];
        i := i + 1;
      }
    }

    /** `print_namelist_to_str_delim` with a one-character delimiter. */
    method Print(str: array<char>, d: char)
      requires Valid() && str.Length > 0 && d != '\0' && str !in Repr
      requires forall n <- names :: '\0' !in n
      modifies str
      ensures Holds(str[..], Printed(names, d, str.Length))
    {
      str[0] := '\0';
      var it := head;
      ghost var k, acc, goal := 0, "", Printed(names, d, str.Length);
      assert names[0..] == names;
      while it != null
        invariant Valid() && k <= |nodes| && it == At(k)
        invariant Holds(str[..], acc)
        invariant goal == acc + PrintRest(names[k..], d, |acc|, str.Length)
        decreases |nodes| - k
      {
        assert names[k] in names;
        var fits := PrintNext(str, it.name, d, names, k, acc, goal);
        if !fits {
          return;
        }
        acc := acc + (it.name + [d]);
        it, k := it.next, k + 1;
      }
      PrintStep(names, d, str.Length, k, acc, goal);
    }

    /** `namelist_compare`, and `is_equal_ip_skip_local` when `skip` is not empty. */
    method Compare(skip: List, str: string, d: char) returns (same: bool)
      requires Valid() && skip.Valid()
      ensures same <==> Matches(names, skip.names, str, d)
    {
      var tokens := Tokens(str, d);
      var i := 0;
      while i < |tokens|
        invariant i <= |tokens| && forall t <- tokens[..i] :: IsRemove(t) || Has(names, t)
      {
        if !IsRemove(tokens[i]) {
          var found := Search(tokens[i]);
          if !found {
            return false;
          }
        }
        i := i + 1;
      }
      assert tokens[..i] == tokens;
      var it := head;
      ghost var k := 0;
      while it != null
        invariant k <= |nodes| && it == At(k)
        invariant forall n <- names[..k] :: Has(skip.names, n) || OccursFold(n, str)
        decreases |nodes| - k
      {
        var skipped := skip.Search(it.name);
        if !skipped && !OccursFold(it.name, str) {
          return false;
        }
        it, k := it.next, k + 1;
      }
      assert names[..k] == names;
      return true;
    }
  }

  /** The buffer holds the C string `t`. */
  ghost predicate Holds(buf: string, t: string) {
    |t| < |buf| && buf[..|t|] == t && buf[|t|] == '\0' && '\0' !in t
  }

  lemma HoldsString(buf: string, t: string)
    requires Holds(buf, t)
    ensures IsCString(buf, 0) && StrAt(buf, 0) == t
  {
    assert forall i :: 0 <= i < |t| ==> buf[i] == t[i];
    StrAtIs(buf, 0, |t|);
  }

  /** One turn of the printing loop at name `k`, with `acc` in the buffer and `goal` to be there. */
  method PrintNext(str: array<char>, name: string, d: char, ghost names: seq<string>, ghost k: nat,
                   ghost acc: string, ghost goal: string) returns (fits: bool)
    requires k < |names| && name == names[k] && '\0' !in name && d != '\0'
    requires Holds(str[..], acc) && goal == acc + PrintRest(names[k..], d, |acc|, str.Length)
    modifies str
    ensures !fits ==> Holds(str[..], goal)
    ensures fits ==> (
      var now := acc + (name + [d]);
      Holds(str[..], now) && goal == now + PrintRest(names[k + 1..], d, |now|, str.Length))
  {
    PrintStep(names, d, str.Length, k, acc, goal);
    fits := PrintName(str, name, d, acc);
  }

  /** One name and its delimiter, printed behind what the buffer holds, if they fit. */
  method PrintName(str: array<char>, name: string, d: char, ghost acc: string) returns (fits: bool)
    requires Holds(str[..], acc) && d != '\0' && '\0' !in name
    modifies str
    ensures fits <==> !(|name| + |acc| >= str.Length - 1)
    ensures Holds(str[..], if fits then acc + (name + [d]) else acc)
  {
    HoldsString(str[..], acc);
    var len := StrLen(str, 0);
    fits := !(|name| + len >= str.Length - 1);
    if fits {
      var n := Snprintf(str, len, str.Length - len, name + [d]);
      assert (name + [d])[..n] == name + [d];
      assert str[..][..len + n] == str[..len + n] == acc + (name + [d]);
    }
  }
}
