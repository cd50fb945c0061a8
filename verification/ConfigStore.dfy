/** A configuration set on the heap (src/config.c): a singly linked list with a
    tail pointer and a `modified` flag, proved against the list of pairs. */
module ConfigStore {
  import opened Options
  import opened CStrings
  import opened Config

  class Node {
    const key: string
    var val: string
    var next: Node?

    /** allocConfigItem. */
    constructor (key: string, val: string)
      ensures Pair(this.key, this.val) == Stored(key, val) && next == null
    {
      this.key, this.val, next := First(key, KEY_LEN - 1), First(val, VALUE_LEN - 1), null;
    }
  }

  ghost predicate Chained(nodes: seq<Node>)
    reads nodes`next
  {
    forall i {:trigger nodes[i].next} :: 0 <= i < |nodes| - 1 ==> nodes[i].next == nodes[i + 1]
  }

  ghost predicate Distinct(nodes: seq<Node>) {
    forall i, j :: 0 <= i < j < |nodes| ==> nodes[i] != nodes[j]
  }

  /** `nodes` are the list from `head` to `tail`, each once. */
  ghost predicate Linked(head: Node?, tail: Node?, nodes: seq<Node>)
    reads nodes`next
  {
    && (if nodes == [] then head == null && tail == null
        else head == nodes[0] && tail == nodes[|nodes| - 1] && nodes[|nodes| - 1].next == null)
    && Chained(nodes) && Distinct(nodes)
  }

  ghost function ItemsOf(nodes: seq<Node>): (items: Items)
    reads nodes`val
    ensures |items| == |nodes| && forall i :: 0 <= i < |nodes| ==> items[i] == Pair(nodes[i].key, nodes[i].val)
  {
    if nodes == [] then []
    else ItemsOf(nodes[..|nodes| - 1]) + [Pair(nodes[|nodes| - 1].key, nodes[|nodes| - 1].val)]
  }

  lemma Links(head: Node?, tail: Node?, nodes: seq<Node>, i: nat)
    requires Linked(head, tail, nodes)
    ensures head == if nodes == [] then null else nodes[0]
    ensures i < |nodes| ==> nodes[i].next == if i + 1 < |nodes| then nodes[i + 1] else null
  {}

  lemma OnlyOnce(nodes: seq<Node>, i: nat)
    requires Distinct(nodes) && i < |nodes|
    ensures forall j :: 0 <= j < |nodes| && j != i ==> nodes[j] != nodes[i]
  {}

  /** The two parts of a list around the node `it`. */
  lemma Parts(head: Node?, tail: Node?, kept: seq<Node>, rest: seq<Node>, it: Node)
    requires Linked(head, tail, kept + rest) && rest != [] && rest[0] == it
    ensures Chained(kept) && Chained(rest[1..]) && Distinct(kept + rest[1..])
    ensures it.next == if rest[1..] == [] then null else rest[1]
    ensures rest[1..] != [] ==> rest[|rest| - 1].next == null && it != tail
    ensures rest[1..] == [] ==> it == tail
    ensures if kept == [] then head == it else head == kept[0]
    ensures kept != [] ==> kept[|kept| - 1] !in kept[..|kept| - 1] && kept[|kept| - 1] !in rest[1..]
  {
    var k, nodes := |kept|, kept + rest;
    assert nodes[k] == it;
    var after, all := rest[1..], kept + rest[1..];
    assert forall i :: 0 <= i < k ==> kept[i] == nodes[i];
    assert forall i :: 0 <= i < |after| ==> after[i] == nodes[k + 1 + i];
    assert forall i :: 0 <= i < |all| ==> all[i] == nodes[if i < k then i else i + 1];
  }

  /** Two chains, the first leading to the second, are one list. */
  lemma Join(kept: seq<Node>, after: seq<Node>, head: Node?, tail: Node?)
    requires Chained(kept) && Chained(after) && Distinct(kept + after)
    requires kept != [] ==> kept[|kept| - 1].next == if after == [] then null else after[0]
    requires after != [] ==> after[|after| - 1].next == null
    requires head == if kept != [] then kept[0] else if after != [] then after[0] else null
    requires tail == if after != [] then after[|after| - 1] else if kept != [] then kept[|kept| - 1] else null
    ensures Linked(head, tail, kept + after)
  {
    hide Distinct;
    var all, k := kept + after, |kept|;
    forall i {:trigger all[i].next} | 0 <= i < |all| - 1 ensures all[i].next == all[i + 1] {
      if i < k - 1 {
        assert kept[i].next == kept[i + 1];
      } else if i >= k {
        assert after[i - k].next == after[i - k + 1];
      }
    }
  }

  class ConfigSet {
    var head: Node?
    var tail: Node?
    var modified: bool
    /** The linked nodes, in order. */
    ghost var Nodes: seq<Node>

    /** The tail pointer is always the last node. */
    ghost predicate Valid()
      reads this`head, this`tail, this`Nodes, Nodes`next
    {
      Linked(head, tail, Nodes)
    }

    ghost function Pairs(): Items
      reads this`Nodes, Nodes`val
    {
      ItemsOf(Nodes)
    }

    /** configAlloc. */
    constructor ()
      ensures Valid() && Pairs() == [] && Nodes == [] && !modified
    {
      head, tail, modified := null, null, false;
      Nodes := [];
    }

    method AddValue(key: string, val: string)
      requires Valid()
      modifies this`head, this`tail, this`Nodes, Nodes
      ensures Valid() && Pairs() == old(Pairs()) + [Stored(key, val)]
      ensures |Nodes| == |old(Nodes)| + 1 && Nodes[..|old(Nodes)|] == old(Nodes) && fresh(Nodes[|old(Nodes)|])
    {
      var it := new Node(key, val);
      ghost var before := Nodes;
      if tail == null {
        head := it;
        tail := head;
      } else {
        tail.next := it;
        tail := tail.next;
      }
      Nodes := Nodes + [it];
      assert Nodes[..|before|] == before;
      assert Pairs() == old(Pairs()) + [Stored(key, val)];
    }

    method GetItemForName(name: string) returns (it: Node?)
      requires Valid()
      ensures
        var i := IndexOf(Pairs(), name);
        it == if i < |Nodes| then Nodes[i] else null
    {
      it := head;
      ghost var i := 0;
      while it != null
        invariant i <= |Nodes| && it == if i < |Nodes| then Nodes[i] else null
        invariant forall j :: 0 <= j < i ==> !Named(Pairs()[j], name)
        decreases |Nodes| - i
      {
        if SameWithin(it.key, name, KEY_LEN) {
          break;
        }
        it := it.next;
        i := i + 1;
      }
    }

    method Overwrite(it: Node, val: string, ghost i: nat)
      requires Valid() && i < |Nodes| && it == Nodes[i]
      modifies it`val
      ensures Valid() && Pairs() == old(Pairs())[i := Pair(it.key, First(val, VALUE_LEN - 1))]
    {
      hide First;
      OnlyOnce(Nodes, i);
      it.val := First(val, VALUE_LEN - 1);
      assert Pairs() == old(Pairs())[i := Pair(it.key, it.val)];
    }

    method SetStr(key: string, val: string) returns (ok: bool)
      requires Valid()
      modifies this, Nodes
      ensures Valid() && ok == ValidKey(key) && Pairs() == Set(old(Pairs()), key, val)
      ensures modified == (old(modified) || SetMarks(old(Pairs()), key, val))
      ensures |old(Nodes)| <= |Nodes| && Nodes[..|old(Nodes)|] == old(Nodes)
      ensures forall i :: |old(Nodes)| <= i < |Nodes| ==> fresh(Nodes[i])
    {
      hide First, Named, SameWithin, Linked, ItemsOf, IndexOf;
      if !ValidKey(key) {
        return false;
      }
      var it := GetItemForName(key);
      if it != null {
        if !SameWithin(it.val, val, VALUE_LEN) {
          Overwrite(it, val, IndexOf(Pairs(), key));
          if it.key == "" || it.key[0] != '#' {
            modified := true;
          }
        }
      } else {
        AddValue(key, val);
        if key[0] != '#' {
          modified := true;
        }
      }
      ok := true;
    }

    method GetStr(key: string) returns (val: Option<string>)
      requires Valid()
      ensures val == Lookup(Pairs(), key)
    {
      if !ValidKey(key) {
        return None;
      }
      var it := GetItemForName(key);
      val := if it != null then Some(it.val) else None;
    }

    /** The walk of a removal stands at `it`, the first node of `rest`, after `prev`. */
    ghost predicate Walk(kept: seq<Node>, rest: seq<Node>, prev: Node?, it: Node?)
      reads this`head, this`tail, this`Nodes, Nodes`next
    {
      && Valid() && Nodes == kept + rest
      && it == (if rest == [] then null else rest[0])
      && prev == (if kept == [] then null else kept[|kept| - 1])
    }

    /** Unlinks `it`, the node after `prev`. */
    method Unlink(prev: Node?, it: Node, ghost kept: seq<Node>, ghost rest: seq<Node>) returns (next: Node?)
      requires Walk(kept, rest, prev, it)
      modifies this`head, this`tail, this`Nodes, if prev == null then {} else {prev}`next
      ensures rest != [] && Walk(kept, rest[1..], prev, next)
    {
      hide Distinct;
      Parts(head, tail, kept, rest, it);
      ghost var after := rest[1..];
      if it == tail {
        tail := prev;
      }
      next := it.next;
      if prev != null {
        prev.next := next;
      } else {
        head := next;
      }
      Nodes := kept + after;
      assert forall i :: 0 <= i < |kept| - 1 ==> kept[i] in kept[..|kept| - 1];
      Join(kept, after, head, tail);
    }

    lemma Skip(kept: seq<Node>, rest: seq<Node>, prev: Node?, it: Node)
      requires Walk(kept, rest, prev, it)
      ensures rest != [] && it == rest[0] && Walk(kept + [it], rest[1..], it, it.next)
      ensures ItemsOf(kept + [it]) == ItemsOf(kept) + [Pair(it.key, it.val)]
    {
      hide Linked, ItemsOf;
      Parts(head, tail, kept, rest, it);
      ItemsMore(kept, it);
      assert kept + [it] + rest[1..] == Nodes;
    }

    lemma WalkStarts()
      requires Valid()
      ensures Walk([], Nodes, null, head)
    {
      assert [] + Nodes == Nodes;
    }

    lemma WalkAt(kept: seq<Node>, rest: seq<Node>, prev: Node?, it: Node?)
      requires Walk(kept, rest, prev, it)
      ensures it == null <==> rest == []
      ensures it != null ==> it == rest[0]
      ensures rest == [] ==> Nodes == kept
    {
      assert kept + [] == kept;
    }

    static lemma NothingWalked(name: string)
      ensures ItemsOf([]) == [] == Others([], name)
    {}

    static lemma RemoveIs(items: Items, key: string)
      requires ValidKey(key)
      ensures key != "" && Remove(items, key) == Others(items, key)
      ensures RemoveMarks(items, key) == (key[0] != '#' && IndexOf(items, key) < |items|)
    {}

    static lemma RemoveRefused(items: Items, key: string)
      requires !ValidKey(key)
      ensures Remove(items, key) == items && !RemoveMarks(items, key)
    {}

    static lemma OthersStep(items: Items, i: nat, name: string)
      requires i < |items|
      ensures Others(items[..i + 1], name) ==
              Others(items[..i], name) + (if Named(items[i], name) then [] else [items[i]])
      ensures IndexOf(items, name) < i + 1 <==> IndexOf(items, name) < i || Named(items[i], name)
    {
      assert items[..i + 1][..i] == items[..i];
    }

    static lemma ItemsMore(nodes: seq<Node>, it: Node)
      ensures ItemsOf(nodes + [it]) == ItemsOf(nodes) + [Pair(it.key, it.val)]
    {
      assert (nodes + [it])[..|nodes|] == nodes;
    }

    /** One node of the walk: unlinked when it has the name. */
    method Visit(prev: Node?, it: Node, key: string, ghost kept: seq<Node>, ghost rest: seq<Node>)
      returns (prev': Node?, it': Node?, ghost kept': seq<Node>)
      requires Walk(kept, rest, prev, it) && ValidKey(key)
      modifies this, if prev == null then {} else {prev}`next
      ensures rest != [] && it == rest[0] && Walk(kept', rest[1..], prev', it') && prev' in [prev, it]
      ensures
        var p := Pair(it.key, it.val);
        && ItemsOf(kept') == ItemsOf(kept) + (if Named(p, key) then [] else [p])
        && modified == (old(modified) || (Named(p, key) && key[0] != '#'))
    {
      hide Walk, ItemsOf, First;
      WalkAt(kept, rest, prev, it);
      if SameWithin(it.key, key, KEY_LEN) {
        if key[0] != '#' {
          modified := true;
        }
        prev', kept' := prev, kept;
        it' := Unlink(prev, it, kept, rest);
        assert ItemsOf(kept) + [] == ItemsOf(kept);
      } else {
        Skip(kept, rest, prev, it);
        prev', it', kept' := it, it.next, kept + [it];
      }
    }

    /** Unlinks every node of that name. */
    method RemoveKey(key: string) returns (ok: bool)
      requires Valid()
      modifies this, Nodes
      ensures Valid() && ok == ValidKey(key) && Pairs() == Remove(old(Pairs()), key)
      ensures modified == (old(modified) || RemoveMarks(old(Pairs()), key))
    {
      hide First, SameWithin, Named, ValidKey, Linked, ItemsOf, Others, Walk, IndexOf, Remove, RemoveMarks;
      if !ValidKey(key) {
        RemoveRefused(Pairs(), key);
        return false;
      }
      RemoveIs([], key);
      NothingWalked(key);
      WalkStarts();
      ghost var items, nodes := Pairs(), Nodes;
      ghost var kept: seq<Node>, rest, i := [], nodes, 0;
      assert items[..0] == [] && nodes[0..] == nodes;
      var it := head;
      var prev: Node? := null;
      while it != null
        invariant Walk(kept, rest, prev, it) && i <= |nodes| && rest == nodes[i..]
        invariant prev != null ==> prev in nodes
        invariant ItemsOf(nodes) == items
        invariant ItemsOf(kept) == Others(items[..i], key)
        invariant modified == (old(modified) || (key[0] != '#' && IndexOf(items, key) < i))
        decreases |rest|
      {
        WalkAt(kept, rest, prev, it);
        OthersStep(items, i, key);
        prev, it, kept := Visit(prev, it, key, kept, rest);
        i := i + 1;
        rest := rest[1..];
      }
      WalkAt(kept, rest, prev, it);
      assert items[..i] == items;
      WalkValid(kept, rest, prev, it);
      RemoveIs(items, key);
      ok := true;
    }

    lemma WalkValid(kept: seq<Node>, rest: seq<Node>, prev: Node?, it: Node?)
      requires Walk(kept, rest, prev, it)
      ensures Valid()
    {}

    static lemma NothingMerged(dest: Items)
      ensures Merge(dest, []) == dest && !MergeMarks(dest, [])
    {}

    static lemma MergeStep(dest: Items, source: Items, i: nat)
      requires i < |source|
      ensures Merge(dest, source[..i + 1]) == Set(Merge(dest, source[..i]), source[i].key, source[i].val)
      ensures MergeMarks(dest, source[..i + 1]) ==
              (MergeMarks(dest, source[..i]) || SetMarks(Merge(dest, source[..i]), source[i].key, source[i].val))
    {
      assert source[..i + 1][..i] == source[..i];
    }

    /** Setting a pair of the set itself appends nothing and leaves the pairs behind it alone. */
    static lemma OwnPair(items: Items, i: nat)
      requires i < |items|
      ensures
        var after := Set(items, items[i].key, items[i].val);
        |after| == |items| && forall j :: i < j < |items| ==> after[j] == items[j]
    {
      assert Named(items[i], items[i].key);
    }

    /** The two sets share no node. */
    ghost predicate Apart(source: ConfigSet)
      reads this`Nodes, source`Nodes
    {
      forall k :: 0 <= k < |source.Nodes| ==> source.Nodes[k] !in Nodes
    }

    /** Sets the pair of node `i` of a set, another one or this one. */
    method MergeOne(source: ConfigSet, it: Node, ghost i: nat) returns (next: Node?)
      requires Valid() && source.Valid() && i < |source.Nodes| && it == source.Nodes[i]
      requires source == this || Apart(source)
      modifies this, Nodes
      ensures Valid() && source.Valid() && source.Nodes == old(source.Nodes)
      ensures source == this || (source.Pairs() == old(source.Pairs()) && Apart(source))
      ensures forall j :: i < j < |source.Nodes| ==> source.Pairs()[j] == old(source.Pairs())[j]
      ensures forall j :: 0 <= j < |Nodes| ==> Nodes[j] in old(Nodes) || fresh(Nodes[j])
      ensures Pairs() == Set(old(Pairs()), it.key, old(it.val))
      ensures modified == (old(modified) || SetMarks(old(Pairs()), it.key, old(it.val)))
      ensures next == if i + 1 < |source.Nodes| then source.Nodes[i + 1] else null
    {
      hide Linked, ItemsOf, Set, SetMarks;
      if source == this {
        OwnPair(Pairs(), i);
      }
      var ok := SetStr(it.key, it.val);
      Links(source.head, source.tail, source.Nodes, i);
      next := it.next;
    }

    /** Sets every pair of a set, another one or this one, in order. */
    method MergeFrom(source: ConfigSet)
      requires Valid() && source.Valid()
      requires source == this || Apart(source)
      modifies this, Nodes
      ensures Valid() && Pairs() == Merge(old(Pairs()), old(source.Pairs()))
      ensures modified == (old(modified) || MergeMarks(old(Pairs()), old(source.Pairs())))
      ensures source != this ==> source.Valid() && source.Pairs() == old(source.Pairs())
    {
      hide Linked, ItemsOf, Set, SetMarks, Merge, MergeMarks;
      Links(source.head, source.tail, source.Nodes, 0);
      NothingMerged(Pairs());
      ghost var items, pairs, nodes, i := Pairs(), source.Pairs(), source.Nodes, 0;
      var it := source.head;
      while it != null
        invariant Valid() && source.Valid() && source.Nodes == nodes
        invariant i <= |nodes| && it == if i < |nodes| then nodes[i] else null
        invariant source == this || (source.Pairs() == pairs && Apart(source))
        invariant forall j :: i <= j < |nodes| ==> source.Pairs()[j] == pairs[j]
        invariant forall j :: 0 <= j < |Nodes| ==> Nodes[j] in old(Nodes) || fresh(Nodes[j])
        invariant Pairs() == Merge(items, pairs[..i])
        invariant modified == (old(modified) || MergeMarks(items, pairs[..i]))
        decreases |nodes| - i
      {
        MergeStep(items, pairs, i);
        it := MergeOne(source, it, i);
        i := i + 1;
      }
      assert pairs[..i] == pairs;
    }

    /** Frees the nodes from the front. */
    method Clear()
      requires Valid()
      modifies this
      ensures Valid() && Nodes == [] && Pairs() == [] && modified
    {
      ghost var i := 0;
      while head != null
        invariant i <= |Nodes| && head == if i < |Nodes| then Nodes[i] else null
        invariant Nodes == old(Nodes)
        decreases |Nodes| - i
      {
        head := head.next;
        i := i + 1;
      }
      head, tail, modified := null, null, true;
      Nodes := [];
    }
  }
}
