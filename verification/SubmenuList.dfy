/** The doubly linked submenu list (src/menusys.c): appending and the in-place
    bubble sort that relinks its nodes. */
module SubmenuList {
  import opened Titles

  class Node {
    const item: Item
    var prev: Node?
    var next: Node?

    constructor (item: Item)
      ensures this.item == item && prev == null && next == null
    {
      this.item, prev, next := item, null, null;
    }
  }

  ghost predicate Distinct(nodes: seq<Node>) {
    forall i, j :: 0 <= i < j < |nodes| ==> nodes[i] != nodes[j]
  }

  /** The nodes form one list: `next` and `prev` run along the sequence in both directions. */
  ghost predicate Linked(nodes: seq<Node>)
    reads nodes
  {
    && Distinct(nodes)
    && (forall i {:trigger nodes[i].next} :: 0 <= i < |nodes| - 1 ==> nodes[i].next == nodes[i + 1])
    && (forall i {:trigger nodes[i].prev} :: 0 < i < |nodes| ==> nodes[i].prev == nodes[i - 1])
    && (nodes != [] ==> nodes[0].prev == null && nodes[|nodes| - 1].next == null)
  }

  ghost predicate HeadOf(head: Node?, nodes: seq<Node>) {
    head == if nodes == [] then null else nodes[0]
  }

  /** Appends an item at the end of the list that starts at `head`. */
  method AppendItem(head: Node?, item: Item, ghost nodes: seq<Node>)
    returns (head': Node, added: Node, ghost nodes': seq<Node>)
    requires Linked(nodes) && HeadOf(head, nodes)
    modifies nodes
    ensures Linked(nodes') && HeadOf(head', nodes')
    ensures nodes' == nodes + [added] && fresh(added) && added.item == item
  {
    added := new Node(item);
    nodes' := nodes + [added];
    if head == null {
      return added, added, nodes';
    }
    var cur := head;
    ghost var k := 0;
    while cur.next != null
      invariant k < |nodes| && cur == nodes[k]
      decreases |nodes| - k
    {
      cur := cur.next;
      k := k + 1;
    }
    assert k == |nodes| - 1;
    cur.next := added;
    added.prev := cur;
    head' := head;
  }

  // ----- Exchanging neighbours -----

  ghost function Exchange<T>(s: seq<T>, k: nat): seq<T>
    requires k + 1 < |s|
  {
    s[k := s[k + 1]][k + 1 := s[k]]
  }

  /** Relinks two neighbours in the opposite order. */
  method Swap(a: Node, b: Node, ghost nodes: seq<Node>, ghost k: nat)
    requires Linked(nodes) && k + 1 < |nodes| && nodes[k] == a && nodes[k + 1] == b
    modifies nodes
    ensures Linked(Exchange(nodes, k))
  {
    var pa := a.prev;
    var nb := b.next;
    assert pa == if k == 0 then null else nodes[k - 1];
    assert nb == if k + 2 == |nodes| then null else nodes[k + 2];
    a.next := nb;
    b.prev := pa;
    b.next := a;
    a.prev := b;
    if pa != null {
      pa.next := b;
    }
    if nb != null {
      nb.prev := a;
    }
  }

  // ----- Order -----

  function Cmp(lang: Language, a: Node, b: Node): int {
    Compare(Title(lang, a.item), Title(lang, b.item))
  }

  ghost predicate Before(s: seq<Node>, x: Node, y: Node) {
    exists i, j :: 0 <= i < j < |s| && s[i] == x && s[j] == y
  }

  /** `x` stands before `y` in the dictionary of their titles or, for titles that
      differ in case only, in `original`. */
  ghost predicate Precedes(lang: Language, original: seq<Node>, x: Node, y: Node) {
    var a, b := Title(lang, x.item), Title(lang, y.item);
    Earlier(a, b) || (SameButCase(a, b) && Before(original, x, y))
  }

  lemma PrecedesIs(lang: Language, original: seq<Node>, x: Node, y: Node)
    ensures Precedes(lang, original, x, y) <==>
            Cmp(lang, x, y) < 0 || (Cmp(lang, x, y) == 0 && Before(original, x, y))
  {
    hide Compare, Earlier, SameButCase;
    CompareNegativeIff(Title(lang, x.item), Title(lang, y.item));
    CompareEqualIff(Title(lang, x.item), Title(lang, y.item));
  }

  ghost predicate InOrder(lang: Language, original: seq<Node>, s: seq<Node>) {
    forall i, j :: 0 <= i < j < |s| ==> Precedes(lang, original, s[i], s[j])
  }

  /** `s` holds the nodes of `original` in ascending order of title, equal titles in their old order. */
  ghost predicate StablySorted(lang: Language, original: seq<Node>, s: seq<Node>) {
    && multiset(s) == multiset(original)
    && InOrder(lang, original, s)
  }

  /** Nodes with equal titles are still in the order of `original`. */
  ghost predicate Stable(lang: Language, original: seq<Node>, s: seq<Node>) {
    forall i, j :: 0 <= i < j < |s| && Cmp(lang, s[i], s[j]) == 0 ==> Before(original, s[i], s[j])
  }

  ghost predicate Ascending(lang: Language, s: seq<Node>, n: nat) {
    forall i :: 0 <= i < n && i + 1 < |s| ==> Cmp(lang, s[i], s[i + 1]) <= 0
  }

  /** How many nodes of `s` have a greater title than `x`. */
  ghost function Greater(lang: Language, s: seq<Node>, x: Node): nat {
    if s == [] then 0
    else Greater(lang, s[..|s| - 1], x) + if Cmp(lang, s[|s| - 1], x) > 0 then 1 else 0
  }

  /** The number of pairs in the wrong order: what the sort still has to exchange. */
  ghost function Inversions(lang: Language, s: seq<Node>): nat {
    if s == [] then 0
    else Inversions(lang, s[..|s| - 1]) + Greater(lang, s[..|s| - 1], s[|s| - 1])
  }

  lemma {:induction false} GreaterExchange(lang: Language, s: seq<Node>, k: nat, x: Node)
    requires k + 1 < |s|
    ensures Greater(lang, Exchange(s, k), x) == Greater(lang, s, x)
    decreases |s|
  {
    var n := |s| - 1;
    var t := Exchange(s, k);
    if k + 1 < n {
      assert t[..n] == Exchange(s[..n], k);
      GreaterExchange(lang, s[..n], k, x);
    } else {
      assert t[..n][..k] == s[..n][..k];
    }
  }

  /** Exchanging two neighbours in the wrong order removes one inversion. */
  lemma {:induction false} InversionsDrop(lang: Language, s: seq<Node>, k: nat)
    requires k + 1 < |s| && Cmp(lang, s[k], s[k + 1]) > 0
    ensures Inversions(lang, Exchange(s, k)) == Inversions(lang, s) - 1
    decreases |s|
  {
    var n := |s| - 1;
    var t := Exchange(s, k);
    if k + 1 < n {
      assert t[..n] == Exchange(s[..n], k);
      InversionsDrop(lang, s[..n], k);
      GreaterExchange(lang, s[..n], k, s[n]);
    } else {
      CompareFlips(Title(lang, s[k].item), Title(lang, s[n].item));
      assert t[..n][..k] == s[..n][..k];
    }
  }

  lemma ExchangePermutes<T>(s: seq<T>, k: nat)
    requires k + 1 < |s|
    ensures multiset(Exchange(s, k)) == multiset(s)
  {
    assert s == s[..k] + [s[k], s[k + 1]] + s[k + 2..];
    assert Exchange(s, k) == s[..k] + [s[k + 1], s[k]] + s[k + 2..];
  }

  lemma ExchangeKeepsStable(lang: Language, original: seq<Node>, s: seq<Node>, k: nat)
    requires k + 1 < |s| && Cmp(lang, s[k], s[k + 1]) > 0 && Stable(lang, original, s)
    ensures Stable(lang, original, Exchange(s, k))
  {
    var t := Exchange(s, k);
    CompareFlips(Title(lang, s[k].item), Title(lang, s[k + 1].item));
    forall i, j | 0 <= i < j < |t| && Cmp(lang, t[i], t[j]) == 0
      ensures Before(original, t[i], t[j])
    {
      var i', j' := Moved(i, k), Moved(j, k);
      assert t[i] == s[i'] && t[j] == s[j'] && i' < j';
    }
  }

  /** Where index `i` of the exchanged sequence comes from. */
  function Moved(i: nat, k: nat): nat {
    if i == k then k + 1 else if i == k + 1 then k else i
  }

  lemma {:induction false} AscendingPairs(lang: Language, s: seq<Node>, i: nat, j: nat)
    requires i < j < |s| && Ascending(lang, s, |s|)
    ensures Cmp(lang, s[i], s[j]) <= 0
    decreases j - i
  {
    if i + 1 < j {
      AscendingPairs(lang, s, i, j - 1);
      CompareTransitive(Title(lang, s[i].item), Title(lang, s[j - 1].item), Title(lang, s[j].item));
    }
  }

  /** Stable and ascending neighbour by neighbour is stably sorted. */
  lemma AscendingIsSorted(lang: Language, original: seq<Node>, s: seq<Node>)
    requires multiset(s) == multiset(original) && Stable(lang, original, s) && Ascending(lang, s, |s|)
    ensures StablySorted(lang, original, s)
  {
    forall i, j | 0 <= i < j < |s| ensures Precedes(lang, original, s[i], s[j]) {
      AscendingPairs(lang, s, i, j);
      PrecedesIs(lang, original, s[i], s[j]);
    }
  }

  lemma SameNodes(a: seq<Node>, b: seq<Node>)
    requires multiset(a) == multiset(b)
    ensures forall i :: 0 <= i < |a| ==> a[i] in b
  {
    forall i | 0 <= i < |a| ensures a[i] in b {
      assert a[i] in multiset(b);
    }
  }

  lemma StartsStable(lang: Language, s: seq<Node>)
    ensures Stable(lang, s, s)
  {
  }

  // ----- The sort -----

  /** Sorts the list by title, relinking its nodes in place; null and one-node
      lists are left alone. */
  method Sort(submenu: Node?, lang: Language, ghost nodes: seq<Node>) returns (submenu': Node?, ghost nodes': seq<Node>)
    requires Linked(nodes) && HeadOf(submenu, nodes)
    modifies nodes
    ensures StablySorted(lang, nodes, nodes')
    ensures Linked(nodes') && HeadOf(submenu', nodes')
  {
    nodes' := nodes;
    StartsStable(lang, nodes);
    if submenu == null || submenu.next == null {
      return submenu, nodes';
    }
    var head := submenu;
    var sorted := false;
    while !sorted
      invariant multiset(nodes') == multiset(nodes) && Linked(nodes') && Stable(lang, nodes, nodes')
      invariant nodes' != [] && head == nodes'[0]
      invariant sorted ==> Ascending(lang, nodes', |nodes'|)
      decreases Inversions(lang, nodes'), !sorted
    {
      head, sorted, nodes' := Pass(head, lang, nodes, nodes');
    }
    AscendingIsSorted(lang, nodes, nodes');
    submenu' := head;
  }

  /** One pass over the list, exchanging neighbours in the wrong order. */
  method Pass(first: Node, lang: Language, ghost original: seq<Node>, ghost nodes: seq<Node>)
    returns (head: Node, sorted: bool, ghost nodes': seq<Node>)
    requires multiset(nodes) == multiset(original) && Linked(nodes) && Stable(lang, original, nodes)
    requires nodes != [] && first == nodes[0]
    modifies original
    ensures multiset(nodes') == multiset(original) && Linked(nodes') && Stable(lang, original, nodes')
    ensures nodes' != [] && head == nodes'[0]
    ensures if sorted then nodes' == nodes && Ascending(lang, nodes, |nodes|)
            else Inversions(lang, nodes') < Inversions(lang, nodes)
  {
    head, sorted, nodes' := first, true, nodes;
    var tip := head;
    ghost var k := 0;
    while tip.next != null
      invariant multiset(nodes') == multiset(original) && Linked(nodes') && Stable(lang, original, nodes')
      invariant k < |nodes'| && head == nodes'[0] && tip == nodes'[k]
      invariant if sorted then nodes' == nodes && Ascending(lang, nodes, k)
                else Inversions(lang, nodes') < Inversions(lang, nodes)
      decreases |nodes'| - k
    {
      var nxt := tip.next;
      assert nxt == nodes'[k + 1];
      if Cmp(lang, tip, nxt) > 0 {
        SameNodes(nodes', original);
        Swap(tip, nxt, nodes', k);
        InversionsDrop(lang, nodes', k);
        ExchangePermutes(nodes', k);
        ExchangeKeepsStable(lang, original, nodes', k);
        nodes' := Exchange(nodes', k);
        if tip == head {
          head := nxt;
        }
        sorted := false;
      } else {
        tip := tip.next;
      }
      k := k + 1;
    }
  }

  // ----- There is only one such order -----

  lemma {:induction false} PrecedesAsymmetric(lang: Language, original: seq<Node>, x: Node, y: Node)
    requires Distinct(original) && Precedes(lang, original, x, y)
    ensures !Precedes(lang, original, y, x)
  {
    PrecedesIs(lang, original, x, y);
    PrecedesIs(lang, original, y, x);
    CompareFlips(Title(lang, x.item), Title(lang, y.item));
  }

  lemma FirstIsSame(lang: Language, original: seq<Node>, a: seq<Node>, b: seq<Node>)
    requires Distinct(original) && multiset(a) == multiset(b) && a != [] && b != []
    requires InOrder(lang, original, a) && InOrder(lang, original, b)
    ensures a[0] == b[0]
  {
    SameNodes(a, b);
    SameNodes(b, a);
    var j :| 0 <= j < |b| && b[j] == a[0];
    var i :| 0 <= i < |a| && a[i] == b[0];
    hide Precedes;
    if j > 0 {
      PrecedesAsymmetric(lang, original, b[0], b[j]);
    }
  }

  /** Two stable sorts of the same nodes are the same sequence. */
  lemma {:induction false} StableSortUnique(lang: Language, original: seq<Node>, a: seq<Node>, b: seq<Node>)
    requires Distinct(original) && multiset(a) == multiset(b)
    requires InOrder(lang, original, a) && InOrder(lang, original, b)
    ensures a == b
    decreases |a|
  {
    assert |multiset(a)| == |a| && |multiset(b)| == |b|;
    if a != [] {
      FirstIsSame(lang, original, a, b);
      assert a == [a[0]] + a[1..] && b == [b[0]] + b[1..];
      assert multiset(a[1..]) == multiset(a) - multiset{a[0]} == multiset(b[1..]);
      StableSortUnique(lang, original, a[1..], b[1..]);
    }
  }
}
