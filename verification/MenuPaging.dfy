/** The paging state of a menu (src/menusys.c, src/gui.c): which item is current
    and which one starts the visible page, moved by pointer walks over the list. */
module MenuPaging {
  import opened Titles
  import opened SubmenuList
  import opened Arithmetic

  // ----- On indices -----

  /** `n` items, the current one and the first one shown; both 0 in an empty menu. */
  datatype View = View(n: nat, cur: nat, page: nat)

  /** The current item is in the list and on the visible page of `D` items. */
  predicate WindowOk(v: View, D: nat) {
    if v.n == 0 then v.cur == 0 && v.page == 0
    else v.page <= v.cur < v.page + D && v.cur < v.n
  }

  function Back(i: nat, steps: nat): nat {
    if i >= steps then i - steps else 0
  }

  function FirstPage(v: View): View {
    v.(cur := 0, page := 0)
  }

  function LastPage(v: View, D: nat): View
    requires D >= 1
  {
    if v.n == 0 then v else View(v.n, v.n - 1, Back(v.n - 1, D - 1))
  }

  function NextV(v: View, D: nat): View {
    if v.cur + 1 < v.n then
      View(v.n, v.cur + 1, if v.page <= v.cur + 1 < v.page + D then v.page else v.cur + 1)
    else FirstPage(v)
  }

  function PrevV(v: View, D: nat): View
    requires D >= 1
  {
    if v.n > 0 && v.cur > 0 then
      View(v.n, v.cur - 1, if v.page == v.cur then Back(v.page, D) else v.page)
    else LastPage(v, D)
  }

  function NextPage(v: View, D: nat): View {
    if v.page + 1 < v.n then
      var c := if v.page + D < v.n then v.page + D else v.n - 1;
      View(v.n, c, c)
    else FirstPage(v)
  }

  function PrevPage(v: View, D: nat): View
    requires D >= 1
  {
    if v.n > 0 && v.page > 0 then View(v.n, Back(v.page, D), Back(v.page, D)) else LastPage(v, D)
  }

  /** Appending an item; `selected` marks the last played game. */
  function Append(v: View, selected: bool): View {
    if selected then View(v.n + 1, v.n, v.n)
    else if v.n == 0 then View(1, 0, 0)
    else v.(n := v.n + 1)
  }

  /** Sorting; `moved` is the new index of the current item. */
  function Sorted(v: View, remindLast: bool, moved: nat): View {
    if v.n == 0 then v
    else if remindLast then View(v.n, moved, moved)
    else View(v.n, 0, 0)
  }

  datatype Op =
    | OpFirstPage | OpLastPage | OpNextV | OpPrevV | OpNextPage | OpPrevPage
    | OpAppend(selected: bool) | OpClear | OpSort(remindLast: bool, moved: nat)

  function Apply(v: View, op: Op, D: nat): View
    requires D >= 1
  {
    match op
    case OpFirstPage => FirstPage(v)
    case OpLastPage => LastPage(v, D)
    case OpNextV => NextV(v, D)
    case OpPrevV => PrevV(v, D)
    case OpNextPage => NextPage(v, D)
    case OpPrevPage => PrevPage(v, D)
    case OpAppend(selected) => Append(v, selected)
    case OpClear => View(0, 0, 0)
    case OpSort(remindLast, moved) => if moved < v.n then Sorted(v, remindLast, moved) else v
  }

  function Run(ops: seq<Op>, D: nat): View
    requires D >= 1
  {
    if ops == [] then View(0, 0, 0) else Apply(Run(ops[..|ops| - 1], D), ops[|ops| - 1], D)
  }

  /** After any run of appends, clears, sorts and moves the current item is in
      the list and on the visible page. */
  lemma {:induction false} RunKeepsWindow(ops: seq<Op>, D: nat)
    requires D >= 1
    ensures WindowOk(Run(ops, D), D)
  {
    if ops != [] {
      RunKeepsWindow(ops[..|ops| - 1], D);
    }
  }

  /** Moving down and then up comes back to the same item, also across the ends. */
  lemma UpUndoesDown(v: View, D: nat)
    requires D >= 1 && WindowOk(v, D)
    ensures PrevV(NextV(v, D), D).cur == v.cur && NextV(PrevV(v, D), D).cur == v.cur
  {
    if v.n > 0 && v.cur + 1 == v.n {
      assert NextV(v, D).cur == 0;
    }
  }

  function Downs(v: View, steps: nat, D: nat): View
  {
    if steps == 0 then v else NextV(Downs(v, steps - 1, D), D)
  }

  lemma OneMoreRound(a: nat, n: nat)
    requires n > 0
    ensures (a + 1) % n == if a % n + 1 == n then 0 else a % n + 1
  {
    var q, r := a / n, a % n;
    assert a == q * n + r;
    if r + 1 == n {
      assert a + 1 == (q + 1) * n;
      DivModIs(a + 1, q + 1, 0, n);
    } else {
      DivModIs(a + 1, q, r + 1, n);
    }
  }

  /** `steps` moves down from an item land on the item `steps` further, round the list. */
  lemma {:induction false} DownsGoRound(v: View, steps: nat, D: nat)
    requires D >= 1 && WindowOk(v, D) && v.n > 0
    ensures Downs(v, steps, D).n == v.n && Downs(v, steps, D).cur == (v.cur + steps) % v.n
    ensures WindowOk(Downs(v, steps, D), D)
  {
    if steps > 0 {
      DownsGoRound(v, steps - 1, D);
      OneMoreRound(v.cur + steps - 1, v.n);
    }
  }

  /** Where the page of an item `d` behind a page start begins. */
  function WholePages(d: nat, D: nat): nat
    requires D >= 1
  {
    d / D * D
  }

  lemma WholePagesStep(d: nat, D: nat)
    requires D >= 1
    ensures d < D ==> WholePages(d, D) == 0
    ensures WholePages(d + 1, D) == if d + 1 == WholePages(d, D) + D then d + 1 else WholePages(d, D)
    ensures WholePages(d, D) <= d < WholePages(d, D) + D
  {
    var q, r := d / D, d % D;
    assert d == q * D + r;
    if d < D {
      DivModIs(d, 0, d, D);
    }
    if r + 1 == D {
      DivModIs(d + 1, q + 1, 0, D);
      assert (q + 1) * D == q * D + D;
    } else {
      DivModIs(d + 1, q, r + 1, D);
    }
  }

  /** Moving down, the page stays while the item is on it and then starts at the
      item, so pages of `D` items follow from where the first one began. */
  lemma {:induction false} DownsShowPages(v: View, steps: nat, D: nat)
    requires D >= 1 && WindowOk(v, D) && v.cur + steps < v.n
    ensures Downs(v, steps, D) == View(v.n, v.cur + steps, v.page + WholePages(v.cur + steps - v.page, D))
  {
    hide WholePages;
    WholePagesStep(v.cur + steps - v.page, D);
    if steps > 0 {
      DownsShowPages(v, steps - 1, D);
      WholePagesStep(v.cur + steps - 1 - v.page, D);
    }
  }

  /** In particular from the first page item `k` is shown on page k / D. */
  lemma DownsFromFirst(n: nat, k: nat, D: nat)
    requires D >= 1 && k < n
    ensures Downs(View(n, 0, 0), k, D) == View(n, k, k / D * D)
  {
    DownsShowPages(View(n, 0, 0), k, D);
  }

  /** Behind the last item comes the first page. */
  lemma DownFromLast(v: View, D: nat)
    requires D >= 1 && WindowOk(v, D) && v.n > 0 && v.cur + 1 == v.n
    ensures NextV(v, D) == View(v.n, 0, 0)
  {}

  function Ups(v: View, steps: nat, D: nat): View
    requires D >= 1
  {
    if steps == 0 then v else PrevV(Ups(v, steps - 1, D), D)
  }

  /** How far back the page of an item `d` above a page start begins. */
  function PagesAbove(d: nat, D: nat): nat
    requires D >= 1
  {
    (d + D - 1) / D * D
  }

  lemma PagesAboveStep(d: nat, D: nat)
    requires D >= 1
    ensures PagesAbove(0, D) == 0
    ensures PagesAbove(d + 1, D) == PagesAbove(d, D) + if d == PagesAbove(d, D) then D else 0
    ensures d <= PagesAbove(d, D) < d + D
  {
    var q, r := (d + D - 1) / D, (d + D - 1) % D;
    DivModIs(D - 1, 0, D - 1, D);
    assert d + D - 1 == q * D + r;
    if r + 1 == D {
      DivModIs(d + D, q + 1, 0, D);
      assert (q + 1) * D == q * D + D;
    } else {
      DivModIs(d + D, q, r + 1, D);
    }
  }

  /** Moving up, the page stays until its top item is left and then goes back `D`
      items, or to the first item when there are fewer. */
  lemma {:induction false} UpsShowPages(v: View, steps: nat, D: nat)
    requires D >= 1 && WindowOk(v, D) && v.n > 0 && steps <= v.cur
    ensures
      var cur := v.cur - steps;
      Ups(v, steps, D) == View(v.n, cur, if v.page <= cur then v.page else Back(v.page, PagesAbove(v.page - cur, D)))
  {
    hide PagesAbove;
    if steps > 0 {
      UpsShowPages(v, steps - 1, D);
      if v.page > v.cur - steps {
        PagesAboveStep(v.page - (v.cur - steps) - 1, D);
        PagesAboveStep(v.page - (v.cur - steps), D);
      }
    }
  }

  /** Above the first item comes the last page, full if there are enough items. */
  lemma UpFromFirst(v: View, D: nat)
    requires D >= 1 && WindowOk(v, D) && v.n > 0 && v.cur == 0
    ensures PrevV(v, D) == View(v.n, v.n - 1, if v.n < D then 0 else v.n - D)
  {}

  function PagesUp(v: View, steps: nat, D: nat): View
    requires D >= 1
  {
    if steps == 0 then v else PrevPage(PagesUp(v, steps - 1, D), D)
  }

  /** Pages up go back `D` items each, the last of them to the first item; from
      there the last page follows. */
  lemma {:induction false} PagesUpGoBack(v: View, steps: nat, D: nat)
    requires D >= 1 && WindowOk(v, D) && v.n > 0 && steps >= 1 && (steps - 1) * D < v.page
    ensures PagesUp(v, steps, D) == View(v.n, Back(v.page, steps * D), Back(v.page, steps * D))
    ensures steps * D >= v.page ==> PrevPage(PagesUp(v, steps, D), D) == LastPage(v, D)
  {
    assert steps * D == (steps - 1) * D + D;
    if steps > 1 {
      assert (steps - 1) * D == (steps - 2) * D + D;
      PagesUpGoBack(v, steps - 1, D);
    } else {
      assert PagesUp(v, 1, D) == PrevPage(PagesUp(v, 0, D), D);
    }
  }

  function Appends(flags: seq<bool>): View {
    if flags == [] then View(0, 0, 0) else Append(Appends(flags[..|flags| - 1]), flags[|flags| - 1])
  }

  /** Filling an empty menu: the last item marked as last played is current and
      starts the page, and without one the first item does. */
  lemma {:induction false} AppendsSelect(flags: seq<bool>)
    ensures
      var v := Appends(flags);
      && v.n == |flags| && v.page == v.cur
      && (true in flags ==> v.cur < |flags| && flags[v.cur] && forall i :: v.cur < i < |flags| ==> !flags[i])
      && (true !in flags ==> v.cur == 0)
  {
    if flags != [] {
      AppendsSelect(flags[..|flags| - 1]);
    }
  }

  function PagesDown(v: View, steps: nat, D: nat): View {
    if steps == 0 then v else NextPage(PagesDown(v, steps - 1, D), D)
  }

  /** From the first page, full pages follow one another. */
  lemma {:induction false} PagesFollow(n: nat, k: nat, D: nat)
    requires D >= 1 && k * D < n
    ensures PagesDown(FirstPage(View(n, 0, 0)), k, D) == View(n, k * D, k * D)
  {
    if k > 0 {
      assert k * D == (k - 1) * D + D;
      PagesFollow(n, k - 1, D);
    }
  }

  /** On the way down from the first page every item is shown on the page of its
      number divided by the page size, and on no other. */
  lemma PagesShowEveryItem(n: nat, item: nat, k: nat, D: nat)
    requires D >= 1 && item < n && k * D < n
    ensures item / D * D < n
    ensures
      var page := PagesDown(FirstPage(View(n, 0, 0)), k, D).page;
      page <= item < page + D <==> k == item / D
  {
    hide PagesDown, FirstPage;
    PagesFollow(n, k, D);
    PageOf(item, k, D);
  }

  lemma PageOf(item: nat, k: nat, D: nat)
    requires D >= 1
    ensures item / D * D <= item
    ensures k * D <= item < k * D + D <==> k == item / D
  {
    assert item == item / D * D + item % D;
    if k * D <= item < k * D + D {
      DivModIs(item, k, item - k * D, D);
    }
  }

  /** After the last page that has a next one, the last item starts a page of its
      own unless it already started one; from there the first page follows. */
  lemma PagesGoRound(v: View, D: nat)
    requires D >= 1 && WindowOk(v, D) && v.n > 0 && v.page + D >= v.n
    ensures v.page + 1 < v.n ==> NextPage(v, D) == View(v.n, v.n - 1, v.n - 1)
    ensures v.page + 1 < v.n ==> NextPage(NextPage(v, D), D) == FirstPage(v)
    ensures v.page + 1 == v.n ==> NextPage(v, D) == FirstPage(v)
  {}

  /** A page down is undone by a page up while whole pages follow. */
  lemma PageUpUndoesPageDown(v: View, D: nat)
    requires D >= 1 && WindowOk(v, D) && v.page + D < v.n
    ensures PrevPage(NextPage(v, D), D).page == v.page
    ensures NextPage(v, D).page == NextPage(v, D).cur == v.page + D
  {}

  /** The last page ends with the last item and shows as many as fit. */
  lemma LastPageIsFull(v: View, D: nat)
    requires D >= 1 && v.n > 0
    ensures
      var w := LastPage(v, D);
      w.cur == v.n - 1 && w.n - w.page == if v.n < D then v.n else D
  {}

  // ----- On the list -----

  class MenuItem {
    var submenu: Node?
    var current: Node?
    var pagestart: Node?
    var remindLast: bool
    ghost var nodes: seq<Node>
    ghost var cur: nat
    ghost var page: nat

    ghost predicate Valid()
      reads this, nodes
    {
      && Linked(nodes)
      && HeadOf(submenu, nodes)
      && (if nodes == [] then current == null && pagestart == null && cur == 0 && page == 0
          else cur < |nodes| && page < |nodes| && current == nodes[cur] && pagestart == nodes[page])
    }

    ghost function TheView(): View
      reads this
    {
      View(|nodes|, cur, page)
    }

    constructor ()
      ensures Valid() && TheView() == View(0, 0, 0) && !remindLast
    {
      submenu, current, pagestart, remindLast := null, null, null, false;
      nodes, cur, page := [], 0, 0;
    }

    method MenuFirstPage()
      requires Valid()
      modifies this
      ensures Valid() && nodes == old(nodes) && TheView() == FirstPage(old(TheView()))
    {
      if current != null {
        current := submenu;
        pagestart := current;
        cur, page := 0, 0;
      }
    }

    /** `D` is the number of items the theme displays. */
    method MenuLastPage(D: int)
      requires Valid() && D >= 1
      modifies this
      ensures Valid() && nodes == old(nodes) && TheView() == LastPage(old(TheView()), D)
    {
      var c := current;
      if c != null {
        ghost var k: nat := cur;
        while c.next != null
          invariant k < |nodes| && c == nodes[k]
          decreases |nodes| - k
        {
          c := c.next;
          k := k + 1;
        }
        assert k == |nodes| - 1;
        current := c;
        cur := k;
        var itms := D - 1;
        while itms != 0 && c.prev != null
          invariant k < |nodes| && c == nodes[k]
          invariant 0 <= itms <= D - 1 && Back(k, itms) == Back(|nodes| - 1, D - 1)
          decreases k
        {
          c := c.prev;
          k := k - 1;
          itms := itms - 1;
        }
        pagestart := c;
        page := k;
      }
    }

    method MenuNextV(D: int)
      requires Valid() && D >= 1
      modifies this
      ensures Valid() && nodes == old(nodes) && TheView() == NextV(old(TheView()), D)
    {
      var c := current;
      if c != null && c.next != null {
        current := c.next;
        cur := cur + 1;
        c := pagestart;
        var itms := D;
        ghost var k: nat := page;
        while itms != 0 && c != null
          invariant 0 <= itms <= D && k == page + D - itms && page <= k <= |nodes|
          invariant c == if k < |nodes| then nodes[k] else null
          invariant !(page <= cur < k)
          decreases itms
        {
          if current == c {
            return;
          }
          c := c.next;
          k := k + 1;
          itms := itms - 1;
        }
        pagestart := current;
        page := cur;
      } else {
        MenuFirstPage();
      }
    }

    method MenuPrevV(D: int)
      requires Valid() && D >= 1
      modifies this
      ensures Valid() && nodes == old(nodes) && TheView() == PrevV(old(TheView()), D)
    {
      var c := current;
      if c != null && c.prev != null {
        current := c.prev;
        cur := cur - 1;
        if pagestart == c {
          var itms := D;
          while itms != 0 && pagestart.prev != null
            invariant Valid() && nodes == old(nodes) && nodes != [] && cur == old(cur) - 1
            invariant 0 <= itms <= D && Back(page, itms) == Back(old(page), D)
            decreases itms
          {
            pagestart := pagestart.prev;
            page := page - 1;
            itms := itms - 1;
          }
        }
      } else {
        MenuLastPage(D);
      }
    }

    method MenuNextPage(D: int)
      requires Valid() && D >= 1
      modifies this
      ensures Valid() && nodes == old(nodes) && TheView() == NextPage(old(TheView()), D)
    {
      var c := pagestart;
      if c != null && c.next != null {
        var itms := D;
        ghost var k: nat := page;
        while itms != 0 && c.next != null
          invariant 0 <= itms <= D && k < |nodes| && c == nodes[k] && k == page + D - itms
          decreases itms
        {
          c := c.next;
          k := k + 1;
          itms := itms - 1;
        }
        current := c;
        pagestart := current;
        cur, page := k, k;
      } else {
        MenuFirstPage();
      }
    }

    method MenuPrevPage(D: int)
      requires Valid() && D >= 1
      modifies this
      ensures Valid() && nodes == old(nodes) && TheView() == PrevPage(old(TheView()), D)
    {
      var c := pagestart;
      if c != null && c.prev != null {
        var itms := D;
        ghost var k: nat := page;
        while itms != 0 && c.prev != null
          invariant 0 <= itms <= D && k < |nodes| && c == nodes[k] && Back(k, itms) == Back(page, D)
          decreases itms
        {
          c := c.prev;
          k := k - 1;
          itms := itms - 1;
        }
        current := c;
        pagestart := current;
        cur, page := k, k;
      } else {
        MenuLastPage(D);
      }
    }

    /** The deferred operation that appends an item to the menu. */
    method HandleAppend(item: Item, selected: bool)
      requires Valid()
      modifies this, nodes
      ensures Valid() && TheView() == Append(old(TheView()), selected)
      ensures |nodes| == |old(nodes)| + 1 && nodes[..|old(nodes)|] == old(nodes)
      ensures fresh(nodes[|old(nodes)|]) && nodes[|old(nodes)|].item == item
      ensures remindLast == (old(remindLast) || selected)
    {
      var head, result;
      ghost var nodes';
      head, result, nodes' := AppendItem(submenu, item, nodes);
      if submenu == null {
        submenu := result;
        if !selected {
          current := result;
          pagestart := result;
        }
      }
      if selected {
        current := result;
        pagestart := result;
        remindLast := true;
        cur, page := |nodes|, |nodes|;
      }
      nodes := nodes';
    }

    /** The deferred operation that empties the menu; the reminder of a selected item stays. */
    method HandleClear()
      requires Valid()
      modifies this
      ensures Valid() && nodes == [] && TheView() == View(0, 0, 0) && remindLast == old(remindLast)
    {
      submenu := null;
      current := null;
      pagestart := null;
      nodes, cur, page := [], 0, 0;
    }

    /** The deferred operation that sorts the menu by title. */
    method HandleSort(lang: Language)
      requires Valid()
      modifies this, nodes
      ensures Valid() && StablySorted(lang, old(nodes), nodes)
      ensures old(nodes) != [] ==> nodes != [] && pagestart == current
      ensures old(nodes) != [] ==> current == if remindLast then old(current) else nodes[0]
      ensures TheView() == Sorted(old(TheView()), remindLast, cur) && remindLast == old(remindLast)
    {
      hide Linked, InOrder, Stable;
      ghost var nodes';
      ghost var before := nodes;
      submenu, nodes' := Sort(submenu, lang, nodes);
      SameNodes(before, nodes');
      assert |multiset(before)| == |before| && |multiset(nodes')| == |nodes'|;
      if !remindLast {
        current := submenu;
      }
      pagestart := current;
      if nodes' != [] {
        ghost var k: nat :| k < |nodes'| && nodes'[k] == current;
        cur, page := k, k;
      }
      nodes := nodes';
    }
  }
}
