/** The I/O request list on the heap (src/ioman.c): the sections that run under
    the queue-end lock, proved against operations on a sequence. */
module RequestQueue {

  /** A request without its position: its type and its argument. */
  datatype Item = Item(kind: int, data: int)

  /** The items that survive the removal of every request of one type. */
  function Without(items: seq<Item>, kind: int): seq<Item> {
    if items == [] then []
    else (if items[0].kind == kind then [] else [items[0]]) + Without(items[1..], kind)
  }

  class Request {
    const kind: int
    const data: int
    var next: Request?

    constructor (kind: int, data: int)
      ensures this.kind == kind && this.data == data && next == null
    {
      this.kind, this.data, next := kind, data, null;
    }
  }

  class Queue {
    var head: Request?
    var end: Request?
    /** The linked requests, in order. */
    ghost var Nodes: seq<Request>

    ghost predicate Valid()
      reads this, Nodes
    {
      Linked(head, end, Nodes)
    }

    /** `nodes` are the list from `head` to `end`, each once. */
    static ghost predicate Linked(head: Request?, end: Request?, nodes: seq<Request>)
      reads nodes
    {
      && (if nodes == [] then head == null && end == null
          else head == nodes[0] && end == nodes[|nodes| - 1] && nodes[|nodes| - 1].next == null)
      && Chained(nodes) && Distinct(nodes)
    }

    static ghost predicate Chained(nodes: seq<Request>)
      reads nodes
    {
      forall i {:trigger nodes[i].next} :: 0 <= i < |nodes| - 1 ==> nodes[i].next == nodes[i + 1]
    }

    static ghost predicate Distinct(nodes: seq<Request>) {
      forall i, j :: 0 <= i < j < |nodes| ==> nodes[i] != nodes[j]
    }

    static ghost function ItemsOf(nodes: seq<Request>): (items: seq<Item>)
      ensures |items| == |nodes| && forall i :: 0 <= i < |nodes| ==> items[i] == Item(nodes[i].kind, nodes[i].data)
    {
      if nodes == [] then [] else [Item(nodes[0].kind, nodes[0].data)] + ItemsOf(nodes[1..])
    }

    ghost function Contents(): seq<Item>
      reads this
    {
      ItemsOf(Nodes)
    }

    constructor ()
      ensures Valid() && Contents() == []
    {
      head, end := null, null;
      Nodes := [];
    }

    /** Appends a request (the section of ioPutRequest under the end lock). */
    method Link(kind: int, data: int)
      requires Valid()
      modifies this, Nodes
      ensures Valid() && Contents() == old(Contents()) + [Item(kind, data)]
      ensures |Nodes| == |old(Nodes)| + 1 && Nodes[..|old(Nodes)|] == old(Nodes) && fresh(Nodes[|old(Nodes)|])
      ensures end == Nodes[|old(Nodes)|]
    {
      var req := end;
      var added := new Request(kind, data);
      if req == null {
        head := added;
        end := head;
      } else {
        req.next := added;
        end := added;
      }
      Nodes := Nodes + [added];
    }

    /** Unlinks the request the worker has just handled; the list ends up empty
        exactly when both ends are null. */
    method Pop(req: Request)
      requires Valid() && req == head
      modifies this
      ensures Valid() && Nodes == old(Nodes)[1..] && Contents() == old(Contents())[1..]
      ensures end == null <==> Contents() == []
    {
      head := req.next;
      if head == null {
        end := null;
      }
      ghost var before := Nodes;
      Nodes := Nodes[1..];
      assert forall i :: 0 <= i < |Nodes| ==> Nodes[i] == before[i + 1];
    }

    /** The walk of a removal stands at `req`, the first node of `rest`, after `last`. */
    ghost predicate Between(kept: seq<Request>, rest: seq<Request>, last: Request?, req: Request?)
      reads this, Nodes
    {
      && Valid() && Nodes == kept + rest
      && req == (if rest == [] then null else rest[0])
      && last == (if kept == [] then null else kept[|kept| - 1])
    }

    /** The two parts of the list around the node `req`. */
    lemma Parts(kept: seq<Request>, rest: seq<Request>, last: Request?, req: Request)
      requires Between(kept, rest, last, req)
      ensures rest != [] && Chained(kept) && Chained(rest[1..]) && Distinct(kept + rest[1..])
      ensures req.next == if rest[1..] == [] then null else rest[1]
      ensures rest[1..] != [] ==> rest[|rest| - 1].next == null && req != end
      ensures if kept == [] then head == req else head == kept[0] != req
      ensures last != null ==> last !in kept[..|kept| - 1] && last !in rest[1..]
    {
      var k := |kept|;
      assert Nodes[k] == req;
      var tail, all := rest[1..], kept + rest[1..];
      assert forall i :: 0 <= i < k ==> kept[i] == Nodes[i];
      assert forall i :: 0 <= i < |tail| ==> tail[i] == Nodes[k + 1 + i];
      assert forall i :: 0 <= i < |all| ==> all[i] == Nodes[if i < k then i else i + 1];
    }

    /** Two chains, the first leading to the second, are one list. */
    static lemma Join(kept: seq<Request>, tail: seq<Request>, head: Request?, end: Request?)
      requires Chained(kept) && Chained(tail) && Distinct(kept + tail)
      requires kept != [] ==> kept[|kept| - 1].next == if tail == [] then null else tail[0]
      requires tail != [] ==> tail[|tail| - 1].next == null
      requires head == if kept != [] then kept[0] else if tail != [] then tail[0] else null
      requires end == if tail != [] then tail[|tail| - 1] else if kept != [] then kept[|kept| - 1] else null
      ensures Linked(head, end, kept + tail)
    {
      hide Distinct;
      var all, k := kept + tail, |kept|;
      forall i {:trigger all[i].next} | 0 <= i < |all| - 1 ensures all[i].next == all[i + 1] {
        if i < k - 1 {
          assert kept[i].next == kept[i + 1];
        } else if i >= k {
          assert tail[i - k].next == tail[i - k + 1];
        }
      }
    }

    /** Unlinks `req`, mending whichever ends of the list it touches. */
    method Unlink(last: Request?, req: Request, ghost kept: seq<Request>, ghost rest: seq<Request>)
      returns (next: Request?)
      requires Between(kept, rest, last, req)
      modifies this, if last == null then {} else {last}
      ensures rest != [] && Between(kept, rest[1..], last, next)
    {
      hide Distinct;
      Parts(kept, rest, last, req);
      ghost var tail := rest[1..];
      next := req.next;
      if last != null {
        last.next := next;
      }
      if req == head {
        head := next;
      }
      if req == end {
        end := last;
      }
      Nodes := kept + tail;
      assert forall i :: 0 <= i < |kept| - 1 ==> kept[i] in kept[..|kept| - 1];
      Join(kept, tail, head, end);
    }

    lemma Skip(kept: seq<Request>, rest: seq<Request>, last: Request?, req: Request)
      requires Between(kept, rest, last, req)
      ensures rest != [] && Between(kept + [rest[0]], rest[1..], req, req.next)
    {
      assert kept + [rest[0]] + rest[1..] == Nodes;
      assert Nodes[|kept|] == req;
    }

    /** The nodes of any other type, in order. */
    static ghost function Survivors(nodes: seq<Request>, kind: int): seq<Request> {
      if nodes == [] then []
      else (if nodes[0].kind == kind then [] else [nodes[0]]) + Survivors(nodes[1..], kind)
    }

    static lemma {:induction false} SurvivorItems(nodes: seq<Request>, kind: int)
      ensures ItemsOf(Survivors(nodes, kind)) == Without(ItemsOf(nodes), kind)
    {
      if nodes != [] {
        SurvivorItems(nodes[1..], kind);
        assert ItemsOf(nodes)[1..] == ItemsOf(nodes[1..]);
        var first, rest := nodes[0], Survivors(nodes[1..], kind);
        assert ([first] + rest)[1..] == rest;
      }
    }

    /** The survivors of the part still to walk, one node on. */
    static lemma SurvivorsStep(kept: seq<Request>, rest: seq<Request>, kind: int)
      requires rest != []
      ensures kept + Survivors(rest, kind) ==
              (if rest[0].kind == kind then kept else kept + [rest[0]]) + Survivors(rest[1..], kind)
    {}

    /** Unlinks every request of one type and counts them. */
    method RemoveKind(kind: int) returns (count: nat)
      requires Valid()
      modifies this, Nodes
      ensures Valid() && Contents() == Without(old(Contents()), kind)
      ensures count == |old(Contents())| - |Contents()|
    {
      count := 0;
      var req := head;
      var last: Request? := null;
      ghost var kept, rest := [], Nodes;
      ghost var target := Survivors(Nodes, kind);
      assert Nodes == kept + rest && target == kept + Survivors(rest, kind);
      while req != null
        invariant Between(kept, rest, last, req) && |Nodes| + count == |old(Nodes)|
        invariant last != null ==> last in old(Nodes)
        invariant forall i :: 0 <= i < |rest| ==> rest[i] in old(Nodes)
        invariant target == kept + Survivors(rest, kind)
        decreases |rest|
      {
        SurvivorsStep(kept, rest, kind);
        if req.kind == kind {
          req := Unlink(last, req, kept, rest);
          count := count + 1;
        } else {
          Skip(kept, rest, last, req);
          last := req;
          req := req.next;
          kept := kept + [rest[0]];
        }
        rest := rest[1..];
      }
      assert Nodes == kept == target;
      SurvivorItems(old(Nodes), kind);
    }
  }
}
