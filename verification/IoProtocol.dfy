/** The I/O request protocol (src/ioman.c) as a state machine: any number of
    client threads put, remove, block and register, while one worker sleeps,
    drains the queue and runs handlers that may put requests themselves. Every
    section under the queue-end lock is one step. */
module IoProtocol {
  import opened Options
  import opened RequestQueue

  /** A queued request; `id` is its place among all requests ever accepted. */
  datatype Req = Req(id: nat, item: Item)

  datatype Client =
    | Idle
    | Checked(item: Item)      // ioPutRequest past its checks, request not linked yet
    | Linked                   // request linked, worker not woken yet
    | Removing(kind: int)      // ioRemoveRequests holding the proc lock
    | Spinning                 // ioBlockOps(1) waiting for the queue to empty

  /** Where the handler of the current request stands in a put of its own. */
  datatype Handler = Plain | PutChecked(item: Item) | PutLinked

  datatype Worker =
    | Asleep                   // in SleepThread, or about to enter it
    | Awake                    // woken, proc lock not taken yet
    | Testing                  // proc lock held, at the head of the drain loop
    | Handling(req: Req, handler: Handler)
    | Leaving                  // found the queue empty, proc lock still held

  datatype State = State(
    queue: seq<Req>,
    procFree: bool,
    worker: Worker,
    clients: seq<Client>,
    wakeups: nat,
    blocked: bool,
    kinds: seq<int>,           // registered request types, in order of registration
    accepted: seq<Req>,        // every request ever linked
    started: seq<Req>,         // every request whose handler was called
    handled: seq<Req>,         // every request popped after its handler returned
    removed: set<nat>,         // ids of the requests taken out by ioRemoveRequests
    leaked: bool)              // a failed ioRegisterHandler has kept the proc lock

  const MAX_IO_HANDLERS := 64

  datatype Event =
    | PutCheck(c: nat, item: Item) | PutLink(c: nat) | PutWake(c: nat)
    | RemoveTake(c: nat, kind: int) | RemoveDo(c: nat)
    | Register(c: nat, kind: int, given: bool)   // `given` is false for a null handler
    | Block(c: nat) | SpinDone(c: nat) | Unblock(c: nat)
    | Wake | TakeProc | Test | Release
    | HandlerPutCheck(item: Item) | HandlerPutLink | HandlerPutWake
    | HandlerReturn

  // ----- Steps -----

  function Link(s: State, item: Item): State {
    var r := Req(|s.accepted|, item);
    s.(queue := s.queue + [r], accepted := s.accepted + [r])
  }

  /** The requests whose type is not `kind`. */
  function WithoutKind(q: seq<Req>, kind: int): seq<Req> {
    if q == [] then []
    else (if q[0].item.kind == kind then [] else [q[0]]) + WithoutKind(q[1..], kind)
  }

  ghost function IdsOfKind(q: seq<Req>, kind: int): set<nat> {
    set r | r in q && r.item.kind == kind :: r.id
  }

  /** A put is refused while I/O is blocked and for types without a handler. */
  predicate MayPut(s: State, kind: int) {
    !s.blocked && kind in s.kinds
  }

  function SetClient(s: State, c: nat, pc: Client): State
    requires c < |s.clients|
  {
    s.(clients := s.clients[c := pc])
  }

  ghost function ClientStep(s: State, c: nat, e: Event): Option<State>
    requires c < |s.clients|
  {
    var pc := s.clients[c];
    match e
    case PutCheck(_, item) =>
      if pc != Idle then None
      else if MayPut(s, item.kind) then Some(SetClient(s, c, Checked(item)))
      else Some(s)
    case PutLink(_) =>
      if pc.Checked? then Some(SetClient(Link(s, pc.item), c, Linked)) else None
    case PutWake(_) =>
      if pc == Linked then Some(SetClient(s, c, Idle).(wakeups := s.wakeups + 1)) else None
    case RemoveTake(_, kind) =>
      if pc == Idle && s.procFree then Some(SetClient(s, c, Removing(kind)).(procFree := false)) else None
    case RemoveDo(_) =>
      if pc.Removing? then
        Some(SetClient(s, c, Idle).(
               queue := WithoutKind(s.queue, pc.kind),
               removed := s.removed + IdsOfKind(s.queue, pc.kind),
               procFree := true))
      else None
    case Register(_, kind, given) =>
      if !(pc == Idle && s.procFree) then None
      else if given && kind !in s.kinds && |s.kinds| < MAX_IO_HANDLERS then Some(s.(kinds := s.kinds + [kind]))
      else Some(s.(procFree := false, leaked := true))    // the error returns do not release the lock
    case Block(_) =>
      if pc != Idle then None
      else if s.blocked then Some(s)
      else Some(SetClient(s, c, Spinning).(blocked := true))
    case SpinDone(_) =>
      if pc == Spinning && s.queue == [] then Some(SetClient(s, c, Idle)) else None
    case Unblock(_) =>
      if pc == Idle then Some(s.(blocked := false)) else None
    case _ => None
  }

  ghost function WorkerStep(s: State, e: Event): Option<State> {
    match e
    case Wake =>
      if s.worker == Asleep && s.wakeups > 0 then Some(s.(worker := Awake, wakeups := s.wakeups - 1)) else None
    case TakeProc =>
      if s.worker == Awake && s.procFree then Some(s.(worker := Testing, procFree := false)) else None
    case Test =>
      if s.worker != Testing then None
      else if s.queue == [] then Some(s.(worker := Leaving))
      else Some(s.(worker := Handling(s.queue[0], Plain), started := s.started + [s.queue[0]]))
    case Release =>
      if s.worker == Leaving then Some(s.(worker := Asleep, procFree := true)) else None
    case HandlerPutCheck(item) =>
      if !(s.worker.Handling? && s.worker.handler == Plain) then None
      else if MayPut(s, item.kind) then Some(s.(worker := s.worker.(handler := PutChecked(item))))
      else Some(s)
    case HandlerPutLink =>
      if s.worker.Handling? && s.worker.handler.PutChecked?
      then Some(Link(s, s.worker.handler.item).(worker := s.worker.(handler := PutLinked))) else None
    case HandlerPutWake =>
      // the worker cannot wake itself: WakeupThread only returns an error
      if s.worker.Handling? && s.worker.handler == PutLinked
      then Some(s.(worker := s.worker.(handler := Plain))) else None
    case HandlerReturn =>
      if s.worker.Handling? && s.worker.handler == Plain && s.queue != []
      then Some(s.(worker := Testing, queue := s.queue[1..], handled := s.handled + [s.worker.req])) else None
    case _ => None
  }

  predicate IsClientEvent(e: Event) {
    e.PutCheck? || e.PutLink? || e.PutWake? || e.RemoveTake? || e.RemoveDo? || e.Register?
    || e.Block? || e.SpinDone? || e.Unblock?
  }

  /** One step; None when the step is not enabled. */
  ghost function Step(s: State, e: Event): Option<State> {
    if IsClientEvent(e) then (if e.c < |s.clients| then ClientStep(s, e.c, e) else None)
    else WorkerStep(s, e)
  }

  ghost function Run(s: State, events: seq<Event>): Option<State> {
    if events == [] then Some(s)
    else
      var before := Run(s, events[..|events| - 1]);
      if before.None? then None else Step(before.value, events[|events| - 1])
  }

  /** The state left by ioInit, with `n` client threads. */
  function Init(n: nat, kinds: seq<int>): State {
    State([], true, Asleep, Idles(n), 0, false, kinds, [], [], [], {}, false)
  }

  function Idles(n: nat): (cs: seq<Client>)
    ensures |cs| == n && forall c :: 0 <= c < n ==> cs[c] == Idle
  {
    if n == 0 then [] else Idles(n - 1) + [Idle]
  }

  // ----- What every step keeps -----

  /** The accepted requests that were not removed, in order of acceptance. */
  ghost function Survivors(accepted: seq<Req>, removed: set<nat>): seq<Req> {
    if accepted == [] then []
    else
      var n := |accepted| - 1;
      Survivors(accepted[..n], removed) + if accepted[n].id in removed then [] else [accepted[n]]
  }

  /** Requests are handled in the order of acceptance, each at most once: what
      has been handled and what is still queued are together the accepted
      requests without the removed ones. */
  ghost predicate InOrder(s: State) {
    && (forall i :: 0 <= i < |s.accepted| ==> s.accepted[i].id == i)
    && (forall id :: id in s.removed ==> id < |s.accepted|)
    && s.handled + s.queue == Survivors(s.accepted, s.removed)
  }

  /** The request being handled is still the head of the queue. */
  ghost predicate HeadIsHandled(s: State) {
    && (s.worker.Handling? ==> s.queue != [] && s.queue[0] == s.worker.req)
    && s.started == s.handled + if s.worker.Handling? then [s.worker.req] else []
  }

  predicate HoldsProc(w: Worker) {
    w.Testing? || w.Handling? || w.Leaving?
  }

  /** The proc lock has at most one holder, for ever a failed registration. */
  ghost predicate LockOk(s: State) {
    && (HoldsProc(s.worker) ==> !s.procFree)
    && (forall c :: 0 <= c < |s.clients| && s.clients[c].Removing? ==> !s.procFree && !HoldsProc(s.worker))
    && (forall c, d :: 0 <= c < d < |s.clients| ==> !(s.clients[c].Removing? && s.clients[d].Removing?))
    && (s.leaked ==>
          && !s.procFree && !HoldsProc(s.worker)
          && forall c :: 0 <= c < |s.clients| ==> !s.clients[c].Removing?)
    && (!s.procFree ==>
          s.leaked || HoldsProc(s.worker) || exists c :: 0 <= c < |s.clients| && s.clients[c].Removing?)
  }

  /** The worker is on its way to look at the queue. */
  predicate Draining(w: Worker) {
    w.Awake? || w.Testing? || w.Handling?
  }

  /** A queued request is never forgotten by a sleeping worker. */
  ghost predicate NoLostWakeup(s: State) {
    s.queue != [] ==>
      Draining(s.worker) || s.wakeups > 0 || exists c :: 0 <= c < |s.clients| && s.clients[c] == Linked
  }

  /** Whatever reaches the worker has a registered type. */
  ghost predicate KindsOk(s: State) {
    && (forall i :: 0 <= i < |s.queue| ==> s.queue[i].item.kind in s.kinds)
    && (forall c :: 0 <= c < |s.clients| && s.clients[c].Checked? ==> s.clients[c].item.kind in s.kinds)
    && (s.worker.Handling? && s.worker.handler.PutChecked? ==> s.worker.handler.item.kind in s.kinds)
  }

  ghost predicate Inv(s: State) {
    InOrder(s) && HeadIsHandled(s) && LockOk(s) && NoLostWakeup(s) && KindsOk(s)
  }

  // ----- Order -----

  ghost function DropIds(q: seq<Req>, ids: set<nat>): seq<Req> {
    if q == [] then []
    else (if q[0].id in ids then [] else [q[0]]) + DropIds(q[1..], ids)
  }

  lemma {:induction false} DropIdsConcat(a: seq<Req>, b: seq<Req>, ids: set<nat>)
    ensures DropIds(a + b, ids) == DropIds(a, ids) + DropIds(b, ids)
  {
    if a == [] {
      assert a + b == b;
    } else {
      assert (a + b)[1..] == a[1..] + b;
      DropIdsConcat(a[1..], b, ids);
    }
  }

  lemma {:induction false} DropNothing(q: seq<Req>, ids: set<nat>)
    requires forall i :: 0 <= i < |q| ==> q[i].id !in ids
    ensures DropIds(q, ids) == q
  {
    if q != [] {
      DropNothing(q[1..], ids);
    }
  }

  lemma {:induction false} SurvivorsDrop(accepted: seq<Req>, removed: set<nat>, more: set<nat>)
    ensures Survivors(accepted, removed + more) == DropIds(Survivors(accepted, removed), more)
  {
    if accepted != [] {
      var n := |accepted| - 1;
      SurvivorsDrop(accepted[..n], removed, more);
      DropIdsConcat(Survivors(accepted[..n], removed), if accepted[n].id in removed then [] else [accepted[n]], more);
    }
  }

  ghost predicate Increasing(q: seq<Req>) {
    forall i, j :: 0 <= i < j < |q| ==> q[i].id < q[j].id
  }

  ghost predicate PickedFrom(q: seq<Req>, accepted: seq<Req>, removed: set<nat>) {
    forall i :: 0 <= i < |q| ==> q[i].id < |accepted| && q[i].id !in removed && q[i] == accepted[q[i].id]
  }

  /** The survivors are accepted requests, and their ids increase. */
  lemma {:induction false} SurvivorsIncrease(accepted: seq<Req>, removed: set<nat>)
    requires forall i :: 0 <= i < |accepted| ==> accepted[i].id == i
    ensures Increasing(Survivors(accepted, removed)) && PickedFrom(Survivors(accepted, removed), accepted, removed)
  {
    if accepted != [] {
      SurvivorsIncrease(accepted[..|accepted| - 1], removed);
    }
  }

  /** Dropping the ids of one type from a queue with distinct ids is dropping that type. */
  lemma {:induction false} DropKind(q: seq<Req>, ids: set<nat>, kind: int)
    requires forall i :: 0 <= i < |q| ==> (q[i].id in ids <==> q[i].item.kind == kind)
    ensures DropIds(q, ids) == WithoutKind(q, kind)
  {
    if q != [] {
      DropKind(q[1..], ids, kind);
    }
  }

  lemma {:induction false} WithoutKindSubset(q: seq<Req>, kind: int)
    ensures forall i :: 0 <= i < |WithoutKind(q, kind)| ==> WithoutKind(q, kind)[i] in q
  {
    if q != [] {
      WithoutKindSubset(q[1..], kind);
    }
  }

  /** No handled request shares its id with a queued one, and no two queued ones share theirs. */
  lemma QueueIdsAreDistinct(s: State, kind: int)
    requires InOrder(s)
    ensures forall i :: 0 <= i < |s.handled| ==> s.handled[i].id !in IdsOfKind(s.queue, kind)
    ensures forall i :: 0 <= i < |s.queue| ==>
      (s.queue[i].id in IdsOfKind(s.queue, kind) <==> s.queue[i].item.kind == kind)
  {
    var n, all := |s.handled|, s.handled + s.queue;
    SurvivorsIncrease(s.accepted, s.removed);
    forall i, j | 0 <= i < |all| && 0 <= j < |s.queue| && all[i].id == s.queue[j].id
      ensures i == n + j
    {
      assert all[n + j] == s.queue[j];
    }
    forall i | 0 <= i < n ensures s.handled[i].id !in IdsOfKind(s.queue, kind) {
      assert all[i] == s.handled[i];
    }
    forall i | 0 <= i < |s.queue| && s.queue[i].id in IdsOfKind(s.queue, kind)
      ensures s.queue[i].item.kind == kind
    {
      assert all[n + i] == s.queue[i];
      var r :| r in s.queue && r.item.kind == kind && r.id == s.queue[i].id;
    }
  }

  lemma RemovalKeepsOrder(s: State, kind: int)
    requires InOrder(s)
    ensures InOrder(s.(queue := WithoutKind(s.queue, kind), removed := s.removed + IdsOfKind(s.queue, kind)))
  {
    var ids := IdsOfKind(s.queue, kind);
    QueueIdsAreDistinct(s, kind);
    SurvivorsDrop(s.accepted, s.removed, ids);
    DropIdsConcat(s.handled, s.queue, ids);
    DropNothing(s.handled, ids);
    DropKind(s.queue, ids, kind);
    SurvivorsIncrease(s.accepted, s.removed);
    forall r | r in s.queue ensures r.id < |s.accepted| {
      assert r in s.handled + s.queue;
    }
  }

  lemma LinkKeepsOrder(s: State, item: Item)
    requires InOrder(s)
    ensures InOrder(Link(s, item))
  {
    var s' := Link(s, item);
    assert s'.accepted[..|s.accepted|] == s.accepted;
    assert s.handled + s'.queue == s.handled + s.queue + [s'.queue[|s.queue|]];
  }

  lemma StepKeepsOrder(s: State, e: Event)
    requires Inv(s) && Step(s, e).Some?
    ensures InOrder(Step(s, e).value)
  {
    hide Survivors, NoLostWakeup, KindsOk, MayPut;
    match e {
      case PutLink(c) => LinkKeepsOrder(s, s.clients[c].item);
      case HandlerPutLink => LinkKeepsOrder(s, s.worker.handler.item);
      case RemoveDo(c) => RemovalKeepsOrder(s, s.clients[c].kind);
      case HandlerReturn =>
        assert s.handled + s.queue == s.handled + [s.queue[0]] + s.queue[1..];
      case _ =>
    }
  }

  lemma StepKeepsHead(s: State, e: Event)
    requires Inv(s) && Step(s, e).Some?
    ensures HeadIsHandled(Step(s, e).value)
  {
    hide InOrder, NoLostWakeup, KindsOk, MayPut;
  }

  /** A step moves at most one client. */
  lemma OthersStay(s: State, e: Event)
    requires Step(s, e).Some?
    ensures |Step(s, e).value.clients| == |s.clients|
    ensures forall c :: 0 <= c < |s.clients| && !(IsClientEvent(e) && e.c == c) ==>
      Step(s, e).value.clients[c] == s.clients[c]
  {
  }

  lemma StepKeepsLock(s: State, e: Event)
    requires Inv(s) && Step(s, e).Some?
    ensures LockOk(Step(s, e).value)
  {
    hide InOrder, HeadIsHandled, NoLostWakeup, KindsOk, MayPut, Survivors;
    var s' := Step(s, e).value;
    OthersStay(s, e);
    if !s'.procFree && !s'.leaked && !HoldsProc(s'.worker) {
      if e.RemoveTake? {
        assert s'.clients[e.c].Removing?;
      } else {
        var c :| 0 <= c < |s.clients| && s.clients[c].Removing?;
        assert s'.clients[c].Removing?;
      }
    }
  }

  lemma StepKeepsWakeup(s: State, e: Event)
    requires Inv(s) && Step(s, e).Some?
    ensures NoLostWakeup(Step(s, e).value)
  {
    var s' := Step(s, e).value;
    OthersStay(s, e);
    if s'.queue != [] && !Draining(s'.worker) && s'.wakeups == 0 {
      if e.PutLink? {
        assert s'.clients[e.c] == Linked;
      } else {
        assert s.queue != [];
        var c :| 0 <= c < |s.clients| && s.clients[c] == Linked;
        assert s'.clients[c] == Linked;
      }
    }
  }

  lemma StepKeepsKinds(s: State, e: Event)
    requires Inv(s) && Step(s, e).Some?
    ensures KindsOk(Step(s, e).value)
  {
    if e.RemoveDo? {
      WithoutKindSubset(s.queue, s.clients[e.c].kind);
    }
  }

  lemma StepKeepsInv(s: State, e: Event)
    requires Inv(s) && Step(s, e).Some?
    ensures Inv(Step(s, e).value)
  {
    StepKeepsOrder(s, e);
    StepKeepsHead(s, e);
    StepKeepsLock(s, e);
    StepKeepsWakeup(s, e);
    StepKeepsKinds(s, e);
  }

  // ----- Runs -----

  /** Every run from the state ioInit leaves keeps all of the above. */
  lemma {:induction false} RunKeepsInv(n: nat, kinds: seq<int>, events: seq<Event>)
    requires Run(Init(n, kinds), events).Some?
    ensures Inv(Run(Init(n, kinds), events).value)
    ensures |Run(Init(n, kinds), events).value.clients| == n
  {
    if events != [] {
      RunKeepsInv(n, kinds, events[..|events| - 1]);
      var s := Run(Init(n, kinds), events[..|events| - 1]).value;
      StepKeepsInv(s, events[|events| - 1]);
      OthersStay(s, events[|events| - 1]);
    }
  }

  /** The queued requests whose handler has not been called yet. */
  ghost function Pending(s: State): seq<Req> {
    if s.worker.Handling? && s.queue != [] then s.queue[1..] else s.queue
  }

  lemma StartedThenPending(s: State)
    requires Inv(s)
    ensures s.started + Pending(s) == s.handled + s.queue
  {
    if s.worker.Handling? {
      assert s.queue == [s.queue[0]] + s.queue[1..];
    }
  }

  lemma PrefixIncreases(a: seq<Req>, b: seq<Req>, accepted: seq<Req>, removed: set<nat>)
    requires Increasing(a + b) && PickedFrom(a + b, accepted, removed)
    ensures Increasing(a) && PickedFrom(a, accepted, removed)
  {
    assert forall i :: 0 <= i < |a| ==> a[i] == (a + b)[i];
  }

  /** In every interleaving the handler calls are, in order and each once, the
      accepted puts that were not removed, up to the part still queued; each has
      a registered type, and no removal is under way while a handler runs. */
  lemma HandledInOrder(n: nat, kinds: seq<int>, events: seq<Event>)
    requires Run(Init(n, kinds), events).Some?
    ensures
      var s := Run(Init(n, kinds), events).value;
      && s.started + Pending(s) == Survivors(s.accepted, s.removed)
      && Increasing(s.started)
      && PickedFrom(s.started, s.accepted, s.removed)
      && (forall i :: 0 <= i < |s.started| ==> s.started[i].item.kind in s.kinds)
      && (s.worker.Handling? ==> forall c :: 0 <= c < |s.clients| ==> !s.clients[c].Removing?)
  {
    RunKeepsInv(n, kinds, events);
    StartedKindsOk(n, kinds, events);
    var s := Run(Init(n, kinds), events).value;
    SurvivorsIncrease(s.accepted, s.removed);
    StartedThenPending(s);
    PrefixIncreases(s.started, Pending(s), s.accepted, s.removed);
  }

  lemma {:induction false} StartedKindsOk(n: nat, kinds: seq<int>, events: seq<Event>)
    requires Run(Init(n, kinds), events).Some?
    ensures
      var s := Run(Init(n, kinds), events).value;
      forall i :: 0 <= i < |s.started| ==> s.started[i].item.kind in s.kinds
  {
    hide Step, Inv;
    if events != [] {
      var before, e := events[..|events| - 1], events[|events| - 1];
      StartedKindsOk(n, kinds, before);
      RunKeepsInv(n, kinds, before);
      StepStarts(Run(Init(n, kinds), before).value, e);
    }
  }

  /** A step starts at most one request, the head, and its type is registered. */
  lemma StepStarts(s: State, e: Event)
    requires Inv(s) && Step(s, e).Some?
    ensures s.kinds <= Step(s, e).value.kinds
    ensures Step(s, e).value.started == s.started ||
            (exists r: Req :: Step(s, e).value.started == s.started + [r] && r.item.kind in s.kinds)
  {
    if e == Test && s.queue != [] {
      assert Step(s, e).value.started == s.started + [s.queue[0]];
    }
  }

  /** In every interleaving a queued request is looked after: the worker is
      draining, a wakeup is counted, or a putter is about to give one. */
  lemma NothingIsForgotten(n: nat, kinds: seq<int>, events: seq<Event>)
    requires Run(Init(n, kinds), events).Some?
    ensures
      var s := Run(Init(n, kinds), events).value;
      s.queue != [] ==>
        || s.worker.Awake? || s.worker.Testing? || s.worker.Handling?
        || s.wakeups > 0
        || exists c :: 0 <= c < |s.clients| && s.clients[c] == Linked
  {
    RunKeepsInv(n, kinds, events);
  }

  // ----- Short runs -----

  lemma RunNone(s: State)
    ensures Run(s, []) == Some(s)
  {}

  lemma RunOne(s: State, e: Event)
    ensures Run(s, [e]) == Step(s, e)
  {
    assert [e][..0] == [] && Run(s, []) == Some(s);
  }

  lemma RunTwo(s: State, a: Event, b: Event)
    requires Step(s, a).Some?
    ensures Run(s, [a, b]) == Step(Step(s, a).value, b)
  {
    RunOne(s, a);
    assert [a, b][..1] == [a];
  }

  lemma {:induction false} RunConcat(s: State, a: seq<Event>, b: seq<Event>)
    requires Run(s, a).Some?
    ensures Run(s, a + b) == Run(Run(s, a).value, b)
  {
    if b == [] {
      assert a + b == a;
    } else {
      assert (a + b)[..|a + b| - 1] == a + b[..|b| - 1];
      RunConcat(s, a, b[..|b| - 1]);
    }
  }

  // ----- Whole calls -----

  function Registrations(events: seq<Event>): seq<int> {
    if events == [] then []
    else Registrations(events[..|events| - 1]) +
         if events[|events| - 1].Register? then [events[|events| - 1].kind] else []
  }

  predicate Distinct(kinds: seq<int>) {
    forall i, j :: 0 <= i < j < |kinds| ==> kinds[i] != kinds[j]
  }

  ghost predicate AllGiven(events: seq<Event>) {
    forall i :: 0 <= i < |events| && events[i].Register? ==> events[i].given
  }

  /** The registered types are those of the calls, in order, but for a last one that
      failed; and one has failed exactly when a handler was null, a type came twice
      or there were more than 64. */
  lemma {:induction false} RegisteredInOrder(n: nat, kinds: seq<int>, events: seq<Event>)
    requires Run(Init(n, kinds), events).Some? && Distinct(kinds) && |kinds| <= MAX_IO_HANDLERS
    ensures
      var s, all := Run(Init(n, kinds), events).value, kinds + Registrations(events);
      && (s.leaked <==> !AllGiven(events) || !Distinct(all) || |all| > MAX_IO_HANDLERS)
      && |all| == |s.kinds| + (if s.leaked then 1 else 0)
      && s.kinds == all[..|s.kinds|]
  {
    hide Inv, Run, Step, Registrations, Distinct, AllGiven;
    if events == [] {
      NoRegistrations(n, kinds);
    } else {
      var before, e := events[..|events| - 1], events[|events| - 1];
      RunLast(Init(n, kinds), events);
      RegisteredInOrder(n, kinds, before);
      RunKeepsInv(n, kinds, before);
      StepRegisters(Run(Init(n, kinds), before).value, e);
      LastRegistration(kinds, events);
    }
  }

  lemma NoRegistrations(n: nat, kinds: seq<int>)
    ensures Run(Init(n, kinds), []) == Some(Init(n, kinds)) && AllGiven([])
    ensures kinds + Registrations([]) == kinds
  {}

  lemma RunLast(s: State, events: seq<Event>)
    requires events != [] && Run(s, events).Some?
    ensures Run(s, events[..|events| - 1]).Some?
    ensures Run(s, events) == Step(Run(s, events[..|events| - 1]).value, events[|events| - 1])
  {}

  lemma LastRegistration(kinds: seq<int>, events: seq<Event>)
    requires events != []
    ensures
      var before, e := events[..|events| - 1], events[|events| - 1];
      var all0, all := kinds + Registrations(before), kinds + Registrations(events);
      && all == (if e.Register? then all0 + [e.kind] else all0)
      && (AllGiven(events) <==> AllGiven(before) && (e.Register? ==> e.given))
      && (Distinct(all) <==> Distinct(all0) && (e.Register? ==> e.kind !in all0))
  {
    var before, e := events[..|events| - 1], events[|events| - 1];
    var all0, all := kinds + Registrations(before), kinds + Registrations(events);
    assert all == if e.Register? then all0 + [e.kind] else all0;
    if e.Register? && e.kind in all0 {
      var i :| 0 <= i < |all0| && all0[i] == e.kind;
      assert all[i] == all[|all0|];
    }
    assert Distinct(all) ==> Distinct(all0) by {
      assert forall i :: 0 <= i < |all0| ==> all[i] == all0[i];
    }
    assert events == before + [e];
  }

  lemma StepRegisters(s: State, e: Event)
    requires Inv(s) && Step(s, e).Some?
    ensures
      var s' := Step(s, e).value;
      && (s.leaked ==> s'.leaked && !e.Register?)
      && (if e.Register? && !s'.leaked then e.given && e.kind !in s.kinds && s'.kinds == s.kinds + [e.kind]
          else s'.kinds == s.kinds)
      && (s'.leaked && !s.leaked ==> e.Register? && (!e.given || e.kind in s.kinds || |s.kinds| >= MAX_IO_HANDLERS))
      && (e.Register? && !s'.leaked ==> |s'.kinds| <= MAX_IO_HANDLERS)
  {
    hide InOrder, HeadIsHandled, NoLostWakeup, KindsOk;
  }

  /** A put that nothing interrupts: refused without a trace while I/O is blocked or
      for a type without a handler, otherwise at the end of the queue, with a wakeup. */
  lemma PutAppends(s: State, c: nat, item: Item)
    requires c < |s.clients| && s.clients[c] == Idle
    ensures
      var r := Req(|s.accepted|, item);
      if s.blocked || item.kind !in s.kinds then Step(s, PutCheck(c, item)) == Some(s)
      else Run(s, [PutCheck(c, item), PutLink(c), PutWake(c)]) ==
           Some(s.(queue := s.queue + [r], accepted := s.accepted + [r], wakeups := s.wakeups + 1))
  {
    hide Run;
    var check, link, wake := PutCheck(c, item), PutLink(c), PutWake(c);
    if !s.blocked && item.kind in s.kinds {
      RunTwo(s, check, link);
      RunOne(Run(s, [check, link]).value, wake);
      RunConcat(s, [check, link], [wake]);
      assert [check, link] + [wake] == [check, link, wake];
      assert s.clients[c := Checked(item)][c := Linked][c := Idle] == s.clients;
    }
  }

  /** The same from a handler, without a wakeup: its own request is still the head. */
  lemma HandlerPutAppends(s: State, item: Item)
    requires s.worker.Handling? && s.worker.handler == Plain
    ensures
      var r := Req(|s.accepted|, item);
      if s.blocked || item.kind !in s.kinds then Step(s, HandlerPutCheck(item)) == Some(s)
      else Run(s, [HandlerPutCheck(item), HandlerPutLink, HandlerPutWake]) ==
           Some(s.(queue := s.queue + [r], accepted := s.accepted + [r]))
  {
    hide Run;
    var check := HandlerPutCheck(item);
    HandlerPutSteps(s, item);
    if !s.blocked && item.kind in s.kinds {
      var s2 := Link(s, item).(worker := s.worker.(handler := PutLinked));
      hide Step;
      RunTwo(s, check, HandlerPutLink);
      RunOne(s2, HandlerPutWake);
      RunConcat(s, [check, HandlerPutLink], [HandlerPutWake]);
      assert [check, HandlerPutLink] + [HandlerPutWake] == [check, HandlerPutLink, HandlerPutWake];
    }
  }

  lemma HandlerPutSteps(s: State, item: Item)
    requires s.worker.Handling? && s.worker.handler == Plain
    ensures
      var s1 := s.(worker := s.worker.(handler := PutChecked(item)));
      var s2 := Link(s, item).(worker := s.worker.(handler := PutLinked));
      && (s.blocked || item.kind !in s.kinds ==> Step(s, HandlerPutCheck(item)) == Some(s))
      && (!s.blocked && item.kind in s.kinds ==> Step(s, HandlerPutCheck(item)) == Some(s1))
      && Step(s1, HandlerPutLink) == Some(s2)
      && Step(s2, HandlerPutWake) == Some(Link(s, item))
  {}

  /** A removal takes out exactly the queued requests of its type, and it has to
      wait while the worker is at work or another one is under way. */
  lemma RemovalTakesOut(s: State, c: nat, kind: int)
    requires c < |s.clients| && s.clients[c] == Idle
    ensures !s.procFree ==> Step(s, RemoveTake(c, kind)) == None
    ensures s.procFree ==>
      var r := Run(s, [RemoveTake(c, kind), RemoveDo(c)]);
      && r.Some? && r.value == s.(queue := r.value.queue, removed := r.value.removed)
      && (forall q :: q in r.value.queue <==> q in s.queue && q.item.kind != kind)
      && (forall id :: id in r.value.removed <==>
            id in s.removed || exists i :: 0 <= i < |s.queue| && s.queue[i].id == id && s.queue[i].item.kind == kind)
  {
    if s.procFree {
      RunTwo(s, RemoveTake(c, kind), RemoveDo(c));
      WithoutKindMembers(s.queue, kind);
      assert s.clients[c := Removing(kind)][c := Idle] == s.clients;
    }
  }

  /** Once blocked, ioBlockOps(0) lets puts through again. */
  lemma UnblockLetsPut(s: State, c: nat, item: Item)
    requires c < |s.clients| && s.clients[c] == Idle && item.kind in s.kinds
    ensures
      var r := Req(|s.accepted|, item);
      Run(s, [Unblock(c)] + [PutCheck(c, item), PutLink(c), PutWake(c)]) ==
      Some(s.(blocked := false, queue := s.queue + [r], accepted := s.accepted + [r], wakeups := s.wakeups + 1))
  {
    hide Run, Step;
    RunOne(s, Unblock(c));
    UnblockStep(s, c);
    PutAppends(s.(blocked := false), c, item);
    RunConcat(s, [Unblock(c)], [PutCheck(c, item), PutLink(c), PutWake(c)]);
  }

  lemma UnblockStep(s: State, c: nat)
    requires c < |s.clients| && s.clients[c] == Idle
    ensures Step(s, Unblock(c)) == Some(s.(blocked := false))
  {}

  /** No call is left half way: inside one a client has at most one way to go on,
      and so has the worker, also in the middle of a put of its handler. */
  lemma OneWayOn(s: State, e: Event, f: Event)
    requires Step(s, e).Some? && Step(s, f).Some? && IsClientEvent(e) == IsClientEvent(f)
    ensures
      if IsClientEvent(e) then e.c == f.c && s.clients[e.c] != Idle ==> e == f
      else !(s.worker.Handling? && s.worker.handler == Plain) ==> e == f
  {}

  lemma {:induction false} WithoutKindMembers(q: seq<Req>, kind: int)
    ensures forall r :: r in WithoutKind(q, kind) <==> r in q && r.item.kind != kind
  {
    if q != [] {
      WithoutKindMembers(q[1..], kind);
      assert q == [q[0]] + q[1..];
    }
  }

  // ----- Blocking -----

  ghost predicate NoUnblock(events: seq<Event>) {
    forall i :: 0 <= i < |events| ==> !events[i].Unblock?
  }

  /** The state right after ioBlockOps(1) saw the queue empty. */
  ghost predicate BlockReturned(s: State) {
    Inv(s) && s.blocked && s.queue == []
  }

  /** No client thread is between its checks and the linking of its request. */
  ghost predicate NonePassed(s: State) {
    forall c :: 0 <= c < |s.clients| ==> !s.clients[c].Checked?
  }

  lemma {:induction false} StaysEmpty(s: State, events: seq<Event>)
    requires BlockReturned(s) && NonePassed(s)
    requires NoUnblock(events) && Run(s, events).Some?
    ensures BlockReturned(Run(s, events).value) && NonePassed(Run(s, events).value)
  {
    if events != [] {
      var before := events[..|events| - 1];
      StaysEmpty(s, before);
      var s0, e := Run(s, before).value, events[|events| - 1];
      StepKeepsInv(s0, e);
      OthersStay(s0, e);
    }
  }

  /** `e` is a return of ioBlockOps(1): the end of its wait, or the immediate
      return when I/O is already blocked. */
  predicate BlockReturns(s: State, e: Event) {
    e.SpinDone? || (e.Block? && s.blocked)
  }

  /** Nothing more is queued until the next ioBlockOps(0). */
  ghost predicate QuietUntilUnblock(s: State) {
    forall events :: NoUnblock(events) && Run(s, events).Some? ==> Run(s, events).value.queue == []
  }

  lemma NotQuiet(s: State, events: seq<Event>)
    requires NoUnblock(events) && Run(s, events).Some? && Run(s, events).value.queue != []
    ensures !QuietUntilUnblock(s)
  {}

  /** An idle client can put a request while I/O is not blocked. */
  lemma IdleCanPut(s: State, c: nat)
    requires c < |s.clients| && s.clients[c] == Idle && !s.blocked && s.kinds != []
    ensures !QuietUntilUnblock(s)
  {
    var put, link := PutCheck(c, Item(s.kinds[0], 0)), PutLink(c);
    RunTwo(s, put, link);
    NotQuiet(s, [put, link]);
  }

  /** A client past its checks can link its request, blocked or not. */
  lemma PassedCanLink(s: State, c: nat)
    requires c < |s.clients| && s.clients[c].Checked?
    ensures !QuietUntilUnblock(s)
  {
    RunOne(s, PutLink(c));
    NotQuiet(s, [PutLink(c)]);
  }

  /** After any return of ioBlockOps(1) the queue is and stays empty until
      ioBlockOps(0) exactly when I/O is still blocked, the queue is empty and no
      client thread had passed its checks before the block. A handler that had
      passed them does not matter: its own request keeps the queue from emptying.
      ioInit has registered a handler, so there is a type to put. */
  lemma BlockHoldsIff(s: State, e: Event)
    requires Inv(s) && s.kinds != [] && Step(s, e).Some? && BlockReturns(s, e)
    ensures
      var s' := Step(s, e).value;
      QuietUntilUnblock(s') <==> s'.blocked && s'.queue == [] && NonePassed(s')
  {
    hide QuietUntilUnblock, Inv, Run, NonePassed;
    StepKeepsInv(s, e);
    var s' := Step(s, e).value;
    if s'.queue != [] {
      RunNone(s');
      NotQuiet(s', []);
    } else if !s'.blocked {
      IdleCanPut(s', e.c);
    } else {
      EmptyHoldsIff(s');
    }
  }

  lemma EmptyHoldsIff(s: State)
    requires BlockReturned(s)
    ensures QuietUntilUnblock(s) <==> NonePassed(s)
  {
    hide Inv, Run;
    if NonePassed(s) {
      forall events | NoUnblock(events) && Run(s, events).Some?
        ensures Run(s, events).value.queue == []
      {
        StaysEmpty(s, events);
      }
    } else {
      var c :| 0 <= c < |s.clients| && s.clients[c].Checked?;
      PassedCanLink(s, c);
    }
  }

  /** Two clients: the second returns from ioBlockOps(1) at once while the first
      still waits for its own request to be handled. */
  lemma EarlyReturnFindsRequest()
    ensures
      var events := [PutCheck(0, Item(7, 0)), PutLink(0), PutWake(0), Block(0)];
      var r := Run(Init(2, [7]), events);
      && r.Some? && Step(r.value, Block(1)).Some? && BlockReturns(r.value, Block(1))
      && NonePassed(Step(r.value, Block(1)).value) && Step(r.value, Block(1)).value.queue != []
  {
    hide Run;
    var s := Init(2, [7]);
    var put, link, wake, block := PutCheck(0, Item(7, 0)), PutLink(0), PutWake(0), Block(0);
    RunTwo(s, put, link);
    RunTwo(Run(s, [put, link]).value, wake, block);
    RunConcat(s, [put, link], [wake, block]);
    assert [put, link] + [wake, block] == [put, link, wake, block];
  }

  /** Two clients: the second has passed its checks when the first blocks. */
  lemma PassedPutterSlipsIn()
    ensures
      var events := [PutCheck(1, Item(7, 0)), Block(0)];
      var r := Run(Init(2, [7]), events);
      && r.Some? && Step(r.value, SpinDone(0)).Some?
      && BlockReturned(Step(r.value, SpinDone(0)).value) && !NonePassed(Step(r.value, SpinDone(0)).value)
  {
    hide Run, Inv;
    var s, put, block, done := Init(2, [7]), PutCheck(1, Item(7, 0)), Block(0), SpinDone(0);
    RunTwo(s, put, block);
    RunOne(Run(s, [put, block]).value, done);
    RunConcat(s, [put, block], [done]);
    RunKeepsInv(2, [7], [put, block] + [done]);
    assert Step(Run(s, [put, block]).value, done).value.clients[1].Checked?;
  }

  /** With one client: while it waits I/O is blocked, and once it has returned
      the queue is empty and stays so. */
  ghost predicate GuiBlocks(s: State) {
    && |s.clients| == 1
    && (s.clients[0] == Spinning ==> s.blocked)
    && (s.blocked && s.clients[0] != Spinning ==> s.queue == [] && NonePassed(s))
  }

  lemma StepKeepsGui(s: State, e: Event)
    requires Inv(s) && GuiBlocks(s) && Step(s, e).Some?
    ensures GuiBlocks(Step(s, e).value)
  {
    hide InOrder, LockOk, NoLostWakeup, KindsOk;
    OthersStay(s, e);
  }

  /** With the one GUI thread as the only client, I/O blocked by ioBlockOps(1)
      means an empty queue in every run, whatever a running handler was about to put. */
  lemma {:induction false} BlockHoldsForGui(kinds: seq<int>, events: seq<Event>)
    requires Run(Init(1, kinds), events).Some?
    ensures GuiBlocks(Run(Init(1, kinds), events).value)
  {
    if events != [] {
      var before := events[..|events| - 1];
      BlockHoldsForGui(kinds, before);
      RunKeepsInv(1, kinds, before);
      StepKeepsGui(Run(Init(1, kinds), before).value, events[|events| - 1]);
    }
  }

  // ----- Draining -----

  /** Steps that start nothing new: the worker's own, and those that lead the
      calls under way to their ends. */
  predicate Finishing(e: Event) {
    e.PutLink? || e.PutWake? || e.RemoveDo? || e.SpinDone? || e.Wake? || e.TakeProc? || e.Test? || e.Release?
    || e.HandlerPutLink? || e.HandlerPutWake? || e.HandlerReturn?
  }

  function CallEffort(pc: Client): nat {
    match pc
    case Idle => 0
    case Checked(_) => 9
    case Linked => 6
    case Removing(_) => 1
    case Spinning => 1
  }

  function CallsEffort(cs: seq<Client>): nat {
    if cs == [] then 0 else CallEffort(cs[0]) + CallsEffort(cs[1..])
  }

  function WorkerEffort(w: Worker): nat {
    match w
    case Asleep => 0
    case Leaving => 1
    case Testing => 2
    case Awake => 3
    case Handling(_, Plain) => 1
    case Handling(_, PutLinked) => 2
    case Handling(_, PutChecked(_)) => 5
  }

  /** A bound on the finishing steps still to come. */
  function Effort(s: State): nat {
    CallsEffort(s.clients) + 5 * s.wakeups + 2 * |s.queue| + WorkerEffort(s.worker)
  }

  lemma {:induction false} CallsEffortUpdate(cs: seq<Client>, c: nat, pc: Client)
    requires c < |cs|
    ensures CallsEffort(cs[c := pc]) == CallsEffort(cs) - CallEffort(cs[c]) + CallEffort(pc)
  {
    var cs' := cs[c := pc];
    if c == 0 {
      assert cs'[1..] == cs[1..];
    } else {
      assert cs'[1..] == cs[1..][c - 1 := pc];
      CallsEffortUpdate(cs[1..], c - 1, pc);
    }
  }

  lemma {:induction false} WithoutKindShorter(q: seq<Req>, kind: int)
    ensures |WithoutKind(q, kind)| <= |q|
  {
    if q != [] {
      WithoutKindShorter(q[1..], kind);
    }
  }

  /** Every finishing step brings the end nearer. */
  lemma FinishingShrinks(s: State, e: Event)
    requires Finishing(e) && Step(s, e).Some?
    ensures Effort(Step(s, e).value) < Effort(s)
  {
    hide CallsEffort, WithoutKind, IdsOfKind, MayPut;
    if IsClientEvent(e) {
      var s' := Step(s, e).value;
      CallsEffortUpdate(s.clients, e.c, s'.clients[e.c]);
      assert s'.clients == s.clients[e.c := s'.clients[e.c]];
      if e.RemoveDo? {
        WithoutKindShorter(s.queue, s.clients[e.c].kind);
      }
    }
  }

  /** No finishing step is possible. */
  ghost predicate Rests(s: State) {
    forall e :: Finishing(e) ==> Step(s, e).None?
  }

  /** No call is under way, nothing is queued, and the worker sleeps without a wakeup. */
  ghost predicate Quiescent(s: State) {
    && (forall c :: 0 <= c < |s.clients| ==> s.clients[c] == Idle)
    && s.queue == [] && s.worker == Asleep && s.wakeups == 0 && s.procFree
  }

  /** Behind a lock that is never released: the worker waits for it or sleeps, and
      all calls have ended but those that wait for a queue that stays as it is. */
  ghost predicate Stalled(s: State) {
    && (forall c :: 0 <= c < |s.clients| ==> s.clients[c] == Idle || (s.clients[c] == Spinning && s.queue != []))
    && (s.worker == Awake || (s.worker == Asleep && s.wakeups == 0))
  }

  /** In any other state that a run can reach a finishing step is enabled. */
  lemma CanFinish(s: State) returns (e: Event)
    requires Inv(s) && !(if s.leaked then Stalled(s) else Quiescent(s))
    ensures Finishing(e) && Step(s, e).Some?
  {
    hide InOrder, KindsOk;
    if s.leaked {
      e := CanGoOn(s);
    } else if c :| 0 <= c < |s.clients| && s.clients[c] != Idle && s.clients[c] != Spinning {
      e := if s.clients[c].Checked? then PutLink(c) else if s.clients[c] == Linked then PutWake(c) else RemoveDo(c);
    } else {
      match s.worker {
        case Leaving => e := Release;
        case Asleep =>
          if s.wakeups > 0 {
            e := Wake;
          } else {
            var c :| 0 <= c < |s.clients| && s.clients[c] == Spinning;
            e := SpinDone(c);
          }
        case Awake => e := TakeProc;
        case Testing => e := Test;
        case Handling(_, PutChecked(_)) => e := HandlerPutLink;
        case Handling(_, PutLinked) => e := HandlerPutWake;
        case Handling(_, Plain) => e := HandlerReturn;
      }
    }
  }

  lemma CanGoOn(s: State) returns (e: Event)
    requires LockOk(s) && s.leaked && !Stalled(s)
    ensures Finishing(e) && Step(s, e).Some?
  {
    if c :| 0 <= c < |s.clients| && s.clients[c] != Idle && !(s.clients[c] == Spinning && s.queue != []) {
      e := if s.clients[c].Checked? then PutLink(c) else if s.clients[c] == Linked then PutWake(c) else SpinDone(c);
    } else {
      e := Wake;
    }
  }

  /** The threads come to rest exactly where nothing is left to do, or the lock was leaked. */
  lemma RestsIff(s: State)
    requires Inv(s)
    ensures Rests(s) <==> if s.leaked then Stalled(s) else Quiescent(s)
  {
    if (if s.leaked then Stalled(s) else Quiescent(s)) {
      hide InOrder, KindsOk, NoLostWakeup;
      forall e | Finishing(e) ensures Step(s, e).None? {
      }
    } else {
      hide Inv;
      var e := CanFinish(s);
    }
  }

  lemma {:induction false} FinishingRun(s: State, events: seq<Event>)
    requires Inv(s) && Run(s, events).Some? && forall i :: 0 <= i < |events| ==> Finishing(events[i])
    ensures Inv(Run(s, events).value) && |events| + Effort(Run(s, events).value) <= Effort(s)
  {
    hide Inv, Effort, Step;
    if events != [] {
      var before, e := events[..|events| - 1], events[|events| - 1];
      FinishingRun(s, before);
      StepKeepsInv(Run(s, before).value, e);
      FinishingShrinks(Run(s, before).value, e);
    }
  }

  /** Once a registration has failed nothing is handled or removed any more, and
      the queue only grows. */
  lemma {:induction false} LeakIsFinal(s: State, events: seq<Event>)
    requires Inv(s) && s.leaked && Run(s, events).Some?
    ensures
      var s' := Run(s, events).value;
      && Inv(s') && s'.leaked
      && s'.started == s.started && s'.handled == s.handled && s'.removed == s.removed && s.queue <= s'.queue
  {
    hide InOrder, HeadIsHandled, NoLostWakeup, KindsOk;
    if events != [] {
      LeakIsFinal(s, events[..|events| - 1]);
      StepKeepsInv(Run(s, events[..|events| - 1]).value, events[|events| - 1]);
    }
  }

  /** A request is queued or will be. */
  ghost predicate Owes(s: State) {
    s.queue != [] || !NonePassed(s)
  }

  lemma {:induction false} LeakKeepsOwing(s: State, events: seq<Event>)
    requires Inv(s) && s.leaked && Run(s, events).Some? && forall i :: 0 <= i < |events| ==> Finishing(events[i])
    ensures Owes(Run(s, events).value) <==> Owes(s)
  {
    hide Inv, Step;
    if events != [] {
      var before, e := events[..|events| - 1], events[|events| - 1];
      LeakKeepsOwing(s, before);
      LeakIsFinal(s, before);
      StepKeepsOwing(Run(s, before).value, e);
    }
  }

  lemma StepKeepsOwing(s: State, e: Event)
    requires Inv(s) && s.leaked && Step(s, e).Some? && Finishing(e)
    ensures Owes(Step(s, e).value) <==> Owes(s)
  {
    hide InOrder, HeadIsHandled, NoLostWakeup, KindsOk;
    var s' := Step(s, e).value;
    OthersStay(s, e);
    if c :| 0 <= c < |s.clients| && s.clients[c].Checked? {
      assert s'.clients[c].Checked? || s'.queue != [];
    }
    if c :| 0 <= c < |s'.clients| && s'.clients[c].Checked? {
      assert s.clients[c].Checked?;
    }
  }

  lemma {:induction false} FinishingKeepsLeak(s: State, events: seq<Event>)
    requires Run(s, events).Some? && forall i :: 0 <= i < |events| ==> Finishing(events[i])
    ensures Run(s, events).value.leaked == s.leaked
  {
    if events != [] {
      FinishingKeepsLeak(s, events[..|events| - 1]);
    }
  }

  /** From every state that a run can reach the threads come to rest, whichever of
      them is scheduled: finishing steps can go on no longer than Effort. Where they
      end every accepted request that was not removed has been handled, exactly
      unless a registration has failed before and a request is queued or about to be. */
  lemma DrainsAlways(s: State, events: seq<Event>)
    requires Inv(s) && Run(s, events).Some? && forall i :: 0 <= i < |events| ==> Finishing(events[i])
    ensures |events| <= Effort(s)
    ensures
      var s' := Run(s, events).value;
      Rests(s') ==>
        && (!s.leaked ==> Quiescent(s'))
        && s'.handled == s'.started
        && (s'.handled == Survivors(s'.accepted, s'.removed) <==> !s.leaked || (s.queue == [] && NonePassed(s)))
  {
    hide Effort, Step, Run, Survivors, KindsOk, NoLostWakeup, Rests;
    FinishingRun(s, events);
    FinishingKeepsLeak(s, events);
    var s' := Run(s, events).value;
    RestsIff(s');
    if s.leaked {
      LeakKeepsOwing(s, events);
    }
    assert s'.handled + s'.queue == Survivors(s'.accepted, s'.removed);
    assert s'.queue == [] ==> s'.handled + s'.queue == s'.handled;
    assert s'.queue != [] ==> |s'.handled + s'.queue| > |s'.handled|;
  }

  /** And there is such a run. */
  lemma {:induction false} CanDrain(s: State) returns (events: seq<Event>)
    requires Inv(s)
    ensures forall i :: 0 <= i < |events| ==> Finishing(events[i])
    ensures Run(s, events).Some? && Rests(Run(s, events).value)
    decreases Effort(s)
  {
    hide Inv, Effort, Step, Run;
    RunNone(s);
    if Rests(s) {
      events := [];
    } else {
      var e :| Finishing(e) && Step(s, e).Some?;
      StepKeepsInv(s, e);
      FinishingShrinks(s, e);
      var rest := CanDrain(Step(s, e).value);
      RunOne(s, e);
      RunConcat(s, [e], rest);
      events := [e] + rest;
    }
  }

  /** A type registered a second time: the next request stays queued for ever. */
  lemma SecondRegistrationStalls()
    ensures
      var events := [Register(0, 7, true), PutCheck(0, Item(7, 0)), PutLink(0), PutWake(0), Wake];
      var r := Run(Init(1, [7]), events);
      r.Some? && Rests(r.value) && r.value.queue != [] && r.value.handled == []
  {
    hide Run, Inv;
    var s, put, link := Init(1, [7]), PutCheck(0, Item(7, 0)), PutLink(0);
    var register := Register(0, 7, true);
    RunTwo(s, register, put);
    RunTwo(Run(s, [register, put]).value, link, PutWake(0));
    RunConcat(s, [register, put], [link, PutWake(0)]);
    var four := [register, put] + [link, PutWake(0)];
    RunOne(Run(s, four).value, Wake);
    RunConcat(s, four, [Wake]);
    assert four + [Wake] == [register, put, link, PutWake(0), Wake];
    RunKeepsInv(1, [7], four + [Wake]);
    RestsIff(Run(s, four + [Wake]).value);
  }

  // ----- The same removal on the heap list -----

  function Items(q: seq<Req>): seq<Item> {
    if q == [] then [] else [q[0].item] + Items(q[1..])
  }

  /** Removal here and in the linked list take out the same requests. */
  lemma {:induction false} WithoutKindMatchesList(q: seq<Req>, kind: int)
    ensures Items(WithoutKind(q, kind)) == Without(Items(q), kind)
  {
    if q != [] {
      WithoutKindMatchesList(q[1..], kind);
      var rest := WithoutKind(q[1..], kind);
      assert ([q[0]] + rest)[1..] == rest && Items([q[0]] + rest) == [q[0].item] + Items(rest);
      assert Items(q)[1..] == Items(q[1..]) && [] + rest == rest;
    }
  }
}
