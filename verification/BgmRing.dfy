/** The background music ring buffer (src/sound.c) as a state machine: an I/O
    thread decodes into free slots, a player thread plays ready slots, and two
    counting semaphores pass the slots between them. */
module BgmRing {
  import opened Options

  const SLOTS := 16

  datatype Io =
    | IoWait                   // in WaitSema(inSema)
    | IoPoll(parts: nat)       // polling inSema for more slots
    | IoDecode(parts: nat)     // decoding into the slot at wrPtr
    | IoSignal(left: nat)      // wrPtr advanced, slots still to be signalled

  datatype Player =
    | Dormant                  // created, not started yet
    | Asleep                   // in SleepThread, or about to enter it
    | Polling                  // at PollSema(outSema)
    | Playing                  // playing the slot at rdPtr
    | Giving                   // rdPtr advanced, slot not given back yet

  /** `lost` records that a wakeup reached the player before it was started. */
  datatype State = State(inSema: nat, outSema: nat, rdPtr: nat, wrPtr: nat, io: Io, player: Player,
                         wakeups: nat, lost: bool)

  datatype Event =
    | TakeSlot | TakeMore | TakeNoMore | Decoded | SignalSlot | WakePlayer
    | StartPlayer | Wake | PollSlot | PollNothing | Played | GiveSlot

  /** bgmInit, with the I/O thread started and the player thread not yet. */
  const INIT := State(SLOTS, 0, 0, 0, IoWait, Dormant, 0, false)

  function Next(p: nat, n: nat): nat {
    (p + n) % SLOTS
  }

  function Step(s: State, e: Event): Option<State> {
    match e
    case TakeSlot =>
      if s.io == IoWait && s.inSema > 0 then Some(s.(io := IoPoll(1), inSema := s.inSema - 1)) else None
    case TakeMore =>
      if s.io.IoPoll? && s.wrPtr + s.io.parts < SLOTS && s.inSema > 0
      then Some(s.(io := IoPoll(s.io.parts + 1), inSema := s.inSema - 1)) else None
    case TakeNoMore =>
      if s.io.IoPoll? && !(s.wrPtr + s.io.parts < SLOTS && s.inSema > 0)
      then Some(s.(io := IoDecode(s.io.parts))) else None
    case Decoded =>
      if s.io.IoDecode? then Some(s.(io := IoSignal(s.io.parts), wrPtr := Next(s.wrPtr, s.io.parts))) else None
    case SignalSlot =>
      if s.io.IoSignal? && s.io.left > 0
      then Some(s.(io := IoSignal(s.io.left - 1), outSema := s.outSema + 1)) else None
    case WakePlayer =>
      // waking a dormant thread is an error and leaves no trace
      if s.io == IoSignal(0) then
        if s.player == Dormant then Some(s.(io := IoWait, lost := true))
        else Some(s.(io := IoWait, wakeups := s.wakeups + 1))
      else None
    case StartPlayer =>
      if s.player == Dormant then Some(s.(player := Asleep)) else None
    case Wake =>
      if s.player == Asleep && s.wakeups > 0 then Some(s.(player := Polling, wakeups := s.wakeups - 1)) else None
    case PollSlot =>
      if s.player == Polling && s.outSema > 0 then Some(s.(player := Playing, outSema := s.outSema - 1)) else None
    case PollNothing =>
      if s.player == Polling && s.outSema == 0 then Some(s.(player := Asleep)) else None
    case Played =>
      if s.player == Playing then Some(s.(player := Giving, rdPtr := Next(s.rdPtr, 1))) else None
    case GiveSlot =>
      if s.player == Giving then Some(s.(player := Polling, inSema := s.inSema + 1)) else None
  }

  function Run(events: seq<Event>): Option<State> {
    if events == [] then Some(INIT)
    else
      var before := Run(events[..|events| - 1]);
      if before.None? then None else Step(before.value, events[|events| - 1])
  }

  // ----- Slots -----

  /** Slots the I/O thread holds: taken, and either not decoded or not signalled yet. */
  function HeldByIo(io: Io): nat {
    match io
    case IoWait => 0
    case IoPoll(parts) => parts
    case IoDecode(parts) => parts
    case IoSignal(left) => left
  }

  function HeldByPlayer(p: Player): nat {
    if p == Playing || p == Giving then 1 else 0
  }

  /** Slots that hold sound: ready, being played, or not signalled yet. */
  function Full(s: State): nat {
    s.outSema + (if s.player == Playing then 1 else 0) + (if s.io.IoSignal? then s.io.left else 0)
  }

  /** Slots the I/O thread is about to fill, from wrPtr on. */
  function Filling(s: State): nat {
    if s.io.IoPoll? || s.io.IoDecode? then s.io.parts else 0
  }

  predicate Tokens(s: State) {
    s.inSema + s.outSema + HeldByIo(s.io) + HeldByPlayer(s.player) == SLOTS
  }

  predicate Pointers(s: State) {
    && s.rdPtr < SLOTS && s.wrPtr < SLOTS
    && s.wrPtr == Next(s.rdPtr, Full(s))
    && s.wrPtr + Filling(s) <= SLOTS
    && (s.io.IoPoll? || s.io.IoDecode? ==> s.io.parts > 0)
  }

  /** The player is on its way to look for ready slots. */
  predicate Looking(p: Player) {
    p == Polling || p == Playing || p == Giving
  }

  /** Until the player is started the first batch takes every slot. */
  predicate FirstBatchOnly(s: State) {
    && s.wakeups == 0 && s.wrPtr == 0 && s.rdPtr == 0
    && (s.io == IoWait ==> s.inSema == SLOTS)
    && (s.io.IoPoll? ==> s.inSema + s.io.parts == SLOTS)
    && (s.io.IoDecode? ==> s.io.parts == SLOTS)
    && (s.io.IoSignal? ==> s.outSema + s.io.left == SLOTS)
  }

  /** Both threads wait for each other, or will once the player is started. */
  predicate Hung(s: State) {
    && s.io == IoWait && s.inSema == 0 && s.outSema == SLOTS && s.wakeups == 0
    && (s.player == Dormant || s.player == Asleep)
  }

  /** Either the first wakeup came too early, or ready slots are never forgotten. */
  predicate Wakeups(s: State) {
    if s.lost then Hung(s)
    else if s.player == Dormant then FirstBatchOnly(s)
    else s.outSema > 0 ==> Looking(s.player) || s.wakeups > 0 || s.io.IoSignal?
  }

  predicate Inv(s: State) {
    Tokens(s) && Pointers(s) && Wakeups(s)
  }

  lemma StepKeepsTokens(s: State, e: Event)
    requires Inv(s) && Step(s, e).Some?
    ensures Tokens(Step(s, e).value)
  {
  }

  lemma NextAdds(p: nat, a: nat, b: nat)
    ensures Next(Next(p, a), b) == Next(p, a + b)
  {
  }

  lemma StepKeepsPointers(s: State, e: Event)
    requires Inv(s) && Step(s, e).Some?
    ensures Pointers(Step(s, e).value)
  {
    hide Next;
    if e.Decoded? {
      NextAdds(s.rdPtr, Full(s), s.io.parts);
      NextBelow(s.wrPtr, s.io.parts);
    } else if e.Played? {
      NextAdds(s.rdPtr, 1, Full(s) - 1);
      NextBelow(s.rdPtr, 1);
    }
  }

  lemma NextBelow(p: nat, a: nat)
    ensures Next(p, a) < SLOTS
  {
  }

  lemma StepKeepsWakeups(s: State, e: Event)
    requires Inv(s) && Step(s, e).Some?
    ensures Wakeups(Step(s, e).value)
  {
  }

  lemma {:induction false} RunKeepsInv(events: seq<Event>)
    requires Run(events).Some?
    ensures Inv(Run(events).value)
  {
    if events != [] {
      var before, e := events[..|events| - 1], events[|events| - 1];
      RunKeepsInv(before);
      StepKeepsTokens(Run(before).value, e);
      StepKeepsPointers(Run(before).value, e);
      StepKeepsWakeups(Run(before).value, e);
    }
  }

  /** In every interleaving the semaphore counts and the slots in hand make 16,
      so no count exceeds its maximum, and the write pointer runs ahead of the
      read pointer by the slots that hold sound. */
  lemma SlotsAreConserved(events: seq<Event>)
    requires Run(events).Some?
    ensures
      var s := Run(events).value;
      && s.inSema + s.outSema + HeldByIo(s.io) + HeldByPlayer(s.player) == SLOTS
      && s.wrPtr == Next(s.rdPtr, Full(s))
  {
    RunKeepsInv(events);
  }

  /** No slot that is being filled holds sound: the I/O thread never decodes into
      the slot being played, nor into one that waits to be played. */
  lemma FillingIsNotFull(events: seq<Event>, i: nat, k: nat)
    requires Run(events).Some?
    requires i < Filling(Run(events).value) && k < Full(Run(events).value)
    ensures Run(events).value.wrPtr + i < SLOTS
    ensures Run(events).value.wrPtr + i != Next(Run(events).value.rdPtr, k)
  {
    hide Run, Next, Wakeups;
    RunKeepsInv(events);
    var s := Run(events).value;
    SlotsApart(s.rdPtr, Full(s), Filling(s), i, k);
  }

  lemma SlotsApart(r: nat, full: nat, filling: nat, i: nat, k: nat)
    requires i < filling && k < full && full + filling <= SLOTS
    requires Next(r, full) + filling <= SLOTS
    ensures Next(r, full) + i != Next(r, k)
  {}

  /** In particular the slot being decoded is never the slot being played. */
  lemma DecodingIsNotPlaying(events: seq<Event>)
    requires Run(events).Some?
    ensures
      var s := Run(events).value;
      s.io.IoDecode? && s.player == Playing ==> s.wrPtr != s.rdPtr
  {
    RunKeepsInv(events);
    var s := Run(events).value;
    if s.io.IoDecode? && s.player == Playing {
      FillingIsNotFull(events, 0, 0);
    }
  }

  // ----- Progress -----

  predicate Enabled(s: State, e: Event) {
    Step(s, e).Some?
  }

  predicate Stuck(s: State) {
    forall e :: !Enabled(s, e)
  }

  /** The music stops for ever exactly when the I/O thread finished its first
      batch before the player thread was started: that batch takes all 16 slots
      and its wakeup is the only one. */
  lemma StuckIff(events: seq<Event>)
    requires Run(events).Some?
    ensures
      var s := Run(events).value;
      Stuck(s) <==> s.lost && s.player != Dormant
  {
    RunKeepsInv(events);
    var s := Run(events).value;
    if s.lost && s.player != Dormant {
      assert Stuck(s);
    } else {
      assert Enabled(s, if s.io == IoWait && s.inSema == 0 then PlayerEvent(s) else IoEvent(s));
    }
  }

  function PlayerEvent(s: State): Event {
    match s.player
    case Dormant => StartPlayer
    case Asleep => Wake
    case Polling => if s.outSema > 0 then PollSlot else PollNothing
    case Playing => Played
    case Giving => GiveSlot
  }

  predicate OfIo(e: Event) {
    e.TakeSlot? || e.TakeMore? || e.TakeNoMore? || e.Decoded? || e.SignalSlot? || e.WakePlayer?
  }

  /** Each thread has one way to go on, but for the I/O thread waiting for a free
      slot and the player asleep without a wakeup, which have none. */
  lemma ThreadsGoOn(s: State, io: bool)
    ensures (exists e :: OfIo(e) == io && Enabled(s, e)) <==>
            !(if io then s.io == IoWait && s.inSema == 0 else s.player == Asleep && s.wakeups == 0)
    ensures forall e, f :: OfIo(e) == OfIo(f) == io && Enabled(s, e) && Enabled(s, f) ==> e == f
  {
    assert Enabled(s, PlayerEvent(s)) <==> !(s.player == Asleep && s.wakeups == 0);
    assert Enabled(s, IoEvent(s)) <==> !(s.io == IoWait && s.inSema == 0);
    forall e | Enabled(s, e) ensures e == if OfIo(e) then IoEvent(s) else PlayerEvent(s) {
    }
  }

  function IoEvent(s: State): Event {
    match s.io
    case IoWait => TakeSlot
    case IoPoll(parts) => if s.wrPtr + parts < SLOTS && s.inSema > 0 then TakeMore else TakeNoMore
    case IoDecode(_) => Decoded
    case IoSignal(left) => if left > 0 then SignalSlot else WakePlayer
  }

  function Count(events: seq<Event>, e: Event): nat {
    if events == [] then 0
    else Count(events[..|events| - 1], e) + if events[|events| - 1] == e then 1 else 0
  }

  function Taken(events: seq<Event>): nat {
    Count(events, TakeSlot) + Count(events, TakeMore)
  }

  /** The semaphores count the slots taken, given back, signalled and polled. */
  lemma {:induction false} TokensAreCounted(events: seq<Event>)
    requires Run(events).Some?
    ensures
      var s := Run(events).value;
      && s.inSema + Taken(events) == SLOTS + Count(events, GiveSlot)
      && s.outSema + Count(events, PollSlot) == Count(events, SignalSlot)
  {
    hide Next;
    if events != [] {
      TokensAreCounted(events[..|events| - 1]);
    }
  }

  /** Every batch ends with one wakeup, and every wakeup is slept off once, but for
      the one that was lost. */
  lemma {:induction false} WakeupsAreCounted(events: seq<Event>)
    requires Run(events).Some?
    ensures
      var s := Run(events).value;
      && s.wakeups + Count(events, Wake) + (if s.lost then 1 else 0) == Count(events, WakePlayer)
      && Count(events, TakeSlot) == Count(events, WakePlayer) + if s.io == IoWait then 0 else 1
  {
    hide Next, Tokens, Pointers;
    if events != [] {
      WakeupsAreCounted(events[..|events| - 1]);
      RunKeepsInv(events[..|events| - 1]);
    }
  }

  /** Slots are filled and played in turn: the pointers are the numbers of slots taken
      and decoded, and of slots played, modulo 16. */
  lemma {:induction false} PointersAreCounted(events: seq<Event>)
    requires Run(events).Some?
    ensures
      var s := Run(events).value;
      && Filling(s) <= Taken(events)
      && s.wrPtr == Next(0, Taken(events) - Filling(s))
      && s.rdPtr == Next(0, Count(events, Played))
  {
    hide Next, Run;
    if events == [] {
      NextOfNone();
    } else {
      var before, e := events[..|events| - 1], events[|events| - 1];
      RunStep(events);
      PointersAreCounted(before);
      var s := Run(before).value;
      NextAdds(0, Taken(before) - Filling(s), Filling(s));
      NextAdds(0, Count(before, Played), 1);
    }
  }

  lemma NextOfNone()
    ensures Next(0, 0) == 0 && Run([]) == Some(INIT)
  {}

  lemma RunStep(events: seq<Event>)
    requires events != [] && Run(events).Some?
    ensures
      var before, e := events[..|events| - 1], events[|events| - 1];
      Run(before).Some? && Run(events) == Step(Run(before).value, e)
  {}

  function Times(e: Event, n: nat): seq<Event> {
    if n == 0 then [] else Times(e, n - 1) + [e]
  }

  lemma RunOne(events: seq<Event>, e: Event, s: State)
    requires Run(events) == Some(s)
    ensures Run(events + [e]) == Step(s, e)
  {
    assert (events + [e])[..|events|] == events;
  }

  lemma RunNone()
    ensures Run([]) == Some(INIT)
  {}

  lemma {:induction false} RunTakes(n: nat)
    requires n <= 15
    ensures Run([TakeSlot] + Times(TakeMore, n)) == Some(State(15 - n, 0, 0, 0, IoPoll(n + 1), Dormant, 0, false))
  {
    hide Run;
    if n == 0 {
      assert Run([]) == Some(INIT) by { RunNone(); }
      RunOne([], TakeSlot, INIT);
      assert [] + [TakeSlot] == [TakeSlot] + Times(TakeMore, 0);
    } else {
      RunTakes(n - 1);
      RunOne([TakeSlot] + Times(TakeMore, n - 1), TakeMore, State(16 - n, 0, 0, 0, IoPoll(n), Dormant, 0, false));
      assert [TakeSlot] + Times(TakeMore, n - 1) + [TakeMore] == [TakeSlot] + Times(TakeMore, n);
    }
  }

  lemma {:induction false} RunSignals(before: seq<Event>, n: nat)
    requires n <= 16
    requires Run(before) == Some(State(0, 0, 0, 0, IoSignal(16), Dormant, 0, false))
    ensures Run(before + Times(SignalSlot, n)) == Some(State(0, n, 0, 0, IoSignal(16 - n), Dormant, 0, false))
  {
    hide Run;
    if n == 0 {
      assert before + [] == before;
    } else {
      RunSignals(before, n - 1);
      RunOne(before + Times(SignalSlot, n - 1), SignalSlot, State(0, n - 1, 0, 0, IoSignal(17 - n), Dormant, 0, false));
      assert before + Times(SignalSlot, n - 1) + [SignalSlot] == before + Times(SignalSlot, n);
    }
  }

  /** That order of events exists: a run that leaves both threads waiting for each other. */
  lemma EarlyFirstBatchIsStuck() returns (events: seq<Event>)
    ensures Run(events).Some? && Stuck(Run(events).value)
  {
    hide Run, Times, Stuck;
    var n := SLOTS - 1;
    var a := [TakeSlot] + Times(TakeMore, n);
    RunTakes(n);
    RunOne(a, TakeNoMore, State(0, 0, 0, 0, IoPoll(n + 1), Dormant, 0, false));
    RunOne(a + [TakeNoMore], Decoded, State(0, 0, 0, 0, IoDecode(n + 1), Dormant, 0, false));
    var b := a + [TakeNoMore] + [Decoded];
    RunSignals(b, n + 1);
    var c := b + Times(SignalSlot, n + 1);
    RunOne(c, WakePlayer, State(0, n + 1, 0, 0, IoSignal(0), Dormant, 0, false));
    RunOne(c + [WakePlayer], StartPlayer, State(0, n + 1, 0, 0, IoWait, Dormant, 0, true));
    events := c + [WakePlayer] + [StartPlayer];
    StuckIff(events);
  }
}
