/** The play history table (src/OSDHistory.c): 21 records of launched games,
    updated in place at every launch. */
module PlayHistory {
  import opened Arithmetic
  import opened CStrings

  const MAX_ENTRIES := 21
  const NAME_SIZE := 16

  /** A record; an empty name marks a blank slot. */
  datatype Entry = Entry(name: string, launchCount: nat, bitmask: bv8, shiftAmount: nat, dateStamp: nat)

  const BLANK := Entry("", 0, 0, 0, 0)

  type Table = t: seq<Entry> | |t| == MAX_ENTRIES witness [
    BLANK, BLANK, BLANK, BLANK, BLANK, BLANK, BLANK, BLANK, BLANK, BLANK, BLANK,
    BLANK, BLANK, BLANK, BLANK, BLANK, BLANK, BLANK, BLANK, BLANK, BLANK]

  /** strncmp over the size of the name field. */
  predicate Matches(stored: string, name: string) {
    SameWithin(stored, name, NAME_SIZE)
  }

  /** strncpy into the name field, short of its last byte. */
  function StoredName(name: string): string {
    First(name, NAME_SIZE - 1)
  }

  // ----- One record -----

  function Bit(value: nat): bv8
    requires value < 6
  {
    if value == 0 then 1 else if value == 1 then 2 else if value == 2 then 4
    else if value == 3 then 8 else if value == 4 then 16 else 32
  }

  predicate IsFree(mask: bv8, value: nat) {
    value < 6 && mask & Bit(value) == 0
  }

  predicate IsFull(mask: bv8) {
    mask & 0x3F == 0x3F
  }

  /** A launch count at which a record gains a mask bit. */
  predicate GainsBit(newCount: nat) {
    newCount >= 14 && (newCount - 14) % 10 == 0
  }

  /** The launch count after one more launch of a record whose mask is not full. */
  function NextCount(count: nat): nat {
    if count + 1 >= 0x80 then 0x7F else count + 1
  }

  /** The record of a game launched again; `pick` is the bit the random draws settle on. */
  function Relaunched(e: Entry, now: nat, pick: nat): Entry {
    if !IsFull(e.bitmask) then
      var newCount := NextCount(e.launchCount);
      if GainsBit(newCount) && pick < 6 then
        e.(dateStamp := now, launchCount := newCount, shiftAmount := pick, bitmask := e.bitmask | Bit(pick))
      else e.(dateStamp := now, launchCount := newCount)
    else if e.launchCount < 0x3F then e.(dateStamp := now, launchCount := e.launchCount + 1)
    else e.(dateStamp := now, launchCount := (e.bitmask & 0x3F) as nat, shiftAmount := 7)
  }

  /** The draws for a record end on a free bit whenever they are made. */
  predicate PickOk(e: Entry, pick: nat) {
    !IsFull(e.bitmask) && GainsBit(NextCount(e.launchCount)) ==> IsFree(e.bitmask, pick)
  }

  /** The rejection loop can end: a mask that is not full has a free bit. */
  lemma FreeBitExists(mask: bv8) returns (value: nat)
    requires !IsFull(mask)
    ensures IsFree(mask, value)
  {
    if mask & 1 == 0 { value := 0; }
    else if mask & 2 == 0 { value := 1; }
    else if mask & 4 == 0 { value := 2; }
    else if mask & 8 == 0 { value := 3; }
    else if mask & 16 == 0 { value := 4; }
    else { value := 5; }
  }

  function BitCount(mask: bv8): nat {
    (if mask & 1 != 0 then 1 else 0) + (if mask & 2 != 0 then 1 else 0) + (if mask & 4 != 0 then 1 else 0)
    + (if mask & 8 != 0 then 1 else 0) + (if mask & 16 != 0 then 1 else 0) + (if mask & 32 != 0 then 1 else 0)
  }

  /** How many mask bits a record has after `count` launches. */
  function BitsAfter(count: nat): nat {
    if count < 14 then 1 else if count < 54 then 2 + (count - 14) / 10 else 6
  }

  ghost predicate EntryOk(e: Entry) {
    if e.name == "" then e == BLANK
    else
      && |e.name| < NAME_SIZE
      && 1 <= e.launchCount <= 0x3F
      && e.bitmask & 0xC0 == 0
      && BitCount(e.bitmask) == BitsAfter(e.launchCount)
      && (if e.shiftAmount < 6 then e.bitmask & Bit(e.shiftAmount) != 0
          else e.shiftAmount == 7 && e.launchCount == 0x3F)
  }

  lemma FullIsSix(mask: bv8)
    requires mask & 0xC0 == 0
    ensures IsFull(mask) <==> BitCount(mask) == 6
    ensures IsFull(mask) ==> (mask & 0x3F) as nat == 0x3F
  {
  }

  lemma OneMoreBit(mask: bv8, value: nat)
    requires mask & 0xC0 == 0 && IsFree(mask, value)
    ensures (mask | Bit(value)) & 0xC0 == 0
    ensures BitCount(mask | Bit(value)) == BitCount(mask) + 1
  {
  }

  lemma BitIsPower(value: nat)
    requires value < 6
    ensures Bit(value) == (1 as bv8) << value
  {
  }

  /** A bit is gained exactly at launches 14, 24, 34, 44 and 54, and the shift
      amount then names the bit that was free before. */
  lemma GainedBit(e: Entry, now: nat, pick: nat)
    requires e.name != "" && EntryOk(e) && PickOk(e, pick)
    ensures
      var r := Relaunched(e, now, pick);
      && (r.bitmask != e.bitmask <==> r.launchCount in {14, 24, 34, 44, 54} && r.launchCount != e.launchCount)
      && (r.bitmask != e.bitmask ==>
            && r.shiftAmount < 6
            && e.bitmask & ((1 as bv8) << r.shiftAmount) == 0
            && r.bitmask == e.bitmask | ((1 as bv8) << r.shiftAmount))
      && (r.bitmask == e.bitmask ==> r.shiftAmount == e.shiftAmount || (r.shiftAmount == 7 && e.launchCount == 0x3F))
  {
    hide Bit, BitCount, BitsAfter, GainsBit, IsFull;
    FullIsSix(e.bitmask);
    if e.launchCount < 54 {
      BitsSchedule(e.launchCount);
      GainsAre(e.launchCount + 1);
      if GainsBit(e.launchCount + 1) {
        BitIsPower(pick);
        NewBitShows(e.bitmask, pick);
      }
    } else {
      ScheduleEnds(e.launchCount);
    }
  }

  lemma GainsAre(count: nat)
    requires count <= 54
    ensures GainsBit(count) <==> count in {14, 24, 34, 44, 54}
  {
  }

  lemma NewBitShows(mask: bv8, value: nat)
    requires IsFree(mask, value)
    ensures mask | Bit(value) != mask
    ensures (mask | Bit(value)) & Bit(value) != 0
  {
  }

  lemma BitsSchedule(count: nat)
    requires count < 54
    ensures BitsAfter(count) < 6
    ensures BitsAfter(count + 1) == BitsAfter(count) + if GainsBit(count + 1) then 1 else 0
  {
  }

  /** A launch keeps a record in order: the count stays within 1..63, below the
      clamp, and the mask keeps to its schedule. */
  lemma RelaunchKeepsEntry(e: Entry, now: nat, pick: nat)
    requires e.name != "" && EntryOk(e) && PickOk(e, pick)
    ensures EntryOk(Relaunched(e, now, pick)) && Relaunched(e, now, pick).name == e.name
  {
    hide Bit, BitCount, BitsAfter, IsFull;
    FullIsSix(e.bitmask);
    if e.launchCount < 54 {
      BitsSchedule(e.launchCount);
      if GainsBit(e.launchCount + 1) {
        OneMoreBit(e.bitmask, pick);
        NewBitShows(e.bitmask, pick);
      }
    } else {
      ScheduleEnds(e.launchCount);
      ScheduleEnds(e.launchCount + 1);
    }
  }

  lemma ScheduleEnds(count: nat)
    requires count >= 54
    ensures BitsAfter(count) == 6
  {
  }

  /** A record is used up by the launch that finds it at 63 launches. */
  lemma UsedUpIff(e: Entry, now: nat, pick: nat)
    requires e.name != "" && EntryOk(e) && PickOk(e, pick)
    ensures UsedUp(Relaunched(e, now, pick)) <==> e.launchCount == 0x3F
  {
    hide Bit, BitCount, BitsAfter;
    FullIsSix(e.bitmask);
    if e.launchCount < 54 {
      BitsSchedule(e.launchCount);
    } else {
      ScheduleEnds(e.launchCount);
    }
  }

  /** Whatever a record holds, its count grows by one up to 127 while its mask is not
      full, and up to 63 then. */
  lemma CountIsClamped(e: Entry, now: nat, pick: nat)
    ensures
      var most := if IsFull(e.bitmask) then 63 else 127;
      Relaunched(e, now, pick).launchCount == if e.launchCount < most then e.launchCount + 1 else most
  {
    hide Bit, GainsBit;
  }

  // ----- The table -----

  /** A launch: the name, the date, the bits the draws settle on, and the draw for a blank slot. */
  datatype Launch = Launch(name: string, now: nat, picks: seq<nat>, draw: nat)

  predicate Known(t: Table, name: string) {
    exists i :: 0 <= i < MAX_ENTRIES && Matches(t[i].name, name)
  }

  function RelaunchAll(t: Table, l: Launch): (r: Table)
    requires |l.picks| == MAX_ENTRIES
    ensures forall i :: 0 <= i < MAX_ENTRIES ==>
      r[i] == if Matches(t[i].name, l.name) then Relaunched(t[i], l.now, l.picks[i]) else t[i]
  {
    RelaunchFirst(t, l, MAX_ENTRIES)
  }

  function RelaunchFirst(t: Table, l: Launch, n: nat): (r: Table)
    requires |l.picks| == MAX_ENTRIES && n <= MAX_ENTRIES
    ensures forall i :: 0 <= i < MAX_ENTRIES ==>
      r[i] == if i < n && Matches(t[i].name, l.name) then Relaunched(t[i], l.now, l.picks[i]) else t[i]
  {
    if n == 0 then t
    else
      var before := RelaunchFirst(t, l, n - 1);
      if Matches(t[n - 1].name, l.name) then before[n - 1 := Relaunched(t[n - 1], l.now, l.picks[n - 1])] else before
  }

  /** The blank slots among the first `n`, in order. */
  function BlankSlots(t: Table, n: nat): (r: seq<nat>)
    requires n <= MAX_ENTRIES
    ensures forall k :: 0 <= k < |r| ==> r[k] < n && t[r[k]].name == ""
    ensures r == [] ==> forall i :: 0 <= i < n ==> t[i].name != ""
  {
    if n == 0 then []
    else if t[n - 1].name == "" then BlankSlots(t, n - 1) + [n - 1] else BlankSlots(t, n - 1)
  }

  function UsedUp(e: Entry): bool {
    e.name != "" && e.shiftAmount == 7
  }

  function CountUsedUp(t: Table, n: nat): (r: nat)
    requires n <= MAX_ENTRIES
    ensures r <= n && (r == n <==> forall i :: 0 <= i < n ==> UsedUp(t[i]))
  {
    if n == 0 then 0 else CountUsedUp(t, n - 1) + if UsedUp(t[n - 1]) then 1 else 0
  }

  /** Every record has been launched past the end of its schedule. */
  predicate Saturated(t: Table) {
    forall i :: 0 <= i < MAX_ENTRIES ==> UsedUp(t[i])
  }

  const INT_MAX := 0x7FFF_FFFF

  datatype Victim = Victim(record: nat, launchCount: nat, timestamp: nat)

  /** The least used record among the first `n`, as the scan keeps it. */
  function LeastUsed(t: Table, n: nat): (v: Victim)
    requires n <= MAX_ENTRIES
    ensures n > 0 ==> v.record < n
  {
    if n == 0 then Victim(0, INT_MAX, INT_MAX)
    else
      var v0 := LeastUsed(t, n - 1);
      var e := t[n - 1];
      var v1 := if e.launchCount < v0.launchCount then v0.(record := n - 1, launchCount := e.launchCount) else v0;
      if v1.launchCount == e.launchCount && e.dateStamp < v1.timestamp
      then v1.(timestamp := e.dateStamp, record := n - 1) else v1
  }

  /** The slot a new game goes to. */
  function NewSlot(t: Table, draw: nat): (i: nat)
    ensures i < MAX_ENTRIES
  {
    var blanks := BlankSlots(t, MAX_ENTRIES);
    if |blanks| > 0 then blanks[draw % |blanks|] else LeastUsed(t, MAX_ENTRIES).record
  }

  /** AddHistoryRecord, without the file it reads and writes. */
  function AddRecord(t: Table, l: Launch): (r: Table)
    requires |l.picks| == MAX_ENTRIES
  {
    if Known(t, l.name) then RelaunchAll(t, l)
    else if CountUsedUp(t, MAX_ENTRIES) == MAX_ENTRIES then t
    else t[NewSlot(t, l.draw) := Entry(StoredName(l.name), 1, 1, 0, l.now)]
  }

  ghost predicate LaunchOk(t: Table, l: Launch) {
    && |l.picks| == MAX_ENTRIES
    && forall i :: 0 <= i < MAX_ENTRIES && Matches(t[i].name, l.name) ==> PickOk(t[i], l.picks[i])
  }

  predicate ShortName(name: string) {
    0 < |name| < NAME_SIZE
  }

  ghost predicate UniqueNames(t: Table) {
    forall i, j :: 0 <= i < j < MAX_ENTRIES && t[i].name != "" ==> t[i].name != t[j].name
  }

  ghost predicate TableOk(t: Table) {
    (forall i :: 0 <= i < MAX_ENTRIES ==> EntryOk(t[i])) && UniqueNames(t)
  }

  lemma MatchesShort(stored: string, name: string)
    requires |stored| < NAME_SIZE && |name| < NAME_SIZE
    ensures Matches(stored, name) <==> stored == name
  {
  }

  /** A launch of a game with a name of 1 to 15 characters keeps the table in order. */
  lemma AddKeepsTable(t: Table, l: Launch)
    requires TableOk(t) && LaunchOk(t, l) && ShortName(l.name)
    ensures TableOk(AddRecord(t, l))
  {
    var r := AddRecord(t, l);
    forall i | 0 <= i < MAX_ENTRIES
      ensures EntryOk(r[i]) && (Known(t, l.name) ==> r[i].name == t[i].name)
    {
      MatchesShort(t[i].name, l.name);
      if Known(t, l.name) && Matches(t[i].name, l.name) {
        RelaunchKeepsEntry(t[i], l.now, l.picks[i]);
      }
    }
    if !Known(t, l.name) {
      forall i | 0 <= i < MAX_ENTRIES ensures t[i].name != l.name {
        MatchesShort(t[i].name, l.name);
      }
    }
  }

  /** The record that makes room has the smallest launch count of the table. */
  lemma {:induction false} VictimIsLeastUsed(t: Table, n: nat, i: nat)
    requires i < n <= MAX_ENTRIES
    requires forall k :: 0 <= k < MAX_ENTRIES ==> t[k].launchCount < INT_MAX
    ensures LeastUsed(t, n).launchCount == t[LeastUsed(t, n).record].launchCount <= t[i].launchCount
  {
    if n > 1 {
      VictimIsLeastUsed(t, n - 1, if i < n - 1 then i else 0);
    }
  }

  // ----- Which record makes room -----

  /** No record before `k` has been launched less often. */
  ghost predicate Candidate(t: Table, k: nat)
    requires k < MAX_ENTRIES
  {
    forall j :: 0 <= j < k ==> t[k].launchCount <= t[j].launchCount
  }

  /** The scan turns to record `k`: it has been launched less often than all before
      it, or it is a candidate dated before every earlier candidate. */
  ghost predicate Takes(t: Table, k: nat)
    requires k < MAX_ENTRIES
  {
    && Candidate(t, k)
    && (|| (forall j :: 0 <= j < k ==> t[k].launchCount < t[j].launchCount)
        || (forall j :: 0 <= j < k && Candidate(t, j) ==> t[k].dateStamp < t[j].dateStamp))
  }

  ghost predicate Scannable(t: Table) {
    forall k :: 0 <= k < MAX_ENTRIES ==> t[k].launchCount < INT_MAX && t[k].dateStamp < INT_MAX
  }

  /** The scan of the first `n` records ends with the last one it turns to, its
      count being the smallest and the date kept the earliest of a candidate. */
  ghost predicate ScanEnds(t: Table, n: nat, v: Victim)
    requires n <= MAX_ENTRIES
  {
    && v.record < n && Takes(t, v.record) && v.launchCount == t[v.record].launchCount
    && (forall k :: v.record < k < n ==> !Takes(t, k))
    && (forall k :: 0 <= k < n ==> v.launchCount <= t[k].launchCount)
    && (forall k :: 0 <= k < n && Candidate(t, k) ==> v.timestamp <= t[k].dateStamp)
    && exists k :: 0 <= k < n && Candidate(t, k) && v.timestamp == t[k].dateStamp
  }

  /** Which records the scan turns to, by what it has kept. */
  lemma TakesIs(t: Table, k: nat, v: Victim)
    requires 0 < k < MAX_ENTRIES && ScanEnds(t, k, v)
    ensures Candidate(t, k) <==> t[k].launchCount <= v.launchCount
    ensures Takes(t, k) <==>
            t[k].launchCount < v.launchCount || (t[k].launchCount == v.launchCount && t[k].dateStamp < v.timestamp)
  {
    var c :| 0 <= c < k && Candidate(t, c) && v.timestamp == t[c].dateStamp;
    assert Candidate(t, v.record);
  }

  lemma ScanGoesOn(t: Table, k: nat, v0: Victim, v: Victim)
    requires 0 < k < MAX_ENTRIES && ScanEnds(t, k, v0)
    requires v.record == if Takes(t, k) then k else v0.record
    requires v.launchCount == if Candidate(t, k) then t[k].launchCount else v0.launchCount
    requires v.timestamp ==
             if Candidate(t, k) && t[k].dateStamp < v0.timestamp then t[k].dateStamp else v0.timestamp
    ensures ScanEnds(t, k + 1, v)
  {
    hide Takes, Candidate;
    TakesIs(t, k, v0);
    EarliestGoesOn(t, k, v0, v);
    if Takes(t, k) {
    } else {
      assert v.launchCount == v0.launchCount;
    }
  }

  lemma EarliestGoesOn(t: Table, k: nat, v0: Victim, v: Victim)
    requires 0 < k < MAX_ENTRIES && ScanEnds(t, k, v0)
    requires v.timestamp ==
             if Candidate(t, k) && t[k].dateStamp < v0.timestamp then t[k].dateStamp else v0.timestamp
    ensures forall j :: 0 <= j < k + 1 && Candidate(t, j) ==> v.timestamp <= t[j].dateStamp
    ensures exists j :: 0 <= j < k + 1 && Candidate(t, j) && v.timestamp == t[j].dateStamp
  {
    hide Takes, Candidate;
    var c :| 0 <= c < k && Candidate(t, c) && v0.timestamp == t[c].dateStamp;
    var j := if Candidate(t, k) && t[k].dateStamp < v0.timestamp then k else c;
    assert Candidate(t, j) && v.timestamp == t[j].dateStamp;
  }

  lemma {:induction false} VictimIs(t: Table, n: nat)
    requires Scannable(t) && 0 < n <= MAX_ENTRIES
    ensures ScanEnds(t, n, LeastUsed(t, n))
  {
    var k := n - 1;
    if k == 0 {
      assert Candidate(t, 0);
    } else {
      hide ScanEnds, Takes, Candidate;
      VictimIs(t, k);
      TakesIs(t, k, LeastUsed(t, k));
      ScanGoesOn(t, k, LeastUsed(t, k), LeastUsed(t, n));
    }
  }

  /** Record `k` is one of the least used. */
  ghost predicate IsLeast(t: Table, k: nat)
    requires k < MAX_ENTRIES
  {
    forall j :: 0 <= j < MAX_ENTRIES ==> t[k].launchCount <= t[j].launchCount
  }

  ghost predicate IsOldest(t: Table, k: nat)
    requires k < MAX_ENTRIES
  {
    IsLeast(t, k) && forall j :: 0 <= j < MAX_ENTRIES && IsLeast(t, j) ==> t[k].dateStamp <= t[j].dateStamp
  }

  lemma {:induction false} FirstOldest(t: Table, n: nat) returns (d: nat)
    requires n <= MAX_ENTRIES && exists k :: 0 <= k < n && IsLeast(t, k)
    ensures d < n && IsLeast(t, d)
    ensures forall k :: 0 <= k < n && IsLeast(t, k) ==> t[d].dateStamp <= t[k].dateStamp
    ensures forall k :: 0 <= k < d && IsLeast(t, k) ==> t[d].dateStamp < t[k].dateStamp
  {
    hide IsLeast;
    if exists k :: 0 <= k < n - 1 && IsLeast(t, k) {
      d := FirstOldest(t, n - 1);
      if IsLeast(t, n - 1) && t[n - 1].dateStamp < t[d].dateStamp {
        d := n - 1;
      }
    } else {
      d := n - 1;
    }
  }

  /** The date kept by the scan is not reset when a record used less often comes by,
      so the victim is an oldest of the least used records exactly when the first of
      them is, or one of them is dated before every candidate in front of the first. */
  lemma VictimIsOldestIff(t: Table, f: nat)
    requires Scannable(t) && f < MAX_ENTRIES && IsLeast(t, f) && forall k :: 0 <= k < f ==> !IsLeast(t, k)
    ensures
      IsOldest(t, LeastUsed(t, MAX_ENTRIES).record) <==>
        || IsOldest(t, f)
        || exists k :: 0 <= k < MAX_ENTRIES && IsLeast(t, k) &&
             forall j :: 0 <= j < f && Candidate(t, j) ==> t[k].dateStamp < t[j].dateStamp
  {
    hide LeastUsed;
    VictimIs(t, MAX_ENTRIES);
    var v := LeastUsed(t, MAX_ENTRIES).record;
    assert IsLeast(t, v) && v >= f;
    var d := FirstOldest(t, MAX_ENTRIES);
    if k :| 0 <= k < MAX_ENTRIES && IsLeast(t, k) &&
            forall j :: 0 <= j < f && Candidate(t, j) ==> t[k].dateStamp < t[j].dateStamp {
      forall j | 0 <= j < d && Candidate(t, j) ensures t[d].dateStamp < t[j].dateStamp {
        if j >= f {
          LeastFrom(t, f, j);
        }
      }
      assert Candidate(t, d) && Takes(t, d);
      assert Candidate(t, d) ==> v == d;
    }
    if v != f {
      assert !(t[v].launchCount < t[f].launchCount) && Candidate(t, f);
    }
  }

  /** A candidate behind a least used record is one itself. */
  lemma LeastFrom(t: Table, f: nat, j: nat)
    requires f <= j < MAX_ENTRIES && IsLeast(t, f) && Candidate(t, j)
    ensures IsLeast(t, j)
  {}

  function Game(k: nat, count: nat, date: nat): Entry
    requires k < 26
  {
    Entry(['A' + k as char], count, 1, 0, date)
  }

  /** A full table: record 1 has been launched as seldom as record 2. */
  function FullTable(): (t: Table)
    ensures forall k :: 0 <= k < MAX_ENTRIES ==>
      t[k] == if k == 0 then Game(0, 5, 10) else if k == 1 then Game(1, 3, 20) else if k == 2 then Game(2, 3, 15)
              else Game(k, 9, 99)
  {
    var t := seq(MAX_ENTRIES, k requires 0 <= k < MAX_ENTRIES =>
      if k == 0 then Game(0, 5, 10) else if k == 1 then Game(1, 3, 20) else if k == 2 then Game(2, 3, 15)
      else Game(k, 9, 99));
    assert |t| == MAX_ENTRIES;
    t
  }

  /** Record 1 makes room although record 2 is as little used and older: the date of
      record 0 is still kept when record 2 is looked at. */
  lemma YoungerMakesRoom()
    ensures
      var t := FullTable();
      && TableOk(t) && LeastUsed(t, MAX_ENTRIES).record == 1 && !IsOldest(t, 1)
      && t[2].launchCount == t[1].launchCount && t[2].dateStamp < t[1].dateStamp
  {
    hide FullTable, TableOk, Game, LeastUsed, Scannable;
    var t := FullTable();
    FullTableOk();
    VictimIs(t, MAX_ENTRIES);
    CountsAndDates();
    assert Candidate(t, 0) && Candidate(t, 1) && Takes(t, 1);
    forall k | 2 <= k < MAX_ENTRIES ensures !Takes(t, k) {
      assert !(t[k].launchCount < t[1].launchCount) && !(t[k].dateStamp < t[0].dateStamp);
    }
    assert IsLeast(t, 2);
  }

  lemma CountsAndDates()
    ensures
      var t := FullTable();
      && t[0].launchCount == 5 && t[0].dateStamp == 10 && t[1].launchCount == 3 && t[1].dateStamp == 20
      && t[2].launchCount == 3 && t[2].dateStamp == 15
      && forall k :: 3 <= k < MAX_ENTRIES ==> t[k].launchCount == 9 && t[k].dateStamp == 99
  {}

  lemma FullTableOk()
    ensures TableOk(FullTable()) && Scannable(FullTable())
  {
    var t := FullTable();
    forall i | 0 <= i < MAX_ENTRIES ensures EntryOk(t[i]) {
    }
    forall i, j | 0 <= i < j < MAX_ENTRIES ensures t[i].name != t[j].name {
      assert t[i].name[0] == 'A' + i as char && t[j].name[0] == 'A' + j as char;
    }
  }

  /** Every blank slot is the choice of some draw. */
  lemma EveryBlankIsDrawn(t: Table, i: nat)
    requires i < MAX_ENTRIES && t[i].name == ""
    ensures exists draw: nat :: draw < MAX_ENTRIES && NewSlot(t, draw) == i
  {
    hide BlankSlots, LeastUsed;
    var draw := BlankIndex(t, MAX_ENTRIES, i);
    DivModIs(draw, 0, draw, |BlankSlots(t, MAX_ENTRIES)|);
    assert NewSlot(t, draw) == i;
  }

  lemma {:induction false} BlankIndex(t: Table, n: nat, i: nat) returns (k: nat)
    requires i < n <= MAX_ENTRIES && t[i].name == ""
    ensures k < |BlankSlots(t, n)| <= n && BlankSlots(t, n)[k] == i
  {
    if i == n - 1 {
      k := |BlankSlots(t, n - 1)|;
      BlanksBound(t, n - 1);
    } else {
      k := BlankIndex(t, n - 1, i);
    }
  }

  lemma {:induction false} BlanksBound(t: Table, n: nat)
    requires n <= MAX_ENTRIES
    ensures |BlankSlots(t, n)| <= n
  {
    if n > 0 {
      BlanksBound(t, n - 1);
    }
  }

  /** After a launch the game is in the table, unless it is new and every record is used up. */
  lemma RecordedUnlessSaturated(t: Table, l: Launch)
    requires TableOk(t) && LaunchOk(t, l) && ShortName(l.name)
    ensures Known(AddRecord(t, l), l.name) <==> Known(t, l.name) || !Saturated(t)
  {
    var r := AddRecord(t, l);
    if Known(t, l.name) {
      var i :| 0 <= i < MAX_ENTRIES && Matches(t[i].name, l.name);
      MatchesShort(t[i].name, l.name);
      RelaunchKeepsEntry(t[i], l.now, l.picks[i]);
      assert Matches(r[i].name, l.name);
    } else if !Saturated(t) {
      assert Matches(r[NewSlot(t, l.draw)].name, l.name);
    }
  }

  /** A launch touches no record but the game's own or, for a new game, the one
      it replaces: a blank slot if there is one, else a least used record. */
  lemma OnlyOneRecordChanges(t: Table, l: Launch, i: nat)
    requires TableOk(t) && LaunchOk(t, l) && ShortName(l.name) && i < MAX_ENTRIES
    requires AddRecord(t, l)[i] != t[i]
    ensures AddRecord(t, l)[i].name == l.name
    ensures forall j :: 0 <= j < MAX_ENTRIES && j != i ==> AddRecord(t, l)[j] == t[j]
    ensures t[i].name != l.name ==>
      !Known(t, l.name) &&
      (t[i].name == "" || forall j :: 0 <= j < MAX_ENTRIES ==> t[j].name != "" && t[i].launchCount <= t[j].launchCount)
  {
    forall j | 0 <= j < MAX_ENTRIES ensures Matches(t[j].name, l.name) <==> t[j].name == l.name {
      MatchesShort(t[j].name, l.name);
    }
    if Known(t, l.name) {
      RelaunchKeepsEntry(t[i], l.now, l.picks[i]);
    } else {
      forall j | 0 <= j < MAX_ENTRIES
        ensures t[LeastUsed(t, MAX_ENTRIES).record].launchCount <= t[j].launchCount
      {
        assert forall k :: 0 <= k < MAX_ENTRIES ==> EntryOk(t[k]);
        VictimIsLeastUsed(t, MAX_ENTRIES, j);
      }
    }
  }

  // ----- Runs -----

  const EMPTY: Table := [
    BLANK, BLANK, BLANK, BLANK, BLANK, BLANK, BLANK, BLANK, BLANK, BLANK, BLANK,
    BLANK, BLANK, BLANK, BLANK, BLANK, BLANK, BLANK, BLANK, BLANK, BLANK]

  /** The launches are possible one after the other from the table `t`. */
  ghost predicate RunOk(t: Table, ls: seq<Launch>)
    decreases |ls|
  {
    ls == [] || (ShortName(ls[0].name) && LaunchOk(t, ls[0]) && RunOk(AddRecord(t, ls[0]), ls[1..]))
  }

  ghost function Run(t: Table, ls: seq<Launch>): Table
    requires RunOk(t, ls)
    decreases |ls|
  {
    if ls == [] then t else Run(AddRecord(t, ls[0]), ls[1..])
  }

  /** From a table in order, and so from the all-zero one, every run keeps names
      unique, launch counts within 1..63 and masks on schedule. */
  lemma {:induction false} RunKeepsTable(t: Table, ls: seq<Launch>)
    requires TableOk(t) && RunOk(t, ls)
    ensures TableOk(Run(t, ls))
    decreases |ls|
  {
    if ls != [] {
      AddKeepsTable(t, ls[0]);
      RunKeepsTable(AddRecord(t, ls[0]), ls[1..]);
    }
  }

  lemma EmptyTableOk()
    ensures TableOk(EMPTY)
  {
    assert forall i :: 0 <= i < MAX_ENTRIES ==> EMPTY[i] == BLANK;
  }

  /** Once every record is used up the table never takes another game. */
  lemma {:induction false} SaturationIsFinal(t: Table, ls: seq<Launch>)
    requires TableOk(t) && RunOk(t, ls) && Saturated(t)
    ensures Saturated(Run(t, ls))
    ensures forall i :: 0 <= i < MAX_ENTRIES ==> Run(t, ls)[i].name == t[i].name
    decreases |ls|
  {
    if ls != [] {
      var t1 := AddRecord(t, ls[0]);
      forall i | 0 <= i < MAX_ENTRIES
        ensures UsedUp(t1[i]) && t1[i].name == t[i].name
      {
        assert UsedUp(t[i]) && EntryOk(t[i]);
        FullIsSix(t[i].bitmask);
      }
      AddKeepsTable(t, ls[0]);
      SaturationIsFinal(t1, ls[1..]);
    }
  }

  // ----- Counting -----

  /** The record of the game just launched is dated and has one launch more, up to 63. */
  lemma LaunchIsCounted(t: Table, l: Launch, i: nat)
    requires TableOk(t) && LaunchOk(t, l) && ShortName(l.name) && i < MAX_ENTRIES
    requires AddRecord(t, l)[i].name == l.name
    ensures AddRecord(t, l)[i].dateStamp == l.now
    ensures AddRecord(t, l)[i].launchCount ==
            if t[i].name != l.name then 1 else if t[i].launchCount < 0x3F then t[i].launchCount + 1 else 0x3F
    ensures t[i].name != l.name ==> AddRecord(t, l)[i].bitmask == 1 && AddRecord(t, l)[i].shiftAmount == 0
  {
    hide First, Matches;
    NamesMatch(t, l.name);
    FullIsSix(t[i].bitmask);
    if t[i].name == l.name {
      RelaunchCounts(t[i], l.now, l.picks[i]);
    }
  }

  lemma NamesMatch(t: Table, name: string)
    requires TableOk(t) && ShortName(name)
    ensures forall j :: 0 <= j < MAX_ENTRIES ==> (Matches(t[j].name, name) <==> t[j].name == name)
  {
    forall j | 0 <= j < MAX_ENTRIES ensures Matches(t[j].name, name) <==> t[j].name == name {
      MatchesShort(t[j].name, name);
    }
  }

  lemma RelaunchCounts(e: Entry, now: nat, pick: nat)
    requires EntryOk(e) && e.name != ""
    ensures Relaunched(e, now, pick).dateStamp == now && Relaunched(e, now, pick).name == e.name
    ensures Relaunched(e, now, pick).launchCount == if e.launchCount < 0x3F then e.launchCount + 1 else 0x3F
  {
    FullIsSix(e.bitmask);
  }

  /** Launching a game of the table changes its record only and no name. */
  lemma KnownLaunch(t: Table, l: Launch)
    requires TableOk(t) && LaunchOk(t, l) && ShortName(l.name) && Known(t, l.name)
    ensures forall j :: 0 <= j < MAX_ENTRIES ==> AddRecord(t, l)[j].name == t[j].name
    ensures forall j :: 0 <= j < MAX_ENTRIES && t[j].name != l.name ==> AddRecord(t, l)[j] == t[j]
  {
    hide First, Matches;
    NamesMatch(t, l.name);
    forall j | 0 <= j < MAX_ENTRIES && t[j].name == l.name ensures AddRecord(t, l)[j].name == t[j].name {
      RelaunchCounts(t[j], l.now, l.picks[j]);
    }
  }

  /** How often a game is launched. */
  function LaunchesOf(ls: seq<Launch>, name: string): nat {
    if ls == [] then 0 else (if ls[0].name == name then 1 else 0) + LaunchesOf(ls[1..], name)
  }

  /** While only games of the table are launched, each record counts the launches
      of its game, up to 63. */
  lemma {:induction false} RunCountsLaunches(t: Table, ls: seq<Launch>, i: nat)
    requires TableOk(t) && RunOk(t, ls) && i < MAX_ENTRIES && t[i].name != ""
    requires forall k :: 0 <= k < |ls| ==> Known(t, ls[k].name)
    ensures Run(t, ls)[i].name == t[i].name
    ensures
      var c := t[i].launchCount + LaunchesOf(ls, t[i].name);
      Run(t, ls)[i].launchCount == if c < 0x3F then c else 0x3F
    decreases |ls|
  {
    if ls != [] {
      hide AddRecord, Matches, TableOk, LaunchOk, ShortName;
      var l, t1 := ls[0], AddRecord(t, ls[0]);
      AddKeepsTable(t, l);
      KnownLaunch(t, l);
      forall k | 0 <= k < |ls| - 1 ensures Known(t1, ls[1..][k].name) {
        var j :| 0 <= j < MAX_ENTRIES && Matches(t[j].name, ls[k + 1].name);
        assert Matches(t1[j].name, ls[k + 1].name);
      }
      if t[i].name == l.name {
        LaunchIsCounted(t, l, i);
      }
      RunCountsLaunches(t1, ls[1..], i);
    }
  }

  // ----- Why names of 1 to 15 characters -----

  /** Which launches keep the table in order, whatever the name: those of names of
      1 to 15 characters, all on a saturated table, and of a longer name when no
      record but the one replaced has its first 15 characters. */
  lemma KeepsTableIff(t: Table, l: Launch)
    requires TableOk(t) && LaunchOk(t, l)
    ensures TableOk(AddRecord(t, l)) <==>
            || ShortName(l.name)
            || Saturated(t)
            || (|l.name| >= NAME_SIZE &&
                forall j :: 0 <= j < MAX_ENTRIES && j != NewSlot(t, l.draw) ==> t[j].name != StoredName(l.name))
  {
    if ShortName(l.name) {
      AddKeepsTable(t, l);
    } else if l.name == "" {
      EmptyNameLaunch(t, l);
    } else {
      LongNameLaunch(t, l);
    }
  }

  /** The empty name, which a boot path ending in a separator gives, finds every
      blank slot and counts a launch for each; on a full table it is written
      into a record, unless all are used up. */
  lemma EmptyNameLaunch(t: Table, l: Launch)
    requires TableOk(t) && LaunchOk(t, l) && l.name == ""
    ensures Known(t, "") ==> forall i :: 0 <= i < MAX_ENTRIES ==>
      AddRecord(t, l)[i] == if t[i].name == "" then Entry("", 1, 0, 0, l.now) else t[i]
    ensures TableOk(AddRecord(t, l)) <==> Saturated(t)
  {
    hide AddRecord, Relaunched, Matches;
    forall i | 0 <= i < MAX_ENTRIES ensures Matches(t[i].name, "") <==> t[i].name == "" {
      MatchesShort(t[i].name, "");
    }
    if Known(t, "") {
      var b :| 0 <= b < MAX_ENTRIES && Matches(t[b].name, "");
      AddKnown(t, l);
      BlankRelaunched(t, l);
      assert !EntryOk(AddRecord(t, l)[b]) && !UsedUp(t[b]);
    } else {
      AddUnknown(t, l);
      if !Saturated(t) {
        assert !EntryOk(AddRecord(t, l)[NewSlot(t, l.draw)]);
      }
    }
  }

  lemma AddKnown(t: Table, l: Launch)
    requires |l.picks| == MAX_ENTRIES && Known(t, l.name)
    ensures AddRecord(t, l) == RelaunchAll(t, l)
  {}

  lemma AddUnknown(t: Table, l: Launch)
    requires |l.picks| == MAX_ENTRIES && !Known(t, l.name)
    ensures AddRecord(t, l) ==
            if Saturated(t) then t else t[NewSlot(t, l.draw) := Entry(StoredName(l.name), 1, 1, 0, l.now)]
  {}

  lemma BlankRelaunched(t: Table, l: Launch)
    requires LaunchOk(t, l)
    ensures forall i :: 0 <= i < MAX_ENTRIES && t[i] == BLANK ==>
      Relaunched(t[i], l.now, l.picks[i]) == Entry("", 1, 0, 0, l.now)
  {}

  lemma LongNameLaunch(t: Table, l: Launch)
    requires TableOk(t) && LaunchOk(t, l) && |l.name| >= NAME_SIZE
    ensures TableOk(AddRecord(t, l)) <==>
            Saturated(t) ||
            forall j :: 0 <= j < MAX_ENTRIES && j != NewSlot(t, l.draw) ==> t[j].name != StoredName(l.name)
  {
    hide AddRecord, NewSlot, Relaunched;
    forall i | 0 <= i < MAX_ENTRIES ensures !Matches(t[i].name, l.name) {
      LongMatchesNone(t[i].name, l.name);
    }
    AddUnknown(t, l);
    var r, slot := AddRecord(t, l), NewSlot(t, l.draw);
    if !Saturated(t) {
      assert r[slot].name == StoredName(l.name) != "" && BitCount(1) == 1;
      if j :| 0 <= j < MAX_ENTRIES && j != slot && t[j].name == StoredName(l.name) {
        assert r[j].name == r[slot].name;
      }
    }
  }

  lemma LongMatchesNone(stored: string, name: string)
    requires |stored| < NAME_SIZE <= |name|
    ensures !Matches(stored, name)
  {}

  /** A record is found again under the name it was made for exactly when that
      name has at most 15 characters; a longer one makes a new record at every launch. */
  lemma FoundAgainIff(name: string)
    ensures Matches(StoredName(name), name) <==> |name| < NAME_SIZE
  {
    if |name| >= NAME_SIZE {
      assert |First(StoredName(name), NAME_SIZE)| == NAME_SIZE - 1;
    }
  }

  /** Launching a game with a longer name twice leaves two records with one name. */
  lemma LongNameDuplicates(name: string, l1: Launch, l2: Launch)
    requires |name| >= NAME_SIZE && l1.name == name == l2.name
    requires |l1.picks| == MAX_ENTRIES && |l2.picks| == MAX_ENTRIES
    ensures !UniqueNames(AddRecord(AddRecord(EMPTY, l1), l2))
  {
    var t1 := AddRecord(EMPTY, l1);
    var i := NewSlot(EMPTY, l1.draw);
    FoundAgainIff(name);
    assert forall k :: 0 <= k < MAX_ENTRIES ==> EMPTY[k] == BLANK && !UsedUp(EMPTY[k]);
    assert t1 == EMPTY[i := Entry(StoredName(name), 1, 1, 0, l1.now)];
    var other := if i == 0 then 1 else 0;
    assert t1[other] == BLANK;
    assert forall k :: 0 <= k < MAX_ENTRIES ==> !UsedUp(t1[k]) && !Matches(t1[k].name, name);
    var j := NewSlot(t1, l2.draw);
    var t2 := AddRecord(t1, l2);
    assert t2 == t1[j := Entry(StoredName(name), 1, 1, 0, l2.now)];
    assert BlankSlots(t1, MAX_ENTRIES) != [] && t1[j].name == "";
    assert t2[i].name == t2[j].name && i != j && t2[i].name != "";
  }

  // ----- The update in place -----

  /** Launches game `name` on the date `now`; `l` records what the random draws gave. */
  method AddHistoryRecord(entries: array<Entry>, name: string, now: nat, draw: nat) returns (ghost l: Launch)
    requires entries.Length == MAX_ENTRIES
    modifies entries
    ensures l.name == name && l.now == now && l.draw == draw && LaunchOk(old(entries[..]), l)
    ensures entries[..] == AddRecord(old(entries[..]), l)
  {
    hide Relaunched, PickOk, Matches, First, StoredName;
    ghost var before: Table := entries[..];
    ghost var picks: seq<nat> := [];
    var v := Victim(0, INT_MAX, INT_MAX);
    var isNewRecord := true;
    for i := 0 to MAX_ENTRIES
      invariant v == LeastUsed(before, i)
      invariant Scanned(before, entries[..], name, now, picks, i)
      invariant isNewRecord <==> forall k :: 0 <= k < i ==> !Matches(before[k].name, name)
    {
      var e := entries[i];
      if e.launchCount < v.launchCount {
        v := v.(record := i, launchCount := e.launchCount);
      }
      if v.launchCount == e.launchCount {
        if e.dateStamp < v.timestamp {
          v := v.(timestamp := e.dateStamp, record := i);
        }
      }
      var value: nat := 0;
      if Matches(e.name, name) {
        isNewRecord := false;
        var r;
        r, value := RelaunchEntry(e, now);
        entries[i] := r;
      }
      picks := picks + [value];
    }
    l := Launch(name, now, picks, draw);
    assert entries[..] == RelaunchAll(before, l);
    if isNewRecord {
      assert entries[..] == before;
      InsertRecord(entries, name, now, draw, v);
    }
  }

  /** The scan has updated the first `i` records. */
  ghost predicate Scanned(before: Table, t: seq<Entry>, name: string, now: nat, picks: seq<nat>, i: nat)
    requires i <= MAX_ENTRIES
  {
    && |picks| == i && |t| == MAX_ENTRIES
    && (forall k :: i <= k < MAX_ENTRIES ==> t[k] == before[k])
    && (forall k :: 0 <= k < i && !Matches(before[k].name, name) ==> t[k] == before[k])
    && (forall k :: 0 <= k < i && Matches(before[k].name, name) ==>
          t[k] == Relaunched(before[k], now, picks[k]) && PickOk(before[k], picks[k]))
  }

  method RelaunchEntry(e: Entry, now: nat) returns (r: Entry, value: nat)
    ensures PickOk(e, value) && r == Relaunched(e, now, value)
  {
    hide Bit;
    value := 0;
    r := e.(dateStamp := now);
    if e.bitmask & 0x3F != 0x3F {
      var newLaunchCount := e.launchCount + 1;
      if newLaunchCount >= 0x80 {
        newLaunchCount := 0x7F;
      }
      if newLaunchCount >= 14 {
        if (newLaunchCount - 14) % 10 == 0 {
          // the draws are rejected until one hits a free bit
          ghost var witness_ := FreeBitExists(e.bitmask);
          var drawn: nat :| drawn < 6 && IsFree(e.bitmask, drawn);
          value := drawn;
          r := r.(shiftAmount := value, bitmask := e.bitmask | Bit(value));
        }
      }
      r := r.(launchCount := newLaunchCount);
    } else {
      if e.launchCount < 0x3F {
        r := r.(launchCount := e.launchCount + 1);
      } else {
        r := r.(launchCount := (e.bitmask & 0x3F) as nat, shiftAmount := 7);
      }
    }
  }

  method InsertRecord(entries: array<Entry>, name: string, now: nat, draw: nat, v: Victim)
    requires entries.Length == MAX_ENTRIES && v == LeastUsed(entries[..], MAX_ENTRIES)
    modifies entries
    ensures entries[..] ==
      if CountUsedUp(old(entries[..]), MAX_ENTRIES) == MAX_ENTRIES then old(entries[..])
      else old(entries[..])[NewSlot(old(entries[..]), draw) := Entry(StoredName(name), 1, 1, 0, now)]
  {
    ghost var before: Table := entries[..];
    var blankSlotList: seq<nat> := [];
    var numSlotsUsed := 0;
    for i := 0 to MAX_ENTRIES
      invariant blankSlotList == BlankSlots(before, i) && numSlotsUsed == CountUsedUp(before, i)
      invariant entries[..] == before
    {
      assert entries[i] == before[i];
      if entries[i].name == "" {
        blankSlotList := blankSlotList + [i];
      } else {
        if entries[i].shiftAmount == 7 {
          numSlotsUsed := numSlotsUsed + 1;
        }
      }
    }
    if numSlotsUsed != MAX_ENTRIES {
      var slot := if |blankSlotList| > 0 then blankSlotList[draw % |blankSlotList|] else v.record;
      entries[slot] := Entry(StoredName(name), 1, 1, 0, now);
    }
  }
}
