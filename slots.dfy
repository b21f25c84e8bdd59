/**
 * The availability decision of the GET branch: the fixed working slots, the
 * clamp of the primary tally, the two logged counters, the decision rule and
 * the ordered day listing.
 */
module Slots {
  import opened Text
  import opened Calendar
  import opened Tally

  /** `horariosTrabalho`: the nineteen half-hour slots from 07:30 to 16:30. */
  const WorkSlots: seq<string> := [
    "07:30", "08:00", "08:30", "09:00", "09:30", "10:00", "10:30", "11:00", "11:30", "12:00",
    "12:30", "13:00", "13:30", "14:00", "14:30", "15:00", "15:30", "16:00", "16:30"]

  /** Minutes after midnight at which working slot `i` starts: 07:30 plus `i` half hours. */
  function SlotStart(i: int): int {
    450 + 30 * i
  }

  /** Slot `i` is the "15:04" text of its start time. */
  lemma WorkSlotClock(i: int)
    requires 0 <= i < |WorkSlots|
    ensures 0 <= SlotStart(i) / 60 < 24
    ensures WorkSlots[i] == ClockText(SlotStart(i) / 60, SlotStart(i) % 60)
  {
    if i < 6 {
      EarlySlotClock(i);
    } else if i < 12 {
      MiddaySlotClock(i);
    } else {
      LateSlotClock(i);
    }
  }

  /** The slots from 07:30 to 10:00. */
  lemma EarlySlotClock(i: int)
    requires 0 <= i < 6
    ensures WorkSlots[i] == ClockText(SlotStart(i) / 60, SlotStart(i) % 60)
  {
    var h, m := SlotStart(i) / 60, SlotStart(i) % 60;
    ClockChars(h, m);
    DigitChars();
    if i == 0 { assert h == 7 && m == 30; }
    else if i == 1 { assert h == 8 && m == 0; }
    else if i == 2 { assert h == 8 && m == 30; }
    else if i == 3 { assert h == 9 && m == 0; }
    else if i == 4 { assert h == 9 && m == 30; }
    else { assert h == 10 && m == 0; }
  }

  /** The slots from 10:30 to 13:00. */
  lemma MiddaySlotClock(i: int)
    requires 6 <= i < 12
    ensures WorkSlots[i] == ClockText(SlotStart(i) / 60, SlotStart(i) % 60)
  {
    var h, m := SlotStart(i) / 60, SlotStart(i) % 60;
    ClockChars(h, m);
    DigitChars();
    if i == 6 { assert h == 10 && m == 30; }
    else if i == 7 { assert h == 11 && m == 0; }
    else if i == 8 { assert h == 11 && m == 30; }
    else if i == 9 { assert h == 12 && m == 0; }
    else if i == 10 { assert h == 12 && m == 30; }
    else { assert h == 13 && m == 0; }
  }

  /** The slots from 13:30 to 16:30. */
  lemma LateSlotClock(i: int)
    requires 12 <= i < 19
    ensures WorkSlots[i] == ClockText(SlotStart(i) / 60, SlotStart(i) % 60)
  {
    var h, m := SlotStart(i) / 60, SlotStart(i) % 60;
    ClockChars(h, m);
    DigitChars();
    if i == 12 { assert h == 13 && m == 30; }
    else if i == 13 { assert h == 14 && m == 0; }
    else if i == 14 { assert h == 14 && m == 30; }
    else if i == 15 { assert h == 15 && m == 0; }
    else if i == 16 { assert h == 15 && m == 30; }
    else if i == 17 { assert h == 16 && m == 0; }
    else { assert h == 16 && m == 30; }
  }

  /** The working slots are in strictly increasing time order, hence as strings too. */
  lemma WorkSlotsSorted(j: int, k: int)
    requires 0 <= j < k < |WorkSlots|
    ensures LexLt(WorkSlots[j], WorkSlots[k])
  {
    WorkSlotClock(j);
    WorkSlotClock(k);
    ClockTextOrder(SlotStart(k) / 60, SlotStart(k) % 60, SlotStart(j) / 60, SlotStart(j) % 60);
  }

  /**
   * The elapsed filter on today's listing skips working slot `i` exactly when
   * the slot starts at or before the current minute.
   */
  lemma ElapsedMeansStarted(i: int, hour: int, minute: int)
    requires 0 <= i < |WorkSlots| && 0 <= hour < 24 && 0 <= minute < 60
    ensures LexLe(WorkSlots[i], ClockText(hour, minute)) <==> SlotStart(i) <= 60 * hour + minute
  {
    WorkSlotClock(i);
    ClockTextOrder(SlotStart(i) / 60, SlotStart(i) % 60, hour, minute);
  }

  /**
   * The decision rule: a slot is open when its primary tally is positive
   * (zero primary bookings means closed) and its Proteger tally is 2 or 3.
   */
  predicate SlotOpen(primary: map<string, int>, proteger: map<string, int>, slot: string) {
    Lookup(primary, slot) > 0 && (Lookup(proteger, slot) == 2 || Lookup(proteger, slot) == 3)
  }

  /** Skipped as already past: the day is today and the slot text is `<=` the current "15:04" text. */
  predicate Elapsed(isToday: bool, now: string, slot: string) {
    isToday && LexLe(slot, now)
  }

  predicate Listed(isToday: bool, now: string, primary: map<string, int>, proteger: map<string, int>, slot: string) {
    !Elapsed(isToday, now, slot) && SlotOpen(primary, proteger, slot)
  }

  /** The day listing over a list of slots: the listed ones, in list order, each dated `dayText`. */
  function Listing(slots: seq<string>, dayText: string, isToday: bool, now: string,
                   primary: map<string, int>, proteger: map<string, int>): seq<Horario>
  {
    if slots == [] then []
    else
      var last := slots[|slots| - 1];
      Listing(slots[..|slots| - 1], dayText, isToday, now, primary, proteger)
      + (if Listed(isToday, now, primary, proteger, last) then [Horario(dayText, last)] else [])
  }

  function SlotTexts(listing: seq<Horario>): seq<string> {
    seq(|listing|, i requires 0 <= i < |listing| => listing[i].horario)
  }

  /** Listing over a longer list: the listing over its prefix, then possibly the last slot. */
  lemma ListingStep(slots: seq<string>, dayText: string, isToday: bool, now: string,
                    primary: map<string, int>, proteger: map<string, int>)
    requires slots != []
    ensures var l0 := Listing(slots[..|slots| - 1], dayText, isToday, now, primary, proteger);
      var l := Listing(slots, dayText, isToday, now, primary, proteger);
      var last := slots[|slots| - 1];
      |l| >= |l0| && l[..|l0|] == l0
      && (forall k :: 0 <= k < |l0| ==> l[k] == l0[k])
      && (Listed(isToday, now, primary, proteger, last) ==> |l| == |l0| + 1 && l[|l0|] == Horario(dayText, last))
      && (!Listed(isToday, now, primary, proteger, last) ==> l == l0)
  {
  }

  /** Only listed slots of the list appear, each with the requested day. */
  lemma {:induction false} ListingSound(slots: seq<string>, dayText: string, isToday: bool, now: string,
                                        primary: map<string, int>, proteger: map<string, int>, k: int)
    requires 0 <= k < |Listing(slots, dayText, isToday, now, primary, proteger)|
    ensures var entry := Listing(slots, dayText, isToday, now, primary, proteger)[k];
      entry.data == dayText && entry.horario in slots && Listed(isToday, now, primary, proteger, entry.horario)
  {
    var init := slots[..|slots| - 1];
    ListingStep(slots, dayText, isToday, now, primary, proteger);
    var l0 := Listing(init, dayText, isToday, now, primary, proteger);
    if k < |l0| {
      ListingSound(init, dayText, isToday, now, primary, proteger, k);
      var x := l0[k].horario;
      var j :| 0 <= j < |init| && init[j] == x;
      assert slots[j] == x;
    }
  }

  /** Every listed slot of the list appears. */
  lemma {:induction false} ListingComplete(slots: seq<string>, dayText: string, isToday: bool, now: string,
                                           primary: map<string, int>, proteger: map<string, int>, s: string)
    requires s in slots && Listed(isToday, now, primary, proteger, s)
    ensures s in SlotTexts(Listing(slots, dayText, isToday, now, primary, proteger))
  {
    var init := slots[..|slots| - 1];
    ListingStep(slots, dayText, isToday, now, primary, proteger);
    var l0 := Listing(init, dayText, isToday, now, primary, proteger);
    var l := Listing(slots, dayText, isToday, now, primary, proteger);
    if s == slots[|slots| - 1] {
      assert SlotTexts(l)[|l0|] == s;
    } else {
      var j :| 0 <= j < |slots| && slots[j] == s;
      assert init[j] == s;
      ListingComplete(init, dayText, isToday, now, primary, proteger, s);
      var k :| 0 <= k < |l0| && SlotTexts(l0)[k] == s;
      assert SlotTexts(l)[k] == s;
    }
  }

  /** A list of slots in strictly increasing order yields a listing in strictly increasing order. */
  lemma {:induction false} ListingSorted(slots: seq<string>, dayText: string, isToday: bool, now: string,
                                         primary: map<string, int>, proteger: map<string, int>)
    requires forall j, k :: 0 <= j < k < |slots| ==> LexLt(slots[j], slots[k])
    ensures forall j, k :: 0 <= j < k < |Listing(slots, dayText, isToday, now, primary, proteger)| ==>
      LexLt(Listing(slots, dayText, isToday, now, primary, proteger)[j].horario,
            Listing(slots, dayText, isToday, now, primary, proteger)[k].horario)
  {
    if slots != [] {
      var init := slots[..|slots| - 1];
      var last := slots[|slots| - 1];
      ListingSorted(init, dayText, isToday, now, primary, proteger);
      ListingStep(slots, dayText, isToday, now, primary, proteger);
      var l0 := Listing(init, dayText, isToday, now, primary, proteger);
      var l := Listing(slots, dayText, isToday, now, primary, proteger);
      forall j, k | 0 <= j < k < |l|
        ensures LexLt(l[j].horario, l[k].horario)
      {
        if k >= |l0| {
          ListingSound(init, dayText, isToday, now, primary, proteger, j);
          var i :| 0 <= i < |init| && init[i] == l0[j].horario;
          assert slots[i] == l[j].horario;
        }
      }
    }
  }

  lemma {:induction false} LexLeReflexive(s: string)
    ensures LexLe(s, s)
  {
    if s != [] {
      LexLeReflexive(s[1..]);
    }
  }

  /**
   * The slot loop of the GET branch without `hora`: walk the working slots in
   * order, skip the elapsed ones when the day is today, append the open ones.
   * The result lists each working slot that is neither elapsed nor closed,
   * dated `dayText`, in strictly increasing slot order and so without repeats.
   */
  method ListOpenSlots(dayText: string, isToday: bool, now: string,
                       primary: map<string, int>, proteger: map<string, int>)
    returns (open: seq<Horario>)
    ensures open == Listing(WorkSlots, dayText, isToday, now, primary, proteger)
    ensures forall k :: 0 <= k < |open| ==>
      open[k].data == dayText && open[k].horario in WorkSlots
      && !Elapsed(isToday, now, open[k].horario) && SlotOpen(primary, proteger, open[k].horario)
    ensures forall s :: s in WorkSlots && !Elapsed(isToday, now, s) && SlotOpen(primary, proteger, s) ==>
      s in SlotTexts(open)
    ensures forall j, k :: 0 <= j < k < |open| ==> LexLt(open[j].horario, open[k].horario)
    ensures forall j, k :: 0 <= j < k < |open| ==> open[j] != open[k]
  {
    open := [];
    for i := 0 to |WorkSlots|
      invariant open == Listing(WorkSlots[..i], dayText, isToday, now, primary, proteger)
    {
      assert WorkSlots[..i + 1][..i] == WorkSlots[..i];
      var slot := WorkSlots[i];
      if isToday && LexLe(slot, now) {
        continue;
      }
      if SlotOpen(primary, proteger, slot) {
        open := open + [Horario(dayText, slot)];
      }
    }
    assert WorkSlots[..|WorkSlots|] == WorkSlots;
    ListingFacts(dayText, isToday, now, primary, proteger);
  }

  /**
   * The day listing over the working slots holds exactly the open, non-elapsed
   * working slots, each dated `dayText`, in strictly increasing order.
   */
  lemma ListingFacts(dayText: string, isToday: bool, now: string,
                     primary: map<string, int>, proteger: map<string, int>)
    ensures var open := Listing(WorkSlots, dayText, isToday, now, primary, proteger);
      (forall k :: 0 <= k < |open| ==>
        open[k].data == dayText && open[k].horario in WorkSlots
        && !Elapsed(isToday, now, open[k].horario) && SlotOpen(primary, proteger, open[k].horario))
      && (forall s :: s in WorkSlots && !Elapsed(isToday, now, s) && SlotOpen(primary, proteger, s) ==>
            s in SlotTexts(open))
      && (forall j, k :: 0 <= j < k < |open| ==> LexLt(open[j].horario, open[k].horario))
      && (forall j, k :: 0 <= j < k < |open| ==> open[j] != open[k])
  {
    var open := Listing(WorkSlots, dayText, isToday, now, primary, proteger);
    forall k | 0 <= k < |open|
      ensures open[k].data == dayText && open[k].horario in WorkSlots
      ensures Listed(isToday, now, primary, proteger, open[k].horario)
    {
      ListingSound(WorkSlots, dayText, isToday, now, primary, proteger, k);
    }
    forall s | s in WorkSlots && Listed(isToday, now, primary, proteger, s)
      ensures s in SlotTexts(open)
    {
      ListingComplete(WorkSlots, dayText, isToday, now, primary, proteger, s);
    }
    forall j, k | 0 <= j < k < |WorkSlots|
      ensures LexLt(WorkSlots[j], WorkSlots[k])
    {
      WorkSlotsSorted(j, k);
    }
    ListingSorted(WorkSlots, dayText, isToday, now, primary, proteger);
    forall j, k | 0 <= j < k < |open|
      ensures open[j] != open[k]
    {
      LexLeReflexive(open[j].horario);
    }
  }

  /** The primary tally is capped at 5 (`horariosLivres[h] = 5` when above). */
  function Clamp(n: int): int {
    if n > 5 then 5 else n
  }

  /** What one slot adds to the logged client total: its capped tally when that is 1 to 5. */
  function ClientShare(n: int): int {
    if 1 <= n <= 5 then n else 0
  }

  function ClientTotal(slots: seq<string>, primary: map<string, int>): int {
    if slots == [] then 0
    else ClientTotal(slots[..|slots| - 1], primary) + ClientShare(Clamp(Lookup(primary, slots[|slots| - 1])))
  }

  lemma {:induction false} ClientTotalBounds(slots: seq<string>, primary: map<string, int>)
    ensures 0 <= ClientTotal(slots, primary) <= 5 * |slots|
  {
    if slots != [] {
      ClientTotalBounds(slots[..|slots| - 1], primary);
    }
  }

  /** `clamped` is `primary` with the tallies of `slots` capped, and the rest as they were. */
  ghost predicate ClampedOn(slots: seq<string>, primary: map<string, int>, clamped: map<string, int>) {
    clamped.Keys == primary.Keys
    && forall s :: Lookup(clamped, s) == if s in slots then Clamp(Lookup(primary, s)) else Lookup(primary, s)
  }

  /** One more slot capped: the loop body keeps `ClampedOn` for the longer prefix. */
  lemma ClampStep(done: seq<string>, slot: string, primary: map<string, int>, clamped: map<string, int>)
    requires ClampedOn(done, primary, clamped)
    ensures ClampedOn(done + [slot], primary,
                      if Lookup(clamped, slot) > 5 then clamped[slot := 5] else clamped)
  {
    var next := if Lookup(clamped, slot) > 5 then clamped[slot := 5] else clamped;
    forall s
      ensures Lookup(next, s) == if s in done + [slot] then Clamp(Lookup(primary, s)) else Lookup(primary, s)
    {
      assert s in done + [slot] <==> s in done || s == slot;
    }
  }

  lemma ClampedAt(slots: seq<string>, primary: map<string, int>, clamped: map<string, int>, slot: string)
    requires ClampedOn(slots, primary, clamped) && slot in slots
    ensures Lookup(clamped, slot) == Clamp(Lookup(primary, slot))
  {
  }

  /** One turn of the clamp loop over `slots` keeps both loop invariants. */
  lemma ClampLoopStep(slots: seq<string>, i: int, primary: map<string, int>,
                      before: map<string, int>, clientsBefore: int)
    requires 0 <= i < |slots|
    requires ClampedOn(slots[..i], primary, before) && clientsBefore == ClientTotal(slots[..i], primary)
    ensures var slot := slots[i];
      var after := if Lookup(before, slot) > 5 then before[slot := 5] else before;
      var n := Lookup(after, slot);
      ClampedOn(slots[..i + 1], primary, after)
      && (if 1 <= n <= 5 then clientsBefore + n else clientsBefore) == ClientTotal(slots[..i + 1], primary)
  {
    var slot := slots[i];
    var after := if Lookup(before, slot) > 5 then before[slot := 5] else before;
    ClampStep(slots[..i], slot, primary, before);
    assert slots[..i + 1] == slots[..i] + [slot];
    ClampedAt(slots[..i + 1], primary, after, slot);
    assert slots[..i + 1][..i] == slots[..i];
  }

  /** What capping the working slots means for every tally and for every decision. */
  lemma ClampedFacts(primary: map<string, int>, clamped: map<string, int>)
    requires ClampedOn(WorkSlots, primary, clamped)
    ensures forall s :: s in WorkSlots ==> Lookup(clamped, s) == Clamp(Lookup(primary, s)) <= 5
    ensures forall s :: s !in WorkSlots ==> Lookup(clamped, s) == Lookup(primary, s)
    ensures forall s :: Lookup(clamped, s) != Lookup(primary, s) ==> Lookup(primary, s) > 5
    ensures forall s :: Lookup(clamped, s) > 0 <==> Lookup(primary, s) > 0
  {
  }

  /**
   * The clamp loop: every working slot's primary tally above 5 becomes 5, in
   * place; meanwhile the logged client total sums the capped tallies.  No key
   * appears or disappears, only tallies above 5 change, and whether a tally
   * is positive never changes, so no decision is affected.
   */
  method ClampPrimary(primary: map<string, int>) returns (clamped: map<string, int>, clients: int)
    ensures clamped.Keys == primary.Keys
    ensures forall s :: s in WorkSlots ==> Lookup(clamped, s) == Clamp(Lookup(primary, s)) <= 5
    ensures forall s :: s !in WorkSlots ==> Lookup(clamped, s) == Lookup(primary, s)
    ensures forall s :: Lookup(clamped, s) != Lookup(primary, s) ==> Lookup(primary, s) > 5
    ensures forall s :: Lookup(clamped, s) > 0 <==> Lookup(primary, s) > 0
    ensures clients == ClientTotal(WorkSlots, primary)
    ensures 0 <= clients <= 5 * |WorkSlots|
  {
    clamped, clients := primary, 0;
    for i := 0 to |WorkSlots|
      invariant ClampedOn(WorkSlots[..i], primary, clamped)
      invariant clients == ClientTotal(WorkSlots[..i], primary)
    {
      var slot := WorkSlots[i];
      ghost var before, clientsBefore := clamped, clients;
      if Lookup(clamped, slot) > 5 {
        clamped := clamped[slot := 5];
      }
      var n := Lookup(clamped, slot);
      if 1 <= n <= 5 {
        clients := clients + n;
      }
      ClampLoopStep(WorkSlots, i, primary, before, clientsBefore);
    }
    assert WorkSlots[..|WorkSlots|] == WorkSlots;
    ClampedFacts(primary, clamped);
    ClientTotalBounds(WorkSlots, primary);
  }

  /** Working slots whose Proteger tally is 2 or 3. */
  function TierCount(slots: seq<string>, proteger: map<string, int>): nat {
    if slots == [] then 0
    else
      var t := Lookup(proteger, slots[|slots| - 1]);
      TierCount(slots[..|slots| - 1], proteger) + (if t == 2 || t == 3 then 1 else 0)
  }

  lemma {:induction false} TierCountBound(slots: seq<string>, proteger: map<string, int>)
    ensures TierCount(slots, proteger) <= |slots|
  {
    if slots != [] {
      TierCountBound(slots[..|slots| - 1], proteger);
    }
  }

  /** The logged Proteger counter: one for each working slot whose Proteger tally is 3 or 2. */
  method CountProtegerOpen(proteger: map<string, int>) returns (n: int)
    ensures n == TierCount(WorkSlots, proteger)
    ensures 0 <= n <= |WorkSlots|
  {
    n := 0;
    for i := 0 to |WorkSlots|
      invariant n == TierCount(WorkSlots[..i], proteger)
    {
      assert WorkSlots[..i + 1][..i] == WorkSlots[..i];
      var t := Lookup(proteger, WorkSlots[i]);
      if t == 3 {
        n := n + 1;
      } else if t == 2 {
        n := n + 1;
      }
    }
    assert WorkSlots[..|WorkSlots|] == WorkSlots;
    TierCountBound(WorkSlots, proteger);
  }
}
