/**
 * Per-feed tallies: each feed's booking records are folded into a map from
 * slot text to the number of records booked on the target day.
 */
module Tally {
  import opened Wrappers
  import opened Calendar

  /** A booking record as both feeds return it: date text "dd/mm/yyyy" and slot text. */
  datatype Horario = Horario(data: string, horario: string)

  /** Reading a Go `map[string]int`: a missing key reads as 0. */
  function Lookup(m: map<string, int>, key: string): int {
    if key in m then m[key] else 0
  }

  /** The record's date text parses to `day`. */
  predicate OnDay(record: Horario, day: Date) {
    ParseDate(record.data) == Some(day)
  }

  /** Number of records booked on `day` whose slot text is `slot`. */
  function Count(records: seq<Horario>, day: Date, slot: string): nat {
    if records == [] then 0
    else
      var last := records[|records| - 1];
      Count(records[..|records| - 1], day, slot)
      + (if OnDay(last, day) && last.horario == slot then 1 else 0)
  }

  /** Every record's date text parses as "dd/mm/yyyy". */
  predicate DatesParse(records: seq<Horario>) {
    forall i :: 0 <= i < |records| ==> ParseDate(records[i].data).Some?
  }

  /**
   * The two `for range` loops of the GET branch: one record whose date does
   * not parse aborts the request; otherwise every record on the target day
   * adds one to its slot, whatever the slot text is.
   */
  method TallyFeed(records: seq<Horario>, day: Date) returns (r: Option<map<string, int>>)
    ensures r.None? <==> !DatesParse(records)
    ensures r.Some? ==> forall slot :: Lookup(r.value, slot) == Count(records, day, slot)
    ensures r.Some? ==> forall slot :: slot in r.value <==> Count(records, day, slot) > 0
  {
    var tally: map<string, int> := map[];
    for i := 0 to |records|
      invariant DatesParse(records[..i])
      invariant forall slot :: Lookup(tally, slot) == Count(records[..i], day, slot)
      invariant forall slot :: slot in tally <==> Count(records[..i], day, slot) > 0
    {
      assert records[..i + 1][..i] == records[..i];
      var parsed := ParseDate(records[i].data);
      if parsed.None? {
        assert !DatesParse(records);
        return None;
      }
      if parsed.value == day {
        var slot := records[i].horario;
        tally := tally[slot := Lookup(tally, slot) + 1];
      }
    }
    assert records[..|records|] == records;
    return Some(tally);
  }

  /** Tallies add up over concatenated record lists. */
  lemma {:induction false} CountConcat(a: seq<Horario>, b: seq<Horario>, day: Date, slot: string)
    ensures Count(a + b, day, slot) == Count(a, day, slot) + Count(b, day, slot)
  {
    if b == [] {
      assert a + b == a;
    } else {
      var b' := b[..|b| - 1];
      assert (a + b)[..|a + b| - 1] == a + b';
      CountConcat(a, b', day, slot);
    }
  }

  /** Records booked on other days contribute nothing to the tally. */
  lemma {:induction false} CountOtherDays(records: seq<Horario>, others: seq<Horario>, day: Date, slot: string)
    requires forall i :: 0 <= i < |others| ==> !OnDay(others[i], day)
    ensures Count(records + others, day, slot) == Count(records, day, slot)
  {
    CountConcat(records, others, day, slot);
    NoneOnDay(others, day, slot);
  }

  lemma {:induction false} NoneOnDay(others: seq<Horario>, day: Date, slot: string)
    requires forall i :: 0 <= i < |others| ==> !OnDay(others[i], day)
    ensures Count(others, day, slot) == 0
  {
    if others != [] {
      NoneOnDay(others[..|others| - 1], day, slot);
    }
  }
}
