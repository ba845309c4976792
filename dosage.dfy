/**
 * The seven-day pill planner (frontend/src/components/DosageTimeline.jsx):
 * which of the four daily slots a medicine occupies, which medicines are
 * scheduled, and which (slot, day) cells show a dot for which medicine. The
 * JSX rendering itself is not modelled.
 */
module Dosage {
  import opened Wrappers
  import opened Matching

  const Days: nat := 7
  const Slots: nat := 4

  /** `Number(freqPerDay) || 1`: a missing or zero frequency counts as once a day. */
  function FrequencyOrOne(freq: Option<real>): (f: real)
    ensures f != 0.0
    ensures freq.None? || freq == Some(0.0) ==> f == 1.0
    ensures freq.Some? && freq.value != 0.0 ==> f == freq.value
  {
    if freq.None? || freq == Some(0.0) then 1.0 else freq.value
  }

  /** `toSlots` (lines 11-17): Morning 0, Afternoon 1, Evening 2, Night 3. */
  function ToSlots(freq: Option<real>): (slots: seq<nat>)
    ensures 0 < |slots| <= Slots && slots[0] == 0
    ensures forall i :: 0 <= i < |slots| ==> slots[i] < Slots
    ensures forall i, j :: 0 <= i < j < |slots| ==> slots[i] < slots[j]
  {
    var f := FrequencyOrOne(freq);
    if f >= 4.0 then [0, 1, 2, 3]
    else if f == 3.0 then [0, 1, 3]
    else if f == 2.0 then [0, 3]
    else [0]
  }

  /** Four or more doses fill every slot, three skip the evening, two take morning and night, anything else the morning. */
  lemma SlotsByFrequency(freq: Option<real>)
    ensures freq.Some? && freq.value >= 4.0 ==> ToSlots(freq) == [0, 1, 2, 3]
    ensures freq == Some(3.0) ==> ToSlots(freq) == [0, 1, 3]
    ensures freq == Some(2.0) ==> ToSlots(freq) == [0, 3]
    ensures freq.None? || (freq.value < 4.0 && freq.value != 3.0 && freq.value != 2.0) ==> ToSlots(freq) == [0]
    ensures |ToSlots(freq)| == 1 <==> (freq.None? || (freq.value < 4.0 && freq.value != 3.0 && freq.value != 2.0))
  {
  }

  /** One colour of the palette (lines 19-28). */
  datatype Colour = Colour(bg: string, dot: string, text: string)

  const Palette: seq<Colour> := [
    Colour("rgba(0,200,168,0.15)", "#00c8a8", "#34d9bc"),
    Colour("rgba(129,140,248,0.15)", "#818cf8", "#a5b4fc"),
    Colour("rgba(56,189,248,0.15)", "#38bdf8", "#7dd3fc"),
    Colour("rgba(245,158,11,0.15)", "#f59e0b", "#fbbf24"),
    Colour("rgba(244,63,94,0.15)", "#f43f5e", "#fb7185"),
    Colour("rgba(167,139,250,0.15)", "#a78bfa", "#c4b5fd"),
    Colour("rgba(52,211,153,0.15)", "#34d399", "#6ee7b7"),
    Colour("rgba(251,146,60,0.15)", "#fb923c", "#fdba74")]

  /** One row of `scheduleMeds`. */
  datatype ScheduledMedicine = ScheduledMedicine(
    name: string,
    strength: string,
    freq: real,
    duration: real,
    slots: seq<nat>,
    colour: Colour)

  /** The matched medicines, in input order. */
  function Matched(medicines: seq<ExtractionResult>): (r: seq<ExtractionResult>)
    ensures |r| <= |medicines|
    ensures forall k :: 0 <= k < |r| ==> r[k].matchedMedicine.Some?
    ensures |medicines| == 1 ==> r == if medicines[0].matchedMedicine.Some? then medicines else []
    decreases |medicines|
  {
    if medicines == [] then []
    else
      var rest := Matched(medicines[..|medicines| - 1]);
      var last := medicines[|medicines| - 1];
      if last.matchedMedicine.Some? then rest + [last] else rest
  }

  /**
   * The filter keeps input order and multiplicity, on which the palette
   * colour by position depends: filtering a concatenation concatenates the
   * filtered halves.
   */
  lemma {:induction false} MatchedAppend(a: seq<ExtractionResult>, b: seq<ExtractionResult>)
    ensures Matched(a + b) == Matched(a) + Matched(b)
    decreases |b|
  {
    if b == [] {
      assert a + b == a;
    } else {
      var init := b[..|b| - 1];
      assert (a + b)[..|a + b| - 1] == a + init && (a + b)[|a + b| - 1] == b[|b| - 1];
      MatchedAppend(a, init);
    }
  }

  /** Exactly the matched medicines are kept, in input order. */
  lemma {:induction false} MatchedIsFilter(medicines: seq<ExtractionResult>)
    ensures forall m :: m in Matched(medicines) <==> m in medicines && m.matchedMedicine.Some?
    ensures Matched(medicines) == [] <==> forall k :: 0 <= k < |medicines| ==> medicines[k].matchedMedicine.None?
    decreases |medicines|
  {
    if medicines != [] {
      var init := medicines[..|medicines| - 1];
      MatchedIsFilter(init);
      assert medicines == init + [medicines[|medicines| - 1]];
    }
  }

  /** The schedule row of the `i`-th matched medicine (lines 34-41). */
  function Row(m: ExtractionResult, i: nat): ScheduledMedicine
    requires m.matchedMedicine.Some?
  {
    var d := m.structuredData;
    ScheduledMedicine(
      d.brandName,
      m.matchedMedicine.value.strength,
      FrequencyOrOne(d.frequencyPerDay),
      if d.durationDays.None? || d.durationDays == Some(0.0) then 7.0 else d.durationDays.value,
      ToSlots(d.frequencyPerDay),
      Palette[i % |Palette|])
  }

  /** `scheduleMeds`. */
  function Schedule(medicines: seq<ExtractionResult>): (s: seq<ScheduledMedicine>)
    ensures |s| == |Matched(medicines)|
  {
    var matched := Matched(medicines);
    seq(|matched|, i requires 0 <= i < |matched| => Row(matched[i], i))
  }

  /**
   * Each row comes from the matched medicine at the same position: the
   * frequency defaults to 1, the duration to 7 days, and the colour cycles
   * through the eight palette entries.
   */
  lemma ScheduleRows(medicines: seq<ExtractionResult>, i: nat)
    requires i < |Schedule(medicines)|
    ensures Schedule(medicines)[i].name == Matched(medicines)[i].structuredData.brandName
    ensures Schedule(medicines)[i].colour == Palette[i % 8]
    ensures Schedule(medicines)[i].duration ==
      var days := Matched(medicines)[i].structuredData.durationDays;
      if days.None? || days == Some(0.0) then 7.0 else days.value
    ensures Schedule(medicines)[i].freq ==
      var freq := Matched(medicines)[i].structuredData.frequencyPerDay;
      if freq.None? || freq == Some(0.0) then 1.0 else freq.value
    ensures Schedule(medicines)[i].slots == ToSlots(Matched(medicines)[i].structuredData.frequencyPerDay)
  {
  }

  /** Nothing is rendered when no medicine is matched (line 43). */
  function Planner(medicines: seq<ExtractionResult>): (r: Option<seq<ScheduledMedicine>>)
    ensures r.None? <==> forall k :: 0 <= k < |medicines| ==> medicines[k].matchedMedicine.None?
  {
    MatchedIsFilter(medicines);
    var s := Schedule(medicines);
    if |s| == 0 then None else Some(s)
  }

  /** `scheduleMeds.filter(m => m.slots.includes(slotIdx))` (line 110). */
  function Active(schedule: seq<ScheduledMedicine>, slot: nat): (r: seq<ScheduledMedicine>)
    ensures |r| <= |schedule|
    ensures |schedule| == 1 ==> r == if slot in schedule[0].slots then schedule else []
    decreases |schedule|
  {
    if schedule == [] then []
    else
      var rest := Active(schedule[..|schedule| - 1], slot);
      var last := schedule[|schedule| - 1];
      if slot in last.slots then rest + [last] else rest
  }

  lemma {:induction false} ActiveIsFilter(schedule: seq<ScheduledMedicine>, slot: nat)
    ensures forall m :: m in Active(schedule, slot) <==> m in schedule && slot in m.slots
    decreases |schedule|
  {
    if schedule != [] {
      var init := schedule[..|schedule| - 1];
      ActiveIsFilter(init, slot);
      assert schedule == init + [schedule[|schedule| - 1]];
    }
  }

  /**
   * A slot row keeps the schedule's order, and so each medicine's colour:
   * filtering a concatenation concatenates the filtered halves.
   */
  lemma {:induction false} ActiveAppend(a: seq<ScheduledMedicine>, b: seq<ScheduledMedicine>, slot: nat)
    ensures Active(a + b, slot) == Active(a, slot) + Active(b, slot)
    decreases |b|
  {
    if b == [] {
      assert a + b == a;
    } else {
      var init := b[..|b| - 1];
      assert (a + b)[..|a + b| - 1] == a + init && (a + b)[|a + b| - 1] == b[|b| - 1];
      ActiveAppend(a, init, slot);
    }
  }

  /** The cell at (`slot`, `day`): for each active medicine, in order, whether it draws a dot (lines 136-137). */
  function CellMarks(schedule: seq<ScheduledMedicine>, slot: nat, day: nat): (marks: seq<bool>)
    ensures |marks| == |Active(schedule, slot)|
  {
    var active := Active(schedule, slot);
    seq(|active|, k requires 0 <= k < |active| => day as real < active[k].duration)
  }

  /** A scheduled medicine has a dot in a cell exactly when it takes that slot and the day is within its duration. */
  lemma DotIff(schedule: seq<ScheduledMedicine>, slot: nat, day: nat, m: ScheduledMedicine)
    requires m in schedule
    ensures (exists k :: 0 <= k < |Active(schedule, slot)| && Active(schedule, slot)[k] == m && CellMarks(schedule, slot, day)[k])
      <==> slot in m.slots && (day as real) < m.duration
  {
    ActiveIsFilter(schedule, slot);
    var active := Active(schedule, slot);
    if slot in m.slots && (day as real) < m.duration {
      var k :| 0 <= k < |active| && active[k] == m;
      assert CellMarks(schedule, slot, day)[k];
    }
  }
}
