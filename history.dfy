/**
 * The scan history kept in the browser's local storage
 * (frontend/src/services/HistoryService.js): a list of at most 50 entries,
 * newest first, that can be read, prepended to, filtered by id and cleared.
 *
 * The storage slot is a field of `HistoryStore`. What `JSON.stringify`
 * writes and `JSON.parse` reads back are the same entries, so the slot holds
 * either nothing, the entries, or text that does not parse; a stored list
 * whose elements are not entries is not modelled. A storage call
 * that throws is the `fails` parameter of the operation. The entry id and
 * timestamp come from the clock and a random number, and are parameters.
 */
module History {
  import opened Wrappers
  import opened Matching
  import opened OcrPolicy

  const MaxHistory: nat := 50

  /** The content of the `medmap_history` slot. */
  datatype Slot = Missing | Unparsable | Stored(entries: seq<HistoryEntry>)

  /** The per-medicine summary kept in an entry (lines 26-33). */
  datatype MedicineSummary = MedicineSummary(
    brandName: string,
    strength: Option<string>,
    confidence: Option<Confidence>,
    matched: bool,
    form: Option<string>,
    frequency: Option<real>)

  datatype HistoryEntry = HistoryEntry(
    id: string,
    timestamp: string,
    inputType: string,
    medicalCondition: Option<string>,
    medicineCount: nat,
    medicines: seq<MedicineSummary>,
    processingTimeMs: real,
    ocrScore: Option<real>)

  /** What the pipeline returned for one scan, as far as the history reads it; `""` is a missing condition. */
  datatype ScanResult = ScanResult(
    medicalCondition: string,
    extractedMedicines: Option<seq<ExtractionResult>>,
    processingTimeMs: Option<real>,
    ocrResult: Option<OcrResult>)

  /** `getHistory` on a given slot (lines 10-15): nothing stored, or unparsable text, reads as the empty list. */
  function EntriesOf(slot: Slot): (h: seq<HistoryEntry>)
    ensures slot.Stored? ==> h == slot.entries
    ensures !slot.Stored? ==> h == []
  {
    if slot.Stored? then slot.entries else []
  }

  function Summary(ext: ExtractionResult): (s: MedicineSummary)
    ensures s.matched <==> ext.matchedMedicine.Some?
  {
    var m := ext.matchedMedicine;
    MedicineSummary(
      ext.structuredData.brandName,
      if m.Some? then OrNull(m.value.strength) else None,
      if m.Some? then Some(m.value.confidence) else None,
      m.Some?,
      ext.structuredData.form,
      NumberOrNull(ext.structuredData.frequencyPerDay))
  }

  /** `result.ocr_result?.consensus_score || null`. */
  function OcrScore(ocr: Option<OcrResult>): (s: Option<real>)
    ensures s.None? <==> ocr.None? || ocr.value.consensusScore == 0.0
    ensures s.Some? ==> s.value == ocr.value.consensusScore
  {
    if ocr.Some? && ocr.value.consensusScore != 0.0 then Some(ocr.value.consensusScore) else None
  }

  /** The entry built from a scan result (lines 20-36). */
  function BuildEntry(result: ScanResult, inputType: string, id: string, timestamp: string): (e: HistoryEntry)
    ensures e.id == id && e.timestamp == timestamp && e.inputType == inputType
    ensures e.medicineCount == |e.medicines|
    ensures result.extractedMedicines.None? ==> e.medicines == []
    ensures result.extractedMedicines.Some? ==>
              (&& |e.medicines| == |result.extractedMedicines.value|
               && forall k :: 0 <= k < |e.medicines| ==>
                    e.medicines[k] == Summary(result.extractedMedicines.value[k])
                    && (e.medicines[k].matched <==> result.extractedMedicines.value[k].matchedMedicine.Some?))
    ensures e.processingTimeMs == if result.processingTimeMs.Some? then result.processingTimeMs.value else 0.0
    ensures e.ocrScore == OcrScore(result.ocrResult)
  {
    var exts := if result.extractedMedicines.Some? then result.extractedMedicines.value else [];
    HistoryEntry(
      id, timestamp, inputType,
      OrNull(result.medicalCondition),
      |exts|,
      seq(|exts|, k requires 0 <= k < |exts| => Summary(exts[k])),
      if result.processingTimeMs.Some? then result.processingTimeMs.value else 0.0,
      OcrScore(result.ocrResult))
  }

  /** `[entry, ...history].slice(0, MAX_HISTORY)`. */
  function Prepend(entry: HistoryEntry, history: seq<HistoryEntry>): (h: seq<HistoryEntry>)
    ensures |h| == if |history| + 1 < MaxHistory then |history| + 1 else MaxHistory
    ensures h[0] == entry
    ensures forall k :: 1 <= k < |h| ==> h[k] == history[k - 1]
  {
    var all := [entry] + history;
    if |all| <= MaxHistory then all else all[..MaxHistory]
  }

  /** `history.filter(h => h.id !== id)`. */
  function WithoutId(history: seq<HistoryEntry>, id: string): (h: seq<HistoryEntry>)
    ensures |h| <= |history|
    ensures |history| == 1 ==> h == if history[0].id != id then history else []
    decreases |history|
  {
    if history == [] then []
    else
      var rest := WithoutId(history[..|history| - 1], id);
      var last := history[|history| - 1];
      if last.id != id then rest + [last] else rest
  }

  /**
   * Deleting keeps the other entries newest first and each as often as it
   * occurs: filtering a concatenation concatenates the filtered halves.
   */
  lemma {:induction false} WithoutIdAppend(a: seq<HistoryEntry>, b: seq<HistoryEntry>, id: string)
    ensures WithoutId(a + b, id) == WithoutId(a, id) + WithoutId(b, id)
    decreases |b|
  {
    if b == [] {
      assert a + b == a;
    } else {
      var init := b[..|b| - 1];
      assert (a + b)[..|a + b| - 1] == a + init && (a + b)[|a + b| - 1] == b[|b| - 1];
      WithoutIdAppend(a, init, id);
    }
  }

  /** Deleting keeps exactly the entries with another id, in their order. */
  lemma {:induction false} WithoutIdIsFilter(history: seq<HistoryEntry>, id: string)
    ensures forall e :: e in WithoutId(history, id) <==> e in history && e.id != id
    ensures forall k :: 0 <= k < |WithoutId(history, id)| ==> WithoutId(history, id)[k].id != id
    ensures (forall k :: 0 <= k < |history| ==> history[k].id != id) ==> WithoutId(history, id) == history
    decreases |history|
  {
    if history != [] {
      var init := history[..|history| - 1];
      WithoutIdIsFilter(init, id);
      assert history == init + [history[|history| - 1]];
    }
  }

  /** Deleting an id twice is the same as deleting it once. */
  lemma DeleteIdempotent(history: seq<HistoryEntry>, id: string)
    ensures WithoutId(WithoutId(history, id), id) == WithoutId(history, id)
  {
    WithoutIdIsFilter(history, id);
    WithoutIdIsFilter(WithoutId(history, id), id);
  }

  /** Saving the same result twice keeps both entries: there is no de-duplication. */
  lemma NoDeduplication(e1: HistoryEntry, e2: HistoryEntry, history: seq<HistoryEntry>)
    ensures Prepend(e2, Prepend(e1, history))[..2] == [e2, e1]
    ensures |history| + 2 <= MaxHistory ==> Prepend(e2, Prepend(e1, history)) == [e2, e1] + history
  {
    if |history| + 2 <= MaxHistory {
      assert Prepend(e1, history) == [e1] + history;
    }
  }

  /** The history never holds more than 50 entries once it has been saved to. */
  lemma SaveBounded(entry: HistoryEntry, history: seq<HistoryEntry>)
    ensures |Prepend(entry, history)| <= MaxHistory
    ensures |history| < MaxHistory ==> Prepend(entry, history)[1..] == history
  {
    if |history| < MaxHistory {
      assert Prepend(entry, history) == [entry] + history;
    }
  }

  class HistoryStore {
    var slot: Slot

    constructor(initial: Slot)
      ensures slot == initial
    {
      slot := initial;
    }

    /** `getHistory` (lines 10-15). */
    method GetHistory() returns (h: seq<HistoryEntry>)
      ensures h == EntriesOf(slot)
    {
      if slot.Stored? {
        h := slot.entries;
      } else {
        h := [];
      }
    }

    /**
     * `saveToHistory` (lines 17-42): the new entry goes first and the list is
     * cut to 50; when the write throws, nothing changes and the result is null.
     * The input type defaults to "image".
     */
    method SaveToHistory(result: ScanResult, id: string, timestamp: string, fails: bool, inputType: string := "image")
      returns (saved: Option<HistoryEntry>)
      modifies this
      ensures fails ==> saved.None? && slot == old(slot)
      ensures !fails ==> saved == Some(BuildEntry(result, inputType, id, timestamp))
      ensures !fails ==> slot == Stored(Prepend(saved.value, EntriesOf(old(slot))))
    {
      var history := GetHistory();
      var entry := BuildEntry(result, inputType, id, timestamp);
      var updated := Prepend(entry, history);
      if fails {
        return None;
      }
      slot := Stored(updated);
      return Some(entry);
    }

    /** `clearHistory` (lines 44-46): the slot is removed unless removal throws. */
    method ClearHistory(fails: bool)
      modifies this
      ensures fails ==> slot == old(slot)
      ensures !fails ==> slot == Missing && EntriesOf(slot) == []
    {
      if !fails {
        slot := Missing;
      }
    }

    /** `deleteHistoryEntry` (lines 48-53): the list without the entries that carry `id`, written back. */
    method DeleteHistoryEntry(id: string, fails: bool)
      modifies this
      ensures fails ==> slot == old(slot)
      ensures !fails ==> slot == Stored(WithoutId(EntriesOf(old(slot)), id))
    {
      var history := GetHistory();
      var updated := WithoutId(history, id);
      if !fails {
        slot := Stored(updated);
      }
    }
  }
}
