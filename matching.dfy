/**
 * The three-stage matching engine (backend/services/matchingEngine.js): an
 * exact search, a trigram search and an embedding search are tried in turn for
 * each extracted medicine; the first hit is scored by the validation rules and
 * copied, field by field, from the catalogue record.
 *
 * The catalogue queries and the embedding service are inputs. Each is a
 * function from what the engine sends to `Ok(rows)` (already ranked and
 * limited by the database) or `Err(message)`:
 *   - `exactDb(searchName, form)` for the `ilike` query, with `form == ""`
 *     when no form filter is added;
 *   - `fuzzyDb(searchText)` for the trigram-only hybrid search;
 *   - `embed(searchText)` and `vectorDb(searchText, embedding)` for the
 *     weighted hybrid search.
 *
 * Nullable text fields of an extraction are `""` when null or empty: every
 * test the engine applies to them treats the two alike. A row's brand name,
 * generic name and form are always strings, as the catalogue importers fill
 * them; the `toLowerCase` and `includes` calls the engine makes on them would
 * throw on null.
 */
module Matching {
  import opened Wrappers
  import opened Text
  import Consensus

  /** One medicine as the language step extracted it. */
  datatype Extraction = Extraction(
    brandName: string,
    brandVariant: string,
    form: string,
    frequencyPerDay: Option<real>,
    durationDays: Option<real>)

  /** A catalogue row; the two scores are present on rows of the hybrid search. */
  datatype MedicineRow = MedicineRow(
    id: string,
    brandName: string,
    genericName: string,
    strength: string,
    form: string,
    category: string,
    isCombination: bool,
    manufacturer: string,
    trgmScore: real,
    combinedScore: real)

  datatype MatchMethod = ExactMatchMethod | FuzzyMatchMethod | VectorSimilarity

  /** What a stage returns on a hit. */
  datatype StageMatch = StageMatch(record: MedicineRow, how: MatchMethod, rawScore: real)

  datatype Warning = VariantMismatch | CombinationIntegrityViolation | FormMismatch

  datatype Confidence = High | Medium | Low

  datatype MatchedMedicine = MatchedMedicine(
    id: string,
    brandName: string,
    genericName: string,
    strength: string,
    form: string,
    category: Option<string>,
    isCombination: bool,
    manufacturer: Option<string>,
    similarityPercentage: real,
    confidence: Confidence,
    matchMethod: MatchMethod,
    validationWarnings: seq<Warning>)

  datatype StructuredData = StructuredData(
    brandName: string,
    brandVariant: Option<string>,
    form: Option<string>,
    frequencyPerDay: Option<real>,
    durationDays: Option<real>)

  datatype ExtractionResult = ExtractionResult(
    rawInput: string,
    structuredData: StructuredData,
    matchedMedicine: Option<MatchedMedicine>)

  // ---------------------------------------------------------------------
  // Scores (lines 29-75)
  // ---------------------------------------------------------------------

  /** `deriveConfidence`: High from 85, Medium from 60, otherwise Low. */
  function DeriveConfidence(score: real): (c: Confidence)
    ensures c == High <==> score >= 85.0
    ensures c == Medium <==> 60.0 <= score < 85.0
    ensures c == Low <==> score < 60.0
  {
    if score >= 85.0 then High
    else if score >= 60.0 then Medium
    else Low
  }

  function ConfidenceRank(c: Confidence): nat {
    match c
    case Low => 0
    case Medium => 1
    case High => 2
  }

  /** A higher score never gives a lower confidence. */
  lemma ConfidenceMonotone(a: real, b: real)
    requires a <= b
    ensures ConfidenceRank(DeriveConfidence(a)) <= ConfidenceRank(DeriveConfidence(b))
  {
  }

  /** `Math.round(x * 100) / 100`: rounding to two decimals, halves up. */
  function Round2(x: real): real {
    Consensus.JsRound(x * 100.0) as real / 100.0
  }

  lemma FloorMonotone(x: real, y: real)
    requires x <= y
    ensures x.Floor <= y.Floor
  {
    assert x.Floor as real <= x;
    assert y < y.Floor as real + 1.0;
  }

  /** Rounding to two decimals preserves order. */
  lemma Round2Monotone(x: real, y: real)
    requires x <= y
    ensures Round2(x) <= Round2(y)
  {
    FloorMonotone(x * 100.0 + 0.5, y * 100.0 + 0.5);
  }

  /** A value already rounded to two decimals is left alone by a second rounding. */
  lemma Round2Idempotent(x: real)
    ensures Round2(Round2(x)) == Round2(x)
  {
    var k := Consensus.JsRound(x * 100.0);
    assert Round2(x) * 100.0 == k as real;
    assert (k as real + 0.5).Floor == k;
  }

  /** Rounding can lift a score: the final score is bounded by the rounded raw score, not the raw score. */
  lemma RoundingCanRaise()
    ensures Round2(0.005) == 0.01 && Round2(0.005) > 0.005
  {
    assert 0.005 * 100.0 + 0.5 == 1.0;
  }

  /** Rule A (lines 48-55): a variant the record's brand name does not contain, ignoring case. */
  predicate VariantRule(e: Extraction, rec: MedicineRow) {
    e.brandVariant != "" && !Contains(LowerStr(rec.brandName), LowerStr(e.brandVariant))
  }

  /** Rule B (lines 58-64): a combination whose generic name shows neither `+` nor `/`. */
  predicate CombinationRule(rec: MedicineRow) {
    rec.isCombination && !Contains(rec.genericName, "+") && !Contains(rec.genericName, "/")
  }

  /** Rule C (lines 67-72): both forms given and different, ignoring case. */
  predicate FormRule(e: Extraction, rec: MedicineRow) {
    e.form != "" && rec.form != "" && LowerStr(e.form) != LowerStr(rec.form)
  }

  /** The raw score after the penalties, applied in the order the rules run. */
  function Penalised(e: Extraction, rec: MedicineRow, rawScore: real): real {
    var afterVariant := if VariantRule(e, rec) then rawScore * 0.70 else rawScore;
    if FormRule(e, rec) then afterVariant * 0.60 else afterVariant
  }

  function When(c: bool, w: Warning): seq<Warning> {
    if c then [w] else []
  }

  /** The outcome of `applyValidationRules`: the rounded, penalised score and the warnings. */
  datatype Validation = Validation(finalScore: real, warnings: seq<Warning>)

  function Validate(e: Extraction, rec: MedicineRow, rawScore: real): Validation {
    Validation(Round2(Penalised(e, rec, rawScore)),
               When(VariantRule(e, rec), VariantMismatch)
               + When(CombinationRule(rec), CombinationIntegrityViolation)
               + When(FormRule(e, rec), FormMismatch))
  }

  /** `applyValidationRules`, with its running score and warning list. */
  method ApplyValidationRules(e: Extraction, rec: MedicineRow, rawScore: real) returns (v: Validation)
    ensures v == Validate(e, rec, rawScore)
  {
    var finalScore := rawScore;
    var warnings: seq<Warning> := [];
    if e.brandVariant != "" {
      var dbBrandLower := LowerStr(rec.brandName);
      var variantInDb := Contains(dbBrandLower, LowerStr(e.brandVariant));
      if !variantInDb {
        warnings := warnings + [VariantMismatch];
        finalScore := finalScore * 0.70;
      }
    }
    ghost var afterVariant := finalScore;
    assert afterVariant == if VariantRule(e, rec) then rawScore * 0.70 else rawScore;
    assert warnings == When(VariantRule(e, rec), VariantMismatch);
    if rec.isCombination {
      var hasPlus := Contains(rec.genericName, "+") || Contains(rec.genericName, "/");
      if !hasPlus {
        warnings := warnings + [CombinationIntegrityViolation];
      }
    }
    assert warnings == When(VariantRule(e, rec), VariantMismatch) + When(CombinationRule(rec), CombinationIntegrityViolation);
    ghost var before := warnings;
    if e.form != "" && rec.form != "" {
      if LowerStr(e.form) != LowerStr(rec.form) {
        warnings := warnings + [FormMismatch];
        finalScore := finalScore * 0.60;
      }
    }
    assert warnings == before + When(FormRule(e, rec), FormMismatch);
    assert finalScore == if FormRule(e, rec) then afterVariant * 0.60 else afterVariant;
    assert warnings == When(VariantRule(e, rec), VariantMismatch)
      + When(CombinationRule(rec), CombinationIntegrityViolation)
      + When(FormRule(e, rec), FormMismatch);
    v := Validation(Round2(finalScore), warnings);
  }

  function WarningRank(w: Warning): nat {
    match w
    case VariantMismatch => 0
    case CombinationIntegrityViolation => 1
    case FormMismatch => 2
  }

  /**
   * Each warning is raised exactly when its rule fires, at most once, and the
   * warnings come in rule order A, B, C.
   */
  lemma WarningsFollowRules(e: Extraction, rec: MedicineRow, rawScore: real)
    ensures var ws := Validate(e, rec, rawScore).warnings;
      && (VariantMismatch in ws <==> VariantRule(e, rec))
      && (CombinationIntegrityViolation in ws <==> CombinationRule(rec))
      && (FormMismatch in ws <==> FormRule(e, rec))
      && (forall i, j :: 0 <= i < j < |ws| ==> WarningRank(ws[i]) < WarningRank(ws[j]))
  {
  }

  /** Rule B only flags: the score is the same as if the record were not a combination. */
  lemma CombinationRuleKeepsScore(e: Extraction, rec: MedicineRow, rawScore: real)
    ensures Validate(e, rec, rawScore).finalScore
         == Validate(e, rec.(isCombination := false), rawScore).finalScore
  {
  }

  /** The two penalties together scale the raw score by 0.42 before rounding. */
  lemma BothPenalties(e: Extraction, rec: MedicineRow, rawScore: real)
    requires VariantRule(e, rec) && FormRule(e, rec)
    ensures Validate(e, rec, rawScore).finalScore == Round2(rawScore * 0.42)
  {
  }

  /** No rule fires: the score is only rounded. */
  lemma NoPenalty(e: Extraction, rec: MedicineRow, rawScore: real)
    requires !VariantRule(e, rec) && !FormRule(e, rec)
    ensures Validate(e, rec, rawScore).finalScore == Round2(rawScore)
  {
  }

  /** For a non-negative raw score the rules never raise it (up to the rounding of the raw score itself). */
  lemma ScoreNeverRaised(e: Extraction, rec: MedicineRow, rawScore: real)
    requires rawScore >= 0.0
    ensures Validate(e, rec, rawScore).finalScore <= Round2(rawScore)
  {
    Round2Monotone(Penalised(e, rec, rawScore), rawScore);
  }

  // ---------------------------------------------------------------------
  // The three stages (lines 80-212)
  // ---------------------------------------------------------------------

  /** `brand_name + ' ' + brand_variant` when a variant is given, otherwise the brand name. */
  function SearchName(e: Extraction): string {
    if e.brandVariant != "" then e.brandName + " " + e.brandVariant else e.brandName
  }

  /** `[brand_name, brand_variant, form].filter(Boolean).join(' ')`. */
  function RawInput(e: Extraction): string {
    Join(NonEmpty([e.brandName, e.brandVariant, e.form]), " ")
  }

  function NonEmpty(parts: seq<string>): (r: seq<string>)
    ensures forall j :: 0 <= j < |r| ==> r[j] != []
    ensures forall p :: p in r <==> p in parts && p != []
    ensures |parts| == 1 ==> r == if parts[0] != [] then parts else []
  {
    if parts == [] then []
    else if parts[0] == [] then NonEmpty(parts[1..])
    else [parts[0]] + NonEmpty(parts[1..])
  }

  /**
   * `filter(Boolean)` keeps order and multiplicity: filtering a concatenation
   * is concatenating the filtered halves (with the one-part case in
   * NonEmpty's contract, this fixes the result).
   */
  lemma {:induction false} NonEmptyAppend(a: seq<string>, b: seq<string>)
    ensures NonEmpty(a + b) == NonEmpty(a) + NonEmpty(b)
    decreases |a|
  {
    if a == [] {
      assert a + b == b;
    } else {
      assert (a + b)[0] == a[0] && (a + b)[1..] == a[1..] + b;
      NonEmptyAppend(a[1..], b);
    }
  }

  /** Stage 1: the first row of the exact query, at raw score 99; a query error is a miss. */
  function ExactMatch(e: Extraction, exactDb: (string, string) -> Result<seq<MedicineRow>>): (m: Option<StageMatch>)
    ensures m.Some? <==> exactDb(SearchName(e), e.form).Ok? && exactDb(SearchName(e), e.form).value != []
    ensures m.Some? ==>
      m.value == StageMatch(exactDb(SearchName(e), e.form).value[0], ExactMatchMethod, 99.0)
  {
    match exactDb(SearchName(e), e.form)
    case Err(_) => None
    case Ok(rows) => if rows != [] then Some(StageMatch(rows[0], ExactMatchMethod, 99.0)) else None
  }

  function FirstWithForm(rows: seq<MedicineRow>, form: string): (i: nat)
    ensures i <= |rows|
    ensures i < |rows| ==> LowerStr(rows[i].form) == LowerStr(form)
    ensures forall j :: 0 <= j < i ==> LowerStr(rows[j].form) != LowerStr(form)
    decreases |rows|
  {
    if rows == [] then 0
    else if LowerStr(rows[0].form) == LowerStr(form) then 0
    else 1 + FirstWithForm(rows[1..], form)
  }

  /**
   * The form preference of the two search stages: with a form given, the
   * first row of that form (ignoring case) if there is one; otherwise the top row.
   */
  function PickRow(rows: seq<MedicineRow>, form: string): (r: MedicineRow)
    requires rows != []
    ensures r in rows
    ensures form != "" && (exists j :: 0 <= j < |rows| && LowerStr(rows[j].form) == LowerStr(form)) ==>
      exists i :: 0 <= i < |rows| && rows[i] == r && LowerStr(r.form) == LowerStr(form)
        && forall j :: 0 <= j < i ==> LowerStr(rows[j].form) != LowerStr(form)
    ensures (form == "" || forall j :: 0 <= j < |rows| ==> LowerStr(rows[j].form) != LowerStr(form)) ==>
      r == rows[0]
  {
    if form == "" then rows[0]
    else
      var i := FirstWithForm(rows, form);
      if i < |rows| then rows[i] else rows[0]
  }

  /** Stage 2: the preferred row of the trigram search, if its trigram score is above 0.50. */
  function FuzzyMatch(e: Extraction, fuzzyDb: string -> Result<seq<MedicineRow>>): (m: Option<StageMatch>)
    ensures fuzzyDb(SearchName(e)).Err? ==> m.None?
    ensures m.Some? ==>
      && fuzzyDb(SearchName(e)).Ok?
      && fuzzyDb(SearchName(e)).value != []
      && m.value.record == PickRow(fuzzyDb(SearchName(e)).value, e.form)
      && m.value.record.trgmScore > 0.50
      && m.value.how == FuzzyMatchMethod
      && m.value.rawScore == m.value.record.trgmScore * 100.0
  {
    match fuzzyDb(SearchName(e))
    case Err(_) => None
    case Ok(rows) =>
      if rows == [] then None
      else
        var best := PickRow(rows, e.form);
        if best.trgmScore > 0.50 then Some(StageMatch(best, FuzzyMatchMethod, best.trgmScore * 100.0)) else None
  }

  /** Stage 3: the preferred row of the weighted search, if its combined score is above 0.50. */
  function VectorMatch(e: Extraction, embed: string -> Result<seq<real>>,
                       vectorDb: (string, seq<real>) -> Result<seq<MedicineRow>>): (m: Option<StageMatch>)
    ensures embed(RawInput(e)).Err? ==> m.None?
    ensures m.Some? ==>
      && embed(RawInput(e)).Ok?
      && vectorDb(RawInput(e), embed(RawInput(e)).value).Ok?
      && vectorDb(RawInput(e), embed(RawInput(e)).value).value != []
      && m.value.record == PickRow(vectorDb(RawInput(e), embed(RawInput(e)).value).value, e.form)
      && m.value.record.combinedScore > 0.50
      && m.value.how == VectorSimilarity
      && m.value.rawScore == m.value.record.combinedScore * 100.0
  {
    var searchText := RawInput(e);
    match embed(searchText)
    case Err(_) => None
    case Ok(embedding) =>
      match vectorDb(searchText, embedding)
      case Err(_) => None
      case Ok(rows) =>
        if rows == [] then None
        else
          var best := PickRow(rows, e.form);
          if best.combinedScore > 0.50 then Some(StageMatch(best, VectorSimilarity, best.combinedScore * 100.0)) else None
  }

  /** The trigram stage qualifies exactly the rows whose preferred row scores above 0.50. */
  lemma FuzzyQualifiesIff(e: Extraction, fuzzyDb: string -> Result<seq<MedicineRow>>)
    ensures FuzzyMatch(e, fuzzyDb).Some? <==>
      fuzzyDb(SearchName(e)).Ok? && fuzzyDb(SearchName(e)).value != []
      && PickRow(fuzzyDb(SearchName(e)).value, e.form).trgmScore > 0.50
  {
  }

  /** The weighted stage hits exactly when embedding and query succeed and the preferred row scores above 0.50. */
  lemma VectorQualifiesIff(e: Extraction, embed: string -> Result<seq<real>>,
                           vectorDb: (string, seq<real>) -> Result<seq<MedicineRow>>)
    ensures VectorMatch(e, embed, vectorDb).Some? <==>
      && embed(RawInput(e)).Ok?
      && vectorDb(RawInput(e), embed(RawInput(e)).value).Ok?
      && vectorDb(RawInput(e), embed(RawInput(e)).value).value != []
      && PickRow(vectorDb(RawInput(e), embed(RawInput(e)).value).value, e.form).combinedScore > 0.50
  {
  }

  /** The three oracles the waterfall consults. */
  datatype Catalogue = Catalogue(
    exactDb: (string, string) -> Result<seq<MedicineRow>>,
    fuzzyDb: string -> Result<seq<MedicineRow>>,
    embed: string -> Result<seq<real>>,
    vectorDb: (string, seq<real>) -> Result<seq<MedicineRow>>)

  /** Lines 236-247: each stage runs only when the ones before it missed. */
  function Waterfall(e: Extraction, db: Catalogue): Option<StageMatch> {
    var exact := ExactMatch(e, db.exactDb);
    if exact.Some? then exact
    else
      var fuzzy := FuzzyMatch(e, db.fuzzyDb);
      if fuzzy.Some? then fuzzy
      else VectorMatch(e, db.embed, db.vectorDb)
  }

  /** An exact hit makes the later stages irrelevant; a fuzzy hit makes the vector stage irrelevant. */
  lemma WaterfallStopsAtFirstHit(e: Extraction, db: Catalogue, db2: Catalogue)
    ensures db2.exactDb == db.exactDb && ExactMatch(e, db.exactDb).Some? ==>
      Waterfall(e, db) == Waterfall(e, db2) == ExactMatch(e, db.exactDb)
    ensures (db2.exactDb == db.exactDb && db2.fuzzyDb == db.fuzzyDb
             && ExactMatch(e, db.exactDb).None? && FuzzyMatch(e, db.fuzzyDb).Some?) ==>
      Waterfall(e, db) == Waterfall(e, db2) == FuzzyMatch(e, db.fuzzyDb)
  {
  }

  /** The stage that produced a match is the first one that hit. */
  lemma WaterfallMethod(e: Extraction, db: Catalogue)
    ensures var m := Waterfall(e, db);
      && (m.Some? && m.value.how == FuzzyMatchMethod ==> ExactMatch(e, db.exactDb).None?)
      && (m.Some? && m.value.how == VectorSimilarity ==>
            ExactMatch(e, db.exactDb).None? && FuzzyMatch(e, db.fuzzyDb).None?)
      && (m.None? ==> ExactMatch(e, db.exactDb).None? && FuzzyMatch(e, db.fuzzyDb).None?
                      && VectorMatch(e, db.embed, db.vectorDb).None?)
  {
  }

  // ---------------------------------------------------------------------
  // Result assembly (lines 249-287)
  // ---------------------------------------------------------------------

  function OrNull(s: string): Option<string> {
    if s == "" then None else Some(s)
  }

  /** `x || null` on a number: zero (falsy) and missing both become null. */
  function NumberOrNull(x: Option<real>): Option<real> {
    if x == Some(0.0) then None else x
  }

  function Structured(e: Extraction): (d: StructuredData)
    ensures d.brandName == e.brandName
    ensures d.brandVariant.None? <==> e.brandVariant == ""
    ensures d.brandVariant.Some? ==> d.brandVariant.value == e.brandVariant
    ensures d.form.None? <==> e.form == ""
    ensures d.form.Some? ==> d.form.value == e.form
    ensures d.frequencyPerDay.None? <==> e.frequencyPerDay.None? || e.frequencyPerDay == Some(0.0)
    ensures d.durationDays.None? <==> e.durationDays.None? || e.durationDays == Some(0.0)
  {
    StructuredData(e.brandName, OrNull(e.brandVariant), OrNull(e.form),
                   NumberOrNull(e.frequencyPerDay), NumberOrNull(e.durationDays))
  }

  /** Rule D: every descriptive field comes from the catalogue record. */
  function Describe(e: Extraction, m: StageMatch): MatchedMedicine {
    var v := Validate(e, m.record, m.rawScore);
    MatchedMedicine(m.record.id, m.record.brandName, m.record.genericName, m.record.strength, m.record.form,
                    OrNull(m.record.category), m.record.isCombination, OrNull(m.record.manufacturer),
                    Round2(v.finalScore), DeriveConfidence(v.finalScore), m.how, v.warnings)
  }

  /** The result for one extraction. */
  function MatchOne(e: Extraction, db: Catalogue): ExtractionResult {
    var m := Waterfall(e, db);
    ExtractionResult(RawInput(e), Structured(e), if m.Some? then Some(Describe(e, m.value)) else None)
  }

  /** Strength, generic name and form always come from the matched record, never from the extraction. */
  lemma StrengthFromRecord(e: Extraction, db: Catalogue)
    ensures var r := MatchOne(e, db);
      r.matchedMedicine.Some? ==>
        && Waterfall(e, db).Some?
        && r.matchedMedicine.value.strength == Waterfall(e, db).value.record.strength
        && r.matchedMedicine.value.genericName == Waterfall(e, db).value.record.genericName
        && r.matchedMedicine.value.form == Waterfall(e, db).value.record.form
  {
  }

  /** The reported similarity is the validated score, unchanged by the second rounding. */
  lemma SimilarityIsFinalScore(e: Extraction, m: StageMatch)
    ensures Describe(e, m).similarityPercentage == Validate(e, m.record, m.rawScore).finalScore
    ensures Describe(e, m).confidence == DeriveConfidence(Describe(e, m).similarityPercentage)
  {
    Round2Idempotent(Penalised(e, m.record, m.rawScore));
  }

  /** `matchMedicines`: one result per extraction, in order, each from its own waterfall. */
  method MatchMedicines(extractions: seq<Extraction>, db: Catalogue) returns (results: seq<ExtractionResult>)
    ensures |results| == |extractions|
    ensures forall i :: 0 <= i < |extractions| ==> results[i] == MatchOne(extractions[i], db)
  {
    if |extractions| == 0 {
      return [];
    }
    results := [];
    for i := 0 to |extractions|
      invariant |results| == i
      invariant forall k :: 0 <= k < i ==> results[k] == MatchOne(extractions[k], db)
    {
      var result := MatchExtraction(extractions[i], db);
      results := results + [result];
    }
  }

  /** The body of the loop: the waterfall with its running `matchResult`, then the result record. */
  method MatchExtraction(e: Extraction, db: Catalogue) returns (result: ExtractionResult)
    ensures result == MatchOne(e, db)
  {
    var rawInput := RawInput(e);
    var matchResult := ExactMatch(e, db.exactDb);
    if matchResult.None? {
      matchResult := FuzzyMatch(e, db.fuzzyDb);
    }
    if matchResult.None? {
      matchResult := VectorMatch(e, db.embed, db.vectorDb);
    }
    var matchedMedicine: Option<MatchedMedicine> := None;
    if matchResult.Some? {
      var m := matchResult.value;
      var v := ApplyValidationRules(e, m.record, m.rawScore);
      matchedMedicine := Some(MatchedMedicine(m.record.id, m.record.brandName, m.record.genericName,
        m.record.strength, m.record.form, OrNull(m.record.category), m.record.isCombination,
        OrNull(m.record.manufacturer), Round2(v.finalScore), DeriveConfidence(v.finalScore), m.how,
        v.warnings));
    }
    result := ExtractionResult(rawInput, Structured(e), matchedMedicine);
  }
}
