# MedMap AI: a Dafny model of the prescription pipeline

MedMap AI reads a photographed or typed prescription and turns it into a list
of catalogue medicines and a weekly pill planner. This project models the
deterministic core of that pipeline:

- **Consensus** (`Consensus`, `ConsensusExample`). Up to five Tesseract
  readings of the same image are tokenised. The model then takes a
  case-insensitive vote at every token position, breaking ties by count,
  then confidence, then first vote. The winning token keeps the casing of
  the first pass that holds it. The result is the consensus text, a
  percentage agreement score and a quality tag.
- **Multi-pass OCR policy** (`OcrPolicy`). This covers:
  - which passes run;
  - how failed or blank passes are dropped;
  - when the vision model is consulted;
  - when the best single pass replaces the consensus;
  - the raw-text bypass.
- **Matching** (`Matching`). An extracted medicine goes through three stages
  in turn: an exact catalogue lookup, then a trigram lookup, then a vector
  lookup. The first hit wins and is scored by validation rules A-D; the
  catalogue record supplies every descriptive field.
- **NLP extraction** (`Nlp`). The model's reply has its code fences stripped.
  The parsed records are normalised with defaults and generated ids. The
  call is made at most three times before the failure is reported.
- **Catalogue import** (`CatalogueImport`, `BucketImport`). Each CSV row is
  cleaned into a medicine record: brand name, dosage form, generic name,
  strength and combination flag. The records are inserted in batches of
  500. A failed batch does not stop the import.
- **History** (`History`). A newest-first scan history of at most 50 entries
  lives in one local-storage slot. It can be read, prepended to, filtered
  by id and cleared.
- **Dosage planner** (`Dosage`). This covers:
  - the four daily slots a medicine occupies, by frequency;
  - which medicines are scheduled, and their colour;
  - which cells of the seven-day grid show a dot.

Everything that talks to the outside world is a parameter of the model:

- Tesseract, the vision model, the language model and JSON parsing;
- the Supabase queries and inserts;
- the embedding service, local storage, the clock and random ids.

Each operation that loops or changes state in the source is a method. Every
such method is proved equal to a specification function, and the promised
properties are proved about those functions as lemmas. Text is modelled as
sequences of characters with ASCII case folding. `Text` and `Wrappers` hold
the shared string and option/result helpers.

## Model

| member | source | states |
|---|---|---|
| Consensus.TokenizeIsSplit | backend/utils/consensus.js:31-41 | Tokenising a pass splits its text at runs of white space, drops empty pieces, and treats newlines like any other space. Every token is a non-empty run without white space. |
| Consensus.TokenizeAll | backend/utils/consensus.js:31-41 | There is one tokenised pass per input pass, in order, holding the tokens of that pass's text. |
| Consensus.MaxLen | backend/utils/consensus.js:44 | The maximum length is at least the token count of every pass, and some pass attains it. |
| Consensus.KeyOfWord | backend/utils/consensus.js:59-60 | A token's vote key is its lower-cased form, which is again a non-empty word. |
| Consensus.TallyIsVotes | backend/utils/consensus.js:55-67 | The vote map holds one entry per voted key. Each entry has that key's number of ballots and its highest confidence. |
| Consensus.KeysFacts | backend/utils/consensus.js:55-67 | The vote map's keys are distinct and are exactly the keys that received a ballot. They appear in order of first ballot. |
| Consensus.CollectVotes | backend/utils/consensus.js:55-67 | The loop over the passes builds the vote map of the ballots at that position. |
| Consensus.WinnerIndexBest | backend/utils/consensus.js:71-85 | No entry beats the winner by count and then confidence, and the winner strictly beats every earlier entry. |
| Consensus.PickWinner | backend/utils/consensus.js:71-85 | The scan over the vote map returns the winning entry. |
| Consensus.WinnerIsPlurality | backend/utils/consensus.js:71-85 | The winner has the most ballots, then the highest confidence among those, then the earliest first ballot among those. |
| Consensus.FirstHolderFirst | backend/utils/consensus.js:87-96 | The casing comes from the first pass holding the winning key at that position. No earlier pass holds it. |
| Consensus.RecoverCasing | backend/utils/consensus.js:87-96 | The casing loop returns the original-case token of the first holding pass, or the key when no pass holds it. |
| Consensus.DecidePosition | backend/utils/consensus.js:69-103 | One position emits its winning token, and counts as agreed when the winner has at least `minPasses` ballots. |
| Consensus.VotePositions | backend/utils/consensus.js:53-104 | The position loop emits exactly the tokens and agreed count of the specification. |
| Consensus.BuildConsensus | backend/utils/consensus.js:16-124 | The whole algorithm, step by step, equals the consensus specification. |
| Consensus.WinnerEverywhere | backend/utils/consensus.js:53-104 | Every position below the longest pass's length has a winner, and emits exactly one word. |
| Consensus.EmittedLength | backend/utils/consensus.js:53-104 | For n positions exactly n tokens are emitted. |
| Consensus.EmittedWords | backend/utils/consensus.js:53-104 | Every emitted token is a non-empty word without white space. |
| Consensus.AgreedAtMostEmitted | backend/utils/consensus.js:98-101 | The agreed count never exceeds the number of emitted tokens. |
| Consensus.FinalTextOfWords | backend/utils/consensus.js:107-112 | The final text is the words joined by single spaces. It has no newline. |
| Consensus.ScoreRange | backend/utils/consensus.js:114-117 | The score is a percentage in [0, 100], and full agreement scores 100. |
| Consensus.ConsensusOutput | backend/utils/consensus.js:16-124 | With two or more passes and some token, the text is exactly maxLen words joined by single spaces, so splitting it gives them back. The agreed count is at most maxLen, and the score lies in [0, 100]. |
| Consensus.ConsensusOfBlankPasses | backend/utils/consensus.js:44-48 | When no pass holds a token, the result is empty text, score 0 and no agreement. |
| Consensus.ConsensusEdgeCases | backend/utils/consensus.js:17-28 | No pass gives the empty result. A single pass is returned trimmed, with score 100 and agreed count 1. |
| Consensus.TokenizeJoin | backend/utils/consensus.js:31-41 | Tokenising words joined by single spaces gives the words back. |
| Consensus.DeriveQualityTag | backend/utils/consensus.js:132-136 | HIGH_CONFIDENCE iff score ≥ 70, MEDIUM_CONFIDENCE iff 40 ≤ score < 70, LOW_QUALITY iff score < 40. |
| Consensus.QualityTagMonotone | backend/utils/consensus.js:132-136 | A higher score never gets a worse tag. |
| ConsensusExample.DoloExample | backend/utils/consensus.js:16-124 | Three readings of "Dolo 650 Tab", one with a misread letter, give "Dolo 650 Tab" with score 100 and three agreed positions when `minPasses` is 2. |
| OcrPolicy.SelectedCountIsMin | backend/services/ocrService.js:115 | The number of passes run is min(passes, 5), capped at the five variants. |
| OcrPolicy.RunPass | backend/services/ocrService.js:119-139 | A recognised pass keeps its text and confidence. A pass that throws becomes an empty text with confidence 0 under the same variant name. |
| OcrPolicy.PassResults | backend/services/ocrService.js:118-141 | There is one result per selected variant, in variant order. |
| OcrPolicy.ValidPasses | backend/services/ocrService.js:144 | Exactly the passes whose trimmed text is non-empty are kept. A single pass is kept iff its text is not blank. |
| OcrPolicy.ValidPassesAppend | backend/services/ocrService.js:144 | Filtering a concatenation is concatenating the filtered parts, so the kept passes keep their order and their repetitions. |
| OcrPolicy.FailedPassIsDropped | backend/services/ocrService.js:132-144 | A pass that threw never reaches the consensus. |
| OcrPolicy.BestIndexIsFirstMax | backend/services/ocrService.js:165-167 | The best pass has the highest confidence, and is the first pass with that confidence. |
| OcrPolicy.PickBestPass | backend/services/ocrService.js:165-167 | The reduce loop returns that best pass. |
| OcrPolicy.VisionOnly | backend/services/ocrService.js:146-157 | When every pass is blank, the vision reply is returned and its error propagates. Score 95 and HIGH_CONFIDENCE iff the trimmed reply is longer than 10 characters; otherwise 0 and LOW_QUALITY. The reply is tagged as the vision fallback with no agreement. |
| OcrPolicy.TesseractResult | backend/services/ocrService.js:200-225 | The best single pass replaces the consensus iff the consensus score < 20 or its trimmed text is shorter than 10. The tag always derives from the reported score. |
| OcrPolicy.EscalateSteps | backend/services/ocrService.js:160-225 | The best-pass, vision and single-pass steps, as written, equal the escalation specification. |
| OcrPolicy.RunMultiPassOcr | backend/services/ocrService.js:88-226 | The whole multi-pass run equals its specification. |
| OcrPolicy.RawTextInput | backend/services/ocrService.js:234-243 | Raw text is trimmed and reported with score 100, HIGH_CONFIDENCE, no passes and no `fallback_used` field. |
| OcrPolicy.PassesCompleted | backend/services/ocrService.js:153-221 | Every successful outcome, on every path, reports min(passes, 5) passes completed. |
| OcrPolicy.FailsOnlyWithoutText | backend/services/ocrService.js:146-197 | The run fails iff no pass has text and the vision call fails. A vision failure after Tesseract succeeded is swallowed. |
| OcrPolicy.OnlyValidPassesMatter | backend/services/ocrService.js:144-225 | With the debug listing off, blank and failed passes do not influence the answer beyond the pass count. |
| OcrPolicy.NoVisionWhenGood | backend/services/ocrService.js:172-174 | With a best pass of confidence ≥ 55 and a consensus score ≥ 30, vision is never consulted. |
| OcrPolicy.VisionAdoptedIff | backend/services/ocrService.js:174-193 | The vision reply is adopted iff vision is wanted and its reply is longer than 10 characters. It is then reported with score 95 and HIGH_CONFIDENCE. |
| OcrPolicy.VisionFailureFallsThrough | backend/services/ocrService.js:194-215 | A failed or too-short vision reply falls through to the Tesseract result. |
| OcrPolicy.BestSinglePassIsBest | backend/services/ocrService.js:207-215 | The single-pass fallback reports the trimmed text and confidence of the best pass, with agreed count 1. |
| OcrPolicy.ScoreInRange | backend/services/ocrService.js:146-225 | With pass confidences in [0, 100], every reported score lies in [0, 100]. |
| OcrPolicy.PassConfidences | backend/services/ocrService.js:127-138 | The pass results keep confidences in [0, 100]. |
| OcrPolicy.ConsensusScoreRange | backend/services/ocrService.js:161 | The consensus score is always in [0, 100]. |
| Matching.DeriveConfidence | backend/services/matchingEngine.js:29-33 | High iff score ≥ 85, Medium iff 60 ≤ score < 85, Low iff score < 60. |
| Matching.ConfidenceMonotone | backend/services/matchingEngine.js:29-33 | A higher score never gets a lower confidence. |
| Matching.Round2Idempotent | backend/services/matchingEngine.js:74 | Rounding to two decimals twice is rounding once. |
| Matching.RoundingCanRaise | backend/services/matchingEngine.js:74 | Rounding can raise a score: 0.005 becomes 0.01. |
| Matching.ApplyValidationRules | backend/services/matchingEngine.js:43-75 | The rules, applied in place, equal the validation specification. |
| Matching.WarningsFollowRules | backend/services/matchingEngine.js:47-72 | Each warning is raised exactly when its rule fires, at most once, in rule order A, B, C. |
| Matching.CombinationRuleKeepsScore | backend/services/matchingEngine.js:57-64 | Rule B only flags, and never changes the score. |
| Matching.BothPenalties | backend/services/matchingEngine.js:47-74 | The variant and form penalties together scale the raw score by 0.42 before rounding. |
| Matching.NoPenalty | backend/services/matchingEngine.js:43-75 | When neither rule A nor rule C fires, the score is only rounded. |
| Matching.ScoreNeverRaised | backend/services/matchingEngine.js:43-75 | For a non-negative raw score, the final score is at most the rounded raw score. |
| Matching.NonEmpty | backend/services/matchingEngine.js:162-168 | Keeps exactly the non-empty parts of the raw input, which are then joined by spaces. A single part is kept iff it is non-empty. |
| Matching.NonEmptyAppend | backend/services/matchingEngine.js:162-168 | Filtering a concatenation is concatenating the filtered parts, so the kept parts keep their order and their repetitions. |
| Matching.ExactMatch | backend/services/matchingEngine.js:80-110 | Stage 1 hits iff the query succeeds with some row. It then takes the first row at raw score 99, and a query error is a miss. |
| Matching.FirstWithForm | backend/services/matchingEngine.js:135-143 | Finds the first row whose form equals the extracted form, ignoring case. |
| Matching.PickRow | backend/services/matchingEngine.js:135-143 | The preferred row is the first one whose form matches, ignoring case. Without an extracted form or a matching row it is the first row. |
| Matching.FuzzyMatch | backend/services/matchingEngine.js:115-156 | A query error is a miss. A hit means the query returned rows; its record is the preferred row among them (`PickRow`), its trigram score is above 0.50, and it is scored by that score times 100. |
| Matching.FuzzyQualifiesIff | backend/services/matchingEngine.js:145-152 | Stage 2 hits iff the preferred row's trigram score is above 0.50. |
| Matching.VectorMatch | backend/services/matchingEngine.js:161-212 | An embedding error is a miss. A hit means the embedding and the query succeeded with rows; its record is the preferred returned row (`PickRow`), its combined score is above 0.50, and it is scored by that score times 100. |
| Matching.VectorQualifiesIff | backend/services/matchingEngine.js:161-212 | Stage 3 hits iff the embedding and the query succeed, the query returns rows, and the preferred row's combined score is above 0.50. |
| Matching.WaterfallStopsAtFirstHit | backend/services/matchingEngine.js:236-247 | An exact hit makes the later stages irrelevant, and a trigram hit makes the vector stage irrelevant. |
| Matching.WaterfallMethod | backend/services/matchingEngine.js:236-247 | The reported match method is the first stage that hit, and no match means every stage missed. |
| Matching.Structured | backend/services/matchingEngine.js:277-285 | The structured data keeps the extracted brand name. Empty variant or form, and zero or missing frequency or duration, become null. |
| Matching.StrengthFromRecord | backend/services/matchingEngine.js:260-274 | Rule D: strength, generic name and form of a match come from the catalogue record, never from the extraction. |
| Matching.SimilarityIsFinalScore | backend/services/matchingEngine.js:270-271 | The reported similarity is the validated score, unchanged by the second rounding. The confidence derives from it. |
| Matching.MatchMedicines | backend/services/matchingEngine.js:220-291 | There is one result per extraction, in order, each from its own waterfall. |
| Matching.MatchExtraction | backend/services/matchingEngine.js:226-287 | The body of the loop equals the per-extraction specification. |
| Nlp.ContentOrEmptyList | backend/services/nlpService.js:117 | A missing or empty reply becomes the text of an empty list. |
| Nlp.UnfencedReplyIsTrimmed | backend/services/nlpService.js:120-124 | A reply without fences is only trimmed. |
| Nlp.JsonFenceRoundTrip | backend/services/nlpService.js:120-124 | A body wrapped in a `json` fence with surrounding white space comes back unchanged. |
| Nlp.PlainFenceRoundTrip | backend/services/nlpService.js:120-124 | A body wrapped in a plain fence comes back unchanged. |
| Nlp.AsList | backend/services/nlpService.js:129 | A parsed array is taken as it is; any other value becomes a one-element list. |
| Nlp.OrElse | backend/services/nlpService.js:134-141 | A truthy field is kept; a missing or falsy one gets the default. |
| Nlp.NumberOrNull | backend/services/nlpService.js:139-140 | A numeric field is kept, and anything else becomes null. |
| Nlp.DecimalRoundTrip | backend/services/nlpService.js:133 | Reading back the decimal digits of a number gives the number. |
| Nlp.RecordIdValue | backend/services/nlpService.js:133 | The digits after "ext_" in a record id spell index + 1. |
| Nlp.RecordIdInjective | backend/services/nlpService.js:133 | Different positions get different record ids. |
| Nlp.RecordId | backend/services/nlpService.js:133 | Ids start with "ext_", and are seven characters long for the first 999 records. |
| Nlp.NormaliseMedicine | backend/services/nlpService.js:132-142 | A record normalises iff it is not null; reading a field of null throws. |
| Nlp.MapFromItems | backend/services/nlpService.js:132 | When the map succeeds, each record's result sits at that record's own position. |
| Nlp.MapFromFails | backend/services/nlpService.js:132-150 | The map throws iff some record's normalisation throws. |
| Nlp.NormaliseAllFails | backend/services/nlpService.js:132-150 | Normalisation fails iff some record is null. |
| Nlp.NormalisedFields | backend/services/nlpService.js:133-141 | Ids are by position. The raw token falls back to the brand name, and frequency is kept iff numeric. |
| Nlp.RunNlpExtraction | backend/services/nlpService.js:91-154 | Blank text returns an empty list with no message; otherwise the result and the messages are those of the retry loop, i.e. exactly `NlpExtraction` and `MessagesSent`. |
| Nlp.RetryExtraction | backend/services/nlpService.js:97-151 | The loop over at most three attempts returns the first successful attempt's records or, after three failures, the failure naming the last error; the messages it sends are exactly `MessagesFrom`, in order. |
| Nlp.BlankTextCallsNothing | backend/services/nlpService.js:92-94 | Blank text returns an empty list without calling the model. |
| Nlp.MessagesBounded | backend/services/nlpService.js:97-105 | Between one and three messages are sent. The first uses the plain prompt, the retries the strict prompt. |
| Nlp.FailureMeansThreeFailedAttempts | backend/services/nlpService.js:97-150 | For non-blank text, extraction fails iff all three attempts fail. |
| Nlp.FailureAfterThreeMessages | backend/services/nlpService.js:97-154 | A failed extraction sent exactly three messages and reports the error of the third attempt. |
| Nlp.FailureReportsLastError | backend/services/nlpService.js:143-154 | A failed run reports the error of its last attempt, which failed. |
| Nlp.AttemptsFail | backend/services/nlpService.js:97-150 | The remaining attempts fail iff each of them fails. |
| Nlp.FailedAttemptsSendAll | backend/services/nlpService.js:97-150 | A failed run sends one message per remaining attempt. |
| Nlp.SuccessIsFirstSuccess | backend/services/nlpService.js:97-150 | A successful run returns the outcome of the first attempt that succeeds. Every earlier attempt failed. |
| CatalogueImport.NoFormWordBrandName | backend/scripts/importMedicines.js:30-33 | A name without a whole-word dosage-form word is only trimmed. |
| CatalogueImport.FormWordsRemoved | backend/scripts/importMedicines.js:30-33 | The brand name without its form words is the original name read at strictly increasing kept positions. No kept position starts a whole form word, and every dropped position lies inside the whole form word matched where it starts, so exactly the whole form words found by the scan are deleted. |
| CatalogueImport.NoFormWordLeft | backend/scripts/importMedicines.js:30-33 | The name left after the form words are stripped holds no whole form word at any position: a single replace pass leaves no match for a second one. |
| CatalogueImport.ScanMatchIsWord | backend/scripts/importMedicines.js:30-33 | A whole form word at the scan position is the match there when no earlier alternative matches: the alternation takes the first listed word, not the longest, and the match is never empty. |
| CatalogueImport.MatchFromPicksFirst | backend/scripts/importMedicines.js:32 | The alternation picks the first listed form word matching as a whole word. |
| CatalogueImport.FirstFiring | backend/scripts/importMedicines.js:38-50 | Finds the first rule of the ladder whose pattern occurs. |
| CatalogueImport.FormIsFirstFiringRule | backend/scripts/importMedicines.js:38-50 | The form is the label of the first rule that fires, or "Tablet" when none does. |
| CatalogueImport.TabletBeatsCapsule | backend/scripts/importMedicines.js:41-42 | A text mentioning both tablet and capsule is a Tablet. |
| CatalogueImport.GroupEnd | backend/scripts/importMedicines.js:56 | A parenthesised group ends at its first `)` on the same line. |
| CatalogueImport.GroupEndMissed | backend/scripts/importMedicines.js:56 | When no group end is found, a line terminator comes before every later `)`. |
| CatalogueImport.NoParenUnchanged | backend/scripts/importMedicines.js:56 | Text without `(` keeps its drug name unchanged. |
| CatalogueImport.GenericNameShape | backend/scripts/importMedicines.js:55-61 | Two compositions give "a + b", one gives its drug name, and none gives "Unknown". |
| CatalogueImport.FirstGroupFrom | backend/scripts/importMedicines.js:67-70 | A non-empty strength is the content, up to the first `)`, of the leftmost non-empty parenthesised group; no earlier position starts one. The strength is empty iff there is no such group, and never holds `)`. |
| CatalogueImport.StrengthShape | backend/scripts/importMedicines.js:66-78 | Two strengths give "a + b"; a single strength, from either composition, gives itself; none gives "Standard". |
| CatalogueImport.NormaliseRow | backend/scripts/importMedicines.js:95-120 | A row without a name is skipped. A record is a combination iff its second composition is non-blank. It has no category, and its form is a ladder label. |
| CatalogueImport.RecordsCount | backend/scripts/importMedicines.js:95-120 | One record per named row. |
| CatalogueImport.CollectRecords | backend/scripts/importMedicines.js:95-120 | The row loop builds exactly the records of the specification. |
| CatalogueImport.Batches | backend/scripts/importMedicines.js:125-138 | Every batch is non-empty and holds at most 500 records. |
| CatalogueImport.BatchesCover | backend/scripts/importMedicines.js:125-138 | The batches, concatenated, are the records in order. |
| CatalogueImport.BatchesFull | backend/scripts/importMedicines.js:125-138 | Every batch but the last holds exactly 500 records. |
| CatalogueImport.InsertedAtMost | backend/scripts/importMedicines.js:125-138 | The inserted count is at most the number of records, and equals it when every batch is accepted. |
| CatalogueImport.InsertBatches | backend/scripts/importMedicines.js:124-138 | The loop sends exactly the batches, in order. It counts a batch only when the store accepts it, and continues after a failure. |
| CatalogueImport.ImportMedicines | backend/scripts/importMedicines.js:84-146 | The whole import inserts the accepted batches' records, at most one per named row. |
| BucketImport.ExtractFormAgrees | backend/scripts/importFromBucket.js:24-36 | The bucket's one-argument form ladder equals the other script's ladder given an empty pack size. |
| BucketImport.NormaliseRowAgrees | backend/scripts/importFromBucket.js:79-97 | Both scripts build the same record from the same row. |
| BucketImport.ImportFromBucket | backend/scripts/importFromBucket.js:58-117 | A failed download fails with "Download failed: " and the error. Otherwise the rows are imported exactly as by the other script, with at most one insert per named row. |
| History.EntriesOf | frontend/src/services/HistoryService.js:10-15 | A missing or unparsable slot reads as the empty history. |
| History.OcrScore | frontend/src/services/HistoryService.js:35 | The OCR score is kept unless it is missing or zero. |
| History.BuildEntry | frontend/src/services/HistoryService.js:20-36 | The entry has the given id and time. Its medicine count equals its summaries, one per extracted medicine, in order. `matched` holds iff that medicine has a match. |
| History.Prepend | frontend/src/services/HistoryService.js:38 | The new entry comes first, the older entries follow in order, and the list is cut to 50. |
| History.WithoutIdIsFilter | frontend/src/services/HistoryService.js:48-53 | Deleting keeps exactly the entries with another id, and changes nothing when no entry has the id. |
| History.WithoutId | frontend/src/services/HistoryService.js:50 | Deleting never lengthens the history, and a one-entry history loses its entry iff the entry has the id. |
| History.WithoutIdAppend | frontend/src/services/HistoryService.js:48-53 | Deleting from a concatenation is deleting from each part, so the kept entries stay newest-first with their repetitions. |
| History.DeleteIdempotent | frontend/src/services/HistoryService.js:48-53 | Deleting an id twice is deleting it once. |
| History.NoDeduplication | frontend/src/services/HistoryService.js:38 | Saving twice keeps both entries, newest first, at the head of the history even when it is full; with room for both, the older entries follow unchanged. |
| History.SaveBounded | frontend/src/services/HistoryService.js:38 | After a save the history holds at most 50 entries. Below 50, nothing is dropped. |
| History.HistoryStore.GetHistory | frontend/src/services/HistoryService.js:10-15 | Reads the slot's entries, or the empty list. |
| History.HistoryStore.SaveToHistory | frontend/src/services/HistoryService.js:17-42 | Prepends the built entry and returns it; the input type defaults to "image". A failing write changes nothing and returns null. |
| History.HistoryStore.ClearHistory | frontend/src/services/HistoryService.js:44-46 | Removes the slot unless removal throws. |
| History.HistoryStore.DeleteHistoryEntry | frontend/src/services/HistoryService.js:48-53 | Writes back the history without the id, unless the write throws. |
| Dosage.FrequencyOrOne | frontend/src/components/DosageTimeline.jsx:12 | A missing or zero frequency counts as once a day; any other frequency is kept. The result is never zero. |
| Dosage.ToSlots | frontend/src/components/DosageTimeline.jsx:11-17 | Between one and four distinct slots in increasing order, always including the morning. |
| Dosage.SlotsByFrequency | frontend/src/components/DosageTimeline.jsx:11-17 | Four or more doses take every slot, and three skip the evening. Two take morning and night, and anything else the morning. |
| Dosage.Matched | frontend/src/components/DosageTimeline.jsx:32-33 | Every scheduled medicine is matched, and a single medicine is scheduled iff it is matched. |
| Dosage.MatchedIsFilter | frontend/src/components/DosageTimeline.jsx:32-33 | Exactly the matched medicines are scheduled. None are scheduled iff none matched. |
| Dosage.MatchedAppend | frontend/src/components/DosageTimeline.jsx:32-33 | Filtering a concatenation is concatenating the filtered parts, so scheduled medicines keep their order and repetitions. |
| Dosage.ScheduleRows | frontend/src/components/DosageTimeline.jsx:34-41 | Each row carries its medicine's name and slots. A missing or zero duration becomes 7 and a missing or zero frequency becomes 1; other values are kept. The colour cycles through the eight palette entries. |
| Dosage.Planner | frontend/src/components/DosageTimeline.jsx:43 | Nothing is rendered iff no medicine is matched. |
| Dosage.Active | frontend/src/components/DosageTimeline.jsx:110 | A slot row is never longer than the schedule, and a single scheduled medicine is in it iff it takes that slot. |
| Dosage.ActiveAppend | frontend/src/components/DosageTimeline.jsx:110 | Filtering a concatenation is concatenating the filtered parts, so a slot row keeps the schedule's order and repetitions. |
| Dosage.ActiveIsFilter | frontend/src/components/DosageTimeline.jsx:110 | A slot row lists exactly the scheduled medicines taking that slot. |
| Dosage.DotIff | frontend/src/components/DosageTimeline.jsx:110-137 | A medicine has a dot in a cell iff it takes that slot and the day lies within its duration. |

## Left out

- Image preprocessing, Tesseract, the vision and language models, the embedding service and every Supabase query or insert are outside this model. Each is a parameter: an outcome, a reply or an oracle function.
- CSV reading, file and bucket downloads, and `JSON.parse` are outside this model. The rows, the download result and the parser are parameters.
- The passes run concurrently under `Promise.all`. The model runs them in order, which gives the same result list.
- Scores are modelled as exact reals, not IEEE doubles. `Math.round` is modelled as floor(x + 0.5).
- Lower-casing is ASCII only: Unicode case mapping is not modelled. White space is the full ECMAScript `\s` set, and `\b` and `\w` are the ASCII word characters, as in a regular expression without the `u` flag.
- A catalogue row whose brand name, generic name or form is null is not modelled: the engine's `toLowerCase` and `includes` calls throw on it, and the importers never store one.
- Matching.ScoreNeverRaised: states final ≤ round(raw) rather than final ≤ raw, because rounding to two decimals can raise a score (see Matching.RoundingCanRaise).
- The vector stage's ranking is done by the database function. The model takes the returned rows in order.
- Nlp.RetryExtraction: the statement after the retry loop that returns an empty list cannot be reached, and is not modelled.
- Record ids, timestamps and history ids come from the clock and `Math.random`, and are parameters.
- History: a storage read that throws behaves like unparsable text. A stored JSON value that is not a list is not modelled, and neither is a stored list whose elements are not entries (such as `[null]`): reading `h.id` from one throws inside `deleteHistoryEntry`, which then leaves the slot unchanged.
- String lengths count characters (Unicode scalar values), not the UTF-16 code units JavaScript's `.length` counts. The 10-character thresholds on OCR text (backend/services/ocrService.js:151-152, 180, 208) therefore differ from the source for text with characters outside the Basic Multilingual Plane, such as emoji.
- Logging, `console` output and the debug `pass_results` beyond the flag are not modelled.
- The JSX layout and styling of the planner are not modelled; only which cells show a dot, and for which medicine, is modelled.
