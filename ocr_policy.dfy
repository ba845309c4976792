/**
 * The escalation policy of the multi-pass OCR service
 * (backend/services/ocrService.js): which preprocessing variants run, which
 * of their results feed the consensus, and how the final transcript is chosen
 * between the vision model, the consensus and the best single pass.
 *
 * Each Tesseract pass and the vision call are inputs: a pass is what
 * recognition returned for that variant, or the fact that it threw; the vision
 * call is `Ok(content)` with the reply's content (`""` when the reply had
 * none) or `Err(message)`.
 */
module OcrPolicy {
  import opened Wrappers
  import opened Text
  import opened Consensus

  /** The preprocessing variants, in the order they are selected. */
  const Variants: seq<string> := ["standard", "highContrast", "binarized", "deskewed", "inverted"]

  /** Below this best-pass confidence Tesseract is treated as unreliable. */
  const TesseractQualityThreshold: real := 55.0

  /** What one Tesseract pass produced: its text and confidence, or an exception. */
  datatype PassOutcome = Recognised(text: string, confidence: real) | Failed

  /**
   * `fallback_used`: `null`, `'gpt4o_vision'` or `'best_single_pass'`;
   * `Unreported` when the result has no such field at all.
   */
  datatype Fallback = NoFallback | VisionFallback | BestSinglePass | Unreported

  /** The OCR result record; `passResults` is `None` unless debugging. */
  datatype OcrResult = OcrResult(
    finalText: string,
    consensusScore: real,
    qualityTag: QualityTag,
    passesCompleted: nat,
    passesAgreed: nat,
    passResults: Option<seq<PassResult>>,
    fallbackUsed: Fallback)

  function Min(a: int, b: int): int {
    if a <= b then a else b
  }

  /**
   * How many variants `PREPROCESSING_VARIANTS.slice(0, Math.min(passes, 5))`
   * keeps: a negative end counts back from the end of the five.
   */
  function SelectedCount(passes: int): (n: nat)
    ensures n <= |Variants|
  {
    var end := Min(passes, |Variants|);
    if end >= 0 then end
    else if |Variants| + end >= 0 then |Variants| + end
    else 0
  }

  /** For a non-negative `passes`, the number of passes run is `min(passes, 5)`. */
  lemma SelectedCountIsMin(passes: int)
    requires passes >= 0
    ensures SelectedCount(passes) == Min(passes, 5)
    ensures passes >= 5 ==> SelectedCount(passes) == 5
  {
  }

  /** One pass's record: a pass that threw is kept, with empty text and confidence 0. */
  function RunPass(variant: string, outcome: PassOutcome): (r: PassResult)
    ensures r.variant == variant
    ensures outcome.Failed? ==> r.text == "" && r.confidence == 0.0
    ensures outcome.Recognised? ==> r.text == outcome.text && r.confidence == outcome.confidence
  {
    match outcome
    case Recognised(text, confidence) => PassResult(variant, text, confidence)
    case Failed => PassResult(variant, "", 0.0)
  }

  /** The records of all selected passes, one per selected variant, in variant order. */
  function PassResults(outcomes: seq<PassOutcome>, passes: int): (r: seq<PassResult>)
    requires |outcomes| == |Variants|
    ensures |r| == SelectedCount(passes)
    ensures forall i :: 0 <= i < |r| ==> r[i] == RunPass(Variants[i], outcomes[i])
  {
    seq(SelectedCount(passes), i requires 0 <= i < SelectedCount(passes) => RunPass(Variants[i], outcomes[i]))
  }

  predicate Blank(s: string) {
    Trim(s) == []
  }

  /** `passResults.filter((p) => p.text.trim().length > 0)`. */
  function ValidPasses(ps: seq<PassResult>): (r: seq<PassResult>)
    ensures |r| <= |ps|
    ensures forall p :: p in r <==> p in ps && !Blank(p.text)
    ensures |ps| == 1 ==> r == if Blank(ps[0].text) then [] else ps
    decreases |ps|
  {
    if ps == [] then []
    else if Blank(ps[0].text) then ValidPasses(ps[1..])
    else [ps[0]] + ValidPasses(ps[1..])
  }

  /**
   * The filter keeps the passes in their order and each as often as it
   * occurs: filtering a concatenation concatenates the filtered halves.
   */
  lemma {:induction false} ValidPassesAppend(a: seq<PassResult>, b: seq<PassResult>)
    ensures ValidPasses(a + b) == ValidPasses(a) + ValidPasses(b)
    decreases |a|
  {
    if a == [] {
      assert a + b == b;
    } else {
      assert (a + b)[0] == a[0] && (a + b)[1..] == a[1..] + b;
      ValidPassesAppend(a[1..], b);
    }
  }

  /** A pass that threw never reaches the consensus or the best-pass choice. */
  lemma FailedPassIsDropped(ps: seq<PassResult>, variant: string)
    ensures RunPass(variant, Failed) !in ValidPasses(ps)
  {
    assert Trim(RunPass(variant, Failed).text) == [];
  }

  /**
   * `validPasses.reduce((best, pass) => pass.confidence > best.confidence ? pass : best)`,
   * as the index of the pass it returns.
   */
  function BestIndex(ps: seq<PassResult>): (b: nat)
    requires ps != []
    ensures b < |ps|
    decreases |ps|
  {
    if |ps| == 1 then 0
    else
      var b := BestIndex(ps[..|ps| - 1]);
      if ps[|ps| - 1].confidence > ps[b].confidence then |ps| - 1 else b
  }

  /** Because `reduce` replaces only on a strictly higher confidence, the best pass is the first of maximal confidence. */
  lemma {:induction false} BestIndexIsFirstMax(ps: seq<PassResult>)
    requires ps != []
    ensures forall j :: 0 <= j < |ps| ==> ps[j].confidence <= ps[BestIndex(ps)].confidence
    ensures forall j :: 0 <= j < BestIndex(ps) ==> ps[j].confidence < ps[BestIndex(ps)].confidence
    decreases |ps|
  {
    if |ps| > 1 {
      var init := ps[..|ps| - 1];
      BestIndexIsFirstMax(init);
      assert forall j :: 0 <= j < |init| ==> init[j] == ps[j];
    }
  }

  function DebugPasses(debug: bool, ps: seq<PassResult>): Option<seq<PassResult>> {
    if debug then Some(ps) else None
  }

  /** `gpt4oVisionOCR` returns the trimmed reply. */
  function VisionText(content: string): string {
    Trim(content)
  }

  /** Whether a vision transcript is long enough to be used: `visionText.length > 10`. */
  predicate Usable(visionText: string) {
    |visionText| > 10
  }

  /** Lines 146-157: no pass has any text, so vision is called and its error is not caught. */
  function VisionOnly(all: seq<PassResult>, debug: bool, vision: Result<string>): (r: Result<OcrResult>)
    ensures vision.Err? <==> r.Err?
    ensures r.Ok? ==> r.value.fallbackUsed == VisionFallback && r.value.passesAgreed == 0
    ensures r.Ok? ==> r.value.passesCompleted == |all| && r.value.finalText == VisionText(vision.value)
    ensures r.Ok? ==> (Usable(r.value.finalText) <==> r.value.consensusScore == 95.0)
    ensures r.Ok? ==> (Usable(r.value.finalText) <==> r.value.qualityTag == HighConfidence)
    ensures r.Ok? && !Usable(r.value.finalText) ==> r.value.consensusScore == 0.0 && r.value.qualityTag == LowQuality
  {
    match vision
    case Err(e) => Err(e)
    case Ok(content) =>
      var visionText := VisionText(content);
      Ok(OcrResult(visionText, if Usable(visionText) then 95.0 else 0.0,
                   if Usable(visionText) then HighConfidence else LowQuality,
                   |all|, 0, DebugPasses(debug, all), VisionFallback))
  }

  /** Lines 172-174: vision is tried when the best pass or the consensus is poor. */
  predicate WantsVision(best: PassResult, consensus: ConsensusResult) {
    best.confidence < TesseractQualityThreshold || consensus.score < 30.0
  }

  /** Lines 200-225: the consensus, or the best single pass when the consensus is poor. */
  function TesseractResult(all: seq<PassResult>, best: PassResult, consensus: ConsensusResult, debug: bool): (r: OcrResult)
    ensures r.passesCompleted == |all| && r.passResults == DebugPasses(debug, all)
    ensures r.qualityTag == DeriveQualityTag(r.consensusScore)
    ensures r.fallbackUsed == BestSinglePass <==> consensus.score < 20.0 || |Trim(consensus.text)| < 10
    ensures r.fallbackUsed == BestSinglePass ==>
      r.finalText == Trim(best.text) && r.consensusScore == best.confidence && r.passesAgreed == 1
    ensures r.fallbackUsed != BestSinglePass ==>
      r.fallbackUsed == NoFallback && r.finalText == consensus.text
      && r.consensusScore == consensus.score && r.passesAgreed == consensus.agreedCount
  {
    if consensus.score < 20.0 || |Trim(consensus.text)| < 10 then
      OcrResult(Trim(best.text), best.confidence, DeriveQualityTag(best.confidence), |all|, 1,
                DebugPasses(debug, all), BestSinglePass)
    else
      OcrResult(consensus.text, consensus.score, DeriveQualityTag(consensus.score), |all|,
                consensus.agreedCount, DebugPasses(debug, all), NoFallback)
  }

  /**
   * Lines 160-225 once some pass has text: vision when it is wanted, answers
   * and is long enough; otherwise the Tesseract result.
   */
  function Escalate(all: seq<PassResult>, valid: seq<PassResult>, consensus: ConsensusResult,
                    debug: bool, vision: Result<string>): OcrResult
    requires valid != []
  {
    var best := valid[BestIndex(valid)];
    if WantsVision(best, consensus) && vision.Ok? && Usable(VisionText(vision.value)) then
      var visionText := VisionText(vision.value);
      OcrResult(visionText, 95.0, HighConfidence, |all|, 0,
                DebugPasses(debug, all + [PassResult("gpt4o_vision", visionText, 95.0)]), VisionFallback)
    else
      TesseractResult(all, best, consensus, debug)
  }

  /** `runMultiPassOCR`: the whole decision, given what each pass and the vision call return. */
  function MultiPassOcr(outcomes: seq<PassOutcome>, passes: int, minConsensus: int, debug: bool,
                        vision: Result<string>): Result<OcrResult>
    requires |outcomes| == |Variants|
  {
    var all := PassResults(outcomes, passes);
    var valid := ValidPasses(all);
    if valid == [] then VisionOnly(all, debug, vision)
    else Ok(Escalate(all, valid, Consensus.Consensus(valid, minConsensus), debug, vision))
  }

  /** The service with its steps in the source's order: run passes, filter, vote, pick, escalate. */
  method RunMultiPassOcr(outcomes: seq<PassOutcome>, passes: int, minConsensus: int, debug: bool,
                         vision: Result<string>) returns (r: Result<OcrResult>)
    requires |outcomes| == |Variants|
    ensures r == MultiPassOcr(outcomes, passes, minConsensus, debug, vision)
  {
    var selected := SelectedCount(passes);
    var passResults: seq<PassResult> := [];
    for i := 0 to selected
      invariant passResults == PassResults(outcomes, passes)[..i]
    {
      passResults := passResults + [RunPass(Variants[i], outcomes[i])];
    }
    assert passResults == PassResults(outcomes, passes);
    var validPasses := ValidPasses(passResults);
    if |validPasses| == 0 {
      r := VisionOnly(passResults, debug, vision);
      return;
    }
    var consensusResult := BuildConsensus(validPasses, minConsensus);
    var result := EscalateSteps(passResults, validPasses, consensusResult, debug, vision);
    r := Ok(result);
  }

  /** Lines 162-225: pick the best pass, try vision when wanted, then settle on the Tesseract result. */
  method EscalateSteps(passResults: seq<PassResult>, validPasses: seq<PassResult>,
                       consensusResult: ConsensusResult, debug: bool, vision: Result<string>)
    returns (r: OcrResult)
    requires validPasses != []
    ensures r == Escalate(passResults, validPasses, consensusResult, debug, vision)
  {
    var qualityTag := DeriveQualityTag(consensusResult.score);
    var bestPass := PickBestPass(validPasses);
    if bestPass.confidence < TesseractQualityThreshold || consensusResult.score < 30.0 {
      if vision.Ok? {
        var visionText := VisionText(vision.value);
        if |visionText| > 10 {
          var debugPasses := if debug then Some(passResults + [PassResult("gpt4o_vision", visionText, 95.0)]) else None;
          return OcrResult(visionText, 95.0, HighConfidence, |passResults|, 0, debugPasses, VisionFallback);
        }
      }
    }
    var finalText := consensusResult.text;
    var finalScore := consensusResult.score;
    var finalTag := qualityTag;
    var agreedCount := consensusResult.agreedCount;
    var fallbackUsed := NoFallback;
    if consensusResult.score < 20.0 || |Trim(finalText)| < 10 {
      finalText := Trim(bestPass.text);
      finalScore := bestPass.confidence;
      finalTag := DeriveQualityTag(finalScore);
      agreedCount := 1;
      fallbackUsed := BestSinglePass;
    }
    r := OcrResult(finalText, finalScore, finalTag, |passResults|, agreedCount,
                   DebugPasses(debug, passResults), fallbackUsed);
  }

  /** Lines 165-167: the `reduce` over the valid passes, as a loop. */
  method PickBestPass(valid: seq<PassResult>) returns (best: PassResult)
    requires valid != []
    ensures best == valid[BestIndex(valid)]
  {
    best := valid[0];
    for i := 1 to |valid|
      invariant best == valid[..i][BestIndex(valid[..i])]
    {
      assert valid[..i + 1][..i] == valid[..i];
      if valid[i].confidence > best.confidence {
        best := valid[i];
      }
    }
    assert valid[..|valid|] == valid;
  }

  /** `runRawTextInput`: typed text skips OCR and is taken as certain. */
  function RawTextInput(text: string): (r: OcrResult)
    ensures r.finalText == Trim(text) && r.consensusScore == 100.0 && r.qualityTag == HighConfidence
    ensures r.passesCompleted == 0 && r.passesAgreed == 0 && r.passResults == None
    ensures r.fallbackUsed == Unreported
  {
    OcrResult(Trim(text), 100.0, HighConfidence, 0, 0, None, Unreported)
  }

  // ---------------------------------------------------------------------
  // Properties of the whole decision
  // ---------------------------------------------------------------------

  /** Every outcome, on every path, reports `min(passes, 5)` passes completed (for `passes >= 0`). */
  lemma PassesCompleted(outcomes: seq<PassOutcome>, passes: int, minConsensus: int, debug: bool,
                        vision: Result<string>)
    requires |outcomes| == |Variants|
    ensures var r := MultiPassOcr(outcomes, passes, minConsensus, debug, vision);
      r.Ok? ==> r.value.passesCompleted == SelectedCount(passes)
  {
    var all := PassResults(outcomes, passes);
    var valid := ValidPasses(all);
    if valid != [] {
      var r := Escalate(all, valid, Consensus.Consensus(valid, minConsensus), debug, vision);
      assert r.passesCompleted == |all|;
    }
  }

  /** Only the vision-only path can fail, and only when the vision call fails. */
  lemma FailsOnlyWithoutText(outcomes: seq<PassOutcome>, passes: int, minConsensus: int, debug: bool,
                             vision: Result<string>)
    requires |outcomes| == |Variants|
    ensures MultiPassOcr(outcomes, passes, minConsensus, debug, vision).Err? <==>
      ValidPasses(PassResults(outcomes, passes)) == [] && vision.Err?
  {
  }

  /**
   * Apart from the number of passes and the debug listing, the result depends on
   * the passes only through the valid ones: blank and failed passes are ignored.
   */
  lemma OnlyValidPassesMatter(a: seq<PassResult>, b: seq<PassResult>, consensus: ConsensusResult,
                              vision: Result<string>)
    requires |a| == |b| && ValidPasses(a) == ValidPasses(b) && ValidPasses(a) != []
    ensures Escalate(a, ValidPasses(a), consensus, false, vision)
         == Escalate(b, ValidPasses(b), consensus, false, vision)
  {
  }

  /** When neither the best pass nor the consensus is poor, vision is not consulted. */
  lemma NoVisionWhenGood(all: seq<PassResult>, valid: seq<PassResult>, consensus: ConsensusResult,
                         debug: bool, v1: Result<string>, v2: Result<string>)
    requires valid != []
    requires !WantsVision(valid[BestIndex(valid)], consensus)
    ensures Escalate(all, valid, consensus, debug, v1) == Escalate(all, valid, consensus, debug, v2)
    ensures Escalate(all, valid, consensus, debug, v1).fallbackUsed != VisionFallback
  {
  }

  /** With some text, vision is adopted exactly when it is wanted, answers, and is longer than 10 characters. */
  lemma VisionAdoptedIff(all: seq<PassResult>, valid: seq<PassResult>, consensus: ConsensusResult,
                         debug: bool, vision: Result<string>)
    requires valid != []
    ensures var r := Escalate(all, valid, consensus, debug, vision);
      r.fallbackUsed == VisionFallback <==>
        WantsVision(valid[BestIndex(valid)], consensus) && vision.Ok? && Usable(VisionText(vision.value))
    ensures var r := Escalate(all, valid, consensus, debug, vision);
      r.fallbackUsed == VisionFallback ==>
        r.finalText == VisionText(vision.value) && r.consensusScore == 95.0
        && r.qualityTag == HighConfidence && r.passesAgreed == 0
  {
  }

  /** A vision error or a short vision reply falls through to the Tesseract result. */
  lemma VisionFailureFallsThrough(all: seq<PassResult>, valid: seq<PassResult>, consensus: ConsensusResult,
                                  debug: bool, vision: Result<string>)
    requires valid != []
    requires vision.Err? || !Usable(VisionText(vision.value))
    ensures Escalate(all, valid, consensus, debug, vision)
         == TesseractResult(all, valid[BestIndex(valid)], consensus, debug)
  {
  }

  /** A poor consensus falls back to the best pass, which is the first valid pass of maximal confidence. */
  lemma BestSinglePassIsBest(all: seq<PassResult>, valid: seq<PassResult>, consensus: ConsensusResult,
                             debug: bool, vision: Result<string>)
    requires valid != []
    ensures var r := Escalate(all, valid, consensus, debug, vision);
      r.fallbackUsed == BestSinglePass ==>
        exists b :: (0 <= b < |valid| && r.finalText == Trim(valid[b].text) && r.consensusScore == valid[b].confidence
          && (forall j :: 0 <= j < |valid| ==> valid[j].confidence <= valid[b].confidence)
          && (forall j :: 0 <= j < b ==> valid[j].confidence < valid[b].confidence))
  {
    BestIndexIsFirstMax(valid);
    var b := BestIndex(valid);
    var r := Escalate(all, valid, consensus, debug, vision);
    if r.fallbackUsed == BestSinglePass {
      assert r.finalText == Trim(valid[b].text) && r.consensusScore == valid[b].confidence;
    }
  }

  /** The reported score always lies in [0, 100] when the pass confidences do. */
  lemma ScoreInRange(outcomes: seq<PassOutcome>, passes: int, minConsensus: int, debug: bool,
                     vision: Result<string>)
    requires |outcomes| == |Variants|
    requires forall i :: 0 <= i < |outcomes| && outcomes[i].Recognised? ==> 0.0 <= outcomes[i].confidence <= 100.0
    ensures var r := MultiPassOcr(outcomes, passes, minConsensus, debug, vision);
      r.Ok? ==> 0.0 <= r.value.consensusScore <= 100.0
  {
    var all := PassResults(outcomes, passes);
    var valid := ValidPasses(all);
    if valid != [] {
      ConsensusScoreRange(valid, minConsensus);
      PassConfidences(outcomes, passes);
      var b := BestIndex(valid);
      assert valid[b] in all;
      EscalateScoreRange(all, valid, Consensus.Consensus(valid, minConsensus), debug, vision);
    }
  }

  lemma EscalateScoreRange(all: seq<PassResult>, valid: seq<PassResult>, consensus: ConsensusResult,
                           debug: bool, vision: Result<string>)
    requires valid != [] && 0.0 <= consensus.score <= 100.0
    requires 0.0 <= valid[BestIndex(valid)].confidence <= 100.0
    ensures 0.0 <= Escalate(all, valid, consensus, debug, vision).consensusScore <= 100.0
  {
  }

  lemma PassConfidences(outcomes: seq<PassOutcome>, passes: int)
    requires |outcomes| == |Variants|
    requires forall i :: 0 <= i < |outcomes| && outcomes[i].Recognised? ==> 0.0 <= outcomes[i].confidence <= 100.0
    ensures forall p :: p in PassResults(outcomes, passes) ==> 0.0 <= p.confidence <= 100.0
  {
    var all := PassResults(outcomes, passes);
    forall p | p in all ensures 0.0 <= p.confidence <= 100.0 {
      var i :| 0 <= i < |all| && all[i] == p;
      assert p == RunPass(Variants[i], outcomes[i]);
    }
  }

  lemma ConsensusScoreRange(passResults: seq<PassResult>, minPasses: int)
    ensures 0.0 <= Consensus.Consensus(passResults, minPasses).score <= 100.0
  {
    if |passResults| >= 2 && MaxLen(TokenizeAll(passResults)) > 0 {
      ConsensusOutput(passResults, minPasses);
    }
  }
}
