/**
 * Post-processing of the language model's reply in the entity-extraction
 * service (backend/services/nlpService.js): the bounded retry loop, the
 * stripping of markdown code fences, the wrapping of a single parsed value
 * into a list, and the defaulting and numbering of the extracted records.
 *
 * The model call is the oracle `reply(attempt, prompt)`; `JSON.parse` is the
 * oracle `parse`, whose successful results are `Json` values.
 */
module Nlp {
  import opened Wrappers
  import opened Text

  /** A parsed JSON value. Object members are looked up by key. */
  datatype Json =
    | JNull
    | JBool(b: bool)
    | JNumber(n: real)
    | JString(s: string)
    | JArray(items: seq<Json>)
    | JObject(members: map<string, Json>)

  /** One extracted medicine as returned to the caller (lines 132-142). */
  datatype ExtractedMedicine = ExtractedMedicine(
    id: string,
    brandName: Json,
    rawBrandToken: Json,
    brandVariant: Json,
    form: Json,
    frequencyPerDay: Option<real>,
    durationDays: Option<real>)

  const MaxRetries: nat := 2

  // ---------------------------------------------------------------------
  // Fence stripping (lines 117-124)
  // ---------------------------------------------------------------------

  const Fence: string := "```"

  /** `response.choices[0]?.message?.content || '[]'`. */
  function ContentOrEmptyList(content: Option<string>): (c: string)
    ensures c != ""
  {
    if content.Some? && content.value != "" then content.value else "[]"
  }

  /** `replace(/^```json\s*\/i, '')`. */
  function StripJsonFence(s: string): string {
    if |s| >= 7 && s[..3] == Fence && LowerStr(s[3..7]) == "json" then TrimStart(s[7..]) else s
  }

  /** `replace(/^```\s*\/i, '')`. */
  function StripOpeningFence(s: string): string {
    if StartsWith(s, Fence) then TrimStart(s[3..]) else s
  }

  /** `replace(/\s*```$/i, '')`: the closing fence and the white space before it. */
  function StripClosingFence(s: string): string {
    if EndsWith(s, Fence) then TrimEnd(s[..|s| - 3]) else s
  }

  /** The text handed to `JSON.parse`. */
  function CleanReply(content: string): string {
    Trim(StripClosingFence(StripOpeningFence(StripJsonFence(content))))
  }

  /** A reply without fences is only trimmed. */
  lemma UnfencedReplyIsTrimmed(content: string)
    requires !StartsWith(content, Fence) && !EndsWith(content, Fence)
    ensures CleanReply(content) == Trim(content)
  {
  }

  /** A reply fenced as a json code block gives back exactly the block's content. */
  lemma JsonFenceRoundTrip(body: string, lead: string, trail: string)
    requires body != [] && !IsSpace(body[0]) && !IsSpace(body[|body| - 1])
    requires body[0] != '`'
    requires forall i :: 0 <= i < |lead| ==> IsSpace(lead[i])
    requires forall i :: 0 <= i < |trail| ==> IsSpace(trail[i])
    ensures CleanReply("```json" + lead + body + trail + Fence) == body
  {
    var t := body + trail + Fence;
    assert "```json" + lead + body + trail + Fence == "```json" + lead + t;
    OpeningJsonFenceRemoved(lead, t);
    assert t[..3] != Fence by {
      assert t[0] == body[0];
    }
    ClosingFenceRemoved(body, trail);
    TrimNoOuterSpace(body);
  }

  /** The opening `json` fence goes, with the white space after it. */
  lemma OpeningJsonFenceRemoved(lead: string, t: string)
    requires forall i :: 0 <= i < |lead| ==> IsSpace(lead[i])
    requires t != [] && !IsSpace(t[0])
    ensures StripJsonFence("```json" + lead + t) == t
  {
    var s := "```json" + lead + t;
    assert s[..7] == "```json";
    assert s[..3] == Fence && s[3..7] == "json";
    assert LowerStr("json") == "json";
    assert s[7..] == lead + t;
    TrimStartSpaces(lead, t);
  }

  /** The closing fence goes, with the white space before it. */
  lemma ClosingFenceRemoved(body: string, trail: string)
    requires body != [] && !IsSpace(body[|body| - 1])
    requires forall i :: 0 <= i < |trail| ==> IsSpace(trail[i])
    ensures StripClosingFence(body + trail + Fence) == body
  {
    var t := body + trail + Fence;
    assert t[..|t| - 3] == body + trail;
    TrimEndSpaces(body, trail);
  }

  /** A reply fenced as a plain code block gives back exactly the block's content. */
  lemma PlainFenceRoundTrip(body: string, trail: string)
    requires body != [] && !IsSpace(body[0]) && !IsSpace(body[|body| - 1])
    requires forall i :: 0 <= i < |trail| ==> IsSpace(trail[i])
    ensures CleanReply(Fence + "\n" + body + trail + Fence) == body
  {
    var s := Fence + "\n" + body + trail + Fence;
    assert s[3] == '\n';
    assert StripJsonFence(s) == s by {
      if |s| >= 7 {
        assert LowerStr(s[3..7])[0] == Lower(s[3]);
      }
    }
    assert StartsWith(s, Fence);
    var t := body + trail + Fence;
    assert s[3..] == "\n" + t;
    TrimStartSpaces("\n", t);
    assert t[..|t| - 3] == body + trail;
    TrimEndSpaces(body, trail);
    TrimNoOuterSpace(body);
  }

  lemma {:induction false} TrimStartSpaces(lead: string, t: string)
    requires forall i :: 0 <= i < |lead| ==> IsSpace(lead[i])
    requires t != [] && !IsSpace(t[0])
    ensures TrimStart(lead + t) == t
    decreases |lead|
  {
    if lead != [] {
      assert (lead + t)[1..] == lead[1..] + t;
      TrimStartSpaces(lead[1..], t);
    }
  }

  lemma {:induction false} TrimEndSpaces(t: string, trail: string)
    requires forall i :: 0 <= i < |trail| ==> IsSpace(trail[i])
    requires t != [] && !IsSpace(t[|t| - 1])
    ensures TrimEnd(t + trail) == t
    decreases |trail|
  {
    if trail != [] {
      var u := trail[..|trail| - 1];
      assert (t + trail)[..|t + trail| - 1] == t + u;
      TrimEndSpaces(t, u);
    } else {
      assert t + trail == t;
    }
  }

  lemma TrimNoOuterSpace(t: string)
    requires t != [] && !IsSpace(t[0]) && !IsSpace(t[|t| - 1])
    ensures Trim(t) == t
  {
    assert TrimStart(t) == t;
    assert TrimEnd(t) == t;
  }

  // ---------------------------------------------------------------------
  // Normalisation of the parsed records (lines 129-142)
  // ---------------------------------------------------------------------

  /** `Array.isArray(parsed) ? parsed : [parsed]`. */
  function AsList(parsed: Json): (r: seq<Json>)
    ensures parsed.JArray? ==> r == parsed.items
    ensures !parsed.JArray? ==> r == [parsed]
  {
    if parsed.JArray? then parsed.items else [parsed]
  }

  /** JavaScript truthiness of a JSON value; `None` is a missing property. */
  predicate Truthy(v: Option<Json>) {
    match v
    case None => false
    case Some(JNull) => false
    case Some(JBool(b)) => b
    case Some(JNumber(n)) => n != 0.0
    case Some(JString(s)) => s != ""
    case Some(_) => true
  }

  /** `med[key]` on a value that is not null; only objects have the record's keys. */
  function Property(med: Json, key: string): Option<Json> {
    if med.JObject? && key in med.members then Some(med.members[key]) else None
  }

  /** `value || fallback`. */
  function OrElse(value: Option<Json>, fallback: Json): (r: Json)
    ensures Truthy(value) ==> Some(r) == value
    ensures !Truthy(value) ==> r == fallback
  {
    if Truthy(value) then value.value else fallback
  }

  /** `typeof value === 'number' ? value : null`. */
  function NumberOrNull(value: Option<Json>): (r: Option<real>)
    ensures r.Some? <==> value.Some? && value.value.JNumber?
  {
    if value.Some? && value.value.JNumber? then Some(value.value.n) else None
  }

  /** The decimal digits of `n`, as `String(n)` writes them. */
  function Decimal(n: nat): (s: string)
    ensures s != [] && (n > 0 ==> s[0] != '0')
    ensures forall i :: 0 <= i < |s| ==> '0' <= s[i] <= '9'
    decreases n
  {
    if n < 10 then [('0' as int + n) as char] else Decimal(n / 10) + [('0' as int + n % 10) as char]
  }

  /** The number a string of decimal digits denotes. */
  function DecimalValue(s: string): nat
    decreases |s|
  {
    if s == [] then 0
    else 10 * DecimalValue(s[..|s| - 1]) + (if '0' <= s[|s| - 1] <= '9' then s[|s| - 1] as int - '0' as int else 0)
  }

  lemma {:induction false} DecimalRoundTrip(n: nat)
    ensures DecimalValue(Decimal(n)) == n
    decreases n
  {
    if n >= 10 {
      DecimalRoundTrip(n / 10);
      var s := Decimal(n);
      assert s[..|s| - 1] == Decimal(n / 10);
    }
  }

  function Zeros(k: nat): (z: string)
    ensures |z| == k && forall i :: 0 <= i < k ==> z[i] == '0'
  {
    seq(k, _ => '0')
  }

  /** Leading zeros do not change the value. */
  lemma {:induction false} LeadingZeros(k: nat, s: string)
    ensures DecimalValue(Zeros(k) + s) == DecimalValue(Zeros(k)) * Pow10(|s|) + DecimalValue(s)
    ensures DecimalValue(Zeros(k)) == 0
    decreases |s| + k
  {
    if s == [] {
      assert Zeros(k) + s == Zeros(k);
      if k > 0 {
        assert Zeros(k)[..k - 1] == Zeros(k - 1);
        LeadingZeros(k - 1, []);
      }
    } else {
      var u := s[..|s| - 1];
      assert (Zeros(k) + s)[..|Zeros(k) + s| - 1] == Zeros(k) + u;
      LeadingZeros(k, u);
    }
  }

  function Pow10(n: nat): nat {
    if n == 0 then 1 else 10 * Pow10(n - 1)
  }

  /** `String(n).padStart(3, '0')`. */
  function Pad3(s: string): (r: string)
    ensures |r| == if |s| >= 3 then |s| else 3
  {
    if |s| >= 3 then s else Zeros(3 - |s|) + s
  }

  /** `ext_${String(idx + 1).padStart(3, '0')}`. */
  function RecordId(idx: nat): (id: string)
    ensures StartsWith(id, "ext_")
    ensures idx < 999 ==> |id| == 7
  {
    var d := Decimal(idx + 1);
    assert idx < 999 ==> |d| <= 3 by {
      if idx < 999 {
        DecimalLength(idx + 1);
      }
    }
    "ext_" + Pad3(d)
  }

  lemma {:induction false} DecimalLength(n: nat)
    requires n < 1000
    ensures |Decimal(n)| <= 3
  {
    if n >= 10 {
      assert |Decimal(n / 10)| <= 2 by {
        if n / 10 >= 10 {
          assert n / 10 / 10 < 10;
        }
      }
    }
  }

  /** The record's number can be read back from its id. */
  lemma RecordIdValue(idx: nat)
    ensures DecimalValue(RecordId(idx)[4..]) == idx + 1
  {
    var d := Decimal(idx + 1);
    DecimalRoundTrip(idx + 1);
    assert RecordId(idx)[4..] == Pad3(d);
    if |d| < 3 {
      LeadingZeros(3 - |d|, d);
    }
  }

  /** Different positions get different ids. */
  lemma RecordIdInjective(i: nat, j: nat)
    requires RecordId(i) == RecordId(j)
    ensures i == j
  {
    RecordIdValue(i);
    RecordIdValue(j);
  }

  /** The record built from the `idx`-th parsed value when it is not null. */
  function Fields(med: Json, idx: nat): ExtractedMedicine {
    var brand := Property(med, "brand_name");
    ExtractedMedicine(
      RecordId(idx),
      OrElse(brand, JString("")),
      OrElse(Property(med, "raw_brand_token"), OrElse(brand, JString(""))),
      OrElse(Property(med, "brand_variant"), JNull),
      OrElse(Property(med, "form"), JNull),
      NumberOrNull(Property(med, "frequency_per_day")),
      NumberOrNull(Property(med, "duration_days")))
  }

  /** Reading a property of null throws a TypeError. */
  function NormaliseMedicine(med: Json, idx: nat): (r: Result<ExtractedMedicine>)
    ensures r.Err? <==> med.JNull?
  {
    if med.JNull? then Err("Cannot read properties of null (reading 'brand_name')") else Ok(Fields(med, idx))
  }

  /** `items.map(f)` from position `start` on, for an `f` that may throw: the first error, or every result in order. */
  function MapFrom(meds: seq<Json>, start: nat, f: (Json, nat) -> Result<ExtractedMedicine>): (r: Result<seq<ExtractedMedicine>>)
    requires start <= |meds|
    ensures r.Ok? ==> |r.value| == |meds| - start
    decreases |meds| - start
  {
    if start == |meds| then Ok([])
    else
      var first := f(meds[start], start);
      if first.Err? then Err(first.error)
      else
        var rest := MapFrom(meds, start + 1, f);
        if rest.Err? then rest else Ok([first.value] + rest.value)
  }

  /** Each result comes from the value at the same position. */
  lemma {:induction false} MapFromItems(meds: seq<Json>, start: nat, f: (Json, nat) -> Result<ExtractedMedicine>)
    requires start <= |meds| && MapFrom(meds, start, f).Ok?
    ensures forall k :: 0 <= k < |meds| - start ==> Ok(MapFrom(meds, start, f).value[k]) == f(meds[start + k], start + k)
    decreases |meds| - start
  {
    if start < |meds| {
      var r := MapFrom(meds, start, f);
      var rest := MapFrom(meds, start + 1, f);
      assert rest.Ok? && r.value == [f(meds[start], start).value] + rest.value;
      MapFromItems(meds, start + 1, f);
      forall k | 0 < k < |meds| - start
        ensures Ok(r.value[k]) == f(meds[start + k], start + k)
      {
        assert r.value[k] == rest.value[k - 1];
        assert start + 1 + (k - 1) == start + k;
      }
    }
  }

  /** The map throws exactly when `f` throws on some value. */
  lemma {:induction false} MapFromFails(meds: seq<Json>, start: nat, f: (Json, nat) -> Result<ExtractedMedicine>)
    requires start <= |meds|
    ensures MapFrom(meds, start, f).Err? <==> exists k :: start <= k < |meds| && f(meds[k], k).Err?
    decreases |meds| - start
  {
    if start < |meds| {
      MapFromFails(meds, start + 1, f);
    }
  }

  /** `medicines.map(...)` (lines 132-142). */
  function NormaliseAll(meds: seq<Json>): (r: Result<seq<ExtractedMedicine>>)
    ensures r.Ok? ==> |r.value| == |meds|
  {
    MapFrom(meds, 0, NormaliseMedicine)
  }

  /** The normalisation throws exactly when some parsed value is null. */
  lemma NormaliseAllFails(meds: seq<Json>)
    ensures NormaliseAll(meds).Err? <==> exists k :: 0 <= k < |meds| && meds[k].JNull?
  {
    MapFromFails(meds, 0, NormaliseMedicine);
    if exists k :: 0 <= k < |meds| && meds[k].JNull? {
      var k :| 0 <= k < |meds| && meds[k].JNull?;
      assert NormaliseMedicine(meds[k], k).Err?;
    }
  }

  /**
   * The records in list order, numbered ext_001, ext_002, ...; every field is
   * the value's own or its default, and the brand token falls back to the
   * brand name.
   */
  lemma NormalisedFields(meds: seq<Json>, k: nat)
    requires NormaliseAll(meds).Ok? && k < |meds|
    ensures NormaliseAll(meds).value[k] == Fields(meds[k], k)
    ensures NormaliseAll(meds).value[k].id == RecordId(k)
    ensures !Truthy(Property(meds[k], "raw_brand_token")) ==>
      NormaliseAll(meds).value[k].rawBrandToken == NormaliseAll(meds).value[k].brandName
    ensures NormaliseAll(meds).value[k].frequencyPerDay.Some? <==>
      (Property(meds[k], "frequency_per_day").Some? && Property(meds[k], "frequency_per_day").value.JNumber?)
  {
    MapFromItems(meds, 0, NormaliseMedicine);
    assert Ok(NormaliseAll(meds).value[k]) == NormaliseMedicine(meds[0 + k], 0 + k);
  }

  // ---------------------------------------------------------------------
  // The retry loop (lines 91-154)
  // ---------------------------------------------------------------------

  /** The user message of an attempt: the first asks plainly, the later ones more strictly for bare JSON. */
  datatype UserMessage = PlainRequest(ocrText: string) | StrictRequest(ocrText: string)

  function MessageFor(attempt: nat, ocrText: string): (m: UserMessage)
    ensures m.ocrText == ocrText
  {
    if attempt == 0 then PlainRequest(ocrText) else StrictRequest(ocrText)
  }

  /** The text of the message (lines 102-105). */
  function MessageText(m: UserMessage): string {
    match m
    case PlainRequest(t) => "Extract all medicines from this prescription text:\n\n" + t
    case StrictRequest(t) =>
      "Your previous response was not valid JSON. Return ONLY a valid JSON array with no markdown fences, no prose. Extract medicines from:\n\n" + t
  }

  /** The oracle for the model call: the reply content to a message at a given attempt, or the error thrown. */
  type Model = (nat, UserMessage) -> Result<Option<string>>

  /** The outcome of one attempt: the call, the cleaning, the parse and the normalisation, any of which may throw. */
  function Attempt(content: Result<Option<string>>, parse: string -> Result<Json>): Result<seq<ExtractedMedicine>> {
    if content.Err? then Err(content.error)
    else
      var parsed := parse(CleanReply(ContentOrEmptyList(content.value)));
      if parsed.Err? then Err(parsed.error) else NormaliseAll(AsList(parsed.value))
  }

  function Outcome(ocrText: string, attempt: nat, reply: Model, parse: string -> Result<Json>): Result<seq<ExtractedMedicine>> {
    Attempt(reply(attempt, MessageFor(attempt, ocrText)), parse)
  }

  /** What each attempt would give, by attempt number. */
  type Outcomes = nat -> Result<seq<ExtractedMedicine>>

  function OutcomesOf(ocrText: string, reply: Model, parse: string -> Result<Json>): Outcomes {
    (k: nat) => Outcome(ocrText, k, reply, parse)
  }

  /** The attempts from `attempt` on, until one succeeds or the third fails. */
  function AttemptsFrom(outcomes: Outcomes, attempt: nat): Result<seq<ExtractedMedicine>>
    requires attempt <= MaxRetries
    decreases MaxRetries - attempt
  {
    var outcome := outcomes(attempt);
    if outcome.Ok? then outcome
    else if attempt + 1 > MaxRetries then Err(FailureMessage(outcome.error))
    else AttemptsFrom(outcomes, attempt + 1)
  }

  function FailureMessage(error: string): string {
    "NLP extraction failed after 3 attempts: " + error
  }

  /** The messages sent from `attempt` on, in order. */
  function MessagesFrom(ocrText: string, outcomes: Outcomes, attempt: nat): seq<UserMessage>
    requires attempt <= MaxRetries
    decreases MaxRetries - attempt
  {
    [MessageFor(attempt, ocrText)]
      + (if outcomes(attempt).Ok? || attempt + 1 > MaxRetries then []
         else MessagesFrom(ocrText, outcomes, attempt + 1))
  }

  /** `runNLPExtraction`: blank text gives no records and no call. */
  function NlpExtraction(ocrText: string, reply: Model, parse: string -> Result<Json>): Result<seq<ExtractedMedicine>> {
    if Trim(ocrText) == "" then Ok([]) else AttemptsFrom(OutcomesOf(ocrText, reply, parse), 0)
  }

  function MessagesSent(ocrText: string, reply: Model, parse: string -> Result<Json>): seq<UserMessage> {
    if Trim(ocrText) == "" then [] else MessagesFrom(ocrText, OutcomesOf(ocrText, reply, parse), 0)
  }

  /** One failed attempt: its message is sent, and the run goes on to the next attempt or gives up. */
  lemma FailedStep(ocrText: string, outcomes: Outcomes, attempt: nat)
    requires attempt <= MaxRetries && outcomes(attempt).Err?
    ensures attempt < MaxRetries ==>
      && MessagesFrom(ocrText, outcomes, attempt) == [MessageFor(attempt, ocrText)] + MessagesFrom(ocrText, outcomes, attempt + 1)
      && AttemptsFrom(outcomes, attempt) == AttemptsFrom(outcomes, attempt + 1)
    ensures attempt == MaxRetries ==>
      && MessagesFrom(ocrText, outcomes, attempt) == [MessageFor(attempt, ocrText)]
      && AttemptsFrom(outcomes, attempt) == Err(FailureMessage(outcomes(attempt).error))
  {
  }

  /** One successful attempt: its message is the last sent, and its outcome is the result. */
  lemma SucceededStep(ocrText: string, outcomes: Outcomes, attempt: nat)
    requires attempt <= MaxRetries && outcomes(attempt).Ok?
    ensures MessagesFrom(ocrText, outcomes, attempt) == [MessageFor(attempt, ocrText)]
    ensures AttemptsFrom(outcomes, attempt) == outcomes(attempt)
  {
  }

  /**
   * Lines 91-154. `sent` lists the messages sent to the model, in order. The
   * loop throws once the third attempt has failed, so the final `return []`
   * after it is never reached and is not modelled.
   */
  method RunNlpExtraction(ocrText: string, reply: Model, parse: string -> Result<Json>)
    returns (r: Result<seq<ExtractedMedicine>>, sent: seq<UserMessage>)
    ensures r == NlpExtraction(ocrText, reply, parse)
    ensures sent == MessagesSent(ocrText, reply, parse)
  {
    if Trim(ocrText) == "" {
      return Ok([]), [];
    }
    r, sent := RetryExtraction(ocrText, OutcomesOf(ocrText, reply, parse));
  }

  /**
   * The retry loop: up to three attempts, stopping at the first that succeeds.
   * `attempt(k)` is one model call with the k-th message followed by parsing and
   * normalisation of its reply.
   */
  method RetryExtraction(ocrText: string, attempt: Outcomes)
    returns (r: Result<seq<ExtractedMedicine>>, sent: seq<UserMessage>)
    ensures r == AttemptsFrom(attempt, 0)
    ensures sent == MessagesFrom(ocrText, attempt, 0)
  {
    sent := [];
    ghost var all := MessagesFrom(ocrText, attempt, 0);
    ghost var result := AttemptsFrom(attempt, 0);
    var retries := 0;
    var lastError := "";
    while retries <= MaxRetries
      invariant retries <= MaxRetries + 1
      invariant retries <= MaxRetries ==> sent + MessagesFrom(ocrText, attempt, retries) == all
      invariant retries <= MaxRetries ==> AttemptsFrom(attempt, retries) == result
      invariant retries > MaxRetries ==> sent == all && result == Err(FailureMessage(lastError))
      decreases MaxRetries + 1 - retries
    {
      sent := sent + [MessageFor(retries, ocrText)];
      var outcome := attempt(retries);
      if outcome.Ok? {
        SucceededStep(ocrText, attempt, retries);
        return outcome, sent;
      }
      FailedStep(ocrText, attempt, retries);
      lastError := outcome.error;
      retries := retries + 1;
    }
    r := Err(FailureMessage(lastError));
  }

  /** Blank or whitespace-only text yields no records and no model call. */
  lemma BlankTextCallsNothing(ocrText: string, reply: Model, parse: string -> Result<Json>)
    requires Trim(ocrText) == ""
    ensures NlpExtraction(ocrText, reply, parse) == Ok([]) && MessagesSent(ocrText, reply, parse) == []
  {
  }

  /** At most three messages are sent; the first is the plain request and every later one the stricter request. */
  lemma {:induction false} MessagesBounded(ocrText: string, outcomes: Outcomes, attempt: nat)
    requires attempt <= MaxRetries
    ensures 1 <= |MessagesFrom(ocrText, outcomes, attempt)| <= MaxRetries + 1 - attempt
    ensures forall k :: 0 <= k < |MessagesFrom(ocrText, outcomes, attempt)| ==>
      MessagesFrom(ocrText, outcomes, attempt)[k] == MessageFor(attempt + k, ocrText)
    decreases MaxRetries - attempt
  {
    if attempt < MaxRetries {
      MessagesBounded(ocrText, outcomes, attempt + 1);
    }
  }

  /** The extraction fails exactly when all three attempts fail. */
  lemma FailureMeansThreeFailedAttempts(ocrText: string, reply: Model, parse: string -> Result<Json>)
    requires Trim(ocrText) != ""
    ensures NlpExtraction(ocrText, reply, parse).Err? <==>
      (forall k :: 0 <= k <= MaxRetries ==> Outcome(ocrText, k, reply, parse).Err?)
  {
    var outcomes := OutcomesOf(ocrText, reply, parse);
    AttemptsFail(outcomes, 0);
    assert forall k :: 0 <= k <= MaxRetries ==> outcomes(k) == Outcome(ocrText, k, reply, parse);
  }

  /** A failed extraction sent three messages and reports the third attempt's error. */
  lemma FailureAfterThreeMessages(ocrText: string, reply: Model, parse: string -> Result<Json>)
    requires NlpExtraction(ocrText, reply, parse).Err?
    ensures |MessagesSent(ocrText, reply, parse)| == 3
    ensures NlpExtraction(ocrText, reply, parse).error == FailureMessage(Outcome(ocrText, MaxRetries, reply, parse).error)
  {
    var outcomes := OutcomesOf(ocrText, reply, parse);
    FailedAttemptsSendAll(ocrText, outcomes, 0);
    FailureReportsLastError(outcomes, 0);
  }

  lemma {:induction false} AttemptsFail(outcomes: Outcomes, attempt: nat)
    requires attempt <= MaxRetries
    ensures AttemptsFrom(outcomes, attempt).Err? <==>
      (forall k :: attempt <= k <= MaxRetries ==> outcomes(k).Err?)
    decreases MaxRetries - attempt
  {
    if attempt < MaxRetries {
      AttemptsFail(outcomes, attempt + 1);
    }
  }

  lemma {:induction false} FailedAttemptsSendAll(ocrText: string, outcomes: Outcomes, attempt: nat)
    requires attempt <= MaxRetries
    requires AttemptsFrom(outcomes, attempt).Err?
    ensures |MessagesFrom(ocrText, outcomes, attempt)| == MaxRetries + 1 - attempt
    decreases MaxRetries - attempt
  {
    if attempt < MaxRetries {
      FailedAttemptsSendAll(ocrText, outcomes, attempt + 1);
    }
  }

  /** A failed run reports the error of its last attempt. */
  lemma {:induction false} FailureReportsLastError(outcomes: Outcomes, attempt: nat)
    requires attempt <= MaxRetries
    requires AttemptsFrom(outcomes, attempt).Err?
    ensures outcomes(MaxRetries).Err?
    ensures AttemptsFrom(outcomes, attempt).error == FailureMessage(outcomes(MaxRetries).error)
    decreases MaxRetries - attempt
  {
    if attempt < MaxRetries {
      FailureReportsLastError(outcomes, attempt + 1);
    }
  }

  /** A successful extraction is the outcome of the first attempt that succeeded. */
  lemma {:induction false} SuccessIsFirstSuccess(outcomes: Outcomes, attempt: nat)
    requires attempt <= MaxRetries
    requires AttemptsFrom(outcomes, attempt).Ok?
    ensures exists k :: (attempt <= k <= MaxRetries && AttemptsFrom(outcomes, attempt) == outcomes(k)
                         && forall j :: attempt <= j < k ==> outcomes(j).Err?)
    decreases MaxRetries - attempt
  {
    if outcomes(attempt).Err? {
      SuccessIsFirstSuccess(outcomes, attempt + 1);
    }
  }
}
