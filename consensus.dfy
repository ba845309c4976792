/**
 * Multi-pass OCR consensus (backend/utils/consensus.js).
 *
 * Every pass's text is split into tokens; position by position each pass
 * that has a token there casts one ballot for its lower-cased token; the
 * token with most ballots wins (ties: higher best confidence, then the
 * token first voted for); the winner is emitted in the casing of the first
 * pass that had it, and the position counts as agreed when the winner got
 * at least `minPasses` ballots.
 *
 * `Consensus` is the specification; `BuildConsensus` is the source's loop,
 * proved to compute it.
 */
module Consensus {
  import opened Wrappers
  import opened Text

  datatype PassResult = PassResult(variant: string, text: string, confidence: real)

  datatype ConsensusResult = ConsensusResult(text: string, score: real, agreedCount: nat)

  /** A pass after tokenisation; `confidence` is `pass.confidence || 0`. */
  datatype TokenizedPass = TokenizedPass(tokens: seq<string>, confidence: real, variant: string)

  /** The ballot one pass casts at one position: its case-folded token and its confidence. */
  datatype Ballot = Ballot(key: string, confidence: real)

  /** One entry of the vote map: a case-folded token, its ballot count and best confidence. */
  datatype Vote = Vote(key: string, count: nat, maxConfidence: real)

  // ---------------------------------------------------------------------
  // Tokenisation (lines 31-41)
  // ---------------------------------------------------------------------

  /** `text.replace(/\n+/g, ' \n ')`: every run of newlines becomes " \n ". */
  function ExpandNewlineRuns(s: string): string
    decreases |s|
  {
    if s == [] then []
    else if s[0] == '\n' then " \n " + ExpandNewlineRuns(DropNewlines(s[1..]))
    else [s[0]] + ExpandNewlineRuns(s[1..])
  }

  function DropNewlines(s: string): (r: string)
    ensures |r| <= |s| && r == s[|s| - |r|..]
    ensures forall i :: 0 <= i < |s| - |r| ==> s[i] == '\n'
    decreases |s|
  {
    if s != [] && s[0] == '\n' then DropNewlines(s[1..]) else s
  }

  function Tokenize(text: string): seq<string> {
    SplitWhitespace(ExpandNewlineRuns(text))
  }

  /** The newline placeholder inserted before splitting is itself whitespace, so it
      never survives as a token: tokenising sees the text exactly as if it had not
      been inserted. */
  lemma {:induction false} ScanIgnoresExpansion(s: string, current: string)
    ensures Scan(ExpandNewlineRuns(s), current) == Scan(s, current)
    decreases |s|
  {
    if s == [] {
    } else if s[0] == '\n' {
      var d := DropNewlines(s[1..]);
      assert ExpandNewlineRuns(s) == " \n " + ExpandNewlineRuns(d);
      ScanPlaceholder(ExpandNewlineRuns(d), current);
      ScanIgnoresExpansion(d, []);
      ScanSkipsSpaces(s[1..], |s[1..]| - |d|);
    } else {
      var x := ExpandNewlineRuns(s[1..]);
      assert ExpandNewlineRuns(s) == [s[0]] + x;
      assert ([s[0]] + x)[0] == s[0] && ([s[0]] + x)[1..] == x;
      if IsSpace(s[0]) {
        ScanIgnoresExpansion(s[1..], []);
      } else {
        ScanIgnoresExpansion(s[1..], current + [s[0]]);
      }
    }
  }

  /** The placeholder " \n " ends the pending word and is then skipped. */
  lemma ScanPlaceholder(x: string, current: string)
    ensures Scan(" \n " + x, current) == Flush(current) + Scan(x, [])
  {
    var e := " \n " + x;
    assert e[0] == ' ' && e[1..] == "\n " + x;
    ScanSkipsSpaces("\n " + x, 2);
    assert ("\n " + x)[2..] == x;
  }

  /** Tokens are the maximal non-whitespace runs of the text; none holds a newline. */
  lemma TokenizeIsSplit(text: string)
    ensures Tokenize(text) == SplitWhitespace(text)
    ensures forall j :: 0 <= j < |Tokenize(text)| ==> IsWord(Tokenize(text)[j])
  {
    ScanIgnoresExpansion(text, []);
    SplitWords(text);
  }

  predicate WellTokenized(passes: seq<TokenizedPass>) {
    forall i, j :: 0 <= i < |passes| && 0 <= j < |passes[i].tokens| ==> IsWord(passes[i].tokens[j])
  }

  function TokenizeAll(passResults: seq<PassResult>): (r: seq<TokenizedPass>)
    ensures |r| == |passResults|
    ensures forall i :: 0 <= i < |r| ==> r[i].tokens == Tokenize(passResults[i].text)
  {
    seq(|passResults|, i requires 0 <= i < |passResults| =>
      TokenizedPass(Tokenize(passResults[i].text), passResults[i].confidence, passResults[i].variant))
  }

  /** Every token of every pass is a non-empty run of non-space characters. */
  lemma TokenizeAllWords(passResults: seq<PassResult>)
    ensures WellTokenized(TokenizeAll(passResults))
  {
    var r := TokenizeAll(passResults);
    forall i | 0 <= i < |r| ensures forall j :: 0 <= j < |r[i].tokens| ==> IsWord(r[i].tokens[j]) {
      TokenizeIsSplit(passResults[i].text);
    }
  }

  /** `Math.max(...passes.map(p => p.tokens.length))` for a non-empty list. */
  function MaxLen(passes: seq<TokenizedPass>): (m: nat)
    ensures forall i :: 0 <= i < |passes| ==> |passes[i].tokens| <= m
    ensures passes != [] ==> exists i :: 0 <= i < |passes| && |passes[i].tokens| == m
  {
    if passes == [] then 0
    else
      var rest := MaxLen(passes[1..]);
      assert forall i :: 1 <= i < |passes| ==> passes[i] == passes[1..][i - 1];
      if |passes[0].tokens| >= rest then |passes[0].tokens| else rest
  }

  // ---------------------------------------------------------------------
  // Voting at one position (lines 55-85)
  // ---------------------------------------------------------------------

  /** `token.toLowerCase().trim()`. */
  function Key(token: string): string {
    Trim(LowerStr(token))
  }

  lemma KeyOfWord(w: string)
    requires IsWord(w)
    ensures Key(w) == LowerStr(w) && IsWord(Key(w))
  {
    TrimNoSpace(LowerStr(w));
  }

  predicate Holds(pass: TokenizedPass, pos: nat, key: string) {
    pos < |pass.tokens| && Key(pass.tokens[pos]) == key
  }

  function BallotOf(pass: TokenizedPass, pos: nat): seq<Ballot> {
    if pos < |pass.tokens| && Key(pass.tokens[pos]) != [] then [Ballot(Key(pass.tokens[pos]), pass.confidence)] else []
  }

  /** The ballots cast at `pos`, in pass order. */
  function Ballots(passes: seq<TokenizedPass>, pos: nat): seq<Ballot>
    decreases |passes|
  {
    if passes == [] then [] else Ballots(passes[..|passes| - 1], pos) + BallotOf(passes[|passes| - 1], pos)
  }

  function Max(a: real, b: real): real {
    if a >= b then a else b
  }

  /** Where `key` sits in the vote map, or `|votes|` when it is not there. */
  function FindKey(votes: seq<Vote>, key: string): (i: nat)
    ensures i <= |votes|
    ensures i < |votes| ==> votes[i].key == key
    decreases |votes|
  {
    if votes == [] then 0
    else if votes[0].key == key then 0
    else 1 + FindKey(votes[1..], key)
  }

  /** The lookup finds the first entry for the key. */
  lemma {:induction false} FindKeyFirst(votes: seq<Vote>, key: string)
    ensures forall j :: 0 <= j < FindKey(votes, key) ==> votes[j].key != key
    decreases |votes|
  {
    if votes != [] && votes[0].key != key {
      FindKeyFirst(votes[1..], key);
    }
  }

  /** `tokenVotes.get(token) || {count: 0, maxConfidence: 0}`, bumped and `set` back:
      as in a JavaScript Map, a new key goes to the end. */
  function Record(votes: seq<Vote>, b: Ballot): (r: seq<Vote>)
    ensures |r| > 0
  {
    var i := FindKey(votes, b.key);
    if i == |votes| then votes + [Vote(b.key, 1, Max(0.0, b.confidence))]
    else votes[i := Vote(b.key, votes[i].count + 1, Max(votes[i].maxConfidence, b.confidence))]
  }

  /** The vote map after the given ballots, in insertion order. */
  function Tally(bs: seq<Ballot>): seq<Vote>
    decreases |bs|
  {
    if bs == [] then [] else Record(Tally(bs[..|bs| - 1]), bs[|bs| - 1])
  }

  /** How many ballots are for `k`. */
  function CountOf(bs: seq<Ballot>, k: string): nat
    decreases |bs|
  {
    if bs == [] then 0
    else CountOf(bs[..|bs| - 1], k) + (if bs[|bs| - 1].key == k then 1 else 0)
  }

  /** The best confidence among the ballots for `k`, starting from 0. */
  function MaxConfidenceOf(bs: seq<Ballot>, k: string): real
    decreases |bs|
  {
    if bs == [] then 0.0
    else
      var m := MaxConfidenceOf(bs[..|bs| - 1], k);
      if bs[|bs| - 1].key == k then Max(m, bs[|bs| - 1].confidence) else m
  }

  /** The index of the first ballot for `k`, or `|bs|` when there is none. */
  function FirstBallot(bs: seq<Ballot>, k: string): (i: nat)
    ensures i <= |bs|
    ensures i < |bs| ==> bs[i].key == k
    ensures forall j :: 0 <= j < i ==> bs[j].key != k
    decreases |bs|
  {
    if bs == [] then 0
    else
      var f := FirstBallot(bs[..|bs| - 1], k);
      if f < |bs| - 1 then f else if bs[|bs| - 1].key == k then |bs| - 1 else |bs|
  }

  lemma {:induction false} Unvoted(bs: seq<Ballot>, k: string)
    requires CountOf(bs, k) == 0
    ensures MaxConfidenceOf(bs, k) == 0.0 && FirstBallot(bs, k) == |bs|
    decreases |bs|
  {
    if bs != [] {
      Unvoted(bs[..|bs| - 1], k);
    }
  }

  /** How one more ballot changes the count, best confidence and first ballot of a token. */
  lemma LastBallot(f: seq<Ballot>, b: Ballot, k: string)
    ensures CountOf(f + [b], k) == CountOf(f, k) + (if b.key == k then 1 else 0)
    ensures MaxConfidenceOf(f + [b], k)
      == (if b.key == k then Max(MaxConfidenceOf(f, k), b.confidence) else MaxConfidenceOf(f, k))
    ensures FirstBallot(f + [b], k)
      == (if FirstBallot(f, k) < |f| then FirstBallot(f, k) else if b.key == k then |f| else |f| + 1)
  {
    assert (f + [b])[..|f|] == f;
  }

  /** A token has ballots exactly when it has a first ballot. */
  lemma {:induction false} VotedIffFirst(bs: seq<Ballot>, k: string)
    ensures CountOf(bs, k) > 0 <==> FirstBallot(bs, k) < |bs|
    decreases |bs|
  {
    if bs != [] {
      VotedIffFirst(bs[..|bs| - 1], k);
    }
  }

  /** The tokens that received ballots, in order of their first ballot. */
  function Keys(bs: seq<Ballot>): seq<string>
    decreases |bs|
  {
    if bs == [] then []
    else
      var ks := Keys(bs[..|bs| - 1]);
      if bs[|bs| - 1].key in ks then ks else ks + [bs[|bs| - 1].key]
  }

  predicate Distinct(ks: seq<string>) {
    forall i, j :: 0 <= i < j < |ks| ==> ks[i] != ks[j]
  }

  /** The vote map one would write down for the ballots: one entry per key, with
      that key's ballot count and best confidence. */
  function VotesFor(bs: seq<Ballot>, ks: seq<string>): (t: seq<Vote>)
    ensures |t| == |ks|
    ensures forall j :: 0 <= j < |ks| ==> t[j] == Vote(ks[j], CountOf(bs, ks[j]), MaxConfidenceOf(bs, ks[j]))
  {
    seq(|ks|, j requires 0 <= j < |ks| => Vote(ks[j], CountOf(bs, ks[j]), MaxConfidenceOf(bs, ks[j])))
  }

  /** The keys are distinct, are exactly the tokens with a ballot, and are ordered by first ballot. */
  lemma KeysFacts(bs: seq<Ballot>)
    ensures Distinct(Keys(bs))
    ensures forall k :: k in Keys(bs) <==> CountOf(bs, k) > 0
    ensures forall i, j :: 0 <= i < j < |Keys(bs)| ==> FirstBallot(bs, Keys(bs)[i]) < FirstBallot(bs, Keys(bs)[j])
  {
    var n := 0;
    while n < |bs|
      invariant n <= |bs|
      invariant Distinct(Keys(bs[..n]))
      invariant forall k :: k in Keys(bs[..n]) <==> CountOf(bs[..n], k) > 0
      invariant forall i, j :: 0 <= i < j < |Keys(bs[..n])| ==>
        FirstBallot(bs[..n], Keys(bs[..n])[i]) < FirstBallot(bs[..n], Keys(bs[..n])[j])
    {
      assert bs[..n + 1] == bs[..n] + [bs[n]];
      KeysFactsStep(bs[..n], bs[n]);
      n := n + 1;
    }
    assert bs[..|bs|] == bs;
  }

  /** One more ballot keeps the keys distinct, exactly the voted ones, and in first-ballot order. */
  lemma KeysFactsStep(f: seq<Ballot>, b: Ballot)
    requires Distinct(Keys(f))
    requires forall k :: k in Keys(f) <==> CountOf(f, k) > 0
    requires forall i, j :: 0 <= i < j < |Keys(f)| ==> FirstBallot(f, Keys(f)[i]) < FirstBallot(f, Keys(f)[j])
    ensures Distinct(Keys(f + [b]))
    ensures forall k :: k in Keys(f + [b]) <==> CountOf(f + [b], k) > 0
    ensures forall i, j :: 0 <= i < j < |Keys(f + [b])| ==>
      FirstBallot(f + [b], Keys(f + [b])[i]) < FirstBallot(f + [b], Keys(f + [b])[j])
  {
    KeysStep(f, b);
    var ks := Keys(f);
    forall k ensures k in Keys(f + [b]) <==> CountOf(f + [b], k) > 0 {
      LastBallot(f, b, k);
    }
    forall i | 0 <= i < |ks| ensures FirstBallot(f + [b], ks[i]) == FirstBallot(f, ks[i]) < |f| {
      VotedIffFirst(f, ks[i]);
      LastBallot(f, b, ks[i]);
    }
    if b.key !in ks {
      LastBallot(f, b, b.key);
      VotedIffFirst(f, b.key);
    }
  }

  /** A ballot for a token already in the map bumps that token's entry. */
  lemma BumpVotes(f: seq<Ballot>, b: Ballot, ks: seq<string>, i: nat)
    requires Distinct(ks) && i < |ks| && ks[i] == b.key
    ensures VotesFor(f, ks)[i := Vote(b.key, CountOf(f, b.key) + 1, Max(MaxConfidenceOf(f, b.key), b.confidence))]
      == VotesFor(f + [b], ks)
  {
    var v := Vote(b.key, CountOf(f, b.key) + 1, Max(MaxConfidenceOf(f, b.key), b.confidence));
    var t := VotesFor(f, ks)[i := v];
    var u := VotesFor(f + [b], ks);
    forall j | 0 <= j < |ks| ensures t[j] == u[j] {
      BumpEntry(f, b, ks, i, j);
    }
    assert |t| == |u|;
  }

  lemma BumpEntry(f: seq<Ballot>, b: Ballot, ks: seq<string>, i: nat, j: nat)
    requires Distinct(ks) && i < |ks| && ks[i] == b.key && j < |ks|
    ensures VotesFor(f, ks)[i := Vote(b.key, CountOf(f, b.key) + 1, Max(MaxConfidenceOf(f, b.key), b.confidence))][j]
      == VotesFor(f + [b], ks)[j]
  {
    LastBallot(f, b, ks[j]);
    if j != i {
      assert ks[j] != b.key;
    }
  }

  /** A ballot for a token not yet in the map appends an entry for it. */
  lemma AppendVotes(f: seq<Ballot>, b: Ballot, ks: seq<string>)
    requires b.key !in ks && CountOf(f, b.key) == 0
    ensures VotesFor(f, ks) + [Vote(b.key, 1, Max(0.0, b.confidence))] == VotesFor(f + [b], ks + [b.key])
  {
    var t := VotesFor(f, ks) + [Vote(b.key, 1, Max(0.0, b.confidence))];
    Unvoted(f, b.key);
    LastBallot(f, b, b.key);
    forall j | 0 <= j < |ks| ensures t[j] == VotesFor(f + [b], ks + [b.key])[j] {
      LastBallot(f, b, ks[j]);
    }
  }

  /** In a map with distinct keys, the lookup finds a key at its own place. */
  lemma FindDistinct(t: seq<Vote>, ks: seq<string>, i: nat)
    requires |t| == |ks| && Distinct(ks) && i < |ks|
    requires forall j :: 0 <= j < |t| ==> t[j].key == ks[j]
    ensures FindKey(t, ks[i]) == i
  {
    FindKeyFirst(t, ks[i]);
    assert t[i].key == ks[i];
  }

  /** The source's vote map is that map, in order of first ballot. */
  lemma TallyIsVotes(bs: seq<Ballot>)
    ensures Tally(bs) == VotesFor(bs, Keys(bs))
  {
    var k := 0;
    while k < |bs|
      invariant k <= |bs| && Tally(bs[..k]) == VotesFor(bs[..k], Keys(bs[..k]))
    {
      assert bs[..k + 1] == bs[..k] + [bs[k]];
      TallyIsVotesStep(bs[..k], bs[k]);
      k := k + 1;
    }
    assert bs[..|bs|] == bs;
  }

  /** One more ballot keeps the vote map equal to the one written down from the keys. */
  lemma TallyIsVotesStep(f: seq<Ballot>, b: Ballot)
    requires Tally(f) == VotesFor(f, Keys(f))
    ensures Tally(f + [b]) == VotesFor(f + [b], Keys(f + [b]))
  {
    TallyStep(f, b);
    KeysStep(f, b);
    KeysFacts(f);
    var ks := Keys(f);
    if b.key in ks {
      var i :| 0 <= i < |ks| && ks[i] == b.key;
      RecordBumps(f, b, ks, i);
      assert Keys(f + [b]) == ks;
    } else {
      RecordAppends(f, b, ks);
      assert Keys(f + [b]) == ks + [b.key];
    }
  }

  lemma RecordBumps(f: seq<Ballot>, b: Ballot, ks: seq<string>, i: nat)
    requires Distinct(ks) && i < |ks| && ks[i] == b.key
    ensures Record(VotesFor(f, ks), b) == VotesFor(f + [b], ks)
  {
    var t0 := VotesFor(f, ks);
    FindDistinct(t0, ks, i);
    assert t0[i] == Vote(b.key, CountOf(f, b.key), MaxConfidenceOf(f, b.key));
    BumpVotes(f, b, ks, i);
  }

  lemma RecordAppends(f: seq<Ballot>, b: Ballot, ks: seq<string>)
    requires b.key !in ks && CountOf(f, b.key) == 0
    ensures Record(VotesFor(f, ks), b) == VotesFor(f + [b], ks + [b.key])
  {
    var t0 := VotesFor(f, ks);
    assert FindKey(t0, b.key) == |ks|;
    AppendVotes(f, b, ks);
  }

  lemma KeysStep(f: seq<Ballot>, b: Ballot)
    ensures Keys(f + [b]) == if b.key in Keys(f) then Keys(f) else Keys(f) + [b.key]
  {
    assert (f + [b])[..|f|] == f;
  }

  /** Every entry of the vote map has at least one ballot. */
  lemma TallyCounts(bs: seq<Ballot>)
    ensures forall j :: 0 <= j < |Tally(bs)| ==> Tally(bs)[j].count >= 1
  {
    TallyIsVotes(bs);
    KeysFacts(bs);
  }

  /** Strictly better in the order the scan at lines 76-85 uses: more ballots, or as
      many and a strictly higher best confidence. */
  predicate Leads(a: Vote, b: Vote) {
    a.count > b.count || (a.count == b.count && a.maxConfidence > b.maxConfidence)
  }

  /** Where the scan of the vote map ends up: an entry no other entry leads, and that
      leads every entry before it (so it is the first of the best). */
  function WinnerIndex(votes: seq<Vote>): (w: nat)
    requires |votes| > 0
    ensures w < |votes|
    decreases |votes|
  {
    if |votes| == 1 then 0
    else
      var w := WinnerIndex(votes[..|votes| - 1]);
      if Leads(votes[|votes| - 1], votes[w]) then |votes| - 1 else w
  }

  /** No entry leads the winner, and the winner leads every entry before it, so it is
      the first of the best. */
  lemma {:induction false} WinnerIndexBest(votes: seq<Vote>)
    requires |votes| > 0
    ensures forall j :: 0 <= j < |votes| ==> !Leads(votes[j], votes[WinnerIndex(votes)])
    ensures forall j :: 0 <= j < WinnerIndex(votes) ==> Leads(votes[WinnerIndex(votes)], votes[j])
    decreases |votes|
  {
    if |votes| > 1 {
      var init := votes[..|votes| - 1];
      WinnerIndexBest(init);
      assert forall j :: 0 <= j < |init| ==> init[j] == votes[j];
    }
  }

  /** Lines 72-85: scan the vote map in insertion order, replacing the best entry
      whenever the next one leads it. */
  method PickWinner(votes: seq<Vote>) returns (best: Vote)
    requires |votes| > 0
    requires forall j :: 0 <= j < |votes| ==> votes[j].count >= 1
    ensures best == votes[WinnerIndex(votes)]
  {
    best := Vote("", 0, 0.0);
    for i := 0 to |votes|
      invariant i == 0 ==> best == Vote("", 0, 0.0)
      invariant i > 0 ==> best == votes[WinnerIndex(votes[..i])]
    {
      assert votes[..i + 1][..i] == votes[..i];
      if votes[i].count > best.count || (votes[i].count == best.count && votes[i].maxConfidence > best.maxConfidence) {
        best := votes[i];
      }
    }
    assert votes[..|votes|] == votes;
  }

  /** The winner at a position is a plurality token: no token got more ballots; among
      tokens with as many, none had a higher confidence; and among those still tied
      it was voted for first. */
  lemma WinnerIsPlurality(bs: seq<Ballot>, k: string)
    requires CountOf(bs, k) > 0
    ensures |Tally(bs)| > 0
    ensures var t := Tally(bs); var w := t[WinnerIndex(t)];
      && w.count == CountOf(bs, w.key) && w.maxConfidence == MaxConfidenceOf(bs, w.key)
      && CountOf(bs, k) <= w.count
      && (CountOf(bs, k) == w.count ==> MaxConfidenceOf(bs, k) <= w.maxConfidence)
      && ((CountOf(bs, k) == w.count && MaxConfidenceOf(bs, k) == w.maxConfidence)
            ==> FirstBallot(bs, w.key) <= FirstBallot(bs, k))
  {
    TallyIsVotes(bs);
    KeysFacts(bs);
    PluralityOfVotes(bs, Keys(bs), k);
  }

  /** `WinnerIsPlurality` for the vote map written down from any distinct list of the
      voted keys, ordered by first ballot. */
  lemma PluralityOfVotes(bs: seq<Ballot>, ks: seq<string>, k: string)
    requires k in ks
    requires forall i, j :: 0 <= i < j < |ks| ==> FirstBallot(bs, ks[i]) < FirstBallot(bs, ks[j])
    ensures |VotesFor(bs, ks)| > 0
    ensures var t := VotesFor(bs, ks); var w := t[WinnerIndex(t)];
      && w.count == CountOf(bs, w.key) && w.maxConfidence == MaxConfidenceOf(bs, w.key)
      && CountOf(bs, k) <= w.count
      && (CountOf(bs, k) == w.count ==> MaxConfidenceOf(bs, k) <= w.maxConfidence)
      && ((CountOf(bs, k) == w.count && MaxConfidenceOf(bs, k) == w.maxConfidence)
            ==> FirstBallot(bs, w.key) <= FirstBallot(bs, k))
  {
    var t := VotesFor(bs, ks);
    var j :| 0 <= j < |ks| && ks[j] == k;
    var wi := WinnerIndex(t);
    WinnerIndexBest(t);
    assert !Leads(t[j], t[wi]);
    if j < wi {
      assert Leads(t[wi], t[j]);
    }
  }

  // ---------------------------------------------------------------------
  // Casing recovery (lines 87-96)
  // ---------------------------------------------------------------------

  /** The first pass whose token at `pos` case-folds to `key`, or `|passes|`. */
  function FirstHolder(passes: seq<TokenizedPass>, pos: nat, key: string): (i: nat)
    ensures i <= |passes|
    ensures i < |passes| ==> Holds(passes[i], pos, key)
    decreases |passes|
  {
    if passes == [] then 0
    else if Holds(passes[0], pos, key) then 0
    else 1 + FirstHolder(passes[1..], pos, key)
  }

  /** No pass before the first holder holds the key. */
  lemma {:induction false} FirstHolderFirst(passes: seq<TokenizedPass>, pos: nat, key: string)
    ensures forall j :: 0 <= j < FirstHolder(passes, pos, key) ==> !Holds(passes[j], pos, key)
    decreases |passes|
  {
    if passes != [] && !Holds(passes[0], pos, key) {
      FirstHolderFirst(passes[1..], pos, key);
    }
  }

  /** The token emitted for winner `key`: as cased by the first pass that had it. */
  function CasedToken(passes: seq<TokenizedPass>, pos: nat, key: string): string {
    var i := FirstHolder(passes, pos, key);
    if i < |passes| then passes[i].tokens[pos] else key
  }

  method RecoverCasing(passes: seq<TokenizedPass>, pos: nat, bestToken: string) returns (cased: string)
    ensures cased == CasedToken(passes, pos, bestToken)
  {
    cased := bestToken;
    for i := 0 to |passes|
      invariant forall j :: 0 <= j < i ==> !Holds(passes[j], pos, bestToken)
    {
      if pos < |passes[i].tokens| {
        if Key(passes[i].tokens[pos]) == bestToken {
          cased := passes[i].tokens[pos];
          assert Holds(passes[i], pos, bestToken);
          FirstHolderFirst(passes, pos, bestToken);
          assert FirstHolder(passes, pos, bestToken) == i;
          return;
        }
      }
    }
    FirstHolderFirst(passes, pos, bestToken);
    assert FirstHolder(passes, pos, bestToken) == |passes|;
  }

  // ---------------------------------------------------------------------
  // The whole consensus (lines 16-124)
  // ---------------------------------------------------------------------

  /** The winning entry at `pos`, or `None` when no pass voted there (line 69). */
  function WinnerAt(passes: seq<TokenizedPass>, pos: nat): Option<Vote> {
    var t := Tally(Ballots(passes, pos));
    if |t| == 0 then None else Some(t[WinnerIndex(t)])
  }

  /** The tokens emitted for positions `0 .. n-1`. */
  function Emitted(passes: seq<TokenizedPass>, n: nat): seq<string>
    decreases n
  {
    if n == 0 then [] else Emitted(passes, n - 1) + EmittedAt(passes, n - 1)
  }

  /** What position `pos` contributes to the output: nothing, or the cased winner. */
  function EmittedAt(passes: seq<TokenizedPass>, pos: nat): seq<string> {
    match WinnerAt(passes, pos)
    case None => []
    case Some(v) => [CasedToken(passes, pos, v.key)]
  }

  /** How many of positions `0 .. n-1` have a winner with at least `minPasses` ballots. */
  function Agreed(passes: seq<TokenizedPass>, minPasses: int, n: nat): nat
    decreases n
  {
    if n == 0 then 0 else Agreed(passes, minPasses, n - 1) + AgreedAt(passes, minPasses, n - 1)
  }

  /** 1 when position `pos` has a winner with at least `minPasses` ballots, else 0. */
  function AgreedAt(passes: seq<TokenizedPass>, minPasses: int, pos: nat): nat {
    match WinnerAt(passes, pos)
    case Some(v) => if v.count >= minPasses then 1 else 0
    case None => 0
  }

  /** Lines 107-112: join with spaces, turn " \n " placeholders back into newlines, trim. */
  function FinalText(tokens: seq<string>): string {
    Trim(ReplaceAll(ReplaceAll(ReplaceAll(Join(tokens, " "), " \n ", "\n"), "\n ", "\n"), " \n", "\n"))
  }

  /** `Math.round(x)`: the nearest integer, halves rounded up. */
  function JsRound(x: real): int {
    (x + 0.5).Floor
  }

  /** Lines 114-117. */
  function Score(agreed: nat, emitted: nat): real {
    if emitted > 0 then JsRound(agreed as real / emitted as real * 10000.0) as real / 100.0 else 0.0
  }

  /** `buildConsensus(passResults, minPasses)`. */
  function Consensus(passResults: seq<PassResult>, minPasses: int): ConsensusResult {
    if |passResults| == 0 then ConsensusResult("", 0.0, 0)
    else if |passResults| == 1 then ConsensusResult(Trim(passResults[0].text), 100.0, 1)
    else
      var passes := TokenizeAll(passResults);
      var maxLen := MaxLen(passes);
      if maxLen == 0 then ConsensusResult("", 0.0, 0)
      else
        var emitted := Emitted(passes, maxLen);
        var agreed := Agreed(passes, minPasses, maxLen);
        ConsensusResult(FinalText(emitted), Score(agreed, |emitted|), agreed)
  }

  /** Lines 57-67: collect the ballots at `pos` into a vote map. */
  method CollectVotes(passes: seq<TokenizedPass>, pos: nat) returns (votes: seq<Vote>)
    ensures votes == Tally(Ballots(passes, pos))
  {
    votes := [];
    for i := 0 to |passes|
      invariant votes == Tally(Ballots(passes[..i], pos))
    {
      BallotsStep(passes, pos, i);
      ghost var before := Ballots(passes[..i], pos);
      var pass := passes[i];
      if pos < |pass.tokens| && Key(pass.tokens[pos]) != [] {
        var token := Key(pass.tokens[pos]);
        assert BallotOf(pass, pos) == [Ballot(token, pass.confidence)];
        TallyStep(before, Ballot(token, pass.confidence));
        votes := Record(votes, Ballot(token, pass.confidence));
      } else {
        assert before + BallotOf(pass, pos) == before;
      }
    }
    assert passes[..|passes|] == passes;
  }

  lemma BallotsStep(passes: seq<TokenizedPass>, pos: nat, i: nat)
    requires i < |passes|
    ensures Ballots(passes[..i + 1], pos) == Ballots(passes[..i], pos) + BallotOf(passes[i], pos)
  {
    assert passes[..i + 1][..i] == passes[..i];
  }

  lemma TallyStep(bs: seq<Ballot>, b: Ballot)
    ensures Tally(bs + [b]) == Record(Tally(bs), b)
  {
    assert (bs + [b])[..|bs|] == bs;
  }

  /** One round of the loop at lines 53-104: what position `pos` adds to the output
      and to the agreed count. */
  method DecidePosition(passes: seq<TokenizedPass>, pos: nat, minPasses: int) returns (emit: seq<string>, agreed: nat)
    ensures emit == EmittedAt(passes, pos)
    ensures agreed == AgreedAt(passes, minPasses, pos)
  {
    var tokenVotes := CollectVotes(passes, pos);
    if |tokenVotes| == 0 {
      return [], 0;
    }
    TallyCounts(Ballots(passes, pos));
    var best := PickWinner(tokenVotes);
    var cased := RecoverCasing(passes, pos, best.key);
    agreed := if best.count >= minPasses then 1 else 0;
    emit := [cased];
  }

  /** The loop at lines 53-104 over positions `0 .. maxLen-1`. */
  method VotePositions(passes: seq<TokenizedPass>, maxLen: nat, minPasses: int)
    returns (confirmedTokens: seq<string>, agreedCount: nat)
    ensures confirmedTokens == Emitted(passes, maxLen)
    ensures agreedCount == Agreed(passes, minPasses, maxLen)
  {
    confirmedTokens := [];
    agreedCount := 0;
    for pos := 0 to maxLen
      invariant confirmedTokens == Emitted(passes, pos)
      invariant agreedCount == Agreed(passes, minPasses, pos)
    {
      var emit, agreed := DecidePosition(passes, pos, minPasses);
      confirmedTokens := confirmedTokens + emit;
      agreedCount := agreedCount + agreed;
    }
  }

  method BuildConsensus(passResults: seq<PassResult>, minPasses: int) returns (r: ConsensusResult)
    ensures r == Consensus(passResults, minPasses)
  {
    if |passResults| == 0 {
      return ConsensusResult("", 0.0, 0);
    }
    if |passResults| == 1 {
      return ConsensusResult(Trim(passResults[0].text), 100.0, 1);
    }
    var passes := TokenizeAll(passResults);
    var maxLen := MaxLen(passes);
    if maxLen == 0 {
      return ConsensusResult("", 0.0, 0);
    }
    var confirmedTokens, agreedCount := VotePositions(passes, maxLen, minPasses);
    r := ConsensusResult(FinalText(confirmedTokens), Score(agreedCount, |confirmedTokens|), agreedCount);
  }

  // ---------------------------------------------------------------------
  // What the consensus promises
  // ---------------------------------------------------------------------

  /** A token with a ballot at `pos` is held there by some pass. */
  lemma {:induction false} BallotHasHolder(passes: seq<TokenizedPass>, pos: nat, k: string)
    requires CountOf(Ballots(passes, pos), k) > 0
    ensures FirstHolder(passes, pos, k) < |passes|
    decreases |passes|
  {
    FirstHolderFirst(passes, pos, k);
    var init := passes[..|passes| - 1];
    var last := passes[|passes| - 1];
    var xs := Ballots(init, pos);
    if BallotOf(last, pos) == [] {
      assert Ballots(passes, pos) == xs + [];
      assert xs + [] == xs;
      BallotHasHolder(init, pos, k);
      var i := FirstHolder(init, pos, k);
      assert init[i] == passes[i];
    } else {
      var b := BallotOf(last, pos)[0];
      assert Ballots(passes, pos) == xs + [b];
      LastBallot(xs, b, k);
      if b.key != k {
        BallotHasHolder(init, pos, k);
        var i := FirstHolder(init, pos, k);
        assert init[i] == passes[i];
      } else {
        assert Holds(passes[|passes| - 1], pos, k);
      }
    }
  }

  /** A pass holding a non-empty key at `pos` casts a ballot for it. */
  lemma {:induction false} HolderHasBallot(passes: seq<TokenizedPass>, pos: nat, i: nat)
    requires i < |passes| && pos < |passes[i].tokens| && Key(passes[i].tokens[pos]) != []
    ensures CountOf(Ballots(passes, pos), Key(passes[i].tokens[pos])) > 0
    decreases |passes|
  {
    var k := Key(passes[i].tokens[pos]);
    var init := passes[..|passes| - 1];
    var last := passes[|passes| - 1];
    var xs := Ballots(init, pos);
    if i == |passes| - 1 {
      var b := Ballot(k, last.confidence);
      assert Ballots(passes, pos) == xs + [b];
      LastBallot(xs, b, k);
    } else {
      assert init[i] == passes[i];
      HolderHasBallot(init, pos, i);
      if BallotOf(last, pos) == [] {
        assert Ballots(passes, pos) == xs + [];
        assert xs + [] == xs;
      } else {
        var b := BallotOf(last, pos)[0];
        assert Ballots(passes, pos) == xs + [b];
        LastBallot(xs, b, k);
      }
    }
  }

  /** Every position below the longest pass's length has a winner, and the token
      emitted for it is one of the passes' own tokens there, so a word. */
  lemma WinnerEverywhere(passes: seq<TokenizedPass>, pos: nat)
    requires WellTokenized(passes) && passes != [] && pos < MaxLen(passes)
    ensures WinnerAt(passes, pos).Some?
    ensures |EmittedAt(passes, pos)| == 1 && IsWord(EmittedAt(passes, pos)[0])
  {
    var i :| 0 <= i < |passes| && |passes[i].tokens| == MaxLen(passes);
    var w := passes[i].tokens[pos];
    KeyOfWord(w);
    HolderHasBallot(passes, pos, i);
    var bs := Ballots(passes, pos);
    WinnerIsPlurality(bs, Key(w));
    var t := Tally(bs);
    TallyCounts(bs);
    var v := t[WinnerIndex(t)];
    assert CountOf(bs, v.key) > 0;
    BallotHasHolder(passes, pos, v.key);
  }

  /** Position `pos` adds exactly one word to what came before it. */
  lemma EmittedStep(passes: seq<TokenizedPass>, pos: nat)
    requires WellTokenized(passes) && passes != [] && pos < MaxLen(passes)
    ensures |Emitted(passes, pos + 1)| == |Emitted(passes, pos)| + 1
    ensures Emitted(passes, pos + 1)[..|Emitted(passes, pos)|] == Emitted(passes, pos)
    ensures IsWord(Emitted(passes, pos + 1)[|Emitted(passes, pos)|])
  {
    WinnerEverywhere(passes, pos);
    var prev := Emitted(passes, pos);
    var here := EmittedAt(passes, pos);
    assert Emitted(passes, pos + 1) == prev + here;
  }

  /** With a pass of length `L`, the first `L` positions emit exactly `L` tokens... */
  lemma EmittedLength(passes: seq<TokenizedPass>, n: nat)
    requires WellTokenized(passes) && passes != [] && n <= MaxLen(passes)
    ensures |Emitted(passes, n)| == n
  {
    var k := 0;
    while k < n
      invariant k <= n && |Emitted(passes, k)| == k
    {
      EmittedStep(passes, k);
      k := k + 1;
    }
  }

  /** ... and every one of them is a word. */
  lemma EmittedWords(passes: seq<TokenizedPass>, n: nat)
    requires WellTokenized(passes) && passes != [] && n <= MaxLen(passes)
    ensures AllWords(Emitted(passes, n))
  {
    var k := 0;
    while k < n
      invariant k <= n && AllWords(Emitted(passes, k))
    {
      EmittedStep(passes, k);
      AppendWord(Emitted(passes, k), Emitted(passes, k + 1));
      k := k + 1;
    }
  }

  lemma AppendWord(prev: seq<string>, next: seq<string>)
    requires AllWords(prev)
    requires |next| == |prev| + 1 && next[..|prev|] == prev && IsWord(next[|prev|])
    ensures AllWords(next)
  {
    forall j | 0 <= j < |next| ensures IsWord(next[j]) {
      if j < |prev| {
        assert next[j] == next[..|prev|][j];
      }
    }
  }

  /** A position can only count as agreed when it emits a token. */
  lemma AgreedAtMostEmitted(passes: seq<TokenizedPass>, minPasses: int, n: nat)
    ensures Agreed(passes, minPasses, n) <= |Emitted(passes, n)|
  {
    var k := 0;
    while k < n
      invariant k <= n && Agreed(passes, minPasses, k) <= |Emitted(passes, k)|
    {
      AgreedStep(passes, minPasses, k);
      k := k + 1;
    }
  }

  /** A position is agreed only when it emits its winner. */
  lemma AgreedStep(passes: seq<TokenizedPass>, minPasses: int, pos: nat)
    ensures Agreed(passes, minPasses, pos + 1) == Agreed(passes, minPasses, pos) + AgreedAt(passes, minPasses, pos)
    ensures |Emitted(passes, pos + 1)| == |Emitted(passes, pos)| + |EmittedAt(passes, pos)|
    ensures AgreedAt(passes, minPasses, pos) <= |EmittedAt(passes, pos)|
  {
  }


  /** A string that neither starts nor ends with a space is its own trim. */
  lemma TrimKeeps(s: string)
    requires s == [] || (!IsSpace(s[0]) && !IsSpace(s[|s| - 1]))
    ensures Trim(s) == s
  {
  }

  /** Joining words with single spaces gives a text with no spaces at its ends. */
  lemma {:induction false} JoinWordsEnds(words: seq<string>)
    requires forall j :: 0 <= j < |words| ==> IsWord(words[j])
    ensures var s := Join(words, " "); s == [] || (!IsSpace(s[0]) && !IsSpace(s[|s| - 1]))
    decreases |words|
  {
    if |words| > 1 {
      JoinWordsEnds(words[1..]);
      var rest := Join(words[1..], " ");
      assert rest != [] by { JoinEmptyIff(words[1..], " "); }
      assert Join(words, " ") == words[0] + " " + rest;
    }
  }

  /** Lines 107-112 change nothing: with no newline among the words, the
      placeholder patterns never match and the joined text is already trimmed. */
  lemma FinalTextOfWords(words: seq<string>)
    requires forall j :: 0 <= j < |words| ==> IsWord(words[j])
    ensures FinalText(words) == Join(words, " ")
    ensures '\n' !in FinalText(words)
  {
    var s := Join(words, " ");
    JoinNoChar(words, " ", '\n');
    ReplaceAllAbsent(s, " \n ", "\n", '\n');
    ReplaceAllAbsent(s, "\n ", "\n", '\n');
    ReplaceAllAbsent(s, " \n", "\n", '\n');
    JoinWordsEnds(words);
    TrimKeeps(s);
  }

  /** The score is a percentage, and full agreement scores 100. */
  lemma ScoreRange(agreed: nat, emitted: nat)
    requires agreed <= emitted
    ensures 0.0 <= Score(agreed, emitted) <= 100.0
    ensures 0 < emitted == agreed ==> Score(agreed, emitted) == 100.0
  {
    if emitted > 0 {
      var q := agreed as real / emitted as real;
      UnitQuotient(agreed as real, emitted as real);
      JsRoundRange(q * 10000.0);
      if agreed == emitted {
        assert q == 1.0;
        assert JsRound(q * 10000.0) == 10000;
      }
    }
  }

  lemma UnitQuotient(a: real, e: real)
    requires 0.0 <= a <= e && 0.0 < e
    ensures 0.0 <= a / e <= 1.0
  {
    assert a / e * e == a;
  }

  lemma JsRoundRange(x: real)
    requires 0.0 <= x <= 10000.0
    ensures 0 <= JsRound(x) <= 10000
  {
    assert 0.5 <= x + 0.5 <= 10000.5;
  }

  /** With two or more passes whose longest has `L > 0` tokens: the output is
      exactly `L` words joined by single spaces (so splitting it gives them back
      and it holds no newline), at most `L` positions are agreed, and the score
      lies in [0, 100]. */
  lemma ConsensusOutput(passResults: seq<PassResult>, minPasses: int)
    requires |passResults| >= 2
    requires MaxLen(TokenizeAll(passResults)) > 0
    ensures var r := Consensus(passResults, minPasses);
      && |SplitWhitespace(r.text)| == MaxLen(TokenizeAll(passResults))
      && r.text == Join(SplitWhitespace(r.text), " ")
      && '\n' !in r.text
      && r.agreedCount <= MaxLen(TokenizeAll(passResults))
      && 0.0 <= r.score <= 100.0
  {
    var passes := TokenizeAll(passResults);
    var n := MaxLen(passes);
    TokenizeAllWords(passResults);
    EmittedLength(passes, n);
    EmittedWords(passes, n);
    var emitted := Emitted(passes, n);
    FinalTextOfWords(emitted);
    SplitJoin(emitted);
    AgreedAtMostEmitted(passes, minPasses, n);
    ScoreRange(Agreed(passes, minPasses, n), |emitted|);
  }

  /** With two or more passes that hold no token at all, the result is empty. */
  lemma ConsensusOfBlankPasses(passResults: seq<PassResult>, minPasses: int)
    requires |passResults| >= 2
    requires forall i :: 0 <= i < |passResults| ==> SplitWhitespace(passResults[i].text) == []
    ensures Consensus(passResults, minPasses) == ConsensusResult("", 0.0, 0)
  {
    var passes := TokenizeAll(passResults);
    forall i | 0 <= i < |passes| ensures |passes[i].tokens| == 0 {
      TokenizeIsSplit(passResults[i].text);
    }
  }

  /** No pass gives the empty result; a single pass is taken as it is, trimmed, with full score. */
  lemma ConsensusEdgeCases(passResults: seq<PassResult>, minPasses: int)
    ensures |passResults| == 0 ==> Consensus(passResults, minPasses) == ConsensusResult("", 0.0, 0)
    ensures |passResults| == 1 ==>
              Consensus(passResults, minPasses) == ConsensusResult(Trim(passResults[0].text), 100.0, 1)
  {
  }

  /** Tokenising words joined by single spaces gives the words back. */
  lemma TokenizeJoin(words: seq<string>)
    requires AllWords(words)
    ensures Tokenize(Join(words, " ")) == words
  {
    SplitJoin(words);
    TokenizeIsSplit(Join(words, " "));
  }

  // ---------------------------------------------------------------------
  // Quality tag (lines 132-136)
  // ---------------------------------------------------------------------

  datatype QualityTag = HighConfidence | MediumConfidence | LowQuality

  function Rank(t: QualityTag): nat {
    match t
    case LowQuality => 0
    case MediumConfidence => 1
    case HighConfidence => 2
  }

  function DeriveQualityTag(score: real): (t: QualityTag)
    ensures t == HighConfidence <==> score >= 70.0
    ensures t == MediumConfidence <==> 40.0 <= score < 70.0
    ensures t == LowQuality <==> score < 40.0
  {
    if score >= 70.0 then HighConfidence
    else if score >= 40.0 then MediumConfidence
    else LowQuality
  }

  /** A higher score never gets a worse tag. */
  lemma QualityTagMonotone(a: real, b: real)
    requires a <= b
    ensures Rank(DeriveQualityTag(a)) <= Rank(DeriveQualityTag(b))
  {
  }
}
