/**
 * A worked instance of the consensus: three readings of the same line, one of
 * them misreading a letter.
 */
module ConsensusExample {
  import opened Wrappers
  import opened Text
  import opened Consensus

  /** Each reading splits into its three words, and joining them gives it back. */
  lemma ExampleTokens()
    ensures Tokenize("Dolo 650 Tab") == ["Dolo", "650", "Tab"]
    ensures Join(["Dolo", "650", "Tab"], " ") == "Dolo 650 Tab"
  {
    var ws := ["Dolo", "650", "Tab"];
    assert AllWords(ws);
    assert Join(ws, " ") == "Dolo 650 Tab";
    TokenizeJoin(ws);
  }

  lemma MisreadTokens()
    ensures Tokenize("Dole 650 Tab") == ["Dole", "650", "Tab"]
  {
    var ws := ["Dole", "650", "Tab"];
    assert AllWords(ws);
    assert Join(ws, " ") == "Dole 650 Tab";
    TokenizeJoin(ws);
  }

  lemma ExampleKeys()
    ensures Key("Dolo") != [] && Key("Dole") != [] && Key("Dolo") != Key("Dole")
  {
    KeyOfWord("Dolo");
    KeyOfWord("Dole");
    assert LowerStr("Dolo")[3] != LowerStr("Dole")[3];
  }

  lemma ExampleOtherKeys()
    ensures Key("650") != [] && Key("Tab") != []
  {
    KeyOfWord("650");
    KeyOfWord("Tab");
  }

  /** Three readings of one line, one of them misreading a letter: the majority
      reading wins at every position, and with `minPasses` 2 every position is agreed. */
  lemma DoloExample(results: seq<PassResult>)
    requires results == [PassResult("a", "Dolo 650 Tab", 80.0), PassResult("b", "Dolo 650 Tab", 75.0),
                         PassResult("c", "Dole 650 Tab", 90.0)]
    ensures Consensus.Consensus(results, 2) == ConsensusResult("Dolo 650 Tab", 100.0, 3)
  {
    ExampleTokens();
    MisreadTokens();
    ExampleKeys();
    ExampleOtherKeys();
    ConsensusOfTwoAgainstOne(results, "Dolo", "Dole", "650", "Tab");
  }

  /** The whole consensus over three texts, two reading `x u v` and one `y u v`. */
  lemma ConsensusOfTwoAgainstOne(results: seq<PassResult>, x: string, y: string, u: string, v: string)
    requires |results| == 3
    requires Tokenize(results[0].text) == [x, u, v] && Tokenize(results[1].text) == [x, u, v]
    requires Tokenize(results[2].text) == [y, u, v]
    requires Key(x) != [] && Key(y) != [] && Key(x) != Key(y) && Key(u) != [] && Key(v) != []
    ensures Consensus.Consensus(results, 2) == ConsensusResult(Join([x, u, v], " "), 100.0, 3)
  {
    var passes := TokenizeAll(results);
    assert passes[0].tokens == [x, u, v] && passes[1].tokens == [x, u, v] && passes[2].tokens == [y, u, v];
    assert MaxLen(passes) == 3;
    TwoAgainstOne(passes, x, y, u, v);
    TokenizeAllWords(results);
    assert AllWords([x, u, v]) by {
      assert forall j :: 0 <= j < 3 ==> IsWord(passes[0].tokens[j]);
    }
    FinalTextOfWords([x, u, v]);
    ScoreRange(3, 3);
  }

  /** Two passes read `x u v`, a third reads `y u v`: the majority reading is emitted
      and, with `minPasses` 2, every position is agreed. */
  lemma TwoAgainstOne(passes: seq<TokenizedPass>, x: string, y: string, u: string, v: string)
    requires |passes| == 3
    requires passes[0].tokens == [x, u, v] && passes[1].tokens == [x, u, v] && passes[2].tokens == [y, u, v]
    requires Key(x) != [] && Key(y) != [] && Key(x) != Key(y) && Key(u) != [] && Key(v) != []
    ensures Emitted(passes, |passes|) == [x, u, v] && Agreed(passes, 2, |passes|) == 3
  {
    FirstTwoColumns(passes, x, y, u, v);
    LaterColumn(passes, 2, [x, u], v);
  }

  lemma FirstTwoColumns(passes: seq<TokenizedPass>, x: string, y: string, u: string, v: string)
    requires |passes| == 3
    requires passes[0].tokens == [x, u, v] && passes[1].tokens == [x, u, v] && passes[2].tokens == [y, u, v]
    requires Key(x) != [] && Key(y) != [] && Key(x) != Key(y) && Key(u) != []
    ensures Emitted(passes, 2) == [x, u] && Agreed(passes, 2, 2) == 2
  {
    FirstColumn(passes, x, y, u, v);
    LaterColumn(passes, 1, [x], u);
  }

  lemma FirstColumn(passes: seq<TokenizedPass>, x: string, y: string, u: string, v: string)
    requires |passes| == 3
    requires passes[0].tokens == [x, u, v] && passes[1].tokens == [x, u, v] && passes[2].tokens == [y, u, v]
    requires Key(x) != [] && Key(y) != [] && Key(x) != Key(y)
    ensures Emitted(passes, 1) == [x] && Agreed(passes, 2, 1) == 1
  {
    MajorityPosition(passes, 0, x, y);
    EmitStep(passes, 0, [], x);
  }

  /** A column all three passes read alike extends the output by that word and is agreed. */
  lemma LaterColumn(passes: seq<TokenizedPass>, pos: nat, prefix: seq<string>, w: string)
    requires |passes| == 3 && ReadAlike(passes, pos, w) && Key(w) != []
    requires Emitted(passes, pos) == prefix && Agreed(passes, 2, pos) == pos
    ensures Emitted(passes, pos + 1) == prefix + [w] && Agreed(passes, 2, pos + 1) == pos + 1
  {
    UnanimousPosition(passes, pos, w);
    EmitStep(passes, pos, prefix, w);
  }

  /** A position that emits `w` appends it to what the earlier positions emitted. */
  lemma EmitStep(passes: seq<TokenizedPass>, n: nat, prefix: seq<string>, w: string)
    requires Emitted(passes, n) == prefix && EmittedAt(passes, n) == [w]
    ensures Emitted(passes, n + 1) == prefix + [w]
  {
  }

  /** The shape of the first position in the example: two passes read `x`, the third `y`. */
  lemma MajorityPosition(passes: seq<TokenizedPass>, pos: nat, x: string, y: string)
    requires |passes| == 3 && forall i :: 0 <= i < 3 ==> pos < |passes[i].tokens|
    requires passes[0].tokens[pos] == x && passes[1].tokens[pos] == x && passes[2].tokens[pos] == y
    requires Key(x) != [] && Key(y) != [] && Key(x) != Key(y)
    ensures EmittedAt(passes, pos) == [x] && AgreedAt(passes, 2, pos) == 1
  {
    var c := [passes[0].confidence, passes[1].confidence, passes[2].confidence];
    var bs := [Ballot(Key(x), c[0]), Ballot(Key(x), c[1]), Ballot(Key(y), c[2])];
    BallotsOfThree(passes, pos);
    assert Ballots(passes, pos) == bs;
    TallyTwoOne(Key(x), Key(y), c[0], c[1], c[2]);
    var t := Tally(bs);
    assert WinnerIndex(t) == 0;
    assert WinnerAt(passes, pos) == Some(t[0]);
    assert t[0].key == Key(x) && t[0].count == 2;
    assert FirstHolder(passes, pos, Key(x)) == 0;
  }

  lemma BallotsOfThree(passes: seq<TokenizedPass>, pos: nat)
    requires |passes| == 3 && forall i :: 0 <= i < 3 ==> pos < |passes[i].tokens| && Key(passes[i].tokens[pos]) != []
    ensures Ballots(passes, pos) == [Ballot(Key(passes[0].tokens[pos]), passes[0].confidence),
                                     Ballot(Key(passes[1].tokens[pos]), passes[1].confidence),
                                     Ballot(Key(passes[2].tokens[pos]), passes[2].confidence)]
  {
    var b0 := Ballot(Key(passes[0].tokens[pos]), passes[0].confidence);
    var b1 := Ballot(Key(passes[1].tokens[pos]), passes[1].confidence);
    var b2 := Ballot(Key(passes[2].tokens[pos]), passes[2].confidence);
    assert BallotOf(passes[0], pos) == [b0];
    assert BallotOf(passes[1], pos) == [b1];
    assert BallotOf(passes[2], pos) == [b2];
    BallotsStep(passes, pos, 0);
    BallotsStep(passes, pos, 1);
    BallotsStep(passes, pos, 2);
    assert passes[..0] == [] && passes[..3] == passes;
    assert [] + [b0] + [b1] + [b2] == [b0, b1, b2];
  }

  lemma TallyTwoOne(kx: string, ky: string, c0: real, c1: real, c2: real)
    requires kx != ky
    ensures Tally([Ballot(kx, c0), Ballot(kx, c1), Ballot(ky, c2)])
      == [Vote(kx, 2, Max(Max(0.0, c0), c1)), Vote(ky, 1, Max(0.0, c2))]
  {
    var b0, b1, b2 := Ballot(kx, c0), Ballot(kx, c1), Ballot(ky, c2);
    TallyStep([], b0);
    assert [] + [b0] == [b0];
    TallyStep([b0], b1);
    assert [b0] + [b1] == [b0, b1];
    TallyStep([b0, b1], b2);
    assert [b0, b1] + [b2] == [b0, b1, b2];
  }

  lemma TallyThreeSame(k: string, c0: real, c1: real, c2: real)
    ensures Tally([Ballot(k, c0), Ballot(k, c1), Ballot(k, c2)])
      == [Vote(k, 3, Max(Max(Max(0.0, c0), c1), c2))]
  {
    var b0, b1, b2 := Ballot(k, c0), Ballot(k, c1), Ballot(k, c2);
    TallyStep([], b0);
    assert [] + [b0] == [b0];
    TallyStep([b0], b1);
    assert [b0] + [b1] == [b0, b1];
    TallyStep([b0, b1], b2);
    assert [b0, b1] + [b2] == [b0, b1, b2];
  }

  /** All three passes read `w` at position `pos`. */
  predicate ReadAlike(passes: seq<TokenizedPass>, pos: nat, w: string)
    requires |passes| == 3
  {
    && pos < |passes[0].tokens| && passes[0].tokens[pos] == w
    && pos < |passes[1].tokens| && passes[1].tokens[pos] == w
    && pos < |passes[2].tokens| && passes[2].tokens[pos] == w
  }

  /** A position where all three passes read the same token. */
  lemma UnanimousPosition(passes: seq<TokenizedPass>, pos: nat, x: string)
    requires |passes| == 3 && ReadAlike(passes, pos, x)
    requires Key(x) != []
    ensures EmittedAt(passes, pos) == [x] && AgreedAt(passes, 2, pos) == 1
  {
    var c := [passes[0].confidence, passes[1].confidence, passes[2].confidence];
    BallotsOfThree(passes, pos);
    TallyThreeSame(Key(x), c[0], c[1], c[2]);
    var t := Tally(Ballots(passes, pos));
    assert t == [Vote(Key(x), 3, Max(Max(Max(0.0, c[0]), c[1]), c[2]))];
    assert WinnerIndex(t) == 0;
    assert FirstHolder(passes, pos, Key(x)) == 0;
  }
}
