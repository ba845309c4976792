/**
 * Catalogue row normalisation and batched insertion
 * (backend/scripts/importMedicines.js): each CSV row becomes a medicine
 * record whose brand, form, generic name and strength are derived from the
 * product name and the two composition columns, and the records are inserted
 * in consecutive batches of 500.
 *
 * Regular expressions are written out as scanners over the string. The `i`
 * flag and `toLowerCase` are ASCII case folding; `\b` and `\w` are the ASCII
 * word characters, as in a non-Unicode JavaScript regular expression.
 */
module CatalogueImport {
  import opened Wrappers
  import opened Text

  /** A parsed CSV row; a missing or empty column is `""`. */
  datatype CsvRow = CsvRow(name: string, composition1: string, composition2: string, manufacturer: string)

  /** A catalogue record as inserted; `category` is always null. */
  datatype MedicineRecord = MedicineRecord(
    brandName: string,
    genericName: string,
    strength: string,
    form: string,
    category: Option<string>,
    isCombination: bool,
    manufacturer: Option<string>)

  // ---------------------------------------------------------------------
  // extractBrandName (lines 30-33)
  // ---------------------------------------------------------------------

  /**
   * The alternatives of the form pattern, case-folded, in the order the
   * regular expression tries them; `Drops?` tries "drops" before "drop".
   */
  const FormWords: seq<string> := ["tablet", "capsule", "syrup", "injection", "cream", "ointment", "suspension",
    "drops", "drop", "gel", "spray", "powder", "lotion", "solution", "inhaler", "patch", "suppository"]

  /** `\b` before a word that starts at `i`: nothing, or a non-word character, precedes it. */
  predicate StartsWord(s: string, i: int)
    requires 0 <= i <= |s|
  {
    i == 0 || !IsWordChar(s[i - 1])
  }

  /** `\b` after a word that ends at `j`: nothing, or a non-word character, follows it. */
  predicate EndsWord(s: string, j: int)
    requires 0 <= j <= |s|
  {
    j == |s| || !IsWordChar(s[j])
  }

  /** Whether the form word `w` occurs at `i` as a whole word, ignoring case. */
  predicate WholeWordAt(s: string, i: int, w: string) {
    0 <= i && i + |w| <= |s| && LowerStr(s[i..i + |w|]) == w && StartsWord(s, i) && EndsWord(s, i + |w|)
  }

  /** The length of the first alternative, from `k` on, that matches at `i`; 0 when none does. */
  function MatchFrom(s: string, i: int, k: nat): (n: nat)
    requires k <= |FormWords|
    ensures n > 0 ==> 0 <= i && i + n <= |s|
    decreases |FormWords| - k
  {
    if k == |FormWords| then 0
    else if WholeWordAt(s, i, FormWords[k]) then |FormWords[k]|
    else MatchFrom(s, i, k + 1)
  }

  function MatchAt(s: string, i: int): nat {
    MatchFrom(s, i, 0)
  }

  /**
   * `s.replace(pattern, '')` from position `i` on, for a global pattern whose
   * match at position `p` has length `m[p]` (0 when there is none): the scan
   * drops each match it finds and keeps every other character.
   */
  function Strip(s: string, i: nat, m: seq<nat>): (r: string)
    requires i <= |s| == |m|
    ensures |r| <= |s| - i
    decreases |s| - i
  {
    if i == |s| then []
    else if m[i] > 0 && i + m[i] <= |s| then Strip(s, i + m[i], m)
    else [s[i]] + Strip(s, i + 1, m)
  }

  /** The positions of `s`, from `i` on, whose characters Strip keeps, in increasing order. */
  ghost function Kept(s: string, i: nat, m: seq<nat>): (ks: seq<nat>)
    requires i <= |s| == |m|
    ensures forall j :: 0 <= j < |ks| ==> i <= ks[j] < |s|
    decreases |s| - i
  {
    if i == |s| then []
    else if m[i] > 0 && i + m[i] <= |s| then Kept(s, i + m[i], m)
    else [i] + Kept(s, i + 1, m)
  }

  lemma SkipStep(s: string, i: nat, m: seq<nat>)
    requires i < |s| == |m| && m[i] > 0 && i + m[i] <= |s|
    ensures Strip(s, i, m) == Strip(s, i + m[i], m) && Kept(s, i, m) == Kept(s, i + m[i], m)
  {
  }

  lemma KeepStep(s: string, i: nat, m: seq<nat>)
    requires i < |s| == |m| && !(m[i] > 0 && i + m[i] <= |s|)
    ensures Strip(s, i, m) == [s[i]] + Strip(s, i + 1, m) && Kept(s, i, m) == [i] + Kept(s, i + 1, m)
  {
  }

  lemma KeptSkip(s: string, i: nat, m: seq<nat>)
    requires i < |s| == |m| && m[i] > 0 && i + m[i] <= |s|
    ensures Kept(s, i, m) == Kept(s, i + m[i], m)
  {
  }

  lemma KeptKeep(s: string, i: nat, m: seq<nat>)
    requires i < |s| == |m| && !(m[i] > 0 && i + m[i] <= |s|)
    ensures |Kept(s, i, m)| == |Kept(s, i + 1, m)| + 1 && Kept(s, i, m)[0] == i
    ensures forall j :: 0 < j < |Kept(s, i, m)| ==> Kept(s, i, m)[j] == Kept(s, i + 1, m)[j - 1]
  {
  }

  /** Where the pattern matches nowhere, Strip changes nothing. */
  lemma {:induction false} StripWithoutMatch(s: string, i: nat, m: seq<nat>)
    requires i <= |s| == |m|
    requires forall p :: i <= p < |s| ==> m[p] == 0
    ensures Strip(s, i, m) == s[i..]
    decreases |s| - i
  {
    if i < |s| {
      KeepStep(s, i, m);
      StripWithoutMatch(s, i + 1, m);
      assert s[i..] == [s[i]] + s[i + 1..];
    }
  }

  /** Strip reads `s` at the kept positions: the result is a subsequence of `s`. */
  lemma {:induction false} StripReadsKept(s: string, i: nat, m: seq<nat>)
    requires i <= |s| == |m|
    ensures |Kept(s, i, m)| == |Strip(s, i, m)|
    ensures forall j :: 0 <= j < |Strip(s, i, m)| ==> Strip(s, i, m)[j] == s[Kept(s, i, m)[j]]
    decreases |s| - i
  {
    if i < |s| {
      if m[i] > 0 && i + m[i] <= |s| {
        StripReadsKept(s, i + m[i], m);
        SkipStep(s, i, m);
      } else {
        StripReadsKept(s, i + 1, m);
        KeepStep(s, i, m);
        ReadsCons(s, i, Strip(s, i + 1, m), Kept(s, i + 1, m));
      }
    }
  }

  /** Reading `s` at positions `ks` gives `r`; then reading it at `[i] + ks` gives `[s[i]] + r`. */
  lemma ReadsCons(s: string, i: nat, r: string, ks: seq<nat>)
    requires i < |s| && |ks| == |r|
    requires forall j :: 0 <= j < |ks| ==> ks[j] < |s| && r[j] == s[ks[j]]
    ensures forall j :: 0 <= j < |ks| + 1 ==> ([i] + ks)[j] < |s| && ([s[i]] + r)[j] == s[([i] + ks)[j]]
  {
    forall j | 0 <= j < |ks| + 1
      ensures ([i] + ks)[j] < |s| && ([s[i]] + r)[j] == s[([i] + ks)[j]]
    {
      if j > 0 {
        assert ([i] + ks)[j] == ks[j - 1] && ([s[i]] + r)[j] == r[j - 1];
      }
    }
  }

  /** No kept position starts a match that fits in `s`. */
  lemma {:induction false} KeptStartsNoMatch(s: string, i: nat, m: seq<nat>, j: nat)
    requires i <= |s| == |m| && j < |Kept(s, i, m)|
    ensures m[Kept(s, i, m)[j]] == 0 || Kept(s, i, m)[j] + m[Kept(s, i, m)[j]] > |s|
    decreases |s| - i
  {
    if m[i] > 0 && i + m[i] <= |s| {
      SkipStep(s, i, m);
      KeptStartsNoMatch(s, i + m[i], m, j);
    } else {
      KeepStep(s, i, m);
      if j > 0 {
        KeptStartsNoMatch(s, i + 1, m, j - 1);
      }
    }
  }

  /** The kept positions increase. */
  lemma {:induction false} KeptGrows(s: string, i: nat, m: seq<nat>, j: nat)
    requires i <= |s| == |m| && 0 < j < |Kept(s, i, m)|
    ensures Kept(s, i, m)[j - 1] < Kept(s, i, m)[j]
    decreases |s| - i
  {
    if m[i] > 0 && i + m[i] <= |s| {
      KeptSkip(s, i, m);
      KeptGrows(s, i + m[i], m, j);
    } else {
      KeptKeep(s, i, m);
      if j > 1 {
        KeptGrows(s, i + 1, m, j - 1);
      }
    }
  }

  /** A sequence that grows at every step grows between any two positions. */
  lemma {:induction false} Increasing(ks: seq<nat>, j1: nat, j2: nat)
    requires forall j :: 0 < j < |ks| ==> ks[j - 1] < ks[j]
    requires j1 < j2 < |ks|
    ensures ks[j1] < ks[j2]
    decreases j2 - j1
  {
    if j1 + 1 < j2 {
      Increasing(ks, j1, j2 - 1);
    }
  }

  /** Every position Strip drops lies inside a match the scan found. */
  lemma {:induction false} DroppedInsideMatch(s: string, i: nat, m: seq<nat>, p: nat)
    requires i <= p < |s| == |m| && p !in Kept(s, i, m)
    ensures exists q :: i <= q <= p < q + m[q] && q + m[q] <= |s|
    decreases |s| - i
  {
    if m[i] > 0 && i + m[i] <= |s| {
      SkipStep(s, i, m);
      if p >= i + m[i] {
        DroppedInsideMatch(s, i + m[i], m, p);
      }
    } else {
      KeepStep(s, i, m);
      DroppedInsideMatch(s, i + 1, m, p);
    }
  }

  /** Every match begins and ends at a word boundary, as `\b...\b` demands. */
  predicate MatchesAtBoundaries(s: string, m: seq<nat>)
    requires |m| == |s|
  {
    forall q :: 0 <= q < |s| && m[q] > 0 ==> q + m[q] <= |s| && StartsWord(s, q) && EndsWord(s, q + m[q])
  }

  /** The end half of the boundary condition: a non-word character follows every match that ends inside `s`. */
  predicate MatchesEndAtBoundaries(s: string, m: seq<nat>)
    requires |m| == |s|
  {
    forall q :: 0 <= q < |s| && m[q] > 0 && q + m[q] < |s| ==> !IsWordChar(s[q + m[q]])
  }

  /** The start half: a non-word character precedes every match that does not start `s`. */
  predicate MatchesStartAtBoundaries(s: string, m: seq<nat>)
    requires |m| == |s|
  {
    forall q :: 0 < q < |s| && m[q] > 0 ==> !IsWordChar(s[q - 1])
  }

  lemma BoundaryHalves(s: string, m: seq<nat>)
    requires |s| == |m| && MatchesAtBoundaries(s, m)
    ensures MatchesEndAtBoundaries(s, m) && MatchesStartAtBoundaries(s, m)
  {
  }

  lemma EndNotWord(s: string, m: seq<nat>, q: nat)
    requires |m| == |s| && MatchesEndAtBoundaries(s, m)
    requires q < |s| && m[q] > 0 && q + m[q] < |s|
    ensures !IsWordChar(s[q + m[q]])
  {
  }

  /**
   * A kept position the scan reaches right after a skipped match, rather than
   * right after the previous kept one, is where that match ends.
   */
  lemma {:induction false} AfterSkipMatchEnd(s: string, i: nat, m: seq<nat>, j: nat) returns (q: nat)
    requires i <= |s| == |m|
    requires j < |Kept(s, i, m)| && Kept(s, i, m)[j] > i
    requires j == 0 || Kept(s, i, m)[j - 1] + 1 < Kept(s, i, m)[j]
    ensures i <= q < |s| && m[q] > 0 && q + m[q] == Kept(s, i, m)[j]
    decreases |s| - i
  {
    var ks := Kept(s, i, m);
    if m[i] > 0 && i + m[i] <= |s| {
      KeptSkip(s, i, m);
      if ks[j] > i + m[i] {
        q := AfterSkipMatchEnd(s, i + m[i], m, j);
      } else {
        q := i;
      }
    } else {
      KeptKeep(s, i, m);
      var kt := Kept(s, i + 1, m);
      assert kt[j - 1] == ks[j];
      if j > 1 {
        assert kt[j - 2] == ks[j - 1];
      }
      q := AfterSkipMatchEnd(s, i + 1, m, j - 1);
    }
  }

  /**
   * Such a position holds no word character when every match ends at a word
   * boundary.
   */
  lemma AfterSkipNotWord(s: string, i: nat, m: seq<nat>, j: nat)
    requires i <= |s| == |m| && MatchesEndAtBoundaries(s, m)
    requires j < |Kept(s, i, m)| && Kept(s, i, m)[j] > i
    requires j == 0 || Kept(s, i, m)[j - 1] + 1 < Kept(s, i, m)[j]
    ensures !IsWordChar(s[Kept(s, i, m)[j]])
  {
    var q := AfterSkipMatchEnd(s, i, m, j);
    EndNotWord(s, m, q);
  }

  /**
   * A kept position that the scan leaves by skipping a match, rather than by
   * keeping the next character, holds no word character: the match began at
   * a word boundary.
   */
  lemma {:induction false} BeforeSkipNotWord(s: string, i: nat, m: seq<nat>, j: nat)
    requires i <= |s| == |m| && MatchesStartAtBoundaries(s, m)
    requires j < |Kept(s, i, m)| && Kept(s, i, m)[j] + 1 < |s|
    requires j + 1 == |Kept(s, i, m)| || Kept(s, i, m)[j] + 1 < Kept(s, i, m)[j + 1]
    ensures !IsWordChar(s[Kept(s, i, m)[j]])
    decreases |s| - i
  {
    if m[i] > 0 && i + m[i] <= |s| {
      KeptSkip(s, i, m);
      BeforeSkipNotWord(s, i + m[i], m, j);
    } else {
      KeptKeep(s, i, m);
      if j > 0 {
        BeforeSkipNotWord(s, i + 1, m, j - 1);
      }
    }
  }

  /** Next to a word character of the stripped text, kept positions are consecutive in `s`. */
  lemma KeptConsecutive(s: string, m: seq<nat>, t: nat)
    requires |s| == |m| && MatchesAtBoundaries(s, m)
    requires t + 1 < |Strip(s, 0, m)| && IsWordChar(Strip(s, 0, m)[t])
    ensures |Kept(s, 0, m)| == |Strip(s, 0, m)| && Kept(s, 0, m)[t + 1] == Kept(s, 0, m)[t] + 1
  {
    StripReadsKept(s, 0, m);
    BoundaryHalves(s, m);
    KeptGrows(s, 0, m, t + 1);
    if Kept(s, 0, m)[t] + 1 < Kept(s, 0, m)[t + 1] {
      BeforeSkipNotWord(s, 0, m, t);
      assert false;
    }
  }

  /** A word that starts at a word boundary of the stripped text starts at one in `s`. */
  lemma KeptWordStart(s: string, m: seq<nat>, p: nat)
    requires |s| == |m| && MatchesAtBoundaries(s, m)
    requires p < |Strip(s, 0, m)| && IsWordChar(Strip(s, 0, m)[p]) && StartsWord(Strip(s, 0, m), p)
    ensures |Kept(s, 0, m)| == |Strip(s, 0, m)| && StartsWord(s, Kept(s, 0, m)[p])
  {
    StripReadsKept(s, 0, m);
    BoundaryHalves(s, m);
    var ks := Kept(s, 0, m);
    if p > 0 {
      KeptGrows(s, 0, m, p);
    }
    if ks[p] > 0 && !(p > 0 && ks[p - 1] + 1 == ks[p]) {
      AfterSkipNotWord(s, 0, m, p);
      assert false;
    }
  }

  /** A word that ends at a word boundary of the stripped text ends at one in `s`. */
  lemma KeptWordEnd(s: string, m: seq<nat>, j: nat)
    requires |s| == |m| && MatchesAtBoundaries(s, m)
    requires j < |Strip(s, 0, m)| && IsWordChar(Strip(s, 0, m)[j]) && EndsWord(Strip(s, 0, m), j + 1)
    ensures |Kept(s, 0, m)| == |Strip(s, 0, m)| && EndsWord(s, Kept(s, 0, m)[j] + 1)
  {
    StripReadsKept(s, 0, m);
    BoundaryHalves(s, m);
    var ks := Kept(s, 0, m);
    if j + 1 < |ks| {
      KeptGrows(s, 0, m, j + 1);
    }
    if ks[j] + 1 < |s| && !(j + 1 < |ks| && ks[j + 1] == ks[j] + 1) {
      BeforeSkipNotWord(s, 0, m, j);
      assert false;
    }
  }

  /** Positions that step by one from `p` on are `ks[p] + v`. */
  lemma KeptRun(ks: seq<nat>, p: nat, n: nat)
    requires p + n <= |ks|
    requires forall t :: p <= t < p + n - 1 ==> ks[t + 1] == ks[t] + 1
    ensures forall t :: p <= t < p + n ==> ks[t] == ks[p] + (t - p)
  {
    var u := 0;
    while u < n
      invariant u <= n
      invariant forall t :: p <= t < p + u ==> ks[t] == ks[p] + (t - p)
    {
      if u > 0 {
        assert ks[p + u] == ks[p + u - 1] + 1;
      }
      u := u + 1;
    }
  }

  /**
   * A whole word of `n` word characters at `p` in the stripped text was a
   * whole word, character for character, at the matching kept position of
   * `s`: no dropped match lies inside it or against its ends.
   */
  lemma WordKeptWhole(s: string, m: seq<nat>, p: nat, n: nat)
    requires |s| == |m| && MatchesAtBoundaries(s, m)
    requires 0 < n && p + n <= |Strip(s, 0, m)|
    requires forall t :: p <= t < p + n ==> IsWordChar(Strip(s, 0, m)[t])
    requires StartsWord(Strip(s, 0, m), p) && EndsWord(Strip(s, 0, m), p + n)
    ensures |Kept(s, 0, m)| == |Strip(s, 0, m)| && Kept(s, 0, m)[p] + n <= |s|
    ensures s[Kept(s, 0, m)[p]..Kept(s, 0, m)[p] + n] == Strip(s, 0, m)[p..p + n]
    ensures StartsWord(s, Kept(s, 0, m)[p]) && EndsWord(s, Kept(s, 0, m)[p] + n)
  {
    var r, ks := Strip(s, 0, m), Kept(s, 0, m);
    StripReadsKept(s, 0, m);
    KeptWordRun(s, m, p, n);
    KeptWordStart(s, m, p);
    KeptWordEnd(s, m, p + n - 1);
    SliceReads(s, r, ks, p, n);
  }

  /** Under a run of word characters of the stripped text, the kept positions run without gaps. */
  lemma KeptWordRun(s: string, m: seq<nat>, p: nat, n: nat)
    requires |s| == |m| && MatchesAtBoundaries(s, m)
    requires 0 < n && p + n <= |Strip(s, 0, m)|
    requires forall t :: p <= t < p + n ==> IsWordChar(Strip(s, 0, m)[t])
    ensures |Kept(s, 0, m)| == |Strip(s, 0, m)|
    ensures forall t :: p <= t < p + n ==> Kept(s, 0, m)[t] == Kept(s, 0, m)[p] + (t - p)
  {
    StripReadsKept(s, 0, m);
    var ks := Kept(s, 0, m);
    forall t | p <= t < p + n - 1
      ensures ks[t + 1] == ks[t] + 1
    {
      KeptConsecutive(s, m, t);
    }
    KeptRun(ks, p, n);
  }

  /**
   * Where the positions `ks` run without gaps, reading `s` at them reads a
   * slice of `s`, and the run ends where its last position ends.
   */
  lemma SliceReads(s: string, r: string, ks: seq<nat>, p: nat, n: nat)
    requires 0 < n && p + n <= |ks| == |r|
    requires forall j :: 0 <= j < |ks| ==> ks[j] < |s| && r[j] == s[ks[j]]
    requires forall t :: p <= t < p + n ==> ks[t] == ks[p] + (t - p)
    requires EndsWord(s, ks[p + n - 1] + 1)
    ensures ks[p] + n <= |s| && s[ks[p]..ks[p] + n] == r[p..p + n] && EndsWord(s, ks[p] + n)
  {
    assert ks[p + n - 1] == ks[p] + (n - 1);
    var a, b := s[ks[p]..ks[p] + n], r[p..p + n];
    forall v | 0 <= v < n
      ensures a[v] == b[v]
    {
      assert ks[p + v] == ks[p] + v;
    }
  }

  /**
   * The length of the form-word match at each position of `s`:
   * `s.replace(formPatterns, '')` is `Strip(s, 0, FormMatches(s))`.
   */
  function FormMatches(s: string): (m: seq<nat>)
    ensures |m| == |s|
  {
    seq(|s|, p requires 0 <= p < |s| => MatchAt(s, p))
  }

  lemma FormMatchAt(s: string, p: nat)
    requires p < |s|
    ensures FormMatches(s)[p] == MatchAt(s, p)
  {
  }

  /**
   * Every whole form word the scan meets is deleted and nothing else is: the
   * result is `s` read at increasing kept positions, no kept position starts
   * a whole form word, and every dropped position lies inside one.
   */
  lemma FormWordsRemoved(s: string)
    ensures var ks := Kept(s, 0, FormMatches(s));
      && |ks| == |Strip(s, 0, FormMatches(s))|
      && (forall j :: 0 <= j < |ks| ==> Strip(s, 0, FormMatches(s))[j] == s[ks[j]])
      && (forall j1, j2 :: 0 <= j1 < j2 < |ks| ==> ks[j1] < ks[j2])
      && (forall j :: 0 <= j < |ks| ==> MatchAt(s, ks[j]) == 0)
      && (forall p :: 0 <= p < |s| && p !in ks ==> exists q :: q <= p < q + MatchAt(s, q))
  {
    var m := FormMatches(s);
    var ks := Kept(s, 0, m);
    StripReadsKept(s, 0, m);
    forall j | 0 < j < |ks|
      ensures ks[j - 1] < ks[j]
    {
      KeptGrows(s, 0, m, j);
    }
    forall j1, j2 | 0 <= j1 < j2 < |ks|
      ensures ks[j1] < ks[j2]
    {
      Increasing(ks, j1, j2);
    }
    forall j | 0 <= j < |ks|
      ensures MatchAt(s, ks[j]) == 0
    {
      KeptStartsNoMatch(s, 0, m, j);
      FormMatchAt(s, ks[j]);
    }
    forall p | 0 <= p < |s| && p !in ks
      ensures exists q :: q <= p < q + MatchAt(s, q)
    {
      DroppedInsideMatch(s, 0, m, p);
      var q :| 0 <= q <= p < q + m[q] && q + m[q] <= |s|;
      FormMatchAt(s, q);
    }
  }

  /** `extractBrandName`: the product name without its form words, trimmed at the ends only. */
  function ExtractBrandName(fullName: string): string {
    Trim(Strip(fullName, 0, FormMatches(fullName)))
  }

  /** A name that holds no whole form word loses nothing but its outer spaces. */
  lemma NoFormWordBrandName(fullName: string)
    requires forall p :: 0 <= p < |fullName| ==> MatchAt(fullName, p) == 0
    ensures ExtractBrandName(fullName) == Trim(fullName)
  {
    var m := FormMatches(fullName);
    forall p | 0 <= p < |fullName|
      ensures m[p] == 0
    {
      FormMatchAt(fullName, p);
    }
    StripWithoutMatch(fullName, 0, m);
    assert fullName[0..] == fullName;
  }

  /**
   * A whole form word `w` where the scan arrives is the match there when no
   * earlier alternative of the pattern matches: the alternation takes the
   * first listed word, not the longest.
   */
  lemma ScanMatchIsWord(s: string, i: nat, k: nat, w: string)
    requires k < |FormWords| && w == FormWords[k]
    requires WholeWordAt(s, i, w)
    requires forall j :: 0 <= j < k ==> !WholeWordAt(s, i, FormWords[j])
    ensures MatchAt(s, i) == |w| > 0
  {
    MatchFromPicksFirst(s, i, 0, k);
    FormWordNonEmpty(k);
  }

  lemma FormWordNonEmpty(k: nat)
    requires k < |FormWords|
    ensures |FormWords[k]| > 0
  {
  }

  lemma {:induction false} MatchFromPicksFirst(s: string, i: int, from: nat, k: nat)
    requires from <= k < |FormWords|
    requires WholeWordAt(s, i, FormWords[k])
    requires forall j :: from <= j < k ==> !WholeWordAt(s, i, FormWords[j])
    ensures MatchFrom(s, i, from) == |FormWords[k]|
    decreases k - from
  {
    if from < k {
      MatchFromPicksFirst(s, i, from + 1, k);
    }
  }

  /** When some alternative from `from` on matches, the result is the length of one that does. */
  lemma {:induction false} MatchFromWitness(s: string, i: int, from: nat)
    requires from <= |FormWords| && MatchFrom(s, i, from) > 0
    ensures exists k :: from <= k < |FormWords| && WholeWordAt(s, i, FormWords[k]) && MatchFrom(s, i, from) == |FormWords[k]|
    decreases |FormWords| - from
  {
    if !WholeWordAt(s, i, FormWords[from]) {
      MatchFromWitness(s, i, from + 1);
    }
  }

  /** A whole form word at `i` is found by the alternation, whichever alternative it is. */
  lemma {:induction false} MatchFromFinds(s: string, i: int, from: nat, k: nat)
    requires from <= k < |FormWords| && WholeWordAt(s, i, FormWords[k])
    ensures MatchFrom(s, i, from) > 0
    decreases k - from
  {
    if WholeWordAt(s, i, FormWords[from]) {
      FormWordNonEmpty(from);
    } else {
      MatchFromFinds(s, i, from + 1, k);
    }
  }

  /** Form-word matches begin and end at word boundaries. */
  lemma FormMatchesAtBoundaries(s: string)
    ensures MatchesAtBoundaries(s, FormMatches(s))
  {
    forall q | 0 <= q < |s| && FormMatches(s)[q] > 0
      ensures q + FormMatches(s)[q] <= |s| && StartsWord(s, q) && EndsWord(s, q + FormMatches(s)[q])
    {
      FormMatchAt(s, q);
      MatchFromWitness(s, q, 0);
    }
  }

  /** A whole word of word characters only, matched ignoring case, spans word characters only. */
  lemma WholeWordIsWordChars(s: string, p: int, w: string)
    requires WordOnly(w) && WholeWordAt(s, p, w)
    ensures forall t :: p <= t < p + |w| ==> IsWordChar(s[t])
  {
    forall t | p <= t < p + |w|
      ensures IsWordChar(s[t])
    {
      assert Lower(s[t]) == LowerStr(s[p..p + |w|])[t - p];
    }
  }

  predicate WordOnly(w: string) {
    forall t :: 0 <= t < |w| ==> IsWordChar(w[t])
  }

  lemma FormWordChars(k: nat)
    requires k < |FormWords|
    ensures WordOnly(FormWords[k])
  {
  }

  /** Every whole form word in `s` starts a match. */
  predicate FindsFormWords(s: string, m: seq<nat>)
    requires |m| == |s|
  {
    forall q, k :: 0 <= q < |s| && 0 <= k < |FormWords| && WholeWordAt(s, q, FormWords[k]) ==> m[q] > 0
  }

  lemma FormMatchesFindFormWords(s: string)
    ensures FindsFormWords(s, FormMatches(s))
  {
    forall q, k | 0 <= q < |s| && 0 <= k < |FormWords| && WholeWordAt(s, q, FormWords[k])
      ensures FormMatches(s)[q] > 0
    {
      FormMatchAt(s, q);
      MatchFromFinds(s, q, 0, k);
    }
  }

  /** A whole word that reads the same in `r` and `s`, with word boundaries in `s`, is a whole word in `s`. */
  lemma WholeWordCarries(s: string, q: nat, r: string, p: nat, w: string)
    requires WholeWordAt(r, p, w)
    requires q + |w| <= |s| && s[q..q + |w|] == r[p..p + |w|]
    requires StartsWord(s, q) && EndsWord(s, q + |w|)
    ensures WholeWordAt(s, q, w)
  {
  }

  /**
   * Stripping with boundary matches that find every whole form word leaves
   * no whole form word behind.
   */
  lemma NoFormWordAt(s: string, m: seq<nat>, p: nat)
    requires |s| == |m| && MatchesAtBoundaries(s, m) && FindsFormWords(s, m)
    requires p < |Strip(s, 0, m)|
    ensures MatchAt(Strip(s, 0, m), p) == 0
  {
    if MatchAt(Strip(s, 0, m), p) > 0 {
      MatchFromWitness(Strip(s, 0, m), p, 0);
      var k :| 0 <= k < |FormWords| && WholeWordAt(Strip(s, 0, m), p, FormWords[k]);
      NoWholeWordAt(s, m, p, k);
      assert false;
    }
  }

  lemma NoWholeWordAt(s: string, m: seq<nat>, p: nat, k: nat)
    requires |s| == |m| && MatchesAtBoundaries(s, m) && FindsFormWords(s, m)
    requires k < |FormWords|
    ensures !WholeWordAt(Strip(s, 0, m), p, FormWords[k])
  {
    if WholeWordAt(Strip(s, 0, m), p, FormWords[k]) {
      FormWordChars(k);
      FormWordNonEmpty(k);
      KeptWordIsWhole(s, m, p, FormWords[k]);
      KeptStartsNoMatch(s, 0, m, p);
      assert false;
    }
  }

  /** A whole form word of the stripped text was a whole word at its kept position in `s`. */
  lemma KeptWordIsWhole(s: string, m: seq<nat>, p: nat, w: string)
    requires |s| == |m| && MatchesAtBoundaries(s, m)
    requires |w| > 0 && WordOnly(w) && WholeWordAt(Strip(s, 0, m), p, w)
    ensures |Kept(s, 0, m)| == |Strip(s, 0, m)| && WholeWordAt(s, Kept(s, 0, m)[p], w)
  {
    var r := Strip(s, 0, m);
    WholeWordIsWordChars(r, p, w);
    WordKeptWhole(s, m, p, |w|);
    WholeWordCarries(s, Kept(s, 0, m)[p], r, p, w);
  }

  /** The name left by stripping form words holds no whole form word. */
  lemma NoFormWordLeft(s: string)
    ensures forall p :: 0 <= p < |Strip(s, 0, FormMatches(s))| ==> MatchAt(Strip(s, 0, FormMatches(s)), p) == 0
  {
    FormMatchesAtBoundaries(s);
    FormMatchesFindFormWords(s);
    forall p | 0 <= p < |Strip(s, 0, FormMatches(s))|
      ensures MatchAt(Strip(s, 0, FormMatches(s)), p) == 0
    {
      NoFormWordAt(s, FormMatches(s), p);
    }
  }

  // ---------------------------------------------------------------------
  // extractForm (lines 38-50)
  // ---------------------------------------------------------------------

  /** One step of the ladder: any of `patterns` found in the text gives `form`. */
  datatype FormRule = FormRule(patterns: seq<string>, form: string)

  const FormRules: seq<FormRule> := [
    FormRule(["tablet"], "Tablet"),
    FormRule(["capsule"], "Capsule"),
    FormRule(["syrup", "suspension", "liquid", "oral solution"], "Syrup"),
    FormRule(["injection", "vial", "ampoule"], "Injection"),
    FormRule(["cream", "ointment", "gel"], "Cream"),
    FormRule(["drop"], "Drops"),
    FormRule(["inhaler"], "Inhaler"),
    FormRule(["spray"], "Spray"),
    FormRule(["powder", "sachet"], "Powder")]

  /** The nine values `extractForm` can return. */
  predicate IsFormLabel(f: string) {
    f in {"Tablet", "Capsule", "Syrup", "Injection", "Cream", "Drops", "Inhaler", "Spray", "Powder"}
  }

  predicate Fires(rule: FormRule, text: string) {
    exists p :: p in rule.patterns && Contains(text, p)
  }

  /** The index of the first rule from `k` on that fires, or the number of rules. */
  function FirstFiring(text: string, k: nat): (i: nat)
    requires k <= |FormRules|
    ensures k <= i <= |FormRules|
    ensures i < |FormRules| ==> Fires(FormRules[i], text)
    ensures forall j :: k <= j < i ==> !Fires(FormRules[j], text)
    decreases |FormRules| - k
  {
    if k == |FormRules| then k
    else if Fires(FormRules[k], text) then k
    else FirstFiring(text, k + 1)
  }

  /** The ladder on already case-folded text, with the `'Tablet'` default. */
  function FormOf(text: string): (f: string)
    ensures IsFormLabel(f)
  {
    var i := FirstFiring(text, 0);
    if i < |FormRules| then FormRules[i].form else "Tablet"
  }

  /** `extractForm(name, packSize)`. */
  function ExtractForm(name: string, packSize: string): string {
    FormOf(LowerStr(name + " " + packSize))
  }

  /** The form is that of the first rule in priority order whose pattern occurs, or Tablet if none does. */
  lemma FormIsFirstFiringRule(text: string)
    ensures forall i :: (0 <= i < |FormRules| && Fires(FormRules[i], text)
                         && (forall j :: 0 <= j < i ==> !Fires(FormRules[j], text))) ==> FormOf(text) == FormRules[i].form
    ensures (forall j :: 0 <= j < |FormRules| ==> !Fires(FormRules[j], text)) ==> FormOf(text) == "Tablet"
  {
    var k := FirstFiring(text, 0);
    forall i | 0 <= i < |FormRules| && Fires(FormRules[i], text) && (forall j :: 0 <= j < i ==> !Fires(FormRules[j], text))
      ensures FormOf(text) == FormRules[i].form
    {
      assert k == i;
    }
  }

  /** A capsule that also mentions a tablet is a Tablet: the earlier rule wins. */
  lemma TabletBeatsCapsule(text: string)
    requires Contains(text, "tablet") && Contains(text, "capsule")
    ensures FormOf(text) == "Tablet"
  {
    assert Fires(FormRules[0], text) by {
      assert "tablet" in FormRules[0].patterns;
    }
  }

  // ---------------------------------------------------------------------
  // buildGenericName (lines 55-61)
  // ---------------------------------------------------------------------

  /**
   * The end of the group `/\(.*?\)/` would match if it started at `i`: the
   * first `)` after `i`, provided no line terminator comes first (`.` does not
   * match one); 0 when there is none.
   */
  function GroupEnd(s: string, i: nat, j: nat): (e: nat)
    requires i < j <= |s|
    ensures e == 0 || (j <= e < |s| && s[e] == ')')
    ensures e > 0 ==> forall m :: j <= m < e ==> s[m] != ')' && !IsLineTerminator(s[m])
    decreases |s| - j
  {
    if j == |s| || IsLineTerminator(s[j]) then 0
    else if s[j] == ')' then j
    else GroupEnd(s, i, j + 1)
  }

  /** A search that finds no end stops at a line terminator before every `)` after `j`. */
  lemma {:induction false} GroupEndMissed(s: string, i: nat, j: nat)
    requires i < j <= |s| && GroupEnd(s, i, j) == 0
    ensures forall m :: j <= m < |s| && s[m] == ')' ==> exists t :: j <= t < m && IsLineTerminator(s[t])
    decreases |s| - j
  {
    if j < |s| && !IsLineTerminator(s[j]) {
      GroupEndMissed(s, i, j + 1);
      forall m | j <= m < |s| && s[m] == ')'
        ensures exists t :: j <= t < m && IsLineTerminator(s[t])
      {
        var t :| j + 1 <= t < m && IsLineTerminator(s[t]);
      }
    }
  }

  /** `s.replace(/\(.*?\)/g, '')` from position `i` on. */
  function RemoveGroups(s: string, i: nat): (r: string)
    requires i <= |s|
    ensures |r| <= |s| - i
    decreases |s| - i
  {
    if i == |s| then []
    else if s[i] == '(' && GroupEnd(s, i, i + 1) > 0 then RemoveGroups(s, GroupEnd(s, i, i + 1) + 1)
    else [s[i]] + RemoveGroups(s, i + 1)
  }

  /** A component with no parenthesis is left as it is. */
  lemma {:induction false} NoParenUnchanged(s: string, i: nat)
    requires i <= |s| && '(' !in s[i..]
    ensures RemoveGroups(s, i) == s[i..]
    decreases |s| - i
  {
    if i < |s| {
      assert s[i] in s[i..];
      assert s[i..] == [s[i]] + s[i + 1..];
      NoParenUnchanged(s, i + 1);
    }
  }

  /** `c.replace(/\(.*?\)/g, '').trim()`: the drug name of one component. */
  function DrugName(c: string): string {
    Trim(RemoveGroups(c, 0))
  }

  /** `[comp1, comp2].filter(Boolean)`. */
  function Present(comp1: string, comp2: string): (r: seq<string>)
    ensures |r| <= 2
    ensures forall j :: 0 <= j < |r| ==> r[j] != []
  {
    (if comp1 != "" then [comp1] else []) + (if comp2 != "" then [comp2] else [])
  }

  function MapDrugName(cs: seq<string>): (r: seq<string>)
    ensures |r| == |cs| && forall j :: 0 <= j < |cs| ==> r[j] == DrugName(cs[j])
  {
    seq(|cs|, j requires 0 <= j < |cs| => DrugName(cs[j]))
  }

  /** `parts.join(' + ') || fallback`. */
  function JoinOr(parts: seq<string>, fallback: string): string {
    var joined := Join(parts, " + ");
    if joined == "" then fallback else joined
  }

  /** `buildGenericName`. */
  function BuildGenericName(comp1: string, comp2: string): string {
    JoinOr(MapDrugName(Present(comp1, comp2)), "Unknown")
  }

  /**
   * The generic name is the two drug names joined by `' + '` when both
   * components are present, the one drug name when one is, and 'Unknown' when
   * none is or the only one has no name left.
   */
  lemma GenericNameShape(comp1: string, comp2: string)
    ensures comp1 != "" && comp2 != "" ==>
      BuildGenericName(comp1, comp2) == DrugName(comp1) + " + " + DrugName(comp2)
    ensures comp1 == "" && comp2 == "" ==> BuildGenericName(comp1, comp2) == "Unknown"
    ensures comp1 != "" && comp2 == "" ==>
      BuildGenericName(comp1, comp2) == (if DrugName(comp1) == "" then "Unknown" else DrugName(comp1))
    ensures comp1 == "" && comp2 != "" ==>
      BuildGenericName(comp1, comp2) == (if DrugName(comp2) == "" then "Unknown" else DrugName(comp2))
  {
    var parts := MapDrugName(Present(comp1, comp2));
    if comp1 != "" && comp2 != "" {
      assert parts == [DrugName(comp1), DrugName(comp2)];
      assert Join(parts[1..], " + ") == DrugName(comp2);
    }
  }

  // ---------------------------------------------------------------------
  // buildStrength (lines 66-78)
  // ---------------------------------------------------------------------

  /** The first `)` at or after `j`, or `|s|`. */
  function NextClose(s: string, j: nat): (e: nat)
    requires j <= |s|
    ensures j <= e <= |s|
    ensures e < |s| ==> s[e] == ')'
    ensures forall m :: j <= m < e ==> s[m] != ')'
    decreases |s| - j
  {
    if j == |s| || s[j] == ')' then j else NextClose(s, j + 1)
  }

  /** Whether `/\(([^)]+)\)/` matches at `i`: a `(`, at least one non-`)`, then a `)`. */
  predicate GroupAt(s: string, i: nat)
    requires i <= |s|
  {
    i < |s| && s[i] == '(' && NextClose(s, i + 1) < |s| && NextClose(s, i + 1) > i + 1
  }

  /** `comp.match(/\(([^)]+)\)/)` from position `i` on: the content of the leftmost group, or `''`. */
  function FirstGroupFrom(s: string, i: nat): (r: string)
    requires i <= |s|
    ensures r != [] ==> exists p :: (i <= p < |s| && GroupAt(s, p) && r == s[p + 1..NextClose(s, p + 1)]
      && forall q :: i <= q < p ==> !GroupAt(s, q))
    ensures r == [] ==> forall p :: i <= p < |s| ==> !GroupAt(s, p)
    ensures ')' !in r
    decreases |s| - i
  {
    if i == |s| then []
    else if GroupAt(s, i) then s[i + 1..NextClose(s, i + 1)]
    else FirstGroupFrom(s, i + 1)
  }

  /** `extractStrength`: the content of the first parenthesised group, which holds no `)`. */
  function ExtractStrength(comp: string): (r: string)
    ensures ')' !in r
  {
    FirstGroupFrom(comp, 0)
  }

  function NonEmptyStrengths(cs: seq<string>): (r: seq<string>)
    ensures |r| <= |cs|
    ensures forall j :: 0 <= j < |r| ==> r[j] != []
    decreases |cs|
  {
    if cs == [] then []
    else
      var s := ExtractStrength(cs[0]);
      (if s != "" then [s] else []) + NonEmptyStrengths(cs[1..])
  }

  /** `buildStrength`. */
  function BuildStrength(comp1: string, comp2: string): string {
    JoinOr(NonEmptyStrengths(Present(comp1, comp2)), "Standard")
  }

  /** `ExtractStrength(c)` as a one-element list, or nothing when `c` has no group. */
  function StrengthPart(c: string): seq<string> {
    var s := ExtractStrength(c);
    if s != "" then [s] else []
  }

  lemma StrengthsOfPresent(comp1: string, comp2: string)
    ensures NonEmptyStrengths(Present(comp1, comp2))
      == (if comp1 != "" then StrengthPart(comp1) else []) + (if comp2 != "" then StrengthPart(comp2) else [])
  {
    var present := Present(comp1, comp2);
    if comp1 != "" && comp2 != "" {
      assert present == [comp1, comp2];
      assert present[1..] == [comp2];
      assert present[1..][1..] == [];
    } else if comp1 != "" {
      assert present == [comp1];
      assert present[1..] == [];
    } else if comp2 != "" {
      assert present == [comp2];
      assert present[1..] == [];
    }
  }

  /** 'Standard' when no component has a parenthesised group; otherwise the strengths joined by `' + '`. */
  lemma StrengthShape(comp1: string, comp2: string)
    ensures ExtractStrength(comp1) == "" && ExtractStrength(comp2) == "" ==> BuildStrength(comp1, comp2) == "Standard"
    ensures comp1 != "" && comp2 != "" && ExtractStrength(comp1) != "" && ExtractStrength(comp2) != "" ==>
      BuildStrength(comp1, comp2) == ExtractStrength(comp1) + " + " + ExtractStrength(comp2)
    ensures comp1 != "" && ExtractStrength(comp1) != "" && (comp2 == "" || ExtractStrength(comp2) == "") ==>
      BuildStrength(comp1, comp2) == ExtractStrength(comp1)
    ensures ExtractStrength(comp1) == "" && ExtractStrength(comp2) != "" ==>
      BuildStrength(comp1, comp2) == ExtractStrength(comp2)
  {
    StrengthsOfPresent(comp1, comp2);
    var parts := NonEmptyStrengths(Present(comp1, comp2));
    if comp1 != "" && comp2 != "" && ExtractStrength(comp1) != "" && ExtractStrength(comp2) != "" {
      assert parts == [ExtractStrength(comp1), ExtractStrength(comp2)];
      assert Join(parts[1..], " + ") == ExtractStrength(comp2);
    } else if ExtractStrength(comp1) == "" && ExtractStrength(comp2) != "" {
      assert parts == [ExtractStrength(comp2)];
    }
  }

  // ---------------------------------------------------------------------
  // Rows and batches (lines 95-138)
  // ---------------------------------------------------------------------

  /** `!!(comp2 && comp2.trim())`. */
  predicate IsCombination(comp2: string) {
    comp2 != "" && Trim(comp2) != ""
  }

  /** The record built from one row (lines 99-119), for a row that has a name. */
  function RecordOf(row: CsvRow, form: string): MedicineRecord {
    MedicineRecord(ExtractBrandName(row.name), BuildGenericName(row.composition1, row.composition2),
                   BuildStrength(row.composition1, row.composition2), form, None,
                   IsCombination(row.composition2), if row.manufacturer == "" then None else Some(row.manufacturer))
  }

  /** Lines 97-119: a row without a name is skipped; the form comes from the name alone. */
  function NormaliseRow(row: CsvRow): (r: Option<MedicineRecord>)
    ensures r.None? <==> row.name == ""
    ensures r.Some? ==> (r.value.isCombination <==> Trim(row.composition2) != "")
    ensures r.Some? ==> r.value.category.None? && IsFormLabel(r.value.form)
  {
    if row.name == "" then None else Some(RecordOf(row, ExtractForm(row.name, "")))
  }

  /** The records of the named rows, in row order. */
  function Records(rows: seq<CsvRow>): (r: seq<MedicineRecord>)
    ensures |r| <= |rows|
    decreases |rows|
  {
    if rows == [] then []
    else
      var last := NormaliseRow(rows[|rows| - 1]);
      Records(rows[..|rows| - 1]) + (if last.Some? then [last.value] else [])
  }

  /** Every named row yields exactly one record; the count is the number of named rows. */
  lemma {:induction false} RecordsCount(rows: seq<CsvRow>)
    ensures |Records(rows)| == NamedRows(rows)
    decreases |rows|
  {
    if rows != [] {
      RecordsCount(rows[..|rows| - 1]);
    }
  }

  function NamedRows(rows: seq<CsvRow>): nat
    decreases |rows|
  {
    if rows == [] then 0 else NamedRows(rows[..|rows| - 1]) + (if rows[|rows| - 1].name != "" then 1 else 0)
  }

  /** Lines 95-120: the parse loop, pushing a record for every named row. */
  method CollectRecords(rows: seq<CsvRow>) returns (records: seq<MedicineRecord>)
    ensures records == Records(rows)
  {
    records := [];
    for i := 0 to |rows|
      invariant records == Records(rows[..i])
    {
      assert rows[..i + 1][..i] == rows[..i];
      var row := rows[i];
      if row.name == "" {
        continue;
      }
      records := records + [RecordOf(row, ExtractForm(row.name, ""))];
    }
    assert rows[..|rows|] == rows;
  }

  const BatchSize: nat := 500

  /** The batch that starts at row `i`: `records.slice(i, i + 500)`. */
  function BatchAt(records: seq<MedicineRecord>, i: nat): seq<MedicineRecord>
    requires i <= |records|
  {
    if i + BatchSize <= |records| then records[i..i + BatchSize] else records[i..]
  }

  /** The batches of `records`, from row `i` on, in order. */
  function Batches(records: seq<MedicineRecord>, i: nat): (bs: seq<seq<MedicineRecord>>)
    requires i <= |records|
    ensures forall k :: 0 <= k < |bs| ==> 0 < |bs[k]| <= BatchSize
    decreases |records| - i
  {
    if i == |records| then []
    else [BatchAt(records, i)] + Batches(records, i + |BatchAt(records, i)|)
  }

  function Flatten(bs: seq<seq<MedicineRecord>>): seq<MedicineRecord>
    decreases |bs|
  {
    if bs == [] then [] else bs[0] + Flatten(bs[1..])
  }

  /** The batches cover the records exactly once and in order. */
  lemma {:induction false} BatchesCover(records: seq<MedicineRecord>, i: nat)
    requires i <= |records|
    ensures Flatten(Batches(records, i)) == records[i..]
    decreases |records| - i
  {
    if i < |records| {
      var b := BatchAt(records, i);
      BatchesCover(records, i + |b|);
      assert records[i..] == b + records[i + |b|..];
    }
  }

  /** Every batch but the last holds exactly 500 records. */
  lemma {:induction false} BatchesFull(records: seq<MedicineRecord>, i: nat)
    requires i <= |records|
    ensures forall k :: 0 <= k < |Batches(records, i)| - 1 ==> |Batches(records, i)[k]| == BatchSize
    decreases |records| - i
  {
    if i < |records| {
      var b := BatchAt(records, i);
      BatchesFull(records, i + |b|);
    }
  }

  /** The records inserted from row `i` on: the sizes of the batches the database accepted. */
  function InsertedFrom(records: seq<MedicineRecord>, i: nat, accepts: nat -> bool): nat
    requires i <= |records|
    decreases |records| - i
  {
    if i == |records| then 0
    else
      var n := |BatchAt(records, i)|;
      (if accepts(i) then n else 0) + InsertedFrom(records, i + n, accepts)
  }

  /** Never more records are reported inserted than were sent, and all of them when every batch is accepted. */
  lemma {:induction false} InsertedAtMost(records: seq<MedicineRecord>, i: nat, accepts: nat -> bool)
    requires i <= |records|
    ensures InsertedFrom(records, i, accepts) <= |records| - i
    ensures (forall k :: accepts(k)) ==> InsertedFrom(records, i, accepts) == |records| - i
    decreases |records| - i
  {
    if i < |records| {
      InsertedAtMost(records, i + |BatchAt(records, i)|, accepts);
    }
  }

  /**
   * Lines 124-138: insert the batches in order, adding a batch's size when the
   * database accepts it. `accepts(i)` is the outcome of inserting the batch
   * that starts at row `i`; `sent` lists the batches in the order they are sent.
   */
  method InsertBatches(records: seq<MedicineRecord>, accepts: nat -> bool)
    returns (inserted: nat, sent: seq<seq<MedicineRecord>>)
    ensures sent == Batches(records, 0)
    ensures inserted == InsertedFrom(records, 0, accepts)
  {
    inserted := 0;
    sent := [];
    var i := 0;
    ghost var all := Batches(records, i);
    ghost var total := InsertedFrom(records, i, accepts);
    while i < |records|
      invariant i <= |records|
      invariant sent + Batches(records, i) == all
      invariant inserted + InsertedFrom(records, i, accepts) == total
      decreases |records| - i
    {
      var batch := BatchAt(records, i);
      if accepts(i) {
        inserted := inserted + |batch|;
      }
      assert (sent + [batch]) + Batches(records, i + |batch|) == sent + Batches(records, i);
      sent := sent + [batch];
      i := i + |batch|;
    }
  }

  /** `main` without the CSV reading: normalise the rows, then insert them in batches. */
  method ImportMedicines(rows: seq<CsvRow>, accepts: nat -> bool) returns (inserted: nat)
    ensures inserted == InsertedFrom(Records(rows), 0, accepts)
    ensures inserted <= NamedRows(rows)
  {
    var records := CollectRecords(rows);
    var sent;
    inserted, sent := InsertBatches(records, accepts);
    InsertedAtMost(records, 0, accepts);
    RecordsCount(rows);
  }
}
