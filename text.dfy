/**
 * The pieces of JavaScript's string library the core relies on: the `\s`
 * character class (which is also what `trim` removes), case folding,
 * `trim`, `includes`, `split(/\s+/)` with empty pieces filtered out,
 * `join` and a global literal `replace`.
 *
 * Case folding is ASCII only: `toLowerCase` maps 'A'..'Z' to 'a'..'z' and
 * leaves every other character alone.
 */
module Text {

  /** JavaScript's `\s`: the ECMAScript WhiteSpace and LineTerminator characters. */
  predicate IsSpace(c: char) {
    || c == ' ' || c == '\t' || c == '\n' || c == '\U{000B}' || c == '\U{000C}' || c == '\r'
    || c == '\U{00A0}' || c == '\U{1680}' || ('\U{2000}' <= c <= '\U{200A}')
    || c == '\U{2028}' || c == '\U{2029}' || c == '\U{202F}' || c == '\U{205F}'
    || c == '\U{3000}' || c == '\U{FEFF}'
  }

  /** The characters a regular-expression `.` does not match. */
  predicate IsLineTerminator(c: char) {
    c == '\n' || c == '\r' || c == '\U{2028}' || c == '\U{2029}'
  }

  /** Regular-expression `\w`: the characters that make up a word for `\b`. */
  predicate IsWordChar(c: char) {
    ('a' <= c <= 'z') || ('A' <= c <= 'Z') || ('0' <= c <= '9') || c == '_'
  }

  predicate NoSpace(s: string) {
    forall i :: 0 <= i < |s| ==> !IsSpace(s[i])
  }

  function Lower(c: char): (r: char)
    ensures IsSpace(r) <==> IsSpace(c)
    ensures IsWordChar(r) <==> IsWordChar(c)
  {
    if 'A' <= c <= 'Z' then (c as int + 32) as char else c
  }

  /** `s.toLowerCase()`, ASCII only. */
  function LowerStr(s: string): (r: string)
    ensures |r| == |s|
  {
    seq(|s|, i requires 0 <= i < |s| => Lower(s[i]))
  }

  lemma LowerStrAppend(a: string, b: string)
    ensures LowerStr(a + b) == LowerStr(a) + LowerStr(b)
  {
  }

  /** `s.trimStart()`: drops the longest all-space prefix. */
  function TrimStart(s: string): (r: string)
    ensures |r| <= |s|
    decreases |s|
  {
    if s != [] && IsSpace(s[0]) then TrimStart(s[1..]) else s
  }

  /** `s.trimEnd()`: drops the longest all-space suffix. */
  function TrimEnd(s: string): (r: string)
    ensures |r| <= |s|
    decreases |s|
  {
    if s != [] && IsSpace(s[|s| - 1]) then TrimEnd(s[..|s| - 1]) else s
  }

  /** What `trimStart` keeps is the suffix after a run of spaces, and does not start with one. */
  lemma {:induction false} TrimStartFacts(s: string)
    ensures TrimStart(s) == s[|s| - |TrimStart(s)|..]
    ensures TrimStart(s) == [] || !IsSpace(TrimStart(s)[0])
    ensures forall i :: 0 <= i < |s| - |TrimStart(s)| ==> IsSpace(s[i])
    decreases |s|
  {
    if s != [] && IsSpace(s[0]) {
      TrimStartFacts(s[1..]);
    }
  }

  /** What `trimEnd` keeps is the prefix before a run of spaces, and does not end with one. */
  lemma {:induction false} TrimEndFacts(s: string)
    ensures TrimEnd(s) == s[..|TrimEnd(s)|]
    ensures TrimEnd(s) == [] || !IsSpace(TrimEnd(s)[|TrimEnd(s)| - 1])
    ensures forall i :: |TrimEnd(s)| <= i < |s| ==> IsSpace(s[i])
    decreases |s|
  {
    if s != [] && IsSpace(s[|s| - 1]) {
      TrimEndFacts(s[..|s| - 1]);
    }
  }

  /** `s.trim()`: what is left neither starts nor ends with a space. */
  function Trim(s: string): (r: string)
    ensures |r| <= |s|
    ensures r == [] || (!IsSpace(r[0]) && !IsSpace(r[|r| - 1]))
  {
    var t := TrimStart(s);
    TrimStartFacts(s);
    TrimEndFacts(t);
    TrimEnd(t)
  }

  lemma TrimNoSpace(s: string)
    requires NoSpace(s)
    ensures Trim(s) == s
  {
    if s != [] {
      assert !IsSpace(s[0]) && !IsSpace(s[|s| - 1]);
    }
  }

  lemma TrimAllSpace(s: string)
    requires forall i :: 0 <= i < |s| ==> IsSpace(s[i])
    ensures Trim(s) == []
  {
    TrimStartFacts(s);
  }

  predicate StartsWith(s: string, p: string) {
    |p| <= |s| && s[..|p|] == p
  }

  predicate EndsWith(s: string, p: string) {
    |p| <= |s| && s[|s| - |p|..] == p
  }

  /** `s.includes(p)`. */
  predicate Contains(s: string, p: string) {
    exists i :: 0 <= i <= |s| - |p| && OccursAt(s, p, i)
  }

  predicate OccursAt(s: string, p: string, i: int) {
    0 <= i && i + |p| <= |s| && s[i..i + |p|] == p
  }

  /** Appending a space to `s` creates no new occurrence of a pattern that does not end in a space. */
  lemma ContainsAppendSpace(s: string, p: string)
    requires p != [] && p[|p| - 1] != ' '
    ensures Contains(s + " ", p) <==> Contains(s, p)
  {
    if Contains(s + " ", p) {
      OccurrenceBeforeSpace(s, p);
    }
    if Contains(s, p) {
      var i :| 0 <= i <= |s| - |p| && OccursAt(s, p, i);
      OccursAtExtend(s, " ", p, i);
    }
  }

  lemma OccurrenceBeforeSpace(s: string, p: string)
    requires p != [] && p[|p| - 1] != ' '
    requires Contains(s + " ", p)
    ensures Contains(s, p)
  {
    var t := s + " ";
    var i :| 0 <= i <= |t| - |p| && OccursAt(t, p, i);
    assert i + |p| <= |s|;
    assert s[i..i + |p|] == t[i..i + |p|];
    assert OccursAt(s, p, i);
  }

  lemma OccursAtExtend(s: string, u: string, p: string, i: int)
    requires OccursAt(s, p, i)
    ensures OccursAt(s + u, p, i) && Contains(s + u, p)
  {
    assert (s + u)[i..i + |p|] == s[i..i + |p|];
    assert 0 <= i <= |s + u| - |p| && OccursAt(s + u, p, i);
  }

  /** `pieces.join(sep)`. */
  function Join(pieces: seq<string>, sep: string): (r: string)
    decreases |pieces|
  {
    if |pieces| == 0 then ""
    else if |pieces| == 1 then pieces[0]
    else pieces[0] + sep + Join(pieces[1..], sep)
  }

  lemma JoinNoChar(pieces: seq<string>, sep: string, c: char)
    requires c !in sep
    requires forall j :: 0 <= j < |pieces| ==> c !in pieces[j]
    ensures c !in Join(pieces, sep)
    decreases |pieces|
  {
    if |pieces| > 1 {
      JoinNoChar(pieces[1..], sep, c);
    }
  }

  lemma JoinEmptyIff(pieces: seq<string>, sep: string)
    requires sep != []
    ensures Join(pieces, sep) == [] <==> (|pieces| == 0 || (|pieces| == 1 && pieces[0] == []))
  {
    if |pieces| > 1 {
      assert |Join(pieces, sep)| >= |sep|;
    }
  }

  /**
   * `s.split(/\s+/).filter((t) => t.length > 0)`: the maximal runs of
   * non-space characters, left to right. `Scan` carries the run read so far.
   */
  function SplitWhitespace(s: string): seq<string> {
    Scan(s, [])
  }

  function Flush(current: string): seq<string> {
    if current == [] then [] else [current]
  }

  function Scan(s: string, current: string): seq<string>
    decreases |s|
  {
    if s == [] then Flush(current)
    else if IsSpace(s[0]) then Flush(current) + Scan(s[1..], [])
    else Scan(s[1..], current + [s[0]])
  }

  predicate IsWord(w: string) {
    w != [] && NoSpace(w)
  }

  predicate AllWords(ws: seq<string>) {
    forall j :: 0 <= j < |ws| ==> IsWord(ws[j])
  }

  /** Every piece of a split is non-empty and holds no space. */
  lemma {:induction false} ScanWords(s: string, current: string)
    requires NoSpace(current)
    ensures forall j :: 0 <= j < |Scan(s, current)| ==> IsWord(Scan(s, current)[j])
    decreases |s|
  {
    if s == [] {
    } else if IsSpace(s[0]) {
      ScanWords(s[1..], []);
    } else {
      ScanWords(s[1..], current + [s[0]]);
    }
  }

  lemma SplitWords(s: string)
    ensures forall j :: 0 <= j < |SplitWhitespace(s)| ==> IsWord(SplitWhitespace(s)[j])
  {
    ScanWords(s, []);
  }

  /** A run of spaces in front of the text changes nothing when no word is pending. */
  lemma {:induction false} ScanSkipsSpaces(s: string, k: nat)
    requires k <= |s|
    requires forall i :: 0 <= i < k ==> IsSpace(s[i])
    ensures Scan(s, []) == Scan(s[k..], [])
    decreases k
  {
    if k > 0 {
      ScanSkipsSpaces(s[1..], k - 1);
      assert s[1..][k - 1..] == s[k..];
    }
  }

  /** Splitting reads a word, then the rest. */
  lemma {:induction false} ScanWordThen(w: string, rest: string, current: string)
    requires NoSpace(w)
    requires rest == [] || IsSpace(rest[0])
    ensures Scan(w + rest, current) == Scan(rest, current + w)
    decreases |w|
  {
    if w == [] {
      assert w + rest == rest && current + w == current;
    } else {
      assert (w + rest)[0] == w[0];
      assert (w + rest)[1..] == w[1..] + rest;
      ScanWordThen(w[1..], rest, current + [w[0]]);
      assert current + [w[0]] + w[1..] == current + w;
    }
  }

  /** Splitting on whitespace undoes `join(' ')` of words: the two are inverse. */
  lemma {:induction false} SplitJoin(words: seq<string>)
    requires forall j :: 0 <= j < |words| ==> IsWord(words[j])
    ensures SplitWhitespace(Join(words, " ")) == words
    decreases |words|
  {
    if |words| == 0 {
    } else if |words| == 1 {
      ScanWordThen(words[0], [], []);
      assert words[0] + [] == words[0] && [] + words[0] == words[0];
    } else {
      var rest := " " + Join(words[1..], " ");
      assert Join(words, " ") == words[0] + rest;
      ScanWordThen(words[0], rest, []);
      assert [] + words[0] == words[0];
      assert rest[0] == ' ' && rest[1..] == Join(words[1..], " ");
      assert Scan(rest, words[0]) == [words[0]] + Scan(rest[1..], []);
      SplitJoin(words[1..]);
      assert words == [words[0]] + words[1..];
    }
  }

  /** `s.replace(/pat/g, rep)` for a literal pattern: left to right, non-overlapping. */
  function ReplaceAll(s: string, pat: string, rep: string): string
    requires pat != []
    decreases |s|
  {
    if |s| < |pat| then s
    else if s[..|pat|] == pat then rep + ReplaceAll(s[|pat|..], pat, rep)
    else [s[0]] + ReplaceAll(s[1..], pat, rep)
  }

  /** A pattern holding a character the text lacks never matches, so nothing is replaced. */
  lemma {:induction false} ReplaceAllAbsent(s: string, pat: string, rep: string, c: char)
    requires pat != [] && c in pat && c !in s
    ensures ReplaceAll(s, pat, rep) == s
    decreases |s|
  {
    if |s| >= |pat| {
      ReplaceAllAbsent(s[1..], pat, rep, c);
      assert s == [s[0]] + s[1..];
    }
  }
}
