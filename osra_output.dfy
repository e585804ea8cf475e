/**
 * Reading the recognition engine's answer. The engine prints "SMILES name"
 * on its first output line; the adapter keeps the first whitespace-delimited
 * token of the stripped standard output when the process exits with code 0,
 * and reports nothing otherwise. The process itself is not modelled: its
 * outcome arrives as a value.
 */
module OsraOutput {

  datatype Option<T> = None | Some(value: T)

  /** How the engine's run ended: exited normally, or one of the failures the adapter catches. */
  datatype RunOutcome =
    | Exited(returnCode: int, stdout: string)
    | TimedOut
    | EngineNotFound
    | OtherError

  /** Python's `str.isspace` on one character: the whitespace that `strip` and `split` remove. */
  predicate IsSpace(c: char) {
    var u := c as int;
    || 0x09 <= u <= 0x0D
    || 0x1C <= u <= 0x20
    || u == 0x85 || u == 0xA0 || u == 0x1680
    || 0x2000 <= u <= 0x200A
    || u == 0x2028 || u == 0x2029 || u == 0x202F || u == 0x205F || u == 0x3000
  }

  /** The first index at or after i that is not whitespace (|s| when there is none). */
  function SkipSpaces(s: string, i: nat): (k: nat)
    requires i <= |s|
    ensures i <= k <= |s|
    ensures k < |s| ==> !IsSpace(s[k])
    decreases |s| - i
  {
    if i < |s| && IsSpace(s[i]) then SkipSpaces(s, i + 1) else i
  }

  /** Everything SkipSpaces passes over is whitespace. */
  lemma {:induction false} SkipSpacesSpan(s: string, i: nat)
    requires i <= |s|
    ensures forall j :: i <= j < SkipSpaces(s, i) ==> IsSpace(s[j])
    decreases |s| - i
  {
    if i < |s| && IsSpace(s[i]) {
      SkipSpacesSpan(s, i + 1);
    }
  }

  /** The first index at or after i that is whitespace (|s| when there is none). */
  function SkipWord(s: string, i: nat): (k: nat)
    requires i <= |s|
    ensures i <= k <= |s|
    ensures k < |s| ==> IsSpace(s[k])
    decreases |s| - i
  {
    if i < |s| && !IsSpace(s[i]) then SkipWord(s, i + 1) else i
  }

  /** Everything SkipWord passes over is non-whitespace. */
  lemma {:induction false} SkipWordSpan(s: string, i: nat)
    requires i <= |s|
    ensures forall j :: i <= j < SkipWord(s, i) ==> !IsSpace(s[j])
    decreases |s| - i
  {
    if i < |s| && !IsSpace(s[i]) {
      SkipWordSpan(s, i + 1);
    }
  }

  /** Where the whitespace run ending at j starts, looking no further left than lo. */
  function TrailingStart(s: string, lo: nat, j: nat): (k: nat)
    requires lo <= j <= |s|
    ensures lo <= k <= j
    ensures forall m :: k <= m < j ==> IsSpace(s[m])
    ensures k > lo ==> !IsSpace(s[k - 1])
    decreases j
  {
    if j > lo && IsSpace(s[j - 1]) then TrailingStart(s, lo, j - 1) else j
  }

  /**
   * Python's `str.strip()`: the result is empty exactly when `s` is all
   * whitespace; otherwise it starts and ends with non-whitespace and is the
   * part of `s` between a whitespace prefix and a whitespace suffix.
   */
  function Strip(s: string): (r: string)
    ensures r == [] <==> forall i :: 0 <= i < |s| ==> IsSpace(s[i])
    ensures r != [] ==> !IsSpace(r[0]) && !IsSpace(r[|r| - 1])
    ensures var lo := SkipSpaces(s, 0);
      && lo + |r| <= |s|
      && r == s[lo..lo + |r|]
      && (forall i :: 0 <= i < lo ==> IsSpace(s[i]))
      && (forall i :: lo + |r| <= i < |s| ==> IsSpace(s[i]))
  {
    var lo := SkipSpaces(s, 0);
    var hi := TrailingStart(s, lo, |s|);
    SkipSpacesSpan(s, 0);
    s[lo..hi]
  }

  /** A non-empty run without whitespace. */
  predicate IsWord(w: string) {
    w != [] && forall j :: 0 <= j < |w| ==> !IsSpace(w[j])
  }

  /** The whitespace-delimited words of s[i..], in order. */
  function SplitFrom(s: string, i: nat): seq<string>
    requires i <= |s|
    decreases |s| - i
  {
    var a := SkipSpaces(s, i);
    if a == |s| then
      []
    else
      var b := SkipWord(s, a);
      [s[a..b]] + SplitFrom(s, b)
  }

  /** Python's `str.split()` with no separator: the maximal runs of non-whitespace, in order. */
  function Split(s: string): seq<string> {
    SplitFrom(s, 0)
  }

  /** Every piece of a split is a word, and there are none exactly when the rest is all whitespace. */
  lemma {:induction false} SplitFromWords(s: string, i: nat)
    requires i <= |s|
    ensures forall n :: 0 <= n < |SplitFrom(s, i)| ==> IsWord(SplitFrom(s, i)[n])
    ensures SplitFrom(s, i) == [] <==> forall j :: i <= j < |s| ==> IsSpace(s[j])
    decreases |s| - i
  {
    var a := SkipSpaces(s, i);
    SkipSpacesSpan(s, i);
    if a < |s| {
      var b := SkipWord(s, a);
      SkipWordSpan(s, a);
      SplitFromWords(s, b);
    }
  }

  /** The words of a split: non-empty runs without whitespace, none exactly when s is all whitespace. */
  lemma SplitWords(s: string)
    ensures forall n :: 0 <= n < |Split(s)| ==> IsWord(Split(s)[n])
    ensures Split(s) == [] <==> forall j :: 0 <= j < |s| ==> IsSpace(s[j])
  {
    SplitFromWords(s, 0);
  }

  /** The words joined by single spaces. */
  function JoinWords(words: seq<string>): string {
    if words == [] then []
    else if |words| == 1 then words[0]
    else words[0] + [' '] + JoinWords(words[1..])
  }

  lemma {:induction false} SkipSpacesShift(p: string, t: string, i: nat)
    requires i <= |t|
    ensures SkipSpaces(p + t, |p| + i) == |p| + SkipSpaces(t, i)
    decreases |t| - i
  {
    if i < |t| {
      assert (p + t)[|p| + i] == t[i];
      SkipSpacesShift(p, t, i + 1);
    }
  }

  lemma {:induction false} SkipWordShift(p: string, t: string, i: nat)
    requires i <= |t|
    ensures SkipWord(p + t, |p| + i) == |p| + SkipWord(t, i)
    decreases |t| - i
  {
    if i < |t| {
      assert (p + t)[|p| + i] == t[i];
      SkipWordShift(p, t, i + 1);
    }
  }

  /** Splitting from position |p| + i of p + t does not look at p. */
  lemma {:induction false} SplitFromShift(p: string, t: string, i: nat)
    requires i <= |t|
    ensures SplitFrom(p + t, |p| + i) == SplitFrom(t, i)
    decreases |t| - i
  {
    var s := p + t;
    SkipSpacesShift(p, t, i);
    var a := SkipSpaces(t, i);
    if a == |t| {
      assert SplitFrom(s, |p| + i) == [];
    } else {
      SkipWordShift(p, t, a);
      var b := SkipWord(t, a);
      SliceShift(p, t, a, b);
      SplitFromShift(p, t, b);
      assert SplitFrom(t, i) == [t[a..b]] + SplitFrom(t, b);
      assert SplitFrom(s, |p| + i) == [s[|p| + a..|p| + b]] + SplitFrom(s, |p| + b);
    }
  }

  lemma SliceShift(p: string, t: string, a: nat, b: nat)
    requires a <= b <= |t|
    ensures (p + t)[|p| + a..|p| + b] == t[a..b]
  {
  }

  /** A word followed by whitespace or nothing ends where the word does. */
  lemma WordEnd(w: string, tail: string)
    requires IsWord(w)
    requires tail == [] || IsSpace(tail[0])
    ensures SkipWord(w + tail, 0) == |w|
  {
    var s := w + tail;
    SkipWordSpan(s, 0);
    assert forall j :: 0 <= j < |w| ==> s[j] == w[j];
    assert |w| < |s| ==> s[|w|] == tail[0];
  }

  /** A word followed by a space or nothing is the first word. */
  lemma SplitFirstWord(w: string, tail: string)
    requires IsWord(w)
    requires tail == [] || IsSpace(tail[0])
    ensures SplitFrom(w + tail, 0) == [w] + SplitFrom(w + tail, |w|)
  {
    var s := w + tail;
    assert s[0] == w[0];
    WordEnd(w, tail);
    assert s[0..|w|] == w;
  }

  /** A whitespace character at i is skipped. */
  lemma SplitFromSpace(s: string, i: nat)
    requires i < |s| && IsSpace(s[i])
    ensures SplitFrom(s, i) == SplitFrom(s, i + 1)
  {
    assert SkipSpaces(s, i) == SkipSpaces(s, i + 1);
  }

  /** Positions that skip to the same place split the same way. */
  lemma SplitFromSame(s: string, i: nat, j: nat)
    requires i <= |s| && j <= |s| && SkipSpaces(s, i) == SkipSpaces(s, j)
    ensures SplitFrom(s, i) == SplitFrom(s, j)
  {
  }

  /**
   * Whitespace, a word, then a string that is empty or starts with
   * whitespace: the split is that word followed by the string's own split.
   */
  lemma SplitLeadingWord(lead: string, w: string, rest: string)
    requires forall i :: 0 <= i < |lead| ==> IsSpace(lead[i])
    requires IsWord(w)
    requires rest == [] || IsSpace(rest[0])
    ensures Split(lead + w + rest) == [w] + Split(rest)
  {
    var t := w + rest;
    var s := lead + t;
    assert lead + w + rest == s;
    assert forall j :: 0 <= j < |lead| ==> s[j] == lead[j];
    assert s[|lead|] == w[0];
    SkipSpacesOver(s, 0, |lead|);
    SkipSpacesOver(s, |lead|, |lead|);
    SplitFromSame(s, 0, |lead|);
    SplitFromShift(lead, t, 0);
    SplitFirstWord(w, rest);
    SplitFromShift(w, rest, 0);
  }

  /** Splitting undoes joining with single spaces. */
  lemma {:induction false} SplitJoin(words: seq<string>)
    requires forall i :: 0 <= i < |words| ==> IsWord(words[i])
    ensures Split(JoinWords(words)) == words
    decreases |words|
  {
    if |words| == 1 {
      var w := words[0];
      assert JoinWords(words) == w + [];
      SplitFirstWord(w, []);
    } else if |words| > 1 {
      JoinCons(words);
      SplitConsWord(words[0], JoinWords(words[1..]));
      SplitJoin(words[1..]);
      assert [words[0]] + words[1..] == words;
    }
  }

  /** A word, one space, then a string: the word, then the string's words. */
  lemma SplitConsWord(w: string, rest: string)
    requires IsWord(w)
    ensures Split(w + ([' '] + rest)) == [w] + Split(rest)
  {
    var tail := [' '] + rest;
    assert [] + w + tail == w + tail;
    SplitLeadingWord([], w, tail);
    SplitFromSpace(tail, 0);
    SplitFromShift([' '], rest, 0);
  }

  lemma JoinCons(words: seq<string>)
    requires |words| > 1
    ensures JoinWords(words) == words[0] + ([' '] + JoinWords(words[1..]))
    ensures JoinWords(words) == (words[0] + [' ']) + JoinWords(words[1..])
    ensures JoinWords(words)[|words[0]|] == ' '
  {
  }

  /**
   * Parsing the engine's output (identical in both server variants): the
   * first whitespace-delimited token of the stripped standard output when the
   * return code is 0 and that output is not blank; nothing otherwise.
   */
  function ParseOutput(returnCode: int, stdout: string): (r: Option<string>)
    ensures r.Some? <==> returnCode == 0 && exists i :: 0 <= i < |stdout| && !IsSpace(stdout[i])
    ensures r.Some? ==> IsWord(r.value)
    ensures r.Some? ==>
      var smiles := Strip(stdout);
      && |r.value| <= |smiles|
      && r.value == smiles[..|r.value|]
      && (|r.value| < |smiles| ==> IsSpace(smiles[|r.value|]))
  {
    if returnCode == 0 then
      var smiles := Strip(stdout);
      if smiles != [] then
        var parts := Split(smiles);
        SkipWordSpan(smiles, 0);
        assert SkipSpaces(smiles, 0) == 0;
        Some(parts[0])
      else
        None
    else
      None
  }

  /**
   * On a line "SMILES name", optionally surrounded by whitespace, the parse is
   * exactly the SMILES token, whatever follows the first whitespace.
   */
  lemma ParseFirstToken(lead: string, smiles: string, rest: string)
    requires forall i :: 0 <= i < |lead| ==> IsSpace(lead[i])
    requires IsWord(smiles)
    requires rest == [] || IsSpace(rest[0])
    ensures ParseOutput(0, lead + smiles + rest) == Some(smiles)
  {
    var tail := StripFramed(lead, smiles, rest);
    SplitFirstWord(smiles, tail);
  }

  /** Stripping whitespace, a word and a tail starting with whitespace leaves the word and part of the tail. */
  lemma StripFramed(lead: string, smiles: string, rest: string) returns (tail: string)
    requires forall i :: 0 <= i < |lead| ==> IsSpace(lead[i])
    requires IsWord(smiles)
    requires rest == [] || IsSpace(rest[0])
    ensures Strip(lead + smiles + rest) == smiles + tail
    ensures tail == [] || IsSpace(tail[0])
  {
    var front := lead + smiles;
    var s := front + rest;
    var n, m := |lead|, |front|;
    assert forall j :: 0 <= j < n ==> s[j] == lead[j];
    assert s[n] == smiles[0];
    SkipSpacesOver(s, 0, n);
    var hi := TrailingStart(s, n, |s|);
    assert s[m - 1] == smiles[|smiles| - 1];
    assert m <= hi;
    assert s[n..m] == smiles;
    tail := s[m..hi];
    assert s[n..hi] == s[n..m] + tail;
    assert tail != [] ==> tail[0] == s[m] == rest[0];
  }

  /** SkipSpaces stops at the first non-whitespace character. */
  lemma {:induction false} SkipSpacesOver(s: string, i: nat, k: nat)
    requires i <= k < |s| && !IsSpace(s[k])
    requires forall j :: i <= j < k ==> IsSpace(s[j])
    ensures SkipSpaces(s, i) == k
    decreases k - i
  {
    if i < k {
      SkipSpacesOver(s, i + 1, k);
    }
  }

  /**
   * The recognition adapter's answer for one engine run: a timeout, a
   * missing executable or any other error yields nothing.
   */
  function Recognize(outcome: RunOutcome): (r: Option<string>)
    ensures r.Some? ==> outcome.Exited? && outcome.returnCode == 0 && IsWord(r.value)
    ensures outcome.Exited? ==> r == ParseOutput(outcome.returnCode, outcome.stdout)
  {
    match outcome
    case Exited(code, out) => ParseOutput(code, out)
    case TimedOut => None
    case EngineNotFound => None
    case OtherError => None
  }
}
