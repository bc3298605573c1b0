/**
 * The declarative reading of day 2's pattern
 * `^(\d+)-(\d+)\s+([a-zA-Z]):\s+(.+)$`: the ways a line can be cut into
 * the pattern's parts, and what the matchers of `PasswordPolicy` return in
 * terms of those cuts.
 */
module PasswordPattern {
  import opened Wrappers
  import opened JsStrings
  import opened PasswordPolicy

  /**
   * `s` is `\s+(.+)$` read with its whitespace run ending at `w`: at least
   * one whitespace character, then at least one character that `.` accepts,
   * up to the end.
   */
  predicate PasswordSplit(s: string, w: nat) {
    1 <= w < |s| && (forall i :: 0 <= i < w ==> IsSpace(s[i])) && NoLineTerminators(s[w..])
  }

  /** A line terminator at `j` rules out every split that starts at or before it. */
  lemma TerminatorBlocks(s: string, j: nat)
    requires j < |s| && IsLineTerminator(s[j])
    ensures forall w: nat :: w <= j ==> !PasswordSplit(s, w)
  {
    forall w: nat | w <= j
      ensures !PasswordSplit(s, w)
    {
      assert s[w..][j - w] == s[j];
    }
  }

  /** No split can put its whitespace run past the greedy one. */
  lemma NoSplitPastRun(s: string)
    ensures forall w: nat :: SpaceRun(s) < w ==> !PasswordSplit(s, w)
  {
    var n := SpaceRun(s);
    forall w: nat | n < w && w < |s|
      ensures !PasswordSplit(s, w)
    {
      assert !IsSpace(s[n]);
    }
  }

  /**
   * The greedy `\s+` gives back characters only as long as `(.+)$` fails:
   * the match exists iff some split does, and the capture is what follows
   * the longest whitespace run among the splits.
   */
  lemma MatchPasswordSplits(s: string)
    ensures MatchPassword(s).Some? <==> exists w: nat :: PasswordSplit(s, w)
    ensures MatchPassword(s).Some? ==>
      var r := MatchPassword(s).value;
      && 0 < |r| < |s|
      && var w := |s| - |r|;
      && PasswordSplit(s, w)
      && r == s[w..]
      && forall v: nat :: w < v ==> !PasswordSplit(s, v)
  {
    if MatchPassword(s).Some? {
      PasswordMatched(s);
    } else {
      PasswordUnmatched(s);
    }
  }

  /** A match is a split, and no split has a longer whitespace run. */
  lemma PasswordMatched(s: string)
    requires MatchPassword(s).Some?
    ensures
      var r := MatchPassword(s).value;
      && 0 < |r| < |s|
      && var w := |s| - |r|;
      && PasswordSplit(s, w)
      && r == s[w..]
      && forall v: nat :: w < v ==> !PasswordSplit(s, v)
  {
    var w := SpaceRun(s);
    var r := MatchPassword(s).value;
    NoSplitPastRun(s);
    if w < |s| {
      assert r == s[w..] && |r| == |s| - w;
      assert PasswordSplit(s, w);
    } else {
      assert r == s[w - 1..] && |r| == 1;
      assert PasswordSplit(s, w - 1) by {
        assert s[w - 1..] == [s[w - 1]];
      }
      assert forall v: nat :: w - 1 < v ==> !PasswordSplit(s, v);
    }
  }

  /** Without a match there is no split. */
  lemma PasswordUnmatched(s: string)
    requires MatchPassword(s).None?
    ensures forall v: nat :: !PasswordSplit(s, v)
  {
    var w := SpaceRun(s);
    NoSplitPastRun(s);
    if w == 0 {
    } else if w < |s| {
      TerminatorsBlock(s, w);
    } else if w >= 2 {
      TerminatorBlocks(s, w - 1);
    }
  }

  /** Some line terminator in `s[w..]` rules out every split up to `w`. */
  lemma TerminatorsBlock(s: string, w: nat)
    requires w <= |s| && !NoLineTerminators(s[w..])
    ensures forall v: nat :: v <= w ==> !PasswordSplit(s, v)
  {
    var i :| 0 <= i < |s| - w && IsLineTerminator(s[w..][i]);
    TerminatorBlocks(s, w + i);
  }

  /**
   * `s` is `\s+([a-zA-Z]):` followed by the password part, with the
   * whitespace run ending at `w`.
   */
  predicate LetterSplit(s: string, w: nat) {
    && 1 <= w && w + 1 < |s|
    && (forall i :: 0 <= i < w ==> IsSpace(s[i]))
    && IsLetter(s[w]) && s[w + 1] == ':'
    && MatchPassword(s[w + 2..]).Some?
  }

  /**
   * `\s+([a-zA-Z]):` followed by the password part matches iff some split
   * does, capturing the letter and the password of that split.
   */
  lemma MatchLetterSplits(s: string)
    ensures MatchLetterAndPassword(s).Some? <==> exists w: nat :: LetterSplit(s, w)
    ensures MatchLetterAndPassword(s).Some? ==> forall w: nat :: LetterSplit(s, w) ==>
      MatchLetterAndPassword(s).value == (s[w], MatchPassword(s[w + 2..]).value)
  {
    forall w: nat | LetterSplit(s, w)
      ensures MatchLetterAndPassword(s) == Some((s[w], MatchPassword(s[w + 2..]).value))
    {
      LetterSplitMatches(s, w);
    }
    if MatchLetterAndPassword(s).Some? {
      assert LetterSplit(s, SpaceRun(s));
    }
  }

  /** A split's whitespace run is the greedy one, so the matcher finds it. */
  lemma LetterSplitMatches(s: string, w: nat)
    requires LetterSplit(s, w)
    ensures MatchLetterAndPassword(s) == Some((s[w], MatchPassword(s[w + 2..]).value))
  {
    SpaceRunUnique(s, w);
  }

  /**
   * `line` is `^(\d+)-` with a digit run `d1` long, then a remainder that
   * starts with a digit run `d2` long and continues with the letter part.
   */
  predicate LineSplit(line: string, d1: nat, d2: nat) {
    && 1 <= d1 < |line| && AllDigits(line[..d1]) && line[d1] == '-'
    && 1 <= d2 <= |line| - d1 - 1 && AllDigits(line[d1 + 1..][..d2])
    && MatchLetterAndPassword(line[d1 + 1..][d2..]).Some?
  }

  /** The policy the capture groups of a split spell. */
  function SplitPolicy(line: string, d1: nat, d2: nat): Policy
    requires LineSplit(line, d1, d2)
  {
    var m := MatchLetterAndPassword(line[d1 + 1..][d2..]).value;
    Policy(DecimalValue(line[..d1]), DecimalValue(line[d1 + 1..][..d2]), m.0, m.1)
  }

  /** `-` and whitespace end the digit runs, so a split has the greedy runs. */
  lemma LineSplitForced(line: string, d1: nat, d2: nat)
    requires LineSplit(line, d1, d2)
    ensures DigitRun(line) == d1 && DigitRun(line[d1 + 1..]) == d2
  {
    DigitsThenRun(line, d1);
    var rest := line[d1 + 1..];
    LetterPartStartsWithSpace(rest[d2..]);
    assert rest[d2] == rest[d2..][0];
    DigitsThenRun(rest, d2);
  }

  /** The letter part opens with `\s+`, so it starts with whitespace. */
  lemma LetterPartStartsWithSpace(s: string)
    requires MatchLetterAndPassword(s).Some?
    ensures |s| > 0 && IsSpace(s[0])
  {
  }

  /**
   * `line.match(re)` for `^(\d+)-(\d+)\s+([a-zA-Z]):\s+(.+)$`: matches iff
   * the line splits into the pattern's parts, and the captures are those of
   * the split.
   */
  lemma ParseLineSplits(line: string)
    ensures ParseLine(line).Some? <==> exists d1: nat, d2: nat :: LineSplit(line, d1, d2)
    ensures ParseLine(line).Some? ==> forall d1: nat, d2: nat :: LineSplit(line, d1, d2) ==>
      ParseLine(line).value == SplitPolicy(line, d1, d2)
  {
    forall d1: nat, d2: nat | LineSplit(line, d1, d2)
      ensures ParseLine(line) == Some(SplitPolicy(line, d1, d2))
    {
      SplitParses(line, d1, d2);
    }
    if ParseLine(line).Some? {
      var d1 := DigitRun(line);
      assert LineSplit(line, d1, DigitRun(line[d1 + 1..]));
    }
  }

  /** Every split is the one the greedy runs find, so the line parses to it. */
  lemma SplitParses(line: string, d1: nat, d2: nat)
    requires LineSplit(line, d1, d2)
    ensures ParseLine(line) == Some(SplitPolicy(line, d1, d2))
  {
    LineSplitForced(line, d1, d2);
    var m := MatchLetterAndPassword(line[d1 + 1..][d2..]).value;
    ParseLineShape(line, d1, d2, m.0, m.1);
  }
}
