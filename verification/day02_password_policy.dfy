/**
 * Day 2 (Password Philosophy): each line `<min>-<max> <letter>: <password>`
 * is checked against two readings of its policy. Part 1 wants the letter to
 * occur between min and max times; part 2 wants it at exactly one of the
 * 1-based positions min and max. Lines that do not match the pattern
 * `^(\d+)-(\d+)\s+([a-zA-Z]):\s+(.+)$` count for neither part.
 */
module PasswordPolicy {
  import opened Wrappers
  import opened JsStrings

  datatype Policy = Policy(min: nat, max: nat, letter: char, password: string)

  predicate IsLetter(c: char) { 'a' <= c <= 'z' || 'A' <= c <= 'Z' }

  /**
   * `\s+(.+)$`: the space run is maximal unless that leaves nothing for
   * `(.+)`; then it gives back its last character, which `.` must accept.
   */
  function MatchPassword(s: string): Option<string> {
    var w := SpaceRun(s);
    if w == 0 then None
    else if w < |s| then (if NoLineTerminators(s[w..]) then Some(s[w..]) else None)
    else if w >= 2 && !IsLineTerminator(s[w - 1]) then Some(s[w - 1..])
    else None
  }

  /** `\s+([a-zA-Z]):` followed by the password part. */
  function MatchLetterAndPassword(s: string): Option<(char, string)> {
    var w := SpaceRun(s);
    if w == 0 || w + 1 >= |s| || !IsLetter(s[w]) || s[w + 1] != ':' then None
    else
      match MatchPassword(s[w + 2..])
      case None => None
      case Some(pw) => Some((s[w], pw))
  }

  /**
   * `line.match(re)`. The digit runs and the first space run are maximal
   * (backtracking into them cannot help the item that follows).
   */
  function ParseLine(line: string): Option<Policy> {
    var d1 := DigitRun(line);
    if d1 == 0 || d1 >= |line| || line[d1] != '-' then None
    else
      var rest := line[d1 + 1..];
      var d2 := DigitRun(rest);
      if d2 == 0 then None
      else
        match MatchLetterAndPassword(rest[d2..])
        case None => None
        case Some((letter, pw)) => Some(Policy(DecimalValue(line[..d1]), DecimalValue(rest[..d2]), letter, pw))
  }

  /** The line a policy is written as, with single spaces. */
  function FormatLine(p: Policy): string {
    ShowDecimal(p.min) + "-" + ShowDecimal(p.max) + " " + [p.letter] + ": " + p.password
  }

  /** Occurrences of `c` in `s`: the count loop of part 1. */
  function Occurrences(s: string, c: char): (n: nat)
    ensures n == multiset(s)[c]
  {
    if |s| == 0 then 0
    else
      assert s == s[..|s| - 1] + [s[|s| - 1]];
      Occurrences(s[..|s| - 1], c) + (if s[|s| - 1] == c then 1 else 0)
  }

  /** Part 1: the letter occurs between min and max times, inclusive. */
  predicate ValidByCount(p: Policy) {
    p.min <= multiset(p.password)[p.letter] <= p.max
  }

  /**
   * `password[pos - 1] === letter`: a position outside 1..|password| reads
   * `undefined` and never matches.
   */
  predicate HoldsAt(password: string, pos: nat, letter: char) {
    1 <= pos <= |password| && password[pos - 1] == letter
  }

  /** Part 2: exactly one of the two positions holds the letter. */
  predicate ValidByPosition(p: Policy) {
    HoldsAt(p.password, p.min, p.letter) != HoldsAt(p.password, p.max, p.letter)
  }

  /** The 1-based positions of `password` that hold `letter`. */
  function Positions(password: string, letter: char): set<nat> {
    set i | 0 <= i < |password| && password[i] == letter :: i + 1
  }

  /**
   * Part 2 read through the letter's positions: min and max are different
   * and exactly one of them is a position of the letter. A password valid
   * by position therefore holds the letter at least once.
   */
  lemma PositionsReading(p: Policy)
    ensures ValidByPosition(p) <==> p.min != p.max && |{p.min, p.max} * Positions(p.password, p.letter)| == 1
    ensures ValidByPosition(p) ==> multiset(p.password)[p.letter] >= 1
  {
    var (pw, l) := (p.password, p.letter);
    var both := {p.min, p.max} * Positions(pw, l);
    assert p.min in Positions(pw, l) <==> HoldsAt(pw, p.min, l);
    assert p.max in Positions(pw, l) <==> HoldsAt(pw, p.max, l);
    if p.min != p.max {
      if HoldsAt(pw, p.min, l) && HoldsAt(pw, p.max, l) {
        assert both == {p.min, p.max};
      } else if HoldsAt(pw, p.min, l) {
        assert both == {p.min};
      } else if HoldsAt(pw, p.max, l) {
        assert both == {p.max};
      } else {
        assert both == {};
      }
    }
    if HoldsAt(pw, p.min, l) {
      assert pw[p.min - 1] in multiset(pw);
    } else if HoldsAt(pw, p.max, l) {
      assert pw[p.max - 1] in multiset(pw);
    }
  }

  predicate Matches(line: string) { ParseLine(line).Some? }

  predicate CountsForPart1(line: string) { ParseLine(line).Some? && ValidByCount(ParseLine(line).value) }

  predicate CountsForPart2(line: string) { ParseLine(line).Some? && ValidByPosition(ParseLine(line).value) }

  function MatchingLines(lines: seq<string>): nat {
    if |lines| == 0 then 0
    else MatchingLines(lines[..|lines| - 1]) + (if Matches(lines[|lines| - 1]) then 1 else 0)
  }

  function Part1Count(lines: seq<string>): nat {
    if |lines| == 0 then 0
    else Part1Count(lines[..|lines| - 1]) + (if CountsForPart1(lines[|lines| - 1]) then 1 else 0)
  }

  function Part2Count(lines: seq<string>): nat {
    if |lines| == 0 then 0
    else Part2Count(lines[..|lines| - 1]) + (if CountsForPart2(lines[|lines| - 1]) then 1 else 0)
  }

  /** The part 1 count loop over the password. */
  method CountLetter(password: string, letter: char) returns (count: nat)
    ensures count == multiset(password)[letter]
  {
    count := 0;
    var k := 0;
    while k < |password|
      invariant 0 <= k <= |password|
      invariant count == Occurrences(password[..k], letter)
    {
      assert password[..k + 1][..k] == password[..k];
      if password[k] == letter {
        count := count + 1;
      }
      k := k + 1;
    }
    assert password[..k] == password;
  }

  /** Both checks for one parsed line. */
  method CheckPolicy(p: Policy) returns (ok1: bool, ok2: bool)
    ensures ok1 <==> p.min <= multiset(p.password)[p.letter] <= p.max
    ensures ok2 <==> ((HoldsAt(p.password, p.min, p.letter) && !HoldsAt(p.password, p.max, p.letter))
                   || (!HoldsAt(p.password, p.min, p.letter) && HoldsAt(p.password, p.max, p.letter)))
    ensures ok2 <==> p.min != p.max && |{p.min, p.max} * Positions(p.password, p.letter)| == 1
  {
    PositionsReading(p);
    var count := CountLetter(p.password, p.letter);
    ok1 := count >= p.min && count <= p.max;
    var pos1 := HoldsAt(p.password, p.min, p.letter);
    var pos2 := HoldsAt(p.password, p.max, p.letter);
    ok2 := (pos1 && !pos2) || (!pos1 && pos2);
  }

  /** One iteration of the line loop. */
  method CheckLine(line: string) returns (matched: bool, ok1: bool, ok2: bool)
    ensures matched == Matches(line)
    ensures ok1 == CountsForPart1(line) && ok2 == CountsForPart2(line)
    ensures ok1 || ok2 ==> matched
  {
    var parsed := ParseLine(line);
    matched, ok1, ok2 := parsed.Some?, false, false;
    if matched {
      ok1, ok2 := CheckPolicy(parsed.value);
    }
  }

  /** The loop over all lines, counting both parts at once. */
  method CountValid(lines: seq<string>) returns (part1: nat, part2: nat)
    ensures part1 == Part1Count(lines) && part2 == Part2Count(lines)
    ensures part1 <= MatchingLines(lines) && part2 <= MatchingLines(lines)
  {
    part1, part2 := 0, 0;
    var i := 0;
    while i < |lines|
      invariant 0 <= i <= |lines|
      invariant part1 == Part1Count(lines[..i]) && part2 == Part2Count(lines[..i])
    {
      CountsStep(lines, i);
      var matched, ok1, ok2 := CheckLine(lines[i]);
      if ok1 {
        part1 := part1 + 1;
      }
      if ok2 {
        part2 := part2 + 1;
      }
      i := i + 1;
    }
    assert lines[..i] == lines;
    CountsBounded(lines);
  }

  lemma CountsStep(lines: seq<string>, i: nat)
    requires i < |lines|
    ensures Part1Count(lines[..i + 1]) == Part1Count(lines[..i]) + (if CountsForPart1(lines[i]) then 1 else 0)
    ensures Part2Count(lines[..i + 1]) == Part2Count(lines[..i]) + (if CountsForPart2(lines[i]) then 1 else 0)
  {
    assert lines[..i + 1][..i] == lines[..i];
  }

  /** Only matching lines can count, for either part. */
  lemma {:induction false} CountsBounded(lines: seq<string>)
    ensures Part1Count(lines) <= MatchingLines(lines)
    ensures Part2Count(lines) <= MatchingLines(lines)
  {
    if |lines| > 0 {
      CountsBounded(lines[..|lines| - 1]);
    }
  }

  // ---------------------------------------------------------------------
  // Round trip
  // ---------------------------------------------------------------------

  lemma {:induction false} DigitRunOf(a: string, b: string)
    requires AllDigits(a) && |b| > 0 && !IsDigit(b[0])
    ensures DigitRun(a + b) == |a|
    decreases |a|
  {
    var s := a + b;
    if |a| == 0 {
      assert s[0] == b[0];
    } else {
      assert s[0] == a[0] && IsDigit(a[0]);
      assert s[1..] == a[1..] + b;
      DigitRunOf(a[1..], b);
    }
  }

  lemma {:induction false} SpaceRunOf(a: string, b: string)
    requires (forall i :: 0 <= i < |a| ==> IsSpace(a[i])) && |b| > 0 && !IsSpace(b[0])
    ensures SpaceRun(a + b) == |a|
    decreases |a|
  {
    var s := a + b;
    if |a| == 0 {
      assert s[0] == b[0];
    } else {
      assert s[0] == a[0] && IsSpace(a[0]);
      assert s[1..] == a[1..] + b;
      SpaceRunOf(a[1..], b);
    }
  }

  lemma PasswordRoundTrip(pw: string)
    requires |pw| > 0 && NoLineTerminators(pw) && !IsSpace(pw[0])
    ensures MatchPassword(" " + pw) == Some(pw)
  {
    SpaceRunOf(" ", pw);
    assert (" " + pw)[1..] == pw;
  }

  lemma LetterRoundTrip(letter: char, pw: string)
    requires IsLetter(letter) && |pw| > 0 && NoLineTerminators(pw) && !IsSpace(pw[0])
    ensures MatchLetterAndPassword(" " + [letter] + ": " + pw) == Some((letter, pw))
  {
    var s := " " + [letter] + ": " + pw;
    SpaceRunOf(" ", [letter] + ": " + pw);
    assert s == " " + ([letter] + ": " + pw);
    assert s[1] == letter && s[2] == ':' && s[3..] == " " + pw;
    PasswordRoundTrip(pw);
  }

  lemma LeadingNumber(a: string, rest: string)
    requires |a| > 0 && AllDigits(a) && |rest| > 0 && !IsDigit(rest[0])
    ensures DigitRun(a + rest) == |a| && (a + rest)[..|a|] == a && (a + rest)[|a|..] == rest
  {
    DigitRunOf(a, rest);
  }

  /** `ParseLine` once the two digit runs and the tail are known. */
  lemma ParseLineShape(line: string, d1: nat, d2: nat, letter: char, pw: string)
    requires 0 < d1 < |line| && DigitRun(line) == d1 && line[d1] == '-'
    requires 0 < d2 && DigitRun(line[d1 + 1..]) == d2
    requires MatchLetterAndPassword(line[d1 + 1..][d2..]) == Some((letter, pw))
    ensures ParseLine(line) == Some(Policy(DecimalValue(line[..d1]), DecimalValue(line[d1 + 1..][..d2]), letter, pw))
  {
  }

  /** The line of a policy, split at the dash. */
  function Shaped(p: Policy): string {
    ShowDecimal(p.min) + ("-" + (ShowDecimal(p.max) + (" " + [p.letter] + ": " + p.password)))
  }

  lemma FormatShaped(p: Policy)
    ensures FormatLine(p) == Shaped(p)
  {
  }

  /** The pattern reads the shaped line back as the policy. */
  lemma ParseShaped(p: Policy)
    requires IsLetter(p.letter)
    requires |p.password| > 0 && NoLineTerminators(p.password) && !IsSpace(p.password[0])
    ensures ParseLine(Shaped(p)) == Some(p)
  {
    var a, b := ShowDecimal(p.min), ShowDecimal(p.max);
    var tail := " " + [p.letter] + ": " + p.password;
    var rest := b + tail;
    var line := a + ("-" + rest);
    assert DecimalValue(a) == p.min && DecimalValue(b) == p.max by {
      DecimalRoundTrip(p.min);
      DecimalRoundTrip(p.max);
    }
    assert DigitRun(line) == |a| && line[..|a|] == a && line[|a|] == '-' && line[|a| + 1..] == rest by {
      LeadingNumber(a, "-" + rest);
    }
    assert DigitRun(rest) == |b| && rest[..|b|] == b && rest[|b|..] == tail by {
      LeadingNumber(b, tail);
    }
    assert MatchLetterAndPassword(tail) == Some((p.letter, p.password)) by {
      LetterRoundTrip(p.letter, p.password);
    }
    ParseLineShape(line, |a|, |b|, p.letter, p.password);
  }

  /**
   * A policy written out with single spaces parses back to itself, provided
   * the password is one the pattern can capture whole: non-empty, free of
   * line terminators, and not starting with a space (which `\s+` would take).
   */
  lemma ParseFormatRoundTrip(p: Policy)
    requires IsLetter(p.letter)
    requires |p.password| > 0 && NoLineTerminators(p.password) && !IsSpace(p.password[0])
    ensures ParseLine(FormatLine(p)) == Some(p)
  {
    FormatShaped(p);
    ParseShaped(p);
  }

  /** Two distinct policies are never written as the same line. */
  lemma FormatInjective(p: Policy, q: Policy)
    requires IsLetter(p.letter) && |p.password| > 0 && NoLineTerminators(p.password) && !IsSpace(p.password[0])
    requires IsLetter(q.letter) && |q.password| > 0 && NoLineTerminators(q.password) && !IsSpace(q.password[0])
    requires FormatLine(p) == FormatLine(q)
    ensures p == q
  {
    ParseFormatRoundTrip(p);
    ParseFormatRoundTrip(q);
  }
}
