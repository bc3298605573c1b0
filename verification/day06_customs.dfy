/**
 * Day 6 (Custom Customs): a group is a block of lines, one line of answer
 * letters per person. Part 1 sums, over the groups, the letters anyone in
 * the group answered; part 2 the letters everyone answered.
 */
module Customs {
  import opened JsStrings

  /** `groupBlock.split("\n")`: one string of answers per person. */
  function People(block: string): (people: seq<string>)
    ensures |people| >= 1
  {
    Split(block, "\n")
  }

  /** `new Set(answers)`: the distinct letters of one line. */
  function Letters(s: string): set<char> {
    set c | c in s
  }

  /** The letters some person answered. */
  ghost function Union(people: seq<string>): set<char> {
    set i, c | 0 <= i < |people| && c in people[i] :: c
  }

  /** The letters every person answered. */
  ghost function Common(people: seq<string>): set<char>
    requires |people| >= 1
  {
    set c | c in people[0] && forall i :: 0 <= i < |people| ==> c in people[i]
  }

  lemma UnionStep(people: seq<string>, i: nat)
    requires i < |people|
    ensures Union(people[..i + 1]) == Union(people[..i]) + Letters(people[i])
  {
    var front, next := people[..i], people[..i + 1];
    assert next == front + [people[i]];
    forall c | c in Union(next)
      ensures c in Union(front) + Letters(people[i])
    {
      var j :| 0 <= j < |next| && c in next[j];
      if j < i {
        assert c in front[j];
      }
    }
    forall c | c in Union(front) + Letters(people[i])
      ensures c in Union(next)
    {
      if c in Union(front) {
        var j :| 0 <= j < |front| && c in front[j];
        assert c in next[j];
      } else {
        assert c in next[i];
      }
    }
  }

  /** The letters of one line, collected by the inner loop of `countUnion`. */
  method AddLetters(seen0: set<char>, answers: string) returns (seen: set<char>)
    ensures seen == seen0 + Letters(answers)
  {
    seen := seen0;
    var k := 0;
    while k < |answers|
      invariant 0 <= k <= |answers|
      invariant seen == seen0 + Letters(answers[..k])
    {
      assert answers[..k + 1] == answers[..k] + [answers[k]];
      seen := seen + {answers[k]};
      k := k + 1;
    }
    assert answers[..k] == answers;
  }

  /**
   * `countUnion(groupBlock)`: the number of distinct letters answered by
   * anyone in the group; a letter repeated on a line counts once.
   */
  method CountUnion(block: string) returns (n: nat)
    ensures n == |Union(People(block))|
  {
    var people := People(block);
    var seen: set<char> := {};
    var i := 0;
    while i < |people|
      invariant 0 <= i <= |people|
      invariant seen == Union(people[..i])
    {
      UnionStep(people, i);
      seen := AddLetters(seen, people[i]);
      i := i + 1;
    }
    assert people[..i] == people;
    n := |seen|;
  }

  lemma CommonStep(people: seq<string>, i: nat)
    requires 1 <= i < |people|
    ensures Common(people[..i + 1]) == set c | c in Common(people[..i]) && c in people[i]
  {
    var front, next := people[..i], people[..i + 1];
    assert next == front + [people[i]];
    assert front[0] == people[0] && next[0] == people[0];
  }

  lemma CommonFirst(people: seq<string>)
    requires |people| >= 1
    ensures Common(people[..1]) == Letters(people[0])
  {
    assert people[..1] == [people[0]];
  }

  /**
   * The inner loop of `countIntersection`: keep the letters of `common`
   * that the next person also answered.
   */
  method KeepAnswered(common: set<char>, answers: string) returns (next: set<char>)
    ensures next == set c | c in common && c in answers
  {
    var personSet := Letters(answers);
    next := {};
    var rest := common;
    while rest != {}
      invariant rest <= common
      invariant next == set c | c in common - rest && c in answers
      decreases |rest|
    {
      var ch :| ch in rest;
      if ch in personSet {
        next := next + {ch};
      }
      rest := rest - {ch};
    }
  }

  /**
   * `countIntersection(groupBlock)`: the number of letters answered by
   * every person in the group.
   */
  method CountIntersection(block: string) returns (n: nat)
    ensures n == |Common(People(block))|
  {
    var people := People(block);
    var common := Letters(people[0]);
    CommonFirst(people);
    var i := 1;
    while i < |people|
      invariant 1 <= i <= |people|
      invariant common == Common(people[..i])
    {
      CommonStep(people, i);
      common := KeepAnswered(common, people[i]);
      i := i + 1;
    }
    assert people[..i] == people;
    n := |common|;
  }

  lemma SubsetSize<T>(a: set<T>, b: set<T>)
    requires a <= b
    ensures |a| <= |b|
  {
    assert b == a + (b - a);
  }

  /**
   * What everyone answered, someone answered: the intersection lies in the
   * first person's letters and in the union, so it is never larger.
   */
  lemma CommonWithinUnion(people: seq<string>)
    requires |people| >= 1
    ensures Common(people) <= Letters(people[0])
    ensures Common(people) <= Union(people)
    ensures |Common(people)| <= |Union(people)|
  {
    forall c | c in Common(people)
      ensures c in Union(people)
    {
      assert c in people[0];
    }
    SubsetSize(Common(people), Union(people));
  }

  /** For a one-person group both counts are that person's distinct letters. */
  lemma SinglePerson(answers: string)
    ensures Union([answers]) == Common([answers]) == Letters(answers)
  {
    var people := [answers];
    forall c | c in Letters(answers)
      ensures c in Union(people)
    {
      assert c in people[0];
    }
  }

  /** Answering a letter twice on one line changes neither set. */
  lemma RepeatedLetter(people: seq<string>, i: nat, c: char)
    requires i < |people| && c in people[i]
    ensures Union(people[i := people[i] + [c]]) == Union(people)
    ensures Common(people[i := people[i] + [c]]) == Common(people)
  {
    var more := people[i := people[i] + [c]];
    assert forall j :: 0 <= j < |people| ==> (forall d :: d in more[j] <==> d in people[j]);
    forall d | d in Union(more)
      ensures d in Union(people)
    {
      var j :| 0 <= j < |more| && d in more[j];
      assert d in people[j];
    }
    forall d | d in Union(people)
      ensures d in Union(more)
    {
      var j :| 0 <= j < |people| && d in people[j];
      assert d in more[j];
    }
  }

  // ---------------------------------------------------------------------
  // Totals
  // ---------------------------------------------------------------------

  ghost function UnionTotal(groups: seq<string>): nat {
    if |groups| == 0 then 0
    else UnionTotal(groups[..|groups| - 1]) + |Union(People(groups[|groups| - 1]))|
  }

  ghost function CommonTotal(groups: seq<string>): nat {
    if |groups| == 0 then 0
    else CommonTotal(groups[..|groups| - 1]) + |Common(People(groups[|groups| - 1]))|
  }

  lemma {:induction false} TotalsOrdered(groups: seq<string>)
    ensures CommonTotal(groups) <= UnionTotal(groups)
  {
    if |groups| > 0 {
      TotalsOrdered(groups[..|groups| - 1]);
      CommonWithinUnion(People(groups[|groups| - 1]));
    }
  }

  /**
   * The totals loop: part 1 sums the union counts and part 2 the
   * intersection counts, so part 2 never exceeds part 1.
   */
  method Totals(groups: seq<string>) returns (part1: nat, part2: nat)
    ensures part1 == UnionTotal(groups) && part2 == CommonTotal(groups)
    ensures part2 <= part1
  {
    part1, part2 := 0, 0;
    var i := 0;
    while i < |groups|
      invariant 0 <= i <= |groups|
      invariant part1 == UnionTotal(groups[..i]) && part2 == CommonTotal(groups[..i])
    {
      assert groups[..i + 1][..i] == groups[..i];
      var u := CountUnion(groups[i]);
      var c := CountIntersection(groups[i]);
      part1, part2 := part1 + u, part2 + c;
      i := i + 1;
    }
    assert groups[..i] == groups;
    TotalsOrdered(groups);
  }
}
