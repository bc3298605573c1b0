/**
 * Day 7 (Handy Haversacks), rule parsing and graph construction.
 *
 * A rule line reads `<outer> bags contain <rest>.`; `<rest>` is either
 * `no other bags` or clauses `<n> <color> bag(s)` joined by ", ".
 * Two maps are built in one pass over the lines: the forward map
 * (color -> children with counts, in input order) and the reverse map
 * (color -> the set of colors that directly hold it).
 */
module BagRules {
  import opened Wrappers
  import opened JsStrings

  /** One `{ color, count }` entry of a forward adjacency list. */
  datatype Clause = Clause(color: string, count: nat)

  /** The two capture groups of the outer pattern. */
  datatype RuleText = RuleText(outer: string, rest: string)

  /** A parsed line: the container and its matched clauses, in input order. */
  datatype Rule = Rule(outer: string, clauses: seq<Clause>)

  /** The forward map and the reverse map, owned by one value. */
  datatype Graph = Graph(contains: map<string, seq<Clause>>, parents: map<string, set<string>>)

  const BagsContain: string := " bags contain "
  const NoOtherBags: string := "no other bags"
  const ClauseSeparator: string := ", "
  const BagWord: string := " bag"

  // ---------------------------------------------------------------------
  // The outer pattern  ^(.+?) bags contain (.+)\.$
  // ---------------------------------------------------------------------

  /**
   * The outer pattern matches with a first group of length `i`: the group is
   * non-empty, " bags contain " follows it, the second group is non-empty, the
   * line ends in '.', and no character is a line terminator (`.` refuses them,
   * and the literal parts contain none).
   */
  predicate OuterShapeAt(line: string, i: nat) {
    && 1 <= i
    && OccursAt(line, BagsContain, i)
    && i + |BagsContain| + 2 <= |line|
    && line[|line| - 1] == '.'
    && NoLineTerminators(line)
  }

  /** `line.match(outerRe)`: the lazy first group takes the least split that matches. */
  function MatchOuter(line: string): (r: Option<RuleText>)
    ensures r.Some? <==> exists i: nat :: OuterShapeAt(line, i)
    ensures r.Some? ==>
      var i := |r.value.outer|;
      && OuterShapeAt(line, i)
      && (forall j: nat :: j < i ==> !OuterShapeAt(line, j))
      && r.value.outer == line[..i]
      && r.value.rest == line[i + |BagsContain|..|line| - 1]
  {
    if !NoLineTerminators(line) || |line| == 0 || line[|line| - 1] != '.' then None
    else
      match IndexFrom(line, BagsContain, 1)
      case None => None
      case Some(i) =>
        if i + |BagsContain| + 2 <= |line| then
          assert OuterShapeAt(line, i);
          Some(RuleText(line[..i], line[i + |BagsContain|..|line| - 1]))
        else
          assert forall j: nat :: OuterShapeAt(line, j) ==> j >= i;
          None
  }

  // ---------------------------------------------------------------------
  // The clause pattern  ^(\d+) (.+?) bag
  // ---------------------------------------------------------------------

  /**
   * The clause pattern matches with `d` digits and a color ending at `p`:
   * the digits are followed by a space, the color is non-empty, " bag" starts
   * at `p`, and the color holds no line terminator. The pattern is not
   * anchored at the end, so "bag" and "bags" both match.
   */
  predicate ClauseShapeAt(part: string, d: nat, p: nat) {
    && 1 <= d < |part|
    && AllDigits(part[..d])
    && part[d] == ' '
    && d + 2 <= p
    && OccursAt(part, BagWord, p)
    && NoLineTerminators(part[d + 1..p])
  }

  /** `part.match(innerRe)`, with the count read by `Number`. */
  function MatchClause(part: string): (r: Option<Clause>)
    ensures r.Some? <==> exists d: nat, p: nat :: ClauseShapeAt(part, d, p)
    ensures r.Some? ==>
      exists d: nat, p: nat ::
        && ClauseShapeAt(part, d, p)
        && (forall q: nat :: q < p ==> !ClauseShapeAt(part, d, q))
        && r.value == Clause(part[d + 1..p], DecimalValue(part[..d]))
  {
    var d := DigitRun(part);
    if d == 0 || d >= |part| || part[d] != ' ' then
      assert forall d': nat, p: nat :: ClauseShapeAt(part, d', p) ==> d' == d by {
        forall d': nat, p: nat | ClauseShapeAt(part, d', p) ensures d' == d {
          DigitPrefixUnique(part, d', d);
        }
      }
      None
    else
      match IndexFrom(part, BagWord, d + 2)
      case None =>
        assert forall d': nat, p: nat :: ClauseShapeAt(part, d', p) ==> false by {
          forall d': nat, p: nat | ClauseShapeAt(part, d', p) ensures false {
            DigitPrefixUnique(part, d', d);
          }
        }
        None
      case Some(p) =>
        if NoLineTerminators(part[d + 1..p]) then
          assert ClauseShapeAt(part, d, p);
          Some(Clause(part[d + 1..p], DecimalValue(part[..d])))
        else
          assert forall d': nat, q: nat :: ClauseShapeAt(part, d', q) ==> false by {
            forall d': nat, q: nat | ClauseShapeAt(part, d', q) ensures false {
              DigitPrefixUnique(part, d', d);
              assert p <= q;
              NoLineTerminatorsInfix(part, d + 1, p, q);
            }
          }
          None
  }

  /** Only the maximal digit run can be followed by a space. */
  lemma DigitPrefixUnique(part: string, d': nat, d: nat)
    requires d == DigitRun(part)
    requires 1 <= d' < |part| && AllDigits(part[..d']) && part[d'] == ' '
    ensures d' == d
  {
    if d < d' {
      DigitInPrefix(part, d', d);
      assert false;
    } else if d' < d {
      DigitInPrefix(part, d, d');
      assert false;
    }
  }

  // ---------------------------------------------------------------------
  // Lines
  // ---------------------------------------------------------------------

  /** The matched clauses of `parts`, in order; unmatched parts are dropped. */
  function MatchedClauses(parts: seq<string>): seq<Clause> {
    if |parts| == 0 then [] else MatchedClauses(parts[..|parts| - 1]) + Matched(parts[|parts| - 1])
  }

  /** The clause of one part as a list: empty when the part does not match. */
  function Matched(part: string): seq<Clause> {
    match MatchClause(part) case Some(c) => [c] case None => []
  }

  /** One rule line: `None` when the outer pattern does not match. */
  function ParseRule(line: string): (r: Option<Rule>)
    ensures r.Some? <==> MatchOuter(line).Some?
    ensures r.Some? ==> r.value.outer == MatchOuter(line).value.outer
  {
    match MatchOuter(line)
    case None => None
    case Some(t) =>
      if t.rest == NoOtherBags then Some(Rule(t.outer, []))
      else Some(Rule(t.outer, MatchedClauses(Split(t.rest, ClauseSeparator))))
  }

  /** The color a line introduces, if it matches. */
  function OuterOf(line: string): set<string> {
    match ParseRule(line) case Some(rule) => {rule.outer} case None => {}
  }

  /** The clauses a line adds to `color`'s forward entry. */
  function ClausesOf(line: string, color: string): seq<Clause> {
    match ParseRule(line)
    case Some(rule) => if rule.outer == color then rule.clauses else []
    case None => []
  }

  /** The colors that head a matching line among `lines`. */
  function Outers(lines: seq<string>): set<string> {
    if |lines| == 0 then {} else Outers(lines[..|lines| - 1]) + OuterOf(lines[|lines| - 1])
  }

  /** Every clause recorded for `color`, concatenated in line order. */
  function ClausesFor(lines: seq<string>, color: string): seq<Clause> {
    if |lines| == 0 then [] else ClausesFor(lines[..|lines| - 1], color) + ClausesOf(lines[|lines| - 1], color)
  }

  // ---------------------------------------------------------------------
  // The graph
  // ---------------------------------------------------------------------

  /** `outer` directly holds `inner`: some forward entry of `outer` names `inner`. */
  predicate HasEdge(contains: map<string, seq<Clause>>, outer: string, inner: string) {
    outer in contains && exists k :: 0 <= k < |contains[outer]| && contains[outer][k].color == inner
  }

  /**
   * The reverse map is exactly the forward map turned around: `p` is recorded
   * as a parent of `inner` iff some forward entry of `p` names `inner`, and a
   * reverse entry exists only once something was recorded in it.
   */
  ghost predicate Consistent(g: Graph) {
    && (forall p, inner :: HasEdge(g.contains, p, inner) <==> inner in g.parents && p in g.parents[inner])
    && (forall inner :: inner in g.parents ==> g.parents[inner] != {})
  }

  /** Make sure `outer` has a forward entry (`containsGraph.set(outer, [])` if absent). */
  function AddOuter(g: Graph, outer: string): (g': Graph)
    requires Consistent(g)
    ensures Consistent(g')
    ensures g'.contains.Keys == g.contains.Keys + {outer}
    ensures forall c :: c in g.contains ==> g'.contains[c] == g.contains[c]
    ensures outer !in g.contains ==> g'.contains[outer] == []
    ensures g'.parents == g.parents
  {
    if outer in g.contains then g
    else
      var g' := Graph(g.contains[outer := []], g.parents);
      assert forall p, inner :: HasEdge(g'.contains, p, inner) <==> HasEdge(g.contains, p, inner);
      g'
  }

  /** Record the edge `outer -> c` in both maps. */
  function AddEdge(g: Graph, outer: string, c: Clause): (g': Graph)
    requires Consistent(g) && outer in g.contains
    ensures Consistent(g')
    ensures g'.contains == g.contains[outer := g.contains[outer] + [c]]
    ensures forall p, inner :: HasEdge(g'.contains, p, inner) <==> HasEdge(g.contains, p, inner) || (p == outer && inner == c.color)
  {
    var contains' := g.contains[outer := g.contains[outer] + [c]];
    var before := if c.color in g.parents then g.parents[c.color] else {};
    var g' := Graph(contains', g.parents[c.color := before + {outer}]);
    assert HasEdge(contains', outer, c.color) by {
      assert contains'[outer][|g.contains[outer]|] == c;
    }
    forall p, inner
      ensures HasEdge(contains', p, inner) <==> HasEdge(g.contains, p, inner) || (p == outer && inner == c.color)
    {
      if HasEdge(g.contains, p, inner) {
        var k :| 0 <= k < |g.contains[p]| && g.contains[p][k].color == inner;
        assert contains'[p][k] == g.contains[p][k];
      }
      if HasEdge(contains', p, inner) {
        var k :| 0 <= k < |contains'[p]| && contains'[p][k].color == inner;
        if p == outer && k == |g.contains[outer]| {
          assert contains'[p][k] == c;
        } else {
          assert g.contains[p][k] == contains'[p][k];
        }
      }
    }
    g'
  }

  /**
   * `rank` orders the forward map: every color with an entry, and every color
   * it holds, is ranked, and a child always ranks below its container. Such a
   * rank exists exactly when the forward map has no cycle.
   */
  ghost predicate Ranked(contains: map<string, seq<Clause>>, rank: map<string, nat>) {
    forall c :: c in contains ==>
      && c in rank
      && forall k :: 0 <= k < |contains[c]| ==> contains[c][k].color in rank && rank[contains[c][k].color] < rank[c]
  }

  const EmptyGraph: Graph := Graph(map[], map[])

  /**
   * The clause loop of one line: each part that matches the clause pattern
   * is appended to `outer`'s forward entry and registers `outer` as a parent
   * of its color; parts that do not match are skipped.
   */
  method AppendClauses(g0: Graph, outer: string, parts: seq<string>) returns (g: Graph)
    requires Consistent(g0) && outer in g0.contains
    ensures Consistent(g)
    ensures g.contains.Keys == g0.contains.Keys
    ensures forall c :: c in g.contains && c != outer ==> g.contains[c] == g0.contains[c]
    ensures g.contains[outer] == g0.contains[outer] + MatchedClauses(parts)
  {
    g := g0;
    var j := 0;
    while j < |parts|
      invariant 0 <= j <= |parts|
      invariant Consistent(g)
      invariant g.contains.Keys == g0.contains.Keys
      invariant forall c :: c in g.contains && c != outer ==> g.contains[c] == g0.contains[c]
      invariant g.contains[outer] == g0.contains[outer] + MatchedClauses(parts[..j])
    {
      MatchedStep(parts, j);
      var g' := AddPart(g, outer, parts[j]);
      OuterUpdate(g0.contains, g.contains, g'.contains, outer, MatchedClauses(parts[..j]), Matched(parts[j]));
      g := g';
      j := j + 1;
    }
    assert parts[..j] == parts;
  }

  /** Appending to `outer`'s entry twice is appending the concatenation once. */
  lemma OuterUpdate(c0: map<string, seq<Clause>>, c1: map<string, seq<Clause>>, c2: map<string, seq<Clause>>,
                    outer: string, prefix: seq<Clause>, extra: seq<Clause>)
    requires outer in c0 && c1.Keys == c0.Keys && c1[outer] == c0[outer] + prefix
    requires forall c :: c in c1 && c != outer ==> c1[c] == c0[c]
    requires c2 == c1[outer := c1[outer] + extra]
    ensures c2.Keys == c0.Keys && c2[outer] == c0[outer] + (prefix + extra)
    ensures forall c :: c in c2 && c != outer ==> c2[c] == c0[c]
  {
  }

  /** One iteration of the clause loop: a matching part becomes an edge. */
  method AddPart(g0: Graph, outer: string, part: string) returns (g: Graph)
    requires Consistent(g0) && outer in g0.contains
    ensures Consistent(g)
    ensures g.contains == g0.contains[outer := g0.contains[outer] + Matched(part)]
  {
    g := g0;
    match MatchClause(part) {
      case Some(c) =>
        g := AddEdge(g, outer, c);
      case None =>
        assert g0.contains[outer] + [] == g0.contains[outer];
    }
  }

  lemma MatchedStep(parts: seq<string>, j: nat)
    requires j < |parts|
    ensures MatchedClauses(parts[..j + 1]) == MatchedClauses(parts[..j]) + Matched(parts[j])
  {
    assert parts[..j + 1][..j] == parts[..j];
  }

  /** The body of the parse loop for one line. */
  method AddLine(g0: Graph, line: string) returns (g: Graph)
    requires Consistent(g0)
    ensures Consistent(g)
    ensures g.contains.Keys == g0.contains.Keys + OuterOf(line)
    ensures forall c :: c in g.contains ==>
      g.contains[c] == (if c in g0.contains then g0.contains[c] else []) + ClausesOf(line, c)
  {
    g := g0;
    match MatchOuter(line) {
      case None =>
      case Some(t) =>
        var outer := t.outer;
        g := AddOuter(g, outer);
        if t.rest != NoOtherBags {
          g := AppendClauses(g, outer, Split(t.rest, ClauseSeparator));
        }
    }
  }

  /**
   * The parse loop over all lines: a matching line gets a forward entry (an
   * empty one for "no other bags", and the existing one when its color was
   * seen before), then its clauses are appended; lines that do not match
   * the outer pattern are skipped.
   */
  method BuildGraph(lines: seq<string>) returns (g: Graph)
    ensures Consistent(g)
    ensures g.contains.Keys == Outers(lines)
    ensures forall c :: c in g.contains ==> g.contains[c] == ClausesFor(lines, c)
    ensures forall c :: HoldsNothing(lines, c) ==> c in g.contains && g.contains[c] == []
  {
    g := EmptyGraph;
    var i := 0;
    while i < |lines|
      invariant 0 <= i <= |lines|
      invariant Consistent(g)
      invariant g.contains.Keys == Outers(lines[..i])
      invariant forall c :: c in g.contains ==> g.contains[c] == ClausesFor(lines[..i], c)
    {
      assert lines[..i + 1][..i] == lines[..i];
      var g' := AddLine(g, lines[i]);
      forall c | c in g'.contains
        ensures g'.contains[c] == ClausesFor(lines[..i + 1], c)
      {
        if c !in g.contains {
          assert c !in Outers(lines[..i]);
          ClausesForAbsent(lines[..i], c);
        }
      }
      g := g';
      i := i + 1;
    }
    assert lines[..i] == lines;
    forall c | HoldsNothing(lines, c)
      ensures c in g.contains && g.contains[c] == []
    {
      EmptyColorEntry(lines, g, c);
    }
  }

  /** A color that heads no line has no recorded clauses. */
  lemma {:induction false} ClausesForAbsent(lines: seq<string>, c: string)
    ensures c !in Outers(lines) ==> ClausesFor(lines, c) == []
  {
    if |lines| > 0 {
      ClausesForAbsent(lines[..|lines| - 1], c);
    }
  }

  // ---------------------------------------------------------------------
  // Empty containers and clause lists
  // ---------------------------------------------------------------------

  /** The line reads `<c> bags contain no other bags.` under the outer pattern. */
  predicate SaysEmpty(line: string, c: string) {
    MatchOuter(line) == Some(RuleText(c, NoOtherBags))
  }

  /**
   * The line `<c> bags contain no other bags.` is read that way, and gives
   * `c` an empty clause list, for every non-empty color without line
   * terminators in which " bags contain " cannot begin before the literal
   * one does.
   */
  lemma NoOtherBagsLine(c: string)
    requires |c| >= 1 && NoLineTerminators(c) && Leftmost(c, BagsContain)
    ensures SaysEmpty(c + BagsContain + NoOtherBags + ".", c)
    ensures ParseRule(c + BagsContain + NoOtherBags + ".") == Some(Rule(c, []))
  {
    var line := c + BagsContain + NoOtherBags + ".";
    var head := c + BagsContain[..|BagsContain| - 1];
    assert line[|c|..|c| + |BagsContain|] == BagsContain;
    assert forall i :: |c| <= i < |line| ==> !IsLineTerminator(line[i]);
    assert OuterShapeAt(line, |c|);
    forall j: nat | j < |c|
      ensures !OccursAt(line, BagsContain, j)
    {
      assert line[..|head|] == head;
      if OccursAt(line, BagsContain, j) {
        assert head[j..j + |BagsContain|] == BagsContain;
        assert OccursAt(head, BagsContain, j);
        assert false;
      }
    }
    var t := MatchOuter(line).value;
    assert |t.outer| == |c|;
    assert t.outer == c;
    assert t.rest == NoOtherBags;
  }

  /** `c` heads some line, and every matching line it heads says it holds nothing. */
  predicate HoldsNothing(lines: seq<string>, c: string) {
    && (exists k :: 0 <= k < |lines| && SaysEmpty(lines[k], c))
    && forall k :: 0 <= k < |lines| && c in OuterOf(lines[k]) ==> SaysEmpty(lines[k], c)
  }

  lemma {:induction false} EmptyLinesNoClauses(lines: seq<string>, c: string)
    requires forall k :: 0 <= k < |lines| && c in OuterOf(lines[k]) ==> SaysEmpty(lines[k], c)
    ensures ClausesFor(lines, c) == []
  {
    if |lines| > 0 {
      var init, last := lines[..|lines| - 1], lines[|lines| - 1];
      assert forall k :: 0 <= k < |init| ==> init[k] == lines[k];
      EmptyLinesNoClauses(init, c);
      assert c in OuterOf(last) ==> SaysEmpty(last, c);
    }
  }

  lemma {:induction false} SaysEmptyHeads(lines: seq<string>, c: string, k: nat)
    requires k < |lines| && SaysEmpty(lines[k], c)
    ensures c in Outers(lines)
  {
    if k < |lines| - 1 {
      assert lines[..|lines| - 1][k] == lines[k];
      SaysEmptyHeads(lines[..|lines| - 1], c, k);
    } else {
      assert c in OuterOf(lines[k]);
    }
  }

  /**
   * In the graph the parse loop builds, a color whose lines all read
   * `<c> bags contain no other bags.` has an entry, the entry is empty,
   * and no forward edge leaves it.
   */
  lemma EmptyColorEntry(lines: seq<string>, g: Graph, c: string)
    requires g.contains.Keys == Outers(lines)
    requires forall x :: x in g.contains ==> g.contains[x] == ClausesFor(lines, x)
    requires HoldsNothing(lines, c)
    ensures c in g.contains && g.contains[c] == []
    ensures forall inner :: !HasEdge(g.contains, c, inner)
  {
    var k :| 0 <= k < |lines| && SaysEmpty(lines[k], c);
    SaysEmptyHeads(lines, c, k);
    EmptyLinesNoClauses(lines, c);
  }

  /**
   * The matched clauses of `parts` come in order, one per part at most,
   * and when every part matches they are exactly the parts' clauses.
   */
  lemma {:induction false} MatchedClausesAll(parts: seq<string>)
    ensures |MatchedClauses(parts)| <= |parts|
    ensures (forall j :: 0 <= j < |parts| ==> MatchClause(parts[j]).Some?) ==>
      |MatchedClauses(parts)| == |parts|
      && forall j :: 0 <= j < |parts| ==> MatchedClauses(parts)[j] == MatchClause(parts[j]).value
  {
    if |parts| > 0 {
      MatchedClausesAll(parts[..|parts| - 1]);
    }
    if forall j :: 0 <= j < |parts| ==> MatchClause(parts[j]).Some? {
      EveryPartMatched(parts);
    }
  }

  lemma {:induction false} EveryPartMatched(parts: seq<string>)
    requires forall j :: 0 <= j < |parts| ==> MatchClause(parts[j]).Some?
    ensures |MatchedClauses(parts)| == |parts|
    ensures forall j :: 0 <= j < |parts| ==> MatchedClauses(parts)[j] == MatchClause(parts[j]).value
  {
    if |parts| > 0 {
      var init, last := parts[..|parts| - 1], parts[|parts| - 1];
      assert forall j :: 0 <= j < |init| ==> init[j] == parts[j];
      EveryPartMatched(init);
      var m := MatchedClauses(init);
      assert MatchedClauses(parts) == m + [MatchClause(last).value];
      forall j | 0 <= j < |parts|
        ensures MatchedClauses(parts)[j] == MatchClause(parts[j]).value
      {
        if j < |init| {
          assert MatchedClauses(parts)[j] == m[j];
        }
      }
    }
  }
}
