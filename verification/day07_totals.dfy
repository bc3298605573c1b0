/**
 * Day 7, part 2: how many bags one bag of a color holds, counted with
 * multiplicity. The recurrence is
 *   inside(c) = sum over the forward entry (child, k) of c of k * (1 + inside(child))
 * with inside(c) = 0 for a color without a forward entry; the program
 * evaluates it depth-first with a memo keyed by color.
 */
module BagTotals {
  import opened BagRules

  function RankOf(rank: map<string, nat>, c: string): nat {
    if c in rank then rank[c] else 0
  }

  /** Every clause of `es` names a color ranked below `c`. */
  ghost predicate Below(rank: map<string, nat>, c: string, es: seq<Clause>) {
    forall k :: 0 <= k < |es| ==> es[k].color in rank && rank[es[k].color] < RankOf(rank, c)
  }

  /**
   * The recurrence, evaluated without a memo. The rank is only the
   * termination argument: the value does not depend on which rank is used
   * (see `InsideRankIrrelevant`).
   */
  function Inside(contains: map<string, seq<Clause>>, rank: map<string, nat>, c: string): (n: nat)
    requires Ranked(contains, rank)
    ensures c !in contains || contains[c] == [] ==> n == 0
    decreases RankOf(rank, c), 1, 0
  {
    if c in contains then SumInside(contains, rank, c, contains[c]) else 0
  }

  /** The contribution `k * (1 + inside(child))` of each clause of `es`, summed. */
  function SumInside(contains: map<string, seq<Clause>>, rank: map<string, nat>, c: string, es: seq<Clause>): nat
    requires Ranked(contains, rank) && Below(rank, c, es)
    decreases RankOf(rank, c), 0, |es|
  {
    if |es| == 0 then 0
    else
      var last := es[|es| - 1];
      SumInside(contains, rank, c, es[..|es| - 1]) + last.count * (1 + Inside(contains, rank, last.color))
  }

  /** The multiplicities of `es`, summed. */
  function DirectCount(es: seq<Clause>): nat {
    if |es| == 0 then 0 else DirectCount(es[..|es| - 1]) + es[|es| - 1].count
  }

  /** Every memo entry holds the recurrence's value for its color. */
  ghost predicate MemoSound(contains: map<string, seq<Clause>>, rank: map<string, nat>, memo: map<string, nat>)
    requires Ranked(contains, rank)
  {
    forall k :: k in memo ==> memo[k] == Inside(contains, rank, k)
  }

  predicate Distinct(xs: seq<string>) {
    forall i, j :: 0 <= i < j < |xs| ==> xs[i] != xs[j]
  }

  /**
   * `totalInside(color)` with its memo threaded through: a memo hit returns
   * the stored value; otherwise the children are summed in order and the
   * result is stored. `expanded` lists the colors whose children were
   * summed by this call: each at most once, and none that was already
   * memoized, so no shared subgraph is expanded twice.
   */
  method TotalInside(contains: map<string, seq<Clause>>, ghost rank: map<string, nat>, color: string, memo0: map<string, nat>)
    returns (total: nat, memo: map<string, nat>, ghost expanded: seq<string>)
    requires Ranked(contains, rank) && MemoSound(contains, rank, memo0)
    ensures total == Inside(contains, rank, color)
    ensures MemoSound(contains, rank, memo)
    ensures memo0.Keys <= memo.Keys && color in memo
    ensures forall k :: k in memo && k !in memo0 ==> RankOf(rank, k) <= RankOf(rank, color)
    ensures forall k :: k in memo && k !in memo0 <==> k in expanded
    ensures Distinct(expanded)
    decreases RankOf(rank, color), 1
  {
    if color in memo0 {
      return memo0[color], memo0, [];
    }
    var children := if color in contains then contains[color] else [];
    total, memo, expanded := SumChildren(contains, rank, color, children, memo0);
    MergeExpanded(memo0, memo, expanded, memo[color := total], [color]);
    memo := memo[color := total];
    expanded := expanded + [color];
  }

  /** The loop over one color's children, adding `count * (1 + totalInside(child))` for each. */
  method SumChildren(contains: map<string, seq<Clause>>, ghost rank: map<string, nat>, color: string, children: seq<Clause>, memo0: map<string, nat>)
    returns (total: nat, memo: map<string, nat>, ghost expanded: seq<string>)
    requires Ranked(contains, rank) && MemoSound(contains, rank, memo0) && Below(rank, color, children)
    ensures total == SumInside(contains, rank, color, children)
    ensures MemoSound(contains, rank, memo) && memo0.Keys <= memo.Keys
    ensures forall k :: k in memo && k !in memo0 ==> RankOf(rank, k) < RankOf(rank, color)
    ensures forall k :: k in memo && k !in memo0 <==> k in expanded
    ensures Distinct(expanded)
    decreases RankOf(rank, color), 0
  {
    total, memo, expanded := 0, memo0, [];
    var j := 0;
    while j < |children|
      invariant 0 <= j <= |children|
      invariant total == SumInside(contains, rank, color, children[..j])
      invariant MemoSound(contains, rank, memo) && memo0.Keys <= memo.Keys
      invariant forall k :: k in memo && k !in memo0 ==> RankOf(rank, k) < RankOf(rank, color)
      invariant forall k :: k in memo && k !in memo0 <==> k in expanded
      invariant Distinct(expanded)
    {
      var child := children[j];
      var sub, memo', more := TotalInside(contains, rank, child.color, memo);
      SumStep(contains, rank, color, children, j);
      total := total + child.count * (1 + sub);
      RankChain(rank, memo0, memo, memo', child.color, color);
      MergeExpanded(memo0, memo, expanded, memo', more);
      memo, expanded := memo', expanded + more;
      j := j + 1;
    }
    assert children[..j] == children;
  }

  lemma SumStep(contains: map<string, seq<Clause>>, rank: map<string, nat>, color: string, children: seq<Clause>, j: nat)
    requires Ranked(contains, rank) && Below(rank, color, children) && j < |children|
    ensures Below(rank, color, children[..j]) && Below(rank, color, children[..j + 1])
    ensures SumInside(contains, rank, color, children[..j + 1])
         == SumInside(contains, rank, color, children[..j]) + children[j].count * (1 + Inside(contains, rank, children[j].color))
  {
    assert children[..j + 1][..j] == children[..j];
  }

  /** New memo keys of a call on a child rank below the parent. */
  lemma RankChain(rank: map<string, nat>, memo0: map<string, nat>, memo1: map<string, nat>, memo2: map<string, nat>, child: string, color: string)
    requires forall k :: k in memo1 && k !in memo0 ==> RankOf(rank, k) < RankOf(rank, color)
    requires forall k :: k in memo2 && k !in memo1 ==> RankOf(rank, k) <= RankOf(rank, child)
    requires RankOf(rank, child) < RankOf(rank, color)
    ensures forall k :: k in memo2 && k !in memo0 ==> RankOf(rank, k) < RankOf(rank, color)
  {
  }

  /** Chaining two calls: the colors each expanded are disjoint and together are the new memo keys. */
  lemma MergeExpanded(memo0: map<string, nat>, memo1: map<string, nat>, expanded: seq<string>, memo2: map<string, nat>, more: seq<string>)
    requires memo0.Keys <= memo1.Keys <= memo2.Keys
    requires forall k :: k in memo1 && k !in memo0 <==> k in expanded
    requires forall k :: k in memo2 && k !in memo1 <==> k in more
    requires Distinct(expanded) && Distinct(more)
    ensures forall k :: k in memo2 && k !in memo0 <==> k in expanded + more
    ensures Distinct(expanded + more)
  {
    var all := expanded + more;
    forall i, j | 0 <= i < j < |all| ensures all[i] != all[j] {
      if i < |expanded| <= j {
        assert all[i] in memo1 && all[j] !in memo1;
      }
    }
  }

  /** Part 2: a fresh memo for one query. */
  method TotalInsideFresh(contains: map<string, seq<Clause>>, ghost rank: map<string, nat>, color: string)
    returns (total: nat)
    requires Ranked(contains, rank)
    ensures total == Inside(contains, rank, color)
  {
    var memo;
    ghost var expanded;
    total, memo, expanded := TotalInside(contains, rank, color, map[]);
  }

  /** The total does not depend on the rank chosen to justify termination. */
  lemma {:induction false} InsideRankIrrelevant(contains: map<string, seq<Clause>>, r1: map<string, nat>, r2: map<string, nat>, c: string)
    requires Ranked(contains, r1) && Ranked(contains, r2)
    ensures Inside(contains, r1, c) == Inside(contains, r2, c)
    decreases RankOf(r1, c), 1, 0
  {
    if c in contains {
      SumRankIrrelevant(contains, r1, r2, c, contains[c]);
    }
  }

  lemma {:induction false} SumRankIrrelevant(contains: map<string, seq<Clause>>, r1: map<string, nat>, r2: map<string, nat>, c: string, es: seq<Clause>)
    requires Ranked(contains, r1) && Ranked(contains, r2) && Below(r1, c, es) && Below(r2, c, es)
    ensures SumInside(contains, r1, c, es) == SumInside(contains, r2, c, es)
    decreases RankOf(r1, c), 0, |es|
  {
    if |es| > 0 {
      SumRankIrrelevant(contains, r1, r2, c, es[..|es| - 1]);
      InsideRankIrrelevant(contains, r1, r2, es[|es| - 1].color);
    }
  }

  /** Each clause contributes at least its own multiplicity. */
  lemma {:induction false} SumAtLeastDirect(contains: map<string, seq<Clause>>, rank: map<string, nat>, c: string, es: seq<Clause>)
    requires Ranked(contains, rank) && Below(rank, c, es)
    ensures SumInside(contains, rank, c, es) >= DirectCount(es)
  {
    if |es| > 0 {
      var last := es[|es| - 1];
      SumAtLeastDirect(contains, rank, c, es[..|es| - 1]);
      assert last.count * (1 + Inside(contains, rank, last.color)) >= last.count;
    }
  }

  /** A bag holds at least the bags its own rule lists directly. */
  lemma InsideAtLeastDirect(contains: map<string, seq<Clause>>, rank: map<string, nat>, c: string)
    requires Ranked(contains, rank) && c in contains
    ensures Inside(contains, rank, c) >= DirectCount(contains[c])
  {
    SumAtLeastDirect(contains, rank, c, contains[c]);
  }

  /** A holds 1 B, B holds 2 C, C holds nothing: one A bag holds 1 * (1 + 2 * (1 + 0)) = 3 bags. */
  lemma ChainExample()
    ensures
      var contains := map["A" := [Clause("B", 1)], "B" := [Clause("C", 2)], "C" := []];
      var rank := map["A" := 2, "B" := 1, "C" := 0];
      Ranked(contains, rank) && Inside(contains, rank, "A") == 3
  {
    var contains := map["A" := [Clause("B", 1)], "B" := [Clause("C", 2)], "C" := []];
    var rank := map["A" := 2, "B" := 1, "C" := 0];
    assert Inside(contains, rank, "C") == 0;
    assert Inside(contains, rank, "B") == 2;
  }

  /**
   * In the graph the parse loop builds, a color whose lines all read
   * `<c> bags contain no other bags.` has an empty entry, no forward edge,
   * and holds no bags at all.
   */
  lemma EmptyColorTotal(lines: seq<string>, g: Graph, rank: map<string, nat>, c: string)
    requires g.contains.Keys == Outers(lines)
    requires forall x :: x in g.contains ==> g.contains[x] == ClausesFor(lines, x)
    requires Ranked(g.contains, rank) && HoldsNothing(lines, c)
    ensures c in g.contains && g.contains[c] == []
    ensures forall inner :: !HasEdge(g.contains, c, inner)
    ensures Inside(g.contains, rank, c) == 0
  {
    EmptyColorEntry(lines, g, c);
  }
}
