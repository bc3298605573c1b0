/**
 * Day 7, part 1: the colors that can eventually contain the target, found by
 * a stack-driven walk over the reverse map with a `visited` set.
 */
module BagAncestors {
  import opened BagRules

  /**
   * `path` climbs the reverse map: each color after the first directly holds
   * the one before it.
   */
  ghost predicate IsClimb(parents: map<string, set<string>>, path: seq<string>) {
    forall k :: 0 <= k < |path| - 1 ==> path[k] in parents && path[k + 1] in parents[path[k]]
  }

  /** `c` is reached from `target` by a climb of at least one step. */
  ghost predicate CanContain(parents: map<string, set<string>>, target: string, c: string) {
    exists path :: |path| >= 2 && path[0] == target && path[|path| - 1] == c && IsClimb(parents, path)
  }

  /** Every color that occurs as somebody's parent. */
  ghost function AllParents(parents: map<string, set<string>>): set<string> {
    set inner, p | inner in parents && p in parents[inner] :: p
  }

  lemma StepUp(parents: map<string, set<string>>, target: string, x: string, p: string)
    requires x == target || CanContain(parents, target, x)
    requires x in parents && p in parents[x]
    ensures CanContain(parents, target, p)
  {
    if x == target {
      assert IsClimb(parents, [target, p]);
    } else {
      var path :| |path| >= 2 && path[0] == target && path[|path| - 1] == x && IsClimb(parents, path);
      var longer := path + [p];
      assert IsClimb(parents, longer);
    }
  }

  /**
   * A set that holds the parents of the target and of each of its members
   * holds every color reached by a climb from the target.
   */
  lemma {:induction false} ClosedHoldsClimbs(parents: map<string, set<string>>, target: string, visited: set<string>, path: seq<string>)
    requires forall x :: (x == target || x in visited) && x in parents ==> parents[x] <= visited
    requires |path| >= 2 && path[0] == target && IsClimb(parents, path)
    ensures path[|path| - 1] in visited
    decreases |path|
  {
    if |path| > 2 {
      var shorter := path[..|path| - 1];
      assert IsClimb(parents, shorter);
      ClosedHoldsClimbs(parents, target, visited, shorter);
      assert path[|path| - 2] == shorter[|shorter| - 1];
    }
  }

  /** Every color on the stack is the target or already visited. */
  ghost predicate StackOk(stack: seq<string>, target: string, visited: set<string>) {
    forall k :: 0 <= k < |stack| ==> stack[k] == target || stack[k] in visited
  }

  /** Every visited color can contain the target. */
  ghost predicate Sound(parents: map<string, set<string>>, target: string, visited: set<string>) {
    forall c :: c in visited ==> CanContain(parents, target, c)
  }

  /** The parents of each color already popped (and not pushed again) are visited. */
  ghost predicate Closed(parents: map<string, set<string>>, target: string, visited: set<string>, stack: seq<string>) {
    forall x :: (x == target || x in visited) && x in parents && x !in stack ==> parents[x] <= visited
  }

  lemma ParentsInUniverse(parents: map<string, set<string>>, x: string)
    requires x in parents
    ensures parents[x] <= AllParents(parents)
  {
  }

  lemma FewerUnvisited(universe: set<string>, visited0: set<string>, visited: set<string>)
    requires visited0 <= visited <= universe && visited != visited0
    ensures |universe - visited| < |universe - visited0|
  {
    assert exists x :: x in visited && x !in visited0;
    var x :| x in visited && x !in visited0;
    var small, big := universe - visited, universe - visited0;
    assert x in big - small;
    assert big == small + (big - small);
    assert small * (big - small) == {};
  }

  /** One iteration of the traversal keeps the closure property. */
  lemma ClosedAfterPop(
    parents: map<string, set<string>>, target: string,
    visited0: set<string>, stack0: seq<string>, color: string,
    visited: set<string>, stack: seq<string>)
    requires Closed(parents, target, visited0, stack0)
    requires |stack0| > 0 && color == stack0[|stack0| - 1]
    requires visited0 <= visited
    requires color in parents ==> parents[color] <= visited
    requires |stack| >= |stack0| - 1 && stack[..|stack0| - 1] == stack0[..|stack0| - 1]
    requires forall x :: x in visited - visited0 ==> x in stack
    ensures Closed(parents, target, visited, stack)
  {
    forall x | (x == target || x in visited) && x in parents && x !in stack
      ensures parents[x] <= visited
    {
      if x != color {
        assert x !in stack0 by {
          forall k | 0 <= k < |stack0| ensures stack0[k] != x {
            if k < |stack0| - 1 {
              assert stack0[k] == stack[k];
            }
          }
        }
      }
    }
  }

  /** Visiting the parents of a color that can contain the target keeps every visited color sound. */
  lemma SoundAfterVisit(parents: map<string, set<string>>, target: string, visited0: set<string>, color: string)
    requires Sound(parents, target, visited0)
    requires (color == target || color in visited0) && color in parents
    ensures Sound(parents, target, visited0 + parents[color])
  {
    forall p | p in parents[color] ensures CanContain(parents, target, p) {
      StepUp(parents, target, color, p);
    }
  }

  /**
   * The inner loop over one color's parents: each parent not yet visited is
   * marked visited and pushed, so every newly visited color is pushed exactly once.
   */
  method VisitAll(ps: set<string>, visited0: set<string>)
    returns (visited: set<string>, pushed: seq<string>)
    ensures visited == visited0 + ps
    ensures forall k :: 0 <= k < |pushed| ==> pushed[k] in ps - visited0
    ensures forall x :: x in ps - visited0 ==> x in pushed
    ensures forall k, l :: 0 <= k < l < |pushed| ==> pushed[k] != pushed[l]
  {
    visited, pushed := visited0, [];
    var todo := ps;
    while todo != {}
      invariant todo <= ps
      invariant visited == visited0 + (ps - todo)
      invariant forall k :: 0 <= k < |pushed| ==> pushed[k] in visited - visited0
      invariant forall x :: x in visited - visited0 ==> x in pushed
      invariant forall k, l :: 0 <= k < l < |pushed| ==> pushed[k] != pushed[l]
      decreases todo
    {
      var p :| p in todo;
      todo := todo - {p};
      if p !in visited {
        visited := visited + {p};
        pushed := pushed + [p];
      }
    }
  }

  /** One iteration of the traversal loop: pop a color and visit its parents. */
  method PopAndVisit(parents: map<string, set<string>>, target: string, visited0: set<string>, stack0: seq<string>)
    returns (visited: set<string>, stack: seq<string>)
    requires |stack0| > 0
    requires StackOk(stack0, target, visited0) && Sound(parents, target, visited0)
    requires Closed(parents, target, visited0, stack0) && visited0 <= AllParents(parents)
    ensures StackOk(stack, target, visited) && Sound(parents, target, visited)
    ensures Closed(parents, target, visited, stack) && visited <= AllParents(parents)
    ensures visited0 <= visited
    ensures visited == visited0 ==> |stack| < |stack0|
  {
    visited := visited0;
    var color := stack0[|stack0| - 1];
    stack := stack0[..|stack0| - 1];
    if color in parents {
      SoundAfterVisit(parents, target, visited, color);
      ParentsInUniverse(parents, color);
      var pushed;
      visited, pushed := VisitAll(parents[color], visited);
      if |pushed| > 0 {
        assert pushed[0] in visited - visited0;
      }
      stack := stack + pushed;
    }
    ClosedAfterPop(parents, target, visited0, stack0, color, visited, stack);
  }

  /**
   * The traversal: pop a color, and push each of its parents that was not
   * visited before, marking it visited. The result is exactly the set of
   * colors that can contain the target; the target itself is not removed,
   * so it belongs to the result only when it lies on a cycle.
   */
  method Ancestors(parents: map<string, set<string>>, target: string) returns (visited: set<string>)
    ensures forall c :: c in visited <==> CanContain(parents, target, c)
  {
    ghost var universe := AllParents(parents);
    visited := {};
    var stack := [target];
    while |stack| > 0
      invariant StackOk(stack, target, visited)
      invariant Sound(parents, target, visited)
      invariant Closed(parents, target, visited, stack)
      invariant visited <= universe
      decreases |universe - visited|, |stack|
    {
      ghost var visited0 := visited;
      visited, stack := PopAndVisit(parents, target, visited, stack);
      if visited != visited0 {
        FewerUnvisited(universe, visited0, visited);
      }
    }
    forall c | CanContain(parents, target, c) ensures c in visited {
      var path :| |path| >= 2 && path[0] == target && path[|path| - 1] == c && IsClimb(parents, path);
      ClosedHoldsClimbs(parents, target, visited, path);
    }
  }

  /** Along a climb in a ranked graph the rank strictly grows. */
  lemma {:induction false} ClimbRaisesRank(g: Graph, rank: map<string, nat>, path: seq<string>)
    requires Consistent(g) && Ranked(g.contains, rank)
    requires |path| >= 2 && IsClimb(g.parents, path)
    ensures path[0] in rank && path[|path| - 1] in rank && rank[path[0]] < rank[path[|path| - 1]]
    decreases |path|
  {
    var n := |path|;
    var inner, outer := path[n - 2], path[n - 1];
    assert HasEdge(g.contains, outer, inner);
    var k :| 0 <= k < |g.contains[outer]| && g.contains[outer][k].color == inner;
    if n > 2 {
      var shorter := path[..n - 1];
      assert IsClimb(g.parents, shorter);
      ClimbRaisesRank(g, rank, shorter);
    }
  }

  /**
   * In an acyclic rule set (one that admits a rank) no color can contain
   * itself, so the traversal started from the target never reports it.
   */
  lemma TargetNotOwnAncestor(g: Graph, rank: map<string, nat>, target: string)
    requires Consistent(g) && Ranked(g.contains, rank)
    ensures !CanContain(g.parents, target, target)
  {
    if CanContain(g.parents, target, target) {
      var path :| |path| >= 2 && path[0] == target && path[|path| - 1] == target && IsClimb(g.parents, path);
      ClimbRaisesRank(g, rank, path);
    }
  }
}
