/** The queue discipline of the failure-link pass, stated on plain sequences.

    The trie is described here only by its shape: for every state `t > 0`, the
    parent it hangs from, the column of the edge from that parent, and its depth.
    The pass first enqueues the root's children in column order and then, while
    the queue is not empty, dequeues a state and enqueues its children in column
    order. The lemmas show that the queue is in order of depth, that when a state
    is dequeued every state no deeper than it has already been enqueued, and that
    in the end every state has been enqueued exactly once. */
module BreadthFirst {
  import opened Text

  datatype Tree = Tree(parent: seq<nat>, col: seq<nat>, depth: seq<nat>)

  /** States are `0 .. |parent| - 1`, the root is 0, every other state is one
      deeper than its parent, and no two states hang from the same parent by the
      same column. */
  ghost predicate WellFormed(tr: Tree) {
    |tr.parent| == |tr.col| == |tr.depth| >= 1 && tr.depth[0] == 0 &&
    (forall t {:trigger tr.parent[t]} :: 0 < t < |tr.parent| ==>
      tr.parent[t] < |tr.parent| && tr.col[t] < Alphabet && tr.depth[t] == tr.depth[tr.parent[t]] + 1) &&
    (forall t, u ::
      (0 < t < |tr.parent| && 0 < u < |tr.parent| && tr.parent[t] == tr.parent[u] && tr.col[t] == tr.col[u]) ==> t == u)
  }

  /** Non-root states that have not been enqueued yet. */
  ghost function Unvisited(n: nat, visited: seq<nat>): set<nat> {
    set t | 0 < t < n && t !in visited
  }

  /** Distinct non-root states. */
  ghost predicate Distinct(n: nat, visited: seq<nat>) {
    (forall a :: 0 <= a < |visited| ==> 0 < visited[a] < n) &&
    (forall a, b :: 0 <= a < b < |visited| ==> visited[a] != visited[b])
  }

  /** While the root's children on columns below `c` are enqueued. */
  ghost predicate RootLevel(tr: Tree, queue: seq<nat>, c: nat)
    requires WellFormed(tr)
  {
    Distinct(|tr.parent|, queue) &&
    (forall a :: 0 <= a < |queue| ==> tr.depth[queue[a]] == 1) &&
    (forall t :: 0 < t < |tr.parent| ==> (t in queue <==> tr.parent[t] == 0 && tr.col[t] < c))
  }

  /** The loop invariant of the main pass: `visited` lists every state enqueued
      so far, `processed` is the prefix already dequeued. The enqueued states are
      exactly those whose parent is the root or has been dequeued, their depths
      never decrease along the queue and exceed the last dequeued depth by at
      most one. */
  ghost predicate Frontier(tr: Tree, visited: seq<nat>, processed: seq<nat>)
    requires WellFormed(tr)
  {
    Distinct(|tr.parent|, visited) &&
    |processed| <= |visited| && visited[..|processed|] == processed &&
    (forall t :: 0 < t < |tr.parent| ==> (t in visited <==> tr.parent[t] == 0 || tr.parent[t] in processed)) &&
    (forall a, b :: 0 <= a < b < |visited| ==> tr.depth[visited[a]] <= tr.depth[visited[b]]) &&
    (forall a :: 0 <= a < |visited| ==>
      tr.depth[visited[a]] <= 1 + (if processed == [] then 0 else tr.depth[visited[|processed| - 1]]))
  }

  /** The invariant while the children of `state` on columns below `c` are
      enqueued; `processed0` is what was dequeued before `state`. */
  ghost predicate Children(tr: Tree, visited: seq<nat>, processed0: seq<nat>, state: nat, c: nat)
    requires WellFormed(tr)
  {
    Distinct(|tr.parent|, visited) &&
    |processed0| < |visited| && visited[..|processed0|] == processed0 && visited[|processed0|] == state &&
    (forall t :: 0 < t < |tr.parent| ==>
      (t in visited <==> tr.parent[t] == 0 || tr.parent[t] in processed0 || (tr.parent[t] == state && tr.col[t] < c))) &&
    (forall a, b :: 0 <= a < b < |visited| ==> tr.depth[visited[a]] <= tr.depth[visited[b]]) &&
    (forall a :: 0 <= a < |visited| ==> tr.depth[visited[a]] <= tr.depth[state] + 1) &&
    (forall t :: 0 < t < |tr.parent| && tr.depth[t] <= tr.depth[state] ==> t in visited)
  }

  lemma RootChild(tr: Tree, queue: seq<nat>, c: nat, t: nat)
    requires WellFormed(tr) && RootLevel(tr, queue, c)
    requires 0 < t < |tr.parent| && tr.parent[t] == 0 && tr.col[t] == c
    ensures t !in queue && RootLevel(tr, queue + [t], c + 1)
  {
    forall u | 0 < u < |tr.parent| ensures (u in queue + [t] <==> tr.parent[u] == 0 && tr.col[u] < c + 1) {
      if tr.parent[u] == 0 && tr.col[u] == c {
        assert u == t;
      }
    }
  }

  lemma NoRootChild(tr: Tree, queue: seq<nat>, c: nat)
    requires WellFormed(tr) && RootLevel(tr, queue, c)
    requires forall t :: 0 < t < |tr.parent| ==> !(tr.parent[t] == 0 && tr.col[t] == c)
    ensures RootLevel(tr, queue, c + 1)
  {
  }

  lemma FirstLevel(tr: Tree, queue: seq<nat>)
    requires WellFormed(tr) && RootLevel(tr, queue, Alphabet)
    ensures Frontier(tr, queue, [])
  {
  }

  /** Every state no deeper than `k` has been enqueued, for `k` up to the depth of
      the state about to be dequeued. */
  lemma {:induction false} ShallowVisited(tr: Tree, visited: seq<nat>, processed: seq<nat>, k: nat)
    requires WellFormed(tr) && Frontier(tr, visited, processed) && |processed| < |visited|
    requires k <= tr.depth[visited[|processed|]]
    ensures forall t :: 0 < t < |tr.parent| && tr.depth[t] <= k ==> t in visited
  {
    if k > 0 {
      ShallowVisited(tr, visited, processed, k - 1);
    }
    forall t | 0 < t < |tr.parent| && tr.depth[t] <= k ensures t in visited {
      var p := tr.parent[t];
      if p != 0 {
        var a :| 0 <= a < |visited| && visited[a] == p;
        assert processed[a] == p;
      }
    }
  }

  /** Dequeuing the head of the queue. */
  lemma StartChildren(tr: Tree, visited: seq<nat>, processed: seq<nat>)
    requires WellFormed(tr) && Frontier(tr, visited, processed) && |processed| < |visited|
    ensures Children(tr, visited, processed, visited[|processed|], 0)
  {
    ShallowVisited(tr, visited, processed, tr.depth[visited[|processed|]]);
  }

  /** Enqueueing the child of `state` on column `c`. */
  lemma ProcessChild(tr: Tree, visited: seq<nat>, processed0: seq<nat>, state: nat, c: nat, child: nat)
    requires WellFormed(tr) && Children(tr, visited, processed0, state, c)
    requires 0 < child < |tr.parent| && tr.parent[child] == state && tr.col[child] == c
    ensures child !in visited && Children(tr, visited + [child], processed0, state, c + 1)
  {
    var v := visited + [child];
    assert state !in processed0 by {
      assert state == visited[|processed0|];
    }
    assert v[..|processed0|] == processed0;
    forall t | 0 < t < |tr.parent| ensures
      (t in v <==> tr.parent[t] == 0 || tr.parent[t] in processed0 || (tr.parent[t] == state && tr.col[t] < c + 1))
    {
      if tr.parent[t] == state && tr.col[t] == c {
        assert t == child;
      }
    }
  }

  /** Skipping a column on which `state` has no child. */
  lemma NoChild(tr: Tree, visited: seq<nat>, processed0: seq<nat>, state: nat, c: nat)
    requires WellFormed(tr) && Children(tr, visited, processed0, state, c)
    requires forall t :: 0 < t < |tr.parent| ==> !(tr.parent[t] == state && tr.col[t] == c)
    ensures Children(tr, visited, processed0, state, c + 1)
  {
  }

  /** Once all of `state`'s children are enqueued, `state` counts as dequeued. */
  lemma FrontierAfter(tr: Tree, visited: seq<nat>, processed0: seq<nat>, state: nat)
    requires WellFormed(tr) && Children(tr, visited, processed0, state, Alphabet)
    ensures Frontier(tr, visited, processed0 + [state])
  {
    assert visited[..|processed0| + 1] == processed0 + [state];
  }

  /** Enqueueing the states added for one more column. Stated apart so that the
      sequence reasoning stays out of the loop that uses it. */
  lemma Enqueue(visited: seq<nat>, children: seq<nat>, added: seq<nat>)
    ensures visited + children + added == visited + (children + added)
  {
  }

  /** One round of the main loop: `state`, the head of the queue, has been
      dequeued and its children `added` enqueued. The invariant holds again, and
      either a new state was enqueued or the queue got shorter. */
  lemma NextRound(tr: Tree, processed: seq<nat>, queue: seq<nat>, added: seq<nat>)
    requires WellFormed(tr) && queue != []
    requires Children(tr, processed + queue + added, processed, queue[0], Alphabet)
    ensures processed + queue + added == (processed + [queue[0]]) + (queue[1..] + added)
    ensures Frontier(tr, processed + queue + added, processed + [queue[0]])
    ensures Unvisited(|tr.parent|, processed + queue + added) < Unvisited(|tr.parent|, processed + queue) ||
      (Unvisited(|tr.parent|, processed + queue + added) == Unvisited(|tr.parent|, processed + queue) &&
       |queue[1..] + added| < |queue|)
  {
    Dequeue(processed, queue, added);
    FrontierAfter(tr, processed + queue + added, processed, queue[0]);
    UnvisitedShrinks(|tr.parent|, processed + queue, added);
  }

  lemma Dequeue(processed: seq<nat>, queue: seq<nat>, added: seq<nat>)
    requires queue != []
    ensures processed + queue + added == (processed + [queue[0]]) + (queue[1..] + added)
  {
    assert queue == [queue[0]] + queue[1..];
  }

  /** Enqueueing `added` removes its states from the unvisited ones. */
  lemma UnvisitedShrinks(n: nat, visited: seq<nat>, added: seq<nat>)
    requires Distinct(n, visited + added)
    ensures Unvisited(n, visited + added) <= Unvisited(n, visited)
    ensures added != [] ==> Unvisited(n, visited + added) < Unvisited(n, visited)
    ensures added == [] ==> Unvisited(n, visited + added) == Unvisited(n, visited)
  {
    var v := visited + added;
    forall t | t in visited ensures t in v {
      var a :| 0 <= a < |visited| && visited[a] == t;
      assert v[a] == t;
    }
    if added != [] {
      var t := v[|visited|];
      forall a | 0 <= a < |visited| ensures visited[a] != t {
        assert v[a] == visited[a];
      }
      assert t in Unvisited(n, visited);
    } else {
      assert v == visited;
    }
  }

  /** When the queue runs empty every non-root state has been enqueued. */
  lemma AllVisited(tr: Tree, visited: seq<nat>)
    requires WellFormed(tr) && Frontier(tr, visited, visited)
    ensures forall t :: 0 < t < |tr.parent| ==> t in visited
  {
    forall t | 0 < t < |tr.parent| ensures t in visited {
      VisitedByDepth(tr, visited, t);
    }
  }

  lemma {:induction false} VisitedByDepth(tr: Tree, visited: seq<nat>, t: nat)
    requires WellFormed(tr) && Frontier(tr, visited, visited) && 0 < t < |tr.parent|
    ensures t in visited
    decreases tr.depth[t]
  {
    if tr.parent[t] != 0 {
      VisitedByDepth(tr, visited, tr.parent[t]);
    }
  }
}
