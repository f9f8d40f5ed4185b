/** The canonical serializer's dependency order, and the checks on the table made from it. */
module CanonicalOrder {

  /** The dependencies of every node of a finite graph, in order and with repeats. */
  type Graph = map<nat, seq<nat>>

  /** Every dependency is a node of the graph. */
  predicate Closed(graph: Graph, roots: seq<nat>) {
    && (forall i :: 0 <= i < |roots| ==> roots[i] in graph)
    && (forall n, i :: n in graph && 0 <= i < |graph[n]| ==> graph[n][i] in graph)
  }

  predicate IsPath(graph: Graph, path: seq<nat>) {
    && (forall i :: 0 <= i < |path| ==> path[i] in graph)
    && (forall i :: 0 <= i < |path| - 1 ==> path[i + 1] in graph[path[i]])
  }

  predicate Joins(graph: Graph, path: seq<nat>, a: nat, b: nat) {
    |path| >= 2 && IsPath(graph, path) && path[0] == a && path[|path| - 1] == b
  }

  /** b can be reached from a by one or more dependency steps. */
  ghost predicate Reaches(graph: Graph, a: nat, b: nat) {
    exists path :: Joins(graph, path, a, b)
  }

  ghost predicate Reachable(graph: Graph, roots: seq<nat>, n: nat) {
    n in roots || exists i :: 0 <= i < |roots| && Reaches(graph, roots[i], n)
  }

  ghost predicate ReachableCycle(graph: Graph, roots: seq<nat>) {
    exists n :: Reachable(graph, roots, n) && Reaches(graph, n, n)
  }

  lemma OneStep(graph: Graph, a: nat, b: nat)
    requires a in graph && b in graph && b in graph[a]
    ensures Reaches(graph, a, b)
  {
    assert Joins(graph, [a, b], a, b);
  }

  lemma Longer(graph: Graph, a: nat, b: nat, c: nat)
    requires Reaches(graph, a, b) && b in graph && c in graph && c in graph[b]
    ensures Reaches(graph, a, c)
  {
    var path :| Joins(graph, path, a, b);
    assert Joins(graph, path + [c], a, c);
  }

  lemma ReachableStep(graph: Graph, roots: seq<nat>, n: nat, d: nat)
    requires Reachable(graph, roots, n) && n in graph && d in graph && d in graph[n]
    ensures Reachable(graph, roots, d)
  {
    if n in roots {
      var i :| 0 <= i < |roots| && roots[i] == n;
      OneStep(graph, n, d);
    } else {
      var i :| 0 <= i < |roots| && Reaches(graph, roots[i], n);
      Longer(graph, roots[i], n, d);
    }
  }

  // ----- dependency-first orders -----

  predicate Distinct(topo: seq<nat>) {
    forall i, j :: 0 <= i < j < |topo| ==> topo[i] != topo[j]
  }

  /** All dependencies of the node at i come before it. */
  predicate DependsBefore(graph: Graph, topo: seq<nat>, i: nat)
    requires i < |topo|
  {
    topo[i] in graph && forall d :: d in graph[topo[i]] ==> d in topo[..i]
  }

  predicate DependencyFirst(graph: Graph, topo: seq<nat>) {
    Distinct(topo) && forall i :: 0 <= i < |topo| ==> DependsBefore(graph, topo, i)
  }

  /** In such an order, what a node reaches comes strictly before it. */
  lemma {:induction false} ReachedComesBefore(graph: Graph, topo: seq<nat>, path: seq<nat>, a: nat, b: nat, i: nat)
    requires DependencyFirst(graph, topo) && Joins(graph, path, a, b) && i < |topo| && topo[i] == a
    ensures b in topo[..i]
    decreases |path|
  {
    assert DependsBefore(graph, topo, i);
    assert path[1] in graph[path[0]];
    if |path| > 2 {
      var j :| 0 <= j < i && topo[j] == path[1];
      assert Joins(graph, path[1..], path[1], b);
      ReachedComesBefore(graph, topo, path[1..], path[1], b, j);
      assert topo[..j] <= topo[..i];
    }
  }

  lemma OrderedHasNoCycle(graph: Graph, topo: seq<nat>, n: nat)
    requires DependencyFirst(graph, topo) && n in topo
    ensures !Reaches(graph, n, n)
  {
    var i :| 0 <= i < |topo| && topo[i] == n;
    forall path ensures !Joins(graph, path, n, n) {
      if Joins(graph, path, n, n) { ReachedComesBefore(graph, topo, path, n, n, i); }
    }
  }

  // ----- the explicit-stack traversal -----

  datatype Entry = Entry(node: nat, processed: bool)

  /** The dependencies not visited yet, last one first, ready to be pushed. */
  function Pushed(dependencies: seq<nat>, visited: set<nat>): (r: seq<Entry>)
    ensures forall i :: 0 <= i < |r| ==> !r[i].processed && r[i].node in dependencies
    ensures forall d :: d in dependencies && d !in visited ==> Entry(d, false) in r
  {
    if dependencies == [] then [] else
    var rest := Pushed(dependencies[1..], visited);
    assert dependencies == [dependencies[0]] + dependencies[1..];
    if dependencies[0] in visited then rest else rest + [Entry(dependencies[0], false)]
  }

  function RootEntries(roots: seq<nat>): (r: seq<Entry>)
    ensures |r| == |roots| && forall i :: 0 <= i < |r| ==> r[i] == Entry(roots[|roots| - 1 - i], false)
  {
    seq(|roots|, i requires 0 <= i < |roots| => Entry(roots[|roots| - 1 - i], false))
  }

  /** Dependency d of the marker at p is visited or still has an entry above it. */
  predicate Pending(stack: seq<Entry>, visited: set<nat>, p: nat, d: nat) {
    d in visited || exists q :: p < q < |stack| && stack[q].node == d
  }

  predicate RootPending(stack: seq<Entry>, visited: set<nat>, root: nat) {
    root in visited || exists q :: 0 <= q < |stack| && stack[q].node == root
  }

  /** Entries above a marker are reached from its node. */
  ghost predicate AboveMarkers(graph: Graph, stack: seq<Entry>) {
    forall p, q :: 0 <= p < q < |stack| && stack[p].processed ==> Reaches(graph, stack[p].node, stack[q].node)
  }

  /** Active nodes are those with a marker, and their dependencies are all taken care of. */
  ghost predicate Markers(graph: Graph, stack: seq<Entry>, active: set<nat>, visited: set<nat>) {
    && (forall n :: n in active ==> Entry(n, true) in stack)
    && (forall p :: 0 <= p < |stack| && stack[p].processed ==> stack[p].node in active)
    && (forall p, q :: 0 <= p < q < |stack| && stack[p].processed && stack[q].processed ==>
      stack[p].node != stack[q].node)
    && (forall p, d :: 0 <= p < |stack| && stack[p].processed && stack[p].node in graph && d in graph[stack[p].node] ==>
          Pending(stack, visited, p, d))
  }

  ghost predicate Known(graph: Graph, roots: seq<nat>, stack: seq<Entry>) {
    forall q :: 0 <= q < |stack| ==> stack[q].node in graph && Reachable(graph, roots, stack[q].node)
  }

  /** The finished part: an order of reachable nodes, with nothing that is still active. */
  ghost predicate Finished(graph: Graph, roots: seq<nat>, topo: seq<nat>, visited: set<nat>, active: set<nat>) {
    && DependencyFirst(graph, topo)
    && (forall n :: n in visited <==> n in topo)
    && (forall n :: n in topo ==> Reachable(graph, roots, n))
    && active !! visited
    && (forall n :: n in active ==> n in graph)
  }

  ghost predicate Traversing(graph: Graph, roots: seq<nat>, stack: seq<Entry>, topo: seq<nat>, visited: set<nat>,
      active: set<nat>) {
    && Finished(graph, roots, topo, visited, active)
    && Known(graph, roots, stack) && AboveMarkers(graph, stack) && Markers(graph, stack, active, visited)
    && (forall i :: 0 <= i < |roots| ==> RootPending(stack, visited, roots[i]))
  }

  /** Popping an entry whose node is visited. */
  lemma SkipKeeps(graph: Graph, roots: seq<nat>, stack: seq<Entry>, topo: seq<nat>, visited: set<nat>, active: set<nat>)
    requires Traversing(graph, roots, stack, topo, visited, active) && stack != [] && stack[|stack| - 1].node in visited
    ensures Traversing(graph, roots, stack[..|stack| - 1], topo, visited, active)
  {
    var rest, top := stack[..|stack| - 1], stack[|stack| - 1];
    assert stack == rest + [top];
    assert !top.processed;
    forall p: nat, d | p < |rest| && rest[p].processed && rest[p].node in graph && d in graph[rest[p].node]
      ensures Pending(rest, visited, p, d)
    {
      assert Pending(stack, visited, p, d);
    }
    forall i | 0 <= i < |roots|
      ensures RootPending(rest, visited, roots[i])
    {
      assert RootPending(stack, visited, roots[i]);
    }
  }

  /** Popping a marker: its dependencies are all visited, so its node may follow them. */
  lemma FinishKeeps(graph: Graph, roots: seq<nat>, stack: seq<Entry>, topo: seq<nat>, visited: set<nat>,
      active: set<nat>)
    requires Closed(graph, roots) && Traversing(graph, roots, stack, topo, visited, active)
    requires stack != [] && stack[|stack| - 1].processed
    ensures var n := stack[|stack| - 1].node;
      n in active && Traversing(graph, roots, stack[..|stack| - 1], topo + [n], visited + {n}, active - {n})
  {
    var rest, n := stack[..|stack| - 1], stack[|stack| - 1].node;
    assert stack == rest + [Entry(n, true)];
    FinishOrder(graph, roots, stack, topo, visited, active);
    forall p: nat, d | p < |rest| && rest[p].processed && rest[p].node in graph && d in graph[rest[p].node]
      ensures Pending(rest, visited + {n}, p, d)
    {
      assert Pending(stack, visited, p, d);
    }
    forall i | 0 <= i < |roots|
      ensures RootPending(rest, visited + {n}, roots[i])
    {
      assert RootPending(stack, visited, roots[i]);
    }
    forall m | m in active - {n} ensures Entry(m, true) in rest { assert Entry(m, true) in stack; }
  }

  lemma FinishOrder(graph: Graph, roots: seq<nat>, stack: seq<Entry>, topo: seq<nat>, visited: set<nat>,
      active: set<nat>)
    requires Traversing(graph, roots, stack, topo, visited, active) && stack != [] && stack[|stack| - 1].processed
    ensures var n := stack[|stack| - 1].node;
      n in active && Finished(graph, roots, topo + [n], visited + {n}, active - {n})
  {
    var top := |stack| - 1;
    var n := stack[top].node;
    var next := topo + [n];
    forall i | 0 <= i < |next| ensures DependsBefore(graph, next, i) {
      if i < |topo| {
        assert DependsBefore(graph, topo, i) && next[..i] == topo[..i];
      } else {
        forall d | d in graph[n] ensures d in next[..i] { assert Pending(stack, visited, top, d); }
        assert next[..i] == topo;
      }
    }
  }

  /** Popping a new node: a marker and its unvisited dependencies go on the stack. */
  lemma EnterKeeps(graph: Graph, roots: seq<nat>, stack: seq<Entry>, topo: seq<nat>, visited: set<nat>,
      active: set<nat>)
    requires Closed(graph, roots) && Traversing(graph, roots, stack, topo, visited, active) && stack != []
    requires var top := stack[|stack| - 1]; !top.processed && top.node !in visited && top.node !in active
    ensures stack[|stack| - 1].node in graph
    ensures var n := stack[|stack| - 1].node;
      Traversing(graph, roots, stack[..|stack| - 1] + [Entry(n, true)] + Pushed(graph[n], visited), topo, visited,
        active + {n})
  {
    var rest, n := stack[..|stack| - 1], stack[|stack| - 1].node;
    var pushed := Pushed(graph[n], visited);
    var next := rest + [Entry(n, true)] + pushed;
    EnterKnown(graph, roots, stack, rest, n, pushed, next);
    EnterMarkers(graph, stack, rest, n, pushed, next, visited, active);
    forall i | 0 <= i < |roots| ensures RootPending(next, visited, roots[i]) {
      assert RootPending(stack, visited, roots[i]);
      if roots[i] !in visited {
        var q :| 0 <= q < |stack| && stack[q].node == roots[i];
        assert next[q].node == roots[i];
      }
    }
  }

  lemma EnterKnown(graph: Graph, roots: seq<nat>, stack: seq<Entry>, rest: seq<Entry>, n: nat, pushed: seq<Entry>,
      next: seq<Entry>)
    requires Closed(graph, roots) && Known(graph, roots, stack) && AboveMarkers(graph, stack)
      && stack == rest + [Entry(n, false)]
    requires next == rest + [Entry(n, true)] + pushed && n in graph
    requires forall i :: 0 <= i < |pushed| ==> !pushed[i].processed && pushed[i].node in graph[n]
    ensures Known(graph, roots, next) && AboveMarkers(graph, next)
  {
    forall q | 0 <= q < |next| ensures next[q].node in graph && Reachable(graph, roots, next[q].node) {
      assert Reachable(graph, roots, stack[|rest|].node);
      if q < |rest| { assert next[q] == stack[q]; }
      if q > |rest| { ReachableStep(graph, roots, n, next[q].node); }
    }
    forall p, q | 0 <= p < q < |next| && next[p].processed ensures Reaches(graph, next[p].node, next[q].node) {
      if q <= |rest| {
        assert next[p] == stack[p] && next[q].node == stack[q].node;
      } else if p < |rest| {
        assert Reaches(graph, stack[p].node, stack[|rest|].node);
        Longer(graph, next[p].node, n, next[q].node);
      } else {
        OneStep(graph, n, next[q].node);
      }
    }
  }

  lemma PushedUnprocessed(rest: seq<Entry>, n: nat, pushed: seq<Entry>, next: seq<Entry>, p: nat)
    requires next == rest + [Entry(n, true)] + pushed && p < |next|
    requires forall i :: 0 <= i < |pushed| ==> !pushed[i].processed
    ensures p > |rest| ==> !next[p].processed
  {
    if p > |rest| { assert next[p] == pushed[p - |rest| - 1]; }
  }

  lemma EnterMarkers(graph: Graph, stack: seq<Entry>, rest: seq<Entry>, n: nat, pushed: seq<Entry>, next: seq<Entry>,
    visited: set<nat>, active: set<nat>)
    requires Markers(graph, stack, active, visited) && stack == rest + [Entry(n, false)] && n !in active
    requires next == rest + [Entry(n, true)] + pushed && n in graph && pushed == Pushed(graph[n], visited)
    ensures Markers(graph, next, active + {n}, visited)
  {
    forall m | m in active + {n} ensures Entry(m, true) in next {
      if m != n {
        assert Entry(m, true) in stack;
        assert Entry(m, true) in rest;
      } else {
        assert next[|rest|] == Entry(n, true);
      }
    }
    forall p | 0 <= p < |next| && next[p].processed
      ensures p <= |rest| && (p < |rest| ==> next[p] == stack[p] && next[p].node in active)
    {
      PushedUnprocessed(rest, n, pushed, next, p);
    }
    forall p: nat, d | p < |next| && next[p].processed && next[p].node in graph && d in graph[next[p].node]
      ensures Pending(next, visited, p, d)
    {
      if p == |rest| {
        if d !in visited {
          var i :| 0 <= i < |pushed| && pushed[i] == Entry(d, false);
          assert next[|rest| + 1 + i].node == d;
        }
      } else {
        assert Pending(stack, visited, p, d);
        if d !in visited {
          var q :| p < q < |stack| && stack[q].node == d;
          assert next[q].node == d;
        }
      }
    }
  }

  /** Meeting an active node again means it reaches itself. */
  lemma ActiveMeansCycle(graph: Graph, roots: seq<nat>, stack: seq<Entry>, topo: seq<nat>, visited: set<nat>,
      active: set<nat>)
    requires Traversing(graph, roots, stack, topo, visited, active) && stack != []
    requires var top := stack[|stack| - 1]; !top.processed && top.node in active
    ensures ReachableCycle(graph, roots)
  {
    var n := stack[|stack| - 1].node;
    var p :| 0 <= p < |stack| && stack[p] == Entry(n, true);
    assert Reaches(graph, stack[p].node, stack[|stack| - 1].node);
    assert Reachable(graph, roots, n);
  }

  datatype TopoResult = Sorted(topo: seq<nat>) | Cycle

  /** The order lists exactly the reachable nodes, each once, dependencies first. */
  ghost predicate IsOrder(graph: Graph, roots: seq<nat>, topo: seq<nat>) {
    DependencyFirst(graph, topo) && forall n :: n in topo <==> Reachable(graph, roots, n)
  }

  lemma {:induction false} ClosedUnderReach(graph: Graph, roots: seq<nat>, topo: seq<nat>, path: seq<nat>, a: nat,
      b: nat)
    requires DependencyFirst(graph, topo) && Joins(graph, path, a, b) && a in topo
    ensures b in topo
  {
    var i :| 0 <= i < |topo| && topo[i] == a;
    ReachedComesBefore(graph, topo, path, a, b, i);
  }

  lemma DoneIsOrder(graph: Graph, roots: seq<nat>, topo: seq<nat>, visited: set<nat>, active: set<nat>)
    requires Traversing(graph, roots, [], topo, visited, active)
    ensures IsOrder(graph, roots, topo)
  {
    forall n | Reachable(graph, roots, n) ensures n in topo {
      if n in roots {
        var i :| 0 <= i < |roots| && roots[i] == n;
        assert RootPending([], visited, roots[i]);
      } else {
        var i :| 0 <= i < |roots| && Reaches(graph, roots[i], n);
        assert RootPending([], visited, roots[i]);
        var path :| Joins(graph, path, roots[i], n);
        ClosedUnderReach(graph, roots, topo, path, roots[i], n);
      }
    }
  }

  /** An order and a reachable cycle exclude each other. */
  lemma OrderExcludesCycle(graph: Graph, roots: seq<nat>, topo: seq<nat>)
    requires IsOrder(graph, roots, topo)
    ensures !ReachableCycle(graph, roots)
  {
    forall n | Reachable(graph, roots, n) ensures !Reaches(graph, n, n) { OrderedHasNoCycle(graph, topo, n); }
  }

  // ----- which order it is -----

  /** The place of a node in an order. */
  function IndexOf(order: seq<nat>, n: nat): (r: nat)
    requires n in order
    ensures r < |order| && order[r] == n
  {
    if order[0] == n then 0 else 1 + IndexOf(order[1..], n)
  }

  lemma IndexUnique(order: seq<nat>, i: nat)
    requires Distinct(order) && i < |order|
    ensures IndexOf(order, order[i]) == i
  {
  }

  lemma DependencyBelow(graph: Graph, order: seq<nat>, n: nat, d: nat)
    requires DependencyFirst(graph, order) && n in order && n in graph && d in graph[n]
    ensures d in order && IndexOf(order, d) < IndexOf(order, n)
  {
    var i := IndexOf(order, n);
    assert DependsBefore(graph, order, i);
    var j :| 0 <= j < i && order[..i][j] == d;
    IndexUnique(order, j);
  }

  /** Nodes that stand in the order below the bound. */
  predicate StandBelow(order: seq<nat>, ds: seq<nat>, bound: nat) {
    forall i :: 0 <= i < |ds| ==> ds[i] in order && IndexOf(order, ds[i]) < bound
  }

  lemma DependenciesBelow(graph: Graph, order: seq<nat>, n: nat)
    requires DependencyFirst(graph, order) && n in order
    ensures n in graph && StandBelow(order, graph[n], IndexOf(order, n))
  {
    assert DependsBefore(graph, order, IndexOf(order, n));
    forall i | 0 <= i < |graph[n]| ensures graph[n][i] in order && IndexOf(order, graph[n][i]) < IndexOf(order, n) {
      DependencyBelow(graph, order, n, graph[n][i]);
    }
  }

  /** Depth first: a node not done yet comes after all that its dependencies add, taken in their order. The order given
      is any dependency-first one; it only shows that this ends. */
  function Visit(graph: Graph, n: nat, done: seq<nat>, order: seq<nat>): seq<nat>
    requires DependencyFirst(graph, order) && n in order
    decreases IndexOf(order, n) + 1, 0
  {
    if n in done then done else
    DependenciesBelow(graph, order, n);
    VisitAll(graph, graph[n], done, order, IndexOf(order, n)) + [n]
  }

  function VisitAll(graph: Graph, ds: seq<nat>, done: seq<nat>, order: seq<nat>, bound: nat): seq<nat>
    requires DependencyFirst(graph, order) && StandBelow(order, ds, bound)
    decreases bound, |ds| + 1
  {
    if ds == [] then done else VisitAll(graph, ds[1..], Visit(graph, ds[0], done, order), order, bound)
  }

  /** A dependency-first order that has all roots. */
  ghost predicate Covers(graph: Graph, order: seq<nat>, roots: seq<nat>) {
    DependencyFirst(graph, order) && StandBelow(order, roots, |order|)
  }

  ghost predicate StackIn(order: seq<nat>, stack: seq<Entry>) {
    forall q :: 0 <= q < |stack| ==> stack[q].node in order
  }

  /** What a stack still adds. */
  ghost function Resume(graph: Graph, stack: seq<Entry>, done: seq<nat>, order: seq<nat>): seq<nat>
    requires DependencyFirst(graph, order) && StackIn(order, stack)
    decreases |stack|
  {
    if stack == [] then done else
    var rest, top := stack[..|stack| - 1], stack[|stack| - 1];
    Resume(graph, rest,
      if top.node in done then done
      else if top.processed then done + [top.node]
      else Visit(graph, top.node, done, order),
      order)
  }

  lemma {:induction false} VisitAdds(graph: Graph, n: nat, done: seq<nat>, order: seq<nat>, x: nat)
    requires DependencyFirst(graph, order) && n in order
    ensures x in done ==> x in Visit(graph, n, done, order)
    ensures x in Visit(graph, n, done, order) ==> x in done || (x in order && IndexOf(order, x) <= IndexOf(order, n))
    decreases IndexOf(order, n) + 1, 0
  {
    if n !in done {
      DependenciesBelow(graph, order, n);
      VisitAllAdds(graph, graph[n], done, order, IndexOf(order, n), x);
    }
  }

  lemma {:induction false} VisitAllAdds(
    graph: Graph, ds: seq<nat>, done: seq<nat>, order: seq<nat>, bound: nat, x: nat)
    requires DependencyFirst(graph, order) && StandBelow(order, ds, bound)
    ensures x in done ==> x in VisitAll(graph, ds, done, order, bound)
    ensures x in VisitAll(graph, ds, done, order, bound) ==> x in done || (x in order && IndexOf(order, x) < bound)
    decreases bound, |ds| + 1
  {
    if ds != [] {
      VisitAdds(graph, ds[0], done, order, x);
      VisitAllAdds(graph, ds[1..], Visit(graph, ds[0], done, order), order, bound, x);
    }
  }

  /** Pushing what is not visited, last one first, resumes as visiting everything in order. */
  lemma {:induction false} ResumePushed(graph: Graph, base: seq<Entry>, ds: seq<nat>, visited: set<nat>, done: seq<nat>,
    order: seq<nat>, bound: nat)
    requires DependencyFirst(graph, order) && StandBelow(order, ds, bound) && StackIn(order, base)
    requires forall x :: x in visited ==> x in done
    ensures StackIn(order, base + Pushed(ds, visited))
    ensures Resume(graph, base + Pushed(ds, visited), done, order)
      == Resume(graph, base, VisitAll(graph, ds, done, order, bound), order)
    decreases |ds|
  {
    if ds == [] {
      assert base + [] == base;
    } else {
      var next := Visit(graph, ds[0], done, order);
      forall x | x in visited ensures x in next { VisitAdds(graph, ds[0], done, order, x); }
      ResumePushed(graph, base, ds[1..], visited, next, order, bound);
      PushOne(graph, base, ds, visited, done, order);
    }
  }

  /** The first dependency is pushed last, and so visited first. */
  lemma PushOne(graph: Graph, base: seq<Entry>, ds: seq<nat>, visited: set<nat>, done: seq<nat>, order: seq<nat>)
    requires DependencyFirst(graph, order) && ds != [] && ds[0] in order
      && StackIn(order, base + Pushed(ds[1..], visited))
    requires forall x :: x in visited ==> x in done
    ensures StackIn(order, base + Pushed(ds, visited))
    ensures Resume(graph, base + Pushed(ds, visited), done, order)
      == Resume(graph, base + Pushed(ds[1..], visited), Visit(graph, ds[0], done, order), order)
  {
    var rest := Pushed(ds[1..], visited);
    if ds[0] !in visited {
      ResumeTop(graph, base + rest, Entry(ds[0], false), done, order);
      assert base + Pushed(ds, visited) == base + rest + [Entry(ds[0], false)];
    }
  }

  lemma ResumeTop(graph: Graph, rest: seq<Entry>, top: Entry, done: seq<nat>, order: seq<nat>)
    requires DependencyFirst(graph, order) && StackIn(order, rest) && top.node in order
    ensures StackIn(order, rest + [top])
    ensures Resume(graph, rest + [top], done, order) == Resume(graph, rest,
      if top.node in done then done
      else if top.processed then done + [top.node]
      else Visit(graph, top.node, done, order),
      order)
  {
    var stack := rest + [top];
    assert stack[..|stack| - 1] == rest && stack[|stack| - 1] == top;
  }

  /** Entering a node changes nothing about what the stack still adds. */
  lemma EnterResumes(graph: Graph, rest: seq<Entry>, n: nat, visited: set<nat>, done: seq<nat>, order: seq<nat>)
    requires DependencyFirst(graph, order) && StackIn(order, rest) && n in order && n in graph && n !in done
    requires forall x :: x in visited <==> x in done
    ensures StackIn(order, rest + [Entry(n, false)])
    ensures StackIn(order, rest + [Entry(n, true)] + Pushed(graph[n], visited))
    ensures Resume(graph, rest + [Entry(n, true)] + Pushed(graph[n], visited), done, order)
      == Resume(graph, rest + [Entry(n, false)], done, order)
  {
    var bound := IndexOf(order, n);
    DependenciesBelow(graph, order, n);
    ResumeTop(graph, rest, Entry(n, false), done, order);
    ResumePushed(graph, rest + [Entry(n, true)], graph[n], visited, done, order, bound);
    var grown := VisitAll(graph, graph[n], done, order, bound);
    VisitAllAdds(graph, graph[n], done, order, bound, n);
    ResumeTop(graph, rest, Entry(n, true), grown, order);
  }

  /** Every order that could have come out makes the stack resume to the same depth-first list. */
  ghost predicate ResumesAlike(graph: Graph, roots: seq<nat>, stack: seq<Entry>, topo: seq<nat>) {
    forall order :: Covers(graph, order, roots) ==>
      StackIn(order, stack)
      && Resume(graph, stack, topo, order) == VisitAll(graph, roots, [], order, |order|)
  }

  lemma StartResumes(graph: Graph, roots: seq<nat>)
    ensures ResumesAlike(graph, roots, RootEntries(roots), [])
  {
    RootsArePushed(roots);
    forall order | Covers(graph, order, roots)
      ensures StackIn(order, RootEntries(roots))
      ensures Resume(graph, RootEntries(roots), [], order) == VisitAll(graph, roots, [], order, |order|)
    {
      ResumePushed(graph, [], roots, {}, [], order, |order|);
      assert [] + Pushed(roots, {}) == Pushed(roots, {});
    }
  }

  lemma {:induction false} RootsArePushed(roots: seq<nat>)
    ensures Pushed(roots, {}) == RootEntries(roots)
    decreases |roots|
  {
    if roots != [] {
      RootsArePushed(roots[1..]);
      assert RootEntries(roots) == RootEntries(roots[1..]) + [Entry(roots[0], false)];
    }
  }

  /** Popping a finished or visited entry. */
  lemma PopResumes(graph: Graph, roots: seq<nat>, stack: seq<Entry>, topo: seq<nat>)
    requires ResumesAlike(graph, roots, stack, topo) && stack != []
    requires stack[|stack| - 1].node in topo || stack[|stack| - 1].processed
    ensures var top := stack[|stack| - 1];
      ResumesAlike(graph, roots, stack[..|stack| - 1], if top.node in topo then topo else topo + [top.node])
  {
  }

  lemma PushResumes(graph: Graph, roots: seq<nat>, stack: seq<Entry>, topo: seq<nat>, visited: set<nat>)
    requires ResumesAlike(graph, roots, stack, topo) && stack != [] && !stack[|stack| - 1].processed
    requires stack[|stack| - 1].node in graph && stack[|stack| - 1].node !in topo
    requires forall x :: x in visited <==> x in topo
    ensures var n := stack[|stack| - 1].node;
      ResumesAlike(graph, roots, stack[..|stack| - 1] + [Entry(n, true)] + Pushed(graph[n], visited), topo)
  {
    var rest, n := stack[..|stack| - 1], stack[|stack| - 1].node;
    var next := rest + [Entry(n, true)] + Pushed(graph[n], visited);
    assert stack == rest + [Entry(n, false)];
    forall order | Covers(graph, order, roots)
      ensures StackIn(order, next)
      ensures Resume(graph, next, topo, order) == VisitAll(graph, roots, [], order, |order|)
    {
      assert StackIn(order, stack) && stack[|stack| - 1].node in order;
      EnterResumes(graph, rest, n, visited, topo, order);
    }
  }

  method CanonicalToposort(graph: Graph, roots: seq<nat>) returns (r: TopoResult)
    requires Closed(graph, roots)
    ensures r.Cycle? <==> ReachableCycle(graph, roots)
    ensures r.Sorted? ==> IsOrder(graph, roots, r.topo)
    ensures r.Sorted? ==> Covers(graph, r.topo, roots)
    ensures r.Sorted? ==> forall order :: Covers(graph, order, roots) ==>
      r.topo == VisitAll(graph, roots, [], order, |order|)
  {
    var topo, visited, active: set<nat> := [], {}, {};
    var stack := RootEntries(roots);
    StartTraversing(graph, roots);
    StartResumes(graph, roots);
    while stack != []
      invariant ResumesAlike(graph, roots, stack, topo)
      invariant Traversing(graph, roots, stack, topo, visited, active)
      decreases Unseen(graph, active, visited), |stack|
    {
      var top := stack[|stack| - 1];
      if top.node in visited {
        SkipKeeps(graph, roots, stack, topo, visited, active);
        PopResumes(graph, roots, stack, topo);
        stack := stack[..|stack| - 1];
      } else if top.processed {
        FinishKeeps(graph, roots, stack, topo, visited, active);
        FinishedSeen(graph, active, visited, top.node);
        PopResumes(graph, roots, stack, topo);
        active, visited, topo := active - {top.node}, visited + {top.node}, topo + [top.node];
        stack := stack[..|stack| - 1];
      } else if top.node in active {
        ActiveMeansCycle(graph, roots, stack, topo, visited, active);
        return Cycle;
      } else {
        EnterKeeps(graph, roots, stack, topo, visited, active);
        EnteredSeen(graph, active, visited, top.node);
        PushResumes(graph, roots, stack, topo, visited);
        stack := stack[..|stack| - 1] + [Entry(top.node, true)] + Pushed(graph[top.node], visited);
        active := active + {top.node};
      }
    }
    DoneIsOrder(graph, roots, topo, visited, active);
    OrderExcludesCycle(graph, roots, topo);
    assert forall i :: 0 <= i < |roots| ==> roots[i] in topo;
    r := Sorted(topo);
  }

  /** How many nodes the traversal has not met. */
  function Unseen(graph: Graph, active: set<nat>, visited: set<nat>): nat {
    |graph.Keys - (active + visited)|
  }

  lemma FinishedSeen(graph: Graph, active: set<nat>, visited: set<nat>, n: nat)
    requires n in active
    ensures Unseen(graph, active - {n}, visited + {n}) == Unseen(graph, active, visited)
  {
    assert active + visited == (active - {n}) + (visited + {n});
  }

  lemma EnteredSeen(graph: Graph, active: set<nat>, visited: set<nat>, n: nat)
    requires n in graph && n !in active && n !in visited
    ensures Unseen(graph, active + {n}, visited) < Unseen(graph, active, visited)
  {
    assert graph.Keys - ((active + {n}) + visited) == graph.Keys - (active + visited) - {n};
  }

  lemma StartTraversing(graph: Graph, roots: seq<nat>)
    requires Closed(graph, roots)
    ensures Traversing(graph, roots, RootEntries(roots), [], {}, {})
  {
    var stack := RootEntries(roots);
    forall i | 0 <= i < |roots|
      ensures RootPending(stack, {}, roots[i])
    {
      assert stack[|roots| - 1 - i].node == roots[i];
    }
  }

  // ----- the table and its checker -----

  datatype Row = Row(id: nat, refs: seq<nat>)

  datatype Table = Table(rows: seq<Row>, roots: seq<nat>)

  predicate AllListed(topo: seq<nat>, nodes: seq<nat>) {
    forall i :: 0 <= i < |nodes| ==> nodes[i] in topo
  }

  function IdsOf(topo: seq<nat>, nodes: seq<nat>): (r: seq<nat>)
    requires AllListed(topo, nodes)
    ensures |r| == |nodes| && forall i :: 0 <= i < |r| ==> r[i] < |topo| && topo[r[i]] == nodes[i]
  {
    seq(|nodes|, i requires 0 <= i < |nodes| => IndexOf(topo, nodes[i]))
  }

  /** Rows numbered by position, whose references number the dependencies. */
  ghost predicate Describes(graph: Graph, roots: seq<nat>, topo: seq<nat>, table: Table) {
    && |table.rows| == |topo|
    && (forall k :: 0 <= k < |topo| ==>
      topo[k] in graph && AllListed(topo, graph[topo[k]])
      && table.rows[k] == Row(k, IdsOf(topo, graph[topo[k]])))
    && AllListed(topo, roots) && table.roots == IdsOf(topo, roots)
  }

  datatype GraphResult = Serialized(table: Table) | CyclicGraph

  method CanonicalGraph(graph: Graph, roots: seq<nat>) returns (r: GraphResult)
    requires Closed(graph, roots)
    ensures r.CyclicGraph? <==> ReachableCycle(graph, roots)
    ensures r.Serialized? ==> exists topo :: IsOrder(graph, roots, topo) && Describes(graph, roots, topo, r.table)
  {
    var sorted := CanonicalToposort(graph, roots);
    if sorted.Cycle? { return CyclicGraph; }
    var topo := sorted.topo;
    forall n | n in topo ensures n in graph && AllListed(topo, graph[n]) { OrderedIsClosed(graph, topo, n); }
    RootsListed(graph, roots, topo);
    var rows := [];
    for k := 0 to |topo|
      invariant |rows| == k && forall j :: 0 <= j < k ==> rows[j] == Row(j, IdsOf(topo, graph[topo[j]]))
    {
      rows := rows + [Row(k, IdsOf(topo, graph[topo[k]]))];
    }
    r := Serialized(Table(rows, IdsOf(topo, roots)));
    assert Describes(graph, roots, topo, r.table);
  }

  lemma OrderedIsClosed(graph: Graph, topo: seq<nat>, n: nat)
    requires DependencyFirst(graph, topo) && n in topo
    ensures n in graph && AllListed(topo, graph[n])
  {
    var k :| 0 <= k < |topo| && topo[k] == n;
    assert DependsBefore(graph, topo, k);
    forall i | 0 <= i < |graph[n]| ensures graph[n][i] in topo { assert graph[n][i] in topo[..k]; }
  }

  lemma RootsListed(graph: Graph, roots: seq<nat>, topo: seq<nat>)
    requires IsOrder(graph, roots, topo)
    ensures AllListed(topo, roots)
  {
    forall i | 0 <= i < |roots| ensures roots[i] in topo { assert Reachable(graph, roots, roots[i]); }
  }

  datatype CheckResult = Accepted | DuplicateId | NotDense | MissingReference | NotDependencyFirst | MissingRoot

  /** Row ids are 0..N-1 in some order, references go to smaller ids, and roots exist. */
  ghost predicate Acceptable(table: Table) {
    && GoodIds(table)
    && (forall i :: 0 <= i < |table.rows| ==> GoodRefs(table.rows[i]))
    && (forall i :: 0 <= i < |table.roots| ==> table.roots[i] < |table.rows|)
  }

  predicate GoodRefs(row: Row) {
    forall k :: 0 <= k < |row.refs| ==> row.refs[k] < row.id
  }

  /** A row with a bad reference, after rows without any; the first bad one says which fault is reported. */
  ghost predicate FirstFault(table: Table, r: CheckResult, i: nat, k: nat)
  {
    && i < |table.rows| && k < |table.rows[i].refs|
    && (forall j :: 0 <= j < i ==> GoodRefs(table.rows[j]))
    && (forall j :: 0 <= j < k ==> table.rows[i].refs[j] < table.rows[i].id)
    && var ref := table.rows[i].refs[k];
    && (r.MissingReference? ==> ref >= |table.rows|)
    && (r.NotDependencyFirst? ==> table.rows[i].id <= ref < |table.rows|)
  }

  ghost predicate AllRefsGood(table: Table) {
    forall i :: 0 <= i < |table.rows| ==> GoodRefs(table.rows[i])
  }

  method ValidateGraph(table: Table) returns (r: CheckResult)
    ensures r.Accepted? <==> Acceptable(table)
    ensures r.DuplicateId? <==> !UniqueIds(table.rows)
    ensures r.NotDense? <==> UniqueIds(table.rows) && !IdsWithin(table.rows, |table.rows|)
    ensures r.MissingReference? || r.NotDependencyFirst? ==> GoodIds(table) && exists i, k :: FirstFault(table, r, i, k)
    ensures r.MissingRoot? <==>
      GoodIds(table) && AllRefsGood(table) && exists i :: 0 <= i < |table.roots| && table.roots[i] >= |table.rows|
  {
    r := CheckIds(table);
    if r != Accepted { return; }
    var n := |table.rows|;
    for i := 0 to n
      invariant forall j :: 0 <= j < i ==> GoodRefs(table.rows[j])
    {
      ghost var k;
      r, k := CheckRefs(table.rows[i], n);
      if r != Accepted {
        assert FirstFault(table, r, i, k);
        return;
      }
    }
    for i := 0 to |table.roots|
      invariant forall j :: 0 <= j < i ==> table.roots[j] < n
    {
      if table.roots[i] !in Below(n) { return MissingRoot; }
    }
    r := Accepted;
  }

  predicate UniqueIds(rows: seq<Row>) {
    forall i, j :: 0 <= i < j < |rows| ==> rows[i].id != rows[j].id
  }

  predicate IdsWithin(rows: seq<Row>, n: nat) {
    forall i :: 0 <= i < |rows| ==> rows[i].id < n
  }

  /** Ids are distinct and dense. */
  ghost predicate GoodIds(table: Table) {
    UniqueIds(table.rows) && IdsWithin(table.rows, |table.rows|)
  }

  function IdSet(rows: seq<Row>): (r: set<nat>)
    ensures forall i :: 0 <= i < |rows| ==> rows[i].id in r
  {
    if rows == [] then {} else
    assert forall i :: 0 <= i < |rows| - 1 ==> rows[..|rows| - 1][i] == rows[i];
    IdSet(rows[..|rows| - 1]) + {rows[|rows| - 1].id}
  }

  lemma {:induction false} IdSetMembers(rows: seq<Row>, n: nat)
    ensures IdsWithin(rows, n) <==> IdSet(rows) <= Below(n)
  {
    if rows != [] {
      var last := rows[|rows| - 1];
      assert rows == rows[..|rows| - 1] + [last];
      IdSetMembers(rows[..|rows| - 1], n);
    }
  }

  lemma {:induction false} IdSetNew(rows: seq<Row>, id: nat)
    ensures id !in IdSet(rows) <==> forall i :: 0 <= i < |rows| ==> rows[i].id != id
  {
    if rows != [] {
      assert rows == rows[..|rows| - 1] + [rows[|rows| - 1]];
      IdSetNew(rows[..|rows| - 1], id);
    }
  }

  lemma NextId(rows: seq<Row>, i: nat)
    requires i < |rows| && UniqueIds(rows[..i])
    ensures IdSet(rows[..i + 1]) == IdSet(rows[..i]) + {rows[i].id}
    ensures if rows[i].id in IdSet(rows[..i]) then !UniqueIds(rows) else UniqueIds(rows[..i + 1])
  {
    IdSetNew(rows[..i], rows[i].id);
    assert rows[..i + 1][..i] == rows[..i];
  }

  /** N distinct ids are dense exactly when all lie below N. */
  lemma DenseIds(rows: seq<Row>)
    requires |IdSet(rows)| == |rows|
    ensures IdSet(rows) == Below(|rows|) <==> IdsWithin(rows, |rows|)
  {
    IdSetMembers(rows, |rows|);
    if IdSet(rows) <= Below(|rows|) { SubsetOfSameSize(IdSet(rows), Below(|rows|)); }
  }

  method CheckIds(table: Table) returns (r: CheckResult)
    ensures r == Accepted || r == DuplicateId || r == NotDense
    ensures r.Accepted? <==> GoodIds(table)
    ensures r.DuplicateId? <==> !UniqueIds(table.rows)
  {
    var rows, ids: set<nat> := table.rows, {};
    for i := 0 to |rows|
      invariant ids == IdSet(rows[..i]) && UniqueIds(rows[..i]) && |ids| == i
    {
      NextId(rows, i);
      if rows[i].id in ids { return DuplicateId; }
      ids := ids + {rows[i].id};
    }
    assert rows[..|rows|] == rows;
    DenseIds(rows);
    r := if ids != Below(|rows|) then NotDense else Accepted;
  }

  /** With dense ids, a reference to a row is a number below the row count. */
  method CheckRefs(row: Row, n: nat) returns (r: CheckResult, ghost first: nat)
    requires row.id < n
    ensures r == Accepted || r == MissingReference || r == NotDependencyFirst
    ensures r.Accepted? <==> GoodRefs(row)
    ensures r != Accepted ==> first < |row.refs| && forall j :: 0 <= j < first ==> row.refs[j] < row.id
    ensures r.MissingReference? ==> row.refs[first] >= n
    ensures r.NotDependencyFirst? ==> row.id <= row.refs[first] < n
  {
    first := 0;
    for k := 0 to |row.refs|
      invariant first == k
      invariant forall j :: 0 <= j < k ==> row.refs[j] < row.id
    {
      if row.refs[k] !in Below(n) { return MissingReference, k; }
      if row.refs[k] >= row.id { return NotDependencyFirst, k; }
      first := k + 1;
    }
    r := Accepted;
  }

  function Below(n: nat): (r: set<nat>)
    ensures forall x: nat :: x in r <==> x < n
    ensures |r| == n
  {
    if n == 0 then {} else Below(n - 1) + {n - 1}
  }

  lemma {:induction false} SubsetOfSameSize(a: set<nat>, b: set<nat>)
    requires a <= b && |a| == |b|
    ensures a == b
  {
    if a != {} {
      var x :| x in a;
      SubsetOfSameSize(a - {x}, b - {x});
      assert a == (a - {x}) + {x} && b == (b - {x}) + {x};
    }
  }

  /** Whatever the serializer writes, the checker accepts. */
  lemma SerializedIsAccepted(graph: Graph, roots: seq<nat>, topo: seq<nat>, table: Table)
    requires IsOrder(graph, roots, topo) && Describes(graph, roots, topo, table)
    ensures Acceptable(table)
  {
    forall i | 0 <= i < |table.rows| ensures GoodRefs(table.rows[i]) && table.rows[i].id == i {
      assert DependsBefore(graph, topo, i);
      forall k | 0 <= k < |table.rows[i].refs| ensures table.rows[i].refs[k] < i {
        var d := graph[topo[i]][k];
        assert d in topo[..i];
        var j :| 0 <= j < i && topo[j] == d;
        assert topo[table.rows[i].refs[k]] == d;
      }
    }
  }

  /** The rows of an accepted table as a graph. */
  ghost predicate RowsOf(table: Table, graph: Graph) {
    forall n :: n in graph ==> exists i :: 0 <= i < |table.rows| && table.rows[i] == Row(n, graph[n])
  }

  lemma {:induction false} RefsDescend(table: Table, graph: Graph, path: seq<nat>, a: nat, b: nat)
    requires Acceptable(table) && RowsOf(table, graph) && Joins(graph, path, a, b)
    ensures b < a
    decreases |path|
  {
    var i :| 0 <= i < |table.rows| && table.rows[i] == Row(a, graph[a]);
    assert GoodRefs(table.rows[i]);
    assert path[1] in graph[path[0]];
    if |path| > 2 {
      assert Joins(graph, path[1..], path[1], b);
      RefsDescend(table, graph, path[1..], path[1], b);
    }
  }

  /** What the checker accepts has no cycle, whoever wrote it. */
  lemma AcceptedIsAcyclic(table: Table, graph: Graph, n: nat)
    requires Acceptable(table) && RowsOf(table, graph)
    ensures !Reaches(graph, n, n)
  {
    forall path ensures !Joins(graph, path, n, n) {
      if Joins(graph, path, n, n) { RefsDescend(table, graph, path, n, n); }
    }
  }
}
