// Directed graphs over package names, the reachable set used as the reference
// definition of every dependency traversal, and the invariant those traversals keep.
module Graphs {
  import opened Collections

  /** Each package name mapped to the names of its direct internal dependencies. */
  type Graph = map<string, set<string>>

  function Succ(g: Graph, n: string): set<string> {
    if n in g then g[n] else {}
  }

  /** Every name that is the target of some edge. */
  function Targets(g: Graph): (r: set<string>)
    ensures forall n, m :: n in g && m in g[n] ==> m in r
    ensures forall m :: m in r ==> exists n :: n in g && m in g[n]
  {
    set n, m | n in g && m in g[n] :: m
  }

  /** The successors of a set of nodes. */
  function Post(g: Graph, s: set<string>): (r: set<string>)
    ensures forall n :: n in s ==> Succ(g, n) <= r
    ensures forall m :: m in r ==> exists n :: n in s && m in Succ(g, n)
  {
    set n, m | n in s && m in Succ(g, n) :: m
  }

  predicate Closed(g: Graph, s: set<string>) {
    forall n :: n in s ==> Succ(g, n) <= s
  }

  /** `s` holds the successors of `start` and is closed under the edges. */
  predicate ClosedFrom(g: Graph, start: string, s: set<string>) {
    Succ(g, start) <= s && Closed(g, s)
  }

  lemma PostInTargets(g: Graph, s: set<string>)
    ensures Post(g, s) <= Targets(g)
  {
    forall m | m in Post(g, s)
      ensures m in Targets(g)
    {
      var n :| n in s && m in Succ(g, n);
      assert n in g && m in g[n];
    }
  }

  lemma SubsetCard(a: set<string>, b: set<string>)
    requires a <= b
    ensures |a| <= |b|
  {
    assert b == a + (b - a);
  }

  lemma ProperSubsetCard(a: set<string>, b: set<string>)
    requires a < b
    ensures |a| < |b|
  {
    var x :| x in b && x !in a;
    SubsetCard(a, b - {x});
  }

  /** Adds successors until nothing new appears. */
  function Grow(g: Graph, s: set<string>): (r: set<string>)
    requires s <= Targets(g)
    ensures s <= r <= Targets(g) && Closed(g, r)
    decreases |Targets(g) - s|
  {
    PostInTargets(g, s);
    var t := s + Post(g, s);
    if t == s then s
    else
      ProperSubsetCard(Targets(g) - t, Targets(g) - s);
      Grow(g, t)
  }

  lemma {:induction false} GrowLeast(g: Graph, s: set<string>, c: set<string>)
    requires s <= Targets(g) && s <= c && Closed(g, c)
    ensures Grow(g, s) <= c
    decreases |Targets(g) - s|
  {
    PostInTargets(g, s);
    var t := s + Post(g, s);
    GrowUnfold(g, s);
    if t != s {
      PostClosed(g, s, c);
      ProperSubsetCard(Targets(g) - t, Targets(g) - s);
      GrowLeast(g, t, c);
    }
  }

  lemma GrowUnfold(g: Graph, s: set<string>)
    requires s <= Targets(g)
    ensures s + Post(g, s) <= Targets(g)
    ensures Grow(g, s) == if s + Post(g, s) == s then s else Grow(g, s + Post(g, s))
  {
    PostInTargets(g, s);
  }

  /** The successors of a subset of a closed set stay inside it. */
  lemma PostClosed(g: Graph, s: set<string>, c: set<string>)
    requires s <= c && Closed(g, c)
    ensures Post(g, s) <= c
  {
    forall m | m in Post(g, s)
      ensures m in c
    {
      var n :| n in s && m in Succ(g, n);
    }
  }

  /** The names reachable from `start` along one or more edges. */
  function Reachable(g: Graph, start: string): (r: set<string>)
    ensures ClosedFrom(g, start, r)
    ensures r <= Targets(g)
  {
    assert Succ(g, start) <= Targets(g);
    Grow(g, Succ(g, start))
  }

  /** The reachable set is the least set closed from `start`. */
  lemma ReachableLeast(g: Graph, start: string, s: set<string>)
    requires ClosedFrom(g, start, s)
    ensures Reachable(g, start) <= s
  {
    assert Succ(g, start) <= Targets(g);
    GrowLeast(g, Succ(g, start), s);
  }

  lemma ReachableStep(g: Graph, start: string, n: string)
    requires n == start || n in Reachable(g, start)
    ensures Succ(g, n) <= Reachable(g, start)
  {
  }

  /** A sequence of names each of which is a successor of the one before. */
  predicate IsWalk(g: Graph, w: seq<string>) {
    forall i :: 0 <= i < |w| - 1 ==> w[i + 1] in Succ(g, w[i])
  }

  /** The end of every walk of at least one edge from `start` is reachable. */
  lemma {:induction false} WalkReachable(g: Graph, start: string, w: seq<string>)
    requires |w| >= 2 && w[0] == start && IsWalk(g, w)
    ensures w[|w| - 1] in Reachable(g, start)
    decreases |w|
  {
    if |w| > 2 {
      var v := w[..|w| - 1];
      assert IsWalk(g, v);
      WalkReachable(g, start, v);
      assert w[|w| - 1] in Succ(g, v[|v| - 1]);
    } else {
      assert w[1] in Succ(g, start);
    }
  }

  ghost predicate WalkTo(g: Graph, start: string, m: string) {
    exists w :: |w| >= 2 && w[0] == start && w[|w| - 1] == m && IsWalk(g, w)
  }

  lemma EdgeWalk(g: Graph, start: string, x: string)
    requires x in Succ(g, start)
    ensures WalkTo(g, start, x)
  {
    var w := [start, x];
    assert IsWalk(g, w);
  }

  lemma ExtendWalk(g: Graph, start: string, n: string, x: string)
    requires WalkTo(g, start, n) && x in Succ(g, n)
    ensures WalkTo(g, start, x)
  {
    var w :| |w| >= 2 && w[0] == start && w[|w| - 1] == n && IsWalk(g, w);
    var w' := w + [x];
    assert IsWalk(g, w');
    assert w'[|w'| - 1] == x;
  }

  /** Every reachable name ends some walk of at least one edge from `start`. */
  lemma ReachableWalk(g: Graph, start: string, m: string)
    requires m in Reachable(g, start)
    ensures WalkTo(g, start, m)
  {
    var ends := set x | x in Targets(g) && WalkTo(g, start, x);
    forall x | x in Succ(g, start)
      ensures x in ends
    {
      EdgeWalk(g, start, x);
      assert start in g && x in g[start];
    }
    forall n | n in ends
      ensures Succ(g, n) <= ends
    {
      forall x | x in Succ(g, n)
        ensures x in ends
      {
        ExtendWalk(g, start, n, x);
        assert n in g && x in g[n];
      }
    }
    ReachableLeast(g, start, ends);
  }

  /** The start is reported exactly when some cycle leads back to it. */
  lemma StartReachableIffCycle(g: Graph, start: string)
    ensures start in Reachable(g, start) <==> WalkTo(g, start, start)
  {
    if start in Reachable(g, start) {
      ReachableWalk(g, start, start);
    }
    if WalkTo(g, start, start) {
      var w :| |w| >= 2 && w[0] == start && w[|w| - 1] == start && IsWalk(g, w);
      WalkReachable(g, start, w);
    }
  }

  /** A -> B -> A: both names are reported, the start included. */
  lemma TwoCycleExample()
    ensures Reachable(map["A" := {"B"}, "B" := {"A"}], "A") == {"A", "B"}
  {
    var g: Graph := map["A" := {"B"}, "B" := {"A"}];
    assert ClosedFrom(g, "A", {"A", "B"});
    ReachableLeast(g, "A", {"A", "B"});
    ReachableStep(g, "A", "A");
    ReachableStep(g, "A", "B");
  }

  /** A -> B without a way back: the start is not reported. */
  lemma ChainExample()
    ensures Reachable(map["A" := {"B"}], "A") == {"B"}
  {
    var g: Graph := map["A" := {"B"}];
    assert ClosedFrom(g, "A", {"B"});
    ReachableLeast(g, "A", {"B"});
  }

  // ---------------------------------------------------------------------------
  // The traversal shared by both dependency walks: pop the front of a queue, mark
  // it seen, record all of its successors, and enqueue those not seen yet. A name
  // is marked when it is dequeued, so it can be in the queue more than once.

  /** The number of queue entries that are already seen. */
  function CountSeen(q: seq<string>, seen: set<string>): nat {
    if q == [] then 0 else (if q[0] in seen then 1 else 0) + CountSeen(q[1..], seen)
  }

  lemma {:induction false} CountSeenAppend(q: seq<string>, x: string, seen: set<string>)
    ensures CountSeen(q + [x], seen) == CountSeen(q, seen) + (if x in seen then 1 else 0)
  {
    if q != [] {
      assert (q + [x])[1..] == q[1..] + [x];
      CountSeenAppend(q[1..], x, seen);
    }
  }

  ghost predicate TraversalInv(g: Graph, start: string, queue: seq<string>, seen: set<string>, found: set<string>) {
    && (start in seen || (seen == {} && queue == [start]))
    && found == Post(g, seen)
    && found <= Reachable(g, start)
    && (forall n :: n in seen ==> n == start || n in found)
    && (forall x :: x in queue ==> x == start || x in found)
    && (forall n :: n in seen ==> Succ(g, n) <= seen + Elems(queue))
  }

  /** The names a traversal from `start` can ever hold. */
  function Universe(g: Graph, start: string): set<string> {
    {start} + Targets(g)
  }

  lemma TraversalInit(g: Graph, start: string)
    ensures TraversalInv(g, start, [start], {}, {})
  {
  }

  lemma PostAdd(g: Graph, seen: set<string>, cur: string)
    ensures Post(g, seen + {cur}) == Post(g, seen) + Succ(g, cur)
  {
    forall m | m in Post(g, seen + {cur})
      ensures m in Post(g, seen) + Succ(g, cur)
    {
      var n :| n in seen + {cur} && m in Succ(g, n);
    }
  }

  /** Whatever the popped node's old neighbours were waiting for is still seen or queued. */
  lemma FrontierStep(g: Graph, queue: seq<string>, seen: set<string>, deps: set<string>, queue': seq<string>)
    requires queue != [] && deps == Succ(g, queue[0])
    requires forall n :: n in seen ==> Succ(g, n) <= seen + Elems(queue)
    requires Elems(queue') == Elems(queue[1..]) + (deps - (seen + {queue[0]}))
    ensures forall n :: n in seen + {queue[0]} ==> Succ(g, n) <= seen + {queue[0]} + Elems(queue')
  {
    assert Elems(queue) == {queue[0]} + Elems(queue[1..]) by {
      assert queue == [queue[0]] + queue[1..];
    }
  }

  lemma MeasureStep(U: set<string>, queue: seq<string>, seen: set<string>, queue': seq<string>)
    requires queue != [] && seen + {queue[0]} <= U
    requires CountSeen(queue', seen + {queue[0]}) == CountSeen(queue[1..], seen + {queue[0]})
    ensures |U - (seen + {queue[0]})| < |U - seen|
         || (|U - (seen + {queue[0]})| == |U - seen|
             && CountSeen(queue', seen + {queue[0]}) < CountSeen(queue, seen))
  {
    var seen' := seen + {queue[0]};
    if queue[0] in seen {
      assert seen' == seen;
    } else {
      ProperSubsetCard(U - seen', U - seen);
    }
  }

  /** The name at the head of the queue is the start or reachable from it. */
  lemma TraversalHead(g: Graph, start: string, queue: seq<string>, seen: set<string>, found: set<string>)
    requires TraversalInv(g, start, queue, seen, found) && queue != []
    ensures queue[0] == start || queue[0] in Reachable(g, start)
  {
    assert queue[0] in queue;
  }

  lemma TraversalStep(g: Graph, start: string, queue: seq<string>, seen: set<string>, found: set<string>,
                      deps: set<string>, queue': seq<string>, found': set<string>)
    requires TraversalInv(g, start, queue, seen, found)
    requires queue != [] && deps == Succ(g, queue[0])
    requires found' == found + deps
    requires Elems(queue') == Elems(queue[1..]) + (deps - (seen + {queue[0]}))
    requires CountSeen(queue', seen + {queue[0]}) == CountSeen(queue[1..], seen + {queue[0]})
    ensures TraversalInv(g, start, queue', seen + {queue[0]}, found')
    ensures |Universe(g, start) - (seen + {queue[0]})| < |Universe(g, start) - seen|
         || (|Universe(g, start) - (seen + {queue[0]})| == |Universe(g, start) - seen|
             && CountSeen(queue', seen + {queue[0]}) < CountSeen(queue, seen))
  {
    var cur := queue[0];
    var seen' := seen + {cur};
    InvStep(g, start, queue, seen, found, deps, queue', found');
    assert cur in queue;
    var U := Universe(g, start);
    assert seen' <= U by {
      forall n | n in seen'
        ensures n in U
      {
        assert n == start || n in found';
      }
    }
    MeasureStep(U, queue, seen, queue');
  }

  lemma InvStep(g: Graph, start: string, queue: seq<string>, seen: set<string>, found: set<string>,
                deps: set<string>, queue': seq<string>, found': set<string>)
    requires TraversalInv(g, start, queue, seen, found)
    requires queue != [] && deps == Succ(g, queue[0])
    requires found' == found + deps
    requires Elems(queue') == Elems(queue[1..]) + (deps - (seen + {queue[0]}))
    ensures TraversalInv(g, start, queue', seen + {queue[0]}, found')
  {
    var cur := queue[0];
    assert cur in queue;
    ReachableStep(g, start, cur);
    PostAdd(g, seen, cur);
    FrontierStep(g, queue, seen, deps, queue');
    QueueStep(start, queue, found, deps, queue', found', seen + {cur});
  }

  lemma QueueStep(start: string, queue: seq<string>, found: set<string>, deps: set<string>,
                  queue': seq<string>, found': set<string>, seen': set<string>)
    requires queue != []
    requires forall x :: x in queue ==> x == start || x in found
    requires found' == found + deps
    requires Elems(queue') == Elems(queue[1..]) + (deps - seen')
    ensures forall x :: x in queue' ==> x == start || x in found'
  {
    forall x | x in queue'
      ensures x == start || x in found'
    {
      assert x in Elems(queue');
      if x in Elems(queue[1..]) {
        assert x in queue;
      }
    }
  }

  /** When the queue is empty, the recorded names are exactly the reachable ones. */
  lemma TraversalDone(g: Graph, start: string, seen: set<string>, found: set<string>)
    requires TraversalInv(g, start, [], seen, found)
    ensures found == Reachable(g, start)
  {
    assert Elems<string>([]) == {};
    forall n | n in found
      ensures Succ(g, n) <= found
    {
      var p :| p in seen && n in Succ(g, p);
      assert n in seen;
    }
    ReachableLeast(g, start, found);
  }
}
