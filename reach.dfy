/**
 * `GetReachableVertices` (Models/TriangleGrid.cs and src/ctc/TriangleBoard.cs):
 * a breadth-first search over vertex adjacency from one vertex. It returns
 * the vertices whose hop distance is exactly three, ordered by row and then
 * by column.
 *
 * The specification is level by level. `Within(k)` holds the vertices at
 * most `k` hops away, and `AtDistance(k)` holds those exactly `k` hops away.
 * The lemmas connect these levels to walks along adjacency.
 */
module Reach {
  import opened Records
  import opened Collections
  import opened Grid

  /** The hop distance the search reports. */
  const Hops: nat := 3

  // ------------------------------------------------------- specification

  /** The adjacency of a grid of `size` rows, as a function from a vertex to its neighbours. */
  function Graph(size: int): Vertex -> set<Vertex>
  {
    v => Adjacent(size, v)
  }

  /** Every neighbour, under `nbr`, of some vertex of `s`. */
  ghost function Expand(nbr: Vertex -> set<Vertex>, s: set<Vertex>): set<Vertex>
  {
    set u, w | u in s && w in nbr(u) :: w
  }

  /** The vertices at most `k` hops from `from`. */
  ghost function Within(nbr: Vertex -> set<Vertex>, from: Vertex, k: nat): set<Vertex>
    decreases k
  {
    if k == 0 then {from}
    else Within(nbr, from, k - 1) + Expand(nbr, Within(nbr, from, k - 1))
  }

  /** The vertices whose hop distance from `from` is exactly `k`. */
  ghost function AtDistance(nbr: Vertex -> set<Vertex>, from: Vertex, k: nat): set<Vertex>
  {
    if k == 0 then {from} else Within(nbr, from, k) - Within(nbr, from, k - 1)
  }

  /** `w` is a walk from `a` to `b` along adjacency; it has `|w| - 1` hops. */
  ghost predicate WalkFromTo(nbr: Vertex -> set<Vertex>, w: seq<Vertex>, a: Vertex, b: Vertex)
  {
    |w| >= 1 && w[0] == a && w[|w| - 1] == b &&
    forall i :: 0 <= i < |w| - 1 ==> w[i + 1] in nbr(w[i])
  }

  // ------------------------------------------------- facts about levels

  lemma ExpandEmpty(nbr: Vertex -> set<Vertex>)
    ensures Expand(nbr, {}) == {}
  {
  }

  lemma ExpandAdd(nbr: Vertex -> set<Vertex>, s: set<Vertex>, c: Vertex)
    ensures Expand(nbr, s + {c}) == Expand(nbr, s) + nbr(c)
  {
  }

  lemma ExpandUnion(nbr: Vertex -> set<Vertex>, a: set<Vertex>, b: set<Vertex>)
    ensures Expand(nbr, a + b) == Expand(nbr, a) + Expand(nbr, b)
  {
  }

  lemma ExpandMono(nbr: Vertex -> set<Vertex>, a: set<Vertex>, b: set<Vertex>)
    requires a <= b
    ensures Expand(nbr, a) <= Expand(nbr, b)
  {
  }

  lemma {:induction false} WithinMono(nbr: Vertex -> set<Vertex>, from: Vertex, j: nat, k: nat)
    requires j <= k
    ensures Within(nbr, from, j) <= Within(nbr, from, k)
    decreases k
  {
    if j < k {
      WithinMono(nbr, from, j, k - 1);
    }
  }

  /** One level splits into the level before it and the vertices new at this level. */
  lemma WithinSplit(nbr: Vertex -> set<Vertex>, from: Vertex, k: nat)
    ensures k == 0 ==> Within(nbr, from, k) == AtDistance(nbr, from, k)
    ensures k > 0 ==> Within(nbr, from, k) == Within(nbr, from, k - 1) + AtDistance(nbr, from, k)
  {
    if k > 0 {
      WithinMono(nbr, from, k - 1, k);
    }
  }

  /** What lies one hop beyond `Within(k)` and outside it lies one hop beyond `AtDistance(k)`. */
  lemma FrontierExpand(nbr: Vertex -> set<Vertex>, from: Vertex, k: nat)
    ensures Expand(nbr, Within(nbr, from, k)) - Within(nbr, from, k)
         == Expand(nbr, AtDistance(nbr, from, k)) - Within(nbr, from, k)
  {
    WithinSplit(nbr, from, k);
    if k > 0 {
      ExpandUnion(nbr, Within(nbr, from, k - 1), AtDistance(nbr, from, k));
    }
  }

  /** The level after `k` is `Within(k)` plus the new vertices beyond `AtDistance(k)`. */
  lemma NextLevel(nbr: Vertex -> set<Vertex>, from: Vertex, k: nat)
    ensures AtDistance(nbr, from, k + 1) == Expand(nbr, AtDistance(nbr, from, k)) - Within(nbr, from, k)
    ensures Within(nbr, from, k + 1) == Within(nbr, from, k) + AtDistance(nbr, from, k + 1)
  {
    FrontierExpand(nbr, from, k);
  }

  /** Once a level adds nothing, no later level does. */
  lemma {:induction false} StableLevel(nbr: Vertex -> set<Vertex>, from: Vertex, k: nat, m: nat)
    requires Within(nbr, from, k + 1) == Within(nbr, from, k)
    requires k <= m
    ensures Within(nbr, from, m) == Within(nbr, from, k)
    decreases m
  {
    if m > k + 1 {
      StableLevel(nbr, from, k, m - 1);
    }
  }

  /** An empty level is followed only by empty levels. */
  lemma EmptyLevelStaysEmpty(nbr: Vertex -> set<Vertex>, from: Vertex, k: nat, m: nat)
    requires AtDistance(nbr, from, k + 1) == {}
    requires k < m
    ensures AtDistance(nbr, from, m) == {}
  {
    NoNewLevel(nbr, from, k);
    StableLevel(nbr, from, k, m);
    StableLevel(nbr, from, k, m - 1);
    NoNewVertex(nbr, from, m);
  }

  lemma NoNewLevel(nbr: Vertex -> set<Vertex>, from: Vertex, k: nat)
    requires AtDistance(nbr, from, k + 1) == {}
    ensures Within(nbr, from, k + 1) == Within(nbr, from, k)
  {
    WithinSplit(nbr, from, k + 1);
  }

  lemma NoNewVertex(nbr: Vertex -> set<Vertex>, from: Vertex, m: nat)
    requires m > 0 && Within(nbr, from, m) == Within(nbr, from, m - 1)
    ensures AtDistance(nbr, from, m) == {}
  {
    ghost var a, b := Within(nbr, from, m), Within(nbr, from, m - 1);
    assert AtDistance(nbr, from, m) == a - b;
  }

  // ---------------------------------------------------------------- walks

  /** Every vertex within `k` hops is the end of a walk of at most `k` hops. */
  lemma {:induction false} WithinHasWalk(nbr: Vertex -> set<Vertex>, from: Vertex, k: nat, v: Vertex)
    requires v in Within(nbr, from, k)
    ensures exists w :: WalkFromTo(nbr, w, from, v) && |w| <= k + 1
    decreases k
  {
    if k == 0 {
      assert WalkFromTo(nbr, [from], from, v);
    } else if v in Within(nbr, from, k - 1) {
      WithinHasWalk(nbr, from, k - 1, v);
    } else {
      var u :| u in Within(nbr, from, k - 1) && v in nbr(u);
      WithinHasWalk(nbr, from, k - 1, u);
      var w :| WalkFromTo(nbr, w, from, u) && |w| <= k;
      var w' := w + [v];
      assert forall i :: 0 <= i < |w| ==> w'[i] == w[i];
      assert WalkFromTo(nbr, w', from, v);
    }
  }

  /** The end of a walk of `h` hops is within `h` hops. */
  lemma {:induction false} WalkInWithin(nbr: Vertex -> set<Vertex>, w: seq<Vertex>, from: Vertex, v: Vertex)
    requires WalkFromTo(nbr, w, from, v)
    ensures v in Within(nbr, from, |w| - 1)
    decreases |w|
  {
    if |w| > 1 {
      var w' := w[..|w| - 1];
      assert WalkFromTo(nbr, w', from, w[|w| - 2]);
      WalkInWithin(nbr, w', from, w[|w| - 2]);
      assert v in nbr(w[|w| - 2]);
    }
  }

  /**
   * The hop distance in terms of walks: `v` is exactly `k` hops away iff some
   * walk reaches it in `k` hops and none in fewer.
   */
  lemma AtDistanceByWalks(nbr: Vertex -> set<Vertex>, from: Vertex, k: nat, v: Vertex)
    requires k > 0
    ensures v in AtDistance(nbr, from, k) <==>
      (exists w :: WalkFromTo(nbr, w, from, v) && |w| <= k + 1) &&
      !(exists w :: WalkFromTo(nbr, w, from, v) && |w| <= k)
  {
    WithinByWalks(nbr, from, k, v);
    WithinByWalks(nbr, from, k - 1, v);
    assert v in AtDistance(nbr, from, k) <==> v in Within(nbr, from, k) && v !in Within(nbr, from, k - 1);
  }

  /** `v` is within `k` hops iff some walk reaches it in at most `k` hops. */
  lemma WithinByWalks(nbr: Vertex -> set<Vertex>, from: Vertex, k: nat, v: Vertex)
    ensures v in Within(nbr, from, k) <==> exists w :: WalkFromTo(nbr, w, from, v) && |w| <= k + 1
  {
    if v in Within(nbr, from, k) {
      WithinHasWalk(nbr, from, k, v);
    }
    if w :| WalkFromTo(nbr, w, from, v) && |w| <= k + 1 {
      WalkInWithin(nbr, w, from, v);
      WithinMono(nbr, from, |w| - 1, k);
    }
  }

  // -------------------------------------------- facts about the result

  /** Every vertex at distance `k` is the end of a walk of exactly `k` hops. */
  lemma AtDistanceHasWalk(nbr: Vertex -> set<Vertex>, from: Vertex, k: nat, v: Vertex)
    requires v in AtDistance(nbr, from, k)
    ensures exists w :: WalkFromTo(nbr, w, from, v) && |w| == k + 1
  {
    if k == 0 {
      assert WalkFromTo(nbr, [from], from, v);
    } else {
      AtDistanceByWalks(nbr, from, k, v);
      var w :| WalkFromTo(nbr, w, from, v) && |w| <= k + 1;
    }
  }

  /** The start vertex is never reported at a positive distance. */
  lemma StartNotAtDistance(nbr: Vertex -> set<Vertex>, from: Vertex, k: nat)
    requires k > 0
    ensures from !in AtDistance(nbr, from, k)
  {
    WithinMono(nbr, from, 0, k - 1);
  }

  /** Every neighbour, under `g`, is a valid vertex of a grid of `size` rows. */
  ghost predicate StepsValid(g: Vertex -> set<Vertex>, size: int)
  {
    forall u, w :: w in g(u) ==> IsValidVertex(size, w)
  }

  /** Every step, under `g`, moves by at most one row and at most one column. */
  ghost predicate StepsClose(g: Vertex -> set<Vertex>)
  {
    forall u, w :: w in g(u) ==> u.row - 1 <= w.row <= u.row + 1 && u.col - 1 <= w.col <= u.col + 1
  }

  lemma GraphSteps(size: int)
    ensures StepsValid(Graph(size), size)
    ensures StepsClose(Graph(size))
  {
    forall u, w | w in Graph(size)(u)
      ensures IsValidVertex(size, w)
      ensures u.row - 1 <= w.row <= u.row + 1 && u.col - 1 <= w.col <= u.col + 1
    {
      AdjacentValid(size, u, w);
      AdjacentIsClose(size, u, w);
    }
  }

  lemma {:induction false} WithinValid(g: Vertex -> set<Vertex>, size: int, from: Vertex, k: nat, v: Vertex)
    requires StepsValid(g, size)
    requires v in Within(g, from, k) && v != from
    ensures IsValidVertex(size, v)
    decreases k
  {
    if k > 0 && v in Within(g, from, k - 1) {
      WithinValid(g, size, from, k - 1, v);
    }
  }

  /** Every vertex at a positive distance is a valid vertex of the grid. */
  lemma AtDistanceValid(size: int, from: Vertex, k: nat, v: Vertex)
    requires k > 0 && v in AtDistance(Graph(size), from, k)
    ensures IsValidVertex(size, v)
  {
    GraphSteps(size);
    StartNotAtDistance(Graph(size), from, k);
    WithinValid(Graph(size), size, from, k, v);
  }

  lemma {:induction false} WithinIsClose(g: Vertex -> set<Vertex>, from: Vertex, k: nat, v: Vertex)
    requires StepsClose(g)
    requires v in Within(g, from, k)
    ensures from.row - k <= v.row <= from.row + k
    ensures from.col - k <= v.col <= from.col + k
    decreases k
  {
    if k > 0 && v in Within(g, from, k - 1) {
      WithinIsClose(g, from, k - 1, v);
    } else if k > 0 {
      var u :| u in Within(g, from, k - 1) && v in g(u);
      WithinIsClose(g, from, k - 1, u);
    }
  }

  /** The vertices at distance `k` lie within `k` rows and `k` columns of the start. */
  lemma AtDistanceIsClose(size: int, from: Vertex, k: nat, v: Vertex)
    requires v in AtDistance(Graph(size), from, k)
    ensures from.row - k <= v.row <= from.row + k
    ensures from.col - k <= v.col <= from.col + k
  {
    GraphSteps(size);
    WithinIsClose(Graph(size), from, k, v);
  }

  // -------------------------------------------------------------- search

  /** The queue entries for vertices `q`, all at distance `d`. */
  function Tagged(q: seq<Vertex>, d: nat): (t: seq<(Vertex, nat)>)
    ensures |t| == |q|
    ensures forall i :: 0 <= i < |q| ==> t[i] == (q[i], d)
  {
    seq(|q|, i requires 0 <= i < |q| => (q[i], d))
  }

  /** The queue holds `q1` at distance `level` and then `q2` at distance `level + 1`. */
  ghost predicate Queued(toVisit: seq<(Vertex, nat)>, level: nat, q1: seq<Vertex>, q2: seq<Vertex>)
  {
    toVisit == Tagged(q1, level) + Tagged(q2, level + 1)
  }

  lemma QueueHead(toVisit: seq<(Vertex, nat)>, level: nat, q1: seq<Vertex>, q2: seq<Vertex>)
    requires Queued(toVisit, level, q1, q2) && q1 != []
    ensures toVisit[0] == (q1[0], level)
    ensures Queued(toVisit[1..], level, q1[1..], q2)
  {
    assert Tagged(q1, level)[1..] == Tagged(q1[1..], level);
  }

  lemma QueueAppend(toVisit: seq<(Vertex, nat)>, level: nat, q1: seq<Vertex>, q2: seq<Vertex>,
                    added: seq<Vertex>, d: nat)
    requires Queued(toVisit, level, q1, q2) && d == level + 1
    ensures Queued(toVisit + Tagged(added, d), level, q1, q2 + added)
  {
    assert Tagged(q2, d) + Tagged(added, d) == Tagged(q2 + added, d);
  }

  lemma QueueNextLevel(toVisit: seq<(Vertex, nat)>, level: nat, q1: seq<Vertex>, q2: seq<Vertex>)
    requires Queued(toVisit, level, q1, q2)
    ensures q1 == [] ==> Queued(toVisit, level + 1, q2, [])
    ensures toVisit == [] <==> q1 == [] && q2 == []
  {
  }

  /**
   * The level after `level` is complete once every vertex of `level` is expanded:
   * what was enqueued is `AtDistance(level + 1)` and what was visited is `Within(level + 1)`.
   */
  lemma LevelComplete(g: Vertex -> set<Vertex>, from: Vertex, level: nat, done: set<Vertex>, next: set<Vertex>)
    requires done == AtDistance(g, from, level)
    requires next == Expand(g, done) - Within(g, from, level)
    ensures next == AtDistance(g, from, level + 1)
    ensures Within(g, from, level) + next == Within(g, from, level + 1)
  {
    NextLevel(g, from, level);
  }

  /**
   * What the search knows between two dequeues, with the queue split into
   * `q1` (distance `level`) and `q2` (distance `level + 1`). `done` holds the
   * vertices of distance `level` already dequeued, and `seen` is `Within(level)`.
   */
  ghost predicate Searching(g: Vertex -> set<Vertex>, from: Vertex, visited: set<Vertex>, reachable: set<Vertex>,
                            level: nat, q1: seq<Vertex>, q2: seq<Vertex>, done: set<Vertex>, seen: set<Vertex>)
  {
    && level <= Hops
    && seen == Within(g, from, level)
    && Elements(q1) + done == AtDistance(g, from, level)
    && (level < Hops ==> Elements(q2) == Expand(g, done) - seen)
    && visited == seen + Elements(q2)
    && reachable == (if level == Hops then done else {})
    && (level == Hops ==> q2 == [])
  }

  lemma SearchStart(g: Vertex -> set<Vertex>, from: Vertex)
    ensures Searching(g, from, {from}, {}, 0, [from], [], {}, {from})
    ensures Queued([(from, 0)], 0, [from], [])
  {
    ExpandEmpty(g);
    assert Elements([from]) == {from};
  }

  /** With this level used up and vertices left in `q2`, the next level starts. */
  lemma SearchNextLevel(g: Vertex -> set<Vertex>, from: Vertex, visited: set<Vertex>, reachable: set<Vertex>,
                        level: nat, q2: seq<Vertex>, done: set<Vertex>, seen: set<Vertex>)
    requires Searching(g, from, visited, reachable, level, [], q2, done, seen)
    requires q2 != []
    ensures level < Hops
    ensures Searching(g, from, visited, reachable, level + 1, q2, [], {}, visited)
  {
    LevelComplete(g, from, level, done, Elements(q2));
    ExpandEmpty(g);
  }

  /** A vertex dequeued at distance `Hops` is collected. */
  lemma SearchCollect(g: Vertex -> set<Vertex>, from: Vertex, visited: set<Vertex>, reachable: set<Vertex>,
                      q1: seq<Vertex>, q2: seq<Vertex>, done: set<Vertex>, seen: set<Vertex>)
    requires Searching(g, from, visited, reachable, Hops, q1, q2, done, seen)
    requires q1 != []
    ensures Searching(g, from, visited, reachable + {q1[0]}, Hops, q1[1..], q2, done + {q1[0]}, seen)
  {
    assert Elements(q1) == Elements(q1[1..]) + {q1[0]};
  }

  /**
   * A vertex dequeued below distance `Hops` is expanded: its neighbours are
   * all visited now, and those that were not visited before join `q2`.
   */
  lemma SearchExpand(g: Vertex -> set<Vertex>, from: Vertex, visited: set<Vertex>, reachable: set<Vertex>,
                     level: nat, q1: seq<Vertex>, q2: seq<Vertex>, done: set<Vertex>, seen: set<Vertex>,
                     visited': set<Vertex>, added: seq<Vertex>)
    requires Searching(g, from, visited, reachable, level, q1, q2, done, seen)
    requires q1 != [] && level < Hops
    requires visited' == visited + g(q1[0])
    requires Elements(added) == g(q1[0]) - visited
    ensures Searching(g, from, visited', reachable, level, q1[1..], q2 + added, done + {q1[0]}, seen)
  {
    assert Elements(q1) == Elements(q1[1..]) + {q1[0]};
    assert Elements(q2 + added) == Elements(q2) + Elements(added);
    ExpandAdd(g, done, q1[0]);
  }

  /** When the queue runs dry, the collected vertices are exactly those at distance `Hops`. */
  lemma SearchDone(g: Vertex -> set<Vertex>, from: Vertex, visited: set<Vertex>, reachable: set<Vertex>,
                   level: nat, done: set<Vertex>, seen: set<Vertex>)
    requires Searching(g, from, visited, reachable, level, [], [], done, seen)
    ensures reachable == AtDistance(g, from, Hops)
  {
    if level < Hops {
      LevelComplete(g, from, level, done, {});
      EmptyLevelStaysEmpty(g, from, level, Hops);
    }
  }

  /**
   * The inner loop of the search: every neighbour not yet visited is marked
   * visited and enqueued once, at distance `d`. `added` lists them in the
   * order they are enqueued, which is the iteration order of the set.
   */
  method EnqueueUnvisited(adjacent: set<Vertex>, visited: set<Vertex>, toVisit: seq<(Vertex, nat)>, d: nat)
    returns (visited': set<Vertex>, toVisit': seq<(Vertex, nat)>, ghost added: seq<Vertex>)
    ensures visited' == visited + adjacent
    ensures Elements(added) == adjacent - visited
    ensures Distinct(added)
    ensures toVisit' == toVisit + Tagged(added, d)
  {
    visited', toVisit', added := visited, toVisit, [];
    var pending := adjacent;
    while pending != {}
      invariant pending <= adjacent
      invariant visited' == visited + (adjacent - pending)
      invariant Elements(added) == (adjacent - pending) - visited
      invariant Distinct(added)
      invariant toVisit' == toVisit + Tagged(added, d)
      decreases pending
    {
      var a :| a in pending;
      pending := pending - {a};
      if a !in visited' {
        visited' := visited' + {a};
        assert Tagged(added + [a], d) == Tagged(added, d) + [(a, d)];
        toVisit' := toVisit' + [(a, d)];
        assert Elements(added + [a]) == Elements(added) + {a};
        added := added + [a];
      }
    }
  }

  /**
   * `GetReachableVertices`: the breadth-first search of the source, with a
   * FIFO queue of `(vertex, distance)` entries and a visited set. Vertices
   * dequeued at distance `Hops` are collected; the rest are expanded.
   */
  method GetReachableVertices(size: int, from: Vertex) returns (r: seq<Vertex>)
    ensures Elements(r) == AtDistance(Graph(size), from, Hops)
    ensures SortedByRowCol(r)
  {
    ghost var g := Graph(size);
    var reachable: set<Vertex> := {};
    var visited: set<Vertex> := {from};
    var toVisit: seq<(Vertex, nat)> := [(from, 0)];
    ghost var level: nat, q1, q2, done, seen := 0, [from], [], {}, {from};
    // every vertex ever enqueued, in order: each is marked visited first, so none repeats
    ghost var enqueued := [from];
    SearchStart(g, from);
    while |toVisit| > 0
      invariant Distinct(enqueued) && Elements(enqueued) == visited
      invariant Queued(toVisit, level, q1, q2)
      invariant Searching(g, from, visited, reachable, level, q1, q2, done, seen)
      decreases Hops - level, |q1|
    {
      QueueNextLevel(toVisit, level, q1, q2);
      if q1 == [] {
        // this level is used up: the entries of the next one are at the head of the queue
        SearchNextLevel(g, from, visited, reachable, level, q2, done, seen);
        level, q1, q2, done, seen := level + 1, q2, [], {}, visited;
      }
      QueueHead(toVisit, level, q1, q2);
      var current, distance := toVisit[0].0, toVisit[0].1;
      toVisit := toVisit[1..];
      if distance == Hops {
        SearchCollect(g, from, visited, reachable, q1, q2, done, seen);
        reachable := reachable + {current};
        q1, done := q1[1..], done + {current};
        continue;
      }
      if distance < Hops {
        var adjacent := GetAdjacentVertices(size, current);
        assert g(current) == adjacent;
        ghost var visited0, toVisit0, added := visited, toVisit, [];
        visited, toVisit, added := EnqueueUnvisited(adjacent, visited, toVisit, distance + 1);
        QueueAppend(toVisit0, level, q1[1..], q2, added, distance + 1);
        SearchExpand(g, from, visited0, reachable, level, q1, q2, done, seen, visited, added);
        DistinctAppend(enqueued, added);
        enqueued := enqueued + added;
        q1, q2, done := q1[1..], q2 + added, done + {current};
      }
    }
    QueueNextLevel(toVisit, level, q1, q2);
    SearchDone(g, from, visited, reachable, level, done, seen);
    r := SortByRowCol(reachable);
  }

  // ---------------------------------------------------------------- order

  /** `m` is the least element of `s` in row-then-column order. */
  predicate IsLeast(m: Vertex, s: set<Vertex>)
  {
    m in s && forall x :: x in s && x != m ==> VertexLess(m, x)
  }

  /** A finite non-empty set of vertices has a least element. */
  lemma {:induction false} HasLeast(s: set<Vertex>)
    requires s != {}
    ensures exists m :: IsLeast(m, s)
    decreases |s|
  {
    var y :| y in s;
    if s == {y} {
      assert IsLeast(y, s);
    } else {
      var t := s - {y};
      HasLeast(t);
      var m :| IsLeast(m, t);
      LeastOfAdd(t, m, y);
      assert t + {y} == s;
    }
  }

  lemma LeastOfAdd(t: set<Vertex>, m: Vertex, y: Vertex)
    requires IsLeast(m, t) && y !in t
    ensures IsLeast(if VertexLess(y, m) then y else m, t + {y})
  {
    VertexLessStrictTotal(m, y, m);
    forall x | x in t && x != m
      ensures VertexLess(y, m) ==> VertexLess(y, x)
    {
      VertexLessStrictTotal(y, m, x);
    }
  }

  /** `OrderBy(v => v.Row).ThenBy(v => v.Col)`: the set's elements in ascending order. */
  method SortByRowCol(s: set<Vertex>) returns (r: seq<Vertex>)
    ensures Elements(r) == s
    ensures SortedByRowCol(r)
  {
    r := [];
    var rest := s;
    while rest != {}
      invariant Elements(r) + rest == s
      invariant Elements(r) !! rest
      invariant SortedByRowCol(r)
      invariant forall i, x :: 0 <= i < |r| && x in rest ==> VertexLess(r[i], x)
      decreases rest
    {
      HasLeast(rest);
      var m :| IsLeast(m, rest);
      r := r + [m];
      rest := rest - {m};
    }
  }
}
