/** Breadth-first search over the floor cells of a grid, 4-neighbourhood,
    with parent links for path reconstruction. */
module Pathfinding {
  import opened Grid

  /** The four unit steps, in the order the search tries them. */
  const Dirs4: seq<Cell> := [(1, 0), (-1, 0), (0, 1), (0, -1)]

  /** `s` back to front. */
  function Reverse<T>(s: seq<T>): (r: seq<T>)
    ensures |r| == |s|
    ensures forall i :: 0 <= i < |s| ==> r[i] == s[|s| - 1 - i]
  {
    if s == [] then [] else [s[|s| - 1]] + Reverse(s[..|s| - 1])
  }

  lemma ReverseSnoc<T>(s: seq<T>, x: T)
    ensures Reverse(s + [x]) == [x] + Reverse(s)
  {
    assert (s + [x])[..|s|] == s;
  }

  /** The parent links form a tree rooted at start: every other discovered
      cell is a floor cell whose parent is a discovered neighbour one step
      nearer the root. `dist` is the depth of each discovered cell. */
  ghost predicate Tree(g: Tiles, start: Cell, prev: map<Cell, Option<Cell>>, dist: map<Cell, nat>)
    requires Rectangular(g)
  {
    prev.Keys == dist.Keys && start in prev && dist[start] == 0 &&
    forall c :: c in prev && c != start ==>
      prev[c].Some? && prev[c].value in prev && Floor(g, c) &&
      Adjacent(prev[c].value, c) && dist[c] == dist[prev[c].value] + 1
  }

  /** The queue holds discovered cells in non-decreasing depth, all at depth
      `level` or `level + 1`, its head at `level`; no discovered cell is
      deeper than `level + 1`. */
  ghost predicate Frontier(dist: map<Cell, nat>, q: seq<Cell>, level: nat)
  {
    (forall i :: 0 <= i < |q| ==> q[i] in dist && level <= dist[q[i]] <= level + 1) &&
    (forall i, j :: 0 <= i < j < |q| ==> dist[q[i]] <= dist[q[j]]) &&
    (|q| > 0 ==> dist[q[0]] == level) &&
    (forall c :: c in dist ==> dist[c] <= level + 1)
  }

  /** Every discovered cell that has left the queue has had all its floor
      neighbours discovered, none deeper than one more step. */
  ghost predicate Settled(g: Tiles, dist: map<Cell, nat>, q: seq<Cell>)
    requires Rectangular(g)
  {
    forall c :: c in dist && c !in q ==>
      forall n :: Floor(g, n) && Adjacent(c, n) ==> n in dist && dist[n] <= dist[c] + 1
  }

  /** `path` lists the cells after start of a walk from start to goal, and no
      walk from start to goal takes fewer steps. */
  ghost predicate ShortestPath(g: Tiles, start: Cell, goal: Cell, path: seq<Cell>)
    requires Rectangular(g)
  {
    IsWalk(g, [start] + path) && ([start] + path)[|path|] == goal &&
    forall w :: IsWalk(g, w) && w[0] == start && w[|w| - 1] == goal ==> |path| <= |w| - 1
  }

  /** Every neighbour is one of the four unit steps away. */
  lemma AdjacentStep(c: Cell, n: Cell)
    requires Adjacent(c, n)
    ensures exists k :: 0 <= k < |Dirs4| && n == Plus(c, Dirs4[k])
  {
    if n == Plus(c, Dirs4[0]) {
    } else if n == Plus(c, Dirs4[1]) {
    } else if n == Plus(c, Dirs4[2]) {
    } else {
      assert n == Plus(c, Dirs4[3]);
    }
  }

  /** A walk from start that is short enough, or any walk once the queue is
      empty, ends at a discovered cell whose depth is at most the walk's length. */
  lemma {:induction false} WalkSettled(g: Tiles, start: Cell, dist: map<Cell, nat>, q: seq<Cell>, level: nat, w: seq<Cell>)
    requires Rectangular(g)
    requires start in dist && dist[start] == 0
    requires Frontier(dist, q, level) && Settled(g, dist, q)
    requires IsWalk(g, w) && w[0] == start
    requires |q| == 0 || |w| - 1 <= level
    ensures w[|w| - 1] in dist && dist[w[|w| - 1]] <= |w| - 1
    decreases |w|
  {
    if |w| > 1 {
      var w0 := w[..|w| - 1];
      assert IsWalk(g, w0) by {
        assert forall i :: 0 <= i < |w0| ==> w0[i] == w[i];
      }
      WalkSettled(g, start, dist, q, level, w0);
      var p, n := w[|w| - 2], w[|w| - 1];
      assert p == w0[|w0| - 1];
      assert p !in q;
      assert Floor(g, n) && Adjacent(p, n);
    }
  }

  /** While the search runs, no walk from start to the head of the queue is
      shorter than the head's depth. */
  lemma HeadIsNearest(g: Tiles, start: Cell, dist: map<Cell, nat>, q: seq<Cell>, level: nat)
    requires Rectangular(g)
    requires start in dist && dist[start] == 0
    requires Frontier(dist, q, level) && Settled(g, dist, q) && |q| > 0
    ensures forall w :: IsWalk(g, w) && w[0] == start && w[|w| - 1] == q[0] ==> dist[q[0]] <= |w| - 1
  {
    forall w | IsWalk(g, w) && w[0] == start && w[|w| - 1] == q[0]
      ensures dist[q[0]] <= |w| - 1
    {
      if |w| - 1 <= level {
        WalkSettled(g, start, dist, q, level, w);
      }
    }
  }

  /** Once the queue is empty every cell reachable from start has been
      discovered. */
  lemma Exhausted(g: Tiles, start: Cell, goal: Cell, dist: map<Cell, nat>, level: nat)
    requires Rectangular(g)
    requires start in dist && dist[start] == 0
    requires Frontier(dist, [], level) && Settled(g, dist, [])
    ensures Reachable(g, start, goal) ==> goal in dist
  {
    if Reachable(g, start, goal) {
      var w :| IsWalk(g, w) && w[0] == start && w[|w| - 1] == goal;
      WalkSettled(g, start, dist, [], level, w);
    }
  }

  /** The four neighbours of c, in the order the search tries them. */
  function Around(c: Cell): (r: seq<Cell>)
    ensures |r| == |Dirs4| && forall k :: 0 <= k < |Dirs4| ==> r[k] == Plus(c, Dirs4[k])
    ensures forall i, j :: 0 <= i < j < |r| ==> r[i] != r[j]
  {
    [Plus(c, Dirs4[0]), Plus(c, Dirs4[1]), Plus(c, Dirs4[2]), Plus(c, Dirs4[3])]
  }

  /** The neighbours of c that the scan of the first k steps discovers, in
      the order it tries them: each in-bounds floor neighbour not in prev,
      once. */
  function Fresh(g: Tiles, c: Cell, prev: map<Cell, Option<Cell>>, k: nat): seq<Cell>
    requires Rectangular(g) && k <= |Dirs4|
  {
    if k == 0 then []
    else
      var n := Plus(c, Dirs4[k - 1]);
      Fresh(g, c, prev, k - 1) + (if Floor(g, n) && n !in prev then [n] else [])
  }

  /** The cells the first k steps discover are the undiscovered floor cells
      among the first k neighbours, each listed once. */
  lemma {:induction false} FreshMembers(g: Tiles, c: Cell, prev: map<Cell, Option<Cell>>, k: nat)
    requires Rectangular(g) && k <= |Dirs4|
    ensures forall e :: e in Fresh(g, c, prev, k) <==> e in Around(c)[..k] && Floor(g, e) && e !in prev
    ensures forall i, j :: 0 <= i < j < |Fresh(g, c, prev, k)| ==> Fresh(g, c, prev, k)[i] != Fresh(g, c, prev, k)[j]
  {
    if k > 0 {
      FreshMembers(g, c, prev, k - 1);
      var n := Around(c)[k - 1];
      assert Around(c)[..k] == Around(c)[..k - 1] + [n];
      assert n !in Fresh(g, c, prev, k - 1) by {
        assert n !in Around(c)[..k - 1];
      }
    }
  }

  /** What scanning the neighbours of c does to the parent links, the depths
      and the queue: old entries stay, every new entry is a floor neighbour of
      c one level below it, appended to the queue, and every floor neighbour
      of c ends up discovered. */
  ghost predicate Scanned(g: Tiles, c: Cell, prev: map<Cell, Option<Cell>>, dist: map<Cell, nat>, q: seq<Cell>,
                          prev': map<Cell, Option<Cell>>, dist': map<Cell, nat>, q': seq<Cell>)
    requires Rectangular(g) && c in dist
  {
    prev'.Keys == dist'.Keys && prev.Keys <= prev'.Keys &&
    (forall e :: e in prev ==> prev'[e] == prev[e] && e in dist && dist'[e] == dist[e]) &&
    (forall e :: e in prev' && e !in prev ==>
       prev'[e] == Some(c) && dist'[e] == dist[c] + 1 && Floor(g, e) && Adjacent(c, e) && e in q') &&
    |q| <= |q'| && q'[..|q|] == q &&
    (forall i :: |q| <= i < |q'| ==> q'[i] in prev' && q'[i] !in prev) &&
    (prev'.Keys == prev.Keys ==> q' == q) &&
    (forall k :: 0 <= k < |Dirs4| && Floor(g, Plus(c, Dirs4[k])) ==> Plus(c, Dirs4[k]) in prev') &&
    q' == q + Fresh(g, c, prev, |Dirs4|) &&
    (forall e :: e in prev' <==> e in prev || e in Fresh(g, c, prev, |Dirs4|))
  }

  /** The scan after trying the steps Dirs4[..k]: exactly the cells Fresh
      lists have been discovered, each with c as its parent one level deeper,
      and appended to the queue in that order. */
  ghost predicate ScannedUpTo(g: Tiles, c: Cell, prev: map<Cell, Option<Cell>>, dist: map<Cell, nat>, q: seq<Cell>,
                              k: nat, prev': map<Cell, Option<Cell>>, dist': map<Cell, nat>, q': seq<Cell>)
    requires Rectangular(g) && c in dist && k <= |Dirs4|
  {
    prev'.Keys == dist'.Keys &&
    (forall e :: e in prev' <==> e in prev || e in Fresh(g, c, prev, k)) &&
    (forall e :: e in prev ==> prev'[e] == prev[e] && e in dist && dist'[e] == dist[e]) &&
    (forall e :: e in prev' && e !in prev ==> prev'[e] == Some(c) && dist'[e] == dist[c] + 1) &&
    q' == q + Fresh(g, c, prev, k)
  }

  /** After the finished scan the old queue is a prefix of the new one, and
      the cells appended are exactly the newly discovered ones. */
  lemma ScanQueue(g: Tiles, c: Cell, prev: map<Cell, Option<Cell>>, dist: map<Cell, nat>, q: seq<Cell>,
                  prev': map<Cell, Option<Cell>>, dist': map<Cell, nat>, q': seq<Cell>)
    requires Rectangular(g) && c in dist && prev.Keys == dist.Keys
    requires forall e :: e in q ==> e in prev
    requires ScannedUpTo(g, c, prev, dist, q, |Dirs4|, prev', dist', q')
    ensures forall e :: e in q' ==> e in prev'
    ensures |q| <= |q'| && q'[..|q|] == q
    ensures forall i :: |q| <= i < |q'| ==> q'[i] in prev' && q'[i] !in prev
    ensures prev'.Keys == prev.Keys ==> q' == q
    ensures q' == q + Fresh(g, c, prev, |Dirs4|)
    ensures forall e :: e in prev' <==> e in prev || e in Fresh(g, c, prev, |Dirs4|)
  {
    var f := Fresh(g, c, prev, |Dirs4|);
    FreshMembers(g, c, prev, |Dirs4|);
    assert forall i :: |q| <= i < |q'| ==> q'[i] == f[i - |q|];
    assert q'[..|q|] == q;
    if f != [] {
      assert f[0] in prev'.Keys && f[0] !in prev.Keys;
    }
  }

  /** Every cell the finished scan discovers is a floor neighbour of c that
      joined the queue. */
  lemma ScanLinks(g: Tiles, c: Cell, prev: map<Cell, Option<Cell>>, dist: map<Cell, nat>, q: seq<Cell>,
                  prev': map<Cell, Option<Cell>>, dist': map<Cell, nat>, q': seq<Cell>)
    requires Rectangular(g) && c in dist && prev.Keys == dist.Keys
    requires forall e :: e in q ==> e in prev
    requires ScannedUpTo(g, c, prev, dist, q, |Dirs4|, prev', dist', q')
    ensures forall e :: e in prev' && e !in prev ==> Floor(g, e) && Adjacent(c, e) && e in q'
  {
    FreshMembers(g, c, prev, |Dirs4|);
    forall e | e in prev' && e !in prev
      ensures Floor(g, e) && Adjacent(c, e) && e in q'
    {
      assert e in Fresh(g, c, prev, |Dirs4|);
    }
  }

  /** The finished scan has discovered every floor neighbour of c. */
  lemma ScanCovers(g: Tiles, c: Cell, prev: map<Cell, Option<Cell>>, dist: map<Cell, nat>, q: seq<Cell>,
                  prev': map<Cell, Option<Cell>>, dist': map<Cell, nat>, q': seq<Cell>)
    requires Rectangular(g) && c in dist && prev.Keys == dist.Keys
    requires forall e :: e in q ==> e in prev
    requires ScannedUpTo(g, c, prev, dist, q, |Dirs4|, prev', dist', q')
    ensures forall k :: 0 <= k < |Dirs4| && Floor(g, Plus(c, Dirs4[k])) ==> Plus(c, Dirs4[k]) in prev'
  {
    FreshMembers(g, c, prev, |Dirs4|);
    forall k | 0 <= k < |Dirs4| && Floor(g, Plus(c, Dirs4[k]))
      ensures Plus(c, Dirs4[k]) in prev'
    {
      assert Plus(c, Dirs4[k]) == Around(c)[..|Dirs4|][k];
    }
  }

  /** The k-th neighbour of c is not among the cells the first k steps
      discover, and the scan of one more step adds it exactly when it is an
      undiscovered floor cell. */
  lemma FreshNext(g: Tiles, c: Cell, prev: map<Cell, Option<Cell>>, k: nat)
    requires Rectangular(g) && k < |Dirs4|
    ensures var n := Plus(c, Dirs4[k]);
            n !in Fresh(g, c, prev, k) &&
            Fresh(g, c, prev, k + 1) == Fresh(g, c, prev, k) + (if Floor(g, n) && n !in prev then [n] else [])
  {
    var n := Plus(c, Dirs4[k]);
    FreshMembers(g, c, prev, k);
    assert n == Around(c)[k] && n !in Around(c)[..k];
  }

  /** Discovering the k-th neighbour of c keeps ScannedUpTo, one step further. */
  lemma ScanTake(g: Tiles, c: Cell, prev: map<Cell, Option<Cell>>, dist: map<Cell, nat>, q: seq<Cell>, k: nat,
                 prev': map<Cell, Option<Cell>>, dist': map<Cell, nat>, q': seq<Cell>)
    requires Rectangular(g) && c in dist && k < |Dirs4|
    requires ScannedUpTo(g, c, prev, dist, q, k, prev', dist', q')
    requires Floor(g, Plus(c, Dirs4[k])) && Plus(c, Dirs4[k]) !in prev
    ensures var n := Plus(c, Dirs4[k]);
            n !in prev' &&
            ScannedUpTo(g, c, prev, dist, q, k + 1, prev'[n := Some(c)], dist'[n := dist[c] + 1], q' + [n])
  {
    var n := Plus(c, Dirs4[k]);
    FreshNext(g, c, prev, k);
    var f, f' := Fresh(g, c, prev, k), Fresh(g, c, prev, k + 1);
    var p2, d2 := prev'[n := Some(c)], dist'[n := dist[c] + 1];
    assert f' == f + [n];
    forall e
      ensures e in p2 <==> e in prev || e in f'
    {
    }
    forall e | e in prev
      ensures p2[e] == prev[e] && e in dist && d2[e] == dist[e]
    {
      assert e != n;
    }
    assert q' + [n] == q + f';
  }

  /** Passing over a k-th neighbour of c that is not an undiscovered floor
      cell keeps ScannedUpTo, one step further. */
  lemma ScanSkip(g: Tiles, c: Cell, prev: map<Cell, Option<Cell>>, dist: map<Cell, nat>, q: seq<Cell>, k: nat,
                 prev': map<Cell, Option<Cell>>, dist': map<Cell, nat>, q': seq<Cell>)
    requires Rectangular(g) && c in dist && k < |Dirs4|
    requires ScannedUpTo(g, c, prev, dist, q, k, prev', dist', q')
    requires !(Floor(g, Plus(c, Dirs4[k])) && Plus(c, Dirs4[k]) !in prev)
    ensures Floor(g, Plus(c, Dirs4[k])) ==> Plus(c, Dirs4[k]) in prev'
    ensures ScannedUpTo(g, c, prev, dist, q, k + 1, prev', dist', q')
  {
    FreshNext(g, c, prev, k);
  }

  /** The neighbour scan of one dequeued cell c: each in-bounds floor
      neighbour not seen before gets c as its parent and joins the queue. */
  method Expand(g: Tiles, c: Cell, prev: map<Cell, Option<Cell>>, q: seq<Cell>, ghost dist: map<Cell, nat>)
    returns (prev': map<Cell, Option<Cell>>, q': seq<Cell>, ghost dist': map<Cell, nat>)
    requires Rectangular(g) && c in dist && prev.Keys == dist.Keys
    requires forall e :: e in q ==> e in prev
    ensures forall e :: e in q' ==> e in prev'
    ensures Scanned(g, c, prev, dist, q, prev', dist', q')
  {
    prev', q', dist' := prev, q, dist;
    for k := 0 to |Dirs4|
      invariant ScannedUpTo(g, c, prev, dist, q, k, prev', dist', q')
    {
      var n := Plus(c, Dirs4[k]);
      if Floor(g, n) && n !in prev {
        ScanTake(g, c, prev, dist, q, k, prev', dist', q');
      } else {
        ScanSkip(g, c, prev, dist, q, k, prev', dist', q');
      }
      if 0 <= n.0 < Width(g) && 0 <= n.1 < Height(g) && g[n.1][n.0] == 0 && n !in prev' {
        prev' := prev'[n := Some(c)];
        dist' := dist'[n := dist[c] + 1];
        q' := q' + [n];
      }
    }
    ScanQueue(g, c, prev, dist, q, prev', dist', q');
    ScanLinks(g, c, prev, dist, q, prev', dist', q');
    ScanCovers(g, c, prev, dist, q, prev', dist', q');
  }

  /** Following parent links from goal back to start, then reversing: a walk
      from start to goal with one step per level of depth. */
  method Reconstruct(g: Tiles, start: Cell, goal: Cell, prev: map<Cell, Option<Cell>>, ghost dist: map<Cell, nat>)
    returns (path: seq<Cell>)
    requires Rectangular(g) && Tree(g, start, prev, dist) && goal in prev
    ensures IsWalk(g, [start] + path) && ([start] + path)[|path|] == goal
    ensures |path| == dist[goal]
  {
    path := [];
    var cur := goal;
    while cur != start
      invariant cur in prev
      invariant |path| + dist[cur] == dist[goal]
      invariant IsWalk(g, [cur] + Reverse(path)) && ([cur] + Reverse(path))[|path|] == goal
      decreases dist[cur]
    {
      var p := prev[cur].value;
      ReverseSnoc(path, cur);
      WalkPrepend(g, p, [cur] + Reverse(path));
      assert [p] + Reverse(path + [cur]) == [p] + ([cur] + Reverse(path));
      path := path + [cur];
      cur := p;
    }
    path := Reverse(path);
  }

  /** Discovering neighbours of a discovered cell c, with c as their parent
      one level further down, keeps the parent links a tree. */
  lemma TreeStep(g: Tiles, start: Cell, prev: map<Cell, Option<Cell>>, dist: map<Cell, nat>, c: Cell,
                 prev': map<Cell, Option<Cell>>, dist': map<Cell, nat>)
    requires Rectangular(g) && Tree(g, start, prev, dist) && c in prev
    requires prev'.Keys == dist'.Keys && prev.Keys <= prev'.Keys
    requires forall e :: e in prev ==> prev'[e] == prev[e] && dist'[e] == dist[e]
    requires forall e :: e in prev' && e !in prev ==>
               prev'[e] == Some(c) && dist'[e] == dist[c] + 1 && Floor(g, e) && Adjacent(c, e)
    ensures Tree(g, start, prev', dist')
  {
    forall e | e in prev' && e != start
      ensures prev'[e].Some? && prev'[e].value in prev' && Floor(g, e) &&
              Adjacent(prev'[e].value, e) && dist'[e] == dist'[prev'[e].value] + 1
    {
      if e in prev {
        assert prev[e].value in prev;
      }
    }
  }

  /** Dequeuing the head and appending its new neighbours one level deeper
      keeps the queue ordered and banded. */
  lemma FrontierStep(dist: map<Cell, nat>, q: seq<Cell>, level: nat, dist': map<Cell, nat>, q': seq<Cell>, level': nat)
    requires Frontier(dist, q, level) && |q| > 0
    requires forall e :: e in dist ==> e in dist' && dist'[e] == dist[e]
    requires forall e :: e in dist' && e !in dist ==> dist'[e] == level + 1
    requires |q| - 1 <= |q'| && q'[..|q| - 1] == q[1..]
    requires forall i :: |q| - 1 <= i < |q'| ==> q'[i] in dist' && q'[i] !in dist
    requires |q'| > 0 ==> q'[0] in dist' && level' == dist'[q'[0]]
    requires |q'| == 0 ==> level' == level
    ensures Frontier(dist', q', level')
  {
    assert forall i :: 0 <= i < |q| - 1 ==> q'[i] == q[i + 1];
    if |q'| > 0 {
      assert level <= level' <= level + 1;
    }
  }

  /** After the scan of the head c, c has all its floor neighbours discovered
      at most one level deeper, and the cells settled before stay settled. */
  lemma SettledStep(g: Tiles, dist: map<Cell, nat>, q: seq<Cell>, level: nat, dist': map<Cell, nat>, q': seq<Cell>)
    requires Rectangular(g)
    requires Settled(g, dist, q) && Frontier(dist, q, level) && |q| > 0
    requires forall e :: e in dist ==> e in dist' && dist'[e] == dist[e]
    requires forall e :: e in dist' && e !in dist ==> dist'[e] == level + 1 && e in q'
    requires |q| - 1 <= |q'| && q'[..|q| - 1] == q[1..]
    requires forall k :: 0 <= k < |Dirs4| && Floor(g, Plus(q[0], Dirs4[k])) ==> Plus(q[0], Dirs4[k]) in dist'
    ensures Settled(g, dist', q')
  {
    var c := q[0];
    forall e | e in dist' && e !in q'
      ensures forall n :: Floor(g, n) && Adjacent(e, n) ==> n in dist' && dist'[n] <= dist'[e] + 1
    {
      assert e in dist;
      if e == c {
        forall n | Floor(g, n) && Adjacent(e, n)
          ensures n in dist' && dist'[n] <= dist'[e] + 1
        {
          AdjacentStep(c, n);
          if n !in dist {
            assert dist'[n] == level + 1;
          }
        }
      } else {
        assert e !in q[1..];
        assert e !in q;
      }
    }
  }

  /** The number of cells the search may still discover shrinks when one is discovered. */
  lemma DiscoverShrinks(u: set<Cell>, a: set<Cell>, a': set<Cell>)
    requires a <= a' <= u && a != a'
    ensures |u - a'| < |u - a|
  {
    var e :| e in a' && e !in a;
    CardMono(u - a', (u - a) - {e});
  }

  lemma {:induction false} CardMono<T>(s: set<T>, t: set<T>)
    requires s <= t
    ensures |s| <= |t|
    decreases |s|
  {
    if s != {} {
      var x :| x in s;
      CardMono(s - {x}, t - {x});
    }
  }

  /** The loop invariant of the search. */
  ghost predicate Searching(g: Tiles, start: Cell, goal: Cell, prev: map<Cell, Option<Cell>>,
                            dist: map<Cell, nat>, q: seq<Cell>, level: nat)
    requires Rectangular(g)
  {
    Tree(g, start, prev, dist) && Frontier(dist, q, level) && Settled(g, dist, q) &&
    (goal in dist ==> goal in q)
  }

  /** Every discovered cell joined the queue exactly once: the queue holds
      discovered cells, none twice, and the cells scanned so far and the
      cells still queued together number the cells discovered. */
  ghost predicate EnqueuedOnce(prev: map<Cell, Option<Cell>>, q: seq<Cell>, scans: nat)
  {
    (forall i, j :: 0 <= i < j < |q| ==> q[i] != q[j]) &&
    (forall i :: 0 <= i < |q| ==> q[i] in prev) &&
    scans + |q| == |prev.Keys|
  }

  /** A sequence without repeats has as many distinct elements as it is long. */
  lemma {:induction false} DistinctCard(s: seq<Cell>)
    requires forall i, j :: 0 <= i < j < |s| ==> s[i] != s[j]
    ensures |set e | e in s| == |s|
  {
    if s != [] {
      var s0 := s[..|s| - 1];
      DistinctCard(s0);
      assert (set e | e in s) == (set e | e in s0) + {s[|s| - 1]};
      assert s[|s| - 1] !in s0;
    }
  }

  /** Two sequences without repeats, the second avoiding a set that holds
      the first, join without repeats. */
  lemma JoinDistinct(t: seq<Cell>, f: seq<Cell>, known: set<Cell>)
    requires forall i, j :: 0 <= i < j < |t| ==> t[i] != t[j]
    requires forall i, j :: 0 <= i < j < |f| ==> f[i] != f[j]
    requires forall i :: 0 <= i < |t| ==> t[i] in known
    requires forall e :: e in f ==> e !in known
    ensures var s := t + f; forall i, j :: 0 <= i < j < |s| ==> s[i] != s[j]
  {
    var s := t + f;
    forall i, j | 0 <= i < j < |s|
      ensures s[i] != s[j]
    {
      if i < |t| && j >= |t| {
        assert s[i] == t[i] && s[j] == f[j - |t|];
      } else if i >= |t| {
        assert s[i] == f[i - |t|] && s[j] == f[j - |t|];
      }
    }
  }

  /** Dequeuing the head and appending the newly discovered cells, none
      known before and none twice, keeps every discovered cell queued once,
      with one more cell scanned. */
  lemma OnceStep(prev: map<Cell, Option<Cell>>, q: seq<Cell>, scans: nat,
                 prev': map<Cell, Option<Cell>>, q': seq<Cell>, f: seq<Cell>)
    requires EnqueuedOnce(prev, q, scans) && |q| > 0
    requires forall i, j :: 0 <= i < j < |f| ==> f[i] != f[j]
    requires forall e :: e in f ==> e !in prev
    requires q' == q[1..] + f
    requires forall e :: e in prev' <==> e in prev || e in f
    ensures EnqueuedOnce(prev', q', scans + 1)
  {
    var t := q[1..];
    assert forall i :: 0 <= i < |t| ==> t[i] == q[i + 1];
    JoinDistinct(t, f, prev.Keys);
    DistinctCard(f);
    var sf := set e | e in f;
    assert prev'.Keys == prev.Keys + sf;
    assert prev.Keys * sf == {};
    forall i | 0 <= i < |q'|
      ensures q'[i] in prev'
    {
      if i < |t| {
        assert q'[i] == t[i];
      } else {
        assert q'[i] == f[i - |t|];
      }
    }
  }

  /** Scanning the dequeued head keeps every discovered cell queued once. */
  lemma ScanOnce(g: Tiles, prev: map<Cell, Option<Cell>>, dist: map<Cell, nat>, q: seq<Cell>, scans: nat,
                 prev': map<Cell, Option<Cell>>, dist': map<Cell, nat>, q': seq<Cell>)
    requires Rectangular(g) && |q| > 0 && q[0] in dist
    requires EnqueuedOnce(prev, q, scans)
    requires Scanned(g, q[0], prev, dist, q[1..], prev', dist', q')
    ensures EnqueuedOnce(prev', q', scans + 1)
  {
    var f := Fresh(g, q[0], prev, |Dirs4|);
    FreshMembers(g, q[0], prev, |Dirs4|);
    assert forall i, j :: 0 <= i < j < |f| ==> f[i] != f[j];
    OnceStep(prev, q, scans, prev', q', f);
  }

  /** Dequeuing a head that is not the goal and scanning its neighbours keeps
      the loop invariant. */
  lemma SearchStep(g: Tiles, start: Cell, goal: Cell, prev: map<Cell, Option<Cell>>, dist: map<Cell, nat>,
                   q: seq<Cell>, level: nat,
                   prev': map<Cell, Option<Cell>>, dist': map<Cell, nat>, q': seq<Cell>, level': nat)
    requires Rectangular(g) && Searching(g, start, goal, prev, dist, q, level)
    requires |q| > 0 && q[0] != goal
    requires Scanned(g, q[0], prev, dist, q[1..], prev', dist', q')
    requires |q'| > 0 ==> q'[0] in dist' && level' == dist'[q'[0]]
    requires |q'| == 0 ==> level' == level
    ensures Searching(g, start, goal, prev', dist', q', level')
  {
    TreeStep(g, start, prev, dist, q[0], prev', dist');
    if goal in dist {
      assert goal in q[1..];
    }
    FrontierStep(dist, q, level, dist', q', level');
    SettledStep(g, dist, q, level, dist', q');
  }

  /** A path rebuilt when the goal reaches the head of the queue is a walk to
      the goal that no other walk from start undercuts. */
  lemma FoundShortest(g: Tiles, start: Cell, goal: Cell, prev: map<Cell, Option<Cell>>, dist: map<Cell, nat>,
                      q: seq<Cell>, level: nat, path: seq<Cell>)
    requires Rectangular(g) && Searching(g, start, goal, prev, dist, q, level)
    requires |q| > 0 && q[0] == goal
    requires IsWalk(g, [start] + path) && ([start] + path)[|path|] == goal && |path| == dist[goal]
    ensures Reachable(g, start, goal) && ShortestPath(g, start, goal, path)
  {
    HeadIsNearest(g, start, dist, q, level);
    var w := [start] + path;
    assert IsWalk(g, w) && w[0] == start && w[|w| - 1] == goal;
  }

  /** A search whose queue ran dry without meeting the goal proves the goal
      unreachable. */
  lemma NotFound(g: Tiles, start: Cell, goal: Cell, prev: map<Cell, Option<Cell>>, dist: map<Cell, nat>, level: nat)
    requires Rectangular(g) && Searching(g, start, goal, prev, dist, [], level)
    ensures !Reachable(g, start, goal)
  {
    Exhausted(g, start, goal, dist, level);
  }

  /** A scan either discovers a cell, of which there are finitely many, or
      adds nothing to the shortened queue: the search terminates. */
  lemma Progress(g: Tiles, start: Cell, c: Cell, prev: map<Cell, Option<Cell>>, dist: map<Cell, nat>, q: seq<Cell>,
                 prev': map<Cell, Option<Cell>>, dist': map<Cell, nat>, q': seq<Cell>)
    requires Rectangular(g) && c in dist && |q| > 0
    requires prev.Keys <= {start} + FloorCells(g)
    requires Scanned(g, c, prev, dist, q[1..], prev', dist', q')
    ensures prev'.Keys <= {start} + FloorCells(g)
    ensures |({start} + FloorCells(g)) - prev'.Keys| < |({start} + FloorCells(g)) - prev.Keys| ||
            (prev'.Keys == prev.Keys && |q'| < |q|)
  {
    if prev'.Keys != prev.Keys {
      DiscoverShrinks({start} + FloorCells(g), prev.Keys, prev'.Keys);
    }
  }

  /** How many cells of u the search has not discovered yet. */
  ghost function Undiscovered(u: set<Cell>, prev: map<Cell, Option<Cell>>): nat
  {
    |u - prev.Keys|
  }

  /** One round of the search loop for a head that is not the goal: dequeue
      it and scan its neighbours. The loop invariant is kept and the search
      makes progress. */
  method Round(g: Tiles, start: Cell, goal: Cell, prev: map<Cell, Option<Cell>>, q: seq<Cell>,
               ghost dist: map<Cell, nat>, ghost level: nat, ghost u: set<Cell>, ghost scans: nat)
    returns (prev': map<Cell, Option<Cell>>, q': seq<Cell>, ghost dist': map<Cell, nat>, ghost level': nat)
    requires Rectangular(g) && Searching(g, start, goal, prev, dist, q, level)
    requires |q| > 0 && q[0] != goal
    requires u == {start} + FloorCells(g) && prev.Keys <= u
    requires EnqueuedOnce(prev, q, scans)
    ensures Searching(g, start, goal, prev', dist', q', level')
    ensures EnqueuedOnce(prev', q', scans + 1)
    ensures prev'.Keys <= u
    ensures Undiscovered(u, prev') < Undiscovered(u, prev) ||
            (Undiscovered(u, prev') == Undiscovered(u, prev) && |q'| < |q|)
  {
    var cur := q[0];
    prev', q', dist' := Expand(g, cur, prev, q[1..], dist);
    level' := if |q'| > 0 then dist'[q'[0]] else level;
    SearchStep(g, start, goal, prev, dist, q, level, prev', dist', q', level');
    Progress(g, start, cur, prev, dist, q, prev', dist', q');
    ScanOnce(g, prev, dist, q, scans, prev', dist', q');
  }

  /** Breadth-first search from start to goal over in-bounds floor cells.
      Returns the cells after start up to and including goal along a shortest
      walk, the empty path when start is goal, and None when no walk exists.
      Every cell joins the queue at most once, so the number of cells
      dequeued and scanned, `scans`, is bounded by the number of floor cells
      plus start. */
  method Bfs(start: Cell, goal: Cell, g: Tiles) returns (r: Option<seq<Cell>>, ghost scans: nat)
    requires Rectangular(g)
    ensures r.None? <==> !Reachable(g, start, goal)
    ensures r.Some? ==> ShortestPath(g, start, goal, r.value)
    ensures scans <= |{start} + FloorCells(g)|
  {
    var q := [start];
    var prev := map[start := None];
    ghost var dist: map<Cell, nat> := map[start := 0];
    ghost var level: nat := 0;
    ghost var u := {start} + FloorCells(g);
    scans := 0;
    while |q| > 0
      invariant Searching(g, start, goal, prev, dist, q, level)
      invariant prev.Keys <= u
      invariant EnqueuedOnce(prev, q, scans)
      decreases Undiscovered(u, prev), |q|
    {
      var cur := q[0];
      if cur == goal {
        var path := Reconstruct(g, start, goal, prev, dist);
        FoundShortest(g, start, goal, prev, dist, q, level, path);
        CardMono(prev.Keys, u);
        return Some(path), scans;
      }
      prev, q, dist, level := Round(g, start, goal, prev, q, dist, level, u, scans);
      scans := scans + 1;
    }
    NotFound(g, start, goal, prev, dist, level);
    CardMono(prev.Keys, u);
    return None, scans;
  }

  /** Cutting the loop out of a walk that visits a cell twice leaves a walk
      between the same ends, shorter by the length of the loop. */
  lemma Shortcut(g: Tiles, w: seq<Cell>, i: nat, j: nat)
    requires Rectangular(g) && IsWalk(g, w)
    requires i < j < |w| && w[i] == w[j]
    ensures var w' := w[..i + 1] + w[j + 1..];
            IsWalk(g, w') && w'[0] == w[0] && w'[|w'| - 1] == w[|w| - 1] && |w'| == |w| - (j - i)
  {
    var w' := w[..i + 1] + w[j + 1..];
    assert forall k :: 0 <= k <= i ==> w'[k] == w[k];
    assert forall k :: i < k < |w'| ==> w'[k] == w[k + j - i];
    forall k | 0 < k < |w'|
      ensures Adjacent(w'[k - 1], w'[k])
    {
      if k == i + 1 {
        assert w'[k - 1] == w[j] && w'[k] == w[j + 1];
      }
    }
  }

  /** A shortest walk never visits a cell twice: cutting out the loop would
      give a shorter walk. */
  lemma ShortestSimple(g: Tiles, start: Cell, goal: Cell, path: seq<Cell>)
    requires Rectangular(g) && ShortestPath(g, start, goal, path)
    ensures var w := [start] + path; forall i, j :: 0 <= i < j < |w| ==> w[i] != w[j]
  {
    var w := [start] + path;
    forall i, j | 0 <= i < j < |w|
      ensures w[i] != w[j]
    {
      if w[i] == w[j] {
        Shortcut(g, w, i, j);
      }
    }
  }

  /** A sequence with no repeated element, read after its head: the head is
      not in the tail and the tail has no repeated element. */
  lemma DistinctTail(start: Cell, path: seq<Cell>)
    requires var w := [start] + path; forall i, j :: 0 <= i < j < |w| ==> w[i] != w[j]
    ensures start !in path
    ensures forall i, j :: 0 <= i < j < |path| ==> path[i] != path[j]
  {
    var w := [start] + path;
    assert forall i :: 0 <= i < |path| ==> path[i] == w[i + 1];
    forall j | 0 <= j < |path|
      ensures path[j] != start
    {
      assert w[0] != w[j + 1];
    }
  }

  /** The cells of a walk from start, read one by one. */
  lemma WalkCells(g: Tiles, start: Cell, goal: Cell, path: seq<Cell>)
    requires Rectangular(g) && IsWalk(g, [start] + path) && ([start] + path)[|path|] == goal
    ensures path != [] ==> Adjacent(start, path[0]) && path[|path| - 1] == goal
    ensures forall i :: 0 < i < |path| ==> Adjacent(path[i - 1], path[i])
    ensures forall i :: 0 <= i < |path| ==> Floor(g, path[i])
  {
    var w := [start] + path;
    assert forall i :: 0 <= i < |path| ==> path[i] == w[i + 1];
    if path != [] {
      assert w[0] == start && w[1] == path[0];
    }
  }

  /** What a shortest path looks like: empty exactly when start is the goal;
      otherwise its first cell is next to start, each cell is next to the one
      before, every cell is an in-bounds floor cell, it ends at the goal, it
      never visits start and it never visits a cell twice. */
  lemma ShortestPathShape(g: Tiles, start: Cell, goal: Cell, path: seq<Cell>)
    requires Rectangular(g) && ShortestPath(g, start, goal, path)
    ensures path == [] <==> start == goal
    ensures path != [] ==> Adjacent(start, path[0]) && path[|path| - 1] == goal
    ensures forall i :: 0 < i < |path| ==> Adjacent(path[i - 1], path[i])
    ensures forall i :: 0 <= i < |path| ==> Floor(g, path[i])
    ensures start !in path
    ensures forall i, j :: 0 <= i < j < |path| ==> path[i] != path[j]
  {
    if start == goal {
      assert IsWalk(g, [start]);
    }
    WalkCells(g, start, goal, path);
    ShortestSimple(g, start, goal, path);
    DistinctTail(start, path);
  }
}
