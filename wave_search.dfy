/**
 * The breadth-first traversal behind substrate_propagate_wave. The walk's
 * local state (visited flags, queue, recorded distances, queue tail) is a
 * `Frontier` value; `Visit`, `VisitAll` and `Process` are one pass of the
 * neighbour loop, the whole neighbour loop and one dequeued cell, and
 * `State(o, k)` is the state once k queue slots are processed. The
 * invariants below hold in every such state; their consequences are that
 * every cell enters the queue at most once, that its recorded distance is
 * its Manhattan distance from the origin, and that the queue is ordered by
 * that distance.
 */
module WaveSearch {
  import opened Grid

  /** How many entries of a visited array are set. */
  function CountTrue(s: seq<bool>): nat
    ensures CountTrue(s) <= |s|
    decreases |s|
  {
    if |s| == 0 then 0 else (if s[0] then 1 else 0) + CountTrue(s[1..])
  }

  lemma {:induction false} CountTrueNone(s: seq<bool>)
    requires forall i :: 0 <= i < |s| ==> !s[i]
    ensures CountTrue(s) == 0
    decreases |s|
  {
    if |s| > 0 {
      CountTrueNone(s[1..]);
    }
  }

  lemma {:induction false} CountTrueSet(s: seq<bool>, i: nat)
    requires i < |s| && !s[i]
    ensures CountTrue(s[i := true]) == CountTrue(s) + 1
    decreases |s|
  {
    if i > 0 {
      assert s[i := true][1..] == s[1..][i - 1 := true];
      CountTrueSet(s[1..], i - 1);
    } else {
      assert s[i := true][1..] == s[1..];
    }
  }

  /** While some entry of a visited array is clear, fewer entries than cells are set. */
  lemma {:induction false} CountTrueRoom(s: seq<bool>, n: nat)
    requires n < |s| && !s[n]
    ensures CountTrue(s) < |s|
    decreases |s|
  {
    if n > 0 {
      CountTrueRoom(s[1..], n - 1);
    }
  }

  lemma ManhattanZeroSelf(a: nat)
    ensures Manhattan(a, a) == 0
  {
  }

  lemma ManhattanZero(a: nat, b: nat)
    requires a < CellCount && b < CellCount && Manhattan(a, b) == 0
    ensures a == b
  {
  }

  /** Hops from `o` to the cell in queue slot `k` (0 past the end of the queue). */
  function Hops(o: nat, q: seq<nat>, k: nat): nat {
    if k < |q| then Manhattan(o, q[k]) else 0
  }

  /**
   * The queue holds `tail` distinct cells, starting with the origin; `pos`
   * maps each queued cell to its slot; exactly the queued cells are visited.
   */
  ghost predicate Queued(o: nat, vis: seq<bool>, q: seq<nat>, pos: map<nat, nat>, tail: nat) {
    |vis| == CellCount && |q| == CellCount && 1 <= tail <= CellCount && q[0] == o &&
    (forall k :: 0 <= k < tail ==> q[k] < CellCount && q[k] in pos && pos[q[k]] == k) &&
    (forall c :: c in pos ==> c < CellCount && pos[c] < tail && q[pos[c]] == c) &&
    (forall c :: 0 <= c < CellCount ==> (vis[c] <==> c in pos)) &&
    CountTrue(vis) == tail
  }

  /** A queued cell appears in no earlier slot. */
  lemma QueuedDistinct(o: nat, vis: seq<bool>, q: seq<nat>, pos: map<nat, nat>, tail: nat, h: nat)
    requires Queued(o, vis, q, pos, tail) && h < tail
    ensures q[h] !in q[..h]
  {
    forall k | 0 <= k < h
      ensures q[k] != q[h]
    {
      assert pos[q[k]] == k && pos[q[h]] == h;
    }
  }

  /**
   * Every queued cell carries its Manhattan distance; distances never
   * decrease along the queue; and the cells still waiting are at most one
   * hop farther out than the cell processed last.
   */
  ghost predicate Ordered(o: nat, q: seq<nat>, dist: seq<nat>, head: nat, tail: nat) {
    |q| == CellCount && |dist| == CellCount && head <= tail <= CellCount &&
    (forall k :: 0 <= k < tail ==> q[k] < CellCount) &&
    (forall k {:trigger Hops(o, q, k)} :: 0 <= k < tail ==> dist[q[k]] == Hops(o, q, k)) &&
    (forall i, j :: 0 <= i <= j < tail ==> Hops(o, q, i) <= Hops(o, q, j)) &&
    (forall j :: head <= j < tail ==> Hops(o, q, j) <= (if head == 0 then 0 else Hops(o, q, head - 1) + 1))
  }

  /**
   * Nothing is missed: every cell no farther out than the last processed cell,
   * or than the next one, is already visited.
   */
  ghost predicate Covered(o: nat, vis: seq<bool>, q: seq<nat>, head: nat, tail: nat) {
    |vis| == CellCount && |q| == CellCount && head <= tail <= CellCount &&
    (forall k :: 0 <= k < tail ==> q[k] < CellCount) &&
    (head > 0 ==> forall c {:trigger Manhattan(o, c)} :: 0 <= c < CellCount && Manhattan(o, c) <= Hops(o, q, head - 1) ==> vis[c]) &&
    (head < tail ==> forall c {:trigger Manhattan(o, c)} :: 0 <= c < CellCount && Manhattan(o, c) <= Hops(o, q, head) ==> vis[c])
  }

  /** Every neighbour of a processed cell is visited. */
  ghost predicate Expanded(vis: seq<bool>, q: seq<nat>, head: nat) {
    |vis| == CellCount && |q| == CellCount && head <= CellCount &&
    forall k, m {:trigger Adjacent(q[k], m)} :: 0 <= k < head && 0 <= m && Adjacent(q[k], m) ==> vis[m]
  }

  /** The state after the origin is enqueued. */
  lemma Start(o: nat, vis: seq<bool>, q: seq<nat>, dist: seq<nat>)
    requires o < CellCount && |vis| == CellCount && |q| == CellCount && |dist| == CellCount
    requires forall i :: 0 <= i < CellCount ==> !vis[i]
    ensures Queued(o, vis[o := true], q[0 := o], map[o := 0], 1)
    ensures Ordered(o, q[0 := o], dist[o := 0], 0, 1)
    ensures Covered(o, vis[o := true], q[0 := o], 0, 1)
    ensures Expanded(vis[o := true], q[0 := o], 0)
  {
    CountTrueNone(vis);
    CountTrueSet(vis, o);
    StartCovered(o, vis[o := true], q[0 := o]);
  }

  lemma StartCovered(o: nat, vis: seq<bool>, q: seq<nat>)
    requires o < CellCount && |vis| == CellCount && |q| == CellCount
    requires vis[o] && q[0] == o
    ensures Covered(o, vis, q, 0, 1)
  {
    forall c | 0 <= c < CellCount && Manhattan(o, c) <= Hops(o, q, 0)
      ensures vis[c]
    {
      ManhattanZero(o, c);
    }
  }

  /** Taking the next cell off the queue keeps the ordering facts. */
  lemma Advance(o: nat, q: seq<nat>, dist: seq<nat>, head: nat, tail: nat)
    requires Ordered(o, q, dist, head, tail) && head < tail
    ensures Ordered(o, q, dist, head + 1, tail)
  {
    if head > 0 {
      assert Hops(o, q, head - 1) <= Hops(o, q, head);
    }
  }

  /**
   * Enqueuing an unvisited neighbour n of the cell being processed: its
   * distance is one more than the current cell's, and all the invariants
   * survive the update of visited, queue and distances.
   */
  lemma Enqueue(o: nat, vis: seq<bool>, q: seq<nat>, dist: seq<nat>, pos: map<nat, nat>,
                head: nat, tail: nat, n: nat, dn: nat)
    requires Queued(o, vis, q, pos, tail)
    requires Ordered(o, q, dist, head + 1, tail)
    requires Covered(o, vis, q, head, tail) && Expanded(vis, q, head)
    requires head < tail && tail < CellCount
    requires Adjacent(q[head], n) && !vis[n]
    requires dn == dist[q[head]] + 1
    ensures Manhattan(o, n) == Hops(o, q, head) + 1
    ensures Queued(o, vis[n := true], q[tail := n], pos[n := tail], tail + 1)
    ensures Ordered(o, q[tail := n], dist[n := dn], head + 1, tail + 1)
    ensures Covered(o, vis[n := true], q[tail := n], head, tail + 1)
    ensures Expanded(vis[n := true], q[tail := n], head)
  {
    NeighborDistance(o, q[head], n);
    EnqueueQueued(o, vis, q, pos, tail, n);
    EnqueueOrdered(o, q, dist, head, tail, n, dn);
    EnqueueClosed(o, vis, q, head, tail, n);
  }

  lemma EnqueueQueued(o: nat, vis: seq<bool>, q: seq<nat>, pos: map<nat, nat>, tail: nat, n: nat)
    requires Queued(o, vis, q, pos, tail)
    requires tail < CellCount && n < CellCount && !vis[n]
    ensures Queued(o, vis[n := true], q[tail := n], pos[n := tail], tail + 1)
  {
    CountTrueSet(vis, n);
    var q' := q[tail := n];
    var pos' := pos[n := tail];
    forall k | 0 <= k < tail + 1
      ensures q'[k] < CellCount && q'[k] in pos' && pos'[q'[k]] == k
    {
      if k < tail {
        assert q[k] in pos;
        assert q[k] != n;
      }
    }
  }

  lemma EnqueueOrdered(o: nat, q: seq<nat>, dist: seq<nat>, head: nat, tail: nat, n: nat, dn: nat)
    requires Ordered(o, q, dist, head + 1, tail)
    requires head < tail && tail < CellCount && n < CellCount
    requires forall k :: 0 <= k < tail ==> q[k] != n
    requires Manhattan(o, n) == Hops(o, q, head) + 1 && dn == dist[q[head]] + 1
    ensures Ordered(o, q[tail := n], dist[n := dn], head + 1, tail + 1)
  {
    var q' := q[tail := n];
    var dist' := dist[n := dn];
    assert dist[q[head]] == Hops(o, q, head);
    forall k | 0 <= k < tail + 1
      ensures dist'[q'[k]] == Hops(o, q', k)
    {
      if k < tail {
        assert Hops(o, q', k) == Hops(o, q, k);
      }
    }
    forall i, j | 0 <= i <= j < tail + 1
      ensures Hops(o, q', i) <= Hops(o, q', j)
    {
      assert i < tail ==> Hops(o, q', i) == Hops(o, q, i);
      assert j < tail ==> Hops(o, q', j) == Hops(o, q, j);
      if j == tail && i < tail {
        if i <= head {
          assert Hops(o, q, i) <= Hops(o, q, head);
        } else {
          assert Hops(o, q, i) <= Hops(o, q, head) + 1;
        }
      }
    }
    forall j | head + 1 <= j < tail + 1
      ensures Hops(o, q', j) <= Hops(o, q', head) + 1
    {
      assert j < tail ==> Hops(o, q', j) == Hops(o, q, j);
    }
  }

  lemma EnqueueClosed(o: nat, vis: seq<bool>, q: seq<nat>, head: nat, tail: nat, n: nat)
    requires Covered(o, vis, q, head, tail) && Expanded(vis, q, head)
    requires head < tail && tail < CellCount && n < CellCount
    ensures Covered(o, vis[n := true], q[tail := n], head, tail + 1)
    ensures Expanded(vis[n := true], q[tail := n], head)
  {
    assert Hops(o, q[tail := n], head) == Hops(o, q, head);
    assert head > 0 ==> Hops(o, q[tail := n], head - 1) == Hops(o, q, head - 1);
  }

  /**
   * After every neighbour of the processed cell is visited, the completeness
   * facts hold one step further along the queue: a cell one hop beyond the
   * current layer has a neighbour in that layer, which was processed earlier.
   */
  lemma CloseStep(o: nat, vis: seq<bool>, q: seq<nat>, dist: seq<nat>, pos: map<nat, nat>,
                  head: nat, tail: nat)
    requires o < CellCount
    requires Queued(o, vis, q, pos, tail)
    requires Ordered(o, q, dist, head + 1, tail)
    requires Covered(o, vis, q, head, tail) && Expanded(vis, q, head)
    requires head < tail
    requires forall m :: 0 <= m && Adjacent(q[head], m) ==> vis[m]
    ensures Covered(o, vis, q, head + 1, tail) && Expanded(vis, q, head + 1)
  {
    ExpandStep(vis, q, head);
    CoverNext(o, vis, q, dist, pos, head, tail);
  }

  lemma ExpandStep(vis: seq<bool>, q: seq<nat>, head: nat)
    requires Expanded(vis, q, head) && head < CellCount
    requires forall m :: 0 <= m && Adjacent(q[head], m) ==> vis[m]
    ensures Expanded(vis, q, head + 1)
  {
  }

  lemma CoverNext(o: nat, vis: seq<bool>, q: seq<nat>, dist: seq<nat>, pos: map<nat, nat>,
                  head: nat, tail: nat)
    requires o < CellCount
    requires Queued(o, vis, q, pos, tail)
    requires Ordered(o, q, dist, head + 1, tail)
    requires Covered(o, vis, q, head, tail) && Expanded(vis, q, head + 1)
    requires head < tail
    ensures Covered(o, vis, q, head + 1, tail)
  {
    if head + 1 < tail {
      forall c | 0 <= c < CellCount && Manhattan(o, c) <= Hops(o, q, head + 1)
        ensures vis[c]
      {
        CoverStep(o, vis, q, dist, pos, head, tail, c);
      }
    }
  }

  lemma CoverStep(o: nat, vis: seq<bool>, q: seq<nat>, dist: seq<nat>, pos: map<nat, nat>,
                  head: nat, tail: nat, c: nat)
    requires o < CellCount
    requires Queued(o, vis, q, pos, tail)
    requires Ordered(o, q, dist, head + 1, tail)
    requires Covered(o, vis, q, head, tail) && Expanded(vis, q, head + 1)
    requires head + 1 < tail
    requires c < CellCount && Manhattan(o, c) <= Hops(o, q, head + 1)
    ensures vis[c]
  {
    if Manhattan(o, c) > Hops(o, q, head) {
      var p := StepToward(o, c);
      assert vis[p];
      var kp := pos[p];
      assert q[kp] == p;
      assert Hops(o, q, kp) == Manhattan(o, p);
      assert kp <= head;
      assert Adjacent(q[kp], c);
    }
  }

  /**
   * A visited set that contains the origin and is closed under taking
   * neighbours contains every cell.
   */
  lemma {:induction false} ReachesAll(o: nat, vis: seq<bool>, c: nat)
    requires o < CellCount && NeighbourClosed(vis) && vis[o]
    requires c < CellCount
    ensures vis[c]
    decreases Manhattan(o, c)
  {
    if c == o {
    } else {
      var p := StepToward(o, c);
      ReachesAll(o, vis, p);
    }
  }

  /** A cell at least twelve hops from `o`: the far end of o's row. */
  function FarCell(o: nat): (c: nat)
    requires o < CellCount
    ensures c < CellCount && Manhattan(o, c) >= 12
  {
    Y(o) * Width + (if X(o) < 32 then Width - 1 else 0)
  }

  /** Every neighbour of a visited cell is visited. */
  ghost predicate NeighbourClosed(vis: seq<bool>) {
    |vis| == CellCount &&
    forall a, m :: 0 <= a < CellCount && vis[a] && 0 <= m && Adjacent(a, m) ==> vis[m]
  }

  /** Visited cells are neighbour-closed once head has caught up with tail. */
  lemma DrainedIsClosed(o: nat, vis: seq<bool>, q: seq<nat>, pos: map<nat, nat>, head: nat)
    requires Queued(o, vis, q, pos, head)
    requires Expanded(vis, q, head)
    ensures NeighbourClosed(vis)
  {
    forall a, m | 0 <= a < CellCount && vis[a] && 0 <= m && Adjacent(a, m)
      ensures vis[m]
    {
      var k := pos[a];
      assert k < head && q[k] == a;
    }
  }

  /**
   * When the queue runs dry, every cell has been processed: the processed
   * cells contain the origin and all neighbours of processed cells.
   */
  lemma ProcessedAll(o: nat, vis: seq<bool>, q: seq<nat>, pos: map<nat, nat>, head: nat, c: nat)
    requires Queued(o, vis, q, pos, head)
    requires Expanded(vis, q, head)
    requires c < CellCount
    ensures c in pos && pos[c] < head
  {
    assert o < CellCount && vis[o] by {
      assert q[0] in pos;
    }
    DrainedIsClosed(o, vis, q, pos, head);
    ReachesAll(o, vis, c);
  }

  /**
   * The queue cannot run dry: once every queued cell is processed, the cell
   * processed last would be at least twelve hops out.
   */
  lemma NeverDrains(o: nat, vis: seq<bool>, q: seq<nat>, dist: seq<nat>, pos: map<nat, nat>, head: nat)
    requires o < CellCount && 0 < head
    requires Queued(o, vis, q, pos, head) && Ordered(o, q, dist, head, head) && Expanded(vis, q, head)
    ensures Hops(o, q, head - 1) >= 12
  {
    var far := FarCell(o);
    ProcessedAll(o, vis, q, pos, head, far);
    var k := pos[far];
    assert Hops(o, q, k) == Manhattan(o, far);
    assert Hops(o, q, k) <= Hops(o, q, head - 1);
  }

  /**
   * Where the walk ends up once it leaves its loop, whichever way: it always
   * stops by the hop bound (the queue cannot run dry first, since some cell
   * lies more than eleven hops out), after processing every cell within ten
   * hops; the queue holds distinct cells.
   */
  lemma Outcome(o: nat, vis: seq<bool>, q: seq<nat>, dist: seq<nat>, pos: map<nat, nat>,
                head: nat, tail: nat, stop: bool)
    requires o < CellCount
    requires Queued(o, vis, q, pos, tail) && Ordered(o, q, dist, head, tail)
    requires Covered(o, vis, q, head, tail) && Expanded(vis, q, head)
    requires stop ==> 0 < head && Hops(o, q, head - 1) == 11
    requires 0 < head && !stop ==> Hops(o, q, head - 1) <= 10
    requires head == tail || stop
    ensures 0 < head && Hops(o, q, head - 1) == 11
    ensures forall c :: 0 <= c < CellCount && Manhattan(o, c) <= 10 ==> c in q[..head]
    ensures forall i, j :: 0 <= i < j < tail ==> q[i] != q[j]
  {
    if !stop {
      NeverDrains(o, vis, q, dist, pos, head);
      assert false;
    }
    forall c | 0 <= c < CellCount && Manhattan(o, c) <= 10
      ensures c in q[..head]
    {
      var k := pos[c];
      assert q[k] == c && Hops(o, q, k) == Manhattan(o, c);
      assert q[..head][k] == c;
    }
    forall i, j | 0 <= i < j < tail
      ensures q[i] != q[j]
    {
      assert pos[q[i]] == i && pos[q[j]] == j;
    }
  }


  /**
   * The walk's local state: the visited flags, the queue with its tail
   * pointer and the recorded distances; `pos`, the queue slot of every
   * visited cell, is proof bookkeeping only.
   */
  datatype Frontier = Frontier(vis: seq<bool>, q: seq<nat>, dist: seq<nat>, pos: map<nat, nat>, tail: nat)

  /** Arrays of the right size and a tail that fits in the queue. */
  predicate Sized(s: Frontier) {
    |s.vis| == CellCount && |s.q| == CellCount && |s.dist| == CellCount && 1 <= s.tail <= CellCount
  }

  /** The traversal invariants with `head` slots processed. */
  ghost predicate Searching(o: nat, s: Frontier, head: nat) {
    Sized(s) &&
    Queued(o, s.vis, s.q, s.pos, s.tail) && Ordered(o, s.q, s.dist, head, s.tail) &&
    Covered(o, s.vis, s.q, head, s.tail) && Expanded(s.vis, s.q, head)
  }

  /** The invariants while slot `cur` is being processed. */
  ghost predicate Midway(o: nat, s: Frontier, cur: nat) {
    Sized(s) && cur < s.tail &&
    Queued(o, s.vis, s.q, s.pos, s.tail) && Ordered(o, s.q, s.dist, cur + 1, s.tail) &&
    Covered(o, s.vis, s.q, cur, s.tail) && Expanded(s.vis, s.q, cur)
  }


  /** Enqueuing an unvisited neighbour of the cell being processed keeps the invariants of the walk's state. */
  lemma EnqueueMidway(o: nat, s: Frontier, cur: nat, n: nat, dn: nat)
    requires Midway(o, s, cur) && dn == s.dist[s.q[cur]] + 1
    requires Adjacent(s.q[cur], n) && !s.vis[n]
    ensures s.tail < CellCount
    ensures Midway(o, Frontier(s.vis[n := true], s.q[s.tail := n], s.dist[n := dn], s.pos[n := s.tail], s.tail + 1), cur)
  {
    CountTrueRoom(s.vis, n);
    Enqueue(o, s.vis, s.q, s.dist, s.pos, cur, s.tail, n, dn);
  }

  /** Once every neighbour of the cell in slot `cur` is visited, the walk's state is ready for slot `cur + 1`. */
  lemma CloseMidway(o: nat, s: Frontier, cur: nat)
    requires o < CellCount && Midway(o, s, cur)
    requires forall m :: 0 <= m && Adjacent(s.q[cur], m) ==> s.vis[m]
    ensures Searching(o, s, cur + 1)
  {
    CloseStep(o, s.vis, s.q, s.dist, s.pos, cur, s.tail);
  }
}
