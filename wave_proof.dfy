/**
 * Why the breadth-first walk of substrate_propagate_wave works: the
 * traversal invariants of WaveSearch hold in every state `State(o, k)` the
 * walk reaches, so every cell enters the queue at most once, carries its
 * Manhattan distance from the origin, and the walk stops right after the
 * first cell eleven hops out, having processed every cell within ten hops.
 */
module WaveProof {
  import opened Grid
  import opened WaveSearch
  import opened WaveWalk

  /** One visit keeps the invariants. */
  lemma VisitStep(o: nat, s: Frontier, cur: nat, n: nat, dn: nat)
    requires Midway(o, s, cur) && dn == s.dist[s.q[cur]] + 1
    requires Adjacent(s.q[cur], n)
    ensures Midway(o, Visit(s, n, dn), cur)
  {
    if !s.vis[n] {
      EnqueueMidway(o, s, cur, n, dn);
      assert Visit(s, n, dn) == Frontier(s.vis[n := true], s.q[s.tail := n], s.dist[n := dn], s.pos[n := s.tail], s.tail + 1);
    } else {
      assert Visit(s, n, dn) == s;
    }
  }

  /** The neighbour loop keeps the queue so far, and the flags and distances of visited cells. */
  lemma {:induction false} SweepFrame(s: Frontier, ns: seq<nat>, dn: nat, j: nat)
    requires Sized(s) && j <= |ns|
    ensures Sweep(s, ns, dn, j).q[..s.tail] == s.q[..s.tail]
    ensures forall m :: 0 <= m < CellCount && s.vis[m] ==>
      Sweep(s, ns, dn, j).vis[m] && Sweep(s, ns, dn, j).dist[m] == s.dist[m]
    decreases j
  {
    if j > 0 {
      var p := Sweep(s, ns, dn, j - 1);
      var r := Sweep(s, ns, dn, j);
      SweepFrame(s, ns, dn, j - 1);
      VisitFrame(p, ns[j - 1], dn);
      calc {
        r.q[..s.tail];
        r.q[..p.tail][..s.tail];
        p.q[..p.tail][..s.tail];
        p.q[..s.tail];
      }
    }
  }

  /** The neighbour loop keeps the count and marks every cell of the store it has passed. */
  lemma {:induction false} SweepMarks(s: Frontier, ns: seq<nat>, dn: nat, j: nat)
    requires Counted(s) && j <= |ns|
    requires forall i :: 0 <= i < |ns| ==> ns[i] < CellCount
    ensures Counted(Sweep(s, ns, dn, j))
    ensures forall i :: 0 <= i < j ==> Sweep(s, ns, dn, j).vis[ns[i]]
    decreases j
  {
    if j > 0 {
      var p := Sweep(s, ns, dn, j - 1);
      SweepMarks(s, ns, dn, j - 1);
      VisitMarks(p, ns[j - 1], dn);
      VisitFrame(p, ns[j - 1], dn);
    }
  }

  /**
   * The invariants while the neighbours of cell `c`, in slot `cur`, are
   * visited with distance `dn`.
   */
  ghost predicate Sweeping(o: nat, s: Frontier, cur: nat, c: nat, dn: nat) {
    Midway(o, s, cur) && s.q[cur] == c && dn == s.dist[c] + 1
  }

  /** A visit leaves the queued and visited cell `c` where it was, with its distance. */
  lemma VisitKeeps(s: Frontier, cur: nat, c: nat, n: nat, dn: nat)
    requires Sized(s) && cur < s.tail && s.q[cur] == c && c < CellCount && s.vis[c]
    ensures Visit(s, n, dn).q[cur] == c && Visit(s, n, dn).dist[c] == s.dist[c]
  {
  }

  /** One visit of a neighbour of `c` keeps them. */
  lemma VisitSweeping(o: nat, s: Frontier, cur: nat, c: nat, dn: nat, n: nat)
    requires Sweeping(o, s, cur, c, dn) && Adjacent(c, n)
    ensures Sweeping(o, Visit(s, n, dn), cur, c, dn)
  {
    assert cur < s.tail && c < CellCount && s.vis[c] by {
      assert s.q[cur] in s.pos;
    }
    VisitKeeps(s, cur, c, n, dn);
    VisitStep(o, s, cur, n, dn);
  }

  /** So does one more pass of the neighbour loop. */
  lemma SweepOne(o: nat, s: Frontier, cur: nat, c: nat, dn: nat, ns: seq<nat>, j: nat)
    requires Sized(s) && 0 < j <= |ns| && Adjacent(c, ns[j - 1])
    requires Sweeping(o, Sweep(s, ns, dn, j - 1), cur, c, dn)
    ensures Sweeping(o, Sweep(s, ns, dn, j), cur, c, dn)
  {
    VisitSweeping(o, Sweep(s, ns, dn, j - 1), cur, c, dn, ns[j - 1]);
  }

  /** So does the neighbour loop over any list of neighbours of `c`. */
  lemma {:induction false} SweepStep(o: nat, s: Frontier, cur: nat, c: nat, dn: nat, ns: seq<nat>, j: nat)
    requires Sweeping(o, s, cur, c, dn) && j <= |ns|
    requires forall i :: 0 <= i < |ns| ==> Adjacent(c, ns[i])
    ensures Sweeping(o, Sweep(s, ns, dn, j), cur, c, dn)
    decreases j
  {
    if j == 0 {
      assert Sweep(s, ns, dn, j) == s;
    } else {
      SweepStep(o, s, cur, c, dn, ns, j - 1);
      SweepOne(o, s, cur, c, dn, ns, j);
    }
  }

  /** The neighbour loop over any list of cells adjacent to slot `cur`'s cell keeps the invariants. */
  lemma SweepMidway(o: nat, s: Frontier, cur: nat, ns: seq<nat>)
    requires Midway(o, s, cur)
    requires forall i :: 0 <= i < |ns| ==> Adjacent(s.q[cur], ns[i])
    ensures s.q[cur] < CellCount
    ensures Midway(o, Sweep(s, ns, s.dist[s.q[cur]] + 1, |ns|), cur)
  {
    var c := s.q[cur];
    SweepStep(o, s, cur, c, s.dist[c] + 1, ns, |ns|);
  }

  /** Processing slot `cur` keeps the invariants. */
  lemma ProcessMidway(o: nat, s: Frontier, cur: nat)
    requires Midway(o, s, cur)
    ensures s.q[cur] < CellCount
    ensures Midway(o, Process(s, cur), cur)
  {
    assert s.q[cur] < CellCount by {
      assert s.q[cur] in s.pos;
    }
    NeighborsAdjacent(s.q[cur]);
    SweepMidway(o, s, cur, Neighbors(s.q[cur]));
  }

  /** Processing a slot keeps the queue so far and never shrinks it. */
  lemma ProcessFrame(s: Frontier, cur: nat)
    requires Sized(s) && cur < CellCount && s.q[cur] < CellCount
    ensures Process(s, cur).q[..s.tail] == s.q[..s.tail]
  {
    SweepFrame(s, Neighbors(s.q[cur]), s.dist[s.q[cur]] + 1, |Neighbors(s.q[cur])|);
  }

  /** Processing a slot visits every cell one hop from its cell. */
  lemma ProcessMarks(s: Frontier, cur: nat)
    requires Counted(s) && cur < CellCount && s.q[cur] < CellCount
    ensures forall m :: 0 <= m && Adjacent(s.q[cur], m) ==> Process(s, cur).vis[m]
  {
    var c := s.q[cur];
    var ns := Neighbors(c);
    NeighborsAdjacent(c);
    SweepMarks(s, ns, s.dist[c] + 1, |ns|);
    forall m | 0 <= m && Adjacent(c, m)
      ensures Process(s, cur).vis[m]
    {
      NeighborsIff(c, m);
      var i :| 0 <= i < |ns| && ns[i] == m;
    }
  }

  /** Processing the next slot moves every invariant one slot along. */
  lemma ProcessStep(o: nat, s: Frontier, cur: nat)
    requires o < CellCount && Searching(o, s, cur) && cur < s.tail
    ensures s.q[cur] < CellCount
    ensures Searching(o, Process(s, cur), cur + 1)
  {
    Advance(o, s.q, s.dist, cur, s.tail);
    ProcessMidway(o, s, cur);
    ProcessFrame(s, cur);
    ProcessMarks(s, cur);
    var r := Process(s, cur);
    assert r.q[cur] == s.q[cur] by {
      assert r.q[..s.tail][cur] == s.q[..s.tail][cur];
    }
    CloseMidway(o, r, cur);
  }

  /** One more processed slot: the invariants carry over from `State(o, k)` to `State(o, k + 1)`. */
  lemma StateStep(o: nat, k: nat, n: nat)
    requires o < CellCount && k < State(o, k).tail && Searching(o, State(o, k), k) && n == k + 1
    ensures Searching(o, State(o, n), n)
  {
    ProcessStep(o, State(o, k), k);
  }

  /** Every state the walk reaches, with no more slots processed than queued, satisfies the invariants. */
  lemma {:induction false} StateInv(o: nat, k: nat)
    requires o < CellCount
    ensures k <= State(o, k).tail ==> Searching(o, State(o, k), k)
    decreases k
  {
    if k == 0 {
      StateStart(o);
    } else {
      StateInv(o, k - 1);
      StateCarry(o, k - 1, k);
    }
  }

  /** The invariants carry from `h` processed slots to `n == h + 1`, or the walk has stalled. */
  lemma StateCarry(o: nat, h: nat, n: nat)
    requires o < CellCount && n == h + 1
    requires h <= State(o, h).tail ==> Searching(o, State(o, h), h)
    ensures n <= State(o, n).tail ==> Searching(o, State(o, n), n)
  {
    if h < State(o, h).tail {
      StateStep(o, h, n);
    } else {
      StateStalls(o, h, n);
    }
  }

  /** The invariants hold before the first slot is processed. */
  lemma StateStart(o: nat)
    requires o < CellCount
    ensures Searching(o, State(o, 0), 0)
  {
    assert State(o, 0) == Init(o);
    InitSearching(o);
  }

  /** Once the walk reaches a slot past its tail, it stays where it is. */
  lemma StateStalls(o: nat, h: nat, n: nat)
    requires o < CellCount && State(o, h).tail <= h && n == h + 1
    ensures State(o, n).tail < n
  {
  }

  /** The queue prefix survives every later step of the walk, and the tail never shrinks. */
  lemma StatePrefix(o: nat, k: nat)
    requires o < CellCount
    ensures State(o, k).tail <= State(o, k + 1).tail
    ensures State(o, k + 1).q[..State(o, k).tail] == State(o, k).q[..State(o, k).tail]
  {
    var s := State(o, k);
    if k < s.tail && s.q[k] < CellCount {
      ProcessFrame(s, k);
    }
  }

  /** The origin sits in slot 0 of every state, zero hops out. */
  lemma StateOrigin(o: nat, h: nat)
    requires o < CellCount
    ensures State(o, h).q[0] == o && Hops(o, State(o, h).q, 0) == 0
  {
    StatePrefix0(o, h);
    ManhattanZeroSelf(o);
  }

  lemma {:induction false} StatePrefix0(o: nat, h: nat)
    requires o < CellCount
    ensures State(o, h).q[0] == o
    decreases h
  {
    if h > 0 {
      StatePrefix0(o, h - 1);
      StatePrefix(o, h - 1);
      assert State(o, h).q[..State(o, h - 1).tail][0] == State(o, h - 1).q[..State(o, h - 1).tail][0];
    }
  }

  /** What the invariants say about the next slot to process. */
  lemma SlotFacts(o: nat, s: Frontier, h: nat)
    requires o < CellCount && Searching(o, s, h) && h < s.tail
    ensures s.q[h] < CellCount && s.dist[s.q[h]] == Hops(o, s.q, h)
    ensures h == 0 ==> Hops(o, s.q, h) == 0
    ensures h > 0 ==> Hops(o, s.q, h) <= Hops(o, s.q, h - 1) + 1
  {
    if h == 0 {
      ManhattanZeroSelf(o);
    }
  }

  /** The same, read off `State(o, h)`. */
  lemma StateSlot(o: nat, h: nat)
    requires o < CellCount && h < State(o, h).tail
    ensures State(o, h).q[h] < CellCount && State(o, h).dist[State(o, h).q[h]] == Hops(o, State(o, h).q, h)
    ensures h > 0 ==> Hops(o, State(o, h).q, h) <= Hops(o, State(o, h).q, h - 1) + 1
  {
    StateInv(o, h);
    SlotFacts(o, State(o, h), h);
  }

  /**
   * Processing slot `h` adds its cell to the processed prefix: a cell not
   * processed before, recorded at its Manhattan distance.
   */
  lemma StateNext(o: nat, h: nat, n: nat)
    requires o < CellCount && h < State(o, h).tail && n == h + 1
    ensures State(o, h).q[h] < CellCount && State(o, h).q[h] !in State(o, h).q[..h]
    ensures State(o, h).dist[State(o, h).q[h]] == Manhattan(o, State(o, h).q[h])
    ensures State(o, n).q[..n] == State(o, h).q[..h] + [State(o, h).q[h]]
  {
    StateSlot(o, h);
    StateFresh(o, h);
    StatePrefix(o, h);
    PrefixPush(State(o, n).q, State(o, h).q, State(o, h).tail, h, n);
  }

  /** Two queues agreeing up to `t` agree up to slot `h < t` and its successor. */
  lemma PrefixPush(r: seq<nat>, s: seq<nat>, t: nat, h: nat, n: nat)
    requires h < t <= |r| && t <= |s| && n == h + 1 && r[..t] == s[..t]
    ensures r[..n] == s[..h] + [s[h]]
  {
    assert r[..n] == r[..t][..n];
    assert s[..n] == s[..t][..n];
    assert s[..n] == s[..h] + [s[h]];
  }

  /** `State(o, h + 1)`, when slot `h` is queued, is slot `h` of `State(o, h)` processed. */
  lemma StateProcess(o: nat, h: nat)
    requires o < CellCount && h < State(o, h).tail && State(o, h).q[h] < CellCount
    ensures State(o, h + 1) == Process(State(o, h), h)
  {
  }

  /** The same, for the state `st` reached after `h` slots and the cell `c` of slot `h`. */
  lemma StateAdvance(o: nat, h: nat, n: nat, st: Frontier, c: nat, dn: nat)
    requires o < CellCount && st == State(o, h) && h < st.tail && n == h + 1
    requires c == st.q[h] && c < CellCount && dn == st.dist[c] + 1
    ensures c !in st.q[..h] && st.dist[c] == Manhattan(o, c)
    ensures Sized(st) && Process(st, h) == State(o, n)
    ensures Process(st, h).q[..n] == st.q[..h] + [c]
    ensures st.dist[c] <= 10 ==> Halt(o, h) == Halt(o, n)
    ensures st.dist[c] > 10 ==> Halt(o, h) == n
  {
    StateNext(o, h, n);
    StateProcess(o, h);
    HaltStep(o, h);
  }

  /** The next slot of a state the walk reaches holds a cell of the store. */
  lemma SlotInside(o: nat, h: nat, st: Frontier)
    requires o < CellCount && st == State(o, h) && h < st.tail
    ensures st.q[h] < CellCount
  {
    StateSlot(o, h);
  }

  /**
   * Where the main loop leaves off: stopped by the hop bound after `head`
   * slots, or with the queue drained, the processed prefix is the walk.
   */
  lemma WalkEnds(o: nat, head: nat, stop: bool, st: Frontier)
    requires o < CellCount && st == State(o, head) && head <= st.tail
    requires !stop ==> Halt(o, 0) == Halt(o, head)
    requires stop ==> Halt(o, 0) == head
    requires !(head < st.tail && !stop)
    ensures Walk(o) == st.q[..head]
  {
  }

  /** The cell in slot `h` of `State(o, h)` is in no earlier slot. */
  lemma StateFresh(o: nat, h: nat)
    requires o < CellCount && h < State(o, h).tail
    ensures State(o, h).q[h] !in State(o, h).q[..h]
  {
    var s := State(o, h);
    StateInv(o, h);
    QueuedDistinct(o, s.vis, s.q, s.pos, s.tail, h);
  }

  /** While every processed slot is at most ten hops out, slot `h` of `State(o, h)` is queued. */
  lemma NextQueued(o: nat, h: nat)
    requires o < CellCount && h <= State(o, h).tail
    requires forall k :: 0 <= k < h ==> Hops(o, State(o, h).q, k) <= 10
    ensures h < State(o, h).tail
  {
    var s := State(o, h);
    StateInv(o, h);
    if h == s.tail {
      NeverDrains(o, s.vis, s.q, s.dist, s.pos, h);
      assert false;
    }
  }

  /** Processing slot `h` leaves the hop counts of slots up to `h` as they were. */
  lemma StateHops(o: nat, h: nat, n: nat)
    requires o < CellCount && h < State(o, h).tail && n == h + 1
    ensures h < State(o, n).tail
    ensures forall k :: 0 <= k <= h ==> Hops(o, State(o, n).q, k) == Hops(o, State(o, h).q, k)
  {
    var s := State(o, h);
    var r := State(o, n);
    StatePrefix(o, h);
    forall k | 0 <= k <= h
      ensures Hops(o, r.q, k) == Hops(o, s.q, k)
    {
      assert r.q[..s.tail][k] == s.q[..s.tail][k];
    }
  }

  /** A slot at most ten hops out keeps every slot so far within ten hops. */
  lemma HaltGoesOn(o: nat, h: nat, n: nat)
    requires o < CellCount && h < State(o, h).tail && n == h + 1
    requires forall k :: 0 <= k < h ==> Hops(o, State(o, h).q, k) <= 10
    requires State(o, h).q[h] < CellCount && State(o, h).dist[State(o, h).q[h]] == Hops(o, State(o, h).q, h)
    requires State(o, h).dist[State(o, h).q[h]] <= 10
    ensures n <= State(o, n).tail
    ensures forall k :: 0 <= k < n ==> Hops(o, State(o, n).q, k) <= 10
  {
    StateHops(o, h, n);
    BoundCarries(o, State(o, h).q, State(o, n).q, h, n);
  }

  /** Slots `0..h` within ten hops stay within ten hops in a queue that agrees on them. */
  lemma BoundCarries(o: nat, q: seq<nat>, r: seq<nat>, h: nat, n: nat)
    requires n == h + 1
    requires forall k :: 0 <= k <= h ==> Hops(o, r, k) == Hops(o, q, k)
    requires forall k :: 0 <= k < h ==> Hops(o, q, k) <= 10
    requires Hops(o, q, h) <= 10
    ensures forall k :: 0 <= k < n ==> Hops(o, r, k) <= 10
  {
  }

  /** One step of `Halt`: go on after a slot at most ten hops out, stop after any other. */
  lemma HaltStep(o: nat, h: nat)
    requires o < CellCount && h < State(o, h).tail && State(o, h).q[h] < CellCount
    ensures State(o, h).dist[State(o, h).q[h]] <= 10 ==> Halt(o, h) == Halt(o, h + 1)
    ensures State(o, h).dist[State(o, h).q[h]] > 10 ==> Halt(o, h) == h + 1
  {
  }

  /** Stopping after slot `h`, the first slot more than ten hops out: it is exactly eleven out. */
  lemma HaltStops(o: nat, h: nat, n: nat)
    requires o < CellCount && h < State(o, h).tail && n == h + 1
    requires forall k :: 0 <= k < h ==> Hops(o, State(o, h).q, k) <= 10
    requires State(o, h).q[h] < CellCount && State(o, h).dist[State(o, h).q[h]] == Hops(o, State(o, h).q, h)
    requires h > 0 ==> Hops(o, State(o, h).q, h) <= Hops(o, State(o, h).q, h - 1) + 1
    requires State(o, h).dist[State(o, h).q[h]] > 10
    ensures 0 < n <= State(o, n).tail
    ensures Hops(o, State(o, n).q, n - 1) == 11
    ensures forall k :: 0 <= k < n - 1 ==> Hops(o, State(o, n).q, k) <= 10
  {
    StateOrigin(o, h);
    StateHops(o, h, n);
    BoundStops(o, State(o, h).q, State(o, n).q, h, n);
  }

  /** Slots before `h` within ten hops, and slot `h` eleven out, carry over to a queue that agrees on them. */
  lemma BoundStops(o: nat, q: seq<nat>, r: seq<nat>, h: nat, n: nat)
    requires n == h + 1
    requires forall k :: 0 <= k <= h ==> Hops(o, r, k) == Hops(o, q, k)
    requires forall k :: 0 <= k < h ==> Hops(o, q, k) <= 10
    requires Hops(o, q, h) == 11
    ensures Hops(o, r, n - 1) == 11
    ensures forall k :: 0 <= k < n - 1 ==> Hops(o, r, k) <= 10
  {
  }

  /**
   * From slot `h` on, with every slot before it at most ten hops out, the
   * walk stops after `n = Halt(o, h)` slots, right after the first slot
   * eleven hops out, every earlier slot being at most ten hops out; the
   * queue never runs dry first.
   */
  lemma {:induction false} HaltFacts(o: nat, h: nat, n: nat)
    requires o < CellCount && h <= State(o, h).tail && h <= CellCount && n == Halt(o, h)
    requires forall k :: 0 <= k < h ==> Hops(o, State(o, h).q, k) <= 10
    ensures 0 < n <= State(o, n).tail
    ensures Hops(o, State(o, n).q, n - 1) == 11
    ensures forall k :: 0 <= k < n - 1 ==> Hops(o, State(o, n).q, k) <= 10
    decreases CellCount - h
  {
    NextQueued(o, h);
    StateSlot(o, h);
    HaltStep(o, h);
    if State(o, h).dist[State(o, h).q[h]] <= 10 {
      HaltGoesOn(o, h, h + 1);
      HaltFacts(o, h + 1, n);
    } else {
      HaltStops(o, h, n);
    }
  }

  /**
   * What substrate_propagate_wave's walk visits: it starts at the origin,
   * processes cells of the store, each at most once, and every cell within
   * ten hops.
   */
  lemma WalkSpec(o: nat)
    requires o < CellCount
    ensures 0 < |Walk(o)| && Walk(o)[0] == o
    ensures forall i :: 0 <= i < |Walk(o)| ==> Walk(o)[i] < CellCount
    ensures forall i, j :: 0 <= i < j < |Walk(o)| ==> Walk(o)[i] != Walk(o)[j]
    ensures forall c :: 0 <= c < CellCount && Manhattan(o, c) <= 10 ==> c in Walk(o)
  {
    var n := Halt(o, 0);
    HaltFacts(o, 0, n);
    StateInv(o, n);
    StateOrigin(o, n);
    WalkOf(o, State(o, n), n, Walk(o));
    WalkCells(o, State(o, n).q, State(o, n).dist, n, State(o, n).tail, Walk(o));
  }

  /**
   * The walk processes cells in order of distance from the origin: all but
   * the last within ten hops, and the last exactly eleven out.
   */
  lemma WalkDistances(o: nat)
    requires o < CellCount
    ensures 0 < |Walk(o)|
    ensures forall i, j :: 0 <= i <= j < |Walk(o)| ==> Manhattan(o, Walk(o)[i]) <= Manhattan(o, Walk(o)[j])
    ensures forall i :: 0 <= i < |Walk(o)| - 1 ==> Manhattan(o, Walk(o)[i]) <= 10
    ensures Manhattan(o, Walk(o)[|Walk(o)| - 1]) == 11
  {
    var n := Halt(o, 0);
    HaltFacts(o, 0, n);
    StateInv(o, n);
    WalkCells(o, State(o, n).q, State(o, n).dist, n, State(o, n).tail, Walk(o));
  }

  /** Distinctness and coverage for the processed prefix `w` of a state meeting the invariants that stopped eleven hops out. */
  lemma WalkOf(o: nat, s: Frontier, n: nat, w: seq<nat>)
    requires o < CellCount && Searching(o, s, n) && 0 < n <= s.tail && w == s.q[..n]
    requires Hops(o, s.q, n - 1) == 11
    ensures forall i, j :: 0 <= i < j < |w| ==> w[i] != w[j]
    ensures forall c :: 0 <= c < CellCount && Manhattan(o, c) <= 10 ==> c in w
  {
    Outcome(o, s.vis, s.q, s.dist, s.pos, n, s.tail, true);
  }

  /** The cells of the processed prefix `w` of an ordered queue, in order of distance. */
  lemma WalkCells(o: nat, q: seq<nat>, dist: seq<nat>, n: nat, tail: nat, w: seq<nat>)
    requires Ordered(o, q, dist, n, tail) && 0 < n <= tail && w == q[..n]
    requires Hops(o, q, n - 1) == 11
    requires forall k :: 0 <= k < n - 1 ==> Hops(o, q, k) <= 10
    ensures 0 < |w| && w[0] == q[0]
    ensures forall i :: 0 <= i < |w| ==> w[i] < CellCount
    ensures forall i, j :: 0 <= i <= j < |w| ==> Manhattan(o, w[i]) <= Manhattan(o, w[j])
    ensures forall i :: 0 <= i < |w| - 1 ==> Manhattan(o, w[i]) <= 10
    ensures Manhattan(o, w[|w| - 1]) == 11
  {
    forall i | 0 <= i < |w|
      ensures w[i] < CellCount && Manhattan(o, w[i]) == Hops(o, q, i)
    {
    }
  }
}
