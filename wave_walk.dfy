/**
 * The breadth-first walk of substrate_propagate_wave as functions of its
 * local state: `Visit`, `Sweep` and `Process` are one pass, the first passes
 * and the whole of the neighbour loop; `State(o, k)` is the state once k queue slots are
 * processed, `Halt` says how many slots the walk processes before its hop
 * bound stops it, and `Walk` lists the cells it processes.
 */
module WaveWalk {
  import opened Grid
  import opened WaveSearch

  /** The freshly cleared visited flags, and the queue and distances as allocated. */
  function NoneVisited(): (v: seq<bool>)
    ensures |v| == CellCount && forall i :: 0 <= i < CellCount ==> !v[i]
  {
    seq(CellCount, _ => false)
  }

  function Zeros(): (z: seq<nat>)
    ensures |z| == CellCount && forall i :: 0 <= i < CellCount ==> z[i] == 0
  {
    seq(CellCount, _ => 0)
  }

  /** The state right after the origin is enqueued with distance 0. */
  function Init(o: nat): (s: Frontier)
    requires o < CellCount
    ensures Sized(s) && s.tail == 1 && s.q[0] == o
  {
    Frontier(NoneVisited()[o := true], Zeros()[0 := o], Zeros()[o := 0], map[o := 0], 1)
  }

  /**
   * One pass of the neighbour loop: an unvisited neighbour is marked,
   * appended at the tail and given distance `dn` while the queue has room;
   * otherwise nothing changes. (get_cell_neighbors only lists cells of the
   * store, so the first test never fails on the walk.)
   */
  function Visit(s: Frontier, n: nat, dn: nat): (r: Frontier)
    requires Sized(s)
    ensures Sized(r) && s.tail <= r.tail
  {
    if n < CellCount && !s.vis[n] && s.tail < CellCount then
      Frontier(s.vis[n := true], s.q[s.tail := n], s.dist[n := dn], s.pos[n := s.tail], s.tail + 1)
    else s
  }

  /**
   * The first `j` passes of the neighbour loop over the list `ns` of a
   * processed cell's neighbours, which get distance `dn`.
   */
  function Sweep(s: Frontier, ns: seq<nat>, dn: nat, j: nat): (r: Frontier)
    requires Sized(s) && j <= |ns|
    ensures Sized(r) && s.tail <= r.tail
    decreases j
  {
    if j == 0 then s else Visit(Sweep(s, ns, dn, j - 1), ns[j - 1], dn)
  }

  /** Processing queue slot `cur`: every neighbour of its cell is visited with its distance plus one. */
  function Process(s: Frontier, cur: nat): (r: Frontier)
    requires Sized(s) && cur < CellCount && s.q[cur] < CellCount
    ensures Sized(r) && s.tail <= r.tail
  {
    Sweep(s, Neighbors(s.q[cur]), s.dist[s.q[cur]] + 1, |Neighbors(s.q[cur])|)
  }

  /**
   * The state once the first `k` queue slots are processed, the hop bound
   * aside; a slot past the tail, or a cell outside the grid, ends the walk.
   */
  function State(o: nat, k: nat): (s: Frontier)
    requires o < CellCount
    ensures Sized(s)
    decreases k
  {
    if k == 0 then Init(o)
    else
      var p := State(o, k - 1);
      if k - 1 < p.tail && p.q[k - 1] < CellCount then Process(p, k - 1) else p
  }

  /**
   * How many queue slots substrate_propagate_wave processes, counting from
   * slot `h`: it stops when the queue runs dry or right after processing a
   * cell recorded more than ten hops out.
   */
  function Halt(o: nat, h: nat): (n: nat)
    requires o < CellCount && h <= CellCount
    ensures h <= n <= CellCount
    decreases CellCount - h
  {
    var s := State(o, h);
    if h >= s.tail then h
    else if s.q[h] < CellCount && s.dist[s.q[h]] <= 10 then Halt(o, h + 1)
    else h + 1
  }

  /** The cells the walk processes, in order. */
  function Walk(o: nat): (w: seq<nat>)
    requires o < CellCount
  {
    State(o, Halt(o, 0)).q[..Halt(o, 0)]
  }


  lemma InitSearching(o: nat)
    requires o < CellCount
    ensures Searching(o, Init(o), 0)
  {
    Start(o, NoneVisited(), Zeros(), Zeros());
  }

  /** The number of visited flags set is the queue length: an unvisited cell always finds room. */
  predicate Counted(s: Frontier) {
    Sized(s) && CountTrue(s.vis) == s.tail
  }

  /** A visit keeps the count and always marks the neighbour. */
  lemma VisitMarks(s: Frontier, n: nat, dn: nat)
    requires Counted(s) && n < CellCount
    ensures Counted(Visit(s, n, dn)) && Visit(s, n, dn).vis[n]
  {
    if !s.vis[n] {
      CountTrueRoom(s.vis, n);
      CountTrueSet(s.vis, n);
    }
  }

  /** What one visit changes: the queue so far, and the flags and distances of visited cells, stay. */
  lemma VisitFrame(s: Frontier, n: nat, dn: nat)
    requires Sized(s)
    ensures Visit(s, n, dn).q[..s.tail] == s.q[..s.tail]
    ensures forall c :: 0 <= c < CellCount && s.vis[c] ==> Visit(s, n, dn).vis[c] && Visit(s, n, dn).dist[c] == s.dist[c]
  {
  }
}
