/** The search loop that RunAStar and RunThetaStar share, stated once over an
    abstract graph of node indices. The two controllers differ only in the
    graph they hand it: how neighbours are enumerated, whether a neighbour may
    be attached to the current node's parent (Lazy Theta*'s line-of-sight
    shortcut; never for A*), what a step costs, and the heuristic.

    Search values G and F start at TNumericLimits<float>::Max(), modelled as
    `Inf`; all other floats are reals. */
module SearchCore {
  import opened OpenSet

  /** A G or F value: finite, or the max-float "not reached yet" sentinel. */
  datatype Dist = Inf | Fin(v: real)

  /** `a < d` where an unreached `d` is larger than every real. */
  predicate Below(a: real, d: Dist) {
    d.Inf? || a < d.v
  }

  /** FSearchNode. */
  datatype SearchNode = SearchNode(g: Dist, h: real, f: Dist, parent: int, closed: bool)

  /** The values every search buffer entry is reset to. */
  const Unvisited: SearchNode := SearchNode(Inf, 0.0, Inf, -1, false)

  /** What a search needs to know about the grid. `heuristic` is already
      aimed at the goal. */
  datatype Graph = Graph(
    n: nat,
    neighbours: int -> seq<int>,
    shortcut: (int, int) -> bool,
    cost: (int, int) -> real,
    heuristic: int -> real)

  /** Neighbour lists only name nodes of the graph. */
  predicate GraphOk(gr: Graph) {
    forall k, j | 0 <= k < gr.n && 0 <= j < |gr.neighbours(k)| ::
      0 <= gr.neighbours(k)[j] < gr.n
  }

  /** A parent link the search may record: a neighbour, or a shortcut. */
  predicate Link(gr: Graph, p: int, k: int) {
    k in gr.neighbours(p) || gr.shortcut(p, k)
  }

  /** A walk along neighbour lists. */
  predicate Walk(gr: Graph, w: seq<int>) {
    && |w| >= 1
    && (forall i | 0 <= i < |w| :: 0 <= w[i] < gr.n)
    && (forall i | 0 <= i < |w| - 1 :: w[i + 1] in gr.neighbours(w[i]))
  }

  /** A set of nodes (given by its indicator) that is closed under taking
      neighbours. */
  predicate ClosedUnderNeighbours(gr: Graph, s: seq<bool>)
    requires |s| == gr.n && GraphOk(gr)
  {
    forall k, j | 0 <= k < gr.n && s[k] && 0 <= j < |gr.neighbours(k)| :: s[gr.neighbours(k)[j]]
  }

  /** A walk that starts inside a neighbour-closed set never leaves it. */
  lemma {:induction false} WalkStaysInside(gr: Graph, s: seq<bool>, w: seq<int>)
    requires GraphOk(gr) && |s| == gr.n && ClosedUnderNeighbours(gr, s)
    requires Walk(gr, w) && s[w[0]]
    ensures forall i | 0 <= i < |w| :: s[w[i]]
    decreases |w|
  {
    if |w| > 1 {
      var front := w[..|w| - 1];
      assert Walk(gr, front);
      WalkStaysInside(gr, s, front);
      var k, m := w[|w| - 2], w[|w| - 1];
      assert s[k];
      assert m in gr.neighbours(k);
      var j :| 0 <= j < |gr.neighbours(k)| && gr.neighbours(k)[j] == m;
      assert s[gr.neighbours(k)[j]];
    }
  }

  /** Number of nodes not yet closed: the search loop's termination measure. */
  function CountOpen(nodes: seq<SearchNode>): (c: nat)
    ensures c <= |nodes|
  {
    if nodes == [] then 0
    else CountOpen(nodes[..|nodes| - 1]) + (if nodes[|nodes| - 1].closed then 0 else 1)
  }

  /** Closing one unclosed node lowers the count by exactly one. */
  lemma {:induction false} CloseLowersCount(nodes: seq<SearchNode>, k: int, c: SearchNode)
    requires 0 <= k < |nodes| && !nodes[k].closed && c.closed
    ensures CountOpen(nodes[k := c]) == CountOpen(nodes) - 1
    decreases |nodes|
  {
    var last := |nodes| - 1;
    assert nodes[k := c][..last] == if k == last then nodes[..last] else nodes[..last][k := c];
    if k < last {
      CloseLowersCount(nodes[..last], k, c);
    }
  }

  /** The count only looks at the closed flags. */
  lemma {:induction false} CountOpenByFlags(a: seq<SearchNode>, b: seq<SearchNode>)
    requires |a| == |b| && forall k | 0 <= k < |a| :: a[k].closed == b[k].closed
    ensures CountOpen(a) == CountOpen(b)
    decreases |a|
  {
    if a != [] {
      CountOpenByFlags(a[..|a| - 1], b[..|b| - 1]);
    }
  }

  /** The node Nb is attached to: Curr's parent P when P exists and the
      graph allows the shortcut P -> Nb, otherwise Curr itself. */
  function Predecessor(gr: Graph, nodes: seq<SearchNode>, curr: int, k: int): (p: int)
    requires 0 <= curr < |nodes|
    ensures p == curr || (p == nodes[curr].parent && p != -1 && gr.shortcut(p, k))
    ensures nodes[curr].parent == -1 || !gr.shortcut(nodes[curr].parent, k) ==> p == curr
  {
    var parent := nodes[curr].parent;
    if parent != -1 && gr.shortcut(parent, k) then parent else curr
  }

  /** The facts about a predecessor that make its G usable. */
  predicate Settled(nodes: seq<SearchNode>, p: int) {
    0 <= p < |nodes| && nodes[p].closed && nodes[p].g.Fin?
  }

  /** One relaxation of neighbour Nb from Curr. A closed neighbour is left
      alone. Otherwise the candidate G is the predecessor's G plus the step
      cost; only a strictly smaller G is written, together with the
      predecessor as parent, the heuristic and F = G + H. */
  function Relax(gr: Graph, nodes: seq<SearchNode>, curr: int, k: int): (r: seq<SearchNode>)
    requires 0 <= k < |nodes| && Settled(nodes, curr)
    requires nodes[curr].parent != -1 ==> Settled(nodes, nodes[curr].parent)
    ensures |r| == |nodes| && forall i | 0 <= i < |nodes| && i != k :: r[i] == nodes[i]
    ensures nodes[k].closed ==> r[k] == nodes[k]
    ensures !nodes[k].closed ==> r[k].g.Fin? && !r[k].closed
    ensures r[k] != nodes[k] ==>
      var p := Predecessor(gr, nodes, curr, k);
      && !nodes[k].closed
      && r[k].g == Fin(nodes[p].g.v + gr.cost(p, k))
      && Below(r[k].g.v, nodes[k].g)
      && r[k].parent == p
      && r[k].f == Fin(r[k].g.v + r[k].h)
    ensures var p := Predecessor(gr, nodes, curr, k);
      !nodes[k].closed && Below(nodes[p].g.v + gr.cost(p, k), nodes[k].g) ==> r[k] != nodes[k]
  {
    if nodes[k].closed then nodes
    else
      var p := Predecessor(gr, nodes, curr, k);
      var tentative := nodes[p].g.v + gr.cost(p, k);
      if Below(tentative, nodes[k].g) then
        var h := gr.heuristic(k);
        nodes[k := SearchNode(Fin(tentative), h, Fin(tentative + h), p, false)]
      else nodes
  }

  /** The facts the search loop keeps, apart from the open set's content.
      `rank[k]` is the (ghost) moment node k was closed and `time` the next
      moment; parents are always closed earlier than their children, which is
      why the parent chain ends. */
  predicate ParentsOk(gr: Graph, nodes: seq<SearchNode>, start: int, rank: seq<nat>, time: nat)
    requires |nodes| == gr.n
  {
    && |rank| == gr.n
    && 0 <= start < gr.n && nodes[start].parent == -1
    && forall k | 0 <= k < gr.n :: ParentOk(gr, nodes, start, rank, time, k)
  }

  /** A closed node was closed before `time`; a reached node other than the
      start hangs off a closed parent through a link, and was closed (if at
      all) after that parent. */
  predicate ParentOk(gr: Graph, nodes: seq<SearchNode>, start: int, rank: seq<nat>, time: nat, k: int)
    requires |nodes| == gr.n && |rank| == gr.n && 0 <= k < gr.n
  {
    && (nodes[k].closed ==> nodes[k].g.Fin? && rank[k] < time)
    && (k != start && nodes[k].g.Fin? ==>
          && 0 <= nodes[k].parent < gr.n
          && nodes[nodes[k].parent].closed
          && Link(gr, nodes[k].parent, k)
          && (nodes[k].closed ==> rank[nodes[k].parent] < rank[k]))
  }

  /** Every neighbour of a closed node has been reached. */
  predicate Expanded(gr: Graph, nodes: seq<SearchNode>)
    requires |nodes| == gr.n && GraphOk(gr)
  {
    forall k | 0 <= k < gr.n :: NeighboursReached(gr, nodes, k)
  }

  predicate NeighboursReached(gr: Graph, nodes: seq<SearchNode>, k: int)
    requires |nodes| == gr.n && GraphOk(gr) && 0 <= k < gr.n
  {
    nodes[k].closed ==> forall j | 0 <= j < |gr.neighbours(k)| :: nodes[gr.neighbours(k)[j]].g.Fin?
  }

  /** The open set holds exactly the reached, unclosed nodes. */
  predicate Frontier(gr: Graph, nodes: seq<SearchNode>, open: OpenSet)
    requires |nodes| == gr.n
  {
    && Valid(open) && |open.pos| == gr.n
    && forall k | 0 <= k < gr.n :: (k in Elements(open) <==> nodes[k].g.Fin? && !nodes[k].closed)
  }

  /** Until the start node is closed it is the only node reached. */
  predicate StartFirst(gr: Graph, nodes: seq<SearchNode>, start: int)
    requires |nodes| == gr.n && 0 <= start < gr.n
  {
    && nodes[start].g.Fin?
    && (!nodes[start].closed ==> forall k | 0 <= k < gr.n && nodes[k].g.Fin? :: k == start)
  }

  /** Relaxing one neighbour and pushing or lowering it in the open set
      keeps the search's bookkeeping intact. */
  method RelaxNeighbour(gr: Graph, nodes0: seq<SearchNode>, open0: OpenSet, curr: int, k: int,
                        start: int, ghost rank: seq<nat>, ghost time: nat)
    returns (nodes: seq<SearchNode>, open: OpenSet)
    requires |nodes0| == gr.n && 0 <= curr < gr.n && 0 <= k < gr.n && 0 <= start < gr.n
    requires nodes0[curr].closed && nodes0[start].closed
    requires k in gr.neighbours(curr)
    requires Frontier(gr, nodes0, open0) && ParentsOk(gr, nodes0, start, rank, time)
    ensures |nodes| == gr.n && Frontier(gr, nodes, open) && ParentsOk(gr, nodes, start, rank, time)
    ensures forall i | 0 <= i < gr.n :: nodes[i].closed == nodes0[i].closed
    ensures forall i | 0 <= i < gr.n && nodes0[i].g.Fin? :: nodes[i].g.Fin?
    ensures nodes[k].g.Fin?
  {
    CurrentSettled(gr, nodes0, curr, start, rank, time);
    var next := Relax(gr, nodes0, curr, k);
    if next == nodes0 {
      assert ParentOk(gr, nodes0, start, rank, time, k);
      return nodes0, open0;
    }
    open := PushOrDecrease(open0, k, next[k].f.v);
    nodes := next;
    RelaxKeepsParents(gr, nodes0, curr, k, start, rank, time);
    FrontierAfterRelax(gr, nodes0, open0, nodes, open, k, DecreasedKey(open0, k, next[k].f.v));
  }

  /** A closed node and its parent, if any, both have a usable G. */
  lemma CurrentSettled(gr: Graph, nodes: seq<SearchNode>, curr: int, start: int, rank: seq<nat>, time: nat)
    requires |nodes| == gr.n && 0 <= curr < gr.n && nodes[curr].closed
    requires ParentsOk(gr, nodes, start, rank, time)
    ensures Settled(nodes, curr)
    ensures nodes[curr].parent != -1 ==> Settled(nodes, nodes[curr].parent)
  {
    assert ParentOk(gr, nodes, start, rank, time, curr);
    if curr != start {
      var p := nodes[curr].parent;
      assert ParentOk(gr, nodes, start, rank, time, p);
    }
  }

  lemma RelaxKeepsParents(gr: Graph, nodes: seq<SearchNode>, curr: int, k: int,
                          start: int, rank: seq<nat>, time: nat)
    requires |nodes| == gr.n && 0 <= curr < gr.n && 0 <= k < gr.n && 0 <= start < gr.n
    requires nodes[curr].closed && nodes[start].closed
    requires k in gr.neighbours(curr)
    requires ParentsOk(gr, nodes, start, rank, time)
    requires Settled(nodes, curr) && (nodes[curr].parent != -1 ==> Settled(nodes, nodes[curr].parent))
    ensures ParentsOk(gr, Relax(gr, nodes, curr, k), start, rank, time)
  {
    var next := Relax(gr, nodes, curr, k);
    if next != nodes {
      var p := Predecessor(gr, nodes, curr, k);
      assert Link(gr, p, k);
      assert ParentOk(gr, nodes, start, rank, time, k);
      forall i | 0 <= i < gr.n
        ensures ParentOk(gr, next, start, rank, time, i)
      {
        assert ParentOk(gr, nodes, start, rank, time, i);
        if i != k && i != start && nodes[i].g.Fin? {
          var q := nodes[i].parent;
          assert nodes[q].closed;
          assert q != k;
        }
      }
    }
  }

  lemma FrontierAfterRelax(gr: Graph, nodes: seq<SearchNode>, open: OpenSet,
                           nodes': seq<SearchNode>, open': OpenSet, k: int, key: real)
    requires |nodes| == gr.n && |nodes'| == gr.n && 0 <= k < gr.n
    requires Frontier(gr, nodes, open)
    requires forall i | 0 <= i < gr.n && i != k :: nodes'[i] == nodes[i]
    requires nodes'[k].g.Fin? && !nodes'[k].closed
    requires Valid(open') && |open'.pos| == gr.n
    requires Elements(open') == Elements(open)[k := key]
    ensures Frontier(gr, nodes', open')
  {
  }

  /** Expanding one node: relax each of its neighbours in list order, and
      push or lower every neighbour whose G improved. */
  method Expand(gr: Graph, nodes0: seq<SearchNode>, open0: OpenSet, curr: int, start: int,
                ghost rank: seq<nat>, ghost time: nat)
    returns (nodes: seq<SearchNode>, open: OpenSet)
    requires GraphOk(gr) && |nodes0| == gr.n && 0 <= curr < gr.n && 0 <= start < gr.n
    requires nodes0[curr].closed && nodes0[start].closed
    requires Frontier(gr, nodes0, open0) && ParentsOk(gr, nodes0, start, rank, time)
    requires forall k | 0 <= k < gr.n && k != curr :: NeighboursReached(gr, nodes0, k)
    ensures |nodes| == gr.n && Frontier(gr, nodes, open) && ParentsOk(gr, nodes, start, rank, time)
    ensures Expanded(gr, nodes)
    ensures forall k | 0 <= k < gr.n :: nodes[k].closed == nodes0[k].closed
    ensures forall k | 0 <= k < gr.n && nodes0[k].g.Fin? :: nodes[k].g.Fin?
  {
    nodes, open := nodes0, open0;
    var nbs := gr.neighbours(curr);
    var j := 0;
    while j < |nbs|
      invariant 0 <= j <= |nbs| && |nodes| == gr.n
      invariant Frontier(gr, nodes, open) && ParentsOk(gr, nodes, start, rank, time)
      invariant forall k | 0 <= k < gr.n :: nodes[k].closed == nodes0[k].closed
      invariant forall k | 0 <= k < gr.n && nodes0[k].g.Fin? :: nodes[k].g.Fin?
      invariant forall i | 0 <= i < j :: 0 <= nbs[i] < gr.n && nodes[nbs[i]].g.Fin?
    {
      assert 0 <= nbs[j] < gr.n;
      ghost var before := nodes;
      nodes, open := RelaxNeighbour(gr, nodes, open, curr, nbs[j], start, rank, time);
      assert forall i | 0 <= i < j :: before[nbs[i]].g.Fin?;
      j := j + 1;
    }
    forall k | 0 <= k < gr.n
      ensures NeighboursReached(gr, nodes, k)
    {
      if k != curr && nodes[k].closed {
        assert NeighboursReached(gr, nodes0, k);
        forall j | 0 <= j < |gr.neighbours(k)|
          ensures nodes[gr.neighbours(k)[j]].g.Fin?
        {
          assert nodes0[gr.neighbours(k)[j]].g.Fin?;
        }
      }
    }
  }

  /** The parent chain from the goal back to the node without a parent,
      which is the start. (The source appends while tracing and reverses
      afterwards; prepending builds the same sequence.) */
  method TraceParents(gr: Graph, nodes: seq<SearchNode>, start: int, goal: int,
                      ghost rank: seq<nat>, ghost time: nat)
    returns (path: seq<int>)
    requires |nodes| == gr.n && 0 <= goal < gr.n && nodes[goal].g.Fin?
    requires ParentsOk(gr, nodes, start, rank, time)
    ensures |path| >= 1 && path[0] == start && path[|path| - 1] == goal
    ensures forall i | 0 <= i < |path| :: 0 <= path[i] < gr.n
    ensures forall i | 0 <= i < |path| - 1 :: Link(gr, path[i], path[i + 1])
    ensures goal == start ==> path == [start]
  {
    var trace := goal;
    path := [];
    while trace != -1
      invariant trace == -1 || (0 <= trace < gr.n && nodes[trace].g.Fin?)
      invariant trace == -1 ==> |path| >= 1 && path[0] == start && nodes[start].parent == -1
      invariant path == [] ==> trace == goal
      invariant goal == start && path != [] ==> path == [start] && trace == -1
      invariant forall i | 0 <= i < |path| :: 0 <= path[i] < gr.n && nodes[path[i]].g.Fin?
      invariant path != [] ==> path[|path| - 1] == goal && nodes[path[0]].parent == trace
      invariant forall i | 0 <= i < |path| - 1 :: Link(gr, path[i], path[i + 1])
      invariant path != [] && trace != -1 ==> Link(gr, trace, path[0])
      invariant path != [] && trace != -1 ==> Measure(nodes, rank, time, trace) < Measure(nodes, rank, time, path[0])
      decreases if trace == -1 then 0 else Measure(nodes, rank, time, trace) + 1
    {
      var parent := nodes[trace].parent;
      assert ParentOk(gr, nodes, start, rank, time, trace);
      if parent != -1 {
        assert ParentOk(gr, nodes, start, rank, time, parent);
      }
      path := [trace] + path;
      trace := parent;
    }
  }

  /** A node's place in the closing order; unclosed nodes come last. */
  function Measure(nodes: seq<SearchNode>, rank: seq<nat>, time: nat, k: int): nat
    requires 0 <= k < |nodes| && |rank| == |nodes|
  {
    if nodes[k].closed then rank[k] else time
  }

  /** RunAStar / RunThetaStar from the search buffers onwards: reset every
      node, push the start with G = 0 and F = H, then repeatedly pop the
      node with the smallest F; stop when it is the goal, otherwise close it
      and expand it. When the goal was popped, return its parent chain;
      otherwise return nothing.

      A non-empty result runs from start to goal along recorded links; an
      empty one means no walk along neighbour lists joins start to goal; and
      a search from a node to itself returns just that node. */
  method BestFirst(gr: Graph, start: int, goal: int) returns (path: seq<int>)
    requires GraphOk(gr) && 0 <= start < gr.n && 0 <= goal < gr.n
    ensures path != [] ==> path[0] == start && path[|path| - 1] == goal
    ensures forall i | 0 <= i < |path| :: 0 <= path[i] < gr.n
    ensures forall i | 0 <= i < |path| - 1 :: Link(gr, path[i], path[i + 1])
    ensures path == [] ==> forall w | Walk(gr, w) && w[0] == start :: w[|w| - 1] != goal
    ensures start == goal ==> path == [start]
  {
    var h := gr.heuristic(start);
    var nodes := seq(gr.n, _ => Unvisited)[start := SearchNode(Fin(0.0), h, Fin(h), -1, false)];
    var open := Push(Init(gr.n), start, h);
    ghost var rank: seq<nat> := seq(gr.n, _ => 0);
    ghost var time: nat := 0;
    Initially(gr, nodes, open, start, rank);
    var found := false;
    while !IsEmpty(open)
      invariant |nodes| == gr.n && Frontier(gr, nodes, open)
      invariant ParentsOk(gr, nodes, start, rank, time)
      invariant StartFirst(gr, nodes, start)
      invariant Expanded(gr, nodes)
      invariant !nodes[goal].closed && !found
      decreases CountOpen(nodes)
    {
      var curr, before := 0, open;
      open, curr := PopMin(open);
      if curr == goal {
        found := true;
        break;
      }
      nodes, open, rank, time := Settle(gr, nodes, before, open, curr, start, rank, time);
    }
    if found {
      path := TraceParents(gr, nodes, start, goal, rank, time);
    } else {
      path := [];
      Exhausted(gr, nodes, open, start, goal);
    }
  }

  /** Only the start is reached, and it is open: every invariant of the
      search loop holds. */
  lemma Initially(gr: Graph, nodes: seq<SearchNode>, open: OpenSet, start: int, rank: seq<nat>)
    requires GraphOk(gr) && 0 <= start < gr.n && |rank| == gr.n
    requires nodes == seq(gr.n, _ => Unvisited)[start := SearchNode(Fin(0.0), gr.heuristic(start), Fin(gr.heuristic(start)), -1, false)]
    requires Valid(open) && |open.pos| == gr.n && Elements(open) == map[start := gr.heuristic(start)]
    ensures Frontier(gr, nodes, open) && ParentsOk(gr, nodes, start, rank, 0)
    ensures StartFirst(gr, nodes, start) && Expanded(gr, nodes)
  {
    assert forall k | 0 <= k < gr.n :: ParentOk(gr, nodes, start, rank, 0, k);
    assert forall k | 0 <= k < gr.n :: NeighboursReached(gr, nodes, k);
  }

  /** One round after Curr has been popped and found not to be the goal:
      close Curr, then relax its neighbours. One more node is closed. */
  method Settle(gr: Graph, nodes0: seq<SearchNode>, before: OpenSet, open0: OpenSet, curr: int,
                start: int, ghost rank0: seq<nat>, ghost time0: nat)
    returns (nodes: seq<SearchNode>, open: OpenSet, ghost rank: seq<nat>, ghost time: nat)
    requires GraphOk(gr) && |nodes0| == gr.n && 0 <= start < gr.n
    requires Frontier(gr, nodes0, before) && ParentsOk(gr, nodes0, start, rank0, time0)
    requires StartFirst(gr, nodes0, start) && Expanded(gr, nodes0)
    requires Valid(open0) && |open0.pos| == gr.n
    requires curr in Elements(before) && Elements(open0) == Elements(before) - {curr}
    ensures |nodes| == gr.n && Frontier(gr, nodes, open) && ParentsOk(gr, nodes, start, rank, time)
    ensures StartFirst(gr, nodes, start) && Expanded(gr, nodes)
    ensures forall k | 0 <= k < gr.n && k != curr :: nodes[k].closed == nodes0[k].closed
    ensures CountOpen(nodes) < CountOpen(nodes0)
  {
    CloseCurrent(gr, nodes0, before, open0, curr, start, rank0, time0);
    CloseLowersCount(nodes0, curr, nodes0[curr].(closed := true));
    var closedNow := nodes0[curr := nodes0[curr].(closed := true)];
    rank, time := rank0[curr := time0], time0 + 1;
    nodes, open := Expand(gr, closedNow, open0, curr, start, rank, time);
    CountOpenByFlags(closedNow, nodes);
  }

  /** Popping Curr and closing it keeps the bookkeeping, except that Curr's
      own neighbours are still to be reached. */
  lemma CloseCurrent(gr: Graph, nodes: seq<SearchNode>, open: OpenSet, open': OpenSet,
                     curr: int, start: int, rank: seq<nat>, time: nat)
    requires GraphOk(gr) && |nodes| == gr.n && 0 <= start < gr.n
    requires Frontier(gr, nodes, open) && ParentsOk(gr, nodes, start, rank, time)
    requires StartFirst(gr, nodes, start) && Expanded(gr, nodes)
    requires Valid(open') && |open'.pos| == gr.n
    requires curr in Elements(open) && Elements(open') == Elements(open) - {curr}
    ensures 0 <= curr < gr.n
    ensures var nodes' := nodes[curr := nodes[curr].(closed := true)];
      && Frontier(gr, nodes', open')
      && ParentsOk(gr, nodes', start, rank[curr := time], time + 1)
      && nodes'[start].closed
      && forall k | 0 <= k < gr.n && k != curr :: NeighboursReached(gr, nodes', k)
  {
    var nodes' := nodes[curr := nodes[curr].(closed := true)];
    var rank' := rank[curr := time];
    var time' := time + 1;
    assert ParentOk(gr, nodes, start, rank, time, curr);
    forall k | 0 <= k < gr.n
      ensures ParentOk(gr, nodes', start, rank', time', k)
    {
      assert ParentOk(gr, nodes, start, rank, time, k);
      if k != start && nodes[k].g.Fin? {
        var q := nodes[k].parent;
        assert q != curr;
        assert ParentOk(gr, nodes, start, rank, time, q);
      }
    }
    forall k | 0 <= k < gr.n && k != curr
      ensures NeighboursReached(gr, nodes', k)
    {
      assert NeighboursReached(gr, nodes, k);
    }
  }

  /** When the open set runs dry, the closed nodes contain the start and are
      closed under taking neighbours, so no walk from the start reaches an
      unclosed goal. */
  lemma Exhausted(gr: Graph, nodes: seq<SearchNode>, open: OpenSet, start: int, goal: int)
    requires GraphOk(gr) && |nodes| == gr.n && 0 <= start < gr.n && 0 <= goal < gr.n
    requires Frontier(gr, nodes, open) && Elements(open) == map[]
    requires StartFirst(gr, nodes, start) && Expanded(gr, nodes)
    requires !nodes[goal].closed
    ensures forall w | Walk(gr, w) && w[0] == start :: w[|w| - 1] != goal
  {
    var closed := seq(gr.n, k requires 0 <= k < gr.n => nodes[k].closed);
    forall k, j | 0 <= k < gr.n && closed[k] && 0 <= j < |gr.neighbours(k)|
      ensures closed[gr.neighbours(k)[j]]
    {
      assert NeighboursReached(gr, nodes, k);
    }
    assert nodes[start].closed;
    forall w | Walk(gr, w) && w[0] == start
      ensures w[|w| - 1] != goal
    {
      WalkStaysInside(gr, closed, w);
    }
  }
}
