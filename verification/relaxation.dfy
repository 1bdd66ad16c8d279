/** The label-correcting relaxation both flow-field generators run, stated
    once over an abstract graph: a worklist of nodes whose integration value
    dropped, each popped node offering every enterable neighbour its own value
    plus the cost of stepping there. Which end of the worklist is popped (FIFO
    in the controller, LIFO in the subsystem) is left to the caller. Also here:
    the "first strictly lowest neighbour" scan both direction passes use. */
module Relaxation {

  /** An integration value. `Unreached` is the engine's maximum numeric
      value, which every real cost lies below. */
  datatype Level = Unreached | Reached(cost: nat)

  /** `a < b` on integration values. */
  predicate Less(a: Level, b: Level) {
    a.Reached? && (b.Unreached? || a.cost < b.cost)
  }

  /** What relaxing needs to know: a node's neighbours in scan order, the
      cost of stepping from a node onto a neighbour, and whether a neighbour
      may be entered at all. */
  datatype Net<!T> = Net(adj: T -> seq<T>, weight: (T, T) -> nat, open: T -> bool)

  /** Every neighbour of a node that carries a value carries one too. */
  predicate Closed<T>(net: Net<T>, values: map<T, Level>) {
    forall u, v :: u in values && v in net.adj(u) ==> v in values
  }

  /** No enterable neighbour of `u` would be improved by stepping from `u`. */
  predicate Relaxed<T>(net: Net<T>, values: map<T, Level>, u: T) {
    u in values && values[u].Reached? ==>
      forall v :: v in net.adj(u) && net.open(v) ==>
        v in values && !Less(Reached(values[u].cost + net.weight(u, v)), values[v])
  }

  /** No improving relaxation remains anywhere. */
  predicate Fixpoint<T>(net: Net<T>, values: map<T, Level>) {
    forall u :: u in values ==> Relaxed(net, values, u)
  }

  /** `after` has the nodes of `before` and differs only where it is lower. */
  predicate Lowered<T>(before: map<T, Level>, after: map<T, Level>) {
    && after.Keys == before.Keys
    && forall v :: v in before ==> after[v] == before[v] || Less(after[v], before[v])
  }

  /** No entry of `b` lies above the same entry of `a`. */
  predicate NoHigher<T>(a: map<T, Level>, b: map<T, Level>) {
    forall v :: v in a ==> v in b && !Less(a[v], b[v])
  }

  lemma NoHigherChain<T>(a: map<T, Level>, b: map<T, Level>, c: map<T, Level>)
    requires NoHigher(a, b) && Lowered(b, c)
    ensures NoHigher(a, c)
  {
  }

  /** Number of unreached entries among `nodes`. */
  function CountUnreached<T>(values: map<T, Level>, nodes: seq<T>): nat {
    if nodes == [] then 0
    else
      var here := if nodes[0] in values && values[nodes[0]].Unreached? then 1 else 0;
      here + CountUnreached(values, nodes[1..])
  }

  /** Sum of the reached entries among `nodes`. */
  function SumReached<T>(values: map<T, Level>, nodes: seq<T>): nat {
    if nodes == [] then 0
    else
      var here := if nodes[0] in values && values[nodes[0]].Reached? then values[nodes[0]].cost else 0;
      here + SumReached(values, nodes[1..])
  }

  /** The termination order of relaxation: fewer unreached nodes, or as many
      and a smaller total. */
  predicate Below<T>(a: map<T, Level>, b: map<T, Level>, nodes: seq<T>) {
    || CountUnreached(a, nodes) < CountUnreached(b, nodes)
    || (CountUnreached(a, nodes) == CountUnreached(b, nodes) && SumReached(a, nodes) < SumReached(b, nodes))
  }

  /** Lowering one entry never raises either measure; lowering an
      unreached entry of `nodes` drops the count, lowering a reached one keeps
      the count and drops the sum. */
  lemma {:induction false} LowerOne<T>(values: map<T, Level>, v: T, x: Level, nodes: seq<T>)
    requires v in values && Less(x, values[v])
    ensures CountUnreached(values[v := x], nodes) <= CountUnreached(values, nodes)
    ensures values[v].Unreached? && v in nodes ==>
      CountUnreached(values[v := x], nodes) < CountUnreached(values, nodes)
    ensures values[v].Reached? ==>
      CountUnreached(values[v := x], nodes) == CountUnreached(values, nodes)
      && SumReached(values[v := x], nodes) <= SumReached(values, nodes)
    ensures values[v].Reached? && v in nodes ==>
      SumReached(values[v := x], nodes) < SumReached(values, nodes)
  {
    if nodes != [] {
      LowerOne(values, v, x, nodes[1..]);
      assert v in nodes ==> nodes[0] == v || v in nodes[1..];
    }
  }

  lemma LowerBelow<T>(values: map<T, Level>, v: T, x: Level, nodes: seq<T>)
    requires v in values && Less(x, values[v]) && v in nodes
    ensures Below(values[v := x], values, nodes)
  {
    LowerOne(values, v, x, nodes);
  }

  /** Every entry `after` changed is an enterable neighbour of `u` now
      holding exactly `u`'s value plus the step onto it. */
  predicate Offered<T>(net: Net<T>, values: map<T, Level>, after: map<T, Level>, u: T) {
    && u in values && values[u].Reached?
    && forall v :: v in values && v in after && after[v] != values[v] ==>
         && net.open(v) && v in net.adj(u)
         && after[v] == Reached(values[u].cost + net.weight(u, v))
  }

  /** Every reached node other than `source` is enterable and is entered
      from some reached node at no more than its own value: each value is the
      cost of some route out of `source`, or more. */
  predicate Supported<T>(net: Net<T>, values: map<T, Level>, source: T) {
    forall v :: v in values && v != source && values[v].Reached? ==>
      && net.open(v)
      && exists u :: u in values && v in net.adj(u) && values[u].Reached?
                     && values[u].cost + net.weight(u, v) <= values[v].cost
  }

  /** Every reached node other than `source` is enterable and is entered
      from some reached node at exactly its own value. */
  predicate Tight<T>(net: Net<T>, values: map<T, Level>, source: T) {
    forall v :: v in values && v != source && values[v].Reached? ==>
      && net.open(v)
      && exists u :: u in values && v in net.adj(u) && values[u].Reached?
                     && values[u].cost + net.weight(u, v) == values[v].cost
  }

  /** The exact step onto a reached node other than the source. */
  lemma TightStep<T>(net: Net<T>, values: map<T, Level>, source: T, v: T) returns (u: T)
    requires Tight(net, values, source)
    requires v in values && v != source && values[v].Reached?
    ensures net.open(v)
    ensures u in values && v in net.adj(u) && values[u].Reached?
    ensures values[u].cost + net.weight(u, v) == values[v].cost
  {
    u :| u in values && v in net.adj(u) && values[u].Reached?
         && values[u].cost + net.weight(u, v) == values[v].cost;
  }

  /** Relaxing the neighbours of one node keeps every value supported. */
  lemma KeepSupported<T>(net: Net<T>, values: map<T, Level>, after: map<T, Level>, u: T, source: T)
    requires Supported(net, values, source)
    requires Lowered(values, after) && Offered(net, values, after, u)
    requires after[u] == values[u]
    ensures Supported(net, after, source)
  {
    forall v | v in after && v != source && after[v].Reached?
      ensures net.open(v)
      ensures exists w :: w in after && v in net.adj(w) && after[w].Reached?
                          && after[w].cost + net.weight(w, v) <= after[v].cost
    {
      if after[v] != values[v] {
        assert after[u].cost + net.weight(u, v) <= after[v].cost;
      } else {
        var w :| w in values && v in net.adj(w) && values[w].Reached?
                 && values[w].cost + net.weight(w, v) <= values[v].cost;
        assert after[w].cost + net.weight(w, v) <= after[v].cost;
      }
    }
  }

  /** At a fixpoint every supporting step is exact: no reached value exceeds
      the cheapest step onto it, and none lies below the step supporting
      it. */
  lemma {:induction false} FixpointTight<T>(net: Net<T>, values: map<T, Level>, source: T)
    requires Supported(net, values, source) && Fixpoint(net, values)
    ensures Tight(net, values, source)
  {
    forall v | v in values && v != source && values[v].Reached?
      ensures exists u :: u in values && v in net.adj(u) && values[u].Reached?
                          && values[u].cost + net.weight(u, v) == values[v].cost
    {
      var u :| u in values && v in net.adj(u) && values[u].Reached?
               && values[u].cost + net.weight(u, v) <= values[v].cost;
      assert Relaxed(net, values, u);
    }
  }

  // ------------------------------------------------------------- routes

  /** One step of a route: `b` is a neighbour `a` lists and may be
      entered. */
  ghost predicate Step<T>(net: Net<T>, a: T, b: T) {
    b in net.adj(a) && net.open(b)
  }

  /** `w` is a route out of `source` ending at `v`. */
  ghost predicate Route<T>(net: Net<T>, w: seq<T>, source: T, v: T) {
    && |w| >= 1 && w[0] == source && w[|w| - 1] == v
    && forall k :: 0 <= k < |w| - 1 ==> Step(net, w[k], w[k + 1])
  }

  /** The cost of walking `w`: the sum of its steps' weights. */
  ghost function RouteCost<T>(net: Net<T>, w: seq<T>): nat {
    if |w| <= 1 then 0 else RouteCost(net, w[..|w| - 1]) + net.weight(w[|w| - 2], w[|w| - 1])
  }

  /** Every reached value is what some route out of `source` costs; a node
      no route reaches therefore keeps the sentinel. */
  ghost predicate Realized<T(!new)>(net: Net<T>, values: map<T, Level>, source: T) {
    forall v :: v in values && values[v].Reached? ==>
      exists w :: Route(net, w, source, v) && RouteCost(net, w) == values[v].cost
  }

  /** The end of every route out of `source` is reached, at no more than
      the route costs. */
  ghost predicate RouteBounded<T(!new)>(net: Net<T>, values: map<T, Level>, source: T) {
    forall v, w :: v in values && Route(net, w, source, v) ==>
      values[v].Reached? && values[v].cost <= RouteCost(net, w)
  }

  /** The values are the cheapest route costs out of `source`: a node is
      reached exactly when some route reaches it, its value is the cost of
      one such route, and no route to it costs less. */
  ghost predicate Shortest<T(!new)>(net: Net<T>, values: map<T, Level>, source: T) {
    Realized(net, values, source) && RouteBounded(net, values, source)
  }

  /** Only the source reached, at 0: its one-node route realises it. */
  lemma SourceRealized<T(!new)>(net: Net<T>, values: map<T, Level>, source: T)
    requires source in values && values[source] == Reached(0)
    requires forall v :: v in values && v != source ==> values[v] == Unreached
    ensures Realized(net, values, source)
  {
    assert Route(net, [source], source, source) && RouteCost(net, [source]) == 0;
  }

  /** A route extended by one enterable neighbour of its end. */
  lemma RouteExtend<T>(net: Net<T>, w: seq<T>, source: T, u: T, v: T)
    requires Route(net, w, source, u)
    requires v in net.adj(u) && net.open(v)
    ensures Route(net, w + [v], source, v)
    ensures RouteCost(net, w + [v]) == RouteCost(net, w) + net.weight(u, v)
  {
    var w' := w + [v];
    assert w'[..|w'| - 1] == w;
    forall k | 0 <= k < |w'| - 1 ensures Step(net, w'[k], w'[k + 1]) {
      if k < |w| - 1 {
        assert w'[k] == w[k] && w'[k + 1] == w[k + 1];
      }
    }
  }

  /** Relaxing the neighbours of one node keeps every value realised: a
      lowered neighbour's new value is the route to the node, one step
      longer. */
  lemma KeepRealized<T(!new)>(net: Net<T>, values: map<T, Level>, after: map<T, Level>, u: T, source: T)
    requires Realized(net, values, source)
    requires Lowered(values, after) && Offered(net, values, after, u)
    ensures Realized(net, after, source)
  {
    forall v | v in after && after[v].Reached?
      ensures exists w :: Route(net, w, source, v) && RouteCost(net, w) == after[v].cost
    {
      if after[v] != values[v] {
        var w :| Route(net, w, source, u) && RouteCost(net, w) == values[u].cost;
        RouteExtend(net, w, source, u, v);
        assert Route(net, w + [v], source, v) && RouteCost(net, w + [v]) == after[v].cost;
      } else {
        var w :| Route(net, w, source, v) && RouteCost(net, w) == values[v].cost;
        assert RouteCost(net, w) == after[v].cost;
      }
    }
  }

  /** At a fixpoint with the source at 0, every route's end is reached at
      no more than the route costs: each step can only have lowered it
      further. */
  lemma {:induction false} RouteBound<T(!new)>(net: Net<T>, values: map<T, Level>, source: T, w: seq<T>, v: T)
    requires Fixpoint(net, values) && source in values && values[source] == Reached(0)
    requires Route(net, w, source, v)
    ensures v in values && values[v].Reached? && values[v].cost <= RouteCost(net, w)
    decreases |w|
  {
    if |w| > 1 {
      var p := w[..|w| - 1];
      var u := w[|w| - 2];
      assert Route(net, p, source, u) by {
        forall k | 0 <= k < |p| - 1 ensures Step(net, p[k], p[k + 1]) {
          assert p[k] == w[k] && p[k + 1] == w[k + 1];
        }
      }
      RouteBound(net, values, source, p, u);
      assert Step(net, u, v);
      assert Relaxed(net, values, u);
    }
  }

  /** A realised fixpoint with the source at 0 holds the cheapest route
      costs. */
  lemma FixpointShortest<T(!new)>(net: Net<T>, values: map<T, Level>, source: T)
    requires Fixpoint(net, values) && Realized(net, values, source)
    requires source in values && values[source] == Reached(0)
    ensures Shortest(net, values, source)
  {
    forall v, w | v in values && Route(net, w, source, v)
      ensures values[v].Reached? && values[v].cost <= RouteCost(net, w)
    {
      RouteBound(net, values, source, w, v);
    }
  }

  /** Two nets with the same neighbours, weights and enterable nodes. */
  ghost predicate NetsAgree<T(!new)>(a: Net<T>, b: Net<T>) {
    && (forall u :: a.adj(u) == b.adj(u))
    && (forall v :: a.open(v) == b.open(v))
    && (forall u, v :: a.weight(u, v) == b.weight(u, v))
  }

  /** Agreeing nets have the same routes at the same costs. */
  lemma {:induction false} RouteAgrees<T(!new)>(a: Net<T>, b: Net<T>, w: seq<T>, source: T, v: T)
    requires NetsAgree(a, b)
    ensures Route(a, w, source, v) <==> Route(b, w, source, v)
    ensures RouteCost(a, w) == RouteCost(b, w)
    decreases |w|
  {
    if |w| > 1 {
      RouteAgrees(a, b, w[..|w| - 1], source, v);
    }
  }

  /** The cheapest route costs depend only on the net's neighbours, weights
      and enterable nodes. */
  lemma ShortestAgrees<T(!new)>(a: Net<T>, b: Net<T>, values: map<T, Level>, source: T)
    requires NetsAgree(a, b) && Shortest(a, values, source)
    ensures Shortest(b, values, source)
  {
    forall v | v in values && values[v].Reached?
      ensures exists w :: Route(b, w, source, v) && RouteCost(b, w) == values[v].cost
    {
      var w :| Route(a, w, source, v) && RouteCost(a, w) == values[v].cost;
      RouteAgrees(a, b, w, source, v);
    }
    forall v, w | v in values && Route(b, w, source, v)
      ensures values[v].Reached? && values[v].cost <= RouteCost(b, w)
    {
      RouteAgrees(a, b, w, source, v);
    }
  }

  /** Relaxes every enterable neighbour of `u` in scan order, returning the
      lowered values and the neighbours that were lowered, in the order they
      were, which is the order the caller adds them to its worklist. */
  method RelaxFrom<T>(net: Net<T>, values: map<T, Level>, u: T, ghost nodes: seq<T>)
    returns (after: map<T, Level>, pushed: seq<T>)
    requires Closed(net, values)
    requires u in values && values[u].Reached?
    requires forall v :: v in values ==> v in nodes
    ensures Lowered(values, after)
    ensures after[u] == values[u]
    ensures Relaxed(net, after, u)
    ensures forall v :: v in values && after[v] != values[v] ==> v in pushed
    ensures forall v :: v in pushed ==> v in after && after[v].Reached?
    ensures Offered(net, values, after, u)
    ensures pushed == [] ==> after == values
    ensures pushed != [] ==> Below(after, values, nodes)
  {
    var adj := net.adj(u);
    var c := values[u].cost;
    after, pushed := values, [];
    var k := 0;
    while k < |adj|
      invariant 0 <= k <= |adj|
      invariant Lowered(values, after)
      invariant after[u] == values[u]
      invariant forall j :: 0 <= j < k && net.open(adj[j]) ==>
        !Less(Reached(c + net.weight(u, adj[j])), after[adj[j]])
      invariant forall v :: v in values && after[v] != values[v] ==>
        v in pushed && net.open(v) && v in adj && after[v] == Reached(c + net.weight(u, v))
      invariant forall v :: v in pushed ==> v in after && after[v].Reached?
      invariant pushed == [] ==> after == values
      invariant pushed != [] ==> Below(after, values, nodes)
    {
      var v := adj[k];
      assert v in values;
      if net.open(v) {
        var offer := Reached(after[u].cost + net.weight(u, v));
        if Less(offer, after[v]) {
          LowerBelow(after, v, offer, nodes);
          after := after[v := offer];
          pushed := pushed + [v];
        }
      }
      k := k + 1;
    }
  }

  /** After `u` is taken off the worklist and relaxed, every node outside the
      new worklist (`rest`, what remained, followed by `pushed`) still offers
      no improvement. */
  lemma KeepRelaxed<T>(net: Net<T>, before: map<T, Level>, after: map<T, Level>, u: T,
                       queue: seq<T>, rest: seq<T>, pushed: seq<T>)
    requires Lowered(before, after)
    requires Relaxed(net, after, u)
    requires forall v :: v in before && after[v] != before[v] ==> v in pushed
    requires forall w :: w in queue ==> w == u || w in rest
    requires forall w :: w in before && w !in queue ==> Relaxed(net, before, w)
    ensures forall w :: w in after && w !in rest + pushed ==> Relaxed(net, after, w)
  {
    forall w | w in after && w !in rest + pushed
      ensures Relaxed(net, after, w)
    {
      if w != u {
        assert w !in queue && w !in pushed;
        assert after[w] == before[w];
        StillRelaxed(net, before, after, w);
      }
    }
  }

  /** The worklist invariant: neighbours of valued nodes have values, every
      queued node has been reached and, when `settling` (relaxation started
      from a single reached node), every node off the worklist is relaxed. */
  predicate Worklist<T>(net: Net<T>, values: map<T, Level>, queue: seq<T>, settling: bool) {
    && Closed(net, values)
    && (forall w :: w in queue ==> w in values && values[w].Reached?)
    && (settling ==> forall u :: u in values && u !in queue ==> Relaxed(net, values, u))
  }

  /** One round of either worklist loop: `u` has been taken off `queue`,
      leaving `rest`; relax its neighbours and queue the lowered ones after
      `rest`. Either nothing changed or the values went down in the
      termination order. */
  method Visit<T>(net: Net<T>, values: map<T, Level>, queue: seq<T>, u: T, rest: seq<T>,
                  ghost nodes: seq<T>, ghost settling: bool)
    returns (after: map<T, Level>, pushed: seq<T>)
    requires Worklist(net, values, queue, settling)
    requires u in queue
    requires forall w :: w in queue ==> w == u || w in rest
    requires forall w :: w in rest ==> w in queue
    requires forall v :: v in values ==> v in nodes
    ensures Worklist(net, after, rest + pushed, settling)
    ensures Lowered(values, after)
    ensures Offered(net, values, after, u)
    ensures pushed == [] ==> after == values
    ensures pushed != [] ==> Below(after, values, nodes)
  {
    after, pushed := RelaxFrom(net, values, u, nodes);
    if settling {
      KeepRelaxed(net, values, after, u, queue, rest, pushed);
    }
  }

  /** Lowering the neighbours of a node with an unchanged value keeps it
      relaxed. */
  lemma StillRelaxed<T>(net: Net<T>, before: map<T, Level>, after: map<T, Level>, w: T)
    requires Lowered(before, after)
    requires w in before && after[w] == before[w] && Relaxed(net, before, w)
    ensures Relaxed(net, after, w)
  {
  }

  /** Where a scan for a lower neighbour ended: nothing lower than the bound,
      or the position of the chosen entry. */
  datatype Pick = NoneLower | At(pos: nat)

  /** The running BestCost of the scan: the chosen entry's value, or the
      bound while nothing has been chosen. */
  function Running(ls: seq<Level>, bound: Level, best: Pick): Level {
    if best.At? && best.pos < |ls| then ls[best.pos] else bound
  }

  /** The first `k` entries were scanned against `bound` and `best` is the
      first of them strictly below the bound and below every earlier entry,
      with nothing after it lower still. */
  predicate Scanned(ls: seq<Level>, bound: Level, k: nat, best: Pick) {
    && k <= |ls|
    && match best
       case NoneLower => forall q :: 0 <= q < k ==> !Less(ls[q], bound)
       case At(p) =>
         && p < k
         && Less(ls[p], bound)
         && (forall q :: 0 <= q < p ==> Less(ls[p], ls[q]))
         && (forall q :: p < q < k ==> !Less(ls[q], ls[p]))
  }

  /** The scan loop of both direction passes from entry `k` on: an entry
      replaces the running best only when strictly lower. */
  function Scan(ls: seq<Level>, bound: Level, k: nat, best: Pick): (r: Pick)
    requires Scanned(ls, bound, k, best)
    ensures Scanned(ls, bound, |ls|, r)
    decreases |ls| - k
  {
    if k == |ls| then best
    else if Less(ls[k], Running(ls, bound, best)) then Scan(ls, bound, k + 1, At(k))
    else Scan(ls, bound, k + 1, best)
  }

  /** Position `p` holds the first entry of `ls` strictly below `bound` and
      strictly below every entry before it, and no later entry is lower. */
  predicate LowestAt(ls: seq<Level>, bound: Level, p: nat) {
    && p < |ls|
    && Less(ls[p], bound)
    && (forall q :: 0 <= q < p ==> Less(ls[p], ls[q]))
    && (forall q :: p < q < |ls| ==> !Less(ls[q], ls[p]))
  }

  /** The first strictly lowest entry of `ls` below `bound`, if any. */
  function FirstLowest(ls: seq<Level>, bound: Level): (r: Pick)
    ensures r.NoneLower? <==> forall q :: 0 <= q < |ls| ==> !Less(ls[q], bound)
    ensures r.At? ==> LowestAt(ls, bound, r.pos)
  {
    Scan(ls, bound, 0, NoneLower)
  }
}
