/** FBinaryHeapOpenSet: the open set both search controllers use (their headers
    carry identical copies). A binary min-heap of (node, key) items plus a
    position array mapping each node to its heap slot, or -1 when absent, so
    that a node's key can be lowered in place.

    The structure is modelled as a value: every operation takes the current
    heap and returns the next one. Its abstract content is `Elements`, the
    map from each present node to its key. */
module OpenSet {

  /** FHeapItem; the float key F is modelled as a real. */
  datatype HeapItem = HeapItem(node: int, key: real)

  /** The `Heap` and `Pos` arrays. */
  datatype OpenSet = OpenSet(heap: seq<HeapItem>, pos: seq<int>)

  /** Heap slot i > 0 has its parent at (i - 1) >> 1. */
  function ParentSlot(i: int): int
    requires i > 0
  {
    (i - 1) / 2
  }

  /** Pos and Heap describe each other: every slot's node records that slot,
      and every node's recorded slot (when not -1) holds that node. */
  predicate Consistent(s: OpenSet) {
    && (forall i | 0 <= i < |s.heap| ::
          0 <= s.heap[i].node < |s.pos| && s.pos[s.heap[i].node] == i)
    && (forall k | 0 <= k < |s.pos| ::
          -1 <= s.pos[k] < |s.heap| && (s.pos[k] != -1 ==> s.heap[s.pos[k]].node == k))
  }

  /** The min-heap property: no slot's key is below its parent's. */
  predicate Ordered(heap: seq<HeapItem>) {
    forall i | 0 < i < |heap| :: heap[ParentSlot(i)].key <= heap[i].key
  }

  predicate Valid(s: OpenSet) {
    Consistent(s) && Ordered(s.heap)
  }

  /** The abstract content: each present node with its key. */
  function Elements(s: OpenSet): map<int, real> {
    map k | 0 <= k < |s.pos| && 0 <= s.pos[k] < |s.heap| :: s.heap[s.pos[k]].key
  }

  /** A node is present exactly when its position is not -1. */
  lemma ElementsByPosition(s: OpenSet)
    requires Consistent(s)
    ensures forall k :: k in Elements(s) <==> 0 <= k < |s.pos| && s.pos[k] != -1
  {
  }

  /** Two consistent heaps whose positions agree on presence and whose present
      nodes carry the same keys have the same content. */
  lemma SameElements(s: OpenSet, t: OpenSet)
    requires Consistent(s) && Consistent(t) && |s.pos| == |t.pos|
    requires forall k | 0 <= k < |s.pos| :: (s.pos[k] == -1) == (t.pos[k] == -1)
    requires forall k | 0 <= k < |s.pos| && s.pos[k] != -1 ::
      s.heap[s.pos[k]].key == t.heap[t.pos[k]].key
    ensures Elements(s) == Elements(t)
  {
  }

  /** Init(NumNodes): empty heap, `Pos` all -1. */
  function Init(numNodes: int): (s: OpenSet)
    requires numNodes >= 0
    ensures Valid(s) && Elements(s) == map[]
    ensures s.heap == [] && |s.pos| == numNodes
    ensures forall k | 0 <= k < numNodes :: s.pos[k] == -1
  {
    OpenSet([], seq(numNodes, _ => -1))
  }

  /** ReservePos(Num): `Pos` becomes Num entries of -1; the heap array is
      left as it is. */
  function ReservePos(s: OpenSet, num: int): (r: OpenSet)
    requires num >= 0
    ensures r.heap == s.heap && |r.pos| == num
    ensures forall k | 0 <= k < num :: r.pos[k] == -1
    ensures s.heap == [] ==> Valid(r) && Elements(r) == map[]
  {
    s.(pos := seq(num, _ => -1))
  }

  function IsEmpty(s: OpenSet): (b: bool)
    ensures Consistent(s) ==> (b <==> Elements(s) == map[])
  {
    if |s.heap| == 0 then true
    else
      assert Consistent(s) ==> s.heap[0].node in Elements(s);
      false
  }

  /** Whether some heap slot holds node k. */
  predicate HoldsNode(heap: seq<HeapItem>, k: int) {
    exists i :: 0 <= i < |heap| && heap[i].node == k
  }

  /** Clear: reset `Pos` for every node the heap holds (skipping out-of-range
      ones), then empty the heap. Positions of nodes not in the heap are left
      as they were. */
  method Clear(s: OpenSet) returns (r: OpenSet)
    ensures r.heap == [] && |r.pos| == |s.pos|
    ensures forall k | 0 <= k < |s.pos| ::
      r.pos[k] == (if HoldsNode(s.heap, k) then -1 else s.pos[k])
    ensures Consistent(s) ==> Valid(r) && Elements(r) == map[]
  {
    var pos := s.pos;
    var j := 0;
    while j < |s.heap|
      invariant 0 <= j <= |s.heap| && |pos| == |s.pos|
      invariant forall k | 0 <= k < |s.pos| ::
        pos[k] == (if HoldsNode(s.heap[..j], k) then -1 else s.pos[k])
    {
      var n := s.heap[j].node;
      if 0 <= n < |pos| {
        pos := pos[n := -1];
      }
      assert s.heap[..j + 1] == s.heap[..j] + [s.heap[j]];
      forall k | 0 <= k < |s.pos|
        ensures HoldsNode(s.heap[..j + 1], k) <==> HoldsNode(s.heap[..j], k) || k == n
      {
        if HoldsNode(s.heap[..j + 1], k) {
          var i :| 0 <= i < j + 1 && s.heap[..j + 1][i].node == k;
          if i < j {
            assert s.heap[..j][i].node == k;
          }
        }
        if k == n {
          assert s.heap[..j + 1][j].node == k;
        }
        if HoldsNode(s.heap[..j], k) {
          var i :| 0 <= i < j && s.heap[..j][i].node == k;
          assert s.heap[..j + 1][i].node == k;
        }
      }
      j := j + 1;
    }
    assert s.heap[..|s.heap|] == s.heap;
    r := OpenSet([], pos);
    if Consistent(s) {
      forall k | 0 <= k < |s.pos|
        ensures r.pos[k] == -1
      {
        if s.pos[k] != -1 {
          assert s.heap[s.pos[k]].node == k;
        }
      }
    }
  }

  /** SwapNodes(A, B): exchange two slots and re-point both nodes'
      positions; a no-op when A == B. */
  function SwapNodes(s: OpenSet, a: int, b: int): (r: OpenSet)
    requires Consistent(s) && 0 <= a < |s.heap| && 0 <= b < |s.heap|
    ensures Consistent(r) && Elements(r) == Elements(s)
    ensures |r.heap| == |s.heap| && |r.pos| == |s.pos|
    ensures r.heap[a] == s.heap[b] && r.heap[b] == s.heap[a]
    ensures forall i | 0 <= i < |s.heap| && i != a && i != b :: r.heap[i] == s.heap[i]
  {
    if a == b then s
    else
      var heap := s.heap[a := s.heap[b]][b := s.heap[a]];
      var r := OpenSet(heap, s.pos[heap[a].node := a][heap[b].node := b]);
      SameElements(s, r);
      r
  }

  /** The heap property holds everywhere except possibly between slot i and
      its parent, and i's parent is no larger than i's children. This is what
      SiftUp restores. */
  predicate OrderedExceptUp(heap: seq<HeapItem>, i: int)
    requires 0 <= i < |heap|
  {
    && (forall j | 0 < j < |heap| && j != i :: heap[ParentSlot(j)].key <= heap[j].key)
    && (i > 0 ==> forall j | 0 < j < |heap| && ParentSlot(j) == i ::
          heap[ParentSlot(i)].key <= heap[j].key)
  }

  /** The heap property holds everywhere except possibly between slot i and
      its children, and i's parent is no larger than i's children. This is
      what SiftDown restores. */
  predicate OrderedExceptDown(heap: seq<HeapItem>, i: int)
    requires 0 <= i < |heap|
  {
    && (forall j | 0 < j < |heap| && ParentSlot(j) != i :: heap[ParentSlot(j)].key <= heap[j].key)
    && (i > 0 ==> forall j | 0 < j < |heap| && ParentSlot(j) == i ::
          heap[ParentSlot(i)].key <= heap[j].key)
  }

  /** SiftUp(i): swap the item upwards while it is strictly smaller than its
      parent. */
  method SiftUp(s: OpenSet, start: int) returns (r: OpenSet)
    requires Consistent(s) && 0 <= start < |s.heap|
    requires OrderedExceptUp(s.heap, start)
    ensures Valid(r) && Elements(r) == Elements(s)
    ensures |r.heap| == |s.heap| && |r.pos| == |s.pos|
  {
    r := s;
    var i := start;
    while i > 0
      invariant Consistent(r) && 0 <= i < |r.heap|
      invariant |r.heap| == |s.heap| && |r.pos| == |s.pos|
      invariant Elements(r) == Elements(s)
      invariant OrderedExceptUp(r.heap, i)
      decreases i
    {
      var parent := ParentSlot(i);
      if r.heap[i].key < r.heap[parent].key {
        var before := r.heap;
        r := SwapNodes(r, i, parent);
        SwapUpKeepsOrder(before, r.heap, i);
        i := parent;
      } else {
        break;
      }
    }
  }

  lemma SwapUpKeepsOrder(h: seq<HeapItem>, h': seq<HeapItem>, i: int)
    requires 0 < i < |h| && |h'| == |h|
    requires OrderedExceptUp(h, i)
    requires h[i].key < h[ParentSlot(i)].key
    requires h'[i] == h[ParentSlot(i)] && h'[ParentSlot(i)] == h[i]
    requires forall j | 0 <= j < |h| && j != i && j != ParentSlot(i) :: h'[j] == h[j]
    ensures OrderedExceptUp(h', ParentSlot(i))
  {
    var p := ParentSlot(i);
    forall j | 0 < j < |h'| && j != p
      ensures h'[ParentSlot(j)].key <= h'[j].key
    {
      if j == i {
      } else if ParentSlot(j) == i {
        assert h[ParentSlot(i)].key <= h[j].key;
      } else if ParentSlot(j) == p {
        assert h[p].key <= h[j].key;
      }
    }
    if p > 0 {
      forall j | 0 < j < |h'| && ParentSlot(j) == p
        ensures h'[ParentSlot(p)].key <= h'[j].key
      {
        assert h[ParentSlot(p)].key <= h[p].key;
      }
    }
  }

  /** SiftDown(i): swap the item with its smaller child (the left one on a
      tie) while that child is strictly smaller. */
  method SiftDown(s: OpenSet, start: int) returns (r: OpenSet)
    requires Consistent(s) && 0 <= start < |s.heap|
    requires OrderedExceptDown(s.heap, start)
    ensures Valid(r) && Elements(r) == Elements(s)
    ensures |r.heap| == |s.heap| && |r.pos| == |s.pos|
  {
    r := s;
    var i := start;
    var n := |s.heap|;
    while true
      invariant Consistent(r) && 0 <= i < |r.heap| && |r.heap| == n
      invariant |r.pos| == |s.pos|
      invariant Elements(r) == Elements(s)
      invariant OrderedExceptDown(r.heap, i)
      decreases n - i
    {
      var smallest := Smallest(r.heap, i);
      if smallest != i {
        var before := r.heap;
        r := SwapNodes(r, i, smallest);
        SwapDownKeepsOrder(before, r.heap, i, smallest);
        i := smallest;
      } else {
        SettledIsOrdered(r.heap, i);
        break;
      }
    }
  }

  /** The slot SiftDown compares against: i, or its left child if strictly
      smaller, or its right child if strictly smaller still. */
  function Smallest(heap: seq<HeapItem>, i: int): (c: int)
    requires 0 <= i < |heap|
    ensures c == i || (0 < c < |heap| && ParentSlot(c) == i && heap[c].key < heap[i].key)
    ensures forall j | 0 < j < |heap| && ParentSlot(j) == i :: heap[c].key <= heap[j].key
  {
    ChildrenOf(|heap|, i);
    var left := i * 2 + 1;
    var right := left + 1;
    var s1 := if left < |heap| && heap[left].key < heap[i].key then left else i;
    if right < |heap| && heap[right].key < heap[s1].key then right else s1
  }

  /** The only slots whose parent is i are 2i + 1 and 2i + 2. */
  lemma ChildrenOf(n: int, i: int)
    requires 0 <= i
    ensures forall j | 0 < j < n && ParentSlot(j) == i :: j == 2 * i + 1 || j == 2 * i + 2
  {
  }

  /** A slot no larger than its children leaves the whole heap ordered. */
  lemma SettledIsOrdered(h: seq<HeapItem>, i: int)
    requires 0 <= i < |h| && OrderedExceptDown(h, i)
    requires forall j | 0 < j < |h| && ParentSlot(j) == i :: h[i].key <= h[j].key
    ensures Ordered(h)
  {
  }

  lemma SwapDownKeepsOrder(h: seq<HeapItem>, h': seq<HeapItem>, i: int, c: int)
    requires 0 <= i < |h| && 0 < c < |h| && |h'| == |h| && ParentSlot(c) == i
    requires OrderedExceptDown(h, i)
    requires h[c].key < h[i].key
    requires forall j | 0 < j < |h| && ParentSlot(j) == i :: h[c].key <= h[j].key
    requires h'[i] == h[c] && h'[c] == h[i]
    requires forall j | 0 <= j < |h| && j != i && j != c :: h'[j] == h[j]
    ensures OrderedExceptDown(h', c)
  {
    forall j | 0 < j < |h'| && ParentSlot(j) != c
      ensures h'[ParentSlot(j)].key <= h'[j].key
    {
      if ParentSlot(j) == i {
      } else if j == i {
        assert h[ParentSlot(i)].key <= h[c].key;
      }
    }
    forall j | 0 < j < |h'| && ParentSlot(j) == c
      ensures h'[ParentSlot(c)].key <= h'[j].key
    {
      assert h[c].key <= h[j].key;
    }
  }

  /** The root of an ordered heap carries the smallest key. */
  lemma {:induction false} RootIsMinimal(heap: seq<HeapItem>, i: int)
    requires Ordered(heap) && 0 <= i < |heap|
    ensures heap[0].key <= heap[i].key
    decreases i
  {
    if i > 0 {
      RootIsMinimal(heap, ParentSlot(i));
    }
  }

  /** Push(NodeIndex, F): append, record the slot, sift up. The node must not
      already be present (both searches only push absent nodes). */
  method Push(s: OpenSet, node: int, key: real) returns (r: OpenSet)
    requires Valid(s) && 0 <= node < |s.pos| && s.pos[node] == -1
    ensures Valid(r) && Elements(r) == Elements(s)[node := key]
    ensures |r.pos| == |s.pos| && |r.heap| == |s.heap| + 1
  {
    var t := OpenSet(s.heap + [HeapItem(node, key)], s.pos[node := |s.heap|]);
    assert Consistent(t);
    assert Elements(t) == Elements(s)[node := key];
    r := SiftUp(t, |s.heap|);
  }

  /** PopMin: -1 and no change on an empty heap; otherwise move the last item
      to the root, clear the popped node's position, shrink, and sift down.
      The node returned carries the smallest key. */
  method PopMin(s: OpenSet) returns (r: OpenSet, best: int)
    requires Valid(s)
    ensures Valid(r) && |r.pos| == |s.pos|
    ensures s.heap == [] ==> best == -1 && r == s
    ensures s.heap != [] ==>
      && best in Elements(s)
      && (forall k | k in Elements(s) :: Elements(s)[best] <= Elements(s)[k])
      && Elements(r) == Elements(s) - {best}
      && |r.heap| == |s.heap| - 1
  {
    if |s.heap| == 0 {
      return s, -1;
    }
    best := s.heap[0].node;
    forall k | k in Elements(s)
      ensures Elements(s)[best] <= Elements(s)[k]
    {
      RootIsMinimal(s.heap, s.pos[k]);
    }
    var last := |s.heap| - 1;
    var t := SwapNodes(s, 0, last);
    assert t.heap[last].node == best;
    var u := OpenSet(t.heap[..last], t.pos[best := -1]);
    DropLast(t, u);
    if last > 0 {
      assert OrderedExceptDown(u.heap, 0) by {
        forall j | 0 < j < |u.heap| && ParentSlot(j) != 0
          ensures u.heap[ParentSlot(j)].key <= u.heap[j].key
        {
          assert s.heap[ParentSlot(j)].key <= s.heap[j].key;
        }
      }
      r := SiftDown(u, 0);
    } else {
      r := u;
    }
  }

  /** Cutting off the last slot and clearing its node's position removes
      exactly that node. */
  lemma DropLast(t: OpenSet, u: OpenSet)
    requires Consistent(t) && |t.heap| > 0
    requires u == OpenSet(t.heap[..|t.heap| - 1], t.pos[t.heap[|t.heap| - 1].node := -1])
    ensures Consistent(u) && Elements(u) == Elements(t) - {t.heap[|t.heap| - 1].node}
  {
    var gone := t.heap[|t.heap| - 1].node;
    forall k | 0 <= k < |u.pos|
      ensures (k in Elements(u)) == (k in Elements(t) && k != gone)
    {
      if k != gone && t.pos[k] != -1 {
        assert t.pos[k] != |t.heap| - 1;
      }
    }
    forall k | k in Elements(u)
      ensures Elements(u)[k] == Elements(t)[k]
    {
    }
  }

  /** Lowering a present node's key in its slot keeps the positions, leaves
      the heap ordered except above that slot, and changes just that key. */
  lemma LowerInPlace(s: OpenSet, node: int, key: real, t: OpenSet)
    requires Valid(s) && 0 <= node < |s.pos| && s.pos[node] != -1
    requires key < s.heap[s.pos[node]].key
    requires t == s.(heap := s.heap[s.pos[node] := HeapItem(node, key)])
    ensures Consistent(t) && OrderedExceptUp(t.heap, s.pos[node])
    ensures Elements(t) == Elements(s)[node := key]
  {
    var p := s.pos[node];
    assert Consistent(t) by {
      forall i | 0 <= i < |t.heap|
        ensures t.heap[i].node == s.heap[i].node
      {
      }
    }
    forall j | 0 < j < |t.heap| && j != p
      ensures t.heap[ParentSlot(j)].key <= t.heap[j].key
    {
      assert s.heap[ParentSlot(j)].key <= s.heap[j].key;
    }
    if p > 0 {
      forall j | 0 < j < |t.heap| && ParentSlot(j) == p
        ensures t.heap[ParentSlot(p)].key <= t.heap[j].key
      {
        assert s.heap[ParentSlot(p)].key <= s.heap[p].key <= s.heap[j].key;
      }
    }
    assert Elements(t) == Elements(s)[node := key] by {
      forall k | 0 <= k < |s.pos| && s.pos[k] != -1 && k != node
        ensures s.pos[k] != p
      {
      }
    }
  }

  /** The key a node ends up with after PushOrDecrease(node, key): the new
      key if absent, otherwise the smaller of old and new. */
  function DecreasedKey(s: OpenSet, node: int, key: real): real {
    if node in Elements(s) && Elements(s)[node] <= key then Elements(s)[node] else key
  }

  /** PushOrDecrease(NodeIndex, NewF): ignored for an out-of-range node; pushes
      an absent node; lowers a present node's key only when NewF is strictly
      smaller, and never raises it. */
  method PushOrDecrease(s: OpenSet, node: int, key: real) returns (r: OpenSet)
    requires Valid(s)
    ensures Valid(r) && |r.pos| == |s.pos|
    ensures !(0 <= node < |s.pos|) ==> r == s
    ensures 0 <= node < |s.pos| ==> Elements(r) == Elements(s)[node := DecreasedKey(s, node, key)]
  {
    if node < 0 || node >= |s.pos| {
      return s;
    }
    var p := s.pos[node];
    if p == -1 {
      r := Push(s, node, key);
    } else if key < s.heap[p].key {
      var t := s.(heap := s.heap[p := HeapItem(s.heap[p].node, key)]);
      LowerInPlace(s, node, key, t);
      r := SiftUp(t, p);
    } else {
      r := s;
      assert Elements(s)[node := DecreasedKey(s, node, key)] == Elements(s);
    }
  }
}
