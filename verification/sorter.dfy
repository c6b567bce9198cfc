/** The ordering of active assets (`calculateOrderOfActiveAssets()` and
    `getConnectionsGraph()`): Kahn's topological sort of the dependency
    graph, followed by the weight reconciliation that keeps the graph order
    while staying as close as it can to the requested weights, and a stable
    sort by the final weights.

    Assets are identified by their position in the list handed to the sorter;
    the list comes from one lane of the activation table, whose names are
    unique, so positions and names are interchangeable. */
module Sorter {
  import opened Php
  import opened AssetItem
  import opened Activation

  function ItemNames(items: seq<Item>): (ns: seq<string>)
    ensures |ns| == |items|
    ensures forall k :: 0 <= k < |items| ==> ns[k] == items[k].name
  {
    seq(|items|, k requires 0 <= k < |items| => items[k].name)
  }

  function Elems<T>(s: seq<T>): set<T> {
    set x | x in s
  }

  function Reverse<T>(s: seq<T>): (r: seq<T>)
    ensures |r| == |s|
    ensures forall i :: 0 <= i < |s| ==> r[i] == s[|s| - 1 - i]
  {
    if |s| == 0 then [] else Reverse(s[1..]) + [s[0]]
  }

  lemma ReverseElems<T>(s: seq<T>)
    ensures forall x :: x in Reverse(s) <==> x in s
  {
    forall x | x in s ensures x in Reverse(s) {
      var i :| 0 <= i < |s| && s[i] == x;
      assert Reverse(s)[|s| - 1 - i] == x;
    }
  }

  /** Position of `x` in `s`: its first occurrence. */
  function Pos<T(==)>(s: seq<T>, x: T): (k: nat)
    requires x in s
    ensures k < |s| && s[k] == x
  {
    if s[0] == x then 0 else 1 + Pos(s[1..], x)
  }

  // ---------------------------------------------------------------------
  // Counting: a sequence of distinct positions below n has at most n
  // elements, and exactly n of them cover every position.

  function Below(n: nat): (r: set<nat>)
    ensures forall x: nat :: x in r <==> x < n
    ensures |r| == n
  {
    if n == 0 then {}
    else
      assert n - 1 !in Below(n - 1);
      Below(n - 1) + {n - 1}
  }

  lemma SubsetSize<T>(a: set<T>, b: set<T>)
    requires a <= b
    ensures |a| <= |b|
  {
    if a != {} {
      var x :| x in a;
      SubsetSize(a - {x}, b - {x});
    }
  }

  lemma ElemsEmpty<T>(s: seq<T>)
    ensures Elems(s) == {} <==> |s| == 0
  {
    if |s| > 0 {
      assert s[0] in Elems(s);
    }
  }

  lemma {:induction false} ElemsSize<T>(s: seq<T>)
    requires Unique(s)
    ensures |Elems(s)| == |s|
  {
    if |s| > 0 {
      ElemsSize(s[1..]);
      assert Elems(s) == {s[0]} + Elems(s[1..]);
      assert s[0] !in Elems(s[1..]);
    }
  }

  lemma DistinctBelow(s: seq<nat>, n: nat)
    requires Unique(s) && forall x :: x in s ==> x < n
    ensures |s| <= n
    ensures |s| == n ==> forall v :: 0 <= v < n ==> v in s
  {
    ElemsSize(s);
    SubsetSize(Elems(s), Below(n));
    forall v | 0 <= v < n && |s| == n ensures v in s {
      if v !in s {
        SubsetSize(Elems(s), Below(n) - {v});
      }
    }
  }

  // ---------------------------------------------------------------------
  // The connections graph

  /** Outgoing connections of one asset: the positions of its dependencies
      in `names`, each once, in the order they are first listed. A
      dependency that is not in the list has no position and is dropped. */
  function DepPositions(ds: seq<string>, names: seq<string>, acc: seq<nat>): (r: seq<nat>)
    requires Unique(names)
    requires forall j :: j in acc ==> j < |names|
    ensures forall j :: j in r ==> j < |names|
    ensures forall j :: j in r <==> j in acc || (0 <= j < |names| && names[j] in ds)
    ensures Unique(acc) ==> Unique(r)
    decreases |ds|
  {
    if |ds| == 0 then acc
    else
      var r := if ds[0] in names && Pos(names, ds[0]) !in acc
        then DepPositions(ds[1..], names, acc + [Pos(names, ds[0])])
        else DepPositions(ds[1..], names, acc);
      assert forall j :: 0 <= j < |names| && names[j] in ds <==>
        (0 <= j < |names| && names[j] in ds[1..]) || (ds[0] in names && j == Pos(names, ds[0]));
      r
  }

  /** Incoming connections of position `v`: the positions below `n` that
      depend on it, in list order. */
  function Dependents(out: seq<seq<nat>>, v: nat, n: nat): (r: seq<nat>)
    requires n <= |out|
    ensures forall x :: x in r <==> 0 <= x < n && v in out[x]
    ensures forall i, j :: 0 <= i < j < |r| ==> r[i] < r[j]
  {
    if n == 0 then []
    else
      var r := Dependents(out, v, n - 1);
      assert forall k :: 0 <= k < |r| ==> r[k] in r;
      if v in out[n - 1] then r + [n - 1] else r
  }

  datatype Graph = Graph(size: nat, out: seq<seq<nat>>, inc: seq<seq<nat>>)

  /** `out[x]` lists what `x` depends on, `inc[v]` what depends on `v`; the
      two describe the same edges. */
  ghost predicate Valid(g: Graph) {
    && |g.out| == g.size && |g.inc| == g.size
    && (forall x :: 0 <= x < g.size ==> Unique(g.out[x]))
    && (forall x, d :: 0 <= x < g.size && d in g.out[x] ==> d < g.size)
    && (forall v :: 0 <= v < g.size ==> Unique(g.inc[v]))
    && (forall v, y :: 0 <= v < g.size && y in g.inc[v] ==> 0 <= y < g.size && v in g.out[y])
    && (forall v, y :: 0 <= v < g.size && 0 <= y < g.size && v in g.out[y] ==> y in g.inc[v])
  }

  function Connections(items: seq<Item>): (g: Graph)
    requires Unique(ItemNames(items))
    ensures Valid(g) && g.size == |items|
    ensures forall x, d :: 0 <= x < |items| && 0 <= d < |items| ==>
      (d in g.out[x] <==> items[d].name in items[x].dependencies)
  {
    var names := ItemNames(items);
    var n := |items|;
    var out := seq(n, x requires 0 <= x < n => DepPositions(items[x].dependencies, names, []));
    var inc := seq(n, v requires 0 <= v < n => Dependents(out, v, n));
    assert forall v :: 0 <= v < n ==> Unique(inc[v]);
    Graph(n, out, inc)
  }

  /** No asset of the list depends on another one of it. */
  predicate NoEdges(g: Graph)
    requires |g.out| == g.size
  {
    forall x :: 0 <= x < g.size ==> |g.out[x]| == 0
  }

  // ---------------------------------------------------------------------
  // Kahn's algorithm

  /** Every dependent of an emitted position was emitted before it. */
  ghost predicate DependentsFirst(g: Graph, order: seq<nat>)
    requires Valid(g)
    requires forall x :: x in order ==> x < g.size
  {
    forall k, y :: 0 <= k < |order| && order[k] in order && y in g.inc[order[k]] ==> y in order[..k]
  }

  /** A load order: every position once, each after all its dependencies. */
  ghost predicate LoadOrder(g: Graph, t: seq<nat>)
    requires Valid(g)
  {
    && Unique(t) && |t| == g.size
    && (forall x :: x in t ==> x < g.size)
    && forall k, d :: 0 <= k < |t| && t[k] in t && d in g.out[t[k]] ==> d in t[..k]
  }

  /** The graph has no cycle: some load order exists. */
  ghost predicate Acyclic(g: Graph)
    requires Valid(g)
  {
    exists t :: LoadOrder(g, t)
  }

  /** Positions without incoming connections, in list order. */
  function Tops(g: Graph, n: nat): (r: seq<nat>)
    requires Valid(g) && n <= g.size
    ensures forall v :: v in r <==> 0 <= v < n && |g.inc[v]| == 0
    ensures Unique(r)
  {
    if n == 0 then []
    else if |g.inc[n - 1]| == 0 then Tops(g, n - 1) + [n - 1]
    else Tops(g, n - 1)
  }

  lemma UniqueSplit<T>(a: seq<T>, b: seq<T>)
    requires Unique(a + b)
    ensures Unique(a) && Unique(b)
    ensures forall x :: x in a ==> x !in b
  {
    forall x | x in a ensures x !in b {
      var i :| 0 <= i < |a| && a[i] == x;
      forall j | 0 <= j < |b| ensures b[j] != x {
        assert (a + b)[i] == a[i] && (a + b)[|a| + j] == b[j];
      }
    }
    forall i, j | 0 <= i < j < |b| ensures b[i] != b[j] {
      assert (a + b)[|a| + i] == b[i] && (a + b)[|a| + j] == b[j];
    }
    forall i, j | 0 <= i < j < |a| ensures a[i] != a[j] {
      assert (a + b)[i] == a[i] && (a + b)[j] == a[j];
    }
  }

  lemma ReverseUnique<T>(s: seq<T>)
    requires Unique(s)
    ensures Unique(Reverse(s))
  {
  }

  /** Remaining incoming connections of every position: those from positions
      not emitted yet, plus `item`'s own for its unvisited neighbours. */
  ghost predicate Remaining(g: Graph, order: seq<nat>, rem: seq<set<nat>>, item: nat, todo: seq<nat>)
    requires Valid(g) && |rem| == g.size
  {
    forall v :: 0 <= v < g.size ==>
      rem[v] == Elems(g.inc[v]) - Elems(order) + (if v in todo then {item} else {})
  }

  /** A position is emitted or queued exactly when nothing depends on it any
      more. */
  ghost predicate Released(g: Graph, order: seq<nat>, queue: seq<nat>, rem: seq<set<nat>>)
    requires |rem| == g.size
  {
    forall v :: 0 <= v < g.size ==> (v in order || v in queue <==> rem[v] == {})
  }

  /** The inner loop of the sort: drop `item`'s connection from each of its
      neighbours, taken in reverse, and queue a neighbour once nothing
      depends on it any more. */
  method Release(g: Graph, item: nat, order: seq<nat>, queue: seq<nat>, rem: seq<set<nat>>)
    returns (queue': seq<nat>, rem': seq<set<nat>>)
    requires Valid(g) && item < g.size && |rem| == g.size && item in order
    requires Unique(order + queue)
    requires forall x :: x in order ==> x < g.size
    requires forall x :: x in queue ==> x < g.size
    requires Remaining(g, order, rem, item, g.out[item])
    requires Released(g, order, queue, rem)
    ensures |rem'| == g.size && |queue| <= |queue'| && queue'[..|queue|] == queue
    ensures Unique(order + queue')
    ensures forall x :: x in queue' ==> x < g.size
    ensures Remaining(g, order, rem', item, [])
    ensures Released(g, order, queue', rem')
    ensures |g.out[item]| == 0 ==> queue' == queue
  {
    var nbs := Reverse(g.out[item]);
    ReverseElems(g.out[item]);
    ReverseUnique(g.out[item]);
    queue', rem' := queue, rem;
    var j := 0;
    while j < |nbs|
      invariant 0 <= j <= |nbs|
      invariant |rem'| == g.size && |queue| <= |queue'| && queue'[..|queue|] == queue
      invariant Unique(order + queue')
      invariant forall x :: x in queue' ==> x < g.size
      invariant Remaining(g, order, rem', item, nbs[j..])
      invariant Released(g, order, queue', rem')
      invariant |nbs| == 0 ==> queue' == queue
    {
      var nb := nbs[j];
      assert nb in g.out[item];
      assert item in rem'[nb];
      assert nb !in nbs[j + 1..];
      assert forall v :: v in nbs[j..] <==> v == nb || v in nbs[j + 1..];
      rem' := rem'[nb := rem'[nb] - {item}];
      if rem'[nb] == {} {
        assert (order + queue') + [nb] == order + (queue' + [nb]);
        queue' := queue' + [nb];
      }
      j := j + 1;
    }
  }

  lemma PopStep(g: Graph, before: seq<nat>, item: nat, rem: seq<set<nat>>)
    requires Valid(g) && item < g.size && |rem| == g.size && item !in before
    requires forall v :: 0 <= v < g.size ==> rem[v] == Elems(g.inc[v]) - Elems(before)
    ensures Remaining(g, before + [item], rem, item, g.out[item])
  {
    assert Elems(before + [item]) == Elems(before) + {item};
  }

  lemma EmitStep(g: Graph, before: seq<nat>, item: nat, rem: seq<set<nat>>)
    requires Valid(g) && item < g.size && |rem| == g.size
    requires forall x :: x in before ==> x < g.size
    requires DependentsFirst(g, before)
    requires rem[item] == {} && rem[item] == Elems(g.inc[item]) - Elems(before)
    ensures DependentsFirst(g, before + [item])
  {
    var order := before + [item];
    forall k, y | 0 <= k < |order| && order[k] in order && y in g.inc[order[k]]
      ensures y in order[..k]
    {
      if k < |before| {
        assert order[..k] == before[..k];
        assert before[k] in before && y in g.inc[before[k]];
        assert y in before[..k];
      } else {
        assert order[..k] == before;
        assert y in Elems(g.inc[item]);
        assert y !in rem[item];
        assert y in Elems(before);
      }
    }
  }

  /** What holds between two rounds of the sort's outer loop. */
  ghost predicate KahnInv(g: Graph, order: seq<nat>, queue: seq<nat>, rem: seq<set<nat>>)
    requires Valid(g)
  {
    && |rem| == g.size
    && Unique(order + queue)
    && (forall x :: x in order ==> x < g.size)
    && (forall x :: x in queue ==> x < g.size)
    && (forall v :: 0 <= v < g.size ==> rem[v] == Elems(g.inc[v]) - Elems(order))
    && Released(g, order, queue, rem)
    && DependentsFirst(g, order)
  }

  /** One round of the outer loop: emit the head of the queue and release
      its neighbours. */
  method Emit(g: Graph, order: seq<nat>, queue: seq<nat>, rem: seq<set<nat>>)
    returns (order': seq<nat>, queue': seq<nat>, rem': seq<set<nat>>)
    requires Valid(g) && KahnInv(g, order, queue, rem) && |queue| > 0
    ensures KahnInv(g, order', queue', rem')
    ensures order' == order + [queue[0]]
    ensures NoEdges(g) ==> order' + queue' == order + queue
  {
    var item := queue[0];
    assert item in queue;
    UniqueSplit(order, queue);
    assert forall x :: x in queue[1..] ==> x in queue;
    EmitStep(g, order, item, rem);
    PopStep(g, order, item, rem);
    assert order + queue == (order + [item]) + queue[1..];
    order' := order + [item];
    queue', rem' := Release(g, item, order', queue[1..], rem);
    assert forall v :: 0 <= v < g.size ==> rem'[v] == Elems(g.inc[v]) - Elems(order');
  }

  method Kahn(g: Graph) returns (order: seq<nat>)
    requires Valid(g)
    ensures Unique(order) && forall x :: x in order ==> x < g.size
    ensures DependentsFirst(g, order)
    ensures forall v :: 0 <= v < g.size ==> (v in order <==> forall y :: y in g.inc[v] ==> y in order)
    ensures NoEdges(g) ==> order == Reverse(Tops(g, g.size))
  {
    var n := g.size;
    var queue: seq<nat> := Reverse(Tops(g, n));
    var rem := InitialRem(g);
    KahnStart(g);
    order := [];
    assert order + queue == queue;
    while |queue| > 0
      invariant KahnInv(g, order, queue, rem)
      invariant NoEdges(g) ==> order + queue == Reverse(Tops(g, n))
      decreases n - |order|
    {
      KahnBound(g, order, queue, rem);
      order, queue, rem := Emit(g, order, queue, rem);
    }
    assert order + queue == order;
    KahnDone(g, order, queue, rem);
  }

  /** Every position starts with all its incoming connections. */
  function InitialRem(g: Graph): (rem: seq<set<nat>>)
    requires Valid(g)
    ensures |rem| == g.size
    ensures forall v :: 0 <= v < g.size ==> rem[v] == Elems(g.inc[v])
  {
    seq(g.size, v requires 0 <= v < g.size => Elems(g.inc[v]))
  }

  /** The sort starts from nothing emitted and the positions nothing depends
      on queued in reverse. */
  lemma KahnStart(g: Graph)
    requires Valid(g)
    ensures KahnInv(g, [], Reverse(Tops(g, g.size)), InitialRem(g))
  {
    var queue := Reverse(Tops(g, g.size));
    ReverseElems(Tops(g, g.size));
    ReverseUnique(Tops(g, g.size));
    forall v | 0 <= v < g.size {
      ElemsEmpty(g.inc[v]);
    }
    assert [] + queue == queue;
  }

  lemma KahnBound(g: Graph, order: seq<nat>, queue: seq<nat>, rem: seq<set<nat>>)
    requires Valid(g) && KahnInv(g, order, queue, rem) && |queue| > 0
    ensures |order| < g.size
  {
    assert forall x :: x in order + queue ==> x in order || x in queue;
    DistinctBelow(order + queue, g.size);
  }

  lemma KahnDone(g: Graph, order: seq<nat>, queue: seq<nat>, rem: seq<set<nat>>)
    requires Valid(g) && KahnInv(g, order, queue, rem) && |queue| == 0
    ensures Unique(order)
    ensures forall v :: 0 <= v < g.size ==> (v in order <==> forall y :: y in g.inc[v] ==> y in order)
  {
    assert order + queue == order;
    forall v | 0 <= v < g.size
      ensures v in order <==> forall y :: y in g.inc[v] ==> y in order
    {
      assert v in order <==> rem[v] == {};
      ElemsEmpty(g.inc[v]);
      if forall y :: y in g.inc[v] ==> y in order {
        assert Elems(g.inc[v]) <= Elems(order);
      }
    }
  }

  lemma IncBounded(g: Graph, v: nat, y: nat)
    requires Valid(g) && v < g.size && y in g.inc[v]
    ensures y < g.size && v in g.out[y]
  {
  }

  /** Walking a load order from its end: every position whose dependents all
      come later in the load order is emitted. */
  lemma {:induction false} EmittedFrom(g: Graph, order: seq<nat>, t: seq<nat>, i: nat)
    requires Valid(g) && LoadOrder(g, t) && i <= |t|
    requires forall v :: 0 <= v < g.size ==> (v in order <==> forall y :: y in g.inc[v] ==> y in order)
    ensures forall j :: i <= j < |t| ==> t[j] in order
    decreases |t| - i
  {
    if i < |t| {
      EmittedFrom(g, order, t, i + 1);
      DistinctBelow(t, g.size);
      var v := t[i];
      assert v in t;
      assert 0 <= v < g.size;
      forall y | y in g.inc[v] ensures y in order {
        IncBounded(g, v, y);
        assert y in t;
        var m := Pos(t, y);
        assert t[m] in t && v in g.out[t[m]];
        assert v in t[..m];
        var p :| 0 <= p < m && t[p] == v;
        assert p == i;
      }
    }
  }

  /** The sort emits every position exactly when the graph has no cycle. */
  lemma KahnAcyclic(g: Graph, order: seq<nat>)
    requires Valid(g) && Unique(order) && forall x :: x in order ==> x < g.size
    requires DependentsFirst(g, order)
    requires forall v :: 0 <= v < g.size ==> (v in order <==> forall y :: y in g.inc[v] ==> y in order)
    ensures |order| == g.size <==> Acyclic(g)
    ensures |order| == g.size ==> LoadOrder(g, Reverse(order))
  {
    if Acyclic(g) {
      KahnComplete(g, order);
    }
    if |order| == g.size {
      KahnWitness(g, order);
    }
  }

  lemma KahnComplete(g: Graph, order: seq<nat>)
    requires Valid(g) && Unique(order) && forall x :: x in order ==> x < g.size
    requires forall v :: 0 <= v < g.size ==> (v in order <==> forall y :: y in g.inc[v] ==> y in order)
    requires Acyclic(g)
    ensures |order| == g.size
  {
    var n := g.size;
    var t :| LoadOrder(g, t);
    EmittedFrom(g, order, t, 0);
    DistinctBelow(t, n);
    DistinctBelow(order, n);
    forall v | 0 <= v < n ensures v in order {
      var j := Pos(t, v);
    }
    ElemsSize(order);
    SubsetSize(Below(n), Elems(order));
  }

  lemma KahnWitness(g: Graph, order: seq<nat>)
    requires Valid(g) && Unique(order) && forall x :: x in order ==> x < g.size
    requires DependentsFirst(g, order)
    requires |order| == g.size
    ensures LoadOrder(g, Reverse(order))
  {
    var t := Reverse(order);
    ReverseUnique(order);
    ReverseElems(order);
    DistinctBelow(order, g.size);
    forall k, d | 0 <= k < |t| && t[k] in t && d in g.out[t[k]] ensures d in t[..k] {
      WitnessAt(g, order, k, d);
    }
  }

  /** A dependency of the asset at place `k` of the reversed order comes
      before it. */
  lemma WitnessAt(g: Graph, order: seq<nat>, k: nat, d: nat)
    requires Valid(g) && Unique(order) && forall x :: x in order ==> x < g.size
    requires DependentsFirst(g, order)
    requires forall v :: 0 <= v < g.size ==> v in order
    requires k < |order| && order[|order| - 1 - k] < g.size && d in g.out[order[|order| - 1 - k]]
    ensures d in Reverse(order)[..k]
  {
    var j := |order| - 1 - k;
    assert order[j] in order;
    OutToInc(g, order[j], d);
    WitnessEdge(g, order, j, d);
    ReverseBefore(order, k, d);
  }

  /** In an order that puts dependents first, a dependency comes after
      the asset that depends on it. */
  lemma WitnessEdge(g: Graph, order: seq<nat>, j: nat, d: nat)
    requires Valid(g) && Unique(order) && j < |order|
    requires forall x :: x in order ==> x < g.size
    requires DependentsFirst(g, order)
    requires d in order && order[j] in g.inc[d]
    ensures j < Pos(order, d)
  {
    var m := Pos(order, d);
    assert order[m] in order;
    assert order[j] in order[..m];
  }

  lemma ReverseBefore<T>(s: seq<T>, k: nat, d: T)
    requires k < |s| && d in s && |s| - 1 - k < Pos(s, d)
    ensures d in Reverse(s)[..k]
  {
    var m := Pos(s, d);
    assert Reverse(s)[|s| - 1 - m] == d;
  }

  lemma OutToInc(g: Graph, y: nat, v: nat)
    requires Valid(g) && y < g.size && v in g.out[y]
    ensures v < g.size && y in g.inc[v]
  {
  }

  // ---------------------------------------------------------------------
  // Weights

  /** Weight from the list order: ten per place, starting at ten. */
  function FifoWeight(k: nat): int {
    10 * k + 10
  }

  /** The weight an asset asks for: its positive integer `weight` option,
      or else its list-order weight. */
  function RequestedWeight(a: Item, fifo: int): (w: int)
    ensures var opt := GetOption(a, "weight", Null);
            && (!Truthy(opt) ==> w == fifo)
            && (opt.Int? && opt.i > 0 ==> w == opt.i)
            && (w == fifo || (opt.Int? && w == opt.i > 0))
  {
    match GetOption(a, "weight", Null)
    case Int(i) => if i > 0 then i else fifo
    case _ => fifo
  }

  function Requested(items: seq<Item>): (req: seq<int>)
    ensures |req| == |items|
    ensures forall k :: 0 <= k < |items| ==> req[k] == RequestedWeight(items[k], FifoWeight(k))
  {
    seq(|items|, k requires 0 <= k < |items| => RequestedWeight(items[k], FifoWeight(k)))
  }

  /** Weights from the graph order: `base[i]` weighs ten per place. */
  function GraphWeights(base: seq<nat>): (m: map<nat, int>)
    requires Unique(base)
    ensures m.Keys == Elems(base)
    ensures forall i :: 0 <= i < |base| ==> m[base[i]] == FifoWeight(i)
  {
    if |base| == 0 then map[]
    else
      var last := |base| - 1;
      assert Unique(base[..last]);
      assert base[last] !in base[..last];
      assert Elems(base) == Elems(base[..last]) + {base[last]};
      GraphWeights(base[..last])[base[last] := FifoWeight(last)]
  }

  datatype Request = Request(node: nat, weight: int)

  function Nodes(ps: seq<Request>): (ns: seq<nat>)
    ensures |ns| == |ps|
    ensures forall i :: 0 <= i < |ps| ==> ns[i] == ps[i].node
  {
    seq(|ps|, i requires 0 <= i < |ps| => ps[i].node)
  }

  /** The heaviest of the weights of `ds`; a position without a weight
      counts as 0, the way PHP compares `null` with positive integers. */
  function MaxWeight(ds: seq<nat>, gw: map<nat, int>): (r: int)
    requires |ds| > 0
    ensures forall d :: d in ds && d in gw ==> gw[d] <= r
    ensures (exists d :: d in ds && d in gw && gw[d] == r) || r == 0
  {
    var w := if ds[0] in gw then gw[ds[0]] else 0;
    if |ds| == 1 then w
    else
      var m := MaxWeight(ds[1..], gw);
      if w >= m then w else m
  }

  /** Dependents to re-examine after a position got heavier: those not
      already waiting, each asking for its own weight plus the new one. */
  function Requeue(ys: seq<nat>, pending: seq<Request>, gw: map<nat, int>, w: int): (r: seq<Request>)
    requires forall y :: y in ys ==> y in gw
    ensures forall p :: p in r ==> p.node in ys && p.node !in Nodes(pending) && p.weight == gw[p.node] + w
    ensures forall y :: y in ys && y !in Nodes(pending) ==> y in Nodes(r)
    ensures Unique(ys) ==> Unique(Nodes(r))
  {
    if |ys| == 0 then []
    else
      var rest := Requeue(ys[1..], pending, gw, w);
      if ys[0] in Nodes(pending) then rest
      else
        assert Nodes([Request(ys[0], gw[ys[0]] + w)] + rest) == [ys[0]] + Nodes(rest);
        [Request(ys[0], gw[ys[0]] + w)] + rest
  }

  // The measure of the reconciliation loop: each waiting position counts
  // 2^rank, its rank being its place in the sort's output. A position is
  // settled only after everything that depends on it, so the dependents it
  // re-queues all have smaller ranks and together count less than it did.

  function Pow2(k: nat): (r: nat)
    ensures r >= 1
  {
    if k == 0 then 1 else 2 * Pow2(k - 1)
  }

  function Bits(s: set<nat>, n: nat): nat {
    if n == 0 then 0 else Bits(s, n - 1) + (if n - 1 in s then Pow2(n - 1) else 0)
  }

  lemma BitsBelow(s: set<nat>, n: nat)
    ensures Bits(s, n) < Pow2(n)
  {
    if n > 0 {
      BitsBelow(s, n - 1);
    }
  }

  lemma {:induction false} BitsDecrease(s: set<nat>, s': set<nat>, r: nat, n: nat)
    requires r < n && r in s && r !in s'
    requires forall k :: r < k < n ==> (k in s <==> k in s')
    ensures Bits(s', n) < Bits(s, n)
  {
    if n == r + 1 {
      BitsBelow(s', r);
    } else {
      BitsDecrease(s, s', r, n - 1);
    }
  }

  function Ranks(order: seq<nat>, pending: seq<Request>): set<nat>
    requires forall p :: p in pending ==> p.node in order
  {
    set p | p in pending :: Pos(order, p.node)
  }

  predicate Positive(m: map<nat, int>) {
    forall x :: x in m ==> m[x] >= 1
  }

  /** The state of the reconciliation loop between two rounds. */
  ghost predicate Balanced(g: Graph, order: seq<nat>, pending: seq<Request>, gw: map<nat, int>)
    requires Valid(g)
  {
    && Unique(Nodes(pending))
    && (forall p :: p in pending ==> p.node in order && p.weight >= 1)
    && gw.Keys == Elems(order)
    && Positive(gw)
    && forall x, d :: x in order && x < g.size && d in order && d in g.out[x] ==>
         x in Nodes(pending) || gw[d] < gw[x]
  }

  /** The sort's output as the reconciliation needs it. */
  ghost predicate Sorted(g: Graph, order: seq<nat>)
    requires Valid(g)
  {
    && Unique(order)
    && (forall x :: x in order ==> x < g.size)
    && DependentsFirst(g, order)
  }

  /** One round of the reconciliation: settle the first waiting position. */
  method Settle(g: Graph, order: seq<nat>, pending: seq<Request>, gw: map<nat, int>)
    returns (pending': seq<Request>, gw': map<nat, int>)
    requires Valid(g) && Sorted(g, order) && Balanced(g, order, pending, gw) && |pending| > 0
    ensures Balanced(g, order, pending', gw')
    ensures Bits(Ranks(order, pending'), |order|) < Bits(Ranks(order, pending), |order|)
    ensures NoEdges(g) ==> pending' == pending[1..] && gw' == gw[pending[0].node := pending[0].weight]
  {
    var item := pending[0].node;
    var weight := pending[0].weight;
    var rest := pending[1..];
    assert pending[0] in pending;
    assert item < g.size;
    var top := if |g.out[item]| == 0 then weight - 1 else MaxWeight(g.out[item], gw);
    var newWeight := if weight > top then weight else top + 1;
    var added: seq<Request> := [];
    DependentsKnown(g, order, item);
    if newWeight > gw[item] && |g.inc[item]| > 0 {
      added := Requeue(g.inc[item], rest, gw, newWeight);
    }
    pending' := rest + added;
    gw' := gw[item := newWeight];
    SettleKeeps(g, order, pending, gw, newWeight, added);
    SettleShrinks(order, pending, added);
  }

  lemma DependentsKnown(g: Graph, order: seq<nat>, item: nat)
    requires Valid(g) && Sorted(g, order) && item in order
    ensures forall y :: y in g.inc[item] ==> y in order && Pos(order, y) < Pos(order, item)
  {
    var k := Pos(order, item);
    assert order[k] in order;
    forall y | y in g.inc[item] ensures y in order && Pos(order, y) < k {
      assert y in order[..k];
    }
  }

  lemma UniqueJoin<T>(a: seq<T>, b: seq<T>)
    requires Unique(a) && Unique(b) && forall x :: x in a ==> x !in b
    ensures Unique(a + b)
  {
    forall i, j | 0 <= i < j < |a + b| ensures (a + b)[i] != (a + b)[j] {
      if j < |a| {
      } else if i >= |a| {
        assert (a + b)[i] == b[i - |a|] && (a + b)[j] == b[j - |a|];
      } else {
        assert (a + b)[i] in a && (a + b)[j] == b[j - |a|];
      }
    }
  }

  lemma NodesJoin(a: seq<Request>, b: seq<Request>)
    ensures Nodes(a + b) == Nodes(a) + Nodes(b)
  {
    assert forall i :: 0 <= i < |a + b| ==> Nodes(a + b)[i] == (Nodes(a) + Nodes(b))[i];
  }

  lemma NodesIn(ps: seq<Request>, x: nat)
    ensures x in Nodes(ps) <==> exists p :: p in ps && p.node == x
  {
    if x in Nodes(ps) {
      var i :| 0 <= i < |ps| && Nodes(ps)[i] == x;
      assert ps[i] in ps;
    }
  }

  /** Settling `pending[0]` at `newWeight` keeps the loop's state. */
  lemma SettleKeeps(g: Graph, order: seq<nat>, pending: seq<Request>, gw: map<nat, int>,
                    newWeight: int, added: seq<Request>)
    requires Valid(g) && Balanced(g, order, pending, gw) && |pending| > 0 && pending[0].node < g.size
    requires newWeight >= pending[0].weight
    requires forall d :: d in g.out[pending[0].node] && d in gw ==> gw[d] < newWeight
    requires forall p :: p in added ==> p.node in order && p.node !in Nodes(pending[1..]) && p.weight >= 1
    requires Unique(Nodes(added))
    requires newWeight > gw[pending[0].node] ==>
      forall y :: y in g.inc[pending[0].node] ==> y in Nodes(pending[1..]) || y in Nodes(added)
    ensures Balanced(g, order, pending[1..] + added, gw[pending[0].node := newWeight])
  {
    PendingKeeps(order, pending, added);
    WeightsKeep(order, pending, gw, newWeight);
    EdgesKeep(g, order, pending, gw, newWeight, added);
    BalancedIntro(g, order, pending[1..] + added, gw[pending[0].node := newWeight]);
  }

  lemma BalancedIntro(g: Graph, order: seq<nat>, pending: seq<Request>, gw: map<nat, int>)
    requires Valid(g)
    requires Unique(Nodes(pending))
    requires forall p :: p in pending ==> p.node in order && p.weight >= 1
    requires gw.Keys == Elems(order)
    requires Positive(gw)
    requires forall x, d :: x in order && x < g.size && d in order && d in g.out[x] ==>
      x in Nodes(pending) || gw[d] < gw[x]
    ensures Balanced(g, order, pending, gw)
  {
  }

  lemma WeightsKeep(order: seq<nat>, pending: seq<Request>, gw: map<nat, int>, newWeight: int)
    requires |pending| > 0 && (forall p :: p in pending ==> p.node in order && p.weight >= 1)
    requires gw.Keys == Elems(order) && Positive(gw)
    requires newWeight >= pending[0].weight
    ensures pending[0].node in gw
    ensures gw[pending[0].node := newWeight].Keys == Elems(order)
    ensures Positive(gw[pending[0].node := newWeight])
  {
    assert pending[0] in pending;
  }

  lemma PendingKeeps(order: seq<nat>, pending: seq<Request>, added: seq<Request>)
    requires |pending| > 0
    requires Unique(Nodes(pending)) && forall p :: p in pending ==> p.node in order && p.weight >= 1
    requires forall p :: p in added ==> p.node in order && p.node !in Nodes(pending[1..]) && p.weight >= 1
    requires Unique(Nodes(added))
    ensures Unique(Nodes(pending[1..] + added))
    ensures forall p :: p in pending[1..] + added ==> p.node in order && p.weight >= 1
    ensures pending[0].node !in Nodes(pending[1..])
  {
    var item := pending[0].node;
    var rest := pending[1..];
    assert Nodes(pending) == [item] + Nodes(rest);
    UniqueSplit([item], Nodes(rest));
    NodesJoin(rest, added);
    forall x | x in Nodes(rest) ensures x !in Nodes(added) {
      NodesIn(added, x);
    }
    UniqueJoin(Nodes(rest), Nodes(added));
    assert forall p :: p in rest ==> p in pending;
  }

  lemma EdgesKeep(g: Graph, order: seq<nat>, pending: seq<Request>, gw: map<nat, int>,
                  newWeight: int, added: seq<Request>)
    requires Valid(g) && |pending| > 0 && pending[0].node in gw && pending[0].node < g.size
    requires gw.Keys == Elems(order)
    requires pending[0].node !in Nodes(pending[1..])
    requires forall x, d :: x in order && x < g.size && d in order && d in g.out[x] ==>
      x in Nodes(pending) || gw[d] < gw[x]
    requires forall d :: d in g.out[pending[0].node] && d in gw ==> gw[d] < newWeight
    requires newWeight > gw[pending[0].node] ==>
      forall y :: y in g.inc[pending[0].node] ==> y in Nodes(pending[1..]) || y in Nodes(added)
    ensures forall x, d :: x in order && x < g.size && d in order && d in g.out[x] ==>
      x in Nodes(pending[1..] + added) || gw[pending[0].node := newWeight][d] < gw[pending[0].node := newWeight][x]
  {
    var item := pending[0].node;
    var rest := pending[1..];
    var gw' := gw[item := newWeight];
    NodesJoin(rest, added);
    assert Nodes(pending) == [item] + Nodes(rest);
    forall x, d | x in order && x < g.size && d in order && d in g.out[x]
      ensures x in Nodes(rest + added) || gw'[d] < gw'[x]
    {
      if x == item {
      } else if d == item {
        OutToInc(g, x, d);
      }
    }
  }

  /** The first waiting position appears nowhere else in the queue. */
  lemma RestAvoids(pending: seq<Request>)
    requires |pending| > 0 && Unique(Nodes(pending))
    ensures forall p :: p in pending[1..] ==> p.node != pending[0].node
  {
    var ns := Nodes(pending);
    forall p | p in pending[1..] ensures p.node != pending[0].node {
      var i :| 0 <= i < |pending| - 1 && pending[1..][i] == p;
      assert pending[i + 1] == p;
      assert ns[0] != ns[i + 1];
    }
  }

  /** After settling, the settled position's rank is gone... */
  lemma ShrinkDrops(order: seq<nat>, pending: seq<Request>, added: seq<Request>)
    requires |pending| > 0 && Unique(order) && pending[0].node in order
    requires forall p :: p in pending[1..] ==> p.node in order && p.node != pending[0].node
    requires forall p :: p in added ==> p.node in order && Pos(order, p.node) < Pos(order, pending[0].node)
    ensures Pos(order, pending[0].node) !in Ranks(order, pending[1..] + added)
  {
    var r := Pos(order, pending[0].node);
    forall p | p in pending[1..] + added ensures Pos(order, p.node) != r {
      if p in pending[1..] {
        assert order[Pos(order, p.node)] == p.node;
      }
    }
  }

  /** ...and the ranks above it stay as they were. */
  lemma ShrinkKeepsAbove(order: seq<nat>, pending: seq<Request>, added: seq<Request>)
    requires |pending| > 0 && pending[0].node in order
    requires forall p :: p in pending ==> p.node in order
    requires forall p :: p in added ==> p.node in order && Pos(order, p.node) < Pos(order, pending[0].node)
    ensures forall k :: Pos(order, pending[0].node) < k < |order| ==>
              (k in Ranks(order, pending) <==> k in Ranks(order, pending[1..] + added))
  {
    var r := Pos(order, pending[0].node);
    forall k | r < k < |order| ensures k in Ranks(order, pending) <==> k in Ranks(order, pending[1..] + added) {
      if k in Ranks(order, pending) {
        var p :| p in pending && Pos(order, p.node) == k;
        var i :| 0 <= i < |pending| && pending[i] == p;
        assert i != 0 && pending[1..][i - 1] == p;
      }
      if k in Ranks(order, pending[1..] + added) {
        var p :| p in pending[1..] + added && Pos(order, p.node) == k;
        assert p in pending[1..];
        assert p in pending;
      }
    }
  }

  /** Settling `pending[0]` lowers the measure. */
  lemma SettleShrinks(order: seq<nat>, pending: seq<Request>, added: seq<Request>)
    requires |pending| > 0 && Unique(order)
    requires Unique(Nodes(pending)) && forall p :: p in pending ==> p.node in order
    requires forall p :: p in added ==> p.node in order && Pos(order, p.node) < Pos(order, pending[0].node)
    ensures forall p :: p in pending[1..] + added ==> p.node in order
    ensures Bits(Ranks(order, pending[1..] + added), |order|) < Bits(Ranks(order, pending), |order|)
  {
    assert pending[0] in pending;
    assert forall p :: p in pending[1..] ==> p in pending;
    RestAvoids(pending);
    ShrinkDrops(order, pending, added);
    ShrinkKeepsAbove(order, pending, added);
    BitsDecrease(Ranks(order, pending), Ranks(order, pending[1..] + added), Pos(order, pending[0].node), |order|);
  }

  /** The requests the reconciliation starts from: every emitted position,
      in reverse emission order, asking for its requested weight. */
  function Initial(base: seq<nat>, req: seq<int>): (ps: seq<Request>)
    requires forall x :: x in base ==> x < |req|
    ensures Nodes(ps) == base
    ensures forall p :: p in ps ==> p.node in base && p.weight == req[p.node]
  {
    if |base| == 0 then []
    else
      assert forall x :: x in base[1..] ==> x in base;
      assert base[0] in base;
      [Request(base[0], req[base[0]])] + Initial(base[1..], req)
  }

  lemma StartBalanced(g: Graph, order: seq<nat>, req: seq<int>, base: seq<nat>)
    requires Valid(g) && forall x :: x in order ==> x < g.size
    requires |req| == g.size && forall x :: 0 <= x < g.size ==> req[x] >= 1
    requires Unique(base) && forall x :: x in base <==> x in order
    ensures forall x :: x in base ==> x < |req|
    ensures Balanced(g, order, Initial(base, req), GraphWeights(base))
  {
    var pending := Initial(base, req);
    assert Elems(base) == Elems(order);
    GraphWeightsPositive(base);
    forall p | p in pending ensures p.node in order && p.weight >= 1 {
      assert p.node in base;
    }
    BalancedIntro(g, order, pending, GraphWeights(base));
  }

  lemma GraphWeightsPositive(base: seq<nat>)
    requires Unique(base)
    ensures Positive(GraphWeights(base))
  {
    var gw := GraphWeights(base);
    forall x | x in gw ensures gw[x] >= 1 {
      assert x in Elems(base);
      var i :| 0 <= i < |base| && base[i] == x;
    }
  }

  /** Every emitted position starts out waiting with its requested weight. */
  /** With no connections: every waiting request asks for its requested
      weight, and every position is waiting or already has that weight. */
  ghost predicate Granting(g: Graph, order: seq<nat>, req: seq<int>, pending: seq<Request>, gw: map<nat, int>)
    requires |g.out| == g.size
  {
    NoEdges(g) ==>
      && (forall p :: p in pending ==> p.node < |req| && p.weight == req[p.node])
      && (forall x :: x in order ==> x in Nodes(pending) || (x in gw && x < |req| && gw[x] == req[x]))
  }

  lemma StartRequests(g: Graph, order: seq<nat>, req: seq<int>, base: seq<nat>)
    requires |g.out| == g.size && forall x :: x in order ==> x < g.size
    requires |req| == g.size
    requires forall x :: x in base <==> x in order
    requires Unique(base) && forall x :: x in base ==> x < |req|
    ensures Granting(g, order, req, Initial(base, req), GraphWeights(base))
  {
    var ps := Initial(base, req);
    forall x | x in order ensures x in Nodes(ps) {
      assert x in base;
    }
  }

  /** With no connections, settling a request just grants it. */
  lemma GrantStep(g: Graph, order: seq<nat>, req: seq<int>, before: seq<Request>, gw: map<nat, int>,
                  pending: seq<Request>, gw': map<nat, int>)
    requires |g.out| == g.size && |before| > 0
    requires Granting(g, order, req, before, gw)
    requires NoEdges(g) ==> pending == before[1..] && gw' == gw[before[0].node := before[0].weight]
    ensures Granting(g, order, req, pending, gw')
  {
    if NoEdges(g) {
      assert before[0] in before;
      assert Nodes(before) == [before[0].node] + Nodes(pending);
      assert forall p :: p in pending ==> p in before;
    }
  }

  method Reconcile(g: Graph, order: seq<nat>, req: seq<int>) returns (gw: map<nat, int>)
    requires Valid(g) && Sorted(g, order)
    requires |req| == g.size && forall x :: 0 <= x < g.size ==> req[x] >= 1
    ensures gw.Keys == Elems(order)
    ensures forall x, d :: x in order && x < g.size && d in order && d in g.out[x] ==> gw[d] < gw[x]
    ensures NoEdges(g) ==> forall x :: x in order ==> gw[x] == req[x]
  {
    var base := Reverse(order);
    ReverseElems(order);
    ReverseUnique(order);
    StartBalanced(g, order, req, base);
    StartRequests(g, order, req, base);
    gw := GraphWeights(base);
    var pending := Initial(base, req);
    while |pending| > 0
      invariant Balanced(g, order, pending, gw)
      invariant Granting(g, order, req, pending, gw)
      decreases Bits(Ranks(order, pending), |order|)
    {
      ghost var before := pending;
      ghost var gwBefore := gw;
      pending, gw := Settle(g, order, pending, gw);
      GrantStep(g, order, req, before, gwBefore, pending, gw);
    }
  }

  // ---------------------------------------------------------------------
  // The final stable sort by weight (PHP's `asort`, stable since PHP 8)

  ghost predicate SortedBy(s: seq<nat>, w: map<nat, int>)
    requires forall x :: x in s ==> x in w
  {
    forall i, j :: 0 <= i < j < |s| ==> w[s[i]] <= w[s[j]]
  }

  /** Insert `x` before the first element at least as heavy. */
  function Insert(x: nat, s: seq<nat>, w: map<nat, int>): (r: seq<nat>)
    requires x in w && forall y :: y in s ==> y in w
    ensures |r| == |s| + 1
    ensures forall y :: y in r <==> y == x || y in s
    ensures multiset(r) == multiset(s) + multiset{x}
  {
    if |s| == 0 then [x]
    else if w[x] <= w[s[0]] then [x] + s
    else
      assert s == [s[0]] + s[1..];
      [s[0]] + Insert(x, s[1..], w)
  }

  lemma {:induction false} InsertUnique(x: nat, s: seq<nat>, w: map<nat, int>)
    requires x in w && forall y :: y in s ==> y in w
    ensures Unique(s) && x !in s ==> Unique(Insert(x, s, w))
  {
    if |s| > 0 && w[x] > w[s[0]] && Unique(s) && x !in s {
      assert forall y :: y in s[1..] ==> y in s;
      assert Unique(s[1..]) && s[0] !in s[1..] by {
        UniqueSplit([s[0]], s[1..]);
        assert [s[0]] + s[1..] == s;
      }
      InsertUnique(x, s[1..], w);
      UniqueJoin([s[0]], Insert(x, s[1..], w));
    }
  }

  /** `r` is `s` with `x` placed at index `i`: everything before it strictly
      lighter, and the element after it, if any, at least as heavy. */
  ghost predicate PlacedAt(r: seq<nat>, x: nat, s: seq<nat>, w: map<nat, int>, i: int)
    requires x in w && forall y :: y in s ==> y in w
  {
    && 0 <= i <= |s| && r == s[..i] + [x] + s[i..]
    && (forall k :: 0 <= k < i ==> w[s[k]] < w[x])
    && (i < |s| ==> w[x] <= w[s[i]])
  }

  /** `Insert` puts `x` before the first element at least as heavy. */
  lemma {:induction false} InsertPlaces(x: nat, s: seq<nat>, w: map<nat, int>)
    requires x in w && forall y :: y in s ==> y in w
    ensures exists i :: PlacedAt(Insert(x, s, w), x, s, w, i)
  {
    if |s| == 0 || w[x] <= w[s[0]] {
      assert Insert(x, s, w) == s[..0] + [x] + s[0..];
      assert PlacedAt(Insert(x, s, w), x, s, w, 0);
    } else {
      var t := s[1..];
      assert forall y :: y in t ==> y in s;
      InsertPlaces(x, t, w);
      var j :| PlacedAt(Insert(x, t, w), x, t, w, j);
      PlacedStep(x, s, w, j);
    }
  }

  lemma {:induction false} PlacedStep(x: nat, s: seq<nat>, w: map<nat, int>, j: int)
    requires x in w && forall y :: y in s ==> y in w
    requires |s| > 0 && w[x] > w[s[0]]
    requires forall y :: y in s[1..] ==> y in w
    requires PlacedAt(Insert(x, s[1..], w), x, s[1..], w, j)
    ensures PlacedAt(Insert(x, s, w), x, s, w, j + 1)
  {
    InsertUnfold(x, s, w);
    PlacedCons(s[0], s[1..], Insert(x, s[1..], w), x, w, j);
  }

  /** A lighter element put in front shifts the split point by one. */
  lemma {:induction false} PlacedCons(a: nat, t: seq<nat>, r: seq<nat>, x: nat, w: map<nat, int>, j: int)
    requires x in w && a in w && forall y :: y in t ==> y in w
    requires w[x] > w[a]
    requires PlacedAt(r, x, t, w, j)
    ensures forall y :: y in [a] + t ==> y in w
    ensures PlacedAt([a] + r, x, [a] + t, w, j + 1)
  {
    var s := [a] + t;
    var i := j + 1;
    assert s[..i] == [a] + t[..j];
    assert s[i..] == t[j..];
    assert [a] + r == s[..i] + [x] + s[i..];
    assert forall k :: 0 < k < |s| ==> s[k] == t[k - 1];
  }

  lemma {:induction false} InsertSorted(x: nat, s: seq<nat>, w: map<nat, int>)
    requires x in w && forall y :: y in s ==> y in w
    requires SortedBy(s, w)
    ensures SortedBy(Insert(x, s, w), w)
  {
    if |s| > 0 && w[x] > w[s[0]] {
      assert forall y :: y in s[1..] ==> y in s;
      InsertSorted(x, s[1..], w);
      var t := Insert(x, s[1..], w);
      forall i | 0 <= i < |t| ensures w[s[0]] <= w[t[i]] {
        assert t[i] in t;
        if t[i] != x {
          var k :| 0 <= k < |s[1..]| && s[1..][k] == t[i];
          assert s[k + 1] == t[i];
        }
      }
    }
  }

  function SortByWeight(s: seq<nat>, w: map<nat, int>): (r: seq<nat>)
    requires forall y :: y in s ==> y in w
    ensures |r| == |s|
    ensures forall y :: y in r <==> y in s
    ensures multiset(r) == multiset(s)
    ensures Unique(s) ==> Unique(r)
    ensures forall y :: y in r ==> y in w
    ensures SortedBy(r, w)
  {
    if |s| == 0 then []
    else
      assert s == [s[0]] + s[1..];
      var t := SortByWeight(s[1..], w);
      InsertSorted(s[0], t, w);
      InsertUnique(s[0], t, w);
      Insert(s[0], t, w)
  }

  /** Sorting what is already in weight order changes nothing. */
  lemma {:induction false} SortSortedIsIdentity(s: seq<nat>, w: map<nat, int>)
    requires forall y :: y in s ==> y in w
    requires SortedBy(s, w)
    ensures SortByWeight(s, w) == s
  {
    if |s| > 0 {
      var t := s[1..];
      SortedTail(s, w);
      SortSortedIsIdentity(t, w);
      SortUnfold(s, w);
      if |t| > 0 {
        assert w[s[0]] <= w[s[1]] && t[0] == s[1];
      }
      InsertFront(s[0], t, w);
    }
  }

  lemma SortUnfold(s: seq<nat>, w: map<nat, int>)
    requires |s| > 0 && forall y :: y in s ==> y in w
    ensures forall y :: y in s[1..] ==> y in w
    ensures SortByWeight(s, w) == Insert(s[0], SortByWeight(s[1..], w), w)
    ensures s == [s[0]] + s[1..]
  {
    assert forall y :: y in s[1..] ==> y in s;
  }

  lemma {:induction false} InsertFront(x: nat, s: seq<nat>, w: map<nat, int>)
    requires x in w && forall y :: y in s ==> y in w
    requires |s| == 0 || w[x] <= w[s[0]]
    ensures Insert(x, s, w) == [x] + s
  {
  }

  /** The elements of `s` of weight `v`, in the order of `s`. */
  function OfWeight(s: seq<nat>, w: map<nat, int>, v: int): (r: seq<nat>)
    requires forall y :: y in s ==> y in w
    ensures forall y :: y in r <==> y in s && w[y] == v
  {
    if |s| == 0 then []
    else
      assert forall y :: y in s <==> y == s[0] || y in s[1..];
      (if w[s[0]] == v then [s[0]] else []) + OfWeight(s[1..], w, v)
  }

  lemma OfWeightCons(y: nat, t: seq<nat>, w: map<nat, int>, v: int)
    requires y in w && forall z :: z in t ==> z in w
    ensures OfWeight([y] + t, w, v) == (if w[y] == v then [y] else []) + OfWeight(t, w, v)
  {
    assert ([y] + t)[0] == y && ([y] + t)[1..] == t;
  }

  /** `x` goes in after everything lighter, so among the elements of its
      own weight it comes first. */
  lemma {:induction false} InsertOfWeight(x: nat, s: seq<nat>, w: map<nat, int>, v: int)
    requires x in w && forall y :: y in s ==> y in w
    ensures OfWeight(Insert(x, s, w), w, v) == (if w[x] == v then [x] else []) + OfWeight(s, w, v)
    decreases |s|
  {
    if |s| == 0 {
      OfWeightCons(x, [], w, v);
      assert [x] + [] == [x];
    } else if w[x] <= w[s[0]] {
      OfWeightCons(x, s, w, v);
    } else {
      InsertPastLighter(x, s, w, v);
    }
  }

  lemma {:induction false} InsertPastLighter(x: nat, s: seq<nat>, w: map<nat, int>, v: int)
    requires x in w && forall y :: y in s ==> y in w
    requires |s| > 0 && w[x] > w[s[0]]
    ensures OfWeight(Insert(x, s, w), w, v) == (if w[x] == v then [x] else []) + OfWeight(s, w, v)
    decreases |s|, 0
  {
    var t := s[1..];
    assert forall y :: y in t ==> y in s;
    var it := Insert(x, t, w);
    var lead: seq<nat> := if w[s[0]] == v then [s[0]] else [];
    var mid: seq<nat> := if w[x] == v then [x] else [];
    var rest := OfWeight(t, w, v);
    InsertUnfold(x, s, w);
    InsertOfWeight(x, t, w, v);
    OfWeightCons(s[0], it, w, v);
    OfWeightCons(s[0], t, w, v);
    // `s[0]` is lighter than `x`, so at most one of the two is kept
    SwapEmpty(lead, mid, rest);
  }

  lemma {:induction false} InsertUnfold(x: nat, s: seq<nat>, w: map<nat, int>)
    requires x in w && forall y :: y in s ==> y in w
    requires |s| > 0 && w[x] > w[s[0]]
    ensures s == [s[0]] + s[1..]
    ensures Insert(x, s, w) == [s[0]] + Insert(x, s[1..], w)
  {
  }

  lemma SwapEmpty<T>(a: seq<T>, b: seq<T>, c: seq<T>)
    requires a == [] || b == []
    ensures a + (b + c) == b + (a + c)
  {
    if a == [] { assert a + (b + c) == b + c; } else { assert b + (a + c) == a + c; }
  }

  /** The sort is stable: for every weight, the elements of that weight
      come out in the order they went in. */
  lemma {:induction false} SortStable(s: seq<nat>, w: map<nat, int>, v: int)
    requires forall y :: y in s ==> y in w
    ensures OfWeight(SortByWeight(s, w), w, v) == OfWeight(s, w, v)
  {
    if |s| > 0 {
      assert forall y :: y in s[1..] ==> y in s;
      SortStable(s[1..], w, v);
      InsertOfWeight(s[0], SortByWeight(s[1..], w), w, v);
    }
  }

  lemma SortedTail(s: seq<nat>, w: map<nat, int>)
    requires |s| > 0 && forall y :: y in s ==> y in w
    requires SortedBy(s, w)
    ensures forall y :: y in s[1..] ==> y in w
    ensures SortedBy(s[1..], w)
  {
    assert forall y :: y in s[1..] ==> y in s;
    forall i, j | 0 <= i < j < |s| - 1 ensures w[s[1..][i]] <= w[s[1..][j]] {
      assert s[1..][i] == s[i + 1] && s[1..][j] == s[j + 1];
    }
  }

  // ---------------------------------------------------------------------
  // Putting it together

  function Range(n: nat): (r: seq<nat>)
    ensures |r| == n && forall i :: 0 <= i < n ==> r[i] == i
  {
    seq(n, i requires 0 <= i < n => i)
  }

  /** The requested weights as a map from list position to weight. */
  function WeightMap(req: seq<int>): (m: map<nat, int>)
    ensures forall x: nat :: x in m <==> x < |req|
    ensures forall x :: 0 <= x < |req| ==> m[x] == req[x]
  {
    map x: nat | x < |req| :: req[x]
  }

  lemma NoEdgesAllTops(g: Graph)
    requires Valid(g) && NoEdges(g)
    ensures Tops(g, g.size) == Range(g.size)
  {
    forall v: nat | v < g.size ensures |g.inc[v]| == 0 {
      if |g.inc[v]| > 0 {
        var y := g.inc[v][0];
        assert y in g.inc[v];
        IncBounded(g, v, y);
      }
    }
    TopsAllBelow(g, g.size);
  }

  lemma TopsAllBelow(g: Graph, n: nat)
    requires Valid(g) && n <= g.size
    requires forall v: nat :: v < g.size ==> |g.inc[v]| == 0
    ensures Tops(g, n) == Range(n)
  {
    if n > 0 {
      TopsAllBelow(g, n - 1);
    }
  }

  lemma ReverseReverse<T>(s: seq<T>)
    ensures Reverse(Reverse(s)) == s
  {
  }

  /** The load order of the positions of a graph: Kahn's order reversed,
      weighted and stably sorted by weight. */
  method LoadPositions(g: Graph, req: seq<int>) returns (sorted: seq<nat>)
    requires Valid(g)
    requires |req| == g.size && forall x :: 0 <= x < g.size ==> req[x] >= 1
    ensures Unique(sorted) && forall i :: 0 <= i < |sorted| ==> sorted[i] < g.size
    ensures forall i, j :: 0 <= i < |sorted| && 0 <= j < |sorted| && sorted[j] in g.out[sorted[i]] ==> j < i
    ensures |sorted| == g.size <==> Acyclic(g)
    ensures NoEdges(g) ==> sorted == SortByWeight(Range(g.size), WeightMap(req))
  {
    var order := Kahn(g);
    KahnAcyclic(g, order);
    var gw := Reconcile(g, order, req);
    var base := Reverse(order);
    ReverseElems(order);
    ReverseUnique(order);
    sorted := SortByWeight(base, gw);
    PositionFacts(g, order, gw, sorted);
    if NoEdges(g) {
      NoEdgesOrder(g, order, req, gw);
    }
  }

  lemma PositionFacts(g: Graph, order: seq<nat>, gw: map<nat, int>, sorted: seq<nat>)
    requires Valid(g) && forall x :: x in order ==> x < g.size
    requires gw.Keys == Elems(order)
    requires forall x, d :: x in order && x < g.size && d in order && d in g.out[x] ==> gw[d] < gw[x]
    requires forall y :: y in sorted <==> y in order
    requires forall y :: y in sorted ==> y in gw
    requires SortedBy(sorted, gw)
    ensures forall i :: 0 <= i < |sorted| ==> sorted[i] < g.size
    ensures forall i, j :: 0 <= i < |sorted| && 0 <= j < |sorted| && sorted[j] in g.out[sorted[i]] ==> j < i
  {
    forall i | 0 <= i < |sorted| ensures sorted[i] < g.size {
      assert sorted[i] in sorted;
    }
    forall i, j | 0 <= i < |sorted| && 0 <= j < |sorted| && sorted[j] in g.out[sorted[i]] ensures j < i {
      assert sorted[i] in sorted && sorted[j] in sorted;
      assert gw[sorted[j]] < gw[sorted[i]];
    }
  }

  lemma NoEdgesOrder(g: Graph, order: seq<nat>, req: seq<int>, gw: map<nat, int>)
    requires Valid(g) && NoEdges(g) && |req| == g.size
    requires order == Reverse(Tops(g, g.size))
    requires gw.Keys == Elems(order) && forall x :: x in order && x < |req| ==> gw[x] == req[x]
    ensures Reverse(order) == Range(g.size)
    ensures gw == WeightMap(req)
  {
    NoEdgesAllTops(g);
    ReverseReverse(Range(g.size));
    assert forall x :: x in order <==> x in Range(g.size) by {
      ReverseElems(Range(g.size));
    }
    SameWeights(order, req, gw);
  }

  lemma SameWeights(order: seq<nat>, req: seq<int>, gw: map<nat, int>)
    requires forall x :: x in order <==> x in Range(|req|)
    requires gw.Keys == Elems(order) && forall x :: x in order && x < |req| ==> gw[x] == req[x]
    ensures gw == WeightMap(req)
  {
    var m := WeightMap(req);
    forall x: nat ensures x in gw <==> x in m {
      if x < |req| {
        assert Range(|req|)[x] == x;
      }
    }
    assert gw.Keys == m.Keys;
  }

  function At(items: seq<Item>, ps: seq<nat>): (r: seq<Item>)
    requires forall i :: 0 <= i < |ps| ==> ps[i] < |items|
    ensures |r| == |ps| && forall i :: 0 <= i < |ps| ==> r[i] == items[ps[i]]
  {
    seq(|ps|, i requires 0 <= i < |ps| => items[ps[i]])
  }

  /** The list sorted stably by requested weight: what the sorter produces
      when no asset of the list depends on another one of it. */
  function ByRequestedWeight(items: seq<Item>): (r: seq<Item>)
  {
    var w := WeightMap(Requested(items));
    RangeBelow(|items|);
    assert forall y :: y in Range(|items|) ==> y in w;
    var sorted := SortByWeight(Range(|items|), w);
    assert forall i :: 0 <= i < |sorted| ==> sorted[i] < |items| by {
      forall i | 0 <= i < |sorted| ensures sorted[i] < |items| {
        assert sorted[i] in sorted;
      }
    }
    At(items, sorted)
  }

  lemma RangeBelow(n: nat)
    ensures forall y :: y in Range(n) <==> 0 <= y < n
  {
    forall y | 0 <= y < n ensures y in Range(n) {
      assert Range(n)[y] == y;
    }
  }

  /** `calculateOrderOfActiveAssets()`: the assets of one lane in the order
      they are to be loaded. */
  method OrderAssets(items: seq<Item>) returns (r: seq<Item>)
    requires Unique(ItemNames(items))
    ensures forall k :: 0 <= k < |r| ==> r[k] in items
    ensures Unique(ItemNames(r))
    ensures forall j, k :: 0 <= j < |r| && 0 <= k < |r| && r[j].name in r[k].dependencies ==> j < k
    ensures |r| == |items| <==> Acyclic(Connections(items))
    ensures |r| == |items| ==> forall k :: 0 <= k < |items| ==> items[k] in r
    ensures NoEdges(Connections(items)) ==> r == ByRequestedWeight(items)
  {
    var g := Connections(items);
    var sorted := LoadPositions(g, Requested(items));
    r := At(items, sorted);
    ItemFacts(items, sorted, r);
  }

  lemma ItemFacts(items: seq<Item>, sorted: seq<nat>, r: seq<Item>)
    requires Unique(ItemNames(items))
    requires Unique(sorted) && forall i :: 0 <= i < |sorted| ==> sorted[i] < |items|
    requires forall i, j :: 0 <= i < |sorted| && 0 <= j < |sorted| && sorted[j] in Connections(items).out[sorted[i]] ==> j < i
    requires r == At(items, sorted)
    ensures forall k :: 0 <= k < |r| ==> r[k] in items
    ensures Unique(ItemNames(r))
    ensures forall j, k :: 0 <= j < |r| && 0 <= k < |r| && r[j].name in r[k].dependencies ==> j < k
    ensures |r| == |items| ==> forall k :: 0 <= k < |items| ==> items[k] in r
  {
    AtNames(items, sorted);
    var g := Connections(items);
    forall j, k | 0 <= j < |r| && 0 <= k < |r| && r[j].name in r[k].dependencies ensures j < k {
      assert sorted[j] in g.out[sorted[k]];
    }
    if |r| == |items| {
      AtAll(items, sorted);
    }
  }

  lemma AtNames(items: seq<Item>, ps: seq<nat>)
    requires Unique(ItemNames(items))
    requires Unique(ps) && forall i :: 0 <= i < |ps| ==> ps[i] < |items|
    ensures forall k :: 0 <= k < |ps| ==> At(items, ps)[k] in items
    ensures Unique(ItemNames(At(items, ps)))
  {
    var r := At(items, ps);
    var names := ItemNames(items);
    var rn := ItemNames(r);
    assert forall i :: 0 <= i < |ps| ==> rn[i] == names[ps[i]];
    forall i, j | 0 <= i < j < |rn| ensures rn[i] != rn[j] {
      NamesDiffer(names, ps[i], ps[j]);
    }
  }

  lemma NamesDiffer(names: seq<string>, a: nat, b: nat)
    requires Unique(names) && a < |names| && b < |names| && a != b
    ensures names[a] != names[b]
  {
    if b < a {
      assert names[b] != names[a];
    }
  }

  lemma AtAll(items: seq<Item>, ps: seq<nat>)
    requires Unique(ps) && |ps| == |items| && forall i :: 0 <= i < |ps| ==> ps[i] < |items|
    ensures forall k :: 0 <= k < |items| ==> items[k] in At(items, ps)
  {
    assert forall x :: x in ps ==> x < |items|;
    DistinctBelow(ps, |items|);
    forall k | 0 <= k < |items| ensures items[k] in At(items, ps) {
      var i := Pos(ps, k);
      assert At(items, ps)[i] == items[k];
    }
  }
}
