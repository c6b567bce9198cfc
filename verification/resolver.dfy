/**
 * The dependency closure: the recursive walk that collects every same-type
 * dependency of an asset, and the pass that drops provisional entries and
 * re-inserts what the Active assets need.
 */
module Resolver {
  import opened Errors
  import opened AssetItem
  import opened Registry
  import opened Activation

  /** The reserved type of dependency bundles. */
  const Preset: string := "preset"

  /** Appends the names of `b` that are not in `acc` yet, in the order of
      `b`: what merging one keyed array into another does to its keys. */
  function AppendNew(acc: seq<string>, b: seq<string>): (r: seq<string>)
    ensures |acc| <= |r| && r[..|acc|] == acc
    ensures forall x :: x in r <==> x in acc || x in b
    ensures Unique(acc) ==> Unique(r)
    decreases |b|
  {
    if |b| == 0 then acc
    else if b[0] in acc then AppendNew(acc, b[1..])
    else
      var r := AppendNew(acc + [b[0]], b[1..]);
      assert r[..|acc|] == (r[..|acc| + 1])[..|acc|];
      r
  }

  /** Records a found dependency and then what its own walk recorded. */
  function Record(acc: seq<string>, d: string, sub: seq<string>): (r: seq<string>)
    ensures |acc| <= |r| && r[..|acc|] == acc
    ensures forall x :: x in r <==> x in acc || x == d || x in sub
    ensures Unique(acc) ==> Unique(r)
  {
    var r := AppendNew(AppendNew(acc, [d]), sub);
    assert r[..|acc|] == (r[..|AppendNew(acc, [d])|])[..|acc|];
    r
  }

  /** The recursive walk over the dependencies of `item`, from index `i` on,
      for a walk started at `root`. A dependency named like the root is
      skipped; a missing one fails; each found one is recorded and walked in
      turn. `path` holds the assets whose walk is in progress: meeting one of
      them again is where the source recurses without end. */
  function WalkFrom(reg: Registry, t: string, root: string, item: Item,
                    path: set<string>, i: nat, acc: seq<string>): (r: Result<seq<string>>)
    requires i <= |item.dependencies|
    ensures r.Ok? ==> |acc| <= |r.value| && forall k :: 0 <= k < |acc| ==> r.value[k] == acc[k]
    ensures r.Ok? && Unique(acc) ==> Unique(r.value)
    ensures r.Ok? ==> forall x :: x in r.value ==> x in acc || (x != root && Exists(reg, t, x))
    ensures r.Err? ==> (r.error.UnsatisfiedDependency? && r.error.assetType == t && !Exists(reg, t, r.error.reference))
                       || r.error.CyclicDependency?
    decreases |NamesOfType(reg, t) - path|, |item.dependencies| - i
  {
    if i == |item.dependencies| then Ok(acc)
    else
      var d := item.dependencies[i];
      if d == root then WalkFrom(reg, t, root, item, path, i + 1, acc)
      else if !Exists(reg, t, d) then Err(UnsatisfiedDependency(d, item.name, t))
      else if d in path then Err(CyclicDependency(t, d))
      else
        assert NamesOfType(reg, t) - (path + {d}) == (NamesOfType(reg, t) - path) - {d};
        var dep := reg.assets[Key(t, d)];
        match WalkFrom(reg, t, root, dep, path + {d}, 0, [])
        case Err(e) => Err(e)
        case Ok(sub) =>
          var acc' := Record(acc, d, sub);
          assert forall k :: 0 <= k < |acc| ==> acc'[k] == acc[k];
          WalkFrom(reg, t, root, item, path, i + 1, acc')
  }

  /** `getDependenciesForAsset($type, $asset, true)`: every same-type
      dependency of `root`, in the order the source collects them. */
  function Walk(reg: Registry, t: string, root: Item): Result<seq<string>> {
    WalkFrom(reg, t, root.name, root, {}, 0, [])
  }

  /** A chain of dependency links that starts at one of `first` and avoids
      the root: the ways a walk from `root` can reach an asset. */
  ghost predicate Chain(reg: Registry, t: string, root: string, first: seq<string>, c: seq<string>) {
    && |c| > 0
    && c[0] in first
    && (forall k :: 0 <= k < |c| ==> c[k] != root && Exists(reg, t, c[k]))
    && (forall k :: 0 < k < |c| ==> c[k] in DepsOf(reg, t, c[k - 1]))
  }

  /** `x` is a transitive same-type dependency reached from `first` without
      passing through `root`. */
  ghost predicate Reaches(reg: Registry, t: string, root: string, first: seq<string>, x: string) {
    exists c :: Chain(reg, t, root, first, c) && c[|c| - 1] == x
  }

  /** Every name in `names` has all its dependencies among `names` or equal
      to `root`. */
  ghost predicate ClosedUnder(reg: Registry, t: string, root: string, names: seq<string>) {
    forall x, y :: x in names && y in DepsOf(reg, t, x) ==> y == root || y in names
  }

  lemma ChainExtend(reg: Registry, t: string, root: string, first: seq<string>, d: string, c: seq<string>)
    requires d in first && d != root && Exists(reg, t, d)
    requires Chain(reg, t, root, DepsOf(reg, t, d), c)
    ensures Chain(reg, t, root, first, [d] + c)
  {
  }

  /** Everything a walk records is a transitive dependency of the asset the
      walk started from. */
  lemma {:induction false} WalkSound(reg: Registry, t: string, root: string, item: Item,
                                     path: set<string>, i: nat, acc: seq<string>)
    requires i <= |item.dependencies|
    requires WalkFrom(reg, t, root, item, path, i, acc).Ok?
    ensures forall x :: x in WalkFrom(reg, t, root, item, path, i, acc).value ==>
              x in acc || Reaches(reg, t, root, item.dependencies, x)
    decreases |NamesOfType(reg, t) - path|, |item.dependencies| - i
  {
    if i < |item.dependencies| {
      var d := item.dependencies[i];
      if d == root {
        WalkSound(reg, t, root, item, path, i + 1, acc);
      } else {
        WalkStep(reg, t, root, item, path, i, acc);
        assert NamesOfType(reg, t) - (path + {d}) == (NamesOfType(reg, t) - path) - {d};
        var dep := reg.assets[Key(t, d)];
        var sub := WalkFrom(reg, t, root, dep, path + {d}, 0, []).value;
        WalkSound(reg, t, root, dep, path + {d}, 0, []);
        var acc' := Record(acc, d, sub);
        WalkSound(reg, t, root, item, path, i + 1, acc');
        SoundMerge(reg, t, root, item.dependencies, acc, d, sub);
      }
    }
  }

  /** What a found dependency's walk records is reached through it. */
  lemma SoundMerge(reg: Registry, t: string, root: string, first: seq<string>,
                   acc: seq<string>, d: string, sub: seq<string>)
    requires d in first && d != root && Exists(reg, t, d)
    requires forall x :: x in sub ==> Reaches(reg, t, root, DepsOf(reg, t, d), x)
    ensures forall x :: x in Record(acc, d, sub) && x !in acc ==> Reaches(reg, t, root, first, x)
  {
    forall x | x in Record(acc, d, sub) && x !in acc
      ensures Reaches(reg, t, root, first, x)
    {
      if x == d {
        assert Chain(reg, t, root, first, [d]);
      } else {
        var c :| Chain(reg, t, root, DepsOf(reg, t, d), c) && c[|c| - 1] == x;
        ChainExtend(reg, t, root, first, d, c);
        assert ([d] + c)[|[d] + c| - 1] == x;
      }
    }
  }

  /** Merging the records of a found dependency keeps the recorded names
      closed. */
  lemma ClosedMerge(reg: Registry, t: string, root: string, acc: seq<string>, d: string, sub: seq<string>)
    requires ClosedUnder(reg, t, root, acc) && ClosedUnder(reg, t, root, sub)
    requires forall y :: y in DepsOf(reg, t, d) ==> y == root || y in sub
    ensures ClosedUnder(reg, t, root, Record(acc, d, sub))
  {
    var acc' := Record(acc, d, sub);
    forall x, y | x in acc' && y in DepsOf(reg, t, x)
      ensures y == root || y in acc'
    {
      if x in acc {
      } else if x == d {
      } else {
        assert x in sub;
      }
    }
  }

  /** One step of a walk past a found, non-root dependency `d`. */
  lemma WalkStep(reg: Registry, t: string, root: string, item: Item,
                 path: set<string>, i: nat, acc: seq<string>)
    requires i < |item.dependencies|
    requires WalkFrom(reg, t, root, item, path, i, acc).Ok?
    requires item.dependencies[i] != root
    ensures var d := item.dependencies[i];
            && Exists(reg, t, d) && d !in path
            && WalkFrom(reg, t, root, reg.assets[Key(t, d)], path + {d}, 0, []).Ok?
            && WalkFrom(reg, t, root, item, path, i, acc)
               == WalkFrom(reg, t, root, item, path, i + 1,
                           Record(acc, d, WalkFrom(reg, t, root, reg.assets[Key(t, d)], path + {d}, 0, []).value))
  {
  }

  /** What a walk records covers every remaining dependency of the walked
      asset other than the root. */
  lemma {:induction false} WalkCovers(reg: Registry, t: string, root: string, item: Item,
                                      path: set<string>, i: nat, acc: seq<string>)
    requires i <= |item.dependencies|
    requires WalkFrom(reg, t, root, item, path, i, acc).Ok?
    ensures forall k :: i <= k < |item.dependencies| ==>
              item.dependencies[k] == root || item.dependencies[k] in WalkFrom(reg, t, root, item, path, i, acc).value
    decreases |item.dependencies| - i
  {
    if i < |item.dependencies| {
      var d := item.dependencies[i];
      if d == root {
        WalkCovers(reg, t, root, item, path, i + 1, acc);
      } else {
        WalkStep(reg, t, root, item, path, i, acc);
        var sub := WalkFrom(reg, t, root, reg.assets[Key(t, d)], path + {d}, 0, []).value;
        var acc' := Record(acc, d, sub);
        WalkCovers(reg, t, root, item, path, i + 1, acc');
        var r := WalkFrom(reg, t, root, item, path, i + 1, acc').value;
        assert d in r by {
          var p :| 0 <= p < |acc'| && acc'[p] == d;
          assert r[p] == acc'[p];
        }
      }
    }
  }

  /** What a walk records is closed under dependencies, up to the root. */
  lemma {:induction false} WalkClosed(reg: Registry, t: string, root: string, item: Item,
                                      path: set<string>, i: nat, acc: seq<string>)
    requires i <= |item.dependencies|
    requires ClosedUnder(reg, t, root, acc)
    requires WalkFrom(reg, t, root, item, path, i, acc).Ok?
    ensures ClosedUnder(reg, t, root, WalkFrom(reg, t, root, item, path, i, acc).value)
    decreases |NamesOfType(reg, t) - path|, |item.dependencies| - i
  {
    if i < |item.dependencies| {
      var d := item.dependencies[i];
      if d == root {
        WalkClosed(reg, t, root, item, path, i + 1, acc);
      } else {
        WalkStep(reg, t, root, item, path, i, acc);
        assert NamesOfType(reg, t) - (path + {d}) == (NamesOfType(reg, t) - path) - {d};
        var dep := reg.assets[Key(t, d)];
        var sub := WalkFrom(reg, t, root, dep, path + {d}, 0, []).value;
        WalkClosed(reg, t, root, dep, path + {d}, 0, []);
        WalkCovers(reg, t, root, dep, path + {d}, 0, []);
        ClosedMerge(reg, t, root, acc, d, sub);
        WalkClosed(reg, t, root, item, path, i + 1, Record(acc, d, sub));
      }
    }
  }

  /** Every transitive dependency of the root is recorded by a successful
      walk. */
  lemma WalkComplete(reg: Registry, t: string, root: Item, x: string)
    requires Walk(reg, t, root).Ok?
    requires Reaches(reg, t, root.name, root.dependencies, x)
    ensures x in Walk(reg, t, root).value
  {
    var w := Walk(reg, t, root).value;
    WalkClosed(reg, t, root.name, root, {}, 0, []);
    WalkCovers(reg, t, root.name, root, {}, 0, []);
    var c :| Chain(reg, t, root.name, root.dependencies, c) && c[|c| - 1] == x;
    var k := 0;
    while k < |c| - 1
      invariant 0 <= k < |c|
      invariant c[k] in w
    {
      assert c[k + 1] in DepsOf(reg, t, c[k]);
      k := k + 1;
    }
  }

  /** A walk fails whenever some transitive dependency of the root, or the
      root itself, depends on a missing asset other than the root. */
  lemma WalkFailsOnMissing(reg: Registry, t: string, root: Item, x: string, y: string)
    requires x == root.name || Reaches(reg, t, root.name, root.dependencies, x)
    requires x == root.name ==> y in root.dependencies
    requires x != root.name ==> y in DepsOf(reg, t, x)
    requires y != root.name && !Exists(reg, t, y)
    ensures Walk(reg, t, root).Err?
  {
    if Walk(reg, t, root).Ok? {
      var w := Walk(reg, t, root).value;
      WalkClosed(reg, t, root.name, root, {}, 0, []);
      WalkCovers(reg, t, root.name, root, {}, 0, []);
      if x != root.name {
        WalkComplete(reg, t, root, x);
      }
    }
  }

  /** Puts each name of `ds` the lane lacks at the front of the lane as a
      Dependency entry, one after the other, so the last one inserted ends
      up first. */
  function PrependMissing(lane: seq<Entry>, ds: seq<string>): (r: seq<Entry>)
    ensures GrownFront(r, lane)
    ensures forall x :: x in Names(r) <==> x in Names(lane) || x in ds
    decreases |ds|
  {
    if |ds| == 0 then lane
    else if ds[0] in Names(lane) then
      var r := PrependMissing(lane, ds[1..]);
      assert forall x :: x in ds <==> x == ds[0] || x in ds[1..];
      r
    else
      var lane' := [Entry(ds[0], Dependency)] + lane;
      assert Names(lane') == [ds[0]] + Names(lane);
      var r := PrependMissing(lane', ds[1..]);
      assert forall x :: x in ds <==> x == ds[0] || x in ds[1..];
      GrownFrontTrans(lane, lane', r);
      r
  }

  /** Prepending keeps names unique and states set. */
  lemma {:induction false} PrependMissingOk(lane: seq<Entry>, ds: seq<string>)
    requires LaneOk(lane)
    ensures LaneOk(PrependMissing(lane, ds))
    decreases |ds|
  {
    if |ds| > 0 {
      if ds[0] in Names(lane) {
        PrependMissingOk(lane, ds[1..]);
      } else {
        var lane' := [Entry(ds[0], Dependency)] + lane;
        LaneOkPrepend(Entry(ds[0], Dependency), lane);
        PrependMissingOk(lane', ds[1..]);
      }
    }
  }

  /** The per-asset pass of `enableDependencies()` for one type: each listed
      root is looked up, and for a type other than `preset` its walk is
      merged into the lane. The first failure stops the pass and keeps what
      was merged so far. */
  function ResolveRoots(reg: Registry, t: string, lane: seq<Entry>, roots: seq<string>, i: nat): (r: (seq<Entry>, Outcome))
    requires i <= |roots|
    ensures t == Preset ==> r.0 == lane
    ensures r.1.Fail? ==> r.1.error.UnknownAsset? || r.1.error.UnsatisfiedDependency? || r.1.error.CyclicDependency?
    decreases |roots| - i
  {
    if i == |roots| then (lane, Pass)
    else match Get(reg, t, roots[i])
      case Err(e) => (lane, Fail(e))
      case Ok(item) =>
        if t == Preset then ResolveRoots(reg, t, lane, roots, i + 1)
        else match Walk(reg, t, item)
          case Err(e) => (lane, Fail(e))
          case Ok(ds) =>
            ResolveRoots(reg, t, PrependMissing(lane, ds), roots, i + 1)
  }

  /** The per-asset pass keeps names unique and states set. */
  lemma {:induction false} ResolveRootsOk(reg: Registry, t: string, lane: seq<Entry>, roots: seq<string>, i: nat)
    requires i <= |roots| && LaneOk(lane)
    ensures LaneOk(ResolveRoots(reg, t, lane, roots, i).0)
    decreases |roots| - i
  {
    if i < |roots| {
      match Get(reg, t, roots[i])
      case Err(_) =>
      case Ok(item) =>
        if t == Preset {
          ResolveRootsOk(reg, t, lane, roots, i + 1);
        } else {
          match Walk(reg, t, item)
          case Err(_) =>
          case Ok(ds) =>
            PrependMissingOk(lane, ds);
            ResolveRootsOk(reg, t, PrependMissing(lane, ds), roots, i + 1);
        }
    }
  }

  /** The type-by-type pass, in the order the types were first used. */
  function ResolveTypes(reg: Registry, tbl: Table, j: nat): (r: (Table, Outcome))
    requires WellFormed(tbl) && j <= |tbl.types|
    ensures WellFormed(r.0) && r.0.types == tbl.types
    ensures forall ty :: ty in tbl.types[..j] ==> r.0.lanes[ty] == tbl.lanes[ty]
    decreases |tbl.types| - j
  {
    if j == |tbl.types| then (tbl, Pass)
    else
      var ty := tbl.types[j];
      var lane := tbl.lanes[ty];
      var (lane', out) := ResolveRoots(reg, ty, lane, Names(lane), 0);
      ResolveRootsOk(reg, ty, lane, Names(lane), 0);
      var tbl' := PutLane(tbl, ty, lane');
      if out.Fail? then (tbl', out)
      else
        var r := ResolveTypes(reg, tbl', j + 1);
        assert forall ty' :: ty' in tbl.types[..j] ==> ty' in tbl.types[..j + 1] && ty' != ty;
        r
  }

  /** `enableDependencies()`: drop every Dependency entry, then re-insert
      what the Active assets need. */
  function Resolve(reg: Registry, tbl: Table): (r: (Table, Outcome))
    requires WellFormed(tbl)
    ensures WellFormed(r.0) && r.0.types == tbl.types
  {
    ResolveTypes(reg, KeepActive(tbl), 0)
  }

  /** Every entry of the lane has its same-type dependencies in the lane. */
  ghost predicate LaneClosed(reg: Registry, t: string, lane: seq<Entry>) {
    forall x, y :: x in Names(lane) && y in DepsOf(reg, t, x) ==> y in Names(lane)
  }

  /** Every entry of the lane that is not one of `roots` is a transitive
      dependency of one of them. */
  ghost predicate LaneRequired(reg: Registry, t: string, lane: seq<Entry>, roots: seq<string>) {
    forall x :: x in Names(lane) && x !in roots ==>
      exists n :: n in roots && Reaches(reg, t, n, DepsOf(reg, t, n), x)
  }

  /** Every entry of the lane is a stored definition. */
  ghost predicate LaneKnown(reg: Registry, t: string, lane: seq<Entry>) {
    forall x :: x in Names(lane) ==> Exists(reg, t, x)
  }

  /** One step of a successful pass outside `preset`: the root is stored,
      its walk succeeds, and the pass goes on with the walk merged in. */
  lemma RootStep(reg: Registry, t: string, lane: seq<Entry>, roots: seq<string>, i: nat)
    requires t != Preset && i < |roots|
    requires ResolveRoots(reg, t, lane, roots, i).1 == Pass
    ensures Exists(reg, t, roots[i])
    ensures var item := reg.assets[Key(t, roots[i])];
            && Walk(reg, t, item).Ok?
            && ResolveRoots(reg, t, lane, roots, i) == ResolveRoots(reg, t, PrependMissing(lane, Walk(reg, t, item).value), roots, i + 1)
  {
  }

  /** The lane is closed for every entry other than the roots not yet
      handled from index `i` on. */
  ghost predicate ClosedBut(reg: Registry, t: string, lane: seq<Entry>, roots: seq<string>, i: nat)
    requires i <= |roots|
  {
    forall x, y :: x in Names(lane) && (x in roots[..i] || x !in roots) && y in DepsOf(reg, t, x) ==> y in Names(lane)
  }

  /** Merging the walk of root `i` handles that root. */
  lemma MergeClosed(reg: Registry, t: string, lane: seq<Entry>, roots: seq<string>, i: nat, ds: seq<string>)
    requires i < |roots| && roots[i] in Names(lane)
    requires ClosedBut(reg, t, lane, roots, i)
    requires ClosedUnder(reg, t, roots[i], ds)
    requires forall y :: y in DepsOf(reg, t, roots[i]) ==> y == roots[i] || y in ds
    ensures ClosedBut(reg, t, PrependMissing(lane, ds), roots, i + 1)
  {
    var n := roots[i];
    var lane' := PrependMissing(lane, ds);
    assert forall x :: x in roots[..i + 1] <==> x in roots[..i] || x == n;
    forall x, y | x in Names(lane') && (x in roots[..i + 1] || x !in roots) && y in DepsOf(reg, t, x)
      ensures y in Names(lane')
    {
      if x in Names(lane) && (x in roots[..i] || x !in roots) {
      } else if x == n {
      } else {
        assert x in ds;
      }
    }
  }

  /** A successful pass outside `preset` leaves the lane closed under
      dependencies. */
  lemma {:induction false} ResolveRootsClosed(reg: Registry, t: string, lane: seq<Entry>, roots: seq<string>, i: nat)
    requires Consistent(reg) && t != Preset && i <= |roots|
    requires forall n :: n in roots ==> n in Names(lane)
    requires ClosedBut(reg, t, lane, roots, i)
    requires ResolveRoots(reg, t, lane, roots, i).1 == Pass
    ensures LaneClosed(reg, t, ResolveRoots(reg, t, lane, roots, i).0)
    decreases |roots| - i
  {
    if i == |roots| {
      assert roots[..i] == roots;
    } else {
      var n := roots[i];
      RootStep(reg, t, lane, roots, i);
      var item := reg.assets[Key(t, n)];
      var ds := Walk(reg, t, item).value;
      WalkClosed(reg, t, n, item, {}, 0, []);
      WalkCovers(reg, t, n, item, {}, 0, []);
      MergeClosed(reg, t, lane, roots, i, ds);
      ResolveRootsClosed(reg, t, PrependMissing(lane, ds), roots, i + 1);
    }
  }

  /** In a successful pass outside `preset` every entry that is not a root
      is required by one. */
  lemma {:induction false} ResolveRootsRequired(reg: Registry, t: string, lane: seq<Entry>, roots: seq<string>, i: nat)
    requires Consistent(reg) && t != Preset && i <= |roots|
    requires forall x :: x in Names(lane) && x !in roots ==>
               exists n :: n in roots[..i] && Reaches(reg, t, n, DepsOf(reg, t, n), x)
    requires ResolveRoots(reg, t, lane, roots, i).1 == Pass
    ensures LaneRequired(reg, t, ResolveRoots(reg, t, lane, roots, i).0, roots)
    decreases |roots| - i
  {
    if i == |roots| {
      assert roots[..i] == roots;
    } else {
      var n := roots[i];
      assert forall x :: x in roots[..i + 1] <==> x in roots[..i] || x == n;
      RootStep(reg, t, lane, roots, i);
      var item := reg.assets[Key(t, n)];
      var ds := Walk(reg, t, item).value;
      WalkSound(reg, t, n, item, {}, 0, []);
      var lane' := PrependMissing(lane, ds);
      forall x | x in Names(lane') && x !in roots
        ensures exists n' :: n' in roots[..i + 1] && Reaches(reg, t, n', DepsOf(reg, t, n'), x)
      {
        if x in Names(lane) {
          var n' :| n' in roots[..i] && Reaches(reg, t, n', DepsOf(reg, t, n'), x);
          assert n' in roots[..i + 1];
        } else {
          assert x in ds && Reaches(reg, t, n, DepsOf(reg, t, n), x);
        }
      }
      ResolveRootsRequired(reg, t, lane', roots, i + 1);
    }
  }

  /** In a successful pass every entry is a stored definition. */
  lemma {:induction false} ResolveRootsKnown(reg: Registry, t: string, lane: seq<Entry>, roots: seq<string>, i: nat)
    requires Consistent(reg) && i <= |roots|
    requires forall x :: x in Names(lane) && (x in roots[..i] || x !in roots) ==> Exists(reg, t, x)
    requires ResolveRoots(reg, t, lane, roots, i).1 == Pass
    ensures LaneKnown(reg, t, ResolveRoots(reg, t, lane, roots, i).0)
    decreases |roots| - i
  {
    if i == |roots| {
      assert roots[..i] == roots;
    } else {
      var n := roots[i];
      assert forall x :: x in roots[..i + 1] <==> x in roots[..i] || x == n;
      assert Exists(reg, t, n) by {
        assert Get(reg, t, n).Ok?;
      }
      if t == Preset {
        ResolveRootsKnown(reg, t, lane, roots, i + 1);
      } else {
        RootStep(reg, t, lane, roots, i);
        var ds := Walk(reg, t, reg.assets[Key(t, n)]).value;
        var lane' := PrependMissing(lane, ds);
        assert forall x :: x in Names(lane') && (x in roots[..i + 1] || x !in roots) ==> Exists(reg, t, x);
        ResolveRootsKnown(reg, t, lane', roots, i + 1);
      }
    }
  }

  /** One step of a successful type-by-type pass. */
  lemma TypesStep(reg: Registry, tbl: Table, j: nat)
    requires WellFormed(tbl) && j < |tbl.types|
    requires ResolveTypes(reg, tbl, j).1 == Pass
    ensures var lane := tbl.lanes[tbl.types[j]];
            var rr := ResolveRoots(reg, tbl.types[j], lane, Names(lane), 0);
            && rr.1 == Pass && LaneOk(rr.0)
            && ResolveTypes(reg, tbl, j) == ResolveTypes(reg, PutLane(tbl, tbl.types[j], rr.0), j + 1)
  {
  }

  /** A successful type-by-type pass leaves in each lane from index `j` on
      what the per-asset pass computes for it. */
  lemma {:induction false} ResolveTypesLane(reg: Registry, tbl: Table, j: nat, k: nat)
    requires WellFormed(tbl) && j <= k < |tbl.types|
    requires ResolveTypes(reg, tbl, j).1 == Pass
    ensures var lane := tbl.lanes[tbl.types[k]];
            var rr := ResolveRoots(reg, tbl.types[k], lane, Names(lane), 0);
            rr.1 == Pass && ResolveTypes(reg, tbl, j).0.lanes[tbl.types[k]] == rr.0
    decreases |tbl.types| - j
  {
    var ty0 := tbl.types[j];
    var lane := tbl.lanes[ty0];
    var rr := ResolveRoots(reg, ty0, lane, Names(lane), 0);
    TypesStep(reg, tbl, j);
    var tbl' := PutLane(tbl, ty0, rr.0);
    if k == j {
      assert ty0 in tbl'.types[..j + 1];
    } else {
      assert tbl.types[k] != ty0;
      assert tbl'.lanes[tbl.types[k]] == tbl.lanes[tbl.types[k]];
      ResolveTypesLane(reg, tbl', j + 1, k);
    }
  }

  lemma OnlyActiveOfActive(a: seq<Entry>)
    requires forall k :: 0 <= k < |a| ==> a[k].state == Active
    ensures OnlyState(a, Active) == a
  {
    if |a| > 0 {
      OnlyActiveOfActive(a[1..]);
      assert a == [a[0]] + a[1..];
    }
  }

  /** `r` is `lane` with Dependency entries put in front of it. */
  ghost predicate GrownFront(r: seq<Entry>, lane: seq<Entry>) {
    && |lane| <= |r|
    && (forall k :: 0 <= k < |lane| ==> r[|r| - |lane| + k] == lane[k])
    && (forall k :: 0 <= k < |r| - |lane| ==> r[k].state == Dependency)
  }

  lemma GrownFrontTrans(a: seq<Entry>, b: seq<Entry>, c: seq<Entry>)
    requires GrownFront(b, a) && GrownFront(c, b)
    ensures GrownFront(c, a)
  {
    forall k | 0 <= k < |a| ensures c[|c| - |a| + k] == a[k] {
      assert c[|c| - |b| + (|b| - |a| + k)] == b[|b| - |a| + k];
    }
    forall k | |c| - |b| <= k < |c| - |a| ensures c[k].state == Dependency {
      assert c[|c| - |b| + (k - (|c| - |b|))] == b[k - (|c| - |b|)];
    }
  }

  /** What the per-asset pass adds to a lane: Dependency entries in front. */
  lemma {:induction false} RootsShapeAt(reg: Registry, t: string, lane: seq<Entry>, roots: seq<string>, i: nat)
    requires i <= |roots|
    ensures GrownFront(ResolveRoots(reg, t, lane, roots, i).0, lane)
    decreases |roots| - i
  {
    if i < |roots| {
      match Get(reg, t, roots[i])
      case Err(_) =>
      case Ok(item) =>
        if t == Preset {
          RootsShapeAt(reg, t, lane, roots, i + 1);
        } else {
          match Walk(reg, t, item)
          case Err(_) =>
          case Ok(ds) =>
            var lane' := PrependMissing(lane, ds);
            RootsShapeAt(reg, t, lane', roots, i + 1);
            GrownFrontTrans(lane, lane', ResolveRoots(reg, t, lane', roots, i + 1).0);
        }
    }
  }

  /** A lane made of Dependency entries followed by the Active entries
      `act` keeps exactly `act` when only Active entries are kept. */
  lemma {:induction false} ActiveOfShape(lane: seq<Entry>, act: seq<Entry>)
    requires forall k :: 0 <= k < |act| ==> act[k].state == Active
    requires GrownFront(lane, act)
    ensures OnlyState(lane, Active) == act
    decreases |lane|
  {
    if |lane| == |act| {
      assert lane == act by {
        assert forall k :: 0 <= k < |lane| ==> lane[|lane| - |act| + k] == act[k];
      }
      OnlyActiveOfActive(act);
    } else {
      var tail := lane[1..];
      assert GrownFront(tail, act) by {
        forall k | 0 <= k < |act| ensures tail[|tail| - |act| + k] == act[k] {
          assert tail[|tail| - |act| + k] == lane[|lane| - |act| + k];
        }
      }
      ActiveOfShape(tail, act);
    }
  }

  lemma ResolveLaneKnown(reg: Registry, ty: string, act: seq<Entry>)
    requires Consistent(reg)
    requires ResolveRoots(reg, ty, act, Names(act), 0).1 == Pass
    ensures LaneKnown(reg, ty, ResolveRoots(reg, ty, act, Names(act), 0).0)
  {
    var roots := Names(act);
    assert roots[..0] == [];
    ResolveRootsKnown(reg, ty, act, roots, 0);
  }

  lemma ResolveLaneClosed(reg: Registry, ty: string, act: seq<Entry>)
    requires Consistent(reg) && ty != Preset
    requires ResolveRoots(reg, ty, act, Names(act), 0).1 == Pass
    ensures LaneClosed(reg, ty, ResolveRoots(reg, ty, act, Names(act), 0).0)
    ensures LaneRequired(reg, ty, ResolveRoots(reg, ty, act, Names(act), 0).0, Names(act))
  {
    var roots := Names(act);
    assert roots[..0] == [];
    assert ClosedBut(reg, ty, act, roots, 0);
    ResolveRootsClosed(reg, ty, act, roots, 0);
    ResolveRootsRequired(reg, ty, act, roots, 0);
  }

  /** The Active entries of `tbl`'s lane `ty` and the lane the closure
      computes from them. */
  lemma ResolveLaneOf(reg: Registry, tbl: Table, ty: string)
    requires WellFormed(tbl) && ty in tbl.lanes
    requires Resolve(reg, tbl).1 == Pass
    ensures var act := OnlyState(tbl.lanes[ty], Active);
            && ResolveRoots(reg, ty, act, Names(act), 0).1 == Pass
            && Resolve(reg, tbl).0.lanes[ty] == ResolveRoots(reg, ty, act, Names(act), 0).0
  {
    var kept := KeepActive(tbl);
    var k :| 0 <= k < |kept.types| && kept.types[k] == ty;
    ResolveTypesLane(reg, kept, 0, k);
  }

  /** What `enableDependencies()` leaves in a lane when it succeeds: the
      Active entries, unchanged and in their order, at the back; in front
      of them only Dependency entries; every entry a stored definition; and,
      outside `preset`, a lane closed under dependencies whose Dependency
      entries are each required by some Active entry. */
  lemma ResolveSpec(reg: Registry, tbl: Table, ty: string)
    requires Consistent(reg) && WellFormed(tbl) && ty in tbl.lanes
    requires Resolve(reg, tbl).1 == Pass
    ensures var lane := Resolve(reg, tbl).0.lanes[ty];
            var act := OnlyState(tbl.lanes[ty], Active);
            && GrownFront(lane, act)
            && OnlyState(lane, Active) == act
            && LaneKnown(reg, ty, lane)
            && (ty == Preset ==> lane == act)
            && (ty != Preset ==> LaneClosed(reg, ty, lane) && LaneRequired(reg, ty, lane, Names(act)))
  {
    ResolveSpecShape(reg, tbl, ty);
    ResolveSpecContents(reg, tbl, ty);
  }

  lemma ResolveSpecShape(reg: Registry, tbl: Table, ty: string)
    requires Consistent(reg) && WellFormed(tbl) && ty in tbl.lanes
    requires Resolve(reg, tbl).1 == Pass
    ensures var lane := Resolve(reg, tbl).0.lanes[ty];
            var act := OnlyState(tbl.lanes[ty], Active);
            && GrownFront(lane, act)
            && OnlyState(lane, Active) == act
            && (ty == Preset ==> lane == act)
  {
    ResolveLaneOf(reg, tbl, ty);
    var act := OnlyState(tbl.lanes[ty], Active);
    OnlyStateMembers(tbl.lanes[ty], Active);
    forall k | 0 <= k < |act| ensures act[k].state == Active {
      assert act[k] in act;
    }
    var lane := ResolveRoots(reg, ty, act, Names(act), 0).0;
    RootsShapeAt(reg, ty, act, Names(act), 0);
    ActiveOfShape(lane, act);
  }

  lemma ResolveSpecContents(reg: Registry, tbl: Table, ty: string)
    requires Consistent(reg) && WellFormed(tbl) && ty in tbl.lanes
    requires Resolve(reg, tbl).1 == Pass
    ensures var lane := Resolve(reg, tbl).0.lanes[ty];
            var act := OnlyState(tbl.lanes[ty], Active);
            && LaneKnown(reg, ty, lane)
            && (ty != Preset ==> LaneClosed(reg, ty, lane) && LaneRequired(reg, ty, lane, Names(act)))
  {
    var act := OnlyState(tbl.lanes[ty], Active);
    ResolveLaneOf(reg, tbl, ty);
    ResolveLaneKnown(reg, ty, act);
    if ty != Preset {
      ResolveLaneClosed(reg, ty, act);
    }
  }

  /** A closed lane holds every transitive dependency of its members. */
  lemma ReachableInLane(reg: Registry, t: string, lane: seq<Entry>, n: string, x: string)
    requires LaneClosed(reg, t, lane) && n in Names(lane)
    requires Reaches(reg, t, n, DepsOf(reg, t, n), x)
    ensures x in Names(lane)
  {
    var c :| Chain(reg, t, n, DepsOf(reg, t, n), c) && c[|c| - 1] == x;
    var k := 0;
    while k < |c| - 1
      invariant 0 <= k < |c|
      invariant c[k] in Names(lane)
    {
      assert c[k + 1] in DepsOf(reg, t, c[k]);
      k := k + 1;
    }
  }

  lemma ActiveKept(l: seq<Entry>, n: string)
    requires LaneOk(l) && StateIn(l, n) == Active
    ensures n in Names(OnlyState(l, Active))
  {
    var k :| 0 <= k < |l| && l[k].name == n;
    OnlyStateMembers(l, Active);
    assert l[k] in OnlyState(l, Active);
    NameInLane(OnlyState(l, Active), n);
  }

  lemma NameInGrown(lane: seq<Entry>, act: seq<Entry>, n: string)
    requires GrownFront(lane, act) && n in Names(act)
    ensures n in Names(lane)
  {
    var j :| 0 <= j < |act| && Names(act)[j] == n;
    assert Names(lane)[|lane| - |act| + j] == n;
  }

  /** An Active entry is still in its lane after a successful closure. */
  lemma ActiveStays(reg: Registry, tbl: Table, ty: string, n: string)
    requires Consistent(reg) && WellFormed(tbl) && ty in tbl.lanes
    requires Resolve(reg, tbl).1 == Pass
    requires StateIn(tbl.lanes[ty], n) == Active
    ensures n in Names(Resolve(reg, tbl).0.lanes[ty])
  {
    ResolveSpecShape(reg, tbl, ty);
    ActiveKept(tbl.lanes[ty], n);
    NameInGrown(Resolve(reg, tbl).0.lanes[ty], OnlyState(tbl.lanes[ty], Active), n);
  }

  /** The closure fails when an Active asset outside `preset`, or one of its
      transitive dependencies, depends on a definition that is not stored. */
  lemma ResolveFailsOnMissing(reg: Registry, tbl: Table, ty: string, n: string, x: string, y: string)
    requires Consistent(reg) && WellFormed(tbl) && ty in tbl.lanes && ty != Preset
    requires StateIn(tbl.lanes[ty], n) == Active
    requires x == n || Reaches(reg, ty, n, DepsOf(reg, ty, n), x)
    requires y in DepsOf(reg, ty, x) && !Exists(reg, ty, y)
    ensures Resolve(reg, tbl).1.Fail?
  {
    if Resolve(reg, tbl).1 == Pass {
      ActiveStays(reg, tbl, ty, n);
      ResolveSpecContents(reg, tbl, ty);
      var lane := Resolve(reg, tbl).0.lanes[ty];
      if x != n {
        ReachableInLane(reg, ty, lane, n, x);
      }
    }
  }
}
