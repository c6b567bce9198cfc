/**
 * The asset manager: the activation table over a registry, the marker that
 * says whether dependencies must be re-resolved (kept here as `dirty`, the
 * negation of `dependenciesIsActual`) and the one-way lock.
 */
module Manager {
  import opened Errors
  import opened Php
  import opened AssetItem
  import opened Registry
  import opened Activation
  import opened Resolver
  import opened Sorter

  datatype Manager = Manager(registry: Registry, table: Table, dirty: bool, locked: bool)

  ghost predicate Sound(m: Manager) {
    Consistent(m.registry) && WellFormed(m.table)
  }

  /** The constructor: nothing active, dependencies not yet checked, unlocked. */
  function Create(reg: Registry): (m: Manager)
    requires Consistent(reg)
    ensures Sound(m) && m.registry == reg
    ensures m.dirty && !m.locked
    ensures forall ty, n :: StateOf(m.table, ty, n) == Inactive
  {
    Manager(reg, EmptyTable(), true, false)
  }

  /** `lock()`. */
  function Lock(m: Manager): (r: Manager)
    ensures r.locked
    ensures r.registry == m.registry && r.table == m.table && r.dirty == m.dirty
  {
    m.(locked := true)
  }

  /** `reset()`: forgets every activation unless locked. */
  function Reset(m: Manager): (r: (Manager, Outcome))
    requires Sound(m)
    ensures Sound(r.0) && r.0.registry == m.registry && r.0.locked == m.locked
    ensures m.locked ==> r == (m, Fail(InvalidAction))
    ensures !m.locked ==> r.1 == Pass && r.0.dirty
    ensures !m.locked ==> forall ty, n :: StateOf(r.0.table, ty, n) == Inactive
  {
    if m.locked then (m, Fail(InvalidAction))
    else (m.(table := EmptyTable(), dirty := true), Pass)
  }

  // ---------------------------------------------------------------------
  // Preset references

  /** Splits a preset entry `name#type` at its last `#`. Without a `#`, or
      with the `#` in front, the whole entry is the name; an empty or `"0"`
      type means `preset`. */
  function ParseReference(dep: string): (r: (string, string))
    ensures r.1 != "" && r.1 != "0" && '#' !in r.1
  {
    match LastIndexOf(dep, '#')
    case None => (dep, Preset)
    case Some(p) =>
      if p == 0 then (dep, Preset)
      else
        var t := dep[p + 1..];
        assert forall k :: 0 <= k < |t| ==> t[k] == dep[p + 1 + k];
        (dep[..p], if t == "" || t == "0" then Preset else t)
  }

  /** Writing a reference out and reading it back gives the same parts. */
  lemma ParseReferenceRoundTrip(name: string, t: string)
    requires |name| > 0 && t != "" && t != "0" && '#' !in t
    ensures ParseReference(name + "#" + t) == (name, t)
  {
    var dep := name + "#" + t;
    assert dep[|name|] == '#';
    assert forall k :: |name| < k < |dep| ==> dep[k] == t[k - |name| - 1];
    assert dep[..|name|] == name && dep[|name| + 1..] == t;
    var p := LastIndexOf(dep, '#');
    assert p.Some? && p.value == |name|;
  }

  /** An entry without a `#` past its first character names a preset. */
  lemma ParseReferencePlain(dep: string)
    requires forall k :: 0 < k < |dep| ==> dep[k] != '#'
    ensures ParseReference(dep) == (dep, Preset)
  {
  }

  // ---------------------------------------------------------------------
  // How activation and removal change the table

  /** Nothing active before is inactive after, nothing Active is demoted,
      and no lane disappears. */
  ghost predicate Grows(a: Table, b: Table) {
    && (forall ty :: ty in a.lanes ==> ty in b.lanes)
    && (forall ty, x :: StateOf(a, ty, x) != Inactive ==> StateOf(b, ty, x) != Inactive)
    && (forall ty, x :: StateOf(a, ty, x) == Active ==> StateOf(b, ty, x) == Active)
  }

  /** Nothing inactive before is active after, and no lane disappears. */
  ghost predicate Shrinks(a: Table, b: Table) {
    && (forall ty :: ty in a.lanes ==> ty in b.lanes)
    && (forall ty, x :: StateOf(b, ty, x) != Inactive ==> StateOf(b, ty, x) == StateOf(a, ty, x))
  }

  /** No preset of `stack` that was inactive became active: the presets
      being expanded are never activated by their own expansion. */
  ghost predicate KeepsOut(a: Table, b: Table, stack: set<string>) {
    forall x :: x in stack && StateOf(a, Preset, x) == Inactive ==> StateOf(b, Preset, x) == Inactive
  }

  /** The state of the asset a preset entry refers to. */
  function RefState(tbl: Table, ref: string): State {
    StateOf(tbl, ParseReference(ref).1, ParseReference(ref).0)
  }

  ghost predicate RefsIn(tbl: Table, refs: seq<string>, i: nat, s: State) {
    forall j :: i <= j < |refs| ==> RefState(tbl, refs[j]) == s
  }

  lemma GrowsTrans(a: Table, b: Table, c: Table)
    requires Grows(a, b) && Grows(b, c)
    ensures Grows(a, c)
  {
  }

  lemma ShrinksTrans(a: Table, b: Table, c: Table)
    requires Shrinks(a, b) && Shrinks(b, c)
    ensures Shrinks(a, c)
  {
  }

  lemma KeepsOutTrans(a: Table, b: Table, c: Table, stack: set<string>)
    requires KeepsOut(a, b, stack) && KeepsOut(b, c, stack)
    ensures KeepsOut(a, c, stack)
  {
  }

  /** Replacing one lane by one that differs only at `n` changes only the
      state of `(t, n)`. */
  lemma PutLaneStates(tbl: Table, t: string, lane: seq<Entry>, n: string, s: State)
    requires WellFormed(tbl) && t in tbl.lanes && LaneOk(lane)
    requires forall x :: StateIn(lane, x) == if x == n then s else StateIn(tbl.lanes[t], x)
    ensures forall ty, x :: StateOf(PutLane(tbl, t, lane), ty, x) == if ty == t && x == n then s else StateOf(tbl, ty, x)
    ensures s == Active ==> Grows(tbl, PutLane(tbl, t, lane))
    ensures s == Inactive ==> Shrinks(tbl, PutLane(tbl, t, lane))
  {
  }

  lemma PromoteStates(lane: seq<Entry>, k: nat, n: string)
    requires LaneOk(lane) && k < |lane| && lane[k].name == n
    ensures forall x :: StateIn(Promote(lane, k), x) == if x == n then Active else StateIn(lane, x)
    ensures forall j :: 0 <= j < |lane| && lane[j].name == n ==> j == k
  {
    var p := Promote(lane, k);
    forall x ensures StateIn(p, x) == if x == n then Active else StateIn(lane, x) {
      if x in Names(lane) {
        var j :| 0 <= j < |lane| && lane[j].name == x;
        assert p[j].name == x;
      }
    }
    forall j | 0 <= j < |lane| && lane[j].name == n ensures j == k {
      assert Names(lane)[j] == Names(lane)[k];
    }
  }

  lemma AppendOk(lane: seq<Entry>, n: string)
    requires LaneOk(lane) && n !in Names(lane)
    ensures LaneOk(lane + [Entry(n, Active)])
    ensures Names(lane + [Entry(n, Active)]) == Names(lane) + [n]
  {
  }

  lemma AppendStates(lane: seq<Entry>, n: string)
    requires LaneOk(lane) && n !in Names(lane)
    ensures forall x :: StateIn(lane + [Entry(n, Active)], x) == if x == n then Active else StateIn(lane, x)
  {
    var l := lane + [Entry(n, Active)];
    AppendOk(lane, n);
    assert l[|lane|].name == n;
    forall x ensures StateIn(l, x) == if x == n then Active else StateIn(lane, x) {
      if x in Names(lane) {
        var j :| 0 <= j < |lane| && lane[j].name == x;
        assert l[j] == lane[j];
      }
    }
  }

  lemma DeleteStates(lane: seq<Entry>, n: string)
    requires LaneOk(lane)
    ensures forall x :: StateIn(Delete(lane, n), x) == if x == n then Inactive else StateIn(lane, x)
  {
    forall x ensures StateIn(Delete(lane, n), x) == if x == n then Inactive else StateIn(lane, x) {
      DeleteStateAt(lane, n, x);
    }
  }

  lemma DeleteStateAt(lane: seq<Entry>, n: string, x: string)
    requires LaneOk(lane)
    ensures StateIn(Delete(lane, n), x) == if x == n then Inactive else StateIn(lane, x)
  {
    var d := Delete(lane, n);
    DeleteOk(lane, n);
    if x != n {
      NameInLane(d, x);
      NameInLane(lane, x);
      if x in Names(lane) {
        var j :| 0 <= j < |lane| && lane[j].name == x;
        assert lane[j] in d;
        var i :| 0 <= i < |d| && d[i] == lane[j];
        assert StateIn(d, x) == d[i].state;
      } else {
        assert x !in Names(d);
      }
    }
  }

  // ---------------------------------------------------------------------
  // useAsset

  /** The last step of `useAsset`: an entry already present is made Active
      where it stands; otherwise the name is appended Active, and the
      dependencies become stale when the asset has any. */
  function Activate(m: Manager, t: string, n: string, a: Item): (r: Manager)
    requires Sound(m) && t in m.table.lanes
    ensures Sound(r) && r.registry == m.registry && r.locked == m.locked
    ensures r.table.types == m.table.types
    ensures r.table.lanes.Keys == m.table.lanes.Keys
    ensures forall ty :: ty != t && ty in m.table.lanes ==> r.table.lanes[ty] == m.table.lanes[ty]
    ensures n in Names(m.table.lanes[t]) ==>
      var lane := m.table.lanes[t];
      && r.dirty == m.dirty
      && |r.table.lanes[t]| == |lane|
      && forall k :: 0 <= k < |lane| ==>
           r.table.lanes[t][k] == if lane[k].name == n then Entry(n, Active) else lane[k]
    ensures n !in Names(m.table.lanes[t]) ==>
      && r.table.lanes[t] == m.table.lanes[t] + [Entry(n, Active)]
      && (r.dirty <==> m.dirty || |a.dependencies| > 0)
    ensures Grows(m.table, r.table)
    ensures forall ty, x :: StateOf(r.table, ty, x) == if ty == t && x == n then Active else StateOf(m.table, ty, x)
  {
    match IndexOf(m.table.lanes[t], n)
    case Some(k) => PromoteIn(m, t, n, k)
    case None => AppendTo(m, t, n, a)
  }

  /** Makes the entry at `k`, named `n`, Active where it stands. */
  function PromoteIn(m: Manager, t: string, n: string, k: nat): (r: Manager)
    requires Sound(m) && t in m.table.lanes && k < |m.table.lanes[t]| && m.table.lanes[t][k].name == n
    ensures Sound(r) && r.registry == m.registry && r.locked == m.locked && r.dirty == m.dirty
    ensures r.table.types == m.table.types
    ensures r.table.lanes == m.table.lanes[t := Promote(m.table.lanes[t], k)]
    ensures Grows(m.table, r.table)
    ensures forall ty, x :: StateOf(r.table, ty, x) == if ty == t && x == n then Active else StateOf(m.table, ty, x)
  {
    var lane := m.table.lanes[t];
    PromoteStates(lane, k, n);
    PutLaneStates(m.table, t, Promote(lane, k), n, Active);
    m.(table := PutLane(m.table, t, Promote(lane, k)))
  }

  /** Appends `n` Active; the dependencies become stale when `a` has any. */
  function AppendTo(m: Manager, t: string, n: string, a: Item): (r: Manager)
    requires Sound(m) && t in m.table.lanes && n !in Names(m.table.lanes[t])
    ensures Sound(r) && r.registry == m.registry && r.locked == m.locked
    ensures r.table.types == m.table.types
    ensures r.table.lanes == m.table.lanes[t := m.table.lanes[t] + [Entry(n, Active)]]
    ensures r.dirty <==> m.dirty || |a.dependencies| > 0
    ensures Grows(m.table, r.table)
    ensures forall ty, x :: StateOf(r.table, ty, x) == if ty == t && x == n then Active else StateOf(m.table, ty, x)
  {
    var lane := m.table.lanes[t];
    AppendOk(lane, n);
    AppendStates(lane, n);
    PutLaneStates(m.table, t, lane + [Entry(n, Active)], n, Active);
    m.(table := PutLane(m.table, t, lane + [Entry(n, Active)]),
       dirty := m.dirty || |a.dependencies| > 0)
  }

  /** `useAsset($type, $name)`, inside the expansion of the presets in
      `stack`. Meeting one of them again is where the source recurses
      without end. */
  function UseWithin(m: Manager, t: string, n: string, stack: set<string>): (r: (Manager, Outcome))
    requires Sound(m)
    ensures Sound(r.0) && r.0.registry == m.registry && r.0.locked == m.locked
    ensures Grows(m.table, r.0.table) && KeepsOut(m.table, r.0.table, stack)
    ensures m.locked ==> r == (m, Fail(InvalidAction))
    ensures !m.locked && !Exists(m.registry, t, n) ==> r == (m, Fail(UnknownAsset(t, n)))
    ensures !m.locked && Exists(m.registry, t, n) && t != Preset ==> r.1 == Pass
    ensures r.1 == Pass ==> StateOf(r.0.table, t, n) == Active
    ensures r.1.Fail? ==> r.1.error.InvalidAction? || r.1.error.UnknownAsset?
                          || r.1.error.UnsatisfiedDependency? || r.1.error.CyclicDependency?
    decreases |NamesOfType(m.registry, Preset) - stack|, 0, 1
  {
    if m.locked then (m, Fail(InvalidAction))
    else match Get(m.registry, t, n)
      case Err(e) => (m, Fail(e))
      case Ok(a) =>
        var m1 := m.(table := EnsureLane(m.table, t));
        assert forall ty, x :: StateOf(m1.table, ty, x) == StateOf(m.table, ty, x);
        var r := UseKnown(m1, t, n, a, stack);
        GrowsTrans(m.table, m1.table, r.0.table);
        KeepsOutTrans(m.table, m1.table, r.0.table, stack);
        r
  }

  /** `useAsset` once the asset is found and its lane exists: a preset is
      expanded first, then the asset is activated. */
  function UseKnown(m: Manager, t: string, n: string, a: Item, stack: set<string>): (r: (Manager, Outcome))
    requires Sound(m) && !m.locked && t in m.table.lanes && Exists(m.registry, t, n)
    ensures Sound(r.0) && r.0.registry == m.registry && r.0.locked == m.locked
    ensures Grows(m.table, r.0.table) && KeepsOut(m.table, r.0.table, stack)
    ensures t != Preset ==> r.1 == Pass
    ensures r.1 == Pass ==> StateOf(r.0.table, t, n) == Active
    ensures r.1.Fail? ==> r.1.error.UnknownAsset? || r.1.error.UnsatisfiedDependency? || r.1.error.CyclicDependency?
    decreases |NamesOfType(m.registry, Preset) - stack|, 0, 0
  {
    if t != Preset then (Activate(m, t, n, a), Pass)
    else if n in stack then (m, Fail(CyclicDependency(t, n)))
    else
      var presets := NamesOfType(m.registry, Preset);
      assert presets - (stack + {n}) == (presets - stack) - {n};
      var (m2, out) := UsePresetItems(m, n, stack + {n}, 0);
      if out.Fail? then (m2, out)
      else
        var m3 := Activate(m2, t, n, a);
        GrowsTrans(m.table, m2.table, m3.table);
        (m3, Pass)
  }

  /** `usePresetItems($name)` from the `i`-th entry on: each entry is parsed,
      must name a stored asset, and is used in turn. The first failure stops
      the expansion; what was activated before it stays. */
  function UsePresetItems(m: Manager, p: string, stack: set<string>, i: nat): (r: (Manager, Outcome))
    requires Sound(m) && !m.locked && i <= |DepsOf(m.registry, Preset, p)|
    ensures Sound(r.0) && r.0.registry == m.registry && r.0.locked == m.locked
    ensures Grows(m.table, r.0.table) && KeepsOut(m.table, r.0.table, stack)
    ensures r.1 == Pass ==> RefsIn(r.0.table, DepsOf(m.registry, Preset, p), i, Active)
    ensures r.1.Fail? ==> r.1.error.UnknownAsset? || r.1.error.UnsatisfiedDependency? || r.1.error.CyclicDependency?
    decreases |NamesOfType(m.registry, Preset) - stack|, 1, |DepsOf(m.registry, Preset, p)| - i
  {
    var deps := DepsOf(m.registry, Preset, p);
    if i == |deps| then (m, Pass)
    else
      var ref := ParseReference(deps[i]);
      if !Exists(m.registry, ref.1, ref.0) then (m, Fail(UnsatisfiedDependency(deps[i], p, Preset)))
      else
        var (m1, out) := UseWithin(m, ref.1, ref.0, stack);
        if out.Fail? then (m1, out)
        else
          var r := UsePresetItems(m1, p, stack, i + 1);
          UseStep(m.table, m1.table, r.0.table, deps, i, stack, r.1 == Pass);
          r
  }

  lemma UseStep(a: Table, b: Table, c: Table, refs: seq<string>, i: nat, stack: set<string>, passed: bool)
    requires i < |refs|
    requires Grows(a, b) && Grows(b, c) && KeepsOut(a, b, stack) && KeepsOut(b, c, stack)
    requires RefState(b, refs[i]) == Active
    requires passed ==> RefsIn(c, refs, i + 1, Active)
    ensures Grows(a, c) && KeepsOut(a, c, stack)
    ensures passed ==> RefsIn(c, refs, i, Active)
  {
    GrowsTrans(a, b, c);
    KeepsOutTrans(a, b, c, stack);
  }

  /** `useAsset($type, $name)`. */
  function UseAsset(m: Manager, t: string, n: string): (r: (Manager, Outcome))
    requires Sound(m)
    ensures Sound(r.0) && r.0.registry == m.registry && r.0.locked == m.locked
    ensures Grows(m.table, r.0.table)
    ensures m.locked ==> r == (m, Fail(InvalidAction))
    ensures !m.locked && !Exists(m.registry, t, n) ==> r == (m, Fail(UnknownAsset(t, n)))
    ensures !m.locked && Exists(m.registry, t, n) && t != Preset ==> r.1 == Pass
    ensures r.1 == Pass ==> StateOf(r.0.table, t, n) == Active
  {
    UseWithin(m, t, n, {})
  }

  // ---------------------------------------------------------------------
  // disableAsset

  /** `disableAsset($type, $name)` inside the expansion of the presets in
      `stack`: the entry goes whatever its state, the lane stays, the
      dependencies become stale, and a preset disables its entries. */
  function DisableWithin(m: Manager, t: string, n: string, stack: set<string>): (r: (Manager, Outcome))
    requires Sound(m)
    ensures Sound(r.0) && r.0.registry == m.registry && r.0.locked == m.locked
    ensures Shrinks(m.table, r.0.table) && r.0.table.types == m.table.types
    ensures m.dirty ==> r.0.dirty
    ensures m.locked ==> r == (m, Fail(InvalidAction))
    ensures !m.locked && !Exists(m.registry, t, n) ==> r == (m, Fail(UnknownAsset(t, n)))
    ensures !m.locked && Exists(m.registry, t, n) ==> r.0.dirty && StateOf(r.0.table, t, n) == Inactive
    decreases |NamesOfType(m.registry, Preset) - stack|, 0, 0
  {
    if m.locked then (m, Fail(InvalidAction))
    else if !Exists(m.registry, t, n) then (m, Fail(UnknownAsset(t, n)))
    else
      var m1 := m.(table := Unlist(m.table, t, n), dirty := true);
      if t != Preset then (m1, Pass)
      else if n in stack then (m1, Fail(CyclicDependency(t, n)))
      else
        var presets := NamesOfType(m.registry, Preset);
        assert presets - (stack + {n}) == (presets - stack) - {n};
        var r := DisablePresetItems(m1, n, stack + {n}, 0);
        ShrinksTrans(m.table, m1.table, r.0.table);
        r
  }

  /** `unset($activeAssets[$type][$name])`: a missing lane is not created. */
  function Unlist(tbl: Table, t: string, n: string): (r: Table)
    requires WellFormed(tbl)
    ensures WellFormed(r) && r.types == tbl.types && r.lanes.Keys == tbl.lanes.Keys
    ensures t in tbl.lanes ==> r.lanes == tbl.lanes[t := Delete(tbl.lanes[t], n)]
    ensures t !in tbl.lanes ==> r == tbl
    ensures forall ty, x :: StateOf(r, ty, x) == if ty == t && x == n then Inactive else StateOf(tbl, ty, x)
    ensures Shrinks(tbl, r)
  {
    if t !in tbl.lanes then tbl
    else
      DeleteOk(tbl.lanes[t], n);
      DeleteStates(tbl.lanes[t], n);
      PutLaneStates(tbl, t, Delete(tbl.lanes[t], n), n, Inactive);
      PutLane(tbl, t, Delete(tbl.lanes[t], n))
  }

  /** `disablePresetItems($name)` from the `i`-th entry on. */
  function DisablePresetItems(m: Manager, p: string, stack: set<string>, i: nat): (r: (Manager, Outcome))
    requires Sound(m) && !m.locked && i <= |DepsOf(m.registry, Preset, p)|
    ensures Sound(r.0) && r.0.registry == m.registry && r.0.locked == m.locked
    ensures Shrinks(m.table, r.0.table) && r.0.table.types == m.table.types
    ensures m.dirty ==> r.0.dirty
    ensures r.1 == Pass ==> RefsIn(r.0.table, DepsOf(m.registry, Preset, p), i, Inactive)
    decreases |NamesOfType(m.registry, Preset) - stack|, 1, |DepsOf(m.registry, Preset, p)| - i
  {
    var deps := DepsOf(m.registry, Preset, p);
    if i == |deps| then (m, Pass)
    else
      var ref := ParseReference(deps[i]);
      if !Exists(m.registry, ref.1, ref.0) then (m, Fail(UnsatisfiedDependency(deps[i], p, Preset)))
      else
        var (m1, out) := DisableWithin(m, ref.1, ref.0, stack);
        if out.Fail? then (m1, out)
        else
          var r := DisablePresetItems(m1, p, stack, i + 1);
          DisableStep(m.table, m1.table, r.0.table, deps, i, r.1 == Pass);
          r
  }

  lemma DisableStep(a: Table, b: Table, c: Table, refs: seq<string>, i: nat, passed: bool)
    requires i < |refs|
    requires Shrinks(a, b) && Shrinks(b, c)
    requires RefState(b, refs[i]) == Inactive
    requires passed ==> RefsIn(c, refs, i + 1, Inactive)
    ensures Shrinks(a, c)
    ensures passed ==> RefsIn(c, refs, i, Inactive)
  {
    ShrinksTrans(a, b, c);
  }

  /** `disableAsset($type, $name)`. */
  function DisableAsset(m: Manager, t: string, n: string): (r: (Manager, Outcome))
    requires Sound(m)
    ensures Sound(r.0) && r.0.registry == m.registry && r.0.locked == m.locked
    ensures Shrinks(m.table, r.0.table)
    ensures m.locked ==> r == (m, Fail(InvalidAction))
    ensures !m.locked && !Exists(m.registry, t, n) ==> r == (m, Fail(UnknownAsset(t, n)))
    ensures !m.locked && Exists(m.registry, t, n) ==> r.0.dirty && StateOf(r.0.table, t, n) == Inactive
  {
    DisableWithin(m, t, n, {})
  }

  // ---------------------------------------------------------------------
  // The registry listener and registration

  /** The listener the constructor installs: an override or removal of an
      asset the table holds, in either state, makes the dependencies stale;
      an addition never does. */
  function Notify(m: Manager, ev: Event): (r: Manager)
    ensures r.registry == m.registry && r.table == m.table && r.locked == m.locked
    ensures r.dirty <==> m.dirty || (ev.kind != Added && StateOf(m.table, ev.assetType, ev.asset.name) != Inactive)
  {
    if ev.kind != Added && StateOf(m.table, ev.assetType, ev.asset.name) != Inactive then m.(dirty := true)
    else m
  }

  /** `registerAsset($type, $asset)` with an item: stored through `add`,
      whose event reaches the listener. The lock is not consulted. */
  function RegisterItem(m: Manager, t: string, a: Item): (r: Manager)
    requires Sound(m)
    ensures Sound(r) && r.table == m.table && r.locked == m.locked
    ensures r.registry == Add(m.registry, t, a)
    ensures Get(r.registry, ToLower(t), a.name) == Ok(a)
    ensures r.dirty <==> m.dirty || (Exists(m.registry, ToLower(t), a.name) && StateOf(m.table, ToLower(t), a.name) != Inactive)
  {
    var reg := Add(m.registry, t, a);
    ChangesKeepConsistent(m.registry, t, a, t, a.name);
    AddThenGet(m.registry, t, a);
    Notify(m.(registry := reg), reg.log[|m.registry.log|])
  }

  /** `registerAsset($type, $name, $uri, $options, $attributes,
      $dependencies)`: the type is written into the options and a plain
      item is built and registered. */
  function RegisterNew(m: Manager, t: string, name: string, uri: string, options: map<string, Value>,
                       attributes: map<string, Value>, dependencies: seq<string>): (r: Manager)
    requires Sound(m)
    ensures Sound(r) && r.table == m.table && r.locked == m.locked
    ensures Exists(r.registry, ToLower(t), name)
    ensures var a := r.registry.assets[Key(ToLower(t), name)];
            a.name == name && a.uri == Some(uri) && GetOption(a, "type", Null) == Str(t)
  {
    var a := CreateAsset(name, Some(uri), options["type" := Str(t)], attributes, dependencies);
    RegisterItem(m, t, a)
  }

  /** A removal from the registry, with its event passed to the listener. */
  function Unregister(m: Manager, t: string, n: string): (r: Manager)
    requires Sound(m)
    ensures Sound(r) && r.table == m.table && r.locked == m.locked
    ensures r.registry == Remove(m.registry, t, n)
    ensures r.dirty <==> m.dirty || (Exists(m.registry, t, n) && StateOf(m.table, t, n) != Inactive)
  {
    var reg := Remove(m.registry, t, n);
    ChangesKeepConsistent(m.registry, t, Item(n, None, map[], map[], [], DefaultVersion), t, n);
    if Exists(m.registry, t, n) then Notify(m.(registry := reg), reg.log[|m.registry.log|])
    else m
  }

  // ---------------------------------------------------------------------
  // addInline

  /** `addInline($type, $asset)` with an item: marked inline and typed,
      registered, then used. Registration happens even when the lock then
      refuses the use; the use looks the name up under the type as given,
      while registration lower-cased it. */
  function AddInlineItem(m: Manager, t: string, a: Item): (r: (Manager, Outcome))
    requires Sound(m)
    ensures Sound(r.0) && r.0.locked == m.locked
    ensures Exists(r.0.registry, ToLower(t), a.name)
    ensures var b := r.0.registry.assets[Key(ToLower(t), a.name)];
            && Truthy(GetOption(b, "inline", Null)) && GetOption(b, "type", Null) == Str(t)
            && b.name == a.name && b.uri == a.uri && b.dependencies == a.dependencies
            && forall k :: k != "type" && k != "inline" ==> GetOption(b, k, Null) == GetOption(a, k, Null)
    ensures m.locked ==> r.1 == Fail(InvalidAction)
    ensures !m.locked && IsLower(t) ==> r.1 == Pass ==> StateOf(r.0.table, t, a.name) == Active
    ensures !m.locked && IsLower(t) && t != Preset ==> r.1 == Pass
  {
    var b := SetOption(SetOption(a, "type", Str(t)), "inline", Bool(true));
    var m1 := RegisterItem(m, t, b);
    assert IsLower(t) ==> ToLower(t) == t by {
      if IsLower(t) { ToLowerFixesLower(t); }
    }
    UseAsset(m1, t, b.name)
  }

  /** The name `addInline` gives string content: its `name` option when set,
      otherwise `inline.` followed by the content's hash. The hash function
      is a parameter. The name goes to a `string` parameter without strict
      types, so a scalar is converted as `(string)` does and an array is a
      TypeError. */
  function InlineName(content: string, options: map<string, Value>, hash: string -> string): (r: Result<string>)
    ensures r.Err? <==> "name" in options && (options["name"].List? || options["name"].Dict?)
    ensures r.Err? ==> r.error == TypeError("name")
    ensures r.Ok? && "name" in options && options["name"] != Null ==> r.value == ToPhpString(options["name"])
    ensures !("name" in options && options["name"] != Null) ==> r == Ok("inline." + hash(content))
  {
    var v := if "name" in options then options["name"] else Null;
    if v == Null then Ok("inline." + hash(content))
    else if v.List? || v.Dict? then Err(TypeError("name"))
    else Ok(ToPhpString(v))
  }

  /** `addInline($type, $content, $options, $attributes, $dependencies)`
      with string content: a plain item with an empty uri carrying the
      content as an option. A name that is refused leaves everything as
      it was. */
  function AddInlineContent(m: Manager, t: string, content: string, options: map<string, Value>,
                            attributes: map<string, Value>, dependencies: seq<string>,
                            hash: string -> string): (r: (Manager, Outcome))
    requires Sound(m)
    ensures Sound(r.0) && r.0.locked == m.locked
    ensures InlineName(content, options, hash).Err? ==> r == (m, Fail(TypeError("name")))
    ensures InlineName(content, options, hash).Ok? ==>
              var n := InlineName(content, options, hash).value;
              && Exists(r.0.registry, ToLower(t), n)
              && var b := r.0.registry.assets[Key(ToLower(t), n)];
                 && GetOption(b, "content", Null) == Str(content) && b.uri == Some("")
                 && Truthy(GetOption(b, "inline", Null))
  {
    match InlineName(content, options, hash)
    case Err(e) => (m, Fail(e))
    case Ok(name) =>
      var a := SetOption(CreateAsset(name, Some(""), options, attributes, dependencies), "content", Str(content));
      assert a.name == name && a.uri == Some("") && GetOption(a, "content", Null) == Str(content);
      AddInlineItem(m, t, a)
  }

  // ---------------------------------------------------------------------
  // Resolution and queries

  /** What `getAssetState` and `getAssets` do first: resolve the
      dependencies when they are stale. Success clears the marker; a failure
      keeps it set and keeps what the pass had already changed. */
  function Refresh(m: Manager): (r: (Manager, Outcome))
    requires Sound(m)
    ensures Sound(r.0) && r.0.registry == m.registry && r.0.locked == m.locked
    ensures r.0.table.types == m.table.types
    ensures !m.dirty ==> r == (m, Pass)
    ensures m.dirty ==> r.0.table == Resolve(m.registry, m.table).0 && r.1 == Resolve(m.registry, m.table).1
    ensures r.0.dirty <==> r.1.Fail?
  {
    if !m.dirty then (m, Pass)
    else
      var (tbl, out) := Resolve(m.registry, m.table);
      (m.(table := tbl, dirty := out.Fail?), out)
  }

  /** `getAssetState($type, $name)`: the lookup fails first on an unknown
      asset, then stale dependencies are resolved; the answer is the state's
      integer constant. */
  function GetAssetState(m: Manager, t: string, n: string): (r: (Manager, Result<nat>))
    requires Sound(m)
    ensures Sound(r.0) && r.0.registry == m.registry && r.0.locked == m.locked
    ensures !Exists(m.registry, t, n) ==> r == (m, Err(UnknownAsset(t, n)))
    ensures Exists(m.registry, t, n) ==> (r.0, r.1.Ok?) == (Refresh(m).0, Refresh(m).1.Pass?)
    ensures r.1.Ok? ==> !r.0.dirty && r.1.value == Code(StateOf(r.0.table, t, n))
  {
    if !Exists(m.registry, t, n) then (m, Err(UnknownAsset(t, n)))
    else
      var (m1, out) := Refresh(m);
      if out.Fail? then (m1, Err(out.error))
      else (m1, Ok(Code(StateOf(m1.table, t, n))))
  }

  /** `isAssetActive($type, $name)`: the state is not the Inactive constant. */
  function IsAssetActive(m: Manager, t: string, n: string): (r: (Manager, Result<bool>))
    requires Sound(m)
    ensures r.0 == GetAssetState(m, t, n).0
    ensures r.1.Ok? <==> GetAssetState(m, t, n).1.Ok?
    ensures r.1.Ok? ==> (r.1.value <==> GetAssetState(m, t, n).1.value != Code(Inactive))
  {
    var (m1, s) := GetAssetState(m, t, n);
    match s
    case Err(e) => (m1, Err(e))
    case Ok(c) => (m1, Ok(c != Code(Inactive)))
  }

  /** The stored definitions of `names`, in order; the first missing one
      fails. */
  function Fetch(reg: Registry, t: string, names: seq<string>): (r: Result<seq<Item>>)
    requires Consistent(reg)
    ensures r.Ok? <==> forall k :: 0 <= k < |names| ==> Exists(reg, t, names[k])
    ensures r.Ok? ==> |r.value| == |names| && forall k :: 0 <= k < |names| ==> r.value[k] == reg.assets[Key(t, names[k])]
    ensures r.Ok? ==> ItemNames(r.value) == names
    ensures r.Err? ==> r.error.UnknownAsset? && r.error.assetType == t && !Exists(reg, t, r.error.name)
  {
    if |names| == 0 then Ok([])
    else match Get(reg, t, names[0])
      case Err(e) => Err(e)
      case Ok(a) =>
        match Fetch(reg, t, names[1..])
        case Err(e) => Err(e)
        case Ok(rest) =>
          assert forall k :: 0 < k < |names| ==> names[k] == names[1..][k - 1];
          Ok([a] + rest)
  }

  /** `getAssets($type, $sort)`: the lane's assets once stale dependencies
      are resolved, in first-activation order, or in load order when sorting
      is asked for a type other than `preset`. */
  method GetAssets(m: Manager, t: string, sort: bool) returns (m': Manager, r: Result<seq<Item>>)
    requires Sound(m)
    ensures m' == Refresh(m).0 && Sound(m')
    ensures Refresh(m).1.Fail? ==> r == Err(Refresh(m).1.error)
    ensures Refresh(m).1.Pass? && |LaneOf(m'.table, t)| == 0 ==> r == Ok([])
    ensures Refresh(m).1.Pass? ==> (r.Ok? <==> Fetch(m'.registry, t, Names(LaneOf(m'.table, t))).Ok?)
    ensures r.Ok? ==> !m'.dirty && Unique(Names(LaneOf(m'.table, t)))
    ensures r.Ok? && (!sort || t == Preset) ==> r.value == Fetch(m'.registry, t, Names(LaneOf(m'.table, t))).value
    ensures r.Ok? && sort && t != Preset ==>
      var items := Fetch(m'.registry, t, Names(LaneOf(m'.table, t))).value;
      && Unique(ItemNames(items))
      && (forall k :: 0 <= k < |r.value| ==> r.value[k] in items)
      && Unique(ItemNames(r.value))
      && (forall j, k :: 0 <= j < |r.value| && 0 <= k < |r.value| && r.value[j].name in r.value[k].dependencies ==> j < k)
      && (|r.value| == |items| <==> Acyclic(Connections(items)))
      && (|r.value| == |items| ==> forall k :: 0 <= k < |items| ==> items[k] in r.value)
      && (NoEdges(Connections(items)) ==> r.value == ByRequestedWeight(items))
  {
    var out;
    m', out := Refresh(m).0, Refresh(m).1;
    if out.Fail? {
      return m', Err(out.error);
    }
    var lane := LaneOf(m'.table, t);
    assert LaneOk(lane);
    if |lane| == 0 {
      assert LoadOrder(Connections([]), []);
      return m', Ok([]);
    }
    var fetched := Fetch(m'.registry, t, Names(lane));
    if fetched.Err? {
      return m', Err(fetched.error);
    }
    var items := fetched.value;
    if sort && t != Preset {
      var sorted := OrderAssets(items);
      r := Ok(sorted);
    } else {
      r := Ok(items);
    }
  }

  // ---------------------------------------------------------------------
  // The manager as a state machine

  /** The calls that change or consult the manager's state. */
  datatype Op =
    | UseOp(t: string, n: string)
    | DisableOp(t: string, n: string)
    | ResetOp
    | LockOp
    | RegisterOp(t: string, a: Item)
    | RemoveOp(t: string, n: string)
    | InlineOp(t: string, a: Item)
    | StateOp(t: string, n: string)

  function Apply(m: Manager, op: Op): (r: (Manager, Outcome))
    requires Sound(m)
    ensures Sound(r.0)
    ensures m.locked ==> r.0.locked
    ensures op.LockOp? ==> r.0.locked
    ensures m.locked && (op.UseOp? || op.DisableOp? || op.ResetOp?) ==> r == (m, Fail(InvalidAction))
  {
    match op
    case UseOp(t, n) => UseAsset(m, t, n)
    case DisableOp(t, n) => DisableAsset(m, t, n)
    case ResetOp => Reset(m)
    case LockOp => (Lock(m), Pass)
    case RegisterOp(t, a) => (RegisterItem(m, t, a), Pass)
    case RemoveOp(t, n) => (Unregister(m, t, n), Pass)
    case InlineOp(t, a) => AddInlineItem(m, t, a)
    case StateOp(t, n) =>
      var (m1, s) := GetAssetState(m, t, n);
      (m1, if s.Ok? then Pass else Fail(s.error))
  }

  function Run(m: Manager, ops: seq<Op>): (r: Manager)
    requires Sound(m)
    ensures Sound(r)
    decreases |ops|
  {
    if |ops| == 0 then m else Run(Apply(m, ops[0]).0, ops[1..])
  }

  /** Once locked, always locked: no call unlocks the manager. */
  lemma {:induction false} LockIsPermanent(m: Manager, ops: seq<Op>)
    requires Sound(m) && m.locked
    ensures Run(m, ops).locked
    decreases |ops|
  {
    if |ops| > 0 {
      LockIsPermanent(Apply(m, ops[0]).0, ops[1..]);
    }
  }

  /** A locked manager refuses every use, disable and reset and stays as
      it was; locking again changes nothing. */
  lemma {:induction false} LockedIsFrozen(m: Manager, ops: seq<Op>)
    requires Sound(m) && m.locked
    requires forall k :: 0 <= k < |ops| ==> ops[k].UseOp? || ops[k].DisableOp? || ops[k].ResetOp? || ops[k].LockOp?
    ensures Run(m, ops) == m
    decreases |ops|
  {
    if |ops| > 0 {
      assert Apply(m, ops[0]).0 == m;
      LockedIsFrozen(m, ops[1..]);
    }
  }

  // ---------------------------------------------------------------------
  // Properties of activation

  /** `useAsset` on a known asset of a type other than `preset` is the
      activation step on the lane made sure to exist. */
  lemma UseOrdinary(m: Manager, t: string, n: string)
    requires Sound(m) && !m.locked && t != Preset && Exists(m.registry, t, n)
    ensures UseAsset(m, t, n) == (Activate(m.(table := EnsureLane(m.table, t)), t, n, m.registry.assets[Key(t, n)]), Pass)
  {
    UseUnfold(m, t, n);
  }

  lemma UseUnfold(m: Manager, t: string, n: string)
    requires Sound(m) && !m.locked && Exists(m.registry, t, n)
    ensures UseAsset(m, t, n) == UseKnown(m.(table := EnsureLane(m.table, t)), t, n, m.registry.assets[Key(t, n)], {})
  {
    assert Get(m.registry, t, n) == Ok(m.registry.assets[Key(t, n)]);
  }

  /** Using a known, absent asset of a type other than `preset` appends it
      Active at the end of its lane; the dependencies become stale only if
      it has any; nothing else changes. */
  lemma UseAppends(m: Manager, t: string, n: string)
    requires Sound(m) && !m.locked && t != Preset && Exists(m.registry, t, n)
    requires StateOf(m.table, t, n) == Inactive
    ensures var r := UseAsset(m, t, n);
            && r.1 == Pass
            && r.0.table.lanes[t] == LaneOf(m.table, t) + [Entry(n, Active)]
            && (r.0.dirty <==> m.dirty || |DepsOf(m.registry, t, n)| > 0)
            && (forall ty :: ty != t ==> LaneOf(r.0.table, ty) == LaneOf(m.table, ty))
            && r.0.table.types == if t in m.table.lanes then m.table.types else m.table.types + [t]
  {
    UseOrdinary(m, t, n);
    var m' := m.(table := EnsureLane(m.table, t));
    EnsureLaneKeeps(m.table, t);
    assert n !in Names(m'.table.lanes[t]);
    var r := Activate(m', t, n, m.registry.assets[Key(t, n)]);
    forall ty | ty != t ensures LaneOf(r.table, ty) == LaneOf(m.table, ty) {
      assert ty in r.table.lanes <==> ty in m'.table.lanes;
    }
  }

  lemma EnsureLaneKeeps(tbl: Table, t: string)
    requires WellFormed(tbl)
    ensures var tbl' := EnsureLane(tbl, t);
            && tbl'.lanes[t] == LaneOf(tbl, t)
            && forall ty :: ty != t ==> LaneOf(tbl', ty) == LaneOf(tbl, ty)
  {
  }

  /** Using an asset already present, in either state, makes it Active where
      it stands and leaves the marker alone. */
  lemma UsePromotes(m: Manager, t: string, n: string)
    requires Sound(m) && !m.locked && t != Preset && Exists(m.registry, t, n)
    requires StateOf(m.table, t, n) != Inactive
    ensures var r := UseAsset(m, t, n);
            var lane := m.table.lanes[t];
            && r.1 == Pass && r.0.dirty == m.dirty && r.0.table.types == m.table.types
            && |r.0.table.lanes[t]| == |lane|
            && (forall k :: 0 <= k < |lane| ==>
                  r.0.table.lanes[t][k] == if lane[k].name == n then Entry(n, Active) else lane[k])
            && (forall ty :: ty != t ==> LaneOf(r.0.table, ty) == LaneOf(m.table, ty))
  {
    UseOrdinary(m, t, n);
  }

  /** Activating what is already Active changes nothing. */
  lemma ActivateActive(m: Manager, t: string, n: string, a: Item)
    requires Sound(m) && t in m.table.lanes && StateOf(m.table, t, n) == Active
    ensures Activate(m, t, n, a) == m
  {
    var lane := m.table.lanes[t];
    var r := Activate(m, t, n, a);
    assert n in Names(lane);
    forall k | 0 <= k < |lane| ensures r.table.lanes[t][k] == lane[k] {
      if lane[k].name == n {
        assert StateIn(lane, n) == lane[k].state;
      }
    }
    assert r.table.lanes[t] == lane;
    assert r.table.lanes == m.table.lanes;
  }

  /** A second use of the same asset changes nothing. */
  lemma UseIdempotent(m: Manager, t: string, n: string)
    requires Sound(m) && !m.locked && t != Preset && Exists(m.registry, t, n)
    ensures var r := UseAsset(m, t, n);
            UseAsset(r.0, t, n) == r
  {
    var r := UseAsset(m, t, n).0;
    assert StateOf(r.table, t, n) == Active && t in r.table.lanes;
    UseOrdinary(r, t, n);
    ActivateActive(r, t, n, m.registry.assets[Key(t, n)]);
  }

  /** A preset that was inactive is activated after its entries: on success
      every entry is Active and the preset itself is the last one of the
      `preset` lane. */
  lemma PresetComesLast(m: Manager, p: string)
    requires Sound(m) && !m.locked && Exists(m.registry, Preset, p)
    requires StateOf(m.table, Preset, p) == Inactive
    requires UseAsset(m, Preset, p).1 == Pass
    ensures var r := UseAsset(m, Preset, p).0;
            var lane := r.table.lanes[Preset];
            && RefsIn(r.table, DepsOf(m.registry, Preset, p), 0, Active)
            && |lane| > 0 && lane[|lane| - 1] == Entry(p, Active)
  {
    var a := m.registry.assets[Key(Preset, p)];
    var m1 := m.(table := EnsureLane(m.table, Preset));
    UseUnfold(m, Preset, p);
    EnsureLaneKeeps(m.table, Preset);
    assert StateOf(m1.table, Preset, p) == StateIn(LaneOf(m.table, Preset), p);
    PresetExpandsFirst(m1, p, a);
  }

  lemma PresetExpandsFirst(m: Manager, p: string, a: Item)
    requires Sound(m) && !m.locked && Preset in m.table.lanes && Exists(m.registry, Preset, p)
    requires StateOf(m.table, Preset, p) == Inactive
    requires UseKnown(m, Preset, p, a, {}).1 == Pass
    ensures var r := UseKnown(m, Preset, p, a, {}).0;
            var lane := r.table.lanes[Preset];
            && RefsIn(r.table, DepsOf(m.registry, Preset, p), 0, Active)
            && |lane| > 0 && lane[|lane| - 1] == Entry(p, Active)
  {
    PresetUnfold(m, p, a);
    var m2 := UsePresetItems(m, p, {p}, 0).0;
    assert p in {p};
    ActivateLast(m2, p, a, DepsOf(m.registry, Preset, p));
  }

  lemma PresetUnfold(m: Manager, p: string, a: Item)
    requires Sound(m) && !m.locked && Preset in m.table.lanes && Exists(m.registry, Preset, p)
    requires UseKnown(m, Preset, p, a, {}).1 == Pass
    ensures UsePresetItems(m, p, {p}, 0).1 == Pass
    ensures UseKnown(m, Preset, p, a, {}).0 == Activate(UsePresetItems(m, p, {p}, 0).0, Preset, p, a)
  {
    assert {} + {p} == {p};
  }

  lemma ActivateLast(m: Manager, p: string, a: Item, refs: seq<string>)
    requires Sound(m) && Preset in m.table.lanes && StateOf(m.table, Preset, p) == Inactive
    requires RefsIn(m.table, refs, 0, Active)
    ensures var r := Activate(m, Preset, p, a);
            var lane := r.table.lanes[Preset];
            && RefsIn(r.table, refs, 0, Active)
            && |lane| > 0 && lane[|lane| - 1] == Entry(p, Active)
  {
    assert p !in Names(m.table.lanes[Preset]);
    RefsGrow(m.table, Activate(m, Preset, p, a).table, refs);
  }

  lemma RefsGrow(a: Table, b: Table, refs: seq<string>)
    requires Grows(a, b) && RefsIn(a, refs, 0, Active)
    ensures RefsIn(b, refs, 0, Active)
  {
    forall j | 0 <= j < |refs| ensures RefState(b, refs[j]) == Active {
      assert RefState(a, refs[j]) == Active;
    }
  }

  /** Expansion is not atomic: when entry `i` is used and entry `i + 1`
      names nothing, the expansion fails and entry `i` stays Active. */
  lemma PresetNotAtomic(m: Manager, p: string, stack: set<string>, i: nat)
    requires Sound(m) && !m.locked && i + 1 < |DepsOf(m.registry, Preset, p)|
    requires var ref := ParseReference(DepsOf(m.registry, Preset, p)[i]);
             Exists(m.registry, ref.1, ref.0) && UseWithin(m, ref.1, ref.0, stack).1 == Pass
    requires var ref := ParseReference(DepsOf(m.registry, Preset, p)[i + 1]);
             !Exists(m.registry, ref.1, ref.0)
    ensures var r := UsePresetItems(m, p, stack, i);
            && r.1 == Fail(UnsatisfiedDependency(DepsOf(m.registry, Preset, p)[i + 1], p, Preset))
            && RefState(r.0.table, DepsOf(m.registry, Preset, p)[i]) == Active
  {
  }

  lemma {:induction false} DeleteConcat(a: seq<Entry>, b: seq<Entry>, n: string)
    ensures Delete(a + b, n) == Delete(a, n) + Delete(b, n)
    decreases |a|
  {
    if |a| == 0 {
      assert a + b == b;
    } else {
      assert (a + b)[1..] == a[1..] + b;
      DeleteConcat(a[1..], b, n);
    }
  }

  lemma DeleteAppended(lane: seq<Entry>, n: string)
    requires LaneOk(lane) && n !in Names(lane)
    ensures Delete(lane + [Entry(n, Active)], n) == lane
  {
    DeleteConcat(lane, [Entry(n, Active)], n);
    assert Delete([Entry(n, Active)], n) == [];
    DeleteOk(lane, n);
  }

  lemma DisableUnfold(m: Manager, t: string, n: string)
    requires Sound(m) && !m.locked && t != Preset && Exists(m.registry, t, n)
    ensures DisableAsset(m, t, n) == (m.(table := Unlist(m.table, t, n), dirty := true), Pass)
  {
  }

  /** Disabling what was just used gives back the table as it was. */
  lemma UseThenDisable(m: Manager, t: string, n: string)
    requires Sound(m) && !m.locked && t != Preset && Exists(m.registry, t, n)
    requires t in m.table.lanes && StateOf(m.table, t, n) == Inactive
    ensures var r := DisableAsset(UseAsset(m, t, n).0, t, n);
            r.1 == Pass && r.0.table == m.table && r.0.dirty
  {
    UseAppends(m, t, n);
    var m1 := UseAsset(m, t, n).0;
    DisableUnfold(m1, t, n);
    UnlistAppended(m.table, m1.table, t, n);
  }

  lemma UnlistAppended(a: Table, b: Table, t: string, n: string)
    requires WellFormed(a) && WellFormed(b) && t in a.lanes && a.types == b.types
    requires n !in Names(a.lanes[t]) && b.lanes[t] == a.lanes[t] + [Entry(n, Active)]
    requires forall ty :: ty != t ==> LaneOf(b, ty) == LaneOf(a, ty)
    ensures Unlist(b, t, n) == a
  {
    DeleteAppended(a.lanes[t], n);
    var c := Unlist(b, t, n);
    forall ty | ty in a.lanes ensures ty in c.lanes && c.lanes[ty] == a.lanes[ty] {
      assert LaneOf(b, ty) == LaneOf(a, ty) || ty == t;
    }
    assert c.lanes.Keys == a.lanes.Keys;
    assert c.lanes == a.lanes;
  }

  /** Disabling an asset of a type other than `preset` drops its entry and
      nothing else, keeps the lane, and makes the dependencies stale. */
  lemma DisableDrops(m: Manager, t: string, n: string)
    requires Sound(m) && !m.locked && t != Preset && Exists(m.registry, t, n)
    ensures var r := DisableAsset(m, t, n);
            && r.1 == Pass && r.0.dirty && r.0.table.types == m.table.types
            && LaneOf(r.0.table, t) == Delete(LaneOf(m.table, t), n)
            && (t in m.table.lanes <==> t in r.0.table.lanes)
            && (forall ty :: ty != t ==> LaneOf(r.0.table, ty) == LaneOf(m.table, ty))
  {
    DisableUnfold(m, t, n);
    if t !in m.table.lanes {
      assert Delete([], n) == [];
    }
  }

  // ---------------------------------------------------------------------
  // Properties of resolution

  /** `addInline` with a type holding an upper-case letter registers the
      asset under the lower-cased type and then fails to use it, since the
      use looks it up under the type as given. */
  lemma AddInlineMixedCase(m: Manager, t: string, a: Item)
    requires Sound(m) && !m.locked && !IsLower(t) && !Exists(m.registry, t, a.name)
    ensures Exists(AddInlineItem(m, t, a).0.registry, ToLower(t), a.name)
    ensures AddInlineItem(m, t, a).1 == Fail(UnknownAsset(t, a.name))
  {
    ToLowerIsLower(t);
    assert ToLower(t) != t;
  }

  lemma ActiveInLane(lane: seq<Entry>, x: string)
    requires LaneOk(lane)
    ensures StateIn(lane, x) == Active <==> Entry(x, Active) in lane
  {
    if Entry(x, Active) in lane {
      var k :| 0 <= k < |lane| && lane[k] == Entry(x, Active);
    }
  }

  /** A successful resolution keeps exactly the Active entries Active. */
  lemma RefreshKeepsActive(m: Manager, ty: string, x: string)
    requires Sound(m) && Refresh(m).1 == Pass
    ensures StateOf(Refresh(m).0.table, ty, x) == Active <==> StateOf(m.table, ty, x) == Active
  {
    var tbl := Refresh(m).0.table;
    if m.dirty && ty in m.table.lanes {
      ResolveSpec(m.registry, m.table, ty);
      var lane, lane' := m.table.lanes[ty], tbl.lanes[ty];
      ActiveInLane(lane, x);
      ActiveInLane(lane', x);
      OnlyStateMembers(lane, Active);
      OnlyStateMembers(lane', Active);
      assert Entry(x, Active) in lane' <==> Entry(x, Active) in OnlyState(lane', Active);
      assert Entry(x, Active) in lane <==> Entry(x, Active) in OnlyState(lane, Active);
    }
  }

  /** After a successful resolution, every asset an Active asset of a type
      other than `preset` reaches through same-type dependencies is in the
      table. */
  lemma RefreshCloses(m: Manager, ty: string, n: string, x: string)
    requires Sound(m) && m.dirty && Refresh(m).1 == Pass && ty != Preset
    requires StateOf(Refresh(m).0.table, ty, n) != Inactive
    requires Reaches(m.registry, ty, n, DepsOf(m.registry, ty, n), x)
    ensures StateOf(Refresh(m).0.table, ty, x) != Inactive
  {
    var tbl := Refresh(m).0.table;
    assert ty in tbl.lanes;
    ResolveSpec(m.registry, m.table, ty);
    ReachableInLane(m.registry, ty, tbl.lanes[ty], n, x);
  }
}
