/**
 * The helpers that place inline assets: `getInlineRelation` files each
 * positioned inline asset under the asset it must be printed next to, and
 * `filterOutInlineAssets` splits the inline assets off a list.
 *
 * A PHP array with string keys is an ordered association list here: keys
 * are distinct, and they stay in the order they were first written.
 */
module Inline {
  import opened Errors
  import opened Php
  import opened AssetItem
  import opened Activation
  import opened Sorter

  type Assoc<V> = seq<(string, V)>

  function Keys<V>(m: Assoc<V>): (ks: seq<string>)
    ensures |ks| == |m| && forall k :: 0 <= k < |m| ==> ks[k] == m[k].0
  {
    seq(|m|, k requires 0 <= k < |m| => m[k].0)
  }

  /** `$m[$key] ?? null`: the value stored under a key. */
  function Find<V>(m: Assoc<V>, key: string): (r: Option<V>)
    ensures r.None? <==> key !in Keys(m)
    ensures r.Some? ==> (key, r.value) in m
  {
    if |m| == 0 then None
    else if m[0].0 == key then Some(m[0].1)
    else
      var r := Find(m[1..], key);
      assert Keys(m) == [m[0].0] + Keys(m[1..]);
      r
  }

  function FindOr<V>(m: Assoc<V>, key: string, default: V): V {
    match Find(m, key)
    case Some(v) => v
    case None => default
  }

  /** `$m[$key] = $v`: an existing key takes the new value where it stands;
      a new key goes at the end. */
  function Put<V>(m: Assoc<V>, key: string, v: V): (r: Assoc<V>)
    ensures key in Keys(m) ==> Keys(r) == Keys(m)
    ensures key !in Keys(m) ==> Keys(r) == Keys(m) + [key]
  {
    if |m| == 0 then [(key, v)]
    else
      KeysCons(m[0], m[1..]);
      assert [m[0]] + m[1..] == m;
      if m[0].0 == key then
        KeysCons((key, v), m[1..]);
        [(key, v)] + m[1..]
      else
        var rest := Put(m[1..], key, v);
        KeysCons(m[0], rest);
        [m[0]] + rest
  }

  lemma KeysCons<V>(x: (string, V), m: Assoc<V>)
    ensures Keys([x] + m) == [x.0] + Keys(m)
  {
  }

  /** Reading back after a write: the written key gives the new value and
      every other key is unchanged. */
  lemma {:induction false} PutFind<V>(m: Assoc<V>, key: string, v: V, x: string)
    ensures Find(Put(m, key, v), x) == if x == key then Some(v) else Find(m, x)
    decreases |m|
  {
    if |m| > 0 && m[0].0 != key {
      PutFind(m[1..], key, v, x);
      assert ([m[0]] + Put(m[1..], key, v))[1..] == Put(m[1..], key, v);
    }
  }

  lemma PutUnique<V>(m: Assoc<V>, key: string, v: V)
    requires Unique(Keys(m))
    ensures Unique(Keys(Put(m, key, v)))
  {
  }

  // ---------------------------------------------------------------------
  // getInlineRelation

  /** `$asset->getOption('inline')` is truthy. */
  predicate IsInline(a: Item) {
    Truthy(GetOption(a, "inline", Null))
  }

  /** The handle and position an asset is filed under: the last of its
      dependencies, and its `position` option when that is exactly
      `"before"` or `"after"`; an asset that is not inline, has no such
      position or has no dependencies is not filed. */
  function Slot(a: Item): (r: Option<(string, string)>)
    ensures r.Some? <==> IsInline(a) && |a.dependencies| > 0
                         && GetOption(a, "position", Null) in {Str("before"), Str("after")}
    ensures r.Some? ==> && r.value.0 == a.dependencies[|a.dependencies| - 1]
                        && GetOption(a, "position", Null) == Str(r.value.1)
  {
    var position := GetOption(a, "position", Null);
    if !IsInline(a) || |a.dependencies| == 0 then None
    else if position == Str("before") then Some((a.dependencies[|a.dependencies| - 1], "before"))
    else if position == Str("after") then Some((a.dependencies[|a.dependencies| - 1], "after"))
    else None
  }

  /** handle => position => name => asset. */
  type Relation = Assoc<Assoc<Assoc<Item>>>

  /** `$inlineRelation[$handle][$position][$name] = $asset`. */
  function FileUnder(rel: Relation, h: string, pos: string, a: Item): Relation {
    var byPos := FindOr(rel, h, []);
    var byName := FindOr(byPos, pos, []);
    Put(rel, h, Put(byPos, pos, Put(byName, a.name, a)))
  }

  /** The asset stored under `[h][pos][x]`, if any. */
  function Filed(rel: Relation, h: string, pos: string, x: string): Option<Item> {
    Find(FindOr(FindOr(rel, h, []), pos, []), x)
  }

  /** Keys are unique at every level: handles, the positions under each
      handle, and the names under each position. */
  ghost predicate UniqueKeys(rel: Relation) {
    && Unique(Keys(rel))
    && (forall h :: Find(rel, h).Some? ==> Unique(Keys(Find(rel, h).value)))
    && (forall h, p :: Find(rel, h).Some? && Find(Find(rel, h).value, p).Some? ==>
          Unique(Keys(Find(Find(rel, h).value, p).value)))
  }

  lemma FileUnderKeys(rel: Relation, h: string, pos: string, a: Item)
    requires UniqueKeys(rel)
    ensures UniqueKeys(FileUnder(rel, h, pos, a))
  {
    var byPos := FindOr(rel, h, []);
    var byName := FindOr(byPos, pos, []);
    var cell := Put(byName, a.name, a);
    var inner := Put(byPos, pos, cell);
    var rel' := Put(rel, h, inner);
    assert Unique(Keys(byPos)) && Unique(Keys(byName));
    PutUnique(byName, a.name, a);
    PutUnique(byPos, pos, cell);
    PutUnique(rel, h, inner);
    forall h' ensures Find(rel', h') == if h' == h then Some(inner) else Find(rel, h') {
      PutFind(rel, h, inner, h');
    }
    forall p ensures Find(inner, p) == if p == pos then Some(cell) else Find(byPos, p) {
      PutFind(byPos, pos, cell, p);
    }
  }

  /** `getInlineRelation($assets)`, one asset at a time in list order. */
  function InlineRelation(assets: seq<Item>): (rel: Relation)
    ensures UniqueKeys(rel)
    decreases |assets|
  {
    if |assets| == 0 then []
    else
      var rel := InlineRelation(assets[..|assets| - 1]);
      var a := assets[|assets| - 1];
      match Slot(a)
      case None => rel
      case Some((h, pos)) =>
        FileUnderKeys(rel, h, pos, a);
        FileUnder(rel, h, pos, a)
  }

  /** `a` belongs in cell `[h][pos][x]`. */
  predicate Belongs(a: Item, h: string, pos: string, x: string) {
    a.name == x && Slot(a) == Some((h, pos))
  }

  /** Independent of the nested arrays: the last asset of the list that
      belongs in cell `[h][pos][x]`. */
  function LastFiled(assets: seq<Item>, h: string, pos: string, x: string): Option<Item>
    decreases |assets|
  {
    if |assets| == 0 then None
    else if Belongs(assets[|assets| - 1], h, pos, x) then Some(assets[|assets| - 1])
    else LastFiled(assets[..|assets| - 1], h, pos, x)
  }

  lemma {:induction false} LastFiledSpec(assets: seq<Item>, h: string, pos: string, x: string)
    ensures var r := LastFiled(assets, h, pos, x);
            && (r.Some? ==> r.value in assets && Belongs(r.value, h, pos, x))
            && (r.None? <==> forall k :: 0 <= k < |assets| ==> !Belongs(assets[k], h, pos, x))
    decreases |assets|
  {
    if |assets| > 0 {
      var init := assets[..|assets| - 1];
      LastFiledSpec(init, h, pos, x);
      assert forall k :: 0 <= k < |init| ==> init[k] == assets[k];
    }
  }

  /** The asset found is the last one that belongs in the cell. */
  lemma {:induction false} LastFiledIsLast(assets: seq<Item>, h: string, pos: string, x: string, k: nat)
    requires k < |assets| && Belongs(assets[k], h, pos, x)
    requires forall j :: k < j < |assets| ==> !Belongs(assets[j], h, pos, x)
    ensures LastFiled(assets, h, pos, x) == Some(assets[k])
    decreases |assets|
  {
    if k < |assets| - 1 {
      var init := assets[..|assets| - 1];
      assert !Belongs(assets[|assets| - 1], h, pos, x);
      assert init[k] == assets[k];
      LastFiledIsLast(init, h, pos, x, k);
    }
  }

  /** Filing one more asset touches only its own `[h][pos][name]` cell. */
  lemma FileUnderCell(rel: Relation, h: string, pos: string, a: Item, h': string, pos': string, x: string)
    ensures Filed(FileUnder(rel, h, pos, a), h', pos', x)
         == if h' == h && pos' == pos && x == a.name then Some(a) else Filed(rel, h', pos', x)
  {
    var byPos := FindOr(rel, h, []);
    var byName := FindOr(byPos, pos, []);
    PutFind(rel, h, Put(byPos, pos, Put(byName, a.name, a)), h');
    PutFind(byPos, pos, Put(byName, a.name, a), pos');
    PutFind(byName, a.name, a, x);
  }

  /** Each cell of the relation holds the last asset of the list filed
      there, and a cell is empty when no asset belongs in it. */
  lemma {:induction false} InlineRelationCells(assets: seq<Item>, h: string, pos: string, x: string)
    ensures Filed(InlineRelation(assets), h, pos, x) == LastFiled(assets, h, pos, x)
    decreases |assets|
  {
    if |assets| > 0 {
      var init := assets[..|assets| - 1];
      var a := assets[|assets| - 1];
      InlineRelationCells(init, h, pos, x);
      match Slot(a)
      case None =>
      case Some((h1, pos1)) =>
        FileUnderCell(InlineRelation(init), h1, pos1, a, h, pos, x);
    }
  }

  /** What the relation holds and where: a cell holds an inline asset with
      a position filed under its last dependency, and a cell is empty only
      when no asset of the list belongs in it. */
  lemma InlineRelationFiles(assets: seq<Item>, h: string, pos: string, x: string)
    ensures var r := Filed(InlineRelation(assets), h, pos, x);
            && (r.Some? ==> && r.value in assets && r.value.name == x && IsInline(r.value)
                            && (pos == "before" || pos == "after")
                            && |r.value.dependencies| > 0
                            && r.value.dependencies[|r.value.dependencies| - 1] == h)
            && (r.None? <==> forall k :: 0 <= k < |assets| ==> !Belongs(assets[k], h, pos, x))
  {
    InlineRelationCells(assets, h, pos, x);
    LastFiledSpec(assets, h, pos, x);
  }

  /** When several assets belong in one cell, the last of them wins. */
  lemma InlineRelationLastWins(assets: seq<Item>, k: nat)
    requires k < |assets| && Slot(assets[k]).Some?
    requires forall j :: k < j < |assets| ==> !Belongs(assets[j], Slot(assets[k]).value.0, Slot(assets[k]).value.1, assets[k].name)
    ensures Filed(InlineRelation(assets), Slot(assets[k]).value.0, Slot(assets[k]).value.1, assets[k].name) == Some(assets[k])
  {
    var (h, pos) := Slot(assets[k]).value;
    InlineRelationCells(assets, h, pos, assets[k].name);
    LastFiledIsLast(assets, h, pos, assets[k].name, k);
  }

  /** Assets that are not inline, or have no position, or no dependencies,
      are filed nowhere. */
  lemma UnfiledAssets(assets: seq<Item>, a: Item, h: string, pos: string)
    requires a in assets && Slot(a).None?
    ensures Filed(InlineRelation(assets), h, pos, a.name) != Some(a)
  {
    InlineRelationCells(assets, h, pos, a.name);
    LastFiledSpec(assets, h, pos, a.name);
  }

  // ---------------------------------------------------------------------
  // filterOutInlineAssets

  /** `filterOutInlineAssets($assets)`: the list without its inline assets,
      and the inline assets keyed by name. */
  function FilterOutInline(assets: seq<Item>): (r: (seq<Item>, Assoc<Item>))
    ensures Unique(Keys(r.1))
    decreases |assets|
  {
    if |assets| == 0 then ([], [])
    else
      var a := assets[|assets| - 1];
      var (kept, inline) := FilterOutInline(assets[..|assets| - 1]);
      if IsInline(a) then
        PutUnique(inline, a.name, a);
        (kept, Put(inline, a.name, a))
      else (kept + [a], inline)
  }

  lemma FilterStep(assets: seq<Item>)
    requires |assets| > 0
    ensures var init := assets[..|assets| - 1];
            var a := assets[|assets| - 1];
            var (kept, inline) := FilterOutInline(init);
            && assets == init + [a]
            && FilterOutInline(assets) == if IsInline(a) then (kept, Put(inline, a.name, a)) else (kept + [a], inline)
  {
  }

  /** The list left behind holds exactly the assets that are not inline. */
  lemma {:induction false} FilterKept(assets: seq<Item>)
    ensures forall a :: a in FilterOutInline(assets).0 <==> a in assets && !IsInline(a)
    decreases |assets|
  {
    if |assets| > 0 {
      FilterStep(assets);
      FilterKept(assets[..|assets| - 1]);
    }
  }

  /** The inline assets are keyed by their names: a name is a key exactly
      when an inline asset of the list has it, and its value is such an
      asset. */
  lemma {:induction false} FilterInlineFound(assets: seq<Item>, x: string)
    ensures var found := Find(FilterOutInline(assets).1, x);
            && (found.Some? <==> exists k :: 0 <= k < |assets| && IsInline(assets[k]) && assets[k].name == x)
            && (found.Some? ==> found.value in assets && IsInline(found.value) && found.value.name == x)
    decreases |assets|
  {
    if |assets| > 0 {
      var init := assets[..|assets| - 1];
      var a := assets[|assets| - 1];
      FilterStep(assets);
      FilterInlineFound(init, x);
      PutFind(FilterOutInline(init).1, a.name, a, x);
      InlineAtStep(assets, x);
    }
  }

  /** An inline asset named `x` is in the list exactly when it is in all but
      the last element or is the last one. */
  lemma InlineAtStep(assets: seq<Item>, x: string)
    requires |assets| > 0
    ensures var init := assets[..|assets| - 1];
            var a := assets[|assets| - 1];
            && (forall it :: it in init ==> it in assets)
            && ((exists k :: 0 <= k < |assets| && IsInline(assets[k]) && assets[k].name == x) <==>
                (exists k :: 0 <= k < |init| && IsInline(init[k]) && init[k].name == x) || (IsInline(a) && a.name == x))
  {
    var init := assets[..|assets| - 1];
    if exists k :: 0 <= k < |assets| && IsInline(assets[k]) && assets[k].name == x {
      var k :| 0 <= k < |assets| && IsInline(assets[k]) && assets[k].name == x;
      if k < |init| {
        assert init[k] == assets[k];
      }
    }
    if exists k :: 0 <= k < |init| && IsInline(init[k]) && init[k].name == x {
      var k :| 0 <= k < |init| && IsInline(init[k]) && init[k].name == x;
      assert assets[k] == init[k];
    }
  }

  /** `ys` keeps some of the elements of `xs`, in their order. */
  ghost predicate Subsequence<T>(ys: seq<T>, xs: seq<T>) {
    exists idx: seq<nat> ::
      && |idx| == |ys|
      && (forall k :: 0 <= k < |idx| ==> idx[k] < |xs| && xs[idx[k]] == ys[k])
      && (forall j, k :: 0 <= j < k < |idx| ==> idx[j] < idx[k])
  }

  /** Where each asset left behind stands in the original list. */
  function KeptAt(assets: seq<Item>): (idx: seq<nat>)
    ensures |idx| == |FilterOutInline(assets).0|
    ensures forall k :: 0 <= k < |idx| ==> idx[k] < |assets| && assets[idx[k]] == FilterOutInline(assets).0[k]
    ensures forall j, k :: 0 <= j < k < |idx| ==> idx[j] < idx[k]
    decreases |assets|
  {
    if |assets| == 0 then []
    else
      var init := assets[..|assets| - 1];
      var idx := KeptAt(init);
      FilterStep(assets);
      assert forall k :: 0 <= k < |init| ==> init[k] == assets[k];
      if IsInline(assets[|assets| - 1]) then idx else idx + [|init|]
  }

  /** The assets left behind keep their order. */
  lemma FilterKeepsOrder(assets: seq<Item>)
    ensures Subsequence(FilterOutInline(assets).0, assets)
  {
    var idx := KeptAt(assets);
  }

  function CountInline(assets: seq<Item>): nat {
    if |assets| == 0 then 0
    else CountInline(assets[..|assets| - 1]) + (if IsInline(assets[|assets| - 1]) then 1 else 0)
  }

  /** With distinct names, as `getAssets` returns them, nothing is lost:
      every asset is either kept or among the inline ones. */
  lemma {:induction false} FilterPartitions(assets: seq<Item>)
    requires Unique(ItemNames(assets))
    ensures |FilterOutInline(assets).0| + |FilterOutInline(assets).1| == |assets|
    ensures |FilterOutInline(assets).1| == CountInline(assets)
    decreases |assets|
  {
    if |assets| > 0 {
      var init := assets[..|assets| - 1];
      var a := assets[|assets| - 1];
      assert ItemNames(init) == ItemNames(assets)[..|assets| - 1];
      FilterPartitions(init);
      FilterStep(assets);
      if IsInline(a) {
        var inline := FilterOutInline(init).1;
        forall x | x in Keys(inline) ensures x in ItemNames(init) {
          FilterInlineFound(init, x);
          var it := Find(inline, x).value;
          var j :| 0 <= j < |init| && init[j] == it;
          assert ItemNames(init)[j] == x;
        }
        assert a.name !in ItemNames(init) by {
          forall j | 0 <= j < |init| ensures ItemNames(init)[j] != a.name {
            assert ItemNames(assets)[j] != ItemNames(assets)[|assets| - 1];
          }
        }
      }
    }
  }
}
