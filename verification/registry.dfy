/**
 * The definition store: asset definitions keyed by (type, name). Every change
 * is announced to observers; the announcement is modelled as an entry
 * appended to an event log.
 */
module Registry {
  import opened Errors
  import opened Php
  import opened AssetItem

  datatype Key = Key(assetType: string, name: string)

  datatype EventKind = Added | Overridden | Removed

  /** What an observer is told: the kind of change, the type as the registry
      stored it, and the affected definition (the previous one for an
      override). */
  datatype Event = Event(kind: EventKind, assetType: string, asset: Item)

  datatype Registry = Registry(assets: map<Key, Item>, log: seq<Event>)

  function Empty(): (r: Registry)
    ensures r.assets == map[] && r.log == []
  {
    Registry(map[], [])
  }

  /** Every definition is stored under its own name, which is how `add`
      files it. */
  ghost predicate Consistent(r: Registry) {
    forall k :: k in r.assets ==> r.assets[k].name == k.name
  }

  /** `exists($type, $name)`: an exact, case-sensitive lookup. */
  predicate Exists(r: Registry, t: string, n: string) {
    Key(t, n) in r.assets
  }

  /** `get($type, $name)`. */
  function Get(r: Registry, t: string, n: string): (res: Result<Item>)
    ensures res.Ok? <==> Exists(r, t, n)
    ensures res.Ok? ==> res.value == r.assets[Key(t, n)]
    ensures res.Err? ==> res.error == UnknownAsset(t, n)
  {
    if Key(t, n) in r.assets then Ok(r.assets[Key(t, n)]) else Err(UnknownAsset(t, n))
  }

  /** The dependency list of a stored definition, empty when there is none. */
  function DepsOf(r: Registry, t: string, n: string): seq<string> {
    if Key(t, n) in r.assets then r.assets[Key(t, n)].dependencies else []
  }

  /** The names stored under one type. */
  function NamesOfType(r: Registry, t: string): (names: set<string>)
    ensures forall n :: n in names <==> Exists(r, t, n)
  {
    set k | k in r.assets && k.assetType == t :: k.name
  }

  /** `add($type, $asset)`: lower-cases the type, stores the asset under its
      own name and logs `add`, or `override` with the definition it replaced. */
  function Add(r: Registry, t: string, a: Item): (r': Registry)
    ensures r'.assets == r.assets[Key(ToLower(t), a.name) := a]
    ensures |r'.log| == |r.log| + 1 && r'.log[..|r.log|] == r.log
    ensures var ev := r'.log[|r.log|];
            ev.assetType == ToLower(t)
            && (Exists(r, ToLower(t), a.name) ==> ev.kind == Overridden && ev.asset == r.assets[Key(ToLower(t), a.name)])
            && (!Exists(r, ToLower(t), a.name) ==> ev.kind == Added && ev.asset == a)
  {
    var t' := ToLower(t);
    var key := Key(t', a.name);
    var ev := if key in r.assets then Event(Overridden, t', r.assets[key]) else Event(Added, t', a);
    Registry(r.assets[key := a], r.log + [ev])
  }

  /** `remove($type, $name)`: deletes a present entry and logs `remove` with
      it; an absent entry is a silent no-op. The type is not lower-cased. */
  function Remove(r: Registry, t: string, n: string): (r': Registry)
    ensures !Exists(r', t, n)
    ensures r'.assets.Keys == r.assets.Keys - {Key(t, n)}
    ensures forall k :: k in r'.assets ==> r'.assets[k] == r.assets[k]
    ensures Exists(r, t, n) ==> r'.log == r.log + [Event(Removed, t, r.assets[Key(t, n)])]
    ensures !Exists(r, t, n) ==> r' == r
  {
    var key := Key(t, n);
    if key in r.assets then Registry(r.assets - {key}, r.log + [Event(Removed, t, r.assets[key])])
    else r
  }

  /** `createAsset` when no `class` option names a loadable subclass: a plain
      item built by the item constructor. */
  function CreateAsset(name: string, uri: Option<string>, options: map<string, Value>,
                       attributes: map<string, Value>, dependencies: seq<string>): (a: Item)
    ensures a.name == name && a.uri == uri && a.version == DefaultVersion
    ensures "attributes" !in options ==> a.attributes == attributes
    ensures "dependencies" !in options ==> a.dependencies == dependencies
    ensures "attributes" in options ==> a.attributes == ToArray(options["attributes"])
    ensures "dependencies" in options ==> a.dependencies == ToStringList(options["dependencies"])
    ensures forall k :: k in a.options <==> k in options && k != "attributes" && k != "dependencies"
    ensures forall k :: k in a.options ==> a.options[k] == options[k]
  {
    New(name, uri, options, attributes, dependencies)
  }

  /** The store stays consistent under both changes. */
  lemma ChangesKeepConsistent(r: Registry, t: string, a: Item, t2: string, n2: string)
    requires Consistent(r)
    ensures Consistent(Add(r, t, a)) && Consistent(Remove(r, t2, n2))
  {
  }

  /** After `add`, the asset is found under the lower-cased type, and `get`
      returns exactly it. */
  lemma AddThenGet(r: Registry, t: string, a: Item)
    ensures Exists(Add(r, t, a), ToLower(t), a.name)
    ensures Get(Add(r, t, a), ToLower(t), a.name) == Ok(a)
  {
  }

  /** `add` with an already lower-case type is found under that very type;
      with an upper-case letter in the type it is not. */
  lemma AddTypeCase(r: Registry, t: string, a: Item)
    ensures IsLower(t) ==> Get(Add(r, t, a), t, a.name) == Ok(a)
    ensures !IsLower(t) && !Exists(r, t, a.name) ==> !Exists(Add(r, t, a), t, a.name)
  {
    if IsLower(t) {
      ToLowerFixesLower(t);
    } else {
      ToLowerIsLower(t);
      assert ToLower(t) != t;
    }
  }

  /** `add` and `remove` touch only the targeted key. */
  lemma ChangesAreLocal(r: Registry, t: string, a: Item, t2: string, n2: string, other: Key)
    ensures other != Key(ToLower(t), a.name) ==>
              (other in Add(r, t, a).assets <==> other in r.assets)
              && (other in r.assets ==> Add(r, t, a).assets[other] == r.assets[other])
    ensures other != Key(t2, n2) ==>
              (other in Remove(r, t2, n2).assets <==> other in r.assets)
              && (other in r.assets ==> Remove(r, t2, n2).assets[other] == r.assets[other])
  {
  }

  /** Removing what was just added undoes the store change (the log keeps
      both events) when the key was new and the type lower-case. */
  lemma AddThenRemove(r: Registry, t: string, a: Item)
    requires IsLower(t) && !Exists(r, t, a.name)
    ensures Remove(Add(r, t, a), t, a.name).assets == r.assets
    ensures Remove(Add(r, t, a), t, a.name).log == r.log + [Event(Added, t, a), Event(Removed, t, a)]
  {
    ToLowerFixesLower(t);
  }
}
