# AssetManager, modelled in Dafny

This project models the core of the `msgframework/AssetManager` PHP library. That core is the part that decides which web assets (scripts, styles and presets) a page loads, and in what order. The model proves properties of that logic. It has these parts:

- **Definition store (`Registry`).** Asset definitions are keyed by (type, name). Every `add`, override and `remove` is announced to observers. Here each announcement is an entry appended to an event log.
- **Asset record (`AssetItem`).** An item has a name, an optional uri, options, attributes, a dependency list and a version that defaults to `auto`. The constructor takes `attributes` and `dependencies` out of the options. `setOption('version', …)` is routed to `setVersion`.
- **Activation table (`Activation`, `Manager`).** Per type there is an ordered list of (name, state) entries with unique names. The state is Active or Dependency; an absent name is Inactive. The order is first-activation order. The manager adds:
  - the registry;
  - a `dirty` marker, the negation of `dependenciesIsActual`;
  - a one-way `locked` latch.
  `useAsset` expands presets (`name#type` references), `disableAsset` removes entries, and the registry listener marks dependencies stale. `getAssetState`, `isAssetActive`, `getAssets`, `reset`, `lock` and `addInline` are modelled as well.
- **Dependency closure (`Resolver`).** `enableDependencies()` drops Dependency entries. It then walks the same-type dependencies of every Active asset (`getDependenciesForAsset`) and prepends what is missing as Dependency.
- **Ordering (`Sorter`).** `getConnectionsGraph` builds the graph, then `calculateOrderOfActiveAssets` runs:
  - Kahn's topological sort, seeded in reverse list order with the assets nothing depends on;
  - weights of `10*i+10` from list order and from graph order;
  - the weight-reconciliation work queue;
  - a stable sort by weight.
- **Inline assets (`Inline`).** `getInlineRelation` and `filterOutInlineAssets` work over PHP arrays. Those arrays are modelled as ordered association lists.
- **Two asset subclasses (`Keepalive`, `LangActive`).**
  - The keepalive refresh-interval arithmetic, as a function of the session handler and lifetime.
  - The language stylesheet uri, as a function of the `client` option and the language tag.

How the PHP behaviour is represented:

- **Exceptions and partial updates.** Exceptions are an `Error` datatype. An operation that can throw after it has already changed the state returns the changed state together with its outcome. That keeps what the PHP leaves behind: a preset expansion that fails halfway leaves the assets it used before the failure active.
- **Unbounded recursion.** The PHP recurses without end on a dependency cycle that misses the walk's root, and on a preset that contains itself. The model returns `CyclicDependency` in those places.
- **Things passed in as parameters.** The hash that `addInline` uses for a name, the session handler and lifetime, and the language tag are arguments of the modelled functions.

Where the documentation and the code disagree, the model follows the code:

- the constructor keeps `version` among the options;
- `registerAsset` and `addInline` do not check the lock;
- dependency closure only follows dependencies of the asset's own type;
- `addInline` registers under the lower-cased type but uses the type as given. `Manager.AddInlineMixedCase` shows the consequence.

The lower clamp in the keepalive code (`$refreshTime <= 0`) can never fire. `Keepalive.ClampOnlyFromAbove` proves it.

## Model

| member | source | states |
|---|---|---|
| Php.ToLower | WebAssetRegistry.php:123 | `strtolower` keeps the length and lower-cases exactly the ASCII upper-case letters. |
| Php.Truthy | WebAssetManager.php:413 | PHP truthiness as `!empty(…)`, `if (…)` and `?:` test it: null, false, 0, `""`, `"0"` and an empty array are false, everything else true. |
| Php.TruthyAsString | WebAssetManager.php:413 | For a value that is not an array, truthiness agrees with the string cast: the value is false exactly when its string form is empty or `"0"`. |
| Php.ToPhpString | WebAssetItem.php:115 | The `(string)` cast: a string is kept, true is `"1"`, false and null are empty, an array is `"Array"`, and an integer is its decimal form. |
| Php.IntToString | WebAssetItem.php:115 | An integer's decimal form has a minus sign exactly when it is negative, its digits read back to the magnitude with no leading zero, and it is `"0"` exactly for zero. |
| Php.NatToStringReadsBack | WebAssetItem.php:115 | The decimal digits of a natural number read back to that number, and only zero starts with `0`. |
| Php.ToLowerIsLower | WebAssetRegistry.php:123 | A lower-cased type has no upper-case letter left, so lower-casing twice is the same as once. |
| Php.ToArray | WebAssetItem.php:79-84 | The `(array)` cast of an `attributes` option: null gives the empty array and a scalar sits under key `0`. A list is keyed exactly by the decimal forms of its indices, each holding its element. An associative array keeps exactly its keys, and a key written twice holds its last value. |
| Php.ListToArrayAt | WebAssetItem.php:80 | The keys of a cast list are exactly its indices in decimal, each holding the element at that index. |
| Php.AssocToMapLast | WebAssetItem.php:80 | A cast associative array keeps exactly the keys written, and the last write of a key wins. |
| Php.ToStringList | WebAssetItem.php:86-88 | The `(array)` cast of a `dependencies` option, walked by value, with each entry then read through the string cast (a divergence listed under "## Left out"): a list or an associative array gives its values in order, null gives nothing, and a scalar gives itself. |
| Php.LastIndexOf | WebAssetManager.php:323 | `strrpos` gives a position holding the character with none after it, and gives nothing exactly when the character does not occur. |
| Activation.Code | WebAssetManager.php:20-34 | The three state constants: Inactive is 0, Active is 1 and Dependency is 2, one distinct value per state. |
| Activation.StateIn | WebAssetManager.php:414-419 | In a lane with unique names, a name's state is not Inactive exactly when the name is present, and it is the state stored for that name. |
| Activation.EnsureLane | WebAssetManager.php:229-232 | A type's first use creates its empty list at the end of the type order. An existing list is left as it is. |
| Activation.Promote | WebAssetManager.php:241-246 | Re-activating sets that one entry to Active in place. Every other entry, the names and their uniqueness are unchanged. |
| Activation.Delete | WebAssetManager.php:281 | After `unset`, the list holds exactly the entries not named `n`. |
| Activation.DeleteOk | WebAssetManager.php:281 | Removal keeps names unique, leaves `n` absent, and is a no-op when `n` was absent. |
| Activation.OnlyStateMembers | WebAssetManager.php:736-744 | The `array_filter` keeps exactly the entries whose state is the one asked for. |
| Activation.OnlyStateAppend | WebAssetManager.php:736-744 | Filtering distributes over concatenation, so the kept entries keep their relative order. |
| Activation.KeepActive | WebAssetManager.php:736-744 | Each list keeps only its Active entries. Lists and type order stay. |
| Registry.Get | WebAssetRegistry.php:101-110 | `get` succeeds exactly on a stored (type, name) with the stored item; otherwise it fails with UnknownAsset for that pair. |
| Registry.Exists | WebAssetRegistry.php:176-182 | `exists` is an exact lookup of the (type, name) pair, with no lower-casing of the type. |
| Registry.Add | WebAssetRegistry.php:121-142 | `add` stores the item under the lower-cased type and its own name, and logs one event: `override` with the previous item when the key existed, `add` with the new item otherwise. |
| Registry.Remove | WebAssetRegistry.php:152-166 | `remove` deletes only the key and logs `remove` with the deleted item. An absent key leaves the store and log unchanged. |
| Registry.CreateAsset | WebAssetRegistry.php:203-212 | Without a loadable class, `createAsset` gives a plain item with the given name and uri and version `auto`. Its options are exactly the given options other than `attributes` and `dependencies`, with their values. An `attributes` or `dependencies` option, when present, supplies the attributes (`(array)` cast) or the dependency list (its values in order); otherwise the arguments do. |
| Registry.AddThenGet | WebAssetRegistry.php:121-142 | After `add`, `exists` holds under the lower-cased type and `get` returns exactly the added item. |
| Registry.AddTypeCase | WebAssetRegistry.php:123 | A lower-case type is found as given after `add`; a type with an upper-case letter is not found under its own spelling. |
| Registry.ChangesAreLocal | WebAssetRegistry.php:121-166 | `add` and `remove` leave every other key present or absent as before, with the same item. |
| Registry.ChangesKeepConsistent | WebAssetRegistry.php:121-166 | Both changes keep every item stored under its own name. |
| Registry.AddThenRemove | WebAssetRegistry.php:121-166 | Removing a newly added key restores the store; the log holds `add` then `remove` of that item. |
| AssetItem.New | WebAssetItem.php:68-94 | An `attributes` or `dependencies` option wins over the argument and leaves the options; the dependencies are the option's values in order, whether it is a list or an associative array. Every other option, `version` included, stays with its value. The version starts as `auto`. |
| AssetItem.NewKeepsArguments | WebAssetItem.php:79-93 | Without those two options, the constructor keeps its arguments and all options unchanged. |
| AssetItem.NewTakesDependenciesFromArray | WebAssetItem.php:86-88 | An associative `dependencies` option gives its values, in order, as the dependency list; its keys play no part. |
| AssetItem.NewTakesDependenciesFromOptions | WebAssetItem.php:86-88 | A list given as the `dependencies` option becomes the dependency list and leaves the options. |
| AssetItem.SetVersion | WebAssetItem.php:113-117 | `setVersion` stores the string cast of its argument and changes nothing else. |
| AssetItem.SetOption | WebAssetItem.php:191-202 | `setOption('version', v)` is `setVersion(v)`. Any other key changes only that option. Name, uri, attributes and dependencies never change. |
| AssetItem.SetOptionThenGetOption | WebAssetItem.php:174-202 | A set option reads back through `getOption`, except `version`, which leaves the options alone and sets the version. Other keys read as before. |
| AssetItem.GetOption | WebAssetItem.php:174-181 | `getOption` gives the stored value for a present key, and the default for an absent one. |
| AssetItem.GetAttribute | WebAssetItem.php:222-229 | `getAttribute` gives the stored value for a present key, and the default for an absent one. |
| AssetItem.SetAttribute | WebAssetItem.php:239-244 | `setAttribute` adds or replaces one attribute key and touches no other field. |
| AssetItem.SetAttributeThenGetAttribute | WebAssetItem.php:222-244 | A set attribute reads back through `getAttribute`; other attributes read as before. |
| Keepalive.RefreshTime | AssetItem/KeepaliveAssetItem.php:30-42 | The refresh time is 300 for a handler other than `database`. With `database` it is 45 for a lifetime up to 60, otherwise lifetime − 60 capped at 3600. It is always in 1..3600. |
| Keepalive.Interval | AssetItem/KeepaliveAssetItem.php:48 | The `interval` option is the refresh time in milliseconds: a whole number of seconds from 1 s to 3600 s. |
| Keepalive.PingBeforeExpiry | AssetItem/KeepaliveAssetItem.php:35-41 | With `database`, a session that lives longer than 45 s is pinged before it expires. |
| Keepalive.ClampOnlyFromAbove | AssetItem/KeepaliveAssetItem.php:35-41 | The uncapped value is always positive, so only the 3600 cap can change it. |
| Keepalive.PingUri | AssetItem/KeepaliveAssetItem.php:45 | The ping uri is `index.php`; the ajax query is appended exactly on the site side or for a logged-in user. |
| LangActive.NewLangActive | AssetItem/LangActiveAssetItem.php:32-46 | The language asset is the parent constructor's item with only the uri replaced. The new uri is built from the `client` option and the tag. |
| LangActive.LangUri | AssetItem/LangActiveAssetItem.php:36-46 | The stylesheet path is `<client>/language/<tag>/<tag>.css` when the `client` option is truthy, and `language/<tag>/<tag>.css` otherwise. |
| LangActive.UriIgnored | AssetItem/LangActiveAssetItem.php:32-46 | The uri passed to the constructor has no effect on the result. |
| LangActive.TagAtEnd | AssetItem/LangActiveAssetItem.php:38-46 | The uri ends in `<tag>.css`. |
| LangActive.NoClient | AssetItem/LangActiveAssetItem.php:39-46 | An absent, empty or `"0"` client gives the same client-less path `language/<tag>/<tag>.css`. |
| Resolver.AppendNew | WebAssetManager.php:985 | Merging keyed results keeps what was there, in place, appends only new names, and keeps names unique. |
| Resolver.Record | WebAssetManager.php:977-985 | Recording a dependency, then its own walk, keeps the earlier records as a prefix and adds exactly those names. |
| Resolver.WalkFrom | WebAssetManager.php:946-989 | A successful walk keeps earlier records and names only stored assets other than the root, each once. A failure is UnsatisfiedDependency naming a same-type dependency that is not stored, or a cycle that misses the root. |
| Resolver.WalkSound | WebAssetManager.php:946-989 | Everything the walk records is a transitive same-type dependency reached without passing through the root. |
| Resolver.WalkCovers | WebAssetManager.php:958-985 | Every direct dependency other than the root is recorded. |
| Resolver.WalkClosed | WebAssetManager.php:946-989 | The recorded set holds each recorded asset's dependencies, except the root. |
| Resolver.WalkComplete | WebAssetManager.php:946-989 | Every transitive same-type dependency of the root is recorded by a successful walk. |
| Resolver.WalkFailsOnMissing | WebAssetManager.php:968-973 | If the root or any transitive dependency depends on a missing asset other than the root, the walk fails. |
| Resolver.PrependMissing | WebAssetManager.php:719-729 | The old list survives unchanged at the back with only Dependency entries in front. The names become the old names plus the walked ones. |
| Resolver.PrependMissingOk | WebAssetManager.php:724-727 | Prepending only absent names keeps names unique. |
| Resolver.ResolveRoots | WebAssetManager.php:748-755 | For `preset` the list is left unchanged. A failure is an unknown root, a missing dependency or a cycle. |
| Resolver.ResolveRootsOk | WebAssetManager.php:748-755 | The per-asset pass keeps names unique and states set. |
| Resolver.RootsShapeAt | WebAssetManager.php:748-755 | The pass only puts Dependency entries in front of the list it is given. |
| Resolver.ResolveRootsClosed | WebAssetManager.php:748-755 | Outside `preset`, a successful pass leaves the list closed under same-type dependencies. |
| Resolver.ResolveRootsRequired | WebAssetManager.php:748-755 | Outside `preset`, every entry that is not a root is a transitive dependency of a root. |
| Resolver.ResolveRootsKnown | WebAssetManager.php:752 | After a successful pass every entry is a stored definition. |
| Resolver.ResolveTypes | WebAssetManager.php:748-755 | The type-by-type pass keeps the type order and the uniqueness of names. |
| Resolver.ResolveTypesLane | WebAssetManager.php:748-755 | Each list after a successful pass is what the per-asset pass computes for it. |
| Resolver.Resolve | WebAssetManager.php:706-761 | `enableDependencies()` keeps the table well formed and the type order unchanged. |
| Resolver.ResolveSpec | WebAssetManager.php:706-761 | After success, each list holds at the back its former Active entries, unchanged and in order; in front only Dependency entries; every entry stored. Outside `preset` the list is closed under dependencies and each Dependency entry is needed by an Active one. A `preset` list holds just its Active entries. |
| Resolver.ReachableInLane | WebAssetManager.php:706-761 | A closed list contains every transitive dependency of each of its members. |
| Resolver.ActiveStays | WebAssetManager.php:736-757 | An Active entry is still in its list after a successful closure. |
| Resolver.ResolveFailsOnMissing | WebAssetManager.php:966-973 | If an Active non-preset asset, or a transitive dependency of it, depends on a missing definition, the closure fails. |
| Manager.Create | WebAssetManager.php:57-99 | A new manager has nothing active, stale dependencies and no lock. |
| Manager.Lock | WebAssetManager.php:678-683 | `lock()` sets the latch and changes nothing else. |
| Manager.Reset | WebAssetManager.php:117-127 | Locked: InvalidAction, state unchanged. Otherwise every asset becomes Inactive and dependencies become stale. |
| Manager.ParseReference | WebAssetManager.php:319-332 | The parsed type is never empty, never `"0"` and holds no `#`. |
| Manager.ParseReferenceRoundTrip | WebAssetManager.php:321-332 | `name#type` with a non-empty name and a valid type parses back to (name, type). |
| Manager.ParseReferencePlain | WebAssetManager.php:323-332 | An entry with no `#` after its first character is a preset named by the whole entry. |
| Manager.Activate | WebAssetManager.php:240-256 | A present entry is made Active in place and `dirty` is kept. An absent name is appended Active, and `dirty` is set if the asset has dependencies. No other list changes. |
| Manager.PromoteIn | WebAssetManager.php:241-246 | Re-use changes only that entry's state to Active, in place. |
| Manager.AppendTo | WebAssetManager.php:249-255 | First use appends (name, Active) at the end of the list; `dirty` is set iff it was set or the asset has dependencies. |
| Manager.UseWithin | WebAssetManager.php:219-257 | Lock: InvalidAction, unchanged. Unknown asset: UnknownAsset, unchanged. Known non-preset: success. On success the asset is Active. Nothing active is ever demoted. |
| Manager.UseKnown | WebAssetManager.php:229-256 | The lookup has passed: a non-preset always succeeds, and success leaves the asset Active. |
| Manager.UsePresetItems | WebAssetManager.php:313-346 | On success every reference of the preset is Active. Failures are unknown or unsatisfied references or a cycle. Nothing is demoted. |
| Manager.UseAsset | WebAssetManager.php:219-257 | The public `useAsset`: lock and unknown-asset failures leave the state unchanged; success leaves the asset Active and demotes nothing. |
| Manager.UseOrdinary | WebAssetManager.php:219-257 | For a known non-preset, `useAsset` is the activation step on the type's list. |
| Manager.UseAppends | WebAssetManager.php:249-255 | Using an absent known asset appends it Active. `dirty` is set iff it was or the asset has dependencies. Other lists are unchanged. |
| Manager.UsePromotes | WebAssetManager.php:241-246 | Using a present asset, in either state, makes it Active where it stands and keeps `dirty`. |
| Manager.ActivateActive | WebAssetManager.php:241-246 | Activating an Active entry changes nothing. |
| Manager.UseIdempotent | WebAssetManager.php:219-257 | A second `useAsset` of the same non-preset asset changes nothing. |
| Manager.PresetComesLast | WebAssetManager.php:235-256 | A preset that was inactive is activated after all its references, and ends up last in the `preset` list. |
| Manager.PresetNotAtomic | WebAssetManager.php:334-343 | If reference `i` is used and reference `i+1` is missing, the expansion fails with UnsatisfiedDependency, and reference `i` stays Active. |
| Manager.DisableWithin | WebAssetManager.php:271-290 | Lock and unknown-asset failures leave the state unchanged. Otherwise the entry is gone whatever its state, and `dirty` is set. Nothing becomes active. |
| Manager.Unlist | WebAssetManager.php:281 | `unset` removes just that entry and never creates or drops a list. |
| Manager.DisablePresetItems | WebAssetManager.php:357-390 | On success every reference of the preset is Inactive. Nothing becomes active. |
| Manager.DisableAsset | WebAssetManager.php:271-290 | The public `disableAsset`: the same guarantees as DisableWithin. |
| Manager.DisableDrops | WebAssetManager.php:279-284 | Disabling a known non-preset drops only its entry, keeps the list, sets `dirty` and leaves other lists unchanged. |
| Manager.UseThenDisable | WebAssetManager.php:249-284 | Disabling what was just used restores the table. |
| Manager.Notify | WebAssetManager.php:76-98 | An override or remove event sets `dirty` iff the (type, name) is in the table in either state. An add event never does. |
| Manager.RegisterItem | WebAssetManager.php:467-470 | Registering an item stores it under the lower-cased type. `dirty` is set iff it was, or the key existed and is in the table. The lock is not consulted. |
| Manager.RegisterNew | WebAssetManager.php:471-476 | Registering by name stores a plain item with that name and uri, whose `type` option is the type as given. |
| Manager.Unregister | WebAssetManager.php:88-98 | A registry removal sets `dirty` iff the key was stored and is in the table. |
| Manager.AddInlineItem | WebAssetManager.php:633-670 | The item is stored with `inline` and `type` set and its other options, name, uri and dependencies kept, even when locked. Locked: InvalidAction. With a lower-case non-preset type the use succeeds and the asset is Active. |
| Manager.InlineName | WebAssetManager.php:641-642 | String content is named by its `name` option when set, converted to a string as a scalar argument of `createAsset` is, otherwise `inline.` followed by the content's hash. An array `name` is a TypeError, and only then does naming fail. |
| Manager.AddInlineContent | WebAssetManager.php:639-670 | String content becomes a stored inline item with an empty uri and the content as its `content` option. A refused name changes nothing and fails with TypeError. |
| Manager.AddInlineMixedCase | WebAssetManager.php:658-668 | With an upper-case letter in the type, the asset is registered under the lower-cased type, and the following use fails with UnknownAsset. |
| Manager.Refresh | WebAssetManager.php:518-524 | Fresh dependencies: nothing happens. Stale: the table becomes what the closure computes. `dirty` afterwards is set exactly when the closure failed. |
| Manager.RefreshKeepsActive | WebAssetManager.php:736-757 | A successful closure keeps exactly the Active assets Active. |
| Manager.RefreshCloses | WebAssetManager.php:748-757 | After a successful closure, every asset reachable from a present non-preset asset through same-type dependencies is present. |
| Manager.GetAssetState | WebAssetManager.php:402-419 | An unknown asset fails before anything changes. Otherwise stale dependencies are resolved, and on success the answer is the integer constant of the asset's state in the resolved table. |
| Manager.IsAssetActive | WebAssetManager.php:431-434 | `isAssetActive` succeeds exactly when `getAssetState` does, and is then true exactly when the integer `getAssetState` returns is not the Inactive constant. |
| Manager.Fetch | WebAssetManager.php:541-545 | Collecting definitions succeeds iff every name is stored, giving them in order; otherwise it fails with UnknownAsset for a missing name. |
| Manager.GetAssets | WebAssetManager.php:518-547 | Unsorted, or for `preset`: the list's assets in first-activation order. Sorted: distinct assets of the list, each after all its dependencies, complete exactly when the graph is acyclic, and in plain weight order when no asset depends on another. |
| Manager.Apply | WebAssetManager.php:117-683 | One public call: use, disable, reset, lock, register, unregister, inline add or state query. Every call keeps the manager sound and none unlocks it. `lock` locks it, and while it is locked use, disable and reset fail with InvalidAction and change nothing. |
| Manager.Run | WebAssetManager.php:117-683 | A sequence of public calls applied in order keeps the manager sound. |
| Manager.LockIsPermanent | WebAssetManager.php:678-683 | No sequence of calls unlocks a locked manager. |
| Manager.LockedIsFrozen | WebAssetManager.php:119-122 | On a locked manager, any sequence of use, disable, reset and lock leaves it unchanged. |
| Sorter.DepPositions | WebAssetManager.php:921-925 | Outgoing connections are the list positions of the asset's dependencies, each once. |
| Sorter.Dependents | WebAssetManager.php:921-925 | Incoming connections of `v` are exactly the positions that depend on it, in list order. |
| Sorter.Connections | WebAssetManager.php:902-932 | Outgoing and incoming agree; an edge from `x` to `d` exists iff `d`'s name is among `x`'s dependencies. |
| Sorter.Tops | WebAssetManager.php:785-792 | The seeds are exactly the positions with no incoming connection, each once. |
| Sorter.Release | WebAssetManager.php:803-815 | Each neighbour loses the emitted asset's connection. It is queued exactly when nothing else depends on it. |
| Sorter.Emit | WebAssetManager.php:798-815 | One round emits the head of the queue and keeps the loop invariant. |
| Sorter.Kahn | WebAssetManager.php:785-816 | The order holds distinct positions, dependents before their dependencies. A position is emitted iff all its dependents are. Without edges the order is the list reversed. |
| Sorter.KahnAcyclic | WebAssetManager.php:798-816 | The sort emits every position exactly when the graph has no cycle, and then its reverse is a load order. |
| Sorter.KahnComplete | WebAssetManager.php:798-816 | On an acyclic graph every position is emitted. |
| Sorter.RequestedWeight | WebAssetManager.php:831 | The requested weight is the positive integer `weight` option, or else the list weight. |
| Sorter.GraphWeights | WebAssetManager.php:828-832 | The graph weights give the `i`-th position of the reversed sort `10*i+10`. |
| Sorter.MaxWeight | WebAssetManager.php:850-858 | The top border is at least the weight of every weighted predecessor and is one of them, or 0 when none is weighted. |
| Sorter.Requeue | WebAssetManager.php:865-876 | Only dependents not already waiting are queued, each asking for its weight plus the new weight. |
| Sorter.Settle | WebAssetManager.php:835-879 | One reconciliation round keeps the loop invariant and lowers the termination measure. Without edges it simply grants the request. |
| Sorter.SettleShrinks | WebAssetManager.php:835-879 | Settling the head of the queue re-queues only assets ranked below it, so the measure decreases. |
| Sorter.Reconcile | WebAssetManager.php:835-879 | The loop ends with every dependency lighter than its dependent. Without edges every asset gets its requested weight. |
| Sorter.Insert | WebAssetManager.php:882 | Insertion adds exactly one element: the result is the old list plus `x` as a multiset. |
| Sorter.InsertPlaces | WebAssetManager.php:882 | Insertion splits the list at an index: `x` goes there, every element before it is strictly lighter, and the element after it, if any, is at least as heavy. |
| Sorter.SortByWeight | WebAssetManager.php:882 | The sort by weight is a permutation ordered by weight. |
| Sorter.SortStable | WebAssetManager.php:882 | The sort is stable: for every weight, the assets of that weight come out in the order they went in. |
| Sorter.SortSortedIsIdentity | WebAssetManager.php:882 | Sorting a list already in weight order changes nothing. |
| Sorter.LoadPositions | WebAssetManager.php:785-882 | The result holds distinct positions, dependencies first. It is complete exactly when the graph is acyclic. Without edges it is the list sorted by requested weight. |
| Sorter.OrderAssets | WebAssetManager.php:770-893 | The result holds distinct assets of the list, each after its dependencies. It is complete exactly when the graph is acyclic. Without edges it is the list sorted by requested weight. |
| Inline.Find | WebAssetManager.php:584 | Reading a key of a PHP array gives a value exactly when the key is present, and that value is the one stored with it. |
| Inline.Put | WebAssetManager.php:584 | A PHP array write keeps the key order for an existing key and appends a new key. |
| Inline.PutFind | WebAssetManager.php:584 | After a write, the written key reads the new value and every other key reads as before. |
| Inline.Slot | WebAssetManager.php:567-584 | An asset is filed iff it is inline, has dependencies and has position exactly `before` or `after`. It is filed under its last dependency. |
| Inline.InlineRelation | WebAssetManager.php:560-589 | The relation's keys are unique at each of its three levels: handles, the positions under a handle, and the names under a position. |
| Inline.LastFiledSpec | WebAssetManager.php:560-589 | The reference definition: the last asset of the list belonging in a cell, or none iff no asset belongs there. |
| Inline.InlineRelationCells | WebAssetManager.php:560-589 | Every cell of `getInlineRelation` holds exactly the last asset belonging in it. |
| Inline.InlineRelationFiles | WebAssetManager.php:560-589 | A filed asset is inline, of the list, and positioned `before` or `after` under its last dependency. A cell is empty iff nothing belongs in it. |
| Inline.InlineRelationLastWins | WebAssetManager.php:584 | When several assets claim one cell, the last one in the list is stored. |
| Inline.UnfiledAssets | WebAssetManager.php:567-580 | An asset that is not inline, or lacks a position or dependencies, is filed nowhere. |
| Inline.FilterOutInline | WebAssetManager.php:599-616 | The inline assets are keyed by unique names. |
| Inline.FilterKept | WebAssetManager.php:599-616 | The list left behind holds exactly the non-inline assets. |
| Inline.FilterInlineFound | WebAssetManager.php:599-616 | A name is a key of the result iff an inline asset of the list has it; its value is such an asset. |
| Inline.FilterKeepsOrder | WebAssetManager.php:599-616 | The assets left behind keep their relative order. |
| Inline.FilterPartitions | WebAssetManager.php:599-616 | With distinct names, kept plus filtered out is exactly the input count. |

## Left out

- Registry-file loading (`addRegistryFile`, `parseRegistryFiles`, `parseRegistryFile`, `getRegistryFiles`) is filesystem and JSON input, so it is not modelled.
- The Symfony event dispatcher and `Event/WebAssetEvent.php`: the registry appends events to a log, and the manager's listener logic is called directly. `Manager.Notify` is that logic.
- `__call` (the magic `useScript` style shortcuts): reflection-style convenience over the explicit methods, which are modelled.
- Choosing a subclass by reflection in `createAsset` is not modelled. Only the plain-item branch is. The two modelled subclasses have their own constructors.
- `getUri` and `resolvePath` call a foreign URI library and are not modelled. The uri is kept as an optional string.
- `md5` in `addInline` is a function parameter (`hash`).
- The CMS side effects of the subclasses are not modelled: `Route::_`, `addScriptOptions`, `Text::script`, and reading the session, user and language. Their inputs are parameters.
- `getManagerState`, `getAsset`, `assetExists` and `getRegistry` are plain read accessors, not modelled.
- The `InvalidArgumentException` of `registerAsset` and `addInline` for an argument that is neither a string nor an item: Dafny's types rule that input out.
- Sorter.RequestedWeight: weights are positive integers. A negative weight, or a truthy non-integer weight such as a numeric string, is read as absent (the list weight is used). PHP would use such a value as is.
- Sorter.Connections: an edge to a dependency outside the list is dropped. PHP adds it and crashes when it reaches such a node. After a successful closure every same-type dependency is in the list (Resolver.ResolveSpec), so `getAssets` never meets one.
- Sorter.LoadPositions: on a cyclic graph the Kahn pass never releases the members of a cycle, nor any asset that a cycle member depends on, directly or through other assets. All of these are left out of the result, and the contract promises completeness only for an acyclic graph. PHP's pass leaves out exactly the same assets, so they get no weight and are missing from its sorted list too. Where PHP then reads such an asset's undefined weight for one of its dependents, the model skips it; for the positive weights modelled the outcome is the same.
- Resolver.WalkFrom: a dependency cycle that misses the root, and a preset that lists itself (Manager.UseWithin), make PHP recurse until the stack is exhausted. Here they return CyclicDependency.
- AssetItem.New: the `version` option is kept among the options, as the constructor code does; a test expecting it removed contradicts the code.
- Manager.RegisterItem: no lock check, as in the code.
- Manager.AddInlineItem: no lock check before registering, as in the code. Items are modelled as values, not as shared objects: PHP sets `type` and `inline` on the caller's own object, so every other registry entry holding that same object changes with it, and an override event reports the already changed object. The model marks a copy, so that aliasing is not modelled.
- Manager.UseIdempotent: stated for types other than `preset`. A preset's second use re-runs its expansion, which is not shown to be a no-op.
- Inline.FilterPartitions: assumes distinct names, as `getAssets` returns them. With repeated names a later inline asset overwrites an earlier one in the keyed result.
- Keepalive.PingUri: the non-site branch calls `Factory::getUser()`, but `AssetItem/KeepaliveAssetItem.php` imports no `Factory`, so the name resolves to a class in its own namespace that no file of the library defines. The model assumes the call succeeds and takes the guest flag as a parameter. Without an autoloader outside the library that supplies that class, the administrator branch fails with a missing-class error, and the model does not represent that failure.
- Php.ToStringList: every `dependencies` entry is read through the string cast, while PHP's `(array)` keeps each raw value. A list or null entry therefore looks up the name `"Array"` or `""` here, where PHP fails with a TypeError at the registry's `exists(string $type, string $name)`. An integer entry equal to the root's name is skipped here as the root, where PHP's strict `===` comparison misses it and recurses without end. String entries, which the options are documented to hold, behave the same in both.
- Php.Value: float and object option values are not modelled. An associative array holding the same key twice stands for no PHP array; the casts read such a value entry by entry.
- Array keys that PHP would turn into integers (numeric-string names) are treated as plain strings.
- `enableDependencies($type, $asset)` is modelled only as the step `enableDependencies()` takes for each Active asset, not as a separate entry point.
