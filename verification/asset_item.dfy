/**
 * An asset definition: a named resource descriptor with options, attributes,
 * an ordered dependency list and a version. Name, uri and dependencies are
 * fixed at construction; options, attributes and the version can be changed.
 */
module AssetItem {
  import opened Errors
  import opened Php

  const DefaultVersion: string := "auto"

  datatype Item = Item(
    name: string,
    uri: Option<string>,
    options: map<string, Value>,
    attributes: map<string, Value>,
    dependencies: seq<string>,
    version: string)

  /** The constructor. An `attributes` or `dependencies` entry in the options
      wins over the corresponding argument and is taken out of the options;
      every other option, `version` included, stays where it is. */
  function New(name: string, uri: Option<string>, options: map<string, Value>,
               attributes: map<string, Value>, dependencies: seq<string>): (a: Item)
    ensures a.name == name && a.uri == uri && a.version == DefaultVersion
    ensures a.attributes == (if "attributes" in options then ToArray(options["attributes"]) else attributes)
    ensures a.dependencies == (if "dependencies" in options then ToStringList(options["dependencies"]) else dependencies)
    ensures forall k :: k in a.options <==> k in options && k != "attributes" && k != "dependencies"
    ensures forall k :: k in a.options ==> a.options[k] == options[k]
  {
    var attrs := if "attributes" in options then ToArray(options["attributes"]) else attributes;
    var deps := if "dependencies" in options then ToStringList(options["dependencies"]) else dependencies;
    Item(name, uri, options - {"attributes", "dependencies"}, attrs, deps, DefaultVersion)
  }

  /** `getOption($key, $default)`. */
  function GetOption(a: Item, key: string, default: Value): (v: Value)
    ensures key in a.options ==> v == a.options[key]
    ensures key !in a.options ==> v == default
  {
    if key in a.options then a.options[key] else default
  }

  /** `getAttribute($key, $default)`. */
  function GetAttribute(a: Item, key: string, default: Value): (v: Value)
    ensures key in a.attributes ==> v == a.attributes[key]
    ensures key !in a.attributes ==> v == default
  {
    if key in a.attributes then a.attributes[key] else default
  }

  /** `setVersion($version)` stores the string form of its argument. */
  function SetVersion(a: Item, version: Value): (b: Item)
    ensures b.version == ToPhpString(version)
    ensures b == a.(version := b.version)
  {
    a.(version := ToPhpString(version))
  }

  /** `setOption($key, $value)`; the key `version` is routed to `setVersion`. */
  function SetOption(a: Item, key: string, value: Value): (b: Item)
    ensures key == "version" ==> b == SetVersion(a, value)
    ensures key != "version" ==> b.options == a.options[key := value] && b.version == a.version
    ensures b.name == a.name && b.uri == a.uri && b.attributes == a.attributes
    ensures b.dependencies == a.dependencies
  {
    if key == "version" then SetVersion(a, value) else a.(options := a.options[key := value])
  }

  /** `setAttribute($key, $value)`. */
  function SetAttribute(a: Item, key: string, value: Value): (b: Item)
    ensures b == a.(attributes := b.attributes)
    ensures b.attributes.Keys == a.attributes.Keys + {key}
  {
    a.(attributes := a.attributes[key := value])
  }

  /** Without an `attributes` or `dependencies` option, the constructor keeps
      its arguments and every option as given. */
  lemma NewKeepsArguments(name: string, uri: Option<string>, options: map<string, Value>,
                          attributes: map<string, Value>, dependencies: seq<string>)
    requires "attributes" !in options && "dependencies" !in options
    ensures var a := New(name, uri, options, attributes, dependencies);
            a.options == options && a.attributes == attributes && a.dependencies == dependencies
  {
    assert options - {"attributes", "dependencies"} == options;
  }

  /** A `dependencies` option is moved into the dependency list. */
  lemma NewTakesDependenciesFromOptions(name: string, uri: Option<string>, options: map<string, Value>,
                                        attributes: map<string, Value>, dependencies: seq<string>, names: seq<string>)
    requires "dependencies" in options && options["dependencies"] == List(seq(|names|, k requires 0 <= k < |names| => Str(names[k])))
    ensures New(name, uri, options, attributes, dependencies).dependencies == names
    ensures "dependencies" !in New(name, uri, options, attributes, dependencies).options
  {
  }

  /** An associative `dependencies` option gives its values, in order, as
      the dependency list; the keys play no part. */
  lemma NewTakesDependenciesFromArray(name: string, uri: Option<string>, options: map<string, Value>,
                                      attributes: map<string, Value>, dependencies: seq<string>,
                                      es: seq<(string, Value)>)
    requires "dependencies" in options && options["dependencies"] == Dict(es)
    ensures var a := New(name, uri, options, attributes, dependencies);
            && |a.dependencies| == |es|
            && forall k :: 0 <= k < |es| ==> a.dependencies[k] == ToPhpString(es[k].1)
  {
  }

  /** Setting an option reads back through `getOption`; other options are
      unchanged. `version` is the exception: it changes the version and
      leaves the options alone. */
  lemma SetOptionThenGetOption(a: Item, key: string, value: Value, other: string, default: Value)
    requires other != key
    ensures key != "version" ==> GetOption(SetOption(a, key, value), key, default) == value
    ensures key == "version" ==> SetOption(a, key, value).options == a.options
                                 && SetOption(a, key, value).version == ToPhpString(value)
    ensures GetOption(SetOption(a, key, value), other, default) == GetOption(a, other, default)
  {
  }

  /** Setting an attribute reads back through `getAttribute`; other
      attributes are unchanged. */
  lemma SetAttributeThenGetAttribute(a: Item, key: string, value: Value, other: string, default: Value)
    requires other != key
    ensures GetAttribute(SetAttribute(a, key, value), key, default) == value
    ensures GetAttribute(SetAttribute(a, key, value), other, default) == GetAttribute(a, other, default)
  {
  }
}
