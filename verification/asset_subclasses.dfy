/**
 * The keepalive asset: how often the page pings the server to keep the
 * session open. The session handler, the session lifetime in seconds, the
 * client and the guest flag come from the application and are parameters.
 */
module Keepalive {
  /** The longest refresh period, one hour. */
  const MaxRefresh: int := 3600

  /** Seconds between two pings: 300 for a handler other than `database`;
      otherwise one minute less than the session lifetime, 45 for a
      lifetime of one minute or less, and never more than an hour. */
  function RefreshTime(handler: string, lifetime: int): (r: int)
    ensures 1 <= r <= MaxRefresh
    ensures handler != "database" ==> r == 300
    ensures handler == "database" && lifetime <= 60 ==> r == 45
    ensures handler == "database" && 60 < lifetime <= MaxRefresh + 60 ==> r == lifetime - 60
    ensures handler == "database" && lifetime > MaxRefresh + 60 ==> r == MaxRefresh
  {
    if handler != "database" then 300
    else
      var refresh := if lifetime <= 60 then 45 else lifetime - 60;
      if refresh > MaxRefresh || refresh <= 0 then MaxRefresh else refresh
  }

  /** The `interval` script option, in milliseconds. */
  function Interval(handler: string, lifetime: int): (ms: int)
    ensures 1000 <= ms <= 1000 * MaxRefresh && ms % 1000 == 0
    ensures ms / 1000 == RefreshTime(handler, lifetime)
  {
    RefreshTime(handler, lifetime) * 1000
  }

  /** With the `database` handler a session that lives longer than 45
      seconds is pinged before it expires. */
  lemma PingBeforeExpiry(lifetime: int)
    requires lifetime > 45
    ensures RefreshTime("database", lifetime) < lifetime
  {
  }

  /** The lower guard of the clamp never fires: the value it replaces is
      already positive. */
  lemma ClampOnlyFromAbove(lifetime: int)
    ensures var refresh := if lifetime <= 60 then 45 else lifetime - 60;
            refresh > 0 && RefreshTime("database", lifetime) == if refresh > MaxRefresh then MaxRefresh else refresh
  {
  }

  /** The endpoint pinged: the ajax component on the site side or for a
      logged-in user, the bare entry point otherwise. */
  function PingUri(isSite: bool, isGuest: bool): (uri: string)
    ensures |uri| >= 9 && uri[..9] == "index.php"
    ensures |uri| > 9 <==> isSite || !isGuest
    ensures |uri| > 9 ==> uri[9..] == "?option=com_ajax&format=json"
  {
    "index.php" + (if isSite || !isGuest then "?option=com_ajax&format=json" else "")
  }
}

/**
 * The language asset: its uri is built from the active language tag and
 * the `client` option, whatever uri it was constructed with. The language
 * tag comes from the application and is a parameter.
 */
module LangActive {
  import opened Errors
  import opened Php
  import opened AssetItem

  /** `<client>/language/<tag>/<tag>.css`, or `language/<tag>/<tag>.css`
      without a client. */
  function LangUri(client: Value, tag: string): (uri: string)
    ensures uri == (if Truthy(client) then ToPhpString(client) + "/" else "") + "language/" + tag + "/" + tag + ".css"
  {
    if Truthy(client) then ToPhpString(client) + "/language/" + tag + "/" + tag + ".css"
    else "language/" + tag + "/" + tag + ".css"
  }

  /** The constructor: the parent's, then the uri replaced. */
  function NewLangActive(name: string, uri: Option<string>, options: map<string, Value>,
                         attributes: map<string, Value>, dependencies: seq<string>, tag: string): (a: Item)
    ensures a == New(name, uri, options, attributes, dependencies).(uri := a.uri)
    ensures a.uri == Some(LangUri(if "client" in options then options["client"] else Null, tag))
  {
    var parent := New(name, uri, options, attributes, dependencies);
    parent.(uri := Some(LangUri(GetOption(parent, "client", Null), tag)))
  }

  /** The uri given to the constructor plays no part. */
  lemma UriIgnored(name: string, u1: Option<string>, u2: Option<string>, options: map<string, Value>,
                   attributes: map<string, Value>, dependencies: seq<string>, tag: string)
    ensures NewLangActive(name, u1, options, attributes, dependencies, tag)
         == NewLangActive(name, u2, options, attributes, dependencies, tag)
  {
  }

  /** The language tag can be read back from the end of the uri. */
  lemma TagAtEnd(client: Value, tag: string)
    ensures var uri := LangUri(client, tag);
            && |uri| >= |tag| + 4
            && uri[|uri| - |tag| - 4..] == tag + ".css"
  {
    var uri := LangUri(client, tag);
    var pre := (if Truthy(client) then ToPhpString(client) + "/" else "") + "language/" + tag + "/";
    assert uri == pre + (tag + ".css");
    assert uri[|pre|..] == tag + ".css";
  }

  /** An absent, empty or `"0"` client gives the client-less path. */
  lemma NoClient(tag: string)
    ensures LangUri(Null, tag) == LangUri(Str(""), tag) == LangUri(Str("0"), tag) == "language/" + tag + "/" + tag + ".css"
  {
  }
}
