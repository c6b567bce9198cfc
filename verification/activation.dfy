/**
 * The activation table: per asset type, an ordered list of (name, state)
 * entries with unique names. The order is first-activation order; a name
 * that is absent is Inactive.
 */
module Activation {
  import opened Errors

  datatype State = Inactive | Active | Dependency

  /** The integer constants the manager exposes for the three states: one
      distinct constant per state, and 0 for Inactive. */
  function Code(s: State): (c: nat)
    ensures c < 3
    ensures c == 0 <==> s.Inactive?
    ensures c == 1 <==> s.Active?
    ensures c == 2 <==> s.Dependency?
  {
    match s
    case Inactive => 0
    case Active => 1
    case Dependency => 2
  }

  datatype Entry = Entry(name: string, state: State)

  /** The per-type lanes and the order in which the types were first used. */
  datatype Table = Table(types: seq<string>, lanes: map<string, seq<Entry>>)

  predicate Unique<T(==)>(s: seq<T>) {
    forall i, j :: 0 <= i < j < |s| ==> s[i] != s[j]
  }

  function Names(lane: seq<Entry>): (ns: seq<string>)
    ensures |ns| == |lane|
    ensures forall k :: 0 <= k < |lane| ==> ns[k] == lane[k].name
  {
    seq(|lane|, k requires 0 <= k < |lane| => lane[k].name)
  }

  /** A lane keeps each name at most once and never stores Inactive. */
  predicate LaneOk(lane: seq<Entry>) {
    && Unique(Names(lane))
    && forall k :: 0 <= k < |lane| ==> lane[k].state != Inactive
  }

  ghost predicate WellFormed(t: Table) {
    && Unique(t.types)
    && (forall ty :: ty in t.lanes <==> ty in t.types)
    && forall ty :: ty in t.lanes ==> LaneOk(t.lanes[ty])
  }

  function EmptyTable(): (t: Table)
    ensures WellFormed(t) && t.lanes == map[]
  {
    Table([], map[])
  }

  /** The lane of a type; a type never used has an empty lane. */
  function LaneOf(t: Table, ty: string): seq<Entry> {
    if ty in t.lanes then t.lanes[ty] else []
  }

  function IndexOf(lane: seq<Entry>, n: string): (r: Option<nat>)
    ensures r.Some? ==> r.value < |lane| && lane[r.value].name == n
                        && forall k :: 0 <= k < r.value ==> lane[k].name != n
    ensures r.None? <==> n !in Names(lane)
  {
    if |lane| == 0 then None
    else if lane[0].name == n then Some(0)
    else match IndexOf(lane[1..], n)
      case None => assert Names(lane) == [lane[0].name] + Names(lane[1..]); None
      case Some(k) => Some(k + 1)
  }

  /** The state of a name in a lane: its stored state, Inactive if absent. */
  function StateIn(lane: seq<Entry>, n: string): (s: State)
    ensures LaneOk(lane) ==> (s != Inactive <==> n in Names(lane))
    ensures forall k :: 0 <= k < |lane| && lane[k].name == n && LaneOk(lane) ==> s == lane[k].state
  {
    match IndexOf(lane, n)
    case None => Inactive
    case Some(k) =>
      assert forall j :: 0 <= j < |lane| && lane[j].name == n && LaneOk(lane) ==> Names(lane)[j] == Names(lane)[k];
      lane[k].state
  }

  function StateOf(t: Table, ty: string, n: string): State {
    StateIn(LaneOf(t, ty), n)
  }

  /** Creates an empty lane for a type not used yet, at the end of the type
      order; an existing lane is left alone. */
  function EnsureLane(t: Table, ty: string): (t': Table)
    requires WellFormed(t)
    ensures WellFormed(t') && ty in t'.lanes
    ensures ty in t.lanes ==> t' == t
    ensures ty !in t.lanes ==> t'.types == t.types + [ty] && t'.lanes == t.lanes[ty := []]
  {
    if ty in t.lanes then t else Table(t.types + [ty], t.lanes[ty := []])
  }

  /** Replaces the lane of an existing type. */
  function PutLane(t: Table, ty: string, lane: seq<Entry>): (t': Table)
    requires WellFormed(t) && ty in t.lanes && LaneOk(lane)
    ensures WellFormed(t') && t'.types == t.types
    ensures t'.lanes == t.lanes[ty := lane]
  {
    Table(t.types, t.lanes[ty := lane])
  }

  /** Marks a present name Active where it stands. */
  function Promote(lane: seq<Entry>, k: nat): (r: seq<Entry>)
    requires k < |lane|
    ensures |r| == |lane| && r[k] == Entry(lane[k].name, Active)
    ensures forall j :: 0 <= j < |lane| && j != k ==> r[j] == lane[j]
    ensures Names(r) == Names(lane)
    ensures LaneOk(lane) ==> LaneOk(r)
  {
    lane[k := Entry(lane[k].name, Active)]
  }

  lemma LaneOkTail(lane: seq<Entry>)
    requires LaneOk(lane) && |lane| > 0
    ensures LaneOk(lane[1..])
    ensures lane[0].name !in Names(lane[1..])
  {
    assert Names(lane[1..]) == Names(lane)[1..];
  }

  lemma LaneOkCons(x: Entry, rest: seq<Entry>)
    requires LaneOk(rest) && x.state != Inactive && x.name !in Names(rest)
    ensures LaneOk([x] + rest)
  {
    assert Names([x] + rest) == [x.name] + Names(rest);
  }

  lemma LaneOkPrepend(x: Entry, rest: seq<Entry>)
    ensures LaneOk(rest) && x.state != Inactive && x.name !in Names(rest) ==> LaneOk([x] + rest)
  {
    if LaneOk(rest) && x.state != Inactive && x.name !in Names(rest) {
      LaneOkCons(x, rest);
    }
  }

  /** Drops the entry of a name, whatever its state. */
  function Delete(lane: seq<Entry>, n: string): (r: seq<Entry>)
    ensures forall e :: e in r ==> e in lane && e.name != n
    ensures forall e :: e in lane && e.name != n ==> e in r
  {
    if |lane| == 0 then []
    else if lane[0].name == n then Delete(lane[1..], n)
    else [lane[0]] + Delete(lane[1..], n)
  }

  lemma NameInLane(lane: seq<Entry>, n: string)
    ensures n in Names(lane) <==> exists e :: e in lane && e.name == n
  {
    if n in Names(lane) {
      var k :| 0 <= k < |lane| && Names(lane)[k] == n;
      assert lane[k] in lane;
    }
  }

  lemma DeleteOk(lane: seq<Entry>, n: string)
    requires LaneOk(lane)
    ensures LaneOk(Delete(lane, n))
    ensures n !in Names(Delete(lane, n))
    ensures n !in Names(lane) ==> Delete(lane, n) == lane
  {
    NameInLane(Delete(lane, n), n);
    DeleteKeepsOk(lane, n);
    if n !in Names(lane) {
      DeleteAbsent(lane, n);
    }
  }

  lemma {:induction false} DeleteKeepsOk(lane: seq<Entry>, n: string)
    requires LaneOk(lane)
    ensures LaneOk(Delete(lane, n))
    decreases |lane|
  {
    if |lane| > 0 {
      LaneOkTail(lane);
      DeleteKeepsOk(lane[1..], n);
      if lane[0].name != n {
        NameInLane(Delete(lane[1..], n), lane[0].name);
        NameInLane(lane[1..], lane[0].name);
        LaneOkCons(lane[0], Delete(lane[1..], n));
      }
    }
  }

  lemma {:induction false} DeleteAbsent(lane: seq<Entry>, n: string)
    requires n !in Names(lane)
    ensures Delete(lane, n) == lane
    decreases |lane|
  {
    if |lane| > 0 {
      assert Names(lane) == [lane[0].name] + Names(lane[1..]);
      DeleteAbsent(lane[1..], n);
      assert lane == [lane[0]] + lane[1..];
    }
  }

  /** The entries in the given state, in lane order. */
  function OnlyState(lane: seq<Entry>, s: State): (r: seq<Entry>)
    ensures |r| <= |lane|
  {
    if |lane| == 0 then []
    else if lane[0].state == s then [lane[0]] + OnlyState(lane[1..], s)
    else OnlyState(lane[1..], s)
  }

  /** The filter keeps exactly the entries in the given state. */
  lemma {:induction false} OnlyStateMembers(lane: seq<Entry>, s: State)
    ensures forall e :: e in OnlyState(lane, s) <==> e in lane && e.state == s
  {
    if |lane| > 0 {
      OnlyStateMembers(lane[1..], s);
      assert forall e :: e in lane <==> e == lane[0] || e in lane[1..];
    }
  }

  lemma OnlyStateOk(lane: seq<Entry>, s: State)
    requires LaneOk(lane)
    ensures LaneOk(OnlyState(lane, s))
  {
    if |lane| > 0 {
      LaneOkTail(lane);
      OnlyStateOk(lane[1..], s);
      if lane[0].state == s {
        OnlyStateMembers(lane[1..], s);
        NameInLane(OnlyState(lane[1..], s), lane[0].name);
        NameInLane(lane[1..], lane[0].name);
        LaneOkCons(lane[0], OnlyState(lane[1..], s));
      }
    }
  }

  lemma OnlyStateAppend(a: seq<Entry>, b: seq<Entry>, s: State)
    ensures OnlyState(a + b, s) == OnlyState(a, s) + OnlyState(b, s)
  {
    if |a| > 0 {
      assert (a + b)[1..] == a[1..] + b;
      OnlyStateAppend(a[1..], b, s);
    } else {
      assert a + b == b;
    }
  }

  /** Keeps only the Active entries of every lane; lanes and type order stay. */
  function KeepActive(t: Table): (t': Table)
    requires WellFormed(t)
    ensures WellFormed(t') && t'.types == t.types && t'.lanes.Keys == t.lanes.Keys
    ensures forall ty :: ty in t.lanes ==> t'.lanes[ty] == OnlyState(t.lanes[ty], Active)
  {
    forall ty | ty in t.lanes {
      OnlyStateOk(t.lanes[ty], Active);
    }
    Table(t.types, map ty | ty in t.lanes :: OnlyState(t.lanes[ty], Active))
  }

  /** The names stored in a table under one type, in any state. */
  predicate InTable(t: Table, ty: string, n: string) {
    ty in t.lanes && n in Names(t.lanes[ty])
  }
}
