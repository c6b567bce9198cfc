/**
 * The slice of PHP value semantics the asset manager relies on: option
 * values, truthiness, the `(string)` and `(array)` casts, ASCII `strtolower`
 * and `strrpos`.
 */
module Php {
  import opened Errors

  /** A PHP value as it can appear in an option or attribute map. Floats and
      objects are not modelled. An array with string keys is kept in its
      insertion order, one entry per key as PHP stores it. */
  datatype Value =
    | Null
    | Bool(b: bool)
    | Int(i: int)
    | Str(s: string)
    | List(items: seq<Value>)
    | Dict(entries: seq<(string, Value)>)

  /** PHP truthiness: what `if ($v)`, `?:` and `!empty($v)` test. */
  predicate Truthy(v: Value) {
    match v
    case Null => false
    case Bool(b) => b
    case Int(i) => i != 0
    case Str(s) => s != "" && s != "0"
    case List(xs) => |xs| > 0
    case Dict(es) => |es| > 0
  }

  function DigitChar(d: nat): (c: char)
    requires d < 10
    ensures '0' <= c <= '9' && c as int - '0' as int == d
  {
    ['0', '1', '2', '3', '4', '5', '6', '7', '8', '9'][d]
  }

  /** The number a string of decimal digits denotes. */
  function DigitsValue(s: string): nat {
    if |s| == 0 then 0
    else
      var c := s[|s| - 1];
      10 * DigitsValue(s[..|s| - 1]) + (if '0' <= c <= '9' then c as int - '0' as int else 0)
  }

  /** Decimal notation of a natural number, as PHP prints it. */
  function NatToString(n: nat): (s: string)
    ensures |s| > 0
    ensures forall k :: 0 <= k < |s| ==> '0' <= s[k] <= '9'
  {
    if n < 10 then [DigitChar(n)] else NatToString(n / 10) + [DigitChar(n % 10)]
  }

  /** The decimal notation reads back to the number and has no leading
      zero. */
  lemma {:induction false} NatToStringReadsBack(n: nat)
    ensures DigitsValue(NatToString(n)) == n
    ensures NatToString(n)[0] == '0' ==> n == 0 && NatToString(n) == "0"
  {
    if n >= 10 {
      var p := NatToString(n / 10);
      NatToStringReadsBack(n / 10);
      assert NatToString(n) == p + [DigitChar(n % 10)];
      assert (p + [DigitChar(n % 10)])[..|p|] == p;
    }
  }

  /** Decimal notation of an integer: a minus sign exactly for a negative
      number, then the digits of its magnitude. */
  function IntToString(i: int): (s: string)
    ensures |s| > 0
    ensures s[0] == '-' <==> i < 0
    ensures i >= 0 ==> DigitsValue(s) == i && (s[0] == '0' ==> s == "0")
    ensures i < 0 ==> DigitsValue(s[1..]) == -i && s[1] != '0'
    ensures s == "0" <==> i == 0
  {
    if i < 0 then
      var d := NatToString(-i);
      NatToStringReadsBack(-i);
      assert ("-" + d)[1..] == d;
      "-" + d
    else
      NatToStringReadsBack(i);
      NatToString(i)
  }

  /** The `(string)` cast. */
  function ToPhpString(v: Value): (s: string)
    ensures v.Str? ==> s == v.s
    ensures v.Int? ==> s == IntToString(v.i)
    ensures v.Null? || v.Bool? ==> s == (if v.Bool? && v.b then "1" else "")
    ensures v.List? || v.Dict? ==> s == "Array"
  {
    match v
    case Null => ""
    case Bool(b) => if b then "1" else ""
    case Int(i) => IntToString(i)
    case Str(s) => s
    case List(_) => "Array"
    case Dict(_) => "Array"
  }

  /** The `(array)` cast, for a map keyed by strings: integer keys are written
      in decimal. Null gives the empty array, a scalar is stored under key 0,
      a list is keyed by its indices, and in an associative array the last
      write of a key wins. */
  function ToArray(v: Value): (m: map<string, Value>)
    ensures v.Null? ==> m == map[]
    ensures !v.Null? && !v.List? && !v.Dict? ==> m == map["0" := v]
    ensures v.List? ==> forall key :: key in m ==> DigitsValue(key) < |v.items| && key == NatToString(DigitsValue(key))
    ensures v.List? ==> forall k :: 0 <= k < |v.items| ==> NatToString(k) in m && m[NatToString(k)] == v.items[k]
    ensures v.Dict? ==> forall key :: key in m <==> exists k :: 0 <= k < |v.entries| && key == v.entries[k].0
    ensures v.Dict? ==> forall k :: 0 <= k < |v.entries| && LastWrite(v.entries, k) ==> m[v.entries[k].0] == v.entries[k].1
  {
    match v
    case Null => map[]
    case Dict(es) =>
      AssocToMapLast(es);
      AssocToMap(es)
    case List(xs) =>
      ListToArrayAt(xs);
      ListToArray(xs)
    case _ => map["0" := v]
  }

  function ListToArray(xs: seq<Value>): (m: map<string, Value>)
    ensures forall k :: 0 <= k < |xs| ==> NatToString(k) in m
  {
    if |xs| == 0 then map[]
    else
      var init := xs[..|xs| - 1];
      var m := ListToArray(init);
      assert |init| == |xs| - 1;
      m[NatToString(|init|) := xs[|init|]]
  }

  /** Distinct numbers have distinct decimal forms. */
  lemma {:induction false} NatToStringInjective(a: nat, b: nat)
    requires a != b
    ensures NatToString(a) != NatToString(b)
  {
    NatToStringReadsBack(a);
    NatToStringReadsBack(b);
  }

  /** The keys of a cast list are the decimal forms of its indices. */
  lemma {:induction false} ListToArrayAt(xs: seq<Value>)
    ensures forall key :: key in ListToArray(xs) ==> DigitsValue(key) < |xs| && key == NatToString(DigitsValue(key))
    ensures forall k :: 0 <= k < |xs| ==> ListToArray(xs)[NatToString(k)] == xs[k]
  {
    forall key | key in ListToArray(xs) ensures DigitsValue(key) < |xs| && key == NatToString(DigitsValue(key)) {
      var k := ListToArrayKey(xs, key);
      NatToStringReadsBack(k);
    }
    forall k | 0 <= k < |xs| ensures ListToArray(xs)[NatToString(k)] == xs[k] {
      ListToArrayValue(xs, k);
    }
  }

  lemma {:induction false} ListToArrayKey(xs: seq<Value>, key: string) returns (k: nat)
    requires key in ListToArray(xs)
    ensures k < |xs| && key == NatToString(k)
  {
    var init := xs[..|xs| - 1];
    if key == NatToString(|init|) {
      k := |init|;
    } else {
      assert key in ListToArray(init);
      k := ListToArrayKey(init, key);
    }
  }

  lemma {:induction false} ListToArrayValue(xs: seq<Value>, k: nat)
    requires k < |xs|
    ensures ListToArray(xs)[NatToString(k)] == xs[k]
  {
    var init := xs[..|xs| - 1];
    if k < |init| {
      NatToStringInjective(k, |init|);
      ListToArrayValue(init, k);
      assert init[k] == xs[k];
    }
  }

  /** Entry `k` of an associative array literal is the last write of its key. */
  predicate LastWrite(es: seq<(string, Value)>, k: nat)
    requires k < |es|
  {
    forall j :: k < j < |es| ==> es[j].0 != es[k].0
  }

  /** An associative array read into a map; a key written twice keeps its
      later value, as a PHP array literal does. */
  function AssocToMap(es: seq<(string, Value)>): (m: map<string, Value>)
    ensures forall k :: 0 <= k < |es| ==> es[k].0 in m
    ensures |es| > 0 ==> m[es[|es| - 1].0] == es[|es| - 1].1
  {
    if |es| == 0 then map[]
    else AssocToMap(es[..|es| - 1])[es[|es| - 1].0 := es[|es| - 1].1]
  }

  lemma {:induction false} AssocToMapLast(es: seq<(string, Value)>)
    ensures forall key :: key in AssocToMap(es) <==> exists k :: 0 <= k < |es| && key == es[k].0
    ensures forall k :: 0 <= k < |es| && LastWrite(es, k) ==> AssocToMap(es)[es[k].0] == es[k].1
  {
    forall key | key in AssocToMap(es) ensures exists k :: 0 <= k < |es| && key == es[k].0 {
      var k := AssocToMapKey(es, key);
    }
    forall k | 0 <= k < |es| && LastWrite(es, k) ensures AssocToMap(es)[es[k].0] == es[k].1 {
      AssocToMapValue(es, k);
    }
  }

  lemma {:induction false} AssocToMapKey(es: seq<(string, Value)>, key: string) returns (k: nat)
    requires key in AssocToMap(es)
    ensures k < |es| && key == es[k].0
  {
    var init := es[..|es| - 1];
    if key == es[|es| - 1].0 {
      k := |es| - 1;
    } else {
      assert key in AssocToMap(init);
      k := AssocToMapKey(init, key);
      assert init[k] == es[k];
    }
  }

  lemma {:induction false} AssocToMapValue(es: seq<(string, Value)>, k: nat)
    requires k < |es| && LastWrite(es, k)
    ensures AssocToMap(es)[es[k].0] == es[k].1
  {
    var init := es[..|es| - 1];
    if k < |init| {
      assert es[|es| - 1].0 != es[k].0;
      assert init[k] == es[k];
      assert LastWrite(init, k);
      AssocToMapValue(init, k);
    }
  }

  /** The `(array)` cast for a list of names, walked by value: every element
      of a list or an associative array, in order, read as a string. */
  function ToStringList(v: Value): (names: seq<string>)
    ensures v.List? ==> |names| == |v.items| && forall k :: 0 <= k < |names| ==> names[k] == ToPhpString(v.items[k])
    ensures v.Dict? ==> |names| == |v.entries| && forall k :: 0 <= k < |names| ==> names[k] == ToPhpString(v.entries[k].1)
    ensures v.Null? ==> names == []
    ensures !v.Null? && !v.List? && !v.Dict? ==> names == [ToPhpString(v)]
  {
    match v
    case Null => []
    case List(xs) => seq(|xs|, k requires 0 <= k < |xs| => ToPhpString(xs[k]))
    case Dict(es) => seq(|es|, k requires 0 <= k < |es| => ToPhpString(es[k].1))
    case _ => [ToPhpString(v)]
  }

  function LowerChar(c: char): (d: char)
    ensures 'A' <= c <= 'Z' ==> 'a' <= d <= 'z' && d as int == c as int + 32
    ensures !('A' <= c <= 'Z') ==> d == c
  {
    if 'A' <= c <= 'Z' then (c as int + 32) as char else c
  }

  /** For a value that is not an array, PHP's truthiness agrees with its
      string form: false exactly when that form is empty or `"0"`. */
  lemma TruthyAsString(v: Value)
    requires !v.List? && !v.Dict?
    ensures Truthy(v) <==> ToPhpString(v) != "" && ToPhpString(v) != "0"
  {
    if v.Int? {
      var s := IntToString(v.i);
      assert s == "0" <==> v.i == 0;
      assert s != "";
    }
  }

  /** `strtolower`, byte-wise on ASCII letters as in PHP 8. */
  function ToLower(s: string): (r: string)
    ensures |r| == |s|
    ensures forall k :: 0 <= k < |s| ==> r[k] == LowerChar(s[k])
  {
    seq(|s|, k requires 0 <= k < |s| => LowerChar(s[k]))
  }

  predicate IsLower(s: string) {
    forall k :: 0 <= k < |s| ==> !('A' <= s[k] <= 'Z')
  }

  /** Lower-casing leaves no upper-case letter behind, so it is idempotent. */
  lemma ToLowerIsLower(s: string)
    ensures IsLower(ToLower(s))
    ensures ToLower(ToLower(s)) == ToLower(s)
  {
  }

  /** A lower-case string is its own lower-case form. */
  lemma ToLowerFixesLower(s: string)
    requires IsLower(s)
    ensures ToLower(s) == s
  {
  }

  /** `strrpos($s, $c)`: the index of the last occurrence of `c`. */
  function LastIndexOf(s: string, c: char): (r: Option<nat>)
    ensures r.Some? ==> r.value < |s| && s[r.value] == c
                        && forall k :: r.value < k < |s| ==> s[k] != c
    ensures r.None? <==> c !in s
  {
    if |s| == 0 then None
    else if s[|s| - 1] == c then Some(|s| - 1)
    else LastIndexOf(s[..|s| - 1], c)
  }
}
