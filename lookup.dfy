/**
 * The constant name-to-number tables behind the two enumerations (a PHP array literal
 * `'name' => number`, searched in declaration order).
 */
module Lookup {
  import opened Results

  type Table = seq<(string, int)>

  /** `array_key_exists($key, $table)`. */
  predicate HasKey(t: Table, key: string)
  {
    exists i :: 0 <= i < |t| && t[i].0 == key
  }

  predicate HasValue(t: Table, v: int)
  {
    exists i :: 0 <= i < |t| && t[i].1 == v
  }

  /** No name and no number appears twice. */
  ghost predicate Unique(t: Table)
  {
    forall i, j :: 0 <= i < j < |t| ==> t[i].0 != t[j].0 && t[i].1 != t[j].1
  }

  /** The `foreach` of `fromString`: the number of the first entry named `key`. */
  function ValueOf(t: Table, key: string): (r: Option<int>)
    ensures r.Some? <==> HasKey(t, key)
    ensures r.Some? ==> (key, r.value) in t
  {
    if t == [] then None
    else if t[0].0 == key then Some(t[0].1)
    else
      var r := ValueOf(t[1..], key);
      assert HasKey(t, key) <==> HasKey(t[1..], key) by {
        if HasKey(t, key) {
          var i :| 0 <= i < |t| && t[i].0 == key;
          assert t[1..][i - 1].0 == key;
        }
        if HasKey(t[1..], key) {
          var i :| 0 <= i < |t[1..]| && t[1..][i].0 == key;
          assert t[i + 1].0 == key;
        }
      }
      r
  }

  /** The `foreach` of the constructor: the name of the first entry numbered `v`. */
  function NameOf(t: Table, v: int): (r: Option<string>)
    ensures r.Some? <==> HasValue(t, v)
    ensures r.Some? ==> (r.value, v) in t
  {
    if t == [] then None
    else if t[0].1 == v then Some(t[0].0)
    else
      var r := NameOf(t[1..], v);
      assert HasValue(t, v) <==> HasValue(t[1..], v) by {
        if HasValue(t, v) {
          var i :| 0 <= i < |t| && t[i].1 == v;
          assert t[1..][i - 1].1 == v;
        }
        if HasValue(t[1..], v) {
          var i :| 0 <= i < |t[1..]| && t[1..][i].1 == v;
          assert t[i + 1].1 == v;
        }
      }
      r
  }

  /** The `foreach` of `validValue`: whether some entry is numbered `v`. */
  function AnyValue(t: Table, v: int): (r: bool)
    ensures r <==> HasValue(t, v)
  {
    if t == [] then false
    else if t[0].1 == v then true
    else
      assert HasValue(t, v) <==> HasValue(t[1..], v) by {
        if HasValue(t, v) {
          var i :| 0 <= i < |t| && t[i].1 == v;
          assert t[1..][i - 1].1 == v;
        }
        if HasValue(t[1..], v) {
          var i :| 0 <= i < |t[1..]| && t[1..][i].1 == v;
          assert t[i + 1].1 == v;
        }
      }
      AnyValue(t[1..], v)
  }

  /** In a table without repeats, the name found for a number leads back to that number. */
  lemma NameThenValue(t: Table, v: int)
    requires Unique(t)
    requires HasValue(t, v)
    ensures NameOf(t, v).Some? && ValueOf(t, NameOf(t, v).value) == Some(v)
  {
    var n := NameOf(t, v).value;
    assert HasKey(t, n) by {
      var i :| 0 <= i < |t| && t[i] == (n, v);
    }
    var w := ValueOf(t, n).value;
    var i :| 0 <= i < |t| && t[i] == (n, v);
    var j :| 0 <= j < |t| && t[j] == (n, w);
    assert i == j;
  }

  /** In a table without repeats, the number found for a name leads back to that name. */
  lemma ValueThenName(t: Table, key: string)
    requires Unique(t)
    requires HasKey(t, key)
    ensures ValueOf(t, key).Some? && NameOf(t, ValueOf(t, key).value) == Some(key)
  {
    var v := ValueOf(t, key).value;
    assert HasValue(t, v) by {
      var i :| 0 <= i < |t| && t[i] == (key, v);
    }
    var m := NameOf(t, v).value;
    var i :| 0 <= i < |t| && t[i] == (key, v);
    var j :| 0 <= j < |t| && t[j] == (m, v);
    assert i == j;
  }
}
