/**
 * The dictionary `this.routes` of `lib/http.js`: route pattern to resource
 * name. `define` writes `definition.routes.query` unchecked; assuming that
 * callers give queries beginning with '/' (or none, which gives "undefined"),
 * no key looks like an array index and JavaScript visits the keys in the
 * order they were first written. The dictionary is therefore modelled as a
 * sequence of entries in that order. Assigning a key that is present replaces
 * its value where it stands; assigning a new key appends it.
 */
module RouteTable {
  import opened Wrappers

  datatype Entry = Entry(pattern: string, name: string)

  type Table = seq<Entry>

  /** The keys of the dictionary, in iteration order. */
  function Patterns(t: Table): (ks: seq<string>)
    ensures |ks| == |t|
    ensures forall i :: 0 <= i < |t| ==> ks[i] == t[i].pattern
  {
    seq(|t|, i requires 0 <= i < |t| => t[i].pattern)
  }

  /** A dictionary holds each key once. */
  ghost predicate Keyed(t: Table) {
    forall i, j :: 0 <= i < j < |t| ==> t[i].pattern != t[j].pattern
  }

  /** Position of `key`, or |t| when it is absent. */
  function IndexOf(t: Table, key: string): (k: nat)
    ensures k <= |t|
    ensures k < |t| ==> t[k].pattern == key
    ensures forall j :: 0 <= j < k ==> t[j].pattern != key
  {
    if t == [] then 0
    else if t[0].pattern == key then 0
    else 1 + IndexOf(t[1..], key)
  }

  /** `this.routes[key]`. */
  function Get(t: Table, key: string): Option<string> {
    var k := IndexOf(t, key);
    if k < |t| then Some(t[k].name) else None
  }

  /** `this.routes[key] = name`. */
  function Put(t: Table, key: string, name: string): Table {
    var k := IndexOf(t, key);
    if k < |t| then t[k := Entry(key, name)] else t + [Entry(key, name)]
  }

  /**
   * Reference meaning of a table: the plain map obtained by performing its
   * assignments one after the other.
   */
  function AsMap(t: Table): map<string, string> {
    if t == [] then map[]
    else AsMap(t[..|t| - 1])[t[|t| - 1].pattern := t[|t| - 1].name]
  }

  /** In a dictionary, reading the key of an entry gives that entry's value. */
  lemma GetAt(t: Table, i: nat)
    requires Keyed(t) && i < |t|
    ensures Get(t, t[i].pattern) == Some(t[i].name)
  {
    var k := IndexOf(t, t[i].pattern);
    assert !(k < i) && !(i < k);
  }

  /** A read is defined exactly for the keys present, and then gives the value of an entry under that key. */
  lemma GetDefined(t: Table, key: string)
    ensures Get(t, key).Some? <==> key in Patterns(t)
    ensures Get(t, key).Some? ==> Entry(key, Get(t, key).value) in t
  {
    var k := IndexOf(t, key);
    if key in Patterns(t) {
      var i :| 0 <= i < |t| && Patterns(t)[i] == key;
      assert k <= i;
    }
    if k < |t| {
      assert Patterns(t)[k] == key;
    }
  }

  /** Reading the written key gives the written value; every other key reads as before. */
  lemma PutGet(t: Table, key: string, name: string, other: string)
    ensures Get(Put(t, key, name), key) == Some(name)
    ensures other != key ==> Get(Put(t, key, name), other) == Get(t, other)
  {
    var r := Put(t, key, name);
    var kk := IndexOf(t, key);
    assert r[kk].pattern == key;
    assert IndexOf(r, key) == kk;
    if other != key {
      var k := IndexOf(t, other);
      var i := IndexOf(r, other);
      assert forall j :: 0 <= j < |r| ==> (r[j].pattern == other <==> j < |t| && t[j].pattern == other);
      if k < |t| {
        assert r[k].pattern == other;
        assert !(i < k) && !(k < i);
      } else {
        assert i == |r|;
      }
    }
  }

  lemma {:induction false} PutKeepsKeyed(t: Table, key: string, name: string)
    requires Keyed(t)
    ensures Keyed(Put(t, key, name))
  {
  }

  /** A present key keeps its position; a new key goes last. */
  lemma PutOrder(t: Table, key: string, name: string)
    ensures Patterns(Put(t, key, name)) == if key in Patterns(t) then Patterns(t) else Patterns(t) + [key]
  {
    var k := IndexOf(t, key);
    if key in Patterns(t) {
      var i :| 0 <= i < |t| && Patterns(t)[i] == key;
      assert k <= i;
    } else {
      assert k == |t|;
    }
  }

  /** A key that is absent is appended. */
  lemma PutAbsent(t: Table, key: string, name: string)
    requires forall e :: e in t ==> e.pattern != key
    ensures Put(t, key, name) == t + [Entry(key, name)]
  {
  }

  /** Every entry of the new table is the written one or an entry of the old table. */
  lemma PutEntries(t: Table, key: string, name: string)
    ensures Entry(key, name) in Put(t, key, name)
    ensures forall e :: e in Put(t, key, name) && e.pattern != key ==> e in t
    ensures forall e :: e in t && e.pattern != key ==> e in Put(t, key, name)
  {
    var r := Put(t, key, name);
    var k := IndexOf(t, key);
    assert r[k] == Entry(key, name);
    forall e | e in r && e.pattern != key ensures e in t {
      var i :| 0 <= i < |r| && r[i] == e;
      assert i != k && t[i] == e;
    }
    forall e | e in t && e.pattern != key ensures e in r {
      var i :| 0 <= i < |t| && t[i] == e;
      assert i != k && r[i] == e;
    }
  }

  lemma {:induction false} AsMapDomain(t: Table)
    ensures AsMap(t).Keys == set i | 0 <= i < |t| :: t[i].pattern
  {
    if t != [] {
      var front := t[..|t| - 1];
      AsMapDomain(front);
      assert forall i :: 0 <= i < |front| ==> front[i] == t[i];
    }
  }

  /** Replacing the value of a key that occurs once is a map update. */
  lemma {:induction false} AsMapReplace(t: Table, k: nat, name: string)
    requires Keyed(t) && k < |t|
    ensures AsMap(t[k := Entry(t[k].pattern, name)]) == AsMap(t)[t[k].pattern := name]
    decreases |t|
  {
    var key := t[k].pattern;
    var u := t[k := Entry(key, name)];
    var front := t[..|t| - 1];
    var last := t[|t| - 1];
    if k == |t| - 1 {
      assert u[..|u| - 1] == front;
    } else {
      assert u[..|u| - 1] == front[k := Entry(key, name)];
      assert u[|u| - 1] == last;
      assert last.pattern != key;
      AsMapReplace(front, k, name);
    }
  }

  /** `Put` performs a dictionary assignment. */
  lemma PutIsAssignment(t: Table, key: string, name: string)
    requires Keyed(t)
    ensures AsMap(Put(t, key, name)) == AsMap(t)[key := name]
  {
    var k := IndexOf(t, key);
    if k < |t| {
      AsMapReplace(t, k, name);
    } else {
      var r := t + [Entry(key, name)];
      assert r[..|r| - 1] == t;
    }
  }

  /** `Get` reads the dictionary the table stands for. */
  lemma {:induction false} GetReadsMap(t: Table, key: string)
    requires Keyed(t)
    ensures Get(t, key) == if key in AsMap(t) then Some(AsMap(t)[key]) else None
    decreases |t|
  {
    if t != [] {
      var front := t[..|t| - 1];
      var last := t[|t| - 1];
      assert Keyed(front);
      GetReadsMap(front, key);
      var k := IndexOf(t, key);
      if last.pattern == key {
        assert k == |t| - 1;
        assert IndexOf(front, key) == |front|;
      } else {
        assert forall j :: 0 <= j < |front| ==> front[j] == t[j];
        if k < |front| {
          assert IndexOf(front, key) == k;
        } else {
          assert IndexOf(front, key) == |front|;
        }
      }
    }
  }
}
