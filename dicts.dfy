/**
 * Python's `dict` as the governor uses it: a finite map whose keys also
 * remember the order in which they were first inserted, because iterating
 * `items()` decides the order in which commands are issued.
 */
module Dicts {

  datatype Dict<K(==), V> = Dict(order: seq<K>, entries: map<K, V>) {

    /** Keys are listed once each, and exactly the mapped keys are listed. */
    ghost predicate Valid() {
      && (forall i, j :: 0 <= i < j < |order| ==> order[i] != order[j])
      && (forall k :: k in entries ==> k in order)
      && (forall i :: 0 <= i < |order| ==> order[i] in entries)
    }

    /** `d[k] = v`: an existing key keeps its place, a new key goes last. */
    function Put(k: K, v: V): (r: Dict<K, V>)
      requires Valid()
      ensures r.Valid()
      ensures r.entries == entries[k := v]
      ensures r.order == if k in entries then order else order + [k]
    {
      if k in entries then Dict(order, entries[k := v]) else Dict(order + [k], entries[k := v])
    }

    /** `for k, v in pairs: d[k] = v`. */
    function PutAll(pairs: seq<(K, V)>): (r: Dict<K, V>)
      requires Valid()
      ensures r.Valid()
      decreases |pairs|
    {
      if pairs == [] then this else Put(pairs[0].0, pairs[0].1).PutAll(pairs[1..])
    }

    /** `d[k]` on a `defaultdict`, or `d.get(k, default)`. */
    function GetOr(k: K, default: V): V {
      if k in entries then entries[k] else default
    }
  }

  function Empty<K(==), V>(): (d: Dict<K, V>)
    ensures d.Valid() && d.order == [] && d.entries == map[]
  {
    Dict([], map[])
  }

  /** `dict(pairs)`: insert the pairs left to right into an empty dictionary. */
  function FromPairs<K(==), V>(ps: seq<(K, V)>): (d: Dict<K, V>)
    ensures d.Valid()
  {
    Empty().PutAll(ps)
  }

  /** Three distinct keys inserted into an empty dictionary, in order. */
  lemma PutThree<K, V>(k1: K, v1: V, k2: K, v2: V, k3: K, v3: V)
    requires k1 != k2 && k1 != k3 && k2 != k3
    ensures var d := Empty<K, V>().Put(k1, v1).Put(k2, v2).Put(k3, v3);
      && d.order == [k1, k2, k3]
      && k1 in d.entries && k2 in d.entries && k3 in d.entries
      && d.entries[k1] == v1 && d.entries[k2] == v2 && d.entries[k3] == v3
  {
    var d1 := Empty<K, V>().Put(k1, v1);
    PutFresh(Empty(), k1, v1);
    assert k2 !in d1.entries && k3 !in d1.entries;
    var d2 := d1.Put(k2, v2);
    PutFresh(d1, k2, v2);
    assert k3 !in d2.entries;
    var d3 := d2.Put(k3, v3);
    PutFresh(d2, k3, v3);
    SeqOfThree(d3.order, k1, k2, k3);
  }

  /** A new key goes last and maps to its value; the other keys keep theirs. */
  lemma PutFresh<K, V>(d: Dict<K, V>, k: K, v: V)
    requires d.Valid() && k !in d.entries
    ensures d.Put(k, v).order == d.order + [k]
    ensures forall x :: x in d.Put(k, v).entries <==> x == k || x in d.entries
    ensures k in d.Put(k, v).entries && d.Put(k, v).entries[k] == v
    ensures forall x :: x in d.entries ==> d.Put(k, v).entries[x] == d.entries[x]
  {
  }

  lemma SeqOfThree<K>(s: seq<K>, a: K, b: K, c: K)
    requires |s| == 3 && s[0] == a && s[1] == b && s[2] == c
    ensures s == [a, b, c]
  {
  }

  /** Inserting two runs of pairs is inserting their concatenation. */
  lemma {:induction false} PutAllAppend<K, V>(d: Dict<K, V>, xs: seq<(K, V)>, ys: seq<(K, V)>)
    requires d.Valid()
    ensures d.PutAll(xs + ys) == d.PutAll(xs).PutAll(ys)
    decreases |xs|
  {
    if xs != [] {
      assert (xs + ys)[0] == xs[0] && (xs + ys)[1..] == xs[1..] + ys;
      PutAllAppend(d.Put(xs[0].0, xs[0].1), xs[1..], ys);
    } else {
      assert xs + ys == ys;
    }
  }

  /** Inserting pairs one by one into `dict(pre)` gives `dict(pre + rest)`. */
  lemma PutAllFromPairs<K, V>(pre: seq<(K, V)>, rest: seq<(K, V)>)
    ensures FromPairs(pre).PutAll(rest) == FromPairs(pre + rest)
  {
    PutAllAppend(Empty(), pre, rest);
  }

  /** `dict(ps + [(k, v)])` is `dict(ps)` with `k` set to `v`. */
  lemma FromPairsSnoc<K, V>(ps: seq<(K, V)>, k: K, v: V)
    ensures FromPairs(ps + [(k, v)]) == FromPairs(ps).Put(k, v)
  {
    PutAllAppend(Empty(), ps, [(k, v)]);
    assert FromPairs(ps).PutAll([(k, v)]) == FromPairs(ps).Put(k, v);
  }

  /**
   * After inserting `ps` into `d`: the keys are d's and those of the pairs;
   * a key of the pairs maps to the value of its LAST pair, any other key
   * keeps its value in `d`.
   */
  lemma PutAllLastWins<K, V>(d: Dict<K, V>, ps: seq<(K, V)>)
    requires d.Valid()
    ensures forall i :: 0 <= i < |ps| ==> ps[i].0 in d.PutAll(ps).entries
    ensures forall k :: k in d.PutAll(ps).entries ==> k in d.entries || exists i :: 0 <= i < |ps| && ps[i].0 == k
    ensures forall i :: 0 <= i < |ps| && (forall j :: i < j < |ps| ==> ps[j].0 != ps[i].0) ==>
              d.PutAll(ps).entries[ps[i].0] == ps[i].1
    ensures forall k :: k in d.entries && (forall i :: 0 <= i < |ps| ==> ps[i].0 != k) ==>
              k in d.PutAll(ps).entries && d.PutAll(ps).entries[k] == d.entries[k]
  {
    PutAllEntries(d, ps);
    PairsMapKeys(ps);
    PairsMapLast(ps);
  }

  /** The mapping that the pairs alone define, later pairs overriding earlier ones. */
  ghost function PairsMap<K, V>(ps: seq<(K, V)>): map<K, V>
    decreases |ps|
  {
    if ps == [] then map[] else PairsMap(ps[..|ps| - 1])[ps[|ps| - 1].0 := ps[|ps| - 1].1]
  }

  /** Inserting the pairs overrides `d` with the mapping the pairs define. */
  lemma {:induction false} PutAllEntries<K, V>(d: Dict<K, V>, ps: seq<(K, V)>)
    requires d.Valid()
    ensures d.PutAll(ps).entries == d.entries + PairsMap(ps)
    decreases |ps|
  {
    if ps == [] {
      assert d.entries + map[] == d.entries;
    } else {
      var init, last := ps[..|ps| - 1], ps[|ps| - 1];
      assert ps == init + [last];
      PutAllAppend(d, init, [last]);
      PutAllEntries(d, init);
      var e := d.PutAll(init);
      assert [last][1..] == [];
      assert e.PutAll([last]) == e.Put(last.0, last.1);
      UnionUpdate(d.entries, PairsMap(init), last.0, last.1);
    }
  }

  lemma UnionUpdate<K, V>(m: map<K, V>, p: map<K, V>, k: K, v: V)
    ensures (m + p)[k := v] == m + p[k := v]
  {
    var a, b := (m + p)[k := v], m + p[k := v];
    assert a.Keys == b.Keys;
    forall x | x in a ensures a[x] == b[x] {
    }
  }

  lemma {:induction false} PairsMapKeys<K, V>(ps: seq<(K, V)>)
    ensures forall i :: 0 <= i < |ps| ==> ps[i].0 in PairsMap(ps)
    ensures forall k :: k in PairsMap(ps) ==> exists i :: 0 <= i < |ps| && ps[i].0 == k
    decreases |ps|
  {
    if ps != [] {
      var init := ps[..|ps| - 1];
      PairsMapKeys(init);
      forall k | k in PairsMap(ps)
        ensures exists i :: 0 <= i < |ps| && ps[i].0 == k
      {
        if k != ps[|ps| - 1].0 {
          var i :| 0 <= i < |init| && init[i].0 == k;
          assert ps[i] == init[i];
        }
      }
      forall i | 0 <= i < |ps| ensures ps[i].0 in PairsMap(ps) {
        if i < |init| { assert ps[i] == init[i]; }
      }
    }
  }

  lemma {:induction false} PairsMapLast<K, V>(ps: seq<(K, V)>)
    ensures forall i :: 0 <= i < |ps| && (forall j :: i < j < |ps| ==> ps[j].0 != ps[i].0) ==>
              ps[i].0 in PairsMap(ps) && PairsMap(ps)[ps[i].0] == ps[i].1
    decreases |ps|
  {
    if ps != [] {
      var init := ps[..|ps| - 1];
      PairsMapLast(init);
      forall i | 0 <= i < |ps| && (forall j :: i < j < |ps| ==> ps[j].0 != ps[i].0)
        ensures ps[i].0 in PairsMap(ps) && PairsMap(ps)[ps[i].0] == ps[i].1
      {
        if i < |init| {
          assert ps[i] == init[i];
          assert ps[|ps| - 1].0 != ps[i].0;
          forall j | i < j < |init| ensures init[j].0 != init[i].0 {
            assert init[j] == ps[j];
          }
        }
      }
    }
  }

  /**
   * `dict(pairs)` holds exactly the keys of the pairs, and each key maps to
   * the value of its LAST pair: a later duplicate overwrites an earlier one.
   */
  lemma FromPairsLastWins<K, V>(ps: seq<(K, V)>)
    ensures forall i :: 0 <= i < |ps| ==> ps[i].0 in FromPairs(ps).entries
    ensures forall k :: k in FromPairs(ps).entries ==> exists i :: 0 <= i < |ps| && ps[i].0 == k
    ensures forall i :: 0 <= i < |ps| && (forall j :: i < j < |ps| ==> ps[j].0 != ps[i].0) ==>
              FromPairs(ps).entries[ps[i].0] == ps[i].1
  {
    PutAllLastWins(Empty(), ps);
  }

  /** Every value of `dict(pairs)` is the value of a pair with that key. */
  lemma FromPairsValues<K, V>(ps: seq<(K, V)>)
    ensures forall k :: k in FromPairs(ps).entries ==>
      exists i :: 0 <= i < |ps| && ps[i] == (k, FromPairs(ps).entries[k])
  {
    var d := FromPairs(ps);
    PutAllLastWins(Empty(), ps);
    forall k | k in d.entries
      ensures exists i :: 0 <= i < |ps| && ps[i] == (k, d.entries[k])
    {
      var i :| 0 <= i < |ps| && ps[i].0 == k;
      var last := LastIndexOf(ps, k, i);
      assert ps[last] == (k, d.entries[k]);
    }
  }

  /** The last index at or after `i` whose pair has key `k`, given that `i`'s does. */
  ghost function LastIndexOf<K, V>(ps: seq<(K, V)>, k: K, i: nat): (j: nat)
    requires i < |ps| && ps[i].0 == k
    ensures i <= j < |ps| && ps[j].0 == k
    ensures forall l :: j < l < |ps| ==> ps[l].0 != k
    decreases |ps| - i
  {
    if exists l :: i < l < |ps| && ps[l].0 == k then
      var l :| i < l < |ps| && ps[l].0 == k;
      LastIndexOf(ps, k, l)
    else i
  }
}
