/** Python's insertion-ordered dictionary with string keys, and sums over its
    real-valued entries. A `Dict` pairs the iteration order `keys` with the
    lookup table `values`; assigning an existing key keeps its position,
    assigning a new key appends it. */
module Dicts {

  datatype Option<T> = None | Some(value: T)

  datatype Dict<V> = Dict(keys: seq<string>, values: map<string, V>) {

    /** Every key is listed once, and exactly the keys of the table are
        listed: each listed key is in the table, and there are as many listed
        keys as table entries (see `ListsDomain`). */
    ghost predicate Valid() {
      && (forall i, j :: 0 <= i < j < |keys| ==> keys[i] != keys[j])
      && (forall i :: 0 <= i < |keys| ==> keys[i] in values)
      && |values| == |keys|
    }

    /** `d[k] = v` */
    function Put(k: string, v: V): (d: Dict<V>)
      requires Valid()
      ensures d.Valid()
      ensures d.values == values[k := v]
      ensures k in values ==> d.keys == keys
      ensures k !in values ==> d.keys == keys + [k]
    {
      if k in values then Dict(keys, values[k := v]) else Dict(keys + [k], values[k := v])
    }
  }

  /** A valid dictionary lists every key of its table. */
  lemma ListsDomain<V>(d: Dict<V>)
    requires d.Valid()
    ensures forall k :: k in d.values <==> k in d.keys
  {
    var listed := Listed(d.keys);
    DistinctCount(d.keys);
    assert listed <= d.values.Keys;
    if !(d.values.Keys <= listed) {
      var x :| x in d.values.Keys && x !in listed;
      SubsetCount(listed, d.values.Keys - {x});
    }
    assert d.values.Keys == listed;
  }

  /** The set of listed keys. */
  ghost function Listed(ks: seq<string>): set<string>
  {
    set i | 0 <= i < |ks| :: ks[i]
  }

  lemma ListedSnoc(ks: seq<string>)
    requires ks != []
    ensures Listed(ks) == Listed(ks[..|ks| - 1]) + {ks[|ks| - 1]}
  {
    var n := |ks| - 1;
    forall x | x in Listed(ks) ensures x in Listed(ks[..n]) + {ks[n]} {
      var i :| 0 <= i < |ks| && ks[i] == x;
      if i < n {
        assert ks[..n][i] == x;
      }
    }
    forall x | x in Listed(ks[..n]) ensures x in Listed(ks) {
      var i :| 0 <= i < n && ks[..n][i] == x;
      assert ks[i] == x;
    }
  }

  lemma {:induction false} DistinctCount(ks: seq<string>)
    requires forall i, j :: 0 <= i < j < |ks| ==> ks[i] != ks[j]
    ensures |Listed(ks)| == |ks|
  {
    if ks != [] {
      var n := |ks| - 1;
      DistinctCount(ks[..n]);
      ListedSnoc(ks);
      assert ks[n] !in Listed(ks[..n]);
    }
  }

  lemma {:induction false} SubsetCount<T>(a: set<T>, b: set<T>)
    requires a <= b
    ensures |a| <= |b|
    decreases |a|
  {
    if a != {} {
      var y :| y in a;
      SubsetCount(a - {y}, b - {y});
    }
  }

  /** The empty dictionary `{}`. */
  function Empty<V>(): (d: Dict<V>)
    ensures d.Valid() && d.keys == [] && d.values == map[]
  {
    Dict([], map[])
  }

  /** `sum(m[k] for k in ks)`, added up in the order of `ks`. */
  function Sum(ks: seq<string>, m: map<string, real>): real
    requires forall k <- ks :: k in m
  {
    if ks == [] then 0.0 else Sum(ks[..|ks| - 1], m) + m[ks[|ks| - 1]]
  }

  /** `sum(d.values())` */
  function Total(d: Dict<real>): real
    requires d.Valid()
  {
    Sum(d.keys, d.values)
  }

  /** `list(d.values())`, in iteration order. */
  function Values(d: Dict<real>): (r: seq<real>)
    requires d.Valid()
    ensures |r| == |d.keys|
    ensures forall i :: 0 <= i < |r| ==> r[i] == d.values[d.keys[i]]
  {
    seq(|d.keys|, i requires 0 <= i < |d.keys| => d.values[d.keys[i]])
  }

  /** The sum only looks at the listed keys. */
  lemma {:induction false} SumAgree(ks: seq<string>, m1: map<string, real>, m2: map<string, real>)
    requires forall k <- ks :: k in m1 && k in m2 && m1[k] == m2[k]
    ensures Sum(ks, m1) == Sum(ks, m2)
  {
    if ks != [] {
      SumAgree(ks[..|ks| - 1], m1, m2);
    }
  }

  /** Scaling every listed entry by `c` scales the sum by `c`. */
  lemma {:induction false} SumScale(ks: seq<string>, m: map<string, real>, c: real, mc: map<string, real>)
    requires forall k <- ks :: k in m && k in mc && mc[k] == m[k] * c
    ensures Sum(ks, mc) == Sum(ks, m) * c
  {
    if ks != [] {
      SumScale(ks[..|ks| - 1], m, c, mc);
    }
  }

  /** Adding two tables entry by entry adds their sums. */
  lemma {:induction false} SumAdd(ks: seq<string>, m1: map<string, real>, m2: map<string, real>, m: map<string, real>)
    requires forall k <- ks :: k in m1 && k in m2 && k in m && m[k] == m1[k] + m2[k]
    ensures Sum(ks, m) == Sum(ks, m1) + Sum(ks, m2)
  {
    if ks != [] {
      SumAdd(ks[..|ks| - 1], m1, m2, m);
    }
  }

  /** A constant table sums to the number of keys times the constant. */
  lemma {:induction false} SumConst(ks: seq<string>, m: map<string, real>, c: real)
    requires forall k <- ks :: k in m && m[k] == c
    ensures Sum(ks, m) == |ks| as real * c
  {
    if ks != [] {
      SumConst(ks[..|ks| - 1], m, c);
    }
  }

  /** Non-negative entries have a non-negative sum; positive entries over a
      non-empty key list have a positive sum. */
  lemma {:induction false} SumSign(ks: seq<string>, m: map<string, real>)
    requires forall k <- ks :: k in m && m[k] >= 0.0
    ensures Sum(ks, m) >= 0.0
    ensures ks != [] && (forall k <- ks :: m[k] > 0.0) ==> Sum(ks, m) > 0.0
  {
    if ks != [] {
      SumSign(ks[..|ks| - 1], m);
    }
  }

  /** Replacing the entry of a key listed once changes the sum by the
      difference. */
  lemma {:induction false} SumReplace(ks: seq<string>, m: map<string, real>, k: string, v: real)
    requires forall i, j :: 0 <= i < j < |ks| ==> ks[i] != ks[j]
    requires forall k' <- ks :: k' in m
    requires k in ks
    ensures Sum(ks, m[k := v]) == Sum(ks, m) - m[k] + v
  {
    var n := |ks| - 1;
    var front := ks[..n];
    if ks[n] == k {
      assert k !in front;
      SumAgree(front, m[k := v], m);
    } else {
      assert k in front;
      SumReplace(front, m, k, v);
    }
  }

  /** `d[k] = v` on totals: a new key adds its value, an existing key has its
      old value replaced by the new one. */
  lemma TotalPut(d: Dict<real>, k: string, v: real)
    requires d.Valid()
    ensures k !in d.values ==> Total(d.Put(k, v)) == Total(d) + v
    ensures k in d.values ==> Total(d.Put(k, v)) == Total(d) - d.values[k] + v
  {
    var r := d.Put(k, v);
    ListsDomain(d);
    if k !in d.values {
      assert r.keys[..|d.keys|] == d.keys;
      SumAgree(d.keys, r.values, d.values);
    } else {
      SumReplace(d.keys, d.values, k, v);
    }
  }

  // ---------------------------------------------------------------------------
  // Loops over a dictionary, one key at a time

  /** `{k: f(k, v) for k, v in d.items()}` */
  function MapAll(d: Dict<real>, f: (string, real) -> real): (r: Dict<real>)
    requires d.Valid()
    ensures r.Valid() && r.keys == d.keys
  {
    var m := map k | k in d.values :: f(k, d.values[k]);
    assert m.Keys == d.values.Keys;
    Dict(d.keys, m)
  }

  /** The table once `for k in d: d[k] = f(k, d[k])` has visited the first `i` keys. */
  function MapFirst(d: Dict<real>, f: (string, real) -> real, i: nat): (r: Dict<real>)
    requires d.Valid() && i <= |d.keys|
    ensures r.Valid() && r.keys == d.keys
  {
    if i == 0 then d
    else
      var prev := MapFirst(d, f, i - 1);
      var k := d.keys[i - 1];
      prev.Put(k, f(k, prev.values[k]))
  }

  /** One more step of the loop writes `f` of the next key's current value. */
  lemma MapFirstPut(d: Dict<real>, f: (string, real) -> real, i: nat, acc: Dict<real>, k: string, v: real)
    requires d.Valid() && i < |d.keys|
    requires acc == MapFirst(d, f, i) && k == d.keys[i] && v == f(k, acc.values[k])
    ensures acc.Put(k, v) == MapFirst(d, f, i + 1)
  {
  }

  /** After `i` steps key `j` holds `f` of its original value if it has been
      visited, and its original value otherwise. */
  lemma {:induction false} MapFirstAt(d: Dict<real>, f: (string, real) -> real, i: nat, j: nat)
    requires d.Valid() && i <= |d.keys| && j < |d.keys|
    ensures j < i ==> MapFirst(d, f, i).values[d.keys[j]] == f(d.keys[j], d.values[d.keys[j]])
    ensures i <= j ==> MapFirst(d, f, i).values[d.keys[j]] == d.values[d.keys[j]]
  {
    if i > 0 {
      var prev := MapFirst(d, f, i - 1);
      var k := d.keys[i - 1];
      assert MapFirst(d, f, i).values == prev.values[k := f(k, prev.values[k])];
      if j == i - 1 {
        MapFirstAt(d, f, i - 1, j);
      } else {
        assert d.keys[j] != k;
        MapFirstAt(d, f, i - 1, j);
      }
    }
  }

  /** Before the loop nothing has changed; after it every entry has. */
  lemma MapFirstEnds(d: Dict<real>, f: (string, real) -> real)
    requires d.Valid()
    ensures MapFirst(d, f, 0) == d
    ensures MapFirst(d, f, |d.keys|) == MapAll(d, f)
  {
    var r := MapFirst(d, f, |d.keys|);
    var m := MapAll(d, f);
    MapFirstAll(d, f);
    SameEntries(r, m);
  }

  lemma MapFirstAll(d: Dict<real>, f: (string, real) -> real)
    requires d.Valid()
    ensures MapFirst(d, f, |d.keys|).values.Keys == d.values.Keys
    ensures forall k :: k in d.values ==> MapFirst(d, f, |d.keys|).values[k] == f(k, d.values[k])
  {
    var r := MapFirst(d, f, |d.keys|);
    assert r.values.Keys == d.values.Keys by {
      ListsDomain(r);
      ListsDomain(d);
    }
    forall k | k in d.values
      ensures r.values[k] == f(k, d.values[k])
    {
      var j := KeyIndex(d, k);
      MapFirstAt(d, f, |d.keys|, j);
    }
  }

  /** The position of a key in the key order. */
  lemma KeyIndex<V>(d: Dict<V>, k: string) returns (j: nat)
    requires d.Valid() && k in d.values
    ensures j < |d.keys| && d.keys[j] == k
  {
    ListsDomain(d);
    j :| 0 <= j < |d.keys| && d.keys[j] == k;
  }

  /** Two dictionaries with the same keys in the same order and the same entries are equal. */
  lemma SameEntries<V>(a: Dict<V>, b: Dict<V>)
    requires a.keys == b.keys && a.values.Keys == b.values.Keys
    requires forall k :: k in a.values ==> a.values[k] == b.values[k]
    ensures a == b
  {
    assert a.values == b.values;
  }

  /** The first `i` entries of `d`, as a dictionary filled in key order. */
  function Prefix<V>(d: Dict<V>, i: nat): (r: Dict<V>)
    requires d.Valid() && i <= |d.keys|
    ensures r.Valid() && r.keys == d.keys[..i]
  {
    if i == 0 then Empty()
    else
      var prev := Prefix(d, i - 1);
      var k := d.keys[i - 1];
      assert k !in prev.values by {
        ListsDomain(prev);
        assert k !in d.keys[..i - 1];
      }
      assert d.keys[..i] == d.keys[..i - 1] + [k];
      prev.Put(k, d.values[k])
  }

  /** Adding the next entry to the first `i` gives the first `i + 1`. */
  lemma PrefixPut<V>(d: Dict<V>, i: nat, acc: Dict<V>, k: string, v: V)
    requires d.Valid() && i < |d.keys|
    requires acc == Prefix(d, i) && k == d.keys[i] && v == d.values[k]
    ensures acc.Put(k, v) == Prefix(d, i + 1)
    ensures k !in acc.values
  {
  }

  /** The prefix holds the entries of `d`. */
  lemma {:induction false} PrefixAgrees<V>(d: Dict<V>, i: nat)
    requires d.Valid() && i <= |d.keys|
    ensures forall k :: k in Prefix(d, i).values ==> k in d.values && Prefix(d, i).values[k] == d.values[k]
  {
    if i > 0 {
      PrefixAgrees(d, i - 1);
    }
  }

  /** Filled with every key, the prefix is `d` itself. */
  lemma PrefixEnds<V>(d: Dict<V>)
    requires d.Valid()
    ensures Prefix(d, |d.keys|) == d
  {
    var r := Prefix(d, |d.keys|);
    assert r.keys == d.keys by {
      assert d.keys[..|d.keys|] == d.keys;
    }
    assert r.values.Keys == d.values.Keys by {
      ListsDomain(r);
      ListsDomain(d);
    }
    PrefixAgrees(d, |d.keys|);
    SameEntries(r, d);
  }
}
