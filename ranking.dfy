/** `top_candidates`: the entries of the weight table in descending order of
    weight (Python's `sorted(..., reverse=True)`, which is stable), cut with
    the slice `[:n]`. */
module Ranking {
  import opened Dicts

  type Candidate = (string, real)

  /** `d.items()`, in iteration order. */
  function Items(d: Dict<real>): (r: seq<Candidate>)
    requires d.Valid()
    ensures |r| == |d.keys|
    ensures forall i :: 0 <= i < |r| ==> r[i] == (d.keys[i], d.values[d.keys[i]])
  {
    seq(|d.keys|, i requires 0 <= i < |d.keys| => (d.keys[i], d.values[d.keys[i]]))
  }

  predicate Descending(s: seq<Candidate>)
  {
    forall i, j :: 0 <= i < j < |s| ==> s[i].1 >= s[j].1
  }

  /** The entries of weight exactly `v`, in order. A stable sort keeps each of
      these subsequences as it was. */
  function WithWeight(s: seq<Candidate>, v: real): seq<Candidate>
  {
    if s == [] then [] else (if s[0].1 == v then [s[0]] else []) + WithWeight(s[1..], v)
  }

  /** Places `x` after every entry at least as heavy, so earlier entries of
      equal weight stay first. */
  function Insert(x: Candidate, s: seq<Candidate>): seq<Candidate>
  {
    if s == [] then [x]
    else if s[0].1 < x.1 then [x] + s
    else [s[0]] + Insert(x, s[1..])
  }

  /** Stable sort by descending weight: inserts the entries left to right. */
  function SortDesc(s: seq<Candidate>): seq<Candidate>
  {
    if s == [] then [] else Insert(s[|s| - 1], SortDesc(s[..|s| - 1]))
  }

  /** The length Python's slice `[:n]` keeps of a sequence of length `len`. */
  function SliceEnd(n: int, len: nat): (e: nat)
    ensures e <= len
    ensures n >= 0 ==> e == if n < len then n else len
    ensures n < 0 ==> e == if len + n > 0 then len + n else 0
  {
    if n >= 0 then (if n < len then n else len)
    else if len + n > 0 then len + n else 0
  }

  /** `sorted(d.items(), key=lambda x: x[1], reverse=True)[:n]` */
  function Top(d: Dict<real>, n: int): seq<Candidate>
    requires d.Valid()
  {
    var sorted := SortDesc(Items(d));
    SortDescFacts(Items(d));
    sorted[..SliceEnd(n, |sorted|)]
  }

  // ---------------------------------------------------------------------------
  // Properties of the stable sort

  lemma {:induction false} WithWeightAppend(a: seq<Candidate>, b: seq<Candidate>, v: real)
    ensures WithWeight(a + b, v) == WithWeight(a, v) + WithWeight(b, v)
  {
    if a == [] {
      assert a + b == b;
    } else {
      var ab := a + b;
      assert ab[0] == a[0] && ab[1..] == a[1..] + b;
      var head := if a[0].1 == v then [a[0]] else [];
      assert WithWeight(ab, v) == head + WithWeight(a[1..] + b, v);
      WithWeightAppend(a[1..], b, v);
      assert WithWeight(a, v) == head + WithWeight(a[1..], v);
    }
  }

  lemma {:induction false} WithWeightNone(s: seq<Candidate>, v: real)
    requires forall i :: 0 <= i < |s| ==> s[i].1 != v
    ensures WithWeight(s, v) == []
  {
    if s != [] {
      WithWeightNone(s[1..], v);
    }
  }

  /** Inserting adds exactly `x`. */
  lemma {:induction false} InsertMultiset(x: Candidate, s: seq<Candidate>)
    ensures multiset(Insert(x, s)) == multiset(s) + multiset{x}
  {
    if s != [] && s[0].1 >= x.1 {
      InsertMultiset(x, s[1..]);
      assert s == [s[0]] + s[1..];
    }
  }

  /** Inserting into a descending sequence keeps it descending. */
  lemma {:induction false} InsertDescending(x: Candidate, s: seq<Candidate>)
    requires Descending(s)
    ensures Descending(Insert(x, s))
  {
    if s != [] && s[0].1 >= x.1 {
      var rest := Insert(x, s[1..]);
      InsertDescending(x, s[1..]);
      InsertMultiset(x, s[1..]);
      var r := [s[0]] + rest;
      forall i, j | 0 <= i < j < |r|
        ensures r[i].1 >= r[j].1
      {
        if i == 0 {
          assert r[j] in multiset(rest);
        }
      }
    }
  }

  /** `x` goes after the entries of its own weight already there. */
  lemma {:induction false} InsertWithWeight(x: Candidate, s: seq<Candidate>, v: real)
    requires Descending(s)
    ensures WithWeight(Insert(x, s), v) == WithWeight(s, v) + (if x.1 == v then [x] else [])
  {
    if s == [] {
    } else if s[0].1 < x.1 {
      var r := Insert(x, s);
      assert r == [x] + s && r[0] == x && r[1..] == s;
      if x.1 == v {
        forall i | 0 <= i < |s|
          ensures s[i].1 != v
        {
          assert i == 0 || s[0].1 >= s[i].1;
        }
        WithWeightNone(s, v);
      }
      assert WithWeight(r, v) == (if x.1 == v then [x] else []) + WithWeight(s, v);
    } else {
      var tail := s[1..];
      assert Descending(tail) by {
        forall i, j | 0 <= i < j < |tail|
          ensures tail[i].1 >= tail[j].1
        {
          assert tail[i] == s[i + 1] && tail[j] == s[j + 1];
        }
      }
      InsertWithWeight(x, tail, v);
      var r := Insert(x, s);
      assert r == [s[0]] + Insert(x, tail) && r[0] == s[0] && r[1..] == Insert(x, tail);
      var head := if s[0].1 == v then [s[0]] else [];
      assert WithWeight(r, v) == head + WithWeight(Insert(x, tail), v);
      assert WithWeight(s, v) == head + WithWeight(tail, v);
    }
  }

  /** The sort is descending. */
  lemma {:induction false} SortDescDescending(s: seq<Candidate>)
    ensures Descending(SortDesc(s))
  {
    if s != [] {
      var n := |s| - 1;
      SortDescDescending(s[..n]);
      InsertDescending(s[n], SortDesc(s[..n]));
    }
  }

  /** The sort is a permutation of its input. */
  lemma {:induction false} SortDescPermutes(s: seq<Candidate>)
    ensures multiset(SortDesc(s)) == multiset(s)
  {
    if s != [] {
      var n := |s| - 1;
      SortDescPermutes(s[..n]);
      InsertMultiset(s[n], SortDesc(s[..n]));
      assert s == s[..n] + [s[n]];
    }
  }

  /** The sort is stable: the entries of each weight keep their input order. */
  lemma {:induction false} SortDescStable(s: seq<Candidate>, v: real)
    ensures WithWeight(SortDesc(s), v) == WithWeight(s, v)
  {
    if s != [] {
      var n := |s| - 1;
      SortDescStable(s[..n], v);
      SortDescDescending(s[..n]);
      InsertWithWeight(s[n], SortDesc(s[..n]), v);
      assert s == s[..n] + [s[n]];
      WithWeightAppend(s[..n], [s[n]], v);
    }
  }

  lemma SortDescFacts(s: seq<Candidate>)
    ensures Descending(SortDesc(s))
    ensures multiset(SortDesc(s)) == multiset(s)
    ensures forall v :: WithWeight(SortDesc(s), v) == WithWeight(s, v)
  {
    SortDescDescending(s);
    SortDescPermutes(s);
    forall v ensures WithWeight(SortDesc(s), v) == WithWeight(s, v) {
      SortDescStable(s, v);
    }
  }

  /** `top_candidates(n)` keeps the slice length, lists real entries of the
      table in descending order, leaves out nothing heavier than what it
      lists, and among equal weights lists the earliest entries first. */
  lemma TopFacts(d: Dict<real>, n: int)
    requires d.Valid()
    ensures |Top(d, n)| == SliceEnd(n, |d.keys|)
    ensures Descending(Top(d, n))
    ensures forall i :: 0 <= i < |Top(d, n)| ==> Top(d, n)[i].0 in d.values && Top(d, n)[i].1 == d.values[Top(d, n)[i].0]
    ensures forall k, i :: k in d.values && 0 <= i < |Top(d, n)| && (forall j :: 0 <= j < |Top(d, n)| ==> Top(d, n)[j].0 != k) ==>
      d.values[k] <= Top(d, n)[i].1
    ensures forall v :: WithWeight(Top(d, n), v) <= WithWeight(Items(d), v)
  {
    var items := Items(d);
    var sorted := SortDesc(items);
    SortDescFacts(items);
    assert |sorted| == |items| by {
      assert |multiset(sorted)| == |multiset(items)|;
    }
    var m := SliceEnd(n, |sorted|);
    PrefixEntries(d, sorted, m);
    PrefixLeavesNothingHeavier(d, sorted, Top(d, n));
    PrefixStable(items, sorted, m);
  }

  lemma PrefixEntries(d: Dict<real>, sorted: seq<Candidate>, m: nat)
    requires d.Valid() && multiset(sorted) == multiset(Items(d)) && m <= |sorted|
    ensures forall i :: 0 <= i < m ==> sorted[i].0 in d.values && sorted[i].1 == d.values[sorted[i].0]
  {
    forall i | 0 <= i < m
      ensures sorted[i].0 in d.values && sorted[i].1 == d.values[sorted[i].0]
    {
      assert sorted[i] in multiset(Items(d));
    }
  }

  lemma PrefixLeavesNothingHeavier(d: Dict<real>, sorted: seq<Candidate>, r: seq<Candidate>)
    requires d.Valid() && multiset(sorted) == multiset(Items(d))
    requires Descending(sorted) && r <= sorted
    ensures forall k, i :: k in d.values && 0 <= i < |r| && (forall j :: 0 <= j < |r| ==> r[j].0 != k) ==>
      d.values[k] <= r[i].1
  {
    var items := Items(d);
    var m := |r|;
    assert forall k :: k in d.values ==> k in d.keys by {
      ListsDomain(d);
    }
    forall k, i | k in d.values && 0 <= i < m && (forall j :: 0 <= j < m ==> r[j].0 != k)
      ensures d.values[k] <= r[i].1
    {
      var p :| 0 <= p < |d.keys| && d.keys[p] == k;
      assert items[p] in multiset(sorted);
      var q :| 0 <= q < |sorted| && sorted[q] == items[p];
      assert q >= m;
    }
  }

  lemma PrefixStable(items: seq<Candidate>, sorted: seq<Candidate>, m: nat)
    requires m <= |sorted|
    requires forall v :: WithWeight(sorted, v) == WithWeight(items, v)
    ensures forall v :: WithWeight(sorted[..m], v) <= WithWeight(items, v)
  {
    forall v ensures WithWeight(sorted[..m], v) <= WithWeight(items, v) {
      assert sorted == sorted[..m] + sorted[m..];
      WithWeightAppend(sorted[..m], sorted[m..], v);
    }
  }
}
