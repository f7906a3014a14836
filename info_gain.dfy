/** Expected information gain of asking an attribute, stated on values.
    The base-2 logarithm is a parameter `log2`; nothing here depends on what
    it computes. */
module InfoGain {
  import opened Dicts
  import opened Catalog
  import opened Update

  /** `yes_post`: each weight times the pest's probability of the attribute. */
  function YesPost(w: Dict<real>, pests: Dict<Pest>, attribute: string): (r: Dict<real>)
    requires Over(w, pests)
    ensures r.Valid() && r.keys == w.keys
  {
    var m := map k | k in w.values :: w.values[k] * AttrProb(pests.values[k], attribute);
    assert m.Keys == w.values.Keys;
    Dict(w.keys, m)
  }

  /** `no_post`: each weight times the complement of that probability. */
  function NoPost(w: Dict<real>, pests: Dict<Pest>, attribute: string): (r: Dict<real>)
    requires Over(w, pests)
    ensures r.Valid() && r.keys == w.keys
  {
    var m := map k | k in w.values :: w.values[k] * (1.0 - AttrProb(pests.values[k], attribute));
    assert m.Keys == w.values.Keys;
    Dict(w.keys, m)
  }

  /** The entry of each posterior for one pest, stated as a lemma so that the
      loop of `expected_entropy_after` does not unfold both comprehensions. */
  lemma PostAt(w: Dict<real>, pests: Dict<Pest>, attribute: string, k: string, prob: real, attrProb: real, yesMass: real, noMass: real)
    requires Over(w, pests) && k in w.values
    requires prob == w.values[k] && attrProb == AttrProb(pests.values[k], attribute)
    requires yesMass == prob * attrProb && noMass == prob * (1.0 - attrProb)
    ensures YesPost(w, pests, attribute).values[k] == yesMass
    ensures NoPost(w, pests, attribute).values[k] == noMass
  {
  }

  /** `[p for p in ps if p > 0]` */
  function Positives(ps: seq<real>): (r: seq<real>)
  {
    if ps == [] then [] else (if ps[0] > 0.0 then [ps[0]] else []) + Positives(ps[1..])
  }

  /** `[v / total for v in vs if v > 0]` */
  function ScaledPositives(vs: seq<real>, total: real): seq<real>
    requires total > 0.0
  {
    if vs == [] then [] else (if vs[0] > 0.0 then [vs[0] / total] else []) + ScaledPositives(vs[1..], total)
  }

  /** `sum(p * log2(p) for p in ps)` */
  function PLogSum(ps: seq<real>, log2: real -> real): real
  {
    if ps == [] then 0.0 else ps[0] * log2(ps[0]) + PLogSum(ps[1..], log2)
  }

  /** `entropy`: minus the sum of p log2 p over the positive entries; 0 when there are none. */
  function Entropy(ps: seq<real>, log2: real -> real): real
  {
    var pos := Positives(ps);
    if pos == [] then 0.0 else -PLogSum(pos, log2)
  }

  /** The entropy of a posterior once divided by its mass; 0 for no mass. */
  function PosteriorEntropy(post: Dict<real>, log2: real -> real): real
    requires post.Valid()
  {
    var mass := Total(post);
    if mass > 0.0 then Entropy(ScaledPositives(Values(post), mass), log2) else 0.0
  }

  /** The information gain `expected_entropy_after` returns: current entropy
      minus the answer-weighted entropies of the two posteriors. */
  function ExpectedGain(w: Dict<real>, pests: Dict<Pest>, attribute: string, log2: real -> real): real
    requires Over(w, pests)
  {
    PosteriorsGain(w, YesPost(w, pests, attribute), NoPost(w, pests, attribute), log2)
  }

  /** The gain of splitting the weights `w` into the posteriors `yes` and `no`. */
  function PosteriorsGain(w: Dict<real>, yes: Dict<real>, no: Dict<real>, log2: real -> real): real
    requires w.Valid() && yes.Valid() && no.Valid()
  {
    Gain(Entropy(Values(w), log2), Total(yes), PosteriorEntropy(yes, log2), Total(no), PosteriorEntropy(no, log2))
  }

  /** `current_H - (P_yes * e_yes + P_no * e_no)` */
  function Gain(current: real, pYes: real, eYes: real, pNo: real, eNo: real): real
  {
    current - (pYes * eYes + pNo * eNo)
  }

  /** The two answer masses add up to the current mass (1 for a distribution). */
  lemma AnswerMassesSplitTotal(w: Dict<real>, pests: Dict<Pest>, attribute: string)
    requires Over(w, pests)
    ensures Total(YesPost(w, pests, attribute)) + Total(NoPost(w, pests, attribute)) == Total(w)
    ensures IsDistribution(w) && w.keys != [] ==>
      Total(YesPost(w, pests, attribute)) + Total(NoPost(w, pests, attribute)) == 1.0
  {
    SumAdd(w.keys, YesPost(w, pests, attribute).values, NoPost(w, pests, attribute).values, w.values);
  }

  /** Attribute probabilities in [0, 1] keep both posteriors and both masses non-negative. */
  lemma PosteriorsNonNegative(w: Dict<real>, pests: Dict<Pest>, attribute: string)
    requires Over(w, pests)
    requires forall k :: k in w.values ==> w.values[k] >= 0.0
    requires forall k :: k in w.values ==> 0.0 <= AttrProb(pests.values[k], attribute) <= 1.0
    ensures forall k :: k in w.values ==> YesPost(w, pests, attribute).values[k] >= 0.0
    ensures forall k :: k in w.values ==> NoPost(w, pests, attribute).values[k] >= 0.0
    ensures Total(YesPost(w, pests, attribute)) >= 0.0 && Total(NoPost(w, pests, attribute)) >= 0.0
  {
    var yes := YesPost(w, pests, attribute);
    var no := NoPost(w, pests, attribute);
    forall k | k in w.values
      ensures yes.values[k] >= 0.0 && no.values[k] >= 0.0
    {
      var a := AttrProb(pests.values[k], attribute);
      var x := w.values[k];
      assert yes.values[k] == x * a && no.values[k] == x * (1.0 - a);
      NonNegativeProduct(x, a);
      NonNegativeProduct(x, 1.0 - a);
    }
    SumSign(yes.keys, yes.values);
    SumSign(no.keys, no.values);
  }

  /** The filter keeps only positive entries and every positive entry, so it
      is empty exactly when no entry is positive, and filtering twice changes
      nothing. How often each is kept is `PositivesCount`. */
  lemma {:induction false} PositivesOnly(ps: seq<real>)
    ensures forall i :: 0 <= i < |Positives(ps)| ==> Positives(ps)[i] > 0.0
    ensures forall i :: 0 <= i < |ps| && ps[i] > 0.0 ==> ps[i] in Positives(ps)
    ensures Positives(ps) == [] <==> forall i :: 0 <= i < |ps| ==> ps[i] <= 0.0
    ensures Positives(Positives(ps)) == Positives(ps)
  {
    if ps != [] {
      PositivesOnly(ps[1..]);
      var rest := Positives(ps[1..]);
      if ps[0] > 0.0 {
        var r := [ps[0]] + rest;
        assert Positives(ps) == r;
        assert r[0] > 0.0 && r[1..] == rest;
        assert Positives(r) == [r[0]] + Positives(r[1..]);
      } else {
        assert Positives(ps) == rest;
      }
    }
  }

  /** Each positive value is kept as many times as it occurs; nothing else
      is kept. */
  lemma {:induction false} PositivesCount(ps: seq<real>)
    ensures forall x :: multiset(Positives(ps))[x] == if x > 0.0 then multiset(ps)[x] else 0
  {
    if ps != [] {
      PositivesCount(ps[1..]);
      assert ps == [ps[0]] + ps[1..];
      if ps[0] > 0.0 {
        assert Positives(ps) == [ps[0]] + Positives(ps[1..]);
      } else {
        assert Positives(ps) == Positives(ps[1..]);
      }
    }
  }

  /** The filter keeps the order: filtering a concatenation concatenates
      the filtered parts. */
  lemma {:induction false} PositivesAppend(a: seq<real>, b: seq<real>)
    ensures Positives(a + b) == Positives(a) + Positives(b)
  {
    if a != [] {
      PositivesAppend(a[1..], b);
      assert (a + b)[1..] == a[1..] + b;
    } else {
      assert a + b == b;
    }
  }

  lemma EntropyOfNoMass(ps: seq<real>, log2: real -> real)
    requires forall i :: 0 <= i < |ps| ==> ps[i] <= 0.0
    ensures Entropy(ps, log2) == 0.0
  {
    PositivesOnly(ps);
  }

  /** Entropy looks only at the positive entries. */
  lemma EntropyIgnoresNonPositive(ps: seq<real>, log2: real -> real)
    ensures Entropy(ps, log2) == Entropy(Positives(ps), log2)
  {
    PositivesOnly(ps);
  }

  /** Scaling by `c > 0` and dividing the positive entries by `c` gives back
      the positive entries. */
  lemma {:induction false} ScaledPositivesOfScaled(vs: seq<real>, us: seq<real>, c: real)
    requires c > 0.0 && |vs| == |us|
    requires forall i :: 0 <= i < |vs| ==> vs[i] == us[i] * c
    ensures ScaledPositives(vs, c) == Positives(us)
  {
    if vs != [] {
      ScaledPositivesOfScaled(vs[1..], us[1..], c);
      assert vs[0] == us[0] * c;
      assert vs[0] > 0.0 <==> us[0] > 0.0;
      assert vs[0] / c == us[0];
    }
  }

  /** `post` lists the keys of `w` with every weight multiplied by `c`. */
  ghost predicate ScaledBy(w: Dict<real>, post: Dict<real>, c: real)
  {
    && w.Valid() && post.Valid() && post.keys == w.keys
    && forall i :: 0 <= i < |w.keys| ==> post.values[w.keys[i]] == w.values[w.keys[i]] * c
  }

  /** A posterior that is the current weights scaled by `c > 0` has, once
      divided by its mass `c`, the current entropy. */
  lemma ScaledPosteriorEntropy(w: Dict<real>, post: Dict<real>, c: real, log2: real -> real)
    requires ScaledBy(w, post, c) && c > 0.0
    ensures Entropy(ScaledPositives(Values(post), c), log2) == Entropy(Values(w), log2)
  {
    var vs, us := Values(post), Values(w);
    assert forall i :: 0 <= i < |vs| ==> vs[i] == us[i] * c;
    ScaledPositivesOfScaled(vs, us, c);
    EntropyIgnoresNonPositive(us, log2);
  }

  /** An attribute every pest has with the same probability `c` carries no
      information: whatever the logarithm, asking it gains nothing. This covers
      an attribute no pest lists (every pest then uses the default 0.5). */
  lemma UninformativeAttributeGainsNothing(w: Dict<real>, pests: Dict<Pest>, attribute: string, c: real, log2: real -> real)
    requires Over(w, pests) && IsDistribution(w)
    requires 0.0 <= c <= 1.0
    requires forall k :: k in w.values ==> AttrProb(pests.values[k], attribute) == c
    ensures ExpectedGain(w, pests, attribute, log2) == 0.0
  {
    if w.keys == [] {
      NoPestsNoGain(w, pests, attribute, log2);
    } else {
      UniformAttributePosteriors(w, pests, attribute, c);
      if c > 0.0 {
        SharedProbabilityYesEntropy(w, pests, attribute, c, log2);
      }
      if c < 1.0 {
        SharedProbabilityNoEntropy(w, pests, attribute, c, log2);
      }
      BalancedPosteriorsNoGain(w, pests, attribute, c, log2);
    }
  }

  lemma NoPestsNoGain(w: Dict<real>, pests: Dict<Pest>, attribute: string, log2: real -> real)
    requires Over(w, pests) && w.keys == []
    ensures ExpectedGain(w, pests, attribute, log2) == 0.0
  {
    var yes := YesPost(w, pests, attribute);
    var no := NoPost(w, pests, attribute);
    assert Values(w) == [];
    assert Total(yes) == 0.0 && Total(no) == 0.0;
  }

  /** Posteriors of masses `c` and `1 - c` that each keep the current entropy gain nothing. */
  lemma BalancedPosteriorsNoGain(w: Dict<real>, pests: Dict<Pest>, attribute: string, c: real, log2: real -> real)
    requires Over(w, pests) && 0.0 <= c <= 1.0
    requires Total(YesPost(w, pests, attribute)) == c && Total(NoPost(w, pests, attribute)) == 1.0 - c
    requires c > 0.0 ==> PosteriorEntropy(YesPost(w, pests, attribute), log2) == Entropy(Values(w), log2)
    requires c < 1.0 ==> PosteriorEntropy(NoPost(w, pests, attribute), log2) == Entropy(Values(w), log2)
    ensures ExpectedGain(w, pests, attribute, log2) == 0.0
  {
    var yes := YesPost(w, pests, attribute);
    var no := NoPost(w, pests, attribute);
    BalancedGain(Entropy(Values(w), log2), Total(yes), PosteriorEntropy(yes, log2), Total(no), PosteriorEntropy(no, log2));
  }

  /** Answer masses `c` and `1 - c`, each answer with mass keeping the entropy `h`, gain nothing. */
  lemma BalancedGain(h: real, pYes: real, eYes: real, pNo: real, eNo: real)
    requires 0.0 <= pYes <= 1.0 && pNo == 1.0 - pYes
    requires pYes > 0.0 ==> eYes == h
    requires pNo > 0.0 ==> eNo == h
    ensures Gain(h, pYes, eYes, pNo, eNo) == 0.0
  {
    if 0.0 < pYes < 1.0 {
      assert pYes * h + pNo * h == h;
    }
  }

  /** Under a probability `c` shared by every pest, the posteriors are the
      current weights scaled by `c` and `1 - c`, with those masses. */
  lemma UniformAttributePosteriors(w: Dict<real>, pests: Dict<Pest>, attribute: string, c: real)
    requires Over(w, pests) && IsDistribution(w) && w.keys != []
    requires forall k :: k in w.values ==> AttrProb(pests.values[k], attribute) == c
    ensures Total(YesPost(w, pests, attribute)) == c && Total(NoPost(w, pests, attribute)) == 1.0 - c
  {
    var t := Total(w);
    assert t == 1.0;
    var y := YesMassScales(w, pests, attribute, c);
    assert y == c;
    AnswerMassesSplitTotal(w, pests, attribute);
  }

  lemma YesMassScales(w: Dict<real>, pests: Dict<Pest>, attribute: string, c: real) returns (mass: real)
    requires Over(w, pests)
    requires forall k :: k in w.values ==> AttrProb(pests.values[k], attribute) == c
    ensures mass == Total(YesPost(w, pests, attribute)) == Total(w) * c
  {
    SumScale(w.keys, w.values, c, YesPost(w, pests, attribute).values);
    mass := Total(YesPost(w, pests, attribute));
  }

  /** Under a shared probability `c`, the "yes" posterior is the current weights scaled by `c`. */
  lemma YesPostScaled(w: Dict<real>, pests: Dict<Pest>, attribute: string, c: real)
    requires Over(w, pests)
    requires forall k :: k in w.values ==> AttrProb(pests.values[k], attribute) == c
    ensures ScaledBy(w, YesPost(w, pests, attribute), c)
  {
    var yes := YesPost(w, pests, attribute);
    forall i | 0 <= i < |w.keys|
      ensures yes.values[w.keys[i]] == w.values[w.keys[i]] * c
    {
      var k := w.keys[i];
      assert AttrProb(pests.values[k], attribute) == c;
    }
  }

  /** Under a shared probability `c`, the "no" posterior is the current weights scaled by `1 - c`. */
  lemma NoPostScaled(w: Dict<real>, pests: Dict<Pest>, attribute: string, c: real)
    requires Over(w, pests)
    requires forall k :: k in w.values ==> AttrProb(pests.values[k], attribute) == c
    ensures ScaledBy(w, NoPost(w, pests, attribute), 1.0 - c)
  {
    var no := NoPost(w, pests, attribute);
    forall i | 0 <= i < |w.keys|
      ensures no.values[w.keys[i]] == w.values[w.keys[i]] * (1.0 - c)
    {
      var k := w.keys[i];
      var a := AttrProb(pests.values[k], attribute);
      assert no.values[k] == w.values[k] * (1.0 - a);
      assert a == c;
    }
  }

  /** Under a shared probability `c > 0`, the "yes" posterior has the current entropy. */
  lemma SharedProbabilityYesEntropy(w: Dict<real>, pests: Dict<Pest>, attribute: string, c: real, log2: real -> real)
    requires Over(w, pests) && c > 0.0
    requires forall k :: k in w.values ==> AttrProb(pests.values[k], attribute) == c
    requires Total(YesPost(w, pests, attribute)) == c
    ensures PosteriorEntropy(YesPost(w, pests, attribute), log2) == Entropy(Values(w), log2)
  {
    YesPostScaled(w, pests, attribute, c);
    SharedProbabilityPosterior(w, YesPost(w, pests, attribute), c, log2);
  }

  /** Under a shared probability `c < 1`, the "no" posterior has the current entropy. */
  lemma SharedProbabilityNoEntropy(w: Dict<real>, pests: Dict<Pest>, attribute: string, c: real, log2: real -> real)
    requires Over(w, pests) && c < 1.0
    requires forall k :: k in w.values ==> AttrProb(pests.values[k], attribute) == c
    requires Total(NoPost(w, pests, attribute)) == 1.0 - c
    ensures PosteriorEntropy(NoPost(w, pests, attribute), log2) == Entropy(Values(w), log2)
  {
    NoPostScaled(w, pests, attribute, c);
    SharedProbabilityPosterior(w, NoPost(w, pests, attribute), 1.0 - c, log2);
  }

  lemma SharedProbabilityPosterior(w: Dict<real>, post: Dict<real>, c: real, log2: real -> real)
    requires ScaledBy(w, post, c) && c > 0.0
    requires Total(post) == c
    ensures PosteriorEntropy(post, log2) == Entropy(Values(w), log2)
  {
    ScaledPosteriorEntropy(w, post, c, log2);
  }

  lemma NonNegativeProduct(x: real, y: real)
    requires x >= 0.0 && y >= 0.0
    ensures x * y >= 0.0
  {
  }

}
