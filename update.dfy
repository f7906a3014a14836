/** The belief update of a session, stated on values: reweighting each pest by
    the likelihood of the answer, then normalizing. */
module Update {
  import opened Dicts
  import opened Catalog

  /** The floor `1e-9` that keeps every factor positive. */
  const Floor: real := 0.000000001

  /** The likelihood of `answer` for a pest, before the floor: the attribute
      probability for "yes", its complement for "no", and 1 for anything else. */
  function RawLikelihood(p: Pest, attribute: string, answer: string): real
  {
    if answer == "yes" then AttrProb(p, attribute)
    else if answer == "no" then 1.0 - AttrProb(p, attribute)
    else 1.0
  }

  /** `max(likelihood, 1e-9)` */
  function Likelihood(p: Pest, attribute: string, answer: string): (l: real)
    ensures l >= Floor && l >= RawLikelihood(p, attribute, answer)
    ensures l == RawLikelihood(p, attribute, answer) || l == Floor
  {
    var raw := RawLikelihood(p, attribute, answer);
    if Floor > raw then Floor else raw
  }

  /** The weights are a table over the pests of the catalog. */
  ghost predicate Over(w: Dict<real>, pests: Dict<Pest>)
  {
    w.Valid() && forall k :: k in w.values ==> k in pests.values
  }

  /** A table with the catalog's keys in the catalog's order is over its pests. */
  lemma SameKeysOver(w: Dict<real>, pests: Dict<Pest>)
    requires w.Valid() && pests.Valid() && w.keys == pests.keys
    ensures Over(w, pests)
  {
    forall k | k in w.values
      ensures k in pests.values
    {
      ListsDomain(w);
    }
  }

  /** A proper distribution: positive weights that sum to 1 (vacuous when empty). */
  ghost predicate IsDistribution(w: Dict<real>)
  {
    && w.Valid()
    && (forall k :: k in w.values ==> w.values[k] > 0.0)
    && (w.keys != [] ==> Total(w) == 1.0)
  }

  /** The weights after the multiplication loop of `update`. */
  function Reweighted(w: Dict<real>, pests: Dict<Pest>, attribute: string, answer: string): (r: Dict<real>)
    requires Over(w, pests)
    ensures r.Valid() && r.keys == w.keys
  {
    var m := map k | k in w.values :: w.values[k] * Likelihood(pests.values[k], attribute, answer);
    assert m.Keys == w.values.Keys;
    Dict(w.keys, m)
  }

  /** The factor the loop of `update` multiplies the weight of pest `k` by. */
  function Reweigh(pests: Dict<Pest>, attribute: string, answer: string): (string, real) -> real
  {
    (k, x) => if k in pests.values then x * Likelihood(pests.values[k], attribute, answer) else x
  }

  /** Applying the loop's factor to every key gives `Reweighted`; with
      `Dicts.MapFirstEnds` this ties the loop of `update` to `Reweighted`. */
  lemma MapAllIsReweighted(w: Dict<real>, pests: Dict<Pest>, attribute: string, answer: string)
    requires Over(w, pests)
    ensures MapAll(w, Reweigh(pests, attribute, answer)) == Reweighted(w, pests, attribute, answer)
  {
  }

  /** `{k: 1.0 / n for k in d}`, with `n = len(d) or 1` */
  function ResetUniform(w: Dict<real>): (r: Dict<real>)
    requires w.Valid()
    ensures r.Valid() && r.keys == w.keys
  {
    var n := if |w.keys| == 0 then 1 else |w.keys|;
    var m := map k | k in w.values :: 1.0 / n as real;
    assert m.Keys == w.values.Keys;
    Dict(w.keys, m)
  }

  /** Dividing a weight by the total. */
  function DivideBy(total: real): (string, real) -> real
    requires total != 0.0
  {
    (k, x) => x / total
  }

  /** `normalize`: divide by the total, or fall back to uniform when the total is not positive. */
  function Normalized(w: Dict<real>): (r: Dict<real>)
    requires w.Valid()
    ensures r.Valid() && r.keys == w.keys
  {
    var total := Total(w);
    if total <= 0.0 then ResetUniform(w) else MapAll(w, DivideBy(total))
  }

  /** The uniform distribution a session starts from. */
  function Uniform(pests: Dict<Pest>): (r: Dict<real>)
    requires pests.Valid()
    ensures r.Valid() && r.keys == pests.keys
  {
    if |pests.keys| > 0 then
      var m := map k | k in pests.values :: 1.0 / |pests.keys| as real;
      assert m.Keys == pests.values.Keys;
      Dict(pests.keys, m)
    else
      Empty()
  }

  /** Equal weights 1/n over n keys sum to 1. */
  lemma UniformSumsToOne(w: Dict<real>)
    requires w.Valid() && w.keys != []
    requires forall k :: k in w.values ==> w.values[k] == 1.0 / |w.keys| as real
    ensures Total(w) == 1.0
  {
    SumConst(w.keys, w.values, 1.0 / |w.keys| as real);
  }

  /** The starting distribution gives every pest 1/n, and is a distribution. */
  lemma UniformIsDistribution(pests: Dict<Pest>)
    requires pests.Valid()
    ensures IsDistribution(Uniform(pests))
    ensures forall k :: k in Uniform(pests).values <==> k in pests.values
    ensures forall k :: k in Uniform(pests).values ==> Uniform(pests).values[k] == 1.0 / |pests.keys| as real
  {
    var u := Uniform(pests);
    if |pests.keys| > 0 {
      var c := 1.0 / |pests.keys| as real;
      assert c > 0.0;
      assert forall k :: k in u.values ==> u.values[k] == c;
      UniformSumsToOne(u);
    } else {
      assert pests.values.Keys == {};
    }
  }

  /** Normalizing a non-empty table gives weights that sum to 1. With a
      positive total each weight is divided by it, and positive weights stay
      positive; otherwise every weight is 1/n. */
  lemma NormalizedSumsToOne(w: Dict<real>)
    requires w.Valid() && w.keys != []
    ensures Total(Normalized(w)) == 1.0
    ensures Total(w) > 0.0 ==> forall k :: k in w.values ==> Normalized(w).values[k] == w.values[k] / Total(w)
    ensures Total(w) <= 0.0 ==> forall k :: k in w.values ==> Normalized(w).values[k] == 1.0 / |w.keys| as real
  {
    var t := Total(w);
    var r := Normalized(w);
    if t <= 0.0 {
      UniformSumsToOne(r);
    } else {
      SumScale(w.keys, w.values, 1.0 / t, r.values);
      assert Total(r) == t * (1.0 / t);
    }
  }

  /** Reweighting multiplies by a positive factor, so positive weights stay positive. */
  lemma ReweightedPositive(w: Dict<real>, pests: Dict<Pest>, attribute: string, answer: string)
    requires Over(w, pests)
    requires forall k :: k in w.values ==> w.values[k] > 0.0
    ensures forall k :: k in w.values ==> Reweighted(w, pests, attribute, answer).values[k] > 0.0
  {
    forall k | k in w.values
      ensures Reweighted(w, pests, attribute, answer).values[k] > 0.0
    {
      var l := Likelihood(pests.values[k], attribute, answer);
      assert l > 0.0;
      assert w.values[k] * l > 0.0;
    }
  }

  /** The answer-update keeps a distribution a distribution over the same pests:
      each new weight is the old weight times its likelihood, divided by the
      (positive) total of those products. */
  lemma UpdateKeepsDistribution(w: Dict<real>, pests: Dict<Pest>, attribute: string, answer: string)
    requires Over(w, pests) && IsDistribution(w)
    ensures IsDistribution(Normalized(Reweighted(w, pests, attribute, answer)))
    ensures Normalized(Reweighted(w, pests, attribute, answer)).keys == w.keys
    ensures w.keys != [] ==> Total(Reweighted(w, pests, attribute, answer)) > 0.0
    ensures w.keys != [] ==> forall k :: k in w.values ==>
      Normalized(Reweighted(w, pests, attribute, answer)).values[k] ==
        w.values[k] * Likelihood(pests.values[k], attribute, answer) / Total(Reweighted(w, pests, attribute, answer))
  {
    var rw := Reweighted(w, pests, attribute, answer);
    ReweightedPositive(w, pests, attribute, answer);
    if w.keys != [] {
      SumSign(rw.keys, rw.values);
      NormalizedSumsToOne(rw);
      var t := Total(rw);
      forall k | k in w.values
        ensures Normalized(rw).values[k] > 0.0
      {
        assert rw.values[k] > 0.0;
        assert Normalized(rw).values[k] == rw.values[k] / t;
      }
    }
  }

  /** An answer other than "yes" or "no" leaves a distribution unchanged. */
  lemma UnknownAnswerKeepsWeights(w: Dict<real>, pests: Dict<Pest>, attribute: string, answer: string)
    requires Over(w, pests) && IsDistribution(w)
    requires answer != "yes" && answer != "no"
    ensures Normalized(Reweighted(w, pests, attribute, answer)) == w
  {
    var rw := Reweighted(w, pests, attribute, answer);
    assert rw.values == w.values;
    if w.keys != [] {
      assert Total(rw) == 1.0;
      assert Normalized(rw).values == w.values;
    } else {
      assert w.values == map[];
    }
  }

  /** With a single pest, every answer leaves it at probability 1. */
  lemma SinglePestStaysCertain(w: Dict<real>, pests: Dict<Pest>, attribute: string, answer: string)
    requires Over(w, pests) && IsDistribution(w)
    requires |w.keys| == 1
    ensures Normalized(Reweighted(w, pests, attribute, answer)).values[w.keys[0]] == 1.0
  {
    UpdateKeepsDistribution(w, pests, attribute, answer);
    var r := Normalized(Reweighted(w, pests, attribute, answer));
    assert r.keys == [w.keys[0]];
    assert Total(r) == Sum([], r.values) + r.values[w.keys[0]];
  }
}
