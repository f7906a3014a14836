/** A question-and-answer session: the belief over the catalog's pests and
    the attributes already asked. */
module Sessions {
  import opened Dicts
  import opened Catalog
  import opened Update
  import opened InfoGain
  import opened Ranking

  class Session {
    /** The catalog the session reasons about, keyed by pest id. */
    const pests: Dict<Pest>
    /** `current_probs`: pest id to weight, in the catalog's order. */
    var currentProbs: Dict<real>
    /** `asked_attributes` */
    var asked: set<string>

    /** The weights are a table over exactly the catalog's pests. */
    ghost predicate Valid()
      reads this`currentProbs
    {
      && pests.Valid()
      && currentProbs.Valid()
      && currentProbs.keys == pests.keys
      && Over(currentProbs, pests)
    }

    /** The weights are positive and sum to 1. */
    ghost predicate Distributed()
      reads this`currentProbs
    {
      IsDistribution(currentProbs)
    }

    /** `Session(pests)`: every pest starts at 1/n, nothing asked. */
    constructor(pests: Dict<Pest>)
      requires pests.Valid()
      ensures Valid() && Distributed()
      ensures this.pests == pests && currentProbs == Uniform(pests) && asked == {}
    {
      this.pests := pests;
      currentProbs := Uniform(pests);
      asked := {};
      new;
      UniformIsDistribution(pests);
      SameKeysOver(currentProbs, pests);
    }

    /** `normalize`: divides every weight by the total, on a local copy that
        is then stored, or resets every weight to 1/n when the total is not
        positive. */
    method Normalize()
      requires Valid()
      modifies this
      ensures Valid() && asked == old(asked)
      ensures currentProbs == Normalized(old(currentProbs))
    {
      var w := currentProbs;
      var total := Total(w);
      if total <= 0.0 {
        currentProbs := ResetUniform(w);
      } else {
        var keys := w.keys;
        var probs := w;
        assert MapFirst(w, DivideBy(total), 0) == w;
        for i := 0 to |keys|
          invariant probs == MapFirst(w, DivideBy(total), i)
        {
          var k := keys[i];
          var x := probs.values[k];
          assert probs.Put(k, x / total) == MapFirst(w, DivideBy(total), i + 1) by {
            assert DivideBy(total)(k, x) == x / total;
            MapFirstPut(w, DivideBy(total), i, probs, k, x / total);
          }
          probs := probs.Put(k, x / total);
        }
        assert probs == MapAll(w, DivideBy(total)) by {
          MapFirstEnds(w, DivideBy(total));
        }
        currentProbs := probs;
      }
      assert Over(currentProbs, pests) by {
        SameKeysOver(currentProbs, pests);
      }
    }

    /** `update(attribute, answer)`: with no weights nothing happens;
        otherwise each weight is multiplied by the floored likelihood of the
        answer, the weights are normalized, and the attribute is recorded. */
    method Update(attribute: string, answer: string)
      requires Valid()
      modifies this
      ensures Valid()
      ensures old(currentProbs.keys) == [] ==> currentProbs == old(currentProbs) && asked == old(asked)
      ensures old(currentProbs.keys) != [] ==>
        && currentProbs == Normalized(Reweighted(old(currentProbs), pests, attribute, answer))
        && asked == old(asked) + {attribute}
    {
      if currentProbs.keys == [] {
        return;
      }
      var w := currentProbs;
      var keys := w.keys;
      ghost var f := Reweigh(pests, attribute, answer);
      var probs := w;
      assert MapFirst(w, f, 0) == w;
      for i := 0 to |keys|
        invariant probs == MapFirst(w, f, i)
      {
        var pid := keys[i];
        var pest := pests.values[pid];
        var prob := probs.values[pid];
        var likelihood := Likelihood(pest, attribute, answer);
        assert probs.Put(pid, prob * likelihood) == MapFirst(w, f, i + 1) by {
          assert f(pid, prob) == prob * likelihood;
          MapFirstPut(w, f, i, probs, pid, prob * likelihood);
        }
        probs := probs.Put(pid, prob * likelihood);
      }
      assert probs == Reweighted(w, pests, attribute, answer) && Over(probs, pests) by {
        MapFirstEnds(w, f);
        MapAllIsReweighted(w, pests, attribute, answer);
        SameKeysOver(probs, pests);
      }
      currentProbs := probs;
      Normalize();
      asked := asked + {attribute};
    }

    /** `expected_entropy_after(attribute)`: the information gain of asking
        `attribute`, from the two posteriors the first loop builds. */
    method ExpectedEntropyAfter(attribute: string, log2: real -> real) returns (gain: real)
      requires Valid()
      ensures gain == ExpectedGain(currentProbs, pests, attribute, log2)
    {
      var pYes, yesPost, noPost := AnswerPosteriors(currentProbs, pests, attribute);
      var pNo := Total(noPost);
      var eYes := 0.0;
      var eNo := 0.0;
      if pYes > 0.0 {
        eYes := Entropy(ScaledPositives(Values(yesPost), pYes), log2);
      }
      if pNo > 0.0 {
        eNo := Entropy(ScaledPositives(Values(noPost), pNo), log2);
      }
      var currentH := Entropy(Values(currentProbs), log2);
      gain := Gain(currentH, pYes, eYes, pNo, eNo);
    }

    /** `choose_best_attribute(attributes_list)`: among the attributes not yet
        asked, the first one whose gain is the largest, provided it beats -1. */
    method ChooseBestAttribute(attributes: seq<string>, log2: real -> real) returns (best: Option<string>)
      requires Valid()
      ensures Unasked(attributes, asked) == [] ==> best.None?
      ensures best.None? <==> NoneBeats(Gains(currentProbs, pests, Unasked(attributes, asked), log2))
      ensures best.Some? ==> best.value in attributes && best.value !in asked
      ensures best.Some? ==>
        exists i :: IsFirstBest(Gains(currentProbs, pests, Unasked(attributes, asked), log2), i) &&
          Unasked(attributes, asked)[i] == best.value
      ensures best.None? <==> NoUnaskedBeats(attributes, asked, Gains(currentProbs, pests, attributes, log2))
      ensures best.Some? ==>
        exists p :: FirstBestAt(attributes, asked, Gains(currentProbs, pests, attributes, log2), p) &&
          attributes[p] == best.value
    {
      var remaining := Unasked(attributes, asked);
      if remaining == [] {
        ChoiceByPosition(currentProbs, pests, attributes, asked, log2, None, None);
        return None;
      }
      ghost var gains := Gains(currentProbs, pests, remaining, log2);
      best := None;
      var bestGain := -1.0;
      ghost var choice: Option<int> := None;
      for k := 0 to |remaining|
        invariant Chosen(gains, k, choice, bestGain)
        invariant best.None? <==> choice.None?
        invariant choice.Some? ==> 0 <= choice.value < |remaining| && remaining[choice.value] == best.value
      {
        var gain := ExpectedEntropyAfter(remaining[k], log2);
        assert gain == gains[k];
        ChosenStep(gains, k, choice, bestGain);
        if gain > bestGain {
          bestGain := gain;
          best := Some(remaining[k]);
          choice := Some(k);
        }
      }
      ChosenAtEnd(gains, choice, bestGain);
      ChoiceByPosition(currentProbs, pests, attributes, asked, log2, choice, best);
    }

    /** `top_candidates(n)`: the `n` heaviest pests (Python's slice `[:n]`),
        heaviest first, ties in catalog order. */
    function TopCandidates(n: int): (r: seq<Candidate>)
      reads this`currentProbs
      requires Valid()
      ensures |r| == SliceEnd(n, |currentProbs.keys|)
      ensures Descending(r)
      ensures forall i :: 0 <= i < |r| ==> r[i].0 in currentProbs.values && r[i].1 == currentProbs.values[r[i].0]
      ensures forall k, i :: k in currentProbs.values && 0 <= i < |r| && (forall j :: 0 <= j < |r| ==> r[j].0 != k) ==>
        currentProbs.values[k] <= r[i].1
      ensures forall v :: WithWeight(r, v) <= WithWeight(Items(currentProbs), v)
    {
      TopFacts(currentProbs, n);
      Top(currentProbs, n)
    }
  }

  /** The loop of `expected_entropy_after`: one pass over the weights that
      accumulates the "yes" mass and fills both posteriors in key order. */
  method AnswerPosteriors(w: Dict<real>, pests: Dict<Pest>, attribute: string)
    returns (pYes: real, yesPost: Dict<real>, noPost: Dict<real>)
    requires Over(w, pests)
    ensures yesPost == YesPost(w, pests, attribute) && noPost == NoPost(w, pests, attribute)
    ensures pYes == Total(yesPost)
  {
    var keys := w.keys;
    ghost var yes := YesPost(w, pests, attribute);
    ghost var no := NoPost(w, pests, attribute);
    pYes := 0.0;
    yesPost := Empty();
    noPost := Empty();
    for i := 0 to |keys|
      invariant yesPost == Prefix(yes, i) && noPost == Prefix(no, i)
      invariant pYes == Total(yesPost)
    {
      var pid := keys[i];
      var prob := w.values[pid];
      var attrProb := AttrProb(pests.values[pid], attribute);
      var yesMass := prob * attrProb;
      var noMass := prob * (1.0 - attrProb);
      assert && yesPost.Put(pid, yesMass) == Prefix(yes, i + 1)
             && noPost.Put(pid, noMass) == Prefix(no, i + 1)
             && Total(yesPost.Put(pid, yesMass)) == pYes + yesMass by {
        PostAt(w, pests, attribute, pid, prob, attrProb, yesMass, noMass);
        PrefixPut(yes, i, yesPost, pid, yesMass);
        PrefixPut(no, i, noPost, pid, noMass);
        TotalPut(yesPost, pid, yesMass);
      }
      pYes := pYes + yesMass;
      yesPost := yesPost.Put(pid, yesMass);
      noPost := noPost.Put(pid, noMass);
    }
    PrefixEnds(yes);
    PrefixEnds(no);
    assert keys[..|keys|] == keys;
  }

  /** `[a for a in attributes if a not in asked]` */
  function Unasked(attributes: seq<string>, asked: set<string>): (r: seq<string>)
    ensures forall a :: a in r <==> a in attributes && a !in asked
    ensures |r| <= |attributes|
  {
    if attributes == [] then []
    else
      var n := |attributes| - 1;
      assert attributes == attributes[..n] + [attributes[n]];
      Unasked(attributes[..n], asked) + if attributes[n] in asked then [] else [attributes[n]]
  }

  /** The positions of `attributes` that hold an attribute not yet asked, in
      increasing order. */
  function UnaskedIndices(attributes: seq<string>, asked: set<string>): (r: seq<int>)
    ensures forall i :: 0 <= i < |r| ==> 0 <= r[i] < |attributes| && attributes[r[i]] !in asked
    ensures forall i, j :: 0 <= i < j < |r| ==> r[i] < r[j]
    ensures forall p :: 0 <= p < |attributes| && attributes[p] !in asked ==> p in r
  {
    if attributes == [] then []
    else
      var n := |attributes| - 1;
      var front := UnaskedIndices(attributes[..n], asked);
      assert forall i :: 0 <= i < |front| ==> attributes[front[i]] == attributes[..n][front[i]];
      front + if attributes[n] in asked then [] else [n]
  }

  /** `Unasked` keeps the attributes at `UnaskedIndices`, in that order: the
      filter keeps the list order of line 101. */
  lemma {:induction false} UnaskedAt(attributes: seq<string>, asked: set<string>)
    ensures |Unasked(attributes, asked)| == |UnaskedIndices(attributes, asked)|
    ensures forall i :: 0 <= i < |Unasked(attributes, asked)| ==>
      Unasked(attributes, asked)[i] == attributes[UnaskedIndices(attributes, asked)[i]]
  {
    if attributes != [] {
      var n := |attributes| - 1;
      var front := attributes[..n];
      UnaskedAt(front, asked);
      var u := Unasked(front, asked);
      var ix := UnaskedIndices(front, asked);
      var r := Unasked(attributes, asked);
      var rx := UnaskedIndices(attributes, asked);
      assert r == u + if attributes[n] in asked then [] else [attributes[n]];
      assert rx == ix + if attributes[n] in asked then [] else [n];
      forall i | 0 <= i < |r|
        ensures r[i] == attributes[rx[i]]
      {
        if i < |u| {
          assert r[i] == u[i] && rx[i] == ix[i];
          assert front[ix[i]] == attributes[ix[i]];
        }
      }
    }
  }

  /** Position `p` of the whole list holds an unasked attribute whose gain
      beats -1, is at least the gain of every unasked attribute, and is larger
      than the gain of every unasked attribute listed before it. */
  predicate FirstBestAt(attributes: seq<string>, asked: set<string>, gains: seq<real>, p: int)
    requires |gains| == |attributes|
  {
    && 0 <= p < |attributes| && attributes[p] !in asked && gains[p] > -1.0
    && (forall q :: 0 <= q < p && attributes[q] !in asked ==> gains[q] < gains[p])
    && (forall q :: 0 <= q < |attributes| && attributes[q] !in asked ==> gains[q] <= gains[p])
  }

  /** No unasked attribute of the whole list has a gain above -1. */
  predicate NoUnaskedBeats(attributes: seq<string>, asked: set<string>, gains: seq<real>)
    requires |gains| == |attributes|
  {
    forall q :: 0 <= q < |attributes| && attributes[q] !in asked ==> gains[q] <= -1.0
  }

  /** The gains of the remaining attributes are the gains of the whole list
      at the unasked positions. */
  lemma GainsByPosition(w: Dict<real>, pests: Dict<Pest>, attributes: seq<string>, asked: set<string>, log2: real -> real)
    requires Over(w, pests)
    ensures |Gains(w, pests, Unasked(attributes, asked), log2)| == |UnaskedIndices(attributes, asked)|
    ensures forall j :: 0 <= j < |UnaskedIndices(attributes, asked)| ==>
      Gains(w, pests, Unasked(attributes, asked), log2)[j] == Gains(w, pests, attributes, log2)[UnaskedIndices(attributes, asked)[j]]
  {
    UnaskedAt(attributes, asked);
  }

  /** No remaining gain beats -1 exactly when no unasked position's gain
      does. */
  lemma NoneBeatsPosition(attributes: seq<string>, asked: set<string>, all: seq<real>, sub: seq<real>)
    requires |all| == |attributes| && |sub| == |UnaskedIndices(attributes, asked)|
    requires forall j :: 0 <= j < |sub| ==> sub[j] == all[UnaskedIndices(attributes, asked)[j]]
    ensures NoneBeats(sub) <==> NoUnaskedBeats(attributes, asked, all)
  {
    var ix := UnaskedIndices(attributes, asked);
    if NoneBeats(sub) {
      forall q | 0 <= q < |attributes| && attributes[q] !in asked
        ensures all[q] <= -1.0
      {
        var j :| 0 <= j < |ix| && ix[j] == q;
        assert sub[j] <= -1.0;
      }
    }
  }

  /** A choice made over the remaining attributes, restated by position in
      the whole list. */
  lemma ChoiceByPosition(w: Dict<real>, pests: Dict<Pest>, attributes: seq<string>, asked: set<string>, log2: real -> real,
                         choice: Option<int>, best: Option<string>)
    requires Over(w, pests)
    requires choice.None? <==> NoneBeats(Gains(w, pests, Unasked(attributes, asked), log2))
    requires choice.Some? ==> IsFirstBest(Gains(w, pests, Unasked(attributes, asked), log2), choice.value)
    requires best.None? <==> choice.None?
    requires choice.Some? ==> Unasked(attributes, asked)[choice.value] == best.value
    ensures best.None? <==> NoUnaskedBeats(attributes, asked, Gains(w, pests, attributes, log2))
    ensures best.Some? ==>
      exists p :: FirstBestAt(attributes, asked, Gains(w, pests, attributes, log2), p) && attributes[p] == best.value
  {
    var all := Gains(w, pests, attributes, log2);
    var sub := Gains(w, pests, Unasked(attributes, asked), log2);
    GainsByPosition(w, pests, attributes, asked, log2);
    UnaskedAt(attributes, asked);
    NoneBeatsPosition(attributes, asked, all, sub);
    if choice.Some? {
      FirstBestPosition(attributes, asked, all, sub, choice.value);
      var p := UnaskedIndices(attributes, asked)[choice.value];
      assert FirstBestAt(attributes, asked, all, p) && attributes[p] == best.value;
    }
  }

  /** The first best of the remaining gains sits at the position of the
      whole list that is the first unasked one with the largest gain. */
  lemma FirstBestPosition(attributes: seq<string>, asked: set<string>, all: seq<real>, sub: seq<real>, i: int)
    requires |all| == |attributes| && |sub| == |UnaskedIndices(attributes, asked)|
    requires forall j :: 0 <= j < |sub| ==> sub[j] == all[UnaskedIndices(attributes, asked)[j]]
    requires IsFirstBest(sub, i)
    ensures FirstBestAt(attributes, asked, all, UnaskedIndices(attributes, asked)[i])
  {
    var ix := UnaskedIndices(attributes, asked);
    var p := ix[i];
    forall q | 0 <= q < |attributes| && attributes[q] !in asked
      ensures all[q] <= all[p] && (q < p ==> all[q] < all[p])
    {
      var j :| 0 <= j < |ix| && ix[j] == q;
      if j < i {
        assert sub[j] < sub[i];
      } else if j > i {
        assert ix[i] < ix[j];
        assert sub[j] <= sub[i];
      }
    }
  }

  /** The gain of asking each attribute of `attributes`, in order. */
  function Gains(w: Dict<real>, pests: Dict<Pest>, attributes: seq<string>, log2: real -> real): (r: seq<real>)
    requires Over(w, pests)
    ensures |r| == |attributes|
    ensures forall j :: 0 <= j < |r| ==> r[j] == ExpectedGain(w, pests, attributes[j], log2)
  {
    seq(|attributes|, j requires 0 <= j < |attributes| => ExpectedGain(w, pests, attributes[j], log2))
  }

  /** No gain exceeds the starting best gain of -1. */
  predicate NoneBeats(gains: seq<real>)
  {
    forall j :: 0 <= j < |gains| ==> gains[j] <= -1.0
  }

  /** After the first `k` gains the choice is index `i`: its gain `bestGain`
      beats -1 and every earlier gain, and no later gain beats it. */
  predicate BestSoFar(gains: seq<real>, k: int, i: int, bestGain: real)
  {
    && 0 <= i < k <= |gains| && gains[i] == bestGain && bestGain > -1.0
    && (forall j :: 0 <= j < i ==> gains[j] < bestGain)
    && (forall j :: i < j < k ==> gains[j] <= bestGain)
  }

  /** The state of the scan after the first `k` gains: nothing chosen while
      every gain is at most -1, otherwise the choice so far. */
  ghost predicate Chosen(gains: seq<real>, k: int, choice: Option<int>, bestGain: real)
  {
    match choice
    case None => bestGain == -1.0 && 0 <= k <= |gains| && forall j :: 0 <= j < k ==> gains[j] <= -1.0
    case Some(i) => BestSoFar(gains, k, i, bestGain)
  }

  /** One step of the scan: a strictly larger gain takes over the choice,
      any other leaves it alone. */
  lemma ChosenStep(gains: seq<real>, k: int, choice: Option<int>, bestGain: real)
    requires 0 <= k < |gains| && Chosen(gains, k, choice, bestGain)
    ensures gains[k] > bestGain ==> Chosen(gains, k + 1, Some(k), gains[k])
    ensures gains[k] <= bestGain ==> Chosen(gains, k + 1, choice, bestGain)
  {
  }

  /** At the end of the scan the choice is the first best gain, or there is
      none and no gain beats -1. */
  lemma ChosenAtEnd(gains: seq<real>, choice: Option<int>, bestGain: real)
    requires Chosen(gains, |gains|, choice, bestGain)
    ensures choice.None? <==> NoneBeats(gains)
    ensures choice.Some? ==> IsFirstBest(gains, choice.value)
  {
  }

  /** Index `i` holds the first largest gain, and that gain beats -1. */
  predicate IsFirstBest(gains: seq<real>, i: int)
  {
    0 <= i < |gains| && BestSoFar(gains, |gains|, i, gains[i])
  }
}
