/** The pest catalog: the records, how they are keyed by id, the attribute
    universe and the question registry. */
module Catalog {
  import opened Dicts

  /** One catalog record. `id` and `name` are `None` when the key is absent;
      an absent `"attributes"` key is the empty table. */
  datatype Pest = Pest(
    id: Option<string>,
    name: Option<string>,
    attributes: map<string, real>,
    notes: Option<string>,
    image: Option<string>)

  /** The likelihood assumed for an attribute a record does not list. */
  const DefaultProb: real := 0.5

  /** `float(pest.get("attributes", {}).get(attribute, 0.5))` */
  function AttrProb(p: Pest, attribute: string): (r: real)
    ensures attribute in p.attributes ==> r == p.attributes[attribute]
    ensures attribute !in p.attributes ==> r == DefaultProb
  {
    if attribute in p.attributes then p.attributes[attribute] else DefaultProb
  }

  /** The record is stored under a key that is its own id. */
  predicate KeyedBy(d: Dict<Pest>, k: string)
    requires k in d.values
  {
    d.values[k].id == Some(k)
  }

  /** No later record carries the same id as record `i`. */
  predicate LastWithItsId(ps: seq<Pest>, i: int)
    requires 0 <= i < |ps|
  {
    forall j :: i < j < |ps| ==> ps[j].id != ps[i].id
  }

  /** `{p["id"]: p for p in ps}`: `None` when some record has no `"id"` (the
      lookup raises `KeyError`). A repeated id keeps its first position and its
      last record. */
  function KeyById(ps: seq<Pest>): (r: Option<Dict<Pest>>)
    ensures r.Some? ==> r.value.Valid()
  {
    if ps == [] then Some(Empty())
    else
      var n := |ps| - 1;
      var prefix := KeyById(ps[..n]);
      if prefix.None? || ps[n].id.None? then None
      else Some(prefix.value.Put(ps[n].id.value, ps[n]))
  }

  /** Keying fails exactly when some record lacks an id. */
  lemma {:induction false} KeyByIdFails(ps: seq<Pest>)
    ensures KeyById(ps).Some? <==> forall i :: 0 <= i < |ps| ==> ps[i].id.Some?
  {
    if ps != [] {
      var n := |ps| - 1;
      KeyByIdFails(ps[..n]);
      assert forall i :: 0 <= i < n ==> ps[..n][i] == ps[i];
    }
  }

  /** Every record's id is a key of the keyed catalog. */
  lemma {:induction false} KeyByIdHasEveryId(ps: seq<Pest>)
    requires KeyById(ps).Some?
    ensures forall i :: 0 <= i < |ps| ==> ps[i].id.Some? && ps[i].id.value in KeyById(ps).value.values
  {
    if ps != [] {
      var n := |ps| - 1;
      KeyByIdHasEveryId(ps[..n]);
      var prefix := KeyById(ps[..n]).value;
      assert KeyById(ps).value.values == prefix.values[ps[n].id.value := ps[n]];
      forall i | 0 <= i < n
        ensures ps[i].id.Some? && ps[i].id.value in KeyById(ps).value.values
      {
        assert ps[..n][i] == ps[i];
      }
    }
  }

  /** Every key of the keyed catalog is the id of some record. */
  lemma {:induction false} KeyByIdOnlyIds(ps: seq<Pest>)
    requires KeyById(ps).Some?
    ensures forall k :: k in KeyById(ps).value.values ==> exists i :: 0 <= i < |ps| && ps[i].id == Some(k)
  {
    if ps != [] {
      var n := |ps| - 1;
      KeyByIdOnlyIds(ps[..n]);
      var prefix := KeyById(ps[..n]).value;
      var d := KeyById(ps).value;
      assert d.values == prefix.values[ps[n].id.value := ps[n]];
      forall k | k in d.values
        ensures exists i :: 0 <= i < |ps| && ps[i].id == Some(k)
      {
        if k != ps[n].id.value {
          var i :| 0 <= i < n && ps[..n][i].id == Some(k);
          assert ps[i].id == Some(k);
        }
      }
    }
  }

  /** No earlier record carries the same id as record `i`. */
  predicate FirstWithItsId(ps: seq<Pest>, i: int)
    requires 0 <= i < |ps|
  {
    forall j :: 0 <= j < i ==> ps[j].id != ps[i].id
  }

  /** The ids of the records that are the first to carry their id, in record
      order. */
  function FirstIds(ps: seq<Pest>): (r: seq<string>)
    ensures forall i :: 0 <= i < |r| ==> exists j :: 0 <= j < |ps| && ps[j].id == Some(r[i])
  {
    if ps == [] then []
    else
      var n := |ps| - 1;
      var front := FirstIds(ps[..n]);
      assert forall i :: 0 <= i < |front| ==> exists j :: 0 <= j < |ps| && ps[j].id == Some(front[i]) by {
        forall i | 0 <= i < |front|
          ensures exists j :: 0 <= j < |ps| && ps[j].id == Some(front[i])
        {
          var j :| 0 <= j < n && ps[..n][j].id == Some(front[i]);
          assert ps[j] == ps[..n][j];
        }
      }
      front + if FirstWithItsId(ps, n) && ps[n].id.Some? then [ps[n].id.value] else []
  }

  /** The key order of the keyed catalog: each id at the position where it
      first occurs, later repeats adding nothing. */
  lemma {:induction false} KeyByIdOrder(ps: seq<Pest>)
    requires KeyById(ps).Some?
    ensures KeyById(ps).value.keys == FirstIds(ps)
  {
    if ps != [] {
      var n := |ps| - 1;
      var front := ps[..n];
      KeyByIdOrder(front);
      KeyByIdHasEveryId(front);
      KeyByIdOnlyIds(front);
      var prefix := KeyById(front).value;
      var id := ps[n].id.value;
      if FirstWithItsId(ps, n) {
        assert id !in prefix.values;
      } else {
        var j :| 0 <= j < n && ps[j].id == ps[n].id;
        assert front[j] == ps[j];
      }
    }
  }

  /** With pairwise distinct ids, the first ids are all the ids, in order. */
  lemma {:induction false} FirstIdsOfDistinct(ps: seq<Pest>)
    requires forall i :: 0 <= i < |ps| ==> ps[i].id.Some?
    requires forall i, j :: 0 <= i < j < |ps| ==> ps[i].id != ps[j].id
    ensures FirstIds(ps) == seq(|ps|, i requires 0 <= i < |ps| => ps[i].id.value)
  {
    if ps != [] {
      var n := |ps| - 1;
      FirstIdsOfDistinct(ps[..n]);
      assert FirstWithItsId(ps, n);
    }
  }

  /** Records with pairwise distinct ids are keyed in record order. */
  lemma KeyByIdDistinct(ps: seq<Pest>)
    requires forall i :: 0 <= i < |ps| ==> ps[i].id.Some?
    requires forall i, j :: 0 <= i < j < |ps| ==> ps[i].id != ps[j].id
    ensures KeyById(ps).Some?
    ensures KeyById(ps).value.keys == seq(|ps|, i requires 0 <= i < |ps| => ps[i].id.value)
  {
    KeyByIdFails(ps);
    KeyByIdOrder(ps);
    FirstIdsOfDistinct(ps);
  }

  /** Every record is stored under its own id, and a repeated id keeps the
      last record that carries it. */
  lemma {:induction false} KeyByIdLastWins(ps: seq<Pest>)
    requires KeyById(ps).Some?
    ensures forall k :: k in KeyById(ps).value.values ==> KeyedBy(KeyById(ps).value, k)
    ensures forall i, k :: 0 <= i < |ps| && ps[i].id == Some(k) && LastWithItsId(ps, i) ==>
      k in KeyById(ps).value.values && KeyById(ps).value.values[k] == ps[i]
  {
    if ps != [] {
      var n := |ps| - 1;
      KeyByIdLastWins(ps[..n]);
      var prefix := KeyById(ps[..n]).value;
      var d := KeyById(ps).value;
      assert d.values == prefix.values[ps[n].id.value := ps[n]];
      forall i, k | 0 <= i < |ps| && ps[i].id == Some(k) && LastWithItsId(ps, i)
        ensures k in d.values && d.values[k] == ps[i]
      {
        if i < n {
          assert ps[..n][i] == ps[i];
          assert LastWithItsId(ps[..n], i);
          assert ps[n].id != ps[i].id;
        }
      }
    }
  }

  /** What `_load_json` read from the pests file. */
  datatype RawPests =
    | PestList(records: seq<Pest>)   // a JSON array of records
    | PestTable(byId: Dict<Pest>)    // a JSON object, taken as already keyed by id
    | OtherJson                      // any other JSON value

  /** The id-keyed catalog `reload` builds; `None` when keying a list fails. */
  function Keyed(raw: RawPests): (r: Option<Dict<Pest>>)
    requires raw.PestTable? ==> raw.byId.Valid()
    ensures r.None? <==> raw.PestList? && KeyById(raw.records).None?
    ensures r.Some? ==> r.value.Valid()
    ensures raw.PestTable? ==> r == Some(raw.byId)
    ensures raw.OtherJson? ==> r == Some(Empty())
  {
    match raw
    case PestList(ps) => KeyById(ps)
    case PestTable(d) => Some(d)
    case OtherJson => Some(Empty())
  }

  /** Every attribute name any record lists. */
  ghost function AttributeUniverse(d: Dict<Pest>): set<string>
  {
    set k, a | k in d.values && a in d.values[k].attributes :: a
  }

  /** An entry of the question registry; absent keys are `None`. */
  datatype QuestionEntry = QuestionEntry(question: Option<string>, image: Option<string>)

  /** The payload `get_question_info` returns. */
  datatype QuestionInfo = QuestionInfo(attribute: string, question: string, image: Option<string>)

  const QuestionPrefix: string := "¿El atributo '"
  const QuestionSuffix: string := "' está presente?"

  /** The question asked for an attribute the registry does not phrase. */
  function DefaultQuestion(attribute: string): (q: string)
    ensures |q| == |QuestionPrefix| + |attribute| + |QuestionSuffix|
    ensures q[..|QuestionPrefix|] == QuestionPrefix
    ensures q[|QuestionPrefix|..|QuestionPrefix| + |attribute|] == attribute
    ensures q[|QuestionPrefix| + |attribute|..] == QuestionSuffix
  {
    QuestionPrefix + attribute + QuestionSuffix
  }

  /** Different attributes get different fallback questions. */
  lemma DefaultQuestionInjective(a: string, b: string)
    requires DefaultQuestion(a) == DefaultQuestion(b)
    ensures a == b
  {
    assert |a| == |b|;
  }
}
