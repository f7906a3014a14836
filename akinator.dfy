/** The engine object: the id-keyed catalog and the question registry it
    (re)loads, the attribute universe it lists, the questions it phrases and
    the pests it learns. */
module Akinator {
  import opened Dicts
  import opened Catalog
  import opened Slug
  import opened StringOrder
  import opened Update
  import opened Sessions

  /** Every record is stored under its own id. */
  ghost predicate AllKeyed(d: Dict<Pest>)
  {
    forall k :: k in d.values ==> d.values[k].id == Some(k)
  }

  /** The id `add_new_pest` asks for before the collision check: the record's
      own id when it is a non-empty string, else the slug of its name (or of
      `"pest"` when it has none). */
  function RequestedId(data: Pest, fallback: string): (id: string)
    ensures data.id.Some? && data.id.value != [] ==> id == data.id.value
    ensures (data.id.None? || data.id.value == []) && data.name.Some? ==> id == Slugify(data.name.value, fallback)
    ensures (data.id.None? || data.id.value == []) && data.name.None? ==> id == Slugify("pest", fallback)
  {
    if data.id.Some? && data.id.value != [] then data.id.value
    else Slugify(if data.name.Some? then data.name.value else "pest", fallback)
  }

  /** The id a new record is stored under: the requested id when it is free,
      else the requested id, `_` and the suffix. */
  function AssignedId(d: Dict<Pest>, requested: string, suffix: string): (pid: string)
    ensures requested !in d.values ==> pid == requested
    ensures requested in d.values ==> pid == requested + "_" + suffix
  {
    if requested in d.values then requested + "_" + suffix else requested
  }

  /** A nameless record without an id is filed as `pest`. */
  lemma NamelessPestId(data: Pest, fallback: string)
    requires data.id.None? && data.name.None?
    ensures RequestedId(data, fallback) == "pest"
  {
    assert Clean("pest") == "pest" by {
      LowerStringOfLower("pest");
      SlugIsFixedPoint("pest", fallback);
    }
  }

  /** The assigned id is a fresh key whenever the suffixed id is free too. */
  lemma AssignedIdIsFresh(d: Dict<Pest>, requested: string, suffix: string)
    requires requested + "_" + suffix !in d.values
    ensures AssignedId(d, requested, suffix) !in d.values
  {
  }

  /** A requested id that is not the record's own is a slug, or the fallback
      when the name has no letter or digit. */
  lemma RequestedIdIsSlug(data: Pest, fallback: string)
    requires data.id.None? || data.id.value == []
    ensures RequestedId(data, fallback) == fallback || IsSlug(RequestedId(data, fallback))
  {
  }

  /** Storing a record under its own id keeps every record under its own id. */
  lemma {:induction false} StoreKeepsKeyed(d: Dict<Pest>, pid: string, p: Pest)
    requires d.Valid() && AllKeyed(d) && p.id == Some(pid)
    ensures AllKeyed(d.Put(pid, p))
  {
    var e := d.Put(pid, p);
    forall k | k in e.values
      ensures e.values[k].id == Some(k)
    {
      if k != pid {
        assert e.values[k] == d.values[k];
      }
    }
  }

  /** Every attribute some record among the first `i` lists. */
  ghost function AttributesOfFirst(d: Dict<Pest>, i: int): set<string>
    requires d.Valid() && 0 <= i <= |d.keys|
  {
    set j, a | 0 <= j < i && a in d.values[d.keys[j]].attributes :: a
  }

  /** One more record adds its own attributes. */
  lemma AttributesOfFirstStep(d: Dict<Pest>, i: int)
    requires d.Valid() && 0 <= i < |d.keys|
    ensures AttributesOfFirst(d, i + 1) == AttributesOfFirst(d, i) + d.values[d.keys[i]].attributes.Keys
  {
    var p := d.values[d.keys[i]];
    forall a | a in p.attributes.Keys
      ensures a in AttributesOfFirst(d, i + 1)
    {
      assert 0 <= i < i + 1 && a in d.values[d.keys[i]].attributes;
    }
  }

  /** All the records together list the attribute universe. */
  lemma AttributesOfAll(d: Dict<Pest>)
    requires d.Valid()
    ensures AttributesOfFirst(d, |d.keys|) == AttributeUniverse(d)
  {
    ListsDomain(d);
    forall a | a in AttributeUniverse(d)
      ensures a in AttributesOfFirst(d, |d.keys|)
    {
      var k :| k in d.values && a in d.values[k].attributes;
      var j :| 0 <= j < |d.keys| && d.keys[j] == k;
      assert 0 <= j < |d.keys| && a in d.values[d.keys[j]].attributes;
    }
  }

  class PestAkinator {
    /** `pests`: the catalog keyed by id, in file order. */
    var pests: Dict<Pest>
    /** `questions`: attribute to registry entry. */
    var questions: map<string, QuestionEntry>

    ghost predicate Valid()
      reads this
    {
      pests.Valid()
    }

    /** `PestAkinator()`: loads the catalog and the registry. */
    constructor(raw: RawPests, rawQuestions: map<string, QuestionEntry>)
      requires raw.PestTable? ==> raw.byId.Valid()
      requires Keyed(raw).Some?
      ensures Valid()
      ensures pests == Keyed(raw).value && questions == rawQuestions
    {
      pests := Keyed(raw).value;
      questions := rawQuestions;
    }

    /** `reload`: a list is keyed by id, an object taken as it is, anything
        else is the empty catalog. When a listed record has no id the lookup
        raises and nothing is replaced (`ok` is false). */
    method Reload(raw: RawPests, rawQuestions: map<string, QuestionEntry>) returns (ok: bool)
      requires Valid()
      requires raw.PestTable? ==> raw.byId.Valid()
      modifies this
      ensures Valid()
      ensures ok <==> Keyed(raw).Some?
      ensures ok ==> pests == Keyed(raw).value && questions == rawQuestions
      ensures !ok ==> pests == old(pests) && questions == old(questions)
      ensures ok && raw.PestList? ==> AllKeyed(pests)
    {
      var keyed := Keyed(raw);
      if keyed.None? {
        return false;
      }
      if raw.PestList? {
        KeyByIdLastWins(raw.records);
      }
      pests := keyed.value;
      questions := rawQuestions;
      return true;
    }

    /** `create_session`: reloads, then starts a session over the fresh
        catalog; `null` when the reload raises. */
    method CreateSession(raw: RawPests, rawQuestions: map<string, QuestionEntry>) returns (s: Session?)
      requires Valid()
      requires raw.PestTable? ==> raw.byId.Valid()
      modifies this
      ensures Valid()
      ensures s == null <==> Keyed(raw).None?
      ensures s != null ==> fresh(s) && s.Valid() && s.Distributed() && s.pests == pests && pests == Keyed(raw).value
      ensures s != null ==> s.currentProbs == Uniform(pests) && s.asked == {} && questions == rawQuestions
      ensures s == null ==> pests == old(pests) && questions == old(questions)
    {
      var ok := Reload(raw, rawQuestions);
      if !ok {
        return null;
      }
      s := new Session(pests);
    }

    /** `get_all_attributes`: every attribute any record lists, sorted, each
        once. */
    method GetAllAttributes() returns (r: seq<string>)
      requires Valid()
      ensures Ascending(r)
      ensures forall a :: a in r <==> a in AttributeUniverse(pests)
      ensures |r| == |AttributeUniverse(pests)|
    {
      var attrs: set<string> := {};
      var keys := pests.keys;
      for i := 0 to |keys|
        invariant attrs == AttributesOfFirst(pests, i)
      {
        AttributesOfFirstStep(pests, i);
        attrs := attrs + pests.values[keys[i]].attributes.Keys;
      }
      AttributesOfAll(pests);
      r := Sorted(attrs);
    }

    /** `get_question_info`: the registry's question and image for the
        attribute, the fallback question when it phrases none. */
    function GetQuestionInfo(attribute: string): (r: QuestionInfo)
      reads this
      ensures r.attribute == attribute
      ensures attribute in questions && questions[attribute].question.Some? ==>
        r.question == questions[attribute].question.value
      ensures (attribute !in questions || questions[attribute].question.None?) ==>
        r.question == DefaultQuestion(attribute)
      ensures attribute in questions ==> r.image == questions[attribute].image
      ensures attribute !in questions ==> r.image.None?
    {
      var q := if attribute in questions then questions[attribute] else QuestionEntry(None, None);
      QuestionInfo(attribute, if q.question.Some? then q.question.value else DefaultQuestion(attribute), q.image)
    }

    /** `add_new_pest`: gives the record an id (its own, else the slug of its
        name), suffixes an id already taken, and stores the record under it. */
    method AddNewPest(data: Pest, fallback: string, suffix: string) returns (pid: string)
      requires Valid()
      modifies this
      ensures Valid() && questions == old(questions)
      ensures pid == AssignedId(old(pests), RequestedId(data, fallback), suffix)
      ensures pests == old(pests).Put(pid, data.(id := Some(pid)))
      ensures pid in pests.values && pests.values[pid] == data.(id := Some(pid))
      ensures forall k :: k in old(pests.values) && k != pid ==> k in pests.values && pests.values[k] == old(pests.values)[k]
      ensures AllKeyed(old(pests)) ==> AllKeyed(pests)
    {
      var record := data;
      if record.id.None? || record.id.value == [] {
        var name := if record.name.Some? then record.name.value else "pest";
        record := record.(id := Some(Slugify(name, fallback)));
      }
      pid := record.id.value;
      if pid in pests.values {
        pid := pid + "_" + suffix;
        record := record.(id := Some(pid));
      }
      if AllKeyed(pests) {
        StoreKeepsKeyed(pests, pid, record);
      }
      pests := pests.Put(pid, record);
    }
  }
}
