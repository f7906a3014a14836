# Pest Akinator engine, modelled in Dafny

The pest Akinator guesses a crop pest by asking yes/no questions about its
attributes. The engine (`pest_akinator.py`) keeps:

- a **catalog** of pest records keyed by id, each with a table of attribute
  probabilities (0.5 when the table has no entry);
- a **question registry** that phrases each attribute as a question.

A **session** holds a weight per pest and the set of attributes already
asked. Each answer reweights every pest by the likelihood of that answer and
normalizes the weights. The next question is the unasked attribute with the
largest expected information gain. New pests are added with an id derived
from their name.

The model has these modules:

- `Dicts`: an insertion-ordered dictionary (`Dict`), as Python's `dict` behaves. It holds
  - the key order and a map;
  - sums over the values in key order;
  - a key-order traversal, `MapFirst`/`Prefix`, that loops are proved against.
- `Slug`: `_slugify`.
  - Lower-casing is ASCII only.
  - The regular-expression passes are written out as recursive functions.
  - The uuid fallback is a parameter.
- `StringOrder`: the code-point order on strings that `sorted` uses, and a sort of a set of strings.
- `Catalog`:
  - the pest record;
  - the 0.5 default;
  - keying a list of records by id, as `reload` does;
  - the attribute universe;
  - the question registry and its fallback question.
- `Update`: the value-level meaning of `Session.update` and `Session.normalize`, that is likelihood, floor, reweighting, normalization and uniform reset.
- `InfoGain`: the value-level meaning of `expected_entropy_after`. It covers
  - the two posteriors;
  - entropy over an uninterpreted `log2`;
  - the gain.
- `Ranking`: `top_candidates`, modelled as a stable descending sort followed by Python's slice `[:n]`.
- `Sessions`: the class `Session`. Its methods compute the new weights with loops over a local copy of `current_probs`, store the copy back in the field at the end, and are proved against the `Update` and `InfoGain` functions.
- `Akinator`: the class `PestAkinator`, which covers `reload`, `create_session`, `get_all_attributes`, `get_question_info` and `add_new_pest`.

Three details of `add_new_pest` that the model keeps:

- It derives an id when `"id"` is absent **or empty** (`not pest_data["id"]`, `pest_akinator.py:155`).
- It derives that id from `"pest"` when the record has no `"name"` (`pest_akinator.py:156`).
- A suffixed id is stored without a second collision check (`pest_akinator.py:159-162`).

## Model

| member | source | states |
|---|---|---|
| Dicts.Dict.Put | pest_akinator.py:162 | `d[k] = v`: the table maps `k` to `v`, and the key order is kept for an existing key or gets `k` appended for a new one. |
| Dicts.Total | pest_akinator.py:36 | `sum(d.values())`: the sum of the values in key order. `Dicts.TotalPut` states how an assignment to a new or an existing key changes it. |
| Dicts.TotalPut | pest_akinator.py:36 | Assigning a value to a new key adds that value to the total; assigning it to an existing key replaces the old value in the total by the new one. |
| Dicts.SumReplace | pest_akinator.py:36 | Replacing the entry of a key listed once changes the key-order sum by the new value minus the old. |
| Slug.Slugify | pest_akinator.py:18-22 | The result is the fallback exactly when the lower-cased input has no maximal run of `[a-z0-9]`. Otherwise it is those runs, in order, joined by single `_`; this is a slug (non-empty, only `a-z0-9_`, no `__`, no leading or trailing `_`) that keeps the lower-cased letters and digits of the input, in order. |
| Slug.SlugifyExample | pest_akinator.py:18-22 | `"A b"` becomes `"a_b"`. |
| Slug.LowerString | pest_akinator.py:19 | `s.lower()` on ASCII: same length, each `A`-`Z` becomes the letter 32 code points later (`a`-`z`), every other character unchanged. |
| Slug.LowerStringOfLower | pest_akinator.py:19 | A string without upper-case letters is its own lower-case form. |
| Slug.ReplaceRuns | pest_akinator.py:20 | `re.sub(r'[^a-z0-9]+', '_', s)`: each maximal run of other characters becomes one `_`. Its meaning is stated by `Slug.ReplaceRunsJoinsWords` and `Slug.ReplaceRunsShape`. |
| Slug.SquashUnderscores | pest_akinator.py:21 | `re.sub(r'_+', '_', s)`: each run of `_` becomes one `_`. `Slug.SquashAfterReplaceIsNoOp` shows it changes nothing after `ReplaceRuns`. |
| Slug.Strip | pest_akinator.py:21 | `.strip('_')`: drops leading and trailing `_`. `Slug.StripKeepsWordChars` and `Slug.CleanIsJoinedWords` state what it keeps. |
| Slug.Clean | pest_akinator.py:19-21 | The three passes in order, before the fallback. `Slug.CleanIsJoinedWords` and `Slug.CleanIsSlug` state its meaning. |
| Slug.Words | pest_akinator.py:20 | The maximal runs of `[a-z0-9]`, in order, each non-empty; a word character at the front starts the first word. |
| Slug.Join | pest_akinator.py:20-21 | The words joined by single `_`. |
| Slug.ReplaceRunsJoinsWords | pest_akinator.py:20 | After the run replacement the string is the words joined by `_`, with one `_` in front when the input starts with a non-word character and one at the end when it ends with one after some word. |
| Slug.CleanIsJoinedWords | pest_akinator.py:19-21 | The cleaned name is exactly the words of the lower-cased name joined by single `_`, and it is empty exactly when there are no words. |
| Slug.CleanIsSlug | pest_akinator.py:19-21 | The lower/replace/squash/strip pipeline yields a slug or the empty string, and it keeps exactly the alphanumeric characters. |
| Slug.ReplaceRunsShape | pest_akinator.py:20 | Replacing every run of non-alphanumerics by `_` gives only slug characters and no `__`. It keeps the alphanumerics and a leading alphanumeric. |
| Slug.SquashAfterReplaceIsNoOp | pest_akinator.py:20-21 | After the run replacement, collapsing `_+` changes nothing. |
| Slug.StripKeepsWordChars | pest_akinator.py:21 | `strip('_')` removes only underscores. |
| Slug.SlugIsFixedPoint | pest_akinator.py:18-22 | Slugifying a slug returns it unchanged. |
| Slug.SlugifyIdempotent | pest_akinator.py:18-22 | Slugifying twice gives the same result as slugifying once, whenever the first call does not fall back. |
| StringOrder.Less | pest_akinator.py:143 | Python's `<` on strings: code point by code point, a proper prefix first. `StringOrder.LessTransitive`, `StringOrder.LessTotal` and `StringOrder.LessAsymmetric` make it a strict total order. |
| StringOrder.LessAsymmetric | pest_akinator.py:143 | Two strings are never each smaller than the other. |
| StringOrder.LessTransitive | pest_akinator.py:143 | The string order `sorted` uses is transitive. |
| StringOrder.LessTotal | pest_akinator.py:143 | Of two different strings, one is smaller. |
| StringOrder.Sorted | pest_akinator.py:143 | `sorted(list(attrs))` of a set is strictly ascending and has the same elements and the same count. |
| Catalog.AttrProb | pest_akinator.py:54 | An attribute's probability is the record's entry, or 0.5 when the record lists no entry for it. |
| Catalog.KeyById | pest_akinator.py:127 | `{p["id"]: p for p in raw}` yields a well-formed ordered dictionary, or fails. |
| Catalog.KeyByIdFails | pest_akinator.py:127 | Keying fails exactly when some record has no id. |
| Catalog.KeyByIdHasEveryId | pest_akinator.py:127 | Every record's id is a key. |
| Catalog.KeyByIdOnlyIds | pest_akinator.py:127 | Every key is some record's id. |
| Catalog.KeyByIdLastWins | pest_akinator.py:127 | Every record is stored under its own id, and a repeated id keeps the last record that carries it. |
| Catalog.FirstIds | pest_akinator.py:127 | The ids of the records that are the first to carry their id, in record order; each is some record's id. |
| Catalog.KeyByIdOrder | pest_akinator.py:127 | The key order of the keyed catalog is `FirstIds`: each id sits where it first occurs, and a repeated id keeps that position. This is the catalog order the session's weights and the tie-break of `top_candidates` inherit. |
| Catalog.FirstIdsOfDistinct | pest_akinator.py:127 | With pairwise distinct ids, the first ids are all the ids, in record order. |
| Catalog.KeyByIdDistinct | pest_akinator.py:127 | Records with pairwise distinct ids are keyed successfully, in record order. |
| Catalog.Keyed | pest_akinator.py:123-131 | A list is keyed by id, an object is taken as it is, anything else is the empty catalog. Keying fails only for a list that has a record without an id. |
| Catalog.AttributeUniverse | pest_akinator.py:140-142 | Every attribute name some record's table lists. `Akinator.AttributesOfAll` ties the loop of `get_all_attributes` to it. |
| Catalog.DefaultQuestion | pest_akinator.py:149 | The fallback question is the fixed text `¿El atributo '`, then the attribute, then the fixed text `' está presente?`, and nothing else. |
| Catalog.DefaultQuestionInjective | pest_akinator.py:149 | Different attributes get different fallback questions. |
| Update.RawLikelihood | pest_akinator.py:55-60 | p for "yes", 1-p for "no", 1 for any other answer. `Update.Likelihood` bounds the floored factor by it. |
| Update.Likelihood | pest_akinator.py:54-61 | The factor is at least `1e-9` and at least the raw likelihood (p for "yes", 1-p for "no", 1 otherwise), and it is one of the two. |
| Update.Reweighted | pest_akinator.py:52-61 | Reweighting keeps the keys and their order. |
| Update.MapAllIsReweighted | pest_akinator.py:52-61 | Applying the loop's factor to every key gives `Reweighted`. Together with `Dicts.MapFirstEnds`, which says the key-order traversal ends at that map, it ties the loop of `update` to `Reweighted`. |
| Dicts.MapFirstEnds | pest_akinator.py:40-42 | Traversing every key in key order and updating each entry ends at the function applied to every entry. |
| Update.ResetUniform | pest_akinator.py:37-39 | `{k: 1.0 / n ...}` with `n = len(...) or 1`: the same keys, in order. `Update.NormalizedSumsToOne` shows each weight is 1/n. |
| Update.Normalized | pest_akinator.py:35-42 | Normalizing keeps the keys and their order. |
| Update.Uniform | pest_akinator.py:28-33 | The starting weights have the catalog's keys, in order. |
| Update.UniformIsDistribution | pest_akinator.py:28-33 | Every pest starts at 1/n, and the weights form a distribution. |
| Update.UniformSumsToOne | pest_akinator.py:30-31 | n weights of 1/n sum to 1. |
| Update.NormalizedSumsToOne | pest_akinator.py:35-42 | A non-empty table sums to 1 after `normalize`. Each weight is divided by the total when the total is positive, and is 1/n otherwise. |
| Update.ReweightedPositive | pest_akinator.py:52-61 | Positive weights stay positive after reweighting, thanks to the floor. |
| Update.UpdateKeepsDistribution | pest_akinator.py:44-63 | `update` maps a distribution to a distribution over the same keys. The reweighted total is positive, so `normalize` divides and does not reset. |
| Update.UnknownAnswerKeepsWeights | pest_akinator.py:59-62 | An answer other than "yes" or "no" leaves a distribution unchanged. |
| Update.SinglePestStaysCertain | pest_akinator.py:44-63 | With a single pest, its weight is 1 after any answer. |
| InfoGain.YesPost | pest_akinator.py:79-82 | `yes_post` has the weights' keys, in order. |
| InfoGain.NoPost | pest_akinator.py:79-83 | `no_post` has the weights' keys, in order. |
| InfoGain.AnswerMassesSplitTotal | pest_akinator.py:76-84 | P_yes + P_no equals the current total mass, which is 1 for a distribution. |
| InfoGain.PosteriorsNonNegative | pest_akinator.py:79-84 | When weights are non-negative and probabilities lie in [0, 1], both posteriors and both masses are non-negative. |
| InfoGain.Positives | pest_akinator.py:66 | `[p for p in ps if p > 0]`. `InfoGain.PositivesOnly`, `InfoGain.PositivesCount` and `InfoGain.PositivesAppend` together state its meaning: which entries, how many times each, and in what order. |
| InfoGain.Entropy | pest_akinator.py:65-69 | 0 when no entry is positive, else minus the sum of p·log2(p) over the positive entries. `InfoGain.EntropyOfNoMass` and `InfoGain.EntropyIgnoresNonPositive` state its properties. |
| InfoGain.ScaledPositives | pest_akinator.py:90-92 | The positive posterior entries divided by the posterior mass, in key order. `InfoGain.ScaledPositivesOfScaled` states its meaning. |
| InfoGain.PosteriorEntropy | pest_akinator.py:89-92 | The entropy of a posterior divided by its mass, or 0 when the mass is not positive. `InfoGain.ScaledPosteriorEntropy` states its meaning. |
| InfoGain.Gain | pest_akinator.py:94-97 | Current entropy minus the mass-weighted posterior entropies. |
| InfoGain.ExpectedGain | pest_akinator.py:71-98 | `expected_entropy_after` as a function of the weights. `InfoGain.UninformativeAttributeGainsNothing`, `InfoGain.NoPestsNoGain` and `InfoGain.BalancedPosteriorsNoGain` state its properties. |
| InfoGain.PositivesOnly | pest_akinator.py:66-68 | The entropy filter keeps exactly the positive entries: every entry it returns is positive and every positive entry is in it. It is empty exactly when no entry is positive (`if not ps`), and filtering twice changes nothing. |
| InfoGain.PositivesCount | pest_akinator.py:66 | Every positive value is kept exactly as many times as it occurs in the input, and no other value is kept. |
| InfoGain.PositivesAppend | pest_akinator.py:66 | The filter keeps the input order: filtering a concatenation gives the filtered parts concatenated. |
| InfoGain.EntropyOfNoMass | pest_akinator.py:66-68 | Entropy is 0 when no entry is positive. |
| InfoGain.EntropyIgnoresNonPositive | pest_akinator.py:66-69 | Entropy depends only on the positive entries. |
| InfoGain.ScaledPositivesOfScaled | pest_akinator.py:90-93 | Dividing the positive entries of weights scaled by c > 0 by c gives back the positive weights. |
| InfoGain.ScaledPosteriorEntropy | pest_akinator.py:90-93 | A posterior that is the weights scaled by c > 0 has, once divided by its mass, the current entropy. |
| InfoGain.UninformativeAttributeGainsNothing | pest_akinator.py:71-98 | When every pest shares the same probability (for instance an attribute no record lists, so 0.5 for all), the expected gain is 0. |
| InfoGain.NoPestsNoGain | pest_akinator.py:71-98 | With no pests the gain is 0. |
| InfoGain.BalancedPosteriorsNoGain | pest_akinator.py:88-98 | Posteriors of masses c and 1-c that each keep the current entropy give a gain of 0. |
| InfoGain.UniformAttributePosteriors | pest_akinator.py:76-84 | Under a shared probability c, P_yes = c and P_no = 1-c. |
| InfoGain.YesPostScaled | pest_akinator.py:79-82 | Under a shared probability c, `yes_post` is the weights scaled by c. |
| InfoGain.NoPostScaled | pest_akinator.py:79-83 | Under a shared probability c, `no_post` is the weights scaled by 1-c. |
| Ranking.Items | pest_akinator.py:114 | `current_probs.items()` lists each key with its weight, in key order. |
| Ranking.SliceEnd | pest_akinator.py:114 | The length of Python's `[:n]`, including negative n. |
| Ranking.SortDesc | pest_akinator.py:114 | `sorted(..., key=lambda x: x[1], reverse=True)`, an insertion sort. `Ranking.SortDescDescending`, `Ranking.SortDescPermutes` and `Ranking.SortDescStable` state its meaning. |
| Ranking.Top | pest_akinator.py:113-115 | The sorted items cut to `[:n]`. `Ranking.TopFacts` states its meaning. |
| Ranking.InsertDescending | pest_akinator.py:114 | Inserting into a descending list keeps it descending. |
| Ranking.InsertMultiset | pest_akinator.py:114 | Inserting adds exactly one element. |
| Ranking.SortDescDescending | pest_akinator.py:114 | The sort is descending by weight. |
| Ranking.SortDescPermutes | pest_akinator.py:114 | The sort is a permutation of the items. |
| Ranking.SortDescStable | pest_akinator.py:114 | The sort is stable: items of equal weight keep their catalog order. |
| Ranking.TopFacts | pest_akinator.py:113-115 | The top list has the slice's length and is descending. Every entry is a pest with its weight. No pest left out is heavier than one listed. Equal weights keep their catalog order. |
| Ranking.PrefixLeavesNothingHeavier | pest_akinator.py:114 | A prefix of the descending permutation leaves out nothing heavier than what it keeps. |
| Sessions.Session.constructor | pest_akinator.py:26-33 | A new session has uniform weights over the catalog, which form a distribution, and nothing asked. |
| Sessions.Session.Normalize | pest_akinator.py:35-42 | The division loop leaves `Normalized` of the old weights, and `asked` is unchanged. |
| Sessions.Session.Update | pest_akinator.py:44-63 | With no weights, nothing changes. Otherwise the weights become `Normalized(Reweighted(old))` and the attribute is added to `asked`. |
| Sessions.Session.ExpectedEntropyAfter | pest_akinator.py:71-98 | The returned gain is `ExpectedGain` of the current weights. |
| Sessions.AnswerPosteriors | pest_akinator.py:76-84 | The accumulation loop yields P_yes as the sum of `yes_post`, with `yes_post` and `no_post` as specified. |
| Sessions.Unasked | pest_akinator.py:101 | The remaining list holds exactly the listed attributes that are not asked. |
| Sessions.UnaskedIndices | pest_akinator.py:101 | The positions of the list that hold an unasked attribute: strictly increasing, and every unasked position is among them. |
| Sessions.UnaskedAt | pest_akinator.py:101 | The remaining list is the list read at those positions, in increasing order, so it keeps every unasked entry, repeats included, in list order. |
| Sessions.GainsByPosition | pest_akinator.py:101-107 | The gains of the remaining attributes are the gains of the whole list at the unasked positions. |
| Sessions.NoneBeatsPosition | pest_akinator.py:104-111 | No remaining gain beats -1 exactly when no unasked position's gain does. |
| Sessions.FirstBestPosition | pest_akinator.py:104-111 | The first best remaining gain sits at the first unasked position of the whole list with the largest gain. |
| Sessions.ChoiceByPosition | pest_akinator.py:100-111 | A choice over the remaining attributes, restated by position in `attributes_list`. |
| Sessions.Gains | pest_akinator.py:107 | The gain of each remaining attribute, in order. |
| Sessions.Session.ChooseBestAttribute | pest_akinator.py:100-111 | The result is None when everything is asked, and None exactly when no gain beats -1. Otherwise it is the attribute at the first position of `attributes_list` that is unasked and has the largest gain among the unasked ones, a gain above -1. Equivalently, it is the first index of the largest gain in the remaining list. |
| Sessions.ChosenStep | pest_akinator.py:107-110 | A strictly larger gain takes over the choice; an equal or smaller one leaves it. |
| Sessions.ChosenAtEnd | pest_akinator.py:104-111 | At the end of the scan, the choice is the first best gain, or there is none and no gain beats -1. |
| Sessions.Session.TopCandidates | pest_akinator.py:113-115 | Same as `Ranking.TopFacts`, stated on the session's weights. |
| Akinator.RequestedId | pest_akinator.py:155-156 | The id is the record's own non-empty id, else the slug of its name, else the slug of "pest". |
| Akinator.AssignedId | pest_akinator.py:158-161 | A free id is kept; a taken id gets `_` and the suffix. |
| Akinator.AssignedIdIsFresh | pest_akinator.py:158-161 | The stored id is a new key whenever the suffixed id is free; the code does not check that case. |
| Akinator.NamelessPestId | pest_akinator.py:156 | A record with neither id nor name is filed as `pest`. |
| Akinator.RequestedIdIsSlug | pest_akinator.py:155-156 | A derived id is a slug or the fallback. |
| Akinator.StoreKeepsKeyed | pest_akinator.py:161-162 | Storing a record whose id equals its key keeps every record under its own id. |
| Akinator.AttributesOfFirstStep | pest_akinator.py:141-142 | One more record adds exactly its own attribute names. |
| Akinator.AttributesOfAll | pest_akinator.py:140-142 | Going over every record collects the whole attribute universe. |
| Akinator.PestAkinator.constructor | pest_akinator.py:118-121 | The engine starts with the keyed catalog and the registry. |
| Akinator.PestAkinator.Reload | pest_akinator.py:123-133 | On success the catalog is the keyed catalog and the registry is replaced, and a list-keyed catalog has every record under its own id. When a record lacks an id, nothing changes and `ok` is false. |
| Akinator.PestAkinator.CreateSession | pest_akinator.py:135-137 | It reloads. On success it returns a fresh session with uniform weights over the reloaded catalog and nothing asked, and the registry is replaced. When the reload fails it returns null and neither the catalog nor the registry changes. |
| Akinator.PestAkinator.GetAllAttributes | pest_akinator.py:139-143 | The result is strictly ascending and holds exactly the attribute universe, each name once. |
| Akinator.PestAkinator.GetQuestionInfo | pest_akinator.py:145-151 | The registry's question wins, else the fallback question is used. The image is the registry's, else none. The attribute is echoed. |
| Akinator.PestAkinator.AddNewPest | pest_akinator.py:153-164 | The returned id is the requested id, suffixed on a collision. The record is stored under it with that id. Every other entry is unchanged, the key is appended when the id is new (a suffixed id that is itself taken keeps that key's position), and a catalog keyed by id stays keyed by id. |

## Left out

- `app.py`: the web front end. It calls engine functions that do not exist in `pest_akinator.py`, and it holds the 0.85 / 12-question stopping rule.
- File I/O, that is `_load_json`, `_save_json` and the persistence in `add_new_pest`. What `_load_json` read is a parameter of `Reload`, `CreateSession` and the constructor. A missing catalog file reads as `{}`, that is `PestTable` of the empty dictionary, and gives the empty catalog. A missing registry file, or one holding a falsy JSON value (`{}`, `[]`, `null`, `0`, `""`), gives the empty map through `or {}`.
- Floating point:
  - weights are exact `real`s;
  - `math.log(p, 2)` is a parameter `log2`, so the numeric value of entropy and gain is not modelled.
- `float(...)` parsing of attribute probabilities: they are reals already.
- `uuid.uuid4()`: the slug fallback and the collision suffix are parameters. Neither their length (8 and 6 characters) nor their content (lower-case hex digits only) is constrained. So the model does not show that a fallback result of `_slugify` is itself a slug.
- A file that exists but is not valid JSON (for instance a zero-byte file) makes `json.load` raise out of `reload`. This is not modelled.
- Slug.Slugify: `str.lower` is modelled for ASCII letters only.
- Non-string or `null` JSON ids and names are not modelled.
  - An id is a string or absent.
  - A name that is absent becomes `"pest"`.
  - A JSON `null` name, for which `_slugify` would raise, is not modelled.
- A truthy non-object question file, which would make `get_question_info` raise, is not modelled.
- Catalog.QuestionEntry: a registry entry whose `"question"` is JSON `null` is not representable. There `q.get("question", ...)` (`pest_akinator.py:149`) returns `None`, not the fallback question. A registry entry that is not an object, on which `q.get` raises, is not representable either.
- Akinator.PestAkinator.constructor requires a catalog that can be keyed. In the source, the `KeyError` of `reload` escapes the constructor.
- Akinator.PestAkinator.AddNewPest:
  - the caller's record is not mutated, because the model stores and returns an updated copy;
  - the aliasing of `self.pests` with the catalog of a live `Session` is not modelled, so a session's catalog is an immutable value.
- Sessions.Session.Normalize: the division loop runs on a local copy of the weights that is stored afterwards, not on the field itself, so aliasing of `current_probs` is not modelled.
- Sessions.Session.Update:
  - the multiplication loop runs on a local copy that is stored afterwards, not on the field itself;
  - its `ensures` does not restate that a distribution stays a distribution, which `Update.UpdateKeepsDistribution` proves about the same functions.
- Sessions.Session.TopCandidates: the default `n=5` is an explicit argument.
- `entropy` as a method of the session: it is the function `InfoGain.Entropy`.
