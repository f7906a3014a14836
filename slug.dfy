/** `_slugify`: turns a free-text name into an identifier made of lower-case
    letters, digits and single underscores. */
module Slug {

  /** `str.lower` on one character, restricted to ASCII: `A`-`Z` become `a`-`z`. */
  function Lower(c: char): char
  {
    if 'A' <= c <= 'Z' then (c as int + 32) as char else c
  }

  /** `s.lower()` */
  function LowerString(s: string): (r: string)
    ensures |r| == |s|
    ensures forall i :: 0 <= i < |r| ==> !('A' <= r[i] <= 'Z')
    ensures forall i :: 0 <= i < |s| && !('A' <= s[i] <= 'Z') ==> r[i] == s[i]
    ensures forall i :: 0 <= i < |s| && 'A' <= s[i] <= 'Z' ==> r[i] == (s[i] as int + 32) as char
  {
    seq(|s|, i requires 0 <= i < |s| => Lower(s[i]))
  }

  /** Lower-casing a string without upper-case letters changes nothing. */
  lemma LowerStringOfLower(s: string)
    requires forall i :: 0 <= i < |s| ==> !('A' <= s[i] <= 'Z')
    ensures LowerString(s) == s
  {
  }

  /** The class `[a-z0-9]` of the pattern. */
  predicate IsWordChar(c: char)
  {
    'a' <= c <= 'z' || '0' <= c <= '9'
  }

  /** `re.sub(r'[^a-z0-9]+', '_', s)`: each maximal run of other characters
      becomes one `_` (emitted at the run's last character). */
  function ReplaceRuns(s: string): string
  {
    if s == [] then []
    else if IsWordChar(s[0]) then [s[0]] + ReplaceRuns(s[1..])
    else if |s| > 1 && !IsWordChar(s[1]) then ReplaceRuns(s[1..])
    else "_" + ReplaceRuns(s[1..])
  }

  /** `re.sub(r'_+', '_', s)` */
  function SquashUnderscores(s: string): string
  {
    if s == [] then []
    else if s[0] == '_' && |s| > 1 && s[1] == '_' then SquashUnderscores(s[1..])
    else [s[0]] + SquashUnderscores(s[1..])
  }

  function StripLeading(s: string): string
  {
    if s != [] && s[0] == '_' then StripLeading(s[1..]) else s
  }

  function StripTrailing(s: string): string
  {
    if s != [] && s[|s| - 1] == '_' then StripTrailing(s[..|s| - 1]) else s
  }

  /** `.strip('_')` */
  function Strip(s: string): string
  {
    StripTrailing(StripLeading(s))
  }

  /** The cleaned string, before the fallback for an empty result. */
  function Clean(s: string): string
  {
    Strip(SquashUnderscores(ReplaceRuns(LowerString(s))))
  }

  /** `_slugify(s)`; `fallback` stands for `str(uuid.uuid4())[:8]`. */
  function Slugify(s: string, fallback: string): (r: string)
    ensures Clean(s) == [] ==> r == fallback
    ensures Clean(s) != [] ==> IsSlug(r) && WordChars(r) == WordChars(LowerString(s))
    ensures r == if Words(LowerString(s)) == [] then fallback else Join(Words(LowerString(s)))
  {
    CleanIsSlug(s);
    CleanIsJoinedWords(s);
    if Clean(s) != [] then Clean(s) else fallback
  }

  /** A maximal run of `[a-z0-9]`. */
  predicate IsWord(w: string)
  {
    w != [] && forall i :: 0 <= i < |w| ==> IsWordChar(w[i])
  }

  /** The maximal runs of letters and digits of `s`, in order: the words a
      slug keeps, whatever separates them. */
  function Words(s: string): (ws: seq<string>)
    ensures s != [] && IsWordChar(s[0]) ==> ws != [] && ws[0] != [] && ws[0][0] == s[0]
  {
    if s == [] then []
    else if !IsWordChar(s[0]) then Words(s[1..])
    else
      var rest := Words(s[1..]);
      if |s| > 1 && IsWordChar(s[1]) then [[s[0]] + rest[0]] + rest[1..]
      else [[s[0]]] + rest
  }

  /** The words joined by single underscores. */
  function Join(ws: seq<string>): string
  {
    if ws == [] then [] else if |ws| == 1 then ws[0] else ws[0] + "_" + Join(ws[1..])
  }

  predicate OnlySlugChars(s: string)
  {
    forall i :: 0 <= i < |s| ==> IsWordChar(s[i]) || s[i] == '_'
  }

  predicate NoDoubleUnderscore(s: string)
  {
    forall i :: 0 <= i < |s| - 1 ==> !(s[i] == '_' && s[i + 1] == '_')
  }

  /** What `_slugify` promises of a non-empty cleaned name. */
  predicate IsSlug(s: string)
  {
    && s != []
    && OnlySlugChars(s)
    && NoDoubleUnderscore(s)
    && s[0] != '_'
    && s[|s| - 1] != '_'
  }

  /** The letters and digits of a string, in order. */
  function WordChars(s: string): string
  {
    if s == [] then [] else (if IsWordChar(s[0]) then [s[0]] else []) + WordChars(s[1..])
  }

  // ---------------------------------------------------------------------------
  // Properties of each step

  lemma {:induction false} ReplaceRunsShape(s: string)
    ensures OnlySlugChars(ReplaceRuns(s)) && NoDoubleUnderscore(ReplaceRuns(s))
    ensures s != [] && IsWordChar(s[0]) ==> ReplaceRuns(s) != [] && ReplaceRuns(s)[0] == s[0]
    ensures WordChars(ReplaceRuns(s)) == WordChars(s)
  {
    if s != [] {
      ReplaceRunsShape(s[1..]);
      var r := ReplaceRuns(s[1..]);
      if IsWordChar(s[0]) {
        WordCharsAppend([s[0]], r);
      } else if |s| > 1 && !IsWordChar(s[1]) {
      } else {
        WordCharsAppend("_", r);
      }
    }
  }

  lemma {:induction false} WordCharsAppend(a: string, b: string)
    ensures WordChars(a + b) == WordChars(a) + WordChars(b)
  {
    if a != [] {
      assert (a + b)[1..] == a[1..] + b;
      WordCharsAppend(a[1..], b);
    } else {
      assert a + b == b;
    }
  }

  /** On a string with no `__` the second substitution changes nothing. */
  lemma {:induction false} SquashNoOp(s: string)
    requires NoDoubleUnderscore(s)
    ensures SquashUnderscores(s) == s
  {
    if s != [] {
      SquashNoOp(s[1..]);
    }
  }

  /** `StripLeading` drops some `k` leading underscores and stops at a non-`_`. */
  lemma {:induction false} StripLeadingShape(s: string) returns (k: nat)
    ensures StripLeading(s) == [] || StripLeading(s)[0] != '_'
    ensures k <= |s| && StripLeading(s) == s[k..] && forall i :: 0 <= i < k ==> s[i] == '_'
  {
    if s != [] && s[0] == '_' {
      var j := StripLeadingShape(s[1..]);
      k := j + 1;
      assert StripLeading(s) == s[k..];
    } else {
      k := 0;
    }
  }

  /** `StripTrailing` keeps some prefix of length `k`, ending in a non-`_`. */
  lemma {:induction false} StripTrailingShape(s: string) returns (k: nat)
    ensures StripTrailing(s) == [] || StripTrailing(s)[|StripTrailing(s)| - 1] != '_'
    ensures k <= |s| && StripTrailing(s) == s[..k] && forall i :: k <= i < |s| ==> s[i] == '_'
  {
    if s != [] && s[|s| - 1] == '_' {
      var p := s[..|s| - 1];
      k := StripTrailingShape(p);
      assert StripTrailing(s) == s[..k];
    } else {
      k := |s|;
    }
  }

  /** Dropping `_` from the ends keeps the letters and digits. */
  lemma {:induction false} WordCharsUnderscores(s: string)
    requires forall i :: 0 <= i < |s| ==> s[i] == '_'
    ensures WordChars(s) == []
  {
    if s != [] {
      WordCharsUnderscores(s[1..]);
    }
  }

  lemma StripLeadingKeepsWordChars(s: string)
    ensures WordChars(StripLeading(s)) == WordChars(s)
  {
    var a := StripLeadingShape(s);
    assert s == s[..a] + s[a..];
    WordCharsAppend(s[..a], s[a..]);
    WordCharsUnderscores(s[..a]);
  }

  lemma StripTrailingKeepsWordChars(t: string)
    ensures WordChars(StripTrailing(t)) == WordChars(t)
  {
    var b := StripTrailingShape(t);
    assert t == t[..b] + t[b..];
    WordCharsAppend(t[..b], t[b..]);
    WordCharsUnderscores(t[b..]);
  }

  lemma StripKeepsWordChars(s: string)
    ensures WordChars(Strip(s)) == WordChars(s)
  {
    StripLeadingKeepsWordChars(s);
    StripTrailingKeepsWordChars(StripLeading(s));
  }

  /** The cleaned name, when not empty, is a slug with the input's letters and digits. */
  lemma CleanIsSlug(s: string)
    ensures Clean(s) != [] ==> IsSlug(Clean(s))
    ensures WordChars(Clean(s)) == WordChars(LowerString(s))
  {
    var r := ReplaceRuns(LowerString(s));
    ReplaceRunsShape(LowerString(s));
    SquashNoOp(r);
    StripKeepsWordChars(r);
    var a := StripLeadingShape(r);
    var t := r[a..];
    var b := StripTrailingShape(t);
    assert Clean(s) == t[..b];
    if b > 0 {
      assert t[..b][0] == t[0];
    }
  }

  /** The second substitution of `_slugify` never changes anything. */
  lemma SquashAfterReplaceIsNoOp(s: string)
    ensures SquashUnderscores(ReplaceRuns(s)) == ReplaceRuns(s)
  {
    ReplaceRunsShape(s);
    SquashNoOp(ReplaceRuns(s));
  }

  lemma {:induction false} ReplaceRunsOnSlugChars(s: string)
    requires OnlySlugChars(s) && NoDoubleUnderscore(s)
    ensures ReplaceRuns(s) == s
  {
    if s != [] {
      ReplaceRunsOnSlugChars(s[1..]);
    }
  }

  /** A slug is its own slug: `_slugify` is idempotent. */
  lemma SlugIsFixedPoint(s: string, fallback: string)
    requires IsSlug(s)
    ensures Slugify(s, fallback) == s
  {
    assert LowerString(s) == s;
    ReplaceRunsOnSlugChars(s);
    SquashNoOp(s);
  }

  lemma SlugifyIdempotent(s: string, fallback: string)
    requires Clean(s) != []
    ensures Slugify(Slugify(s, fallback), fallback) == Slugify(s, fallback)
  {
    SlugIsFixedPoint(Slugify(s, fallback), fallback);
  }

  // ---------------------------------------------------------------------------
  // The slug is the words of the name joined by single underscores

  /** Every element of `Words(s)` is a word. */
  lemma {:induction false} WordsAreWords(s: string)
    ensures forall i :: 0 <= i < |Words(s)| ==> IsWord(Words(s)[i])
  {
    if s != [] {
      WordsAreWords(s[1..]);
      if IsWordChar(s[0]) && |s| > 1 && IsWordChar(s[1]) {
        var rest := Words(s[1..]);
        var w := [s[0]] + rest[0];
        assert IsWord(w) by {
          assert IsWord(rest[0]);
          forall i | 0 <= i < |w| ensures IsWordChar(w[i]) {
            if i > 0 { assert w[i] == rest[0][i - 1]; }
          }
        }
        assert Words(s) == [w] + rest[1..];
      }
    }
  }

  /** A string without words has no letter or digit at its end. */
  lemma {:induction false} NoWordsLast(t: string)
    requires t != [] && Words(t) == []
    ensures !IsWordChar(t[|t| - 1])
  {
    if |t| > 1 {
      NoWordsLast(t[1..]);
      assert t[1..][|t| - 2] == t[|t| - 1];
    }
  }

  /** Joining a first word extended by one character in front. */
  lemma JoinExtend(c: char, ws: seq<string>)
    requires ws != []
    ensures Join([[c] + ws[0]] + ws[1..]) == [c] + Join(ws)
  {
    var vs := [[c] + ws[0]] + ws[1..];
    assert vs[1..] == ws[1..];
  }

  /** Joining one more word in front. */
  lemma JoinCons(w: string, ws: seq<string>)
    ensures Join([w] + ws) == if ws == [] then w else w + "_" + Join(ws)
  {
    assert ([w] + ws)[1..] == ws;
  }

  /** Joined words start and end with a letter or digit. */
  lemma {:induction false} JoinEdges(ws: seq<string>)
    requires ws != [] && forall i :: 0 <= i < |ws| ==> IsWord(ws[i])
    ensures Join(ws) != [] && IsWordChar(Join(ws)[0]) && IsWordChar(Join(ws)[|Join(ws)| - 1])
  {
    assert IsWord(ws[0]);
    if |ws| > 1 {
      var rest := ws[1..];
      assert forall i :: 0 <= i < |rest| ==> IsWord(rest[i]) by {
        forall i | 0 <= i < |rest| ensures IsWord(rest[i]) { assert rest[i] == ws[i + 1]; }
      }
      JoinEdges(rest);
      var j := Join(rest);
      assert Join(ws) == ws[0] + "_" + j;
      assert Join(ws)[0] == ws[0][0];
      assert Join(ws)[|Join(ws)| - 1] == j[|j| - 1];
    }
  }

  /** The `_` the first substitution leaves before the first word. */
  function Lead(t: string): string
  {
    if t != [] && !IsWordChar(t[0]) then "_" else ""
  }

  /** The `_` it leaves after the last word. */
  function Trail(t: string): string
  {
    if t != [] && Words(t) != [] && !IsWordChar(t[|t| - 1]) then "_" else ""
  }

  /** `re.sub(r'[^a-z0-9]+', '_', t)` is the words of `t` joined by `_`, with
      one more `_` where `t` starts or ends with other characters. */
  lemma {:induction false} ReplaceRunsJoinsWords(t: string)
    ensures ReplaceRuns(t) == Lead(t) + Join(Words(t)) + Trail(t)
  {
    if t != [] {
      var u := t[1..];
      ReplaceRunsJoinsWords(u);
      if IsWordChar(t[0]) {
        WordHeadJoinsWords(t);
      } else if u != [] {
        assert u[|u| - 1] == t[|t| - 1];
      }
    }
  }

  /** The step of `ReplaceRunsJoinsWords` for a string that starts with a
      letter or digit. */
  lemma WordHeadJoinsWords(t: string)
    requires t != [] && IsWordChar(t[0])
    requires ReplaceRuns(t[1..]) == Lead(t[1..]) + Join(Words(t[1..])) + Trail(t[1..])
    ensures ReplaceRuns(t) == Lead(t) + Join(Words(t)) + Trail(t)
  {
    var u := t[1..];
    if u == [] {
      assert Words(t) == [[t[0]]];
    } else if IsWordChar(u[0]) {
      WordHeadExtendsWord(t);
    } else {
      WordHeadBeforeGap(t);
    }
  }

  /** A letter or digit followed by another extends the first word. */
  lemma WordHeadExtendsWord(t: string)
    requires |t| > 1 && IsWordChar(t[0]) && IsWordChar(t[1])
    requires ReplaceRuns(t[1..]) == Lead(t[1..]) + Join(Words(t[1..])) + Trail(t[1..])
    ensures ReplaceRuns(t) == Lead(t) + Join(Words(t)) + Trail(t)
  {
    var u := t[1..];
    var ws := Words(u);
    assert Words(t) == [[t[0]] + ws[0]] + ws[1..];
    JoinExtend(t[0], ws);
    SameTrail(t);
    PrependToJoined([t[0]], ReplaceRuns(u), Join(ws), Trail(u), ReplaceRuns(t), Join(Words(t)), Lead(t), Trail(t));
  }

  /** Dropping a leading letter or digit keeps the `_` after the last word. */
  lemma SameTrail(t: string)
    requires |t| > 1 && IsWordChar(t[1])
    ensures Trail(t) == Trail(t[1..])
  {
    var u := t[1..];
    assert u[|u| - 1] == t[|t| - 1];
    assert Words(u) != [];
    assert Words(t) != [] by {
      if !IsWordChar(t[0]) {
        assert Words(t) == Words(u);
      }
    }
  }

  /** The sequence algebra of `WordHeadExtendsWord`. */
  lemma PrependToJoined(c: string, ru: string, ju: string, tu: string, rt: string, jt: string, lt: string, tt: string)
    requires ru == "" + ju + tu && rt == c + ru
    requires jt == c + ju && lt == "" && tt == tu
    ensures rt == lt + jt + tt
  {
    assert "" + ju == ju && "" + jt == jt;
  }

  /** A letter or digit followed by other characters ends a word. */
  lemma WordHeadBeforeGap(t: string)
    requires |t| > 1 && IsWordChar(t[0]) && !IsWordChar(t[1])
    requires ReplaceRuns(t[1..]) == Lead(t[1..]) + Join(Words(t[1..])) + Trail(t[1..])
    ensures ReplaceRuns(t) == Lead(t) + Join(Words(t)) + Trail(t)
  {
    var u := t[1..];
    var ws := Words(u);
    assert Words(t) == [[t[0]]] + ws;
    JoinCons([t[0]], ws);
    GapTrail(t);
    AppendAfterGap([t[0]], ReplaceRuns(u), Join(ws), Trail(u), ReplaceRuns(t), Join(Words(t)), Lead(t), Trail(t));
  }

  /** After a word that ends at `t[1]`, the `_` after the last word is the
      rest's, or one of its own when the rest has no word. */
  lemma GapTrail(t: string)
    requires |t| > 1 && IsWordChar(t[0]) && !IsWordChar(t[1])
    ensures Words(t[1..]) == [] ==> Trail(t) == "_" && Trail(t[1..]) == "" && Join(Words(t[1..])) == ""
    ensures Words(t[1..]) != [] ==> Trail(t) == Trail(t[1..])
  {
    var u := t[1..];
    assert u[|u| - 1] == t[|t| - 1];
    if Words(u) == [] {
      NoWordsLast(u);
    }
  }

  /** The sequence algebra of `WordHeadBeforeGap`. */
  lemma AppendAfterGap(c: string, ru: string, ju: string, tu: string, rt: string, jt: string, lt: string, tt: string)
    requires rt == c + ru && ru == "_" + ju + tu && lt == ""
    requires (ju == "" && tu == "" && jt == c && tt == "_") || (jt == c + "_" + ju && tt == tu)
    ensures rt == lt + jt + tt
  {
    assert "" + jt == jt;
    if ju == "" && tu == "" && jt == c && tt == "_" {
      assert ru == "_";
    } else {
      assert c + ("_" + ju + tu) == (c + "_" + ju) + tu;
    }
  }

  /** `strip('_')` removes exactly the outer underscores around joined words. */
  lemma StripAroundWords(pre: string, j: string, post: string)
    requires pre == "" || pre == "_"
    requires post == "" || post == "_"
    requires j == [] ==> post == ""
    requires j != [] ==> IsWordChar(j[0]) && IsWordChar(j[|j| - 1])
    ensures Strip(pre + j + post) == j
  {
    var x := pre + j + post;
    assert StripLeading(x) == j + post by {
      if pre == "_" {
        assert x[0] == '_' && x[1..] == j + post;
      } else {
        assert x == j + post;
      }
    }
    assert StripTrailing(j) == j;
    if post == "_" {
      var y := j + post;
      assert y[|y| - 1] == '_' && y[..|y| - 1] == j;
      assert StripTrailing(y) == StripTrailing(j);
    } else {
      assert j + post == j;
    }
  }

  /** The cleaned name is the words of the lower-cased name joined by single
      underscores. */
  lemma CleanIsJoinedWords(s: string)
    ensures Clean(s) == Join(Words(LowerString(s)))
    ensures Clean(s) == [] <==> Words(LowerString(s)) == []
  {
    var t := LowerString(s);
    var ws := Words(t);
    ReplaceRunsJoinsWords(t);
    SquashAfterReplaceIsNoOp(t);
    WordsAreWords(t);
    if ws != [] {
      JoinEdges(ws);
    }
    StripAroundWords(Lead(t), Join(ws), Trail(t));
  }

  /** Words are kept in order and joined by one underscore: `"A b"` becomes
      `"a_b"`, not `"ab"`. */
  lemma SlugifyExample(fallback: string)
    ensures Slugify("A b", fallback) == "a_b"
  {
    assert LowerString("A b") == "a b" by {
      assert LowerString("b") == "b";
    }
    assert Words("b") == ["b"];
    assert Words(" b") == ["b"];
    assert Words("a b") == ["a", "b"];
  }
}
