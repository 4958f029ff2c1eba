/**
 * The text preprocessing `requestWikidata` applies to a query before it is
 * sent: `preg_replace('/\s\s+/', ' ', trim($query))`.
 */
module Query {
  import opened Text

  /** The characters PHP's `trim` strips by default: space, HT, LF, CR, NUL and VT. */
  const DefaultTrimChars: set<char> := {' ', '\t', '\n', '\r', '\0', '\U{B}'}

  /**
   * Line 186 as written: trim with the default characters, then collapse
   * whitespace runs. The sent query never holds two adjacent whitespace
   * characters, and only whitespace changes: every character of the trimmed
   * query that is neither `\s` nor NUL keeps its place in the order.
   */
  function NormalizeQuery(query: string): (r: string)
    ensures NoDoubleSpace(r)
    ensures NonSpace(r) == NonSpace(Trim(query, DefaultTrimChars))
  {
    var t := Trim(query, DefaultTrimChars);
    CollapseNoDoubleSpace(t);
    CollapseKeepsText(t);
    Collapse(t)
  }

  /**
   * A string that neither starts nor ends with `\s` or NUL and has no two
   * adjacent whitespace characters: the shape a sent query should have.
   */
  ghost predicate Normalized(q: string) {
    && NoDoubleSpace(q)
    && (q == [] || (!IsSpace(q[0]) && q[0] != '\0' && !IsSpace(q[|q| - 1]) && q[|q| - 1] != '\0'))
  }

  /** Collapsing a string whose ends are not whitespace gives a normalised string. */
  lemma CollapseTrimmed(t: string)
    requires t == [] || (!IsSpace(t[0]) && t[0] != '\0' && !IsSpace(t[|t| - 1]) && t[|t| - 1] != '\0')
    ensures Normalized(Collapse(t))
  {
    CollapseNoDoubleSpace(t);
    if t != [] {
      CollapseKeepsLast(t);
    }
  }

  /**
   * Neither end of the trimmed query is a form feed, the one `\s` character
   * that `trim` does not strip.
   */
  predicate FormFeedFreeEnds(query: string) {
    var t := Trim(query, DefaultTrimChars);
    t == [] || (t[0] != '\U{C}' && t[|t| - 1] != '\U{C}')
  }

  /** When the trimmed query does not start or end with a form feed, line 186 yields a normalised query. */
  lemma NormalizeQueryTrimmed(query: string)
    requires FormFeedFreeEnds(query)
    ensures Normalized(NormalizeQuery(query))
  {
    var t := Trim(query, DefaultTrimChars);
    if t != [] {
      KeptEnd(t[0]);
      KeptEnd(t[|t| - 1]);
    }
    CollapseTrimmed(t);
  }

  /** ... and only then: a form feed left at either end makes the result start or end with `\s`. */
  lemma NormalizeQueryTrimmedOnlyIf(query: string)
    requires !FormFeedFreeEnds(query)
    ensures !Normalized(NormalizeQuery(query))
  {
    var t := Trim(query, DefaultTrimChars);
    var r := Collapse(t);
    if t[0] == '\U{C}' {
      assert IsSpace(r[0]);
    } else {
      CollapseKeepsTrailingSpace(t);
    }
  }

  /** A query without any form feed meets the condition. */
  lemma NoFormFeedFreeEnds(query: string)
    requires '\U{C}' !in query
    ensures FormFeedFreeEnds(query)
  {
    var t := Trim(query, DefaultTrimChars);
    var i :| BorderedBy(query, i, t, DefaultTrimChars);
    if t != [] {
      assert t[0] == query[i] && t[|t| - 1] == query[i + |t| - 1];
    }
  }

  /** A character `trim` keeps at an end and that is not a form feed is neither `\s` nor NUL. */
  lemma KeptEnd(c: char)
    requires c != '\U{C}' && c !in DefaultTrimChars
    ensures !IsSpace(c) && c != '\0'
  {
  }

  /** A character that is neither `\s` nor NUL is trimmed by neither character set. */
  lemma NotTrimmed(c: char)
    requires !IsSpace(c) && c != '\0'
    ensures c !in DefaultTrimChars && c !in QueryTrimChars
  {
  }

  /** Normalising a normalised string changes nothing. */
  lemma NormalizedFixpoint(q: string)
    requires Normalized(q)
    ensures NormalizeQuery(q) == q
  {
    if q != [] {
      NotTrimmed(q[0]);
      NotTrimmed(q[|q| - 1]);
    }
    assert Trim(q, DefaultTrimChars) == q;
    CollapseFixpoint(q);
  }

  /** When the trimmed query does not start or end with a form feed, line 186 is idempotent. */
  lemma NormalizeQueryIdempotent(query: string)
    requires FormFeedFreeEnds(query)
    ensures NormalizeQuery(NormalizeQuery(query)) == NormalizeQuery(query)
  {
    NormalizeQueryTrimmed(query);
    NormalizedFixpoint(NormalizeQuery(query));
  }

  /**
   * Counterexample: `trim` leaves a leading form feed, which `\s` then
   * merges with the following space into one space. The result starts with
   * whitespace, and normalising it again removes that space.
   */
  lemma FormFeedEscapesTrim()
    ensures NormalizeQuery("\U{C} X") == " X"
    ensures !Normalized(NormalizeQuery("\U{C} X"))
    ensures NormalizeQuery(NormalizeQuery("\U{C} X")) == "X"
  {
    var q := "\U{C} X";
    assert q[0] !in DefaultTrimChars && q[2] !in DefaultTrimChars;
    assert Trim(q, DefaultTrimChars) == q;
    assert q[1..][1..] == q[2..] == "X";
    assert SpaceRun("X") == 0;
    assert SpaceRun(q[1..]) == 1;
    assert SpaceRun(q) == 2;
    assert Collapse("X") == "X";
    assert Collapse(q) == " X";
    var r := " X";
    assert r[1..] == "X";
    assert TrimStart(r, DefaultTrimChars) == "X";
    assert Trim(r, DefaultTrimChars) == "X";
  }

  /** The evident intent: strip every `\s` character (and NUL) at both ends. */
  const QueryTrimChars: set<char> := DefaultTrimChars + {'\U{C}'}

  /**
   * Line 186 with the form feed added to the trimmed characters: every
   * result is normalised, and only whitespace changes.
   */
  function NormalizeQueryCorrected(query: string): (r: string)
    ensures Normalized(r)
    ensures NonSpace(r) == NonSpace(Trim(query, QueryTrimChars))
  {
    var t := Trim(query, QueryTrimChars);
    CollapseTrimmed(t);
    CollapseKeepsText(t);
    Collapse(t)
  }

  /** The corrected normalisation is idempotent. */
  lemma NormalizeQueryCorrectedIdempotent(query: string)
    ensures NormalizeQueryCorrected(NormalizeQueryCorrected(query)) == NormalizeQueryCorrected(query)
  {
    var q := NormalizeQueryCorrected(query);
    if q != [] {
      NotTrimmed(q[0]);
      NotTrimmed(q[|q| - 1]);
    }
    assert Trim(q, QueryTrimChars) == q;
    CollapseFixpoint(q);
  }

  /** Characters two trim sets treat alike on `s`. */
  ghost predicate AgreeOn(s: string, a: set<char>, b: set<char>) {
    forall k :: 0 <= k < |s| ==> (s[k] in a <==> s[k] in b)
  }

  lemma {:induction false} TrimStartAgrees(s: string, a: set<char>, b: set<char>)
    requires AgreeOn(s, a, b)
    ensures TrimStart(s, a) == TrimStart(s, b)
    decreases |s|
  {
    if s != [] {
      assert s[0] in a <==> s[0] in b;
      TrimStartAgrees(s[1..], a, b);
    }
  }

  lemma {:induction false} TrimEndAgrees(s: string, a: set<char>, b: set<char>)
    requires AgreeOn(s, a, b)
    ensures TrimEnd(s, a) == TrimEnd(s, b)
    decreases |s|
  {
    if s != [] {
      assert s[|s| - 1] in a <==> s[|s| - 1] in b;
      TrimEndAgrees(s[..|s| - 1], a, b);
    }
  }

  /** Trimming with two character sets that agree on the characters of `s` gives the same result. */
  lemma TrimAgrees(s: string, a: set<char>, b: set<char>)
    requires AgreeOn(s, a, b)
    ensures Trim(s, a) == Trim(s, b)
  {
    TrimStartAgrees(s, a, b);
    var t := TrimStart(s, a);
    AgreeOnSuffix(s, t, a, b);
    TrimEndAgrees(t, a, b);
  }

  /** Two trim sets that agree on a string agree on each of its suffixes. */
  lemma AgreeOnSuffix(s: string, t: string, a: set<char>, b: set<char>)
    requires AgreeOn(s, a, b) && |t| <= |s| && t == s[|s| - |t|..]
    ensures AgreeOn(t, a, b)
  {
    forall k | 0 <= k < |t|
      ensures t[k] in a <==> t[k] in b
    {
      assert t[k] == s[|s| - |t| + k];
    }
  }

  /** On queries without a form feed the correction changes nothing. */
  lemma CorrectionAgrees(query: string)
    requires '\U{C}' !in query
    ensures NormalizeQueryCorrected(query) == NormalizeQuery(query)
  {
    assert AgreeOn(query, QueryTrimChars, DefaultTrimChars) by {
      forall k | 0 <= k < |query| ensures (query[k] in QueryTrimChars <==> query[k] in DefaultTrimChars) {
        assert query[k] != '\U{C}';
      }
    }
    TrimAgrees(query, QueryTrimChars, DefaultTrimChars);
  }
}
