/**
 * The PHP string built-ins the Wikidata client relies on, as pure functions
 * over `string` (PHP strings are byte strings; only ASCII matters here):
 * `trim`, `preg_replace('/\s\s+/', ' ', ...)`, `explode`, `implode` and
 * `str_replace` with an empty replacement.
 */
module Text {

  /** The class `\s` of PCRE outside UTF mode: space, HT, LF, VT, FF and CR. */
  predicate IsSpace(c: char) {
    c == ' ' || c == '\t' || c == '\n' || c == '\U{B}' || c == '\U{C}' || c == '\r'
  }

  // ---------------------------------------------------------------------------
  // trim($s, $chars)
  // ---------------------------------------------------------------------------

  /** `ltrim`: drops the leading characters that belong to `chars`. */
  function TrimStart(s: string, chars: set<char>): (r: string)
    ensures |r| <= |s| && r == s[|s| - |r|..]
    ensures forall i :: 0 <= i < |s| - |r| ==> s[i] in chars
    ensures r == [] || r[0] !in chars
  {
    if s != [] && s[0] in chars then
      var r := TrimStart(s[1..], chars);
      assert s[1..][|s| - 1 - |r|..] == s[|s| - |r|..];
      assert forall i :: 1 <= i < |s| - |r| ==> s[i] == s[1..][i - 1];
      r
    else s
  }

  /** `rtrim`: drops the trailing characters that belong to `chars`. */
  function TrimEnd(s: string, chars: set<char>): (r: string)
    ensures |r| <= |s| && r == s[..|r|]
    ensures forall i :: |r| <= i < |s| ==> s[i] in chars
    ensures r == [] || r[|r| - 1] !in chars
  {
    if s != [] && s[|s| - 1] in chars then TrimEnd(s[..|s| - 1], chars) else s
  }

  /**
   * `r` is the infix of `s` starting at `i`, and every character of `s`
   * outside that infix belongs to `chars`.
   */
  ghost predicate BorderedBy(s: string, i: int, r: string, chars: set<char>) {
    && 0 <= i <= |s| - |r|
    && r == s[i..i + |r|]
    && (forall k :: 0 <= k < i ==> s[k] in chars)
    && (forall k :: i + |r| <= k < |s| ==> s[k] in chars)
  }

  /**
   * `trim`: the infix of `s` left after removing every leading and trailing
   * character of `chars`; a string that neither starts nor ends with one of
   * them is left as it is.
   */
  function Trim(s: string, chars: set<char>): (r: string)
    ensures exists i :: BorderedBy(s, i, r, chars)
    ensures r == [] || (r[0] !in chars && r[|r| - 1] !in chars)
    ensures (s == [] || (s[0] !in chars && s[|s| - 1] !in chars)) ==> r == s
  {
    TrimBordered(s, chars);
    TrimEnd(TrimStart(s, chars), chars)
  }

  /** What is left after trimming both ends lies between two trimmed borders. */
  lemma TrimBordered(s: string, chars: set<char>)
    ensures var t := TrimStart(s, chars);
            BorderedBy(s, |s| - |t|, TrimEnd(t, chars), chars)
  {
    var t := TrimStart(s, chars);
    var r := TrimEnd(t, chars);
    assert |t| <= |s| && t == s[|s| - |t|..];
    assert |r| <= |t| && r == t[..|r|];
    SuffixPrefixBordered(s, t, r, chars);
  }

  /**
   * A prefix `r` of a suffix `t` of `s` is bordered in `s` when what was cut
   * off on either side belongs to `chars`.
   */
  lemma SuffixPrefixBordered(s: string, t: string, r: string, chars: set<char>)
    requires |t| <= |s| && t == s[|s| - |t|..]
    requires forall k :: 0 <= k < |s| - |t| ==> s[k] in chars
    requires |r| <= |t| && r == t[..|r|]
    requires forall k :: |r| <= k < |t| ==> t[k] in chars
    ensures BorderedBy(s, |s| - |t|, r, chars)
  {
    var i := |s| - |t|;
    assert r == s[i..i + |r|];
    forall k | i + |r| <= k < |s|
      ensures s[k] in chars
    {
      assert s[k] == t[k - i];
    }
  }

  // ---------------------------------------------------------------------------
  // preg_replace('/\s\s+/', ' ', $s)
  // ---------------------------------------------------------------------------

  /** Length of the run of `\s` characters at the start of `s`. */
  function SpaceRun(s: string): (n: nat)
    ensures n <= |s|
    ensures forall i :: 0 <= i < n ==> IsSpace(s[i])
    ensures n == |s| || !IsSpace(s[n])
  {
    if s != [] && IsSpace(s[0]) then 1 + SpaceRun(s[1..]) else 0
  }

  /**
   * Replaces every maximal run of two or more `\s` characters by one space
   * and leaves a lone `\s` character as it is (the regex is greedy and scans
   * left to right, so its matches are exactly those runs).
   */
  function Collapse(s: string): (r: string)
    ensures |r| <= |s|
    ensures r == [] <==> s == []
    ensures s != [] ==> (IsSpace(r[0]) <==> IsSpace(s[0]))
    ensures s != [] && !IsSpace(s[0]) ==> r[0] == s[0]
    decreases |s|
  {
    if s == [] then []
    else if IsSpace(s[0]) then
      var n := SpaceRun(s);
      (if n >= 2 then [' '] else [s[0]]) + Collapse(s[n..])
    else [s[0]] + Collapse(s[1..])
  }

  /** No two adjacent characters of `s` are both `\s`. */
  ghost predicate NoDoubleSpace(s: string) {
    forall i, j :: 0 <= i < j < |s| && j == i + 1 ==> !(IsSpace(s[i]) && IsSpace(s[j]))
  }

  /** The non-`\s` characters of `s`, in order: what whitespace collapsing must keep. */
  function NonSpace(s: string): string {
    if s == [] then [] else (if IsSpace(s[0]) then [] else [s[0]]) + NonSpace(s[1..])
  }

  lemma {:induction false} CollapseNoDoubleSpace(s: string)
    ensures NoDoubleSpace(Collapse(s))
    decreases |s|
  {
    if s == [] {
    } else if IsSpace(s[0]) {
      var n := SpaceRun(s);
      var rest := Collapse(s[n..]);
      CollapseNoDoubleSpace(s[n..]);
      assert n == |s| || !IsSpace(s[n..][0]);
      var r := Collapse(s);
      assert r == [r[0]] + rest;
      NoDoubleSpaceCons(r[0], rest);
    } else {
      var rest := Collapse(s[1..]);
      CollapseNoDoubleSpace(s[1..]);
      assert Collapse(s) == [s[0]] + rest;
      NoDoubleSpaceCons(s[0], rest);
    }
  }

  /** Putting a character in front keeps adjacent `\s` characters apart unless both ends are `\s`. */
  lemma NoDoubleSpaceCons(c: char, rest: string)
    requires NoDoubleSpace(rest)
    requires rest == [] || !IsSpace(c) || !IsSpace(rest[0])
    ensures NoDoubleSpace([c] + rest)
  {
    var r := [c] + rest;
    forall i, j | 0 <= i < j < |r| && j == i + 1
      ensures !(IsSpace(r[i]) && IsSpace(r[j]))
    {
      if i > 0 {
        assert r[i] == rest[i - 1] && r[j] == rest[j - 1];
      }
    }
  }

  /** A string without adjacent `\s` characters is a fixpoint of collapsing. */
  lemma {:induction false} CollapseFixpoint(s: string)
    requires NoDoubleSpace(s)
    ensures Collapse(s) == s
    decreases |s|
  {
    if s == [] {
    } else {
      assert NoDoubleSpace(s[1..]) by {
        forall i, j | 0 <= i < j < |s[1..]| && j == i + 1
          ensures !(IsSpace(s[1..][i]) && IsSpace(s[1..][j]))
        {
          assert s[1..][i] == s[i + 1] && s[1..][j] == s[j + 1];
        }
      }
      CollapseFixpoint(s[1..]);
      if IsSpace(s[0]) {
        if |s| >= 2 {
          assert !IsSpace(s[1]);
          assert SpaceRun(s[1..]) == 0;
        }
        assert SpaceRun(s) == 1;
      }
    }
  }

  /** Collapsing keeps a trailing non-`\s` character in place. */
  lemma {:induction false} CollapseKeepsLast(s: string)
    requires s != [] && !IsSpace(s[|s| - 1])
    ensures Collapse(s) != [] && Collapse(s)[|Collapse(s)| - 1] == s[|s| - 1]
    decreases |s|
  {
    if IsSpace(s[0]) {
      var n := SpaceRun(s);
      assert n < |s|;
      assert s[n..][|s[n..]| - 1] == s[|s| - 1];
      CollapseKeepsLast(s[n..]);
    } else if |s| > 1 {
      assert s[1..][|s[1..]| - 1] == s[|s| - 1];
      CollapseKeepsLast(s[1..]);
    }
  }

  lemma {:induction false} NonSpaceSkip(s: string, k: nat)
    requires k <= |s|
    requires forall i :: 0 <= i < k ==> IsSpace(s[i])
    ensures NonSpace(s) == NonSpace(s[k..])
    decreases k
  {
    if k > 0 {
      assert s[1..][k - 1..] == s[k..];
      NonSpaceSkip(s[1..], k - 1);
    }
  }

  /** Collapsing changes whitespace only: the other characters stay, in order. */
  lemma {:induction false} CollapseKeepsText(s: string)
    ensures NonSpace(Collapse(s)) == NonSpace(s)
    decreases |s|
  {
    if s == [] {
    } else if IsSpace(s[0]) {
      var n := SpaceRun(s);
      var x: string := if n >= 2 then [' '] else [s[0]];
      NonSpaceSkip(s, n);
      CollapseKeepsText(s[n..]);
      assert Collapse(s) == x + Collapse(s[n..]);
      assert (x + Collapse(s[n..]))[1..] == Collapse(s[n..]);
    } else {
      CollapseKeepsText(s[1..]);
      assert (([s[0]] + Collapse(s[1..]))[1..]) == Collapse(s[1..]);
    }
  }

  /** Every character of `w` is `\s`. */
  predicate AllSpace(w: string) {
    forall i :: 0 <= i < |w| ==> IsSpace(w[i])
  }

  /** A run of `\s` followed by text (or nothing) is a whole run. */
  lemma {:induction false} SpaceRunOfRun(w: string, y: string)
    requires AllSpace(w)
    requires y == [] || !IsSpace(y[0])
    ensures SpaceRun(w + y) == |w|
    decreases |w|
  {
    if w == [] {
      assert w + y == y;
    } else {
      assert (w + y)[0] == w[0];
      assert (w + y)[1..] == w[1..] + y;
      SpaceRunOfRun(w[1..], y);
    }
  }

  /** A run starting a string that ends in text stops inside that string. */
  lemma {:induction false} SpaceRunBeforeText(x: string, z: string)
    requires x != [] && !IsSpace(x[|x| - 1])
    ensures SpaceRun(x + z) == SpaceRun(x)
    decreases |x|
  {
    assert (x + z)[0] == x[0];
    if IsSpace(x[0]) {
      assert (x + z)[1..] == x[1..] + z;
      assert x[1..][|x[1..]| - 1] == x[|x| - 1];
      SpaceRunBeforeText(x[1..], z);
    }
  }

  /**
   * No run crosses the end of a string that ends in text, so such a string
   * collapses independently of what follows it.
   */
  lemma {:induction false} CollapseConcat(x: string, z: string)
    requires x == [] || !IsSpace(x[|x| - 1])
    ensures Collapse(x + z) == Collapse(x) + Collapse(z)
    decreases |x|
  {
    if x == [] {
      assert x + z == z;
    } else {
      var n := HeadLength(x);
      CollapseHead(x);
      TailOfConcat(x, z, n);
      CollapseConcat(x[n..], z);
      CollapseConcatStep(x, z, n);
    }
  }

  /** Slicing off a prefix of `x` from `x + z`, and what remains of `x`'s last character. */
  lemma TailOfConcat<T>(x: seq<T>, z: seq<T>, n: nat)
    requires n <= |x| && x != []
    ensures (x + z)[n..] == x[n..] + z
    ensures (x + z)[0] == x[0]
    ensures n < |x| ==> x[n..][|x[n..]| - 1] == x[|x| - 1]
  {
  }

  /** How many characters the first step of `Collapse` consumes. */
  function HeadLength(s: string): nat
    requires s != []
  {
    if IsSpace(s[0]) then SpaceRun(s) else 1
  }

  /** What the first step of `Collapse` emits. */
  function HeadOutput(s: string): (r: string)
    requires s != []
    ensures |r| == 1
  {
    if IsSpace(s[0]) && SpaceRun(s) >= 2 then [' '] else [s[0]]
  }

  /** `Collapse` emits the head and collapses the rest. */
  lemma CollapseHead(s: string)
    requires s != []
    ensures 1 <= HeadLength(s) <= |s|
    ensures Collapse(s) == HeadOutput(s) + Collapse(s[HeadLength(s)..])
  {
  }

  /** The head of a string that ends in text is the same in any extension of it. */
  lemma HeadOfConcat(x: string, z: string)
    requires x != [] && !IsSpace(x[|x| - 1])
    ensures HeadLength(x + z) == HeadLength(x) && HeadOutput(x + z) == HeadOutput(x)
  {
    assert (x + z)[0] == x[0];
    if IsSpace(x[0]) {
      SpaceRunBeforeText(x, z);
    }
  }

  /** One step of `CollapseConcat`: the head of `x` is collapsed the same way in `x + z`. */
  lemma CollapseConcatStep(x: string, z: string, n: nat)
    requires x != [] && !IsSpace(x[|x| - 1])
    requires n == HeadLength(x)
    requires n <= |x| && (x + z)[n..] == x[n..] + z
    requires Collapse(x[n..] + z) == Collapse(x[n..]) + Collapse(z)
    ensures Collapse(x + z) == Collapse(x) + Collapse(z)
  {
    HeadOfConcat(x, z);
    CollapseHead(x + z);
    CollapseHead(x);
    Regroup(HeadOutput(x), Collapse(x[n..]), Collapse(z));
  }

  lemma Regroup<T>(h: seq<T>, a: seq<T>, b: seq<T>)
    ensures h + (a + b) == (h + a) + b
  {
  }

  /** A maximal run followed by text (or nothing): two or more become one space, a lone one stays. */
  lemma CollapseLeadingRun(w: string, y: string)
    requires w != [] && AllSpace(w)
    requires y == [] || !IsSpace(y[0])
    ensures Collapse(w + y) == (if |w| >= 2 then [' '] else w) + Collapse(y)
  {
    SpaceRunOfRun(w, y);
    assert (w + y)[0] == w[0];
    assert (w + y)[|w|..] == y;
    if |w| == 1 {
      assert [w[0]] == w;
    }
  }

  /** Collapsing keeps a trailing `\s` character's class: the result then ends in `\s` too. */
  lemma {:induction false} CollapseKeepsTrailingSpace(s: string)
    requires s != [] && IsSpace(s[|s| - 1])
    ensures Collapse(s) != [] && IsSpace(Collapse(s)[|Collapse(s)| - 1])
    decreases |s|
  {
    var n := HeadLength(s);
    CollapseHead(s);
    var h, rest := HeadOutput(s), Collapse(s[n..]);
    if n < |s| {
      assert s[n..][|s[n..]| - 1] == s[|s| - 1];
      CollapseKeepsTrailingSpace(s[n..]);
      EndsInSpace(h, rest);
    } else {
      assert s[n..] == [];
      HeadOfWholeRun(s);
      EndsInSpace(h, []);
    }
  }

  /** A string whose first step consumes all of it, and that ends in `\s`, is one run. */
  lemma HeadOfWholeRun(s: string)
    requires s != [] && IsSpace(s[|s| - 1]) && HeadLength(s) == |s|
    ensures |HeadOutput(s)| == 1 && IsSpace(HeadOutput(s)[0])
  {
    assert IsSpace(s[0]);
  }

  /** A concatenation ends in `\s` when its last non-empty part does. */
  lemma EndsInSpace(h: string, rest: string)
    requires h != []
    requires rest == [] ==> IsSpace(h[|h| - 1])
    requires rest != [] ==> IsSpace(rest[|rest| - 1])
    ensures IsSpace((h + rest)[|h + rest| - 1])
  {
    if rest == [] {
      assert h + rest == h;
    }
  }

  /**
   * What the replacement does to one maximal run `w` of `\s` characters
   * between text (or the ends of the string): two or more become a single
   * space, a lone one is kept as it is, and both sides are collapsed on their
   * own.
   */
  lemma CollapseRun(x: string, w: string, y: string)
    requires x == [] || !IsSpace(x[|x| - 1])
    requires w != [] && AllSpace(w)
    requires y == [] || !IsSpace(y[0])
    ensures Collapse(x + w + y) == Collapse(x) + (if |w| >= 2 then [' '] else w) + Collapse(y)
  {
    Regroup(x, w, y);
    CollapseConcat(x, w + y);
    CollapseLeadingRun(w, y);
    Regroup(Collapse(x), if |w| >= 2 then [' '] else w, Collapse(y));
  }

  // ---------------------------------------------------------------------------
  // explode($d, $s) and implode($d, $parts)
  // ---------------------------------------------------------------------------

  /** Number of occurrences of `d` in `s`. */
  function CountChar(s: string, d: char): (n: nat)
    ensures n <= |s|
    ensures n == 0 <==> d !in s
  {
    if s == [] then 0 else (if s[0] == d then 1 else 0) + CountChar(s[1..], d)
  }

  /** `explode`: the pieces of `s` between the occurrences of `d`; never an empty list. */
  function Split(s: string, d: char): (r: seq<string>)
    ensures |r| == CountChar(s, d) + 1
    ensures forall k :: 0 <= k < |r| ==> d !in r[k]
  {
    if s == [] then [[]]
    else
      var rest := Split(s[1..], d);
      if s[0] == d then [[]] + rest
      else [[s[0]] + rest[0]] + rest[1..]
  }

  /** `implode`: the pieces separated by `d`. */
  function Join(parts: seq<string>, d: char): string
    requires |parts| >= 1
  {
    if |parts| == 1 then parts[0] else parts[0] + [d] + Join(parts[1..], d)
  }

  /** Joining the pieces of `explode` gives back the input. */
  lemma {:induction false} JoinSplit(s: string, d: char)
    ensures Join(Split(s, d), d) == s
    decreases |s|
  {
    if s != [] {
      var rest := Split(s[1..], d);
      JoinSplit(s[1..], d);
      if s[0] != d {
        JoinExtendFirst([s[0]], rest, d);
      } else {
        assert ([[]] + rest)[1..] == rest;
      }
      assert [s[0]] + s[1..] == s;
    }
  }

  /** Prepending text to the first piece prepends it to the joined string. */
  lemma JoinExtendFirst(x: string, parts: seq<string>, d: char)
    requires |parts| >= 1
    ensures Join([x + parts[0]] + parts[1..], d) == x + Join(parts, d)
  {
    var r := [x + parts[0]] + parts[1..];
    assert r[1..] == parts[1..];
  }

  lemma {:induction false} SplitAfterPiece(a: string, d: char, b: string)
    requires d !in a
    ensures Split(a + [d] + b, d) == [a] + Split(b, d)
    decreases |a|
  {
    if a == [] {
      assert (a + [d] + b)[1..] == b;
    } else {
      var s := a + [d] + b;
      assert s[0] == a[0] && a[0] != d;
      assert s[1..] == a[1..] + [d] + b;
      SplitAfterPiece(a[1..], d, b);
      var rest := Split(s[1..], d);
      assert rest[0] == a[1..] && rest[1..] == Split(b, d);
      assert [a[0]] + a[1..] == a;
    }
  }

  lemma {:induction false} SplitNoSeparator(s: string, d: char)
    requires d !in s
    ensures Split(s, d) == [s]
    decreases |s|
  {
    if s != [] {
      SplitNoSeparator(s[1..], d);
      assert [s[0]] + s[1..] == s;
    }
  }

  /** `explode` undoes `implode` when no piece contains the separator. */
  lemma {:induction false} SplitJoin(parts: seq<string>, d: char)
    requires |parts| >= 1
    requires forall k :: 0 <= k < |parts| ==> d !in parts[k]
    ensures Split(Join(parts, d), d) == parts
    decreases |parts|
  {
    if |parts| == 1 {
      SplitNoSeparator(parts[0], d);
    } else {
      SplitJoin(parts[1..], d);
      SplitAfterPiece(parts[0], d, Join(parts[1..], d));
      assert [parts[0]] + parts[1..] == parts;
    }
  }

  // ---------------------------------------------------------------------------
  // str_replace($p, '', $s)
  // ---------------------------------------------------------------------------

  /** `p` occurs somewhere in `s`. */
  predicate Contains(s: string, p: string) {
    exists i :: 0 <= i <= |s| && p <= s[i..]
  }

  /**
   * `str_replace(p, '', s)`: one left-to-right pass that deletes every
   * non-overlapping occurrence of `p` (text brought together by a deletion is
   * not searched again).
   */
  function StripAll(s: string, p: string): (r: string)
    requires p != []
    ensures |r| <= |s|
    decreases |s|
  {
    if s == [] then []
    else if p <= s then StripAll(s[|p|..], p)
    else [s[0]] + StripAll(s[1..], p)
  }

  /** A string in which `p` does not occur is left unchanged. */
  lemma {:induction false} StripAllAbsent(s: string, p: string)
    requires p != [] && !Contains(s, p)
    ensures StripAll(s, p) == s
    decreases |s|
  {
    if s != [] {
      assert s[0..] == s;
      assert !Contains(s[1..], p) by {
        forall i | 0 <= i <= |s[1..]|
          ensures !(p <= s[1..][i..])
        {
          assert s[1..][i..] == s[i + 1..];
        }
      }
      StripAllAbsent(s[1..], p);
      assert [s[0]] + s[1..] == s;
    }
  }

  /**
   * An occurrence of `p` cannot span a character that `p` does not contain,
   * so deletion works on both sides of such a character independently.
   */
  lemma {:induction false} StripAllAround(x: string, c: char, y: string, p: string)
    requires p != [] && c !in p
    ensures StripAll(x + [c] + y, p) == StripAll(x, p) + [c] + StripAll(y, p)
    decreases |x|
  {
    if x == [] {
      StripAllAtMark(c, y, p);
    } else if p <= x {
      StripAllAround(x[|p|..], c, y, p);
      StripAllAroundDrop(x, c, y, p);
    } else {
      StripAllAround(x[1..], c, y, p);
      StripAllAroundSkip(x, c, y, p);
    }
  }

  /** `p` cannot start at a character it does not contain. */
  lemma StripAllAtMark(c: char, y: string, p: string)
    requires p != [] && c !in p
    ensures StripAll([] + [c] + y, p) == StripAll([], p) + [c] + StripAll(y, p)
  {
    var s := [] + [c] + y;
    assert s[0] == c && p[0] != c;
    StripAllSkip(s, p);
    assert s[1..] == y;
  }

  /** The step of `StripAllAround` where `p` starts `x` and is dropped. */
  lemma StripAllAroundDrop(x: string, c: char, y: string, p: string)
    requires p != [] && p <= x
    requires StripAll(x[|p|..] + [c] + y, p) == StripAll(x[|p|..], p) + [c] + StripAll(y, p)
    ensures StripAll(x + [c] + y, p) == StripAll(x, p) + [c] + StripAll(y, p)
  {
    var s := x + [c] + y;
    SlicesAroundMark(x, c, y, |p|);
    assert p <= s;
    StripAllDrop(s, p);
    StripAllDrop(x, p);
  }

  /** The step of `StripAllAround` where `p` does not start `x`, so its first character is kept. */
  lemma StripAllAroundSkip(x: string, c: char, y: string, p: string)
    requires p != [] && c !in p && x != [] && !(p <= x)
    requires StripAll(x[1..] + [c] + y, p) == StripAll(x[1..], p) + [c] + StripAll(y, p)
    ensures StripAll(x + [c] + y, p) == StripAll(x, p) + [c] + StripAll(y, p)
  {
    var s := x + [c] + y;
    assert !(p <= s) by {
      if p <= s {
        PrefixBeforeMark(x, c, y, p);
      }
    }
    SlicesAroundMark(x, c, y, 1);
    StripAllSkip(s, p);
    StripAllSkip(x, p);
  }

  /** Slicing `x + [c] + y` inside or at the end of `x`. */
  lemma SlicesAroundMark<T>(x: seq<T>, c: T, y: seq<T>, n: nat)
    requires n <= |x|
    ensures (x + [c] + y)[..|x|] == x
    ensures (x + [c] + y)[n..] == x[n..] + [c] + y
    ensures n < |x| ==> (x + [c] + y)[n] == x[n]
  {
  }

  /** Where `p` does not start the string, the first character is kept. */
  lemma StripAllSkip(s: string, p: string)
    requires p != [] && s != [] && !(p <= s)
    ensures StripAll(s, p) == [s[0]] + StripAll(s[1..], p)
  {
  }

  /** Where `p` starts the string, it is dropped. */
  lemma StripAllDrop(s: string, p: string)
    requires p != [] && p <= s
    ensures StripAll(s, p) == StripAll(s[|p|..], p)
  {
  }

  /** A pattern without `c` that starts a string starts the part before the first `c`. */
  lemma PrefixBeforeMark(x: string, c: char, y: string, p: string)
    requires c !in p && p <= x + [c] + y
    ensures |p| <= |x| && p == x[..|p|] && p <= x
  {
    assert (x + [c] + y)[|x|] == c;
    if |p| > |x| {
      assert false;
    }
  }

  /** Two spaces between tokens become one: tokens are never glued together. */
  lemma CollapseSeparatesTokens()
    ensures Collapse("a  b") == "a b"
  {
    var x, w, y := "a", "  ", "b";
    assert x + w + y == "a  b";
    CollapseRun(x, w, y);
    assert Collapse(x) == x && Collapse(y) == y;
  }
}
