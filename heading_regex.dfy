/**
 * The global, multiline heading pattern `/^(#{1,6})\s+(.*)/gm` and its
 * `exec` method. A match is found by the backtracking rules of ECMAScript
 * regular expressions: the leftmost start position wins, and at that position
 * each greedy quantifier takes as much as it can while the rest still matches.
 */
module HeadingRegex {
  import opened JsChars
  import opened Wrappers

  /**
   * One result of `exec`: `match.index`, the first group (the hashes), the
   * second group (the heading text) and the position just after the match,
   * which becomes `lastIndex`.
   */
  datatype Match = Match(index: nat, hashes: string, text: string, end: nat)

  /** Where the second group starts. */
  function TextStart(m: Match): int {
    m.end - |m.text|
  }

  /** `^` under the `m` flag: the start of the input or just after a line terminator. */
  predicate AtLineStart(s: string, p: nat)
    requires p <= |s|
  {
    p == 0 || IsLineTerminator(s[p - 1])
  }

  // ---------------------------------------------------------------------
  // What the pattern can match

  /**
   * The pattern matches `s[p..e]` taking `k` hashes for `#{1,6}` and `w`
   * characters for `\s+`; `(.*)` takes the rest, which holds no line
   * terminator. Every way the regular expression can match at `p` is one of
   * these; which of them `exec` reports is decided by the greedy order.
   */
  ghost predicate Candidate(s: string, p: nat, k: nat, w: nat, e: nat) {
    && p + k + w <= e <= |s|
    && AtLineStart(s, p)
    && 1 <= k <= 6
    && (forall i | p <= i < p + k :: s[i] == '#')
    && 1 <= w
    && (forall i | p + k <= i < p + k + w :: IsWhitespace(s[i]))
    && (forall i | p + k + w <= i < e :: !IsLineTerminator(s[i]))
  }

  // ---------------------------------------------------------------------
  // The greedy match at one position

  /** How many `#` follow position `p`. */
  function HashRun(s: string, p: nat): (n: nat)
    requires p <= |s|
    ensures p + n <= |s|
    decreases |s| - p
  {
    if p < |s| && s[p] == '#' then 1 + HashRun(s, p + 1) else 0
  }

  /** How many whitespace characters follow position `p`. */
  function WhitespaceRun(s: string, p: nat): (n: nat)
    requires p <= |s|
    ensures p + n <= |s|
    decreases |s| - p
  {
    if p < |s| && IsWhitespace(s[p]) then 1 + WhitespaceRun(s, p + 1) else 0
  }

  /** The first line terminator at or after `p`, or the end of the input. */
  function LineEnd(s: string, p: nat): (e: nat)
    requires p <= |s|
    ensures p <= e <= |s|
    decreases |s| - p
  {
    if p < |s| && !IsLineTerminator(s[p]) then LineEnd(s, p + 1) else p
  }

  /**
   * The match the pattern finds when it is tried at position `p` alone.
   * Greedy `#{1,6}` takes min(6, run) hashes and backtracks one at a time;
   * every shorter choice is followed by another `#`, which `\s` refuses, so
   * only the whole run can succeed and only if it is at most 6 long.
   */
  function MatchAt(s: string, p: nat): Option<Match>
    requires p <= |s|
  {
    var h := HashRun(s, p);
    if !AtLineStart(s, p) || h < 1 || 6 < h || p + h == |s| || !IsWhitespace(s[p + h]) then None
    else
      var t := p + h + WhitespaceRun(s, p + h);
      var e := LineEnd(s, t);
      Some(Match(p, s[p..p + h], s[t..e], e))
  }

  // Facts about the runs

  lemma {:induction false} HashRunFacts(s: string, p: nat)
    requires p <= |s|
    ensures p + HashRun(s, p) <= |s|
    ensures forall i | p <= i < p + HashRun(s, p) :: s[i] == '#'
    ensures p + HashRun(s, p) < |s| ==> s[p + HashRun(s, p)] != '#'
    decreases |s| - p
  {
    if p < |s| && s[p] == '#' {
      HashRunFacts(s, p + 1);
    }
  }

  lemma {:induction false} WhitespaceRunFacts(s: string, p: nat)
    requires p <= |s|
    ensures p + WhitespaceRun(s, p) <= |s|
    ensures forall i | p <= i < p + WhitespaceRun(s, p) :: IsWhitespace(s[i])
    ensures p + WhitespaceRun(s, p) < |s| ==> !IsWhitespace(s[p + WhitespaceRun(s, p)])
    decreases |s| - p
  {
    if p < |s| && IsWhitespace(s[p]) {
      WhitespaceRunFacts(s, p + 1);
    }
  }

  lemma {:induction false} LineEndFacts(s: string, p: nat)
    requires p <= |s|
    ensures p <= LineEnd(s, p) <= |s|
    ensures forall i | p <= i < LineEnd(s, p) :: !IsLineTerminator(s[i])
    ensures LineEnd(s, p) < |s| ==> IsLineTerminator(s[LineEnd(s, p)])
    decreases |s| - p
  {
    if p < |s| && !IsLineTerminator(s[p]) {
      LineEndFacts(s, p + 1);
    }
  }

  /** Shape of a match: where its parts lie in the input and what they hold. */
  lemma MatchAtShape(s: string, p: nat)
    requires p <= |s|
    requires MatchAt(s, p).Some?
    ensures var m := MatchAt(s, p).value;
      && m.index == p
      && AtLineStart(s, p)
      && 1 <= |m.hashes| <= 6
      && HashRun(s, p) == |m.hashes|
      && p + |m.hashes| < TextStart(m) <= m.end <= |s|
      && m.hashes == s[p..p + |m.hashes|]
      && m.text == s[TextStart(m)..m.end]
      && (forall i | 0 <= i < |m.hashes| :: m.hashes[i] == '#')
      && (forall i | p + |m.hashes| <= i < TextStart(m) :: IsWhitespace(s[i]))
      && (TextStart(m) < |s| ==> !IsWhitespace(s[TextStart(m)]))
      && (forall i | 0 <= i < |m.text| :: !IsLineTerminator(m.text[i]))
      && (m.end < |s| ==> IsLineTerminator(s[m.end]))
  {
    var h := HashRun(s, p);
    HashRunFacts(s, p);
    WhitespaceRunFacts(s, p + h);
    var t := p + h + WhitespaceRun(s, p + h);
    LineEndFacts(s, t);
  }

  /** What `exec` reports at `p` is one of the ways the pattern can match there. */
  lemma MatchAtIsCandidate(s: string, p: nat)
    requires p <= |s|
    requires MatchAt(s, p).Some?
    ensures var m := MatchAt(s, p).value;
      TextStart(m) - p - |m.hashes| >= 0
      && Candidate(s, p, |m.hashes|, TextStart(m) - p - |m.hashes|, m.end)
  {
    MatchAtShape(s, p);
  }

  /**
   * Whenever the pattern can match at `p` at all, `MatchAt` finds a match,
   * and it is the one the greedy order prefers: the same hashes, the longest
   * whitespace run and the longest text.
   */
  lemma CandidateGreedy(s: string, p: nat, k: nat, w: nat, e: nat)
    requires Candidate(s, p, k, w, e)
    ensures MatchAt(s, p).Some?
    ensures var m := MatchAt(s, p).value;
      k == |m.hashes| && p + k + w <= TextStart(m) && e <= m.end
  {
    HashRunExact(s, p, k);
    WhitespaceRunAtLeast(s, p + k, w);
    var t := p + k + WhitespaceRun(s, p + k);
    if t < e {
      LineEndAtLeast(s, t, e);
    }
  }

  lemma {:induction false} HashRunExact(s: string, p: nat, k: nat)
    requires p + k <= |s|
    requires forall i | p <= i < p + k :: s[i] == '#'
    requires p + k == |s| || s[p + k] != '#'
    ensures HashRun(s, p) == k
    decreases k
  {
    if k > 0 {
      HashRunExact(s, p + 1, k - 1);
    }
  }

  lemma {:induction false} WhitespaceRunAtLeast(s: string, p: nat, w: nat)
    requires p + w <= |s|
    requires forall i | p <= i < p + w :: IsWhitespace(s[i])
    ensures WhitespaceRun(s, p) >= w
    decreases w
  {
    if w > 0 {
      WhitespaceRunAtLeast(s, p + 1, w - 1);
    }
  }

  lemma {:induction false} LineEndAtLeast(s: string, p: nat, e: nat)
    requires p <= e <= |s|
    requires forall i | p <= i < e :: !IsLineTerminator(s[i])
    ensures LineEnd(s, p) >= e
    decreases e - p
  {
    if p < e {
      LineEndAtLeast(s, p + 1, e);
    }
  }

  /** A candidate whose whitespace run and text cannot be extended. */
  ghost predicate IsGreedyMatch(s: string, p: nat, k: nat, w: nat, e: nat) {
    && Candidate(s, p, k, w, e)
    && (p + k + w == |s| || !IsWhitespace(s[p + k + w]))
    && (e == |s| || IsLineTerminator(s[e]))
  }

  /** A greedy candidate is exactly the match `exec` reports. */
  lemma MatchAtExact(s: string, p: nat, k: nat, w: nat, e: nat)
    requires IsGreedyMatch(s, p, k, w, e)
    ensures MatchAt(s, p) == Some(Match(p, s[p..p + k], s[p + k + w..e], e))
  {
    HashRunExact(s, p, k);
    WhitespaceRunExact(s, p + k, w);
    LineEndExact(s, p + k + w, e);
  }

  lemma {:induction false} WhitespaceRunExact(s: string, p: nat, w: nat)
    requires p + w <= |s|
    requires forall i | p <= i < p + w :: IsWhitespace(s[i])
    requires p + w == |s| || !IsWhitespace(s[p + w])
    ensures WhitespaceRun(s, p) == w
    decreases w
  {
    if w > 0 {
      WhitespaceRunExact(s, p + 1, w - 1);
    }
  }

  lemma {:induction false} LineEndExact(s: string, p: nat, e: nat)
    requires p <= e <= |s|
    requires forall i | p <= i < e :: !IsLineTerminator(s[i])
    requires e == |s| || IsLineTerminator(s[e])
    ensures LineEnd(s, p) == e
    decreases e - p
  {
    if p < e {
      LineEndExact(s, p + 1, e);
    }
  }

  /** A run of seven or more hashes never starts a match. */
  lemma SevenHashesNoMatch(s: string, p: nat)
    requires p + 7 <= |s|
    requires forall i | p <= i < p + 7 :: s[i] == '#'
    ensures MatchAt(s, p).None?
    ensures forall k, w, e :: !Candidate(s, p, k, w, e)
  {
    HashRunFacts(s, p);
    forall k, w, e | Candidate(s, p, k, w, e)
      ensures false
    {
      CandidateGreedy(s, p, k, w, e);
    }
  }

  /** A run of hashes followed by neither whitespace nor another hash, or by nothing, never starts a match. */
  lemma NoWhitespaceNoMatch(s: string, p: nat, k: nat)
    requires p + k <= |s|
    requires forall i | p <= i < p + k :: s[i] == '#'
    requires p + k == |s| || (s[p + k] != '#' && !IsWhitespace(s[p + k]))
    ensures MatchAt(s, p).None?
    ensures forall k', w, e :: !Candidate(s, p, k', w, e)
  {
    HashRunExact(s, p, k);
    forall k', w, e | Candidate(s, p, k', w, e)
      ensures false
    {
      CandidateGreedy(s, p, k', w, e);
    }
  }

  // ---------------------------------------------------------------------
  // Searching: `exec` from `lastIndex`

  /**
   * `exec` with the `g` flag: no match when `lastIndex` is past the end;
   * otherwise the match at the leftmost position from `lastIndex` on.
   */
  function FirstMatch(s: string, from: nat): Option<Match>
    decreases |s| - from
  {
    if from > |s| then None
    else if MatchAt(s, from).Some? then MatchAt(s, from)
    else FirstMatch(s, from + 1)
  }

  /** The leftmost match from `from` on, and nothing before it. */
  lemma {:induction false} FirstMatchLeftmost(s: string, from: nat)
    ensures FirstMatch(s, from).Some? ==>
      var m := FirstMatch(s, from).value;
      && from <= m.index <= |s|
      && MatchAt(s, m.index) == Some(m)
      && forall q | from <= q < m.index :: MatchAt(s, q).None?
    ensures FirstMatch(s, from).None? ==> forall q | from <= q <= |s| :: MatchAt(s, q).None?
    decreases |s| - from
  {
    if from <= |s| && MatchAt(s, from).None? {
      FirstMatchLeftmost(s, from + 1);
    }
  }

  /** No position in `[from, to)` is a line start beginning with `#`. */
  ghost predicate NoHeadingStart(s: string, from: nat, to: nat) {
    from <= to <= |s| && forall q | from <= q < to :: !AtLineStart(s, q) || s[q] != '#'
  }

  /** Positions that are not a line start beginning with `#` are passed over. */
  lemma {:induction false} FirstMatchSkips(s: string, from: nat, to: nat)
    requires NoHeadingStart(s, from, to)
    ensures FirstMatch(s, from) == FirstMatch(s, to)
    decreases |s| - from
  {
    if from < to {
      assert MatchAt(s, from).None?;
      FirstMatchSkips(s, from + 1, to);
    }
  }

  /** A match found from `from` ends past `from`, so searching again moves forward. */
  lemma FirstMatchAdvances(s: string, from: nat)
    requires FirstMatch(s, from).Some?
    ensures from < FirstMatch(s, from).value.end <= |s|
  {
    FirstMatchLeftmost(s, from);
    MatchAtShape(s, FirstMatch(s, from).value.index);
  }

  /**
   * The regular-expression object: only `lastIndex` changes between calls
   * (the pattern and its `g` and `m` flags are fixed).
   */
  class HeadingPattern {
    var lastIndex: nat

    constructor ()
      ensures lastIndex == 0
    {
      lastIndex := 0;
    }

    /**
     * `RegExp.prototype.exec`: search from `lastIndex`; on success
     * `lastIndex` moves to the end of the match, on failure it goes back to 0.
     */
    method Exec(input: string) returns (m: Option<Match>)
      modifies this
      ensures m == FirstMatch(input, old(lastIndex))
      ensures lastIndex == if m.Some? then m.value.end else 0
    {
      if lastIndex > |input| {
        lastIndex := 0;
        return None;
      }
      var p := lastIndex;
      while p <= |input| && MatchAt(input, p).None?
        invariant lastIndex <= p <= |input| + 1
        invariant FirstMatch(input, p) == FirstMatch(input, lastIndex)
        decreases |input| + 1 - p
      {
        p := p + 1;
      }
      if p > |input| {
        lastIndex := 0;
        return None;
      }
      m := MatchAt(input, p);
      lastIndex := m.value.end;
    }
  }

  // ---------------------------------------------------------------------
  // Every match of a global search

  /** The matches a `while (exec)` loop sees, starting with `lastIndex == from`. */
  function AllMatches(s: string, from: nat): seq<Match>
    decreases |s| - from
  {
    match FirstMatch(s, from)
    case None => []
    case Some(m) =>
      FirstMatchAdvances(s, from);
      [m] + AllMatches(s, m.end)
  }

  /**
   * Each match is what the pattern finds at its index, the matches lie
   * after `from` in increasing order, and no two overlap.
   */
  lemma {:induction false} AllMatchesOrdered(s: string, from: nat)
    ensures forall i | 0 <= i < |AllMatches(s, from)| ::
      var m := AllMatches(s, from)[i];
      from <= m.index < m.end <= |s| && MatchAt(s, m.index) == Some(m)
    ensures forall i, j | 0 <= i < j < |AllMatches(s, from)| ::
      AllMatches(s, from)[i].end <= AllMatches(s, from)[j].index
    decreases |s| - from
  {
    var f := FirstMatch(s, from);
    if f.Some? {
      var m := f.value;
      FirstMatchLeftmost(s, from);
      FirstMatchAdvances(s, from);
      MatchAtShape(s, m.index);
      AllMatchesOrdered(s, m.end);
    }
  }

  /**
   * No match is skipped: every position from `from` on where the pattern
   * matches is the start of a reported match or lies inside one (a match
   * whose `\s+` ran over line ends swallows the lines it covers).
   */
  lemma {:induction false} AllMatchesComplete(s: string, from: nat, q: nat)
    requires from <= q <= |s|
    requires MatchAt(s, q).Some?
    ensures exists i | 0 <= i < |AllMatches(s, from)| ::
      AllMatches(s, from)[i].index <= q < AllMatches(s, from)[i].end
    decreases |s| - from
  {
    FirstMatchLeftmost(s, from);
    var m := FirstMatch(s, from).value;
    MatchAtShape(s, m.index);
    var ms := AllMatches(s, from);
    assert ms[0] == m;
    if q >= m.end {
      FirstMatchAdvances(s, from);
      AllMatchesComplete(s, m.end, q);
      var i :| 0 <= i < |AllMatches(s, m.end)| && AllMatches(s, m.end)[i].index <= q < AllMatches(s, m.end)[i].end;
      assert ms[i + 1] == AllMatches(s, m.end)[i];
    }
  }

  /** Where the pattern matches nowhere from `from` on, the search reports nothing. */
  lemma NoMatchesFrom(s: string, from: nat)
    requires forall q | from <= q <= |s| :: MatchAt(s, q).None?
    ensures AllMatches(s, from) == []
  {
    FirstMatchLeftmost(s, from);
  }

  /**
   * The next match from `from` is the exact candidate at `p`, when every
   * position before `p` is passed over.
   */
  lemma AllMatchesNext(s: string, from: nat, p: nat, k: nat, w: nat, e: nat)
    requires IsGreedyMatch(s, p, k, w, e)
    requires NoHeadingStart(s, from, p)
    ensures AllMatches(s, from) == [Match(p, s[p..p + k], s[p + k + w..e], e)] + AllMatches(s, e)
  {
    FirstMatchSkips(s, from, p);
    MatchAtExact(s, p, k, w, e);
  }

  /** A text in which no line starts with `#` has no match at all. */
  lemma NoHashLineNoMatches(s: string)
    requires forall p | 0 <= p < |s| && AtLineStart(s, p) :: s[p] != '#'
    ensures AllMatches(s, 0) == []
  {
    FirstMatchLeftmost(s, 0);
    if FirstMatch(s, 0).Some? {
      var m := FirstMatch(s, 0).value;
      MatchAtShape(s, m.index);
    }
  }
}
