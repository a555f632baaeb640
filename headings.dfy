/**
 * `extractHeadings`: run the heading pattern over the whole document with a
 * `while (exec)` loop and record, for every match, its level (the number of
 * hashes), its text (the second group) and its identifier (the slug of the
 * text), in the order the matches are found.
 */
module Headings {
  import opened JsChars
  import opened Wrappers
  import opened Slugs
  import opened HeadingRegex

  /** One `{ level, text, id }` record. */
  datatype Heading = Heading(level: nat, text: string, id: string)

  /** The record pushed for one match. */
  function HeadingOf(lower: CaseMap, m: Match): Heading {
    Heading(|m.hashes|, m.text, Slug(lower, m.text))
  }

  function HeadingsOfMatches(lower: CaseMap, ms: seq<Match>): seq<Heading> {
    seq(|ms|, i requires 0 <= i < |ms| => HeadingOf(lower, ms[i]))
  }

  /** The records `extractHeadings` passes to `setHeadings` for `markdownText`. */
  function HeadingsOf(lower: CaseMap, markdownText: string): seq<Heading> {
    HeadingsOfMatches(lower, AllMatches(markdownText, 0))
  }

  /** The matches still to be reported once `exec` has returned `m`. */
  function Pending(s: string, m: Option<Match>): seq<Match>
    requires m.Some? ==> m.value.end <= |s|
  {
    if m.None? then [] else [m.value] + AllMatches(s, m.value.end)
  }

  lemma HeadingsOfMatchesAppend(lower: CaseMap, ms: seq<Match>, m: Match)
    ensures HeadingsOfMatches(lower, ms + [m]) == HeadingsOfMatches(lower, ms) + [HeadingOf(lower, m)]
  {
  }

  /** What one more `exec` from `from` adds to the pending matches. */
  lemma NextMatch(s: string, from: nat)
    ensures var f := FirstMatch(s, from);
      && (f.Some? ==> from <= f.value.index < f.value.end <= |s|)
      && (f.None? ==> AllMatches(s, from) == [])
      && (f.Some? ==> AllMatches(s, from) == Pending(s, f))
  {
    if FirstMatch(s, from).Some? {
      FirstMatchAdvances(s, from);
      FirstMatchLeftmost(s, from);
      MatchAtShape(s, FirstMatch(s, from).value.index);
    }
  }

  /**
   * After the match `m`, the next `exec` either ends the search or reports
   * the match that comes next in the list of all matches.
   */
  lemma NextPending(s: string, seen: seq<Match>, m: Match, found: Option<Match>)
    requires m.index < m.end <= |s|
    requires seen + ([m] + AllMatches(s, m.end)) == AllMatches(s, 0)
    requires found == FirstMatch(s, m.end)
    ensures found.None? ==> seen + [m] == AllMatches(s, 0)
    ensures found.Some? ==>
      && m.index < found.value.index < found.value.end <= |s|
      && (seen + [m]) + ([found.value] + AllMatches(s, found.value.end)) == AllMatches(s, 0)
  {
    NextMatch(s, m.end);
    assert seen + ([m] + AllMatches(s, m.end)) == (seen + [m]) + AllMatches(s, m.end);
  }

  /**
   * The loop: a fresh pattern object (its `lastIndex` is 0), `exec` until it
   * returns `null`, one record pushed per match.
   */
  method ExtractHeadings(lower: CaseMap, markdownText: string) returns (headings: seq<Heading>)
    ensures headings == HeadingsOf(lower, markdownText)
  {
    var headingRegex := new HeadingPattern();
    headings := [];
    var found := headingRegex.Exec(markdownText);
    NextMatch(markdownText, 0);
    ghost var seen: seq<Match> := [];
    while found.Some?
      invariant found.Some? ==> found.value.index < found.value.end <= |markdownText|
      invariant found.Some? ==> headingRegex.lastIndex == found.value.end
      invariant found.Some? ==> seen + ([found.value] + AllMatches(markdownText, found.value.end)) == AllMatches(markdownText, 0)
      invariant found.None? ==> seen == AllMatches(markdownText, 0)
      invariant headings == HeadingsOfMatches(lower, seen)
      decreases if found.Some? then |markdownText| - found.value.index else 0
    {
      var m := found.value;
      var level := |m.hashes|;
      var text := m.text;
      var id := Slug(lower, text);
      headings := headings + [Heading(level, text, id)];
      HeadingsOfMatchesAppend(lower, seen, m);
      found := headingRegex.Exec(markdownText);
      NextPending(markdownText, seen, m, found);
      seen := seen + [m];
    }
  }

  // ---------------------------------------------------------------------
  // Properties of the records

  /**
   * One record per match, in order of match start: each is the match the
   * pattern reports at its own index; its level is the length of the whole
   * `#` run at a line start (1 to 6), its text starts at the first
   * non-whitespace character after the hashes and runs to the end of the
   * line, and its id is the slug of that text.
   */
  lemma RecordsOfMatches(lower: CaseMap, s: string)
    ensures |HeadingsOf(lower, s)| == |AllMatches(s, 0)|
    ensures forall i | 0 <= i < |HeadingsOf(lower, s)| ::
      var h := HeadingsOf(lower, s)[i];
      var m := AllMatches(s, 0)[i];
      && m.index < m.end <= |s|
      && MatchAt(s, m.index) == Some(m)
      && AtLineStart(s, m.index)
      && 1 <= h.level <= 6
      && h.level == HashRun(s, m.index)
      && m.index + h.level < TextStart(m) <= m.end
      && (forall q | m.index + h.level <= q < TextStart(m) :: IsWhitespace(s[q]))
      && (TextStart(m) < |s| ==> !IsWhitespace(s[TextStart(m)]))
      && h.text == s[TextStart(m)..m.end]
      && (m.end == |s| || IsLineTerminator(s[m.end]))
      && h.id == Slug(lower, h.text)
    ensures forall i, j | 0 <= i < j < |AllMatches(s, 0)| ::
      AllMatches(s, 0)[i].end <= AllMatches(s, 0)[j].index
  {
    var ms := AllMatches(s, 0);
    AllMatchesOrdered(s, 0);
    forall i | 0 <= i < |ms|
      ensures var m := ms[i];
        && AtLineStart(s, m.index)
        && 1 <= |m.hashes| <= 6
        && HashRun(s, m.index) == |m.hashes|
        && m.index + |m.hashes| < TextStart(m) <= m.end
        && (forall q | m.index + |m.hashes| <= q < TextStart(m) :: IsWhitespace(s[q]))
        && (TextStart(m) < |s| ==> !IsWhitespace(s[TextStart(m)]))
        && m.text == s[TextStart(m)..m.end]
        && (m.end == |s| || IsLineTerminator(s[m.end]))
    {
      MatchAtShape(s, ms[i].index);
    }
  }

  /**
   * A record's text is one line: it holds no line terminator and does not
   * start with whitespace; trailing whitespace is kept.
   */
  lemma RecordTextIsOneLine(lower: CaseMap, s: string)
    ensures forall i | 0 <= i < |HeadingsOf(lower, s)| ::
      var t := HeadingsOf(lower, s)[i].text;
      (forall j | 0 <= j < |t| :: !IsLineTerminator(t[j])) && (t == [] || !IsWhitespace(t[0]))
  {
    var ms := AllMatches(s, 0);
    AllMatchesOrdered(s, 0);
    forall i | 0 <= i < |ms|
      ensures var t := ms[i].text;
        (forall j | 0 <= j < |t| :: !IsLineTerminator(t[j])) && (t == [] || !IsWhitespace(t[0]))
    {
      MatchAtShape(s, ms[i].index);
    }
  }

  /** Every id is made of a-z, 0-9, `_` and `-`. */
  lemma RecordIdsAlphabet(lower: CaseMap, s: string)
    requires LowersToNoAsciiUpper(lower)
    ensures forall i, j | 0 <= i < |HeadingsOf(lower, s)| && 0 <= j < |HeadingsOf(lower, s)[i].id| ::
      IsIdChar(HeadingsOf(lower, s)[i].id[j])
  {
    forall i | 0 <= i < |HeadingsOf(lower, s)|
      ensures forall j | 0 <= j < |HeadingsOf(lower, s)[i].id| :: IsIdChar(HeadingsOf(lower, s)[i].id[j])
    {
      SlugAlphabet(lower, HeadingsOf(lower, s)[i].text);
    }
  }

  /** Two records with the same text get the same id: nothing makes ids unique. */
  lemma SameTextSameId(lower: CaseMap, s: string, i: nat, j: nat)
    requires i < |HeadingsOf(lower, s)| && j < |HeadingsOf(lower, s)|
    requires HeadingsOf(lower, s)[i].text == HeadingsOf(lower, s)[j].text
    ensures HeadingsOf(lower, s)[i].id == HeadingsOf(lower, s)[j].id
  {
  }

  /** A document in which no line starts with `#` yields no records. */
  lemma NoHeadingLineNoRecords(lower: CaseMap, s: string)
    requires forall p | 0 <= p < |s| && AtLineStart(s, p) :: s[p] != '#'
    ensures HeadingsOf(lower, s) == []
  {
    NoHashLineNoMatches(s);
  }

  // ---------------------------------------------------------------------
  // Worked documents

  const SwallowDoc: string := "#\n## B"

  /**
   * `\s+` runs over the line end after a lone `#`, so the next line becomes
   * the text of a level-1 record and is not a heading of its own.
   */
  lemma SwallowedLine(lower: CaseMap)
    ensures HeadingsOf(lower, SwallowDoc) == [Heading(1, "## B", "-b")]
  {
    SwallowLines();
    AllMatchesNext(SwallowDoc, 0, 0, 1, 1, 6);
    NoMatchesFrom(SwallowDoc, 6);
    HashesBSlug(lower);
  }

  lemma SwallowLines()
    ensures IsGreedyMatch(SwallowDoc, 0, 1, 1, 6) && NoHeadingStart(SwallowDoc, 0, 0)
    ensures SwallowDoc[0..1] == "#" && SwallowDoc[2..6] == "## B"
  {
  }

  const DuplicateDoc: string := "# Intro\n# Intro"

  /** Two headings with the same text both get the id `intro`. */
  lemma DuplicateIds(lower: CaseMap)
    ensures HeadingsOf(lower, DuplicateDoc) == [Heading(1, "Intro", "intro"), Heading(1, "Intro", "intro")]
  {
    DuplicateMatches();
    IntroSlug(lower);
  }

  lemma DuplicateMatches()
    ensures AllMatches(DuplicateDoc, 0) == [Match(0, "#", "Intro", 7), Match(8, "#", "Intro", 15)]
  {
    DuplicateLines();
    AllMatchesNext(DuplicateDoc, 0, 0, 1, 1, 7);
    DuplicateSecond();
  }

  lemma DuplicateSecond()
    ensures AllMatches(DuplicateDoc, 7) == [Match(8, "#", "Intro", 15)]
  {
    DuplicateLines();
    AllMatchesNext(DuplicateDoc, 7, 8, 1, 1, 15);
    NoMatchesFrom(DuplicateDoc, 15);
  }

  lemma DuplicateLines()
    ensures IsGreedyMatch(DuplicateDoc, 0, 1, 1, 7) && NoHeadingStart(DuplicateDoc, 0, 0)
    ensures IsGreedyMatch(DuplicateDoc, 8, 1, 1, 15) && NoHeadingStart(DuplicateDoc, 7, 8)
    ensures DuplicateDoc[0..1] == "#" && DuplicateDoc[2..7] == "Intro"
    ensures DuplicateDoc[8..9] == "#" && DuplicateDoc[10..15] == "Intro"
  {
  }

  const TrailingSpaceDoc: string := "# A "

  /** The text keeps its trailing space, and so the id ends in a hyphen. */
  lemma TrailingSpaceKept(lower: CaseMap)
    ensures HeadingsOf(lower, TrailingSpaceDoc) == [Heading(1, "A ", "a-")]
  {
    TrailingSpaceLines();
    AllMatchesNext(TrailingSpaceDoc, 0, 0, 1, 1, 4);
    NoMatchesFrom(TrailingSpaceDoc, 4);
    TrailingSpaceSlug(lower);
  }

  lemma TrailingSpaceLines()
    ensures IsGreedyMatch(TrailingSpaceDoc, 0, 1, 1, 4) && NoHeadingStart(TrailingSpaceDoc, 0, 0)
    ensures TrailingSpaceDoc[0..1] == "#" && TrailingSpaceDoc[2..4] == "A "
  {
  }

  const SevenHashesDoc: string := "####### x"

  /** Seven hashes are not a heading. */
  lemma SevenHashesNoRecord(lower: CaseMap)
    ensures HeadingsOf(lower, SevenHashesDoc) == []
  {
    var s := SevenHashesDoc;
    SevenHashesNoMatch(s, 0);
    NoMatchesFrom(s, 0);
  }

  const NoSpaceDoc: string := "#x"

  /** Hashes not followed by whitespace are not a heading. */
  lemma NoSpaceNoRecord(lower: CaseMap)
    ensures HeadingsOf(lower, NoSpaceDoc) == []
  {
    var s := NoSpaceDoc;
    NoWhitespaceNoMatch(s, 0, 1);
    NoMatchesFrom(s, 0);
  }
}
