/**
 * The table of contents: one list item per heading record, keyed by its
 * position, with a class naming the record's level and a scroll link whose
 * target is the record's id and whose text is the record's text; and the
 * ids the rendered h1-h3 elements carry, which those links are meant to reach.
 */
module Toc {
  import opened JsChars
  import opened Wrappers
  import opened Slugs
  import opened Headings

  /** One list item: its React key, its class, its link target and the link text. */
  datatype TocEntry = TocEntry(key: nat, className: string, to: string, linkText: string)

  // ---------------------------------------------------------------------
  // Numbers in the class name

  function DigitChar(d: nat): char
    requires d < 10
  {
    ('0' as int + d) as char
  }

  /** A number as a template literal writes it: decimal digits, no leading zero. */
  function DecimalString(n: nat): string
    decreases n
  {
    if n < 10 then [DigitChar(n)] else DecimalString(n / 10) + [DigitChar(n % 10)]
  }

  predicate AllDigits(s: string) {
    forall i | 0 <= i < |s| :: IsDigit(s[i])
  }

  /** The value of a string of decimal digits. */
  function DigitsValue(s: string): nat
    requires AllDigits(s)
  {
    if s == [] then 0 else DigitsValue(s[..|s| - 1]) * 10 + (s[|s| - 1] as int - '0' as int)
  }

  /** Writing a number and reading it back gives the number; the digits have no leading zero. */
  lemma {:induction false} DecimalRoundTrip(n: nat)
    ensures DecimalString(n) != [] && AllDigits(DecimalString(n))
    ensures DigitsValue(DecimalString(n)) == n
    ensures |DecimalString(n)| > 1 ==> DecimalString(n)[0] != '0'
    decreases n
  {
    if n >= 10 {
      var front := DecimalString(n / 10);
      DecimalRoundTrip(n / 10);
      var r := front + [DigitChar(n % 10)];
      assert r[..|r| - 1] == front;
    }
  }

  // ---------------------------------------------------------------------
  // The list

  const LevelClassPrefix: string := "toc-item toc-level-"

  /** The item's class: the fixed prefix followed by the level in decimal. */
  function LevelClass(level: nat): string {
    LevelClassPrefix + DecimalString(level)
  }

  /** The level a class name written by `LevelClass` stands for. */
  function LevelOfClass(className: string): Option<nat> {
    var n := |LevelClassPrefix|;
    if |className| > n && className[..n] == LevelClassPrefix && AllDigits(className[n..])
    then Some(DigitsValue(className[n..]))
    else None
  }

  /** The list item for the record at position `index`. */
  function TocEntryOf(index: nat, heading: Heading): TocEntry {
    TocEntry(index, LevelClass(heading.level), heading.id, heading.text)
  }

  /** `headings.map(...)`: one item per record, in the same order. */
  function BuildToc(headings: seq<Heading>): seq<TocEntry> {
    seq(|headings|, i requires 0 <= i < |headings| => TocEntryOf(i, headings[i]))
  }

  /** The record a list item was made from, read back from its class, target and link text. */
  function HeadingOfEntry(entry: TocEntry): Option<Heading> {
    match LevelOfClass(entry.className)
    case None => None
    case Some(level) => Some(Heading(level, entry.linkText, entry.to))
  }

  /** The class name of a level reads back as that level. */
  lemma LevelClassRoundTrip(level: nat)
    ensures LevelOfClass(LevelClass(level)) == Some(level)
  {
    DecimalRoundTrip(level);
    var c := LevelClass(level);
    var n := |LevelClassPrefix|;
    assert c[..n] == LevelClassPrefix;
    assert c[n..] == DecimalString(level);
  }

  /**
   * The list has one item per record, in the same order: item `i` has key
   * `i`, names the record's level in its class, links to the record's id and
   * shows its text as the link text, so the record can be read back from it.
   */
  lemma TocMirrorsHeadings(headings: seq<Heading>)
    ensures |BuildToc(headings)| == |headings|
    ensures forall i | 0 <= i < |headings| ::
      && BuildToc(headings)[i].key == i
      && BuildToc(headings)[i].to == headings[i].id
      && BuildToc(headings)[i].linkText == headings[i].text
      && LevelOfClass(BuildToc(headings)[i].className) == Some(headings[i].level)
      && HeadingOfEntry(BuildToc(headings)[i]) == Some(headings[i])
  {
    forall i | 0 <= i < |headings|
      ensures LevelOfClass(BuildToc(headings)[i].className) == Some(headings[i].level)
    {
      LevelClassRoundTrip(headings[i].level);
    }
  }

  /** Reading every item back gives the records the list was built from. */
  function HeadingsOfToc(entries: seq<TocEntry>): Option<seq<Heading>> {
    if entries == [] then Some([])
    else match (HeadingOfEntry(entries[0]), HeadingsOfToc(entries[1..]))
      case (Some(h), Some(hs)) => Some([h] + hs)
      case _ => None
  }

  lemma {:induction false} ReadBackEntries(entries: seq<TocEntry>, headings: seq<Heading>)
    requires |entries| == |headings|
    requires forall i | 0 <= i < |entries| :: HeadingOfEntry(entries[i]) == Some(headings[i])
    ensures HeadingsOfToc(entries) == Some(headings)
  {
    if entries != [] {
      ReadBackEntries(entries[1..], headings[1..]);
      assert [headings[0]] + headings[1..] == headings;
    }
  }

  /** Building the list and reading it back gives the records unchanged. */
  lemma TocRoundTrip(headings: seq<Heading>)
    ensures HeadingsOfToc(BuildToc(headings)) == Some(headings)
  {
    TocMirrorsHeadings(headings);
    ReadBackEntries(BuildToc(headings), headings);
  }

  // ---------------------------------------------------------------------
  // Where the links lead

  /**
   * The id a rendered heading element carries: h1, h2 and h3 are given the
   * slug of their content as a string; h4-h6 keep the default element, which
   * has no id.
   */
  function RenderedId(lower: CaseMap, level: nat, content: string): Option<string> {
    if 1 <= level <= 3 then Some(Slug(lower, content)) else None
  }

  /**
   * For a plain-text heading whose rendered content is the record's text, the
   * link of a level 1-3 item is exactly the rendered element's id; items for
   * levels 4-6 link to an id that no rendered element carries.
   */
  lemma TocLinksReachRenderedHeadings(lower: CaseMap, markdownText: string)
    ensures var hs := HeadingsOf(lower, markdownText);
      forall i | 0 <= i < |hs| ::
        && (hs[i].level <= 3 ==> RenderedId(lower, hs[i].level, hs[i].text) == Some(BuildToc(hs)[i].to))
        && (hs[i].level >= 4 ==> RenderedId(lower, hs[i].level, hs[i].text).None?)
  {
    var hs := HeadingsOf(lower, markdownText);
    RecordsOfMatches(lower, markdownText);
    TocMirrorsHeadings(hs);
  }

  /**
   * When the rendered content lacks the trailing space the record's text
   * keeps, the item for "# A " links to `a-` while the element's id is `a`.
   */
  lemma TrailingSpaceLinkMisses(lower: CaseMap)
    ensures BuildToc(HeadingsOf(lower, TrailingSpaceDoc))[0].to == "a-"
    ensures RenderedId(lower, 1, "A") == Some("a")
  {
    TrailingSpaceKept(lower);
    TocMirrorsHeadings(HeadingsOf(lower, TrailingSpaceDoc));
    SingleLetterSlug(lower);
  }
}
