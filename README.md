# Heading ids and table of contents of the markdown test page

The test page of this site fetches a markdown document, renders it, and shows a
table of contents beside it. This project models the part of that page that
computes things rather than displays them:

- **Slugs** (`slugs.dfy`): the identifier transform applied to heading text.
  The text is lowercased. Each maximal run of whitespace becomes one hyphen.
  Every character that is neither a word character (`A-Z a-z 0-9 _`) nor a
  hyphen is then deleted. The same transform gives the ids of the rendered
  h1, h2 and h3 elements.
- **HeadingRegex** (`heading_regex.dfy`): the global, multiline heading
  pattern and its `exec` method, with the ECMAScript backtracking semantics.
  `MatchAt` is the match the pattern reports when tried at one position.
  `FirstMatch` is the leftmost match from `lastIndex` on. `AllMatches` is
  every match a loop of `exec` calls sees. The regular-expression object is
  the class `HeadingPattern`: its only state is `lastIndex`, which `Exec`
  updates as the standard says.
- **Headings** (`headings.dfy`): `extractHeadings`, imperatively.
  `ExtractHeadings` creates the pattern object and calls `Exec` until it
  reports no match. For each match it appends one record holding the level
  (number of hashes), the text (second group) and the id (slug of the text).
  It is proved equal to the functional specification `HeadingsOf`, whose
  properties are proved as lemmas.
- **Toc** (`toc.dfy`): the table-of-contents list built by mapping the
  records. Each item has a key (the index), a class holding the level, a link
  target (the id) and a link text. The module also models the ids that the
  rendered h1-h3 elements carry, and proves when the links reach them.
- `js_chars.dfy` holds the character classes of ECMAScript regular
  expressions: `\s`, the line terminators, and `\w`. `wrappers.dfy` holds
  `Option`.

Lowercasing of non-ASCII characters is a parameter `lower: CaseMap`. The
Unicode case tables are not written out. ASCII letters are folded exactly, and
whitespace is left as it is. The properties that depend on the tables assume
only `LowersToNoAsciiUpper(lower)`: no non-ASCII character lowercases to
text containing `A`-`Z`.

Three behaviours of the code that are easy to overlook:

- text that is only whitespace gets the id `-`, not the empty string;
- leading and trailing whitespace each become a hyphen at that end of the id
  (`"  Multiple   Spaces  "` gives `-multiple-spaces-`);
- the text of a record is not trimmed, so trailing spaces stay in it and
  reach the id.

## Model

| member | source | states |
|---|---|---|
| Slugs.LowerCaseAscii | src/testpg.jsx:37 | on ASCII text, lowercasing maps A-Z to a-z one character at a time and leaves every other character unchanged |
| Slugs.LowerCaseHasNoUpper | src/testpg.jsx:37 | lowercased text contains no A-Z, given that no non-ASCII character lowercases to A-Z |
| Slugs.LowerCaseKeepsLower | src/testpg.jsx:37 | lowercasing leaves text unchanged when the text has only whitespace and ASCII characters other than A-Z |
| Slugs.CollapseRunsRemovesWhitespace | src/testpg.jsx:37 | after the whitespace replacement, no whitespace is left; every character is a hyphen or comes from the input |
| Slugs.CollapseOneRun | src/testpg.jsx:37 | a whole run of whitespace produces exactly one hyphen, and only if no run is already open |
| Slugs.ReplaceRunsByStretches | src/testpg.jsx:37 | split into maximal whitespace runs and non-whitespace stretches, the replacement turns each run into one hyphen and copies everything else |
| Slugs.RemoveNonWordKeeps | src/testpg.jsx:37 | the filter output is no longer than its input, and each output character is a word character or hyphen taken from the input |
| Slugs.RemoveNonWordAppend | src/testpg.jsx:37 | the filter works character by character: filtering a concatenation concatenates the filtered parts |
| Slugs.RemoveNonWordDropsAll | src/testpg.jsx:37 | text with no word character and no hyphen filters to the empty string |
| Slugs.RemoveNonWordFixedPoint | src/testpg.jsx:37 | the filter leaves a string unchanged if and only if every character is a word character or a hyphen |
| Slugs.RemoveNonWordByStretches | src/testpg.jsx:37 | on a split into stretches, the filter keeps word stretches, drops junk stretches and keeps the hyphen of each whitespace run |
| Slugs.SlugOfStretches | src/testpg.jsx:37 | the id of an ASCII text is the concatenation of its stretches' ids: words kept, punctuation dropped, each whitespace run a hyphen |
| Slugs.SlugAlphabet | src/testpg.jsx:37 | every id consists only of a-z, 0-9, `_` and `-`, given that no non-ASCII character lowercases to A-Z |
| Slugs.SlugIdempotent | src/testpg.jsx:37 | applying the transform to an id gives the same id |
| Slugs.WhitespaceOnlySlug | src/testpg.jsx:37 | non-empty text made only of whitespace has the id `-` |
| Slugs.PunctuationOnlySlug | src/testpg.jsx:37 | empty text, or text made only of ASCII characters that are neither word characters, hyphens nor whitespace, has the empty id |
| Slugs.LeadingWhitespaceSlug | src/testpg.jsx:37 | text starting with whitespace has an id starting with `-` |
| Slugs.TrailingWhitespaceSlug | src/testpg.jsx:37 | text ending with whitespace has an id ending with `-` |
| Slugs.HelloWorldSlug | src/testpg.jsx:37 | `Hello, World!` has the id `hello-world` |
| Slugs.SpacedHyphenSlug | src/testpg.jsx:37 | `a - b` has the id `a---b`: the hyphen is kept between the two replaced spaces |
| Slugs.MultipleSpacesSlug | src/testpg.jsx:37 | `  Multiple   Spaces  ` has the id `-multiple-spaces-` |
| Slugs.SnakeCaseSlug | src/testpg.jsx:37 | `snake_case Title` has the id `snake_case-title`: the underscore is a word character |
| Slugs.IntroSlug | src/testpg.jsx:37 | `Intro` has the id `intro` |
| Slugs.HashesBSlug | src/testpg.jsx:37 | `## B` has the id `-b`: the hashes are dropped, the space still becomes a hyphen |
| Slugs.TrailingSpaceSlug | src/testpg.jsx:37 | `A ` has the id `a-` |
| Slugs.SingleLetterSlug | src/testpg.jsx:37 | `A` has the id `a` |
| HeadingRegex.MatchAtShape | src/testpg.jsx:29 | a match at p starts at a line start; its first group is the whole run of 1 to 6 hashes there; whitespace follows up to a non-whitespace character; the text runs up to the next line terminator or the end |
| HeadingRegex.MatchAtIsCandidate | src/testpg.jsx:29 | every match reported is one of the ways the pattern can match at that position |
| HeadingRegex.CandidateGreedy | src/testpg.jsx:29 | wherever the pattern can match at all, a match is reported there, with the same number of hashes and whitespace and text spans at least as long as those of any other way to match |
| HeadingRegex.MatchAtExact | src/testpg.jsx:29 | a way to match whose whitespace run and text are both maximal is exactly the match reported |
| HeadingRegex.SevenHashesNoMatch | src/testpg.jsx:29 | seven or more hashes at a position: the pattern cannot match there |
| HeadingRegex.NoWhitespaceNoMatch | src/testpg.jsx:29 | a hash run followed by a non-whitespace character or the end of input: the pattern cannot match there |
| HeadingRegex.FirstMatchLeftmost | src/testpg.jsx:34 | the search from lastIndex reports the leftmost position at or after it where the pattern matches, or nothing when no such position exists |
| HeadingRegex.FirstMatchSkips | src/testpg.jsx:34 | positions that are not a line start beginning with `#` are passed over by the search |
| HeadingRegex.FirstMatchAdvances | src/testpg.jsx:34 | a match found from lastIndex ends after it, so the loop cannot stall |
| HeadingRegex.HeadingPattern.constructor | src/testpg.jsx:29 | a new pattern object starts with lastIndex 0 |
| HeadingRegex.HeadingPattern.Exec | src/testpg.jsx:34 | exec reports the leftmost match from lastIndex; lastIndex becomes the end of that match, or 0 when there is none |
| HeadingRegex.AllMatchesOrdered | src/testpg.jsx:34-39 | the matches the loop sees lie after its start, are each the match at their own index, come in increasing order and do not overlap |
| HeadingRegex.AllMatchesComplete | src/testpg.jsx:34-39 | no match is skipped: every position where the pattern matches lies inside one of the matches the loop sees |
| HeadingRegex.NoMatchesFrom | src/testpg.jsx:34-39 | where the pattern matches nowhere from the start on, the loop sees nothing |
| HeadingRegex.AllMatchesNext | src/testpg.jsx:34-39 | the next match seen is the maximal match at the first heading start |
| HeadingRegex.NoHashLineNoMatches | src/testpg.jsx:29-34 | a text in which no line starts with `#` has no match |
| Headings.ExtractHeadings | src/testpg.jsx:28-41 | the loop of exec calls pushes exactly the records of `HeadingsOf`: one per match, in order |
| Headings.RecordsOfMatches | src/testpg.jsx:34-38 | one record per match, in order and disjoint. Each match is the one the pattern reports at its own index. Each record's level is the length of the whole hash run at a line start (1 to 6). Its text starts at the first non-whitespace character after the hashes and runs to the end of the line. Its id is the slug of its text |
| Headings.RecordTextIsOneLine | src/testpg.jsx:29-36 | a record's text holds no line terminator and does not start with whitespace |
| Headings.RecordIdsAlphabet | src/testpg.jsx:37 | every record id consists only of a-z, 0-9, `_` and `-` |
| Headings.SameTextSameId | src/testpg.jsx:36-38 | two records with the same text have the same id (ids are not made unique) |
| Headings.NoHeadingLineNoRecords | src/testpg.jsx:28-41 | a document in which no line starts with `#` gives no records |
| Headings.SwallowedLine | src/testpg.jsx:29-38 | in `#` followed by a line `## B`, the whitespace run crosses the line end, so the only record is level 1 with text `## B` and id `-b` |
| Headings.DuplicateIds | src/testpg.jsx:34-38 | two lines `# Intro` give two records, both with the id `intro` |
| Headings.TrailingSpaceKept | src/testpg.jsx:36-37 | `# A ` gives one record whose text keeps the trailing space and whose id is `a-` |
| Headings.SevenHashesNoRecord | src/testpg.jsx:29 | `####### x` gives no record |
| Headings.NoSpaceNoRecord | src/testpg.jsx:29 | `#x` gives no record |
| Toc.DecimalRoundTrip | src/testpg.jsx:78 | the level written in decimal has no leading zero and reads back as the level |
| Toc.LevelClassRoundTrip | src/testpg.jsx:78 | the level can be read back from an item's class name |
| Toc.TocMirrorsHeadings | src/testpg.jsx:74-87 | one item per record, in order: item i has key i and links to record i's id; its text is record i's text; its class names record i's level |
| Toc.ReadBackEntries | src/testpg.jsx:74-87 | items from which every record can be read back give back the whole record list |
| Toc.TocRoundTrip | src/testpg.jsx:74-87 | reading the records back from the table of contents gives the records it was built from |
| Toc.TocLinksReachRenderedHeadings | src/testpg.jsx:56-81 | for a heading rendered with the record's text, a level 1-3 item links to exactly the rendered element's id; for levels 4-6 no rendered element has an id |
| Toc.TrailingSpaceLinkMisses | src/testpg.jsx:56-81 | for `# A `, the item links to `a-`; if the rendered h1's content is `A`, its id is `a` |

## Left out

- Fetching the document, the React state (`useState`, `useEffect`, `setMarkdown`, `setHeadings`) and error logging (src/testpg.jsx:10-24, 40) are I/O and framework state. `ExtractHeadings` returns the array that is handed to `setHeadings`.
- Markdown rendering by ReactMarkdown and remark-gfm is a library this model cannot see. It decides which lines become heading elements and what their content is: it trims the text, drops closing hashes and applies inline formatting. `RenderedId` takes that content as a parameter. The plugin prop is misspelled, which only affects rendering.
- Toc.TocLinksReachRenderedHeadings: holds only when the rendered content equals the record's text. Plain `children.toString()` of a heading that holds inline elements is not modelled.
- The scroll link's behaviour (smooth scrolling, duration, offset, the active class) and the page layout are presentation and are not modelled.
- src/App.jsx, src/Home.jsx and src/MarkdownRenderer.jsx are not part of this model.
- Slugs.SlugAlphabet: requires `LowersToNoAsciiUpper(lower)` because the Unicode lowercase tables are a parameter rather than written out.
- Slugs.SlugIdempotent: requires `LowersToNoAsciiUpper(lower)`, for the reason above.
- Slugs.LowerCaseHasNoUpper: requires `LowersToNoAsciiUpper(lower)`, for the reason above.
- Headings.RecordIdsAlphabet: requires `LowersToNoAsciiUpper(lower)`, for the reason above.
- Context-dependent lowercasing (the final sigma) is not modelled. `lower` maps one character at a time. Its output is non-ASCII and is deleted from ids either way.
- Strings are sequences of Unicode characters rather than UTF-16 code units. A character outside the Basic Multilingual Plane is one character here. None of those characters is whitespace, a line terminator or a word character, so the records and ids do not change. Match positions (`match.index`, `lastIndex`) would, since they count UTF-16 code units.
- Slugs.PunctuationOnlySlug: stated for ASCII punctuation only. For non-ASCII text, whether its lowercase form contains letters depends on the tables.
