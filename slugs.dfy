/**
 * The identifier transform applied to heading text, both when headings are
 * extracted for the table of contents and when h1-h3 elements are rendered:
 * lowercase the text, replace every maximal run of whitespace by one hyphen,
 * then delete every character that is neither a word character nor a hyphen.
 */
module Slugs {
  import opened JsChars

  /**
   * The lowercase form of a non-ASCII character that is not whitespace, as
   * the Unicode default case mapping gives it (it may be longer than one
   * character). The mapping tables are not enumerated: every property that
   * needs to know something of them says so in its requires clause.
   */
  type CaseMap = char -> string

  /** No Unicode lowercase mapping of a non-ASCII character yields A-Z. */
  ghost predicate LowersToNoAsciiUpper(lower: CaseMap) {
    forall c, i | !IsAscii(c) && 0 <= i < |lower(c)| :: !IsAsciiUpper(lower(c)[i])
  }

  /** `toLowerCase` on one character: ASCII folding is exact, whitespace has no case. */
  function LowerChar(lower: CaseMap, c: char): string {
    if IsAsciiUpper(c) then [(c as int + 32) as char]
    else if IsAscii(c) || IsWhitespace(c) then [c]
    else lower(c)
  }

  /** `text.toLowerCase()` */
  function LowerCase(lower: CaseMap, s: string): string {
    if s == [] then [] else LowerChar(lower, s[0]) + LowerCase(lower, s[1..])
  }

  /**
   * `replace(/\s+/g, "-")`, read left to right: `inRun` says that the
   * character before `s` was whitespace whose run already produced its hyphen.
   */
  function CollapseRuns(s: string, inRun: bool): string {
    if s == [] then []
    else
      (if !IsWhitespace(s[0]) then [s[0]] else if inRun then "" else "-")
      + CollapseRuns(s[1..], IsWhitespace(s[0]))
  }

  function ReplaceWhitespaceRuns(s: string): string {
    CollapseRuns(s, false)
  }

  /** `replace(/[^\w-]/g, "")` */
  function RemoveNonWord(s: string): string {
    if s == [] then [] else (if IsKept(s[0]) then [s[0]] else []) + RemoveNonWord(s[1..])
  }

  /** The identifier of a heading whose text is `text`. */
  function Slug(lower: CaseMap, text: string): string {
    RemoveNonWord(ReplaceWhitespaceRuns(LowerCase(lower, text)))
  }

  // ---------------------------------------------------------------------
  // Lowercasing

  lemma {:induction false} LowerCaseHasNoUpper(lower: CaseMap, s: string)
    requires LowersToNoAsciiUpper(lower)
    ensures forall i | 0 <= i < |LowerCase(lower, s)| :: !IsAsciiUpper(LowerCase(lower, s)[i])
  {
    if s != [] {
      LowerCaseHasNoUpper(lower, s[1..]);
      var head := LowerChar(lower, s[0]);
      assert forall i | 0 <= i < |head| :: !IsAsciiUpper(head[i]);
    }
  }

  function FoldAscii(c: char): char {
    if IsAsciiUpper(c) then (c as int + 32) as char else c
  }

  function AsciiLowerCase(s: string): string {
    seq(|s|, i requires 0 <= i < |s| => FoldAscii(s[i]))
  }

  /** On ASCII text, lowercasing maps A-Z to a-z one character at a time and changes nothing else. */
  lemma {:induction false} LowerCaseAscii(lower: CaseMap, s: string)
    requires forall i | 0 <= i < |s| :: IsAscii(s[i])
    ensures LowerCase(lower, s) == AsciiLowerCase(s)
  {
    if s != [] {
      LowerCaseAscii(lower, s[1..]);
    }
  }

  lemma {:induction false} LowerCaseAppend(lower: CaseMap, a: string, b: string)
    ensures LowerCase(lower, a + b) == LowerCase(lower, a) + LowerCase(lower, b)
  {
    if a == [] {
      assert a + b == b;
    } else {
      assert (a + b)[1..] == a[1..] + b;
      LowerCaseAppend(lower, a[1..], b);
    }
  }

  /** Text without uppercase ASCII and without non-ASCII letters is left alone by lowercasing. */
  lemma {:induction false} LowerCaseKeepsLower(lower: CaseMap, s: string)
    requires forall i | 0 <= i < |s| :: (IsAscii(s[i]) && !IsAsciiUpper(s[i])) || IsWhitespace(s[i])
    ensures LowerCase(lower, s) == s
  {
    if s != [] {
      LowerCaseKeepsLower(lower, s[1..]);
    }
  }

  // ---------------------------------------------------------------------
  // Whitespace runs

  /** A stretch without whitespace is copied unchanged and ends any run. */
  lemma {:induction false} CollapseCopiesWord(a: string, b: string, inRun: bool)
    requires a != []
    requires forall i | 0 <= i < |a| :: !IsWhitespace(a[i])
    ensures CollapseRuns(a + b, inRun) == a + CollapseRuns(b, false)
  {
    assert (a + b)[0] == a[0];
    assert (a + b)[1..] == a[1..] + b;
    if |a| == 1 {
      assert a[1..] + b == b;
    } else {
      CollapseCopiesWord(a[1..], b, false);
    }
  }

  /** A maximal whitespace run becomes exactly one hyphen. */
  lemma {:induction false} CollapseOneRun(w: string, b: string, inRun: bool)
    requires w != []
    requires forall i | 0 <= i < |w| :: IsWhitespace(w[i])
    ensures CollapseRuns(w + b, inRun) == (if inRun then "" else "-") + CollapseRuns(b, true)
  {
    assert (w + b)[0] == w[0];
    assert (w + b)[1..] == w[1..] + b;
    if |w| == 1 {
      assert w[1..] + b == b;
    } else {
      CollapseOneRun(w[1..], b, true);
    }
  }

  /** Every whitespace character is gone; what is left is a hyphen or a character of the input. */
  lemma {:induction false} CollapseRunsRemovesWhitespace(s: string, inRun: bool)
    ensures forall i | 0 <= i < |CollapseRuns(s, inRun)| ::
      !IsWhitespace(CollapseRuns(s, inRun)[i]) && (CollapseRuns(s, inRun)[i] == '-' || CollapseRuns(s, inRun)[i] in s)
  {
    if s != [] {
      CollapseRunsRemovesWhitespace(s[1..], IsWhitespace(s[0]));
    }
  }

  /**
   * A piece of text: characters the filter keeps (`Word`), other
   * non-whitespace characters (`Junk`), or whitespace (`Gap`).
   */
  datatype Stretch = Word(chars: string) | Junk(chars: string) | Gap(chars: string)

  function Joined(ps: seq<Stretch>): string {
    if ps == [] then [] else ps[0].chars + Joined(ps[1..])
  }

  /** The stretches with every `Gap` written as one hyphen. */
  function Dashed(ps: seq<Stretch>): string {
    if ps == [] then [] else (if ps[0].Gap? then "-" else ps[0].chars) + Dashed(ps[1..])
  }

  /** Whether `c` belongs in a stretch of kind `p`. */
  predicate Fits(p: Stretch, c: char) {
    match p
    case Word(_) => !IsWhitespace(c) && IsKept(c)
    case Junk(_) => !IsWhitespace(c) && !IsKept(c)
    case Gap(_) => IsWhitespace(c)
  }

  /** A stretch is non-empty and every character of it fits its kind. */
  predicate IsStretch(p: Stretch) {
    p.chars != [] && forall i | 0 <= i < |p.chars| :: Fits(p, p.chars[i])
  }

  /**
   * `ps` cuts a text into its maximal whitespace runs (no two gaps side by
   * side) and pieces of the text between them.
   */
  predicate IsRunSplit(ps: seq<Stretch>) {
    ps == [] || (IsStretch(ps[0]) && (|ps| > 1 ==> !(ps[0].Gap? && ps[1].Gap?)) && IsRunSplit(ps[1..]))
  }

  /** Whether the previous character was whitespace matters only before whitespace. */
  lemma CollapseFlagBeforeWord(s: string)
    requires s == [] || !IsWhitespace(s[0])
    ensures CollapseRuns(s, true) == CollapseRuns(s, false)
  {
  }

  /** `replace(/\s+/g, "-")` replaces every maximal whitespace run by exactly one hyphen. */
  lemma {:induction false} ReplaceRunsByStretches(ps: seq<Stretch>)
    requires IsRunSplit(ps)
    ensures ReplaceWhitespaceRuns(Joined(ps)) == Dashed(ps)
  {
    if ps != [] {
      var rest := Joined(ps[1..]);
      ReplaceRunsByStretches(ps[1..]);
      if !ps[0].Gap? {
        CollapseCopiesWord(ps[0].chars, rest, false);
      } else {
        CollapseOneRun(ps[0].chars, rest, false);
        if |ps| > 1 {
          assert ps[1].chars[0] == rest[0];
        }
        CollapseFlagBeforeWord(rest);
      }
    }
  }

  lemma {:induction false} CollapseKeepsNonWhitespace(s: string, inRun: bool)
    requires forall i | 0 <= i < |s| :: !IsWhitespace(s[i])
    ensures CollapseRuns(s, inRun) == s
  {
    if s != [] {
      CollapseKeepsNonWhitespace(s[1..], false);
    }
  }

  /** Text ending in whitespace collapses to text ending in a hyphen. */
  lemma {:induction false} CollapseEndsInHyphen(s: string, inRun: bool)
    requires s != [] && IsWhitespace(s[|s| - 1])
    ensures !inRun ==> CollapseRuns(s, inRun) != []
    ensures CollapseRuns(s, inRun) != [] ==> CollapseRuns(s, inRun)[|CollapseRuns(s, inRun)| - 1] == '-'
  {
    if |s| > 1 {
      assert s[1..][|s[1..]| - 1] == s[|s| - 1];
      CollapseEndsInHyphen(s[1..], IsWhitespace(s[0]));
    }
  }

  // ---------------------------------------------------------------------
  // The character filter

  /** The filter keeps only `\w` and `-`, and only characters of its input. */
  lemma {:induction false} RemoveNonWordKeeps(s: string)
    ensures |RemoveNonWord(s)| <= |s|
    ensures forall i | 0 <= i < |RemoveNonWord(s)| :: IsKept(RemoveNonWord(s)[i]) && RemoveNonWord(s)[i] in s
  {
    if s != [] {
      RemoveNonWordKeeps(s[1..]);
    }
  }

  lemma {:induction false} RemoveNonWordAppend(a: string, b: string)
    ensures RemoveNonWord(a + b) == RemoveNonWord(a) + RemoveNonWord(b)
  {
    if a == [] {
      assert a + b == b;
    } else {
      var c := a + b;
      var head := if IsKept(a[0]) then [a[0]] else [];
      assert c[0] == a[0] && c[1..] == a[1..] + b;
      assert RemoveNonWord(c) == head + RemoveNonWord(a[1..] + b);
      assert RemoveNonWord(a) == head + RemoveNonWord(a[1..]);
      RemoveNonWordAppend(a[1..], b);
    }
  }

  /** What a stretch contributes to the identifier. */
  function StretchId(p: Stretch): string {
    match p
    case Word(chars) => chars
    case Junk(_) => ""
    case Gap(_) => "-"
  }

  function StretchIds(ps: seq<Stretch>): string {
    if ps == [] then [] else StretchId(ps[0]) + StretchIds(ps[1..])
  }

  lemma {:induction false} RemoveNonWordByStretches(ps: seq<Stretch>)
    requires IsRunSplit(ps)
    ensures RemoveNonWord(Dashed(ps)) == StretchIds(ps)
  {
    if ps != [] {
      RemoveNonWordByStretches(ps[1..]);
      RemoveNonWordAppend(if ps[0].Gap? then "-" else ps[0].chars, Dashed(ps[1..]));
      match ps[0]
      case Word(chars) => RemoveNonWordFixedPoint(chars);
      case Junk(chars) => RemoveNonWordDropsAll(chars);
      case Gap(_) =>
    }
  }

  lemma {:induction false} RemoveNonWordDropsAll(s: string)
    requires forall i | 0 <= i < |s| :: !IsKept(s[i])
    ensures RemoveNonWord(s) == ""
  {
    if s != [] {
      RemoveNonWordDropsAll(s[1..]);
    }
  }

  /** The filter changes nothing exactly when every character is kept. */
  lemma {:induction false} RemoveNonWordFixedPoint(s: string)
    ensures RemoveNonWord(s) == s <==> forall i | 0 <= i < |s| :: IsKept(s[i])
  {
    if s != [] {
      RemoveNonWordFixedPoint(s[1..]);
      if !IsKept(s[0]) {
        RemoveNonWordKeeps(s[1..]);
        assert |RemoveNonWord(s)| < |s|;
      }
    }
  }

  // ---------------------------------------------------------------------
  // Properties of the identifiers

  /** Every identifier is made of a-z, 0-9, `_` and `-`. */
  lemma SlugAlphabet(lower: CaseMap, text: string)
    requires LowersToNoAsciiUpper(lower)
    ensures forall i | 0 <= i < |Slug(lower, text)| :: IsIdChar(Slug(lower, text)[i])
  {
    var low := LowerCase(lower, text);
    LowerCaseHasNoUpper(lower, text);
    var dashed := ReplaceWhitespaceRuns(low);
    CollapseRunsRemovesWhitespace(low, false);
    assert forall i | 0 <= i < |dashed| :: !IsAsciiUpper(dashed[i]);
    var id := RemoveNonWord(dashed);
    RemoveNonWordKeeps(dashed);
    assert forall i | 0 <= i < |id| :: !IsAsciiUpper(id[i]) && IsKept(id[i]);
  }

  /** Applying the transform to an identifier gives the identifier back. */
  lemma SlugIdempotent(lower: CaseMap, text: string)
    requires LowersToNoAsciiUpper(lower)
    ensures Slug(lower, Slug(lower, text)) == Slug(lower, text)
  {
    var id := Slug(lower, text);
    SlugAlphabet(lower, text);
    LowerCaseKeepsLower(lower, id);
    CollapseKeepsNonWhitespace(id, false);
    RemoveNonWordFixedPoint(id);
  }

  /** Text that is nothing but whitespace becomes a single hyphen. */
  lemma WhitespaceOnlySlug(lower: CaseMap, text: string)
    requires text != []
    requires forall i | 0 <= i < |text| :: IsWhitespace(text[i])
    ensures Slug(lower, text) == "-"
  {
    LowerCaseKeepsLower(lower, text);
    CollapseOneRun(text, [], false);
    assert text + [] == text;
    assert CollapseRuns([], true) == [];
    assert ReplaceWhitespaceRuns(text) == "-";
    assert RemoveNonWord("-") == "-" + RemoveNonWord([]);
  }

  /** Text made only of ASCII punctuation, or empty text, gives the empty identifier. */
  lemma {:induction false} PunctuationOnlySlug(lower: CaseMap, text: string)
    requires forall i | 0 <= i < |text| :: IsAscii(text[i]) && !IsKept(text[i]) && !IsWhitespace(text[i])
    ensures Slug(lower, text) == ""
  {
    if text != [] {
      PunctuationOnlySlug(lower, text[1..]);
      assert LowerCase(lower, text) == [text[0]] + LowerCase(lower, text[1..]);
      CollapseCopiesWord([text[0]], LowerCase(lower, text[1..]), false);
      RemoveNonWordAppend([text[0]], ReplaceWhitespaceRuns(LowerCase(lower, text[1..])));
    }
  }

  /** Leading whitespace becomes a leading hyphen. */
  lemma LeadingWhitespaceSlug(lower: CaseMap, text: string)
    requires text != [] && IsWhitespace(text[0])
    ensures Slug(lower, text) != [] && Slug(lower, text)[0] == '-'
  {
    var low := LowerCase(lower, text);
    assert low == [text[0]] + LowerCase(lower, text[1..]);
    var dashed := ReplaceWhitespaceRuns(low);
    assert dashed == "-" + CollapseRuns(low[1..], true);
    RemoveNonWordAppend("-", CollapseRuns(low[1..], true));
  }

  /** Trailing whitespace becomes a trailing hyphen. */
  lemma TrailingWhitespaceSlug(lower: CaseMap, text: string)
    requires text != [] && IsWhitespace(text[|text| - 1])
    ensures Slug(lower, text) != [] && Slug(lower, text)[|Slug(lower, text)| - 1] == '-'
  {
    LowerCaseKeepsLastWhitespace(lower, text);
    var low := LowerCase(lower, text);
    CollapseEndsInHyphen(low, false);
    var dashed := ReplaceWhitespaceRuns(low);
    RemoveNonWordKeepsLastHyphen(dashed);
    assert Slug(lower, text) == RemoveNonWord(dashed);
  }

  lemma LowerCaseKeepsLastWhitespace(lower: CaseMap, text: string)
    requires text != [] && IsWhitespace(text[|text| - 1])
    ensures LowerCase(lower, text) != []
    ensures LowerCase(lower, text)[|LowerCase(lower, text)| - 1] == text[|text| - 1]
  {
    var last := text[|text| - 1];
    var init := text[..|text| - 1];
    assert text == init + [last];
    LowerCaseAppend(lower, init, [last]);
    LowerCaseKeepsLower(lower, [last]);
  }

  lemma RemoveNonWordKeepsLastHyphen(s: string)
    requires s != [] && s[|s| - 1] == '-'
    ensures RemoveNonWord(s) != [] && RemoveNonWord(s)[|RemoveNonWord(s)| - 1] == '-'
  {
    var front := s[..|s| - 1];
    assert s == front + "-";
    RemoveNonWordAppend(front, "-");
    assert RemoveNonWord("-") == "-" + RemoveNonWord([]);
  }

  // ---------------------------------------------------------------------
  // Worked examples

  /**
   * The identifier of ASCII text, worked out from a cut of its lowercase
   * form into whitespace runs and the pieces between them.
   */
  lemma SlugOfStretches(lower: CaseMap, text: string, low: string, ps: seq<Stretch>, id: string)
    requires forall i | 0 <= i < |text| :: IsAscii(text[i])
    requires AsciiLowerCase(text) == low
    requires IsRunSplit(ps) && Joined(ps) == low
    requires StretchIds(ps) == id
    ensures Slug(lower, text) == id
  {
    LowerCaseAscii(lower, text);
    ReplaceRunsByStretches(ps);
    RemoveNonWordByStretches(ps);
  }

  /** "Hello, World!": punctuation goes, the space becomes a hyphen. */
  lemma HelloWorldSlug(lower: CaseMap)
    ensures Slug(lower, "Hello, World!") == "hello-world"
  {
    HelloWorldText();
    HelloWorldSplit();
    HelloWorldJoined();
    HelloWorldIds();
    SlugOfStretches(lower, "Hello, World!", "hello, world!", HelloWorldCut, "hello-world");
  }

  lemma HelloWorldText()
    ensures forall i | 0 <= i < |"Hello, World!"| :: IsAscii("Hello, World!"[i])
    ensures AsciiLowerCase("Hello, World!") == "hello, world!"
  {
  }

  const HelloWorldCut: seq<Stretch> := [Word("hello"), Junk(","), Gap(" "), Word("world"), Junk("!")]

  lemma HelloWorldSplit()
    ensures IsRunSplit(HelloWorldCut)
  {
  }

  lemma HelloWorldJoined()
    ensures Joined(HelloWorldCut) == "hello, world!"
  {
  }

  lemma HelloWorldIds()
    ensures StretchIds(HelloWorldCut) == "hello-world"
  {
  }

  /** "a - b": the hyphen is kept between the two hyphens the spaces become. */
  lemma SpacedHyphenSlug(lower: CaseMap)
    ensures Slug(lower, "a - b") == "a---b"
  {
    SpacedHyphenText();
    SpacedHyphenSplit();
    SpacedHyphenJoined();
    SpacedHyphenIds();
    SlugOfStretches(lower, "a - b", "a - b", SpacedHyphenCut, "a---b");
  }

  lemma SpacedHyphenText()
    ensures forall i | 0 <= i < |"a - b"| :: IsAscii("a - b"[i])
    ensures AsciiLowerCase("a - b") == "a - b"
  {
  }

  const SpacedHyphenCut: seq<Stretch> := [Word("a"), Gap(" "), Word("-"), Gap(" "), Word("b")]

  lemma SpacedHyphenSplit()
    ensures IsRunSplit(SpacedHyphenCut)
  {
  }

  lemma SpacedHyphenJoined()
    ensures Joined(SpacedHyphenCut) == "a - b"
  {
  }

  lemma SpacedHyphenIds()
    ensures StretchIds(SpacedHyphenCut) == "a---b"
  {
  }

  /** Each run of spaces, leading and trailing ones included, becomes one hyphen. */
  lemma MultipleSpacesSlug(lower: CaseMap)
    ensures Slug(lower, "  Multiple   Spaces  ") == "-multiple-spaces-"
  {
    MultipleSpacesText();
    MultipleSpacesSplit();
    MultipleSpacesJoined();
    MultipleSpacesIds();
    SlugOfStretches(lower, "  Multiple   Spaces  ", "  multiple   spaces  ", MultipleSpacesCut, "-multiple-spaces-");
  }

  lemma MultipleSpacesText()
    ensures forall i | 0 <= i < |"  Multiple   Spaces  "| :: IsAscii("  Multiple   Spaces  "[i])
    ensures AsciiLowerCase("  Multiple   Spaces  ") == "  multiple   spaces  "
  {
  }

  const MultipleSpacesCut: seq<Stretch> := [Gap("  "), Word("multiple"), Gap("   "), Word("spaces"), Gap("  ")]

  lemma MultipleSpacesSplit()
    ensures IsRunSplit(MultipleSpacesCut)
  {
  }

  lemma MultipleSpacesJoined()
    ensures Joined(MultipleSpacesCut) == "  multiple   spaces  "
  {
  }

  lemma MultipleSpacesIds()
    ensures StretchIds(MultipleSpacesCut) == "-multiple-spaces-"
  {
  }

  /** The underscore is a word character and stays. */
  lemma SnakeCaseSlug(lower: CaseMap)
    ensures Slug(lower, "snake_case Title") == "snake_case-title"
  {
    SnakeCaseText();
    SnakeCaseSplit();
    SnakeCaseJoined();
    SnakeCaseIds();
    SlugOfStretches(lower, "snake_case Title", "snake_case title", SnakeCaseCut, "snake_case-title");
  }

  lemma SnakeCaseText()
    ensures forall i | 0 <= i < |"snake_case Title"| :: IsAscii("snake_case Title"[i])
    ensures AsciiLowerCase("snake_case Title") == "snake_case title"
  {
  }

  const SnakeCaseCut: seq<Stretch> := [Word("snake_case"), Gap(" "), Word("title")]

  lemma SnakeCaseSplit()
    ensures IsRunSplit(SnakeCaseCut)
  {
  }

  lemma SnakeCaseJoined()
    ensures Joined(SnakeCaseCut) == "snake_case title"
  {
  }

  lemma SnakeCaseIds()
    ensures StretchIds(SnakeCaseCut) == "snake_case-title"
  {
  }

  /** A single word is only lowercased. */
  lemma IntroSlug(lower: CaseMap)
    ensures Slug(lower, "Intro") == "intro"
  {
    IntroText();
    IntroSplit();
    IntroJoined();
    IntroIds();
    SlugOfStretches(lower, "Intro", "intro", IntroCut, "intro");
  }

  lemma IntroText()
    ensures forall i | 0 <= i < |"Intro"| :: IsAscii("Intro"[i])
    ensures AsciiLowerCase("Intro") == "intro"
  {
  }

  const IntroCut: seq<Stretch> := [Word("intro")]

  lemma IntroSplit()
    ensures IsRunSplit(IntroCut)
  {
  }

  lemma IntroJoined()
    ensures Joined(IntroCut) == "intro"
  {
  }

  lemma IntroIds()
    ensures StretchIds(IntroCut) == "intro"
  {
  }

  /** Hashes left in the text are removed; the space before `b` stays as a hyphen. */
  lemma HashesBSlug(lower: CaseMap)
    ensures Slug(lower, "## B") == "-b"
  {
    HashesBText();
    HashesBSplit();
    HashesBJoined();
    HashesBIds();
    SlugOfStretches(lower, "## B", "## b", HashesBCut, "-b");
  }

  lemma HashesBText()
    ensures forall i | 0 <= i < |"## B"| :: IsAscii("## B"[i])
    ensures AsciiLowerCase("## B") == "## b"
  {
  }

  const HashesBCut: seq<Stretch> := [Junk("##"), Gap(" "), Word("b")]

  lemma HashesBSplit()
    ensures IsRunSplit(HashesBCut)
  {
  }

  lemma HashesBJoined()
    ensures Joined(HashesBCut) == "## b"
  {
  }

  lemma HashesBIds()
    ensures StretchIds(HashesBCut) == "-b"
  {
  }

  /** The trailing space of "A " survives as a trailing hyphen. */
  lemma TrailingSpaceSlug(lower: CaseMap)
    ensures Slug(lower, "A ") == "a-"
  {
    TrailingSpaceText();
    TrailingSpaceSplit();
    TrailingSpaceJoined();
    TrailingSpaceIds();
    SlugOfStretches(lower, "A ", "a ", TrailingSpaceCut, "a-");
  }

  lemma TrailingSpaceText()
    ensures forall i | 0 <= i < |"A "| :: IsAscii("A "[i])
    ensures AsciiLowerCase("A ") == "a "
  {
  }

  const TrailingSpaceCut: seq<Stretch> := [Word("a"), Gap(" ")]

  lemma TrailingSpaceSplit()
    ensures IsRunSplit(TrailingSpaceCut)
  {
  }

  lemma TrailingSpaceJoined()
    ensures Joined(TrailingSpaceCut) == "a "
  {
  }

  lemma TrailingSpaceIds()
    ensures StretchIds(TrailingSpaceCut) == "a-"
  {
  }

  /** One capital letter becomes its lowercase form. */
  lemma SingleLetterSlug(lower: CaseMap)
    ensures Slug(lower, "A") == "a"
  {
    SingleLetterText();
    SingleLetterSplit();
    SingleLetterJoined();
    SingleLetterIds();
    SlugOfStretches(lower, "A", "a", SingleLetterCut, "a");
  }

  lemma SingleLetterText()
    ensures forall i | 0 <= i < |"A"| :: IsAscii("A"[i])
    ensures AsciiLowerCase("A") == "a"
  {
  }

  const SingleLetterCut: seq<Stretch> := [Word("a")]

  lemma SingleLetterSplit()
    ensures IsRunSplit(SingleLetterCut)
  {
  }

  lemma SingleLetterJoined()
    ensures Joined(SingleLetterCut) == "a"
  {
  }

  lemma SingleLetterIds()
    ensures StretchIds(SingleLetterCut) == "a"
  {
  }
}
