// The regular expressions of question_bank.py, each written out as an explicit
// scanner over the text. Python's `re` tries a match at every position from
// left to right (findall, split, sub, search); greedy runs followed by a
// character outside their class can only succeed with the maximal run, lazy
// `.*?` takes the first end position at which the rest of the pattern (or the
// lookahead) succeeds, `.` stops at '\n' unless DOTALL is given, and `$`
// without MULTILINE matches at the end or just before a final '\n'.

module Patterns {
  import opened Wrappers
  import opened Text

  /** `\d`, narrowed to the ASCII and fullwidth decimal digits (Python's `\d` also takes every other Unicode decimal digit). */
  predicate IsDigit(c: char) {
    ('0' <= c <= '9') || ('０' <= c <= '９')
  }

  /** `[一二三四五六七八九十]`: the chapter ordinals. */
  predicate IsNumeral(c: char) {
    c in "一二三四五六七八九十"
  }

  /** `[一二三四五]`: the section ordinals. */
  predicate IsSectionOrdinal(c: char) {
    c in "一二三四五"
  }

  /** `[．.、]`: the punctuation after a question number or an option letter. */
  predicate IsSep(c: char) {
    c == '．' || c == '.' || c == '、'
  }

  /** `[（\(]` */
  predicate IsOpen(c: char) {
    c == '（' || c == '('
  }

  /** `[）\)]` */
  predicate IsClose(c: char) {
    c == '）' || c == ')'
  }

  /** `[A-D]` */
  predicate IsOptionLetter(c: char) {
    'A' <= c <= 'D'
  }

  /** `[A-D,，\s]`: what an answer annotation may hold. */
  predicate IsAnswerChar(c: char) {
    IsOptionLetter(c) || c == ',' || c == '，' || IsSpace(c)
  }

  function DigitRunEnd(s: string, i: nat): (j: nat)
    requires i <= |s|
    ensures i <= j <= |s| && (j == |s| || !IsDigit(s[j]))
    decreases |s| - i
  {
    if i < |s| && IsDigit(s[i]) then DigitRunEnd(s, i + 1) else i
  }

  /** Everything the digit run passes over is a digit. */
  lemma {:induction false} DigitRunAll(s: string, i: nat)
    requires i <= |s|
    ensures forall k :: i <= k < DigitRunEnd(s, i) ==> IsDigit(s[k])
    decreases |s| - i
  {
    if i < |s| && IsDigit(s[i]) {
      DigitRunAll(s, i + 1);
    }
  }

  function NumeralRunEnd(s: string, i: nat): (j: nat)
    requires i <= |s|
    ensures i <= j <= |s| && (j == |s| || !IsNumeral(s[j]))
    decreases |s| - i
  {
    if i < |s| && IsNumeral(s[i]) then NumeralRunEnd(s, i + 1) else i
  }

  /** Everything the numeral run passes over is a chapter numeral. */
  lemma {:induction false} NumeralRunAll(s: string, i: nat)
    requires i <= |s|
    ensures forall k :: i <= k < NumeralRunEnd(s, i) ==> IsNumeral(s[k])
    decreases |s| - i
  {
    if i < |s| && IsNumeral(s[i]) {
      NumeralRunAll(s, i + 1);
    }
  }

  function AnswerRunEnd(s: string, i: nat): (j: nat)
    requires i <= |s|
    ensures i <= j <= |s| && (j == |s| || !IsAnswerChar(s[j]))
    decreases |s| - i
  {
    if i < |s| && IsAnswerChar(s[i]) then AnswerRunEnd(s, i + 1) else i
  }

  /** Everything the answer run passes over may stand in an annotation. */
  lemma {:induction false} AnswerRunAll(s: string, i: nat)
    requires i <= |s|
    ensures forall k :: i <= k < AnswerRunEnd(s, i) ==> IsAnswerChar(s[k])
    decreases |s| - i
  {
    if i < |s| && IsAnswerChar(s[i]) {
      AnswerRunAll(s, i + 1);
    }
  }

  /** `\d+[．.、]` at i: the position after the punctuation. */
  function NumberEnd(s: string, i: nat): (r: Option<nat>)
    requires i <= |s|
    ensures r.Some? ==> i + 2 <= r.value <= |s| && IsDigit(s[i]) && IsSep(s[r.value - 1])
  {
    if i < |s| && IsDigit(s[i]) then
      var d := DigitRunEnd(s, i);
      if d < |s| && IsSep(s[d]) then Some(d + 1) else None
    else None
  }

  // ---------------------------------------------------------------------
  // Chapters: re.findall(r"第[一二三四五六七八九十]+章.*?(?=\n\n第[一二三四五六七八九十]+章|$)",
  //                      content, re.DOTALL)

  /** `第[一…十]+章` at i: the position after 章. */
  function ChapterHeadingEnd(s: string, i: nat): (r: Option<nat>)
    requires i <= |s|
    ensures r.Some? ==> i + 3 <= r.value <= |s| && s[i] == '第' && s[r.value - 1] == '章'
  {
    if i < |s| && s[i] == '第' then
      var j := NumeralRunEnd(s, i + 1);
      if j > i + 1 && j < |s| && s[j] == '章' then Some(j + 1) else None
    else None
  }

  /** `$` without MULTILINE. */
  predicate AtEnd(s: string, j: nat) {
    j == |s| || (j + 1 == |s| && s[j] == '\n')
  }

  /** The lookahead `(?=\n\n第[一…十]+章|$)` at j. */
  predicate ChapterBoundary(s: string, j: nat)
    requires j <= |s|
  {
    (j + 2 <= |s| && s[j] == '\n' && s[j + 1] == '\n' && ChapterHeadingEnd(s, j + 2).Some?)
    || AtEnd(s, j)
  }

  /** Where the lazy `.*?` (DOTALL) of a chapter stops: the first boundary at or after j. */
  function ChapterEnd(s: string, j: nat): (e: nat)
    requires j <= |s|
    ensures j <= e <= |s| && ChapterBoundary(s, e)
    decreases |s| - j
  {
    if ChapterBoundary(s, j) then j else ChapterEnd(s, j + 1)
  }

  /** The lazy chapter body stops at the first boundary, not a later one. */
  lemma {:induction false} ChapterEndIsFirst(s: string, j: nat)
    requires j <= |s|
    ensures forall k :: j <= k < ChapterEnd(s, j) ==> !ChapterBoundary(s, k)
    decreases |s| - j
  {
    if !ChapterBoundary(s, j) {
      ChapterEndIsFirst(s, j + 1);
    }
  }

  /** findall of the chapter pattern, scanning from position i. */
  function FindChapters(s: string, i: nat): (r: seq<string>)
    requires i <= |s|
    ensures |r| <= |s| - i
    decreases |s| - i
  {
    if i == |s| then []
    else match ChapterHeadingEnd(s, i)
      case Some(h) =>
        var e := ChapterEnd(s, h);
        [s[i..e]] + FindChapters(s, e)
      case None => FindChapters(s, i + 1)
  }

  /** Where re.findall finds its first chapter: the first heading at or
      after i, or |s| when there is none. */
  function FirstHeading(s: string, i: nat): (h: nat)
    requires i <= |s|
    ensures i <= h <= |s|
    ensures h < |s| ==> ChapterHeadingEnd(s, h).Some?
    decreases |s| - i
  {
    if i == |s| || ChapterHeadingEnd(s, i).Some? then i else FirstHeading(s, i + 1)
  }

  /** No heading comes before the first one. */
  lemma {:induction false} FirstHeadingIsFirst(s: string, i: nat)
    requires i <= |s|
    ensures forall k :: i <= k < FirstHeading(s, i) ==> ChapterHeadingEnd(s, k).None?
    decreases |s| - i
  {
    if i < |s| && ChapterHeadingEnd(s, i).None? {
      FirstHeadingIsFirst(s, i + 1);
    }
  }

  /** The blocks, joined by blank lines, are the text from h on, with or
      without one final newline. */
  predicate JoinedFrom(s: string, h: nat, blocks: seq<string>)
    requires h <= |s|
  {
    s[h..] == JoinWith(blocks, "\n\n") || s[h..] == JoinWith(blocks, "\n\n") + "\n"
  }

  /** The chapters lose no text: there are none just when no heading
      follows i, and otherwise the blocks joined by the blank lines between
      them give back the text from the first heading on (the final newline
      that `$` may leave out aside). */
  lemma {:induction false} FindChaptersJoin(s: string, i: nat)
    requires i <= |s|
    ensures FindChapters(s, i) == [] <==> FirstHeading(s, i) == |s|
    ensures FindChapters(s, i) != [] ==> JoinedFrom(s, FirstHeading(s, i), FindChapters(s, i))
    decreases |s| - i, 1
  {
    if i < |s| {
      if ChapterHeadingEnd(s, i).Some? {
        var e := ChapterEnd(s, ChapterHeadingEnd(s, i).value);
        if e + 2 <= |s| && s[e] == '\n' && s[e + 1] == '\n' && ChapterHeadingEnd(s, e + 2).Some? {
          ChapterBeforeNext(s, i, e);
        } else {
          LastChapter(s, i, e);
        }
      } else {
        FindChaptersJoin(s, i + 1);
        NoChapterHere(s, i);
      }
    }
  }

  /** No heading at i: the search moves on. */
  lemma {:induction false} NoChapterHere(s: string, i: nat)
    requires i < |s| && ChapterHeadingEnd(s, i).None?
    requires FindChapters(s, i + 1) == [] <==> FirstHeading(s, i + 1) == |s|
    requires FindChapters(s, i + 1) != [] ==> JoinedFrom(s, FirstHeading(s, i + 1), FindChapters(s, i + 1))
    ensures FindChapters(s, i) == [] <==> FirstHeading(s, i) == |s|
    ensures FindChapters(s, i) != [] ==> JoinedFrom(s, FirstHeading(s, i), FindChapters(s, i))
  {
    FindChaptersSkip(s, i);
  }

  /** A chapter followed by a blank line and the next heading. */
  lemma {:induction false} ChapterBeforeNext(s: string, i: nat, e: nat)
    requires i < |s| && ChapterHeadingEnd(s, i).Some? && e == ChapterEnd(s, ChapterHeadingEnd(s, i).value)
    requires e + 2 <= |s| && s[e] == '\n' && s[e + 1] == '\n' && ChapterHeadingEnd(s, e + 2).Some?
    ensures FindChapters(s, i) != [] && FirstHeading(s, i) == i
    ensures JoinedFrom(s, i, FindChapters(s, i))
    decreases |s| - i, 0
  {
    assert FindChapters(s, e + 2) != [] && JoinedFrom(s, e + 2, FindChapters(s, e + 2)) by {
      FindChaptersJoin(s, e + 2);
      assert FirstHeading(s, e + 2) == e + 2;
    }
    ChapterThenRest(s, i, e);
  }

  /** The step of ChapterBeforeNext once the rest of the text is known to be joined. */
  lemma {:induction false} ChapterThenRest(s: string, i: nat, e: nat)
    requires i < |s| && ChapterHeadingEnd(s, i).Some? && e == ChapterEnd(s, ChapterHeadingEnd(s, i).value)
    requires e + 2 <= |s| && s[e] == '\n' && s[e + 1] == '\n' && ChapterHeadingEnd(s, e + 2).Some?
    requires FindChapters(s, e + 2) != [] && JoinedFrom(s, e + 2, FindChapters(s, e + 2))
    ensures FindChapters(s, i) != [] && FirstHeading(s, i) == i
    ensures JoinedFrom(s, i, FindChapters(s, i))
  {
    FindChaptersAt(s, i);
    FindChaptersSkip(s, e);
    FindChaptersSkip(s, e + 1);
    NextChapterJoined(s, i, e, FindChapters(s, e + 2));
  }

  /** A chapter that runs to the end of the text (`$`). */
  lemma {:induction false} LastChapter(s: string, i: nat, e: nat)
    requires i < |s| && ChapterHeadingEnd(s, i).Some? && e == ChapterEnd(s, ChapterHeadingEnd(s, i).value)
    requires !(e + 2 <= |s| && s[e] == '\n' && s[e + 1] == '\n' && ChapterHeadingEnd(s, e + 2).Some?)
    ensures FindChapters(s, i) == [s[i..e]] && FirstHeading(s, i) == i
    ensures JoinedFrom(s, i, FindChapters(s, i))
  {
    FindChaptersAt(s, i);
    assert AtEnd(s, e);
    if e < |s| {
      FindChaptersSkip(s, e);
    }
    assert JoinWith([s[i..e]], "\n\n") == s[i..e];
  }

  lemma {:induction false} FindChaptersAt(s: string, i: nat)
    requires i < |s| && ChapterHeadingEnd(s, i).Some?
    ensures var e := ChapterEnd(s, ChapterHeadingEnd(s, i).value);
      FindChapters(s, i) == [s[i..e]] + FindChapters(s, e)
  {
  }

  lemma {:induction false} FindChaptersSkip(s: string, i: nat)
    requires i < |s| && ChapterHeadingEnd(s, i).None?
    ensures FindChapters(s, i) == FindChapters(s, i + 1)
    ensures FirstHeading(s, i) == FirstHeading(s, i + 1)
  {
  }

  /** A block ending at a blank line before the next heading, then the
      blocks from that heading. */
  lemma {:induction false} NextChapterJoined(s: string, i: nat, e: nat, rest: seq<string>)
    requires i <= e && e + 2 <= |s| && s[e] == '\n' && s[e + 1] == '\n'
    requires rest != []
    requires JoinedFrom(s, e + 2, rest)
    ensures JoinedFrom(s, i, [s[i..e]] + rest)
  {
    JoinWithCons(s[i..e], rest, "\n\n");
    AroundSep(s, i, e, "\n\n");
  }

  /** Every block found starts with a chapter heading "第…章". */
  lemma {:induction false} ChaptersStartWithHeading(s: string, i: nat)
    requires i <= |s|
    ensures forall b :: b in FindChapters(s, i) ==>
      |b| >= 3 && b[0] == '第' && ChapterHeadingEnd(b, 0).Some?
    decreases |s| - i
  {
    if i < |s| {
      match ChapterHeadingEnd(s, i)
      case Some(h) =>
        var e := ChapterEnd(s, h);
        ChaptersStartWithHeading(s, e);
        HeadingPrefix(s, i, e);
      case None =>
        ChaptersStartWithHeading(s, i + 1);
    }
  }

  /** A heading found at i is still found at the start of any slice s[i..e]
      that holds it. */
  lemma {:induction false} HeadingPrefix(s: string, i: nat, e: nat)
    requires i <= e <= |s| && ChapterHeadingEnd(s, i).Some? && ChapterHeadingEnd(s, i).value <= e
    ensures ChapterHeadingEnd(s[i..e], 0) == Some(ChapterHeadingEnd(s, i).value - i)
  {
    var b := s[i..e];
    var j := NumeralRunEnd(s, i + 1);
    NumeralRunAll(s, i + 1);
    NumeralRunShift(s, i, e, i + 1);
  }

  /** The numeral run over a slice is the run over the whole string, shifted. */
  lemma {:induction false} NumeralRunShift(s: string, i: nat, e: nat, k: nat)
    requires i <= k <= e <= |s| && NumeralRunEnd(s, k) < e
    ensures NumeralRunEnd(s[i..e], k - i) == NumeralRunEnd(s, k) - i
    decreases e - k
  {
    assert k < e;
    assert s[i..e][k - i] == s[k];
    if IsNumeral(s[k]) {
      NumeralRunShift(s, i, e, k + 1);
    }
  }

  // ---------------------------------------------------------------------
  // Chapter title: re.match(r"^(第[一二三四五六七八九十]+章.*?)\n", chapter_content)

  /** The group of the title pattern: the text before the first newline, when
      the block starts with a chapter heading and has a newline at all. */
  function TitleLineMatch(block: string): (r: Option<string>)
    ensures r.Some? ==> '\n' in block && r.value == FirstLine(block)
  {
    match ChapterHeadingEnd(block, 0)
    case None => None
    case Some(h) =>
      var k := IndexOf(block, '\n');
      if k < |block| then Some(block[..k]) else None
  }

  // ---------------------------------------------------------------------
  // Sections: re.split(r"(\n[一二三四五]、(?:判断题|单项选择题|多项选择题|单选题|多选题)\s*?\n)",
  //                    chapter_content)

  const Keywords: seq<string> := ["判断题", "单项选择题", "多项选择题", "单选题", "多选题"]

  /** `w` occurs in `s` at position `i`. */
  predicate OccursAt(s: string, i: nat, w: string) {
    i + |w| <= |s| && s[i..i + |w|] == w
  }

  /** The alternation of section keywords at i: the length of the first that matches, or 0. */
  function KeywordLength(s: string, i: nat): (n: nat)
    ensures n > 0 ==> i + n <= |s| && s[i..i + n] in Keywords
    ensures n > 0 ==> s[i] in "判单多" && s[i + n - 1] == '题'
  {
    if OccursAt(s, i, "判断题") then 3
    else if OccursAt(s, i, "单项选择题") then 5
    else if OccursAt(s, i, "多项选择题") then 5
    else if OccursAt(s, i, "单选题") then 3
    else if OccursAt(s, i, "多选题") then 3
    else 0
  }

  /** The lazy `\s*?\n` at q: the end of the first '\n' reached through whitespace only. */
  function LazySpaceNewline(s: string, q: nat): (r: Option<nat>)
    requires q <= |s|
    ensures r.Some? ==> q < r.value <= |s| && s[r.value - 1] == '\n'
    decreases |s| - q
  {
    if q < |s| && s[q] == '\n' then Some(q + 1)
    else if q < |s| && IsSpace(s[q]) then LazySpaceNewline(s, q + 1)
    else None
  }

  /** `\s*?\n` passes over whitespace only, and stops at the first newline. */
  lemma {:induction false} LazySpaceNewlineSpaces(s: string, q: nat)
    requires q <= |s| && LazySpaceNewline(s, q).Some?
    ensures forall k :: q <= k < LazySpaceNewline(s, q).value ==> IsSpace(s[k])
    ensures forall k :: q <= k < LazySpaceNewline(s, q).value - 1 ==> s[k] != '\n'
    decreases |s| - q
  {
    if s[q] != '\n' {
      LazySpaceNewlineSpaces(s, q + 1);
    }
  }

  /** A section header matched at p: its end. */
  function SectionHeaderEnd(s: string, p: nat): (r: Option<nat>)
    requires p <= |s|
    ensures r.Some? ==> p + 4 < r.value <= |s|
  {
    if p + 3 <= |s| && s[p] == '\n' && IsSectionOrdinal(s[p + 1]) && s[p + 2] == '、' then
      var n := KeywordLength(s, p + 3);
      if n > 0 then LazySpaceNewline(s, p + 3 + n) else None
    else None
  }

  function SplitSectionsFrom(s: string, p: nat, seg: nat): (r: seq<string>)
    requires seg <= p <= |s|
    ensures |r| % 2 == 1
    decreases |s| - p
  {
    if p == |s| then [s[seg..]]
    else match SectionHeaderEnd(s, p)
      case Some(e) => [s[seg..p], s[p..e]] + SplitSectionsFrom(s, e, e)
      case None => SplitSectionsFrom(s, p + 1, seg)
  }

  /** The pieces of the split, put back together, are the text. */
  lemma {:induction false} SplitSectionsJoin(s: string, p: nat, seg: nat)
    requires seg <= p <= |s|
    ensures JoinWith(SplitSectionsFrom(s, p, seg), "") == s[seg..]
    decreases |s| - p
  {
    if p < |s| {
      if SectionHeaderEnd(s, p).Some? {
        var e := SectionHeaderEnd(s, p).value;
        SplitSectionsAt(s, p, seg, e);
        SplitSectionsJoin(s, e, e);
        PiecesJoined(s, seg, p, e, SplitSectionsFrom(s, e, e));
      } else {
        SplitSectionsSkip(s, p, seg);
        SplitSectionsJoin(s, p + 1, seg);
      }
    }
  }

  /** At a header ending at e, the split holds the text before it, the header
      and the split of what follows. */
  lemma {:induction false} SplitSectionsAt(s: string, p: nat, seg: nat, e: nat)
    requires seg <= p < |s| && SectionHeaderEnd(s, p) == Some(e)
    ensures SplitSectionsFrom(s, p, seg) == [s[seg..p], s[p..e]] + SplitSectionsFrom(s, e, e)
  {
  }

  lemma {:induction false} SplitSectionsSkip(s: string, p: nat, seg: nat)
    requires seg <= p < |s| && SectionHeaderEnd(s, p).None?
    ensures SplitSectionsFrom(s, p, seg) == SplitSectionsFrom(s, p + 1, seg)
  {
  }

  lemma {:induction false} PiecesJoined(s: string, seg: nat, p: nat, e: nat, rest: seq<string>)
    requires seg <= p <= e <= |s| && rest != [] && JoinWith(rest, "") == s[e..]
    ensures JoinWith([s[seg..p], s[p..e]] + rest, "") == s[seg..]
  {
    assert [s[seg..p], s[p..e]] + rest == [s[seg..p]] + ([s[p..e]] + rest);
    JoinWithCons(s[p..e], rest, "");
    JoinWithCons(s[seg..p], [s[p..e]] + rest, "");
    assert s[seg..] == s[seg..p] + (s[p..e] + s[e..]);
  }

  /** re.split with one capturing group: [text, header, text, header, ..., text],
      which put back together give the text. */
  function SplitSections(s: string): (r: seq<string>)
    ensures |r| % 2 == 1
    ensures JoinWith(r, "") == s
  {
    SplitSectionsJoin(s, 0, 0);
    assert s[0..] == s;
    SplitSectionsFrom(s, 0, 0)
  }

  // ---------------------------------------------------------------------
  // True/false questions: re.findall(r"(\d+)[．.、]\s*(.*?)\s*[（\(]\s*([AB])\s*[）\)]",
  //                                  section_content)            (no DOTALL)

  datatype JudgeMatch = JudgeMatch(stem: string, letter: char)

  /** The tail `\s*[（(]\s*([AB])\s*[）)]` at r: the letter and the end of the match. */
  function JudgeTail(s: string, r: nat): (m: Option<(char, nat)>)
    requires r <= |s|
    ensures m.Some? ==> (m.value.0 == 'A' || m.value.0 == 'B') && r < m.value.1 <= |s|
  {
    var a := SpaceRunEnd(s, r);
    if a < |s| && IsOpen(s[a]) then
      var b := SpaceRunEnd(s, a + 1);
      if b < |s| && (s[b] == 'A' || s[b] == 'B') then
        var c := SpaceRunEnd(s, b + 1);
        if c < |s| && IsClose(s[c]) then Some((s[b], c + 1)) else None
      else None
    else None
  }

  /** The lazy stem `(.*?)` from r: the first position where the tail matches,
      not crossing a newline. */
  function JudgeStemEnd(s: string, r: nat): (e: Option<nat>)
    requires r <= |s|
    ensures e.Some? ==> r <= e.value <= |s| && JudgeTail(s, e.value).Some?
    decreases |s| - r
  {
    if JudgeTail(s, r).Some? then Some(r)
    else if r < |s| && s[r] != '\n' then JudgeStemEnd(s, r + 1)
    else None
  }

  /** Without DOTALL the stem never crosses a newline, and it ends at the
      first place where the tail matches. */
  lemma {:induction false} JudgeStemOneLine(s: string, r: nat)
    requires r <= |s| && JudgeStemEnd(s, r).Some?
    ensures forall k :: r <= k < JudgeStemEnd(s, r).value ==> s[k] != '\n' && JudgeTail(s, k).None?
    decreases |s| - r
  {
    if JudgeTail(s, r).None? {
      JudgeStemOneLine(s, r + 1);
    }
  }

  /** A true/false match at p: the stem group, the letter and the end. The first
      `\s*` takes the whole whitespace run: a shorter run gives no other match. */
  function JudgeMatchAt(s: string, p: nat): (m: Option<(JudgeMatch, nat)>)
    requires p <= |s|
    ensures m.Some? ==> p < m.value.1 <= |s|
    ensures m.Some? ==> m.value.0.letter == 'A' || m.value.0.letter == 'B'
  {
    match NumberEnd(s, p)
    case None => None
    case Some(q) =>
      var w := SpaceRunEnd(s, q);
      match JudgeStemEnd(s, w)
      case None => None
      case Some(e) =>
        var t := JudgeTail(s, e).value;
        Some((JudgeMatch(s[w..e], t.0), t.1))
  }

  /** The stem of a true/false match lies on one line. */
  lemma {:induction false} JudgeMatchOneLine(s: string, p: nat)
    requires p <= |s| && JudgeMatchAt(s, p).Some?
    ensures '\n' !in JudgeMatchAt(s, p).value.0.stem
  {
    var q := NumberEnd(s, p).value;
    var w := SpaceRunEnd(s, q);
    var e := JudgeStemEnd(s, w).value;
    JudgeStemOneLine(s, w);
    var stem := s[w..e];
    forall k | 0 <= k < |stem| ensures stem[k] != '\n' {
      assert stem[k] == s[w + k];
    }
  }

  /** findall of the true/false pattern from position p. */
  function FindJudges(s: string, p: nat): (r: seq<JudgeMatch>)
    requires p <= |s|
    ensures forall m :: m in r ==> m.letter == 'A' || m.letter == 'B'
    decreases |s| - p
  {
    if p == |s| then []
    else match JudgeMatchAt(s, p)
      case Some(m) => [m.0] + FindJudges(s, m.1)
      case None => FindJudges(s, p + 1)
  }

  /** Every true/false stem found lies on one line. */
  lemma {:induction false} JudgesOneLine(s: string, p: nat)
    requires p <= |s|
    ensures forall m :: m in FindJudges(s, p) ==> '\n' !in m.stem
    decreases |s| - p
  {
    if p < |s| {
      match JudgeMatchAt(s, p)
      case Some(m) =>
        JudgeMatchOneLine(s, p);
        JudgesOneLine(s, m.1);
      case None =>
        JudgesOneLine(s, p + 1);
    }
  }

  // ---------------------------------------------------------------------
  // Choice blocks: re.split(r"\n(?=\d+[．.、])", "\n" + section_content)

  function SplitQuestionsFrom(s: string, p: nat, seg: nat): (r: seq<string>)
    requires seg <= p <= |s|
    ensures |r| >= 1
    decreases |s| - p
  {
    if p == |s| then [s[seg..]]
    else if s[p] == '\n' && NumberEnd(s, p + 1).Some? then [s[seg..p]] + SplitQuestionsFrom(s, p + 1, p + 1)
    else SplitQuestionsFrom(s, p + 1, seg)
  }

  /** The blocks, joined again by the newlines the split removed, give the
      text; every block after the first starts with a question number. */
  function SplitQuestions(s: string): (r: seq<string>)
    ensures |r| >= 1
    ensures JoinWith(r, "\n") == s
    ensures forall k :: 1 <= k < |r| ==> NumberEnd(r[k], 0).Some?
  {
    SplitQuestionsJoin(s, 0, 0);
    SplitQuestionsNumbered(s, 0, 0);
    assert s[0..] == s;
    SplitQuestionsFrom(s, 0, 0)
  }

  /** Joining the blocks with the newlines the split removed gives the text
      back. */
  lemma {:induction false} SplitQuestionsJoin(s: string, p: nat, seg: nat)
    requires seg <= p <= |s|
    ensures JoinWith(SplitQuestionsFrom(s, p, seg), "\n") == s[seg..]
    decreases |s| - p
  {
    if p < |s| {
      if s[p] == '\n' && NumberEnd(s, p + 1).Some? {
        SplitQuestionsJoin(s, p + 1, p + 1);
        JoinWithCons(s[seg..p], SplitQuestionsFrom(s, p + 1, p + 1), "\n");
        AroundSep(s, seg, p, "\n");
      } else {
        SplitQuestionsJoin(s, p + 1, seg);
      }
    } else {
      assert SplitQuestionsFrom(s, p, seg) == [s[seg..]];
    }
  }

  /** Every block after the first starts with a question number, and so
      does the first when the text does. */
  lemma {:induction false} SplitQuestionsNumbered(s: string, p: nat, seg: nat)
    requires seg <= p <= |s|
    ensures forall k :: 1 <= k < |SplitQuestionsFrom(s, p, seg)| ==> NumberEnd(SplitQuestionsFrom(s, p, seg)[k], 0).Some?
    ensures NumberEnd(s, seg).Some? ==> NumberEnd(SplitQuestionsFrom(s, p, seg)[0], 0).Some?
    decreases |s| - p
  {
    if p == |s| {
      assert SplitQuestionsFrom(s, p, seg) == [s[seg..]];
      if NumberEnd(s, seg).Some? {
        NumberEndSlice(s, seg, |s|);
        assert s[seg..|s|] == s[seg..];
      }
    } else if s[p] == '\n' && NumberEnd(s, p + 1).Some? {
      SplitQuestionsNumbered(s, p + 1, p + 1);
      QuestionCut(s, p, seg);
    } else {
      SplitQuestionsNumbered(s, p + 1, seg);
      var r, next := SplitQuestionsFrom(s, p, seg), SplitQuestionsFrom(s, p + 1, seg);
      assert r == next;
      forall k | 1 <= k < |r| ensures NumberEnd(r[k], 0).Some? {
        assert r[k] == next[k];
      }
    }
  }

  /** The step of SplitQuestionsNumbered at a cut. */
  lemma {:induction false} QuestionCut(s: string, p: nat, seg: nat)
    requires seg <= p < |s| && s[p] == '\n' && NumberEnd(s, p + 1).Some?
    requires var rest := SplitQuestionsFrom(s, p + 1, p + 1);
      (forall k :: 1 <= k < |rest| ==> NumberEnd(rest[k], 0).Some?) && NumberEnd(rest[0], 0).Some?
    ensures var r := SplitQuestionsFrom(s, p, seg);
      forall k :: 1 <= k < |r| ==> NumberEnd(r[k], 0).Some?
    ensures NumberEnd(s, seg).Some? ==> NumberEnd(SplitQuestionsFrom(s, p, seg)[0], 0).Some?
  {
    var rest := SplitQuestionsFrom(s, p + 1, p + 1);
    var r := [s[seg..p]] + rest;
    assert SplitQuestionsFrom(s, p, seg) == r;
    forall k | 1 <= k < |r| ensures NumberEnd(r[k], 0).Some? {
      assert r[k] == rest[k - 1];
    }
    if NumberEnd(s, seg).Some? {
      NumberOneLine(s, seg);
      NumberEndSlice(s, seg, p);
    }
  }

  /** A question number lies on one line. */
  lemma {:induction false} NumberOneLine(s: string, i: nat)
    requires i <= |s| && NumberEnd(s, i).Some?
    ensures forall k :: i <= k < NumberEnd(s, i).value ==> s[k] != '\n'
  {
    DigitRunAll(s, i);
  }

  /** A question number at i is still read at the start of a slice that
      holds it. */
  lemma {:induction false} NumberEndSlice(s: string, i: nat, e: nat)
    requires i <= e <= |s| && NumberEnd(s, i).Some? && NumberEnd(s, i).value <= e
    ensures NumberEnd(s[i..e], 0) == Some(NumberEnd(s, i).value - i)
  {
    DigitRunShift(s, i, e, i);
  }

  /** The digit run over a slice is the run over the whole string, shifted. */
  lemma {:induction false} DigitRunShift(s: string, i: nat, e: nat, k: nat)
    requires i <= k <= e <= |s| && DigitRunEnd(s, k) < e
    ensures DigitRunEnd(s[i..e], k - i) == DigitRunEnd(s, k) - i
    decreases e - k
  {
    assert s[i..e][k - i] == s[k];
    if IsDigit(s[k]) {
      DigitRunShift(s, i, e, k + 1);
    }
  }

  // ---------------------------------------------------------------------
  // Stem: re.match(r"(\d+)[．.、]\s*(.*?)(?=\n\s*A[．.、])", part, re.DOTALL)

  /** The lookahead `\n\s*A[．.、]` at r. */
  predicate OptionAAhead(s: string, r: nat)
    requires r <= |s|
  {
    r < |s| && s[r] == '\n' &&
    var t := SpaceRunEnd(s, r + 1);
    t + 1 < |s| && s[t] == 'A' && IsSep(s[t + 1])
  }

  /** The first position at or after r where the lookahead holds. */
  function FirstOptionA(s: string, r: nat): (e: Option<nat>)
    requires r <= |s|
    ensures e.Some? ==> r <= e.value < |s| && OptionAAhead(s, e.value)
    decreases |s| - r
  {
    if OptionAAhead(s, r) then Some(r)
    else if r < |s| then FirstOptionA(s, r + 1)
    else None
  }

  /** FirstOptionA finds the first lookahead position, and None means there is none. */
  lemma {:induction false} FirstOptionAIsFirst(s: string, r: nat)
    requires r <= |s|
    ensures forall k :: r <= k <= |s| && (FirstOptionA(s, r).None? || k < FirstOptionA(s, r).value) ==>
      !OptionAAhead(s, k)
    decreases |s| - r
  {
    if !OptionAAhead(s, r) && r < |s| {
      FirstOptionAIsFirst(s, r + 1);
    }
  }

  /** The last position in [lo, hi) where the lookahead holds. */
  function LastOptionABefore(s: string, lo: nat, hi: nat): (e: Option<nat>)
    requires lo <= hi <= |s|
    ensures e.Some? ==> lo <= e.value < hi && OptionAAhead(s, e.value)
    decreases hi - lo
  {
    if hi == lo then None
    else if OptionAAhead(s, hi - 1) then Some(hi - 1)
    else LastOptionABefore(s, lo, hi - 1)
  }

  /** Group 2 of the stem pattern, or None when the block does not match. The
      greedy `\s*` first takes its whole run w and the lazy stem extends to the
      first lookahead after it; only when there is none does backtracking
      shorten the `\s*`, and then the stem is empty. */
  function StemMatch(part: string): (r: Option<string>)
  {
    match NumberEnd(part, 0)
    case None => None
    case Some(q) =>
      var w := SpaceRunEnd(part, q);
      match FirstOptionA(part, w)
      case Some(e) => Some(part[w..e])
      case None => if LastOptionABefore(part, q, w).Some? then Some("") else None
  }

  // ---------------------------------------------------------------------
  // Answer annotation: r"[（\(]([A-D,，\s]+)[）\)]" (re.search and re.sub)

  /** An annotation matched at p: its end (after the closing bracket). */
  function AnnotationAt(s: string, p: nat): (r: Option<nat>)
    requires p <= |s|
    ensures r.Some? ==> p + 3 <= r.value <= |s| && IsOpen(s[p]) && IsClose(s[r.value - 1])
  {
    if p < |s| && IsOpen(s[p]) then
      var e := AnswerRunEnd(s, p + 1);
      if e > p + 1 && e < |s| && IsClose(s[e]) then Some(e + 1) else None
    else None
  }

  /** re.search from p: the first annotation's start and end. */
  function FindAnnotation(s: string, p: nat): (r: Option<(nat, nat)>)
    requires p <= |s|
    ensures r.Some? ==> p <= r.value.0 <= |s| && AnnotationAt(s, r.value.0) == Some(r.value.1)
    decreases |s| - p
  {
    if p == |s| then None
    else match AnnotationAt(s, p)
      case Some(e) => Some((p, e))
      case None => FindAnnotation(s, p + 1)
  }

  /** The inside of an annotation holds letters A–D, commas and whitespace only. */
  lemma {:induction false} AnnotationInside(s: string, p: nat)
    requires p <= |s| && AnnotationAt(s, p).Some?
    ensures forall k :: p < k < AnnotationAt(s, p).value - 1 ==> IsAnswerChar(s[k])
  {
    AnswerRunAll(s, p + 1);
  }

  /** re.search finds the leftmost annotation, and None means there is none. */
  lemma {:induction false} FindAnnotationIsFirst(s: string, p: nat)
    requires p <= |s|
    ensures forall k :: p <= k <= |s| && (FindAnnotation(s, p).None? || k < FindAnnotation(s, p).value.0) ==>
      AnnotationAt(s, k).None?
    decreases |s| - p
  {
    if p < |s| && AnnotationAt(s, p).None? {
      FindAnnotationIsFirst(s, p + 1);
    }
  }

  /** group(1) of re.search from 0: the text between the brackets of the
      first annotation, or "" when there is none. */
  function AnnotationGroup(s: string): (g: string)
    ensures FindAnnotation(s, 0).Some? ==>
      var m := FindAnnotation(s, 0).value;
      g == s[m.0 + 1..m.1 - 1] && g != [] && forall k :: 0 <= k < |g| ==> IsAnswerChar(g[k])
  {
    match FindAnnotation(s, 0)
    case None => []
    case Some(m) =>
      var g := s[m.0 + 1..m.1 - 1];
      AnnotationInside(s, m.0);
      assert forall k :: 0 <= k < |g| ==> IsAnswerChar(g[k]) by {
        forall k | 0 <= k < |g| ensures IsAnswerChar(g[k]) {
          assert g[k] == s[m.0 + 1 + k];
        }
      }
      g
  }

  const Placeholder: string := "（ ）"

  /** re.sub(annotation, "（ ）", s[p..]): every annotation, left to right. */
  function SubAnnotations(s: string, p: nat): string
    requires p <= |s|
    decreases |s| - p
  {
    if p == |s| then []
    else match AnnotationAt(s, p)
      case Some(e) => Placeholder + SubAnnotations(s, e)
      case None => [s[p]] + SubAnnotations(s, p + 1)
  }

  /** No annotation starts anywhere in s. */
  predicate NoAnnotation(s: string) {
    forall p :: 0 <= p <= |s| ==> AnnotationAt(s, p).None?
  }

  // ---------------------------------------------------------------------
  // The annotation pattern read off the text that follows a position, so
  // that the clean-up steps of a stem (substitution, whitespace collapse,
  // strip, the closing-up of "（ ）") can be followed one character at a time

  /** Annotation characters, then a closing bracket. */
  predicate CloseAhead(t: string)
    decreases |t|
  {
    t != [] && (IsClose(t[0]) || (IsAnswerChar(t[0]) && CloseAhead(t[1..])))
  }

  /** What must follow an opening bracket: `[A-D,，\s]+[）\)]`. */
  predicate AnnotationFollows(t: string) {
    t != [] && IsAnswerChar(t[0]) && CloseAhead(t[1..])
  }

  /** An annotation starts at the head of t. */
  predicate AnnotationHead(t: string) {
    t != [] && IsOpen(t[0]) && AnnotationFollows(t[1..])
  }

  /** No annotation starts at any position of t. */
  predicate Clean(t: string)
    decreases |t|
  {
    t == [] || (!AnnotationHead(t) && Clean(t[1..]))
  }

  /** Every annotation in t is the placeholder "（ ）". */
  predicate Tidy(t: string)
    decreases |t|
  {
    t == [] || ((AnnotationHead(t) ==> StartsWith(t, Placeholder)) && Tidy(t[1..]))
  }

  lemma {:induction false} CloseAheadRun(s: string, k: nat)
    requires k <= |s|
    ensures CloseAhead(s[k..]) <==> AnswerRunEnd(s, k) < |s| && IsClose(s[AnswerRunEnd(s, k)])
    decreases |s| - k
  {
    if k < |s| && IsAnswerChar(s[k]) {
      assert s[k..][1..] == s[k + 1..];
      CloseAheadRun(s, k + 1);
    }
  }

  /** The two readings of the pattern agree. */
  lemma {:induction false} AnnotationAtHead(s: string, p: nat)
    requires p <= |s|
    ensures AnnotationAt(s, p).Some? <==> AnnotationHead(s[p..])
  {
    if p < |s| && IsOpen(s[p]) {
      assert s[p..][1..] == s[p + 1..];
      if p + 1 < |s| {
        assert s[p + 1..][1..] == s[p + 2..];
        CloseAheadRun(s, p + 2);
      }
    }
  }

  /** Clean is the absence of any annotation from k on. */
  lemma {:induction false} CleanFrom(s: string, k: nat)
    requires k <= |s|
    ensures Clean(s[k..]) <==> forall p :: k <= p <= |s| ==> AnnotationAt(s, p).None?
    decreases |s| - k
  {
    if k < |s| {
      assert s[k..][1..] == s[k + 1..];
      AnnotationAtHead(s, k);
      CleanFrom(s, k + 1);
    }
  }

  lemma {:induction false} CleanIsNoAnnotation(s: string)
    ensures Clean(s) <==> NoAnnotation(s)
  {
    assert s[0..] == s;
    CleanFrom(s, 0);
  }

  lemma {:induction false} CleanTidy(t: string)
    requires Clean(t)
    ensures Tidy(t)
    decreases |t|
  {
    if t != [] {
      CleanTidy(t[1..]);
    }
  }

  lemma {:induction false} TidySuffix(t: string, k: nat)
    requires Tidy(t) && k <= |t|
    ensures Tidy(t[k..])
    decreases k
  {
    if k > 0 {
      TidySuffix(t[1..], k - 1);
      assert t[1..][k - 1..] == t[k..];
    } else {
      assert t[k..] == t;
    }
  }

  /** What is ahead of a cut text is ahead of the whole text. */
  lemma {:induction false} AheadPrefix(x: string, m: nat)
    requires m <= |x|
    ensures CloseAhead(x[..m]) ==> CloseAhead(x)
    ensures AnnotationFollows(x[..m]) ==> AnnotationFollows(x)
    decreases m
  {
    if m > 0 {
      assert x[..m][1..] == x[1..][..m - 1];
      AheadPrefix(x[1..], m - 1);
    }
  }

  lemma {:induction false} TidyPrefix(t: string, k: nat)
    requires Tidy(t) && k <= |t|
    ensures Tidy(t[..k])
    decreases k
  {
    if k > 0 {
      var u := t[..k];
      assert u[1..] == t[1..][..k - 1];
      TidyPrefix(t[1..], k - 1);
      if AnnotationHead(u) {
        AheadPrefix(t[1..], k - 1);
        assert AnnotationHead(t);
        assert t[1] == ' ' && t[2] == '）';
        assert u[1..][1..] != [];
        assert u[..3] == t[..3];
      }
    }
  }

  /** Stripping keeps every annotation a placeholder. */
  lemma {:induction false} StripTidy(t: string)
    requires Tidy(t)
    ensures Tidy(Strip(t))
  {
    TidySuffix(t, SpaceRunEnd(t, 0));
    var u := TrimStart(t);
    TrimEndShape(u);
    TidyPrefix(u, |TrimEnd(u)|);
  }

  // The substitution

  lemma {:induction false} SubAhead(s: string, q: nat)
    requires q <= |s|
    ensures CloseAhead(SubAnnotations(s, q)) <==> CloseAhead(s[q..])
    ensures AnnotationFollows(SubAnnotations(s, q)) <==> AnnotationFollows(s[q..])
    decreases |s| - q
  {
    if q < |s| {
      match AnnotationAt(s, q)
      case Some(e) =>
        assert SubAnnotations(s, q)[0] == '（';
      case None =>
        var x := SubAnnotations(s, q + 1);
        SubAhead(s, q + 1);
        assert ([s[q]] + x)[1..] == x;
        assert s[q..][1..] == s[q + 1..];
    }
  }

  lemma {:induction false} TidyAfterPlaceholder(r: string)
    requires Tidy(r)
    ensures Tidy(Placeholder + r)
  {
    var t := Placeholder + r;
    assert t[1..][1..][1..] == r;
    assert t[1] == ' ' && t[2] == '）';
  }

  /** After re.sub every annotation is the placeholder. */
  lemma {:induction false} SubTidy(s: string, p: nat)
    requires p <= |s|
    ensures Tidy(SubAnnotations(s, p))
    decreases |s| - p
  {
    if p < |s| {
      match AnnotationAt(s, p)
      case Some(e) =>
        SubTidy(s, e);
        TidyAfterPlaceholder(SubAnnotations(s, e));
      case None =>
        var x := SubAnnotations(s, p + 1);
        SubTidy(s, p + 1);
        SubAhead(s, p + 1);
        AnnotationAtHead(s, p);
        assert s[p..][1..] == s[p + 1..];
        assert ([s[p]] + x)[1..] == x;
    }
  }

  // The whitespace collapse

  lemma {:induction false} AheadAfterSpaces(sp: string, t: string)
    requires AllSpace(sp)
    ensures CloseAhead(sp + t) == CloseAhead(t)
    ensures sp != [] ==> AnnotationFollows(sp + t) == CloseAhead(t)
    decreases |sp|
  {
    if sp != [] {
      assert (sp + t)[1..] == sp[1..] + t;
      AheadAfterSpaces(sp[1..], t);
    } else {
      assert sp + t == t;
    }
  }

  lemma {:induction false} CollapseAhead(y: string)
    ensures CloseAhead(Collapse(y)) == CloseAhead(y)
    ensures AnnotationFollows(Collapse(y)) == AnnotationFollows(y)
    decreases |y|
  {
    if y != [] {
      if IsSpace(y[0]) {
        var e := SpaceRunEnd(y, 0);
        SpaceRunAll(y, 0);
        CollapseAhead(y[e..]);
        assert (" " + Collapse(y[e..]))[1..] == Collapse(y[e..]);
        assert y == y[..e] + y[e..];
        AheadAfterSpaces(y[..e], y[e..]);
        AheadAfterSpaces(" ", Collapse(y[e..]));
      } else {
        CollapseAhead(y[1..]);
        assert ([y[0]] + Collapse(y[1..]))[1..] == Collapse(y[1..]);
      }
    }
  }

  /** Collapsing whitespace keeps every annotation a placeholder. */
  lemma {:induction false} CollapseTidy(t: string)
    requires Tidy(t)
    ensures Tidy(Collapse(t))
    decreases |t|
  {
    if t != [] {
      if IsSpace(t[0]) {
        var e := SpaceRunEnd(t, 0);
        TidySuffix(t, e);
        CollapseTidy(t[e..]);
        assert (" " + Collapse(t[e..]))[1..] == Collapse(t[e..]);
      } else {
        var x := Collapse(t[1..]);
        CollapseTidy(t[1..]);
        CollapseAhead(t[1..]);
        assert ([t[0]] + x)[1..] == x;
        if AnnotationHead(Collapse(t)) {
          assert AnnotationHead(t);
          var y := t[1..];
          assert y[0] == ' ' && y[1] == '）';
          assert SpaceRunEnd(y, 0) == 1 by {
            assert SpaceRunEnd(y, 1) == 1;
          }
          assert y[1..][1..] == t[3..];
          assert x == " " + ("）" + Collapse(t[3..]));
        }
      }
    }
  }

  lemma {:induction false} NormalizeTidy(t: string)
    requires Tidy(t)
    ensures Tidy(Normalize(t))
  {
    CollapseTidy(t);
    StripTidy(Collapse(t));
  }

  // Closing up "（ ）" to "（）"

  lemma {:induction false} ReplaceAhead(y: string)
    ensures CloseAhead(ReplaceAll(y, Placeholder, "（）")) == CloseAhead(y)
    ensures AnnotationFollows(ReplaceAll(y, Placeholder, "（）")) == AnnotationFollows(y)
    decreases |y|
  {
    if |y| >= 3 {
      if y[..3] == Placeholder {
        assert y[0] == '（';
      } else {
        var x := ReplaceAll(y[1..], Placeholder, "（）");
        ReplaceAhead(y[1..]);
        assert ([y[0]] + x)[1..] == x;
      }
    }
  }

  lemma {:induction false} TidyShortClean(t: string)
    requires Tidy(t) && |t| < 3
    ensures Clean(t)
    decreases |t|
  {
    if t != [] {
      TidyShortClean(t[1..]);
    }
  }

  /** Once every annotation is the placeholder, closing the placeholders up
      leaves no annotation at all: "（）" has nothing between its brackets. */
  lemma {:induction false} ReplaceClean(t: string)
    requires Tidy(t)
    ensures Clean(ReplaceAll(t, Placeholder, "（）"))
    decreases |t|
  {
    if |t| < 3 {
      TidyShortClean(t);
    } else if t[..3] == Placeholder {
      var r := ReplaceAll(t[3..], Placeholder, "（）");
      TidySuffix(t, 3);
      ReplaceClean(t[3..]);
      var u := "（）" + r;
      assert u[1..] == "）" + r && u[1..][1..] == r;
      assert !AnnotationHead(u) by {
        assert !IsAnswerChar(u[1]);
      }
    } else {
      var r := ReplaceAll(t[1..], Placeholder, "（）");
      ReplaceClean(t[1..]);
      ReplaceAhead(t[1..]);
      assert ([t[0]] + r)[1..] == r;
    }
  }

  /** r has single ASCII spaces only, is empty just when t is, and starts
      and ends with the same kind of character as t. */
  predicate SpacedLike(r: string, t: string) {
    && OnlyAsciiSpaces(r) && NoSpaceRuns(r) && (r == [] <==> t == [])
    && (r != [] ==> IsSpace(r[0]) == IsSpace(t[0]) && IsSpace(r[|r| - 1]) == IsSpace(t[|t| - 1]))
  }

  /** Closing up the placeholders keeps the spacing of normal text. */
  lemma {:induction false} ReplaceSpacing(t: string)
    requires OnlyAsciiSpaces(t) && NoSpaceRuns(t)
    ensures SpacedLike(ReplaceAll(t, Placeholder, "（）"), t)
    decreases |t|
  {
    if |t| >= 3 {
      if t[..3] == Placeholder {
        SliceKeepsSpacing(t, 3, |t|);
        ReplaceSpacing(t[3..]);
        ClosedUpStep(t, ReplaceAll(t[3..], Placeholder, "（）"));
      } else {
        SliceKeepsSpacing(t, 1, |t|);
        ReplaceSpacing(t[1..]);
        KeptCharStep(t, ReplaceAll(t[1..], Placeholder, "（）"));
      }
    }
  }

  lemma {:induction false} ClosedUpStep(t: string, x: string)
    requires |t| >= 3 && t[..3] == Placeholder && SpacedLike(x, t[3..])
    ensures SpacedLike("（）" + x, t)
  {
    PrependSpacing('）', x);
    PrependSpacing('（', "）" + x);
    assert "（）" + x == ['（'] + ("）" + x);
    if x != [] {
      LastOfPrepend('）', x);
      LastOfPrepend('（', "）" + x);
      assert t[3..][|t| - 4] == t[|t| - 1];
    } else {
      assert t[|t| - 1] == '）';
    }
  }

  lemma {:induction false} KeptCharStep(t: string, x: string)
    requires |t| >= 2 && OnlyAsciiSpaces(t) && NoSpaceRuns(t) && SpacedLike(x, t[1..])
    ensures SpacedLike([t[0]] + x, t)
  {
    assert t[1..][0] == t[1];
    PrependSpacing(t[0], x);
    LastOfPrepend(t[0], x);
    assert t[1..][|t| - 2] == t[|t| - 1];
  }

  lemma {:induction false} ReplaceNormal(t: string)
    requires IsNormal(t)
    ensures IsNormal(ReplaceAll(t, Placeholder, "（）"))
  {
    ReplaceSpacing(t);
  }

  // ---------------------------------------------------------------------
  // Options: re.findall(r"\n\s*([A-D])[．.、]\s*(.*?)(?=\n\s*[A-D][．.、]|\s*$)", part, re.DOTALL)

  datatype OptionMatch = OptionMatch(letter: char, text: string)

  /** `\n\s*[A-D][．.、]` at r: the position of the letter. */
  function OptionMarkerAt(s: string, r: nat): (t: Option<nat>)
    requires r <= |s|
    ensures t.Some? ==> r < t.value && t.value + 2 <= |s| && IsOptionLetter(s[t.value])
  {
    if r < |s| && s[r] == '\n' then
      var t := SpaceRunEnd(s, r + 1);
      if t + 1 < |s| && IsOptionLetter(s[t]) && IsSep(s[t + 1]) then Some(t) else None
    else None
  }

  /** The lookahead of the option pattern at r: another marker, or `\s*$`
      (only whitespace is left). */
  predicate OptionBoundary(s: string, r: nat)
    requires r <= |s|
  {
    OptionMarkerAt(s, r).Some? || AllSpace(s[r..])
  }

  /** Where the lazy option text stops: the first boundary at or after r. */
  function OptionEnd(s: string, r: nat): (e: nat)
    requires r <= |s|
    ensures r <= e <= |s| && OptionBoundary(s, e)
    decreases |s| - r
  {
    if OptionBoundary(s, r) then r else OptionEnd(s, r + 1)
  }

  /** The lazy option text stops at the first boundary, not a later one. */
  lemma {:induction false} OptionEndIsFirst(s: string, r: nat)
    requires r <= |s|
    ensures forall k :: r <= k < OptionEnd(s, r) ==> !OptionBoundary(s, k)
    decreases |s| - r
  {
    if !OptionBoundary(s, r) {
      OptionEndIsFirst(s, r + 1);
    }
  }

  /** An option matched at p: the letter, the text group and the end. */
  function OptionAt(s: string, p: nat): (m: Option<(OptionMatch, nat)>)
    requires p <= |s|
    ensures m.Some? ==> p < m.value.1 <= |s| && IsOptionLetter(m.value.0.letter)
  {
    match OptionMarkerAt(s, p)
    case None => None
    case Some(t) =>
      var w := SpaceRunEnd(s, t + 2);
      var e := OptionEnd(s, w);
      Some((OptionMatch(s[t], s[w..e]), e))
  }

  /** findall of the option pattern from p. */
  function FindOptions(s: string, p: nat): (r: seq<OptionMatch>)
    requires p <= |s|
    ensures forall m :: m in r ==> IsOptionLetter(m.letter)
    decreases |s| - p
  {
    if p == |s| then []
    else match OptionAt(s, p)
      case Some(m) => [m.0] + FindOptions(s, m.1)
      case None => FindOptions(s, p + 1)
  }
}
