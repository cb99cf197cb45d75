// The question-bank loader of question_bank.py: the bank title, the split of a
// file into chapters, and the parsing of each chapter into true/false,
// single-choice and multiple-choice questions. Each step is given as a
// specification function; the QuestionBank class performs the same steps with
// the loops of the source and is proved to produce exactly what the functions
// describe.

module QuestionBankModel {
  import opened Wrappers
  import opened Text
  import opened Patterns

  /** The three question types ("判断题", "单选题", "多选题"). */
  datatype QType = TrueFalse | SingleChoice | MultiChoice

  /** One parsed question. `options` holds the four option texts A–D of a
      choice question and is empty for a true/false one. */
  datatype Question = Question(
    kind: QType,
    text: string,
    options: seq<string>,
    answer: Option<string>,
    chapter: string)

  const DefaultTitle: string := "题库复习程序"
  const UnknownChapter: string := "未知章节"
  const Blank: seq<string> := ["", "", "", ""]

  /** What every question the parser produces satisfies. */
  predicate WellFormed(q: Question) {
    && q.text != []
    && q.chapter != []
    && (q.kind == TrueFalse ==>
          && IsNormal(q.text)
          && q.options == []
          && (q.answer == Some("A") || q.answer == Some("B")))
    && (q.kind != TrueFalse ==>
          && IsNormal(q.text) && NoAnnotation(q.text)
          && |q.options| == 4
          && (forall k :: 0 <= k < 4 ==> q.options[k] != [] && IsNormal(q.options[k]))
          && (q.answer.Some? ==> Sorted(q.answer.value) && AllOptionLetters(q.answer.value)))
  }

  predicate AllOptionLetters(s: string) {
    forall i :: 0 <= i < |s| ==> IsOptionLetter(s[i])
  }

  /** re.sub(r"\s+", " ", s.strip()).strip(): the clean-up applied to stems and option texts. */
  function Cleaned(s: string): string {
    Normalize(Strip(s))
  }

  /** The clean-up leaves normal text and keeps every character that is not
      whitespace, in order. */
  lemma {:induction false} CleanedIsNormal(s: string)
    ensures IsNormal(Cleaned(s)) && NonSpace(Cleaned(s)) == NonSpace(s)
    ensures Words(Cleaned(s)) == Words(s) && Cleaned(s) == JoinWith(Words(s), " ")
  {
    NormalizeIsNormal(Strip(s));
    NormalizeKeepsNonSpace(Strip(s));
    NormalizeJoinsWords(Strip(s));
    StripKeepsNonSpace(s);
    StripKeepsWords(s);
  }

  // ---------------------------------------------------------------------
  // Bank title

  /** The first line of the stripped file is a title unless it starts with "第". */
  predicate HasTitleLine(content: string) {
    !StartsWith(FirstLine(Strip(content)), "第")
  }

  /** The title the bank takes from a file: its title line, or else the file
      name without directory and extension. */
  function BankTitle(filePath: string, content: string): string {
    if HasTitleLine(content) then FirstLine(Strip(content))
    else SplitExtRoot(BaseName(filePath))
  }

  /** The text searched for chapters: the stripped file without its title
      line, or the file unchanged when it has none. */
  function BankBody(content: string): string {
    if HasTitleLine(content) then JoinLines(SplitLines(Strip(content))[1..])
    else content
  }

  /** Removing the title line loses nothing else: the stripped file is the
      title, a newline and the body (or the title alone). */
  lemma {:induction false} TitleLineRemoved(filePath: string, content: string)
    ensures HasTitleLine(content) ==>
      var st, title, body := Strip(content), BankTitle(filePath, content), BankBody(content);
      && '\n' !in title
      && (if '\n' in st then st == title + "\n" + body else st == title && body == "")
    ensures !HasTitleLine(content) ==>
      BankBody(content) == content && BankTitle(filePath, content) == SplitExtRoot(BaseName(filePath))
  {
    var st := Strip(content);
    var k := IndexOf(st, '\n');
    RestLines(st);
    if k < |st| {
      assert st == st[..k] + "\n" + st[k + 1..];
    } else {
      assert '\n' !in st;
    }
  }

  // ---------------------------------------------------------------------
  // Chapter title

  /** The chapter title: the heading line when the block starts with
      "第…章" and has a newline, else the block's first line, else "未知章节". */
  function ChapterTitle(block: string): string {
    match TitleLineMatch(block)
    case Some(g) => Strip(g)
    case None =>
      var first := Strip(FirstLine(block));
      if first != [] then first else UnknownChapter
  }

  /** Both ways of taking the title come to the same thing: the stripped first
      line, or "未知章节" when that is empty. */
  lemma {:induction false} ChapterTitleIsFirstLine(block: string)
    ensures ChapterTitle(block) ==
      (if Strip(FirstLine(block)) != [] then Strip(FirstLine(block)) else UnknownChapter)
    ensures ChapterTitle(block) != []
  {
    match TitleLineMatch(block)
    case Some(g) =>
      var h := ChapterHeadingEnd(block, 0).value;
      assert block[0] == '第';
      assert g != [] && g[0] == '第' by {
        assert IndexOf(block, '\n') > 0;
      }
      StripKeepsLeadingChar(g);
    case None =>
  }

  // ---------------------------------------------------------------------
  // Sections

  /** The question type a section header names ("判断题" is checked first). */
  function HeaderType(header: string): Option<QType> {
    if Contains(header, "判断题") then Some(TrueFalse)
    else if Contains(header, "单项选择题") || Contains(header, "单选题") then Some(SingleChoice)
    else if Contains(header, "多项选择题") || Contains(header, "多选题") then Some(MultiChoice)
    else None
  }


  /** Stripping keeps every stretch that starts and ends with a character
      that is not whitespace. */
  lemma {:induction false} StripKeepsInterior(h: string, a: nat, b: nat)
    requires a < b <= |h| && !IsSpace(h[a]) && !IsSpace(h[b - 1])
    ensures Contains(Strip(h), h[a..b])
  {
    var t := TrimStart(h);
    TrimStartShape(h);
    TrimEndShape(t);
    var d := |h| - |t|;
    assert d <= a;
    assert t[b - 1 - d] == h[b - 1];
    var r := TrimEnd(t);
    assert |r| >= b - d;
    forall k | 0 <= k < b - a ensures r[a - d..b - d][k] == h[a..b][k] {
      assert r[a - d + k] == t[a - d + k] == h[a + k];
    }
    assert r[a - d..b - d] == h[a..b];
    ContainsAt(r, h[a..b], a - d);
  }

  /** A slice of a slice is a slice of the original. */
  lemma {:induction false} SliceOfSlice(s: string, p: nat, e: nat, i: nat, j: nat)
    requires p <= e <= |s| && i <= j <= e - p
    ensures s[p..e][i..j] == s[p + i..p + j]
  {
    forall k | 0 <= k < j - i ensures s[p..e][i..j][k] == s[p + i..p + j][k] {
      assert s[p..e][i..j][k] == s[p + i + k];
    }
  }

  /** Every header the section split cuts out names a question type once
      stripped, so the "unknown type" branch of the parser is never taken. */
  lemma {:induction false} HeaderIsTyped(s: string, p: nat, e: nat)
    requires p <= |s| && SectionHeaderEnd(s, p) == Some(e)
    ensures HeaderType(Strip(s[p..e])).Some?
  {
    var n := KeywordLength(s, p + 3);
    assert n > 0 && LazySpaceNewline(s, p + 3 + n) == Some(e);
    var h := s[p..e];
    var kw := h[3..3 + n];
    SliceOfSlice(s, p, e, 3, 3 + n);
    assert !IsSpace(h[3]) && !IsSpace(h[3 + n - 1]) by {
      assert h[3] == s[p + 3] && h[3 + n - 1] == s[p + 3 + n - 1];
    }
    StripKeepsInterior(h, 3, 3 + n);
    assert kw in Keywords;
  }

  /** Every piece at an odd position names a question type. */
  predicate HeadersTyped(r: seq<string>) {
    forall i :: 0 <= i < |r| && i % 2 == 1 ==> HeaderType(Strip(r[i])).Some?
  }

  lemma {:induction false} ConsHeadersTyped(text: string, header: string, rest: seq<string>)
    requires HeaderType(Strip(header)).Some? && HeadersTyped(rest)
    ensures HeadersTyped([text, header] + rest)
  {
    var r := [text, header] + rest;
    forall i | 0 <= i < |r| && i % 2 == 1 ensures HeaderType(Strip(r[i])).Some? {
      if i > 1 {
        assert r[i] == rest[i - 2];
      }
    }
  }

  /** The pieces at odd positions of the section split are headers, and each
      names a question type. */
  lemma {:induction false} SplitHeadersTyped(s: string, p: nat, seg: nat)
    requires seg <= p <= |s|
    ensures HeadersTyped(SplitSectionsFrom(s, p, seg))
    decreases |s| - p
  {
    if p < |s| {
      match SectionHeaderEnd(s, p)
      case Some(e) =>
        SplitSectionsAt(s, p, seg, e);
        SplitHeadersTyped(s, e, e);
        HeaderIsTyped(s, p, e);
        ConsHeadersTyped(s[seg..p], s[p..e], SplitSectionsFrom(s, e, e));
      case None =>
        SplitHeadersTyped(s, p + 1, seg);
    }
  }

  // ---------------------------------------------------------------------
  // True/false questions

  /** The true/false questions of a section, from the matches of the pattern:
      a match whose cleaned stem is empty is dropped. */
  function JudgeQuestions(ms: seq<JudgeMatch>, title: string): seq<Question> {
    if ms == [] then [] else JudgeHead(ms[0], title) + JudgeQuestions(ms[1..], title)
  }

  /** The question one true/false match gives (none when its stem is empty). */
  function JudgeHead(m: JudgeMatch, title: string): seq<Question> {
    var text := Cleaned(m.stem);
    if text != [] then [Question(TrueFalse, text, [], Some([m.letter]), title)] else []
  }

  /** Every question in the list is well formed and carries the given title. */
  predicate AllWellFormed(qs: seq<Question>, title: string) {
    forall i :: 0 <= i < |qs| ==> WellFormed(qs[i]) && qs[i].chapter == title
  }

  lemma {:induction false} SingleWellFormed(q: Question, title: string)
    requires WellFormed(q) && q.chapter == title
    ensures AllWellFormed([q], title)
  {
  }

  lemma {:induction false} AllWellFormedAppend(a: seq<Question>, b: seq<Question>, title: string)
    requires AllWellFormed(a, title) && AllWellFormed(b, title)
    ensures AllWellFormed(a + b, title)
  {
    forall i | 0 <= i < |a + b| ensures WellFormed((a + b)[i]) && (a + b)[i].chapter == title {
      if i >= |a| {
        assert (a + b)[i] == b[i - |a|];
      }
    }
  }

  /** True/false questions have a normal, non-empty stem, no options and the
      answer "A" or "B". */
  lemma {:induction false} JudgeQuestionsWellFormed(ms: seq<JudgeMatch>, title: string)
    requires title != []
    requires forall i :: 0 <= i < |ms| ==> ms[i].letter == 'A' || ms[i].letter == 'B'
    ensures AllWellFormed(JudgeQuestions(ms, title), title)
  {
    if ms != [] {
      JudgeQuestionsWellFormed(ms[1..], title);
      CleanedIsNormal(ms[0].stem);
      assert AllWellFormed(JudgeHead(ms[0], title), title);
      AllWellFormedAppend(JudgeHead(ms[0], title), JudgeQuestions(ms[1..], title), title);
    }
  }

  // ---------------------------------------------------------------------
  // Choice questions

  /** filter(str.isalpha, …) over the characters an annotation can hold
      (A–D, commas and whitespace), of which only A–D are letters. */
  function AnswerLetters(s: string): (r: string)
    ensures AllOptionLetters(r)
    ensures forall c :: c in r <==> c in s && IsOptionLetter(c)
  {
    if s == [] then []
    else (if IsOptionLetter(s[0]) then [s[0]] else []) + AnswerLetters(s[1..])
  }

  /** Each letter A–D occurs in the result as often as in the text, and
      nothing else occurs. */
  lemma {:induction false} AnswerLettersCounts(s: string)
    ensures forall c :: multiset(AnswerLetters(s))[c] == if IsOptionLetter(c) then multiset(s)[c] else 0
  {
    if s != [] {
      AnswerLettersCounts(s[1..]);
      assert s == [s[0]] + s[1..];
      var head := if IsOptionLetter(s[0]) then [s[0]] else [];
      assert multiset(AnswerLetters(s)) == multiset(head) + multiset(AnswerLetters(s[1..]));
    }
  }

  /** Whitespace holds no letter. */
  lemma {:induction false} AnswerLettersNonSpace(s: string)
    ensures AnswerLetters(NonSpace(s)) == AnswerLetters(s)
  {
    if s != [] {
      AnswerLettersNonSpace(s[1..]);
      if !IsSpace(s[0]) {
        assert ([s[0]] + NonSpace(s[1..]))[1..] == NonSpace(s[1..]);
      }
    }
  }

  /** Inside an annotation, upper-casing and stripping the group change
      nothing about the letters it holds. */
  lemma {:induction false} GroupLetters(group: string)
    requires forall k :: 0 <= k < |group| ==> IsAnswerChar(group[k])
    ensures AnswerLetters(UpperAscii(Strip(group))) == AnswerLetters(group)
  {
    var t := TrimStart(group);
    TrimStartShape(group);
    TrimEndShape(t);
    var st := Strip(group);
    assert st == group[|group| - |t|..][..|st|];
    forall i | 0 <= i < |st| ensures !('a' <= st[i] <= 'z') {
      assert st[i] == group[|group| - |t| + i];
    }
    assert UpperAscii(st) == st;
    StripKeepsNonSpace(group);
    AnswerLettersNonSpace(st);
    AnswerLettersNonSpace(group);
  }

  /** The answer written in the first annotation of the stem: its letters in
      ascending order (possibly none), or None without an annotation. The
      letters are exactly those between the brackets, duplicates kept. */
  function AnnotationAnswer(raw: string): (r: Option<string>)
    ensures r.Some? ==> Sorted(r.value) && AllOptionLetters(r.value)
    ensures r.None? <==> FindAnnotation(raw, 0).None?
    ensures r.Some? ==> multiset(r.value) == multiset(AnswerLetters(AnnotationGroup(raw)))
  {
    match FindAnnotation(raw, 0)
    case None => None
    case Some(m) =>
      var group := AnnotationGroup(raw);
      GroupAnswer(group);
      Some(SortChars(AnswerLetters(UpperAscii(Strip(group)))))
  }

  /** The letters read from an annotation's group, sorted: option letters,
      in ascending order, the group's own letters. */
  lemma {:induction false} GroupAnswer(group: string)
    requires forall k :: 0 <= k < |group| ==> IsAnswerChar(group[k])
    ensures var sorted := SortChars(AnswerLetters(UpperAscii(Strip(group))));
      Sorted(sorted) && AllOptionLetters(sorted) && multiset(sorted) == multiset(AnswerLetters(group))
  {
    GroupLetters(group);
    SortedOptionLetters(AnswerLetters(group));
  }

  /** Sorting keeps a string of option letters one. */
  lemma {:induction false} SortedOptionLetters(s: string)
    requires AllOptionLetters(s)
    ensures AllOptionLetters(SortChars(s))
  {
    var r := SortChars(s);
    forall i | 0 <= i < |r| ensures IsOptionLetter(r[i]) {
      assert r[i] in multiset(s);
      var j :| 0 <= j < |s| && s[j] == r[i];
    }
  }

  /** A two-letter annotation: "（B，D）" reads as "BD". */
  lemma {:induction false} AnnotationAnswerExample()
    ensures AnnotationAnswer("（B，D）") == Some("BD")
  {
    var raw := "（B，D）";
    ExampleAnnotationFound();
    ExampleLetters();
    assert AnnotationGroup(raw) == "B，D";
    AnnotationAnswerIs(raw, "BD");
  }

  /** The annotation answer is the one ascending string of the letters in
      the first annotation. */
  lemma {:induction false} AnnotationAnswerIs(raw: string, x: string)
    requires FindAnnotation(raw, 0).Some? && Sorted(x)
    requires multiset(x) == multiset(AnswerLetters(AnnotationGroup(raw)))
    ensures AnnotationAnswer(raw) == Some(x)
  {
    SortedUnique(AnnotationAnswer(raw).value, x);
  }

  lemma {:induction false} ExampleAnnotationFound()
    ensures FindAnnotation("（B，D）", 0) == Some((0, 5))
  {
    var raw := "（B，D）";
    assert |raw| == 5 && IsOpen(raw[0]) && !IsAnswerChar(raw[4]) && IsClose(raw[4]);
    assert AnswerRunEnd(raw, 4) == 4;
    assert IsAnswerChar(raw[1]) && IsAnswerChar(raw[2]) && IsAnswerChar(raw[3]);
    assert AnswerRunEnd(raw, 3) == 4;
    assert AnswerRunEnd(raw, 2) == 4;
    assert AnswerRunEnd(raw, 1) == 4;
    assert AnnotationAt(raw, 0) == Some(5);
  }

  lemma {:induction false} ExampleLetters()
    ensures AnswerLetters("B，D") == "BD"
  {
    var g := "B，D";
    assert g[0] == 'B' && g[1] == '，' && g[2] == 'D';
    assert g[1..] == "，D" && g[2..] == "D" && g[3..] == [];
    assert AnswerLetters(g[3..]) == [];
    assert AnswerLetters(g[2..]) == "D";
    assert AnswerLetters(g[1..]) == "D";
  }

  /** The stem text: every annotation replaced by "（ ）" and stripped (when
      there is one), whitespace collapsed, then "（ ）" closed up to "（）". */
  function StemText(raw: string): string {
    var cleaned :=
      if FindAnnotation(raw, 0).Some? then Strip(SubAnnotations(raw, 0)) else raw;
    ReplaceAll(Normalize(cleaned), "（ ）", "（）")
  }

  /** The stem text is normal text in which no answer annotation is left:
      each one became "（ ）" and was then closed up to "（）". */
  lemma {:induction false} StemTextClean(raw: string)
    ensures IsNormal(StemText(raw)) && NoAnnotation(StemText(raw))
  {
    var cleaned :=
      if FindAnnotation(raw, 0).Some? then Strip(SubAnnotations(raw, 0)) else raw;
    if FindAnnotation(raw, 0).Some? {
      SubTidy(raw, 0);
      StripTidy(SubAnnotations(raw, 0));
    } else {
      FindAnnotationIsFirst(raw, 0);
      CleanIsNoAnnotation(raw);
      CleanTidy(raw);
    }
    var n := Normalize(cleaned);
    NormalizeTidy(cleaned);
    NormalizeIsNormal(cleaned);
    ReplaceClean(n);
    ReplaceNormal(n);
    CleanIsNoAnnotation(ReplaceAll(n, Placeholder, "（）"));
  }

  /** The option slot a letter fills: ord(letter.upper()) - ord("A"). */
  function Slot(m: OptionMatch): int {
    UpperChar(m.letter) as int - 'A' as int
  }

  /** What each option match writes: its slot and its cleaned text. */
  function Writes(ms: seq<OptionMatch>): (ws: seq<(int, string)>)
    ensures |ws| == |ms|
  {
    if ms == [] then [] else [(Slot(ms[0]), Cleaned(ms[0].text))] + Writes(ms[1..])
  }

  /** The write of the i-th option match. */
  lemma {:induction false} WriteAt(ms: seq<OptionMatch>, i: nat)
    requires i < |ms|
    ensures Writes(ms)[i] == (Slot(ms[i]), Cleaned(ms[i].text))
  {
    if i > 0 {
      WriteAt(ms[1..], i - 1);
    }
  }

  /** The options list after the writes are made in order; a slot outside
      0..3 is ignored. */
  function FillOptions(opts: seq<string>, ws: seq<(int, string)>): (r: seq<string>)
    requires |opts| == 4
    ensures |r| == 4
    decreases |ws|
  {
    if ws == [] then opts
    else
      var next := if 0 <= ws[0].0 < 4 then opts[ws[0].0 := ws[0].1] else opts;
      FillOptions(next, ws[1..])
  }

  /** How many writes named a slot in 0..3 (found_options). */
  function FoundCount(ws: seq<(int, string)>): nat {
    if ws == [] then 0
    else (if 0 <= ws[0].0 < 4 then 1 else 0) + FoundCount(ws[1..])
  }

  /** The position of the last write to slot k, or -1. */
  function LastWrite(ws: seq<(int, string)>, k: int): (j: int)
    ensures -1 <= j < |ws|
    ensures j >= 0 ==> ws[j].0 == k && forall i :: j < i < |ws| ==> ws[i].0 != k
    ensures j < 0 ==> forall i :: 0 <= i < |ws| ==> ws[i].0 != k
  {
    if ws == [] then -1
    else
      var l := LastWrite(ws[1..], k);
      if l >= 0 then l + 1
      else if ws[0].0 == k then 0
      else -1
  }

  /** The last write to a slot decides it; a slot nothing writes keeps its
      initial value. */
  lemma {:induction false} FillLastWins(opts: seq<string>, ws: seq<(int, string)>, k: int)
    requires |opts| == 4 && 0 <= k < 4
    ensures FillOptions(opts, ws)[k] ==
      (if LastWrite(ws, k) < 0 then opts[k] else ws[LastWrite(ws, k)].1)
    decreases |ws|
  {
    if ws != [] {
      var next := if 0 <= ws[0].0 < 4 then opts[ws[0].0 := ws[0].1] else opts;
      FillLastWins(next, ws[1..], k);
      var l := LastWrite(ws[1..], k);
      if l >= 0 {
        assert ws[1..][l] == ws[l + 1];
      }
    }
  }

  /** Every write names a slot in 0..3. */
  predicate InRange(ws: seq<(int, string)>) {
    forall i :: 0 <= i < |ws| ==> 0 <= ws[i].0 < 4
  }

  lemma {:induction false} FoundCountAll(ws: seq<(int, string)>)
    requires InRange(ws)
    ensures FoundCount(ws) == |ws|
  {
    if ws != [] {
      FoundCountAll(ws[1..]);
    }
  }

  function Slots(ws: seq<(int, string)>): (r: seq<int>)
    ensures |r| == |ws| && forall i :: 0 <= i < |ws| ==> r[i] == ws[i].0
  {
    if ws == [] then [] else [ws[0].0] + Slots(ws[1..])
  }

  lemma {:induction false} RepeatedSlot(s: seq<int>, i: nat, j: nat)
    requires i < j < |s| && s[i] == s[j]
    ensures multiset(s)[s[i]] >= 2
  {
    assert s == s[..j] + [s[j]] + s[j + 1..];
    assert s[i] in multiset(s[..j]) by { assert s[..j][i] == s[i]; }
  }

  lemma {:induction false} FourSlotsCover(s: seq<int>)
    requires |s| == 4 && 0 in s && 1 in s && 2 in s && 3 in s
    ensures multiset(s) == multiset{0, 1, 2, 3}
  {
    var m := multiset(s);
    var all := multiset{0, 1, 2, 3};
    assert all <= m;
    assert |m| == 4;
    assert |m - all| == 0;
  }

  /** A filled slot was written, and the last write to it was not empty. */
  lemma {:induction false} FilledSlotWritten(ws: seq<(int, string)>, k: int)
    requires 0 <= k < 4 && FillOptions(Blank, ws)[k] != []
    ensures 0 <= LastWrite(ws, k) && ws[LastWrite(ws, k)].1 != []
  {
    FillLastWins(Blank, ws, k);
  }

  /** Four in-range writes that fill every slot name each slot once. */
  lemma {:induction false} FilledCoversSlots(ws: seq<(int, string)>)
    requires InRange(ws) && |ws| == 4 && AllFilled(FillOptions(Blank, ws))
    ensures multiset(Slots(ws)) == multiset{0, 1, 2, 3}
  {
    var s := Slots(ws);
    forall k | 0 <= k < 4 ensures k in s {
      FilledSlotWritten(ws, k);
      assert s[LastWrite(ws, k)] == k;
    }
    FourSlotsCover(s);
  }

  /** When the four writes name each slot once, every write is the last to
      its slot, so a filled options list means no write was empty. */
  lemma {:induction false} FilledTextsNonEmpty(ws: seq<(int, string)>)
    requires InRange(ws) && |ws| == 4 && AllFilled(FillOptions(Blank, ws))
    requires multiset(Slots(ws)) == multiset{0, 1, 2, 3}
    ensures forall i :: 0 <= i < |ws| ==> ws[i].1 != []
  {
    var s := Slots(ws);
    forall i | 0 <= i < |ws| ensures ws[i].1 != [] {
      var k := ws[i].0;
      SlotCountOne(k);
      FilledSlotWritten(ws, k);
      var j := LastWrite(ws, k);
      if j != i {
        RepeatedSlot(s, i, j);
      }
    }
  }

  lemma {:induction false} SlotCountOne(k: int)
    requires 0 <= k < 4
    ensures multiset{0, 1, 2, 3}[k] == 1
  {
  }

  /** A slot some write names has a last write. */
  lemma {:induction false} NamedSlotWritten(ws: seq<(int, string)>, k: int)
    requires k in multiset(Slots(ws))
    ensures 0 <= LastWrite(ws, k)
  {
    var s := Slots(ws);
    assert k in s;
    var i :| 0 <= i < |s| && s[i] == k;
    assert ws[i].0 == k;
  }

  /** Writes naming each slot once with non-empty texts fill every slot. */
  lemma {:induction false} CoveringWritesFill(ws: seq<(int, string)>)
    requires multiset(Slots(ws)) == multiset{0, 1, 2, 3}
    requires forall i :: 0 <= i < |ws| ==> ws[i].1 != []
    ensures AllFilled(FillOptions(Blank, ws))
  {
    forall k | 0 <= k < 4 ensures FillOptions(Blank, ws)[k] != [] {
      assert k in multiset{0, 1, 2, 3};
      NamedSlotWritten(ws, k);
      FillLastWins(Blank, ws, k);
    }
  }

  /** With every write naming a slot in 0..3, the options are complete (four
      found, none empty) exactly when the four writes name the slots 0, 1, 2
      and 3 once each and write non-empty texts. */
  lemma {:induction false} CompleteOptions(ws: seq<(int, string)>)
    requires InRange(ws)
    ensures (FoundCount(ws) == 4 && AllFilled(FillOptions(Blank, ws))) <==>
      (&& |ws| == 4
       && multiset(Slots(ws)) == multiset{0, 1, 2, 3}
       && forall i :: 0 <= i < |ws| ==> ws[i].1 != [])
  {
    FoundCountAll(ws);
    if |ws| == 4 && AllFilled(FillOptions(Blank, ws)) {
      FilledCoversSlots(ws);
      FilledTextsNonEmpty(ws);
    }
    if multiset(Slots(ws)) == multiset{0, 1, 2, 3} && forall i :: 0 <= i < |ws| ==> ws[i].1 != [] {
      CoveringWritesFill(ws);
    }
  }

  predicate AllFilled(options: seq<string>) {
    forall k :: 0 <= k < |options| ==> options[k] != []
  }

  /** A block gives a question when its stem matches, the cleaned stem is not
      empty, four options were found and none of them is empty. A multiple-
      choice answer is sorted once more. */
  function ChoiceQuestion(part: string, kind: QType, title: string): Option<Question> {
    match StemMatch(part)
    case None => None
    case Some(stem) =>
      var raw := Strip(stem);
      var answer := AnnotationAnswer(raw);
      var text := StemText(raw);
      var ws := Writes(FindOptions(part, 0));
      var options := FillOptions(Blank, ws);
      if text != [] && FoundCount(ws) == 4 && AllFilled(options) then
        var final :=
          if kind == MultiChoice && answer.Some? && answer.value != [] then Some(SortChars(answer.value))
          else answer;
        Some(Question(kind, text, options, final, title))
      else None
  }

  /** When a block is kept: its stem matched with a non-empty cleaned text,
      and exactly four options were found, naming A, B, C and D once each,
      none of them empty once cleaned. */
  lemma {:induction false} KeepRule(part: string, kind: QType, title: string)
    ensures ChoiceQuestion(part, kind, title).Some? <==>
      && StemMatch(part).Some?
      && StemText(Strip(StemMatch(part).value)) != []
      && var ws := Writes(FindOptions(part, 0));
         && |ws| == 4
         && multiset(Slots(ws)) == multiset{0, 1, 2, 3}
         && forall i :: 0 <= i < |ws| ==> ws[i].1 != []
  {
    var ws := Writes(FindOptions(part, 0));
    WritesInRange(FindOptions(part, 0));
    CompleteOptions(ws);
    KeptWhenComplete(part, kind, title);
  }

  /** The test the parser makes, as written: a stem, a non-empty cleaned
      text, four options found and all filled. */
  lemma {:induction false} KeptWhenComplete(part: string, kind: QType, title: string)
    ensures ChoiceQuestion(part, kind, title).Some? <==>
      && StemMatch(part).Some?
      && StemText(Strip(StemMatch(part).value)) != []
      && FoundCount(Writes(FindOptions(part, 0))) == 4
      && AllFilled(FillOptions(Blank, Writes(FindOptions(part, 0))))
  {
  }

  /** Option letters are A–D, so every write names a slot in 0..3. */
  lemma {:induction false} WritesInRange(ms: seq<OptionMatch>)
    requires forall m :: m in ms ==> IsOptionLetter(m.letter)
    ensures InRange(Writes(ms))
  {
    var ws := Writes(ms);
    forall i | 0 <= i < |ws| ensures 0 <= ws[i].0 < 4 {
      WriteAt(ms, i);
      assert ms[i] in ms;
    }
  }

  /** The options filled from cleaned texts are normal text. */
  lemma {:induction false} OptionsNormal(ms: seq<OptionMatch>)
    ensures forall k :: 0 <= k < 4 ==> IsNormal(FillOptions(Blank, Writes(ms))[k])
  {
    var ws := Writes(ms);
    forall k | 0 <= k < 4 ensures IsNormal(FillOptions(Blank, ws)[k]) {
      FillLastWins(Blank, ws, k);
      var j := LastWrite(ws, k);
      if j >= 0 {
        WriteAt(ms, j);
        CleanedIsNormal(ms[j].text);
      } else {
        assert Blank[k] == [];
      }
    }
  }

  /** A kept choice question is well formed, and its answer is the one the
      annotation gave: sorting a multiple-choice answer again changes nothing. */
  lemma {:induction false} ChoiceQuestionWellFormed(part: string, kind: QType, title: string)
    requires kind != TrueFalse && title != [] && ChoiceQuestion(part, kind, title).Some?
    ensures var q := ChoiceQuestion(part, kind, title).value;
      && WellFormed(q) && q.kind == kind && q.chapter == title
      && q.answer == AnnotationAnswer(Strip(StemMatch(part).value))
  {
    var answer := AnnotationAnswer(Strip(StemMatch(part).value));
    StemTextClean(Strip(StemMatch(part).value));
    OptionsNormal(FindOptions(part, 0));
    if answer.Some? {
      SortSorted(answer.value);
    }
  }

  /** The choice questions of a section, one per block of the split. */
  function ChoiceQuestions(parts: seq<string>, kind: QType, title: string): seq<Question> {
    if parts == [] then [] else ChoiceHead(parts[0], kind, title) + ChoiceQuestions(parts[1..], kind, title)
  }

  /** The question one block of the split gives, once stripped (none when it
      is empty or not kept). */
  function ChoiceHead(part: string, kind: QType, title: string): seq<Question> {
    var p := Strip(part);
    if p == [] then []
    else match ChoiceQuestion(p, kind, title)
      case Some(q) => [q]
      case None => []
  }

  lemma {:induction false} ChoiceQuestionsWellFormed(parts: seq<string>, kind: QType, title: string)
    requires kind != TrueFalse && title != []
    ensures AllWellFormed(ChoiceQuestions(parts, kind, title), title)
  {
    if parts != [] {
      ChoiceQuestionsWellFormed(parts[1..], kind, title);
      ChoiceHeadWellFormed(parts[0], kind, title);
      AllWellFormedAppend(ChoiceHead(parts[0], kind, title), ChoiceQuestions(parts[1..], kind, title), title);
    }
  }

  lemma {:induction false} ChoiceHeadWellFormed(part: string, kind: QType, title: string)
    requires kind != TrueFalse && title != []
    ensures AllWellFormed(ChoiceHead(part, kind, title), title)
  {
    var p := Strip(part);
    if p != [] {
      match ChoiceQuestion(p, kind, title)
      case Some(q) =>
        ChoiceQuestionWellFormed(p, kind, title);
        assert ChoiceHead(part, kind, title) == [q];
        SingleWellFormed(q, title);
      case None =>
    }
  }

  // ---------------------------------------------------------------------
  // Chapters

  /** The questions of one (stripped) section pair. */
  function SectionPair(header: string, body: string, title: string): seq<Question> {
    if header == [] then []
    else match HeaderType(header)
      case None => []
      case Some(kind) =>
        if body == [] then []
        else if kind == TrueFalse then JudgeQuestions(FindJudges(body, 0), title)
        else ChoiceQuestions(SplitQuestions("\n" + body), kind, title)
  }

  /** The pieces of the split from position i on (none past the end). */
  function From(parts: seq<string>, i: nat): seq<string> {
    if i <= |parts| then parts[i..] else []
  }

  /** The questions of the (header, text) pairs that follow the leading text;
      a header with no text after it has the text "". */
  function SectionQuestions(parts: seq<string>, title: string): seq<Question>
    decreases |parts|
  {
    if parts == [] then []
    else
      var body := if 1 < |parts| then Strip(parts[1]) else "";
      SectionPair(Strip(parts[0]), body, title) + SectionQuestions(From(parts, 2), title)
  }

  lemma {:induction false} SectionPairWellFormed(header: string, body: string, title: string)
    requires title != []
    ensures AllWellFormed(SectionPair(header, body, title), title)
  {
    if header != [] && HeaderType(header).Some? && body != [] {
      var kind := HeaderType(header).value;
      if kind == TrueFalse {
        var ms := FindJudges(body, 0);
        assert forall i :: 0 <= i < |ms| ==> ms[i] in ms;
        JudgeQuestionsWellFormed(ms, title);
      } else {
        ChoiceQuestionsWellFormed(SplitQuestions("\n" + body), kind, title);
      }
    }
  }

  lemma {:induction false} SectionQuestionsWellFormed(parts: seq<string>, title: string)
    requires title != []
    ensures AllWellFormed(SectionQuestions(parts, title), title)
    decreases |parts|
  {
    if parts != [] {
      var body := if 1 < |parts| then Strip(parts[1]) else "";
      SectionPairWellFormed(Strip(parts[0]), body, title);
      SectionQuestionsWellFormed(From(parts, 2), title);
      AllWellFormedAppend(SectionPair(Strip(parts[0]), body, title),
        SectionQuestions(From(parts, 2), title), title);
    }
  }

  /** All questions of a chapter block. */
  function ChapterQuestions(block: string): seq<Question> {
    SectionQuestions(From(SplitSections(block), 1), ChapterTitle(block))
  }

  /** Every question of a chapter is well formed and carries the chapter's title. */
  lemma {:induction false} ChapterQuestionsWellFormed(block: string)
    ensures AllWellFormed(ChapterQuestions(block), ChapterTitle(block))
  {
    ChapterTitleIsFirstLine(block);
    SectionQuestionsWellFormed(From(SplitSections(block), 1), ChapterTitle(block));
  }

  /** A chapter block that is kept: non-empty once stripped, with questions. */
  predicate Yields(block: string) {
    Strip(block) != [] && ChapterQuestions(Strip(block)) != []
  }

  /** The chapters the bank keeps from the blocks the chapter pattern found. */
  function LoadedChapters(blocks: seq<string>): seq<seq<Question>> {
    if blocks == [] then [] else ChapterHead(blocks[0]) + LoadedChapters(blocks[1..])
  }

  /** The chapter one block gives: its questions, when it is non-empty once
      stripped and has any. */
  function ChapterHead(block: string): seq<seq<Question>> {
    var b := Strip(block);
    if b != [] && ChapterQuestions(b) != [] then [ChapterQuestions(b)] else []
  }

  /** The bank keeps at most one chapter per block. */
  lemma {:induction false} LoadedChaptersLength(blocks: seq<string>)
    ensures |LoadedChapters(blocks)| <= |blocks|
  {
    if blocks != [] {
      LoadedChaptersLength(blocks[1..]);
    }
  }

  /** The bank ends up with chapters exactly when some block yields questions. */
  lemma {:induction false} LoadedChaptersNonEmpty(blocks: seq<string>)
    ensures LoadedChapters(blocks) != [] <==> exists i :: 0 <= i < |blocks| && Yields(blocks[i])
  {
    if blocks != [] {
      LoadedChaptersNonEmpty(blocks[1..]);
      YieldsSplit(blocks);
    }
  }

  /** Some block yields exactly when the first one does or one after it does. */
  lemma {:induction false} YieldsSplit(blocks: seq<string>)
    requires blocks != []
    ensures (exists i :: 0 <= i < |blocks| && Yields(blocks[i])) <==>
      Yields(blocks[0]) || exists i :: 0 <= i < |blocks[1..]| && Yields(blocks[1..][i])
  {
    if exists i :: 0 <= i < |blocks[1..]| && Yields(blocks[1..][i]) {
      var i :| 0 <= i < |blocks[1..]| && Yields(blocks[1..][i]);
      assert Yields(blocks[i + 1]);
    }
    if exists i :: 0 <= i < |blocks| && Yields(blocks[i]) {
      var i :| 0 <= i < |blocks| && Yields(blocks[i]);
      if i > 0 {
        assert Yields(blocks[1..][i - 1]);
      }
    }
  }

  /** Every chapter the bank keeps has a question. */
  lemma {:induction false} LoadedChaptersEachNonEmpty(blocks: seq<string>)
    ensures forall c :: 0 <= c < |LoadedChapters(blocks)| ==> LoadedChapters(blocks)[c] != []
  {
    if blocks != [] {
      LoadedChaptersEachNonEmpty(blocks[1..]);
      var head, rest := ChapterHead(blocks[0]), LoadedChapters(blocks[1..]);
      forall c | 0 <= c < |head + rest| ensures (head + rest)[c] != [] {
        if c >= |head| {
          assert (head + rest)[c] == rest[c - |head|];
        }
      }
    }
  }

  /** A chapter as the bank keeps it: non-empty, and its questions well
      formed and all carrying the same chapter title. */
  predicate KeptChapter(qs: seq<Question>) {
    qs != [] && AllWellFormed(qs, qs[0].chapter)
  }

  /** Every chapter the bank keeps is non-empty, and its questions are well
      formed and carry its title. */
  lemma {:induction false} LoadedChaptersWellFormed(blocks: seq<string>)
    ensures forall c :: 0 <= c < |LoadedChapters(blocks)| ==> KeptChapter(LoadedChapters(blocks)[c])
  {
    if blocks != [] {
      LoadedChaptersWellFormed(blocks[1..]);
      ChapterHeadWellFormed(blocks[0]);
      assert LoadedChapters(blocks) == ChapterHead(blocks[0]) + LoadedChapters(blocks[1..]);
      KeptAppend(ChapterHead(blocks[0]), LoadedChapters(blocks[1..]));
    }
  }

  lemma {:induction false} KeptAppend(head: seq<seq<Question>>, rest: seq<seq<Question>>)
    requires forall c :: 0 <= c < |head| ==> KeptChapter(head[c])
    requires forall c :: 0 <= c < |rest| ==> KeptChapter(rest[c])
    ensures forall c :: 0 <= c < |head + rest| ==> KeptChapter((head + rest)[c])
  {
    forall c | 0 <= c < |head + rest| ensures KeptChapter((head + rest)[c]) {
      if c >= |head| {
        assert (head + rest)[c] == rest[c - |head|];
      } else {
        assert (head + rest)[c] == head[c];
      }
    }
  }

  lemma {:induction false} ChapterHeadWellFormed(block: string)
    ensures forall c :: 0 <= c < |ChapterHead(block)| ==> KeptChapter(ChapterHead(block)[c])
  {
    var b := Strip(block);
    if b != [] && ChapterQuestions(b) != [] {
      ChapterQuestionsWellFormed(b);
      var qs := ChapterQuestions(b);
      assert ChapterHead(block) == [qs];
      assert qs[0].chapter == ChapterTitle(b);
    }
  }

  /** The chapters loaded from a file's text. */
  function BankChapters(content: string): seq<seq<Question>> {
    LoadedChapters(FindChapters(BankBody(content), 0))
  }

  // ---------------------------------------------------------------------
  // The loops of parse_chapter

  /** One turn of the loop over the true/false matches keeps its invariant. */
  lemma {:induction false} JudgeLoopStep(ms: seq<JudgeMatch>, i: nat, title: string, acc: seq<Question>, found: seq<Question>)
    requires i < |ms| && acc + JudgeQuestions(ms[i..], title) == JudgeQuestions(ms, title)
    requires found == JudgeHead(ms[i], title)
    ensures (acc + found) + JudgeQuestions(ms[i + 1..], title) == JudgeQuestions(ms, title)
  {
    assert ms[i..][1..] == ms[i + 1..];
    AppendAssoc(acc, found, JudgeQuestions(ms[i + 1..], title));
  }

  /** One turn of the loop over the blocks of a choice section keeps its invariant. */
  lemma {:induction false} ChoiceLoopStep(parts: seq<string>, i: nat, kind: QType, title: string, acc: seq<Question>, found: seq<Question>)
    requires i < |parts| && acc + ChoiceQuestions(parts[i..], kind, title) == ChoiceQuestions(parts, kind, title)
    requires found == ChoiceHead(parts[i], kind, title)
    ensures (acc + found) + ChoiceQuestions(parts[i + 1..], kind, title) == ChoiceQuestions(parts, kind, title)
  {
    assert parts[i..][1..] == parts[i + 1..];
    AppendAssoc(acc, found, ChoiceQuestions(parts[i + 1..], kind, title));
  }

  /** One turn of the loop over the chapter blocks keeps its invariant. */
  lemma {:induction false} ChapterLoopStep(blocks: seq<string>, i: nat, acc: seq<seq<Question>>, found: seq<seq<Question>>)
    requires i < |blocks| && acc + LoadedChapters(blocks[i..]) == LoadedChapters(blocks)
    requires found == ChapterHead(blocks[i])
    ensures (acc + found) + LoadedChapters(blocks[i + 1..]) == LoadedChapters(blocks)
  {
    assert blocks[i..][1..] == blocks[i + 1..];
    AppendAssoc(acc, found, LoadedChapters(blocks[i + 1..]));
  }

  method ParseJudgeSection(matches: seq<JudgeMatch>, title: string) returns (questions: seq<Question>)
    ensures questions == JudgeQuestions(matches, title)
  {
    questions := [];
    var i := 0;
    while i < |matches|
      invariant 0 <= i <= |matches|
      invariant questions + JudgeQuestions(matches[i..], title) == JudgeQuestions(matches, title)
    {
      var m := matches[i];
      var text := Cleaned(m.stem);
      var found := [];
      if text != [] {
        found := [Question(TrueFalse, text, [], Some([m.letter]), title)];
      }
      JudgeLoopStep(matches, i, title, questions, found);
      questions := questions + found;
      i := i + 1;
    }
  }

  /** The loop that writes the option matches into four slots and counts them. */
  method ReadOptions(matches: seq<OptionMatch>) returns (options: seq<string>, found: nat)
    ensures options == FillOptions(Blank, Writes(matches))
    ensures found == FoundCount(Writes(matches))
  {
    options := Blank;
    found := 0;
    var i := 0;
    while i < |matches|
      invariant 0 <= i <= |matches| && |options| == 4
      invariant FillOptions(options, Writes(matches[i..])) == FillOptions(Blank, Writes(matches))
      invariant found + FoundCount(Writes(matches[i..])) == FoundCount(Writes(matches))
    {
      assert matches[i..][1..] == matches[i + 1..];
      ConsTail((Slot(matches[i]), Cleaned(matches[i].text)), Writes(matches[i + 1..]));
      var index := Slot(matches[i]);
      if 0 <= index < 4 {
        options := options[index := Cleaned(matches[i].text)];
        found := found + 1;
      }
      i := i + 1;
    }
  }

  /** One block of a choice section: its question, when it is kept. */
  method ParseChoicePart(part: string, kind: QType, title: string) returns (question: Option<Question>)
    ensures question == ChoiceQuestion(part, kind, title)
  {
    var stem := StemMatch(part);
    if stem.None? {
      return None;
    }
    var raw := Strip(stem.value);
    var answer := AnnotationAnswer(raw);
    var text := StemText(raw);
    var options, found := ReadOptions(FindOptions(part, 0));
    if text != [] && found == 4 && AllFilled(options) {
      if kind == MultiChoice && answer.Some? && answer.value != [] {
        answer := Some(SortChars(answer.value));
      }
      question := Some(Question(kind, text, options, answer, title));
    } else {
      question := None;
    }
  }


  /** The body of the loop over the blocks of a choice section: the block is
      stripped, skipped when empty, and parsed. */
  method ParseChoiceBlock(part: string, kind: QType, title: string) returns (found: seq<Question>)
    ensures found == ChoiceHead(part, kind, title)
  {
    var p := Strip(part);
    found := [];
    if p != [] {
      var q := ParseChoicePart(p, kind, title);
      if q.Some? {
        found := [q.value];
      }
    }
  }

  /** The loop over the blocks of a choice section. */
  method ParseChoiceSection(parts: seq<string>, kind: QType, title: string) returns (questions: seq<Question>)
    ensures questions == ChoiceQuestions(parts, kind, title)
  {
    questions := [];
    var i := 0;
    assert parts[0..] == parts;
    while i < |parts|
      invariant 0 <= i <= |parts|
      invariant questions + ChoiceQuestions(parts[i..], kind, title) == ChoiceQuestions(parts, kind, title)
    {
      var found := ParseChoiceBlock(parts[i], kind, title);
      ChoiceLoopStep(parts, i, kind, title, questions, found);
      questions := questions + found;
      i := i + 1;
    }
    assert parts[i..] == [];
  }

  // ---------------------------------------------------------------------
  // The bank

  class QuestionBank {
    var currentChapter: nat
    var chapters: seq<seq<Question>>
    var filePath: Option<string>
    var title: string

    /** QuestionBank(file_path): the default title, then a load when a path is
        given. `file` is the file's text, or None when it is missing or
        cannot be read. */
    constructor (path: Option<string>, file: Option<string>)
      ensures currentChapter == 0 && filePath == path
      ensures path.None? || file.None? ==> chapters == [] && title == DefaultTitle
      ensures path.Some? && file.Some? ==>
        title == BankTitle(path.value, file.value) && chapters == BankChapters(file.value)
    {
      currentChapter := 0;
      chapters := [];
      filePath := path;
      title := DefaultTitle;
      new;
      if path.Some? {
        var _ := LoadQuestionBank(path.value, file);
      }
    }

    /** load_question_bank: reports whether any chapter was loaded. */
    method LoadQuestionBank(path: string, file: Option<string>) returns (ok: bool)
      modifies this
      ensures filePath == Some(path) && currentChapter == old(currentChapter)
      ensures file.None? ==> !ok && chapters == [] && title == old(title)
      ensures file.Some? ==>
        && title == BankTitle(path, file.value)
        && chapters == BankChapters(file.value)
        && ok == (chapters != [])
    {
      filePath := Some(path);
      chapters := [];
      if file.None? {
        return false;
      }
      var content := file.value;
      var firstLine := FirstLine(Strip(content));
      if !StartsWith(firstLine, "第") {
        title := firstLine;
        content := JoinLines(SplitLines(Strip(content))[1..]);
      } else {
        title := SplitExtRoot(BaseName(path));
      }
      assert content == BankBody(file.value);
      LoadChapters(FindChapters(content, 0));
      ok := chapters != [];
    }

    /** The loop over the blocks the chapter pattern found: each block that
        yields questions is appended to the chapters. */
    method LoadChapters(blocks: seq<string>)
      requires chapters == []
      modifies this
      ensures chapters == LoadedChapters(blocks)
      ensures filePath == old(filePath) && currentChapter == old(currentChapter) && title == old(title)
    {
      var i := 0;
      while i < |blocks|
        invariant 0 <= i <= |blocks|
        invariant filePath == old(filePath) && currentChapter == old(currentChapter) && title == old(title)
        invariant chapters + LoadedChapters(blocks[i..]) == LoadedChapters(blocks)
      {
        var found := LoadBlock(blocks[i]);
        ChapterLoopStep(blocks, i, chapters, found);
        chapters := chapters + found;
        i := i + 1;
      }
      assert blocks[i..] == [];
    }

    /** The body of the loop over the chapter blocks: a block that is empty
        once stripped is skipped, and a chapter without questions is dropped. */
    method LoadBlock(block: string) returns (found: seq<seq<Question>>)
      ensures found == ChapterHead(block)
    {
      var b := Strip(block);
      found := [];
      if b != [] {
        var questions := ParseChapter(b);
        if questions != [] {
          found := [questions];
        }
      }
    }

    /** The body of parse_chapter's loop over sections: the questions of one
        stripped header and its stripped content, none when the header is
        empty or names no question type or the content is empty. */
    method ParseSection(header: string, content: string, chapterTitle: string) returns (pair: seq<Question>)
      ensures pair == SectionPair(header, content, chapterTitle)
    {
      pair := [];
      if header != [] {
        var kind := HeaderType(header);
        if kind.Some? && content != [] {
          if kind.value == TrueFalse {
            pair := ParseJudgeSection(FindJudges(content, 0), chapterTitle);
          } else {
            pair := ParseChoiceSection(SplitQuestions("\n" + content), kind.value, chapterTitle);
          }
        }
      }
    }

    /** parse_chapter: the questions of one stripped chapter block. */
    method ParseChapter(block: string) returns (questions: seq<Question>)
      ensures questions == ChapterQuestions(block)
    {
      var chapterTitle := UnknownChapter;
      match TitleLineMatch(block) {
        case Some(g) =>
          chapterTitle := Strip(g);
        case None =>
          var first := Strip(FirstLine(block));
          if first != [] {
            chapterTitle := first;
          }
      }
      assert chapterTitle == ChapterTitle(block);
      var sections := SplitSections(block);
      questions := [];
      var idx := 1;
      while idx < |sections|
        invariant 1 <= idx <= |sections| + 1
        invariant questions + SectionQuestions(From(sections, idx), chapterTitle)
          == SectionQuestions(From(sections, 1), chapterTitle)
      {
        var header := Strip(sections[idx]);
        var content := if idx + 1 < |sections| then Strip(sections[idx + 1]) else "";
        ghost var rest := From(sections, idx);
        assert rest[0] == sections[idx] && (1 < |rest| ==> rest[1] == sections[idx + 1]);
        assert From(rest, 2) == From(sections, idx + 2);
        assert SectionQuestions(rest, chapterTitle) ==
          SectionPair(header, content, chapterTitle) + SectionQuestions(From(rest, 2), chapterTitle);
        idx := idx + 2;
        var pair := ParseSection(header, content, chapterTitle);
        AppendAssoc(questions, pair, SectionQuestions(From(sections, idx), chapterTitle));
        questions := questions + pair;
      }
      assert From(sections, idx) == [];
    }
  }
}
