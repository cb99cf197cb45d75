# QuizUp: question bank and quiz session, modelled in Dafny

This project models the core of a desktop quiz program that reads a plain-text
question bank and runs a quiz session over it.

- **Question bank** (`question_bank.py`). `load_question_bank` reads the bank's
  title line. It cuts the rest of the text into chapters ("第…章"), and
  `parse_chapter` turns each chapter into questions:
  - true/false questions, written `1. stem (A)`;
  - single- and multiple-choice questions, with a stem, the options A–D and
    an answer taken from a bracket in the stem.

  Each regular expression is modelled as a small hand-written scanner
  (`patterns.dfy`). Each scanner is proved to find the first or maximal
  match, as the expression does. The string clean-ups (`strip`,
  `re.sub(r"\s+", " ", …)`, `split("\n")`, `sorted`) are in `text.dfy`.
  The parser's loops are methods (`QuestionBankModel.ParseJudgeSection`,
  `ParseChoiceSection`, `ReadOptions`, `QuestionBank.LoadChapters`, …).
  Each is proved equal to a specification function. The properties are
  proved about those functions, for example:
  - every question kept is well formed;
  - a choice question is kept exactly when its four options are A, B, C and
    D once each, none of them empty;
  - the title line is removed without losing the rest of the text.
- **Quiz session** (`quiz_app.py`). The class `QuizApp` keeps the session
  state that the handlers update in place:
  - the recent-files list and the last file;
  - the bank's chapters and the current chapter;
  - the set of questions already shown and the current question;
  - the per-type counters, the statistics and the answered counts per
    chapter.

  The handlers are methods with `modifies` clauses on exactly the fields
  they change. A dialog's answer is the next element of an `answers`
  sequence, and a dialog that is closed counts as "no". The random choice of
  a question is a nondeterministic choice among the available ones. The
  session invariant `Valid` holds throughout: every chapter of the bank holds
  questions, the chapter index is in range, no statistics cell counts more
  correct answers than answers, and every question type has a counter.
  Where `show_chapter_question` ends up is specified once, by the function
  `Land` (the chain of "chapter finished" dialogs) and the predicate
  `LandedAt` (the state it leaves). Every handler that shows a question
  states its outcome on every path, through them or, when a new session
  starts (`start_quiz`, `select_question_bank`), through `SessionBegun`.

Files: `wrappers.dfy` (Option), `text.dfy` (module `Text`), `patterns.dfy`
(module `Patterns`), `question_bank.dfy` (module `QuestionBankModel`),
`quiz_app.dfy` (module `QuizAppModel`).

Notes on the source:
- The multiple-choice key is built with `"".join(sorted(...))` and keeps
  duplicate letters. A key such as `(A,A)` therefore gives `AA`, which no set
  of ticked boxes can match. `GradeMultiChoice` covers every sorted key the
  parser makes, duplicates included: an answer is right exactly when the key
  repeats no letter (`Ascending`) and the ticked boxes are its letters, so a
  key with a repeated letter is never matched, as in the source.
- A chapter block whose first line is blank once stripped falls back to the
  title "未知章节" (`ChapterTitleIsFirstLine`). A block found by the chapter
  pattern never takes that fallback, because it starts with "第".

## Model

| member | source | states |
|---|---|---|
| Text.SortChars | question_bank.py:182-184 | `sorted`: the result is in ascending order and has the same characters as the input, with multiplicity |
| Text.SortIdempotent | question_bank.py:226-228 | sorting an already sorted multiple-choice answer again changes nothing |
| Text.SortedUnique | question_bank.py:182-184 | two sorted strings with the same characters are equal, so the sorted answer is determined by its letters |
| Text.JoinSplitLines | question_bank.py:32-37 | `"\n".join(s.split("\n")) == s` |
| Text.SplitLinesNoNewline | question_bank.py:32 | no line produced by `split("\n")` contains a newline |
| Text.RestLines | question_bank.py:37 | joining all lines but the first gives the text after the first newline, or "" when there is none |
| Text.FirstLine | question_bank.py:32 | `split("\n")[0]`: the prefix before the first newline, which contains no newline |
| Text.IndexOf | question_bank.py:32 | the position of the first occurrence of the character, or the length when there is none |
| Text.BaseName | question_bank.py:40 | `os.path.basename`: the suffix of the path after its last '/', containing no '/' |
| Text.LastDot | question_bank.py:40 | the last '.' of the name, or -1 when there is none |
| Text.SplitExtRoot | question_bank.py:40 | `os.path.splitext(...)[0]`: a prefix of the name that drops only a final extension containing no further '.' |
| Text.NormalizeIsNormal | question_bank.py:135-137 | the clean-up leaves no leading or trailing whitespace and only single ASCII spaces between words |
| Text.NormalizeJoinsWords | question_bank.py:135-137 | the clean-up keeps the words of `str.split()` and is exactly those words joined by single spaces |
| Text.NormalIsJoinedWords | question_bank.py:195 | a normal text is its own words joined by single spaces, so a normal text is fixed by its words |
| Text.StripKeepsWords | question_bank.py:47 | `strip()` keeps the list of words |
| Text.WordsShape | question_bank.py:195 | `str.split()`: every word is non-empty and holds no whitespace |
| Text.NormalizeKeepsNonSpace | question_bank.py:135-137 | the clean-up keeps every non-whitespace character, in order, and keeps the same list of words (`str.split()`) |
| Text.NormalizeIdempotent | question_bank.py:195 | cleaning an already cleaned text changes nothing |
| Text.StripKeepsNonSpace | question_bank.py:47 | `strip()` removes only whitespace |
| Text.StripKeepsLeadingChar | question_bank.py:75 | stripping a text that starts with a non-space character keeps that first character |
| Text.CollapseShape | question_bank.py:195 | `re.sub(r"\s+", " ", …)` leaves only single ASCII spaces, and the result starts and ends with whitespace exactly when the text does |
| Text.CollapseKeepsWords | question_bank.py:195 | the whitespace collapse keeps the list of words, so each whitespace run between two words becomes exactly one space |
| Text.CollapseKeepsNonSpace | question_bank.py:195 | the whitespace collapse keeps every non-whitespace character, in order, and the list of words |
| Text.TrimStartShape | question_bank.py:47 | `lstrip`: a suffix of the text, preceded only by whitespace and starting with non-whitespace |
| Text.TrimEndShape | question_bank.py:47 | `rstrip`: a prefix of the text, followed only by whitespace and ending with non-whitespace |
| Text.UpperAscii | question_bank.py:183 | `upper()` on ASCII: same length, no lowercase letter a–z remains, every other character is unchanged and each lowercase letter becomes its capital |
| Text.InsertSorted | question_bank.py:183 | inserting a character into a sorted string keeps it sorted |
| Patterns.FindChaptersJoin | question_bank.py:43-44 | `re.findall` of the chapter pattern finds no chapter exactly when no heading follows; otherwise the chapters joined by the blank lines between them give back the text from the first heading on (up to one final newline), so no text and no heading is lost |
| Patterns.FirstHeading | question_bank.py:43 | the position where the first chapter match starts: a heading, or the end of the text |
| Patterns.FirstHeadingIsFirst | question_bank.py:43 | no heading starts before the first match, so `findall` skips only text without a heading |
| Patterns.ChapterBeforeNext | question_bank.py:43-44 | a chapter followed by "\n\n第…章" is found, and the next chapter starts right after that boundary |
| Patterns.ChaptersStartWithHeading | question_bank.py:43-44 | every chapter found starts with a "第…章" heading |
| Patterns.ChapterEndIsFirst | question_bank.py:43 | the lazy `.*?` stops at the first "\n\n第…章" or at the end of the text, and at no earlier position |
| Patterns.ChapterHeadingEnd | question_bank.py:43 | a heading match starts with '第', ends with '章' and has at least one character in between |
| Patterns.TitleLineMatch | question_bank.py:70-75 | when `^(第…章.*?)\n` matches, the group is the block's first line |
| Patterns.LazySpaceNewlineSpaces | question_bank.py:86 | the lazy `\s*?\n` of the section header consumes only whitespace and stops at the first newline |
| Patterns.SplitSections | question_bank.py:85-88 | `re.split` with one capture group gives an odd number of parts, text and header alternating, which put back together give the chapter text |
| Patterns.SplitSectionsJoin | question_bank.py:85-88 | the parts of the split from any point on, concatenated, give the text from that point |
| Patterns.JudgeStemOneLine | question_bank.py:132 | the lazy true/false stem stops at the first position where the answer bracket follows, and never crosses a newline |
| Patterns.JudgeMatchOneLine | question_bank.py:132 | a true/false stem never contains a newline |
| Patterns.JudgesOneLine | question_bank.py:132-133 | no true/false stem found by `findall` contains a newline |
| Patterns.FindJudges | question_bank.py:132-133 | every true/false answer found is 'A' or 'B' |
| Patterns.SplitQuestions | question_bank.py:153-155 | splitting at a newline before a question number gives at least one part; the parts joined by newlines give the text back, and every part after the first starts with a question number |
| Patterns.SplitQuestionsJoin | question_bank.py:153-155 | the parts joined by the removed newlines give the text from the split point on |
| Patterns.SplitQuestionsNumbered | question_bank.py:153-155 | every part after the first starts with a question number, and the first does when the text does |
| Patterns.FirstOptionAIsFirst | question_bank.py:165-167 | the stem's lookahead `\n\s*A[．.、]` is satisfied at the position found and at no earlier one |
| Patterns.AnnotationInside | question_bank.py:176-178 | an answer bracket holds only the letters A–D, commas and whitespace |
| Patterns.FindAnnotationIsFirst | question_bank.py:176-178 | `re.search` finds the first answer bracket of the stem |
| Patterns.AnnotationGroup | question_bank.py:176-180 | `group(1)` of the first answer bracket: the text strictly inside it, non-empty and made of A–D, commas and whitespace only |
| Patterns.SubTidy | question_bank.py:186-188 | `re.sub` of the answer bracket by "（ ）" leaves the placeholder as the only text where a bracket could match |
| Patterns.ReplaceClean | question_bank.py:186-197 | in a text whose every answer bracket is the placeholder "（ ）", closing each placeholder up to "（）" leaves no answer bracket anywhere |
| Patterns.ReplaceNormal | question_bank.py:197 | closing up "（ ）" to "（）" keeps a normal text normal |
| Patterns.OptionEndIsFirst | question_bank.py:203-206 | an option's text ends at the first next option marker or at trailing whitespace |
| Patterns.FindOptions | question_bank.py:203-206 | every option found is labelled with a letter A–D |
| QuestionBankModel.CleanedIsNormal | question_bank.py:135-137 | a cleaned stem or option text is normal, keeps every non-whitespace character and the word list of the raw text, and is exactly its words joined by single spaces |
| QuestionBankModel.TitleLineRemoved | question_bank.py:31-40 | with a title line, the stripped file is the title, a newline and the body; otherwise the body is the file and the title is the file name without extension |
| QuestionBankModel.ChapterTitleIsFirstLine | question_bank.py:66-80 | the chapter title is the block's stripped first line, or "未知章节" when that is empty, and never empty |
| QuestionBankModel.HeaderIsTyped | question_bank.py:85-88 | every header the section split captures names one of the three question types |
| QuestionBankModel.SplitHeadersTyped | question_bank.py:85-124 | every captured header of a split chapter is recognised as a question type, so the unknown-type branch at 123-124 is never taken |
| QuestionBankModel.JudgeQuestionsWellFormed | question_bank.py:132-146 | every true/false question kept has a non-empty, cleaned stem, no options, the answer "A" or "B" and the chapter title |
| QuestionBankModel.AnswerLettersCounts | question_bank.py:182-184 | `filter(str.isalpha, …)` on an answer bracket: each letter A–D is kept as often as it occurs, duplicates included, and nothing else is kept |
| QuestionBankModel.GroupLetters | question_bank.py:180-184 | stripping and uppercasing the bracket's contents changes none of the letters `filter` keeps |
| QuestionBankModel.GroupAnswer | question_bank.py:180-184 | the sorted answer is ascending, made of A–D, and has exactly the bracket's option letters with their multiplicity |
| QuestionBankModel.AnnotationAnswer | question_bank.py:174-188 | the answer is present exactly when the stem has an answer bracket; it is then sorted, made of A–D, and has exactly the bracket's letters with their multiplicity |
| QuestionBankModel.AnnotationAnswerIs | question_bank.py:174-188 | the answer is the one sorted string with the bracket's letters, so any sorted string with those letters is it |
| QuestionBankModel.AnnotationAnswerExample | question_bank.py:176-184 | the stem "（B，D）" gives the answer "BD" |
| QuestionBankModel.StemTextClean | question_bank.py:185-197 | the stored stem is normal text in which no answer bracket matches anywhere |
| QuestionBankModel.FillLastWins | question_bank.py:208-219 | each option slot holds the text of the last option written to it, or stays blank |
| QuestionBankModel.LastWrite | question_bank.py:209-218 | the last write to a slot, or -1 when none |
| QuestionBankModel.CompleteOptions | question_bank.py:221-225 | four options found and all non-empty holds exactly when the four matches name A, B, C and D once each with non-empty text |
| QuestionBankModel.KeepRule | question_bank.py:165-225 | a choice block gives a question exactly when its stem matches with a non-empty text and its options are A, B, C, D once each, none empty |
| QuestionBankModel.OptionsNormal | question_bank.py:215-218 | every option text is cleaned |
| QuestionBankModel.ChoiceQuestionWellFormed | question_bank.py:165-237 | a kept choice question has a non-empty normal stem in which no answer bracket is left, four non-empty cleaned options, its type and chapter, and the bracket's answer |
| QuestionBankModel.ChoiceQuestionsWellFormed | question_bank.py:157-237 | every question of a choice section is well formed |
| QuestionBankModel.SectionQuestionsWellFormed | question_bank.py:100-237 | every question of every section is well formed |
| QuestionBankModel.ChapterQuestionsWellFormed | question_bank.py:63-239 | every question `parse_chapter` returns is well formed and carries the chapter's title |
| QuestionBankModel.LoadedChaptersLength | question_bank.py:46-53 | the bank keeps at most one chapter per block found |
| QuestionBankModel.LoadedChaptersNonEmpty | question_bank.py:46-55 | the bank has chapters exactly when some block is non-empty once stripped and yields questions |
| QuestionBankModel.LoadedChaptersEachNonEmpty | question_bank.py:52-53 | no chapter kept is empty |
| QuestionBankModel.LoadedChaptersWellFormed | question_bank.py:46-53 | every kept chapter is non-empty, all its questions are well formed, and they all carry the same chapter title |
| QuestionBankModel.ParseJudgeSection | question_bank.py:133-146 | the loop over the true/false matches returns the questions the specification gives |
| QuestionBankModel.ReadOptions | question_bank.py:200-219 | the option loop leaves the slots and the count the specification gives |
| QuestionBankModel.ParseChoicePart | question_bank.py:158-237 | one choice block gives the question the specification gives, or none |
| QuestionBankModel.ParseChoiceBlock | question_bank.py:157-237 | the body of the loop over choice blocks: that block's question, if any |
| QuestionBankModel.ParseChoiceSection | question_bank.py:157-237 | the loop over a section's blocks returns the specified questions |
| QuestionBankModel.QuestionBank.constructor | question_bank.py:7-14 | without a path, or when the file cannot be read, the default title and no chapters; otherwise the bank's title and chapters |
| QuestionBankModel.QuestionBank.LoadQuestionBank | question_bank.py:16-61 | the path is recorded; a missing file gives False and no chapters; otherwise the title and chapters of the file, and True exactly when there are chapters |
| QuestionBankModel.QuestionBank.LoadChapters | question_bank.py:46-53 | the loop over blocks appends exactly the chapters the specification gives |
| QuestionBankModel.QuestionBank.LoadBlock | question_bank.py:47-53 | a block empty once stripped, or one without questions, adds no chapter |
| QuestionBankModel.QuestionBank.ParseChapter | question_bank.py:63-243 | the questions of a chapter block, as the specification gives them |
| QuestionBankModel.QuestionBank.ParseSection | question_bank.py:101-237 | one pass of the loop over sections: the questions the specification gives for that header and content, none for an empty or unknown header or an empty content |
| QuizAppModel.LoadedConfig | quiz_app.py:252-274 | the saved configuration, or an empty last file and recent list when none could be read |
| QuizAppModel.RemoveFirst | quiz_app.py:405-406 | `list.remove`: one entry fewer when the file is listed, the list unchanged otherwise |
| QuizAppModel.RemoveFirstCount | quiz_app.py:405-406 | removing takes away exactly one occurrence of the file |
| QuizAppModel.RemoveFirstAt | quiz_app.py:405-406 | removing deletes exactly the entry at the file's first position |
| QuizAppModel.RemoveFirstDistinct | quiz_app.py:405-406 | removing from a list without repeats leaves one without repeats and without the file |
| QuizAppModel.RecentFront | quiz_app.py:402-409 | the chosen file is first; the list grows by one unless the file was listed, up to ten entries |
| QuizAppModel.RecentOrder | quiz_app.py:402-409 | the other files keep their order, with the chosen one taken out, cut at ten |
| QuizAppModel.RecentOnce | quiz_app.py:402-409 | a file listed at most once before is listed exactly once afterwards |
| QuizAppModel.RecentDistinct | quiz_app.py:402-409 | a recent list without repeats stays without repeats |
| QuizAppModel.DisplayNameShape | quiz_app.py:366-374 | the shown name has at most 30 characters, keeps the first 27, is the whole name below 30 and ends in "..." otherwise |
| QuizAppModel.ContinueLabelShape | quiz_app.py:365-377 | the continue button appears exactly when a last file is recorded and exists, and names the start of its base name |
| QuizAppModel.AvailableFromHas | quiz_app.py:852-858 | the partial list holds exactly the unshown indices from a given point on |
| QuizAppModel.AvailableMembers | quiz_app.py:852-858 | `available_indices` holds exactly the chapter's indices not yet shown, ascending, each once |
| QuizAppModel.AvailableAfterPick | quiz_app.py:915-927 | showing an available question leaves exactly one fewer to show |
| QuizAppModel.AvailableAfterDrop | quiz_app.py:1059-1064 | after going back, every question of that chapter is available again and the other chapters are unaffected |
| QuizAppModel.TickedLettersShape | quiz_app.py:953-959 | the ticked letters are those of the ticked boxes, each once, ascending |
| QuizAppModel.GradeMultiChoice | quiz_app.py:984-989 | with a key as the parser makes it, a multiple-choice answer is right exactly when the ticked boxes are the key's letters |
| QuizAppModel.RecordedCells | quiz_app.py:1629-1648 | recording adds one answer, and one correct answer when right, to its own cell and leaves every other cell alone |
| QuizAppModel.RecordedConsistent | quiz_app.py:1629-1648 | recording keeps every cell's correct count at or below its answered count |
| QuizAppModel.Ask | quiz_app.py:893-900 | a dialog consumes one answer; it says yes only when the next answer is yes |
| QuizAppModel.ZeroedRangeCells | quiz_app.py:1043-1049 | after next_chapter has entered chapters lo to hi in turn, those count zero answers and every other chapter keeps its count |
| QuizAppModel.Land | quiz_app.py:860-913 | where the chain of "chapter finished" dialogs ends, started in a chapter of an open bank: at a chapter from the starting one on, or with the restart after the last one (`LandVisits` and `LandConsumes` state which) |
| QuizAppModel.LandVisits | quiz_app.py:852-913 | the search passes only chapters whose questions were all shown, and ends at a fresh question exactly when the chapter it reaches has an unshown one |
| QuizAppModel.LandConsumes | quiz_app.py:893-913 | each chapter passed took one "yes"; a declined or restarting dialog takes one more answer, a closed one none, and the answers after those are returned |
| QuizAppModel.LandedWhenFresh | quiz_app.py:915-927 | with an unshown question in the current chapter, show_chapter_question picks one there and changes nothing else but that type's counter |
| QuizAppModel.LandedWhenDeclined | quiz_app.py:911-913 | a finished chapter whose dialog is declined or closed: only the screen changes, to the start screen |
| QuizAppModel.LandedWhenRestarted | quiz_app.py:900-907 | the last chapter finished and "start again" accepted: statistics, shown questions and type counters are cleared and a question of the first chapter is picked; answered counts stay |
| QuizAppModel.LandedWhenAdvanced | quiz_app.py:908-910 | a finished chapter before the last with "next chapter" accepted ends exactly as show_chapter_question from the next chapter, entered as next_chapter enters it, with the remaining answers |
| QuizAppModel.LandedKeeps | quiz_app.py:860-913 | wherever the search ends, the answered counts of the starting chapter and every chapter before it are kept, and the statistics change only on a restart, which clears them |
| QuizAppModel.QuizApp.constructor | quiz_app.py:16-118 | the configuration is loaded, no bank is open, the start screen shows and the session counters are empty |
| QuizAppModel.QuizApp.SelectQuestionBank | quiz_app.py:392-450 | a cancelled dialog changes nothing; otherwise the file goes to the front of the recent list and becomes the last file, its bank and title are opened, and start_quiz's outcome follows: with no chapters only the start screen comes back with the session and window title kept, with chapters the session restarts and a question of the first chapter shows |
| QuizAppModel.QuizApp.StartQuiz | quiz_app.py:418-450 | an empty path, or a bank without chapters, only returns to the start screen: every session field, the window title and (for an empty path) the old bank are kept; otherwise the session restarts and a question of the first chapter shows |
| QuizAppModel.QuizApp.BeginSession | quiz_app.py:433-450 | the session is reset, the title names the bank and one question of the first chapter is shown |
| QuizAppModel.QuizApp.PrepareSession | quiz_app.py:433-447 | the reset, the window title and the quiz screen before the first question is shown |
| QuizAppModel.QuizApp.OpenBank | quiz_app.py:425-431 | a new bank is loaded from the file; success exactly when it has chapters, none of them empty |
| QuizAppModel.QuizApp.ResetSession | quiz_app.py:433-441 | first chapter, nothing shown, counters, statistics and answered counts cleared, first chapter's count at zero |
| QuizAppModel.QuizApp.RestartSession | quiz_app.py:900-907 | first chapter, nothing shown, counters and statistics cleared |
| QuizAppModel.QuizApp.PickQuestion | quiz_app.py:915-927 | an unshown question of the current chapter becomes current and is marked shown, its type's counter goes up by one, and the screen, statistics and answered counts are kept |
| QuizAppModel.QuizApp.ShowChapterQuestion | quiz_app.py:813-951 | without a bank or chapters only the start screen comes back; otherwise the session ends as `LandedAt` says on every path: a fresh question of the current or a later chapter, the start screen after a declined dialog, or the restart |
| QuizAppModel.QuizApp.ChapterDone | quiz_app.py:860-913 | for a finished chapter, every path ends as `LandedAt` says: declined gives the start screen with the session kept, accepted before the last chapter goes on from the next one, accepted after the last restarts |
| QuizAppModel.QuizApp.RestartAfterLast | quiz_app.py:900-907 | the last chapter finished and "start again" accepted: the session ends as `LandedAt` says for a restart |
| QuizAppModel.QuizApp.StartOver | quiz_app.py:900-907 | a question of the first chapter is picked with nothing shown before; statistics cleared, type counters reset to that question's one, answered counts and screen kept |
| QuizAppModel.QuizApp.AdvanceChapter | quiz_app.py:1043-1048 | one chapter on, counters reset, that chapter's answered count at zero |
| QuizAppModel.QuizApp.NextChapter | quiz_app.py:1041-1049 | at the last chapter nothing changes; otherwise the next chapter is entered (index up, counters reset, its answered count zero) and the session ends as `LandedAt` says from there, also when that chapter was already finished |
| QuizAppModel.QuizApp.RetreatChapter | quiz_app.py:1053-1064 | one chapter back, counters reset, that chapter's shown questions forgotten |
| QuizAppModel.QuizApp.PrevChapter | quiz_app.py:1051-1065 | at the first chapter nothing changes; otherwise the previous chapter is entered (its shown questions forgotten, its answered count zero, the type counters reset) and the session ends as show_chapter_question from there on every path: the start screen without a bank or chapters, else a question of that chapter is picked with statistics and screen kept |
| QuizAppModel.QuizApp.GetMultiAnswer | quiz_app.py:953-959 | the letters of the ticked boxes, in ascending order |
| QuizAppModel.QuizApp.UpdateStats | quiz_app.py:1629-1648 | without a current question nothing changes; otherwise the cell of the current chapter and type records the answer |
| QuizAppModel.QuizApp.RecordAnswer | quiz_app.py:968-1038 | an answer that cannot be graded changes nothing; otherwise the answer (if any) is recorded and the chapter's answered count goes up by one |
| QuizAppModel.QuizApp.AnswerCurrent | quiz_app.py:980-1039 | an answer that cannot be graded changes nothing; otherwise, on every path, the answer is counted (the chapter's answered count up by one, the statistics recorded or later cleared by a restart) and the session ends as show_chapter_question from there |
| QuizAppModel.QuizApp.NextQuestion | quiz_app.py:961-1039 | without a current question, show_chapter_question's outcome; otherwise the widgets' answer is graded, and unless grading fails the chapter's answered count goes up by one and the session ends as show_chapter_question from the counted state |

## Left out

- File access, message boxes and `save_config` are left out. Whether a file
  exists and what it contains are parameters (`file: Option<string>`, with
  None for a missing or unreadable file). The configuration read by
  `load_config` is an `Option<Config>`, and the JSON validation is folded
  into that choice.
- Exceptions are left out. The `except` branches of `load_question_bank`
  (57-59) and `parse_chapter` (241-243) cannot be reached in the model,
  because its string operations do not fail. The final `return True` (61)
  is unreachable in the source too.
- The Tk widgets, the quiz screen's layout, the progress display, the theme,
  the animations (`fade_out_content`, `fade_in_content`) and the statistics
  window (`show_stats`) are left out. The screen is a two-valued field, and
  the window title is a string field.
- The dialogs are modelled by the `answers` sequence: each dialog takes the
  next answer, and a closed dialog or an exhausted sequence counts as "no".
  The result dialogs of `next_question` only have an OK button, so they
  consume nothing.
- `random.choice` is modelled as a nondeterministic pick among the available
  questions, so no particular distribution is modelled.
- The branch of `show_chapter_question` at quiz_app.py:821-838, taken when
  the chapter index is out of range, is left out. Every state the model can
  reach keeps the index in range (the `Valid` invariant), so this branch can
  never be taken.
- The regular expressions are hand-written scanners. They cover only the
  patterns the parser uses, not a general regex engine.
- Text.BaseName: file paths are POSIX paths. `os.path.basename` and
  `os.path.splitext` are modelled as `posixpath` splits them, at '/' only;
  Windows' `ntpath` also splits at `\` and after a drive such as "C:", which
  the model does not. The file dialog returns '/'-separated paths.
- `upper()` is modelled on ASCII letters only. `str.isspace` is the fixed
  list of characters in `Text.IsSpace`.
- QuizAppModel.QuizApp.StartQuiz: copies the loaded bank's chapters and title
  into the application. Aliasing with the `QuestionBank` object is not
  modelled, because nothing changes the bank afterwards.
- QuizAppModel.QuizApp.GetMultiAnswer: requires exactly four boxes, which is
  how many the quiz screen creates (quiz_app.py:771-775).
- QuizAppModel.RecentOnce: assumes the file was listed at most once before.
  The source's own lists satisfy this (`RecentDistinct`), but a hand-edited
  configuration file might not.
- The `current_chapter` attribute of `QuestionBank` is kept as a field, but
  nothing in the source reads it.
- The empty-chapter branch of `show_chapter_question` (quiz_app.py:845-851)
  is left out. The bank never keeps an empty chapter (question_bank.py:52-53,
  `LoadedChaptersEachNonEmpty`), so `Valid` requires every chapter to hold
  questions and the branch can never be taken.
- Patterns.IsDigit: `\d` is narrowed to the ASCII and fullwidth decimal
  digits. Python's `\d` on text also matches every other Unicode decimal
  digit (Arabic-Indic, Devanagari, …); the model does not take those as
  question numbers.
