// The quiz session of quiz_app.py: the recent-files list and the start screen's
// "continue" label, the reset when a bank is opened, the choice of the next
// question of a chapter, chapter navigation, grading and the per-chapter
// statistics. Widgets, animations and dialogs are not modelled; a dialog's
// answer is the next element of a sequence of answers, and the random choice
// of a question is a nondeterministic choice among the available ones.

module QuizAppModel {
  import opened Wrappers
  import opened Text
  import opened Patterns
  import opened QuestionBankModel

  // ---------------------------------------------------------------------
  // The configuration: last file and recent files

  /** The saved configuration: the last file opened and the recent files. */
  datatype Config = Config(lastFile: string, recentFiles: seq<string>)

  /** load_config: the saved configuration, or the default one when the file
      is missing, unreadable or lacks one of the two keys. */
  function LoadedConfig(saved: Option<Config>): (r: Config)
    ensures saved.None? ==> r.lastFile == [] && r.recentFiles == []
    ensures saved.Some? ==> r == saved.value
  {
    if saved.Some? then saved.value else Config("", [])
  }

  const MaxRecent: nat := 10

  /** list.remove: the list without the first occurrence of p, if any. */
  function RemoveFirst(s: seq<string>, p: string): (r: seq<string>)
    ensures |r| == if p in s then |s| - 1 else |s|
    ensures p !in s ==> r == s
  {
    if s == [] then []
    else if s[0] == p then s[1..]
    else (assert s == [s[0]] + s[1..]; [s[0]] + RemoveFirst(s[1..], p))
  }

  /** Removing p takes away one occurrence of p and nothing else. */
  lemma {:induction false} RemoveFirstCount(s: seq<string>, p: string)
    ensures multiset(RemoveFirst(s, p)) == multiset(s) - multiset{p}
  {
    if s != [] {
      assert s == [s[0]] + s[1..];
      if s[0] != p {
        RemoveFirstCount(s[1..], p);
      }
    }
  }

  /** Removing p deletes exactly the entry at its first position k. */
  lemma {:induction false} RemoveFirstAt(s: seq<string>, p: string, k: nat)
    requires k < |s| && s[k] == p
    requires forall j :: 0 <= j < k ==> s[j] != p
    ensures RemoveFirst(s, p) == s[..k] + s[k + 1..]
  {
    if k > 0 {
      var t := s[1..];
      assert s[0] != p;
      forall j | 0 <= j < k - 1 ensures t[j] != p {
        assert t[j] == s[j + 1];
      }
      RemoveFirstAt(t, p, k - 1);
      SlicesOfTail(s, k);
      calc {
        RemoveFirst(s, p);
        [s[0]] + RemoveFirst(t, p);
        [s[0]] + (t[..k - 1] + t[k..]);
        ([s[0]] + t[..k - 1]) + t[k..];
      }
    }
  }

  lemma {:induction false} SlicesOfTail(s: seq<string>, k: nat)
    requires 0 < k < |s|
    ensures s[..k] == [s[0]] + s[1..][..k - 1] && s[k + 1..] == s[1..][k..]
  {
  }

  /** The recent-files list after p is chosen: p moved (or added) to the
      front, at most ten entries kept. */
  function UpdatedRecent(recent: seq<string>, p: string): seq<string> {
    var moved := [p] + RemoveFirst(recent, p);
    if |moved| <= MaxRecent then moved else moved[..MaxRecent]
  }

  /** The chosen file comes first; the list grows by one unless the file was
      already there, up to ten entries. */
  lemma {:induction false} RecentFront(recent: seq<string>, p: string)
    ensures UpdatedRecent(recent, p) != [] && UpdatedRecent(recent, p)[0] == p
    ensures |UpdatedRecent(recent, p)| ==
      Min(MaxRecent, if p in recent then |recent| else |recent| + 1)
  {
    var moved := [p] + RemoveFirst(recent, p);
    assert moved[0] == p;
  }

  function Min(a: int, b: int): int { if a <= b then a else b }

  /** The other files follow in their previous order, with p's first
      occurrence taken out and the tail cut at ten entries. */
  lemma {:induction false} RecentOrder(recent: seq<string>, p: string)
    ensures var r := UpdatedRecent(recent, p);
      r[1..] == RemoveFirst(recent, p)[..|r| - 1]
  {
    var r, rest := UpdatedRecent(recent, p), RemoveFirst(recent, p);
    assert ([p] + rest)[1..] == rest;
    if |[p] + rest| > MaxRecent {
      assert r[1..] == rest[..MaxRecent - 1];
    }
  }

  /** A file listed at most once before is listed exactly once afterwards. */
  lemma {:induction false} RecentOnce(recent: seq<string>, p: string)
    requires multiset(recent)[p] <= 1
    ensures multiset(UpdatedRecent(recent, p))[p] == 1
  {
    var rest := RemoveFirst(recent, p);
    RemoveFirstCount(recent, p);
    assert p !in rest by { assert multiset(rest)[p] == 0; }
    var r := UpdatedRecent(recent, p);
    RecentFront(recent, p);
    RecentOrder(recent, p);
    forall j | 0 <= j < |r| - 1 ensures r[1..][j] != p {
      assert r[1..][j] == rest[j];
    }
    HeadCountedOnce(r);
  }

  lemma {:induction false} HeadCountedOnce(r: seq<string>)
    requires r != [] && r[0] !in r[1..]
    ensures multiset(r)[r[0]] == 1
  {
    assert r == [r[0]] + r[1..];
    assert multiset(r) == multiset{r[0]} + multiset(r[1..]);
  }

  predicate Distinct(s: seq<string>) {
    forall i, j :: 0 <= i < j < |s| ==> s[i] != s[j]
  }

  /** Deleting one entry of a list without repeats leaves one without repeats. */
  lemma {:induction false} DeleteDistinct(s: seq<string>, k: nat)
    requires Distinct(s) && k < |s|
    ensures Distinct(s[..k] + s[k + 1..])
  {
    var d := s[..k] + s[k + 1..];
    forall i, j | 0 <= i < j < |d| ensures d[i] != d[j] {
      var i', j' := if i < k then i else i + 1, if j < k then j else j + 1;
      assert d[i] == s[i'] && d[j] == s[j'];
    }
  }

  /** Removing an entry from a list without repeats leaves one without
      repeats and without that entry. */
  lemma {:induction false} RemoveFirstDistinct(s: seq<string>, p: string)
    requires Distinct(s)
    ensures Distinct(RemoveFirst(s, p)) && p !in RemoveFirst(s, p)
  {
    if p in s {
      var k :| 0 <= k < |s| && s[k] == p;
      RemoveFirstAt(s, p, k);
      DeleteDistinct(s, k);
      var d := s[..k] + s[k + 1..];
      forall i | 0 <= i < |d| ensures d[i] != p {
        if i < k { assert d[i] == s[i]; } else { assert d[i] == s[i + 1]; }
      }
    }
  }

  /** A list without repeats stays without repeats. */
  lemma {:induction false} RecentDistinct(recent: seq<string>, p: string)
    requires Distinct(recent)
    ensures Distinct(UpdatedRecent(recent, p))
  {
    var rest := RemoveFirst(recent, p);
    RemoveFirstDistinct(recent, p);
    var r := UpdatedRecent(recent, p);
    RecentOrder(recent, p);
    forall i, j | 0 <= i < j < |r| ensures r[i] != r[j] {
      assert r[j] == rest[j - 1];
      if i > 0 { assert r[i] == rest[i - 1]; } else { assert rest[j - 1] in rest; }
    }
  }

  // ---------------------------------------------------------------------
  // The start screen's "continue" button

  const ContinuePrefix: string := "继续: "

  /** The file name as the button shows it: cut to 27 characters and "..."
      when it has 30 or more. */
  function DisplayName(name: string): string {
    if |name| < 30 then name else name[..27] + "..."
  }

  /** The shown name has at most 30 characters, keeps the name's beginning,
      and is the whole name when that is shorter than 30 characters. */
  lemma {:induction false} DisplayNameShape(name: string)
    ensures |DisplayName(name)| == Min(|name|, 30)
    ensures DisplayName(name)[..Min(|name|, 27)] == name[..Min(|name|, 27)]
    ensures |name| < 30 ==> DisplayName(name) == name
    ensures |name| >= 30 ==> DisplayName(name)[27..] == "..."
  {
  }

  /** The label of the "continue" button: present when a last file is
      recorded and still exists, naming the file without its directories. */
  function ContinueLabel(lastFile: string, fileExists: bool): Option<string> {
    if lastFile != [] && fileExists then Some(ContinuePrefix + DisplayName(BaseName(lastFile))) else None
  }

  /** The button appears exactly when a last file is recorded and exists, and
      then names at most 30 characters of the file's base name. */
  lemma {:induction false} ContinueLabelShape(lastFile: string, fileExists: bool)
    ensures ContinueLabel(lastFile, fileExists).Some? <==> lastFile != [] && fileExists
    ensures ContinueLabel(lastFile, fileExists).Some? ==> (
      var shown := ContinueLabel(lastFile, fileExists).value;
      var base := BaseName(lastFile);
      && shown[..|ContinuePrefix|] == ContinuePrefix
      && |shown| == |ContinuePrefix| + Min(|base|, 30)
      && shown[|ContinuePrefix|..][..Min(|base|, 27)] == base[..Min(|base|, 27)])
  {
    if lastFile != [] && fileExists {
      var base := BaseName(lastFile);
      DisplayNameShape(base);
      var shown := ContinuePrefix + DisplayName(base);
      assert shown[|ContinuePrefix|..] == DisplayName(base);
    }
  }

  // ---------------------------------------------------------------------
  // The questions of a chapter not yet shown

  /** The indices i..n-1 whose pair (c, i) has not been shown, in order. */
  function AvailableFrom(i: nat, n: nat, c: nat, shown: set<(nat, nat)>): seq<nat>
    decreases n - i
  {
    if i >= n then []
    else (if (c, i) in shown then [] else [i]) + AvailableFrom(i + 1, n, c, shown)
  }

  /** The indices of chapter c's n questions not yet shown (available_indices). */
  function Available(n: nat, c: nat, shown: set<(nat, nat)>): seq<nat> {
    AvailableFrom(0, n, c, shown)
  }

  predicate Increasing(s: seq<nat>) {
    forall a, b :: 0 <= a < b < |s| ==> s[a] < s[b]
  }

  /** The list holds exactly the unshown indices from i on. */
  lemma {:induction false} AvailableFromHas(i: nat, n: nat, c: nat, shown: set<(nat, nat)>)
    ensures forall j: nat :: j in AvailableFrom(i, n, c, shown) <==> i <= j < n && (c, j) !in shown
    decreases n - i
  {
    if i < n {
      AvailableFromHas(i + 1, n, c, shown);
      var head, tail := (if (c, i) in shown then [] else [i]), AvailableFrom(i + 1, n, c, shown);
      assert AvailableFrom(i, n, c, shown) == head + tail;
      assert forall j :: j in head <==> j == i && (c, i) !in shown;
      assert forall j :: j in head + tail <==> j in head || j in tail;
    }
  }

  /** The list is in ascending order, each index once. */
  lemma {:induction false} AvailableFromIncreasing(i: nat, n: nat, c: nat, shown: set<(nat, nat)>)
    ensures Increasing(AvailableFrom(i, n, c, shown))
    decreases n - i
  {
    if i < n {
      AvailableFromIncreasing(i + 1, n, c, shown);
      AvailableFromHas(i + 1, n, c, shown);
      var head, tail := (if (c, i) in shown then [] else [i]), AvailableFrom(i + 1, n, c, shown);
      assert AvailableFrom(i, n, c, shown) == head + tail;
      forall a, b | 0 <= a < b < |head + tail| ensures (head + tail)[a] < (head + tail)[b] {
        assert (head + tail)[b] == tail[b - |head|];
        if a >= |head| {
          assert (head + tail)[a] == tail[a - |head|];
        } else {
          assert tail[b - |head|] in tail;
        }
      }
    }
  }

  /** available_indices holds exactly the question indices of the chapter not
      yet shown, in ascending order. */
  lemma {:induction false} AvailableMembers(n: nat, c: nat, shown: set<(nat, nat)>)
    ensures forall j: nat :: j in Available(n, c, shown) <==> j < n && (c, j) !in shown
    ensures Increasing(Available(n, c, shown))
  {
    AvailableFromHas(0, n, c, shown);
    AvailableFromIncreasing(0, n, c, shown);
  }

  /** Two shown sets that agree on chapter c's indices from i on give the same list. */
  lemma {:induction false} AvailableFromSame(i: nat, n: nat, c: nat, s1: set<(nat, nat)>, s2: set<(nat, nat)>)
    requires forall k :: i <= k < n ==> ((c, k) in s1 <==> (c, k) in s2)
    ensures AvailableFrom(i, n, c, s1) == AvailableFrom(i, n, c, s2)
    decreases n - i
  {
    if i < n {
      AvailableFromSame(i + 1, n, c, s1, s2);
    }
  }

  lemma {:induction false} AvailableFromPick(i: nat, n: nat, c: nat, shown: set<(nat, nat)>, j: nat)
    requires i <= j < n && (c, j) !in shown
    ensures |AvailableFrom(i, n, c, shown + {(c, j)})| == |AvailableFrom(i, n, c, shown)| - 1
    decreases n - i
  {
    if i == j {
      AvailableFromSame(i + 1, n, c, shown + {(c, j)}, shown);
    } else {
      AvailableFromPick(i + 1, n, c, shown, j);
    }
  }

  /** Showing an available question leaves one question fewer to show: a
      chapter of n questions runs out after n picks. */
  lemma {:induction false} AvailableAfterPick(n: nat, c: nat, shown: set<(nat, nat)>, j: nat)
    requires j in Available(n, c, shown)
    ensures |Available(n, c, shown + {(c, j)})| == |Available(n, c, shown)| - 1
  {
    AvailableFromHas(0, n, c, shown);
    AvailableFromPick(0, n, c, shown, j);
  }

  /** The shown set with chapter c's pairs removed (prev_chapter). */
  function DropChapter(shown: set<(nat, nat)>, c: nat): set<(nat, nat)> {
    set p | p in shown && p.0 != c
  }

  lemma {:induction false} AvailableFromAll(i: nat, n: nat, c: nat, shown: set<(nat, nat)>)
    requires forall k :: (c, k) !in shown
    ensures |AvailableFrom(i, n, c, shown)| == if i <= n then n - i else 0
    decreases n - i
  {
    if i < n {
      AvailableFromAll(i + 1, n, c, shown);
    }
  }

  /** Going back to a chapter makes all of its questions available again,
      and leaves every other chapter's record alone. */
  lemma {:induction false} AvailableAfterDrop(n: nat, c: nat, shown: set<(nat, nat)>)
    ensures |Available(n, c, DropChapter(shown, c))| == n
    ensures forall d, m :: d != c ==> Available(m, d, DropChapter(shown, c)) == Available(m, d, shown)
  {
    AvailableFromAll(0, n, c, DropChapter(shown, c));
    forall d, m | d != c ensures Available(m, d, DropChapter(shown, c)) == Available(m, d, shown) {
      AvailableFromSame(0, m, d, DropChapter(shown, c), shown);
    }
  }

  // ---------------------------------------------------------------------
  // Multiple-choice answers and grading

  const OptionCount: nat := 4

  /** chr(65 + i): the letter of the i-th option. */
  function Letter(i: nat): char
    requires i < OptionCount
  {
    (65 + i) as char
  }

  /** The letters of the ticked boxes among the first n, in box order. */
  function TickedLetters(ticks: seq<bool>, n: nat): string
    requires n <= |ticks| <= OptionCount
  {
    if n == 0 then []
    else TickedLetters(ticks, n - 1) + (if ticks[n - 1] then [Letter(n - 1)] else [])
  }

  predicate Ascending(s: string) {
    forall a, b :: 0 <= a < b < |s| ==> s[a] < s[b]
  }

  /** The ticked letters are those of the ticked boxes, each once, ascending,
      and all option letters. */
  lemma {:induction false} TickedLettersShape(ticks: seq<bool>, n: nat)
    requires n <= |ticks| <= OptionCount
    ensures forall i :: 0 <= i < n ==> (Letter(i) in TickedLetters(ticks, n) <==> ticks[i])
    ensures forall k :: 0 <= k < |TickedLetters(ticks, n)| ==>
      'A' <= TickedLetters(ticks, n)[k] && TickedLetters(ticks, n)[k] as int < 65 + n
    ensures Ascending(TickedLetters(ticks, n))
  {
    if n > 0 {
      TickedLettersShape(ticks, n - 1);
      var prev, last := TickedLetters(ticks, n - 1), (if ticks[n - 1] then [Letter(n - 1)] else []);
      assert TickedLetters(ticks, n) == prev + last;
      forall k | 0 <= k < |prev + last|
        ensures 'A' <= (prev + last)[k] && (prev + last)[k] as int < 65 + n
      {
        if k < |prev| { assert (prev + last)[k] == prev[k]; }
      }
      forall a, b | 0 <= a < b < |prev + last| ensures (prev + last)[a] < (prev + last)[b] {
        if b >= |prev| {
          assert (prev + last)[a] == prev[a];
        } else {
          assert (prev + last)[a] == prev[a] && (prev + last)[b] == prev[b];
        }
      }
      forall i | 0 <= i < n ensures Letter(i) in prev + last <==> ticks[i] {
        if i < n - 1 {
          assert Letter(n - 1) !in prev by {
            forall k | 0 <= k < |prev| ensures prev[k] != Letter(n - 1) { }
          }
          assert Letter(i) != Letter(n - 1);
        } else {
          assert Letter(n - 1) !in prev by {
            forall k | 0 <= k < |prev| ensures prev[k] != Letter(n - 1) { }
          }
        }
      }
    }
  }

  /** next_question's verdict on an answered question: the multiple-choice
      key is upper-cased and sorted before the comparison; None when the
      comparison raises because a multiple-choice question has no key. */
  function Grade(kind: QType, user: string, key: Option<string>): Option<bool> {
    if kind == MultiChoice then
      if key.None? then None else Some(user == SortChars(UpperAscii(key.value)))
    else Some(key == Some(user))
  }

  /** The answer next_question reads: the selected letter for true/false and
      single-choice questions, the ticked letters for multiple choice. */
  function UserAnswer(kind: QType, choice: string, ticks: seq<bool>): string
    requires |ticks| == OptionCount
  {
    if kind == MultiChoice then TickedLetters(ticks, OptionCount) else choice
  }

  lemma {:induction false} UpperOfLetters(s: string)
    requires AllOptionLetters(s)
    ensures UpperAscii(s) == s
  {
  }

  lemma {:induction false} SameMembersNonEmpty(a: string, b: string)
    requires a != [] && forall x :: x in a <==> x in b
    ensures b != []
  {
    assert a[0] in a;
  }

  /** The first character of an ascending string is its least. */
  lemma {:induction false} AscendingMin(a: string, x: char)
    requires Ascending(a) && x in a
    ensures a[0] <= x
  {
    var i :| 0 <= i < |a| && a[i] == x;
    if i > 0 { assert a[0] < a[i]; }
  }

  /** An ascending string's tail holds its characters other than the first. */
  lemma {:induction false} AscendingTail(a: string, x: char)
    requires Ascending(a) && a != []
    ensures x in a[1..] <==> x in a && x != a[0]
  {
    if x in a[1..] {
      var k :| 0 <= k < |a[1..]| && a[1..][k] == x;
      assert a[0] < a[k + 1];
    }
    if x in a && x != a[0] {
      var m :| 0 <= m < |a| && a[m] == x;
      assert a[1..][m - 1] == x;
    }
  }

  /** Two ascending strings with the same characters are equal. */
  lemma {:induction false} AscendingSame(a: string, b: string)
    requires Ascending(a) && Ascending(b)
    requires forall x :: x in a <==> x in b
    ensures a == b
    decreases |a|
  {
    if a != [] { SameMembersNonEmpty(a, b); }
    if b != [] { SameMembersNonEmpty(b, a); }
    if a != [] {
      assert a[0] in a && b[0] in b;
      AscendingMin(a, b[0]);
      AscendingMin(b, a[0]);
      forall x ensures x in a[1..] <==> x in b[1..] {
        AscendingTail(a, x);
        AscendingTail(b, x);
      }
      assert Ascending(a[1..]) && Ascending(b[1..]) by {
        AscendingSuffix(a);
        AscendingSuffix(b);
      }
      AscendingSame(a[1..], b[1..]);
      assert a == [a[0]] + a[1..] && b == [b[0]] + b[1..];
    }
  }

  lemma {:induction false} AscendingSuffix(a: string)
    requires Ascending(a) && a != []
    ensures Ascending(a[1..])
  {
    forall i, j | 0 <= i < j < |a| - 1 ensures a[1..][i] < a[1..][j] {
      assert a[1..][i] == a[i + 1] && a[1..][j] == a[j + 1];
    }
  }

  /** With a key as the parser produces it, a multiple-choice answer counts
      as correct exactly when the key repeats no letter and the ticked boxes
      are the key's letters. */
  lemma {:induction false} GradeMultiChoice(ticks: seq<bool>, key: string)
    requires |ticks| == OptionCount
    requires Sorted(key) && AllOptionLetters(key)
    ensures Grade(MultiChoice, TickedLetters(ticks, OptionCount), Some(key)) == Some(true) <==>
      Ascending(key) && forall i :: 0 <= i < OptionCount ==> (ticks[i] <==> Letter(i) in key)
  {
    var user := TickedLetters(ticks, OptionCount);
    UpperOfLetters(key);
    SortSorted(key);
    TickedLettersShape(ticks, OptionCount);
    assert Grade(MultiChoice, user, Some(key)) == Some(user == key);
    if Ascending(key) && forall i :: 0 <= i < OptionCount ==> (ticks[i] <==> Letter(i) in key) {
      TickedSameLetters(ticks, key);
      AscendingSame(user, key);
    }
  }

  /** When the ticked boxes are exactly the key's letters, the ticked string
      and the key hold the same characters. */
  lemma {:induction false} TickedSameLetters(ticks: seq<bool>, key: string)
    requires |ticks| == OptionCount && AllOptionLetters(key)
    requires forall i :: 0 <= i < OptionCount ==> (ticks[i] <==> Letter(i) in key)
    ensures forall x :: x in TickedLetters(ticks, OptionCount) <==> x in key
  {
    var user := TickedLetters(ticks, OptionCount);
    TickedLettersShape(ticks, OptionCount);
    forall x ensures x in user <==> x in key {
      if x in user {
        var k :| 0 <= k < |user| && user[k] == x;
        assert x == Letter(x as int - 65);
      }
      if x in key {
        var k :| 0 <= k < |key| && key[k] == x;
        assert IsOptionLetter(key[k]);
        assert x == Letter(x as int - 65);
      }
    }
  }

  // ---------------------------------------------------------------------
  // Statistics

  /** One cell of the statistics: answered and correct counts. */
  datatype Tally = Tally(answered: nat, correct: nat)

  /** Per chapter, per question type. */
  type Stats = map<nat, map<QType, Tally>>

  /** A cell's counts, zero when the cell does not exist yet. */
  function CellOf(stats: Stats, c: nat, t: QType): Tally {
    if c in stats && t in stats[c] then stats[c][t] else Tally(0, 0)
  }

  /** update_stats on the cell of chapter c and type t. */
  function Recorded(stats: Stats, c: nat, t: QType, ok: bool): Stats {
    var inner: map<QType, Tally> := if c in stats then stats[c] else map[];
    var cell := CellOf(stats, c, t);
    stats[c := inner[t := Tally(cell.answered + 1, cell.correct + if ok then 1 else 0)]]
  }

  /** Recording an answer adds one answer, and one correct answer when it is
      right, to the one cell of that chapter and type; every other cell keeps
      its counts. */
  lemma {:induction false} RecordedCells(stats: Stats, c: nat, t: QType, ok: bool)
    ensures CellOf(Recorded(stats, c, t, ok), c, t).answered == CellOf(stats, c, t).answered + 1
    ensures CellOf(Recorded(stats, c, t, ok), c, t).correct == CellOf(stats, c, t).correct + if ok then 1 else 0
    ensures forall d: nat, u: QType :: (d, u) != (c, t) ==> CellOf(Recorded(stats, c, t, ok), d, u) == CellOf(stats, d, u)
  {
  }

  /** No cell counts more correct answers than answers. */
  predicate Consistent(stats: Stats) {
    forall c, t :: c in stats && t in stats[c] ==> stats[c][t].correct <= stats[c][t].answered
  }

  lemma {:induction false} RecordedConsistent(stats: Stats, c: nat, t: QType, ok: bool)
    requires Consistent(stats)
    ensures Consistent(Recorded(stats, c, t, ok))
  {
    var r: Stats := Recorded(stats, c, t, ok);
    forall d: nat, u: QType | d in r && u in r[d] ensures r[d][u].correct <= r[d][u].answered {
      if (d, u) != (c, t) {
        assert r[d][u] == CellOf(stats, d, u);
      }
    }
  }

  // ---------------------------------------------------------------------
  // The application

  datatype Screen = StartScreen | QuizScreen

  /** type_counts of a fresh chapter: zero for each of the three types. */
  const ZeroCounts: map<QType, nat> := map[TrueFalse := 0, SingleChoice := 0, MultiChoice := 0]

  lemma {:induction false} ZeroCountsTotal()
    ensures forall t: QType :: t in ZeroCounts && ZeroCounts[t] == 0
  {
    forall t: QType ensures t in ZeroCounts && ZeroCounts[t] == 0 {
      match t
      case TrueFalse =>
      case SingleChoice =>
      case MultiChoice =>
    }
  }

  const InitialWindowTitle: string := "QuizUp"
  const WindowPrefix: string := "题库复习 - "

  /** The dialog's answer: the next element, false once the answers run out
      (a closed dialog). */
  function Ask(answers: seq<bool>): (r: (bool, seq<bool>))
    ensures r.1 == if answers == [] then [] else answers[1..]
    ensures r.0 <==> answers != [] && answers[0]
  {
    if answers == [] then (false, []) else (answers[0], answers[1..])
  }

  predicate Suffix(rest: seq<bool>, answers: seq<bool>) {
    |rest| <= |answers| && rest == answers[|answers| - |rest|..]
  }

  lemma {:induction false} SuffixAfterAsk(rest: seq<bool>, answers: seq<bool>)
    requires Suffix(rest, Ask(answers).1)
    ensures Suffix(rest, answers)
  {
    if answers != [] {
      var after := answers[1..];
      assert after[|after| - |rest|..] == answers[|answers| - |rest|..];
    }
  }

  // ---------------------------------------------------------------------
  // Where show_chapter_question ends up

  /** The fields of the application that show_chapter_question and the
      handlers around it change. */
  datatype Session = Session(
    screen: Screen,
    currentChapterIndex: nat,
    shownQuestions: set<(nat, nat)>,
    answeredCounts: map<nat, nat>,
    stats: Stats,
    typeCounts: map<QType, nat>,
    currentQuestion: Option<Question>)

  /** answered_counts.get(c, 0) */
  function CountOf(counts: map<nat, nat>, c: nat): nat {
    if c in counts then counts[c] else 0
  }

  /** One more shown question of type t. */
  function Bumped(counts: map<QType, nat>, t: QType): map<QType, nat> {
    counts[t := (if t in counts then counts[t] else 0) + 1]
  }

  /** answered_counts after next_chapter has entered chapters lo to hi in
      turn: each of them is set to zero. */
  function ZeroedRange(counts: map<nat, nat>, lo: nat, hi: nat): map<nat, nat>
    decreases hi + 1 - lo
  {
    if lo > hi then counts else ZeroedRange(counts[lo := 0], lo + 1, hi)
  }

  /** The chapters lo to hi count zero answers, every other chapter keeps its count. */
  lemma {:induction false} ZeroedRangeCells(counts: map<nat, nat>, lo: nat, hi: nat)
    ensures forall k: nat :: k in ZeroedRange(counts, lo, hi) <==> k in counts || lo <= k <= hi
    ensures forall k: nat :: CountOf(ZeroedRange(counts, lo, hi), k) == if lo <= k <= hi then 0 else CountOf(counts, k)
    decreases hi + 1 - lo
  {
    if lo <= hi {
      ZeroedRangeCells(counts[lo := 0], lo + 1, hi);
    }
  }

  /** In session s, the current question is question i of chapter c, one not
      in `before`, and the shown set gained exactly that pair. */
  predicate Picked(s: Session, chapters: seq<seq<Question>>, c: nat, before: set<(nat, nat)>) {
    && s.currentChapterIndex == c < |chapters|
    && s.currentQuestion.Some?
    && exists i :: 0 <= i < |chapters[c]| && (c, i) !in before
         && s.shownQuestions == before + {(c, i)} && s.currentQuestion.value == chapters[c][i]
  }

  /** How the search for a question ends: at a chapter with a question not
      yet shown, on the start screen after a declined dialog, or with the
      restart after the last chapter. */
  datatype Landing = Fresh(chapter: nat) | Declined(chapter: nat) | Restarted

  /** show_chapter_question from chapter k of an open bank: a chapter whose
      questions were all shown opens a dialog, which takes the next answer;
      "yes" moves on to the next chapter (next_chapter), or restarts after
      the last one. Also gives the answers left over. */
  function Land(chapters: seq<seq<Question>>, k: nat, shown: set<(nat, nat)>, answers: seq<bool>): (r: (Landing, seq<bool>))
    requires k < |chapters|
    ensures !r.0.Restarted? ==> k <= r.0.chapter < |chapters|
    decreases |chapters| - k
  {
    if Available(|chapters[k]|, k, shown) != [] then (Fresh(k), answers)
    else if !Ask(answers).0 then (Declined(k), Ask(answers).1)
    else if k == |chapters| - 1 then (Restarted, Ask(answers).1)
    else Land(chapters, k + 1, shown, Ask(answers).1)
  }

  /** The last chapter the search looks at. */
  function Reached(chapters: seq<seq<Question>>, l: Landing): int {
    if l.Restarted? then |chapters| - 1 else l.chapter
  }

  /** The search passes only chapters whose questions were all shown, and
      stops at the first chapter with an unshown question unless a dialog
      is declined first or the last chapter is passed. */
  lemma {:induction false} LandVisits(chapters: seq<seq<Question>>, k: nat, shown: set<(nat, nat)>, answers: seq<bool>)
    requires k < |chapters|
    ensures var l := Land(chapters, k, shown, answers).0;
      var j := Reached(chapters, l);
      && k <= j < |chapters|
      && (forall m :: k <= m < j ==> Available(|chapters[m]|, m, shown) == [])
      && (l.Fresh? <==> Available(|chapters[j]|, j, shown) != [])
    decreases |chapters| - k
  {
    if Available(|chapters[k]|, k, shown) == [] && Ask(answers).0 && k != |chapters| - 1 {
      LandVisits(chapters, k + 1, shown, Ask(answers).1);
    }
  }

  /** Each chapter passed on the way took one "yes"; the search stops with
      the answers after those, and after one more for a dialog that
      declined or restarted (none when the answers ran out). */
  lemma {:induction false} LandConsumes(chapters: seq<seq<Question>>, k: nat, shown: set<(nat, nat)>, answers: seq<bool>)
    requires k < |chapters|
    ensures var (l, rest) := Land(chapters, k, shown, answers);
      var j := Reached(chapters, l);
      && k <= j && j - k <= |answers|
      && (forall m :: 0 <= m < j - k ==> answers[m])
      && (l.Fresh? ==> rest == answers[j - k..])
      && (l.Declined? ==> rest == answers[Min(j - k + 1, |answers|)..] && (j - k < |answers| ==> !answers[j - k]))
      && (l.Restarted? ==> j - k < |answers| && answers[j - k] && rest == answers[j - k + 1..])
    decreases |chapters| - k
  {
    if Available(|chapters[k]|, k, shown) == [] && Ask(answers).0 && k != |chapters| - 1 {
      LandConsumes(chapters, k + 1, shown, Ask(answers).1);
      var after := answers[1..];
      var j := Reached(chapters, Land(chapters, k + 1, shown, after).0);
      assert forall m :: 0 <= m < j - (k + 1) ==> after[m] == answers[m + 1];
      assert after[j - (k + 1)..] == answers[j - k..];
      if j - (k + 1) < |after| {
        assert after[j - (k + 1) + 1..] == answers[j - k + 1..];
      }
    }
  }

  /** The state `now` and the answers `rest` left over that
      show_chapter_question leaves when it starts from `s0` with the chapters
      of an open bank. Each chapter it passes on the way is entered as
      next_chapter enters it (its answered count at zero, the type counters
      reset); then
      - Fresh(k): one unshown question of chapter k is current and shown,
        and its type counted;
      - Declined(k): the start screen, in chapter k, with the current
        question, the shown set and the statistics as they were;
      - Restarted: a question of the first chapter, picked after the shown
        set, the type counters and the statistics were cleared. */
  predicate LandedAt(now: Session, chapters: seq<seq<Question>>, s0: Session, answers: seq<bool>, rest: seq<bool>) {
    && s0.currentChapterIndex < |chapters|
    && var lr := Land(chapters, s0.currentChapterIndex, s0.shownQuestions, answers);
       var l, j := lr.0, Reached(chapters, lr.0);
       var types := if j == s0.currentChapterIndex then s0.typeCounts else ZeroCounts;
       && rest == lr.1
       && 0 <= j
       && now.answeredCounts == ZeroedRange(s0.answeredCounts, s0.currentChapterIndex + 1, j)
       && (match l
           case Fresh(k) =>
             && Picked(now, chapters, k, s0.shownQuestions)
             && now.screen == s0.screen && now.stats == s0.stats
             && now.typeCounts == Bumped(types, now.currentQuestion.value.kind)
           case Declined(k) =>
             && now.screen == StartScreen && now.currentChapterIndex == k
             && now.shownQuestions == s0.shownQuestions && now.currentQuestion == s0.currentQuestion
             && now.stats == s0.stats && now.typeCounts == types
           case Restarted =>
             && Picked(now, chapters, 0, {})
             && now.screen == s0.screen && now.stats == map[]
             && now.typeCounts == Bumped(ZeroCounts, now.currentQuestion.value.kind))
  }

  /** show_chapter_question from `s0`: without an open bank holding chapters
      only the start screen comes back; otherwise LandedAt. */
  predicate AfterShow(now: Session, hasBank: bool, chapters: seq<seq<Question>>, s0: Session, answers: seq<bool>, rest: seq<bool>) {
    if !hasBank || chapters == [] then now == s0.(screen := StartScreen) && rest == answers
    else LandedAt(now, chapters, s0, answers, rest)
  }

  /** A chapter with an unshown question: the question is picked there and
      nothing else changes but its type's counter. */
  lemma {:induction false} LandedWhenFresh(now: Session, chapters: seq<seq<Question>>, s0: Session, answers: seq<bool>, rest: seq<bool>)
    requires s0.currentChapterIndex < |chapters|
    requires Available(|chapters[s0.currentChapterIndex]|, s0.currentChapterIndex, s0.shownQuestions) != []
    ensures LandedAt(now, chapters, s0, answers, rest) <==>
      && Picked(now, chapters, s0.currentChapterIndex, s0.shownQuestions)
      && now.screen == s0.screen && now.stats == s0.stats && now.answeredCounts == s0.answeredCounts
      && now.typeCounts == Bumped(s0.typeCounts, now.currentQuestion.value.kind)
      && rest == answers
  {
    var c := s0.currentChapterIndex;
    assert Land(chapters, c, s0.shownQuestions, answers) == (Fresh(c), answers);
    assert ZeroedRange(s0.answeredCounts, c + 1, c) == s0.answeredCounts;
  }

  /** A finished chapter whose dialog is declined: only the screen changes. */
  lemma {:induction false} LandedWhenDeclined(now: Session, chapters: seq<seq<Question>>, s0: Session, answers: seq<bool>, rest: seq<bool>)
    requires s0.currentChapterIndex < |chapters|
    requires Available(|chapters[s0.currentChapterIndex]|, s0.currentChapterIndex, s0.shownQuestions) == []
    requires !Ask(answers).0
    ensures LandedAt(now, chapters, s0, answers, rest) <==> now == s0.(screen := StartScreen) && rest == Ask(answers).1
  {
    var c := s0.currentChapterIndex;
    assert Land(chapters, c, s0.shownQuestions, answers) == (Declined(c), Ask(answers).1);
    assert ZeroedRange(s0.answeredCounts, c + 1, c) == s0.answeredCounts;
  }

  /** The last chapter finished and "start again" accepted: the statistics
      are cleared and a question of the first chapter is picked from
      scratch; the answered counts stay. */
  lemma {:induction false} LandedWhenRestarted(now: Session, chapters: seq<seq<Question>>, s0: Session, answers: seq<bool>, rest: seq<bool>)
    requires s0.currentChapterIndex == |chapters| - 1
    requires Available(|chapters[s0.currentChapterIndex]|, s0.currentChapterIndex, s0.shownQuestions) == []
    requires Ask(answers).0
    ensures LandedAt(now, chapters, s0, answers, rest) <==>
      && Picked(now, chapters, 0, {})
      && now.screen == s0.screen && now.stats == map[] && now.answeredCounts == s0.answeredCounts
      && now.typeCounts == Bumped(ZeroCounts, now.currentQuestion.value.kind)
      && rest == Ask(answers).1
  {
    var c := s0.currentChapterIndex;
    assert Land(chapters, c, s0.shownQuestions, answers) == (Restarted, Ask(answers).1);
    assert ZeroedRange(s0.answeredCounts, c + 1, c) == s0.answeredCounts;
  }

  /** The session once next_chapter has moved from s to the next chapter. */
  function Entered(s: Session): (r: Session)
    ensures r.currentChapterIndex == s.currentChapterIndex + 1
  {
    var c := s.currentChapterIndex + 1;
    s.(currentChapterIndex := c, typeCounts := ZeroCounts, answeredCounts := s.answeredCounts[c := 0])
  }

  /** The session once prev_chapter has moved from s back to the previous
      chapter, whose shown questions are forgotten. */
  function Retreated(s: Session): (r: Session)
    requires s.currentChapterIndex > 0
    ensures r.currentChapterIndex == s.currentChapterIndex - 1
    ensures forall q :: q in r.shownQuestions <==> q in s.shownQuestions && q.0 != r.currentChapterIndex
  {
    var c := s.currentChapterIndex - 1;
    s.(currentChapterIndex := c, typeCounts := ZeroCounts, answeredCounts := s.answeredCounts[c := 0],
       shownQuestions := DropChapter(s.shownQuestions, c))
  }

  /** A finished chapter before the last one with "next chapter" accepted:
      the search goes on from the next chapter, entered by next_chapter,
      with the remaining answers. */
  lemma {:induction false} LandedWhenAdvanced(now: Session, chapters: seq<seq<Question>>, s0: Session, answers: seq<bool>, rest: seq<bool>)
    requires s0.currentChapterIndex + 1 < |chapters|
    requires Available(|chapters[s0.currentChapterIndex]|, s0.currentChapterIndex, s0.shownQuestions) == []
    requires Ask(answers).0
    ensures LandedAt(now, chapters, s0, answers, rest) <==> LandedAt(now, chapters, Entered(s0), Ask(answers).1, rest)
  {
    var c := s0.currentChapterIndex;
    var after := Ask(answers).1;
    var lr := Land(chapters, c + 1, s0.shownQuestions, after);
    assert Land(chapters, c, s0.shownQuestions, answers) == lr;
    var j := Reached(chapters, lr.0);
    assert c + 1 <= j;
    assert ZeroedRange(s0.answeredCounts, c + 1, j) == ZeroedRange(s0.answeredCounts[c + 1 := 0], c + 2, j);
  }

  /** Whatever the search does, the answered counts of the chapter it started
      in and of every chapter before it are left as they were, and the
      statistics change only when it restarts, which clears them. */
  lemma {:induction false} LandedKeeps(now: Session, chapters: seq<seq<Question>>, s0: Session, answers: seq<bool>, rest: seq<bool>)
    requires LandedAt(now, chapters, s0, answers, rest)
    ensures forall k: nat :: k <= s0.currentChapterIndex ==>
      (k in now.answeredCounts <==> k in s0.answeredCounts) && CountOf(now.answeredCounts, k) == CountOf(s0.answeredCounts, k)
    ensures now.stats == s0.stats || (now.stats == map[] && Land(chapters, s0.currentChapterIndex, s0.shownQuestions, answers).0.Restarted?)
  {
    var lr := Land(chapters, s0.currentChapterIndex, s0.shownQuestions, answers);
    ZeroedRangeCells(s0.answeredCounts, s0.currentChapterIndex + 1, Reached(chapters, lr.0));
  }

  /** The session once next_question has counted the answer `user` to the
      current question: the chapter's answered count goes up, and a given
      answer is graded into the statistics. */
  function Answered(s: Session, user: string): Session
    requires s.currentQuestion.Some?
    requires user == [] || Grade(s.currentQuestion.value.kind, user, s.currentQuestion.value.answer).Some?
  {
    var q, c := s.currentQuestion.value, s.currentChapterIndex;
    s.(answeredCounts := s.answeredCounts[c := CountOf(s.answeredCounts, c) + 1],
       stats := if user == [] then s.stats else Recorded(s.stats, c, q.kind, Grade(q.kind, user, q.answer).value))
  }

  class QuizApp {
    var lastFile: string
    var recentFiles: seq<string>
    var windowTitle: string
    var screen: Screen
    /** question_bank is not None */
    var hasBank: bool
    /** question_bank.chapters and question_bank.title */
    var chapters: seq<seq<Question>>
    var bankTitle: string
    var currentChapterIndex: nat
    var shownQuestions: set<(nat, nat)>
    var answeredCounts: map<nat, nat>
    var stats: Stats
    var typeCounts: map<QType, nat>
    var currentQuestion: Option<Question>

    /** The session invariant: every chapter of the bank holds questions,
        the chapter index stays in range once a bank has chapters, no
        statistics cell counts more correct answers than answers, and every
        question type has a counter. */
    predicate Valid()
      reads this
    {
      && (forall c :: 0 <= c < |chapters| ==> chapters[c] != [])
      && (chapters != [] ==> currentChapterIndex < |chapters|)
      && Consistent(stats)
      && forall t: QType :: t in typeCounts
    }

    /** The fields the session handlers change. */
    function Snapshot(): Session
      reads this
    {
      Session(screen, currentChapterIndex, shownQuestions, answeredCounts, stats, typeCounts, currentQuestion)
    }

    /** The current chapter has a question not yet shown. */
    predicate FreshHere()
      reads this
    {
      && hasBank
      && currentChapterIndex < |chapters|
      && Available(|chapters[currentChapterIndex]|, currentChapterIndex, shownQuestions) != []
    }

    /** The current question is question i of chapter c, picked among those
        not in `before`, and the shown set gained exactly that pair. */
    predicate PickedFrom(c: nat, before: set<(nat, nat)>)
      reads this
    {
      Picked(Snapshot(), chapters, c, before)
    }

    /** The state start_quiz leaves once a bank with chapters is open: the
        window title names the bank, the quiz screen shows, statistics and
        counts are fresh, and one question of the first chapter is shown. */
    predicate SessionBegun()
      reads this
    {
      && windowTitle == WindowPrefix + bankTitle
      && screen == QuizScreen
      && stats == map[] && answeredCounts == map[0 := 0]
      && PickedFrom(0, {})
      && typeCounts == ZeroCounts[currentQuestion.value.kind := 1]
    }

    /** __init__: the configuration is loaded, no bank is open, the start
        screen shows. */
    constructor (saved: Option<Config>)
      ensures Valid()
      ensures lastFile == LoadedConfig(saved).lastFile && recentFiles == LoadedConfig(saved).recentFiles
      ensures windowTitle == InitialWindowTitle && screen == StartScreen
      ensures !hasBank && chapters == [] && currentQuestion.None?
      ensures currentChapterIndex == 0 && shownQuestions == {} && answeredCounts == map[]
      ensures stats == map[] && typeCounts == ZeroCounts
    {
      var config := LoadedConfig(saved);
      lastFile := config.lastFile;
      recentFiles := config.recentFiles;
      windowTitle := InitialWindowTitle;
      hasBank := false;
      chapters := [];
      bankTitle := [];
      answeredCounts := map[];
      stats := map[];
      currentQuestion := None;
      currentChapterIndex := 0;
      shownQuestions := {};
      typeCounts := ZeroCounts;
      ZeroCountsTotal();
      screen := StartScreen;
    }

    /** select_question_bank: `chosen` is the path the file dialog returned
        ("" when cancelled) and `file` that file's text. */
    method SelectQuestionBank(chosen: string, file: Option<string>, answers: seq<bool>) returns (rest: seq<bool>)
      requires Valid()
      modifies this
      ensures Valid() && Suffix(rest, answers)
      ensures chosen == [] ==> unchanged(this) && rest == answers
      ensures chosen != [] ==>
        && recentFiles == UpdatedRecent(old(recentFiles), chosen)
        && lastFile == chosen
        && hasBank
        && chapters == (if file.Some? then BankChapters(file.value) else [])
        && bankTitle == (if file.Some? then BankTitle(chosen, file.value) else DefaultTitle)
      ensures chosen != [] && chapters == [] ==>
        && Snapshot() == old(Snapshot()).(screen := StartScreen) && rest == answers
        && windowTitle == old(windowTitle)
      ensures chosen != [] && chapters != [] ==> SessionBegun() && rest == answers
    {
      rest := answers;
      if chosen != [] {
        recentFiles := UpdatedRecent(recentFiles, chosen);
        lastFile := chosen;
        rest := StartQuiz(chosen, file, answers);
      }
    }

    /** start_quiz: opens the bank at `path`, whose text is `file`, resets the
        session and shows the first question. */
    method StartQuiz(path: string, file: Option<string>, answers: seq<bool>) returns (rest: seq<bool>)
      requires Valid()
      modifies this`screen, this`currentQuestion, this`shownQuestions, this`typeCounts,
        this`currentChapterIndex, this`stats, this`answeredCounts,
        this`windowTitle, this`hasBank, this`chapters, this`bankTitle
      ensures Valid() && Suffix(rest, answers)
      ensures path == [] ==>
        && Snapshot() == old(Snapshot()).(screen := StartScreen) && rest == answers
        && hasBank == old(hasBank) && chapters == old(chapters) && bankTitle == old(bankTitle)
        && windowTitle == old(windowTitle)
      ensures path != [] ==>
        && hasBank
        && chapters == (if file.Some? then BankChapters(file.value) else [])
        && bankTitle == (if file.Some? then BankTitle(path, file.value) else DefaultTitle)
      ensures path != [] && chapters == [] ==>
        && Snapshot() == old(Snapshot()).(screen := StartScreen) && rest == answers
        && windowTitle == old(windowTitle)
      ensures path != [] && chapters != [] ==> SessionBegun() && rest == answers
    {
      rest := answers;
      if path == [] {
        screen := StartScreen;
        return;
      }
      var ok := OpenBank(path, file);
      if !ok {
        screen := StartScreen;
        return;
      }
      rest := BeginSession(answers);
    }

    /** The rest of start_quiz once the bank holds chapters: the session is
        reset, the window title names the bank, the quiz screen replaces the
        start screen and a first question is shown. */
    method BeginSession(answers: seq<bool>) returns (rest: seq<bool>)
      requires Consistent(stats) && forall t: QType :: t in typeCounts
      requires hasBank && chapters != [] && forall c :: 0 <= c < |chapters| ==> chapters[c] != []
      modifies this`screen, this`currentQuestion, this`shownQuestions, this`typeCounts,
        this`currentChapterIndex, this`stats, this`answeredCounts, this`windowTitle
      ensures Valid()
      ensures SessionBegun() && rest == answers
    {
      PrepareSession();
      ghost var prepared := Snapshot();
      rest := ShowChapterQuestion(answers);
      LandedWhenFresh(Snapshot(), chapters, prepared, answers, rest);
      ZeroCountsTotal();
    }

    /** The moves of start_quiz before it shows a question. */
    method PrepareSession()
      requires Consistent(stats) && forall t: QType :: t in typeCounts
      requires hasBank && chapters != [] && forall c :: 0 <= c < |chapters| ==> chapters[c] != []
      modifies this`shownQuestions, this`typeCounts, this`currentChapterIndex, this`stats,
        this`answeredCounts, this`windowTitle, this`screen
      ensures Valid() && FreshHere()
      ensures currentChapterIndex == 0 && shownQuestions == {} && typeCounts == ZeroCounts
      ensures stats == map[] && answeredCounts == map[0 := 0]
      ensures windowTitle == WindowPrefix + bankTitle && screen == QuizScreen
    {
      ResetSession();
      windowTitle := WindowPrefix + bankTitle;
      screen := QuizScreen;
      AvailableMembers(|chapters[0]|, 0, {});
      assert 0 in Available(|chapters[0]|, 0, {});
    }

    /** The loading step of start_quiz: a new QuestionBank replaces the old
        one and loads the file; ok when it holds any chapter. */
    method OpenBank(path: string, file: Option<string>) returns (ok: bool)
      modifies this`hasBank, this`chapters, this`bankTitle
      ensures hasBank && ok == (chapters != [])
      ensures chapters == (if file.Some? then BankChapters(file.value) else [])
      ensures bankTitle == (if file.Some? then BankTitle(path, file.value) else DefaultTitle)
      ensures forall c :: 0 <= c < |chapters| ==> chapters[c] != []
    {
      var bank := new QuestionBank(None, None);
      ok := bank.LoadQuestionBank(path, file);
      hasBank := true;
      chapters := bank.chapters;
      bankTitle := bank.title;
      if file.Some? {
        LoadedChaptersEachNonEmpty(FindChapters(BankBody(file.value), 0));
      }
    }

    /** The reset of start_quiz: first chapter, nothing shown, counters,
        statistics and answered counts cleared, the first chapter's count
        at zero. */
    method ResetSession()
      requires chapters != [] && forall c :: 0 <= c < |chapters| ==> chapters[c] != []
      modifies this`currentChapterIndex, this`shownQuestions, this`typeCounts, this`stats, this`answeredCounts
      ensures Valid()
      ensures currentChapterIndex == 0 && shownQuestions == {} && typeCounts == ZeroCounts
      ensures stats == map[] && answeredCounts == map[0 := 0]
    {
      currentChapterIndex := 0;
      shownQuestions := {};
      typeCounts := ZeroCounts;
      ZeroCountsTotal();
      stats := map[];
      answeredCounts := map[];
      if chapters != [] {
        answeredCounts := answeredCounts[0 := 0];
      }
    }

    /** The reset of the "start again" choice: first chapter, nothing shown,
        counters and statistics cleared. */
    method RestartSession()
      requires Valid()
      modifies this`currentChapterIndex, this`shownQuestions, this`typeCounts, this`stats
      ensures Valid()
      ensures currentChapterIndex == 0 && shownQuestions == {} && typeCounts == ZeroCounts && stats == map[]
    {
      currentChapterIndex := 0;
      shownQuestions := {};
      typeCounts := ZeroCounts;
      ZeroCountsTotal();
      stats := map[];
    }

    /** The end of show_chapter_question: one of the available questions of
        the current chapter becomes the current question and is recorded as
        shown, and its type's counter goes up. */
    method PickQuestion(available: seq<nat>)
      requires Valid() && hasBank && currentChapterIndex < |chapters|
      requires available == Available(|chapters[currentChapterIndex]|, currentChapterIndex, shownQuestions)
      requires available != []
      modifies this`currentQuestion, this`shownQuestions, this`typeCounts
      ensures Valid()
      ensures PickedFrom(old(currentChapterIndex), old(shownQuestions))
      ensures typeCounts == Bumped(old(typeCounts), currentQuestion.value.kind)
      ensures screen == old(screen) && stats == old(stats) && answeredCounts == old(answeredCounts)
    {
      var c := currentChapterIndex;
      AvailableMembers(|chapters[c]|, c, shownQuestions);
      assert available[0] in available;
      var i :| i in available;
      var q := chapters[c][i];
      currentQuestion := Some(q);
      shownQuestions := shownQuestions + {(c, i)};
      typeCounts := typeCounts[q.kind := typeCounts[q.kind] + 1];
    }

    /** show_chapter_question. `answers` are the answers to the dialogs it
        opens, in order; the unused ones are returned. */
    method ShowChapterQuestion(answers: seq<bool>) returns (rest: seq<bool>)
      requires Valid()
      modifies this`screen, this`currentQuestion, this`shownQuestions, this`typeCounts,
        this`currentChapterIndex, this`stats, this`answeredCounts
      ensures Valid() && Suffix(rest, answers)
      ensures AfterShow(Snapshot(), hasBank, chapters, old(Snapshot()), answers, rest)
      decreases |shownQuestions|, |chapters| - currentChapterIndex, 3
    {
      rest := answers;
      if !hasBank || chapters == [] {
        screen := StartScreen;
        return;
      }
      var c := currentChapterIndex;
      var available := Available(|chapters[c]|, c, shownQuestions);
      if available == [] {
        rest := ChapterDone(answers);
        return;
      }
      PickQuestion(available);
      LandedWhenFresh(Snapshot(), chapters, old(Snapshot()), answers, rest);
    }

    /** The branch of show_chapter_question for a chapter whose questions
        have all been shown: the dialog offers the next chapter, or a fresh
        start after the last chapter; declining returns to the start screen. */
    method ChapterDone(answers: seq<bool>) returns (rest: seq<bool>)
      requires Valid() && hasBank && currentChapterIndex < |chapters|
      requires Available(|chapters[currentChapterIndex]|, currentChapterIndex, shownQuestions) == []
      modifies this`screen, this`currentQuestion, this`shownQuestions, this`typeCounts,
        this`currentChapterIndex, this`stats, this`answeredCounts
      ensures Valid() && Suffix(rest, answers)
      ensures LandedAt(Snapshot(), chapters, old(Snapshot()), answers, rest)
      decreases |shownQuestions|, |chapters| - currentChapterIndex, 2
    {
      var c := currentChapterIndex;
      var yes, after := Ask(answers).0, Ask(answers).1;
      if yes && c >= |chapters| - 1 {
        rest := RestartAfterLast(answers);
      } else if yes {
        rest := NextChapter(after);
        LandedWhenAdvanced(Snapshot(), chapters, old(Snapshot()), answers, rest);
      } else {
        rest := after;
        screen := StartScreen;
        LandedWhenDeclined(Snapshot(), chapters, old(Snapshot()), answers, rest);
      }
      SuffixAfterAsk(rest, answers);
    }

    /** The last chapter is finished and "start again" was accepted. */
    method RestartAfterLast(answers: seq<bool>) returns (rest: seq<bool>)
      requires Valid() && hasBank && currentChapterIndex == |chapters| - 1
      requires Available(|chapters[currentChapterIndex]|, currentChapterIndex, shownQuestions) == []
      requires Ask(answers).0
      modifies this`screen, this`currentQuestion, this`shownQuestions, this`typeCounts,
        this`currentChapterIndex, this`stats, this`answeredCounts
      ensures Valid() && rest == Ask(answers).1
      ensures LandedAt(Snapshot(), chapters, old(Snapshot()), answers, rest)
      decreases |shownQuestions|, |chapters| - currentChapterIndex, 1
    {
      var c := currentChapterIndex;
      AvailableMembers(|chapters[c]|, c, shownQuestions);
      assert (c, 0) in shownQuestions;
      rest := StartOver(Ask(answers).1);
      LandedWhenRestarted(Snapshot(), chapters, old(Snapshot()), answers, rest);
    }

    /** "Start again" after the last chapter: the session restarts at the
        first chapter with nothing shown and a question is shown there. */
    method StartOver(answers: seq<bool>) returns (rest: seq<bool>)
      requires Valid() && shownQuestions != {}
      modifies this`screen, this`currentQuestion, this`shownQuestions, this`typeCounts,
        this`currentChapterIndex, this`stats, this`answeredCounts
      ensures Valid() && Suffix(rest, answers)
      ensures hasBank && chapters != [] ==>
        && PickedFrom(0, {})
        && stats == map[] && typeCounts == Bumped(ZeroCounts, currentQuestion.value.kind)
        && answeredCounts == old(answeredCounts) && screen == old(screen)
        && rest == answers
      decreases |shownQuestions|, 0, 0
    {
      RestartSession();
      ghost var cleared := Snapshot();
      if hasBank && chapters != [] {
        AvailableMembers(|chapters[0]|, 0, {});
        assert 0 in Available(|chapters[0]|, 0, {});
      }
      rest := ShowChapterQuestion(answers);
      if hasBank && chapters != [] {
        LandedWhenFresh(Snapshot(), chapters, cleared, answers, rest);
      }
    }

    /** The moves of next_chapter before it shows a question. */
    method AdvanceChapter()
      requires Valid() && currentChapterIndex + 1 < |chapters|
      modifies this`currentChapterIndex, this`typeCounts, this`answeredCounts
      ensures Valid()
      ensures currentChapterIndex == old(currentChapterIndex) + 1
      ensures typeCounts == ZeroCounts && answeredCounts == old(answeredCounts)[currentChapterIndex := 0]
    {
      currentChapterIndex := currentChapterIndex + 1;
      typeCounts := ZeroCounts;
      ZeroCountsTotal();
      answeredCounts := answeredCounts[currentChapterIndex := 0];
    }

    /** next_chapter: moves one chapter on, unless at the last one, and shows
        a question there. */
    method NextChapter(answers: seq<bool>) returns (rest: seq<bool>)
      requires Valid() && hasBank
      modifies this`screen, this`currentQuestion, this`shownQuestions, this`typeCounts,
        this`currentChapterIndex, this`stats, this`answeredCounts
      ensures Valid() && Suffix(rest, answers)
      ensures old(currentChapterIndex + 1 >= |chapters|) ==> unchanged(this) && rest == answers
      ensures old(currentChapterIndex + 1 < |chapters|) ==>
        LandedAt(Snapshot(), chapters, Entered(old(Snapshot())), answers, rest)
      decreases |shownQuestions|, |chapters| - currentChapterIndex, 0
    {
      rest := answers;
      if currentChapterIndex + 1 < |chapters| {
        AdvanceChapter();
        assert Snapshot() == Entered(old(Snapshot()));
        rest := ShowChapterQuestion(answers);
      }
    }

    /** The moves of prev_chapter before it shows a question: one chapter
        back, whose shown questions are forgotten. */
    method RetreatChapter()
      requires Valid() && currentChapterIndex > 0
      modifies this`currentChapterIndex, this`typeCounts, this`answeredCounts, this`shownQuestions
      ensures Valid()
      ensures currentChapterIndex == old(currentChapterIndex) - 1
      ensures typeCounts == ZeroCounts && answeredCounts == old(answeredCounts)[currentChapterIndex := 0]
      ensures shownQuestions == DropChapter(old(shownQuestions), currentChapterIndex)
    {
      currentChapterIndex := currentChapterIndex - 1;
      typeCounts := ZeroCounts;
      ZeroCountsTotal();
      answeredCounts := answeredCounts[currentChapterIndex := 0];
      shownQuestions := DropChapter(shownQuestions, currentChapterIndex);
    }

    /** prev_chapter: moves one chapter back, unless at the first one, and
        starts that chapter over. */
    method PrevChapter(answers: seq<bool>) returns (rest: seq<bool>)
      requires Valid()
      modifies this`screen, this`currentQuestion, this`shownQuestions, this`typeCounts,
        this`currentChapterIndex, this`stats, this`answeredCounts
      ensures Valid() && Suffix(rest, answers)
      ensures old(currentChapterIndex) == 0 ==> unchanged(this) && rest == answers
      ensures old(currentChapterIndex) > 0 ==>
        AfterShow(Snapshot(), hasBank, chapters, Retreated(old(Snapshot())), answers, rest)
      ensures old(currentChapterIndex) > 0 && hasBank && chapters != [] ==>
        && PickedFrom(old(currentChapterIndex) - 1, DropChapter(old(shownQuestions), old(currentChapterIndex) - 1))
        && answeredCounts == old(answeredCounts)[currentChapterIndex := 0]
        && typeCounts == Bumped(ZeroCounts, currentQuestion.value.kind)
        && stats == old(stats) && screen == old(screen) && rest == answers
    {
      rest := answers;
      if currentChapterIndex > 0 {
        RetreatChapter();
        ghost var back := Snapshot();
        assert back == Retreated(old(Snapshot()));
        if chapters != [] {
          var c := currentChapterIndex;
          assert Available(|chapters[c]|, c, shownQuestions) != [] by {
            AvailableAfterDrop(|chapters[c]|, c, old(shownQuestions));
          }
        }
        rest := ShowChapterQuestion(answers);
        if hasBank && chapters != [] {
          LandedWhenFresh(Snapshot(), chapters, back, answers, rest);
        }
      }
    }

    /** get_multi_answer: the letters of the ticked boxes, sorted. */
    method GetMultiAnswer(ticks: seq<bool>) returns (answer: string)
      requires |ticks| == OptionCount
      ensures answer == TickedLetters(ticks, OptionCount)
    {
      answer := "";
      var i := 0;
      while i < |ticks|
        invariant i <= |ticks|
        invariant answer == TickedLetters(ticks, i)
      {
        if ticks[i] {
          answer := answer + [(65 + i) as char];
        }
        i := i + 1;
      }
      TickedLettersShape(ticks, OptionCount);
      SortSorted(answer);
      answer := SortChars(answer);
    }

    /** update_stats: one more answer, and one more correct one when right,
        in the cell of the current chapter and the current question's type. */
    method UpdateStats(isCorrect: bool)
      requires Valid()
      modifies this`stats
      ensures Valid()
      ensures currentQuestion.None? ==> stats == old(stats)
      ensures currentQuestion.Some? ==>
        stats == Recorded(old(stats), currentChapterIndex, currentQuestion.value.kind, isCorrect)
    {
      if currentQuestion.None? {
        return;
      }
      RecordedConsistent(stats, currentChapterIndex, currentQuestion.value.kind, isCorrect);
      stats := Recorded(stats, currentChapterIndex, currentQuestion.value.kind, isCorrect);
    }

    /** The bookkeeping of next_question before the next question shows:
        an answer is graded and counted in the statistics, and the chapter's
        answered count goes up whether or not an answer was given. It
        reports false when grading raises and the handler stops. */
    method RecordAnswer(user: string) returns (proceed: bool)
      requires Valid() && currentQuestion.Some?
      modifies this`stats, this`answeredCounts
      ensures Valid()
      ensures var verdict := Grade(old(currentQuestion).value.kind, user, old(currentQuestion).value.answer);
        proceed <==> user == [] || verdict.Some?
      ensures !proceed ==> unchanged(this)
      ensures proceed ==> (
        var q, c := old(currentQuestion).value, old(currentChapterIndex);
        && answeredCounts == old(answeredCounts)[c := CountOf(old(answeredCounts), c) + 1]
        && stats == (if user == [] then old(stats) else Recorded(old(stats), c, q.kind, Grade(q.kind, user, q.answer).value)))
    {
      var q := currentQuestion.value;
      var completed := currentChapterIndex;
      if user != [] {
        var verdict := Grade(q.kind, user, q.answer);
        if verdict.None? {
          return false;
        }
        UpdateStats(verdict.value);
      }
      answeredCounts := answeredCounts[completed := CountOf(answeredCounts, completed) + 1];
      return true;
    }

    /** The graded part of next_question: `user` is the answer read from the
        widgets; an answer that cannot be graded leaves everything as it was,
        otherwise the answer is counted and the next question is shown. */
    method AnswerCurrent(user: string, answers: seq<bool>) returns (rest: seq<bool>)
      requires Valid() && currentQuestion.Some?
      modifies this`screen, this`currentQuestion, this`shownQuestions, this`typeCounts,
        this`currentChapterIndex, this`stats, this`answeredCounts
      ensures Valid() && Suffix(rest, answers)
      ensures var q := old(currentQuestion).value;
        user != [] && Grade(q.kind, user, q.answer).None? ==> unchanged(this) && rest == answers
      ensures var q := old(currentQuestion).value;
        user == [] || Grade(q.kind, user, q.answer).Some? ==>
          AfterShow(Snapshot(), hasBank, chapters, Answered(old(Snapshot()), user), answers, rest)
      ensures var q, c := old(currentQuestion).value, old(currentChapterIndex);
        user == [] || Grade(q.kind, user, q.answer).Some? ==>
          && CountOf(answeredCounts, c) == CountOf(old(answeredCounts), c) + 1
          && (stats == Answered(old(Snapshot()), user).stats || stats == map[])
    {
      var proceed := RecordAnswer(user);
      rest := answers;
      if proceed {
        ghost var counted := Snapshot();
        assert counted == Answered(old(Snapshot()), user);
        rest := ShowChapterQuestion(answers);
        if hasBank && chapters != [] {
          LandedKeeps(Snapshot(), chapters, counted, answers, rest);
        }
      }
    }

    /** next_question: `choice` is the selected true/false or single-choice
        letter ("" when none) and `ticks` the four multiple-choice boxes. */
    method NextQuestion(choice: string, ticks: seq<bool>, answers: seq<bool>) returns (rest: seq<bool>)
      requires Valid() && |ticks| == OptionCount
      modifies this`screen, this`currentQuestion, this`shownQuestions, this`typeCounts,
        this`currentChapterIndex, this`stats, this`answeredCounts
      ensures Valid() && Suffix(rest, answers)
      ensures old(currentQuestion).None? ==> AfterShow(Snapshot(), hasBank, chapters, old(Snapshot()), answers, rest)
      ensures old(currentQuestion).Some? ==> (
        var q := old(currentQuestion).value;
        var user := UserAnswer(q.kind, choice, ticks);
        && (user != [] && Grade(q.kind, user, q.answer).None? ==> unchanged(this) && rest == answers)
        && (user == [] || Grade(q.kind, user, q.answer).Some? ==>
             && AfterShow(Snapshot(), hasBank, chapters, Answered(old(Snapshot()), user), answers, rest)
             && CountOf(answeredCounts, old(currentChapterIndex)) == CountOf(old(answeredCounts), old(currentChapterIndex)) + 1))
    {
      if currentQuestion.None? {
        rest := ShowChapterQuestion(answers);
        return;
      }
      var user := choice;
      if currentQuestion.value.kind == MultiChoice {
        user := GetMultiAnswer(ticks);
      }
      rest := AnswerCurrent(user, answers);
    }
  }
}
