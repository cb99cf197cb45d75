// String primitives used by the question-bank parser and the quiz session:
// Python's notion of whitespace, str.strip, re.sub(r"\s+", " ", ...),
// str.split("\n") / "\n".join, sorted() on characters, str.replace,
// os.path.basename and os.path.splitext, written out over seq<char>.

module Text {

  /** Python's str.isspace (and the `\s` class of `re` on str patterns). */
  predicate IsSpace(c: char) {
    || c == ' ' || c == '\t' || c == '\n' || c == '\r'
    || c == '\U{000B}' || c == '\U{000C}'
    || ('\U{001C}' <= c <= '\U{001F}')
    || c == '\U{0085}' || c == '\U{00A0}' || c == '\U{1680}'
    || ('\U{2000}' <= c <= '\U{200A}')
    || c == '\U{2028}' || c == '\U{2029}' || c == '\U{202F}' || c == '\U{205F}'
    || c == '\U{3000}'
  }

  predicate AllSpace(s: string) {
    forall i :: 0 <= i < |s| ==> IsSpace(s[i])
  }

  /** End of the maximal run of whitespace starting at i (what a greedy `\s*` consumes). */
  function SpaceRunEnd(s: string, i: nat): (j: nat)
    requires i <= |s|
    ensures i <= j <= |s|
    ensures j == |s| || !IsSpace(s[j])
    decreases |s| - i
  {
    if i < |s| && IsSpace(s[i]) then SpaceRunEnd(s, i + 1) else i
  }

  /** Everything the run passes over is whitespace. */
  lemma {:induction false} SpaceRunAll(s: string, i: nat)
    requires i <= |s|
    ensures forall k :: i <= k < SpaceRunEnd(s, i) ==> IsSpace(s[k])
    decreases |s| - i
  {
    if i < |s| && IsSpace(s[i]) {
      SpaceRunAll(s, i + 1);
    }
  }

  /** The characters of s that are not whitespace, in order. */
  function NonSpace(s: string): string {
    if s == [] then []
    else if IsSpace(s[0]) then NonSpace(s[1..])
    else [s[0]] + NonSpace(s[1..])
  }

  lemma {:induction false} NonSpaceAppend(a: string, b: string)
    ensures NonSpace(a + b) == NonSpace(a) + NonSpace(b)
  {
    if a == [] {
      assert a + b == b;
    } else {
      assert (a + b)[1..] == a[1..] + b;
      NonSpaceAppend(a[1..], b);
    }
  }

  lemma {:induction false} NonSpaceOfSpaces(s: string)
    requires AllSpace(s)
    ensures NonSpace(s) == []
  {
    if s != [] {
      NonSpaceOfSpaces(s[1..]);
    }
  }

  /** The head and tail of a sequence built by prepending one element. */
  lemma {:induction false} ConsTail<T>(x: T, r: seq<T>)
    ensures ([x] + r)[0] == x && ([x] + r)[1..] == r
  {
  }

  /** Concatenation is associative (stated for any element type, so that
      proofs about lists of strings need not look inside the strings). */
  lemma {:induction false} AppendAssoc<T>(a: seq<T>, b: seq<T>, c: seq<T>)
    ensures (a + b) + c == a + (b + c)
  {
  }

  // ---------------------------------------------------------------------
  // str.strip()

  /** str.lstrip(): the text after the leading whitespace. */
  function TrimStart(s: string): string {
    s[SpaceRunEnd(s, 0)..]
  }

  /** str.rstrip(): the text before the trailing whitespace. */
  function TrimEnd(s: string): string {
    if s != [] && IsSpace(s[|s| - 1]) then TrimEnd(s[..|s| - 1]) else s
  }

  /** TrimStart removes a prefix of whitespace, and all of it. */
  lemma {:induction false} TrimStartShape(s: string)
    ensures |TrimStart(s)| <= |s| && TrimStart(s) == s[|s| - |TrimStart(s)|..]
    ensures forall k :: 0 <= k < |s| - |TrimStart(s)| ==> IsSpace(s[k])
    ensures TrimStart(s) != [] ==> !IsSpace(TrimStart(s)[0])
  {
    SpaceRunAll(s, 0);
  }

  /** TrimEnd removes a suffix of whitespace, and all of it. */
  lemma {:induction false} TrimEndShape(s: string)
    ensures |TrimEnd(s)| <= |s| && TrimEnd(s) == s[..|TrimEnd(s)|]
    ensures forall k :: |TrimEnd(s)| <= k < |s| ==> IsSpace(s[k])
    ensures TrimEnd(s) != [] ==> !IsSpace(TrimEnd(s)[|TrimEnd(s)| - 1])
  {
    if s != [] && IsSpace(s[|s| - 1]) {
      var init := s[..|s| - 1];
      TrimEndShape(init);
      var r := TrimEnd(init);
      assert r == s[..|r|];
    }
  }

  /** Python's str.strip() with no argument. */
  function Strip(s: string): string {
    TrimEnd(TrimStart(s))
  }

  /** Stripping a string that has no whitespace at either end changes nothing. */
  lemma {:induction false} StripTrimmed(s: string)
    requires s != [] ==> !IsSpace(s[0]) && !IsSpace(s[|s| - 1])
    ensures Strip(s) == s
  {
    assert TrimStart(s) == s;
  }

  /** A string whose first character is not whitespace strips to a non-empty
      string with the same first character. */
  lemma {:induction false} StripKeepsLeadingChar(s: string)
    requires s != [] && !IsSpace(s[0])
    ensures Strip(s) != [] && Strip(s)[0] == s[0]
  {
    assert TrimStart(s) == s;
    TrimEndShape(s);
  }

  // ---------------------------------------------------------------------
  // re.sub(r"\s+", " ", s) and the ".strip()" that always follows it

  /** Every maximal run of whitespace replaced by one ASCII space. */
  function Collapse(s: string): (r: string)
    ensures (r == []) == (s == [])
    decreases |s|
  {
    if s == [] then []
    else if IsSpace(s[0]) then " " + Collapse(s[SpaceRunEnd(s, 0)..])
    else [s[0]] + Collapse(s[1..])
  }

  /** Collapsing leaves one ASCII space for each whitespace run, so no two
      whitespace characters stand together, and keeps the kind (whitespace
      or not) of the first and of the last character. */
  lemma {:induction false} CollapseShape(s: string)
    ensures Collapse(s) != [] ==> IsSpace(Collapse(s)[0]) == IsSpace(s[0])
    ensures Collapse(s) != [] ==> IsSpace(Collapse(s)[|Collapse(s)| - 1]) == IsSpace(s[|s| - 1])
    ensures OnlyAsciiSpaces(Collapse(s)) && NoSpaceRuns(Collapse(s))
    decreases |s|
  {
    if s == [] {
    } else if IsSpace(s[0]) {
      var rest := s[SpaceRunEnd(s, 0)..];
      CollapseShape(rest);
      var t := Collapse(rest);
      PrependSpacing(' ', t);
      if t == [] {
        SpaceRunAll(s, 0);
        assert IsSpace(s[|s| - 1]);
      } else {
        LastOfPrepend(' ', t);
        assert rest[|rest| - 1] == s[|s| - 1];
      }
    } else {
      CollapseShape(s[1..]);
      var t := Collapse(s[1..]);
      PrependSpacing(s[0], t);
      if t != [] {
        LastOfPrepend(s[0], t);
        assert s[1..][|s| - 2] == s[|s| - 1];
      }
    }
  }

  /** Putting a character in front of text with single ASCII spaces keeps
      it so, unless a whitespace character meets another. */
  lemma {:induction false} PrependSpacing(c: char, x: string)
    requires OnlyAsciiSpaces(x) && NoSpaceRuns(x)
    requires IsSpace(c) ==> c == ' ' && (x == [] || !IsSpace(x[0]))
    ensures OnlyAsciiSpaces([c] + x) && NoSpaceRuns([c] + x)
  {
    var r := [c] + x;
    forall i | 0 <= i < |r| && IsSpace(r[i]) ensures r[i] == ' ' {
      if i > 0 { assert r[i] == x[i - 1]; }
    }
    forall i | 0 <= i < |r| - 1 ensures !(IsSpace(r[i]) && IsSpace(r[i + 1])) {
      if i > 0 { assert r[i] == x[i - 1] && r[i + 1] == x[i]; }
    }
  }

  lemma {:induction false} LastOfPrepend(c: char, x: string)
    requires x != []
    ensures ([c] + x)[|x|] == x[|x| - 1]
  {
  }

  /** Collapsing changes only whitespace: the non-whitespace characters and
      the words stay as they were. */
  lemma {:induction false} CollapseKeepsNonSpace(s: string)
    ensures NonSpace(Collapse(s)) == NonSpace(s)
    ensures Words(Collapse(s)) == Words(s)
    decreases |s|
  {
    CollapseKeepsWords(s);
    if s == [] {
    } else if IsSpace(s[0]) {
      var e := SpaceRunEnd(s, 0);
      SpaceRunAll(s, 0);
      CollapseKeepsNonSpace(s[e..]);
      NonSpaceAppend(" ", Collapse(s[e..]));
      assert s == s[..e] + s[e..];
      NonSpaceAppend(s[..e], s[e..]);
      NonSpaceOfSpaces(s[..e]);
    } else {
      CollapseKeepsNonSpace(s[1..]);
      assert [s[0]] + Collapse(s[1..]) == Collapse(s);
      NonSpaceAppend([s[0]], Collapse(s[1..]));
    }
  }

  /** Every whitespace character is an ASCII space. */
  predicate OnlyAsciiSpaces(s: string) {
    forall i :: 0 <= i < |s| && IsSpace(s[i]) ==> s[i] == ' '
  }

  /** No two whitespace characters in a row. */
  predicate NoSpaceRuns(s: string) {
    forall i :: 0 <= i < |s| - 1 ==> !(IsSpace(s[i]) && IsSpace(s[i + 1]))
  }

  /** Text as re.sub(r"\s+", " ", text).strip() leaves it: no whitespace at the
      ends, no two whitespace characters in a row, and only ASCII spaces. */
  predicate IsNormal(s: string) {
    && (s != [] ==> !IsSpace(s[0]) && !IsSpace(s[|s| - 1]))
    && OnlyAsciiSpaces(s)
    && NoSpaceRuns(s)
  }

  /** re.sub(r"\s+", " ", s).strip() */
  function Normalize(s: string): string {
    Strip(Collapse(s))
  }

  lemma {:induction false} SliceKeepsSpacing(c: string, i: nat, j: nat)
    requires i <= j <= |c| && OnlyAsciiSpaces(c) && NoSpaceRuns(c)
    ensures OnlyAsciiSpaces(c[i..j]) && NoSpaceRuns(c[i..j])
  {
    var r := c[i..j];
    forall k | 0 <= k < |r| - 1 ensures !(IsSpace(r[k]) && IsSpace(r[k + 1])) {
      assert r[k] == c[i + k] && r[k + 1] == c[i + k + 1];
    }
  }

  lemma {:induction false} TrimStartKeepsNonSpace(s: string)
    ensures NonSpace(TrimStart(s)) == NonSpace(s)
  {
    var e := SpaceRunEnd(s, 0);
    SpaceRunAll(s, 0);
    assert s == s[..e] + s[e..];
    NonSpaceAppend(s[..e], s[e..]);
    NonSpaceOfSpaces(s[..e]);
  }

  lemma {:induction false} TrimEndKeepsNonSpace(s: string)
    ensures NonSpace(TrimEnd(s)) == NonSpace(s)
  {
    if s != [] && IsSpace(s[|s| - 1]) {
      var init := s[..|s| - 1];
      TrimEndKeepsNonSpace(init);
      assert s == init + [s[|s| - 1]];
      NonSpaceAppend(init, [s[|s| - 1]]);
    }
  }

  /** Stripping removes only whitespace. */
  lemma {:induction false} StripKeepsNonSpace(s: string)
    ensures NonSpace(Strip(s)) == NonSpace(s)
  {
    TrimStartKeepsNonSpace(s);
    TrimEndKeepsNonSpace(TrimStart(s));
  }

  /** Normalized text is normal. */
  lemma {:induction false} NormalizeIsNormal(s: string)
    ensures IsNormal(Normalize(s))
  {
    var c := Collapse(s);
    var t := TrimStart(c);
    var r := TrimEnd(t);
    CollapseShape(s);
    TrimStartShape(c);
    TrimEndShape(t);
    SliceKeepsSpacing(c, |c| - |t|, |c|);
    SliceKeepsSpacing(t, 0, |r|);
  }

  /** Normalizing keeps every non-whitespace character, in order, and the
      words of the text. */
  lemma {:induction false} NormalizeKeepsNonSpace(s: string)
    ensures NonSpace(Normalize(s)) == NonSpace(s)
    ensures Words(Normalize(s)) == Words(s)
  {
    NormalizeJoinsWords(s);
    StripKeepsNonSpace(Collapse(s));
    CollapseKeepsNonSpace(s);
  }

  lemma {:induction false} CollapseFixed(s: string)
    requires OnlyAsciiSpaces(s) && NoSpaceRuns(s)
    ensures Collapse(s) == s
    decreases |s|
  {
    if s == [] {
    } else if IsSpace(s[0]) {
      var e := SpaceRunEnd(s, 0);
      assert e == 1 by {
        if |s| > 1 {
          assert !IsSpace(s[1]);
        }
        assert SpaceRunEnd(s, 1) == 1;
      }
      CollapseFixed(s[1..]);
      assert s == " " + s[1..];
    } else {
      CollapseFixed(s[1..]);
      assert s == [s[0]] + s[1..];
    }
  }

  /** Normalizing is idempotent: normal text is a fixed point. */
  lemma {:induction false} NormalizeFixed(s: string)
    requires IsNormal(s)
    ensures Normalize(s) == s
  {
    CollapseFixed(s);
    StripTrimmed(s);
  }

  lemma {:induction false} NormalizeIdempotent(s: string)
    ensures Normalize(Normalize(s)) == Normalize(s)
  {
    NormalizeIsNormal(s);
    NormalizeFixed(Normalize(s));
  }

  // ---------------------------------------------------------------------
  // str.split() with no argument: the words of a text

  /** End of the word starting at i: the first whitespace at or after i. */
  function WordEnd(s: string, i: nat): (j: nat)
    requires i <= |s|
    ensures i <= j <= |s| && (j == |s| || IsSpace(s[j]))
    ensures i < |s| && !IsSpace(s[i]) ==> i < j
    decreases |s| - i
  {
    if i < |s| && !IsSpace(s[i]) then WordEnd(s, i + 1) else i
  }

  /** A run of non-whitespace from i up to whitespace (or the end) at j is
      the word starting at i. */
  lemma {:induction false} WordEndAt(s: string, i: nat, j: nat)
    requires i <= j <= |s| && (j == |s| || IsSpace(s[j]))
    requires forall k :: i <= k < j ==> !IsSpace(s[k])
    ensures WordEnd(s, i) == j
    decreases j - i
  {
    if i < j {
      WordEndAt(s, i + 1, j);
    }
  }

  /** s.split(): the maximal runs of non-whitespace, in order. */
  function Words(s: string): seq<string>
    decreases |s|
  {
    if s == [] then []
    else if IsSpace(s[0]) then Words(s[1..])
    else [s[..WordEnd(s, 0)]] + Words(s[WordEnd(s, 0)..])
  }

  /** Leading whitespace does not change the words. */
  lemma {:induction false} WordsAfterSpaces(sp: string, t: string)
    requires AllSpace(sp)
    ensures Words(sp + t) == Words(t)
    decreases |sp|
  {
    if sp != [] {
      var s := sp + t;
      assert s != [] && IsSpace(s[0]) && s[1..] == sp[1..] + t;
      assert Words(s) == Words(s[1..]);
      WordsAfterSpaces(sp[1..], t);
    } else {
      assert sp + t == t;
    }
  }

  /** A word followed by nothing or by whitespace is the first word. */
  lemma {:induction false} WordsOfWord(w: string, x: string)
    requires w != [] && forall k :: 0 <= k < |w| ==> !IsSpace(w[k])
    requires x == [] || IsSpace(x[0])
    ensures Words(w + x) == [w] + Words(x)
  {
    var s := w + x;
    WordEndAt(s, 0, |w|);
    assert s[..|w|] == w && s[|w|..] == x;
  }

  /** A trailing whitespace character does not change the words. */
  lemma {:induction false} WordsTrailingSpace(x: string, c: char)
    requires IsSpace(c)
    ensures Words(x + [c]) == Words(x)
    decreases |x|
  {
    var s := x + [c];
    if x == [] {
      assert s[1..] == [];
    } else if IsSpace(x[0]) {
      assert s[1..] == x[1..] + [c];
      WordsTrailingSpace(x[1..], c);
    } else {
      var k := WordEnd(x, 0);
      forall i | 0 <= i < k ensures !IsSpace(s[i]) {
        WordEndPrefix(x, 0, i);
      }
      WordEndAt(s, 0, k);
      assert s[..k] == x[..k] && s[k..] == x[k..] + [c];
      WordsTrailingSpace(x[k..], c);
    }
  }

  /** Everything before the end of a word is part of it. */
  lemma {:induction false} WordEndPrefix(s: string, i: nat, k: nat)
    requires i <= |s| && i <= k < WordEnd(s, i)
    ensures !IsSpace(s[k])
    decreases |s| - i
  {
    if i < k {
      WordEndPrefix(s, i + 1, k);
    }
  }

  /** Every word is non-empty and holds no whitespace. */
  lemma {:induction false} WordsShape(s: string)
    ensures forall w :: w in Words(s) ==> w != [] && forall k :: 0 <= k < |w| ==> !IsSpace(w[k])
    decreases |s|
  {
    if s != [] {
      if IsSpace(s[0]) {
        WordsShape(s[1..]);
      } else {
        var e := WordEnd(s, 0);
        WordsShape(s[e..]);
        forall k | 0 <= k < e ensures !IsSpace(s[..e][k]) {
          WordEndPrefix(s, 0, k);
        }
      }
    }
  }

  /** Collapsing passes a word through unchanged. */
  lemma {:induction false} CollapseWord(w: string, x: string)
    requires forall k :: 0 <= k < |w| ==> !IsSpace(w[k])
    ensures Collapse(w + x) == w + Collapse(x)
    decreases |w|
  {
    if w != [] {
      assert (w + x)[1..] == w[1..] + x;
      CollapseWord(w[1..], x);
      assert w == [w[0]] + w[1..];
    } else {
      assert w + x == x;
    }
  }

  /** Collapsing whitespace keeps the words. */
  lemma {:induction false} CollapseKeepsWords(s: string)
    ensures Words(Collapse(s)) == Words(s)
    decreases |s|
  {
    if s == [] {
    } else if IsSpace(s[0]) {
      var e := SpaceRunEnd(s, 0);
      SpaceRunAll(s, 0);
      CollapseKeepsWords(s[e..]);
      assert (" " + Collapse(s[e..]))[1..] == Collapse(s[e..]);
      assert s == s[..e] + s[e..];
      WordsAfterSpaces(s[..e], s[e..]);
    } else {
      var k := WordEnd(s, 0);
      var w, x := s[..k], s[k..];
      forall i | 0 <= i < k ensures !IsSpace(w[i]) {
        WordEndPrefix(s, 0, i);
      }
      assert s == w + x;
      CollapseWord(w, x);
      CollapseShape(x);
      WordsOfWord(w, Collapse(x));
      CollapseKeepsWords(x);
    }
  }

  /** Stripping keeps the words. */
  lemma {:induction false} StripKeepsWords(s: string)
    ensures Words(Strip(s)) == Words(s)
  {
    var e := SpaceRunEnd(s, 0);
    SpaceRunAll(s, 0);
    assert s == s[..e] + s[e..];
    WordsAfterSpaces(s[..e], s[e..]);
    TrimEndKeepsWords(TrimStart(s));
  }

  lemma {:induction false} TrimEndKeepsWords(s: string)
    ensures Words(TrimEnd(s)) == Words(s)
  {
    if s != [] && IsSpace(s[|s| - 1]) {
      var init := s[..|s| - 1];
      TrimEndKeepsWords(init);
      assert s == init + [s[|s| - 1]];
      WordsTrailingSpace(init, s[|s| - 1]);
    }
  }

  /** Normal text is its words joined by single spaces. */
  lemma {:induction false} NormalIsJoinedWords(x: string)
    requires IsNormal(x)
    ensures JoinWith(Words(x), " ") == x
    decreases |x|
  {
    if x != [] {
      var k := WordEnd(x, 0);
      forall i | 0 <= i < k ensures !IsSpace(x[i]) {
        WordEndPrefix(x, 0, i);
      }
      if k == |x| {
        assert x[..k] == x && x[k..] == [];
        assert Words(x) == [x] + Words([]);
      } else {
        assert x[k] == ' ' && k + 1 < |x| && !IsSpace(x[k + 1]);
        var y := x[k + 1..];
        SliceKeepsSpacing(x, k + 1, |x|);
        assert x[k..][1..] == y;
        assert Words(x[k..]) == Words(y);
        NormalIsJoinedWords(y);
        assert Words(y) != [];
        JoinWithCons(x[..k], Words(y), " ");
        assert x == x[..k] + " " + y;
      }
    }
  }

  /** re.sub(r"\s+", " ", s).strip() is " ".join(s.split()): the words of s
      are kept, in order, and nothing else. */
  lemma {:induction false} NormalizeJoinsWords(s: string)
    ensures Words(Normalize(s)) == Words(s)
    ensures Normalize(s) == JoinWith(Words(s), " ")
  {
    CollapseKeepsWords(s);
    StripKeepsWords(Collapse(s));
    NormalizeIsNormal(s);
    NormalIsJoinedWords(Normalize(s));
  }

  // ---------------------------------------------------------------------
  // str.split("\n"), "\n".join(...)

  /** Index of the first occurrence of c in s, or |s| when there is none. */
  function IndexOf(s: string, c: char): (k: nat)
    ensures k <= |s|
    ensures k < |s| ==> s[k] == c
    ensures forall i :: 0 <= i < k ==> s[i] != c
  {
    if s == [] then 0
    else if s[0] == c then 0
    else 1 + IndexOf(s[1..], c)
  }

  /** s.split("\n") */
  function SplitLines(s: string): (r: seq<string>)
    ensures |r| >= 1
    decreases |s|
  {
    var k := IndexOf(s, '\n');
    if k == |s| then [s] else [s[..k]] + SplitLines(s[k + 1..])
  }

  /** sep.join(parts) */
  function JoinWith(parts: seq<string>, sep: string): string {
    if parts == [] then ""
    else if |parts| == 1 then parts[0]
    else parts[0] + sep + JoinWith(parts[1..], sep)
  }

  lemma {:induction false} JoinWithCons(part: string, rest: seq<string>, sep: string)
    requires rest != []
    ensures JoinWith([part] + rest, sep) == part + sep + JoinWith(rest, sep)
  {
    assert ([part] + rest)[1..] == rest;
  }

  /** Cutting a text around a separator that stands at e. */
  lemma {:induction false} AroundSep(s: string, i: nat, e: nat, sep: string)
    requires i <= e && e + |sep| <= |s| && s[e..e + |sep|] == sep
    ensures s[i..] == s[i..e] + sep + s[e + |sep|..]
  {
  }

  /** "\n".join(lines) */
  function JoinLines(lines: seq<string>): string {
    JoinWith(lines, "\n")
  }

  /** Splitting on newlines and joining again gives back the text. */
  lemma {:induction false} JoinSplitLines(s: string)
    ensures JoinLines(SplitLines(s)) == s
    decreases |s|
  {
    var k := IndexOf(s, '\n');
    if k < |s| {
      JoinSplitLines(s[k + 1..]);
      SplitLinesStep(s);
      JoinLinesCons(s[..k], SplitLines(s[k + 1..]));
      AroundNewline(s, k);
    } else {
      assert SplitLines(s) == [s];
    }
  }

  lemma {:induction false} AroundNewline(s: string, k: nat)
    requires k < |s| && s[k] == '\n'
    ensures s == s[..k] + "\n" + s[k + 1..]
  {
  }

  /** No piece of a split contains a newline. */
  lemma {:induction false} SplitLinesNoNewline(s: string)
    ensures forall l :: l in SplitLines(s) ==> '\n' !in l
    decreases |s|
  {
    var k := IndexOf(s, '\n');
    if k < |s| {
      SplitLinesNoNewline(s[k + 1..]);
      SplitLinesStep(s);
      assert '\n' !in s[..k];
    } else {
      assert SplitLines(s) == [s];
    }
  }

  /** Splitting at the first newline: the line before it, then the lines
      of the text after it. */
  lemma {:induction false} SplitLinesStep(s: string)
    requires IndexOf(s, '\n') < |s|
    ensures SplitLines(s) == [s[..IndexOf(s, '\n')]] + SplitLines(s[IndexOf(s, '\n') + 1..])
  {
  }

  lemma {:induction false} JoinLinesCons(line: string, rest: seq<string>)
    requires rest != []
    ensures JoinLines([line] + rest) == line + "\n" + JoinLines(rest)
  {
    JoinWithCons(line, rest, "\n");
  }

  /** The text before the first newline (s.split("\n")[0]). */
  function FirstLine(s: string): (r: string)
    ensures r == SplitLines(s)[0]
    ensures '\n' !in r && r == s[..|r|]
    ensures |r| < |s| ==> s[|r|] == '\n'
  {
    s[..IndexOf(s, '\n')]
  }

  /** "\n".join(s.split("\n")[1:]) is the text after the first newline, or "". */
  lemma {:induction false} RestLines(s: string)
    ensures JoinLines(SplitLines(s)[1..]) ==
      (if IndexOf(s, '\n') < |s| then s[IndexOf(s, '\n') + 1..] else "")
  {
    var k := IndexOf(s, '\n');
    if k == |s| {
      assert SplitLines(s) == [s];
    } else {
      SplitLinesTail(s);
      JoinSplitLines(s[k + 1..]);
    }
  }

  lemma {:induction false} SplitLinesTail(s: string)
    requires IndexOf(s, '\n') < |s|
    ensures SplitLines(s)[1..] == SplitLines(s[IndexOf(s, '\n') + 1..])
  {
    var k := IndexOf(s, '\n');
    var tail := SplitLines(s[k + 1..]);
    SplitLinesStep(s);
    assert ([s[..k]] + tail)[1..] == tail;
  }

  // ---------------------------------------------------------------------
  // sorted() over characters (code-point order)

  predicate Sorted(s: string) {
    forall i, j :: 0 <= i < j < |s| ==> s[i] <= s[j]
  }

  function Insert(c: char, s: string): (r: string)
    ensures multiset(r) == multiset{c} + multiset(s)
    ensures |r| == |s| + 1 && r[0] == (if s == [] || c <= s[0] then c else s[0])
  {
    if s == [] || c <= s[0] then [c] + s
    else
      assert s == [s[0]] + s[1..];
      [s[0]] + Insert(c, s[1..])
  }

  lemma {:induction false} InsertSorted(c: char, s: string)
    requires Sorted(s)
    ensures Sorted(Insert(c, s))
  {
    if s != [] && c > s[0] {
      var t := Insert(c, s[1..]);
      InsertSorted(c, s[1..]);
      assert s[0] <= t[0];
      assert Insert(c, s) == [s[0]] + t;
    }
  }

  /** "".join(sorted(s)): an ascending rearrangement of s (duplicates kept). */
  function SortChars(s: string): (r: string)
    ensures Sorted(r)
    ensures multiset(r) == multiset(s)
  {
    if s == [] then []
    else
      var t := SortChars(s[1..]);
      InsertSorted(s[0], t);
      assert s == [s[0]] + s[1..];
      Insert(s[0], t)
  }

  /** Sorting text that is already in order changes nothing. */
  lemma {:induction false} SortSorted(s: string)
    requires Sorted(s)
    ensures SortChars(s) == s
  {
    if s != [] {
      SortSorted(s[1..]);
      assert s == [s[0]] + s[1..];
    }
  }

  /** Sorting is idempotent. */
  lemma {:induction false} SortIdempotent(s: string)
    ensures SortChars(SortChars(s)) == SortChars(s)
  {
    SortSorted(SortChars(s));
  }

  lemma {:induction false} MinOfSorted(a: string, x: char)
    requires Sorted(a) && x in multiset(a)
    ensures a[0] <= x
  {
    assert x in a;
    var i :| 0 <= i < |a| && a[i] == x;
    if i > 0 { assert a[0] <= a[i]; }
  }
  lemma {:induction false} TailSorted(a: string)
    requires Sorted(a) && a != []
    ensures Sorted(a[1..])
  {
    forall i, j | 0 <= i < j < |a| - 1 ensures a[1..][i] <= a[1..][j] {
      assert a[1..][i] == a[i + 1] && a[1..][j] == a[j + 1];
    }
  }
  lemma {:induction false} TailMultiset(a: string, b: string)
    requires a != [] && b != [] && a[0] == b[0] && multiset(a) == multiset(b)
    ensures multiset(a[1..]) == multiset(b[1..])
  {
    assert a == [a[0]] + a[1..];
    assert b == [b[0]] + b[1..];
    assert multiset(a) == multiset{a[0]} + multiset(a[1..]);
    assert multiset(b) == multiset{b[0]} + multiset(b[1..]);
    forall x ensures multiset(a[1..])[x] == multiset(b[1..])[x] {
      assert multiset(a)[x] == multiset(b)[x];
    }
  }

  /** Two ascending strings with the same characters are equal. */
  lemma {:induction false} SortedUnique(a: string, b: string)
    requires Sorted(a) && Sorted(b) && multiset(a) == multiset(b)
    ensures a == b
    decreases |a|
  {
    SortedHeads(a, b);
    if a != [] {
      var a', b' := a[1..], b[1..];
      TailMultiset(a, b);
      TailSorted(a);
      TailSorted(b);
      SortedUnique(a', b');
      assert a == [a[0]] + a';
      assert b == [b[0]] + b';
    }
  }

  /** Sorted strings with the same characters have the same length and,
      when not empty, the same first character. */
  lemma {:induction false} SortedHeads(a: string, b: string)
    requires Sorted(a) && Sorted(b) && multiset(a) == multiset(b)
    ensures |a| == |b| && (a != [] ==> a[0] == b[0])
  {
    assert |multiset(a)| == |a| && |multiset(b)| == |b|;
    if a != [] {
      assert a[0] in multiset(a) && b[0] in multiset(b);
      MinOfSorted(a, b[0]);
      MinOfSorted(b, a[0]);
    }
  }

  // ---------------------------------------------------------------------
  // str.upper() on ASCII letters

  function UpperChar(c: char): char {
    if 'a' <= c <= 'z' then (c as int - 32) as char else c
  }

  /** str.upper() as it acts on the text it meets here: every ASCII
      lowercase letter becomes its capital, nothing else changes. */
  function UpperAscii(s: string): (r: string)
    ensures |r| == |s|
    ensures forall i :: 0 <= i < |r| ==> !('a' <= r[i] <= 'z')
    ensures forall i :: 0 <= i < |s| && !('a' <= s[i] <= 'z') ==> r[i] == s[i]
    ensures forall i :: 0 <= i < |s| && 'a' <= s[i] <= 'z' ==> r[i] as int == s[i] as int - ('a' as int - 'A' as int)
  {
    seq(|s|, i requires 0 <= i < |s| => UpperChar(s[i]))
  }

  // ---------------------------------------------------------------------
  // Substring test (`sub in s`) and str.replace

  predicate StartsWith(s: string, prefix: string) {
    |prefix| <= |s| && s[..|prefix|] == prefix
  }

  /** Python's `sub in s`. */
  predicate Contains(s: string, sub: string)
    decreases |s|
  {
    StartsWith(s, sub) || (s != [] && Contains(s[1..], sub))
  }

  lemma {:induction false} ContainsAt(s: string, sub: string, i: nat)
    requires i + |sub| <= |s| && s[i..i + |sub|] == sub
    ensures Contains(s, sub)
    decreases i
  {
    if i > 0 {
      assert s[1..][i - 1..i - 1 + |sub|] == s[i..i + |sub|];
      ContainsAt(s[1..], sub, i - 1);
    }
  }

  /** s.replace(pattern, replacement): every occurrence, left to right, without overlap. */
  function ReplaceAll(s: string, pattern: string, replacement: string): string
    requires pattern != []
    decreases |s|
  {
    if |s| < |pattern| then s
    else if s[..|pattern|] == pattern then replacement + ReplaceAll(s[|pattern|..], pattern, replacement)
    else [s[0]] + ReplaceAll(s[1..], pattern, replacement)
  }

  // ---------------------------------------------------------------------
  // os.path.basename / os.path.splitext (POSIX rules)

  /** os.path.basename: the part after the last '/'. */
  function BaseName(path: string): (r: string)
    ensures |r| <= |path| && r == path[|path| - |r|..]
    ensures '/' !in r
    ensures |r| < |path| ==> path[|path| - |r| - 1] == '/'
  {
    if path == [] then []
    else if path[|path| - 1] == '/' then []
    else
      var r := BaseName(path[..|path| - 1]) + [path[|path| - 1]];
      assert path == path[..|path| - 1] + [path[|path| - 1]];
      r
  }

  /** Index of the last '.', or -1. */
  function LastDot(s: string): (k: int)
    ensures -1 <= k < |s|
    ensures k >= 0 ==> s[k] == '.'
    ensures forall i :: k < i < |s| ==> s[i] != '.'
  {
    if s == [] then -1
    else if s[|s| - 1] == '.' then |s| - 1
    else LastDot(s[..|s| - 1])
  }

  /** os.path.splitext(name)[0]: the name without its extension. The extension
      starts at the last dot, unless everything before that dot is dots. */
  function SplitExtRoot(name: string): (r: string)
    ensures StartsWith(name, r)
    ensures r != name ==> name[|r|] == '.' && '.' !in name[|r| + 1..]
  {
    var k := LastDot(name);
    if k >= 0 && exists i :: 0 <= i < k && name[i] != '.' then name[..k] else name
  }
}
