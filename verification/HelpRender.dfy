/** Greedy word wrap (`appendWrapped` in src/driver/help_render.cc). */
module HelpRender {

  // --- words of a text ----------------------------------------------------------------------

  /** The words finished so far, and the one being read. */
  datatype Scan = Scan(words: seq<string>, word: string)

  function Closed(s: Scan): seq<string> {
    if s.word == "" then s.words else s.words + [s.word]
  }

  function ScanOf(text: string, breaks: set<char>): Scan {
    if text == "" then Scan([], "")
    else
      var n := |text| - 1;
      var s := ScanOf(text[..n], breaks);
      if text[n] in breaks then Scan(Closed(s), "") else s.(word := s.word + [text[n]])
  }

  /** The non-empty runs between breaking characters. */
  function Fields(text: string, breaks: set<char>): seq<string> {
    Closed(ScanOf(text, breaks))
  }

  const SPACE: set<char> := {' '}
  const SPACE_OR_LINE: set<char> := {' ', '\n'}

  // --- pages of lines -----------------------------------------------------------------------

  datatype Page = Blank | Turn(above: Page, line: seq<string>)

  function WordsOn(p: Page): seq<string> {
    if p.Blank? then [] else WordsOn(p.above) + p.line
  }

  function Count(p: Page): nat {
    if p.Blank? then 0 else Count(p.above) + 1
  }

  /** Words of a line with one space between. */
  function Join(line: seq<string>): string {
    if line == [] then ""
    else if |line| == 1 then line[0]
    else Join(line[..|line| - 1]) + " " + line[|line| - 1]
  }

  function Spaces(n: nat): string {
    if n == 0 then "" else Spaces(n - 1) + " "
  }

  function Render(p: Page, indent: nat): string {
    if p.Blank? then ""
    else if p.above.Blank? then Join(p.line)
    else Render(p.above, indent) + "\n" + Spaces(indent) + Join(p.line)
  }

  /** A line with a word, which fits unless the word is alone. */
  predicate LineOk(line: seq<string>, indent: nat, available: nat) {
    line != [] && (|line| == 1 || indent + |Join(line)| <= available)
  }

  predicate PageOk(p: Page, indent: nat, available: nat) {
    p.Turn? ==> PageOk(p.above, indent, available) && LineOk(p.line, indent, available)
  }

  /** Where the line being written ends. */
  function Column(p: Page, indent: nat): nat {
    if p.Blank? then indent else indent + |Join(p.line)|
  }

  function AddWord(p: Page, word: string, indent: nat, available: nat): Page {
    if p.Blank? || Column(p, indent) + 1 + |word| > available then Turn(p, [word])
    else Turn(p.above, p.line + [word])
  }

  function Greedy(words: seq<string>, indent: nat, available: nat): Page {
    if words == [] then Blank
    else AddWord(Greedy(words[..|words| - 1], indent, available), words[|words| - 1], indent, available)
  }

  // --- the loop -----------------------------------------------------------------------------

  function Available(width: nat): nat { if width < 24 then 24 else width }

  lemma JoinMore(line: seq<string>, word: string)
    requires line != []
    ensures Join(line + [word]) == Join(line) + " " + word
  {
    assert (line + [word])[..|line|] == line;
  }

  lemma GreedyMore(words: seq<string>, word: string, indent: nat, available: nat)
    ensures Greedy(words + [word], indent, available) ==
            AddWord(Greedy(words, indent, available), word, indent, available)
  {
    assert (words + [word])[..|words|] == words;
  }

  lemma AddWordKeeps(p: Page, word: string, indent: nat, available: nat)
    requires PageOk(p, indent, available)
    ensures var q := AddWord(p, word, indent, available);
            q.Turn? && PageOk(q, indent, available) && WordsOn(q) == WordsOn(p) + [word]
  {
    if p.Turn? {
      JoinMore(p.line, word);
      assert WordsOn(p.above) + (p.line + [word]) == WordsOn(p.above) + p.line + [word];
    }
  }

  lemma {:induction false} LinesHaveWords(words: seq<string>, indent: nat, available: nat)
    ensures var p := Greedy(words, indent, available);
            WordsOn(p) == words && PageOk(p, indent, available) && (p.Blank? <==> words == [])
  {
    if words != [] {
      var n := |words| - 1;
      LinesHaveWords(words[..n], indent, available);
      AddWordKeeps(Greedy(words[..n], indent, available), words[n], indent, available);
      assert words == words[..n] + [words[n]];
    }
  }

  /** A run without breaks is one word under way. */
  lemma {:induction false} ScanRun(text: string, breaks: set<char>, at: nat, end: nat)
    requires at <= end <= |text| && forall k :: at <= k < end ==> text[k] !in breaks
    requires ScanOf(text[..at], breaks).word == ""
    ensures ScanOf(text[..end], breaks) == Scan(ScanOf(text[..at], breaks).words, text[at..end])
  {
    if at < end {
      ScanRun(text, breaks, at, end - 1);
      assert text[..end][..end - 1] == text[..end - 1];
      assert text[at..end] == text[at..end - 1] + [text[end - 1]];
    }
  }

  /** The next space, or the end. */
  method FindSpace(text: string, at: nat) returns (end: nat)
    requires at < |text|
    ensures at <= end <= |text| && (end < |text| ==> text[end] == ' ')
    ensures forall k :: at <= k < end ==> text[k] != ' '
  {
    end := at;
    while end < |text| && text[end] != ' '
      invariant at <= end <= |text| && forall k :: at <= k < end ==> text[k] != ' '
    {
      end := end + 1;
    }
  }

  /** What the loop has behind it when it stands at `at`: the words before, the last of them finished. */
  ghost predicate Behind(text: string, at: nat, done: seq<string>) {
    if at <= |text| then ScanOf(text[..at], SPACE) == Scan(done, "") else Fields(text, SPACE) == done
  }

  lemma BehindMore(text: string, at: nat, end: nat, done: seq<string>)
    requires at <= end <= |text| && Behind(text, at, done)
    requires forall k :: at <= k < end ==> text[k] != ' '
    requires end < |text| ==> text[end] == ' '
    ensures Behind(text, end + 1, if at == end then done else done + [text[at..end]])
  {
    ScanRun(text, SPACE, at, end);
    if end < |text| {
      assert text[..end + 1][..end] == text[..end];
    } else {
      assert text[..end] == text;
    }
  }

  /** What a word adds to the rendering. */
  lemma OneMoreWord(p: Page, word: string, indent: nat, available: nat)
    requires PageOk(p, indent, available)
    ensures var q := AddWord(p, word, indent, available);
            if p.Blank? then Render(q, indent) == word && Column(q, indent) == indent + |word|
            else if Column(p, indent) + 1 + |word| > available then
              Render(q, indent) == Render(p, indent) + "\n" + Spaces(indent) + word
                  && Column(q, indent) == indent + |word|
            else
              Render(q, indent) == Render(p, indent) + " " + word && Column(q, indent) == Column(p, indent) + 1 + |word|
  {
    if p.Turn? {
      JoinMore(p.line, word);
    }
  }

  lemma Grouped(before: string, r: string, a: string, b: string, c: string)
    ensures before + (r + a + b + c) == before + r + a + b + c
    ensures before + (r + a + c) == before + r + a + c && (r == "" ==> before + r + c == before + c)
  {}

  /** The output and the column after some words. */
  ghost predicate Written(before: string, done: seq<string>, indent: nat, available: nat, out: string, column: nat) {
    var p := Greedy(done, indent, available);
    out == before + Render(p, indent) && column == Column(p, indent)
  }

  /** One turn of the loop with a word. */
  method PutWord(out: string, column: nat, word: string, first: bool, indent: nat, available: nat,
                 ghost before: string, ghost done: seq<string>)
    returns (out': string, column': nat)
    requires Written(before, done, indent, available, out, column) && (first <==> done == [])
    ensures Written(before, done + [word], indent, available, out', column')
  {
    ghost var p := Greedy(done, indent, available);
    LinesHaveWords(done, indent, available);
    GreedyMore(done, word, indent, available);
    OneMoreWord(p, word, indent, available);
    Grouped(before, Render(p, indent), "\n", Spaces(indent), word);
    Grouped(before, Render(p, indent), " ", "", word);
    if first {
      out' := out + word;
      column' := indent + |word|;
    } else if column + 1 + |word| > available {
      out' := out + "\n" + Spaces(indent) + word;
      column' := indent + |word|;
    } else {
      out' := out + " " + word;
      column' := column + 1 + |word|;
    }
  }

  lemma Begun(before: string, text: string, indent: nat, available: nat)
    ensures Behind(text, 0, []) && Written(before, [], indent, available, before, indent)
  {
    assert text[..0] == "" && before + "" == before;
  }

  lemma Finished(text: string, at: nat, done: seq<string>)
    requires at >= |text| && Behind(text, at, done)
    ensures Fields(text, SPACE) == done
  {
    assert text[..|text|] == text;
  }

  /** `appendWrapped`. */
  method AppendWrapped(before: string, text: string, indent: nat, width: nat) returns (out: string)
    ensures out == before + Render(Greedy(Fields(text, SPACE), indent, Available(width)), indent)
  {
    var available := Available(width);
    var column := indent;
    var at := 0;
    var first := true;
    out := before;
    ghost var done: seq<string> := [];
    Begun(before, text, indent, available);
    while at < |text|
      invariant Behind(text, at, done) && (first <==> done == [])
      invariant Written(before, done, indent, available, out, column)
    {
      var end := FindSpace(text, at);
      BehindMore(text, at, end, done);
      var word := text[at..end];
      at := end + 1;
      if word != "" {
        out, column := PutWord(out, column, word, first, indent, available, before, done);
        first := false;
        done := done + [word];
      }
    }
    Finished(text, at, done);
  }

  // --- what it promises -----------------------------------------------------------------------

  /** Every word in order, and every line within the width unless it is one long word. */
  lemma WrapKeepsWords(text: string, indent: nat, width: nat)
    ensures var p := Greedy(Fields(text, SPACE), indent, Available(width));
            WordsOn(p) == Fields(text, SPACE) && PageOk(p, indent, if width < 24 then 24 else width)
  {
    LinesHaveWords(Fields(text, SPACE), indent, Available(width));
  }

  /** The page without its last word. */
  function DropWord(p: Page): Page
    requires p.Turn?
  {
    if |p.line| <= 1 then p.above else Turn(p.above, p.line[..|p.line| - 1])
  }

  lemma {:induction false} JoinGrows(a: seq<string>, b: seq<string>)
    requires b != []
    ensures |Join(b)| <= |Join(a + b)|
  {
    if a != [] {
      var n := |b| - 1;
      if n == 0 {
        JoinMore(a, b[0]);
        assert b == [b[0]];
      } else {
        JoinGrows(a, b[..n]);
        JoinMore(a + b[..n], b[n]);
        JoinMore(b[..n], b[n]);
        assert a + b == a + b[..n] + [b[n]] && b == b[..n] + [b[n]];
      }
    } else {
      assert a + b == b;
    }
  }

  lemma DropWordOk(p: Page, words: seq<string>, indent: nat, available: nat)
    requires p.Turn? && PageOk(p, indent, available) && WordsOn(p) == words
    ensures words != [] && PageOk(DropWord(p), indent, available) && WordsOn(DropWord(p)) == words[..|words| - 1]
    ensures p.line[|p.line| - 1] == words[|words| - 1]
    ensures Count(DropWord(p)) == if |p.line| == 1 then Count(p) - 1 else Count(p)
  {
    var n := |p.line| - 1;
    assert p.line == p.line[..n] + [p.line[n]];
    if n > 0 {
      JoinMore(p.line[..n], p.line[n]);
      assert WordsOn(p.above) + p.line[..n] == words[..|words| - 1];
    } else {
      assert WordsOn(p.above) == words[..|words| - 1];
    }
  }

  /** Where the last line of a page begins. */
  function Start(p: Page): nat {
    if p.Blank? then 0 else |WordsOn(p.above)|
  }

  /** A line that begins no later than the greedy one is at least as wide. */
  lemma EarlierIsWider(p: Page, q: Page, words: seq<string>)
    requires p.Turn? && q.Turn? && WordsOn(p) == words == WordsOn(q) && Start(q) <= Start(p) && p.line != []
    ensures |Join(p.line)| <= |Join(q.line)|
  {
    var k := Start(p) - Start(q);
    assert q.line == words[Start(q)..] && p.line == words[Start(p)..];
    assert q.line == q.line[..k] + p.line;
    JoinGrows(q.line[..k], p.line);
  }

  /**
   * No page with the same words and the same guarantee has fewer lines; one with as many has a last
   * line that begins no later.
   */
  lemma {:induction false} GreedyIsFewest(words: seq<string>, q: Page, indent: nat, available: nat)
    requires PageOk(q, indent, available) && WordsOn(q) == words
    ensures var p := Greedy(words, indent, available);
            Count(p) <= Count(q) && (Count(p) == Count(q) ==> Start(q) <= Start(p))
  {
    if words != [] {
      var n := |words| - 1;
      var before := words[..n];
      var p := Greedy(before, indent, available);
      DropWordOk(q, words, indent, available);
      GreedyIsFewest(before, DropWord(q), indent, available);
      LinesHaveWords(before, indent, available);
      if |q.line| > 1 {
        OneMoreOnLine(p, q, words, indent, available);
      }
    }
  }

  /** The last word stands behind others on `q`'s last line. */
  lemma OneMoreOnLine(p: Page, q: Page, words: seq<string>, indent: nat, available: nat)
    requires PageOk(q, indent, available) && WordsOn(q) == words && q.Turn? && |q.line| > 1 && words != []
    requires WordsOn(p) == words[..|words| - 1] && PageOk(p, indent, available) && (p.Blank? ==> |words| == 1)
    requires Count(p) <= Count(q) && (Count(p) == Count(q) ==> Start(DropWord(q)) <= Start(p))
    ensures var g := AddWord(p, words[|words| - 1], indent, available);
            Count(g) <= Count(q) && (Count(g) == Count(q) ==> Start(q) <= Start(g))
  {
    var word := words[|words| - 1];
    assert |words| > 1 && p.Turn?;
    if Column(p, indent) + 1 + |word| > available && Count(p) == Count(q) {
      var d := DropWord(q);
      DropWordOk(q, words, indent, available);
      EarlierIsWider(p, d, words[..|words| - 1]);
    }
  }

  // --- the page is read back as its words -------------------------------------------------------

  /** A word a reader of the page sees as one. */
  predicate IsWord(word: string, breaks: set<char>) {
    word != "" && forall k :: 0 <= k < |word| ==> word[k] !in breaks
  }

  predicate AreWords(words: seq<string>, breaks: set<char>) {
    forall k :: 0 <= k < |words| ==> IsWord(words[k], breaks)
  }

  lemma ScanWord(before: string, word: string, breaks: set<char>)
    requires ScanOf(before, breaks).word == "" && IsWord(word, breaks)
    ensures ScanOf(before + word, breaks) == Scan(ScanOf(before, breaks).words, word)
  {
    var text := before + word;
    assert text[..|before|] == before && text[|before|..|text|] == word && text[..|text|] == text;
    ScanRun(text, breaks, |before|, |text|);
  }

  lemma ScanBreak(before: string, c: char, breaks: set<char>)
    requires c in breaks
    ensures ScanOf(before + [c], breaks) == Scan(Closed(ScanOf(before, breaks)), "")
  {
    assert (before + [c])[..|before|] == before;
  }

  lemma {:induction false} ScanSpaces(before: string, n: nat, breaks: set<char>)
    requires ' ' in breaks && ScanOf(before, breaks).word == ""
    ensures ScanOf(before + Spaces(n), breaks) == ScanOf(before, breaks)
  {
    if n == 0 {
      assert before + Spaces(n) == before;
    } else {
      ScanSpaces(before, n - 1, breaks);
      ScanBreak(before + Spaces(n - 1), ' ', breaks);
      assert before + Spaces(n) == before + Spaces(n - 1) + [' '];
    }
  }

  lemma {:induction false} ScanLine(before: string, line: seq<string>, breaks: set<char>)
    requires ' ' in breaks && ScanOf(before, breaks).word == "" && AreWords(line, breaks) && line != []
    ensures Fields(before + Join(line), breaks) == ScanOf(before, breaks).words + line
  {
    var n := |line| - 1;
    assert line == line[..n] + [line[n]];
    if n == 0 {
      ScanWord(before, line[0], breaks);
    } else {
      ScanLine(before, line[..n], breaks);
      ScanBreak(before + Join(line[..n]), ' ', breaks);
      ScanWord(before + Join(line[..n]) + [' '], line[n], breaks);
      assert before + Join(line) == before + Join(line[..n]) + [' '] + line[n];
    }
  }

  lemma PageOfWords(p: Page, breaks: set<char>)
    requires p.Turn? && AreWords(WordsOn(p), breaks)
    ensures AreWords(WordsOn(p.above), breaks) && AreWords(p.line, breaks)
  {
    assert forall k :: 0 <= k < |WordsOn(p.above)| ==> WordsOn(p)[k] == WordsOn(p.above)[k];
    assert forall k :: 0 <= k < |p.line| ==> WordsOn(p)[|WordsOn(p.above)| + k] == p.line[k];
  }

  /** Splitting the rendered page at spaces and line ends gives its words back. */
  lemma {:induction false} PageReadsBack(p: Page, indent: nat, available: nat)
    requires PageOk(p, indent, available) && AreWords(WordsOn(p), SPACE_OR_LINE)
    ensures Fields(Render(p, indent), SPACE_OR_LINE) == WordsOn(p)
  {
    if p.Turn? {
      PageOfWords(p, SPACE_OR_LINE);
      if p.above.Blank? {
        assert "" + Join(p.line) == Join(p.line);
        ScanLine("", p.line, SPACE_OR_LINE);
      } else {
        PageReadsBack(p.above, indent, available);
        var before := Render(p.above, indent);
        ScanBreak(before, '\n', SPACE_OR_LINE);
        ScanSpaces(before + ['\n'], indent, SPACE_OR_LINE);
        ScanLine(before + ['\n'] + Spaces(indent), p.line, SPACE_OR_LINE);
      }
    }
  }

  // --- the rendered lines -----------------------------------------------------------------------

  /** The lines of a text. */
  function Lines(text: string): (lines: seq<string>)
    ensures lines != []
  {
    if text == "" then [""]
    else
      var n := |text| - 1;
      var lines := Lines(text[..n]);
      if text[n] == '\n' then lines + [""] else lines[..|lines| - 1] + [lines[|lines| - 1] + [text[n]]]
  }

  /** The lines with `more` behind the last one. */
  function Continued(lines: seq<string>, more: string): seq<string>
    requires lines != []
  {
    lines[..|lines| - 1] + [lines[|lines| - 1] + more]
  }

  lemma ContinuedTwice(lines: seq<string>, a: string, b: string)
    requires lines != []
    ensures Continued(Continued(lines, a), b) == Continued(lines, a + b) && Continued(lines, "") == lines
  {
    var last := lines[|lines| - 1];
    assert last + a + b == last + (a + b) && last + "" == last;
    assert lines == lines[..|lines| - 1] + [last];
  }

  lemma OneMoreCharacter(text: string, c: char)
    requires c != '\n'
    ensures Lines(text + [c]) == Continued(Lines(text), [c])
  {
    assert (text + [c])[..|text|] == text;
  }

  /** A text without line ends goes on the last line. */
  lemma {:induction false} LinesGrow(text: string, more: string)
    requires forall k :: 0 <= k < |more| ==> more[k] != '\n'
    ensures Lines(text + more) == Continued(Lines(text), more)
  {
    ContinuedTwice(Lines(text), "", "");
    if more == "" {
      assert text + more == text;
    } else {
      var init, c := more[..|more| - 1], more[|more| - 1];
      assert more == init + [c] && text + more == text + init + [c];
      LinesGrow(text, init);
      OneMoreCharacter(text + init, c);
      ContinuedTwice(Lines(text), init, [c]);
    }
  }

  lemma NewLine(text: string, more: string)
    requires forall k :: 0 <= k < |more| ==> more[k] != '\n'
    ensures Lines(text + "\n" + more) == Lines(text) + [more]
  {
    assert (text + "\n")[..|text|] == text;
    LinesGrow(text + "\n", more);
    assert "" + more == more;
  }

  /** Words one space apart behind `lead` spaces: within the room, or a single word. */
  predicate IsLine(line: string, lead: nat, room: int) {
    && lead < |line| && line[lead] != ' ' && line[|line| - 1] != ' '
    && (forall k :: 0 <= k < lead ==> line[k] == ' ')
    && (forall k :: lead <= k < |line| - 1 ==> line[k] != ' ' || line[k + 1] != ' ')
    && (forall k :: 0 <= k < |line| ==> line[k] != '\n')
    && (|line| <= room || forall k :: lead <= k < |line| ==> line[k] != ' ')
  }

  lemma {:induction false} JoinedWords(line: seq<string>)
    requires line != [] && AreWords(line, SPACE_OR_LINE)
    ensures IsLine(Join(line), 0, |Join(line)|)
    ensures |line| == 1 ==> forall k :: 0 <= k < |Join(line)| ==> Join(line)[k] != ' '
  {
    var n := |line| - 1;
    assert IsWord(line[n], SPACE_OR_LINE);
    if n > 0 {
      JoinedWords(line[..n]);
      assert Join(line) == Join(line[..n]) + " " + line[n];
    }
  }

  lemma {:induction false} SpacesAre(n: nat)
    ensures |Spaces(n)| == n && forall k :: 0 <= k < n ==> Spaces(n)[k] == ' '
  {
    if n > 0 {
      SpacesAre(n - 1);
    }
  }

  lemma LineIsLine(line: seq<string>, lead: nat, indent: nat, available: nat)
    requires LineOk(line, indent, available) && AreWords(line, SPACE_OR_LINE) && lead <= indent
    ensures IsLine(Spaces(lead) + Join(line), lead, available - indent + lead)
  {
    JoinedWords(line);
    SpacesAre(lead);
  }

  ghost predicate AreLines(lines: seq<string>, indent: nat, room: nat) {
    && lines != [] && IsLine(lines[0], 0, room - indent)
    && forall k :: 1 <= k < |lines| ==> IsLine(lines[k], indent, room)
  }

  lemma {:induction false} RenderedLines(p: Page, indent: nat, available: nat)
    requires p.Turn? && PageOk(p, indent, available) && AreWords(WordsOn(p), SPACE_OR_LINE)
    ensures AreLines(Lines(Render(p, indent)), indent, available) && |Lines(Render(p, indent))| == Count(p)
  {
    PageOfWords(p, SPACE_OR_LINE);
    if p.above.Blank? {
      FirstLine(p.line, indent, available);
    } else {
      RenderedLines(p.above, indent, available);
      LineIsLine(p.line, indent, indent, available);
      NextLine(Render(p.above, indent), Spaces(indent), Join(p.line), indent, available);
    }
  }

  lemma FirstLine(line: seq<string>, indent: nat, room: nat)
    requires LineOk(line, indent, room) && AreWords(line, SPACE_OR_LINE)
    ensures AreLines(Lines(Join(line)), indent, room) && |Lines(Join(line))| == 1
  {
    LineIsLine(line, 0, indent, room);
    assert Spaces(0) + Join(line) == Join(line) && "" + Join(line) == Join(line);
    LinesGrow("", Join(line));
    assert Lines(Join(line)) == [Join(line)];
  }

  lemma NextLine(text: string, lead: string, line: string, indent: nat, room: nat)
    requires AreLines(Lines(text), indent, room) && IsLine(lead + line, indent, room)
    ensures AreLines(Lines(text + "\n" + lead + line), indent, room)
    ensures |Lines(text + "\n" + lead + line)| == |Lines(text)| + 1
  {
    NewLine(text, lead + line);
    assert text + "\n" + lead + line == text + "\n" + (lead + line);
  }

  /**
   * The text that is appended, line by line: the first goes on where the caller stopped, the others are
   * indented, and each is within the width, but at least 24, or holds one word.
   */
  lemma WrappedLines(text: string, indent: nat, width: nat)
    requires Fields(text, SPACE) != [] && forall k :: 0 <= k < |text| ==> text[k] != '\n'
    ensures var out := Render(Greedy(Fields(text, SPACE), indent, Available(width)), indent);
            var lines, room := Lines(out), if width < 24 then 24 else width;
            && IsLine(lines[0], 0, room - indent)
            && (forall k :: 1 <= k < |lines| ==> IsLine(lines[k], indent, room))
            && Fields(out, SPACE_OR_LINE) == Fields(text, SPACE)
  {
    WrapKeepsWords(text, indent, width);
    FieldsAreWords(text, SPACE);
    WordsOfText(text);
    var p := Greedy(Fields(text, SPACE), indent, Available(width));
    RenderedLines(p, indent, Available(width));
    PageReadsBack(p, indent, Available(width));
  }

  /** No other way to break the text within that width takes fewer lines. */
  lemma WrappedInFewest(text: string, indent: nat, width: nat, q: Page)
    requires PageOk(q, indent, if width < 24 then 24 else width) && WordsOn(q) == Fields(text, SPACE)
    ensures Count(Greedy(Fields(text, SPACE), indent, Available(width))) <= Count(q)
  {
    GreedyIsFewest(Fields(text, SPACE), q, indent, Available(width));
  }

  // --- the words of a text ----------------------------------------------------------------------

  lemma {:induction false} ScanIsWords(text: string, breaks: set<char>)
    ensures var s := ScanOf(text, breaks);
            AreWords(s.words, breaks) && forall k :: 0 <= k < |s.word| ==> s.word[k] !in breaks
  {
    if text != "" {
      ScanIsWords(text[..|text| - 1], breaks);
    }
  }

  lemma FieldsAreWords(text: string, breaks: set<char>)
    ensures AreWords(Fields(text, breaks), breaks)
  {
    ScanIsWords(text, breaks);
  }

  predicate Without(word: string, c: char) { forall k :: 0 <= k < |word| ==> word[k] != c }

  lemma {:induction false} ScanKeepsOut(text: string, c: char, breaks: set<char>)
    requires Without(text, c)
    ensures var s := ScanOf(text, breaks);
            (forall i :: 0 <= i < |s.words| ==> Without(s.words[i], c)) && Without(s.word, c)
  {
    if text != "" {
      var n := |text| - 1;
      ScanKeepsOut(text[..n], c, breaks);
      assert text[n] != c;
    }
  }

  lemma WordsOfText(text: string)
    requires Without(text, '\n')
    ensures AreWords(Fields(text, SPACE), SPACE_OR_LINE)
  {
    FieldsAreWords(text, SPACE);
    ScanKeepsOut(text, '\n', SPACE);
    var words := Fields(text, SPACE);
    forall i | 0 <= i < |words| ensures IsWord(words[i], SPACE_OR_LINE) {
      assert IsWord(words[i], SPACE) && Without(words[i], '\n');
    }
  }

  /** Breaks, however many, separate the words on their two sides, and a run without one is a word. */
  lemma FieldsSplit(a: string, c: char, b: string, breaks: set<char>)
    requires c in breaks
    ensures Fields(a + [c] + b, breaks) == Fields(a, breaks) + Fields(b, breaks)
  {
    ScanSplit(a, c, b, breaks);
  }

  lemma {:induction false} ScanSplit(a: string, c: char, b: string, breaks: set<char>)
    requires c in breaks
    ensures var s := ScanOf(b, breaks);
            ScanOf(a + [c] + b, breaks) == Scan(Closed(ScanOf(a, breaks)) + s.words, s.word)
  {
    if b == "" {
      ScanBreak(a, c, breaks);
      assert a + [c] + b == a + [c];
      assert Closed(ScanOf(a, breaks)) + [] == Closed(ScanOf(a, breaks));
    } else {
      var n := |b| - 1;
      ScanSplit(a, c, b[..n], breaks);
      assert (a + [c] + b)[..|a| + 1 + n] == a + [c] + b[..n];
    }
  }

  lemma OneField(word: string, breaks: set<char>)
    requires forall k :: 0 <= k < |word| ==> word[k] !in breaks
    ensures Fields(word, breaks) == if word == "" then [] else [word]
  {
    ScanRun(word, breaks, 0, |word|);
    assert word[..|word|] == word == word[0..|word|];
  }
}
