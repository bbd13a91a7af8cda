/**
 * Words in a text: the response-file tokenizer (src/driver/response_file.cc) and the command printer
 * (src/driver/build_command.cc).
 */
module CommandWords {

  const FORM_FEED := '\U{000C}'
  const VERTICAL_TAB := '\U{000B}'

  predicate IsVertical(c: char) { c == '\n' || c == '\r' || c == FORM_FEED || c == VERTICAL_TAB }
  predicate IsSpace(c: char) { c == ' ' || c == '\t' || IsVertical(c) }
  predicate IsEscapable(c: char) { IsSpace(c) || c == '\'' || c == '"' || c == '\\' || c == '#' || c == '@' }

  datatype Tokens = Words(words: seq<string>) | UnterminatedQuote

  // --- reading ------------------------------------------------------------------------------

  /** Between two characters: the words so far, and the word being read if one was started. */
  datatype Scan = Scan(words: seq<string>, word: string, inSingle: bool, inDouble: bool, started: bool)

  const START := Scan([], "", false, false, false)

  /** How many characters the next step takes: two for an escape. */
  function Taken(text: string): nat
    requires text != ""
  {
    if IsEscape(text) then 2 else 1
  }

  predicate IsEscape(text: string) {
    |text| >= 2 && text[0] == '\\' && IsEscapable(text[1])
  }

  function Step(text: string, s: Scan): Scan
    requires text != ""
  {
    var c := text[0];
    if c == '\'' && !s.inDouble then s.(inSingle := !s.inSingle, started := true)
    else if c == '"' && !s.inSingle then s.(inDouble := !s.inDouble, started := true)
    else if IsEscape(text) then s.(word := s.word + [text[1]], started := true)
    else if !s.inSingle && !s.inDouble && IsSpace(c) then
      if s.started then Scan(s.words + [s.word], "", false, false, false) else s
    else s.(word := s.word + [c], started := true)
  }

  function ScanFrom(text: string, s: Scan): Scan
    decreases |text|
  {
    if text == "" then s else ScanFrom(text[Taken(text)..], Step(text, s))
  }

  function Finish(s: Scan): Tokens {
    if s.inSingle || s.inDouble then UnterminatedQuote
    else Words(if s.started then s.words + [s.word] else s.words)
  }

  function Tokenize(text: string): Tokens {
    Finish(ScanFrom(text, START))
  }

  /** `tokenize`. */
  method ReadWords(text: string) returns (r: Tokens)
    ensures r == Tokenize(text)
  {
    var words: seq<string>, word: string := [], "";
    var inSingle, inDouble, started := false, false, false;
    var index := 0;
    while index < |text|
      invariant index <= |text|
      invariant ScanFrom(text[index..], Scan(words, word, inSingle, inDouble, started)) == ScanFrom(text, START)
    {
      var c := text[index];
      ghost var rest := text[index..];
      assert rest[1..] == text[index + 1..];
      assert |rest| >= 2 ==> rest[2..] == text[index + 2..];
      if c == '\'' && !inDouble {
        inSingle, started := !inSingle, true;
      } else if c == '"' && !inSingle {
        inDouble, started := !inDouble, true;
      } else if c == '\\' && index + 1 < |text| && IsEscapable(text[index + 1]) {
        word, started := word + [text[index + 1]], true;
        index := index + 1;
      } else if !inSingle && !inDouble && IsSpace(c) {
        if started {
          words, word, started := words + [word], "", false;
        }
      } else {
        word, started := word + [c], true;
      }
      index := index + 1;
    }
    if inSingle || inDouble {
      return UnterminatedQuote;
    }
    if started {
      words := words + [word];
    }
    r := Words(words);
  }

  // --- printing -----------------------------------------------------------------------------

  predicate IsTroublesome(c: char) {
    c == ' ' || c == '\t' || c == '"' || c == '\'' || c == '\\' || c == '$' || c == '`'
  }

  predicate NeedsQuotes(word: string) {
    word == "" || exists c <- word :: IsTroublesome(c)
  }

  /** One character of a quoted word, escaped where it would end the quotes or start an escape. */
  function EscapedChar(c: char): string { if c == '"' || c == '\\' then ['\\', c] else [c] }

  function Escaped(word: string): string {
    if word == "" then ""
    else EscapedChar(word[0]) + Escaped(word[1..])
  }

  function Shown(word: string): (shown: string)
    ensures shown != ""
  {
    if NeedsQuotes(word) then "\"" + Escaped(word) + "\"" else word
  }

  /** The words behind the first, each behind a space. */
  function ShownTail(words: seq<string>): string {
    if words == [] then "" else " " + Shown(words[0]) + ShownTail(words[1..])
  }

  function Describe(words: seq<string>): string {
    if words == [] then "" else Shown(words[0]) + ShownTail(words[1..])
  }

  method ShowWord(argument: string) returns (shown: string)
    ensures shown == Shown(argument)
  {
    if !NeedsQuotes(argument) {
      return argument;
    }
    shown := "\"";
    for i := 0 to |argument|
      invariant shown + Escaped(argument[i..]) == "\"" + Escaped(argument)
    {
      assert argument[i..][1..] == argument[i + 1..];
      if argument[i] == '"' || argument[i] == '\\' {
        shown := shown + ['\\'];
      }
      shown := shown + [argument[i]];
    }
    shown := shown + "\"";
  }

  /** `describeCommand`. */
  method DescribeCommand(argv: seq<string>) returns (out: string)
    ensures out == Describe(argv)
  {
    out := "";
    for i := 0 to |argv|
      invariant out == "" <==> i == 0
      invariant Describe(argv) == out + Remaining(argv, i)
    {
      ghost var before := out;
      if out != "" {
        out := out + " ";
      }
      var shown := ShowWord(argv[i]);
      OneMore(argv, i, before, shown);
      out := out + shown;
    }
  }

  ghost function Remaining(words: seq<string>, i: nat): string
    requires i <= |words|
  {
    if i == 0 then Describe(words) else ShownTail(words[i..])
  }

  lemma OneMore(words: seq<string>, i: nat, before: string, shown: string)
    requires i < |words| && shown == Shown(words[i])
    ensures before + Remaining(words, i) == before + (if i == 0 then "" else " ") + shown + Remaining(words, i + 1)
  {
    assert words[i..][1..] == words[i + 1..];
  }

  // --- the printer and the reader -----------------------------------------------------------

  predicate HasVertical(word: string) { exists c <- word :: IsVertical(c) }

  /** A word the printer protects, or one that needs no protection. */
  predicate Survives(word: string) { NeedsQuotes(word) || !HasVertical(word) }

  lemma StepOver(head: string, rest: string, s: Scan)
    requires head != "" && |head| == Taken(head + rest)
    ensures ScanFrom(head + rest, s) == ScanFrom(rest, Step(head + rest, s))
  {
    assert (head + rest)[|head|..] == rest;
  }

  lemma QuotedStep(c: char, rest: string, s: Scan)
    requires s.inDouble && !s.inSingle && s.started && rest != ""
    ensures ScanFrom(EscapedChar(c) + rest, s) == ScanFrom(rest, s.(word := s.word + [c]))
  {
    StepOver(EscapedChar(c), rest, s);
  }

  lemma Regroup(word: string, c: char, tail: string)
    ensures word + [c] + tail == word + ([c] + tail)
  {}

  lemma {:induction false} QuotedScan(word: string, rest: string, s: Scan)
    requires s.inDouble && !s.inSingle && s.started
    ensures ScanFrom(Escaped(word) + "\"" + rest, s) == ScanFrom("\"" + rest, s.(word := s.word + word))
  {
    if word == "" {
      assert Escaped(word) + "\"" + rest == "\"" + rest;
      assert s.word + word == s.word;
    } else {
      var tail := Escaped(word[1..]) + "\"" + rest;
      assert Escaped(word) + "\"" + rest == EscapedChar(word[0]) + tail;
      QuotedStep(word[0], tail, s);
      QuotedScan(word[1..], rest, s.(word := s.word + [word[0]]));
      Regroup(s.word, word[0], word[1..]);
      assert [word[0]] + word[1..] == word;
    }
  }

  /** A quoted word is read back whole. */
  lemma ReadQuoted(word: string, rest: string, s: Scan)
    requires NeedsQuotes(word) && !s.inDouble && !s.inSingle
    ensures ScanFrom(Shown(word) + rest, s) == ScanFrom(rest, s.(word := s.word + word, started := true))
  {
    var tail := Escaped(word) + "\"" + rest;
    assert Shown(word) + rest == "\"" + tail;
    StepOver("\"", tail, s);
    var s1 := s.(inDouble := true, started := true);
    QuotedScan(word, rest, s1);
    StepOver("\"", rest, s1.(word := s.word + word));
  }

  /** An unquoted word is read a character at a time, before what follows it. */
  lemma {:induction false} ReadPlain(word: string, rest: string, s: Scan)
    requires !(exists c <- word :: IsTroublesome(c))
    ensures ScanFrom(word + rest, s) == ScanFrom(rest, ScanFrom(word, s))
  {
    if word == "" {
      assert word + rest == rest;
    } else {
      assert !IsTroublesome(word[0]);
      assert word + rest == [word[0]] + (word[1..] + rest);
      StepOver([word[0]], word[1..] + rest, s);
      assert word == [word[0]] + word[1..];
      StepOver([word[0]], word[1..], s);
      ReadPlain(word[1..], rest, Step(word, s));
    }
  }

  lemma {:induction false} PlainWord(word: string, s: Scan)
    requires word != "" && !(exists c <- word :: IsTroublesome(c)) && !HasVertical(word) && !s.inDouble && !s.inSingle
    ensures ScanFrom(word, s) == s.(word := s.word + word, started := true)
  {
    assert !IsTroublesome(word[0]) && !IsVertical(word[0]);
    StepOver([word[0]], word[1..], s);
    assert word == [word[0]] + word[1..];
    if |word| > 1 {
      PlainWord(word[1..], s.(word := s.word + [word[0]], started := true));
      assert s.word + [word[0]] + word[1..] == s.word + word;
    } else {
      assert word[1..] == "" && s.word + [word[0]] == s.word + word;
    }
  }

  lemma ReadWord(word: string, rest: string, s: Scan)
    requires Survives(word) && !s.inDouble && !s.inSingle
    ensures ScanFrom(Shown(word) + rest, s) == ScanFrom(rest, s.(word := s.word + word, started := true))
  {
    if NeedsQuotes(word) {
      ReadQuoted(word, rest, s);
    } else {
      ReadPlain(word, rest, s);
      PlainWord(word, s);
    }
  }

  lemma {:induction false} ReadTail(words: seq<string>, s: Scan)
    requires (forall w <- words :: Survives(w)) && !s.inDouble && !s.inSingle && s.started
    ensures Finish(ScanFrom(ShownTail(words), s)) == Words(s.words + [s.word] + words)
  {
    if words != [] {
      var rest := Shown(words[0]) + ShownTail(words[1..]);
      var s1 := Scan(s.words + [s.word], "", false, false, false);
      assert ShownTail(words) == " " + rest;
      StepOver(" ", rest, s);
      ReadWord(words[0], ShownTail(words[1..]), s1);
      assert "" + words[0] == words[0];
      ReadTail(words[1..], s1.(word := words[0], started := true));
      assert s1.words + [words[0]] + words[1..] == s.words + [s.word] + words;
    }
  }

  /** Words that survive printing are read back exactly. */
  lemma RoundTrip(words: seq<string>)
    requires forall w <- words :: Survives(w)
    ensures Tokenize(Describe(words)) == Words(words)
  {
    if words != [] {
      ReadWord(words[0], ShownTail(words[1..]), START);
      assert "" + words[0] == words[0];
      ReadTail(words[1..], START.(word := words[0], started := true));
      assert [] + [words[0]] + words[1..] == words;
    }
  }

  // --- nothing else survives ----------------------------------------------------------------

  /** Outside quotes, with every finished word one that survives. */
  ghost predicate Tidy(s: Scan) {
    !s.inDouble && !s.inSingle && Survives(s.word) && (!s.started ==> s.word == "")
        && forall w <- s.words :: Survives(w)
  }

  lemma {:induction false} PlainTidy(word: string, s: Scan)
    requires !(exists c <- word :: IsTroublesome(c)) && Tidy(s) && !HasVertical(s.word)
    ensures Tidy(ScanFrom(word, s))
  {
    if word != "" {
      assert !IsTroublesome(word[0]);
      assert word == [word[0]] + word[1..];
      StepOver([word[0]], word[1..], s);
      PlainTidy(word[1..], Step(word, s));
    }
  }

  lemma TidyWord(word: string, rest: string, s: Scan) returns (s': Scan)
    requires Tidy(s) && s.word == ""
    ensures Tidy(s') && ScanFrom(Shown(word) + rest, s) == ScanFrom(rest, s')
  {
    if NeedsQuotes(word) {
      ReadQuoted(word, rest, s);
      assert "" + word == word;
      s' := s.(word := s.word + word, started := true);
    } else {
      ReadPlain(word, rest, s);
      PlainTidy(word, s);
      s' := ScanFrom(word, s);
    }
  }

  lemma {:induction false} TidyTail(words: seq<string>, s: Scan)
    requires Tidy(s)
    ensures Tidy(ScanFrom(ShownTail(words), s))
  {
    if words != [] {
      var rest := Shown(words[0]) + ShownTail(words[1..]);
      assert ShownTail(words) == " " + rest;
      StepOver(" ", rest, s);
      var s2 := TidyWord(words[0], ShownTail(words[1..]), Step(" " + rest, s));
      TidyTail(words[1..], s2);
    }
  }

  /** Whatever is printed reads back as words, every one of which survives. */
  lemma ReadsBackTidy(words: seq<string>)
    ensures var r := Tokenize(Describe(words)); r.Words? && forall w <- r.words :: Survives(w)
  {
    if words != [] {
      var s := TidyWord(words[0], ShownTail(words[1..]), START);
      TidyTail(words[1..], s);
    }
  }

  /**
   * The line printed for a command is read back as that command exactly when every word either needs
   * quotes for some other reason or holds no line break, form feed or vertical tab.
   */
  lemma PrintedLineReadsBack(words: seq<string>)
    ensures Tokenize(Describe(words)) == Words(words) <==> forall w <- words :: NeedsQuotes(w) || !HasVertical(w)
  {
    if forall w <- words :: Survives(w) {
      RoundTrip(words);
    } else {
      ReadsBackTidy(words);
    }
  }

  /** A word that is lost: it holds a line break and nothing that makes the printer quote it. */
  lemma LostWord()
    ensures var w := ['a', '\n', 'b']; Tokenize(Describe([w])) != Words([w])
  {
    var w := ['a', '\n', 'b'];
    assert w[1] in w && IsVertical(w[1]);
    forall c | c in w ensures !IsTroublesome(c) {}
    PrintedLineReadsBack([w]);
    assert [w][0] in [w];
  }
}
