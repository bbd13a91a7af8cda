/**
 * The grammar of a response file's text, as the comment over the tokenizer states it
 * (src/driver/response_file.cc): what a single character, an escape and a quoted piece are read as, that
 * pieces in touch make one word, and that white space keeps them apart.
 */
module WordGrammar {
  import CommandWords

  type Tokens = CommandWords.Tokens
  type Scan = CommandWords.Scan

  const WHITE: set<char> := {' ', '\t', '\n', '\r', '\U{000C}', '\U{000B}'}
  const QUOTES: set<char> := {'\'', '"'}
  /** What a backslash takes the meaning from: white space, a quote, a backslash, `#` and `@`. */
  const ESCAPED: set<char> := WHITE + QUOTES + {'\\', '#', '@'}

  predicate AllWhite(text: string) { forall i :: 0 <= i < |text| ==> text[i] in WHITE }

  // --- one piece ----------------------------------------------------------------------------

  /** One character inside quotes: by itself, or behind a backslash. */
  datatype Item = Itself(c: char) | Behind(c: char)

  function Spelled(item: Item): string {
    match item
    case Itself(c) => [c]
    case Behind(c) => ['\\', c]
  }

  /** A backslash vanishes where it escapes, and stays as it is anywhere else. */
  function Meant(item: Item): string {
    if item.Itself? || item.c in ESCAPED then [item.c] else ['\\', item.c]
  }

  function AllSpelled(items: seq<Item>): string {
    if items == [] then "" else Spelled(items[0]) + AllSpelled(items[1..])
  }

  function AllMeant(items: seq<Item>): string {
    if items == [] then "" else Meant(items[0]) + AllMeant(items[1..])
  }

  /** What may stand between two `q`: neither the quote nor a backslash by itself. */
  predicate Inside(q: char, items: seq<Item>) { forall i :: 0 <= i < |items| ==> Fits(q, items[i]) }

  predicate Fits(q: char, item: Item) { item.Itself? ==> item.c != q && item.c != '\\' }

  lemma SameCharacters(c: char)
    ensures c in WHITE <==> CommandWords.IsSpace(c)
    ensures c in ESCAPED <==> CommandWords.IsEscapable(c)
  {}

  function Quoting(q: char, s: Scan): Scan
    requires q in QUOTES
  {
    if q == '\'' then s.(inSingle := true, inDouble := false, started := true)
    else s.(inSingle := false, inDouble := true, started := true)
  }

  lemma ItemStep(q: char, item: Item, rest: string, s: Scan)
    requires q in QUOTES && Fits(q, item) && s == Quoting(q, s)
    ensures CommandWords.ScanFrom(Spelled(item) + rest, s)
         == CommandWords.ScanFrom(rest, s.(word := s.word + Meant(item)))
  {
    SameCharacters(item.c);
    if item.Itself? {
      CommandWords.StepOver([item.c], rest, s);
    } else if CommandWords.IsEscapable(item.c) {
      CommandWords.StepOver(['\\', item.c], rest, s);
    } else {
      assert Spelled(item) + rest == ['\\'] + ([item.c] + rest);
      CommandWords.StepOver(['\\'], [item.c] + rest, s);
      CommandWords.StepOver([item.c], rest, s.(word := s.word + ['\\']));
      assert s.word + ['\\'] + [item.c] == s.word + Meant(item);
    }
  }

  lemma Regroup(a: string, b: string, c: string)
    ensures a + b + c == a + (b + c)
  {}

  lemma {:induction false} ItemSteps(q: char, items: seq<Item>, rest: string, s: Scan)
    requires q in QUOTES && Inside(q, items) && s == Quoting(q, s)
    ensures CommandWords.ScanFrom(AllSpelled(items) + rest, s)
         == CommandWords.ScanFrom(rest, s.(word := s.word + AllMeant(items)))
  {
    if items == [] {
      assert AllSpelled(items) + rest == rest && s.word + AllMeant(items) == s.word;
    } else {
      var first, more := items[0], items[1..];
      Regroup(Spelled(first), AllSpelled(more), rest);
      ItemStep(q, first, AllSpelled(more) + rest, s);
      ItemSteps(q, more, rest, s.(word := s.word + Meant(first)));
      Regroup(s.word, Meant(first), AllMeant(more));
    }
  }

  /** A quoted piece is one word; without its closing quote it is refused, whatever its last character. */
  lemma QuotedPiece(q: char, items: seq<Item>)
    requires q in {'\'', '"'} && Inside(q, items)
    ensures CommandWords.Tokenize([q] + AllSpelled(items) + [q]) == CommandWords.Words([AllMeant(items)])
    ensures CommandWords.Tokenize([q] + AllSpelled(items)) == CommandWords.UnterminatedQuote
    ensures CommandWords.Tokenize([q] + AllSpelled(items) + ['\\']) == CommandWords.UnterminatedQuote
  {
    var begun := Quoting(q, CommandWords.START);
    var held := begun.(word := AllMeant(items));
    assert begun.word + AllMeant(items) == AllMeant(items);
    forall rest: string
      ensures CommandWords.Tokenize([q] + AllSpelled(items) + rest)
           == CommandWords.Finish(CommandWords.ScanFrom(rest, held))
    {
      assert [q] + AllSpelled(items) + rest == [q] + (AllSpelled(items) + rest);
      CommandWords.StepOver([q], AllSpelled(items) + rest, CommandWords.START);
      ItemSteps(q, items, rest, begun);
    }
    assert [q] + AllSpelled(items) + "" == [q] + AllSpelled(items);
    assert [q] + "" == [q] && ['\\'] + "" == ['\\'];
    CommandWords.StepOver([q], "", held);
    CommandWords.StepOver(['\\'], "", held);
  }

  function Plainly(w: string): seq<Item> { seq(|w|, i requires 0 <= i < |w| => Itself(w[i])) }

  lemma {:induction false} PlainlySpelled(w: string)
    ensures AllSpelled(Plainly(w)) == w && AllMeant(Plainly(w)) == w
  {
    if w != "" {
      assert Plainly(w)[1..] == Plainly(w[1..]);
      PlainlySpelled(w[1..]);
    }
  }

  /** Between two quotes of a kind everything but that quote and a backslash stands for itself. */
  lemma QuotedWord(q: char, w: string)
    requires q in {'\'', '"'} && forall i :: 0 <= i < |w| ==> w[i] != q && w[i] != '\\'
    ensures CommandWords.Tokenize([q] + w + [q]) == CommandWords.Words([w])
    ensures CommandWords.Tokenize([q] + w) == CommandWords.UnterminatedQuote
  {
    PlainlySpelled(w);
    QuotedPiece(q, Plainly(w));
  }

  /** Outside quotes a character stands for itself, a backslash with nothing behind it included. */
  lemma BareCharacter(c: char)
    requires c !in {' ', '\t', '\n', '\r', '\U{000C}', '\U{000B}', '\'', '"'}
    ensures CommandWords.Tokenize([c]) == CommandWords.Words([[c]])
  {
    assert [c] + "" == [c] && "" + [c] == [c];
    CommandWords.StepOver([c], "", CommandWords.START);
  }

  /** Outside quotes a backslash gives what it escapes, and stays in front of anything else. */
  lemma BareEscape(c: char)
    ensures CommandWords.Tokenize(['\\', c])
         == CommandWords.Words(if c in {' ', '\t', '\n', '\r', '\U{000C}', '\U{000B}', '\'', '"', '\\', '#', '@'}
                               then [[c]] else [['\\', c]])
  {
    assert [c] + "" == [c] && ['\\', c] + "" == ['\\', c] && ['\\'] + [c] == ['\\', c];
    assert "" + [c] == [c] && "" + ['\\'] == ['\\'];
    if CommandWords.IsEscapable(c) {
      CommandWords.StepOver(['\\', c], "", CommandWords.START);
    } else {
      CommandWords.StepOver(['\\'], [c], CommandWords.START);
      CommandWords.StepOver([c], "", CommandWords.START.(word := ['\\'], started := true));
    }
  }

  // --- pieces beside each other -------------------------------------------------------------

  /** How many backslashes `a` ends in. */
  function Trailing(a: string): (n: nat)
    ensures n <= |a|
  {
    if a == "" || a[|a| - 1] != '\\' then 0 else 1 + Trailing(a[..|a| - 1])
  }

  /** Where `a` can be cut off: the last of an odd number of backslashes could escape what follows. */
  predicate CutsClean(a: string) { Trailing(a) % 2 == 0 }

  lemma {:induction false} TrailingOfRest(a: string, n: nat)
    requires n <= |a|
    ensures Trailing(a[n..]) == if Trailing(a) <= |a| - n then Trailing(a) else |a| - n
  {
    if n < |a| && a[|a| - 1] == '\\' {
      assert a[n..][..|a| - n - 1] == a[..|a| - 1][n..];
      TrailingOfRest(a[..|a| - 1], n);
    } else if n == |a| && Trailing(a) > 0 {
      TrailingOfRest(a[..|a| - 1], n - 1);
    }
  }

  /** Up to `Trailing` characters from the end every character is a backslash, and the one before is not. */
  lemma {:induction false} AllTrailing(a: string)
    ensures forall i :: |a| - Trailing(a) <= i < |a| ==> a[i] == '\\'
    ensures Trailing(a) < |a| ==> a[|a| - Trailing(a) - 1] != '\\'
  {
    if a != "" && a[|a| - 1] == '\\' {
      AllTrailing(a[..|a| - 1]);
    }
  }

  lemma CutsCleanBehindAStep(a: string)
    requires a != "" && CutsClean(a)
    ensures CutsClean(a[CommandWords.Taken(a)..])
  {
    var n := CommandWords.Taken(a);
    TrailingOfRest(a, n);
    if Trailing(a) > |a| - n {
      AllTrailing(a);
    }
  }

  lemma {:induction false} ScanInTwo(a: string, b: string, s: Scan)
    requires CutsClean(a)
    ensures CommandWords.ScanFrom(a + b, s) == CommandWords.ScanFrom(b, CommandWords.ScanFrom(a, s))
  {
    if a == "" {
      assert a + b == b;
    } else {
      var n := CommandWords.Taken(a);
      assert a == a[..n] + a[n..];
      assert a + b == a[..n] + (a[n..] + b);
      CommandWords.StepOver(a[..n], a[n..] + b, s);
      CutsCleanBehindAStep(a);
      assert CommandWords.Taken(a + b) == n by {
        if |a| == 1 {
          assert Trailing(a[..0]) == 0;
        }
      }
      assert CommandWords.Step(a + b, s) == CommandWords.Step(a, s);
      ScanInTwo(a[n..], b, CommandWords.Step(a, s));
    }
  }

  /** A text that does not end in white space ends inside a word. */
  lemma {:induction false} EndsInAWord(a: string, s: Scan)
    requires a != "" && a[|a| - 1] !in WHITE
    ensures CommandWords.ScanFrom(a, s).started
  {
    var n := CommandWords.Taken(a);
    if n < |a| {
      EndsInAWord(a[n..], CommandWords.Step(a, s));
    } else {
      assert a[n..] == "";
    }
  }

  lemma {:induction false} WhiteIsSkipped(gap: string, s: Scan)
    requires AllWhite(gap) && !s.inSingle && !s.inDouble && !s.started
    ensures CommandWords.ScanFrom(gap, s) == s
  {
    if gap != "" {
      assert gap[0] in WHITE;
      WhiteIsSkipped(gap[1..], s);
    }
  }

  lemma {:induction false} WordsBefore(text: string, words: seq<string>, s: Scan)
    ensures var r := CommandWords.ScanFrom(text, s);
            CommandWords.ScanFrom(text, s.(words := words + s.words)) == r.(words := words + r.words)
  {
    if text != "" {
      var s' := CommandWords.Step(text, s);
      assert words + (s.words + [s.word]) == words + s.words + [s.word];
      assert CommandWords.Step(text, s.(words := words + s.words)) == s'.(words := words + s'.words);
      WordsBefore(text[CommandWords.Taken(text)..], words, s');
    }
  }

  /** The words of two texts one after the other, of which either may be refused. */
  function InSequence(a: Tokens, b: Tokens): Tokens {
    if a.Words? && b.Words? then CommandWords.Words(a.words + b.words) else CommandWords.UnterminatedQuote
  }

  /** The same where the last word of the first runs into the first of the second. */
  function InTouch(a: Tokens, b: Tokens): Tokens {
    if a.Words? && b.Words? && a.words != [] && b.words != [] then
      CommandWords.Words(a.words[..|a.words| - 1] + [a.words[|a.words| - 1] + b.words[0]] + b.words[1..])
    else CommandWords.UnterminatedQuote
  }

  /** White space outside quotes keeps what is around it apart, and any amount of it does so once. */
  lemma SpaceSeparates(a: string, gap: string, b: string)
    requires CutsClean(a) && CommandWords.Tokenize(a).Words?
    requires gap != "" && forall i :: 0 <= i < |gap| ==> gap[i] in {' ', '\t', '\n', '\r', '\U{000C}', '\U{000B}'}
    ensures CommandWords.Tokenize(a + gap + b) == InSequence(CommandWords.Tokenize(a), CommandWords.Tokenize(b))
  {
    var s := CommandWords.ScanFrom(a, CommandWords.START);
    var words := CommandWords.Tokenize(a).words;
    assert a + gap + b == a + (gap + b);
    ScanInTwo(a, gap + b, CommandWords.START);
    assert gap == [gap[0]] + gap[1..] && gap[0] in WHITE;
    assert gap + b == [gap[0]] + (gap[1..] + b);
    CommandWords.StepOver([gap[0]], gap[1..] + b, s);
    UnstartedIsEmpty(a, CommandWords.START);
    var parted := CommandWords.START.(words := words);
    assert CommandWords.Step(gap + b, s) == parted;
    assert AllWhite(gap[1..]);
    WhiteIsSkipped(gap[1..], parted);
    ScanInTwo(gap[1..], b, parted);
    WordsBefore(b, words, CommandWords.START);
    assert words + CommandWords.START.words == words;
    FinishBehind(words, CommandWords.ScanFrom(b, CommandWords.START));
  }

  lemma FinishBehind(words: seq<string>, r: Scan)
    ensures CommandWords.Finish(r.(words := words + r.words))
         == InSequence(CommandWords.Words(words), CommandWords.Finish(r))
  {
    assert words + (r.words + [r.word]) == words + r.words + [r.word];
  }

  lemma {:induction false} UnstartedIsEmpty(text: string, s: Scan)
    requires s.started || s.word == ""
    ensures var r := CommandWords.ScanFrom(text, s); r.started || r.word == ""
  {
    if text != "" {
      UnstartedIsEmpty(text[CommandWords.Taken(text)..], CommandWords.Step(text, s));
    }
  }

  /** `s` with `words` before it and its first word behind `word`. */
  function Continued(words: seq<string>, word: string, s: Scan): Scan {
    if s.words == [] then s.(words := words, word := word + s.word)
    else s.(words := words + [word + s.words[0]] + s.words[1..])
  }

  lemma {:induction false} WordBefore(text: string, words: seq<string>, word: string, s: Scan)
    requires s.words == [] ==> s.started
    ensures var r := CommandWords.ScanFrom(text, s);
            (r.words == [] ==> r.started)
              && CommandWords.ScanFrom(text, Continued(words, word, s)) == Continued(words, word, r)
  {
    if text != "" {
      var s' := CommandWords.Step(text, s);
      StepsAlike(text, words, word, s);
      WordBefore(text[CommandWords.Taken(text)..], words, word, s');
    }
  }

  lemma StepsAlike(text: string, words: seq<string>, word: string, s: Scan)
    requires text != "" && (s.words == [] ==> s.started)
    ensures var s' := CommandWords.Step(text, s);
            (s'.words == [] ==> s'.started)
              && CommandWords.Step(text, Continued(words, word, s)) == Continued(words, word, s')
  {
    forall more: string ensures word + s.word + more == word + (s.word + more) {}
    if s.words != [] {
      assert (s.words + [s.word])[1..] == s.words[1..] + [s.word];
    }
  }

  lemma FirstStep(text: string, s: Scan)
    requires text != "" && text[0] !in WHITE && s.started && !s.inSingle && !s.inDouble
    ensures var s' := CommandWords.Step(text, CommandWords.START);
            s'.started && s'.words == [] && CommandWords.Step(text, s) == Continued(s.words, s.word, s')
  {
    SameCharacters(text[0]);
    assert forall more: string :: "" + more == more;
    assert s.word + "" == s.word;
  }

  lemma FinishContinued(words: seq<string>, word: string, r: Scan)
    requires r.words == [] ==> r.started
    ensures CommandWords.Finish(Continued(words, word, r))
         == InTouch(CommandWords.Words(words + [word]), CommandWords.Finish(r))
  {
    assert (words + [word])[..|words|] == words;
    if r.words != [] {
      assert (r.words + [r.word])[1..] == r.words[1..] + [r.word];
    }
  }

  /** Pieces with no white space where they meet make one word of the two that meet. */
  lemma PiecesJoin(a: string, b: string)
    requires CutsClean(a) && CommandWords.Tokenize(a).Words? && a != "" && b != ""
    requires a[|a| - 1] !in {' ', '\t', '\n', '\r', '\U{000C}', '\U{000B}'}
    requires b[0] !in {' ', '\t', '\n', '\r', '\U{000C}', '\U{000B}'}
    ensures CommandWords.Tokenize(a + b) == InTouch(CommandWords.Tokenize(a), CommandWords.Tokenize(b))
  {
    var s := CommandWords.ScanFrom(a, CommandWords.START);
    ScanInTwo(a, b, CommandWords.START);
    EndsInAWord(a, CommandWords.START);
    FirstStep(b, s);
    WordBefore(b[CommandWords.Taken(b)..], s.words, s.word, CommandWords.Step(b, CommandWords.START));
    FinishContinued(s.words, s.word, CommandWords.ScanFrom(b, CommandWords.START));
  }

  // --- how a word is printed ----------------------------------------------------------------

  lemma {:induction false} EscapedLength(w: string)
    ensures |CommandWords.Escaped(w)| == |w| + multiset(w)['"'] + multiset(w)['\\']
  {
    if w != "" {
      assert w == [w[0]] + w[1..];
      EscapedLength(w[1..]);
    }
  }

  /**
   * A word is printed as it is exactly when it is not empty and holds nothing a shell would take for
   * something else; otherwise in double quotes, with one more character for each quote and backslash in it.
   */
  lemma PrintedAsItIs(w: string)
    ensures CommandWords.Shown(w) == w
       <==> w != "" && forall i :: 0 <= i < |w| ==> w[i] !in {' ', '\t', '"', '\'', '\\', '$', '`'}
    ensures CommandWords.Shown(w) == w || |CommandWords.Shown(w)| == 2 + |w| + multiset(w)['"'] + multiset(w)['\\']
    ensures CommandWords.Shown(w) == w
         || CommandWords.Shown(w)[0] == '"' == CommandWords.Shown(w)[|CommandWords.Shown(w)| - 1]
  {
    EscapedLength(w);
    if exists i :: 0 <= i < |w| && CommandWords.IsTroublesome(w[i]) {
      var i :| 0 <= i < |w| && CommandWords.IsTroublesome(w[i]);
      assert w[i] in w;
    }
  }

  /** A printed line grows by a space and a word. */
  lemma {:induction false} PrintedBehindASpace(words: seq<string>, w: string)
    ensures CommandWords.Describe(words + [w])
         == if words == [] then CommandWords.Shown(w) else CommandWords.Describe(words) + " " + CommandWords.Shown(w)
  {
    if words != [] {
      TailBehindASpace(words[1..], w);
      assert (words + [w])[1..] == words[1..] + [w];
    }
  }

  lemma {:induction false} TailBehindASpace(words: seq<string>, w: string)
    ensures CommandWords.ShownTail(words + [w]) == CommandWords.ShownTail(words) + " " + CommandWords.Shown(w)
  {
    if words != [] {
      TailBehindASpace(words[1..], w);
      assert (words + [w])[1..] == words[1..] + [w];
    }
  }
}
