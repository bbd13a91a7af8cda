/** Response-file expansion (src/driver/response_file.cc) over any file system and any notion of a file's identity. */
module ResponseFiles {
  import opened CommandWords

  const MAX_DEPTH: nat := 16

  datatype Read = Text(text: string) | Unreadable(reason: string)
  type FileSystem = string -> Read
  /** `canonicalPath`. */
  type Canonical = string -> string

  datatype Failure = NoFailure | BareAt | TooDeep(word: string) | IncludesItself(word: string)
                   | CannotRead(word: string, reason: string) | BadQuoting(word: string)

  datatype Expansion = Expansion(words: seq<string>, failure: Failure)

  predicate NamesFile(word: string) { word != "" && word[0] == '@' }

  // --- what expansion is --------------------------------------------------------------------

  /** One word, with the files of `chain` being expanded around it. */
  function ExpandWord(fs: FileSystem, canonical: Canonical, word: string, chain: seq<string>): Expansion
    decreases MAX_DEPTH - |chain|, 0, 0
  {
    if !NamesFile(word) then Expansion([word], NoFailure)
    else if |word| == 1 then Expansion([], BareAt)
    else if |chain| >= MAX_DEPTH then Expansion([], TooDeep(word))
    else if canonical(word[1..]) in chain then Expansion([], IncludesItself(word))
    else match fs(word[1..])
      case Unreadable(reason) => Expansion([], CannotRead(word, reason))
      case Text(text) =>
        match Tokenize(text)
        case UnterminatedQuote => Expansion([], BadQuoting(word))
        case Words(words) => ExpandWords(fs, canonical, words, chain + [canonical(word[1..])])
  }

  /** Words in order, up to the first that fails. */
  function ExpandWords(fs: FileSystem, canonical: Canonical, words: seq<string>, chain: seq<string>): Expansion
    decreases MAX_DEPTH - |chain|, 1, |words|
  {
    if words == [] then Expansion([], NoFailure)
    else
      var n := |words| - 1;
      var before := ExpandWords(fs, canonical, words[..n], chain);
      if before.failure != NoFailure then before
      else
        var last := ExpandWord(fs, canonical, words[n], chain);
        Expansion(before.words + last.words, last.failure)
  }

  class Expander {
    const fs: FileSystem
    const canonical: Canonical
    /** The identity of every file being expanded, outermost first. */
    var chain: seq<string>
    var out: seq<string>
    var failure: Failure

    constructor (fs: FileSystem, canonical: Canonical)
      ensures this.fs == fs && this.canonical == canonical && chain == [] && out == [] && failure == NoFailure
    {
      this.fs, this.canonical := fs, canonical;
      chain, out, failure := [], [], NoFailure;
    }

    ghost predicate NoRepeats()
      reads this
    {
      forall i, j :: 0 <= i < j < |chain| ==> chain[i] != chain[j]
    }

    /** `expandWord`; `depth` is how many files are open around the word. */
    method Word(word: string, depth: nat)
      requires failure == NoFailure && |chain| == depth <= MAX_DEPTH && NoRepeats()
      modifies this`chain, this`out, this`failure
      ensures chain == old(chain)
      ensures var e := ExpandWord(fs, canonical, word, chain); out == old(out) + e.words && failure == e.failure
      decreases MAX_DEPTH - depth, 1
    {
      if !NamesFile(word) {
        out := out + [word];
        return;
      }
      if |word| == 1 {
        failure := BareAt;
        return;
      }
      if depth >= MAX_DEPTH {
        failure := TooDeep(word);
        return;
      }
      File(word[1..], word, depth);
    }

    /** `expandFile`. */
    method File(path: string, name: string, depth: nat)
      requires failure == NoFailure && |chain| == depth < MAX_DEPTH && NoRepeats()
      requires NamesFile(name) && |name| > 1 && path == name[1..]
      modifies this`chain, this`out, this`failure
      ensures chain == old(chain)
      ensures var e := ExpandWord(fs, canonical, name, chain); out == old(out) + e.words && failure == e.failure
      decreases MAX_DEPTH - depth, 0
    {
      var identity := canonical(path);
      for i := 0 to |chain|
        invariant forall j :: 0 <= j < i ==> chain[j] != identity
      {
        if chain[i] == identity {
          failure := IncludesItself(name);
          return;
        }
      }
      var text := fs(path);
      if text.Unreadable? {
        failure := CannotRead(name, text.reason);
        return;
      }
      var tokens := ReadWords(text.text);
      if tokens.UnterminatedQuote? {
        failure := BadQuoting(name);
        return;
      }
      chain := chain + [identity];
      FileWords(tokens.words, depth + 1);
      chain := chain[..|chain| - 1];
    }

    /** The words of one file, up to the first that fails. */
    method FileWords(words: seq<string>, depth: nat)
      requires failure == NoFailure && |chain| == depth <= MAX_DEPTH && NoRepeats()
      modifies this`chain, this`out, this`failure
      ensures chain == old(chain)
      ensures var e := ExpandWords(fs, canonical, words, chain); out == old(out) + e.words && failure == e.failure
      decreases MAX_DEPTH - depth, 2
    {
      ghost var inside, before := chain, out;
      var i := 0;
      while i < |words| && failure == NoFailure
        invariant i <= |words| && chain == inside
        invariant var e := ExpandWords(fs, canonical, words[..i], inside);
                  out == before + e.words && failure == e.failure
      {
        Word(words[i], depth);
        assert words[..i + 1][..i] == words[..i];
        i := i + 1;
      }
      StoppedAt(fs, canonical, words, i, inside);
    }
  }

  /** Nothing behind the first failure is expanded. */
  lemma {:induction false} StoppedAt(fs: FileSystem, canonical: Canonical, words: seq<string>, i: nat,
                                     chain: seq<string>)
    requires i <= |words|
    requires i == |words| || ExpandWords(fs, canonical, words[..i], chain).failure != NoFailure
    ensures ExpandWords(fs, canonical, words, chain) == ExpandWords(fs, canonical, words[..i], chain)
  {
    if i < |words| {
      var n := |words| - 1;
      assert words[..n][..i] == words[..i];
      StoppedAt(fs, canonical, words[..n], i, chain);
    } else {
      assert words[..i] == words;
    }
  }

  // --- when it succeeds ---------------------------------------------------------------------

  /** The word names a file that can be read and split into words. */
  predicate Opens(fs: FileSystem, word: string) {
    NamesFile(word) && |word| > 1 && fs(word[1..]).Text? && Tokenize(fs(word[1..]).text).Words?
  }

  function WordsIn(fs: FileSystem, word: string): seq<string>
    requires Opens(fs, word)
  {
    Tokenize(fs(word[1..]).text).words
  }

  /** A path of nested words: each names a file, and the next is a word of that file. */
  ghost predicate Nests(fs: FileSystem, path: seq<string>) {
    path != [] && forall i :: 0 <= i < |path| - 1 ==> Opens(fs, path[i]) && path[i + 1] in WordsIn(fs, path[i])
  }

  function IdentityOf(canonical: Canonical, word: string): string {
    if word == "" then "" else canonical(word[1..])
  }

  /** The files opened on a path before its last word. */
  function Around(canonical: Canonical, path: seq<string>): seq<string> {
    if |path| <= 1 then [] else [IdentityOf(canonical, path[0])] + Around(canonical, path[1..])
  }

  /**
   * The last word of a path is no `@`-word, or a file that opens, is not already open, and is at most the
   * sixteenth.
   */
  ghost predicate EndsWell(fs: FileSystem, canonical: Canonical, chain: seq<string>, path: seq<string>)
    requires path != []
  {
    var word := path[|path| - 1];
    NamesFile(word) ==>
      && Opens(fs, word) && |chain + Around(canonical, path)| < MAX_DEPTH
      && IdentityOf(canonical, word) !in chain + Around(canonical, path)
  }

  ghost predicate AllPathsEndWell(fs: FileSystem, canonical: Canonical, chain: seq<string>, word: string) {
    forall path :: Nests(fs, path) && path[0] == word ==> EndsWell(fs, canonical, chain, path)
  }

  lemma {:induction false} EachWordSucceeds(fs: FileSystem, canonical: Canonical, words: seq<string>,
                                            chain: seq<string>)
    ensures ExpandWords(fs, canonical, words, chain).failure == NoFailure
            <==> forall w <- words :: ExpandWord(fs, canonical, w, chain).failure == NoFailure
  {
    if words != [] {
      var n := |words| - 1;
      EachWordSucceeds(fs, canonical, words[..n], chain);
      assert words[n] in words && forall w <- words[..n] :: w in words;
      assert forall w <- words :: w in words[..n] || w == words[n];
    }
  }

  /** Expansion succeeds exactly when every path of nested words ends well. */
  lemma {:induction false} SucceedsExactlyWhen(fs: FileSystem, canonical: Canonical, word: string, chain: seq<string>)
    ensures ExpandWord(fs, canonical, word, chain).failure == NoFailure <==> AllPathsEndWell(fs, canonical, chain, word)
    decreases MAX_DEPTH - |chain|
  {
    assert Nests(fs, [word]) && Around(canonical, [word]) == [] && chain + [] == chain;
    if NamesFile(word) && EndsWell(fs, canonical, chain, [word]) {
      var inside := chain + [canonical(word[1..])];
      EachWordSucceeds(fs, canonical, WordsIn(fs, word), inside);
      forall w | w in WordsIn(fs, word)
        ensures ExpandWord(fs, canonical, w, inside).failure == NoFailure <==> AllPathsEndWell(fs, canonical, inside, w)
      {
        SucceedsExactlyWhen(fs, canonical, w, inside);
      }
      OneLevel(fs, canonical, chain, word);
    } else if !NamesFile(word) {
      forall path | Nests(fs, path) && path[0] == word ensures EndsWell(fs, canonical, chain, path) {
        assert |path| == 1;
      }
    }
  }

  /** The paths of a file that opens are itself and its words' paths behind it. */
  lemma OneLevel(fs: FileSystem, canonical: Canonical, chain: seq<string>, word: string)
    requires Opens(fs, word) && EndsWell(fs, canonical, chain, [word])
    ensures var inside := chain + [canonical(word[1..])];
            AllPathsEndWell(fs, canonical, chain, word)
            <==> forall w <- WordsIn(fs, word) :: AllPathsEndWell(fs, canonical, inside, w)
  {
    var inside := chain + [canonical(word[1..])];
    forall path | Nests(fs, path) && path[0] == word && |path| > 1
      ensures Nests(fs, path[1..]) && path[1] in WordsIn(fs, word)
      ensures EndsWell(fs, canonical, chain, path) <==> EndsWell(fs, canonical, inside, path[1..])
    {
      Deeper(fs, canonical, chain, path);
    }
    forall w, path | w in WordsIn(fs, word) && Nests(fs, path) && path[0] == w
      ensures Nests(fs, [word] + path) && ([word] + path)[0] == word
      ensures EndsWell(fs, canonical, chain, [word] + path) <==> EndsWell(fs, canonical, inside, path)
    {
      Deeper(fs, canonical, chain, [word] + path);
      assert ([word] + path)[1..] == path;
    }
  }

  lemma Deeper(fs: FileSystem, canonical: Canonical, chain: seq<string>, path: seq<string>)
    requires Nests(fs, path) && |path| > 1
    ensures Nests(fs, path[1..])
    ensures EndsWell(fs, canonical, chain, path) <==>
            EndsWell(fs, canonical, chain + [IdentityOf(canonical, path[0])], path[1..])
  {
    assert chain + Around(canonical, path) == chain + [IdentityOf(canonical, path[0])] + Around(canonical, path[1..]);
  }

  // --- in order -----------------------------------------------------------------------------

  /** Words are expanded from the first to the last, each where it stood, up to a failure. */
  lemma {:induction false} ExpandedInOrder(fs: FileSystem, canonical: Canonical, a: seq<string>, b: seq<string>,
                                           chain: seq<string>)
    ensures var e, f := ExpandWords(fs, canonical, a, chain), ExpandWords(fs, canonical, b, chain);
            ExpandWords(fs, canonical, a + b, chain) ==
              if e.failure != NoFailure then e else Expansion(e.words + f.words, f.failure)
  {
    if b == [] {
      assert a + b == a;
      assert ExpandWords(fs, canonical, a, chain).words + [] == ExpandWords(fs, canonical, a, chain).words;
    } else {
      var n := |b| - 1;
      assert (a + b)[..|a| + n] == a + b[..n] && (a + b)[|a| + n] == b[n];
      ExpandedInOrder(fs, canonical, a, b[..n], chain);
      Behind(ExpandWords(fs, canonical, a, chain).words, ExpandWords(fs, canonical, b[..n], chain).words,
             ExpandWord(fs, canonical, b[n], chain).words);
    }
  }

  /** Words that name no file stand for themselves, on the line and in a file. */
  lemma {:induction false} PlainWordsStay(fs: FileSystem, canonical: Canonical, words: seq<string>, chain: seq<string>)
    requires forall i :: 0 <= i < |words| && words[i] != "" ==> words[i][0] != '@'
    ensures ExpandWords(fs, canonical, words, chain) == Expansion(words, NoFailure)
  {
    if words != [] {
      var n := |words| - 1;
      PlainWordsStay(fs, canonical, words[..n], chain);
      assert words == words[..n] + [words[n]];
    }
  }

  /** A word that names a file stands for the words of that file. */
  lemma PlainFileIsItsWords(fs: FileSystem, canonical: Canonical, file: string, words: seq<string>)
    requires file != "" && fs(file).Text? && Tokenize(fs(file).text) == Words(words)
    requires forall i :: 0 <= i < |words| && words[i] != "" ==> words[i][0] != '@'
    ensures ExpandWord(fs, canonical, "@" + file, []) == Expansion(words, NoFailure)
  {
    assert ("@" + file)[1..] == file;
    PlainWordsStay(fs, canonical, words, [canonical(file)]);
    assert [] + [canonical(file)] == [canonical(file)];
  }

  // --- why it fails -------------------------------------------------------------------------

  /** The reason `f` is what is wrong with the last word of a path, the files of `chain` being open around it. */
  ghost predicate Explains(fs: FileSystem, canonical: Canonical, chain: seq<string>, path: seq<string>, f: Failure)
    requires path != []
  {
    var word, open := path[|path| - 1], chain + Around(canonical, path);
    var reached := |word| > 1 && |open| < 16 && canonical(word[1..]) !in open;
    && word != "" && word[0] == '@'
    && (f != NoFailure && f != BareAt ==> |word| > 1 && f.word == word)
    && match f
       case NoFailure => false
       case BareAt => word == "@"
       case TooDeep(_) => |open| >= 16
       case IncludesItself(_) => |open| < 16 && canonical(word[1..]) in open
       case CannotRead(_, reason) => reached && fs(word[1..]) == Unreadable(reason)
       case BadQuoting(_) => reached && fs(word[1..]).Text? && Tokenize(fs(word[1..]).text) == UnterminatedQuote
  }

  ghost predicate IsExplained(fs: FileSystem, canonical: Canonical, chain: seq<string>, word: string, f: Failure) {
    exists path :: Nests(fs, path) && path[0] == word && Explains(fs, canonical, chain, path, f)
  }

  /** A failure is the failure of a path of nested words. */
  lemma {:induction false} FailureIsExplained(fs: FileSystem, canonical: Canonical, word: string, chain: seq<string>)
    requires ExpandWord(fs, canonical, word, chain).failure != NoFailure
    ensures IsExplained(fs, canonical, chain, word, ExpandWord(fs, canonical, word, chain).failure)
    decreases MAX_DEPTH - |chain|, 0
  {
    var f := ExpandWord(fs, canonical, word, chain).failure;
    assert Nests(fs, [word]) && Around(canonical, [word]) == [] && chain + [] == chain;
    if Opens(fs, word) && |chain| < MAX_DEPTH && canonical(word[1..]) !in chain {
      var inside := chain + [canonical(word[1..])];
      var w := OneIsExplained(fs, canonical, WordsIn(fs, word), inside);
      var path :| Nests(fs, path) && path[0] == w && Explains(fs, canonical, inside, path, f);
      ExplainedFromOutside(fs, canonical, chain, word, path, f);
    } else {
      assert Explains(fs, canonical, chain, [word], f);
    }
  }

  lemma ExplainedFromOutside(fs: FileSystem, canonical: Canonical, chain: seq<string>, word: string,
                             path: seq<string>, f: Failure)
    requires Opens(fs, word) && Nests(fs, path) && path[0] in WordsIn(fs, word)
    requires Explains(fs, canonical, chain + [canonical(word[1..])], path, f)
    ensures IsExplained(fs, canonical, chain, word, f)
  {
    var longer := [word] + path;
    assert longer[1..] == path;
    assert chain + Around(canonical, longer) == chain + [canonical(word[1..])] + Around(canonical, path);
    assert Nests(fs, longer) && longer[0] == word && longer[|longer| - 1] == path[|path| - 1];
    assert Explains(fs, canonical, chain, longer, f);
  }

  lemma {:induction false} OneIsExplained(fs: FileSystem, canonical: Canonical, words: seq<string>, chain: seq<string>)
    returns (w: string)
    requires ExpandWords(fs, canonical, words, chain).failure != NoFailure
    ensures w in words && IsExplained(fs, canonical, chain, w, ExpandWords(fs, canonical, words, chain).failure)
    decreases MAX_DEPTH - |chain|, 1, |words|
  {
    var n := |words| - 1;
    if ExpandWords(fs, canonical, words[..n], chain).failure != NoFailure {
      w := OneIsExplained(fs, canonical, words[..n], chain);
    } else {
      FailureIsExplained(fs, canonical, words[n], chain);
      w := words[n];
    }
  }

  lemma {:induction false} AroundIsTheRest(canonical: Canonical, path: seq<string>)
    requires path != [] && forall i :: 0 <= i < |path| - 1 ==> path[i] != ""
    ensures var open := Around(canonical, path);
            |open| == |path| - 1 && forall i :: 0 <= i < |open| ==> open[i] == canonical(path[i][1..])
  {
    if |path| > 1 {
      AroundIsTheRest(canonical, path[1..]);
    }
  }

  /** Each word names a file whose words hold the next one. */
  ghost predicate LeadsOn(fs: FileSystem, path: seq<string>) {
    forall i :: 0 <= i < |path| - 1 ==> path[i] != "" && path[i + 1] in WordsOf(fs, path[i][1..])
  }

  /** The words of the file at a path, none where there are none to read. */
  function WordsOf(fs: FileSystem, file: string): seq<string> {
    if fs(file).Text? && Tokenize(fs(file).text).Words? then Tokenize(fs(file).text).words else []
  }

  /**
   * An argument that fails leads to the word that failed: the seventeenth on its path is too deep, and one
   * that includes itself names a file already named on the way to it.
   */
  lemma ArgumentFailsFor(fs: FileSystem, canonical: Canonical, word: string)
    requires ExpandWord(fs, canonical, word, []).failure != NoFailure
    ensures var f := ExpandWord(fs, canonical, word, []).failure;
            exists path: seq<string> ::
              path != [] && path[0] == word && LeadsOn(fs, path) && FailsFor(fs, canonical, path, f)
  {
    var f := ExpandWord(fs, canonical, word, []).failure;
    FailureIsExplained(fs, canonical, word, []);
    var path :| Nests(fs, path) && path[0] == word && Explains(fs, canonical, [], path, f);
    PathFailsFor(fs, canonical, path, f);
  }

  /** The last word of a path names a file that an earlier one names too. */
  ghost predicate Repeats(canonical: Canonical, path: seq<string>)
    requires path != [] && path[|path| - 1] != ""
  {
    var last := path[|path| - 1];
    exists i :: 0 <= i < |path| - 1 && path[i] != "" && canonical(path[i][1..]) == canonical(last[1..])
  }

  ghost predicate FailsFor(fs: FileSystem, canonical: Canonical, path: seq<string>, f: Failure)
    requires path != []
  {
    var last := path[|path| - 1];
    && last != "" && last[0] == '@' && f != NoFailure && (f == BareAt <==> last == "@")
    && (f != BareAt ==> f.word == last)
    && (f.TooDeep? <==> last != "@" && |path| > 16)
    && (f.IncludesItself? <==> last != "@" && |path| <= 16 && Repeats(canonical, path))
    && (f.CannotRead? ==> fs(last[1..]) == Unreadable(f.reason))
    && (f.BadQuoting? ==> fs(last[1..]).Text? && Tokenize(fs(last[1..]).text) == UnterminatedQuote)
  }

  lemma OpenBefore(canonical: Canonical, path: seq<string>)
    requires path != [] && path[|path| - 1] != "" && forall i :: 0 <= i < |path| - 1 ==> path[i] != ""
    ensures |Around(canonical, path)| == |path| - 1
    ensures canonical(path[|path| - 1][1..]) in Around(canonical, path) <==> Repeats(canonical, path)
  {
    var open, last := Around(canonical, path), path[|path| - 1];
    AroundIsTheRest(canonical, path);
    if canonical(last[1..]) in open {
      var i :| 0 <= i < |open| && open[i] == canonical(last[1..]);
      assert path[i] != "" && canonical(path[i][1..]) == canonical(last[1..]);
    }
  }

  lemma PathFailsFor(fs: FileSystem, canonical: Canonical, path: seq<string>, f: Failure)
    requires Nests(fs, path) && Explains(fs, canonical, [], path, f)
    ensures LeadsOn(fs, path) && FailsFor(fs, canonical, path, f)
  {
    OpenBefore(canonical, path);
    assert [] + Around(canonical, path) == Around(canonical, path);
  }

  // --- what it gives ------------------------------------------------------------------------

  /** Plain textual splicing, `fuel` levels deep, with no check at all. */
  function Splice(fs: FileSystem, word: string, fuel: nat): seq<string>
    decreases fuel, 0, 0
  {
    if fuel == 0 || !Opens(fs, word) then [word] else SpliceAll(fs, WordsIn(fs, word), fuel - 1)
  }

  function SpliceAll(fs: FileSystem, words: seq<string>, fuel: nat): seq<string>
    decreases fuel, 1, |words|
  {
    if words == [] then [] else SpliceAll(fs, words[..|words| - 1], fuel) + Splice(fs, words[|words| - 1], fuel)
  }

  /**
   * The words collected are a first part of the depth-first splice; all of it, with no `@`-word left,
   * when nothing failed.
   */
  lemma {:induction false} ExpansionIsSplice(fs: FileSystem, canonical: Canonical, word: string, chain: seq<string>)
    requires |chain| <= MAX_DEPTH
    ensures var e, all := ExpandWord(fs, canonical, word, chain), Splice(fs, word, MAX_DEPTH - |chain|);
            e.words <= all && (e.failure == NoFailure ==> e.words == all && forall w <- e.words :: !NamesFile(w))
    decreases MAX_DEPTH - |chain|, 0, 0
  {
    if Opens(fs, word) && |chain| < MAX_DEPTH && canonical(word[1..]) !in chain {
      WordsAreSplice(fs, canonical, WordsIn(fs, word), chain + [canonical(word[1..])]);
    }
  }

  lemma {:induction false} WordsAreSplice(fs: FileSystem, canonical: Canonical, words: seq<string>, chain: seq<string>)
    requires |chain| <= MAX_DEPTH
    ensures var e, all := ExpandWords(fs, canonical, words, chain), SpliceAll(fs, words, MAX_DEPTH - |chain|);
            e.words <= all && (e.failure == NoFailure ==> e.words == all && forall w <- e.words :: !NamesFile(w))
    decreases MAX_DEPTH - |chain|, 1, |words|
  {
    if words != [] {
      var n := |words| - 1;
      WordsAreSplice(fs, canonical, words[..n], chain);
      ExpansionIsSplice(fs, canonical, words[n], chain);
    }
  }

  // --- the command line ---------------------------------------------------------------------

  /** An element of `argv`, which may be null. */
  datatype Argument = Null | Arg(word: string)

  datatype CommandLine = CommandLine(words: seq<string>, failure: Failure)

  /** The words of an argument list, its null elements skipped. */
  function Present(argv: seq<Argument>): seq<string> {
    if argv == [] then []
    else Present(argv[..|argv| - 1]) + (if argv[|argv| - 1].Arg? then [argv[|argv| - 1].word] else [])
  }

  /** `argv[0]`, which is never a response file. */
  function Program(argv: seq<Argument>): seq<string> {
    if argv == [] then [] else Present([argv[0]])
  }

  function Arguments(argv: seq<Argument>): seq<string> {
    if argv == [] then [] else Present(argv[1..])
  }

  /** Argument `k` is the first that fails; it and all behind it are kept unexpanded behind what was collected. */
  ghost predicate FailsAt(fs: FileSystem, canonical: Canonical, argv: seq<Argument>, k: nat, line: CommandLine) {
    var arguments := Arguments(argv);
    && k < |arguments|
    && ExpandWords(fs, canonical, arguments[..k], []).failure == NoFailure
    && line.failure == ExpandWord(fs, canonical, arguments[k], []).failure != NoFailure
    && line.words == Program(argv) + ExpandWords(fs, canonical, arguments[..k + 1], []).words + arguments[k..]
  }

  /** What `expandResponseFiles` promises. */
  ghost predicate Expands(fs: FileSystem, canonical: Canonical, argv: seq<Argument>, line: CommandLine) {
    if line.failure == NoFailure then
      var e := ExpandWords(fs, canonical, Arguments(argv), []);
      e.failure == NoFailure && line.words == Program(argv) + e.words
    else
      exists k :: FailsAt(fs, canonical, argv, k, line)
  }

  /** The arguments without the null ones, in order. */
  lemma {:induction false} PresentIsInOrder(argv: seq<Argument>, words: seq<string>)
    requires |argv| == |words| && forall i :: 0 <= i < |argv| ==> argv[i] == Arg(words[i])
    ensures Present(argv) == words && Present(argv + [Null]) == words
  {
    assert (argv + [Null])[..|argv|] == argv;
    if argv != [] {
      var n := |argv| - 1;
      PresentIsInOrder(argv[..n], words[..n]);
      assert words == words[..n] + [words[n]];
    }
  }

  lemma {:induction false} PresentSplit(argv: seq<Argument>, i: nat)
    requires i <= |argv|
    ensures Present(argv) == Present(argv[..i]) + Present(argv[i..])
  {
    if i < |argv| {
      var n := |argv| - 1;
      PresentSplit(argv[..n], i);
      assert argv[..n][..i] == argv[..i] && argv[..n][i..] == argv[i..][..n - i];
    } else {
      assert argv[..i] == argv;
    }
  }

  lemma PresentMore(argv: seq<Argument>, i: nat, j: nat)
    requires i <= j < |argv|
    ensures Present(argv[i..j + 1]) == Present(argv[i..j]) + (if argv[j].Arg? then [argv[j].word] else [])
  {
    assert argv[i..j + 1][..j - i] == argv[i..j];
  }

  /** Where argument `argv[i]` stands among the words that are there. */
  lemma Position(argv: seq<Argument>, i: nat)
    requires 1 <= i < |argv| && argv[i].Arg?
    ensures var k := |Present(argv[1..i])|;
            && k < |Arguments(argv)| && Arguments(argv)[..k] == Present(argv[1..i])
            && Arguments(argv)[k] == argv[i].word && Arguments(argv)[k..] == Present(argv[i..])
  {
    PresentSplit(argv[1..], i - 1);
    PresentSplit(argv[i..], 1);
    assert argv[1..][..i - 1] == argv[1..i] && argv[1..][i - 1..] == argv[i..] && argv[i..][..1] == [argv[i]];
    assert [argv[i]][..0] == [];
  }

  /** The line built when argument `argv[i]` fails. */
  lemma Fails(fs: FileSystem, canonical: Canonical, argv: seq<Argument>, i: nat, line: CommandLine)
    requires 1 <= i < |argv| && argv[i].Arg?
    requires ExpandWords(fs, canonical, Present(argv[1..i]), []).failure == NoFailure
    requires line.failure == ExpandWord(fs, canonical, argv[i].word, []).failure != NoFailure
    requires var e := ExpandWords(fs, canonical, Present(argv[1..i]) + [argv[i].word], []);
             line.words == Program(argv) + e.words + Present(argv[i..])
    ensures FailsAt(fs, canonical, argv, |Present(argv[1..i])|, line)
  {
    var k := |Present(argv[1..i])|;
    Position(argv, i);
    assert Arguments(argv)[..k + 1] == Arguments(argv)[..k] + [Arguments(argv)[k]];
  }

  /** The line so far: the program name, and behind it the arguments expanded. */
  ghost predicate Collected(fs: FileSystem, canonical: Canonical, argv: seq<Argument>, i: nat, out: seq<string>)
    requires i <= |argv|
  {
    if i == 0 then out == []
    else
      var done := ExpandWords(fs, canonical, Present(argv[1..i]), []);
      done.failure == NoFailure && out == Program(argv) + done.words
  }

  lemma CollectedNull(fs: FileSystem, canonical: Canonical, argv: seq<Argument>, i: nat, out: seq<string>)
    requires 1 <= i < |argv| && Collected(fs, canonical, argv, i, out) && argv[i].Null?
    ensures Collected(fs, canonical, argv, i + 1, out)
  {
    PresentMore(argv, 1, i);
    assert Present(argv[1..i]) + [] == Present(argv[1..i]);
  }

  lemma Behind(program: seq<string>, before: seq<string>, last: seq<string>)
    ensures program + before + last == program + (before + last)
  {}

  lemma CollectedMore(fs: FileSystem, canonical: Canonical, argv: seq<Argument>, i: nat, out: seq<string>,
                      done: seq<string>, word: string)
    requires 1 <= i < |argv| && Collected(fs, canonical, argv, i, out)
    requires argv[i] == Arg(word) && done == Present(argv[1..i])
    ensures var e := ExpandWord(fs, canonical, word, []);
            && out + e.words == Program(argv) + ExpandWords(fs, canonical, done + [word], []).words
            && (e.failure == NoFailure ==> Collected(fs, canonical, argv, i + 1, out + e.words))
  {
    PresentMore(argv, 1, i);
    Behind(Program(argv), ExpandWords(fs, canonical, done, []).words, ExpandWord(fs, canonical, word, []).words);
  }

  /** `expandResponseFiles`. */
  method ExpandResponseFiles(fs: FileSystem, canonical: Canonical, argv: seq<Argument>) returns (line: CommandLine)
    ensures Expands(fs, canonical, argv, line)
  {
    var e := new Expander(fs, canonical);
    var i := 0;
    while i < |argv|
      invariant i <= |argv| && e.chain == [] && e.failure == NoFailure && e.fs == fs && e.canonical == canonical
      invariant fresh(e)
      invariant Collected(fs, canonical, argv, i, e.out)
    {
      if i == 0 {
        if argv[i].Arg? {
          e.out := e.out + [argv[i].word];
        }
      } else if argv[i].Arg? {
        CollectedMore(fs, canonical, argv, i, e.out, Present(argv[1..i]), argv[i].word);
        e.Word(argv[i].word, 0);
        if e.failure != NoFailure {
          line := KeepRest(argv, i, e.out, e.failure);
          Fails(fs, canonical, argv, i, line);
          return;
        }
      } else {
        CollectedNull(fs, canonical, argv, i, e.out);
      }
      i := i + 1;
    }
    if argv != [] {
      assert argv[1..|argv|] == argv[1..];
    }
    line := CommandLine(e.out, NoFailure);
  }

  /** The rest of the line as it was typed, so that a flag among it is still seen. */
  method KeepRest(argv: seq<Argument>, index: nat, collected: seq<string>, failure: Failure) returns (line: CommandLine)
    requires index < |argv|
    ensures line == CommandLine(collected + Present(argv[index..]), failure)
  {
    var words := collected;
    for rest := index to |argv|
      invariant words == collected + Present(argv[index..rest])
    {
      PresentMore(argv, index, rest);
      if argv[rest].Arg? {
        words := words + [argv[rest].word];
      }
    }
    assert argv[index..|argv|] == argv[index..];
    line := CommandLine(words, failure);
  }

  lemma {:induction false} EachWordEndsWell(fs: FileSystem, canonical: Canonical, words: seq<string>,
                                            chain: seq<string>)
    ensures ExpandWords(fs, canonical, words, chain).failure == NoFailure
            <==> forall w <- words :: AllPathsEndWell(fs, canonical, chain, w)
  {
    if words != [] {
      var n := |words| - 1;
      EachWordEndsWell(fs, canonical, words[..n], chain);
      SucceedsExactlyWhen(fs, canonical, words[n], chain);
      assert words[n] in words && forall w <- words[..n] :: w in words;
      assert forall w <- words :: w in words[..n] || w == words[n];
    }
  }

  lemma FailureIsKept(fs: FileSystem, canonical: Canonical, words: seq<string>, k: nat)
    requires k < |words| && ExpandWord(fs, canonical, words[k], []).failure != NoFailure
    ensures ExpandWords(fs, canonical, words, []).failure != NoFailure
  {
    EachWordSucceeds(fs, canonical, words, []);
    assert words[k] in words;
  }

  /**
   * A line expands without failure exactly when every path of nested words from every argument ends
   * well; it is then the program name and the depth-first splice of the arguments, with no `@`-word
   * behind the program name.
   */
  lemma LineExpands(fs: FileSystem, canonical: Canonical, argv: seq<Argument>, line: CommandLine)
    requires Expands(fs, canonical, argv, line)
    ensures line.failure == NoFailure <==> forall w <- Arguments(argv) :: AllPathsEndWell(fs, canonical, [], w)
    ensures line.failure == NoFailure ==>
              && line.words == Program(argv) + SpliceAll(fs, Arguments(argv), MAX_DEPTH)
              && forall w <- SpliceAll(fs, Arguments(argv), MAX_DEPTH) :: !NamesFile(w)
  {
    EachWordEndsWell(fs, canonical, Arguments(argv), []);
    WordsAreSplice(fs, canonical, Arguments(argv), []);
    if line.failure != NoFailure {
      var k :| FailsAt(fs, canonical, argv, k, line);
      FailureIsKept(fs, canonical, Arguments(argv), k);
    }
  }

  /** A line that fails gives the failure of one of its arguments. */
  lemma LineFailsFor(fs: FileSystem, canonical: Canonical, argv: seq<Argument>, line: CommandLine)
    requires Expands(fs, canonical, argv, line) && line.failure != NoFailure
    ensures exists path: seq<string> ::
              && path != [] && path[0] in Arguments(argv)
              && LeadsOn(fs, path) && FailsFor(fs, canonical, path, line.failure)
  {
    var k: nat :| FailsAt(fs, canonical, argv, k, line);
    ArgumentFailsFor(fs, canonical, Arguments(argv)[k]);
  }
}
