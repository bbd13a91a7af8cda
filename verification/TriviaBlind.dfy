/**
 * The parser is blind to trivia: dropping it from the tree gives the tree of the stream without
 * it, so a change of spacing or comments moves nodes and changes nothing else.
 */
module TriviaBlind {
  import opened Syntax
  import opened ParserEvents
  import opened TreeBuilder
  import opened AstTree
  import opened AstLowering

  function Significant(stream: seq<Raw>): seq<Raw> {
    if stream == [] then []
    else
      var init, last := stream[..|stream| - 1], stream[|stream| - 1];
      Significant(init) + if IsTrivia(last.kind) then [] else [last]
  }

  /** How many significant tokens stand before raw token `raw`. */
  function Before(stream: seq<Raw>, raw: nat): nat
    requires raw <= |stream|
  {
    |Significant(stream[..raw])|
  }

  lemma SignificantStep(stream: seq<Raw>, raw: nat)
    requires raw < |stream|
    ensures Significant(stream[..raw + 1]) ==
            Significant(stream[..raw]) + if IsTrivia(stream[raw].kind) then [] else [stream[raw]]
  {
    assert stream[..raw + 1][..raw] == stream[..raw];
  }

  lemma {:induction false} SignificantPrefix(stream: seq<Raw>, a: nat, b: nat)
    requires a <= b <= |stream|
    ensures Significant(stream[..a]) <= Significant(stream[..b])
    decreases b
  {
    if a < b {
      SignificantPrefix(stream, a, b - 1);
      SignificantStep(stream, b - 1);
    }
  }

  lemma WholeStream(stream: seq<Raw>)
    ensures Before(stream, |stream|) == |Significant(stream)|
  {
    assert stream[..|stream|] == stream;
  }

  /** The next significant token of the stream is the next token of the significant stream. */
  lemma NextSignificant(stream: seq<Raw>, raw: nat)
    requires raw < |stream| && !IsTrivia(stream[raw].kind)
    ensures Before(stream, raw) < |Significant(stream)|
    ensures Significant(stream)[Before(stream, raw)] == stream[raw]
    ensures Before(stream, raw + 1) == Before(stream, raw) + 1
  {
    SignificantStep(stream, raw);
    SignificantPrefix(stream, raw + 1, |stream|);
    assert stream[..|stream|] == stream;
  }

  lemma {:induction false} SkippedTrivia(stream: seq<Raw>, raw: nat)
    requires raw <= |stream|
    ensures Before(stream, AfterTrivia(stream, raw)) == Before(stream, raw)
    decreases |stream| - raw
  {
    if raw < |stream| && IsTrivia(stream[raw].kind) {
      SignificantStep(stream, raw);
      SkippedTrivia(stream, raw + 1);
    }
  }

  lemma {:induction false} AllSignificant(stream: seq<Raw>, i: nat)
    requires i < |Significant(stream)|
    ensures !IsTrivia(Significant(stream)[i].kind)
  {
    if i < |Significant(stream[..|stream| - 1])| {
      AllSignificant(stream[..|stream| - 1], i);
    }
  }

  lemma NoTriviaToSkip(stream: seq<Raw>, i: nat)
    requires i <= |Significant(stream)|
    ensures AfterTrivia(Significant(stream), i) == i
  {
    if i < |Significant(stream)| { AllSignificant(stream, i); }
  }

  // --- green trees without trivia ------------------------------------------------------

  function Bare(g: Green): Green
    decreases g, 0
  {
    match g
    case Token(_, _) => g
    case Node(kind, children) => Green.Node(kind, BareAll(children))
  }

  function BareAll(gs: seq<Green>): seq<Green>
    decreases gs, 1
  {
    if gs == [] then []
    else
      var last := gs[|gs| - 1];
      BareAll(gs[..|gs| - 1]) + if last.IsTriviaToken() then [] else [Bare(last)]
  }

  lemma {:induction false} BareOfConcat(a: seq<Green>, b: seq<Green>)
    ensures BareAll(a + b) == BareAll(a) + BareAll(b)
    decreases |b|
  {
    if b == [] {
      assert a + b == a;
    } else {
      var n := |b| - 1;
      BareOfConcat(a, b[..n]);
      assert (a + b)[..|a| + n] == a + b[..n];
    }
  }

  lemma BareOfSingle(g: Green)
    ensures BareAll([g]) == if g.IsTriviaToken() then [] else [Bare(g)]
  {
    assert [g][..0] == [];
  }

  lemma BeforeBounds(stream: seq<Raw>, from: nat, stop: nat)
    requires from <= stop <= |stream|
    ensures Before(stream, from) <= Before(stream, stop) <= |Significant(stream)|
  {
    SignificantPrefix(stream, from, stop);
    SignificantPrefix(stream, stop, |stream|);
    WholeStream(stream);
  }

  lemma LeafStep(stream: seq<Raw>, from: nat, stop: nat)
    requires from < stop <= |stream|
    ensures BareAll(Leaves(stream, from, stop)) ==
            BareAll(Leaves(stream, from, stop - 1)) +
            if IsTrivia(stream[stop - 1].kind) then [] else [LeafOf(stream[stop - 1])]
  {
    BareOfConcat(Leaves(stream, from, stop - 1), [LeafOf(stream[stop - 1])]);
    BareOfSingle(LeafOf(stream[stop - 1]));
  }

  lemma BeforeStep(stream: seq<Raw>, raw: nat)
    requires raw < |stream|
    ensures if IsTrivia(stream[raw].kind) then Before(stream, raw + 1) == Before(stream, raw)
            else Before(stream, raw + 1) == Before(stream, raw) + 1 <= |Significant(stream)| &&
                 Significant(stream)[Before(stream, raw)] == stream[raw]
  {
    if IsTrivia(stream[raw].kind) {
      SignificantStep(stream, raw);
    } else {
      NextSignificant(stream, raw);
    }
  }

  lemma LeavesMore(stream: seq<Raw>, from: nat, stop: nat)
    requires from <= stop < |stream|
    ensures Leaves(stream, from, stop + 1) == Leaves(stream, from, stop) + [LeafOf(stream[stop])]
  {}

  /** One more raw token on both sides. */
  lemma BareLeavesMore(stream: seq<Raw>, from: nat, last: nat, stop: nat, sig: seq<Raw>, b: nat, c: nat, d: nat)
    requires from <= last < |stream| && b <= c <= |sig| && stop == last + 1
    requires d == if IsTrivia(stream[last].kind) then c else c + 1
    requires BareAll(Leaves(stream, from, last)) == Leaves(sig, b, c)
    requires !IsTrivia(stream[last].kind) ==> c < |sig| && sig[c] == stream[last]
    ensures d <= |sig| && BareAll(Leaves(stream, from, stop)) == Leaves(sig, b, d)
  {
    LeafStep(stream, from, last + 1);
    if IsTrivia(stream[last].kind) {
      assert Leaves(sig, b, c) + [] == Leaves(sig, b, c);
    } else {
      LeavesMore(sig, b, c);
    }
  }

  lemma {:induction false} BareLeaves(stream: seq<Raw>, from: nat, stop: nat)
    requires from <= stop <= |stream|
    ensures Before(stream, from) <= Before(stream, stop) <= |Significant(stream)|
    ensures BareAll(Leaves(stream, from, stop)) ==
            Leaves(Significant(stream), Before(stream, from), Before(stream, stop))
    decreases stop
  {
    BeforeBounds(stream, from, stop);
    if from < stop {
      BareLeaves(stream, from, stop - 1);
      BeforeStep(stream, stop - 1);
      BareLeavesMore(stream, from, stop - 1, stop, Significant(stream), Before(stream, from), Before(stream, stop - 1),
                     Before(stream, stop));
    }
  }

  // --- recovery never inserts trivia ------------------------------------------------------

  predicate Sensible(p: Piece) {
    match p
    case Leaf(token, missing) => missing ==> !IsTrivia(token)
    case Node(_, body, links) => SensibleAll(body) && SensibleLinks(links)
    case Loose(body) => SensibleAll(body)
  }

  predicate SensibleAll(ps: Pieces) {
    match ps
    case Nil => true
    case Then(first, rest) => Sensible(first) && SensibleAll(rest)
  }

  predicate SensibleLinks(links: Links) {
    match links
    case Done => true
    case Link(between, _, rest, next) => SensibleAll(between) && SensibleAll(rest) && SensibleLinks(next)
    case Dropped(between, rest) => SensibleAll(between) && SensibleAll(rest)
  }

  /** `g` without its trivia, over the stream without its trivia. */
  function BareGrown(g: Grown, stream: seq<Raw>): Grown
    requires g.Grown? ==> g.raw <= |stream|
  {
    if g.Exhausted? then Exhausted else Grown(BareAll(g.children), Before(stream, g.raw))
  }

  lemma BareInserted(token: TokenKind, stream: seq<Raw>, raw: nat)
    requires raw <= |stream| && !IsTrivia(token)
    ensures var at := AfterTrivia(stream, raw);
            && Before(stream, raw) <= |Significant(stream)|
            && AfterTrivia(Significant(stream), Before(stream, raw)) == Before(stream, at)
            && BareAll(Leaves(stream, raw, at)) == [] && Before(stream, at) == Before(stream, raw)
            && BareAll(Leaves(stream, raw, at) + [Green.Token(token, "")]) == [Green.Token(token, "")]
  {
    var at := AfterTrivia(stream, raw);
    SkippedTrivia(stream, raw);
    BareLeaves(stream, raw, at);
    NoTriviaToSkip(stream, Before(stream, raw));
    BareOfConcat(Leaves(stream, raw, at), [Green.Token(token, "")]);
    BareOfSingle(Green.Token(token, ""));
  }

  lemma BareTaken(stream: seq<Raw>, raw: nat)
    requires raw <= |stream| && AfterTrivia(stream, raw) < |stream|
    ensures var at := AfterTrivia(stream, raw);
            && Before(stream, at) < |Significant(stream)| && Before(stream, at + 1) == Before(stream, at) + 1
            && BareAll(Leaves(stream, raw, at + 1)) ==
                Leaves(Significant(stream), Before(stream, at), Before(stream, at) + 1)
  {
    var at := AfterTrivia(stream, raw);
    SkippedTrivia(stream, raw);
    NextSignificant(stream, at);
    BareLeaves(stream, raw, at + 1);
  }

  lemma BareLeaf(token: TokenKind, missing: bool, stream: seq<Raw>, raw: nat)
    requires raw <= |stream| && Sensible(Leaf(token, missing))
    ensures Before(stream, raw) <= |Significant(stream)|
    ensures Grow(Leaf(token, missing), Significant(stream), Before(stream, raw)) ==
            BareGrown(Grow(Leaf(token, missing), stream, raw), stream)
  {
    BeforeBounds(stream, raw, raw);
    if missing {
      BareMissing(token, stream, raw);
    } else {
      BarePresent(token, stream, raw);
    }
  }

  lemma BareMissing(token: TokenKind, stream: seq<Raw>, raw: nat)
    requires raw <= |stream| && !IsTrivia(token) && Before(stream, raw) <= |Significant(stream)|
    ensures Grow(Leaf(token, true), Significant(stream), Before(stream, raw)) ==
            BareGrown(Grow(Leaf(token, true), stream, raw), stream)
  {
    BareInserted(token, stream, raw);
    assert Leaves(Significant(stream), Before(stream, raw), Before(stream, raw)) == [];
  }

  lemma BarePresent(token: TokenKind, stream: seq<Raw>, raw: nat)
    requires raw <= |stream| && Before(stream, raw) <= |Significant(stream)|
    ensures Grow(Leaf(token, false), Significant(stream), Before(stream, raw)) ==
            BareGrown(Grow(Leaf(token, false), stream, raw), stream)
  {
    SkippedTrivia(stream, raw);
    NoTriviaToSkip(stream, Before(stream, raw));
    if AfterTrivia(stream, raw) < |stream| {
      BareTaken(stream, raw);
    } else {
      WholeStream(stream);
    }
    TakenAlike(token, stream, raw, Significant(stream), Before(stream, raw));
  }

  lemma TakenAlike(token: TokenKind, stream: seq<Raw>, raw: nat, bare: seq<Raw>, i: nat)
    requires raw <= |stream| && i <= |bare| && AfterTrivia(bare, i) == i
    requires AfterTrivia(stream, raw) == |stream| <==> i == |bare|
    requires var at := AfterTrivia(stream, raw);
             at < |stream| ==>
               BareAll(Leaves(stream, raw, at + 1)) == Leaves(bare, i, i + 1) && Before(stream, at + 1) == i + 1
    ensures Grow(Leaf(token, false), bare, i) == BareGrown(Grow(Leaf(token, false), stream, raw), stream)
  {}

  lemma {:induction false} GrowBare(p: Piece, stream: seq<Raw>, raw: nat)
    requires raw <= |stream| && Sensible(p)
    ensures Before(stream, raw) <= |Significant(stream)|
    ensures Grow(p, Significant(stream), Before(stream, raw)) == BareGrown(Grow(p, stream, raw), stream)
    decreases p
  {
    BeforeBounds(stream, raw, raw);
    match p
    case Leaf(token, missing) => BareLeaf(token, missing, stream, raw);
    case Loose(body) => GrowAllBare(body, stream, raw);
    case Node(kind, body, links) =>
      GrowAllBare(body, stream, raw);
      var inside := GrowAll(body, stream, raw);
      if inside.Grown? {
        GrowLinksBare(Green.Node(kind, inside.children), links, stream, inside.raw);
      }
  }

  lemma {:induction false} GrowAllBare(ps: Pieces, stream: seq<Raw>, raw: nat)
    requires raw <= |stream| && SensibleAll(ps)
    ensures Before(stream, raw) <= |Significant(stream)|
    ensures GrowAll(ps, Significant(stream), Before(stream, raw)) == BareGrown(GrowAll(ps, stream, raw), stream)
    decreases ps
  {
    BeforeBounds(stream, raw, raw);
    match ps
    case Nil =>
    case Then(first, rest) =>
      GrowBare(first, stream, raw);
      var a := Grow(first, stream, raw);
      if a.Grown? {
        GrowAllBare(rest, stream, a.raw);
        var b := GrowAll(rest, stream, a.raw);
        if b.Grown? {
          BareOfConcat(a.children, b.children);
        }
      }
  }

  lemma {:induction false} GrowLinksBare(node: Green, links: Links, stream: seq<Raw>, raw: nat)
    requires raw <= |stream| && SensibleLinks(links) && node.Node?
    ensures Before(stream, raw) <= |Significant(stream)|
    ensures GrowLinks(Bare(node), links, Significant(stream), Before(stream, raw)) ==
            BareGrown(GrowLinks(node, links, stream, raw), stream)
    decreases links
  {
    BeforeBounds(stream, raw, raw);
    match links
    case Done => BareOfSingle(node);
    case Link(between, kind, rest, next) =>
      GrowAllBare(between, stream, raw);
      var a := GrowAll(between, stream, raw);
      if a.Grown? {
        GrowAllBare(rest, stream, a.raw);
        var b := GrowAll(rest, stream, a.raw);
        if b.Grown? {
          BareOfSingle(node);
          BareOfConcat([node], a.children);
          BareOfConcat([node] + a.children, b.children);
          GrowLinksBare(Green.Node(kind, [node] + a.children + b.children), next, stream, b.raw);
        }
      }
    case Dropped(between, rest) =>
      GrowAllBare(between, stream, raw);
      var a := GrowAll(between, stream, raw);
      if a.Grown? {
        GrowAllBare(rest, stream, a.raw);
        var b := GrowAll(rest, stream, a.raw);
        if b.Grown? {
          BareOfSingle(node);
          BareOfConcat([node], a.children);
          BareOfConcat([node] + a.children, b.children);
        }
      }
  }

  lemma BareRoot(kind: NodeKind, gs: seq<Green>, stream: seq<Raw>, raw: nat)
    requires raw <= |stream|
    ensures Before(stream, raw) <= |Significant(stream)|
    ensures Bare(Green.Node(kind, gs + Leaves(stream, raw, |stream|))) ==
            Green.Node(kind, BareAll(gs) + Leaves(Significant(stream), Before(stream, raw), |Significant(stream)|))
  {
    BareLeaves(stream, raw, |stream|);
    WholeStream(stream);
    BareOfConcat(gs, Leaves(stream, raw, |stream|));
  }

  /** The whole file: drop the trivia before building or after, it is the same tree. */
  lemma FileTreeBare(kind: NodeKind, body: Pieces, stream: seq<Raw>)
    requires SensibleAll(body)
    ensures var r := FileTree(kind, body, stream);
            FileTree(kind, body, Significant(stream)) == if r.NoRoot? then NoRoot else Root(Bare(r.tree))
  {
    assert stream[..0] == [];
    GrowAllBare(body, stream, 0);
    var g := GrowAll(body, stream, 0);
    if g.Grown? {
      BareRoot(kind, g.children, stream, g.raw);
    }
  }

  // --- and so does lowering ------------------------------------------------------------------

  /** A lowered tree without its positions. */
  function Unplaced(t: Tree): Tree {
    t.(begin := 0, end := 0, kids := UnplacedAll(t.kids))
  }

  function UnplacedAll(f: Forest): Forest {
    match f
    case Empty => Empty
    case Snoc(init, last) => Snoc(UnplacedAll(init), Unplaced(last))
  }

  lemma {:induction false} NameInBare(gs: seq<Green>)
    ensures NameIn(BareAll(gs)) == NameIn(gs)
  {
    if gs != [] {
      var first, rest := gs[0], gs[1..];
      assert gs == [first] + rest;
      BareOfConcat([first], rest);
      BareOfSingle(first);
      NameInBare(rest);
      if !first.IsTriviaToken() {
        assert ([Bare(first)] + BareAll(rest))[1..] == BareAll(rest);
      } else {
        assert [] + BareAll(rest) == BareAll(rest);
      }
    }
  }

  lemma {:induction false} StripBare(g: Green, at: nat, at': nat, inError: bool)
    ensures Unplaced(Strip(g, at, inError)) == Unplaced(Strip(Bare(g), at', inError))
    decreases g, 0
  {
    if g.Node? {
      NameInBare(g.children);
      StripAllBare(g.children, at, at', inError || g.kind.Error?);
    }
  }

  lemma BareMore(init: seq<Green>, last: Green)
    ensures BareAll(init + [last]) == if last.IsTriviaToken() then BareAll(init) else BareAll(init) + [Bare(last)]
  {
    assert (init + [last])[..|init|] == init;
  }

  lemma StripMore(init: seq<Green>, last: Green, at: nat, inError: bool)
    ensures StripAll(init + [last], at, inError) ==
            if last.IsTriviaToken() then StripAll(init, at, inError)
            else Snoc(StripAll(init, at, inError), Strip(last, at + WidthAll(init), inError))
  {
    var gs := init + [last];
    assert gs[..|init|] == init && gs[..|init| + 1] == gs;
    StripOfPrefix(gs, |init|, at, inError);
  }

  lemma {:induction false} StripAllBare(gs: seq<Green>, at: nat, at': nat, inError: bool)
    ensures UnplacedAll(StripAll(gs, at, inError)) == UnplacedAll(StripAll(BareAll(gs), at', inError))
    decreases gs, 1
  {
    if gs != [] {
      var init, last := gs[..|gs| - 1], gs[|gs| - 1];
      assert gs == init + [last];
      StripAllBare(init, at, at', inError);
      var bare := BareAll(init);
      BareMore(init, last);
      StripMore(init, last, at, inError);
      if !last.IsTriviaToken() {
        StripBare(last, at + WidthAll(init), at' + WidthAll(bare), inError);
        StripMore(bare, Bare(last), at', inError);
      }
    }
  }

  lemma {:induction false} UnplacedSize(t: Tree)
    ensures Size(Unplaced(t)) == Size(t)
  {
    UnplacedAllSize(t.kids);
  }

  lemma {:induction false} UnplacedAllSize(f: Forest)
    ensures SizeAll(UnplacedAll(f)) == SizeAll(f)
  {
    match f
    case Empty =>
    case Snoc(init, last) =>
      UnplacedAllSize(init);
      UnplacedSize(last);
  }

  lemma {:induction false} TakeUnplaced(t: Tree, n: nat)
    requires n >= 1
    ensures Unplaced(Take(t, n)) == Take(Unplaced(t), n)
  {
    TakeAllUnplaced(t.kids, n - 1);
  }

  lemma {:induction false} TakeAllUnplaced(f: Forest, n: nat)
    ensures UnplacedAll(TakeAll(f, n)) == TakeAll(UnplacedAll(f), n)
  {
    match f
    case Empty =>
    case Snoc(init, last) =>
      TakeAllUnplaced(init, n);
      var before := TakeAll(init, n);
      UnplacedAllSize(before);
      if SizeAll(before) < n {
        TakeUnplaced(last, n - SizeAll(before));
      }
  }

  lemma {:induction false} TightenUnplaced(t: Tree)
    ensures Unplaced(Tighten(t)) == Unplaced(t)
  {
    TightenAllUnplaced(t.kids);
  }

  lemma {:induction false} TightenAllUnplaced(f: Forest)
    ensures UnplacedAll(TightenAll(f)) == UnplacedAll(f)
  {
    match f
    case Empty =>
    case Snoc(init, last) =>
      TightenAllUnplaced(init);
      TightenUnplaced(last);
  }

  /**
   * From tokens to lowered tree: two streams with the same significant tokens, parsed by the same
   * marker calls, lower to the same tree up to positions, whatever the node budget.
   */
  lemma SpacingOnlyMovesNodes(kind: NodeKind, body: Pieces, stream: seq<Raw>, stream': seq<Raw>, maxNodes: nat)
    requires SensibleAll(body) && maxNodes >= 1 && Significant(stream) == Significant(stream')
    ensures var r, r' := Built(kind, body, stream), Built(kind, body, stream');
            && r.Root? == r'.Root?
            && (r.Root? ==> Unplaced(LoweredFile(r.tree, maxNodes)) == Unplaced(LoweredFile(r'.tree, maxNodes)))
  {
    FileTreeBare(kind, body, stream);
    FileTreeBare(kind, body, stream');
    var r, r' := Built(kind, body, stream), Built(kind, body, stream');
    if r.Root? {
      LoweredBare(r.tree, maxNodes);
      LoweredBare(r'.tree, maxNodes);
    }
  }

  lemma LoweredBare(g: Green, maxNodes: nat)
    requires maxNodes >= 1
    ensures Unplaced(LoweredFile(g, maxNodes)) == Take(Unplaced(Strip(Bare(g), 0, false)), maxNodes)
  {
    TightenUnplaced(Take(Strip(g, 0, false), maxNodes));
    TakeUnplaced(Strip(g, 0, false), maxNodes);
    StripBare(g, 0, 0, false);
  }
}
