/**
 * Where white space and comments stand in a finished tree (src/syntax/builder.cc): inside the node that was
 * open when the next token was asked for, directly before that token, and never behind a missing one.
 */
module TreeTrivia {
  import opened Syntax
  import opened ParserEvents
  import opened TreeBuilder

  const TRIVIA: set<TokenKind> := {Whitespace, Newline, LineComment, BlockComment}

  predicate IsSpacing(g: Green) { g.Token? && g.token in TRIVIA && g.text != "" }

  /** A token the parser asked for and the text does not have. */
  predicate IsMissing(g: Green) { g.Token? && g.text == "" }

  /** Every token that was read has a text, but for the one at the end of the file. */
  predicate HasTexts(stream: seq<Raw>) { forall i :: 0 <= i < |stream| - 1 ==> stream[i].text != "" }

  // --- inside a node ------------------------------------------------------------------------

  /** Spacing has a token behind it in its own node. */
  predicate Leading(gs: seq<Green>)
    decreases gs, 1
  {
    && (forall i :: 0 <= i < |gs| && IsSpacing(gs[i]) ==> i + 1 < |gs| && gs[i + 1].Token?)
    && LeadingInside(gs)
  }

  predicate LeadingInside(gs: seq<Green>)
    decreases gs, 0
  {
    forall i :: 0 <= i < |gs| && gs[i].Node? ==> Leading(gs[i].children)
  }

  lemma LeadingConcat(a: seq<Green>, b: seq<Green>)
    requires Leading(a) && Leading(b)
    ensures Leading(a + b)
  {}

  lemma LeadingNode(kind: NodeKind, gs: seq<Green>)
    requires Leading(gs)
    ensures Leading([Green.Node(kind, gs)])
  {}

  lemma {:induction false} LeavesAre(stream: seq<Raw>, from: nat, stop: nat)
    requires from <= stop <= |stream|
    ensures var gs := Leaves(stream, from, stop);
            |gs| == stop - from && forall i :: 0 <= i < |gs| ==> gs[i] == LeafOf(stream[from + i])
    decreases stop
  {
    if from < stop {
      var before, last := Leaves(stream, from, stop - 1), LeafOf(stream[stop - 1]);
      LeavesAre(stream, from, stop - 1);
      forall i | 0 <= i <= |before| ensures (before + [last])[i] == LeafOf(stream[from + i]) {}
    }
  }

  lemma {:induction false} GrowLeading(p: Piece, stream: seq<Raw>, raw: nat)
    requires raw <= |stream| && Grow(p, stream, raw).Grown?
    ensures Leading(Grow(p, stream, raw).children)
    decreases p
  {
    match p
    case Leaf(token, missing) =>
      var at := AfterTrivia(stream, raw);
      LeavesAre(stream, raw, if missing then at else at + 1);
    case Loose(body) => GrowAllLeading(body, stream, raw);
    case Node(kind, body, links) =>
      GrowAllLeading(body, stream, raw);
      var inside := GrowAll(body, stream, raw);
      LeadingNode(kind, inside.children);
      GrowLinksLeading(Green.Node(kind, inside.children), links, stream, inside.raw);
  }

  lemma {:induction false} GrowAllLeading(ps: Pieces, stream: seq<Raw>, raw: nat)
    requires raw <= |stream| && GrowAll(ps, stream, raw).Grown?
    ensures Leading(GrowAll(ps, stream, raw).children)
    decreases ps
  {
    match ps
    case Nil =>
    case Then(first, rest) =>
      GrowLeading(first, stream, raw);
      var a := Grow(first, stream, raw);
      GrowAllLeading(rest, stream, a.raw);
      LeadingConcat(a.children, GrowAll(rest, stream, a.raw).children);
  }

  lemma {:induction false} GrowLinksLeading(node: Green, links: Links, stream: seq<Raw>, raw: nat)
    requires raw <= |stream| && GrowLinks(node, links, stream, raw).Grown? && Leading([node])
    ensures Leading(GrowLinks(node, links, stream, raw).children)
    decreases links
  {
    if !links.Done? {
      GrowAllLeading(links.between, stream, raw);
      var a := GrowAll(links.between, stream, raw);
      GrowAllLeading(links.rest, stream, a.raw);
      var b := GrowAll(links.rest, stream, a.raw);
      LeadingConcat([node], a.children);
      LeadingConcat([node] + a.children, b.children);
      if links.Link? {
        LeadingNode(links.kind, [node] + a.children + b.children);
        GrowLinksLeading(Green.Node(links.kind, [node] + a.children + b.children), links.next, stream, b.raw);
      }
    }
  }

  /** Spacing stands directly before a token of its own node, in every node; only the root may end in it. */
  lemma SpacingStandsBeforeATokenOfItsNode(kind: NodeKind, body: Pieces, stream: seq<Raw>)
    requires FileTree(kind, body, stream).Root?
    ensures var gs := FileTree(kind, body, stream).tree.children;
            && LeadingInside(gs)
            && forall i :: 0 <= i < |gs| - 1 && IsSpacing(gs[i]) ==> gs[i + 1].Token?
  {
    GrowAllLeading(body, stream, 0);
    var g := GrowAll(body, stream, 0);
    LeavesAre(stream, g.raw, |stream|);
  }

  // --- across nodes -------------------------------------------------------------------------

  /** The tokens of a tree from left to right. */
  function Tokens(g: Green): seq<Green>
    decreases g, 0
  {
    if g.Token? then [g] else TokensOf(g.children)
  }

  function TokensOf(gs: seq<Green>): seq<Green>
    decreases gs, 1
  {
    if gs == [] then [] else TokensOf(gs[..|gs| - 1]) + Tokens(gs[|gs| - 1])
  }

  lemma {:induction false} TokensOfConcat(a: seq<Green>, b: seq<Green>)
    ensures TokensOf(a + b) == TokensOf(a) + TokensOf(b)
    decreases |b|
  {
    if b == [] {
      assert a + b == a;
    } else {
      var n := |b| - 1;
      TokensOfConcat(a, b[..n]);
      assert (a + b)[..|a| + n] == a + b[..n];
    }
  }

  lemma TokensOfOne(g: Green)
    ensures TokensOf([g]) == Tokens(g)
  {
    assert [g][..0] == [];
  }

  lemma {:induction false} TokensOfTokens(gs: seq<Green>)
    requires forall i :: 0 <= i < |gs| ==> gs[i].Token?
    ensures TokensOf(gs) == gs
  {
    if gs != [] {
      var n := |gs| - 1;
      TokensOfTokens(gs[..n]);
      assert gs == gs[..n] + [gs[n]];
    }
  }

  predicate SpacingAt(stream: seq<Raw>, raw: nat) { raw < |stream| && stream[raw].kind in TRIVIA }

  /** The tokens made of the stream between two places: no spacing comes right behind a missing one. */
  predicate Tight(ts: seq<Green>, stream: seq<Raw>, raw: nat, end: nat) {
    && (forall i :: 0 <= i < |ts| - 1 && IsMissing(ts[i]) ==> !IsSpacing(ts[i + 1]))
    && (ts == [] ==> raw == end)
    && (ts != [] && IsSpacing(ts[0]) ==> SpacingAt(stream, raw))
    && (ts != [] && IsMissing(ts[|ts| - 1]) ==> !SpacingAt(stream, end))
  }

  lemma TightConcat(a: seq<Green>, b: seq<Green>, stream: seq<Raw>, raw: nat, mid: nat, end: nat)
    requires Tight(a, stream, raw, mid) && Tight(b, stream, mid, end)
    ensures Tight(a + b, stream, raw, end)
  {
    if a == [] {
      assert a + b == b;
    } else if b == [] {
      assert a + b == a;
    }
  }

  lemma LeavesTight(stream: seq<Raw>, raw: nat, end: nat)
    requires raw <= end <= |stream| && HasTexts(stream)
    ensures Tight(TokensOf(Leaves(stream, raw, end)), stream, raw, end)
  {
    LeavesAre(stream, raw, end);
    TokensOfTokens(Leaves(stream, raw, end));
  }

  lemma LeafTight(token: TokenKind, missing: bool, stream: seq<Raw>, raw: nat)
    requires raw <= |stream| && HasTexts(stream) && Grow(Leaf(token, missing), stream, raw).Grown?
    ensures var g := Grow(Leaf(token, missing), stream, raw); Tight(TokensOf(g.children), stream, raw, g.raw)
  {
    var at := AfterTrivia(stream, raw);
    if missing {
      LeavesTight(stream, raw, at);
      TokensOfOne(Green.Token(token, ""));
      MissingTight(token, stream, at);
      TightBoth(Leaves(stream, raw, at), [Green.Token(token, "")], stream, raw, at, at);
    } else {
      LeavesTight(stream, raw, at + 1);
    }
  }

  lemma MissingTight(token: TokenKind, stream: seq<Raw>, at: nat)
    requires !SpacingAt(stream, at)
    ensures Tight([Green.Token(token, "")], stream, at, at)
  {}

  lemma {:induction false} GrowTight(p: Piece, stream: seq<Raw>, raw: nat)
    requires raw <= |stream| && HasTexts(stream) && Grow(p, stream, raw).Grown?
    ensures Tight(TokensOf(Grow(p, stream, raw).children), stream, raw, Grow(p, stream, raw).raw)
    decreases p
  {
    match p
    case Leaf(token, missing) => LeafTight(token, missing, stream, raw);
    case Loose(body) => GrowAllTight(body, stream, raw);
    case Node(kind, body, links) =>
      GrowAllTight(body, stream, raw);
      var inside := GrowAll(body, stream, raw);
      TokensOfOne(Green.Node(kind, inside.children));
      GrowLinksTight(Green.Node(kind, inside.children), links, stream, raw, inside.raw);
  }

  lemma {:induction false} GrowAllTight(ps: Pieces, stream: seq<Raw>, raw: nat)
    requires raw <= |stream| && HasTexts(stream) && GrowAll(ps, stream, raw).Grown?
    ensures Tight(TokensOf(GrowAll(ps, stream, raw).children), stream, raw, GrowAll(ps, stream, raw).raw)
    decreases ps
  {
    match ps
    case Nil =>
    case Then(first, rest) =>
      GrowTight(first, stream, raw);
      var a := Grow(first, stream, raw);
      GrowAllTight(rest, stream, a.raw);
      var b := GrowAll(rest, stream, a.raw);
      TightBoth(a.children, b.children, stream, raw, a.raw, b.raw);
  }

  lemma TightBoth(a: seq<Green>, b: seq<Green>, stream: seq<Raw>, raw: nat, mid: nat, end: nat)
    requires Tight(TokensOf(a), stream, raw, mid) && Tight(TokensOf(b), stream, mid, end)
    ensures Tight(TokensOf(a + b), stream, raw, end)
  {
    TokensOfConcat(a, b);
    TightConcat(TokensOf(a), TokensOf(b), stream, raw, mid, end);
  }

  lemma {:induction false} GrowLinksTight(node: Green, links: Links, stream: seq<Raw>, from: nat, raw: nat)
    requires raw <= |stream| && HasTexts(stream) && GrowLinks(node, links, stream, raw).Grown?
    requires Tight(TokensOf([node]), stream, from, raw)
    ensures var g := GrowLinks(node, links, stream, raw); Tight(TokensOf(g.children), stream, from, g.raw)
    decreases links
  {
    if !links.Done? {
      GrowAllTight(links.between, stream, raw);
      var a := GrowAll(links.between, stream, raw);
      GrowAllTight(links.rest, stream, a.raw);
      var b := GrowAll(links.rest, stream, a.raw);
      TightBoth([node], a.children, stream, from, raw, a.raw);
      TightBoth([node] + a.children, b.children, stream, from, a.raw, b.raw);
      if links.Link? {
        var adopter := Green.Node(links.kind, [node] + a.children + b.children);
        TokensOfOne(adopter);
        GrowLinksTight(adopter, links.next, stream, from, b.raw);
      }
    }
  }

  /** A missing token stands behind the spacing in front of the token that was found instead. */
  lemma NoSpacingBehindAMissingToken(kind: NodeKind, body: Pieces, stream: seq<Raw>)
    requires FileTree(kind, body, stream).Root? && HasTexts(stream)
    ensures var ts := Tokens(FileTree(kind, body, stream).tree);
            forall i :: 0 <= i < |ts| - 1 && IsMissing(ts[i]) ==> !IsSpacing(ts[i + 1])
  {
    GrowAllTight(body, stream, 0);
    var g := GrowAll(body, stream, 0);
    LeavesTight(stream, g.raw, |stream|);
    TightBoth(g.children, Leaves(stream, g.raw, |stream|), stream, 0, g.raw, |stream|);
  }
}
