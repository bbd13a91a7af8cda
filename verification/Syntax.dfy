/** The green tree of include/syntax/green.h: immutable, position-free, lossless. */
module Syntax {
  import opened MachineWords

  /** The token kinds a reader of the tree tells apart; every other one is `OtherToken`. */
  datatype TokenKind =
    | Identifier | KwStatic | Dot
    | Whitespace | Newline | LineComment | BlockComment
    | OtherToken(code: nat)

  /** The interior kinds a reader of the tree tells apart; every other one is `OtherNode`. */
  datatype NodeKind =
    | File | Error
    | FnDecl | TypeAliasDecl | ParamList | Param | VariadicParam | Block
    | LetStmt | ConstStmt | Name | Type | TuplePattern | PathExpr
    | OtherNode(code: nat)

  /** Tokens and interior nodes share one tag space. */
  datatype SyntaxKind = Tok(token: TokenKind) | Inner(node: NodeKind) {
    predicate IsToken() { Tok? }
  }

  datatype Green =
    | Token(token: TokenKind, text: string)
    | Node(kind: NodeKind, children: seq<Green>)
  {
    predicate IsTriviaToken() { Token? && IsTrivia(token) }
  }

  predicate IsTrivia(k: TokenKind) {
    k.Whitespace? || k.Newline? || k.LineComment? || k.BlockComment?
  }

  /** Bytes a subtree covers; a node's width is the sum of its children's. */
  function Width(g: Green): nat
    decreases g, 0
  {
    match g
    case Token(_, text) => |text|
    case Node(_, children) => WidthAll(children)
  }

  function WidthAll(gs: seq<Green>): nat
    decreases gs, 1
  {
    if gs == [] then 0 else WidthAll(gs[..|gs| - 1]) + Width(gs[|gs| - 1])
  }

  lemma WidthOfPrefix(gs: seq<Green>, i: nat)
    requires i < |gs|
    ensures WidthAll(gs[..i + 1]) == WidthAll(gs[..i]) + Width(gs[i])
  {
    assert gs[..i + 1][..i] == gs[..i];
  }

  lemma {:induction false} WidthMonotone(gs: seq<Green>, i: nat, j: nat)
    requires i <= j <= |gs|
    ensures WidthAll(gs[..i]) <= WidthAll(gs[..j])
    decreases j
  {
    if i < j {
      WidthMonotone(gs, i, j - 1);
      WidthOfPrefix(gs, j - 1);
    }
  }

  /** Nodes on the longest path from the root. */
  function Depth(g: Green): nat
    decreases g, 0
  {
    match g
    case Token(_, _) => 0
    case Node(_, children) => 1 + DepthAll(children)
  }

  function DepthAll(gs: seq<Green>): nat
    decreases gs, 1
  {
    if gs == [] then 0 else Max(DepthAll(gs[..|gs| - 1]), Depth(gs[|gs| - 1]))
  }

  lemma {:induction false} DepthOfConcat(a: seq<Green>, b: seq<Green>)
    ensures DepthAll(a + b) == Max(DepthAll(a), DepthAll(b))
    decreases |b|
  {
    if b == [] {
      assert a + b == a;
    } else {
      var n := |b| - 1;
      DepthOfConcat(a, b[..n]);
      assert (a + b)[..|a| + n] == a + b[..n];
    }
  }
}
