/**
 * What lowering means, stated on trees: drop the trivia, keep the first `n` nodes in
 * pre-order, and shrink every interior node to the hull of what survived.
 */
module AstTree {
  import opened MachineWords
  import opened Syntax

  datatype Symbol = NoSymbol | Symbol(text: string)

  /** `name` is the interned spelling; interning is injective, so the text stands for the symbol. */
  datatype Tree = Tree(kind: SyntaxKind, name: Symbol, inError: bool, begin: nat, end: nat, kids: Forest)

  /** Children in source order, grown on the right as a walk meets them. */
  datatype Forest = Empty | Snoc(init: Forest, last: Tree)

  function Count(f: Forest): nat {
    match f
    case Empty => 0
    case Snoc(init, _) => Count(init) + 1
  }

  function Size(t: Tree): (n: nat)
    ensures n >= 1
  {
    1 + SizeAll(t.kids)
  }

  function SizeAll(f: Forest): nat {
    match f
    case Empty => 0
    case Snoc(init, last) => SizeAll(init) + Size(last)
  }

  function PreOrder(t: Tree): seq<Tree> {
    [t] + PreOrderAll(t.kids)
  }

  function PreOrderAll(f: Forest): seq<Tree> {
    match f
    case Empty => []
    case Snoc(init, last) => PreOrderAll(init) + PreOrder(last)
  }

  // --- dropping trivia ---------------------------------------------------------

  /** The name a `Name` or `PathExpr` node carries: its first identifier leaf. */
  function NameIn(children: seq<Green>): Symbol {
    if children == [] then NoSymbol
    else if children[0].Token? && children[0].token.Identifier? then Symbol(children[0].text)
    else NameIn(children[1..])
  }

  function NameOf(g: Green): Symbol {
    match g
    case Token(Identifier, text) => Symbol(text)
    case Token(_, _) => NoSymbol
    case Node(kind, children) => if kind.Name? || kind.PathExpr? then NameIn(children) else NoSymbol
  }

  /** The trivia-free tree of a significant green element that starts at byte `at`. */
  function Strip(g: Green, at: nat, inError: bool): Tree
    decreases g, 0
  {
    match g
    case Token(token, text) => Tree(Tok(token), NameOf(g), inError, at, at + |text|, Empty)
    case Node(kind, children) =>
      Tree(Inner(kind), NameOf(g), inError || kind.Error?, at, at + Width(g),
           StripAll(children, at, inError || kind.Error?))
  }

  function StripAll(gs: seq<Green>, at: nat, inError: bool): Forest
    decreases gs, 1
  {
    if gs == [] then Empty
    else
      var init, last := gs[..|gs| - 1], gs[|gs| - 1];
      var before := StripAll(init, at, inError);
      if last.IsTriviaToken() then before else Snoc(before, Strip(last, at + WidthAll(init), inError))
  }

  lemma StripOfPrefix(gs: seq<Green>, i: nat, at: nat, inError: bool)
    requires i < |gs|
    ensures StripAll(gs[..i + 1], at, inError) ==
            if gs[i].IsTriviaToken() then StripAll(gs[..i], at, inError)
            else Snoc(StripAll(gs[..i], at, inError), Strip(gs[i], at + WidthAll(gs[..i]), inError))
  {
    assert gs[..i + 1][..i] == gs[..i];
  }

  // --- the node budget -----------------------------------------------------------

  /** The tree made of the first `n` nodes of `t` in pre-order. */
  function Take(t: Tree, n: nat): Tree
    requires n >= 1
  {
    t.(kids := TakeAll(t.kids, n - 1))
  }

  function TakeAll(f: Forest, n: nat): Forest {
    match f
    case Empty => Empty
    case Snoc(init, last) =>
      var before := TakeAll(init, n);
      var used := SizeAll(before);
      if used < n then Snoc(before, Take(last, n - used)) else before
  }

  lemma {:induction false} TakeSize(t: Tree, n: nat)
    requires n >= 1
    ensures Size(Take(t, n)) == Min(n, Size(t))
  {
    TakeAllSize(t.kids, n - 1);
  }

  lemma {:induction false} TakeAllSize(f: Forest, n: nat)
    ensures SizeAll(TakeAll(f, n)) == Min(n, SizeAll(f))
  {
    match f
    case Empty =>
    case Snoc(init, last) =>
      TakeAllSize(init, n);
      var used := SizeAll(TakeAll(init, n));
      if used < n {
        TakeSize(last, n - used);
      }
  }

  /** A tree within the budget is kept whole. */
  lemma {:induction false} TakeWhole(t: Tree, n: nat)
    requires Size(t) <= n
    ensures Take(t, n) == t
  {
    TakeAllWhole(t.kids, n - 1);
  }

  lemma {:induction false} TakeAllWhole(f: Forest, n: nat)
    requires SizeAll(f) <= n
    ensures TakeAll(f, n) == f
  {
    match f
    case Empty =>
    case Snoc(init, last) =>
      TakeAllWhole(init, n);
      TakeWhole(last, n - SizeAll(init));
  }

  /** What a pre-order listing shows of a node, children aside. */
  function Head(t: Tree): Tree { t.(kids := Empty) }

  /** `a` is a prefix of `b` when children are left out of the comparison. */
  ghost predicate PrefixByHead(a: seq<Tree>, b: seq<Tree>) {
    |a| <= |b| && forall i :: 0 <= i < |a| ==> Head(a[i]) == Head(b[i])
  }

  lemma {:induction false} PreOrderSize(t: Tree)
    ensures |PreOrder(t)| == Size(t)
  {
    PreOrderAllSize(t.kids);
  }

  lemma {:induction false} PreOrderAllSize(f: Forest)
    ensures |PreOrderAll(f)| == SizeAll(f)
  {
    match f
    case Empty =>
    case Snoc(init, last) =>
      PreOrderAllSize(init);
      PreOrderSize(last);
  }

  /** `Take` is the first `n` entries of the unlimited pre-order, node for node. */
  lemma {:induction false} TakeIsPreOrderPrefix(t: Tree, n: nat)
    requires n >= 1
    ensures PrefixByHead(PreOrder(Take(t, n)), PreOrder(t))
    ensures |PreOrder(Take(t, n))| == Min(n, |PreOrder(t)|)
  {
    TakeAllIsPreOrderPrefix(t.kids, n - 1);
    PreOrderSize(t);
    PreOrderSize(Take(t, n));
    TakeSize(t, n);
  }

  lemma {:induction false} TakeAllIsPreOrderPrefix(f: Forest, n: nat)
    ensures PrefixByHead(PreOrderAll(TakeAll(f, n)), PreOrderAll(f))
  {
    match f
    case Empty =>
    case Snoc(init, last) =>
      var cut := TakeAll(init, n);
      TakeAllIsPreOrderPrefix(init, n);
      if SizeAll(cut) < n {
        var k := n - SizeAll(cut);
        TakeAllSize(init, n);
        TakeAllWhole(init, n);
        TakeIsPreOrderPrefix(last, k);
      }
  }

  // --- exact spans -----------------------------------------------------------------

  /** Least begin and greatest end over a nonempty list of nodes. */
  function HullBegin(f: Forest): nat
    requires f.Snoc?
  {
    if f.init.Empty? then f.last.begin else Min(HullBegin(f.init), f.last.begin)
  }

  function HullEnd(f: Forest): nat
    requires f.Snoc?
  {
    if f.init.Empty? then f.last.end else Max(HullEnd(f.init), f.last.end)
  }

  /** The same tree with every interior node's extent recomputed from its surviving children. */
  function Tighten(t: Tree): Tree {
    if t.kind.IsToken() then t
    else
      var kids := TightenAll(t.kids);
      if kids.Empty? then t.(end := t.begin)
      else t.(begin := HullBegin(kids), end := HullEnd(kids), kids := kids)
  }

  function TightenAll(f: Forest): Forest {
    match f
    case Empty => Empty
    case Snoc(init, last) => Snoc(TightenAll(init), Tighten(last))
  }

  lemma {:induction false} TightenSize(t: Tree)
    ensures Size(Tighten(t)) == Size(t)
  {
    TightenAllSize(t.kids);
  }

  lemma {:induction false} TightenAllSize(f: Forest)
    ensures SizeAll(TightenAll(f)) == SizeAll(f)
    ensures Count(TightenAll(f)) == Count(f)
  {
    match f
    case Empty =>
    case Snoc(init, last) =>
      TightenAllSize(init);
      TightenSize(last);
  }

  // --- what every lowered tree keeps ---------------------------------------------------

  ghost predicate TokensAreLeaves(t: Tree) {
    (t.kind.IsToken() ==> t.kids.Empty?) && TokensAreLeavesAll(t.kids)
  }

  ghost predicate TokensAreLeavesAll(f: Forest) {
    f.Snoc? ==> TokensAreLeavesAll(f.init) && TokensAreLeaves(f.last)
  }

  lemma {:induction false} StripKeepsLeaves(g: Green, at: nat, inError: bool)
    ensures TokensAreLeaves(Strip(g, at, inError))
    decreases g, 0
  {
    if g.Node? {
      StripAllKeepsLeaves(g.children, at, inError || g.kind.Error?);
    }
  }

  lemma {:induction false} StripAllKeepsLeaves(gs: seq<Green>, at: nat, inError: bool)
    ensures TokensAreLeavesAll(StripAll(gs, at, inError))
    decreases gs, 1
  {
    if gs != [] {
      StripAllKeepsLeaves(gs[..|gs| - 1], at, inError);
      StripKeepsLeaves(gs[|gs| - 1], at + WidthAll(gs[..|gs| - 1]), inError);
    }
  }

  lemma {:induction false} TakeKeepsLeaves(t: Tree, n: nat)
    requires TokensAreLeaves(t) && n >= 1
    ensures TokensAreLeaves(Take(t, n))
  {
    TakeAllKeepsLeaves(t.kids, n - 1);
  }

  lemma {:induction false} TakeAllKeepsLeaves(f: Forest, n: nat)
    requires TokensAreLeavesAll(f)
    ensures TokensAreLeavesAll(TakeAll(f, n))
  {
    match f
    case Empty =>
    case Snoc(init, last) =>
      TakeAllKeepsLeaves(init, n);
      var used := SizeAll(TakeAll(init, n));
      if used < n {
        TakeKeepsLeaves(last, n - used);
      }
  }

  lemma {:induction false} TightenKeepsLeaves(t: Tree)
    requires TokensAreLeaves(t)
    ensures TokensAreLeaves(Tighten(t))
  {
    TightenAllKeepsLeaves(t.kids);
  }

  lemma {:induction false} TightenAllKeepsLeaves(f: Forest)
    requires TokensAreLeavesAll(f)
    ensures TokensAreLeavesAll(TightenAll(f))
  {
    match f
    case Empty =>
    case Snoc(init, last) =>
      TightenAllKeepsLeaves(init);
      TightenKeepsLeaves(last);
  }

  // Spans: siblings are ordered and disjoint inside their parent.

  ghost predicate Ordered(f: Forest, low: nat, high: nat) {
    match f
    case Empty => low <= high
    case Snoc(init, last) => Ordered(init, low, last.begin) && last.begin <= last.end <= high
  }

  ghost predicate Neat(t: Tree) {
    Ordered(t.kids, t.begin, t.end) && NeatAll(t.kids)
  }

  ghost predicate NeatAll(f: Forest) {
    f.Snoc? ==> NeatAll(f.init) && Neat(f.last)
  }

  /** `inError` holds for an `Error` node and everything inside one, and for nothing else. */
  ghost predicate ErrorsMarked(t: Tree, inside: bool) {
    t.inError == (inside || t.kind == Inner(Error)) && ErrorsMarkedAll(t.kids, t.inError)
  }

  ghost predicate ErrorsMarkedAll(f: Forest, inside: bool) {
    f.Snoc? ==> ErrorsMarkedAll(f.init, inside) && ErrorsMarked(f.last, inside)
  }

  /** A token covers its text; an interior node spans exactly from its first child to its last. */
  ghost predicate Exact(t: Tree) {
    && (t.kind.Inner? ==>
          if t.kids.Empty? then t.begin == t.end
          else t.begin == FirstOf(t.kids).begin && t.end == t.kids.last.end)
    && ExactAll(t.kids)
  }

  ghost predicate ExactAll(f: Forest) {
    f.Snoc? ==> ExactAll(f.init) && Exact(f.last)
  }

  function FirstOf(f: Forest): Tree
    requires f.Snoc?
  {
    if f.init.Empty? then f.last else FirstOf(f.init)
  }

  lemma {:induction false} StripIsNeat(g: Green, at: nat, inError: bool)
    ensures Neat(Strip(g, at, inError)) && ErrorsMarked(Strip(g, at, inError), inError)
    ensures Strip(g, at, inError).begin == at && Strip(g, at, inError).end == at + Width(g)
    decreases g, 0
  {
    if g.Node? {
      StripAllIsNeat(g.children, at, inError || g.kind.Error?);
    }
  }

  lemma {:induction false} StripAllIsNeat(gs: seq<Green>, at: nat, inError: bool)
    ensures Ordered(StripAll(gs, at, inError), at, at + WidthAll(gs)) && NeatAll(StripAll(gs, at, inError))
    ensures ErrorsMarkedAll(StripAll(gs, at, inError), inError)
    decreases gs, 1
  {
    if gs != [] {
      var init, last := gs[..|gs| - 1], gs[|gs| - 1];
      StripAllIsNeat(init, at, inError);
      StripIsNeat(last, at + WidthAll(init), inError);
    }
  }

  lemma {:induction false} TakeIsNeat(t: Tree, n: nat, inside: bool)
    requires Neat(t) && ErrorsMarked(t, inside) && n >= 1
    ensures Neat(Take(t, n)) && ErrorsMarked(Take(t, n), inside)
  {
    TakeAllIsNeat(t.kids, n - 1, t.begin, t.end, t.inError);
  }

  lemma {:induction false} TakeAllIsNeat(f: Forest, n: nat, low: nat, high: nat, inside: bool)
    requires Ordered(f, low, high) && NeatAll(f) && ErrorsMarkedAll(f, inside)
    ensures Ordered(TakeAll(f, n), low, high) && NeatAll(TakeAll(f, n)) && ErrorsMarkedAll(TakeAll(f, n), inside)
  {
    match f
    case Empty =>
    case Snoc(init, last) =>
      TakeAllIsNeat(init, n, low, last.begin, inside);
      var before := TakeAll(init, n);
      if SizeAll(before) < n {
        TakeIsNeat(last, n - SizeAll(before), inside);
      }
  }

  /** Tightening moves no node out of its old span, and leaves every interior span exact. */
  lemma {:induction false} TightenIsNeat(t: Tree, inside: bool)
    requires Neat(t) && ErrorsMarked(t, inside) && t.begin <= t.end && TokensAreLeaves(t)
    ensures Neat(Tighten(t)) && ErrorsMarked(Tighten(t), inside) && Exact(Tighten(t))
    ensures t.begin <= Tighten(t).begin <= Tighten(t).end <= t.end
  {
    TightenAllIsNeat(t.kids, t.begin, t.end, t.inError);
    var kids := TightenAll(t.kids);
    if t.kind.Inner? && kids.Snoc? {
      HullOfOrdered(kids, t.begin, t.end);
    }
  }

  lemma {:induction false} TightenAllIsNeat(f: Forest, low: nat, high: nat, inside: bool)
    requires Ordered(f, low, high) && NeatAll(f) && ErrorsMarkedAll(f, inside) && TokensAreLeavesAll(f)
    ensures Ordered(TightenAll(f), low, high) && NeatAll(TightenAll(f))
    ensures ErrorsMarkedAll(TightenAll(f), inside) && ExactAll(TightenAll(f))
  {
    match f
    case Empty =>
    case Snoc(init, last) =>
      TightenAllIsNeat(init, low, last.begin, inside);
      TightenIsNeat(last, inside);
  }

  /** The hull of ordered siblings runs from the first one's begin to the last one's end. */
  lemma {:induction false} HullOfOrdered(f: Forest, low: nat, high: nat)
    requires f.Snoc? && Ordered(f, low, high)
    ensures HullBegin(f) == FirstOf(f).begin && HullEnd(f) == f.last.end
    ensures low <= HullBegin(f) <= HullEnd(f) <= high
    ensures Ordered(f, HullBegin(f), HullEnd(f))
  {
    if f.init.Snoc? {
      HullOfOrdered(f.init, low, f.last.begin);
    }
  }
}
