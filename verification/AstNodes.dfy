/**
 * What each lowered node says of the file, told without the lowering: which element it stands for, which
 * name it carries, and which text a leaf covers.
 */
module AstNodes {
  import opened MachineWords
  import opened Syntax
  import opened AstTree
  import opened AstArrays
  import opened Origins
  import opened TreeText

  // --- the file's significant elements, parents first -------------------------------------------

  predicate IsIdentifier(g: Green) { g.Token? && g.token == Identifier }

  /** Everything but white space, line ends and comments. */
  predicate IsSignificant(g: Green) {
    g.Token? ==> g.token != Whitespace && g.token != Newline && g.token != LineComment && g.token != BlockComment
  }

  /** An element of the file and the byte it starts at. */
  datatype Element = Element(g: Green, at: nat)

  function Elements(g: Green, at: nat): seq<Element>
    decreases g, 0
  {
    [Element(g, at)] + if g.Node? then ElementsAll(g.children, at) else []
  }

  function ElementsAll(gs: seq<Green>, at: nat): seq<Element>
    decreases gs, 1
  {
    if gs == [] then []
    else
      var init, last := gs[..|gs| - 1], gs[|gs| - 1];
      ElementsAll(init, at) + if IsSignificant(last) then Elements(last, at + |TextAll(init)|) else []
  }

  /** How many children of a node are no trivia. */
  function SignificantCount(gs: seq<Green>): nat {
    if gs == [] then 0 else SignificantCount(gs[..|gs| - 1]) + if IsSignificant(gs[|gs| - 1]) then 1 else 0
  }

  // --- what a node says ------------------------------------------------------------------------------

  /** `gs[i]` is the first identifier leaf among `gs`. */
  ghost predicate FirstIdentifier(gs: seq<Green>, i: nat) {
    i < |gs| && IsIdentifier(gs[i]) && forall j :: 0 <= j < i ==> !IsIdentifier(gs[j])
  }

  /** The nodes that mean one identifier carry their first identifier leaf's text, and no other node a name. */
  ghost predicate CarriesName(g: Green, name: Symbol) {
    match g
    case Token(token, text) => name == if token == Identifier then Symbol(text) else NoSymbol
    case Node(kind, children) =>
      if kind == Name || kind == PathExpr
      then
        && (forall i: nat :: FirstIdentifier(children, i) ==> name == Symbol(children[i].text))
        && ((forall c <- children :: !IsIdentifier(c)) ==> name == NoSymbol)
      else name == NoSymbol
  }

  /** `t` stands for the element: its kind, its name, and for a leaf the bytes of its text. */
  ghost predicate StandsFor(t: Tree, e: Element) {
    && CarriesName(e.g, t.name)
    && match e.g
       case Token(token, text) => t.kind == Tok(token) && t.begin == e.at && t.end == e.at + |text|
       case Node(kind, _) => t.kind == Inner(kind)
  }

  /** The same of a record of the node array; an interior node left without children is empty and starts its text. */
  ghost predicate RecordStandsFor(n: AstNode, unit: nat, e: Element) {
    && CarriesName(e.g, n.name)
    && match e.g
       case Token(token, text) => n.kind == Tok(token) && n.unit == Span(unit, e.at, e.at + |text|)
       case Node(kind, _) => n.kind == Inner(kind) && (n.childCount == 0 ==> n.unit == Span(unit, e.at, e.at))
  }

  lemma {:induction false} NameInIsFirst(gs: seq<Green>)
    ensures forall i: nat :: FirstIdentifier(gs, i) ==> NameIn(gs) == Symbol(gs[i].text)
    ensures (forall c <- gs :: !IsIdentifier(c)) ==> NameIn(gs) == NoSymbol
  {
    if gs != [] {
      var rest := gs[1..];
      NameInIsFirst(rest);
      assert forall c <- rest :: c in gs;
      forall i: nat | FirstIdentifier(gs, i)
        ensures NameIn(gs) == Symbol(gs[i].text)
      {
        if i > 0 {
          assert !IsIdentifier(gs[0]);
          assert FirstIdentifier(rest, i - 1) by {
            assert forall j :: 0 <= j < i - 1 ==> rest[j] == gs[j + 1];
          }
        }
      }
      if forall c <- gs :: !IsIdentifier(c) {
        assert gs[0] in gs;
      }
    }
  }

  lemma NameIsCarried(g: Green)
    ensures CarriesName(g, NameOf(g))
  {
    if g.Node? {
      NameInIsFirst(g.children);
    }
  }

  // --- dropping trivia -------------------------------------------------------------------------------

  /** Node for node, `ts` stands for the first elements of `es`. */
  ghost predicate StandForFirst(ts: seq<Tree>, es: seq<Element>) {
    |ts| <= |es| && forall i :: 0 <= i < |ts| ==> StandsFor(ts[i], es[i])
  }

  /**
   * Dropping trivia leaves the significant elements, all of them, parents first and in order, each with
   * its name, and every node with all its significant children.
   */
  lemma {:induction false} StripKeepsElements(g: Green, at: nat, inError: bool)
    ensures |PreOrder(Strip(g, at, inError))| == |Elements(g, at)|
    ensures StandForFirst(PreOrder(Strip(g, at, inError)), Elements(g, at))
    ensures Count(Strip(g, at, inError).kids) == if g.Node? then SignificantCount(g.children) else 0
    decreases g, 0
  {
    NameIsCarried(g);
    if g.Node? {
      StripAllKeepsElements(g.children, at, inError || g.kind.Error?);
    }
  }

  lemma {:induction false} StripAllKeepsElements(gs: seq<Green>, at: nat, inError: bool)
    ensures |PreOrderAll(StripAll(gs, at, inError))| == |ElementsAll(gs, at)|
    ensures StandForFirst(PreOrderAll(StripAll(gs, at, inError)), ElementsAll(gs, at))
    ensures Count(StripAll(gs, at, inError)) == SignificantCount(gs)
    decreases gs, 1
  {
    if gs != [] {
      var init, last := gs[..|gs| - 1], gs[|gs| - 1];
      StripAllKeepsElements(init, at, inError);
      if IsSignificant(last) {
        WidthIsText(init);
        StripKeepsElements(last, at + WidthAll(init), inError);
      }
    }
  }

  /** Before tightening, node for node, a span is where the element's whole text stands. */
  ghost predicate CoverText(ts: seq<Tree>, es: seq<Element>) {
    |ts| == |es| && forall i :: 0 <= i < |ts| ==> ts[i].begin == es[i].at && ts[i].end == es[i].at + |Text(es[i].g)|
  }

  lemma {:induction false} StripCoversText(g: Green, at: nat, inError: bool)
    ensures CoverText(PreOrder(Strip(g, at, inError)), Elements(g, at))
    decreases g, 0
  {
    if g.Node? {
      WidthIsText(g.children);
      StripAllCoversText(g.children, at, inError || g.kind.Error?);
    }
  }

  lemma {:induction false} StripAllCoversText(gs: seq<Green>, at: nat, inError: bool)
    ensures CoverText(PreOrderAll(StripAll(gs, at, inError)), ElementsAll(gs, at))
    decreases gs, 1
  {
    if gs != [] {
      var init, last := gs[..|gs| - 1], gs[|gs| - 1];
      StripAllCoversText(init, at, inError);
      if IsSignificant(last) {
        WidthIsText(init);
        StripCoversText(last, at + WidthAll(init), inError);
      }
    }
  }

  // --- tightening and cutting ---------------------------------------------------------------------

  /** The same nodes, interior spans aside. */
  ghost predicate SameNodes(a: seq<Tree>, b: seq<Tree>) {
    && |a| == |b|
    && forall i :: 0 <= i < |a| ==>
         && a[i].kind == b[i].kind && a[i].name == b[i].name
         && (a[i].kind.Tok? ==> Head(a[i]) == Head(b[i]))
         && (a[i].kind.Inner? && a[i].kids.Empty? ==> a[i].begin == a[i].end == b[i].begin)
  }

  lemma {:induction false} TightenKeepsNodes(t: Tree)
    requires TokensAreLeaves(t)
    ensures SameNodes(PreOrder(Tighten(t)), PreOrder(t))
  {
    TightenAllKeepsNodes(t.kids);
  }

  lemma {:induction false} TightenAllKeepsNodes(f: Forest)
    requires TokensAreLeavesAll(f)
    ensures SameNodes(PreOrderAll(TightenAll(f)), PreOrderAll(f))
  {
    match f
    case Empty =>
    case Snoc(init, last) =>
      TightenAllKeepsNodes(init);
      TightenKeepsNodes(last);
  }

  /** Whatever the budget kept stands for the file's first elements. */
  lemma CutStandsForFirst(g: Green, at: nat, inError: bool, n: nat)
    requires n >= 1
    ensures var kept := PreOrder(Tighten(Take(Strip(g, at, inError), n)));
            && StandForFirst(kept, Elements(g, at)) && |kept| == Min(n, |Elements(g, at)|)
            && forall i :: 0 <= i < |kept| && kept[i].kind.Inner? && kept[i].kids.Empty? ==>
                 kept[i].begin == kept[i].end == Elements(g, at)[i].at
  {
    var all := Strip(g, at, inError);
    StripKeepsElements(g, at, inError);
    TakeIsPreOrderPrefix(all, n);
    StripKeepsLeaves(g, at, inError);
    TakeKeepsLeaves(all, n);
    TightenKeepsNodes(Take(all, n));
    StripCoversText(g, at, inError);
    SameStandFor(PreOrder(Tighten(Take(all, n))), PreOrder(Take(all, n)), PreOrder(all), Elements(g, at));
  }

  lemma SameStandFor(a: seq<Tree>, b: seq<Tree>, c: seq<Tree>, es: seq<Element>)
    requires SameNodes(a, b) && PrefixByHead(b, c) && StandForFirst(c, es) && CoverText(c, es)
    ensures StandForFirst(a, es)
    ensures forall i :: 0 <= i < |a| && a[i].kind.Inner? && a[i].kids.Empty? ==> a[i].begin == a[i].end == es[i].at
  {
    forall i | 0 <= i < |a|
      ensures StandsFor(a[i], es[i])
      ensures a[i].kind.Inner? && a[i].kids.Empty? ==> a[i].begin == a[i].end == es[i].at
    {
      assert Head(b[i]) == Head(c[i]) && StandsFor(c[i], es[i]);
    }
  }

  // --- in the arrays -----------------------------------------------------------------------------------

  /** Record `i` is the `i`th node in pre-order. */
  ghost predicate InPreOrder(nodes: seq<AstNode>, ts: seq<Tree>, unit: nat) {
    && |nodes| == |ts|
    && forall i :: 0 <= i < |nodes| ==>
         nodes[i].kind == ts[i].kind && nodes[i].name == ts[i].name && nodes[i].inError == ts[i].inError &&
         nodes[i].unit == Span(unit, ts[i].begin, ts[i].end) && nodes[i].childCount == Count(ts[i].kids)
  }

  lemma {:induction false} RecordsInPreOrder(t: Tree, sb: nat, o: OriginTable)
    ensures InPreOrder(NodesFor(t, sb, o), PreOrder(t), o.unit)
  {
    RecordsAllInPreOrder(t.kids, sb, o);
  }

  lemma {:induction false} RecordsAllInPreOrder(f: Forest, sb: nat, o: OriginTable)
    ensures InPreOrder(NodesForAll(f, sb, o), PreOrderAll(f), o.unit)
  {
    match f
    case Empty =>
    case Snoc(init, last) =>
      RecordsAllInPreOrder(init, sb, o);
      RecordsInPreOrder(last, sb + SlotCount(init), o);
  }

  /** The node array stands for the file's first elements, all of them when there is room. */
  ghost predicate StandForFile(nodes: seq<AstNode>, unit: nat, g: Green, room: nat) {
    var es := Elements(g, 0);
    |nodes| == Min(room, |es|) && forall i :: 0 <= i < |nodes| ==> RecordStandsFor(nodes[i], unit, es[i])
  }

  lemma RecordsStandForFile(nodes: seq<AstNode>, unit: nat, g: Green, room: nat)
    requires room >= 1 && InPreOrder(nodes, PreOrder(Tighten(Take(Strip(g, 0, false), room))), unit)
    ensures StandForFile(nodes, unit, g, room)
  {
    CutStandsForFirst(g, 0, false, room);
    var ts := PreOrder(Tighten(Take(Strip(g, 0, false), room)));
    forall i | 0 <= i < |nodes|
      ensures RecordStandsFor(nodes[i], unit, Elements(g, 0)[i])
    {
      assert StandsFor(ts[i], Elements(g, 0)[i]);
    }
  }
}
