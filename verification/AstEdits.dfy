/** The editor's invariant (include/ast/ast.h): an edit inside bodies leaves the item tree as it was. */
module AstEdits {
  import opened Syntax
  import opened AstTree
  import opened Origins
  import opened AstReaders
  import opened AstItems
  import opened AstLowering

  // --- on lowered trees ---------------------------------------------------------------

  /** Two bodies in the same place: whatever they hold, each plays the role `p` over the same bytes. */
  ghost predicate SameBody(b: Tree, b': Tree, p: KindTest) {
    p(b.kind) && p(b'.kind) && b.begin == b'.begin && b.end == b'.end
  }

  /** The same children, bodies aside. */
  ghost predicate Edited(f: Forest, f': Forest, p: KindTest) {
    match (f, f')
    case (Empty, Empty) => true
    case (Snoc(init, last), Snoc(init', last')) => Edited(init, init', p) && (last == last' || SameBody(last, last', p))
    case _ => false
  }

  ghost predicate Exclusive(p: KindTest, q: KindTest) {
    forall k: SyntaxKind :: p(k) ==> !q(k)
  }

  lemma {:induction false} EditedCount(f: Forest, f': Forest, p: KindTest)
    requires Edited(f, f', p)
    ensures Count(f) == Count(f')
  {
    if f.Snoc? { EditedCount(f.init, f'.init, p); }
  }

  /** A child found by any other role is found where it was, unchanged. */
  lemma {:induction false} OtherRoleStays(f: Forest, f': Forest, p: KindTest, q: KindTest)
    requires Edited(f, f', p) && Exclusive(p, q)
    ensures FirstWhere(f, q) == FirstWhere(f', q)
    ensures FirstWhere(f, q) >= 0 ==> KidAt(f, FirstWhere(f, q)) == KidAt(f', FirstWhere(f, q))
  {
    if f.Snoc? {
      EditedCount(f.init, f'.init, p);
      OtherRoleStays(f.init, f'.init, p, q);
    }
  }

  /** The body is found where it was, over the same bytes. */
  lemma {:induction false} BodyStays(f: Forest, f': Forest, p: KindTest)
    requires Edited(f, f', p)
    ensures FirstWhere(f, p) == FirstWhere(f', p)
    ensures var i := FirstWhere(f, p);
            i >= 0 ==> KidAt(f, i).begin == KidAt(f', i).begin && KidAt(f, i).end == KidAt(f', i).end
  {
    if f.Snoc? {
      EditedCount(f.init, f'.init, p);
      BodyStays(f.init, f'.init, p);
    }
  }

  /** The same declaration, its body edited. */
  ghost predicate SameDeclaration(t: Tree, t': Tree) {
    IsItemKind(t.kind) && t' == t.(kids := t'.kids) && Edited(t.kids, t'.kids, BodyTest(t.kind))
  }

  lemma SignatureStays(t: Tree, t': Tree, o: OriginTable)
    requires SameDeclaration(t, t')
    ensures SignatureOf(t, o) == SignatureOf(t', o)
  {
    var p := BodyTest(t.kind);
    BodyStays(t.kids, t'.kids, p);
    OtherRoleStays(t.kids, t'.kids, p, IsKind(Inner(Name)));
    OtherRoleStays(t.kids, t'.kids, p, IsKind(Tok(KwStatic)));
    if t.kind == Inner(FnDecl) {
      OtherRoleStays(t.kids, t'.kids, p, IsKind(Inner(ParamList)));
    }
  }

  // --- on green trees -----------------------------------------------------------------

  /** The significant bytes of an element standing at `at`. */
  function TightTree(g: Green, at: nat, inError: bool): Tree { Tighten(Strip(g, at, inError)) }

  /** `b'` may stand where `b` stood: the same width, and the same significant bytes. */
  ghost predicate SameBytes(b: Green, b': Green, at: nat, inError: bool) {
    && Width(b) == Width(b')
    && TightTree(b, at, inError).begin == TightTree(b', at, inError).begin
    && TightTree(b, at, inError).end == TightTree(b', at, inError).end
  }

  ghost predicate ChildReplaced(g: Green, g': Green, at: nat, inError: bool, p: KindTest) {
    g == g' || (g.Node? && g'.Node? && p(Inner(g.kind)) && p(Inner(g'.kind)) && SameBytes(g, g', at, inError))
  }

  /** The same children, some of those that play the role `p` replaced byte for byte. */
  ghost predicate BodiesReplaced(gs: seq<Green>, gs': seq<Green>, at: nat, inError: bool, p: KindTest) {
    |gs| == |gs'| && forall i :: 0 <= i < |gs| ==> ReplacedAt(gs, gs', i, at, inError, p)
  }

  ghost predicate ReplacedAt(gs: seq<Green>, gs': seq<Green>, i: nat, at: nat, inError: bool, p: KindTest)
    requires i < |gs| == |gs'|
  {
    ChildReplaced(gs[i], gs'[i], at + WidthAll(gs[..i]), inError, p)
  }

  /** The lowered children of a node, with their significant bytes. */
  function TightAll(gs: seq<Green>, at: nat, inError: bool): Forest { TightenAll(StripAll(gs, at, inError)) }

  lemma TightOfPrefix(gs: seq<Green>, i: nat, at: nat, inError: bool)
    requires i < |gs|
    ensures TightAll(gs[..i + 1], at, inError) ==
            if gs[i].IsTriviaToken() then TightAll(gs[..i], at, inError)
            else Snoc(TightAll(gs[..i], at, inError), TightTree(gs[i], at + WidthAll(gs[..i]), inError))
  {
    StripOfPrefix(gs, i, at, inError);
  }

  lemma ReplacedTree(g: Green, g': Green, at: nat, inError: bool, p: KindTest)
    requires ChildReplaced(g, g', at, inError, p)
    ensures Width(g) == Width(g') && g.IsTriviaToken() == g'.IsTriviaToken()
    ensures var t, t' := TightTree(g, at, inError), TightTree(g', at, inError); t == t' || SameBody(t, t', p)
  {}

  /** The first `i` children take as many bytes in both lists and differ only in bodies. */
  ghost predicate EditedUpTo(gs: seq<Green>, gs': seq<Green>, i: nat, at: nat, inError: bool, p: KindTest)
    requires i <= |gs| == |gs'|
  {
    && WidthAll(gs[..i]) == WidthAll(gs'[..i])
    && Edited(TightAll(gs[..i], at, inError), TightAll(gs'[..i], at, inError), p)
  }

  lemma OneMoreEdited(gs: seq<Green>, gs': seq<Green>, i: nat, at: nat, inError: bool, p: KindTest)
    requires i < |gs| == |gs'| && ReplacedAt(gs, gs', i, at, inError, p) && EditedUpTo(gs, gs', i, at, inError, p)
    ensures EditedUpTo(gs, gs', i + 1, at, inError, p)
  {
    ReplacedTree(gs[i], gs'[i], at + WidthAll(gs[..i]), inError, p);
    TightOfPrefix(gs, i, at, inError);
    TightOfPrefix(gs', i, at, inError);
    WidthOfPrefix(gs, i);
    WidthOfPrefix(gs', i);
  }

  lemma {:induction false} ReplacedIsEdited(gs: seq<Green>, gs': seq<Green>, i: nat, at: nat, inError: bool,
                                            p: KindTest)
    requires BodiesReplaced(gs, gs', at, inError, p) && i <= |gs|
    ensures EditedUpTo(gs, gs', i, at, inError, p)
  {
    if i > 0 {
      ReplacedIsEdited(gs, gs', i - 1, at, inError, p);
      OneMoreEdited(gs, gs', i - 1, at, inError, p);
    }
  }

  /** The same file, bodies of its declarations replaced byte for byte. */
  ghost predicate FileReplaced(gs: seq<Green>, gs': seq<Green>, at: nat, inError: bool) {
    |gs| == |gs'| && forall i :: 0 <= i < |gs| ==> ElementReplaced(gs, gs', i, at, inError)
  }

  ghost predicate ElementReplaced(gs: seq<Green>, gs': seq<Green>, i: nat, at: nat, inError: bool)
    requires i < |gs| == |gs'|
  {
    gs[i] == gs'[i] || DeclReplaced(gs[i], gs'[i], at + WidthAll(gs[..i]), inError)
  }

  ghost predicate DeclReplaced(g: Green, g': Green, at: nat, inError: bool) {
    && g.Node? && g'.Node? && g.kind == g'.kind && IsItemKind(Inner(g.kind))
    && BodiesReplaced(g.children, g'.children, at, inError, BodyTest(Inner(g.kind)))
  }

  lemma {:induction false} EditedHull(f: Forest, f': Forest, p: KindTest)
    requires Edited(f, f', p) && f.Snoc?
    ensures HullBegin(f) == HullBegin(f') && HullEnd(f) == HullEnd(f')
  {
    if f.init.Snoc? { EditedHull(f.init, f'.init, p); }
  }

  lemma DeclStays(g: Green, g': Green, at: nat, inError: bool)
    requires DeclReplaced(g, g', at, inError)
    ensures Width(g) == Width(g') && SameDeclaration(TightTree(g, at, inError), TightTree(g', at, inError))
  {
    var n, p := |g.children|, BodyTest(Inner(g.kind));
    assert g.children[..n] == g.children && g'.children[..n] == g'.children;
    ReplacedIsEdited(g.children, g'.children, n, at, inError, p);
    var kids, kids' := TightAll(g.children, at, inError), TightAll(g'.children, at, inError);
    if kids.Snoc? {
      EditedHull(kids, kids', p);
    }
  }

  /** The items an element standing at `at` adds to a file. */
  function ItemsAt(g: Green, at: nat, inError: bool, o: OriginTable): seq<Signature> {
    if g.IsTriviaToken() then [] else ItemsOf(TightTree(g, at, inError), o)
  }

  lemma ItemsStay(g: Green, g': Green, at: nat, inError: bool, o: OriginTable)
    requires g == g' || DeclReplaced(g, g', at, inError)
    ensures Width(g) == Width(g') && ItemsAt(g, at, inError, o) == ItemsAt(g', at, inError, o)
  {
    if g != g' {
      DeclStays(g, g', at, inError);
      SignatureStays(TightTree(g, at, inError), TightTree(g', at, inError), o);
    }
  }

  lemma SignaturesOfPrefix(gs: seq<Green>, i: nat, at: nat, inError: bool, o: OriginTable)
    requires i < |gs|
    ensures WidthAll(gs[..i + 1]) == WidthAll(gs[..i]) + Width(gs[i])
    ensures Signatures(TightAll(gs[..i + 1], at, inError), o) ==
            Signatures(TightAll(gs[..i], at, inError), o) + ItemsAt(gs[i], at + WidthAll(gs[..i]), inError, o)
  {
    WidthOfPrefix(gs, i);
    TightOfPrefix(gs, i, at, inError);
  }

  lemma ReplacedItems(gs: seq<Green>, gs': seq<Green>, i: nat, here: nat, at: nat, inError: bool, o: OriginTable)
    requires FileReplaced(gs, gs', at, inError) && i < |gs| && here == at + WidthAll(gs[..i])
    ensures Width(gs[i]) == Width(gs'[i]) && ItemsAt(gs[i], here, inError, o) == ItemsAt(gs'[i], here, inError, o)
  {
    assert ElementReplaced(gs, gs', i, at, inError);
    ItemsStay(gs[i], gs'[i], here, inError, o);
  }

  /** Two files alike up to here and at the next element are alike behind it. */
  lemma OneMoreAlike(gs: seq<Green>, gs': seq<Green>, i: nat, at: nat, inError: bool, o: OriginTable)
    requires i < |gs| == |gs'| && WidthAll(gs[..i]) == WidthAll(gs'[..i]) && Width(gs[i]) == Width(gs'[i])
    requires Signatures(TightAll(gs[..i], at, inError), o) == Signatures(TightAll(gs'[..i], at, inError), o)
    requires ItemsAt(gs[i], at + WidthAll(gs[..i]), inError, o) == ItemsAt(gs'[i], at + WidthAll(gs[..i]), inError, o)
    ensures WidthAll(gs[..i + 1]) == WidthAll(gs'[..i + 1])
    ensures Signatures(TightAll(gs[..i + 1], at, inError), o) == Signatures(TightAll(gs'[..i + 1], at, inError), o)
  {
    SignaturesOfPrefix(gs, i, at, inError, o);
    SignaturesOfPrefix(gs', i, at, inError, o);
  }

  /** The first `i` elements take as many bytes in both files and hold the same items. */
  ghost predicate AlikeUpTo(gs: seq<Green>, gs': seq<Green>, i: nat, at: nat, inError: bool, o: OriginTable)
    requires i <= |gs| == |gs'|
  {
    && WidthAll(gs[..i]) == WidthAll(gs'[..i])
    && Signatures(TightAll(gs[..i], at, inError), o) == Signatures(TightAll(gs'[..i], at, inError), o)
  }

  lemma ReplacedIsAlike(gs: seq<Green>, gs': seq<Green>, i: nat, at: nat, inError: bool, o: OriginTable)
    requires FileReplaced(gs, gs', at, inError) && i < |gs| && AlikeUpTo(gs, gs', i, at, inError, o)
    ensures AlikeUpTo(gs, gs', i + 1, at, inError, o)
  {
    ReplacedItems(gs, gs', i, at + WidthAll(gs[..i]), at, inError, o);
    OneMoreAlike(gs, gs', i, at, inError, o);
  }

  lemma {:induction false} SignaturesStay(gs: seq<Green>, gs': seq<Green>, i: nat, at: nat, inError: bool,
                                          o: OriginTable)
    requires FileReplaced(gs, gs', at, inError) && i <= |gs|
    ensures AlikeUpTo(gs, gs', i, at, inError, o)
  {
    if i == 0 {
      assert gs[..0] == gs'[..0];
    } else {
      SignaturesStay(gs, gs', i - 1, at, inError, o);
      ReplacedIsAlike(gs, gs', i - 1, at, inError, o);
    }
  }

  /**
   * Replacing bodies by others over the same bytes leaves every item's signature equal, although
   * node indices after the edit move.
   */
  lemma ItemTreeSurvivesBodyEdits(root: Green, root': Green, maxNodes: nat, o: OriginTable)
    requires root.Node? && root'.Node? && root.kind == root'.kind
    requires FileReplaced(root.children, root'.children, 0, root.kind.Error?)
    requires Size(Strip(root, 0, false)) <= maxNodes && Size(Strip(root', 0, false)) <= maxNodes
    ensures Signatures(LoweredFile(root, maxNodes).kids, o) == Signatures(LoweredFile(root', maxNodes).kids, o)
  {
    TakeWhole(Strip(root, 0, false), maxNodes);
    TakeWhole(Strip(root', 0, false), maxNodes);
    var n := |root.children|;
    assert root.children[..n] == root.children && root'.children[..n] == root'.children;
    SignaturesStay(root.children, root'.children, n, 0, root.kind.Error?, o);
  }

  // --- why the bytes must stay --------------------------------------------------------------

  /** The tree standing `d` bytes further on. */
  function Moved(t: Tree, d: nat): Tree {
    t.(begin := t.begin + d, end := t.end + d, kids := MovedAll(t.kids, d))
  }

  function MovedAll(f: Forest, d: nat): Forest {
    match f
    case Empty => Empty
    case Snoc(init, last) => Snoc(MovedAll(init, d), Moved(last, d))
  }

  lemma {:induction false} StripMoves(g: Green, at: nat, d: nat, inError: bool)
    ensures Strip(g, at + d, inError) == Moved(Strip(g, at, inError), d)
    decreases g, 0
  {
    if g.Node? {
      StripAllMoves(g.children, at, d, inError || g.kind.Error?);
    }
  }

  lemma {:induction false} StripAllMoves(gs: seq<Green>, at: nat, d: nat, inError: bool)
    ensures StripAll(gs, at + d, inError) == MovedAll(StripAll(gs, at, inError), d)
    decreases gs, 1
  {
    if gs != [] {
      var init, last := gs[..|gs| - 1], gs[|gs| - 1];
      StripAllMoves(init, at, d, inError);
      if !last.IsTriviaToken() {
        StripMoves(last, at + WidthAll(init), d, inError);
        assert at + WidthAll(init) + d == at + d + WidthAll(init);
      }
    }
  }

  lemma {:induction false} TightenMoves(t: Tree, d: nat)
    ensures Tighten(Moved(t, d)) == Moved(Tighten(t), d)
  {
    TightenAllMoves(t.kids, d);
    if TightenAll(t.kids).Snoc? {
      HullMoves(TightenAll(t.kids), d);
    }
  }

  lemma {:induction false} TightenAllMoves(f: Forest, d: nat)
    ensures TightenAll(MovedAll(f, d)) == MovedAll(TightenAll(f), d)
  {
    match f
    case Empty =>
    case Snoc(init, last) =>
      TightenAllMoves(init, d);
      TightenMoves(last, d);
  }

  lemma {:induction false} HullMoves(f: Forest, d: nat)
    requires f.Snoc?
    ensures HullBegin(MovedAll(f, d)) == HullBegin(f) + d && HullEnd(MovedAll(f, d)) == HullEnd(f) + d
  {
    if f.init.Snoc? { HullMoves(f.init, d); }
  }

  /** With the text its own source, a declaration standing elsewhere has another signature. */
  lemma MovedItemDiffers(g: Green, at: nat, d: nat, inError: bool, unit: nat)
    requires d > 0
    ensures var o := OriginTable(unit, []);
            SignatureOf(TightTree(g, at + d, inError), o) != SignatureOf(TightTree(g, at, inError), o)
  {
    StripMoves(g, at, d, inError);
    TightenMoves(Strip(g, at, inError), d);
  }

  lemma OneMoreItem(gs: seq<Green>, later: Green, at: nat, inError: bool, o: OriginTable)
    requires !later.IsTriviaToken()
    ensures Signatures(TightAll(gs + [later], at, inError), o)
         == Signatures(TightAll(gs, at, inError), o) + ItemsOf(TightTree(later, at + WidthAll(gs), inError), o)
  {
    var all := gs + [later];
    assert all[..|gs|] == gs && all[..|gs| + 1] == all;
    SignaturesOfPrefix(all, |gs|, at, inError, o);
  }

  lemma OneItem(later: Green, at: nat, o: OriginTable)
    requires later.Node? && IsItemKind(Inner(later.kind))
    ensures ItemsOf(TightTree(later, at, false), o) == [SignatureOf(TightTree(later, at, false), o)]
  {}

  /** The signature of a declaration standing at `at`, in a text that is its own source. */
  function SignatureAt(g: Green, at: nat, unit: nat): Signature {
    SignatureOf(TightTree(g, at, false), OriginTable(unit, []))
  }

  lemma SameItemSamePlace(g: Green, p: nat, q: nat, unit: nat, a: Signature, b: Signature)
    requires a == SignatureAt(g, p, unit) && b == SignatureAt(g, q, unit)
    ensures a == b <==> p == q
  {
    if p < q {
      MovedItemDiffers(g, p, q - p, false, unit);
    } else if q < p {
      MovedItemDiffers(g, q, p - q, false, unit);
    }
  }

  /**
   * Compared spans are absolute. Behind declarations whose signatures an edit left equal, a later
   * declaration's signature stays equal exactly when the edit kept the number of bytes before it.
   */
  lemma LaterItemsStayExactlyWhenBytesDo(gs: seq<Green>, gs': seq<Green>, later: Green, at: nat, unit: nat)
    requires later.Node? && IsItemKind(Inner(later.kind))
    requires var o := OriginTable(unit, []);
             Signatures(TightAll(gs, at, false), o) == Signatures(TightAll(gs', at, false), o)
    ensures var o := OriginTable(unit, []);
            Signatures(TightAll(gs + [later], at, false), o) == Signatures(TightAll(gs' + [later], at, false), o)
            <==> WidthAll(gs) == WidthAll(gs')
  {
    var o := OriginTable(unit, []);
    var a, p := OneMoreSignature(gs, later, at, unit);
    var b, q := OneMoreSignature(gs', later, at, unit);
    SameItemSamePlace(later, p, q, unit, a, b);
    LastDecides(Signatures(TightAll(gs + [later], at, false), o), Signatures(TightAll(gs' + [later], at, false), o),
                Signatures(TightAll(gs, at, false), o), Signatures(TightAll(gs', at, false), o), a, b);
  }

  lemma OneMoreSignature(gs: seq<Green>, later: Green, at: nat, unit: nat) returns (s: Signature, p: nat)
    requires later.Node? && IsItemKind(Inner(later.kind))
    ensures p == at + WidthAll(gs) && s == SignatureAt(later, p, unit)
    ensures var o := OriginTable(unit, []);
            Signatures(TightAll(gs + [later], at, false), o) == Signatures(TightAll(gs, at, false), o) + [s]
  {
    var o := OriginTable(unit, []);
    p := at + WidthAll(gs);
    OneMoreItem(gs, later, at, false, o);
    OneItem(later, p, o);
    s := SignatureAt(later, p, unit);
  }

  lemma LastDecides(l: seq<Signature>, l': seq<Signature>, s: seq<Signature>, s': seq<Signature>, a: Signature,
                    b: Signature)
    requires s == s' && l == s + [a] && l' == s' + [b]
    ensures l == l' <==> a == b
  {
    assert l[|s|] == a && l'[|s|] == b;
  }
}
