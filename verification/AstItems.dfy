/** File-scope items (include/ast/ast.h, src/ast/lower.cc): what a declaration is without its body. */
module AstItems {
  import opened Syntax
  import opened AstTree
  import opened Origins
  import opened AstArrays
  import opened AstReaders

  /** The fields `Item::operator==` compares. */
  datatype Signature = Signature(
    kind: SyntaxKind, name: Symbol, span: Span, nameSpan: Span,
    paramCount: nat, variadic: bool, hasBody: bool, isStatic: bool)

  /** An item: its signature, and where its declaration and body happen to stand. */
  datatype Item = Item(signature: Signature, node: AstId, body: MaybeId)

  predicate IsItemKind(kind: SyntaxKind) {
    kind == Inner(FnDecl) || kind == Inner(LetStmt) || kind == Inner(ConstStmt) || kind == Inner(TypeAliasDecl)
  }

  /** Which child is a declaration's body: its block, the type it names, or its value. */
  function BodyTest(decl: SyntaxKind): KindTest {
    if decl == Inner(FnDecl) then IsKind(Inner(Block))
    else if decl == Inner(TypeAliasDecl) then IsKind(Inner(Type))
    else IsValue()
  }

  const NO_SPAN := Span(INVALID_FILE, 0, 0)

  function SpanOf(t: Tree, o: OriginTable): Span { o.OriginOf(t.begin, t.end) }

  /** A declaration's signature, read off its tree. */
  function SignatureOf(t: Tree, o: OriginTable): Signature {
    var name := FirstWhere(t.kids, IsKind(Inner(Name)));
    var body := FirstWhere(t.kids, BodyTest(t.kind));
    var list := if t.kind == Inner(FnDecl) then FirstWhere(t.kids, IsKind(Inner(ParamList))) else -1;
    var whole := SpanOf(t, o);
    Signature(
      t.kind,
      if name < 0 then NoSymbol else KidAt(t.kids, name).name,
      Span(whole.file, whole.begin, if body < 0 then whole.end else SpanOf(KidAt(t.kids, body), o).begin),
      if name < 0 then NO_SPAN else SpanOf(KidAt(t.kids, name), o),
      if list < 0 then 0 else CountWhere(KidAt(t.kids, list).kids, IsKind(Inner(Param))),
      list >= 0 && FirstWhere(KidAt(t.kids, list).kids, IsKind(Inner(VariadicParam))) >= 0,
      body >= 0,
      FirstWhere(t.kids, IsKind(Tok(KwStatic))) >= 0)
  }

  /** The signatures of a file, in order; a declaration inside an error region is not an item. */
  function Signatures(f: Forest, o: OriginTable): seq<Signature> {
    match f
    case Empty => []
    case Snoc(init, last) =>
      Signatures(init, o) + ItemsOf(last, o)
  }

  function ItemsOf(t: Tree, o: OriginTable): seq<Signature> {
    if IsItemKind(t.kind) && !t.inError then [SignatureOf(t, o)] else []
  }

  // --- reading them off the arrays ---------------------------------------------------

  /** Every node's written span is the origin of its unit span. */
  ghost predicate Traced(nodes: seq<AstNode>, o: OriginTable) {
    forall i :: 0 <= i < |nodes| ==> nodes[i].origin == o.OriginOf(nodes[i].unit.begin, nodes[i].unit.end)
  }

  lemma {:induction false} LayoutIsTraced(t: Tree, sb: nat, o: OriginTable)
    ensures Traced(NodesFor(t, sb, o), o)
  {
    LayoutAllIsTraced(t.kids, sb, o);
  }

  lemma {:induction false} LayoutAllIsTraced(f: Forest, sb: nat, o: OriginTable)
    ensures Traced(NodesForAll(f, sb, o), o)
  {
    match f
    case Empty =>
    case Snoc(init, last) =>
      LayoutAllIsTraced(init, sb, o);
      LayoutIsTraced(last, sb + SlotCount(init), o);
  }

  lemma KidByName(nodes: seq<AstNode>, slots: seq<AstId>, id: AstId, i: int, r: MaybeId)
    requires WellFormed(nodes, slots) && id < |nodes| && Names(nodes, slots, id, i, r)
    ensures Count(Decode(nodes, slots, id).kids) == nodes[id].childCount
    ensures r.Id? ==> r.index < |nodes| && KidAt(Decode(nodes, slots, id).kids, i) == Decode(nodes, slots, r.index)
  {
    var from := nodes[id].firstChild;
    DecodeRangeAt(nodes, slots, id, from, from + nodes[id].childCount, if i < 0 then 0 else i);
  }

  method CollectItem(nodes: seq<AstNode>, slots: seq<AstId>, o: OriginTable, decl: AstId) returns (item: Item)
    requires WellFormed(nodes, slots) && decl < |nodes| && Traced(nodes, o)
    ensures item.signature == SignatureOf(Decode(nodes, slots, decl), o)
    ensures item.node == decl
    ensures Names(nodes, slots, decl, FirstWhere(Decode(nodes, slots, decl).kids, BodyTest(nodes[decl].kind)),
            item.body)
  {
    var node := nodes[decl];
    ghost var kids := Decode(nodes, slots, decl).kids;
    var linkage := ChildOfKind(nodes, slots, decl, Tok(KwStatic));
    var name := ChildOfKind(nodes, slots, decl, Inner(Name));
    KidByName(nodes, slots, decl, FirstWhere(kids, IsKind(Inner(Name))), name);
    var symbol, nameSpan := NoSymbol, NO_SPAN;
    if name != NoId {
      symbol, nameSpan := nodes[name.index].name, nodes[name.index].origin;
    }
    var paramCount, variadic := 0, false;
    var body;
    if node.kind == Inner(FnDecl) {
      var params := ChildOfKind(nodes, slots, decl, Inner(ParamList));
      KidByName(nodes, slots, decl, FirstWhere(kids, IsKind(Inner(ParamList))), params);
      if params != NoId {
        paramCount := CountOfKind(nodes, slots, params.index, Inner(Param));
        var dots := ChildOfKind(nodes, slots, params.index, Inner(VariadicParam));
        variadic := dots != NoId;
      }
      body := ChildOfKind(nodes, slots, decl, Inner(Block));
    } else if node.kind == Inner(TypeAliasDecl) {
      body := ChildOfKind(nodes, slots, decl, Inner(Type));
    } else {
      body := BindingInitializer(nodes, slots, decl);
    }
    KidByName(nodes, slots, decl, FirstWhere(kids, BodyTest(node.kind)), body);
    var end := if body != NoId then nodes[body.index].origin.begin else node.origin.end;
    item := Item(Signature(node.kind, symbol, Span(node.origin.file, node.origin.begin, end), nameSpan,
                           paramCount, variadic, body != NoId, linkage != NoId),
                 decl, body);
  }

  function SignaturesOf(items: seq<Item>): seq<Signature> {
    if items == [] then [] else SignaturesOf(items[..|items| - 1]) + [items[|items| - 1].signature]
  }

  /** The item is a child of `root`, with that node's signature and its own body. */
  ghost predicate ItemStands(nodes: seq<AstNode>, slots: seq<AstId>, o: OriginTable, root: AstId, item: Item)
    requires WellFormed(nodes, slots) && root < |nodes|
  {
    && item.node < |nodes|
    && item.node in slots[nodes[root].firstChild..nodes[root].firstChild + nodes[root].childCount]
    && item.signature == SignatureOf(Decode(nodes, slots, item.node), o)
    && var body := FirstWhere(Decode(nodes, slots, item.node).kids, BodyTest(nodes[item.node].kind));
       Names(nodes, slots, item.node, body, item.body)
  }

  /** The items of the first `i` children, in order. */
  ghost predicate Collected(nodes: seq<AstNode>, slots: seq<AstId>, o: OriginTable, root: AstId, i: nat,
                            items: seq<Item>)
    requires WellFormed(nodes, slots) && root < |nodes| && i <= nodes[root].childCount
  {
    var from := nodes[root].firstChild;
    && SignaturesOf(items) == Signatures(DecodeRange(nodes, slots, root, from, from + i), o)
    && forall k :: 0 <= k < |items| ==> ItemStands(nodes, slots, o, root, items[k])
  }

  lemma CollectedMore(nodes: seq<AstNode>, slots: seq<AstId>, o: OriginTable, root: AstId, i: nat, items: seq<Item>,
                      more: seq<Item>)
    requires WellFormed(nodes, slots) && root < |nodes| && i < nodes[root].childCount
    requires Collected(nodes, slots, o, root, i, items) && ItemsOfChild(nodes, slots, o, root, i, more)
    ensures Collected(nodes, slots, o, root, i + 1, items + more)
  {
    if more == [] {
      assert items + more == items;
    } else {
      assert (items + more)[..|items|] == items;
      assert more[..0] == [];
      assert SignaturesOf(more) == [more[0].signature];
    }
  }

  lemma ItemIsChild(nodes: seq<AstNode>, slots: seq<AstId>, o: OriginTable, root: AstId, i: nat, item: Item)
    requires WellFormed(nodes, slots) && root < |nodes| && i < nodes[root].childCount
    requires item.node == slots[nodes[root].firstChild + i] < |nodes|
    requires item.signature == SignatureOf(Decode(nodes, slots, item.node), o)
    requires var body := FirstWhere(Decode(nodes, slots, item.node).kids, BodyTest(nodes[item.node].kind));
             Names(nodes, slots, item.node, body, item.body)
    ensures ItemStands(nodes, slots, o, root, item)
  {
    var from := nodes[root].firstChild;
    assert slots[from..from + nodes[root].childCount][i] == item.node;
  }

  /** The items of child `i`: none or one, each standing among the children of `root`. */
  ghost predicate ItemsOfChild(nodes: seq<AstNode>, slots: seq<AstId>, o: OriginTable, root: AstId, i: nat,
                               more: seq<Item>)
    requires WellFormed(nodes, slots) && root < |nodes| && i < nodes[root].childCount
  {
    var child := slots[nodes[root].firstChild + i];
    && child < |nodes| && ItemsOf(Decode(nodes, slots, child), o) == SignaturesOf(more)
    && |more| <= 1 && forall k :: 0 <= k < |more| ==> ItemStands(nodes, slots, o, root, more[k])
  }

  /** The items of one child: its own when it is a declaration outside every error region. */
  method CollectChild(nodes: seq<AstNode>, slots: seq<AstId>, o: OriginTable, root: AstId, i: nat)
    returns (more: seq<Item>)
    requires WellFormed(nodes, slots) && root < |nodes| && Traced(nodes, o) && i < nodes[root].childCount
    ensures ItemsOfChild(nodes, slots, o, root, i, more)
  {
    var child := slots[nodes[root].firstChild + i];
    if !IsItemKind(nodes[child].kind) || nodes[child].inError {
      return [];
    }
    var item := CollectItem(nodes, slots, o, child);
    ItemIsChild(nodes, slots, o, root, i, item);
    more := [item];
    assert more[..0] == [];
  }

  /** The items are the signatures of the children of `root`, each standing among them. */
  ghost predicate ItemsAre(nodes: seq<AstNode>, slots: seq<AstId>, o: OriginTable, root: AstId, items: seq<Item>)
    requires WellFormed(nodes, slots) && root < |nodes|
  {
    && SignaturesOf(items) == Signatures(Decode(nodes, slots, root).kids, o)
    && forall k :: 0 <= k < |items| ==> ItemStands(nodes, slots, o, root, items[k])
  }

  method CollectItems(nodes: seq<AstNode>, slots: seq<AstId>, o: OriginTable, root: AstId) returns (items: seq<Item>)
    requires WellFormed(nodes, slots) && root < |nodes| && Traced(nodes, o)
    ensures ItemsAre(nodes, slots, o, root, items)
  {
    items := [];
    for i := 0 to nodes[root].childCount
      invariant Collected(nodes, slots, o, root, i, items)
    {
      var more := CollectChild(nodes, slots, o, root, i);
      CollectedMore(nodes, slots, o, root, i, items, more);
      items := items + more;
    }
  }

  // --- the hash of an item list --------------------------------------------------------

  /** One mixing step on a state of any kind, and the numbers kinds and symbols have; any will do. */
  datatype Hashing<!H> = Hashing(mix: (H, nat) -> H, kind: SyntaxKind -> nat, symbol: Symbol -> nat)

  function MixSpan<H>(h: Hashing<H>, hash: H, span: Span): H {
    h.mix(h.mix(h.mix(hash, span.file), span.begin), span.end)
  }

  function BoolWord(b: bool): nat { if b then 1 else 0 }

  function MixBool<H>(h: Hashing<H>, hash: H, b: bool): H { h.mix(hash, BoolWord(b)) }

  /** `hashItem`. */
  function HashItem<H>(h: Hashing<H>, hash: H, item: Item): H {
    var s := item.signature;
    var named := MixSpan(h, MixSpan(h, h.mix(h.mix(hash, h.kind(s.kind)), h.symbol(s.name)), s.span), s.nameSpan);
    MixBool(h, MixBool(h, MixBool(h, h.mix(named, s.paramCount), s.variadic), s.hasBody), s.isStatic)
  }

  function HashItems<H>(h: Hashing<H>, start: H, items: seq<Item>): H {
    if items == [] then start else HashItem(h, HashItems(h, start, items[..|items| - 1]), items[|items| - 1])
  }

  lemma {:induction false} AsManySignatures(items: seq<Item>)
    ensures |SignaturesOf(items)| == |items|
  {
    if items != [] {
      AsManySignatures(items[..|items| - 1]);
    }
  }

  /** Equal item lists hash equal, whatever node indices they hold: the hash is a filter equality may rely on. */
  lemma {:induction false} EqualItemsHashEqual<H>(h: Hashing<H>, start: H, a: seq<Item>, b: seq<Item>)
    requires SignaturesOf(a) == SignaturesOf(b)
    ensures HashItems(h, start, a) == HashItems(h, start, b)
  {
    AsManySignatures(a);
    AsManySignatures(b);
    if a != [] {
      var n := |a| - 1;
      AsManySignatures(a[..n]);
      AsManySignatures(b[..n]);
      assert SignaturesOf(a)[..n] == SignaturesOf(a[..n]) && SignaturesOf(b)[..n] == SignaturesOf(b[..n]);
      assert SignaturesOf(a)[n] == a[n].signature && SignaturesOf(b)[n] == b[n].signature;
      EqualItemsHashEqual(h, start, a[..n], b[..n]);
    }
  }

  /** A mixing that forgets nothing: what went in, in order. */
  ghost predicate Remembers(h: Hashing<seq<nat>>) {
    && (forall hash: seq<nat>, word: nat :: h.mix(hash, word) == hash + [word])
    && (forall a: SyntaxKind, b: SyntaxKind :: h.kind(a) == h.kind(b) ==> a == b)
    && (forall a: Symbol, b: Symbol :: h.symbol(a) == h.symbol(b) ==> a == b)
  }

  function Words(h: Hashing<seq<nat>>, s: Signature): seq<nat> {
    [h.kind(s.kind), h.symbol(s.name), s.span.file, s.span.begin, s.span.end,
     s.nameSpan.file, s.nameSpan.begin, s.nameSpan.end,
     s.paramCount, BoolWord(s.variadic), BoolWord(s.hasBody), BoolWord(s.isStatic)]
  }

  lemma ItemWords(h: Hashing<seq<nat>>, hash: seq<nat>, item: Item)
    requires Remembers(h)
    ensures HashItem(h, hash, item) == hash + Words(h, item.signature)
  {}

  lemma WordsTellApart(h: Hashing<seq<nat>>, s: Signature, t: Signature)
    requires Remembers(h) && Words(h, s) == Words(h, t)
    ensures s == t
  {
    var a, b := Words(h, s), Words(h, t);
    assert a[0] == b[0] && a[1] == b[1] && a[2] == b[2] && a[3] == b[3] && a[4] == b[4] && a[5] == b[5];
    assert a[6] == b[6] && a[7] == b[7] && a[8] == b[8] && a[9] == b[9] && a[10] == b[10] && a[11] == b[11];
  }

  lemma SameEnd(x: seq<nat>, a: seq<nat>, y: seq<nat>, b: seq<nat>)
    requires |a| == |b| && x + a == y + b
    ensures x == y && a == b
  {
    assert x == (x + a)[..|x|] && y == (y + b)[..|y|];
    assert a == (x + a)[|x|..] && b == (y + b)[|y|..];
  }

  /**
   * The hash mixes in everything equality compares: where the mixing forgets nothing, only equal item
   * lists hash equal.
   */
  lemma {:induction false} DifferentItemsMixDifferently(h: Hashing<seq<nat>>, a: seq<Item>, b: seq<Item>)
    requires Remembers(h) && HashItems(h, [], a) == HashItems(h, [], b)
    ensures SignaturesOf(a) == SignaturesOf(b)
  {
    if a == [] || b == [] {
      HashIsLong(h, a);
      HashIsLong(h, b);
    } else {
      var m, n := |a| - 1, |b| - 1;
      ItemWords(h, HashItems(h, [], a[..m]), a[m]);
      ItemWords(h, HashItems(h, [], b[..n]), b[n]);
      SameEnd(HashItems(h, [], a[..m]), Words(h, a[m].signature), HashItems(h, [], b[..n]), Words(h, b[n].signature));
      WordsTellApart(h, a[m].signature, b[n].signature);
      DifferentItemsMixDifferently(h, a[..m], b[..n]);
    }
  }

  lemma HashIsLong(h: Hashing<seq<nat>>, a: seq<Item>)
    requires Remembers(h)
    ensures a != [] ==> HashItems(h, [], a) != []
  {
    if a != [] {
      ItemWords(h, HashItems(h, [], a[..|a| - 1]), a[|a| - 1]);
    }
  }
}
