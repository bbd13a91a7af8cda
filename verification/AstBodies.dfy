/** What an edit of one body does to its own declaration's signature: exactly when nothing. */
module AstBodies {
  import opened Syntax
  import opened AstTree
  import opened Origins
  import opened AstReaders
  import opened AstItems
  import opened AstEdits

  // --- two lists of children that differ in a body and in places --------------------------------

  /** What a signature may take from a child besides where it stands. */
  datatype Essence = Essence(kind: SyntaxKind, name: Symbol, params: nat, variadic: bool)

  function EssenceOf(t: Tree): Essence {
    Essence(t.kind, t.name, CountWhere(t.kids, IsKind(Inner(Param))),
        FirstWhere(t.kids, IsKind(Inner(VariadicParam))) >= 0)
  }

  /** Child for child the same, places aside, or a body on both sides. */
  ghost predicate Alike(f: Forest, f': Forest, p: KindTest) {
    match (f, f')
    case (Empty, Empty) => true
    case (Snoc(init, last), Snoc(init', last')) =>
      Alike(init, init', p) && (EssenceOf(last) == EssenceOf(last') || (p(last.kind) && p(last'.kind)))
    case _ => false
  }

  lemma {:induction false} AlikeCount(f: Forest, f': Forest, p: KindTest)
    requires Alike(f, f', p)
    ensures Count(f) == Count(f')
  {
    if f.Snoc? { AlikeCount(f.init, f'.init, p); }
  }

  lemma {:induction false} AlikeRole(f: Forest, f': Forest, p: KindTest, q: KindTest)
    requires Alike(f, f', p) && Exclusive(p, q)
    ensures FirstWhere(f, q) == FirstWhere(f', q)
    ensures FirstWhere(f, q) >= 0 ==> EssenceOf(KidAt(f, FirstWhere(f, q))) == EssenceOf(KidAt(f', FirstWhere(f, q)))
  {
    if f.Snoc? {
      AlikeCount(f.init, f'.init, p);
      AlikeRole(f.init, f'.init, p, q);
    }
  }

  lemma {:induction false} AlikeBody(f: Forest, f': Forest, p: KindTest)
    requires Alike(f, f', p)
    ensures FirstWhere(f, p) == FirstWhere(f', p)
  {
    if f.Snoc? {
      AlikeCount(f.init, f'.init, p);
      AlikeBody(f.init, f'.init, p);
    }
  }

  /** Where the child with a role stands, or nowhere. */
  datatype Place = Nowhere | At(begin: nat, end: nat)

  function PlaceOf(f: Forest, q: KindTest): Place {
    var i := FirstWhere(f, q);
    if i < 0 then Nowhere else At(KidAt(f, i).begin, KidAt(f, i).end)
  }

  /** Where the signature stops. */
  function Stop(t: Tree): nat {
    var body := PlaceOf(t.kids, BodyTest(t.kind));
    if body.Nowhere? then t.end else body.begin
  }

  /** With the text its own source, the signatures of two such declarations differ only in places. */
  lemma SignatureByPlaces(t: Tree, t': Tree, unit: nat)
    requires IsItemKind(t.kind) && t'.kind == t.kind && Alike(t.kids, t'.kids, BodyTest(t.kind))
    ensures SignatureOf(t, OriginTable(unit, [])) == SignatureOf(t', OriginTable(unit, [])) <==>
            && t.begin == t'.begin && Stop(t) == Stop(t')
            && PlaceOf(t.kids, IsKind(Inner(Name))) == PlaceOf(t'.kids, IsKind(Inner(Name)))
  {
    var p := BodyTest(t.kind);
    AlikeBody(t.kids, t'.kids, p);
    AlikeCount(t.kids, t'.kids, p);
    AlikeRole(t.kids, t'.kids, p, IsKind(Inner(Name)));
    AlikeRole(t.kids, t'.kids, p, IsKind(Tok(KwStatic)));
    if t.kind == Inner(FnDecl) {
      AlikeRole(t.kids, t'.kids, p, IsKind(Inner(ParamList)));
    }
  }

  // --- a child keeps its essence wherever it stands ---------------------------------------------

  lemma {:induction false} MovedRoles(f: Forest, d: nat, q: KindTest)
    ensures Count(MovedAll(f, d)) == Count(f)
    ensures FirstWhere(MovedAll(f, d), q) == FirstWhere(f, q) && CountWhere(MovedAll(f, d), q) == CountWhere(f, q)
  {
    match f
    case Empty =>
    case Snoc(init, _) => MovedRoles(init, d, q);
  }

  lemma MovedEssence(g: Green, at: nat, inError: bool)
    ensures EssenceOf(TightTree(g, at, inError)) == EssenceOf(TightTree(g, 0, inError))
  {
    StripMoves(g, 0, at, inError);
    TightenMoves(Strip(g, 0, inError), at);
    var kids := TightTree(g, 0, inError).kids;
    MovedRoles(kids, at, IsKind(Inner(Param)));
    MovedRoles(kids, at, IsKind(Inner(VariadicParam)));
  }

  // --- a declaration's children: some, the body, and some more ----------------------------------

  function Children(pre: seq<Green>, body: Green, post: seq<Green>): seq<Green> { pre + [body] + post }

  ghost predicate NoneOf(gs: seq<Green>, p: KindTest) {
    forall g <- gs :: g.Node? ==> !p(Inner(g.kind))
  }

  lemma TightMore(gs: seq<Green>, last: Green, at: nat, inError: bool)
    ensures TightAll(gs + [last], at, inError) ==
            if last.IsTriviaToken() then TightAll(gs, at, inError)
            else Snoc(TightAll(gs, at, inError), TightTree(last, at + WidthAll(gs), inError))
  {
    assert (gs + [last])[..|gs|] == gs && (gs + [last])[..|gs| + 1] == gs + [last];
    TightOfPrefix(gs + [last], |gs|, at, inError);
  }

  lemma ChildrenMore(pre: seq<Green>, body: Green, post: seq<Green>)
    requires post != []
    ensures Children(pre, body, post) == Children(pre, body, post[..|post| - 1]) + [post[|post| - 1]]
  {}

  /** A role no child plays is played nowhere. */
  lemma {:induction false} NobodyPlays(gs: seq<Green>, at: nat, q: KindTest)
    requires NoneOf(gs, q) && forall k: SyntaxKind :: k.IsToken() ==> !q(k)
    ensures FirstWhere(TightAll(gs, at, false), q) < 0
  {
    if gs != [] {
      var init, last := gs[..|gs| - 1], gs[|gs| - 1];
      assert last in gs && gs == init + [last];
      NobodyPlays(init, at, q);
      TightMore(init, last, at, false);
    }
  }

  /** Behind the body nothing changes what stood before it, nor the body. */
  lemma {:induction false} BehindBody(pre: seq<Green>, body: Green, post: seq<Green>, at: nat, q: KindTest)
    requires body.Node? && forall k: SyntaxKind :: k.IsToken() ==> !q(k)
    requires q(Inner(body.kind)) || NoneOf(post, q)
    ensures var f, first := TightAll(Children(pre, body, post), at, false), TightAll(pre + [body], at, false);
            PlaceOf(f, q) == PlaceOf(first, q) && f.Snoc? && first.Snoc? && FirstOf(f) == FirstOf(first)
    ensures q(Inner(body.kind)) ==> PlaceOf(TightAll(pre + [body], at, false), q).At?
  {
    TightMore(pre, body, at, false);
    if post == [] {
      assert Children(pre, body, post) == pre + [body];
    } else {
      var init, last := post[..|post| - 1], post[|post| - 1];
      assert last in post && forall g <- init :: g in post;
      BehindBody(pre, body, init, at, q);
      ChildrenMore(pre, body, post);
      TightMore(Children(pre, body, init), last, at, false);
    }
  }

  lemma {:induction false} ChildrenAlike(pre: seq<Green>, body: Green, body': Green, post: seq<Green>, at: nat,
                                         p: KindTest)
    requires body.Node? && body'.Node? && p(Inner(body.kind)) && p(Inner(body'.kind))
    ensures Alike(TightAll(Children(pre, body, post), at, false), TightAll(Children(pre, body', post), at, false), p)
  {
    if post == [] {
      assert Children(pre, body, post) == pre + [body] && Children(pre, body', post) == pre + [body'];
      TightMore(pre, body, at, false);
      TightMore(pre, body', at, false);
      AlikeItself(TightAll(pre, at, false), p);
    } else {
      var init, last := post[..|post| - 1], post[|post| - 1];
      ChildrenAlike(pre, body, body', init, at, p);
      ChildrenMore(pre, body, post);
      ChildrenMore(pre, body', post);
      TightMore(Children(pre, body, init), last, at, false);
      TightMore(Children(pre, body', init), last, at, false);
      MovedEssence(last, at + WidthAll(Children(pre, body, init)), false);
      MovedEssence(last, at + WidthAll(Children(pre, body', init)), false);
    }
  }

  lemma {:induction false} AlikeItself(f: Forest, p: KindTest)
    ensures Alike(f, f, p)
  {
    if f.Snoc? { AlikeItself(f.init, p); }
  }

  // --- the declaration ----------------------------------------------------------------------------

  /** A tightened node begins where its first significant child does. */
  lemma NodeBegins(kind: NodeKind, gs: seq<Green>, at: nat)
    requires TightAll(gs, at, kind.Error?).Snoc?
    ensures TightTree(Green.Node(kind, gs), at, false).kids == TightAll(gs, at, kind.Error?)
    ensures TightTree(Green.Node(kind, gs), at, false).begin == FirstOf(TightAll(gs, at, kind.Error?)).begin
  {
    StripAllIsNeat(gs, at, kind.Error?);
    StripAllKeepsLeaves(gs, at, kind.Error?);
    TightenAllIsNeat(StripAll(gs, at, kind.Error?), at, at + WidthAll(gs), kind.Error?);
    HullOfOrdered(TightAll(gs, at, kind.Error?), at, at + WidthAll(gs));
  }

  lemma BodyPlace(pre: seq<Green>, body: Green, at: nat, p: KindTest)
    requires body.Node? && p(Inner(body.kind)) && NoneOf(pre, p) && forall k: SyntaxKind :: k.IsToken() ==> !p(k)
    ensures var b := TightTree(body, at + WidthAll(pre), false);
            PlaceOf(TightAll(pre + [body], at, false), p) == At(b.begin, b.end)
  {
    NobodyPlays(pre, at, p);
    TightMore(pre, body, at, false);
  }

  /** The first child, where the body is not it, and every other role, whatever the body is. */
  lemma BeforeBody(pre: seq<Green>, body: Green, body': Green, at: nat, q: KindTest)
    requires body.Node? && body'.Node? && !q(Inner(body.kind)) && !q(Inner(body'.kind))
    ensures var f, f' := TightAll(pre + [body], at, false), TightAll(pre + [body'], at, false);
            && PlaceOf(f, q) == PlaceOf(f', q) && f.Snoc? && f'.Snoc?
            && (FirstOf(f) == FirstOf(f') || (FirstOf(f) == TightTree(body, at + WidthAll(pre), false) &&
                                              FirstOf(f') == TightTree(body', at + WidthAll(pre), false)))
  {
    TightMore(pre, body, at, false);
    TightMore(pre, body', at, false);
  }

  /**
   * A declaration whose body is replaced by another, of any kind and width, keeps its signature exactly when
   * the new body's significant bytes begin where the old one's did. The body is the first child that
   * plays its role, and the name, whose place is compared, does not stand behind it.
   */
  lemma OwnSignatureStaysExactlyWhenBodyBegins(kind: NodeKind, pre: seq<Green>, body: Green, body': Green,
                                               post: seq<Green>,
                                               at: nat, unit: nat)
    requires IsItemKind(Inner(kind)) && body.Node? && body'.Node?
    requires var p := BodyTest(Inner(kind)); p(Inner(body.kind)) && p(Inner(body'.kind)) && NoneOf(pre, p)
    requires NoneOf(post, IsKind(Inner(Name)))
    ensures var before := SignatureAt(Green.Node(kind, Children(pre, body, post)), at, unit);
            var now := SignatureAt(Green.Node(kind, Children(pre, body', post)), at, unit);
            now == before <==>
            TightTree(body, at + WidthAll(pre), false).begin == TightTree(body', at + WidthAll(pre), false).begin
  {
    var p, q := BodyTest(Inner(kind)), IsKind(Inner(Name));
    ChildrenAlike(pre, body, body', post, at, p);
    BehindBody(pre, body, post, at, p);
    BehindBody(pre, body', post, at, p);
    BehindBody(pre, body, post, at, q);
    BehindBody(pre, body', post, at, q);
    BodyPlace(pre, body, at, p);
    BodyPlace(pre, body', at, p);
    BeforeBody(pre, body, body', at, q);
    NodeBegins(kind, Children(pre, body, post), at);
    NodeBegins(kind, Children(pre, body', post), at);
    SignatureByPlaces(TightTree(Green.Node(kind, Children(pre, body, post)), at, false),
                      TightTree(Green.Node(kind, Children(pre, body', post)), at, false), unit);
  }
}
