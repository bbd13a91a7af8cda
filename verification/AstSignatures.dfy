/** What an item's signature says of the declaration as it was written (include/ast/ast.h). */
module AstSignatures {
  import opened Syntax
  import opened AstTree
  import opened Origins
  import opened AstReaders
  import opened AstItems
  import opened AstEdits
  import opened AstBodies
  import opened AstNodes
  import opened TreeText

  function KindOf(g: Green): SyntaxKind { if g.Token? then Tok(g.token) else Inner(g.kind) }

  predicate IsNode(g: Green, kind: NodeKind) { g.Node? && g.kind == kind }

  predicate IsStatic(g: Green) { g.Token? && g.token == KwStatic }

  /** The child a declaration's signature stops short of. */
  predicate PlaysBody(decl: NodeKind, g: Green) {
    g.Node? &&
    if decl == FnDecl then g.kind == Block
    else if decl == TypeAliasDecl then g.kind == Type
    else g.kind != Name && g.kind != Type && g.kind != TuplePattern
  }

  type Test = Green -> bool

  function OfKind(kind: NodeKind): Test { g => IsNode(g, kind) }
  function Statics(): Test { g => IsStatic(g) }
  function Bodies(decl: NodeKind): Test { g => PlaysBody(decl, g) }

  /** `gs[i]` is the first that passes. */
  ghost predicate FirstThat(gs: seq<Green>, p: Test, i: nat) {
    i < |gs| && p(gs[i]) && forall j :: 0 <= j < i ==> !p(gs[j])
  }

  ghost predicate NoneThat(gs: seq<Green>, p: Test) {
    forall i :: 0 <= i < |gs| ==> !p(gs[i])
  }

  /** The positions that pass. */
  ghost function Those(gs: seq<Green>, p: Test): set<nat> {
    set i: nat | i < |gs| && p(gs[i])
  }

  /** Where child `i` of a declaration at `at` stands, and its significant bytes. */
  function Child(gs: seq<Green>, at: nat, i: nat): Tree
    requires i < |gs|
  {
    TightTree(gs[i], at + |TextAll(gs[..i])|, false)
  }

  /** The role `q` among lowered kinds is the role `p` among written elements. */
  ghost predicate SameRole(p: Test, q: KindTest) {
    forall g: Green :: p(g) <==> q(KindOf(g)) && !g.IsTriviaToken()
  }

  lemma {:induction false} RoleIsFirst(gs: seq<Green>, at: nat, p: Test, q: KindTest)
    requires SameRole(p, q)
    ensures var f := TightAll(gs, at, false);
            && (NoneThat(gs, p) <==> FirstWhere(f, q) < 0)
            && forall i: nat :: FirstThat(gs, p, i) ==>
                 FirstWhere(f, q) >= 0 && KidAt(f, FirstWhere(f, q)) == Child(gs, at, i)
  {
    if gs != [] {
      var init, last := gs[..|gs| - 1], gs[|gs| - 1];
      assert gs == init + [last];
      RoleIsFirst(init, at, p, q);
      TightMore(init, last, at, false);
      WidthIsText(init);
      assert NoneThat(gs, p) <==> NoneThat(init, p) && !p(last);
      forall i: nat | FirstThat(gs, p, i)
        ensures FirstWhere(TightAll(gs, at, false), q) >= 0
        ensures KidAt(TightAll(gs, at, false), FirstWhere(TightAll(gs, at, false), q)) == Child(gs, at, i)
      {
        if i < |init| {
          assert FirstThat(init, p, i) && gs[..i] == init[..i];
        } else {
          assert NoneThat(init, p) && gs[..i] == init;
        }
      }
    }
  }

  lemma RoleAt(gs: seq<Green>, at: nat, p: Test, q: KindTest, i: nat)
    requires SameRole(p, q) && FirstThat(gs, p, i)
    ensures var f := TightAll(gs, at, false); FirstWhere(f, q) >= 0 && KidAt(f, FirstWhere(f, q)) == Child(gs, at, i)
  {
    RoleIsFirst(gs, at, p, q);
  }

  lemma {:induction false} RoleIsCounted(gs: seq<Green>, at: nat, p: Test, q: KindTest)
    requires SameRole(p, q)
    ensures CountWhere(TightAll(gs, at, false), q) == |Those(gs, p)|
  {
    if gs != [] {
      var init, last := gs[..|gs| - 1], gs[|gs| - 1];
      assert gs == init + [last];
      RoleIsCounted(init, at, p, q);
      TightMore(init, last, at, false);
      ThoseMore(init, last, p);
    }
  }

  lemma ThoseMore(init: seq<Green>, last: Green, p: Test)
    ensures |Those(init + [last], p)| == |Those(init, p)| + if p(last) then 1 else 0
  {
    var all := init + [last];
    assert forall i: nat :: i < |init| ==> all[i] == init[i];
    assert Those(all, p) == Those(init, p) + if p(last) then {|init|} else {};
  }

  lemma KidsOfNode(kind: NodeKind, gs: seq<Green>, at: nat)
    requires !kind.Error?
    ensures var t := TightTree(Green.Node(kind, gs), at, false);
            t.kids == TightAll(gs, at, false) && t.kind == Inner(kind) && t.name == NameOf(Green.Node(kind, gs))
  {}

  // --- the signature ----------------------------------------------------------------------------

  function SpanIn(unit: nat, t: Tree): Span { Span(unit, t.begin, t.end) }

  lemma NameIsTold(kind: NodeKind, gs: seq<Green>, at: nat, unit: nat)
    requires IsItemKind(Inner(kind))
    ensures var s, name := SignatureAt(Green.Node(kind, gs), at, unit), OfKind(Name);
            && (NoneThat(gs, name) ==> s.name == NoSymbol && s.nameSpan == NO_SPAN)
            && (forall i: nat :: FirstThat(gs, name, i) ==>
                  CarriesName(gs[i], s.name) && s.nameSpan == SpanIn(unit, Child(gs, at, i)))
  {
    KidsOfNode(kind, gs, at);
    var name := OfKind(Name);
    RoleIsFirst(gs, at, name, IsKind(Inner(Name)));
    forall i: nat | FirstThat(gs, name, i)
      ensures CarriesName(gs[i], Child(gs, at, i).name)
    {
      NameIsCarried(gs[i]);
      KidsOfNode(Name, gs[i].children, at + |TextAll(gs[..i])|);
    }
  }

  /** What a parameter list's lowered tree says of the list as it was written. */
  lemma ListIsTold(list: Green, at: nat)
    requires IsNode(list, ParamList)
    ensures var kids := TightTree(list, at, false).kids;
            && CountWhere(kids, IsKind(Inner(Param))) == |Those(list.children, OfKind(Param))|
            && (FirstWhere(kids, IsKind(Inner(VariadicParam))) < 0 <==> NoneThat(list.children, OfKind(VariadicParam)))
  {
    KidsOfNode(ParamList, list.children, at);
    RoleIsCounted(list.children, at, OfKind(Param), IsKind(Inner(Param)));
    RoleIsFirst(list.children, at, OfKind(VariadicParam), IsKind(Inner(VariadicParam)));
  }

  /** A function counts the parameters of its first list, and knows whether that list is open. */
  lemma ParametersAreTold(gs: seq<Green>, i: nat, at: nat, unit: nat)
    requires FirstThat(gs, OfKind(ParamList), i)
    ensures var s := SignatureAt(Green.Node(FnDecl, gs), at, unit);
            && s.paramCount == |Those(gs[i].children, OfKind(Param))|
            && s.variadic == !NoneThat(gs[i].children, OfKind(VariadicParam))
  {
    ListStands(gs, i, at);
    ListIsTold(gs[i], at + |TextAll(gs[..i])|);
    ParametersOf(TightTree(Green.Node(FnDecl, gs), at, false), unit, Child(gs, at, i));
  }

  ghost predicate IsListOf(list: Tree, t: Tree) {
    var i := FirstWhere(t.kids, IsKind(Inner(ParamList)));
    i >= 0 && KidAt(t.kids, i) == list
  }

  lemma ListStands(gs: seq<Green>, i: nat, at: nat)
    requires FirstThat(gs, OfKind(ParamList), i)
    ensures IsListOf(Child(gs, at, i), TightTree(Green.Node(FnDecl, gs), at, false))
  {
    KidsOfNode(FnDecl, gs, at);
    RoleAt(gs, at, OfKind(ParamList), IsKind(Inner(ParamList)), i);
  }

  lemma ParametersOf(t: Tree, unit: nat, list: Tree)
    requires t.kind == Inner(FnDecl) && IsListOf(list, t)
    ensures var s := SignatureOf(t, OriginTable(unit, []));
            && s.paramCount == CountWhere(list.kids, IsKind(Inner(Param)))
            && s.variadic == (FirstWhere(list.kids, IsKind(Inner(VariadicParam))) >= 0)
  {}

  /** Without a list, or for a declaration of another kind, there are none. */
  lemma NoParameters(kind: NodeKind, gs: seq<Green>, at: nat, unit: nat)
    requires IsItemKind(Inner(kind)) && (kind != FnDecl || NoneThat(gs, OfKind(ParamList)))
    ensures var s := SignatureAt(Green.Node(kind, gs), at, unit); s.paramCount == 0 && !s.variadic
  {
    KidsOfNode(kind, gs, at);
    RoleIsFirst(gs, at, OfKind(ParamList), IsKind(Inner(ParamList)));
  }

  lemma BodyIsTold(kind: NodeKind, gs: seq<Green>, at: nat, unit: nat)
    requires IsItemKind(Inner(kind))
    ensures var t, s := TightTree(Green.Node(kind, gs), at, false), SignatureAt(Green.Node(kind, gs), at, unit);
            var body := Bodies(kind);
            && s.kind == Inner(kind)
            && s.isStatic == !NoneThat(gs, Statics())
            && s.hasBody == !NoneThat(gs, body)
            && (NoneThat(gs, body) ==> s.span == SpanIn(unit, t))
            && (forall i: nat :: FirstThat(gs, body, i) ==> s.span == Span(unit, t.begin, Child(gs, at, i).begin))
  {
    KidsOfNode(kind, gs, at);
    RoleIsFirst(gs, at, Statics(), IsKind(Tok(KwStatic)));
    RoleIsFirst(gs, at, Bodies(kind), BodyTest(Inner(kind)));
  }

  // --- which declarations have one ----------------------------------------------------------------

  predicate IsDeclaration(g: Green) {
    g.Node? && (g.kind == FnDecl || g.kind == LetStmt || g.kind == ConstStmt || g.kind == TypeAliasDecl)
  }

  /** The signatures of a file's declarations, in order. */
  function Declared(gs: seq<Green>, at: nat, unit: nat): seq<Signature> {
    if gs == [] then []
    else
      var init, last := gs[..|gs| - 1], gs[|gs| - 1];
      Declared(init, at, unit) + if IsDeclaration(last) then [SignatureAt(last, at + |TextAll(init)|, unit)] else []
  }

  /** The items of a file are its declarations; inside an error region there are none. */
  lemma {:induction false} ItemsAreDeclarations(gs: seq<Green>, at: nat, inError: bool, unit: nat)
    ensures Signatures(TightAll(gs, at, inError), OriginTable(unit, []))
         == if inError then [] else Declared(gs, at, unit)
  {
    if gs != [] {
      var init, last := gs[..|gs| - 1], gs[|gs| - 1];
      assert gs == init + [last];
      ItemsAreDeclarations(init, at, inError, unit);
      OneMoreDeclared(init, last, at, inError, unit);
    }
  }

  lemma OneMoreDeclared(init: seq<Green>, last: Green, at: nat, inError: bool, unit: nat)
    requires Signatures(TightAll(init, at, inError), OriginTable(unit, [])) ==
             if inError then [] else Declared(init, at, unit)
    ensures Signatures(TightAll(init + [last], at, inError), OriginTable(unit, [])) ==
            if inError then [] else Declared(init + [last], at, unit)
  {
    var o, place := OriginTable(unit, []), at + |TextAll(init)|;
    WidthIsText(init);
    OneMoreItems(init, last, at, inError, o, place);
    OneDeclaration(last, place, inError, unit);
    DeclaredMore(init, last, at, unit);
    Extended(Signatures(TightAll(init, at, inError), o), Signatures(TightAll(init + [last], at, inError), o),
             Declared(init, at, unit), Declared(init + [last], at, unit), ItemsAt(last, place, inError, o),
             IsDeclaration(last), SignatureAt(last, place, unit), inError);
  }

  lemma Extended(s: seq<Signature>, s': seq<Signature>, d: seq<Signature>, d': seq<Signature>, more: seq<Signature>,
                 declares: bool, one: Signature, inError: bool)
    requires s == (if inError then [] else d) && s' == s + more && d' == d + (if declares then [one] else [])
    requires more == if inError || !declares then [] else [one]
    ensures s' == if inError then [] else d'
  {}

  lemma DeclaredMore(init: seq<Green>, last: Green, at: nat, unit: nat)
    ensures Declared(init + [last], at, unit) ==
            Declared(init, at, unit) +
            if IsDeclaration(last) then [SignatureAt(last, at + |TextAll(init)|, unit)] else []
  {
    assert (init + [last])[..|init|] == init;
  }

  lemma OneMoreItems(init: seq<Green>, last: Green, at: nat, inError: bool, o: OriginTable, place: nat)
    requires place == at + WidthAll(init)
    ensures Signatures(TightAll(init + [last], at, inError), o)
            == Signatures(TightAll(init, at, inError), o) + ItemsAt(last, place, inError, o)
  {
    TightMore(init, last, at, inError);
    MoreSignatures(TightAll(init + [last], at, inError), TightAll(init, at, inError), TightTree(last, place, inError),
                   last.IsTriviaToken(), o);
  }

  lemma MoreSignatures(all: Forest, f: Forest, t: Tree, trivia: bool, o: OriginTable)
    requires all == if trivia then f else Snoc(f, t)
    ensures Signatures(all, o) == Signatures(f, o) + if trivia then [] else ItemsOf(t, o)
  {}

  lemma OneDeclaration(g: Green, at: nat, inError: bool, unit: nat)
    ensures ItemsAt(g, at, inError, OriginTable(unit, [])) ==
            if inError || !IsDeclaration(g) then [] else [SignatureAt(g, at, unit)]
  {}
}
