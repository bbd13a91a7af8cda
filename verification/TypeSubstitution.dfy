/** What substitution promises of the table (src/sema/type_store.cc), stated on trees. */
module TypeSubstitution {
  import opened TypeShapes
  import opened TypeTable
  import opened TypeInterning

  /** Every part of the tree, itself included, may be built. */
  predicate Buildable(s: Shape, target: Target) {
    && Admissible(s, target) && NodesOf(s) <= MAX_NODES
    && match s
       case PointerTo(pointee) => Buildable(pointee, target)
       case ArrayOf(_, element) => Buildable(element, target)
       case SliceOf(element) => Buildable(element, target)
       case TupleOf(members) => AllBuildable(members, target)
       case FunctionOf(result, params, _) => Buildable(result, target) && AllBuildable(params, target)
       case _ => true
  }

  predicate AllBuildable(ss: Shapes, target: Target) {
    match ss
    case NoShapes => true
    case More(init, last) => AllBuildable(init, target) && Buildable(last, target)
  }

  /** Walking `s` meets a part that is no type, or a parameter whose argument is none. */
  predicate Broken(s: Shape, args: seq<Shape>, unit: nat, owner: nat) {
    match s
    case Missing => true
    case ParamOf(u, o, binder) => u == unit && o == owner && binder < |args| && args[binder].Missing?
    case PointerTo(pointee) => Broken(pointee, args, unit, owner)
    case ArrayOf(_, element) => Broken(element, args, unit, owner)
    case SliceOf(element) => Broken(element, args, unit, owner)
    case TupleOf(members) => AnyBroken(members, args, unit, owner)
    case FunctionOf(result, params, _) => AnyBroken(params, args, unit, owner) || Broken(result, args, unit, owner)
    case _ => false
  }

  predicate AnyBroken(ss: Shapes, args: seq<Shape>, unit: nat, owner: nat) {
    match ss
    case NoShapes => false
    case More(init, last) => AnyBroken(init, args, unit, owner) || Broken(last, args, unit, owner)
  }

  /** A tree that mentions no parameter is broken exactly when a part of it is missing. */
  lemma {:induction false} UnmentionedIsWhole(s: Shape, args: seq<Shape>, unit: nat, owner: nat)
    requires !Mentions(s, unit, owner, |args|)
    ensures Broken(s, args, unit, owner) == HasMissing(s)
  {
    match s
    case PointerTo(pointee) => UnmentionedIsWhole(pointee, args, unit, owner);
    case ArrayOf(_, element) => UnmentionedIsWhole(element, args, unit, owner);
    case SliceOf(element) => UnmentionedIsWhole(element, args, unit, owner);
    case TupleOf(members) => UnmentionedAreWhole(members, args, unit, owner);
    case FunctionOf(result, params, _) =>
      UnmentionedIsWhole(result, args, unit, owner);
      UnmentionedAreWhole(params, args, unit, owner);
    case _ =>
  }

  lemma {:induction false} UnmentionedAreWhole(ss: Shapes, args: seq<Shape>, unit: nat, owner: nat)
    requires !MentionsAny(ss, unit, owner, |args|)
    ensures AnyBroken(ss, args, unit, owner) == AnyMissing(ss)
  {
    match ss
    case NoShapes =>
    case More(init, last) =>
      UnmentionedAreWhole(init, args, unit, owner);
      UnmentionedIsWhole(last, args, unit, owner);
  }

  /** A type that was built can be built. */
  lemma {:induction false} StoredIsBuildable(tb: Table, target: Target, id: TypeId)
    requires Sound(tb, target)
    ensures Buildable(Unfold(tb, id), target)
    decreases id, 1, 0
  {
    if Known(tb, id) {
      var t := tb.types[id];
      assert LinkedRecord(t, PartsOf(tb, t), id) && SoundRecord(t, Unfold(tb, id), target);
      BelowIsBuildable(tb, target, t.pointee, id);
      BelowIsBuildable(tb, target, t.returnType, id);
      BelowAreBuildable(tb, target, PartsOf(tb, t), id);
    }
  }

  lemma {:induction false} BelowIsBuildable(tb: Table, target: Target, id: TypeId, bound: nat)
    requires Sound(tb, target)
    ensures Buildable(Below(tb, id, bound), target)
    decreases bound, 0, 0
  {
    if id < bound {
      StoredIsBuildable(tb, target, id);
    }
  }

  lemma {:induction false} BelowAreBuildable(tb: Table, target: Target, ids: seq<TypeId>, bound: nat)
    requires Sound(tb, target)
    ensures AllBuildable(BelowAll(tb, ids, bound), target)
    decreases bound, 0, |ids| + 1
  {
    if ids != [] {
      BelowAreBuildable(tb, target, ids[..|ids| - 1], bound);
      BelowIsBuildable(tb, target, ids[|ids| - 1], bound);
    }
  }

  // --- one step ---------------------------------------------------------------------------------

  /** The trees of the arguments. */
  ghost function Arguments(tb: Table, args: seq<TypeId>): seq<Shape> {
    seq(|args|, i requires 0 <= i < |args| => Unfold(tb, args[i]))
  }

  /** The table spells the tree, or there is nothing to spell. */
  ghost predicate HeldTree(tb: Table, s: Shape) { s.Missing? || Spelled(tb, s) }

  ghost predicate HeldTrees(tb: Table, ss: Shapes) {
    match ss
    case NoShapes => true
    case More(init, last) => HeldTrees(tb, init) && HeldTree(tb, last)
  }

  lemma BelowIsHeld(tb: Table, id: TypeId, bound: nat)
    ensures HeldTree(tb, Unfold(tb, id)) && HeldTree(tb, Below(tb, id, bound))
  {}

  lemma {:induction false} BelowAreHeld(tb: Table, ids: seq<TypeId>, bound: nat)
    ensures HeldTrees(tb, BelowAll(tb, ids, bound))
    decreases |ids|
  {
    if ids != [] {
      BelowAreHeld(tb, ids[..|ids| - 1], bound);
      BelowIsHeld(tb, ids[|ids| - 1], bound);
    }
  }

  ghost predicate ChildrenHeld(tb: Table, s: Shape) {
    match s
    case PointerTo(pointee) => HeldTree(tb, pointee)
    case ArrayOf(_, element) => HeldTree(tb, element)
    case SliceOf(element) => HeldTree(tb, element)
    case TupleOf(members) => HeldTrees(tb, members)
    case FunctionOf(result, params, _) => HeldTree(tb, result) && HeldTrees(tb, params)
    case _ => true
  }

  /** A table that spells a tree spells its children: links point backwards in the same table. */
  lemma ChildrenAreHeld(tb: Table, s: Shape)
    ensures HeldTree(tb, s) ==> ChildrenHeld(tb, s)
  {
    if HeldTree(tb, s) && !s.Missing? {
      var id :| 0 <= id < |tb.types| && Unfold(tb, id) == s;
      var t := tb.types[id];
      assert s == ShapeOf(tb, t, PartsOf(tb, t), id);
      BelowIsHeld(tb, t.pointee, id);
      BelowIsHeld(tb, t.returnType, id);
      BelowAreHeld(tb, PartsOf(tb, t), id);
    }
  }

  /**
   * Replacing parameters in `subject` gave `id`: a valid answer spells `result`; none is given only when
   * there was nothing to build, something the builders refuse, or no budget left; and a result the
   * table spells already is answered with nothing interned, whatever the budget.
   */
  ghost predicate Replaced(tb: Table, max: nat, target: Target, result: Shape, broken: bool, id: TypeId, tb': Table) {
    && Sound(tb', target) && Extends(tb, tb') && Held(tb', id)
    && (id != INVALID ==> Unfold(tb', id) == result && !broken)
    && (id == INVALID ==> broken || !Buildable(result, target) || |tb'.types| >= max)
    && (HeldTree(tb, result) && !broken ==> id != INVALID && tb' == tb)
  }

  ghost predicate ReplacedAll(tb: Table, max: nat, target: Target, result: Shapes, broken: bool, ok: bool,
                              ids: seq<TypeId>, tb': Table) {
    && Sound(tb', target) && Extends(tb, tb')
    && (ok ==> HeldAll(tb', ids) && Trees(tb', ids) == result && !broken)
    && (!ok ==> broken || !AllBuildable(result, target) || |tb'.types| >= max)
    && (HeldTrees(tb, result) && !broken ==> ok && tb' == tb)
  }

  /** `Replaced`, for the parameters of one declaration and the arguments given for them. */
  ghost predicate Substituted(tb: Table, max: nat, target: Target, subject: TypeId, args: seq<TypeId>, unit: nat,
                              owner: nat,
                              id: TypeId, tb': Table) {
    var s, given := Unfold(tb, subject), Arguments(tb, args);
    Replaced(tb, max, target, Subst(s, given, unit, owner), Broken(s, given, unit, owner), id, tb')
  }

  ghost predicate SubstitutedAll(tb: Table, max: nat, target: Target, subjects: seq<TypeId>, args: seq<TypeId>,
                                 unit: nat, owner: nat,
                                 ok: bool, ids: seq<TypeId>, tb': Table) {
    var ss, given := Trees(tb, subjects), Arguments(tb, args);
    ReplacedAll(tb, max, target, SubstAll(ss, given, unit, owner), AnyBroken(ss, given, unit, owner), ok, ids, tb')
  }

  /** A rebuilt structure, once its children are replaced. */
  lemma Rebuilt(tb: Table, tb1: Table, tb2: Table, max: nat, target: Target, result: Shape, id: TypeId)
    requires Sound(tb, target) && Extends(tb, tb1) && Sound(tb2, target) && !result.Missing?
    requires Built(tb1, max, target, result, id, tb2)
    requires HeldTree(tb, result) ==> tb1 == tb
    ensures Replaced(tb, max, target, result, false, id, tb2)
  {
    if HeldTree(tb, result) {
      var held :| 0 <= held < |tb.types| && Unfold(tb, held) == result;
      assert SoundRecord(tb.types[held], result, target);
    }
  }

  /** A parameter's argument stands in for it. */
  lemma Stood(tb: Table, max: nat, target: Target, id: TypeId)
    requires Sound(tb, target) && Held(tb, id)
    ensures Replaced(tb, max, target, Unfold(tb, id), Unfold(tb, id).Missing?, id, tb)
  {
    if Known(tb, id) {
      KnownIsSomething(tb, id);
    }
  }

  lemma {:induction false} ArgumentsStable(tb: Table, tb': Table, target: Target, args: seq<TypeId>)
    requires Sound(tb, target) && Sound(tb', target) && Extends(tb, tb') && HeldAll(tb, args)
    ensures HeldAll(tb', args) && Arguments(tb', args) == Arguments(tb, args)
  {
    forall k | 0 <= k < |args| ensures Unfold(tb', args[k]) == Unfold(tb, args[k]) {
      if Known(tb, args[k]) {
        UnfoldStable(tb, tb', args[k]);
      }
    }
  }

  /** A prefix of a member list that cannot be replaced stops the whole list. */
  lemma {:induction false} PrefixStops(tb: Table, target: Target, ids: seq<TypeId>, i: nat, args: seq<Shape>,
                                       unit: nat, owner: nat)
    requires i <= |ids|
    ensures var part, whole := Trees(tb, ids[..i]), Trees(tb, ids);
            && (AnyBroken(part, args, unit, owner) ==> AnyBroken(whole, args, unit, owner))
            && (!AllBuildable(SubstAll(part, args, unit, owner), target)
                ==> !AllBuildable(SubstAll(whole, args, unit, owner), target))
            && (HeldTrees(tb, SubstAll(whole, args, unit, owner)) ==> HeldTrees(tb, SubstAll(part, args, unit, owner)))
  {
    if i < |ids| {
      assert ids[..|ids| - 1][..i] == ids[..i];
      PrefixStops(tb, target, ids[..|ids| - 1], i, args, unit, owner);
    } else {
      assert ids[..i] == ids;
    }
  }

  /** One more member replaced. */
  lemma ReplacedMore(tb: Table, tb1: Table, tb2: Table, max: nat, target: Target, result: Shapes, broken: bool,
                     done: seq<TypeId>, id: TypeId, last: Shape, lastBroken: bool)
    requires Sound(tb, target)
    requires ReplacedAll(tb, max, target, result, broken, true, done, tb1)
    requires Replaced(tb1, max, target, last, lastBroken, id, tb2)
    ensures ReplacedAll(tb, max, target, More(result, last), broken || lastBroken, id != INVALID, done + [id], tb2)
  {
    if id != INVALID {
      TreesStable(tb1, tb2, target, done);
      HeldIsBelow(tb2, target, id, |tb2.types|);
    }
  }

  lemma TreesStable(tb: Table, tb': Table, target: Target, ids: seq<TypeId>)
    requires Sound(tb, target) && Sound(tb', target) && Extends(tb, tb') && HeldAll(tb, ids)
    ensures Trees(tb', ids) == Trees(tb, ids)
  {
    SameBelow(tb', target, ids, |tb.types|);
    BelowAllStable(tb, tb', ids, |tb.types|);
  }

  /** What substitution answers for a type without children. */
  function LeafAnswer(tb: Table, subject: TypeId, args: seq<TypeId>, unit: nat, owner: nat): TypeId {
    if !Known(tb, subject) then subject
    else
      var t := tb.types[subject];
      if t.kind.Param? && t.unit == unit && t.owner == owner && t.binder < |args| then args[t.binder] else subject
  }

  predicate IsLeaf(tb: Table, subject: TypeId) {
    Known(tb, subject) ==>
      var t := tb.types[subject];
      !HasElement(t) && !t.kind.Tuple? && !t.kind.Function?
  }

  lemma LeafStep(tb: Table, max: nat, target: Target, subject: TypeId, args: seq<TypeId>, unit: nat, owner: nat)
    requires Sound(tb, target) && Held(tb, subject) && HeldAll(tb, args)
    ensures IsLeaf(tb, subject) ==>
              Substituted(tb, max, target, subject, args, unit, owner, LeafAnswer(tb, subject, args, unit, owner), tb)
  {
    if IsLeaf(tb, subject) && Known(tb, subject) {
      Stood(tb, max, target, LeafAnswer(tb, subject, args, unit, owner));
      KnownIsSomething(tb, subject);
    }
  }

  /** The shape of a type with one child, over that child's. */
  function OverElement(t: Type, element: Shape): Shape
    requires HasElement(t)
  {
    match t.kind
    case Pointer => PointerTo(element)
    case Array => ArrayOf(t.count, element)
    case Slice => SliceOf(element)
  }

  lemma ElementIsItsChild(tb: Table, target: Target, id: TypeId)
    requires Sound(tb, target) && Known(tb, id) && HasElement(tb.types[id])
    ensures Unfold(tb, id) == OverElement(tb.types[id], Unfold(tb, tb.types[id].pointee))
  {
    var t := tb.types[id];
    assert LinkedRecord(t, PartsOf(tb, t), id);
    HeldIsBelow(tb, target, t.pointee, id);
  }

  /** A type with one child, once that child is replaced. */
  lemma ElementStep(tb: Table, tb1: Table, max: nat, target: Target, subject: TypeId, args: seq<TypeId>, unit: nat,
                    owner: nat, child: TypeId)
    requires Sound(tb, target) && Known(tb, subject) && HasElement(tb.types[subject])
    requires Substituted(tb, max, target, tb.types[subject].pointee, args, unit, owner, child, tb1)
    ensures child == INVALID ==> Substituted(tb, max, target, subject, args, unit, owner, INVALID, tb1)
    ensures var s, given := Unfold(tb, subject), Arguments(tb, args);
            child != INVALID ==>
              && !Broken(s, given, unit, owner)
              && Subst(s, given, unit, owner) == OverElement(tb.types[subject], Unfold(tb1, child))
              && (HeldTree(tb, Subst(s, given, unit, owner)) ==> tb1 == tb)
  {
    var t, given := tb.types[subject], Arguments(tb, args);
    ChildrenAreHeld(tb, Subst(Unfold(tb, subject), given, unit, owner));
    ElementIsItsChild(tb, target, subject);
  }

  /** The answer for a later member, read back in the table the walk started from. */
  lemma LaterMember(tb: Table, tb1: Table, tb2: Table, max: nat, target: Target, member: TypeId, args: seq<TypeId>,
                    unit: nat, owner: nat, id: TypeId)
    requires Sound(tb, target) && Sound(tb1, target) && Extends(tb, tb1) && Held(tb, member) && HeldAll(tb, args)
    requires Substituted(tb1, max, target, member, args, unit, owner, id, tb2)
    ensures var s, given := Unfold(tb, member), Arguments(tb, args);
            Replaced(tb1, max, target, Subst(s, given, unit, owner), Broken(s, given, unit, owner), id, tb2)
  {
    ArgumentsStable(tb, tb1, target, args);
    if Known(tb, member) {
      UnfoldStable(tb, tb1, member);
    }
  }

  /** One turn of the member loop: either the next prefix is replaced, or the whole list cannot be. */
  lemma MemberStep(tb: Table, tb1: Table, tb2: Table, max: nat, target: Target, members: seq<TypeId>, i: nat,
                   args: seq<TypeId>, unit: nat, owner: nat, done: seq<TypeId>, id: TypeId)
    requires Sound(tb, target) && HeldAll(tb, members) && HeldAll(tb, args) && i < |members|
    requires SubstitutedAll(tb, max, target, members[..i], args, unit, owner, true, done, tb1)
    requires Substituted(tb1, max, target, members[i], args, unit, owner, id, tb2)
    ensures id != INVALID ==> SubstitutedAll(tb, max, target, members[..i + 1], args, unit, owner, true, done + [id],
            tb2)
    ensures id == INVALID ==> SubstitutedAll(tb, max, target, members, args, unit, owner, false, done, tb2)
  {
    var given, s, ss := Arguments(tb, args), Unfold(tb, members[i]), Trees(tb, members[..i]);
    LaterMember(tb, tb1, tb2, max, target, members[i], args, unit, owner, id);
    ReplacedMore(tb, tb1, tb2, max, target, SubstAll(ss, given, unit, owner), AnyBroken(ss, given, unit, owner),
                 done, id, Subst(s, given, unit, owner), Broken(s, given, unit, owner));
    TreesSnoc(tb, members, i);
    HeldIsBelow(tb, target, members[i], |tb.types|);
    assert members[..i + 1] == members[..i] + [members[i]];
    PrefixStops(tb, target, members, i + 1, given, unit, owner);
  }

  /** A product, once its members are replaced. */
  lemma TupleStep(tb: Table, tb1: Table, max: nat, target: Target, subject: TypeId, args: seq<TypeId>, unit: nat,
                  owner: nat,
                  ok: bool, replaced: seq<TypeId>)
    requires Sound(tb, target) && Known(tb, subject) && tb.types[subject].kind.Tuple?
    requires SubstitutedAll(tb, max, target, PartsOf(tb, tb.types[subject]), args, unit, owner, ok, replaced, tb1)
    ensures !ok ==> Substituted(tb, max, target, subject, args, unit, owner, INVALID, tb1)
    ensures var s, given := Unfold(tb, subject), Arguments(tb, args);
            ok ==> && !Broken(s, given, unit, owner)
                   && Subst(s, given, unit, owner) == TupleOf(Trees(tb1, replaced))
                   && (HeldTree(tb, Subst(s, given, unit, owner)) ==> tb1 == tb)
  {
    ChildrenAreHeld(tb, Subst(Unfold(tb, subject), Arguments(tb, args), unit, owner));
    TupleIsItsRow(tb, target, subject);
  }

  lemma FunctionIsItsRow(tb: Table, target: Target, id: TypeId)
    requires Sound(tb, target) && Known(tb, id) && tb.types[id].kind.Function?
    ensures var t, params := tb.types[id], PartsOf(tb, tb.types[id]);
            && HeldAll(tb, params) && Held(tb, t.returnType)
            && Unfold(tb, id) == FunctionOf(Unfold(tb, t.returnType), Trees(tb, params), t.variadic)
  {
    var t, params := tb.types[id], PartsOf(tb, tb.types[id]);
    assert LinkedRecord(t, params, id);
    SameBelow(tb, target, params, id);
    HeldIsBelow(tb, target, t.returnType, id);
  }

  lemma FunctionStops(tb: Table, tb1: Table, max: nat, target: Target, subject: TypeId, args: seq<TypeId>, unit: nat,
                      owner: nat,
                      replaced: seq<TypeId>)
    requires Sound(tb, target) && Known(tb, subject) && tb.types[subject].kind.Function?
    requires SubstitutedAll(tb, max, target, PartsOf(tb, tb.types[subject]), args, unit, owner, false, replaced, tb1)
    ensures Substituted(tb, max, target, subject, args, unit, owner, INVALID, tb1)
  {
    ChildrenAreHeld(tb, Subst(Unfold(tb, subject), Arguments(tb, args), unit, owner));
    FunctionIsItsRow(tb, target, subject);
  }

  /** A signature, once its parameters and then its result are replaced. */
  lemma FunctionStep(tb: Table, tb1: Table, tb2: Table, max: nat, target: Target, subject: TypeId, args: seq<TypeId>,
                     unit: nat, owner: nat,
                     replaced: seq<TypeId>, result: TypeId)
    requires Sound(tb, target) && Known(tb, subject) && tb.types[subject].kind.Function? && HeldAll(tb, args)
    requires SubstitutedAll(tb, max, target, PartsOf(tb, tb.types[subject]), args, unit, owner, true, replaced, tb1)
    requires Substituted(tb1, max, target, tb.types[subject].returnType, args, unit, owner, result, tb2)
    ensures result == INVALID ==> Substituted(tb, max, target, subject, args, unit, owner, INVALID, tb2)
    ensures var s, given := Unfold(tb, subject), Arguments(tb, args);
            result != INVALID ==>
              && HeldAll(tb2, replaced) && Extends(tb, tb2) && !Broken(s, given, unit, owner)
              && Subst(s, given, unit, owner) ==
                  FunctionOf(Unfold(tb2, result), Trees(tb2, replaced), tb.types[subject].variadic)
              && (HeldTree(tb, Subst(s, given, unit, owner)) ==> tb2 == tb)
  {
    ChildrenAreHeld(tb, Subst(Unfold(tb, subject), Arguments(tb, args), unit, owner));
    FunctionIsItsRow(tb, target, subject);
    LaterMember(tb, tb1, tb2, max, target, tb.types[subject].returnType, args, unit, owner, result);
    TreesStable(tb1, tb2, target, replaced);
  }

  // --- what a caller learns -----------------------------------------------------------------------

  /** Whatever a builder answers, every type already held keeps its tree and its layout. */
  lemma BuiltKeepsTypes(tb: Table, tb': Table, max: nat, target: Target, shape: Shape, id: TypeId, held: TypeId)
    requires Sound(tb, target) && Sound(tb', target) && Built(tb, max, target, shape, id, tb') && Known(tb, held)
    ensures Extends(tb, tb') && Held(tb', id)
    ensures Unfold(tb', held) == Unfold(tb, held) && LayoutAt(tb', held) == LayoutAt(tb, held)
  {
    UnfoldStable(tb, tb', held);
  }

  /** Asking twice gives one id, even when the first answer was new and others came between. */
  lemma BuiltTwice(tb: Table, tb1: Table, tb2: Table, tb3: Table, max: nat, target: Target, shape: Shape,
                   first: TypeId, second: TypeId)
    requires Sound(tb, target) && Sound(tb1, target) && Built(tb, max, target, shape, first, tb1) && first != INVALID
    requires Sound(tb2, target) && Extends(tb1, tb2)
    requires Sound(tb3, target) && Built(tb2, max, target, shape, second, tb3)
    ensures second == first && tb3 == tb2
  {
    UnfoldStable(tb1, tb2, first);
    assert Spelled(tb2, shape);
    IdsAreStructure(tb2, target, second, first);
  }

  /**
   * A valid answer spells the substituted tree, all of which may be built; it leaves no parameter of
   * the declaration behind when the arguments cover its `n` binders and mention none.
   */
  lemma SubstituteMeans(tb: Table, tb': Table, max: nat, target: Target, subject: TypeId, args: seq<TypeId>, unit: nat,
                        owner: nat,
                        n: nat, id: TypeId)
    requires Sound(tb, target) && Held(tb, subject) && HeldAll(tb, args)
    requires Substituted(tb, max, target, subject, args, unit, owner, id, tb') && id != INVALID
    ensures Unfold(tb', id) == Subst(Unfold(tb, subject), Arguments(tb, args), unit, owner)
    ensures Buildable(Unfold(tb', id), target)
    ensures n <= |args| && (forall a <- args :: !Mentions(Unfold(tb, a), unit, owner, n)) ==>
            !Mentions(Unfold(tb', id), unit, owner, n)
  {
    StoredIsBuildable(tb', target, id);
    if n <= |args| && (forall a <- args :: !Mentions(Unfold(tb, a), unit, owner, n)) {
      SubstLeavesNone(Unfold(tb, subject), Arguments(tb, args), unit, owner, n);
    }
  }

  /**
   * A type that mentions no parameter of the declaration comes back unchanged, with nothing interned,
   * exactly when no part of it was built on a missing type; otherwise no type comes back.
   */
  lemma SubstituteUnmentioned(tb: Table, tb': Table, max: nat, target: Target, subject: TypeId, args: seq<TypeId>,
                              unit: nat, owner: nat,
                              id: TypeId)
    requires Sound(tb, target) && Known(tb, subject) && HeldAll(tb, args)
    requires Substituted(tb, max, target, subject, args, unit, owner, id, tb')
    requires !Mentions(Unfold(tb, subject), unit, owner, |args|)
    ensures id == subject <==> !HasMissing(Unfold(tb, subject))
    ensures id == subject ==> tb' == tb
    ensures id != subject ==> id == INVALID
  {
    var s, given := Unfold(tb, subject), Arguments(tb, args);
    SubstIsIdentity(s, given, unit, owner);
    UnmentionedIsWhole(s, given, unit, owner);
    BelowIsHeld(tb, subject, 0);
    if id != INVALID {
      IdsAreStructure(tb', target, id, subject);
    }
  }

  /**
   * Where there is room, or the table spells the result already, no type is given exactly when a part is
   * missing or the builders refuse a part; a result spelled already is answered with nothing interned.
   */
  lemma SubstituteRefuses(tb: Table, tb': Table, max: nat, target: Target, subject: TypeId, args: seq<TypeId>,
                          unit: nat, owner: nat,
                          id: TypeId)
    requires Sound(tb, target) && Held(tb, subject) && HeldAll(tb, args)
    requires Substituted(tb, max, target, subject, args, unit, owner, id, tb')
    ensures var s, given := Unfold(tb, subject), Arguments(tb, args);
            var result := Subst(s, given, unit, owner);
            && (|tb'.types| < max || Spelled(tb, result) ==>
                (id == INVALID <==> Broken(s, given, unit, owner) || !Buildable(result, target)))
            && (Spelled(tb, result) && id != INVALID ==> tb' == tb)
  {
    if id != INVALID {
      StoredIsBuildable(tb', target, id);
    }
  }

  /** A pointer to no type is such a part: interned, and then lost by any substitution. */
  lemma PointerToNothingIsLost(tb: Table, tb': Table, max: nat, target: Target, subject: TypeId, args: seq<TypeId>,
                               unit: nat, owner: nat,
                               id: TypeId)
    requires Sound(tb, target) && Known(tb, subject) && HeldAll(tb, args) && Unfold(tb, subject) == PointerTo(Missing)
    requires Substituted(tb, max, target, subject, args, unit, owner, id, tb')
    ensures Admissible(PointerTo(Missing), target) && id == INVALID
  {
    SubstituteUnmentioned(tb, tb', max, target, subject, args, unit, owner, id);
  }

  /** An array of zero elements is refused exactly when its element's width is known (or it is no object). */
  lemma ZeroCountSlipsThrough(element: Shape, target: Target)
    ensures Admissible(ArrayOf(0, element), target) <==> IsObject(element) && LayoutOf(element, target).unknownSize
    ensures Admissible(ArrayOf(0, ParamOf(0, 0, 0)), target)
  {}
}
