/** Which argument stands in for which parameter: the laws of substitution (include/sema/type_store.h). */
module TypeArguments {
  import opened TypeShapes
  import opened TypeTable
  import opened TypeInterning
  import opened TypeSubstitution

  /** A parameter of the declaration becomes the argument at its own position; every other one stays. */
  lemma ParameterIsItsArgument(u: nat, o: nat, binder: nat, args: seq<Shape>, unit: nat, owner: nat)
    ensures u == unit && o == owner && binder < |args| ==>
              Subst(ParamOf(u, o, binder), args, unit, owner) == args[binder]
    ensures u != unit || o != owner || binder >= |args| ==>
              Subst(ParamOf(u, o, binder), args, unit, owner) == ParamOf(u, o, binder)
  {}

  /** The first `n` parameters of a declaration, in order. */
  function Own(unit: nat, owner: nat, n: nat): (args: seq<Shape>)
    ensures |args| == n
    ensures forall i :: 0 <= i < n ==> args[i] == ParamOf(unit, owner, i)
  {
    seq(n, i requires 0 <= i < n => ParamOf(unit, owner, i))
  }

  /** A declaration's own parameters as arguments change nothing. */
  lemma {:induction false} OwnParametersChangeNothing(s: Shape, unit: nat, owner: nat, n: nat)
    ensures Subst(s, Own(unit, owner, n), unit, owner) == s
  {
    match s
    case PointerTo(pointee) => OwnParametersChangeNothing(pointee, unit, owner, n);
    case ArrayOf(_, element) => OwnParametersChangeNothing(element, unit, owner, n);
    case SliceOf(element) => OwnParametersChangeNothing(element, unit, owner, n);
    case TupleOf(members) => OwnParametersChangeNone(members, unit, owner, n);
    case FunctionOf(result, params, _) =>
      OwnParametersChangeNothing(result, unit, owner, n);
      OwnParametersChangeNone(params, unit, owner, n);
    case _ =>
  }

  lemma {:induction false} OwnParametersChangeNone(ss: Shapes, unit: nat, owner: nat, n: nat)
    ensures SubstAll(ss, Own(unit, owner, n), unit, owner) == ss
  {
    match ss
    case NoShapes =>
    case More(init, last) =>
      OwnParametersChangeNone(init, unit, owner, n);
      OwnParametersChangeNothing(last, unit, owner, n);
  }

  /** Arguments with parameters of the same declaration replaced in each. */
  function SubstEach(args: seq<Shape>, more: seq<Shape>, unit: nat, owner: nat): (r: seq<Shape>)
    ensures |r| == |args| && forall i :: 0 <= i < |r| ==> r[i] == Subst(args[i], more, unit, owner)
  {
    seq(|args|, i requires 0 <= i < |args| => Subst(args[i], more, unit, owner))
  }

  /**
   * Substituting twice is substituting once, by arguments that were substituted in, when the second list
   * reaches no parameter the first one leaves.
   */
  lemma {:induction false} SubstitutionsCompose(s: Shape, a: seq<Shape>, b: seq<Shape>, unit: nat, owner: nat)
    requires |b| <= |a| || !MentionsFrom(s, unit, owner, |a|)
    ensures Subst(Subst(s, a, unit, owner), b, unit, owner) == Subst(s, SubstEach(a, b, unit, owner), unit, owner)
  {
    match s
    case PointerTo(pointee) => SubstitutionsCompose(pointee, a, b, unit, owner);
    case ArrayOf(_, element) => SubstitutionsCompose(element, a, b, unit, owner);
    case SliceOf(element) => SubstitutionsCompose(element, a, b, unit, owner);
    case TupleOf(members) => AllSubstitutionsCompose(members, a, b, unit, owner);
    case FunctionOf(result, params, _) =>
      SubstitutionsCompose(result, a, b, unit, owner);
      AllSubstitutionsCompose(params, a, b, unit, owner);
    case _ =>
  }

  lemma {:induction false} AllSubstitutionsCompose(ss: Shapes, a: seq<Shape>, b: seq<Shape>, unit: nat, owner: nat)
    requires |b| <= |a| || !MentionsAnyFrom(ss, unit, owner, |a|)
    ensures SubstAll(SubstAll(ss, a, unit, owner), b, unit, owner)
         == SubstAll(ss, SubstEach(a, b, unit, owner), unit, owner)
  {
    match ss
    case NoShapes =>
    case More(init, last) =>
      AllSubstitutionsCompose(init, a, b, unit, owner);
      SubstitutionsCompose(last, a, b, unit, owner);
  }

  /** `s` holds a parameter of the declaration whose binder is `n` or more. */
  predicate MentionsFrom(s: Shape, unit: nat, owner: nat, n: nat) {
    match s
    case ParamOf(u, o, binder) => u == unit && o == owner && binder >= n
    case PointerTo(pointee) => MentionsFrom(pointee, unit, owner, n)
    case ArrayOf(_, element) => MentionsFrom(element, unit, owner, n)
    case SliceOf(element) => MentionsFrom(element, unit, owner, n)
    case TupleOf(members) => MentionsAnyFrom(members, unit, owner, n)
    case FunctionOf(result, params, _) =>
      MentionsFrom(result, unit, owner, n) || MentionsAnyFrom(params, unit, owner, n)
    case _ => false
  }

  predicate MentionsAnyFrom(ss: Shapes, unit: nat, owner: nat, n: nat) {
    match ss
    case NoShapes => false
    case More(init, last) => MentionsAnyFrom(init, unit, owner, n) || MentionsFrom(last, unit, owner, n)
  }

  // --- what is missing ------------------------------------------------------------------------------

  /** Every argument is a whole type or none at all. */
  ghost predicate WholeOrNone(args: seq<Shape>) {
    forall i :: 0 <= i < |args| ==> args[i].Missing? || !HasMissing(args[i])
  }

  /** The walk meets a missing part exactly when the substituted tree has one. */
  lemma {:induction false} BrokenIsMissing(s: Shape, args: seq<Shape>, unit: nat, owner: nat)
    requires WholeOrNone(args)
    ensures Broken(s, args, unit, owner) <==> HasMissing(Subst(s, args, unit, owner))
  {
    match s
    case PointerTo(pointee) => BrokenIsMissing(pointee, args, unit, owner);
    case ArrayOf(_, element) => BrokenIsMissing(element, args, unit, owner);
    case SliceOf(element) => BrokenIsMissing(element, args, unit, owner);
    case TupleOf(members) => AnyBrokenIsMissing(members, args, unit, owner);
    case FunctionOf(result, params, _) =>
      BrokenIsMissing(result, args, unit, owner);
      AnyBrokenIsMissing(params, args, unit, owner);
    case _ =>
  }

  lemma {:induction false} AnyBrokenIsMissing(ss: Shapes, args: seq<Shape>, unit: nat, owner: nat)
    requires WholeOrNone(args)
    ensures AnyBroken(ss, args, unit, owner) <==> AnyMissing(SubstAll(ss, args, unit, owner))
  {
    match ss
    case NoShapes =>
    case More(init, last) =>
      AnyBrokenIsMissing(init, args, unit, owner);
      BrokenIsMissing(last, args, unit, owner);
  }

  // --- in the store ----------------------------------------------------------------------------------

  /** A parameter of the declaration comes back as the argument at its own position, with nothing interned. */
  lemma ParameterComesBack(tb: Table, tb': Table, max: nat, target: Target, subject: TypeId, args: seq<TypeId>,
                           unit: nat, owner: nat, binder: nat, id: TypeId)
    requires Sound(tb, target) && Known(tb, subject) && HeldAll(tb, args) && binder < |args|
    requires Unfold(tb, subject) == ParamOf(unit, owner, binder)
    requires Substituted(tb, max, target, subject, args, unit, owner, id, tb')
    ensures id == args[binder]
    ensures id != INVALID ==> tb' == tb
  {
    ParameterIsItsArgument(unit, owner, binder, Arguments(tb, args), unit, owner);
    assert Arguments(tb, args)[binder] == Unfold(tb, args[binder]);
    BelowIsHeld(tb, args[binder], 0);
    if Known(tb, args[binder]) {
      KnownIsSomething(tb, args[binder]);
      IdsAreStructure(tb, target, id, args[binder]);
    }
  }

  /** A declaration's own parameters as arguments give back the type, unless a part of it is missing. */
  lemma OwnParametersComeBack(tb: Table, tb': Table, max: nat, target: Target, subject: TypeId, args: seq<TypeId>,
                              unit: nat, owner: nat, id: TypeId)
    requires Sound(tb, target) && Known(tb, subject) && HeldAll(tb, args)
    requires Arguments(tb, args) == Own(unit, owner, |args|) && !HasMissing(Unfold(tb, subject))
    requires Substituted(tb, max, target, subject, args, unit, owner, id, tb')
    ensures id == subject && tb' == tb
  {
    var s := Unfold(tb, subject);
    OwnParametersChangeNothing(s, unit, owner, |args|);
    BrokenIsMissing(s, Arguments(tb, args), unit, owner);
    BelowIsHeld(tb, subject, 0);
    IdsAreStructure(tb, target, id, subject);
  }
}
