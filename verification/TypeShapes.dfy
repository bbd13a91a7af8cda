/** Types as the trees they spell out, and what their layout and substitution mean there. */
module TypeShapes {
  import opened MachineWords

  datatype TypeKind =
    | Error | Void | Never | Bool | Char | Int | Float | Str | Function
    | IntLiteral | FloatLiteral | Pointer | Array | Slice | Tuple | Param

  /** The kinds with no children and no declaration behind them. */
  predicate IsScalarKind(k: TypeKind) {
    !k.Function? && !k.Pointer? && !k.Array? && !k.Slice? && !k.Tuple? && !k.Param?
  }

  /** The widths and alignments of a target that a layout reads. */
  datatype Target = Target(
    pointerBits: U16, charBits: U16, int64AlignBits: U16, float64AlignBits: U16, float80AlignBits: U16)

  /** `Missing` stands where a structure was built on no type at all. */
  datatype Shape =
    | Missing
    | Scalar(kind: TypeKind, isSigned: bool, bits: U16)
    | PointerTo(pointee: Shape)
    | ArrayOf(count: nat, element: Shape)
    | SliceOf(element: Shape)
    | TupleOf(members: Shapes)
    | FunctionOf(result: Shape, params: Shapes, variadic: bool)
    | ParamOf(unit: nat, owner: nat, binder: nat)

  datatype Shapes = NoShapes | More(init: Shapes, last: Shape)

  // --- size and alignment ---------------------------------------------------------------

  datatype Layout = Layout(size: nat, align: U16, unknownSize: bool)

  const NO_OBJECT := Layout(0, 0, false)

  function RoundUp(n: nat, align: nat): nat
    requires align > 0
  {
    (n + align - 1) / align * align
  }

  lemma RoundUpBounds(n: nat, align: nat)
    requires align > 0
    ensures n <= RoundUp(n, align) < n + align && RoundUp(n, align) % align == 0
  {
    var q := (n + align - 1) / align;
    assert n + align - 1 == q * align + (n + align - 1) % align;
    MultipleOf(q, align);
  }

  lemma MultipleOf(q: nat, a: nat)
    requires a > 0
    ensures q * a % a == 0
  {
    var d := q - q * a / a;
    assert d * a == q * a % a;
    Multiple(d, a);
  }

  function ScalarLayout(kind: TypeKind, bits: U16, target: Target): Layout {
    match kind
    case Bool => Layout(1, 1, false)
    case Char => Layout(1, 1, false)
    case Int => Layout(bits / 8, if bits == 64 then target.int64AlignBits / 8 else bits / 8, false)
    case Float =>
      var align := if bits == 64 then target.float64AlignBits / 8
                   else if bits == 80 then target.float80AlignBits / 8
                   else bits / 8;
      Layout(if align == 0 then bits / 8 else RoundUp(bits / 8, align), align, false)
    case Str => Layout(target.pointerBits / 8, target.pointerBits / 8, false)
    case _ => NO_OBJECT
  }

  function ArrayLayout(count: nat, element: Layout): Layout {
    Layout(if element.unknownSize then 0 else count * element.size, element.align, element.unknownSize)
  }

  /** Members so far: where the next one may start and the strictest alignment, or no number. */
  datatype Fold = Fold(size: nat, align: U16, unknown: bool)

  function AddMember(f: Fold, member: Layout): Fold {
    if f.unknown || member.unknownSize || member.align == 0 then f.(unknown := true)
    else Fold(RoundUp(f.size, member.align) + member.size, if f.align < member.align then member.align else f.align,
        false)
  }

  function FoldMembers(members: Shapes, target: Target): (f: Fold)
    ensures f.align > 0
  {
    match members
    case NoShapes => Fold(0, 1, false)
    case More(init, last) => AddMember(FoldMembers(init, target), LayoutOf(last, target))
  }

  function PadWhole(f: Fold): Layout
    requires f.align > 0
  {
    if f.unknown then Layout(0, 1, true) else Layout(RoundUp(f.size, f.align), f.align, false)
  }

  function LayoutOf(s: Shape, target: Target): Layout {
    match s
    case Missing => NO_OBJECT
    case Scalar(kind, _, bits) => ScalarLayout(kind, bits, target)
    case PointerTo(_) => Layout(target.pointerBits / 8, target.pointerBits / 8, false)
    case SliceOf(_) => Layout(target.pointerBits / 8 * 2, target.pointerBits / 8, false)
    case ArrayOf(count, element) => ArrayLayout(count, LayoutOf(element, target))
    case TupleOf(members) => PadWhole(FoldMembers(members, target))
    case FunctionOf(_, _, _) => NO_OBJECT
    case ParamOf(_, _, _) => Layout(0, 1, true)
  }

  /** How many types a structure is made of, a missing child counting one. */
  function NodesOf(s: Shape): nat {
    match s
    case PointerTo(pointee) => 1 + NodesOf(pointee)
    case ArrayOf(_, element) => 1 + NodesOf(element)
    case SliceOf(element) => 1 + NodesOf(element)
    case TupleOf(members) => 1 + NodesOfAll(members)
    case FunctionOf(result, params, _) => 1 + NodesOf(result) + NodesOfAll(params)
    case _ => 1
  }

  function NodesOfAll(ss: Shapes): nat {
    match ss
    case NoShapes => 0
    case More(init, last) => NodesOfAll(init) + NodesOf(last)
  }

  // --- what may be built -------------------------------------------------------------------

  /** A shape with an object representation, or a parameter standing for one. */
  predicate IsObject(s: Shape) {
    match s
    case Scalar(kind, _, _) => kind.Bool? || kind.Char? || kind.Int? || kind.Float? || kind.Str?
    case PointerTo(_) => true
    case ArrayOf(_, _) => true
    case SliceOf(_) => true
    case TupleOf(_) => true
    case ParamOf(_, _, _) => true
    case _ => false
  }

  predicate AllObjects(ss: Shapes) {
    match ss
    case NoShapes => true
    case More(init, last) => AllObjects(init) && IsObject(last)
  }

  predicate AnyUnknown(ss: Shapes, target: Target) {
    match ss
    case NoShapes => false
    case More(init, last) => AnyUnknown(init, target) || LayoutOf(last, target).unknownSize
  }

  /** `count` elements of this size are a number of bytes. */
  predicate ArrayFits(count: nat, size: nat) {
    count > 0 && size > 0 && count * size < WORD
  }

  /** Every step of laying the members out stays a number of bytes. */
  predicate MembersFit(members: Shapes, target: Target) {
    match members
    case NoShapes => true
    case More(init, last) =>
      var f, l := FoldMembers(init, target), LayoutOf(last, target);
      && MembersFit(init, target) && !f.unknown && !l.unknownSize && l.align > 0 && l.size > 0
      && f.size + (l.align - 1) < WORD
      && RoundUp(f.size, l.align) + l.size < WORD
  }

  predicate TupleFits(members: Shapes, target: Target) {
    var f := FoldMembers(members, target);
    MembersFit(members, target) && !f.unknown && f.size + (f.align - 1) < WORD
  }

  /** The rule each builder applies before it builds. */
  predicate Admissible(s: Shape, target: Target) {
    match s
    case ArrayOf(count, element) =>
      var l := LayoutOf(element, target);
      IsObject(element) && (l.unknownSize || ArrayFits(count, l.size))
    case SliceOf(element) => IsObject(element)
    case TupleOf(members) =>
      Count(members) >= 2 && AllObjects(members) && (AnyUnknown(members, target) || TupleFits(members, target))
    case _ => true
  }

  // --- offsets of a product ---------------------------------------------------------------

  function Count(ss: Shapes): nat {
    match ss
    case NoShapes => 0
    case More(init, _) => Count(init) + 1
  }

  function Prefix(ss: Shapes, n: nat): Shapes
    requires n <= Count(ss)
  {
    if n == Count(ss) then ss else Prefix(ss.init, n)
  }

  function At(ss: Shapes, i: nat): Shape
    requires i < Count(ss)
  {
    if i == Count(ss.init) then ss.last else At(ss.init, i)
  }

  /** Where member `i` of a product starts. */
  function Offset(members: Shapes, i: nat, target: Target): nat
    requires i < Count(members)
  {
    var align := LayoutOf(At(members, i), target).align;
    RoundUp(FoldMembers(Prefix(members, i), target).size, if align == 0 then 1 else align)
  }

  lemma {:induction false} PrefixStep(members: Shapes, i: nat)
    requires i < Count(members)
    ensures Prefix(members, i + 1) == More(Prefix(members, i), At(members, i))
  {
    if i + 1 < Count(members) {
      PrefixStep(members.init, i);
    }
  }

  /** A known product stays known on every prefix, and its members only push the end outwards. */
  lemma {:induction false} FoldGrows(members: Shapes, i: nat, target: Target)
    requires i <= Count(members) && !FoldMembers(members, target).unknown
    ensures !FoldMembers(Prefix(members, i), target).unknown
    ensures FoldMembers(Prefix(members, i), target).size <= FoldMembers(members, target).size
  {
    if i < Count(members) {
      FoldGrows(members.init, i, target);
      var last := LayoutOf(members.last, target);
      RoundUpBounds(FoldMembers(members.init, target).size, last.align);
    }
  }

  /**
   * A product's members stand in order, each aligned, none overlapping the next, all inside the
   * object, whose size is a multiple of its own alignment.
   */
  lemma OffsetsAreALayout(members: Shapes, i: nat, target: Target)
    requires i < Count(members) && !FoldMembers(members, target).unknown
    ensures var m := LayoutOf(At(members, i), target);
            var whole := LayoutOf(TupleOf(members), target);
            && m.align > 0 && Offset(members, i, target) % m.align == 0
            && Offset(members, i, target) + m.size <= whole.size
            && (i + 1 < Count(members) ==> Offset(members, i, target) + m.size <= Offset(members, i + 1, target))
            && whole.align > 0 && whole.size % whole.align == 0
  {
    var f, m := FoldMembers(members, target), LayoutOf(At(members, i), target);
    PrefixStep(members, i);
    FoldGrows(members, i, target);
    FoldGrows(members, i + 1, target);
    RoundUpBounds(FoldMembers(Prefix(members, i), target).size, m.align);
    RoundUpBounds(f.size, f.align);
    if i + 1 < Count(members) {
      var next := LayoutOf(At(members, i + 1), target).align;
      RoundUpBounds(FoldMembers(Prefix(members, i + 1), target).size, if next == 0 then 1 else next);
    }
  }

  // --- substitution --------------------------------------------------------------------------

  /** Every parameter of the declaration `(unit, owner)` that `args` reaches, replaced. */
  function Subst(s: Shape, args: seq<Shape>, unit: nat, owner: nat): Shape {
    match s
    case ParamOf(u, o, binder) => if u == unit && o == owner && binder < |args| then args[binder] else s
    case PointerTo(pointee) => PointerTo(Subst(pointee, args, unit, owner))
    case ArrayOf(count, element) => ArrayOf(count, Subst(element, args, unit, owner))
    case SliceOf(element) => SliceOf(Subst(element, args, unit, owner))
    case TupleOf(members) => TupleOf(SubstAll(members, args, unit, owner))
    case FunctionOf(result, params, variadic) =>
      FunctionOf(Subst(result, args, unit, owner), SubstAll(params, args, unit, owner), variadic)
    case _ => s
  }

  function SubstAll(ss: Shapes, args: seq<Shape>, unit: nat, owner: nat): Shapes {
    match ss
    case NoShapes => NoShapes
    case More(init, last) => More(SubstAll(init, args, unit, owner), Subst(last, args, unit, owner))
  }

  /** `s` holds a parameter of `(unit, owner)` whose binder is below `n`. */
  predicate Mentions(s: Shape, unit: nat, owner: nat, n: nat) {
    match s
    case ParamOf(u, o, binder) => u == unit && o == owner && binder < n
    case PointerTo(pointee) => Mentions(pointee, unit, owner, n)
    case ArrayOf(_, element) => Mentions(element, unit, owner, n)
    case SliceOf(element) => Mentions(element, unit, owner, n)
    case TupleOf(members) => MentionsAny(members, unit, owner, n)
    case FunctionOf(result, params, _) => Mentions(result, unit, owner, n) || MentionsAny(params, unit, owner, n)
    case _ => false
  }

  predicate MentionsAny(ss: Shapes, unit: nat, owner: nat, n: nat) {
    match ss
    case NoShapes => false
    case More(init, last) => MentionsAny(init, unit, owner, n) || Mentions(last, unit, owner, n)
  }

  /** Some part of `s` was built on no type. */
  predicate HasMissing(s: Shape) {
    match s
    case Missing => true
    case PointerTo(pointee) => HasMissing(pointee)
    case ArrayOf(_, element) => HasMissing(element)
    case SliceOf(element) => HasMissing(element)
    case TupleOf(members) => AnyMissing(members)
    case FunctionOf(result, params, _) => HasMissing(result) || AnyMissing(params)
    case _ => false
  }

  predicate AnyMissing(ss: Shapes) {
    match ss
    case NoShapes => false
    case More(init, last) => AnyMissing(init) || HasMissing(last)
  }

  lemma {:induction false} SubstIsIdentity(s: Shape, args: seq<Shape>, unit: nat, owner: nat)
    requires !Mentions(s, unit, owner, |args|)
    ensures Subst(s, args, unit, owner) == s
  {
    match s
    case PointerTo(pointee) => SubstIsIdentity(pointee, args, unit, owner);
    case ArrayOf(_, element) => SubstIsIdentity(element, args, unit, owner);
    case SliceOf(element) => SubstIsIdentity(element, args, unit, owner);
    case TupleOf(members) => SubstAllIsIdentity(members, args, unit, owner);
    case FunctionOf(result, params, _) =>
      SubstIsIdentity(result, args, unit, owner);
      SubstAllIsIdentity(params, args, unit, owner);
    case _ =>
  }

  lemma {:induction false} SubstAllIsIdentity(ss: Shapes, args: seq<Shape>, unit: nat, owner: nat)
    requires !MentionsAny(ss, unit, owner, |args|)
    ensures SubstAll(ss, args, unit, owner) == ss
  {
    match ss
    case NoShapes =>
    case More(init, last) =>
      SubstAllIsIdentity(init, args, unit, owner);
      SubstIsIdentity(last, args, unit, owner);
  }

  /** Arguments that cover every binder of a declaration and mention none leave none behind. */
  lemma {:induction false} SubstLeavesNone(s: Shape, args: seq<Shape>, unit: nat, owner: nat, n: nat)
    requires forall a <- args :: !Mentions(a, unit, owner, n)
    requires |args| >= n
    ensures !Mentions(Subst(s, args, unit, owner), unit, owner, n)
  {
    match s
    case PointerTo(pointee) => SubstLeavesNone(pointee, args, unit, owner, n);
    case ArrayOf(_, element) => SubstLeavesNone(element, args, unit, owner, n);
    case SliceOf(element) => SubstLeavesNone(element, args, unit, owner, n);
    case TupleOf(members) => SubstAllLeavesNone(members, args, unit, owner, n);
    case FunctionOf(result, params, _) =>
      SubstLeavesNone(result, args, unit, owner, n);
      SubstAllLeavesNone(params, args, unit, owner, n);
    case _ =>
  }

  lemma {:induction false} SubstAllLeavesNone(ss: Shapes, args: seq<Shape>, unit: nat, owner: nat, n: nat)
    requires forall a <- args :: !Mentions(a, unit, owner, n)
    requires |args| >= n
    ensures !MentionsAny(SubstAll(ss, args, unit, owner), unit, owner, n)
  {
    match ss
    case NoShapes =>
    case More(init, last) =>
      SubstAllLeavesNone(init, args, unit, owner, n);
      SubstLeavesNone(last, args, unit, owner, n);
  }
}
