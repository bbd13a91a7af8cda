/**
 * What a size and an alignment promise: slots that follow one another stay aligned, arrays and slices
 * are laid out as the products they stand for, and every size is a number of bytes.
 */
module TypeLayouts {
  import opened MachineWords
  import opened TypeShapes
  import opened TypeTable
  import opened TypeInterning
  import opened TypeSubstitution

  // --- the target --------------------------------------------------------------------------------

  /** A 64-bit integer's alignment divides its eight bytes, and no alignment or pointer rounds down to nothing. */
  predicate Sane(target: Target) {
    && target.pointerBits >= 8
    && target.int64AlignBits >= 8 && 8 % (target.int64AlignBits / 8) == 0
    && target.float64AlignBits >= 8 && target.float80AlignBits >= 8
  }

  /** An integer or float has at least one byte. */
  predicate HasWidth(s: Shape) {
    s.Scalar? && (s.kind.Int? || s.kind.Float?) ==> s.bits >= 8
  }

  /** Every part that takes part in the layout has one. */
  predicate HasWidths(s: Shape) {
    match s
    case ArrayOf(_, element) => HasWidths(element)
    case TupleOf(members) => AllHaveWidths(members)
    case _ => HasWidth(s)
  }

  predicate AllHaveWidths(ss: Shapes) {
    match ss
    case NoShapes => true
    case More(init, last) => AllHaveWidths(init) && HasWidths(last)
  }

  // --- multiples ----------------------------------------------------------------------------------

  lemma MultipleOfMultiple(n: nat, q: nat, a: nat)
    requires a > 0 && q % a == 0
    ensures n * q % a == 0
  {
    var k := q / a;
    assert q == k * a;
    assert n * q == n * k * a;
    MultipleOf(n * k, a);
  }

  /** A multiple rounds up to itself. */
  lemma RoundsToItself(n: nat, a: nat)
    requires a > 0 && n % a == 0
    ensures RoundUp(n, a) == n
  {
    RoundUpBounds(n, a);
    var d := RoundUp(n, a) / a - n / a;
    assert d * a == RoundUp(n, a) - n;
    Multiple(d, a);
  }

  /** Below a multiple of `a`, multiples stay a whole `a` away from it. */
  lemma MultiplesKeepApart(n: nat, top: nat, a: nat)
    requires a > 0 && n % a == 0 && top % a == 0 && n < top
    ensures n + a <= top
  {
    var d := top / a - n / a;
    assert d * a == top - n;
    Multiple(d, a);
  }

  // --- slots ---------------------------------------------------------------------------------------

  /** An integer takes exactly its bits, a float less than one alignment more. */
  lemma ScalarsFitTheirSlots(kind: TypeKind, bits: U16, target: Target)
    requires Sane(target) && (kind.Int? || kind.Float?) && bits >= 8 && bits % 8 == 0
    ensures var l := ScalarLayout(kind, bits, target);
            l.align > 0 && bits <= 8 * l.size && 8 * l.size < bits + 8 * l.align && (kind.Int? ==> 8 * l.size == bits)
  {
    var l := ScalarLayout(kind, bits, target);
    if kind.Float? {
      RoundUpBounds(bits / 8, l.align);
    }
  }

  /** An integer or float is aligned to its own size, except where the target says otherwise. */
  lemma ScalarsAreAligned(kind: TypeKind, bits: U16, target: Target)
    requires kind.Int? || kind.Float?
    ensures ScalarLayout(kind, bits, target).align ==
            (if kind.Int? && bits == 64 then target.int64AlignBits
             else if kind.Float? && bits == 64 then target.float64AlignBits
             else if kind.Float? && bits == 80 then target.float80AlignBits
             else bits) / 8
  {}

  function Slots(ss: seq<Shape>, target: Target): seq<Layout> {
    seq(|ss|, i requires 0 <= i < |ss| => LayoutOf(ss[i], target))
  }

  /** Sizes and alignments where pointers have 64 bits, and the extended float is aligned to 128 of them. */
  lemma OnTheDefaultTarget()
    ensures var target := Target(64, 8, 64, 64, 128);
            var flag, f80 := Scalar(Bool, false, 0), Scalar(Float, false, 80);
            && Slots([Scalar(Int, true, 8), Scalar(Int, false, 16), Scalar(Int, true, 32), Scalar(Int, false, 64),
                      Scalar(Int, true, 128)], target)
               == [Layout(1, 1, false), Layout(2, 2, false), Layout(4, 4, false), Layout(8, 8, false),
                   Layout(16, 16, false)]
            && Slots([flag, Scalar(Char, false, 8), Scalar(Float, false, 32), Scalar(Float, false, 64), f80], target)
               == [Layout(1, 1, false), Layout(1, 1, false), Layout(4, 4, false), Layout(8, 8, false),
                   Layout(16, 16, false)]
            && LayoutOf(Scalar(Str, false, 0), target) == LayoutOf(PointerTo(f80), target) == Layout(8, 8, false)
            && LayoutOf(SliceOf(f80), target) == Layout(16, 8, false)
            && LayoutOf(ArrayOf(2, f80), target) == Layout(32, 16, false)
            && LayoutOf(TupleOf(More(More(More(NoShapes, flag), Scalar(Int, true, 32)), flag)), target)
               == Layout(12, 4, false)
  {}

  /**
   * A known object's size is a multiple of its alignment, so that in an array every element is aligned when
   * the first one is.
   */
  lemma {:induction false} SlotsFollowAligned(s: Shape, target: Target)
    requires Sane(target)
    ensures var l := LayoutOf(s, target); l.align > 0 && !l.unknownSize ==> l.size % l.align == 0
  {
    match s
    case ArrayOf(count, element) =>
      SlotsFollowAligned(element, target);
      var l := LayoutOf(element, target);
      if l.align > 0 && !l.unknownSize {
        MultipleOfMultiple(count, l.size, l.align);
      }
    case TupleOf(members) =>
      var f := FoldMembers(members, target);
      RoundUpBounds(f.size, f.align);
    case Scalar(kind, _, bits) => ScalarSlotFollows(kind, bits, target);
    case SliceOf(_) =>
      MultipleOf(2, target.pointerBits / 8);
    case _ =>
  }

  lemma ScalarSlotFollows(kind: TypeKind, bits: U16, target: Target)
    requires Sane(target)
    ensures var l := ScalarLayout(kind, bits, target); l.align > 0 ==> l.size % l.align == 0
  {
    var l := ScalarLayout(kind, bits, target);
    if kind.Float? && l.align > 0 {
      RoundUpBounds(bits / 8, l.align);
    }
  }

  /** Every element of an array stands aligned inside it, and none overlaps the next. */
  lemma ElementsAreAligned(count: nat, element: Shape, i: nat, target: Target)
    requires Sane(target) && i < count
    ensures var l, whole := LayoutOf(element, target), LayoutOf(ArrayOf(count, element), target);
            l.align > 0 && !l.unknownSize ==>
              whole.align == l.align && i * l.size % l.align == 0 && i * l.size + l.size <= whole.size
  {
    var l := LayoutOf(element, target);
    if l.align > 0 && !l.unknownSize {
      SlotsFollowAligned(element, target);
      MultipleOfMultiple(i, l.size, l.align);
      MoreTimes(i + 1, count, l.size);
      assert (i + 1) * l.size == i * l.size + l.size;
    }
  }

  lemma MoreTimes(a: nat, b: nat, n: nat)
    requires a <= b
    ensures a * n <= b * n
  {
    assert b * n == a * n + (b - a) * n;
  }

  // --- arrays and slices as products ----------------------------------------------------------------

  function Copies(n: nat, s: Shape): Shapes { if n == 0 then NoShapes else More(Copies(n - 1, s), s) }

  lemma {:induction false} FoldCopies(n: nat, s: Shape, target: Target)
    requires Sane(target) && LayoutOf(s, target).align > 0 && !LayoutOf(s, target).unknownSize
    ensures var l := LayoutOf(s, target);
            FoldMembers(Copies(n, s), target) == Fold(n * l.size, if n == 0 then 1 else l.align, false)
  {
    if n > 0 {
      var l := LayoutOf(s, target);
      FoldCopies(n - 1, s, target);
      SlotsFollowAligned(s, target);
      MultipleOfMultiple(n - 1, l.size, l.align);
      RoundsToItself((n - 1) * l.size, l.align);
      assert (n - 1) * l.size + l.size == n * l.size;
    }
  }

  /** An array is laid out like the product of as many elements. */
  lemma ArrayIsProduct(count: nat, element: Shape, target: Target)
    requires Sane(target) && count > 0
    requires LayoutOf(element, target).align > 0 && !LayoutOf(element, target).unknownSize
    ensures LayoutOf(ArrayOf(count, element), target) == LayoutOf(TupleOf(Copies(count, element)), target)
  {
    var l := LayoutOf(element, target);
    FoldCopies(count, element, target);
    SlotsFollowAligned(element, target);
    MultipleOfMultiple(count, l.size, l.align);
    RoundsToItself(count * l.size, l.align);
  }

  /** A slice is laid out like the product of a pointer and an integer of the pointer's width. */
  lemma SliceIsProduct(element: Shape, target: Target)
    requires Sane(target) && target.pointerBits % 8 == 0
    requires target.pointerBits == 64 ==> target.int64AlignBits == 64
    ensures var pair := More(More(NoShapes, PointerTo(element)), Scalar(Int, false, target.pointerBits));
            LayoutOf(SliceOf(element), target) == LayoutOf(TupleOf(pair), target)
  {
    var word := target.pointerBits / 8;
    assert word > 0 && LayoutOf(PointerTo(element), target) == Layout(word, word, false);
    assert LayoutOf(Scalar(Int, false, target.pointerBits), target) == Layout(word, word, false);
    TwoAlike(PointerTo(element), Scalar(Int, false, target.pointerBits), word, target);
  }

  lemma AddAligned(f: Fold, l: Layout)
    requires !f.unknown && !l.unknownSize && l.align > 0 && f.align <= l.align && f.size % l.align == 0
    ensures AddMember(f, l) == Fold(f.size + l.size, l.align, false)
  {
    RoundsToItself(f.size, l.align);
  }

  lemma PadAligned(f: Fold)
    requires f.align > 0 && !f.unknown && f.size % f.align == 0
    ensures PadWhole(f) == Layout(f.size, f.align, false)
  {
    RoundsToItself(f.size, f.align);
  }

  lemma TwoWords(word: U16, twice: nat)
    requires word > 0 && twice == word + word && 0 % word == word % word == twice % word == 0
    ensures PadWhole(AddMember(AddMember(Fold(0, 1, false), Layout(word, word, false)), Layout(word, word, false)))
         == Layout(twice, word, false)
  {
    AddAligned(Fold(0, 1, false), Layout(word, word, false));
    AddAligned(Fold(word, word, false), Layout(word, word, false));
    PadAligned(Fold(twice, word, false));
  }

  lemma FoldOfTwo(a: Shape, b: Shape, target: Target)
    ensures LayoutOf(TupleOf(More(More(NoShapes, a), b)), target)
         == PadWhole(AddMember(AddMember(Fold(0, 1, false), LayoutOf(a, target)), LayoutOf(b, target)))
  {
    var one := More(NoShapes, a);
    assert FoldMembers(NoShapes, target) == Fold(0, 1, false);
    assert FoldMembers(one, target) == AddMember(Fold(0, 1, false), LayoutOf(a, target));
  }

  lemma TwoAlike(a: Shape, b: Shape, word: U16, target: Target)
    requires word > 0 && LayoutOf(a, target) == LayoutOf(b, target) == Layout(word, word, false)
    ensures LayoutOf(TupleOf(More(More(NoShapes, a), b)), target) == Layout(word * 2, word, false)
  {
    FoldOfTwo(a, b, target);
    MultipleOf(0, word);
    MultipleOf(1, word);
    MultipleOf(2, word);
    TwoWords(word, word * 2);
  }

  /** A string, like any pointer, takes one pointer's width, whatever it points at. */
  lemma PointersAreAlike(a: Shape, b: Shape, isSigned: bool, bits: U16, target: Target)
    requires Sane(target) && target.pointerBits % 8 == 0
    ensures LayoutOf(PointerTo(a), target) == LayoutOf(PointerTo(b), target)
         == LayoutOf(Scalar(Str, isSigned, bits), target)
    ensures var l := LayoutOf(PointerTo(a), target);
            8 * l.size == target.pointerBits && l.align == l.size && !l.unknownSize
  {}

  // --- which shapes have a layout ---------------------------------------------------------------------

  /** A parameter stands in the object itself, not behind a pointer. */
  predicate Waits(s: Shape) {
    match s
    case ParamOf(_, _, _) => true
    case ArrayOf(_, element) => Waits(element)
    case TupleOf(members) => AnyWaits(members)
    case _ => false
  }

  predicate AnyWaits(ss: Shapes) {
    match ss
    case NoShapes => false
    case More(init, last) => AnyWaits(init) || Waits(last)
  }

  /**
   * Of what may be built, exactly the objects have an alignment, and a size is unknown exactly while a parameter
   * stands in the object; a known object has at least one byte and a size that fits 64 bits.
   */
  lemma {:induction false} ObjectsAreLaidOut(s: Shape, target: Target)
    requires Sane(target) && HasWidths(s) && Buildable(s, target)
    ensures var l := LayoutOf(s, target);
            && (IsObject(s) <==> l.align > 0)
            && (l.unknownSize <==> Waits(s))
            && (IsObject(s) && !l.unknownSize ==> 0 < l.size < WORD)
            && (!IsObject(s) || l.unknownSize ==> l.size == 0)
  {
    match s
    case ArrayOf(count, element) => ObjectsAreLaidOut(element, target);
    case TupleOf(members) =>
      MembersAreLaidOut(members, target);
      var f := FoldMembers(members, target);
      RoundUpBounds(f.size, f.align);
    case Scalar(kind, _, bits) =>
      var l := ScalarLayout(kind, bits, target);
      if kind.Float? && l.align > 0 {
        RoundUpBounds(bits / 8, l.align);
      }
    case _ =>
  }

  lemma {:induction false} MembersAreLaidOut(ss: Shapes, target: Target)
    requires Sane(target) && AllHaveWidths(ss) && AllBuildable(ss, target) && AllObjects(ss)
    ensures FoldMembers(ss, target).unknown <==> AnyWaits(ss)
    ensures AnyUnknown(ss, target) <==> AnyWaits(ss)
    ensures ss.More? && !AnyWaits(ss) ==> FoldMembers(ss, target).size > 0
  {
    match ss
    case NoShapes =>
    case More(init, last) =>
      MembersAreLaidOut(init, target);
      ObjectsAreLaidOut(last, target);
  }

  // --- which products are refused ----------------------------------------------------------------------

  /** Every member is known, is no nothing, and is aligned to a divisor of 2^64, as every power of two up to it is. */
  predicate Placeable(ss: Shapes, target: Target) {
    match ss
    case NoShapes => true
    case More(init, last) =>
      var l := LayoutOf(last, target);
      Placeable(init, target) && !l.unknownSize && l.size > 0 && l.align > 0 && WORD % l.align == 0
  }

  /**
   * The step-by-step test of a product's size refuses exactly the products whose size is no 64-bit number, whatever
   * the intermediate sums.
   */
  lemma ProductsFitExactly(members: Shapes, target: Target)
    requires Placeable(members, target)
    ensures TupleFits(members, target) <==> LayoutOf(TupleOf(members), target).size < WORD
  {
    var f := FoldMembers(members, target);
    PlaceableIsKnown(members, target);
    RoundUpBounds(f.size, f.align);
    if RoundUp(f.size, f.align) < WORD {
      MultiplesKeepApart(RoundUp(f.size, f.align), WORD, f.align);
      SmallProductsFit(members, target);
    }
  }

  /** An array is refused exactly when it holds nothing or its size is no 64-bit number. */
  lemma ArraysFitExactly(count: nat, element: Shape, target: Target)
    requires Sane(target) && HasWidths(element) && Buildable(element, target)
    requires IsObject(element) && !LayoutOf(element, target).unknownSize
    ensures Admissible(ArrayOf(count, element), target) <==>
            count > 0 && LayoutOf(ArrayOf(count, element), target).size < 0x1_0000_0000_0000_0000
  {
    ObjectsAreLaidOut(element, target);
  }

  lemma {:induction false} PlaceableIsKnown(members: Shapes, target: Target)
    requires Placeable(members, target)
    ensures !FoldMembers(members, target).unknown && WORD % FoldMembers(members, target).align == 0
  {
    if members.More? {
      PlaceableIsKnown(members.init, target);
    }
  }

  lemma {:induction false} SmallProductsFit(members: Shapes, target: Target)
    requires Placeable(members, target) && FoldMembers(members, target).size < WORD
    ensures MembersFit(members, target)
  {
    match members
    case NoShapes =>
    case More(init, last) =>
      var f, l := FoldMembers(init, target), LayoutOf(last, target);
      PlaceableIsKnown(init, target);
      RoundUpBounds(f.size, l.align);
      MultiplesKeepApart(RoundUp(f.size, l.align), WORD, l.align);
      SmallProductsFit(init, target);
  }

  // --- no padding but what alignment asks for -------------------------------------------------------------

  /**
   * The first member starts the product, each further one leaves less than its own alignment free in front
   * of it, and the end less than the product's.
   */
  lemma OffsetsAreTight(members: Shapes, i: nat, target: Target)
    requires i < Count(members) && !FoldMembers(members, target).unknown
    ensures var l := LayoutOf(At(members, i), target);
            var end := Offset(members, i, target) + l.size;
            && Offset(members, 0, target) == 0
            && (i + 1 < Count(members) ==>
                Offset(members, i + 1, target) < end + LayoutOf(At(members, i + 1), target).align)
            && (i + 1 == Count(members) ==>
                  LayoutOf(TupleOf(members), target).size < end + LayoutOf(TupleOf(members), target).align)
  {
    PrefixIsNothing(members);
    PrefixStep(members, i);
    FoldGrows(members, i, target);
    FoldGrows(members, i + 1, target);
    var first := LayoutOf(At(members, 0), target).align;
    RoundsToItself(0, if first == 0 then 1 else first);
    if i + 1 < Count(members) {
      PrefixStep(members, i + 1);
      FoldGrows(members, i + 2, target);
      RoundUpBounds(FoldMembers(Prefix(members, i + 1), target).size, LayoutOf(At(members, i + 1), target).align);
    } else {
      var f := FoldMembers(members, target);
      RoundUpBounds(f.size, f.align);
    }
  }

  lemma {:induction false} PrefixIsNothing(members: Shapes)
    ensures Prefix(members, 0) == NoShapes
  {
    if members.More? {
      PrefixIsNothing(members.init);
    }
  }

  /** A product is aligned like its strictest member. */
  lemma {:induction false} AlignedLikeTheStrictest(members: Shapes, target: Target)
    requires members.More? && !FoldMembers(members, target).unknown
    ensures var align := LayoutOf(TupleOf(members), target).align;
            && (forall i :: 0 <= i < Count(members) ==> LayoutOf(At(members, i), target).align <= align)
            && (exists i :: 0 <= i < Count(members) && LayoutOf(At(members, i), target).align == align)
  {
    var n, l := Count(members) - 1, LayoutOf(members.last, target);
    assert At(members, n) == members.last;
    assert forall i :: 0 <= i < n ==> At(members, i) == At(members.init, i);
    if members.init.More? {
      AlignedLikeTheStrictest(members.init, target);
      var k :| 0 <= k < n && LayoutOf(At(members.init, k), target).align == FoldMembers(members.init, target).align;
      assert At(members, k) == At(members.init, k);
    }
  }

  // --- how many types ---------------------------------------------------------------------------------------

  /** A structure and all its parts, a part as often as it is spelled out. */
  function Parts(s: Shape): seq<Shape> {
    [s] +
    match s
    case PointerTo(pointee) => Parts(pointee)
    case ArrayOf(_, element) => Parts(element)
    case SliceOf(element) => Parts(element)
    case TupleOf(members) => PartsOfAll(members)
    case FunctionOf(result, params, _) => Parts(result) + PartsOfAll(params)
    case _ => []
  }

  function PartsOfAll(ss: Shapes): seq<Shape> {
    match ss
    case NoShapes => []
    case More(init, last) => PartsOfAll(init) + Parts(last)
  }

  /** The stored number of nodes is the number of types a walk of the whole structure meets. */
  lemma {:induction false} NodesAreParts(s: Shape)
    ensures NodesOf(s) == |Parts(s)|
  {
    match s
    case PointerTo(pointee) => NodesAreParts(pointee);
    case ArrayOf(_, element) => NodesAreParts(element);
    case SliceOf(element) => NodesAreParts(element);
    case TupleOf(members) => NodesOfAllAreParts(members);
    case FunctionOf(result, params, _) =>
      NodesAreParts(result);
      NodesOfAllAreParts(params);
    case _ =>
  }

  lemma {:induction false} NodesOfAllAreParts(ss: Shapes)
    ensures NodesOfAll(ss) == |PartsOfAll(ss)|
  {
    match ss
    case NoShapes =>
    case More(init, last) =>
      NodesOfAllAreParts(init);
      NodesAreParts(last);
  }

  /**
   * What asking for a structure answers: no type exactly when its builder's rule refuses it, when it is made of
   * more than 65536 types, or when it is new and there is no room; and a type that spells it otherwise.
   */
  lemma BuiltExactlyWhen(tb: Table, max: nat, target: Target, shape: Shape, id: TypeId, tb': Table)
    requires Sound(tb, target) && max <= INVALID && Built(tb, max, target, shape, id, tb')
    ensures id == 0xFFFF_FFFF <==>
            !Admissible(shape, target) || |Parts(shape)| > 65536 || (!Spelled(tb, shape) && |tb.types| >= max)
    ensures id != 0xFFFF_FFFF ==> Known(tb', id) && Unfold(tb', id) == shape
  {
    NodesAreParts(shape);
  }
}
