/** What the store (src/sema/type_store.cc) reads off a table, and what appending to one keeps. */
module TypeInterning {
  import opened MachineWords
  import opened TypeShapes
  import opened TypeTable

  // --- reading a table --------------------------------------------------------------------

  function LayoutAt(tb: Table, id: TypeId): Layout {
    if Known(tb, id) then tb.types[id].layout else NO_OBJECT
  }

  function NodesAt(tb: Table, id: TypeId): nat {
    if Known(tb, id) then tb.types[id].nodes else 1
  }

  predicate IsObjectAt(tb: Table, id: TypeId) {
    Known(tb, id) &&
    var kind := tb.types[id].kind;
    kind.Array? || kind.Slice? || kind.Tuple? || kind.Param? ||
    kind.Int? || kind.Float? || kind.Char? || kind.Bool? || kind.Str? || kind.Pointer?
  }

  function NodesSum(tb: Table, ids: seq<TypeId>): nat {
    if ids == [] then 0 else NodesSum(tb, ids[..|ids| - 1]) + NodesAt(tb, ids[|ids| - 1])
  }

  ghost predicate HeldAll(tb: Table, ids: seq<TypeId>) {
    Children(ids, |tb.types|)
  }

  /** The trees of a list of held types. */
  ghost function Trees(tb: Table, ids: seq<TypeId>): Shapes {
    BelowAll(tb, ids, |tb.types|)
  }

  lemma HeldIsBelow(tb: Table, target: Target, id: TypeId, bound: nat)
    requires Sound(tb, target) && bound <= |tb.types| && Child(id, bound)
    ensures Below(tb, id, bound) == Unfold(tb, id)
    ensures LayoutAt(tb, id) == LayoutOf(Unfold(tb, id), target)
    ensures NodesAt(tb, id) == NodesOf(Unfold(tb, id))
    ensures IsObjectAt(tb, id) == IsObject(Unfold(tb, id))
  {
    if Known(tb, id) {
      assert SoundRecord(tb.types[id], Unfold(tb, id), target);
    }
  }

  lemma {:induction false} NodesOfParts(tb: Table, target: Target, ids: seq<TypeId>)
    requires Sound(tb, target) && HeldAll(tb, ids)
    ensures NodesSum(tb, ids) == NodesOfAll(Trees(tb, ids))
    ensures Count(Trees(tb, ids)) == |ids|
  {
    if ids != [] {
      NodesOfParts(tb, target, ids[..|ids| - 1]);
      HeldIsBelow(tb, target, ids[|ids| - 1], |tb.types|);
    }
  }

  /** A list read below a smaller bound it respects is the same list. */
  lemma {:induction false} SameBelow(tb: Table, target: Target, ids: seq<TypeId>, bound: nat)
    requires Sound(tb, target) && bound <= |tb.types| && Children(ids, bound)
    ensures BelowAll(tb, ids, bound) == Trees(tb, ids)
  {
    if ids != [] {
      var last := ids[|ids| - 1];
      SameBelow(tb, target, ids[..|ids| - 1], bound);
      HeldIsBelow(tb, target, last, bound);
      HeldIsBelow(tb, target, last, |tb.types|);
    }
  }

  lemma TreesSnoc(tb: Table, ids: seq<TypeId>, i: nat)
    requires i < |ids|
    ensures Trees(tb, ids[..i + 1]) == More(Trees(tb, ids[..i]), Below(tb, ids[i], |tb.types|))
  {
    assert ids[..i + 1][..i] == ids[..i];
  }

  // --- what every builder promises --------------------------------------------------------

  ghost predicate Spelled(tb: Table, shape: Shape) {
    exists i :: 0 <= i < |tb.types| && Unfold(tb, i) == shape
  }

  /**
   * Asked for `shape` in the table `tb`: refused when the builder's rule or the size bound says so;
   * the one id that spells it when there is one; otherwise a new id, or no id at the budget.
   */
  ghost predicate Built(tb: Table, max: nat, target: Target, shape: Shape, id: TypeId, tb': Table) {
    if !Admissible(shape, target) || NodesOf(shape) > MAX_NODES then
      id == INVALID && tb' == tb
    else if Spelled(tb, shape) then
      Known(tb, id) && Unfold(tb, id) == shape && tb' == tb
    else if |tb.types| >= max then
      id == INVALID && tb' == tb
    else
      id == |tb.types| && |tb'.types| == id + 1 && Extends(tb, tb') && Unfold(tb', id) == shape
  }

  /** `tb'` is the table with one more record, whose members are `parts`; no row already there changes. */
  ghost predicate Appended(tb: Table, tb': Table, stored: Type, parts: seq<TypeId>) {
    tb'.types == tb.types + [stored] && tb.rows <= tb'.rows && PartsOf(tb', stored) == parts
  }

  /** What a record must be for the table to take it. */
  ghost predicate Appendable(tb: Table, target: Target, stored: Type, parts: seq<TypeId>) {
    && |tb.types| < INVALID
    && LinkedRecord(stored, parts, |tb.types|)
    && SoundRecord(stored, ShapeOf(tb, stored, parts, |tb.types|), target)
    && (forall i :: 0 <= i < |tb.types| ==>
          !(Identity(tb.types[i]) == Identity(stored) && PartsOf(tb, tb.types[i]) == parts))
  }

  lemma AppendedKeeps(tb: Table, tb': Table, stored: Type, parts: seq<TypeId>, i: nat)
    requires AllLinked(tb) && i < |tb.types| && Appended(tb, tb', stored, parts)
    ensures tb'.types[i] == tb.types[i] && PartsOf(tb', tb.types[i]) == PartsOf(tb, tb.types[i])
    ensures Unfold(tb', i) == Unfold(tb, i)
  {
    UnfoldStable(tb, tb', i);
  }

  lemma AppendedAdds(tb: Table, tb': Table, target: Target, stored: Type, parts: seq<TypeId>)
    requires Sound(tb, target) && Appendable(tb, target, stored, parts) && Appended(tb, tb', stored, parts)
    ensures Unfold(tb', |tb.types|) == ShapeOf(tb, stored, parts, |tb.types|)
  {
    var n := |tb.types|;
    BelowStable(tb, tb', stored.pointee, n);
    BelowStable(tb, tb', stored.returnType, n);
    BelowAllStable(tb, tb', parts, n);
    assert tb'.types[n] == stored;
  }

  /** Appending a record nothing in the table equals keeps the table sound. */
  lemma Append(tb: Table, tb': Table, target: Target, stored: Type, parts: seq<TypeId>)
    requires Sound(tb, target) && Appendable(tb, target, stored, parts) && Appended(tb, tb', stored, parts)
    ensures Sound(tb', target)
  {
    var n := |tb.types|;
    AppendedAdds(tb, tb', target, stored, parts);
    forall i | 0 <= i <= n
      ensures LinkedRecord(tb'.types[i], PartsOf(tb', tb'.types[i]), i)
      ensures SoundRecord(tb'.types[i], Unfold(tb', i), target)
    {
      if i < n {
        AppendedKeeps(tb, tb', stored, parts, i);
      }
    }
    forall i, j | 0 <= i < j <= n ensures !SameType(tb', i, j) {
      AppendedKeeps(tb, tb', stored, parts, i);
      if j < n {
        AppendedKeeps(tb, tb', stored, parts, j);
        assert !SameType(tb, i, j);
      }
    }
  }

  /** A record's tree does not depend on how far above its children it is read. */
  lemma RecordShape(tb: Table, target: Target, t: Type, parts: seq<TypeId>, bound: nat)
    requires Sound(tb, target) && bound <= |tb.types| && LinkedRecord(t, parts, bound)
    ensures ShapeOf(tb, t, parts, bound) == ShapeOf(tb, t, parts, |tb.types|)
  {
    HeldIsBelow(tb, target, t.pointee, bound);
    HeldIsBelow(tb, target, t.pointee, |tb.types|);
    HeldIsBelow(tb, target, t.returnType, bound);
    HeldIsBelow(tb, target, t.returnType, |tb.types|);
    SameBelow(tb, target, parts, bound);
  }

  predicate Matches(tb: Table, t: Type, parts: seq<TypeId>, i: TypeId)
    requires i < |tb.types|
  {
    EqualFields(tb.types[i], t) && PartsOf(tb, tb.types[i]) == parts
  }

  ghost predicate NoneIn(tb: Table, t: Type, parts: seq<TypeId>, candidates: seq<TypeId>) {
    forall c <- candidates :: c < |tb.types| && !Matches(tb, t, parts, c)
  }

  /** The fields and parts the search compares are exactly the tree. */
  lemma SearchFindsTheTree(tb: Table, target: Target, t: Type, parts: seq<TypeId>, i: TypeId)
    requires Sound(tb, target) && LinkedRecord(t, parts, |tb.types|) && i < |tb.types|
    ensures Matches(tb, t, parts, i) <==> Unfold(tb, i) == ShapeOf(tb, t, parts, |tb.types|)
  {
    var n, u, qs := |tb.types|, tb.types[i], PartsOf(tb, tb.types[i]);
    assert LinkedRecord(u, qs, i);
    if EqualFields(u, t) && qs == parts {
      RecordShape(tb, target, u, qs, i);
    }
    if Unfold(tb, i) == ShapeOf(tb, t, parts, n) {
      SameChild(tb, target, u.pointee, t.pointee, i, n);
      SameChild(tb, target, u.returnType, t.returnType, i, n);
      SameParts(tb, target, qs, parts, i, n);
      SameRecord(tb, u, t, qs, parts, i, n);
    }
  }

  // --- laying a record out ------------------------------------------------------------------

  lemma {:induction false} UnknownStays(tb: Table, target: Target, ids: seq<TypeId>, i: nat)
    requires i <= |ids| && FoldMembers(Trees(tb, ids[..i]), target).unknown
    ensures FoldMembers(Trees(tb, ids), target).unknown
  {
    if i < |ids| {
      assert ids[..|ids| - 1][..i] == ids[..i];
      UnknownStays(tb, target, ids[..|ids| - 1], i);
    } else {
      assert ids[..i] == ids;
    }
  }

  lemma {:induction false} UnfitStays(tb: Table, target: Target, ids: seq<TypeId>, i: nat)
    requires i <= |ids| && !MembersFit(Trees(tb, ids[..i]), target)
    ensures !MembersFit(Trees(tb, ids), target)
  {
    if i < |ids| {
      assert ids[..|ids| - 1][..i] == ids[..i];
      UnfitStays(tb, target, ids[..|ids| - 1], i);
    } else {
      assert ids[..i] == ids;
    }
  }

  lemma {:induction false} UnknownMember(ss: Shapes, target: Target)
    ensures AnyUnknown(ss, target) ==> FoldMembers(ss, target).unknown
  {
    match ss
    case NoShapes =>
    case More(init, _) => UnknownMember(init, target);
  }

  /** A division bounds a product exactly: `count > max / size` is the overflow test. */
  lemma DivisionTest(count: nat, size: nat)
    requires size > 0
    ensures count > (WORD - 1) / size <==> count * size >= WORD
  {
    var q := (WORD - 1) / size;
    assert WORD - 1 == q * size + (WORD - 1) % size;
    if count > q {
      Monotone(q + 1, count, size);
      assert (q + 1) * size == q * size + size;
    } else {
      Monotone(count, q, size);
    }
  }

  lemma Monotone(a: nat, b: nat, c: nat)
    requires a <= b
    ensures a * c <= b * c
  {
    Multiple(b - a, c);
    assert (b - a) * c == b * c - a * c;
  }

  /** One member of a product on a 64-bit machine: the padding before it, and then itself. */
  function PadTo(size: U64, align: nat): U64
    requires align > 0
  {
    (size + align - 1) % WORD / align * align % WORD
  }

  lemma PadToIsRoundUp(size: U64, align: nat)
    requires align > 0 && size + (align - 1) < WORD
    ensures PadTo(size, align) == RoundUp(size, align) < WORD
  {
    var n := size + align - 1;
    assert n == n / align * align + n % align;
    assert n % WORD == n;
  }

  /** While the members fit, the wrapped arithmetic is the exact arithmetic. */
  lemma AddsOneMember(tb: Table, target: Target, ids: seq<TypeId>, i: nat, size: U64)
    requires Sound(tb, target) && HeldAll(tb, ids) && i < |ids|
    requires LayoutAt(tb, ids[i]).align > 0
    requires MembersFit(Trees(tb, ids), target) ==> size == FoldMembers(Trees(tb, ids[..i]), target).size
    ensures MembersFit(Trees(tb, ids), target) ==>
              (PadTo(size, LayoutAt(tb, ids[i]).align) + LayoutAt(tb, ids[i]).size) % WORD
              == FoldMembers(Trees(tb, ids[..i + 1]), target).size
  {
    if MembersFit(Trees(tb, ids), target) {
      var l := LayoutAt(tb, ids[i]);
      TreesSnoc(tb, ids, i);
      HeldIsBelow(tb, target, ids[i], |tb.types|);
      if !MembersFit(Trees(tb, ids[..i + 1]), target) {
        UnfitStays(tb, target, ids, i + 1);
      }
      PadToIsRoundUp(size, l.align);
      Small(PadTo(size, l.align) + l.size);
    }
  }

  /** The member loop stands at member `i`: no width is missing so far, and the numbers are exact if all of them fit. */
  ghost predicate Folding(tb: Table, target: Target, ids: seq<TypeId>, i: nat, size: U64, align: U16) {
    && i <= |ids|
    && var f := FoldMembers(Trees(tb, ids[..i]), target);
       !f.unknown && align == f.align && (MembersFit(Trees(tb, ids), target) ==> size == f.size)
  }

  /** One turn of the member loop: it stops with the layout, or goes on. */
  lemma FoldOne(tb: Table, target: Target, ids: seq<TypeId>, i: nat, size: U64, align: U16)
    requires Sound(tb, target) && HeldAll(tb, ids) && Folding(tb, target, ids, i, size, align) && i < |ids|
    ensures var m := LayoutAt(tb, ids[i]);
            if m.unknownSize || m.align == 0 then LayoutOf(TupleOf(Trees(tb, ids)), target) == Layout(0, 1, true)
            else Folding(tb, target, ids, i + 1, (PadTo(size, m.align) + m.size) % WORD,
                if align < m.align then m.align else align)
  {
    TreesSnoc(tb, ids, i);
    HeldIsBelow(tb, target, ids[i], |tb.types|);
    var m := LayoutAt(tb, ids[i]);
    if m.unknownSize || m.align == 0 {
      UnknownStays(tb, target, ids, i + 1);
    } else {
      AddsOneMember(tb, target, ids, i, size);
    }
  }

  lemma FoldedIsLayout(tb: Table, target: Target, ids: seq<TypeId>, size: U64, align: U16)
    requires Folding(tb, target, ids, |ids|, size, align)
    requires var members := Trees(tb, ids); AnyUnknown(members, target) || TupleFits(members, target)
    ensures align > 0 && Layout(PadTo(size, align), align, false) == LayoutOf(TupleOf(Trees(tb, ids)), target)
  {
    assert ids[..|ids|] == ids;
    UnknownMember(Trees(tb, ids), target);
    PadToIsRoundUp(size, align);
  }

  lemma Small(n: nat)
    ensures n < WORD ==> n % WORD == n
  {}

  // --- counting a record's types --------------------------------------------------------------

  predicate HasElement(t: Type) { t.kind.Pointer? || t.kind.Array? || t.kind.Slice? }

  /** The children a record holds outside its member list. */
  function SingleChild(t: Type): seq<TypeId> {
    if HasElement(t) then [t.pointee] else if t.kind.Function? then [t.returnType] else []
  }

  lemma {:induction false} NodesSumGrows(tb: Table, ids: seq<TypeId>, i: nat)
    requires i <= |ids|
    ensures NodesSum(tb, ids[..i]) <= NodesSum(tb, ids)
  {
    if i < |ids| {
      NodesSumGrows(tb, ids[..|ids| - 1], i);
      assert ids[..|ids| - 1][..i] == ids[..i];
    } else {
      assert ids[..i] == ids;
    }
  }

  lemma NodesOfOne(tb: Table, target: Target, id: TypeId)
    requires Sound(tb, target) && Child(id, |tb.types|)
    ensures NodesSum(tb, [id]) == NodesOf(Below(tb, id, |tb.types|))
  {
    HeldIsBelow(tb, target, id, |tb.types|);
    assert [id][..0] == [];
  }

  /** The tree of a record with one child outside its member list. */
  lemma NodesOverElement(tb: Table, t: Type, parts: seq<TypeId>, bound: nat)
    requires HasElement(t)
    ensures NodesOf(ShapeOf(tb, t, parts, bound)) == 1 + NodesOf(Below(tb, t.pointee, bound))
  {}

  lemma ElementNodes(tb: Table, target: Target, t: Type, parts: seq<TypeId>)
    requires Sound(tb, target) && LinkedRecord(t, parts, |tb.types|) && HasElement(t)
    ensures 1 + NodesSum(tb, SingleChild(t)) + NodesSum(tb, parts) == NodesOf(ShapeOf(tb, t, parts, |tb.types|))
  {
    NoParts(t, parts, |tb.types|);
    NodesOfOne(tb, target, t.pointee);
    NodesOverElement(tb, t, parts, |tb.types|);
  }

  lemma RowNodes(tb: Table, target: Target, t: Type, parts: seq<TypeId>)
    requires Sound(tb, target) && LinkedRecord(t, parts, |tb.types|) && (t.kind.Tuple? || t.kind.Function?)
    ensures 1 + NodesSum(tb, SingleChild(t)) + NodesSum(tb, parts) == NodesOf(ShapeOf(tb, t, parts, |tb.types|))
  {
    NodesOfParts(tb, target, parts);
    if t.kind.Function? {
      NodesOfOne(tb, target, t.returnType);
    }
  }

  lemma NodesOfRecord(tb: Table, target: Target, t: Type, parts: seq<TypeId>)
    requires Sound(tb, target) && LinkedRecord(t, parts, |tb.types|)
    ensures 1 + NodesSum(tb, SingleChild(t)) + NodesSum(tb, parts) == NodesOf(ShapeOf(tb, t, parts, |tb.types|))
  {
    if HasElement(t) {
      ElementNodes(tb, target, t, parts);
    } else if t.kind.Tuple? || t.kind.Function? {
      RowNodes(tb, target, t, parts);
    } else {
      NoParts(t, parts, |tb.types|);
    }
  }

  /** Only products and signatures have a row. */
  lemma NoParts(t: Type, parts: seq<TypeId>, bound: nat)
    requires LinkedRecord(t, parts, bound)
    ensures !t.kind.Tuple? && !t.kind.Function? ==> parts == []
  {}

  // --- the index ------------------------------------------------------------------------------

  type Hash = (Type, seq<TypeId>) -> nat

  function BucketOf(index: map<nat, seq<TypeId>>, h: nat): seq<TypeId> {
    if h in index then index[h] else []
  }

  /** Every type is filed under its hash, and nothing else is filed. */
  ghost predicate Filed(tb: Table, index: map<nat, seq<TypeId>>, hash: Hash) {
    && (forall h, k :: h in index && 0 <= k < |index[h]| ==> index[h][k] < |tb.types|)
    && (forall i :: 0 <= i < |tb.types| ==>
          i in BucketOf(index, hash(Identity(tb.types[i]), PartsOf(tb, tb.types[i]))))
  }

  /** When none filed under the record's hash matches it, no type spells the tree. */
  lemma NoneSpellsIt(tb: Table, target: Target, t: Type, parts: seq<TypeId>, index: map<nat, seq<TypeId>>, hash: Hash)
    requires Sound(tb, target) && LinkedRecord(t, parts, |tb.types|) && Filed(tb, index, hash)
    requires NoneIn(tb, t, parts, BucketOf(index, hash(Identity(t), parts)))
    ensures !Spelled(tb, ShapeOf(tb, t, parts, |tb.types|))
  {
    forall i | 0 <= i < |tb.types| ensures Unfold(tb, i) != ShapeOf(tb, t, parts, |tb.types|) {
      SearchFindsTheTree(tb, target, t, parts, i);
    }
  }

  /** A record for a tree no type spells may be appended. */
  lemma NewRecord(tb: Table, target: Target, t: Type, stored: Type, parts: seq<TypeId>)
    requires Sound(tb, target) && |tb.types| < INVALID && LinkedRecord(t, parts, |tb.types|)
    requires !Spelled(tb, ShapeOf(tb, t, parts, |tb.types|))
    requires Identity(stored) == Identity(t)
    requires SoundRecord(stored, ShapeOf(tb, t, parts, |tb.types|), target)
    ensures Appendable(tb, target, stored, parts)
    ensures ShapeOf(tb, stored, parts, |tb.types|) == ShapeOf(tb, t, parts, |tb.types|)
  {
    forall i | 0 <= i < |tb.types|
      ensures !(Identity(tb.types[i]) == Identity(stored) && PartsOf(tb, tb.types[i]) == parts)
    {
      SearchFindsTheTree(tb, target, t, parts, i);
    }
  }

  lemma FileOne(tb: Table, tb': Table, target: Target, stored: Type, parts: seq<TypeId>, index: map<nat, seq<TypeId>>,
                hash: Hash)
    requires Sound(tb, target) && Appendable(tb, target, stored, parts) && Appended(tb, tb', stored, parts)
    requires Filed(tb, index, hash)
    ensures var h := hash(Identity(stored), parts);
            Filed(tb', index[h := BucketOf(index, h) + [|tb.types|]], hash)
  {
    var h := hash(Identity(stored), parts);
    var index' := index[h := BucketOf(index, h) + [|tb.types|]];
    assert index'[h][|BucketOf(index, h)|] == |tb.types|;
    forall i | 0 <= i <= |tb.types|
      ensures i in BucketOf(index', hash(Identity(tb'.types[i]), PartsOf(tb', tb'.types[i])))
    {
      if i < |tb.types| {
        AppendedKeeps(tb, tb', stored, parts, i);
      }
    }
  }

  // --- products in the table --------------------------------------------------------------------

  lemma {:induction false} NoObjectStays(tb: Table, ids: seq<TypeId>, i: nat)
    requires i <= |ids| && !AllObjects(Trees(tb, ids[..i]))
    ensures !AllObjects(Trees(tb, ids))
  {
    if i < |ids| {
      assert ids[..|ids| - 1][..i] == ids[..i];
      NoObjectStays(tb, ids[..|ids| - 1], i);
    } else {
      assert ids[..i] == ids;
    }
  }

  lemma TupleIsItsRow(tb: Table, target: Target, id: TypeId)
    requires Sound(tb, target) && Known(tb, id) && tb.types[id].kind.Tuple?
    ensures var members := PartsOf(tb, tb.types[id]);
            && HeldAll(tb, members) && |members| == tb.types[id].paramCount
            && Unfold(tb, id) == TupleOf(Trees(tb, members)) && Count(Trees(tb, members)) == |members|
  {
    var members := PartsOf(tb, tb.types[id]);
    assert LinkedRecord(tb.types[id], members, id);
    SameBelow(tb, target, members, id);
    NodesOfParts(tb, target, members);
  }

  lemma {:induction false} TreesAt(tb: Table, target: Target, ids: seq<TypeId>, i: nat)
    requires Sound(tb, target) && HeldAll(tb, ids) && i < |ids|
    ensures Count(Trees(tb, ids)) == |ids| && At(Trees(tb, ids), i) == Unfold(tb, ids[i])
    ensures Prefix(Trees(tb, ids), i) == Trees(tb, ids[..i])
  {
    NodesOfParts(tb, target, ids);
    var n := |ids| - 1;
    HeldIsBelow(tb, target, ids[n], |tb.types|);
    if i < n {
      TreesAt(tb, target, ids[..n], i);
      assert ids[..n][..i] == ids[..i];
    }
  }

  ghost predicate LaidOut(tb: Table, id: TypeId) { !LayoutAt(tb, id).unknownSize }

  /** At each member of a laid-out product the wrapped arithmetic is the exact arithmetic. */
  lemma OffsetStep(tb: Table, target: Target, id: TypeId, members: seq<TypeId>, i: nat, size: U64)
    requires Sound(tb, target) && Known(tb, id) && tb.types[id].kind.Tuple? && members == PartsOf(tb, tb.types[id])
    requires HeldAll(tb, members) && Unfold(tb, id) == TupleOf(Trees(tb, members)) && i < |members|
    requires LaidOut(tb, id) && size == FoldMembers(Trees(tb, members[..i]), target).size
    ensures var l := LayoutAt(tb, members[i]);
            && l.align > 0 && Count(Trees(tb, members)) == |members|
            && PadTo(size, l.align) == Offset(Trees(tb, members), i, target)
            && (PadTo(size, l.align) + l.size) % WORD == FoldMembers(Trees(tb, members[..i + 1]), target).size
  {
    var l, whole := LayoutAt(tb, members[i]), Trees(tb, members);
    assert SoundRecord(tb.types[id], Unfold(tb, id), target);
    UnknownMember(whole, target);
    assert MembersFit(whole, target);
    if !MembersFit(Trees(tb, members[..i + 1]), target) {
      UnfitStays(tb, target, members, i + 1);
    }
    TreesSnoc(tb, members, i);
    TreesAt(tb, target, members, i);
    HeldIsBelow(tb, target, members[i], |tb.types|);
    PadToIsRoundUp(size, l.align);
    AddsOneMember(tb, target, members, i, size);
  }

  /** The layout of a record that is no product, from its element's; wraps where 64 bits would. */
  function DirectLayout(t: Type, element: Layout, target: Target): Layout {
    match t.kind
    case Pointer => Layout(target.pointerBits / 8, target.pointerBits / 8, false)
    case Slice => Layout(target.pointerBits / 8 * 2, target.pointerBits / 8, false)
    case Array => Layout(if element.unknownSize then 0 else t.count * element.size % WORD, element.align,
        element.unknownSize)
    case Tuple => Layout(0, 1, false)
    case Function => NO_OBJECT
    case Param => Layout(0, 1, true)
    case _ => ScalarLayout(t.kind, t.bits, target)
  }

  lemma ScalarIsSmall(kind: TypeKind, bits: U16, target: Target)
    ensures ScalarLayout(kind, bits, target).size < WORD
  {
    var align := ScalarLayout(kind, bits, target).align;
    if kind.Float? && align > 0 {
      RoundUpBounds(bits / 8, align);
    }
  }

  lemma DirectLayoutIsExact(tb: Table, target: Target, t: Type, parts: seq<TypeId>)
    requires Sound(tb, target) && LinkedRecord(t, parts, |tb.types|) && !t.kind.Tuple?
    requires Admissible(ShapeOf(tb, t, parts, |tb.types|), target)
    ensures var l := DirectLayout(t, LayoutAt(tb, t.pointee), target);
            l == LayoutOf(ShapeOf(tb, t, parts, |tb.types|), target) && l.size < WORD
  {
    HeldIsBelow(tb, target, t.pointee, |tb.types|);
    if t.kind.Array? {
      Small(t.count * LayoutAt(tb, t.pointee).size);
    } else {
      ScalarIsSmall(t.kind, t.bits, target);
    }
  }
}
