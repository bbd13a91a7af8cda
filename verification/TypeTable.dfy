/** The store's table (include/sema/type.h, src/sema/type_store.cc): records, rows, and the trees they unfold to. */
module TypeTable {
  import opened MachineWords
  import opened TypeShapes

  /** A `TypeId`; `INVALID` is `kInvalidType`. */
  type TypeId = nat
  const INVALID: TypeId := 0xFFFF_FFFF
  const INVALID_FILE: nat := 0xFFFF_FFFF
  const MAX_NODES := 65536

  datatype ConstraintClass = Any | Eq | Ordered | Number | IntegerOnly | FloatOnly | PointerOnly

  /**
   * One record. The first line is identity; the row index, node count and layout are derived, and
   * the spelling and class of a parameter are facts beside it.
   */
  datatype Type = Type(
    kind: TypeKind, isSigned: bool, bits: U16, pointee: TypeId, count: U64, returnType: TypeId,
    paramCount: nat, variadic: bool, unit: nat, owner: nat, binder: nat,
    sequence: nat, nodes: nat, layout: Layout, spelling: string, klass: ConstraintClass)

  function Blank(kind: TypeKind): Type {
    Type(kind, false, 0, INVALID, 0, INVALID, 0, false, INVALID_FILE, 0, 0, 0, 1, Layout(0, 1, false), "", Any)
  }

  /** A record with everything but its identity put back to the defaults. */
  function Identity(t: Type): Type {
    t.(sequence := 0, nodes := 1, layout := Layout(0, 1, false), spelling := "", klass := Any)
  }

  predicate EqualFields(a: Type, b: Type) {
    && a.kind == b.kind && a.isSigned == b.isSigned && a.bits == b.bits
    && a.pointee == b.pointee && a.count == b.count && a.returnType == b.returnType
    && a.variadic == b.variadic && a.paramCount == b.paramCount
    && a.owner == b.owner && a.binder == b.binder && a.unit == b.unit
  }

  /** Fields a kind does not use keep their defaults. */
  predicate Normal(t: Type) { Identity(t) == Used(t) }

  /** The fields of the kind, and nothing else. */
  function Used(t: Type): Type {
    match t.kind
    case Pointer => Blank(Pointer).(pointee := t.pointee)
    case Array => Blank(Array).(pointee := t.pointee, count := t.count)
    case Slice => Blank(Slice).(pointee := t.pointee)
    case Tuple => Blank(Tuple).(paramCount := t.paramCount)
    case Function => Blank(Function).(returnType := t.returnType, paramCount := t.paramCount, variadic := t.variadic)
    case Param => Blank(Param).(unit := t.unit, owner := t.owner, binder := t.binder)
    case _ => Blank(t.kind).(isSigned := t.isSigned, bits := t.bits)
  }

  datatype Table = Table(types: seq<Type>, rows: seq<seq<TypeId>>)

  predicate Known(tb: Table, id: TypeId) { id < |tb.types| }

  function PartsOf(tb: Table, t: Type): seq<TypeId> {
    if t.paramCount == 0 || t.sequence >= |tb.rows| then [] else tb.rows[t.sequence]
  }

  // --- unfolding ---------------------------------------------------------------------------

  /** The tree a type spells out; a link that does not point backwards is `Missing`. */
  ghost function Unfold(tb: Table, id: TypeId): Shape
    decreases id, 1
  {
    if !Known(tb, id) then Missing else ShapeOf(tb, tb.types[id], PartsOf(tb, tb.types[id]), id)
  }

  /** The tree of a record whose children stand below `bound`. */
  ghost function ShapeOf(tb: Table, t: Type, parts: seq<TypeId>, bound: nat): Shape
    decreases bound, 0, |parts| + 1
  {
    match t.kind
    case Pointer => PointerTo(Below(tb, t.pointee, bound))
    case Array => ArrayOf(t.count, Below(tb, t.pointee, bound))
    case Slice => SliceOf(Below(tb, t.pointee, bound))
    case Tuple => TupleOf(BelowAll(tb, parts, bound))
    case Function => FunctionOf(Below(tb, t.returnType, bound), BelowAll(tb, parts, bound), t.variadic)
    case Param => ParamOf(t.unit, t.owner, t.binder)
    case _ => Scalar(t.kind, t.isSigned, t.bits)
  }

  ghost function Below(tb: Table, id: TypeId, bound: nat): Shape
    decreases bound, 0, 0
  {
    if id < bound then Unfold(tb, id) else Missing
  }

  ghost function BelowAll(tb: Table, parts: seq<TypeId>, bound: nat): Shapes
    decreases bound, 0, |parts|
  {
    if parts == [] then NoShapes
    else More(BelowAll(tb, parts[..|parts| - 1], bound), Below(tb, parts[|parts| - 1], bound))
  }

  // --- the invariant -------------------------------------------------------------------------

  /** No type, or one already in the table below `bound`. */
  ghost predicate Child(id: TypeId, bound: nat) { id == INVALID || id < bound }

  ghost predicate Children(ids: seq<TypeId>, bound: nat) {
    forall k :: 0 <= k < |ids| ==> Child(ids[k], bound)
  }

  ghost predicate LinkedRecord(t: Type, parts: seq<TypeId>, bound: nat) {
    Normal(t) && Child(t.pointee, bound) && Child(t.returnType, bound) && |parts| == t.paramCount
        && Children(parts, bound)
  }

  /** What the record stores beside its identity is true of the tree it spells out. */
  ghost predicate SoundRecord(t: Type, s: Shape, target: Target) {
    && t.layout == LayoutOf(s, target) && t.layout.size < WORD
    && t.nodes == NodesOf(s) <= MAX_NODES
    && Admissible(s, target)
  }

  ghost predicate SameType(tb: Table, i: TypeId, j: TypeId)
    requires i < |tb.types| && j < |tb.types|
  {
    Identity(tb.types[i]) == Identity(tb.types[j]) && PartsOf(tb, tb.types[i]) == PartsOf(tb, tb.types[j])
  }

  ghost predicate AllLinked(tb: Table) {
    forall i :: 0 <= i < |tb.types| ==> LinkedRecord(tb.types[i], PartsOf(tb, tb.types[i]), i)
  }

  ghost predicate AllRecorded(tb: Table, target: Target) {
    forall i :: 0 <= i < |tb.types| ==> SoundRecord(tb.types[i], Unfold(tb, i), target)
  }

  ghost predicate AllDistinct(tb: Table) {
    forall i, j :: 0 <= i < j < |tb.types| ==> !SameType(tb, i, j)
  }

  ghost predicate Sound(tb: Table, target: Target) {
    |tb.types| <= INVALID && AllLinked(tb) && AllRecorded(tb, target) && AllDistinct(tb)
  }

  /** Nothing already in the table ever changes. */
  ghost predicate Extends(tb: Table, tb': Table) {
    tb.types <= tb'.types && tb.rows <= tb'.rows
  }

  lemma {:induction false} UnfoldStable(tb: Table, tb': Table, id: TypeId)
    requires AllLinked(tb) && Extends(tb, tb') && id < |tb.types|
    ensures PartsOf(tb', tb'.types[id]) == PartsOf(tb, tb.types[id])
    ensures Unfold(tb', id) == Unfold(tb, id)
    decreases id, 1, 0
  {
    var t := tb.types[id];
    assert LinkedRecord(t, PartsOf(tb, t), id);
    BelowStable(tb, tb', t.pointee, id);
    BelowStable(tb, tb', t.returnType, id);
    BelowAllStable(tb, tb', PartsOf(tb, t), id);
  }

  lemma {:induction false} BelowStable(tb: Table, tb': Table, id: TypeId, bound: nat)
    requires AllLinked(tb) && Extends(tb, tb') && bound <= |tb.types|
    ensures Below(tb', id, bound) == Below(tb, id, bound)
    decreases bound, 0, 0
  {
    if id < bound {
      UnfoldStable(tb, tb', id);
    }
  }

  lemma {:induction false} BelowAllStable(tb: Table, tb': Table, parts: seq<TypeId>, bound: nat)
    requires AllLinked(tb) && Extends(tb, tb') && bound <= |tb.types|
    ensures BelowAll(tb', parts, bound) == BelowAll(tb, parts, bound)
    decreases bound, 0, |parts| + 1
  {
    if parts != [] {
      BelowAllStable(tb, tb', parts[..|parts| - 1], bound);
      BelowStable(tb, tb', parts[|parts| - 1], bound);
    }
  }

  // --- id equality is structural equality -------------------------------------------------------

  /** A type or no type: what a caller may hold. */
  ghost predicate Held(tb: Table, id: TypeId) { id == INVALID || Known(tb, id) }

  lemma KnownIsSomething(tb: Table, id: TypeId)
    requires Known(tb, id)
    ensures Unfold(tb, id) != Missing
  {}

  lemma SameKind(tb: Table, t: Type, u: Type, ps: seq<TypeId>, qs: seq<TypeId>, a: nat, b: nat)
    requires ShapeOf(tb, t, ps, a) == ShapeOf(tb, u, qs, b)
    ensures t.kind == u.kind
  {}

  lemma SameUsed(tb: Table, t: Type, u: Type, ps: seq<TypeId>, qs: seq<TypeId>, a: nat, b: nat)
    requires t.kind == u.kind && ShapeOf(tb, t, ps, a) == ShapeOf(tb, u, qs, b)
    requires |ps| == t.paramCount && |qs| == u.paramCount
    requires Below(tb, t.pointee, a) == Below(tb, u.pointee, b) ==> t.pointee == u.pointee
    requires Below(tb, t.returnType, a) == Below(tb, u.returnType, b) ==> t.returnType == u.returnType
    requires BelowAll(tb, ps, a) == BelowAll(tb, qs, b) ==> ps == qs
    ensures Used(t) == Used(u)
  {}

  /** Records that spell out the same tree, from the same children, have the same identity. */
  lemma SameRecord(tb: Table, t: Type, u: Type, ps: seq<TypeId>, qs: seq<TypeId>, a: nat, b: nat)
    requires LinkedRecord(t, ps, a) && LinkedRecord(u, qs, b)
    requires ShapeOf(tb, t, ps, a) == ShapeOf(tb, u, qs, b)
    requires Below(tb, t.pointee, a) == Below(tb, u.pointee, b) ==> t.pointee == u.pointee
    requires Below(tb, t.returnType, a) == Below(tb, u.returnType, b) ==> t.returnType == u.returnType
    requires BelowAll(tb, ps, a) == BelowAll(tb, qs, b) ==> ps == qs
    ensures Identity(t) == Identity(u) && ps == qs
  {
    SameKind(tb, t, u, ps, qs, a, b);
    SameUsed(tb, t, u, ps, qs, a, b);
    if t.kind.Tuple? || t.kind.Function? {
      assert ps == qs;
    } else {
      assert ps == [] && qs == [];
    }
  }

  /** Two ids are the same id exactly when the trees they spell out are the same tree. */
  lemma {:induction false} IdsAreStructure(tb: Table, target: Target, a: TypeId, b: TypeId)
    requires Sound(tb, target) && Held(tb, a) && Held(tb, b)
    ensures a == b <==> Unfold(tb, a) == Unfold(tb, b)
    decreases a, 1, 0
  {
    if Unfold(tb, a) == Unfold(tb, b) && a != b {
      if Known(tb, a) { KnownIsSomething(tb, a); }
      if Known(tb, b) { KnownIsSomething(tb, b); }
      var t, u := tb.types[a], tb.types[b];
      var ps, qs := PartsOf(tb, t), PartsOf(tb, u);
      SameChild(tb, target, t.pointee, u.pointee, a, b);
      SameChild(tb, target, t.returnType, u.returnType, a, b);
      SameParts(tb, target, ps, qs, a, b);
      SameRecord(tb, t, u, ps, qs, a, b);
      assert SameType(tb, a, b) && SameType(tb, b, a);
    }
  }

  lemma {:induction false} SameChild(tb: Table, target: Target, c: TypeId, d: TypeId, a: TypeId, b: TypeId)
    requires Sound(tb, target) && a <= |tb.types| && b <= |tb.types| && Child(c, a) && Child(d, b)
    ensures Below(tb, c, a) == Below(tb, d, b) ==> c == d
    decreases a, 0, 0
  {
    if c < a {
      KnownIsSomething(tb, c);
      if d < b {
        IdsAreStructure(tb, target, c, d);
      }
    } else if d < b {
      KnownIsSomething(tb, d);
    }
  }

  lemma {:induction false} SameParts(tb: Table, target: Target, ps: seq<TypeId>, qs: seq<TypeId>, a: TypeId, b: TypeId)
    requires Sound(tb, target) && a <= |tb.types| && b <= |tb.types| && Children(ps, a) && Children(qs, b)
    ensures BelowAll(tb, ps, a) == BelowAll(tb, qs, b) ==> ps == qs
    decreases a, 0, |ps| + 1
  {
    if ps != [] && qs != [] {
      var n, m := |ps| - 1, |qs| - 1;
      SameParts(tb, target, ps[..n], qs[..m], a, b);
      SameChild(tb, target, ps[n], qs[m], a, b);
      assert ps == ps[..n] + [ps[n]] && qs == qs[..m] + [qs[m]];
    }
  }
}
