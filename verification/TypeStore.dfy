/** The hash-consed type store of src/sema/type_store.cc, as the class it is. */
module TypeStore {
  import opened MachineWords
  import opened TypeShapes
  import opened TypeTable
  import opened TypeInterning
  import opened TypeSubstitution

  datatype MaybeSize = NoSize | Size(bytes: U64)

  /** The pre-registered types; a built-in's id is its position here. */
  function BuiltIns(target: Target): seq<Shape> {
    [Scalar(TypeKind.Error, false, 0), Scalar(Void, false, 0), Scalar(Bool, false, 0),
     Scalar(Char, false, target.charBits),
     Scalar(IntLiteral, false, 0), Scalar(FloatLiteral, false, 0), Scalar(Str, false, 0),
     Scalar(Int, true, 8), Scalar(Int, true, 16), Scalar(Int, true, 32), Scalar(Int, true, 64), Scalar(Int, true, 128),
     Scalar(Int, false, 8), Scalar(Int, false, 16), Scalar(Int, false, 32), Scalar(Int, false, 64),
     Scalar(Int, false, 128),
     Scalar(Float, false, 32), Scalar(Float, false, 64), Scalar(Float, false, 80), Scalar(Never, false, 0)]
  }

  lemma BuiltInsDiffer(target: Target)
    ensures forall i, j :: 0 <= i < j < |BuiltIns(target)| ==> BuiltIns(target)[i] != BuiltIns(target)[j]
    ensures forall i :: 0 <= i < |BuiltIns(target)| ==>
            BuiltIns(target)[i].Scalar? && IsScalarKind(BuiltIns(target)[i].kind)
  {}

  // --- the ids that are constants (include/sema/type.h) -------------------------------------

  const ERROR_TYPE: TypeId := 0
  const VOID_TYPE: TypeId := 1
  const BOOL_TYPE: TypeId := 2
  const CHAR_TYPE: TypeId := 3
  const INT_LITERAL: TypeId := 4
  const FLOAT_LITERAL: TypeId := 5
  const STR_TYPE: TypeId := 6
  const I8: TypeId := 7
  const I16: TypeId := 8
  const I32: TypeId := 9
  const I64: TypeId := 10
  const I128: TypeId := 11
  const U8: TypeId := 12
  const U16_TYPE: TypeId := 13
  const U32: TypeId := 14
  const U64_TYPE: TypeId := 15
  const U128: TypeId := 16
  const F32: TypeId := 17
  const F64: TypeId := 18
  const F80: TypeId := 19
  const NEVER_TYPE: TypeId := 20
  const FIRST_INTERNED: TypeId := 21

  /** The constants and the order of registration are two lists, and they agree. */
  lemma BuiltInIds(target: Target)
    ensures var all := BuiltIns(target);
            && |all| == FIRST_INTERNED
            && all[ERROR_TYPE].kind == TypeKind.Error && all[VOID_TYPE].kind == Void && all[BOOL_TYPE].kind == Bool
            && all[CHAR_TYPE].kind == Char && all[INT_LITERAL].kind == IntLiteral
            && all[FLOAT_LITERAL].kind == FloatLiteral && all[STR_TYPE].kind == Str && all[NEVER_TYPE].kind == Never
            && [all[I8], all[I16], all[I32], all[I64], all[I128]]
               == [Scalar(Int, true, 8), Scalar(Int, true, 16), Scalar(Int, true, 32), Scalar(Int, true, 64),
                   Scalar(Int, true, 128)]
            && [all[U8], all[U16_TYPE], all[U32], all[U64_TYPE], all[U128]]
               == [Scalar(Int, false, 8), Scalar(Int, false, 16), Scalar(Int, false, 32), Scalar(Int, false, 64),
                   Scalar(Int, false, 128)]
            && [all[F32], all[F64], all[F80]] ==
               [Scalar(Float, false, 32), Scalar(Float, false, 64), Scalar(Float, false, 80)]
  {}

  /** In every store, whatever was built since, asking for a built-in type gives its constant. */
  lemma BuiltInComesBack(tb: Table, tb': Table, max: nat, target: Target, k: TypeId, id: TypeId)
    requires Sound(tb, target) && FIRST_INTERNED <= |tb.types| && k < FIRST_INTERNED
    requires forall i :: 0 <= i < FIRST_INTERNED ==> Unfold(tb, i) == BuiltIns(target)[i]
    requires Built(tb, max, target, BuiltIns(target)[k], id, tb')
    ensures id == k && tb' == tb
  {
    assert Unfold(tb, k) == BuiltIns(target)[k];
    assert Spelled(tb, BuiltIns(target)[k]);
    IdsAreStructure(tb, target, id, k);
  }

  class TypeStore {
    const target: Target
    /** Any hash of what makes two types the same; collisions only lengthen a search. */
    const hash: Hash
    var types: seq<Type>
    var rows: seq<seq<TypeId>>
    var index: map<nat, seq<TypeId>>
    var maxTypes: nat
    var spellings: seq<string>

    function Tb(): Table
      reads this
    {
      Table(types, rows)
    }

    ghost predicate Valid()
      reads this
    {
      Sound(Tb(), target) && Filed(Tb(), index, hash) && maxTypes <= INVALID
    }

    /** The candidates filed under the record's hash, compared in full: a hash is only a filter. */
    method Search(t: Type, parts: seq<TypeId>) returns (id: TypeId)
      requires Valid() && LinkedRecord(t, parts, |types|)
      ensures id != INVALID <==> Spelled(Tb(), ShapeOf(Tb(), t, parts, |types|))
      ensures id != INVALID ==> Known(Tb(), id) && Unfold(Tb(), id) == ShapeOf(Tb(), t, parts, |types|)
    {
      var tb, candidates := Tb(), BucketOf(index, hash(Identity(t), parts));
      for k := 0 to |candidates|
        invariant NoneIn(tb, t, parts, candidates[..k])
      {
        var c := candidates[k];
        if Matches(tb, t, parts, c) {
          SearchFindsTheTree(tb, target, t, parts, c);
          return c;
        }
        assert candidates[..k + 1] == candidates[..k] + [c];
      }
      assert candidates[..|candidates|] == candidates;
      NoneSpellsIt(tb, target, t, parts, index, hash);
      id := INVALID;
    }

    /** `nodesOf`: the size of a structure before it is built, saturated one past the bound. */
    method NodesOfStructure(parts: seq<TypeId>, children: seq<TypeId>) returns (n: nat)
      ensures var total := 1 + NodesSum(Tb(), children) + NodesSum(Tb(), parts);
              n == if total > MAX_NODES then MAX_NODES + 1 else total
    {
      n := 1;
      for i := 0 to |children|
        invariant n == 1 + NodesSum(Tb(), children[..i]) <= MAX_NODES
      {
        assert children[..i + 1][..i] == children[..i];
        n := n + NodesAt(Tb(), children[i]);
        if n > MAX_NODES {
          NodesSumGrows(Tb(), children, i + 1);
          return MAX_NODES + 1;
        }
      }
      assert children[..|children|] == children;
      for i := 0 to |parts|
        invariant n == 1 + NodesSum(Tb(), children) + NodesSum(Tb(), parts[..i]) <= MAX_NODES
      {
        assert parts[..i + 1][..i] == parts[..i];
        n := n + NodesAt(Tb(), parts[i]);
        if n > MAX_NODES {
          NodesSumGrows(Tb(), parts, i + 1);
          return MAX_NODES + 1;
        }
      }
      assert parts[..|parts|] == parts;
    }

    /** `tupleSize`: the padded size of a product before it is built, or none. */
    method TupleSize(members: seq<TypeId>) returns (r: MaybeSize)
      requires Sound(Tb(), target) && HeldAll(Tb(), members)
      ensures r.Size? <==> TupleFits(Trees(Tb(), members), target)
      ensures r.Size? ==> r.bytes == LayoutOf(TupleOf(Trees(Tb(), members)), target).size
    {
      var align: U64, size: U64 := 1, 0;
      for i := 0 to |members|
        invariant var f := FoldMembers(Trees(Tb(), members[..i]), target);
                  !f.unknown && size == f.size && align == f.align
        invariant MembersFit(Trees(Tb(), members[..i]), target)
      {
        TreesSnoc(Tb(), members, i);
        HeldIsBelow(Tb(), target, members[i], |types|);
        var l := LayoutAt(Tb(), members[i]);
        if l.unknownSize || l.align == 0 || l.size == 0 || size > WORD - 1 - (l.align - 1)
        {
          UnfitStays(Tb(), target, members, i + 1);
          return NoSize;
        }
        PadToIsRoundUp(size, l.align);
        size := PadTo(size, l.align);
        if l.size > WORD - 1 - size {
          UnfitStays(Tb(), target, members, i + 1);
          return NoSize;
        }
        size := size + l.size;
        align := if align < l.align then l.align else align;
      }
      assert members[..|members|] == members;
      if size > WORD - 1 - (align - 1) {
        return NoSize;
      }
      PadToIsRoundUp(size, align);
      r := Size(PadTo(size, align));
    }

    /** `arraySize`: the one checked multiply. */
    method ArraySize(element: TypeId, count: U64) returns (r: MaybeSize)
      ensures r.Size? <==> IsObjectAt(Tb(), element) && ArrayFits(count, LayoutAt(Tb(), element).size)
      ensures r.Size? ==> r.bytes == count * LayoutAt(Tb(), element).size
    {
      if count == 0 || !IsObjectAt(Tb(), element) {
        return NoSize;
      }
      var size := LayoutAt(Tb(), element).size;
      if size == 0 {
        return NoSize;
      }
      DivisionTest(count, size);
      if count > (WORD - 1) / size {
        return NoSize;
      }
      r := Size(count * size);
    }

    /** `layoutOf` on a product: members in order, each aligned, the whole padded; wraps where 64 bits would. */
    method LayoutOfTuple(parts: seq<TypeId>) returns (l: Layout)
      requires Sound(Tb(), target) && HeldAll(Tb(), parts)
      requires var members := Trees(Tb(), parts); AnyUnknown(members, target) || TupleFits(members, target)
      ensures l == LayoutOf(TupleOf(Trees(Tb(), parts)), target) && l.size < WORD
    {
      var tb := Tb();
      var align: U16, size: U64 := 1, 0;
      for i := 0 to |parts|
        invariant Folding(tb, target, parts, i, size, align)
      {
        var m := LayoutAt(tb, parts[i]);
        FoldOne(tb, target, parts, i, size, align);
        if m.unknownSize || m.align == 0 {
          return Layout(0, 1, true);
        }
        align := if align < m.align then m.align else align;
        size := (PadTo(size, m.align) + m.size) % WORD;
      }
      FoldedIsLayout(tb, target, parts, size, align);
      l := Layout(PadTo(size, align), align, false);
    }

    /** `layoutOf`: the layout of the record being built, read off its children. */
    method LayoutOfRecord(t: Type, parts: seq<TypeId>) returns (l: Layout)
      requires Sound(Tb(), target) && LinkedRecord(t, parts, |types|)
      requires Admissible(ShapeOf(Tb(), t, parts, |types|), target)
      ensures l == LayoutOf(ShapeOf(Tb(), t, parts, |types|), target) && l.size < WORD
    {
      if t.kind.Tuple? {
        l := LayoutOfTuple(parts);
      } else {
        DirectLayoutIsExact(Tb(), target, t, parts);
        l := DirectLayout(t, LayoutAt(Tb(), t.pointee), target);
      }
    }

    /** `internSequence`: bound, search, budget, and only then an append. */
    method InternSequence(t: Type, parts: seq<TypeId>) returns (id: TypeId)
      requires Valid() && LinkedRecord(t, parts, |types|)
      requires Admissible(ShapeOf(Tb(), t, parts, |types|), target)
      modifies this`types, this`rows, this`index
      ensures Valid()
      ensures Built(old(Tb()), maxTypes, target, ShapeOf(old(Tb()), t, parts, old(|types|)), id, Tb())
      ensures |types| > old(|types|) ==> types[id].spelling == t.spelling && types[id].klass == t.klass
    {
      var nodes := NodesOfStructure(parts, SingleChild(t));
      NodesOfRecord(Tb(), target, t, parts);
      if nodes > MAX_NODES {
        return INVALID;
      }
      id := Search(t, parts);
      if id != INVALID || |types| >= maxTypes {
        return;
      }
      id := |types|;
      var layout := LayoutOfRecord(t, parts);
      var stored := t.(sequence := |rows|, nodes := nodes, layout := layout);
      ghost var tb := Tb();
      NewRecord(tb, target, t, stored, parts);
      Store(stored, parts, [parts]);
      AppendedAdds(tb, Tb(), target, stored, parts);
    }

    /** The append itself: the record, the row it points at if it takes one, and its entry in the index. */
    method Store(stored: Type, parts: seq<TypeId>, row: seq<seq<TypeId>>)
      requires Valid() && Appendable(Tb(), target, stored, parts)
      requires PartsOf(Table(types, rows + row), stored) == parts
      modifies this`types, this`rows, this`index
      ensures Valid() && Appended(old(Tb()), Tb(), stored, parts) && rows == old(rows) + row
    {
      var h := hash(Identity(stored), parts);
      ghost var tb' := Table(types + [stored], rows + row);
      FileOne(Tb(), tb', target, stored, parts, index, hash);
      Append(Tb(), tb', target, stored, parts);
      index := index[h := BucketOf(index, h) + [|types|]];
      rows := rows + row;
      types := types + [stored];
    }

    // --- the built-in types -----------------------------------------------------------------

    /** One registration of the constructor: no search, no row. */
    method Register(kind: TypeKind, isSigned: bool, bits: U16)
      requires Valid() && |types| < INVALID && IsScalarKind(kind) && !Spelled(Tb(), Scalar(kind, isSigned, bits))
      modifies this`types, this`rows, this`index
      ensures Valid() && Extends(old(Tb()), Tb()) && |types| == old(|types|) + 1
      ensures Unfold(Tb(), old(|types|)) == Scalar(kind, isSigned, bits)
    {
      var t := Blank(kind).(isSigned := isSigned, bits := bits);
      ScalarIsSmall(kind, bits, target);
      var stored := t.(layout := ScalarLayout(kind, bits, target));
      ghost var tb := Tb();
      NewRecord(tb, target, t, stored, []);
      Store(stored, [], []);
      AppendedAdds(tb, Tb(), target, stored, []);
    }

    /** Every built-in is registered, in order, so its position is its id. */
    constructor (target: Target, hash: Hash, maxTypes: nat)
      requires maxTypes <= INVALID
      ensures Valid() && this.target == target && this.hash == hash && this.maxTypes == maxTypes && spellings == []
      ensures |types| == |BuiltIns(target)|
      ensures forall k :: 0 <= k < |types| ==> Unfold(Tb(), k) == BuiltIns(target)[k]
    {
      this.target, this.hash, this.maxTypes := target, hash, maxTypes;
      types, rows, index, spellings := [], [], map[], [];
      new;
      var all := BuiltIns(target);
      for i := 0 to |all|
        invariant Valid() && |types| == i && spellings == [] && this.maxTypes == maxTypes
        invariant forall k :: 0 <= k < i ==> Unfold(Tb(), k) == all[k]
      {
        ghost var tb := Tb();
        BuiltInsDiffer(target);
        Register(all[i].kind, all[i].isSigned, all[i].bits);
        forall k | 0 <= k < i ensures Unfold(Tb(), k) == all[k] {
          UnfoldStable(tb, Tb(), k);
        }
      }
    }

    // --- the builders -----------------------------------------------------------------------

    method Intern(t: Type) returns (id: TypeId)
      requires Valid() && LinkedRecord(t, [], |types|)
      requires Admissible(ShapeOf(Tb(), t, [], |types|), target)
      modifies this`types, this`rows, this`index
      ensures Valid()
      ensures Built(old(Tb()), maxTypes, target, ShapeOf(old(Tb()), t, [], old(|types|)), id, Tb())
      ensures |types| > old(|types|) ==> types[id].spelling == t.spelling && types[id].klass == t.klass
    {
      id := InternSequence(t, []);
    }

    method SignedInt(bits: U16) returns (id: TypeId)
      requires Valid()
      modifies this`types, this`rows, this`index
      ensures Valid() && Built(old(Tb()), maxTypes, target, Scalar(Int, true, bits), id, Tb())
    {
      id := Intern(Blank(Int).(isSigned := true, bits := bits));
    }

    method UnsignedInt(bits: U16) returns (id: TypeId)
      requires Valid()
      modifies this`types, this`rows, this`index
      ensures Valid() && Built(old(Tb()), maxTypes, target, Scalar(Int, false, bits), id, Tb())
    {
      id := Intern(Blank(Int).(bits := bits));
    }

    method FloatOf(bits: U16) returns (id: TypeId)
      requires Valid()
      modifies this`types, this`rows, this`index
      ensures Valid() && Built(old(Tb()), maxTypes, target, Scalar(Float, false, bits), id, Tb())
    {
      id := Intern(Blank(Float).(bits := bits));
    }

    method BuildPointer(pointee: TypeId) returns (id: TypeId)
      requires Valid() && Held(Tb(), pointee)
      modifies this`types, this`rows, this`index
      ensures Valid() && Built(old(Tb()), maxTypes, target, PointerTo(Unfold(old(Tb()), pointee)), id, Tb())
    {
      HeldIsBelow(Tb(), target, pointee, |types|);
      id := Intern(Blank(Pointer).(pointee := pointee));
    }

    method BuildArray(element: TypeId, count: U64) returns (id: TypeId)
      requires Valid() && Held(Tb(), element)
      modifies this`types, this`rows, this`index
      ensures Valid() && Built(old(Tb()), maxTypes, target, ArrayOf(count, Unfold(old(Tb()), element)), id, Tb())
    {
      HeldIsBelow(Tb(), target, element, |types|);
      if !IsObjectAt(Tb(), element) {
        return INVALID;
      }
      if !LayoutAt(Tb(), element).unknownSize {
        var size := ArraySize(element, count);
        if size.NoSize? {
          return INVALID;
        }
      }
      id := Intern(Blank(Array).(pointee := element, count := count));
    }

    method BuildSlice(element: TypeId) returns (id: TypeId)
      requires Valid() && Held(Tb(), element)
      modifies this`types, this`rows, this`index
      ensures Valid() && Built(old(Tb()), maxTypes, target, SliceOf(Unfold(old(Tb()), element)), id, Tb())
    {
      HeldIsBelow(Tb(), target, element, |types|);
      if !IsObjectAt(Tb(), element) {
        return INVALID;
      }
      id := Intern(Blank(Slice).(pointee := element));
    }

    /** A parameter's identity is its declaration and position; its spelling and class are not. */
    method BuildParam(unit: nat, owner: nat, binder: nat, spelling: string, klass: ConstraintClass) returns (id: TypeId)
      requires Valid()
      modifies this`types, this`rows, this`index, this`spellings
      ensures Valid() && Built(old(Tb()), maxTypes, target, ParamOf(unit, owner, binder), id, Tb())
      ensures |types| > old(|types|) ==> types[id].spelling == spelling && types[id].klass == klass
      ensures spellings == old(spellings) + [spelling]
    {
      spellings := spellings + [spelling];
      id := Intern(Blank(Param).(unit := unit, owner := owner, binder := binder, spelling := spelling, klass := klass));
    }

    method BuildFunction(returnType: TypeId, params: seq<TypeId>, variadic: bool) returns (id: TypeId)
      requires Valid() && Held(Tb(), returnType) && HeldAll(Tb(), params)
      modifies this`types, this`rows, this`index
      ensures Valid()
      ensures Built(old(Tb()), maxTypes, target,
              FunctionOf(Unfold(old(Tb()), returnType), Trees(old(Tb()), params), variadic), id, Tb())
    {
      var t := Blank(Function).(returnType := returnType, paramCount := |params|, variadic := variadic);
      HeldIsBelow(Tb(), target, returnType, |types|);
      NodesOfRecord(Tb(), target, t, params);
      var nodes := NodesOfStructure(params, [returnType]);
      if nodes > MAX_NODES {
        return INVALID;
      }
      id := InternSequence(t, params);
    }

    /** The first two refusals of a product: too few members, or one that is no object. */
    method MembersAllowed(members: seq<TypeId>) returns (objects: bool, unknown: bool)
      requires Sound(Tb(), target) && HeldAll(Tb(), members)
      ensures objects == AllObjects(Trees(Tb(), members))
      ensures objects ==> unknown == AnyUnknown(Trees(Tb(), members), target)
    {
      unknown := false;
      for i := 0 to |members|
        invariant AllObjects(Trees(Tb(), members[..i]))
        invariant unknown == AnyUnknown(Trees(Tb(), members[..i]), target)
      {
        TreesSnoc(Tb(), members, i);
        HeldIsBelow(Tb(), target, members[i], |types|);
        if !IsObjectAt(Tb(), members[i]) {
          NoObjectStays(Tb(), members, i + 1);
          return false, unknown;
        }
        unknown := unknown || LayoutAt(Tb(), members[i]).unknownSize;
      }
      assert members[..|members|] == members;
      objects := true;
    }

    method BuildTuple(members: seq<TypeId>) returns (id: TypeId)
      requires Valid() && HeldAll(Tb(), members)
      modifies this`types, this`rows, this`index
      ensures Valid() && Built(old(Tb()), maxTypes, target, TupleOf(Trees(old(Tb()), members)), id, Tb())
    {
      var t := Blank(Tuple).(paramCount := |members|);
      NodesOfParts(Tb(), target, members);
      if |members| < 2 {
        return INVALID;
      }
      var objects, unknown := MembersAllowed(members);
      if !objects {
        return INVALID;
      }
      var nodes := NodesOfStructure(members, []);
      if nodes > MAX_NODES {
        return INVALID;
      }
      if !unknown {
        var size := TupleSize(members);
        if size.NoSize? {
          return INVALID;
        }
      }
      id := InternSequence(t, members);
    }

    /** `memberOffset`: where a laid-out product's member starts; 0 for anything else. */
    method MemberOffset(id: TypeId, index: nat) returns (offset: U64)
      requires Valid() && Held(Tb(), id)
      ensures var s := Unfold(Tb(), id);
              if s.TupleOf? && index < Count(s.members)
              then !LayoutOf(s, target).unknownSize ==> offset == Offset(s.members, index, target)
              else offset == 0
    {
      HeldIsBelow(Tb(), target, id, |types|);
      if !Known(Tb(), id) || !types[id].kind.Tuple? || index >= types[id].paramCount {
        if Known(Tb(), id) && types[id].kind.Tuple? {
          TupleIsItsRow(Tb(), target, id);
        }
        return 0;
      }
      var members := PartsOf(Tb(), types[id]);
      TupleIsItsRow(Tb(), target, id);
      offset := OffsetInRow(id, members, index);
    }

    /** The walk of `memberOffset` over the members before `index`. */
    method OffsetInRow(ghost id: TypeId, members: seq<TypeId>, index: nat) returns (offset: U64)
      requires Sound(Tb(), target) && Known(Tb(), id) && types[id].kind.Tuple? && members == PartsOf(Tb(), types[id])
      requires HeldAll(Tb(), members) && Unfold(Tb(), id) == TupleOf(Trees(Tb(), members)) && index < |members|
      requires Count(Trees(Tb(), members)) == |members|
      ensures !LayoutAt(Tb(), id).unknownSize ==> offset == Offset(Trees(Tb(), members), index, target)
    {
      var tb := Tb();
      var size: U64 := 0;
      for i := 0 to index
        invariant LaidOut(tb, id) ==> size == FoldMembers(Trees(tb, members[..i]), target).size
      {
        var l := LayoutAt(tb, members[i]);
        if LaidOut(tb, id) {
          OffsetStep(tb, target, id, members, i, size);
        }
        size := (PadTo(size, if l.align == 0 then 1 else l.align) + l.size) % WORD;
      }
      if LaidOut(tb, id) {
        OffsetStep(tb, target, id, members, index, size);
      }
      var align := LayoutAt(tb, members[index]).align;
      offset := PadTo(size, if align == 0 then 1 else align);
    }

    // --- substitution -----------------------------------------------------------------------

    /** `substitute`, on a type the caller holds. */
    method Substitute(subject: TypeId, args: seq<TypeId>, unit: nat, owner: nat) returns (id: TypeId)
      requires Valid() && Held(Tb(), subject) && HeldAll(Tb(), args)
      modifies this`types, this`rows, this`index
      ensures Valid() && Substituted(old(Tb()), maxTypes, target, subject, args, unit, owner, id, Tb())
      decreases if subject == INVALID then 0 else subject + 1, 1
    {
      LeafStep(Tb(), maxTypes, target, subject, args, unit, owner);
      if !Known(Tb(), subject) {
        return subject;
      }
      var t := types[subject];
      match t.kind
      case Param =>
        if t.unit != unit || t.owner != owner || t.binder >= |args| {
          return subject;
        }
        id := args[t.binder];
      case Pointer => id := SubstituteElement(subject, args, unit, owner);
      case Array => id := SubstituteElement(subject, args, unit, owner);
      case Slice => id := SubstituteElement(subject, args, unit, owner);
      case Tuple => id := SubstituteTuple(subject, args, unit, owner);
      case Function => id := SubstituteFunction(subject, args, unit, owner);
      case _ => id := subject;
    }

    /** The builder that built a type with one child, on another child. */
    method BuildOver(t: Type, child: TypeId) returns (id: TypeId)
      requires Valid() && HasElement(t) && Held(Tb(), child)
      modifies this`types, this`rows, this`index
      ensures Valid() && Built(old(Tb()), maxTypes, target, OverElement(t, Unfold(old(Tb()), child)), id, Tb())
    {
      match t.kind
      case Pointer => id := BuildPointer(child);
      case Array => id := BuildArray(child, t.count);
      case Slice => id := BuildSlice(child);
    }

    /** A type with one child, rebuilt by the builder that first built it. */
    method SubstituteElement(subject: TypeId, args: seq<TypeId>, unit: nat, owner: nat) returns (id: TypeId)
      requires Valid() && Known(Tb(), subject) && HasElement(types[subject]) && HeldAll(Tb(), args)
      modifies this`types, this`rows, this`index
      ensures Valid() && Substituted(old(Tb()), maxTypes, target, subject, args, unit, owner, id, Tb())
      decreases subject + 1, 0
    {
      var t := types[subject];
      assert LinkedRecord(t, PartsOf(Tb(), t), subject);
      ghost var tb := Tb();
      var child := Substitute(t.pointee, args, unit, owner);
      ghost var tb1 := Tb();
      ElementStep(tb, tb1, maxTypes, target, subject, args, unit, owner, child);
      if child == INVALID {
        return INVALID;
      }
      id := BuildOver(t, child);
      Rebuilt(tb, tb1, Tb(), maxTypes, target, Subst(Unfold(tb, subject), Arguments(tb, args), unit, owner), id);
    }

    /** The member loop of a product or a signature: it stops at the first member with no answer. */
    method SubstituteAll(members: seq<TypeId>, ghost bound: nat, args: seq<TypeId>, unit: nat, owner: nat)
      returns (ok: bool, replaced: seq<TypeId>)
      requires Valid() && bound <= |types| && Children(members, bound) && HeldAll(Tb(), args)
      modifies this`types, this`rows, this`index
      ensures Valid() && SubstitutedAll(old(Tb()), maxTypes, target, members, args, unit, owner, ok, replaced, Tb())
      decreases bound, 2
    {
      replaced := [];
      ghost var tb := Tb();
      for i := 0 to |members|
        invariant Valid() && SubstitutedAll(tb, maxTypes, target, members[..i], args, unit, owner, true, replaced, Tb())
      {
        ghost var tb1 := Tb();
        ArgumentsStable(tb, tb1, target, args);
        var one := Substitute(members[i], args, unit, owner);
        MemberStep(tb, tb1, Tb(), maxTypes, target, members, i, args, unit, owner, replaced, one);
        if one == INVALID {
          return false, replaced;
        }
        replaced := replaced + [one];
      }
      assert members[..|members|] == members;
      ok := true;
    }

    method SubstituteTuple(subject: TypeId, args: seq<TypeId>, unit: nat, owner: nat) returns (id: TypeId)
      requires Valid() && Known(Tb(), subject) && types[subject].kind.Tuple? && HeldAll(Tb(), args)
      modifies this`types, this`rows, this`index
      ensures Valid() && Substituted(old(Tb()), maxTypes, target, subject, args, unit, owner, id, Tb())
      decreases subject + 1, 0
    {
      var original := PartsOf(Tb(), types[subject]);
      assert LinkedRecord(types[subject], original, subject);
      ghost var tb := Tb();
      var ok, replaced := SubstituteAll(original, subject, args, unit, owner);
      ghost var tb1 := Tb();
      TupleStep(tb, tb1, maxTypes, target, subject, args, unit, owner, ok, replaced);
      if !ok {
        return INVALID;
      }
      id := BuildTuple(replaced);
      Rebuilt(tb, tb1, Tb(), maxTypes, target, Subst(Unfold(tb, subject), Arguments(tb, args), unit, owner), id);
    }

    method SubstituteFunction(subject: TypeId, args: seq<TypeId>, unit: nat, owner: nat) returns (id: TypeId)
      requires Valid() && Known(Tb(), subject) && types[subject].kind.Function? && HeldAll(Tb(), args)
      modifies this`types, this`rows, this`index
      ensures Valid() && Substituted(old(Tb()), maxTypes, target, subject, args, unit, owner, id, Tb())
      decreases subject + 1, 0
    {
      var t := types[subject];
      var original := PartsOf(Tb(), t);
      assert LinkedRecord(t, original, subject);
      ghost var tb := Tb();
      var ok, replaced := SubstituteAll(original, subject, args, unit, owner);
      ghost var tb1 := Tb();
      if !ok {
        FunctionStops(tb, tb1, maxTypes, target, subject, args, unit, owner, replaced);
        return INVALID;
      }
      ArgumentsStable(tb, tb1, target, args);
      var result := Substitute(t.returnType, args, unit, owner);
      ghost var tb2 := Tb();
      FunctionStep(tb, tb1, tb2, maxTypes, target, subject, args, unit, owner, replaced, result);
      if result == INVALID {
        return INVALID;
      }
      id := BuildFunction(result, replaced, t.variadic);
      Rebuilt(tb, tb2, Tb(), maxTypes, target, Subst(Unfold(tb, subject), Arguments(tb, args), unit, owner), id);
    }
  }
}
