/**
 * The readers over a lowered file's arrays (src/ast/ast.cc, and the same scans inside
 * src/ast/lower.cc), each tied to the decoded tree.
 */
module AstReaders {
  import opened Syntax
  import opened AstTree
  import opened Origins
  import opened AstArrays

  // --- the questions, on trees -----------------------------------------------------

  function KidAt(f: Forest, i: nat): Tree
    requires i < Count(f)
  {
    if i == Count(f.init) then f.last else KidAt(f.init, i)
  }

  type KindTest = SyntaxKind -> bool

  function IsKind(kind: SyntaxKind): KindTest { k => k == kind }

  /** The operand of a binding that is neither a bound name, nor a pattern, nor the annotation. */
  function IsValue(): KindTest {
    (k: SyntaxKind) => !k.IsToken() && k != Inner(Name) && k != Inner(Type) && k != Inner(TuplePattern)
  }

  /** Position of the first child whose kind passes, or -1. */
  function FirstWhere(f: Forest, p: KindTest): (i: int)
    ensures -1 <= i < Count(f)
  {
    match f
    case Empty => -1
    case Snoc(init, last) =>
      var i := FirstWhere(init, p);
      if i >= 0 then i else if p(last.kind) then Count(init) else -1
  }

  /** Position of the last child whose kind passes, or -1. */
  function LastWhere(f: Forest, p: KindTest): (i: int)
    ensures -1 <= i < Count(f)
  {
    match f
    case Empty => -1
    case Snoc(init, last) => if p(last.kind) then Count(init) else LastWhere(init, p)
  }

  function CountWhere(f: Forest, p: KindTest): nat {
    match f
    case Empty => 0
    case Snoc(init, last) => CountWhere(init, p) + if p(last.kind) then 1 else 0
  }

  /** The positions are what their names say. */
  lemma {:induction false} PositionsAreExtreme(f: Forest, p: KindTest, j: nat)
    requires j < Count(f) && p(KidAt(f, j).kind)
    ensures 0 <= FirstWhere(f, p) <= j <= LastWhere(f, p)
    ensures p(KidAt(f, FirstWhere(f, p)).kind) && p(KidAt(f, LastWhere(f, p)).kind)
  {
    if j < Count(f.init) {
      PositionsAreExtreme(f.init, p, j);
    } else {
      FirstPasses(f, p);
    }
  }

  lemma {:induction false} FirstPasses(f: Forest, p: KindTest)
    ensures FirstWhere(f, p) >= 0 ==> p(KidAt(f, FirstWhere(f, p)).kind)
  {
    match f
    case Empty =>
    case Snoc(init, _) => FirstPasses(init, p);
  }

  /** A count is the number of positions that pass. */
  lemma {:induction false} CountIsSize(f: Forest, p: KindTest)
    ensures CountWhere(f, p) == |Passing(f, p)|
  {
    if f.Snoc? {
      CountIsSize(f.init, p);
      PassingMore(f.init, f.last, p);
    }
  }

  lemma PassingMore(init: Forest, last: Tree, p: KindTest)
    ensures |Passing(Snoc(init, last), p)| == |Passing(init, p)| + if p(last.kind) then 1 else 0
  {
    var f, n := Snoc(init, last), Count(init);
    assert KidAt(f, n) == last;
    forall i: nat ensures i in Passing(f, p) <==> i in Passing(init, p) || (i == n && p(last.kind)) {
      if i < n {
        assert KidAt(f, i) == KidAt(init, i);
      }
    }
    if p(last.kind) {
      assert Passing(f, p) == Passing(init, p) + {n};
    } else {
      assert Passing(f, p) == Passing(init, p);
    }
  }

  function Passing(f: Forest, p: KindTest): set<nat> {
    set i: nat | i < Count(f) && p(KidAt(f, i).kind)
  }

  /** Both readers answer the one operand that is no token, bound name, annotation or pattern. */
  lemma {:induction false} OneValue(f: Forest, at: nat)
    requires at < Count(f)
    requires forall i: nat :: i < Count(f) ==>
               (i != at <==> KidAt(f, i).kind.Tok? || KidAt(f, i).kind.node in {Name, Type, TuplePattern})
    ensures FirstWhere(f, IsValue()) == at == LastWhere(f, IsValue())
  {
    FirstPasses(f, IsValue());
    PositionsAreExtreme(f, IsValue(), at);
  }

  lemma {:induction false} CountAndPositions(f: Forest, p: KindTest)
    ensures CountWhere(f, p) == 0 <==> FirstWhere(f, p) < 0
    ensures CountWhere(f, p) == 0 <==> LastWhere(f, p) < 0
    ensures FirstWhere(f, p) <= LastWhere(f, p)
    ensures CountWhere(f, p) == 1 ==> FirstWhere(f, p) == LastWhere(f, p)
    ensures CountWhere(f, p) > 1 ==> FirstWhere(f, p) < LastWhere(f, p)
  {
    match f
    case Empty =>
    case Snoc(init, last) => CountAndPositions(init, p);
  }

  // --- the answers, read from the arrays --------------------------------------------

  lemma {:induction false} DecodeRangeAt(nodes: seq<AstNode>, slots: seq<AstId>, parent: AstId, from: nat, stop: nat,
                                         i: nat)
    requires WellFormed(nodes, slots) && from <= stop && parent < |nodes|
    requires PointsForward(nodes, slots, parent, from, stop)
    ensures Count(DecodeRange(nodes, slots, parent, from, stop)) == stop - from
    ensures i < stop - from ==>
              KidAt(DecodeRange(nodes, slots, parent, from, stop), i) == Decode(nodes, slots, slots[from + i])
    decreases stop
  {
    if from < stop {
      DecodeRangeAt(nodes, slots, parent, from, stop - 1, i);
    }
  }

  /** `r` is the id standing at position `i` of `id`'s slice, or no id when `i` is -1. */
  ghost predicate Names(nodes: seq<AstNode>, slots: seq<AstId>, id: AstId, i: int, r: MaybeId)
    requires WellFormed(nodes, slots) && id < |nodes|
  {
    -1 <= i < nodes[id].childCount && r == if i < 0 then NoId else Id(slots[nodes[id].firstChild + i])
  }

  /** The child at `i` is the first that passes. */
  lemma FoundFirst(nodes: seq<AstNode>, slots: seq<AstId>, id: AstId, i: nat, p: KindTest)
    requires WellFormed(nodes, slots) && id < |nodes| && i < nodes[id].childCount
    requires FirstWhere(DecodeRange(nodes, slots, id, nodes[id].firstChild, nodes[id].firstChild + i), p) < 0
    requires p(nodes[slots[nodes[id].firstChild + i]].kind)
    ensures Names(nodes, slots, id, FirstWhere(Decode(nodes, slots, id).kids, p), Id(slots[nodes[id].firstChild + i]))
  {
    var from := nodes[id].firstChild;
    DecodeRangeAt(nodes, slots, id, from, from + i, 0);
    FirstStays(nodes, slots, id, from, from + i + 1, from + nodes[id].childCount, p);
  }

  /** A first match stays the first when more children follow. */
  lemma {:induction false} FirstStays(nodes: seq<AstNode>, slots: seq<AstId>, id: AstId, from: nat, mid: nat,
                                      stop: nat, p: KindTest)
    requires WellFormed(nodes, slots) && from <= mid <= stop && id < |nodes|
    requires PointsForward(nodes, slots, id, from, stop)
    requires FirstWhere(DecodeRange(nodes, slots, id, from, mid), p) >= 0
    ensures FirstWhere(DecodeRange(nodes, slots, id, from, stop), p) ==
            FirstWhere(DecodeRange(nodes, slots, id, from, mid), p)
    decreases stop
  {
    if mid < stop {
      FirstStays(nodes, slots, id, from, mid, stop - 1, p);
    }
  }

  /** `childOfKind`: the first child of a kind. */
  method ChildOfKind(nodes: seq<AstNode>, slots: seq<AstId>, id: AstId, kind: SyntaxKind) returns (r: MaybeId)
    requires WellFormed(nodes, slots) && id < |nodes|
    ensures Names(nodes, slots, id, FirstWhere(Decode(nodes, slots, id).kids, IsKind(kind)), r)
  {
    var from := nodes[id].firstChild;
    for i := 0 to nodes[id].childCount
      invariant FirstWhere(DecodeRange(nodes, slots, id, from, from + i), IsKind(kind)) < 0
    {
      var child := slots[from + i];
      if nodes[child].kind == kind {
        FoundFirst(nodes, slots, id, i, IsKind(kind));
        return Id(child);
      }
    }
    return NoId;
  }

  method CountOfKind(nodes: seq<AstNode>, slots: seq<AstId>, id: AstId, kind: SyntaxKind) returns (n: nat)
    requires WellFormed(nodes, slots) && id < |nodes|
    ensures n == CountWhere(Decode(nodes, slots, id).kids, IsKind(kind))
  {
    var from := nodes[id].firstChild;
    n := 0;
    for i := 0 to nodes[id].childCount
      invariant n == CountWhere(DecodeRange(nodes, slots, id, from, from + i), IsKind(kind))
    {
      if nodes[slots[from + i]].kind == kind {
        n := n + 1;
      }
    }
  }

  /** `bindingInitializer` of the lowering pass: it stops at the first value. */
  method BindingInitializer(nodes: seq<AstNode>, slots: seq<AstId>, stmt: AstId) returns (r: MaybeId)
    requires WellFormed(nodes, slots) && stmt < |nodes|
    ensures Names(nodes, slots, stmt, FirstWhere(Decode(nodes, slots, stmt).kids, IsValue()), r)
  {
    var from := nodes[stmt].firstChild;
    for i := 0 to nodes[stmt].childCount
      invariant FirstWhere(DecodeRange(nodes, slots, stmt, from, from + i), IsValue()) < 0
    {
      var child := slots[from + i];
      var kid := nodes[child];
      if kid.kind.IsToken() || kid.kind == Inner(Name) || kid.kind == Inner(Type) || kid.kind == Inner(TuplePattern) {
        continue;
      }
      FoundFirst(nodes, slots, stmt, i, IsValue());
      return Id(child);
    }
    return NoId;
  }

  /** `r` is the last value among the first `i` children. */
  ghost predicate LastFound(nodes: seq<AstNode>, slots: seq<AstId>, stmt: AstId, i: nat, r: MaybeId)
    requires WellFormed(nodes, slots) && stmt < |nodes| && i <= nodes[stmt].childCount
  {
    var from := nodes[stmt].firstChild;
    var last := LastWhere(DecodeRange(nodes, slots, stmt, from, from + i), IsValue());
    -1 <= last < i && r == if last < 0 then NoId else Id(slots[from + last])
  }

  lemma LastFoundNext(nodes: seq<AstNode>, slots: seq<AstId>, stmt: AstId, i: nat, r: MaybeId, operand: AstId)
    requires WellFormed(nodes, slots) && stmt < |nodes| && i < nodes[stmt].childCount
    requires LastFound(nodes, slots, stmt, i, r) && operand == slots[nodes[stmt].firstChild + i]
    ensures LastFound(nodes, slots, stmt, i + 1, if IsValue()(nodes[operand].kind) then Id(operand) else r)
  {
    var from := nodes[stmt].firstChild;
    DecodeRangeAt(nodes, slots, stmt, from, from + i, 0);
  }

  /** `initializerOf` of the finished file: it keeps the last value. */
  method InitializerOf(nodes: seq<AstNode>, slots: seq<AstId>, stmt: AstId) returns (r: MaybeId)
    requires WellFormed(nodes, slots) && stmt < |nodes|
    ensures Names(nodes, slots, stmt, LastWhere(Decode(nodes, slots, stmt).kids, IsValue()), r)
  {
    var from, count := nodes[stmt].firstChild, nodes[stmt].childCount;
    r := NoId;
    for i := 0 to count
      invariant LastFound(nodes, slots, stmt, i, r)
    {
      var operand := slots[from + i];
      var node := nodes[operand];
      LastFoundNext(nodes, slots, stmt, i, r, operand);
      if node.kind.IsToken() || node.kind == Inner(Name) || node.kind == Inner(Type) ||
         node.kind == Inner(TuplePattern) {
        continue;
      }
      r := Id(operand);
    }
  }

  ghost predicate DistinctSlots(slots: seq<AstId>) {
    forall i, j :: 0 <= i < j < |slots| ==> slots[i] != slots[j]
  }

  /**
   * The two readers are described as one rule and are not: lowering takes the first value of a
   * binding, the finished file the last. They answer alike exactly when there is at most one.
   */
  lemma InitializerReadersAgree(nodes: seq<AstNode>, slots: seq<AstId>, stmt: AstId, first: MaybeId, last: MaybeId)
    requires WellFormed(nodes, slots) && stmt < |nodes| && DistinctSlots(slots)
    requires Names(nodes, slots, stmt, FirstWhere(Decode(nodes, slots, stmt).kids, IsValue()), first)
    requires Names(nodes, slots, stmt, LastWhere(Decode(nodes, slots, stmt).kids, IsValue()), last)
    ensures first == last <==> CountWhere(Decode(nodes, slots, stmt).kids, IsValue()) <= 1
  {
    CountAndPositions(Decode(nodes, slots, stmt).kids, IsValue());
  }

  /**
   * A binding with two values, on which they differ. No parse writes one: `parseBinding`
   * (src/parse/statement.cc) reads at most one expression behind the `=`.
   */
  lemma ReadersDiffer(unit: nat)
    ensures var blank := Span(unit, 0, 0);
            var value := AstNode(Inner(PathExpr), blank, blank, 0, 0, NoSymbol, false);
            var nodes, slots := [AstNode(Inner(LetStmt), blank, blank, 0, 2, NoSymbol, false), value, value], [1, 2];
            && WellFormed(nodes, slots) && DistinctSlots(slots)
            && FirstWhere(Decode(nodes, slots, 0).kids, IsValue()) == 0
            && LastWhere(Decode(nodes, slots, 0).kids, IsValue()) == 1
  {
    var blank := Span(unit, 0, 0);
    var value := AstNode(Inner(PathExpr), blank, blank, 0, 0, NoSymbol, false);
    var nodes, slots := [AstNode(Inner(LetStmt), blank, blank, 0, 2, NoSymbol, false), value, value], [1, 2];
    assert WellFormed(nodes, slots);
    assert DecodeRange(nodes, slots, 0, 0, 0) == Empty;
    assert DecodeRange(nodes, slots, 0, 0, 1) == Snoc(Empty, Decode(nodes, slots, 1));
    assert DecodeRange(nodes, slots, 0, 0, 2) == Snoc(Snoc(Empty, Decode(nodes, slots, 1)), Decode(nodes, slots, 2));
  }
}
