/**
 * The two flat arrays of a lowered file (include/ast/ast.h): nodes in pre-order, and child
 * slots in the order nodes are closed. `Decode` reads a tree back through
 * `firstChild`/`childCount`; `NodesFor` and `SlotsFor` are what lowering writes.
 */
module AstArrays {
  import opened Syntax
  import opened AstTree
  import opened Origins

  datatype AstNode = AstNode(
    kind: SyntaxKind, origin: Span, unit: Span,
    firstChild: nat, childCount: nat, name: Symbol, inError: bool)

  type AstId = nat

  /** An id, or `kInvalidAst`. */
  datatype MaybeId = NoId | Id(index: AstId)

  // --- reading ---------------------------------------------------------------------

  /** The slots `[from, to)` name nodes after `parent`. */
  ghost predicate PointsForward(nodes: seq<AstNode>, slots: seq<AstId>, parent: AstId, from: nat, to: nat) {
    to <= |slots| && forall k :: from <= k < to ==> parent < slots[k] < |nodes|
  }

  /** Every child slice is inside the slot array and points forward, so every walk ends. */
  ghost predicate WellFormed(nodes: seq<AstNode>, slots: seq<AstId>) {
    forall i :: 0 <= i < |nodes| ==>
      PointsForward(nodes, slots, i, nodes[i].firstChild, nodes[i].firstChild + nodes[i].childCount)
  }

  ghost function Decode(nodes: seq<AstNode>, slots: seq<AstId>, id: AstId): Tree
    requires WellFormed(nodes, slots) && id < |nodes|
    decreases |nodes| - id, 0, 0
  {
    var n := nodes[id];
    Tree(n.kind, n.name, n.inError, n.unit.begin, n.unit.end,
         DecodeRange(nodes, slots, id, n.firstChild, n.firstChild + n.childCount))
  }

  /** The children of `parent` whose ids stand in `slots[from..to]`. */
  ghost function DecodeRange(nodes: seq<AstNode>, slots: seq<AstId>, parent: AstId, from: nat, to: nat): Forest
    requires WellFormed(nodes, slots) && from <= to && parent < |nodes|
    requires PointsForward(nodes, slots, parent, from, to)
    decreases |nodes| - parent - 1, 1, to - from
  {
    if from == to then Empty
    else Snoc(DecodeRange(nodes, slots, parent, from, to - 1), Decode(nodes, slots, slots[to - 1]))
  }

  // --- writing ---------------------------------------------------------------------

  /** Slots written by the subtrees `f`, their roots' own slots not counted. */
  function SlotCount(f: Forest): nat {
    match f
    case Empty => 0
    case Snoc(init, last) => SlotCount(init) + (Size(last) - 1)
  }

  lemma {:induction false} SlotCountIsSize(f: Forest)
    ensures SlotCount(f) + Count(f) == SizeAll(f)
  {
    match f
    case Empty =>
    case Snoc(init, _) => SlotCountIsSize(init);
  }

  /** The record of node `t` when its subtree's slots start at `sb`; a token keeps the empty slice. */
  function Record(t: Tree, sb: nat, o: OriginTable): AstNode {
    AstNode(t.kind, o.OriginOf(t.begin, t.end), Span(o.unit, t.begin, t.end),
            if t.kind.IsToken() then 0 else sb + SlotCount(t.kids), Count(t.kids), t.name, t.inError)
  }

  function NodesFor(t: Tree, sb: nat, o: OriginTable): seq<AstNode> {
    [Record(t, sb, o)] + NodesForAll(t.kids, sb, o)
  }

  function NodesForAll(f: Forest, sb: nat, o: OriginTable): seq<AstNode> {
    match f
    case Empty => []
    case Snoc(init, last) => NodesForAll(init, sb, o) + NodesFor(last, sb + SlotCount(init), o)
  }

  /** The ids of consecutive subtrees whose first node is `id`. */
  function IdsOf(f: Forest, id: AstId): seq<AstId> {
    match f
    case Empty => []
    case Snoc(init, last) => IdsOf(init, id) + [id + SizeAll(init)]
  }

  function SlotsFor(t: Tree, id: AstId): seq<AstId> {
    SlotsForAll(t.kids, id + 1) + IdsOf(t.kids, id + 1)
  }

  function SlotsForAll(f: Forest, id: AstId): seq<AstId> {
    match f
    case Empty => []
    case Snoc(init, last) => SlotsForAll(init, id) + SlotsFor(last, id + SizeAll(init))
  }

  lemma {:induction false} LayoutLength(t: Tree, id: AstId, sb: nat, o: OriginTable)
    ensures |NodesFor(t, sb, o)| == Size(t)
    ensures |SlotsFor(t, id)| == Size(t) - 1
  {
    LayoutAllLength(t.kids, id + 1, sb, o);
    SlotCountIsSize(t.kids);
  }

  lemma {:induction false} LayoutAllLength(f: Forest, id: AstId, sb: nat, o: OriginTable)
    ensures |NodesForAll(f, sb, o)| == SizeAll(f)
    ensures |SlotsForAll(f, id)| == SlotCount(f)
    ensures |IdsOf(f, id)| == Count(f)
  {
    match f
    case Empty =>
    case Snoc(init, last) =>
      LayoutAllLength(init, id, sb, o);
      LayoutLength(last, id + SizeAll(init), sb + SlotCount(init), o);
  }

  // --- the arrays of a tree, found inside larger arrays -----------------------------

  /** `part` stands in `s` at `at`. */
  ghost predicate Stands<T>(s: seq<T>, at: nat, part: seq<T>) {
    at + |part| <= |s| && s[at..at + |part|] == part
  }

  ghost predicate Holds(nodes: seq<AstNode>, slots: seq<AstId>, t: Tree, id: AstId, sb: nat, o: OriginTable) {
    Stands(nodes, id, NodesFor(t, sb, o)) && Stands(slots, sb, SlotsFor(t, id))
  }

  ghost predicate HoldsAll(nodes: seq<AstNode>, slots: seq<AstId>, f: Forest, id: AstId, sb: nat, o: OriginTable) {
    Stands(nodes, id, NodesForAll(f, sb, o)) && Stands(slots, sb, SlotsForAll(f, id))
  }

  /** `slots[from..]` starts with the ids of `f`. */
  ghost predicate HoldsIds(slots: seq<AstId>, f: Forest, id: AstId, from: nat) {
    Stands(slots, from, IdsOf(f, id))
  }

  /** Of two parts side by side, each stands in its place. */
  lemma StandsApart<T>(s: seq<T>, at: nat, left: seq<T>, right: seq<T>)
    requires Stands(s, at, left + right)
    ensures Stands(s, at, left) && Stands(s, at + |left|, right)
  {
    var all := s[at..at + |left + right|];
    assert s[at..at + |left|] == all[..|left|];
    assert s[at + |left|..at + |left| + |right|] == all[|left|..];
  }

  lemma StandsFirst<T>(s: seq<T>, at: nat, x: T, rest: seq<T>)
    requires Stands(s, at, [x] + rest)
    ensures at < |s| && s[at] == x && Stands(s, at + 1, rest)
  {
    StandsApart(s, at, [x], rest);
    assert s[at..at + 1][0] == x;
  }

  lemma HoldsRoot(nodes: seq<AstNode>, slots: seq<AstId>, t: Tree, id: AstId, sb: nat, o: OriginTable)
    requires Holds(nodes, slots, t, id, sb, o)
    ensures id < |nodes| && nodes[id] == Record(t, sb, o)
    ensures HoldsAll(nodes, slots, t.kids, id + 1, sb, o)
    ensures HoldsIds(slots, t.kids, id + 1, sb + SlotCount(t.kids))
  {
    LayoutAllLength(t.kids, id + 1, sb, o);
    StandsFirst(nodes, id, Record(t, sb, o), NodesForAll(t.kids, sb, o));
    StandsApart(slots, sb, SlotsForAll(t.kids, id + 1), IdsOf(t.kids, id + 1));
  }

  lemma HoldsSplit(nodes: seq<AstNode>, slots: seq<AstId>, f: Forest, id: AstId, sb: nat, o: OriginTable)
    requires f.Snoc? && HoldsAll(nodes, slots, f, id, sb, o)
    ensures HoldsAll(nodes, slots, f.init, id, sb, o)
    ensures Holds(nodes, slots, f.last, id + SizeAll(f.init), sb + SlotCount(f.init), o)
  {
    var at, next := id + SizeAll(f.init), sb + SlotCount(f.init);
    LayoutAllLength(f.init, id, sb, o);
    StandsApart(nodes, id, NodesForAll(f.init, sb, o), NodesFor(f.last, next, o));
    StandsApart(slots, sb, SlotsForAll(f.init, id), SlotsFor(f.last, at));
  }

  lemma HoldsIdsSplit(slots: seq<AstId>, f: Forest, id: AstId, from: nat)
    requires f.Snoc? && HoldsIds(slots, f, id, from)
    ensures HoldsIds(slots, f.init, id, from)
    ensures from + Count(f.init) < |slots| && slots[from + Count(f.init)] == id + SizeAll(f.init)
  {
    LayoutAllLength(f.init, id, 0, OriginTable(0, []));
    StandsApart(slots, from, IdsOf(f.init, id), [id + SizeAll(f.init)]);
    assert [id + SizeAll(f.init)] + [] == [id + SizeAll(f.init)];
    StandsFirst(slots, from + Count(f.init), id + SizeAll(f.init), []);
  }

  lemma {:induction false} IdsPointForward(slots: seq<AstId>, f: Forest, id: AstId, from: nat)
    requires HoldsIds(slots, f, id, from)
    ensures from + Count(f) <= |slots|
    ensures forall k :: from <= k < from + Count(f) ==> id <= slots[k] < id + SizeAll(f)
  {
    LayoutAllLength(f, id, 0, OriginTable(0, []));
    match f
    case Empty =>
    case Snoc(init, _) =>
      HoldsIdsSplit(slots, f, id, from);
      IdsPointForward(slots, init, id, from);
  }

  // --- reading back what was written -------------------------------------------------

  lemma {:induction false} DecodeReadsBack(nodes: seq<AstNode>, slots: seq<AstId>, t: Tree, id: AstId, sb: nat,
                                           o: OriginTable)
    requires WellFormed(nodes, slots) && Holds(nodes, slots, t, id, sb, o) && TokensAreLeaves(t)
    ensures Decode(nodes, slots, id) == t
    decreases t, 1
  {
    HoldsRoot(nodes, slots, t, id, sb, o);
    var from := sb + SlotCount(t.kids);
    DecodeRangeReadsBack(nodes, slots, t.kids, id, id + 1, sb, from, from + Count(t.kids), o);
  }

  lemma DecodeMore(nodes: seq<AstNode>, slots: seq<AstId>, f: Forest, parent: AstId, from: nat, last: nat, stop: nat)
    requires WellFormed(nodes, slots) && from <= last && stop == last + 1 && parent < |nodes| && f.Snoc?
    requires PointsForward(nodes, slots, parent, from, stop)
    requires DecodeRange(nodes, slots, parent, from, last) == f.init && Decode(nodes, slots, slots[last]) == f.last
    ensures DecodeRange(nodes, slots, parent, from, stop) == f
  {}

  /** The last child of a list is where its slot says it is. */
  lemma LastChild(nodes: seq<AstNode>, slots: seq<AstId>, f: Forest, id: AstId, sb: nat, from: nat, j: nat,
                  o: OriginTable)
    requires f.Snoc? && HoldsAll(nodes, slots, f, id, sb, o) && HoldsIds(slots, f, id, from)
    requires j == from + Count(f.init)
    ensures j < |slots| && Holds(nodes, slots, f.last, slots[j], sb + SlotCount(f.init), o)
    ensures HoldsAll(nodes, slots, f.init, id, sb, o) && HoldsIds(slots, f.init, id, from)
  {
    HoldsSplit(nodes, slots, f, id, sb, o);
    HoldsIdsSplit(slots, f, id, from);
    assert slots[j] == id + SizeAll(f.init);
  }

  lemma {:induction false} DecodeRangeReadsBack(
      nodes: seq<AstNode>, slots: seq<AstId>, f: Forest, parent: AstId, id: AstId, sb: nat, from: nat, stop: nat,
      o: OriginTable)
    requires WellFormed(nodes, slots) && HoldsAll(nodes, slots, f, id, sb, o) && parent < |nodes|
    requires HoldsIds(slots, f, id, from) && TokensAreLeavesAll(f) && stop == from + Count(f)
    requires PointsForward(nodes, slots, parent, from, stop)
    ensures DecodeRange(nodes, slots, parent, from, stop) == f
    decreases f, 0
  {
    if f.Snoc? {
      var j := from + Count(f.init);
      LastChild(nodes, slots, f, id, sb, from, j, o);
      DecodeRangeReadsBack(nodes, slots, f.init, parent, id, sb, from, j, o);
      DecodeReadsBack(nodes, slots, f.last, slots[j], sb + SlotCount(f.init), o);
      DecodeMore(nodes, slots, f, parent, from, j, stop);
    }
  }

  // --- the shape of the arrays -------------------------------------------------------

  /** Nodes `[id, end)` have their slices inside `[sb, slotEnd)`, pointing forward and below `end`. */
  ghost predicate Forward(nodes: seq<AstNode>, slots: seq<AstId>, id: AstId, end: AstId, sb: nat, slotEnd: nat) {
    && end <= |nodes| && slotEnd <= |slots|
    && forall i :: id <= i < end ==>
         (nodes[i].childCount > 0 ==> sb <= nodes[i].firstChild) &&
         nodes[i].firstChild + nodes[i].childCount <= slotEnd &&
         forall k :: nodes[i].firstChild <= k < nodes[i].firstChild + nodes[i].childCount ==> i < slots[k] < end
  }

  ghost predicate Disjoint(a: AstNode, b: AstNode) {
    a.childCount == 0 || b.childCount == 0 ||
    a.firstChild + a.childCount <= b.firstChild || b.firstChild + b.childCount <= a.firstChild
  }

  ghost predicate SlicesDisjoint(nodes: seq<AstNode>, id: AstId, end: AstId)
    requires end <= |nodes|
  {
    forall i, j :: id <= i < j < end ==> Disjoint(nodes[i], nodes[j])
  }

  lemma {:induction false} LayoutShape(nodes: seq<AstNode>, slots: seq<AstId>, t: Tree, id: AstId, sb: nat,
                                       o: OriginTable)
    requires Holds(nodes, slots, t, id, sb, o)
    requires TokensAreLeaves(t)
    ensures Forward(nodes, slots, id, id + Size(t), sb, sb + (Size(t) - 1))
    ensures SlicesDisjoint(nodes, id, id + Size(t))
  {
    HoldsRoot(nodes, slots, t, id, sb, o);
    LayoutLength(t, id, sb, o);
    SlotCountIsSize(t.kids);
    LayoutShapeAll(nodes, slots, t.kids, id + 1, sb, o);
    IdsPointForward(slots, t.kids, id + 1, sb + SlotCount(t.kids));
  }

  lemma {:induction false} LayoutShapeAll(nodes: seq<AstNode>, slots: seq<AstId>, f: Forest, id: AstId, sb: nat,
                                          o: OriginTable)
    requires HoldsAll(nodes, slots, f, id, sb, o)
    requires TokensAreLeavesAll(f)
    ensures Forward(nodes, slots, id, id + SizeAll(f), sb, sb + SlotCount(f))
    ensures SlicesDisjoint(nodes, id, id + SizeAll(f))
  {
    match f
    case Empty =>
    case Snoc(init, last) =>
      HoldsSplit(nodes, slots, f, id, sb, o);
      LayoutShapeAll(nodes, slots, init, id, sb, o);
      LayoutShape(nodes, slots, last, id + SizeAll(init), sb + SlotCount(init), o);
  }

  function Interval(from: nat, n: nat): (r: seq<nat>)
    ensures |r| == n
    ensures forall i :: 0 <= i < n ==> r[i] == from + i
  {
    seq(n, i requires 0 <= i => from + i)
  }

  lemma IntervalJoin(from: nat, a: nat, b: nat)
    ensures multiset(Interval(from, a + b)) == multiset(Interval(from, a)) + multiset(Interval(from + a, b))
  {
    assert Interval(from, a + b) == Interval(from, a) + Interval(from + a, b);
  }

  /** Together, the two lists name every id of `[from, from + n)` exactly once. */
  ghost predicate Partition(a: seq<nat>, b: seq<nat>, from: nat, n: nat) {
    multiset(a) + multiset(b) == multiset(Interval(from, n))
  }

  /** The slots of a tree are its non-root ids, each exactly once. */
  lemma {:induction false} SlotsArePermutation(t: Tree, id: AstId)
    ensures Partition(SlotsFor(t, id), [], id + 1, Size(t) - 1)
  {
    SlotsAndIdsArePermutation(t.kids, id + 1);
    JoinLists(SlotsForAll(t.kids, id + 1), IdsOf(t.kids, id + 1), id + 1, SizeAll(t.kids));
  }

  lemma {:induction false} SlotsAndIdsArePermutation(f: Forest, id: AstId)
    ensures Partition(SlotsForAll(f, id), IdsOf(f, id), id, SizeAll(f))
  {
    match f
    case Empty =>
      assert Interval(id, 0) == [];
    case Snoc(init, last) =>
      SlotsAndIdsArePermutation(init, id);
      SlotsArePermutation(last, id + SizeAll(init));
      SplitInterval(SlotsForAll(init, id), IdsOf(init, id), SlotsFor(last, id + SizeAll(init)), id, SizeAll(init),
                    Size(last), SlotsForAll(f, id), IdsOf(f, id), SizeAll(f));
  }

  lemma JoinLists(a: seq<nat>, b: seq<nat>, from: nat, n: nat)
    requires Partition(a, b, from, n)
    ensures Partition(a + b, [], from, n)
  {}

  lemma OneInterval(from: nat)
    ensures multiset(Interval(from, 1)) == multiset{from}
  {
    assert Interval(from, 1) == [from];
  }

  lemma SplitInterval(slots: seq<nat>, ids: seq<nat>, more: seq<nat>, id: nat, a: nat, b: nat,
                      allSlots: seq<nat>, allIds: seq<nat>, n: nat)
    requires b >= 1 && n == a + b && allSlots == slots + more && allIds == ids + [id + a]
    requires Partition(slots, ids, id, a)
    requires Partition(more, [], id + a + 1, b - 1)
    ensures Partition(allSlots, allIds, id, n)
  {
    IntervalJoin(id, a, b);
    IntervalJoin(id + a, 1, b - 1);
    OneInterval(id + a);
    Gathered(multiset(slots), multiset(ids), multiset(more), multiset{id + a});
  }

  lemma Gathered(slots: multiset<nat>, ids: multiset<nat>, more: multiset<nat>, root: multiset<nat>)
    ensures (slots + more) + (ids + root) == (slots + ids) + (root + more)
  {}

  lemma WholeFileHolds(t: Tree, o: OriginTable)
    ensures var nodes, slots := NodesFor(t, 0, o), SlotsFor(t, 0);
            |nodes| == Size(t) && |slots| == Size(t) - 1 && Holds(nodes, slots, t, 0, 0, o)
  {
    var nodes, slots := NodesFor(t, 0, o), SlotsFor(t, 0);
    LayoutLength(t, 0, 0, o);
    assert nodes[0..Size(t)] == nodes && slots[0..Size(t) - 1] == slots;
  }

  /** A file's arrays: node 0 is the root, every other node fills one slot, and nothing is lost. */
  lemma WholeFile(t: Tree, o: OriginTable)
    requires TokensAreLeaves(t)
    ensures var nodes, slots := NodesFor(t, 0, o), SlotsFor(t, 0);
            && |nodes| == Size(t)
            && WellFormed(nodes, slots)
            && Decode(nodes, slots, 0) == t
            && SlicesDisjoint(nodes, 0, |nodes|)
            && Partition(slots, [], 1, |nodes| - 1)
  {
    var nodes, slots := NodesFor(t, 0, o), SlotsFor(t, 0);
    WholeFileHolds(t, o);
    LayoutShape(nodes, slots, t, 0, 0, o);
    DecodeReadsBack(nodes, slots, t, 0, 0, o);
    SlotsArePermutation(t, 0);
  }
}
