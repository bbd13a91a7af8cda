/** The lowering pass of src/ast/lower.cc, as the class it is. */
module AstLowering {
  import opened MachineWords
  import opened Syntax
  import opened AstTree
  import opened Origins
  import opened AstArrays
  import opened AstItems
  import opened AstNodes
  import opened TreeText

  datatype AstErrorCode = NodeLimit

  datatype AstError = AstError(span: Span, code: AstErrorCode)

  /** The report for the first node that did not fit. */
  function LimitError(t: Tree, o: OriginTable): AstError {
    AstError(o.OriginOf(t.begin, t.end), NodeLimit)
  }

  /** What lowering the trivia-free tree `all` reports when `room` nodes may still be made. */
  function Reported(all: Tree, room: nat, o: OriginTable): seq<AstError> {
    PreOrderSize(all);
    if Size(all) > room then [LimitError(PreOrder(all)[room], o)] else []
  }

  function ReportedAll(f: Forest, room: nat, o: OriginTable): seq<AstError> {
    PreOrderAllSize(f);
    if SizeAll(f) > room then [LimitError(PreOrderAll(f)[room], o)] else []
  }

  /** Once the budget is spent, a further child changes nothing. */
  lemma SpentStep(before: Forest, c: Tree, room: nat, o: OriginTable)
    requires SizeAll(before) > room
    ensures SizeAll(Snoc(before, c)) > room
    ensures TakeAll(Snoc(before, c), room) == TakeAll(before, room)
    ensures ReportedAll(Snoc(before, c), room, o) == ReportedAll(before, room, o)
  {
    TakeAllSize(before, room);
    PreOrderAllSize(before);
  }

  lemma {:induction false} SpentBudget(gs: seq<Green>, i: nat, j: nat, at: nat, inError: bool, room: nat,
                                       o: OriginTable)
    requires i <= j <= |gs|
    requires SizeAll(StripAll(gs[..i], at, inError)) > room
    ensures SizeAll(StripAll(gs[..j], at, inError)) > room
    ensures TakeAll(StripAll(gs[..j], at, inError), room) == TakeAll(StripAll(gs[..i], at, inError), room)
    ensures ReportedAll(StripAll(gs[..j], at, inError), room, o) == ReportedAll(StripAll(gs[..i], at, inError), room, o)
    decreases j
  {
    if i < j {
      SpentBudget(gs, i, j - 1, at, inError, room, o);
      SpentMore(gs, j - 1, j, at, inError, room, o);
    }
  }

  lemma SpentMore(gs: seq<Green>, i: nat, j: nat, at: nat, inError: bool, room: nat, o: OriginTable)
    requires i < |gs| && j == i + 1 && SizeAll(StripAll(gs[..i], at, inError)) > room
    ensures SizeAll(StripAll(gs[..j], at, inError)) > room
    ensures TakeAll(StripAll(gs[..j], at, inError), room) == TakeAll(StripAll(gs[..i], at, inError), room)
    ensures ReportedAll(StripAll(gs[..j], at, inError), room, o) == ReportedAll(StripAll(gs[..i], at, inError), room, o)
  {
    StripOfPrefix(gs, i, at, inError);
    if !gs[i].IsTriviaToken() {
      SpentStep(StripAll(gs[..i], at, inError), Strip(gs[i], at + WidthAll(gs[..i]), inError), room, o);
    }
  }

  /** One more child while there is still room for a node before it. */
  lemma TakenChild(raw: Forest, c: Tree, room: nat)
    requires SizeAll(raw) <= room
    ensures var left := room - SizeAll(raw);
            && TakeAll(raw, room) == raw
            && TakeAll(Snoc(raw, c), room) == (if left == 0 then raw else Snoc(raw, Take(c, left)))
  {
    TakeAllWhole(raw, room);
  }

  /** The node the report names is the one the child's own pre-order has there. */
  lemma ReportedChild(raw: Forest, c: Tree, room: nat, left: nat, o: OriginTable)
    requires SizeAll(raw) + left == room
    ensures ReportedAll(raw, room, o) == []
    ensures ReportedAll(Snoc(raw, c), room, o) == if left == 0 then [LimitError(c, o)] else Reported(c, left, o)
  {
    PreOrderAllSize(raw);
    PreOrderSize(c);
    assert PreOrderAll(Snoc(raw, c)) == PreOrderAll(raw) + PreOrder(c);
  }

  ghost predicate Within(ids: seq<AstId>, low: nat, high: nat) {
    forall i :: 0 <= i < |ids| ==> low <= ids[i] < high
  }

  /** Least begin and greatest end of the nodes `ids` names. */
  ghost function BeginOver(nodes: seq<AstNode>, ids: seq<AstId>): nat
    requires ids != [] && Within(ids, 0, |nodes|)
  {
    var last := nodes[ids[|ids| - 1]].unit.begin;
    if |ids| == 1 then last else Min(BeginOver(nodes, ids[..|ids| - 1]), last)
  }

  ghost function EndOver(nodes: seq<AstNode>, ids: seq<AstId>): nat
    requires ids != [] && Within(ids, 0, |nodes|)
  {
    var last := nodes[ids[|ids| - 1]].unit.end;
    if |ids| == 1 then last else Max(EndOver(nodes, ids[..|ids| - 1]), last)
  }

  lemma OverSnoc(nodes: seq<AstNode>, ids: seq<AstId>, id: AstId)
    requires Within(ids, 0, |nodes|) && id < |nodes|
    ensures Within(ids + [id], 0, |nodes|)
    ensures var unit := nodes[id].unit;
            && BeginOver(nodes, ids + [id]) ==
                (if ids == [] then unit.begin else Min(BeginOver(nodes, ids), unit.begin))
            && EndOver(nodes, ids + [id]) == (if ids == [] then unit.end else Max(EndOver(nodes, ids), unit.end))
  {
    assert (ids + [id])[..|ids|] == ids;
  }

  lemma LastUnit(nodes: seq<AstNode>, slots: seq<AstId>, f: Forest, id: AstId, sb: nat, o: OriginTable)
    requires f.Snoc? && HoldsAll(nodes, slots, f, id, sb, o)
    ensures HoldsAll(nodes, slots, f.init, id, sb, o)
    ensures id + SizeAll(f.init) < |nodes|
    ensures nodes[id + SizeAll(f.init)].unit == Span(o.unit, f.last.begin, f.last.end)
  {
    HoldsSplit(nodes, slots, f, id, sb, o);
    HoldsRoot(nodes, slots, f.last, id + SizeAll(f.init), sb + SlotCount(f.init), o);
  }

  lemma {:induction false} HullOfIds(nodes: seq<AstNode>, slots: seq<AstId>, f: Forest, id: AstId, sb: nat,
                                     o: OriginTable)
    requires f.Snoc? && HoldsAll(nodes, slots, f, id, sb, o)
    ensures IdsOf(f, id) != [] && Within(IdsOf(f, id), id, |nodes|)
    ensures BeginOver(nodes, IdsOf(f, id)) == HullBegin(f)
    ensures EndOver(nodes, IdsOf(f, id)) == HullEnd(f)
  {
    LastUnit(nodes, slots, f, id, sb, o);
    if f.init.Snoc? {
      HullOfIds(nodes, slots, f.init, id, sb, o);
    }
    OverSnoc(nodes, IdsOf(f.init, id), id + SizeAll(f.init));
  }

  datatype State = State(
    nodes: seq<AstNode>, slots: seq<AstId>, open: seq<seq<AstId>>, errors: seq<AstError>, overLimit: bool)

  /** The step from `s` to `now` lowered the tree `all` under the budget `max` and answered `id`. */
  ghost predicate Lowers(o: OriginTable, max: nat, s: State, all: Tree, id: MaybeId, now: State) {
    if s.overLimit || |s.nodes| >= max then
      && id == NoId
      && now == s.(overLimit := true, errors := s.errors + if s.overLimit then [] else [LimitError(all, o)])
    else
      var room := max - |s.nodes|;
      var cut := Tighten(Take(all, room));
      && id == Id(|s.nodes|)
      && now.nodes == s.nodes + NodesFor(cut, |s.slots|, o)
      && now.slots == s.slots + SlotsFor(cut, |s.nodes|)
      && now.open == s.open
      && now.overLimit == (Size(all) > room)
      && now.errors == s.errors + Reported(all, room, o)
  }

  /**
   * Node `own` was pushed in state `s` and `raw` are its children lowered so far: their nodes
   * and slots are in place and their ids stand in the open accumulator.
   */
  ghost predicate Building(o: OriginTable, room: nat, s: State, own: AstNode, raw: Forest, now: State) {
    && Laid(o, s, own, TightenAll(TakeAll(raw, room)), now)
    && now.overLimit == (SizeAll(raw) > room)
    && now.errors == s.errors + ReportedAll(raw, room, o)
  }

  ghost predicate Laid(o: OriginTable, s: State, own: AstNode, kids: Forest, now: State) {
    && now.nodes == s.nodes + [own] + NodesForAll(kids, |s.slots|, o)
    && now.slots == s.slots + SlotsForAll(kids, |s.nodes| + 1)
    && now.open == s.open + [IdsOf(kids, |s.nodes| + 1)]
  }

  /** The accumulator with a child's id added, when the child was lowered. */
  ghost function Accepted(now: State, id: MaybeId): State
    requires now.open != []
  {
    if id.NoId? then now
    else now.(open := now.open[|now.open| - 1 := now.open[|now.open| - 1] + [id.index]])
  }

  lemma AddChild(o: OriginTable, room: nat, s: State, own: AstNode, raw: Forest, c: Tree, mid: State, id: MaybeId,
                 now: State)
    requires Building(o, room, s, own, raw, mid) && !mid.overLimit
    requires Lowers(o, |s.nodes| + 1 + room, mid, c, id, now)
    ensures Building(o, room, s, own, Snoc(raw, c), Accepted(now, id))
  {
    TakenChild(raw, c, room);
    ReportedChild(raw, c, room, room - SizeAll(raw), o);
    TightenAllSize(raw);
    LayoutAllLength(TightenAll(raw), |s.nodes| + 1, |s.slots|, o);
    if SizeAll(raw) < room {
      AddLoweredChild(o, room, s, own, raw, c, mid, id, now);
    } else {
      AddRefusedChild(o, room, s, own, raw, c, mid, id, now);
    }
  }

  lemma AddRefusedChild(o: OriginTable, room: nat, s: State, own: AstNode, raw: Forest, c: Tree, mid: State,
                        id: MaybeId, now: State)
    requires SizeAll(raw) == room && TakeAll(raw, room) == raw && ReportedAll(raw, room, o) == []
    requires TakeAll(Snoc(raw, c), room) == raw && ReportedAll(Snoc(raw, c), room, o) == [LimitError(c, o)]
    requires Building(o, room, s, own, raw, mid) && !mid.overLimit && |mid.nodes| == |s.nodes| + 1 + room
    requires Lowers(o, |s.nodes| + 1 + room, mid, c, id, now)
    ensures Building(o, room, s, own, Snoc(raw, c), Accepted(now, id))
  {}

  lemma AddLoweredChild(o: OriginTable, room: nat, s: State, own: AstNode, raw: Forest, c: Tree, mid: State,
                        id: MaybeId, now: State)
    requires SizeAll(raw) < room && TakeAll(raw, room) == raw && ReportedAll(raw, room, o) == []
    requires TakeAll(Snoc(raw, c), room) == Snoc(raw, Take(c, room - SizeAll(raw)))
    requires ReportedAll(Snoc(raw, c), room, o) == Reported(c, room - SizeAll(raw), o)
    requires Building(o, room, s, own, raw, mid) && !mid.overLimit
    requires Lowers(o, |s.nodes| + 1 + room, mid, c, id, now)
    requires |mid.nodes| == |s.nodes| + 1 + SizeAll(raw) && SizeAll(TightenAll(raw)) == SizeAll(raw)
    requires |mid.slots| == |s.slots| + SlotCount(TightenAll(raw))
    ensures Building(o, room, s, own, Snoc(raw, c), Accepted(now, id))
  {
    var kids, cut := TightenAll(raw), Tighten(Take(c, room - SizeAll(raw)));
    LaidMore(o, s, own, kids, cut, mid, id, now);
    assert TightenAll(TakeAll(Snoc(raw, c), room)) == Snoc(kids, cut);
  }

  lemma LaidMore(o: OriginTable, s: State, own: AstNode, kids: Forest, cut: Tree, mid: State, id: MaybeId, now: State)
    requires Laid(o, s, own, kids, mid) && now.open == mid.open && id == Id(|mid.nodes|)
    requires |mid.nodes| == |s.nodes| + 1 + SizeAll(kids) && |mid.slots| == |s.slots| + SlotCount(kids)
    requires now.nodes == mid.nodes + NodesFor(cut, |mid.slots|, o)
    requires now.slots == mid.slots + SlotsFor(cut, |mid.nodes|)
    ensures Laid(o, s, own, Snoc(kids, cut), Accepted(now, id))
  {
    NodesOfSnoc(s.nodes + [own], kids, cut, |s.slots|, o, mid.nodes, now.nodes);
    SlotsOfSnoc(s.slots, kids, cut, |s.nodes| + 1, mid.slots, now.slots);
    OpenOfSnoc(s.open, kids, cut, |s.nodes| + 1, mid, id);
  }

  lemma OpenOfSnoc(before: seq<seq<AstId>>, kids: Forest, cut: Tree, first: AstId, mid: State, id: MaybeId)
    requires mid.open == before + [IdsOf(kids, first)] && id == Id(first + SizeAll(kids))
    ensures Accepted(mid, id).open == before + [IdsOf(Snoc(kids, cut), first)]
  {}

  lemma NodesOfSnoc(before: seq<AstNode>, kids: Forest, cut: Tree, sb: nat, o: OriginTable, mid: seq<AstNode>,
                    now: seq<AstNode>)
    requires mid == before + NodesForAll(kids, sb, o)
    requires now == mid + NodesFor(cut, sb + SlotCount(kids), o)
    ensures now == before + NodesForAll(Snoc(kids, cut), sb, o)
  {}

  lemma SlotsOfSnoc(before: seq<AstId>, kids: Forest, cut: Tree, id: AstId, mid: seq<AstId>, now: seq<AstId>)
    requires mid == before + SlotsForAll(kids, id)
    requires now == mid + SlotsFor(cut, id + SizeAll(kids))
    ensures now == before + SlotsForAll(Snoc(kids, cut), id)
  {}

  /** Leaving the child loop early is leaving it with a spent budget. */
  lemma AllChildren(o: OriginTable, room: nat, s: State, own: AstNode, gs: seq<Green>, i: nat, at: nat, inError: bool,
                    now: State)
    requires i <= |gs| && Building(o, room, s, own, StripAll(gs[..i], at, inError), now)
    requires i == |gs| || now.overLimit
    ensures Building(o, room, s, own, StripAll(gs, at, inError), now)
  {
    assert gs[..|gs|] == gs;
    if i < |gs| {
      SpentBudget(gs, i, |gs|, at, inError, room, o);
    }
  }

  lemma AppendedHolds(before: seq<AstNode>, slots: seq<AstId>, f: Forest, id: AstId, nodes: seq<AstNode>,
                      all: seq<AstId>, o: OriginTable)
    requires id == |before| && nodes == before + NodesForAll(f, |slots|, o) && all == slots + SlotsForAll(f, id)
    ensures HoldsAll(nodes, all, f, id, |slots|, o) && |IdsOf(f, id)| == Count(f)
  {
    LayoutAllLength(f, id, |slots|, o);
  }

  /** The children just built are found in the arrays, after the node that owns them. */
  lemma KidsWithin(o: OriginTable, room: nat, s: State, own: AstNode, raw: Forest, now: State)
    requires Building(o, room, s, own, raw, now)
    ensures var kids := TightenAll(TakeAll(raw, room));
            && HoldsAll(now.nodes, now.slots, kids, |s.nodes| + 1, |s.slots|, o)
            && Within(IdsOf(kids, |s.nodes| + 1), |s.nodes| + 1, |now.nodes|)
            && now.nodes[|s.nodes|] == own
            && |IdsOf(kids, |s.nodes| + 1)| == Count(kids)
  {
    var kids := TightenAll(TakeAll(raw, room));
    AppendedHolds(s.nodes + [own], s.slots, kids, |s.nodes| + 1, now.nodes, now.slots, o);
    if kids.Snoc? {
      HullOfIds(now.nodes, now.slots, kids, |s.nodes| + 1, |s.slots|, o);
    }
  }

  /** Patching a node that is not among `ids` moves no hull. */
  lemma {:induction false} SameSpan(nodes: seq<AstNode>, patched: seq<AstNode>, self: AstId, ids: seq<AstId>)
    requires self < |nodes| == |patched| && Within(ids, self + 1, |nodes|)
    requires forall i :: 0 <= i < |nodes| && i != self ==> patched[i] == nodes[i]
    ensures ids != [] ==> BeginOver(patched, ids) == BeginOver(nodes, ids)
    ensures ids != [] ==> EndOver(patched, ids) == EndOver(nodes, ids)
  {
    if |ids| > 1 {
      SameSpan(nodes, patched, self, ids[..|ids| - 1]);
    }
  }

  /** The open node's record, before its children are known. */
  function Opening(t: Tree, o: OriginTable): AstNode {
    AstNode(t.kind, o.OriginOf(t.begin, t.end), Span(o.unit, t.begin, t.end), 0, 0, t.name, t.inError)
  }

  /** The extent read off the children's records is the tightened tree's own. */
  lemma ClosedSpan(o: OriginTable, nodes: seq<AstNode>, slots: seq<AstId>, id: AstId, sb: nat, all: Tree, room: nat)
    requires !all.kind.IsToken()
    requires HoldsAll(nodes, slots, TightenAll(TakeAll(all.kids, room)), id, sb, o)
    ensures var ids := IdsOf(TightenAll(TakeAll(all.kids, room)), id);
            var cut := Tighten(Take(all, room + 1));
            && Within(ids, id, |nodes|)
            && cut.begin == (if ids == [] then all.begin else BeginOver(nodes, ids))
            && cut.end == (if ids == [] then all.begin else EndOver(nodes, ids))
  {
    var kids := TightenAll(TakeAll(all.kids, room));
    if kids.Snoc? {
      HullOfIds(nodes, slots, kids, id, sb, o);
    }
  }

  /** Patching the node's slice and span, and appending its ids, finishes its subtree. */
  lemma CloseNode(o: OriginTable, room: nat, s: State, all: Tree, mid: State, now: State)
    requires !s.overLimit
    requires Building(o, room, s, Opening(all, o), all.kids, mid)
    requires var cut := Tighten(Take(all, room + 1));
             var ids := IdsOf(TightenAll(TakeAll(all.kids, room)), |s.nodes| + 1);
             && |s.nodes| < |mid.nodes|
             && now.nodes == mid.nodes[|s.nodes| := AstNode(all.kind, o.OriginOf(cut.begin, cut.end),
                                                            Span(o.unit, cut.begin, cut.end),
                                                            |mid.slots|, |ids|, all.name, all.inError)]
             && now.slots == mid.slots + ids
    requires !all.kind.IsToken()
    requires now.open == s.open && now.overLimit == mid.overLimit && now.errors == mid.errors
    ensures Lowers(o, |s.nodes| + 1 + room, s, all, Id(|s.nodes|), now)
  {
    var cut := Tighten(Take(all, room + 1));
    LayoutAllLength(cut.kids, |s.nodes| + 1, |s.slots|, o);
    assert cut.kids == TightenAll(TakeAll(all.kids, room));
    ClosedArrays(o, s, Opening(all, o), cut, mid, now);
    ReportedInside(all, room, o);
  }

  lemma ReportedInside(all: Tree, room: nat, o: OriginTable)
    ensures Reported(all, room + 1, o) == ReportedAll(all.kids, room, o)
  {}

  lemma ClosedArrays(o: OriginTable, s: State, own: AstNode, cut: Tree, mid: State, now: State)
    requires Laid(o, s, own, cut.kids, mid) && |s.nodes| < |mid.nodes|
    requires now.nodes == mid.nodes[|s.nodes| := Record(cut, |s.slots|, o)]
    requires now.slots == mid.slots + IdsOf(cut.kids, |s.nodes| + 1)
    ensures now.nodes == s.nodes + NodesFor(cut, |s.slots|, o) && now.slots == s.slots + SlotsFor(cut, |s.nodes|)
  {
    Patched(s.nodes, own, NodesForAll(cut.kids, |s.slots|, o), Record(cut, |s.slots|, o));
  }

  /** The node written first, replaced where it stands. */
  lemma Patched(before: seq<AstNode>, opening: AstNode, below: seq<AstNode>, record: AstNode)
    ensures (before + [opening] + below)[|before| := record] == before + [record] + below
  {}

  class Lowerer {
    const origins: OriginTable
    const maxNodes: nat
    var nodes: seq<AstNode>
    var slots: seq<AstId>
    var open: seq<seq<AstId>>
    var errors: seq<AstError>
    var overLimit: bool

    constructor (origins: OriginTable, maxNodes: nat)
      ensures this.origins == origins && this.maxNodes == maxNodes
      ensures nodes == [] && slots == [] && open == [] && errors == [] && !overLimit
    {
      this.origins, this.maxNodes := origins, maxNodes;
      nodes, slots, open, errors, overLimit := [], [], [], [], false;
    }

    /** One node, or the budget's one report and no node. */
    method PushNode(kind: SyntaxKind, offset: nat, width: nat, inError: bool, name: Symbol) returns (id: MaybeId)
      modifies this`nodes, this`errors, this`overLimit
      ensures |old(nodes)| < maxNodes ==>
        && id == Id(|old(nodes)|)
        && nodes == old(nodes) + [AstNode(kind, origins.OriginOf(offset, offset + width),
                                          Span(origins.unit, offset, offset + width), 0, 0, name, inError)]
        && errors == old(errors) && overLimit == old(overLimit)
      ensures |old(nodes)| >= maxNodes ==>
        && id == NoId && nodes == old(nodes) && overLimit
        && errors == old(errors) +
           if old(overLimit) then [] else [AstError(origins.OriginOf(offset, offset + width), NodeLimit)]
    {
      var origin := origins.OriginOf(offset, offset + width);
      if |nodes| >= maxNodes {
        if !overLimit {
          overLimit := true;
          errors := errors + [AstError(origin, NodeLimit)];
        }
        return NoId;
      }
      nodes := nodes + [AstNode(kind, origin, Span(origins.unit, offset, offset + width), 0, 0, name, inError)];
      id := Id(|nodes| - 1);
    }

    /** The extent of node `id` after trivia was dropped: its children's hull, or zero width. */
    method TightenSpan(id: AstId, kids: seq<AstId>)
      requires id < |nodes| && Within(kids, id + 1, |nodes|)
      modifies this`nodes
      ensures var was := old(nodes[id]);
              var begin := if kids == [] then was.unit.begin else BeginOver(old(nodes), kids);
              var end := if kids == [] then was.unit.begin else EndOver(old(nodes), kids);
              nodes == old(nodes)[id := was.(unit := Span(was.unit.file, begin, end),
                                             origin := origins.OriginOf(begin, end))]
    {
      var self := nodes[id];
      if kids == [] {
        nodes := nodes[id := self.(unit := Span(self.unit.file, self.unit.begin, self.unit.begin),
                                   origin := origins.OriginOf(self.unit.begin, self.unit.begin))];
        return;
      }
      var begin, end := nodes[kids[0]].unit.begin, nodes[kids[0]].unit.end;
      for k := 0 to |kids|
        invariant k == 0 ==> begin == nodes[kids[0]].unit.begin && end == nodes[kids[0]].unit.end
        invariant k > 0 ==> begin == BeginOver(nodes, kids[..k]) && end == EndOver(nodes, kids[..k])
      {
        var span := nodes[kids[k]].unit;
        assert kids[..k + 1][..k] == kids[..k];
        begin := if begin < span.begin then begin else span.begin;
        end := if end < span.end then span.end else end;
      }
      assert kids[..|kids|] == kids;
      nodes := nodes[id := self.(unit := Span(self.unit.file, begin, end), origin := origins.OriginOf(begin, end))];
    }

    ghost function Now(): State
      reads this
    {
      State(nodes, slots, open, errors, overLimit)
    }

    method LowerToken(token: TokenKind, text: string, offset: nat, inError: bool) returns (id: MaybeId)
      modifies this`nodes, this`errors, this`overLimit
      ensures Lowers(origins, maxNodes, old(Now()), Strip(Token(token, text), offset, inError), id, Now())
    {
      if overLimit {
        return NoId;
      }
      var name := NoSymbol;
      if token.Identifier? {
        name := Symbol(text);
      }
      id := PushNode(Tok(token), offset, |text|, inError, name);
    }

    method LowerChild(child: Green, at: nat, inError: bool, ghost s: State, ghost own: AstNode, ghost raw: Forest)
      requires |s.nodes| < maxNodes && !child.IsTriviaToken() && !overLimit
      requires Building(origins, maxNodes - |s.nodes| - 1, s, own, raw, Now())
      modifies this
      ensures Building(origins, maxNodes - |s.nodes| - 1, s, own, Snoc(raw, Strip(child, at, inError)), Now())
      decreases child, 1
    {
      ghost var mid := Now();
      var childId;
      match child {
        case Token(token, text) => childId := LowerToken(token, text, at, inError);
        case Node(_, _) => childId := LowerNode(child, at, inError);
      }
      AddChild(origins, maxNodes - |s.nodes| - 1, s, own, raw, Strip(child, at, inError), mid, childId, Now());
      Accept(childId);
    }

    /** The child's id joins the open list, when the child was lowered. */
    method Accept(childId: MaybeId)
      requires open != []
      modifies this
      ensures Now() == Accepted(old(Now()), childId)
    {
      if childId != NoId {
        open := open[|open| - 1 := open[|open| - 1] + [childId.index]];
      }
    }

    method LowerNode(g: Green, offset: nat, inError: bool) returns (id: MaybeId)
      requires g.Node?
      modifies this
      ensures Lowers(origins, maxNodes, old(Now()), Strip(g, offset, inError), id, Now())
      decreases g, 0
    {
      if overLimit {
        return NoId;
      }
      var error := inError || g.kind.Error?;
      id := PushNode(Inner(g.kind), offset, Width(g), error, NameOf(g));
      if id == NoId {
        return;
      }
      var self := id.index;
      ghost var s := old(Now());
      open := open + [[]];
      LowerChildren(g.children, offset, error, s, nodes[self]);
      Close(self, s, Strip(g, offset, inError));
    }

    method LowerChildren(children: seq<Green>, offset: nat, error: bool, ghost s: State, ghost own: AstNode)
      requires |s.nodes| < maxNodes && Building(origins, maxNodes - |s.nodes| - 1, s, own, Empty, Now())
      modifies this
      ensures Building(origins, maxNodes - |s.nodes| - 1, s, own, StripAll(children, offset, error), Now())
      decreases children, 2
    {
      ghost var room := maxNodes - |s.nodes| - 1;
      var i := 0;
      while i < |children| && !overLimit
        invariant 0 <= i <= |children|
        invariant Building(origins, room, s, own, StripAll(children[..i], offset, error), Now())
      {
        var child := children[i];
        StripOfPrefix(children, i, offset, error);
        if !child.IsTriviaToken() {
          LowerChild(child, offset + WidthAll(children[..i]), error, s, own, StripAll(children[..i], offset, error));
        }
        i := i + 1;
      }
      AllChildren(origins, room, s, own, children, i, offset, error, Now());
    }

    /** The end of a node: its children's ids become its slice and their hull its span. */
    method Close(self: AstId, ghost s: State, ghost all: Tree)
      requires !s.overLimit && self == |s.nodes| < maxNodes && !all.kind.IsToken()
      requires Building(origins, maxNodes - |s.nodes| - 1, s, Opening(all, origins), all.kids, Now())
      modifies this
      ensures Lowers(origins, maxNodes, s, all, Id(self), Now())
    {
      ghost var room, mid := maxNodes - self - 1, Now();
      KidsWithin(origins, room, s, Opening(all, origins), all.kids, mid);
      ClosedSpan(origins, mid.nodes, mid.slots, self + 1, |s.slots|, all, room);
      var kids := open[|open| - 1];
      open := open[..|open| - 1];
      nodes := nodes[self := nodes[self].(firstChild := |slots|, childCount := |kids|)];
      slots := slots + kids;
      TightenSpan(self, kids);
      SameSpan(mid.nodes, old(nodes)[self := mid.nodes[self].(firstChild := |mid.slots|, childCount := |kids|)], self,
               kids);
      CloseNode(origins, room, s, all, mid, Now());
    }
  }

  const MAX_NESTING_DEPTH := 1024

  datatype LowerOutput = LowerOutput(nodes: seq<AstNode>, slots: seq<AstId>, items: seq<Item>, errors: seq<AstError>)

  /** What lowering the file `root` leaves under a budget of at least one node. */
  function LoweredFile(root: Green, maxNodes: nat): Tree
    requires maxNodes >= 1
  {
    Tighten(Take(Strip(root, 0, false), maxNodes))
  }

  /** The finished arrays hold the tree `t` and nothing else. */
  ghost predicate Represents(nodes: seq<AstNode>, slots: seq<AstId>, t: Tree, o: OriginTable) {
    && |nodes| == Size(t)
    && WellFormed(nodes, slots)
    && Decode(nodes, slots, 0) == t
    && SlicesDisjoint(nodes, 0, |nodes|)
    && Partition(slots, [], 1, |nodes| - 1)
    && Traced(nodes, o)
    && InPreOrder(nodes, PreOrder(t), o.unit)
  }

  /** The first element that does not fit is reported, over its whole text, and nothing else. */
  ghost function LimitReports(g: Green, room: nat, o: OriginTable): seq<AstError> {
    var es := Elements(g, 0);
    if |es| <= room then []
    else [AstError(o.OriginOf(es[room].at, es[room].at + |Text(es[room].g)|), NodeLimit)]
  }

  lemma ReportedIsLimit(g: Green, room: nat, o: OriginTable)
    ensures Reported(Strip(g, 0, false), room, o) == LimitReports(g, room, o)
  {
    StripCoversText(g, 0, false);
    PreOrderSize(Strip(g, 0, false));
  }

  /**
   * `lowerFile`. The arrays read back as the file without its trivia, cut at the node budget;
   * the budget is reported once when it was reached and not otherwise; the items are the
   * signatures of that tree's file-scope declarations. Record for record, the nodes stand for the
   * file's significant elements, parents first, each with its name and a leaf with its text.
   */
  method LowerFile(root: Green, origins: OriginTable, maxNodes: nat) returns (out: LowerOutput)
    requires root.Node?
    ensures Depth(root) > 1024 ==>
      out == LowerOutput([], [], [], [AstError(Span(origins.unit, 0, 0), NodeLimit)])
    ensures Depth(root) <= 1024 && maxNodes == 0 ==>
      out.nodes == [] && out.slots == [] && out.items == []
    ensures Depth(root) <= 1024 ==> out.errors == LimitReports(root, maxNodes, origins)
    ensures Depth(root) <= 1024 && maxNodes > 0 ==>
      && Represents(out.nodes, out.slots, LoweredFile(root, maxNodes), origins)
      && StandForFile(out.nodes, origins.unit, root, maxNodes)
      && SignaturesOf(out.items) == Signatures(LoweredFile(root, maxNodes).kids, origins)
      && forall k :: 0 <= k < |out.items| ==> ItemStands(out.nodes, out.slots, origins, 0, out.items[k])
  {
    if Depth(root) > MAX_NESTING_DEPTH {
      return LowerOutput([], [], [], [AstError(Span(origins.unit, 0, 0), NodeLimit)]);
    }
    ReportedIsLimit(root, maxNodes, origins);
    var lowerer := new Lowerer(origins, maxNodes);
    var id := lowerer.LowerNode(root, 0, false);
    var items := [];
    if id != NoId {
      FileArrays(root, origins, maxNodes, id, lowerer.Now());
      RecordsStandForFile(lowerer.nodes, origins.unit, root, maxNodes);
      items := CollectItems(lowerer.nodes, lowerer.slots, origins, id.index);
      LoweredItems(lowerer.nodes, lowerer.slots, LoweredFile(root, maxNodes), origins, items);
    }
    out := LowerOutput(lowerer.nodes, lowerer.slots, items, lowerer.errors);
  }

  lemma LoweredItems(nodes: seq<AstNode>, slots: seq<AstId>, t: Tree, o: OriginTable, items: seq<Item>)
    requires Represents(nodes, slots, t, o) && |nodes| > 0 && ItemsAre(nodes, slots, o, 0, items)
    ensures SignaturesOf(items) == Signatures(t.kids, o)
    ensures forall k :: 0 <= k < |items| ==> ItemStands(nodes, slots, o, 0, items[k])
  {}

  lemma FileArrays(root: Green, o: OriginTable, max: nat, id: MaybeId, now: State)
    requires max > 0 && Lowers(o, max, State([], [], [], [], false), Strip(root, 0, false), id, now)
    ensures id == Id(0) && Represents(now.nodes, now.slots, LoweredFile(root, max), o)
    ensures now.errors == Reported(Strip(root, 0, false), max, o)
  {
    var t := LoweredFile(root, max);
    LoweredIsWellFormed(root, max);
    assert now.nodes == NodesFor(t, 0, o) && now.slots == SlotsFor(t, 0);
    LayoutRepresents(t, o);
  }

  lemma LayoutRepresents(t: Tree, o: OriginTable)
    requires TokensAreLeaves(t)
    ensures Represents(NodesFor(t, 0, o), SlotsFor(t, 0), t, o)
  {
    WholeFile(t, o);
    LayoutIsTraced(t, 0, o);
    RecordsInPreOrder(t, 0, o);
  }

  /** A file within the budget loses nothing; one past it keeps exactly `maxNodes` nodes and says so once. */
  lemma BudgetReport(root: Green, maxNodes: nat, o: OriginTable)
    requires maxNodes >= 1
    ensures var all := Strip(root, 0, false);
            var errors := Reported(all, maxNodes, o);
            && PrefixByHead(PreOrder(Take(all, maxNodes)), PreOrder(all))
            && Size(LoweredFile(root, maxNodes)) == Min(maxNodes, Size(all))
            && (Size(all) <= maxNodes ==> errors == [] && LoweredFile(root, maxNodes) == Tighten(all))
            && (Size(all) > maxNodes ==> |errors| == 1 && errors[0].code == NodeLimit)
  {
    var all := Strip(root, 0, false);
    LoweredIsWellFormed(root, maxNodes);
    TakeIsPreOrderPrefix(all, maxNodes);
    if Size(all) <= maxNodes {
      TakeWhole(all, maxNodes);
    }
  }

  /** Spans and error marks of every lowered file, whatever the budget cut. */
  lemma LoweredSpans(root: Green, maxNodes: nat)
    requires maxNodes >= 1
    ensures Neat(LoweredFile(root, maxNodes)) && Exact(LoweredFile(root, maxNodes))
    ensures ErrorsMarked(LoweredFile(root, maxNodes), false)
    ensures LoweredFile(root, maxNodes).end <= Width(root)
  {
    var all := Strip(root, 0, false);
    StripIsNeat(root, 0, false);
    StripKeepsLeaves(root, 0, false);
    TakeIsNeat(all, maxNodes, false);
    TakeKeepsLeaves(all, maxNodes);
    TightenIsNeat(Take(all, maxNodes), false);
  }

  lemma LoweredIsWellFormed(root: Green, maxNodes: nat)
    requires maxNodes >= 1
    ensures TokensAreLeaves(LoweredFile(root, maxNodes))
    ensures Size(LoweredFile(root, maxNodes)) == Min(maxNodes, Size(Strip(root, 0, false)))
  {
    var all := Strip(root, 0, false);
    StripKeepsLeaves(root, 0, false);
    TakeKeepsLeaves(all, maxNodes);
    TightenKeepsLeaves(Take(all, maxNodes));
    TakeSize(all, maxNodes);
    TightenSize(Take(all, maxNodes));
  }
}
