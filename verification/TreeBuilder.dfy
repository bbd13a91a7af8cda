/** Events to green tree: src/syntax/builder.cc. */
module TreeBuilder {
  import opened MachineWords
  import opened Syntax
  import opened ParserEvents

  /** One raw token of the stream, trivia included. */
  datatype Raw = Raw(kind: TokenKind, text: string)

  function LeafOf(r: Raw): Green { Green.Token(r.kind, r.text) }

  /** The leaves of raw tokens `[from, stop)`. */
  function Leaves(stream: seq<Raw>, from: nat, stop: nat): seq<Green>
    requires from <= stop <= |stream|
  {
    if from == stop then [] else Leaves(stream, from, stop - 1) + [LeafOf(stream[stop - 1])]
  }

  /** The first significant raw token at or after `raw`, or the end. */
  function AfterTrivia(stream: seq<Raw>, raw: nat): (r: nat)
    requires raw <= |stream|
    ensures raw <= r <= |stream|
    ensures r < |stream| ==> !IsTrivia(stream[r].kind)
    decreases |stream| - raw
  {
    if raw < |stream| && IsTrivia(stream[raw].kind) then AfterTrivia(stream, raw + 1) else raw
  }

  // --- the tree a piece means ---------------------------------------------------------

  /** The children a piece contributes to the node around it, or the stream ran out. */
  datatype Grown = Exhausted | Grown(children: seq<Green>, raw: nat)

  function Grow(p: Piece, stream: seq<Raw>, raw: nat): (g: Grown)
    requires raw <= |stream|
    ensures g.Grown? ==> raw <= g.raw <= |stream|
    decreases p
  {
    match p
    case Leaf(token, missing) =>
      var at := AfterTrivia(stream, raw);
      if missing then Grown(Leaves(stream, raw, at) + [Green.Token(token, "")], at)
      else if at == |stream| then Exhausted
      else Grown(Leaves(stream, raw, at + 1), at + 1)
    case Node(kind, body, links) =>
      var inside := GrowAll(body, stream, raw);
      if inside.Exhausted? then Exhausted
      else GrowLinks(Green.Node(kind, inside.children), links, stream, inside.raw)
    case Loose(body) => GrowAll(body, stream, raw)
  }

  function GrowAll(ps: Pieces, stream: seq<Raw>, raw: nat): (g: Grown)
    requires raw <= |stream|
    ensures g.Grown? ==> raw <= g.raw <= |stream|
    decreases ps
  {
    match ps
    case Nil => Grown([], raw)
    case Then(first, rest) =>
      var a := Grow(first, stream, raw);
      if a.Exhausted? then Exhausted
      else
        var b := GrowAll(rest, stream, a.raw);
        if b.Exhausted? then Exhausted else Grown(a.children + b.children, b.raw)
  }

  /**
   * Each adopter holds the node before it, the siblings in between, and its own content. One that is
   * abandoned is meant to leave all of that to the node around it.
   */
  function GrowLinks(node: Green, links: Links, stream: seq<Raw>, raw: nat): (g: Grown)
    requires raw <= |stream|
    ensures g.Grown? ==> raw <= g.raw <= |stream|
    decreases links
  {
    match links
    case Done => Grown([node], raw)
    case Link(between, kind, rest, next) =>
      var a := GrowAll(between, stream, raw);
      if a.Exhausted? then Exhausted
      else
        var b := GrowAll(rest, stream, a.raw);
        if b.Exhausted? then Exhausted
        else GrowLinks(Green.Node(kind, [node] + a.children + b.children), next, stream, b.raw)
    case Dropped(between, rest) =>
      var a := GrowAll(between, stream, raw);
      if a.Exhausted? then Exhausted
      else
        var b := GrowAll(rest, stream, a.raw);
        if b.Exhausted? then Exhausted else Grown([node] + a.children + b.children, b.raw)
  }

  /** How many adopters of a piece are abandoned. */
  function Drops(p: Piece): nat {
    match p
    case Leaf(_, _) => 0
    case Node(_, body, links) => DropsAll(body) + DropsLinks(links)
    case Loose(body) => DropsAll(body)
  }

  function DropsAll(ps: Pieces): nat {
    match ps
    case Nil => 0
    case Then(first, rest) => Drops(first) + DropsAll(rest)
  }

  function DropsLinks(links: Links): nat {
    match links
    case Done => 0
    case Link(between, _, rest, next) => DropsAll(between) + DropsAll(rest) + DropsLinks(next)
    case Dropped(between, rest) => 1 + DropsAll(between) + DropsAll(rest)
  }

  // --- the machine ----------------------------------------------------------------------

  datatype Frame = Frame(kind: NodeKind, children: seq<Green>)

  datatype Root = NoRoot | Root(tree: Green)

  datatype State = State(frames: seq<Frame>, raw: nat, root: Root, maxDepth: nat)

  datatype Outcome = Refused | Running(state: State)

  /** What an adopter's slot says when a chain reaches it; a tombstone reads as an `Error` node. */
  function SlotKind(e: Event): NodeKind { if e.Start? then e.kind else Error }
  function SlotHop(e: Event): nat { if e.Start? then e.forwardParent else 0 }

  /** The adopters of the node at `at`, innermost first, and the events with their slots spent. */
  function Walk(es: seq<Event>, at: nat, hop: nat): (r: (seq<NodeKind>, seq<Event>))
    requires at < |es|
    ensures |r.1| == |es|
    decreases |es| - at
  {
    if hop == 0 || at + hop >= |es| then ([], es)
    else
      var next := at + hop;
      var (kinds, spent) := Walk(es[next := Tombstone], next, SlotHop(es[next]));
      ([SlotKind(es[next])] + kinds, spent)
  }

  /** Opens nodes from the outside in: the last kind first. */
  function Open(frames: seq<Frame>, kinds: seq<NodeKind>): (r: seq<Frame>)
    ensures |r| == |frames| + |kinds|
  {
    if kinds == [] then frames else Open(frames, kinds[1..]) + [Frame(kinds[0], [])]
  }

  function AddChildren(frames: seq<Frame>, gs: seq<Green>): seq<Frame>
    requires frames != []
  {
    var n := |frames| - 1;
    frames[n := frames[n].(children := frames[n].children + gs)]
  }

  function Opened(st: State, kinds: seq<NodeKind>): State {
    var frames := Open(st.frames, kinds);
    st.(frames := frames, maxDepth := Max(st.maxDepth, |frames|))
  }

  function Closed(stream: seq<Raw>, st: State): Outcome
    requires st.raw <= |stream|
  {
    if st.frames == [] then Refused
    else
      var n := |st.frames| - 1;
      var frame := st.frames[n];
      if n == 0 then
        Running(State([], |stream|, Root(Green.Node(frame.kind, frame.children + Leaves(stream, st.raw, |stream|))),
            st.maxDepth))
      else
        Running(st.(frames := AddChildren(st.frames[..n], [Green.Node(frame.kind, frame.children)])))
  }

  function Emitted(stream: seq<Raw>, st: State, token: TokenKind, missing: bool): Outcome
    requires st.raw <= |stream|
  {
    var at := AfterTrivia(stream, st.raw);
    if st.frames == [] then Refused
    else if missing then
      Running(st.(raw := at, frames := AddChildren(st.frames, Leaves(stream, st.raw, at) + [Green.Token(token, "")])))
    else if at == |stream| then Refused
    else Running(st.(raw := at + 1, frames := AddChildren(st.frames, Leaves(stream, st.raw, at + 1))))
  }

  function Run(es: seq<Event>, stream: seq<Raw>, st: State): Outcome
    requires st.raw <= |stream|
    decreases |es|
  {
    if es == [] then Running(st)
    else
      match es[0]
      case Tombstone => Run(es[1..], stream, st)
      case Start(kind, hop) =>
        var (kinds, spent) := Walk(es, 0, hop);
        Run(spent[1..], stream, Opened(st, [kind] + kinds))
      case Finish =>
        var next := Closed(stream, st);
        if next.Refused? then Refused else Run(es[1..], stream, next.state)
      case Token(token, missing) =>
        var next := Emitted(stream, st, token, missing);
        if next.Refused? then Refused else Run(es[1..], stream, next.state)
  }

  const INITIAL := State([], 0, NoRoot, 0)

  /** A tree comes out exactly when every node was closed and a root was made. */
  function Result(o: Outcome): Root {
    if o.Running? && o.state.frames == [] then o.state.root else NoRoot
  }

  // --- the machine builds the tree --------------------------------------------------------

  /** `gs` appended to the open node, the stream read up to `raw`. */
  function Added(st: State, gs: seq<Green>, raw: nat): State
    requires st.frames != []
  {
    st.(frames := AddChildren(st.frames, gs), raw := raw, maxDepth := Max(st.maxDepth, |st.frames| + DepthAll(gs)))
  }

  function KindsOf(links: Links): seq<NodeKind> {
    match links
    case Done => []
    case Link(_, kind, _, next) => [kind] + KindsOf(next)
    case Dropped(_, _) => [Error]
  }

  lemma AddTwice(st: State, a: seq<Green>, mid: nat, b: seq<Green>, raw: nat)
    requires st.frames != []
    ensures Added(Added(st, a, mid), b, raw) == Added(st, a + b, raw)
  {
    DepthOfConcat(a, b);
    var n := |st.frames| - 1;
    assert st.frames[n].children + a + b == st.frames[n].children + (a + b);
  }

  /** The slot of an adopter in a list written out around it. */
  lemma SlotIn(before: seq<Event>, a: seq<Event>, slot: Event, b: seq<Event>, tail: seq<Event>, at: nat)
    requires at == |before| + |a|
    ensures var es := before + (a + [slot] + b + [Finish] + tail);
            && at < |es| && es[at] == slot
            && es[at := Tombstone] == before + a + [Tombstone] + b + [Finish] + tail
            && before + (a + [Tombstone] + b + [Finish] + tail) == before + a + [Tombstone] + b + [Finish] + tail
  {}

  /** A chain of adopters is found from the node it starts at, and spent. */
  lemma {:induction false} WalkLinks(before: seq<Event>, links: Links, k: seq<Event>, at: nat, hop: nat)
    requires at < |before| + |EventsOfLinks(links, k)|
    requires if links.Done? then hop == 0 else at < |before| && at + hop == |before| + LengthAll(links.between)
    ensures Walk(before + EventsOfLinks(links, k), at, hop) == (KindsOf(links), before + SpentLinks(links, k))
    decreases links
  {
    match links
    case Done =>
    case Link(between, kind, rest, next) =>
      var es := before + EventsOfLinks(links, k);
      var slot := Start(kind, Hop(rest, next));
      var a, b := EventsOfAll(between, []), EventsOfAll(rest, []);
      LinkBefore(between, slot, rest, EventsOfLinks(next, k));
      LinkBefore(between, Tombstone, rest, SpentLinks(next, k));
      var own := before + a + [Tombstone] + b + [Finish];
      SlotIn(before, a, slot, b, EventsOfLinks(next, k), at + hop);
      SlotIn(before, a, slot, b, SpentLinks(next, k), at + hop);
      WalkLinks(own, next, k, at + hop, Hop(rest, next));
    case Dropped(between, rest) =>
      DroppedBefore(between, rest, k);
      SlotOfDropped(before, EventsOfAll(between, []), EventsOfAll(rest, []) + k, at + hop);
      WalkToTombstone(before + EventsOfLinks(links, k), at, hop);
  }

  lemma SlotOfDropped(before: seq<Event>, a: seq<Event>, tail: seq<Event>, at: nat)
    requires at == |before| + |a|
    ensures var es := before + (a + [Tombstone] + tail); at < |es| && es[at] == Tombstone
  {}

  /** The walk takes a tombstone for an `Error` node and stops there. */
  lemma WalkToTombstone(es: seq<Event>, at: nat, hop: nat)
    requires 0 < hop && at + hop < |es| && es[at + hop] == Tombstone
    ensures Walk(es, at, hop) == ([Error], es)
  {
    assert es[at + hop := Tombstone] == es;
    assert Walk(es, at + hop, 0) == ([], es);
    assert [Error] + [] == [Error];
  }

  /** The greatest stack so far is at least the stack. */
  ghost predicate Deep(st: State) { |st.frames| <= st.maxDepth }

  /** Running from `here` is running `k` after `g` was added to `st`, or refusing with it. */
  ghost predicate Ran(g: Grown, here: Outcome, k: seq<Event>, stream: seq<Raw>, st: State)
    requires st.frames != [] && st.raw <= |stream|
  {
    if g.Exhausted? then here == Refused
    else g.raw <= |stream| && here == Run(k, stream, Added(st, g.children, g.raw))
  }

  lemma {:induction false} LeavesDepth(stream: seq<Raw>, from: nat, stop: nat)
    requires from <= stop <= |stream|
    ensures DepthAll(Leaves(stream, from, stop)) == 0
    decreases stop
  {
    if from < stop {
      LeavesDepth(stream, from, stop - 1);
      DepthOfConcat(Leaves(stream, from, stop - 1), [LeafOf(stream[stop - 1])]);
    }
  }

  lemma EmittedIsAdded(token: TokenKind, missing: bool, stream: seq<Raw>, st: State)
    requires st.frames != [] && st.raw <= |stream| && Deep(st)
    ensures var g := Grow(Leaf(token, missing), stream, st.raw);
            Emitted(stream, st, token, missing) ==
                if g.Exhausted? then Refused else Running(Added(st, g.children, g.raw))
  {
    var at := AfterTrivia(stream, st.raw);
    if missing {
      LeavesDepth(stream, st.raw, at);
      DepthOfSingle(Green.Token(token, ""));
      DepthOfConcat(Leaves(stream, st.raw, at), [Green.Token(token, "")]);
    } else if at < |stream| {
      LeavesDepth(stream, st.raw, at + 1);
    }
  }

  lemma RunLeaf(token: TokenKind, missing: bool, k: seq<Event>, stream: seq<Raw>, st: State)
    requires st.frames != [] && st.raw <= |stream| && Deep(st)
    ensures Ran(Grow(Leaf(token, missing), stream, st.raw), Run([Event.Token(token, missing)] + k, stream, st), k,
            stream, st)
  {
    EmittedIsAdded(token, missing, stream, st);
    var es := [Event.Token(token, missing)] + k;
    assert es[0] == Event.Token(token, missing) && es[1..] == k;
  }

  lemma RunStart(kind: NodeKind, hop: nat, rest: seq<Event>, kinds: seq<NodeKind>, spent: seq<Event>, stream: seq<Raw>,
                 st: State)
    requires st.raw <= |stream|
    requires Walk([Start(kind, hop)] + rest, 0, hop) == (kinds, [Start(kind, hop)] + spent)
    ensures Run([Start(kind, hop)] + rest, stream, st) == Run(spent, stream, Opened(st, [kind] + kinds))
  {
    var es := [Start(kind, hop)] + rest;
    assert es[0] == Start(kind, hop);
    assert ([Start(kind, hop)] + spent)[1..] == spent;
  }

  lemma Regroup3(start: seq<Event>, b: seq<Event>, f: seq<Event>, tail: seq<Event>)
    ensures start + (b + (f + tail)) == (start + b + f) + tail
  {}

  lemma WalkChain(start: Event, body: Pieces, links: Links, k: seq<Event>)
    ensures Walk([start] + EventsOfAll(body, [Finish] + EventsOfLinks(links, k)), 0, Hop(body, links)) ==
            (KindsOf(links), [start] + EventsOfAll(body, [Finish] + SpentLinks(links, k)))
  {
    AllBefore(body, [Finish] + EventsOfLinks(links, k));
    AllBefore(body, [Finish] + SpentLinks(links, k));
    Regroup3([start], EventsOfAll(body, []), [Finish], EventsOfLinks(links, k));
    Regroup3([start], EventsOfAll(body, []), [Finish], SpentLinks(links, k));
    WalkLinks([start] + EventsOfAll(body, []) + [Finish], links, k, 0, Hop(body, links));
  }

  /** The `Start` of a chain opens all of it, outermost first. */
  lemma OpenChain(kind: NodeKind, body: Pieces, links: Links, k: seq<Event>, stream: seq<Raw>, st: State)
    requires st.raw <= |stream|
    ensures Run(EventsOf(Piece.Node(kind, body, links), k), stream, st) ==
            Run(EventsOfAll(body, [Finish] + SpentLinks(links, k)), stream, Opened(st, [kind] + KindsOf(links)))
  {
    WalkChain(Start(kind, Hop(body, links)), body, links, k);
    RunStart(kind, Hop(body, links), EventsOfAll(body, [Finish] + EventsOfLinks(links, k)), KindsOf(links),
             EventsOfAll(body, [Finish] + SpentLinks(links, k)), stream, st);
  }

  /** Closing the innermost open node of a chain hands it to the next one out. */
  lemma CloseTop(stream: seq<Raw>, st: State, kind: NodeKind, kinds: seq<NodeKind>, gs: seq<Green>, raw: nat)
    requires st.frames != [] && raw <= |stream|
    ensures Closed(stream, Added(Opened(st, [kind] + kinds), gs, raw)) ==
            Running(Added(Opened(st, kinds), [Green.Node(kind, gs)], raw))
  {
    var chain := [kind] + kinds;
    assert chain[1..] == kinds;
    var outer := Open(st.frames, kinds);
    assert Open(st.frames, chain) == outer + [Frame(kind, [])];
    CloseLast(outer, kind, gs);
    DepthOfSingle(Green.Node(kind, gs));
  }

  lemma CloseLast(outer: seq<Frame>, kind: NodeKind, gs: seq<Green>)
    ensures AddChildren(outer + [Frame(kind, [])], gs) == outer + [Frame(kind, gs)]
  {
    assert [] + gs == gs;
  }

  lemma AddNothing(frames: seq<Frame>)
    requires frames != []
    ensures AddChildren(frames, []) == frames
  {
    var n := |frames| - 1;
    assert frames[n].children + [] == frames[n].children;
  }

  lemma DepthOfSingle(g: Green)
    ensures DepthAll([g]) == Depth(g)
  {
    assert [g][..0] == [];
  }

  lemma {:induction false} RunPiece(p: Piece, k: seq<Event>, stream: seq<Raw>, st: State)
    requires st.frames != [] && st.raw <= |stream| && Deep(st) && Drops(p) == 0
    ensures Ran(Grow(p, stream, st.raw), Run(EventsOf(p, k), stream, st), k, stream, st)
    decreases p
  {
    match p
    case Leaf(token, missing) =>
      RunLeaf(token, missing, k, stream, st);
    case Loose(body) =>
      assert EventsOf(p, k)[1..] == EventsOfAll(body, k);
      RunAll(body, k, stream, st);
    case Node(kind, body, links) =>
      var spent := [Finish] + SpentLinks(links, k);
      var inner := Opened(st, [kind] + KindsOf(links));
      OpenChain(kind, body, links, k, stream, st);
      RunAll(body, spent, stream, inner);
      var inside := GrowAll(body, stream, st.raw);
      if inside.Grown? {
        CloseTop(stream, st, kind, KindsOf(links), inside.children, inside.raw);
        assert spent[1..] == SpentLinks(links, k);
        RunSpent(links, k, stream, st, Green.Node(kind, inside.children), inside.raw);
      }
  }

  lemma {:induction false} RunAll(ps: Pieces, k: seq<Event>, stream: seq<Raw>, st: State)
    requires st.frames != [] && st.raw <= |stream| && Deep(st) && DropsAll(ps) == 0
    ensures Ran(GrowAll(ps, stream, st.raw), Run(EventsOfAll(ps, k), stream, st), k, stream, st)
    decreases ps
  {
    match ps
    case Nil =>
      AddNothing(st.frames);
    case Then(first, rest) =>
      RunPiece(first, EventsOfAll(rest, k), stream, st);
      var a := Grow(first, stream, st.raw);
      if a.Grown? {
        RunAll(rest, k, stream, Added(st, a.children, a.raw));
        var b := GrowAll(rest, stream, a.raw);
        if b.Grown? {
          AddTwice(st, a.children, a.raw, b.children, b.raw);
        }
      }
  }

  lemma {:induction false} RunSpent(links: Links, k: seq<Event>, stream: seq<Raw>, st: State, node: Green, raw: nat)
    requires st.frames != [] && raw <= |stream| && st.raw <= |stream| && Deep(st) && DropsLinks(links) == 0
    ensures Ran(GrowLinks(node, links, stream, raw),
                Run(SpentLinks(links, k), stream, Added(Opened(st, KindsOf(links)), [node], raw)), k, stream, st)
    decreases links
  {
    match links
    case Done =>
      assert Opened(st, []) == st;
    case Link(between, kind, rest, next) =>
      var open := Opened(st, [kind] + KindsOf(next));
      var afterBetween := [Tombstone] + EventsOfAll(rest, [Finish] + SpentLinks(next, k));
      RunAll(between, afterBetween, stream, Added(open, [node], raw));
      var a := GrowAll(between, stream, raw);
      if a.Grown? {
        AddTwice(open, [node], raw, a.children, a.raw);
        assert afterBetween[1..] == EventsOfAll(rest, [Finish] + SpentLinks(next, k));
        var afterRest := [Finish] + SpentLinks(next, k);
        RunAll(rest, afterRest, stream, Added(open, [node] + a.children, a.raw));
        var b := GrowAll(rest, stream, a.raw);
        if b.Grown? {
          AddTwice(open, [node] + a.children, a.raw, b.children, b.raw);
          CloseTop(stream, st, kind, KindsOf(next), [node] + a.children + b.children, b.raw);
          assert afterRest[1..] == SpentLinks(next, k);
          RunSpent(next, k, stream, st, Green.Node(kind, [node] + a.children + b.children), b.raw);
        }
      }
  }

  // --- a whole file -------------------------------------------------------------------------

  /** The root: what the events asked for, and whatever was left of the stream. */
  function FileTree(kind: NodeKind, body: Pieces, stream: seq<Raw>): Root {
    var g := GrowAll(body, stream, 0);
    if g.Exhausted? then NoRoot
    else Root(Green.Node(kind, g.children + Leaves(stream, g.raw, |stream|)))
  }

  lemma RunRoot(kind: NodeKind, body: Pieces, stream: seq<Raw>)
    requires DropsAll(body) == 0
    ensures var o := Run(EventsOfAll(body, [Finish]), stream, Opened(INITIAL, [kind]));
            var g := GrowAll(body, stream, 0);
            if g.Exhausted? then o == Refused
            else o == Running(State([], |stream|, FileTree(kind, body, stream), Max(1, 1 + DepthAll(g.children))))
  {
    var st := Opened(INITIAL, [kind]);
    RunAll(body, [Finish], stream, st);
    var g := GrowAll(body, stream, 0);
    if g.Grown? {
      CloseRootAdded(kind, g.children, g.raw, stream);
    }
  }

  lemma CloseRootAdded(kind: NodeKind, gs: seq<Green>, raw: nat, stream: seq<Raw>)
    requires raw <= |stream|
    ensures Run([Finish], stream, Added(Opened(INITIAL, [kind]), gs, raw)) ==
            Running(State([], |stream|, Root(Green.Node(kind, gs + Leaves(stream, raw, |stream|))),
                Max(1, 1 + DepthAll(gs))))
  {
    AddToRoot(kind, gs, raw);
  }

  lemma AddToRoot(kind: NodeKind, gs: seq<Green>, raw: nat)
    ensures Added(Opened(INITIAL, [kind]), gs, raw) == State([Frame(kind, gs)], raw, NoRoot, Max(1, 1 + DepthAll(gs)))
  {
    CloseLast([], kind, gs);
    assert [] + [Frame(kind, [])] == [Frame(kind, [])];
    assert [] + [Frame(kind, gs)] == [Frame(kind, gs)];
  }

  lemma RunFile(kind: NodeKind, body: Pieces, stream: seq<Raw>)
    requires DropsAll(body) == 0
    ensures var o := Run(EventsOf(Piece.Node(kind, body, Done), []), stream, INITIAL);
            var g := GrowAll(body, stream, 0);
            if g.Exhausted? then o == Refused
            else o == Running(State([], |stream|, FileTree(kind, body, stream), Max(1, 1 + DepthAll(g.children))))
  {
    OpenChain(kind, body, Done, [], stream, INITIAL);
    assert [kind] + KindsOf(Done) == [kind] && [Finish] + SpentLinks(Done, []) == [Finish];
    RunRoot(kind, body, stream);
  }

  /** What the builder hands over: the tree the markers meant, unless an adopter was abandoned. */
  function Built(kind: NodeKind, body: Pieces, stream: seq<Raw>): Root {
    if DropsAll(body) == 0 then FileTree(kind, body, stream) else NoRoot
  }

  /**
   * The flat events of a file, with every adopter after what it adopts, build the nested tree the
   * markers meant; the greatest stack is the tree's depth.
   */
  lemma EventsBuildTheTree(kind: NodeKind, body: Pieces, stream: seq<Raw>)
    ensures var o := Run(EventsOf(Piece.Node(kind, body, Done), []), stream, INITIAL);
            && Result(o) == Built(kind, body, stream)
            && (Result(o).Root? ==> o.state.maxDepth == Depth(Result(o).tree))
  {
    AbandonedAdopterIsRefused(kind, body, stream);
    if DropsAll(body) == 0 {
      RunFile(kind, body, stream);
      var g := GrowAll(body, stream, 0);
      if g.Grown? {
        LeavesDepth(stream, g.raw, |stream|);
        DepthOfConcat(g.children, Leaves(stream, g.raw, |stream|));
      }
    }
  }

  // --- abandoned adopters ---------------------------------------------------------------------

  /**
   * Running from `here` is running `k` from `end`, as far in the stream as `g` and `height` nodes deep, or
   * refusing with it.
   */
  ghost predicate Left(g: Grown, here: Outcome, k: seq<Event>, stream: seq<Raw>, end: State, height: int) {
    if g.Exhausted? then here == Refused
    else end.raw == g.raw <= |stream| && |end.frames| == height && here == Run(k, stream, end)
  }

  lemma RunTombstone(k: seq<Event>, stream: seq<Raw>, st: State)
    requires st.raw <= |stream|
    ensures Run([Tombstone] + k, stream, st) == Run(k, stream, st)
  {
    assert ([Tombstone] + k)[1..] == k;
  }

  /** Closing any node but the last one makes the stack one lower. */
  lemma RunFinish(k: seq<Event>, stream: seq<Raw>, st: State) returns (end: State)
    requires |st.frames| > 1 && st.raw <= |stream|
    ensures end.raw == st.raw && |end.frames| == |st.frames| - 1 && Run([Finish] + k, stream, st) == Run(k, stream, end)
  {
    assert ([Finish] + k)[1..] == k;
    end := Closed(stream, st).state;
  }

  lemma LeafLeaves(token: TokenKind, missing: bool, k: seq<Event>, stream: seq<Raw>, st: State) returns (end: State)
    requires st.frames != [] && st.raw <= |stream|
    ensures Left(Grow(Leaf(token, missing), stream, st.raw), Run([Event.Token(token, missing)] + k, stream, st), k,
            stream, end, |st.frames|)
  {
    var next := Emitted(stream, st, token, missing);
    assert ([Event.Token(token, missing)] + k)[1..] == k;
    end := if next.Refused? then st else next.state;
  }

  /** A piece leaves one node open for each of its abandoned adopters. */
  lemma {:induction false} PieceLeaves(p: Piece, k: seq<Event>, stream: seq<Raw>, st: State) returns (end: State)
    requires st.frames != [] && st.raw <= |stream|
    ensures Left(Grow(p, stream, st.raw), Run(EventsOf(p, k), stream, st), k, stream, end, |st.frames| + Drops(p))
    decreases p
  {
    match p
    case Leaf(token, missing) =>
      end := LeafLeaves(token, missing, k, stream, st);
    case Loose(body) =>
      RunTombstone(EventsOfAll(body, k), stream, st);
      end := AllLeave(body, k, stream, st);
    case Node(kind, body, links) =>
      var spent := SpentLinks(links, k);
      OpenChain(kind, body, links, k, stream, st);
      end := AllLeave(body, [Finish] + spent, stream, Opened(st, [kind] + KindsOf(links)));
      var inside := GrowAll(body, stream, st.raw);
      if inside.Grown? {
        end := RunFinish(spent, stream, end);
        end := LinksLeave(links, k, stream, end, Green.Node(kind, inside.children));
      }
  }

  lemma {:induction false} AllLeave(ps: Pieces, k: seq<Event>, stream: seq<Raw>, st: State) returns (end: State)
    requires st.frames != [] && st.raw <= |stream|
    ensures Left(GrowAll(ps, stream, st.raw), Run(EventsOfAll(ps, k), stream, st), k, stream, end,
            |st.frames| + DropsAll(ps))
    decreases ps
  {
    end := st;
    match ps
    case Nil =>
    case Then(first, rest) =>
      end := PieceLeaves(first, EventsOfAll(rest, k), stream, st);
      if Grow(first, stream, st.raw).Grown? {
        end := AllLeave(rest, k, stream, end);
      }
  }

  /** The rest of a chain closes the adopters that are completed; an abandoned one stays open. */
  lemma {:induction false} LinksLeave(links: Links, k: seq<Event>, stream: seq<Raw>, st: State,
                                      node: Green) returns (end: State)
    requires |st.frames| > |KindsOf(links)| && st.raw <= |stream|
    ensures Left(GrowLinks(node, links, stream, st.raw), Run(SpentLinks(links, k), stream, st), k, stream, end,
                 |st.frames| - |KindsOf(links)| + DropsLinks(links))
    decreases links
  {
    end := st;
    if !links.Done? {
      var tail := if links.Link? then [Finish] + SpentLinks(links.next, k) else k;
      var slot := EventsOfAll(links.rest, tail);
      end := AllLeave(links.between, [Tombstone] + slot, stream, st);
      var a := GrowAll(links.between, stream, st.raw);
      if a.Grown? {
        RunTombstone(slot, stream, end);
        end := AllLeave(links.rest, tail, stream, end);
        var b := GrowAll(links.rest, stream, a.raw);
        if b.Grown? && links.Link? {
          end := RunFinish(SpentLinks(links.next, k), stream, end);
          end := LinksLeave(links.next, k, stream, end, Green.Node(links.kind, [node] + a.children + b.children));
        }
      }
    }
  }

  /**
   * Abandoning a node that `precede` opened is not dropping it: the chain still opens an `Error` node at
   * the spent slot and nothing closes it. A file's events give a tree exactly when the stream has the
   * tokens they ask for and no adopter anywhere was abandoned.
   */
  lemma AbandonedAdopterIsRefused(kind: NodeKind, body: Pieces, stream: seq<Raw>)
    ensures Result(Run(EventsOf(Piece.Node(kind, body, Done), []), stream, INITIAL)).Root?
            <==> GrowAll(body, stream, 0).Grown? && DropsAll(body) == 0
  {
    if DropsAll(body) == 0 {
      RunFile(kind, body, stream);
    } else {
      OpenChain(kind, body, Done, [], stream, INITIAL);
      assert [Finish] + SpentLinks(Done, []) == [Finish] + [];
      var end := AllLeave(body, [Finish] + [], stream, Opened(INITIAL, [kind] + KindsOf(Done)));
      if GrowAll(body, stream, 0).Grown? {
        end := RunFinish([], stream, end);
      }
    }
  }
}
