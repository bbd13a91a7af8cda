/** Nothing is lost on the way from the stream to the tree. */
module TreeText {
  import opened Syntax
  import opened ParserEvents
  import opened TreeBuilder

  function Text(g: Green): string
    decreases g, 0
  {
    match g
    case Token(_, text) => text
    case Node(_, children) => TextAll(children)
  }

  function TextAll(gs: seq<Green>): string
    decreases gs, 1
  {
    if gs == [] then "" else TextAll(gs[..|gs| - 1]) + Text(gs[|gs| - 1])
  }

  /** A width is the length of the text. */
  lemma {:induction false} WidthIsText(gs: seq<Green>)
    ensures WidthAll(gs) == |TextAll(gs)|
  {
    if gs != [] {
      var last := gs[|gs| - 1];
      WidthIsText(gs[..|gs| - 1]);
      if last.Node? {
        WidthIsText(last.children);
      }
    }
  }

  function RawText(stream: seq<Raw>, from: nat, stop: nat): string
    requires from <= stop <= |stream|
  {
    if from == stop then "" else RawText(stream, from, stop - 1) + stream[stop - 1].text
  }

  lemma {:induction false} TextOfConcat(a: seq<Green>, b: seq<Green>)
    ensures TextAll(a + b) == TextAll(a) + TextAll(b)
    decreases |b|
  {
    if b == [] {
      assert a + b == a;
    } else {
      var n := |b| - 1;
      TextOfConcat(a, b[..n]);
      assert (a + b)[..|a| + n] == a + b[..n];
    }
  }

  lemma TextOfSingle(g: Green)
    ensures TextAll([g]) == Text(g)
  {
    assert [g][..0] == [];
  }

  lemma {:induction false} TextOfLeaves(stream: seq<Raw>, from: nat, stop: nat)
    requires from <= stop <= |stream|
    ensures TextAll(Leaves(stream, from, stop)) == RawText(stream, from, stop)
    decreases stop
  {
    if from < stop {
      TextOfLeaves(stream, from, stop - 1);
      TextOfConcat(Leaves(stream, from, stop - 1), [LeafOf(stream[stop - 1])]);
      TextOfSingle(LeafOf(stream[stop - 1]));
    }
  }

  lemma {:induction false} RawTextJoin(stream: seq<Raw>, a: nat, b: nat, c: nat)
    requires a <= b <= c <= |stream|
    ensures RawText(stream, a, c) == RawText(stream, a, b) + RawText(stream, b, c)
    decreases c
  {
    if b < c {
      RawTextJoin(stream, a, b, c - 1);
    }
  }

  lemma LeafText(token: TokenKind, missing: bool, stream: seq<Raw>, raw: nat)
    requires raw <= |stream| && Grow(Leaf(token, missing), stream, raw).Grown?
    ensures var g := Grow(Leaf(token, missing), stream, raw); TextAll(g.children) == RawText(stream, raw, g.raw)
  {
    var at := AfterTrivia(stream, raw);
    if missing {
      TextOfLeaves(stream, raw, at);
      TextOfConcat(Leaves(stream, raw, at), [Green.Token(token, "")]);
      TextOfSingle(Green.Token(token, ""));
    } else {
      TextOfLeaves(stream, raw, at + 1);
    }
  }

  lemma {:induction false} GrowText(p: Piece, stream: seq<Raw>, raw: nat)
    requires raw <= |stream| && Grow(p, stream, raw).Grown?
    ensures TextAll(Grow(p, stream, raw).children) == RawText(stream, raw, Grow(p, stream, raw).raw)
    decreases p
  {
    match p
    case Leaf(token, missing) => LeafText(token, missing, stream, raw);
    case Loose(body) => GrowAllText(body, stream, raw);
    case Node(kind, body, links) =>
      GrowAllText(body, stream, raw);
      var inside := GrowAll(body, stream, raw);
      GrowLinksText(Green.Node(kind, inside.children), links, stream, raw, inside.raw);
  }

  lemma {:induction false} GrowAllText(ps: Pieces, stream: seq<Raw>, raw: nat)
    requires raw <= |stream| && GrowAll(ps, stream, raw).Grown?
    ensures TextAll(GrowAll(ps, stream, raw).children) == RawText(stream, raw, GrowAll(ps, stream, raw).raw)
    decreases ps
  {
    match ps
    case Nil =>
    case Then(first, rest) =>
      GrowText(first, stream, raw);
      var a := Grow(first, stream, raw);
      GrowAllText(rest, stream, a.raw);
      var b := GrowAll(rest, stream, a.raw);
      TextOfConcat(a.children, b.children);
      RawTextJoin(stream, raw, a.raw, b.raw);
  }

  lemma {:induction false} GrowLinksText(node: Green, links: Links, stream: seq<Raw>, from: nat, raw: nat)
    requires from <= raw <= |stream| && GrowLinks(node, links, stream, raw).Grown?
    requires Text(node) == RawText(stream, from, raw)
    ensures TextAll(GrowLinks(node, links, stream, raw).children) ==
            RawText(stream, from, GrowLinks(node, links, stream, raw).raw)
    decreases links
  {
    match links
    case Done => TextOfSingle(node);
    case Link(between, kind, rest, next) =>
      GrowAllText(between, stream, raw);
      var a := GrowAll(between, stream, raw);
      GrowAllText(rest, stream, a.raw);
      var b := GrowAll(rest, stream, a.raw);
      TextOfSingle(node);
      TextOfConcat([node], a.children);
      TextOfConcat([node] + a.children, b.children);
      RawTextJoin(stream, from, raw, a.raw);
      RawTextJoin(stream, from, a.raw, b.raw);
      GrowLinksText(Green.Node(kind, [node] + a.children + b.children), next, stream, from, b.raw);
    case Dropped(between, rest) =>
      GrowAllText(between, stream, raw);
      var a := GrowAll(between, stream, raw);
      GrowAllText(rest, stream, a.raw);
      var b := GrowAll(rest, stream, a.raw);
      TextOfSingle(node);
      TextOfConcat([node], a.children);
      TextOfConcat([node] + a.children, b.children);
      RawTextJoin(stream, from, raw, a.raw);
      RawTextJoin(stream, from, a.raw, b.raw);
  }

  /** The root's children and what is left of the stream behind them. */
  lemma RootText(kind: NodeKind, gs: seq<Green>, stream: seq<Raw>, raw: nat)
    requires raw <= |stream| && TextAll(gs) == RawText(stream, 0, raw)
    ensures Text(Green.Node(kind, gs + Leaves(stream, raw, |stream|))) == RawText(stream, 0, |stream|)
  {
    var rest := Leaves(stream, raw, |stream|);
    TextOfLeaves(stream, raw, |stream|);
    TextOfConcat(gs, rest);
    RawTextJoin(stream, 0, raw, |stream|);
  }

  /** The tree holds every byte of the stream, in order, whatever the markers were. */
  lemma FileTreeIsLossless(kind: NodeKind, body: Pieces, stream: seq<Raw>)
    ensures var r := FileTree(kind, body, stream); r.Root? ==> Text(r.tree) == RawText(stream, 0, |stream|)
  {
    var g := GrowAll(body, stream, 0);
    if g.Grown? {
      GrowAllText(body, stream, 0);
      RootText(kind, g.children, stream, g.raw);
    }
  }

  // --- any list of events at all -----------------------------------------------------------------

  function FramesText(frames: seq<Frame>): string {
    if frames == [] then "" else FramesText(frames[..|frames| - 1]) + TextAll(frames[|frames| - 1].children)
  }

  /** How often a run closes its last open node, which is how many roots it makes. */
  function RootsMade(es: seq<Event>, stream: seq<Raw>, st: State): nat
    requires st.raw <= |stream|
    decreases |es|
  {
    if es == [] then 0
    else
      match es[0]
      case Tombstone => RootsMade(es[1..], stream, st)
      case Start(kind, hop) =>
        var (kinds, spent) := Walk(es, 0, hop);
        RootsMade(spent[1..], stream, Opened(st, [kind] + kinds))
      case Finish =>
        var next := Closed(stream, st);
        if next.Refused? then 0
        else (if |st.frames| == 1 then 1 else 0) + RootsMade(es[1..], stream, next.state)
      case Token(token, missing) =>
        var next := Emitted(stream, st, token, missing);
        if next.Refused? then 0 else RootsMade(es[1..], stream, next.state)
  }

  /** The first root takes everything that was read and everything left; there is nothing for another. */
  ghost predicate Holds(stream: seq<Raw>, st: State, made: nat) {
    && st.raw <= |stream|
    && if made == 0 then st.root.NoRoot? && FramesText(st.frames) == RawText(stream, 0, st.raw)
       else
         && st.raw == |stream| && FramesText(st.frames) == "" && st.root.Root?
         && Text(st.root.tree) == if made == 1 then RawText(stream, 0, |stream|) else ""
  }

  lemma {:induction false} OpenText(frames: seq<Frame>, kinds: seq<NodeKind>)
    ensures FramesText(Open(frames, kinds)) == FramesText(frames)
  {
    if kinds != [] {
      OpenText(frames, kinds[1..]);
    }
  }

  lemma OpenHolds(stream: seq<Raw>, st: State, kinds: seq<NodeKind>, made: nat)
    requires Holds(stream, st, made)
    ensures Holds(stream, Opened(st, kinds), made)
  {
    OpenText(st.frames, kinds);
  }

  lemma AddText(frames: seq<Frame>, gs: seq<Green>)
    requires frames != []
    ensures FramesText(AddChildren(frames, gs)) == FramesText(frames) + TextAll(gs)
  {
    var n := |frames| - 1;
    assert AddChildren(frames, gs)[..n] == frames[..n];
    TextOfConcat(frames[n].children, gs);
  }

  lemma CloseHolds(stream: seq<Raw>, st: State, made: nat)
    requires Holds(stream, st, made) && st.frames != []
    ensures Closed(stream, st).Running?
    ensures Holds(stream, Closed(stream, st).state, made + if |st.frames| == 1 then 1 else 0)
  {
    var n := |st.frames| - 1;
    var frame := st.frames[n];
    if n == 0 {
      assert FramesText(st.frames[..0]) == "";
      TextOfLeaves(stream, st.raw, |stream|);
      TextOfConcat(frame.children, Leaves(stream, st.raw, |stream|));
      RawTextJoin(stream, 0, st.raw, |stream|);
    } else {
      AddText(st.frames[..n], [Green.Node(frame.kind, frame.children)]);
      TextOfSingle(Green.Node(frame.kind, frame.children));
    }
  }

  lemma EmitHolds(stream: seq<Raw>, st: State, token: TokenKind, missing: bool, made: nat)
    requires Holds(stream, st, made) && Emitted(stream, st, token, missing).Running?
    ensures Holds(stream, Emitted(stream, st, token, missing).state, made)
  {
    var g := Grow(Leaf(token, missing), stream, st.raw);
    LeafText(token, missing, stream, st.raw);
    AddText(st.frames, g.children);
    RawTextJoin(stream, 0, st.raw, g.raw);
  }

  lemma {:induction false} RunHolds(es: seq<Event>, stream: seq<Raw>, st: State, made: nat)
    requires Holds(stream, st, made)
    ensures var o := Run(es, stream, st); o.Running? ==> Holds(stream, o.state, made + RootsMade(es, stream, st))
    decreases |es|
  {
    if es != [] {
      match es[0]
      case Tombstone => RunHolds(es[1..], stream, st, made);
      case Start(kind, hop) =>
        var (kinds, spent) := Walk(es, 0, hop);
        OpenHolds(stream, st, [kind] + kinds, made);
        RunHolds(spent[1..], stream, Opened(st, [kind] + kinds), made);
      case Finish =>
        if st.frames != [] {
          CloseHolds(stream, st, made);
          var next := Closed(stream, st).state;
          RunHolds(es[1..], stream, next, made + if |st.frames| == 1 then 1 else 0);
        }
      case Token(token, missing) =>
        if Emitted(stream, st, token, missing).Running? {
          EmitHolds(stream, st, token, missing, made);
          var next := Emitted(stream, st, token, missing).state;
          RunHolds(es[1..], stream, next, made);
        }
    }
  }

  /**
   * Whatever list of events comes in, markers or not: the root holds the whole text in order exactly
   * when the stack emptied once, or there is no text; the root of a later emptying holds no text.
   */
  lemma AnyListIsLossless(es: seq<Event>, stream: seq<Raw>)
    requires Result(Run(es, stream, INITIAL)).Root?
    ensures var text, whole := Text(Result(Run(es, stream, INITIAL)).tree), RawText(stream, 0, |stream|);
            && (text == whole <==> RootsMade(es, stream, INITIAL) == 1 || whole == "")
            && (RootsMade(es, stream, INITIAL) != 1 ==> text == "")
  {
    RunHolds(es, stream, INITIAL, 0);
  }
}
