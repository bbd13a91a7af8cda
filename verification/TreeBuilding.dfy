/** The builder of src/syntax/builder.cc as the class it is, and the path from markers to tree. */
module TreeBuilding {
  import opened Syntax
  import opened ParserEvents
  import opened TreeBuilder

  /** Every adopter link stays inside the list, as the protocol guarantees. */
  ghost predicate InRange(es: seq<Event>) {
    forall i :: 0 <= i < |es| && es[i].Start? ==> i + es[i].forwardParent < |es|
  }

  lemma InRangeStart(kind: NodeKind, hop: nat, rest: seq<Event>)
    requires InRange(rest) && hop <= |rest|
    ensures InRange([Start(kind, hop)] + rest)
  {
    var es := [Start(kind, hop)] + rest;
    forall i | 0 < i < |es| && es[i].Start?
      ensures i + es[i].forwardParent < |es|
    {
      assert rest[i - 1].Start?;
    }
  }

  lemma {:induction false} PieceInRange(p: Piece)
    ensures InRange(EventsOf(p, []))
    decreases p
  {
    match p
    case Leaf(_, _) =>
    case Loose(body) =>
      AllInRange(body);
    case Node(kind, body, links) =>
      AllInRange(body);
      LinksInRange(links);
      var tail := [Finish] + EventsOfLinks(links, []);
      AllBefore(body, tail);
      LinksReach(links);
      InRangeStart(kind, Hop(body, links), EventsOfAll(body, tail));
  }

  /** A chain of links is long enough to hold the slot of its first adopter. */
  lemma LinksReach(links: Links)
    ensures !links.Done? ==> LengthAll(links.between) < |EventsOfLinks(links, [])|
  {
    LinksBefore(links, []);
  }

  lemma {:induction false} AllInRange(ps: Pieces)
    ensures InRange(EventsOfAll(ps, []))
    decreases ps
  {
    match ps
    case Nil =>
    case Then(first, rest) =>
      PieceInRange(first);
      AllInRange(rest);
      EventsBefore(first, EventsOfAll(rest, []));
  }

  lemma {:induction false} LinksInRange(links: Links)
    ensures InRange(EventsOfLinks(links, []))
    decreases links
  {
    match links
    case Done =>
    case Link(between, kind, rest, next) =>
      AllInRange(between);
      AllInRange(rest);
      LinksInRange(next);
      var tail := [Finish] + EventsOfLinks(next, []);
      AllBefore(rest, tail);
      LinksReach(next);
      InRangeStart(kind, Hop(rest, next), EventsOfAll(rest, tail));
      var slot := [Start(kind, Hop(rest, next))] + EventsOfAll(rest, tail);
      AllBefore(between, slot);
    case Dropped(between, rest) =>
      AllInRange(between);
      AllInRange(rest);
      DroppedBefore(between, rest, []);
  }

  lemma OpenOne(st: State, kind: NodeKind)
    ensures Open(st.frames, [kind]) == st.frames + [Frame(kind, [])]
  {
    assert [kind][1..] == [];
  }

  lemma OpenMore(st: State, kind: NodeKind, kinds: seq<NodeKind>)
    ensures Opened(Opened(st, kinds), [kind]) == Opened(st, [kind] + kinds)
  {
    OpenOne(Opened(st, kinds), kind);
    assert ([kind] + kinds)[1..] == kinds;
  }

  class Builder {
    const stream: seq<Raw>
    var frames: seq<Frame>
    var raw: nat
    var root: Root
    var maxDepth: nat

    constructor (stream: seq<Raw>)
      ensures this.stream == stream && Now() == INITIAL
    {
      this.stream := stream;
      frames, raw, root, maxDepth := [], 0, NoRoot, 0;
    }

    function Now(): State
      reads this
    {
      State(frames, raw, root, maxDepth)
    }

    method OpenNode(kind: NodeKind)
      modifies this
      ensures Now() == Opened(old(Now()), [kind])
    {
      frames := frames + [Frame(kind, [])];
      maxDepth := if maxDepth < |frames| then |frames| else maxDepth;
      OpenOne(old(Now()), kind);
    }

    method AppendRawToken(out: seq<Green>) returns (ok: bool, more: seq<Green>)
      requires raw <= |stream|
      modifies this
      ensures ok == (old(raw) < |stream|)
      ensures ok ==> more == out + [LeafOf(stream[old(raw)])] && Now() == old(Now()).(raw := old(raw) + 1)
      ensures !ok ==> more == out && Now() == old(Now())
    {
      if raw >= |stream| {
        return false, out;
      }
      more := out + [LeafOf(stream[raw])];
      raw := raw + 1;
      ok := true;
    }

    /** Everything left of the stream, or only its next run of trivia. */
    method Flush(out: seq<Green>, all: bool) returns (more: seq<Green>)
      requires raw <= |stream|
      modifies this
      ensures var at := if all then |stream| else AfterTrivia(stream, old(raw));
              more == out + Leaves(stream, old(raw), at) && Now() == old(Now()).(raw := at)
    {
      more := out;
      ghost var from := raw;
      while raw < |stream| && (all || IsTrivia(stream[raw].kind))
        invariant from <= raw <= |stream|
        invariant more == out + Leaves(stream, from, raw)
        invariant Now() == old(Now()).(raw := raw)
        invariant AfterTrivia(stream, from) == AfterTrivia(stream, raw) || all
      {
        var ok;
        ok, more := AppendRawToken(more);
      }
    }

    method CloseNode() returns (ok: bool)
      requires raw <= |stream|
      modifies this
      ensures ok == Closed(stream, old(Now())).Running?
      ensures ok ==> Now() == Closed(stream, old(Now())).state
      ensures raw <= |stream|
    {
      if frames == [] {
        return false;
      }
      var frame := frames[|frames| - 1];
      frames := frames[..|frames| - 1];
      if frames == [] {
        var children := Flush(frame.children, true);
        root := Root(Green.Node(frame.kind, children));
      } else {
        frames := AddChildren(frames, [Green.Node(frame.kind, frame.children)]);
      }
      ok := true;
    }

    method EmitToken(token: TokenKind, missing: bool) returns (ok: bool)
      requires raw <= |stream|
      modifies this
      ensures ok == Emitted(stream, old(Now()), token, missing).Running?
      ensures ok ==> Now() == Emitted(stream, old(Now()), token, missing).state
      ensures raw <= |stream|
    {
      if frames == [] {
        return false;
      }
      var children := Flush([], false);
      assert [] + Leaves(stream, old(raw), raw) == Leaves(stream, old(raw), raw);
      if missing {
        children := children + [Green.Token(token, "")];
      } else {
        ok, children := AppendRawToken(children);
        if !ok {
          return;
        }
      }
      frames := AddChildren(frames, children);
      ok := true;
    }

    /** A node's whole chain of adopters, their slots spent in the array. */
    method HandleStart(events: array<Event>, index: nat)
      requires index < events.Length && events[index].Start? && InRange(events[..])
      modifies this, events
      ensures InRange(events[..]) && raw == old(raw)
      ensures var es := old(events[index..]);
              var (kinds, spent) := Walk(es, 0, es[0].forwardParent);
              events[index..] == spent && Now() == Opened(old(Now()), [es[0].kind] + kinds)
    {
      if events[index].forwardParent == 0 {
        assert [events[index].kind] + [] == [events[index].kind];
        OpenNode(events[index].kind);
        return;
      }
      var kind, hop := events[index].kind, events[index].forwardParent;
      var parents := WalkParents(events, index, hop);
      OpenParents([kind] + parents);
    }

    method WalkParents(events: array<Event>, index: nat, hop: nat) returns (parents: seq<NodeKind>)
      requires index < events.Length && index + hop < events.Length && InRange(events[..])
      modifies events
      ensures InRange(events[..])
      ensures parents == Walk(old(events[index..]), 0, hop).0
      ensures events[index..] == Walk(old(events[index..]), 0, hop).1
    {
      ghost var es := events[index..];
      var at, forward := index, hop;
      parents := [];
      while forward != 0
        invariant index <= at < events.Length && at + forward < events.Length && InRange(events[..])
        invariant Walk(es, 0, hop).0 == parents + Walk(events[index..], at - index, forward).0
        invariant Walk(es, 0, hop).1 == Walk(events[index..], at - index, forward).1
        decreases events.Length - at
      {
        ghost var before := events[index..];
        at := at + forward;
        var slot := events[at];
        assert before[at - index] == slot;
        parents := parents + [SlotKind(slot)];
        forward := SlotHop(slot);
        events[at] := Tombstone;
        assert events[index..] == before[at - index := Tombstone];
      }
    }

    method OpenParents(parents: seq<NodeKind>)
      requires parents != []
      modifies this
      ensures Now() == Opened(old(Now()), parents)
    {
      for i := |parents| downto 0
        invariant Now() == if i == |parents| then old(Now()) else Opened(old(Now()), parents[i..])
      {
        assert parents[i..] == [parents[i]] + parents[i + 1..];
        OpenMore(old(Now()), parents[i], parents[i + 1..]);
        OpenNode(parents[i]);
      }
    }

    /** The event loop. It refuses exactly the lists the machine refuses, and hands over its tree. */
    method Build(events: array<Event>) returns (r: Root)
      requires InRange(events[..]) && Now() == INITIAL
      modifies this, events
      ensures r == Result(Run(old(events[..]), stream, INITIAL))
      ensures r.Root? ==> maxDepth == Run(old(events[..]), stream, INITIAL).state.maxDepth
    {
      ghost var all := events[..];
      assert events[0..] == all;
      var i := 0;
      while i < events.Length
        invariant 0 <= i <= events.Length && raw <= |stream| && InRange(events[..])
        invariant Run(events[i..], stream, Now()) == Run(all, stream, INITIAL)
      {
        ghost var rest := events[i..];
        assert rest[0] == events[i] && rest[1..] == events[i + 1..];
        match events[i] {
          case Tombstone =>
          case Start(_, _) =>
            HandleStart(events, i);
            assert events[i..][1..] == events[i + 1..];
          case Finish =>
            var ok := CloseNode();
            if !ok {
              return NoRoot;
            }
          case Token(token, missing) =>
            var ok := EmitToken(token, missing);
            if !ok {
              return NoRoot;
            }
        }
        i := i + 1;
      }
      assert events[i..] == [];
      r := if frames == [] then root else NoRoot;
    }
  }

  /** Markers to events to tree: what `buildSyntaxTree` hands on for a file that was parsed as `body`. */
  method BuildSyntaxTree(kind: NodeKind, body: Pieces, stream: seq<Raw>) returns (r: Root, depth: nat)
    ensures r == Built(kind, body, stream)
    ensures r.Root? ==> depth == Depth(r.tree)
  {
    var parser := new Parser();
    parser.Play(Piece.Node(kind, body, Done));
    var list := parser.events;
    assert list == EventsOf(Piece.Node(kind, body, Done), []);
    PieceInRange(Piece.Node(kind, body, Done));
    var events := new Event[|list|](i requires 0 <= i < |list| => list[i]);
    assert events[..] == list;
    var builder := new Builder(stream);
    r := builder.Build(events);
    depth := builder.maxDepth;
    EventsBuildTheTree(kind, body, stream);
  }
}
