/**
 * The parser's flat event list (include/parse/event.h) and the marker protocol that writes it
 * (include/parse/parser.h, src/parse/parser.cc).
 */
module ParserEvents {
  import opened Syntax

  /** `forwardParent` is the distance in events to the node that adopts this one, or 0. */
  datatype Event =
    | Tombstone
    | Start(kind: NodeKind, forwardParent: nat)
    | Finish
    | Token(token: TokenKind, missing: bool)

  /**
   * What a piece of grammar does through its markers. A `Node` is started, filled and completed;
   * each link is a later node that adopts what came before (`precede`), possibly after further
   * siblings, takes more content and is completed. `Dropped` is an adopter that is abandoned
   * instead, which ends the chain; were the node adopted once more, only the later link would stay, and
   * the abandoned slot would be a `Loose` piece between the two. A `Loose` piece is started and abandoned.
   */
  datatype Piece =
    | Leaf(token: TokenKind, missing: bool)
    | Node(kind: NodeKind, body: Pieces, links: Links)
    | Loose(body: Pieces)

  datatype Pieces = Nil | Then(first: Piece, rest: Pieces)

  datatype Links =
    | Done
    | Link(between: Pieces, kind: NodeKind, rest: Pieces, next: Links)
    | Dropped(between: Pieces, rest: Pieces)

  // --- how many events a piece leaves ---------------------------------------------------

  function Length(p: Piece): nat {
    match p
    case Leaf(_, _) => 1
    case Node(_, body, links) => LengthAll(body) + 2 + LengthLinks(links)
    case Loose(body) => 1 + LengthAll(body)
  }

  function LengthAll(ps: Pieces): nat {
    match ps
    case Nil => 0
    case Then(first, rest) => Length(first) + LengthAll(rest)
  }

  function LengthLinks(links: Links): nat {
    match links
    case Done => 0
    case Link(between, _, rest, next) => LengthAll(between) + 1 + LengthAll(rest) + 1 + LengthLinks(next)
    case Dropped(between, rest) => LengthAll(between) + 1 + LengthAll(rest)
  }

  // --- the events a piece leaves, in front of `k` ---------------------------------------

  function EventsOf(p: Piece, k: seq<Event>): seq<Event> {
    match p
    case Leaf(token, missing) => [Event.Token(token, missing)] + k
    case Node(kind, body, links) =>
      [Start(kind, Hop(body, links))] + EventsOfAll(body, [Finish] + EventsOfLinks(links, k))
    case Loose(body) => [Tombstone] + EventsOfAll(body, k)
  }

  function EventsOfAll(ps: Pieces, k: seq<Event>): seq<Event> {
    match ps
    case Nil => k
    case Then(first, rest) => EventsOf(first, EventsOfAll(rest, k))
  }

  function EventsOfLinks(links: Links, k: seq<Event>): seq<Event> {
    match links
    case Done => k
    case Link(between, kind, rest, next) =>
      EventsOfAll(between, [Start(kind, Hop(rest, next))] + EventsOfAll(rest, [Finish] + EventsOfLinks(next, k)))
    case Dropped(between, rest) => EventsOfAll(between, [Tombstone] + EventsOfAll(rest, k))
  }

  /** The same events once their adopters have been consumed. */
  function SpentLinks(links: Links, k: seq<Event>): seq<Event> {
    match links
    case Done => k
    case Link(between, kind, rest, next) =>
      EventsOfAll(between, [Tombstone] + EventsOfAll(rest, [Finish] + SpentLinks(next, k)))
    case Dropped(_, _) => EventsOfLinks(links, k)
  }

  /** From a node's `Start`, over its content and `Finish`, to its adopter's slot. */
  function Hop(body: Pieces, links: Links): nat {
    if links.Done? then 0 else LengthAll(body) + 2 + LengthAll(links.between)
  }

  lemma {:induction false} EventsBefore(p: Piece, k: seq<Event>)
    ensures EventsOf(p, k) == EventsOf(p, []) + k
    ensures |EventsOf(p, [])| == Length(p)
  {
    match p
    case Leaf(_, _) =>
    case Node(kind, body, links) =>
      LinksBefore(links, k);
      AllBefore(body, [Finish] + EventsOfLinks(links, k));
      AllBefore(body, [Finish] + EventsOfLinks(links, []));
    case Loose(body) =>
      AllBefore(body, k);
  }

  lemma {:induction false} AllBefore(ps: Pieces, k: seq<Event>)
    ensures EventsOfAll(ps, k) == EventsOfAll(ps, []) + k
    ensures |EventsOfAll(ps, [])| == LengthAll(ps)
  {
    match ps
    case Nil =>
    case Then(first, rest) =>
      AllBefore(rest, k);
      EventsBefore(first, EventsOfAll(rest, k));
      EventsBefore(first, EventsOfAll(rest, []));
  }

  lemma {:induction false} LinksBefore(links: Links, k: seq<Event>)
    ensures EventsOfLinks(links, k) == EventsOfLinks(links, []) + k
    ensures |EventsOfLinks(links, [])| == LengthLinks(links)
  {
    match links
    case Done =>
    case Link(between, kind, rest, next) =>
      LinksBefore(next, k);
      AllBefore(rest, [Finish] + EventsOfLinks(next, k));
      AllBefore(rest, [Finish] + EventsOfLinks(next, []));
      AllBefore(between, [Start(kind, Hop(rest, next))] + EventsOfAll(rest, [Finish] + EventsOfLinks(next, k)));
      AllBefore(between, [Start(kind, Hop(rest, next))] + EventsOfAll(rest, [Finish] + EventsOfLinks(next, [])));
      Regroup(EventsOfAll(between, []), Start(kind, Hop(rest, next)), EventsOfAll(rest, []), EventsOfLinks(next, k));
      Regroup(EventsOfAll(between, []), Start(kind, Hop(rest, next)), EventsOfAll(rest, []), EventsOfLinks(next, []));
    case Dropped(between, rest) =>
      AllBefore(rest, k);
      AllBefore(between, [Tombstone] + EventsOfAll(rest, k));
      AllBefore(between, [Tombstone] + EventsOfAll(rest, []));
      RegroupDropped(EventsOfAll(between, []), EventsOfAll(rest, []), k);
  }

  /** A dropped adopter's events, side by side. */
  lemma DroppedBefore(between: Pieces, rest: Pieces, k: seq<Event>)
    ensures EventsOfAll(between, [Tombstone] + EventsOfAll(rest, k)) ==
            EventsOfAll(between, []) + [Tombstone] + EventsOfAll(rest, []) + k
    ensures |EventsOfAll(between, [])| == LengthAll(between) && |EventsOfAll(rest, [])| == LengthAll(rest)
  {
    AllBefore(rest, k);
    AllBefore(between, [Tombstone] + EventsOfAll(rest, k));
    RegroupDropped(EventsOfAll(between, []), EventsOfAll(rest, []), k);
  }

  /** One adopter's events, side by side. */
  lemma LinkBefore(between: Pieces, slot: Event, rest: Pieces, k: seq<Event>)
    ensures EventsOfAll(between, [slot] + EventsOfAll(rest, [Finish] + k)) ==
            EventsOfAll(between, []) + [slot] + EventsOfAll(rest, []) + [Finish] + k
    ensures |EventsOfAll(between, [])| == LengthAll(between) && |EventsOfAll(rest, [])| == LengthAll(rest)
  {
    AllBefore(rest, [Finish] + k);
    AllBefore(between, [slot] + EventsOfAll(rest, [Finish] + k));
    Regroup(EventsOfAll(between, []), slot, EventsOfAll(rest, []), k);
  }

  lemma Regroup(a: seq<Event>, slot: Event, b: seq<Event>, k: seq<Event>)
    ensures a + ([slot] + (b + ([Finish] + k))) == a + [slot] + b + [Finish] + k
  {}

  lemma RegroupDropped(a: seq<Event>, b: seq<Event>, k: seq<Event>)
    ensures a + ([Tombstone] + (b + k)) == a + [Tombstone] + b + k == (a + ([Tombstone] + b)) + k
  {}

  /** A slot filled in, with what stands around it. */
  lemma PutAt(before: seq<Event>, from: Event, now: Event, after: seq<Event>, at: nat)
    requires at == |before|
    ensures (before + [from] + after)[at := now] == before + [now] + after
  {}

  lemma RegroupNode(before: seq<Event>, start: Event, b: seq<Event>, k: seq<Event>)
    ensures before + [start] + b + [Finish] == before + [start] + (b + [Finish])
    ensures before + [start] + (b + [Finish]) + k == before + ([start] + (b + ([Finish] + k)))
  {}

  lemma RegroupAdopter(x: seq<Event>, a: seq<Event>, slot: Event, b: seq<Event>, k: seq<Event>)
    ensures (x + a) + [slot] + (b + [Finish]) + k == x + (a + [slot] + b + [Finish] + k)
    ensures (x + a) + [slot] + b == x + (a + [slot] + b)
  {}

  // --- the protocol -----------------------------------------------------------------------

  datatype Marker = Marker(index: nat)
  datatype CompletedMarker = CompletedMarker(index: nat)

  class Parser {
    var events: seq<Event>

    constructor ()
      ensures events == []
    {
      events := [];
    }

    method ReserveSlot() returns (index: nat)
      modifies this
      ensures index == |old(events)| && events == old(events) + [Tombstone]
    {
      events := events + [Tombstone];
      index := |events| - 1;
    }

    method StartNode() returns (m: Marker)
      modifies this
      ensures m == Marker(|old(events)|) && events == old(events) + [Tombstone]
    {
      var index := ReserveSlot();
      m := Marker(index);
    }

    method PushToken(token: TokenKind, missing: bool)
      modifies this
      ensures events == old(events) + [Event.Token(token, missing)]
    {
      events := events + [Event.Token(token, missing)];
    }

    method Complete(m: Marker, kind: NodeKind) returns (c: CompletedMarker)
      requires m.index < |events|
      modifies this
      ensures c == CompletedMarker(m.index)
      ensures events == old(events)[m.index := Start(kind, 0)] + [Finish]
    {
      events := events[m.index := Start(kind, 0)];
      events := events + [Finish];
      c := CompletedMarker(m.index);
    }

    method Abandon(m: Marker)
      requires m.index < |events|
      modifies this
      ensures events == old(events)[m.index := Tombstone]
    {
      events := events[m.index := Tombstone];
    }

    method Precede(c: CompletedMarker) returns (m: Marker)
      requires c.index < |events| && events[c.index].Start?
      modifies this
      ensures m == Marker(|old(events)|)
      ensures var linked := old(events)[c.index].(forwardParent := |old(events)| - c.index);
              events == old(events)[c.index := linked] + [Tombstone]
    {
      var parent := ReserveSlot();
      events := events[c.index := events[c.index].(forwardParent := parent - c.index)];
      m := Marker(parent);
    }

    /** A piece, played through its markers: exactly its events are appended, at any position. */
    method Play(p: Piece)
      modifies this
      ensures events == old(events) + EventsOf(p, [])
      decreases p, 0
    {
      match p {
        case Leaf(token, missing) =>
          PushToken(token, missing);
        case Loose(body) =>
          var m := StartNode();
          PlayAll(body);
          Abandon(m);
          AllBefore(body, []);
        case Node(kind, body, links) =>
          var m := StartNode();
          PlayAll(body);
          ghost var before, inner := old(events), EventsOfAll(body, []);
          PutAt(before, Tombstone, Start(kind, 0), inner, |before|);
          var c := Complete(m, kind);
          RegroupNode(before, Start(kind, 0), inner, []);
          PlayLinks(c, links, before, kind, inner + [Finish]);
          AllBefore(body, [Finish] + EventsOfLinks(links, []));
          RegroupNode(before, Start(kind, Hop(body, links)), inner, EventsOfLinks(links, []));
      }
    }

    method PlayAll(ps: Pieces)
      modifies this
      ensures events == old(events) + EventsOfAll(ps, [])
      decreases ps, 1
    {
      match ps {
        case Nil =>
        case Then(first, rest) =>
          Play(first);
          PlayAll(rest);
          EventsBefore(first, EventsOfAll(rest, []));
      }
    }

    /** The chain of adopters of the completed node `c`, which stands after `before`. */
    method PlayLinks(c: CompletedMarker, links: Links, ghost before: seq<Event>, ghost kind: NodeKind,
                     ghost content: seq<Event>)
      requires c.index == |before| && events == before + [Start(kind, 0)] + content
      modifies this
      ensures var hop := if links.Done? then 0 else |content| + 1 + LengthAll(links.between);
              events == before + [Start(kind, hop)] + content + EventsOfLinks(links, [])
      decreases links, 1
    {
      if links.Done? {
        return;
      }
      ghost var x, a, b := before + [Start(kind, |content| + 1 + LengthAll(links.between))] + content,
                           EventsOfAll(links.between, []), EventsOfAll(links.rest, []);
      var m := OpenAdopter(c, links, before, kind, content);
      PlayAll(links.rest);
      if links.Dropped? {
        DroppedBefore(links.between, links.rest, []);
        PutAt(x + a, Tombstone, Tombstone, b, m.index);
        Abandon(m);
        RegroupAdopter(x, a, Tombstone, b, []);
        return;
      }
      PutAt(x + a, Tombstone, Start(links.kind, 0), b, m.index);
      var adopter := Complete(m, links.kind);
      RegroupNode(x + a, Start(links.kind, 0), b, []);
      PlayLinks(adopter, links.next, x + a, links.kind, b + [Finish]);
      var slot := Start(links.kind, Hop(links.rest, links.next));
      LinkBefore(links.between, slot, links.rest, EventsOfLinks(links.next, []));
      RegroupAdopter(x, a, slot, b, EventsOfLinks(links.next, []));
    }

    /** What stands before the adopter, and the adopter opened. */
    method OpenAdopter(c: CompletedMarker, links: Links, ghost before: seq<Event>, ghost kind: NodeKind,
                       ghost content: seq<Event>)
      returns (m: Marker)
      requires !links.Done? && c.index == |before| && events == before + [Start(kind, 0)] + content
      modifies this
      ensures var own := before + [Start(kind, |content| + 1 + LengthAll(links.between))] + content
                           + EventsOfAll(links.between, []);
              m == Marker(|own|) && events == own + [Tombstone]
      decreases links, 0
    {
      PlayAll(links.between);
      AllBefore(links.between, []);
      m := Precede(c);
    }
  }
}
