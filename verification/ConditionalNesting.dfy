/** The flat stack of src/pp/conditionals.cc agrees with the nested meaning, on every stream. */
module ConditionalNesting {
  import opened MachineWords
  import opened Conditionals

  // --- a place inside nested source ---------------------------------------------------------

  /** Where a reader stands: after some parts, at the top or in a branch of a conditional still open. */
  datatype Place = Top(done: Parts) | Inside(outer: Place, branch: Branch, done: Parts)

  /** The branch being read, with the arms of its conditional that are already complete. */
  datatype Branch = InFirst(condition: bool) | InFurther(arms: Arms, condition: bool) | InElse(arms: Arms)

  /** The branch is the first true one of its conditional. */
  predicate Chosen(b: Branch) {
    match b
    case InFirst(condition) => condition
    case InFurther(arms, condition) => !AnyTrue(arms) && condition
    case InElse(arms) => !AnyTrue(arms)
  }

  /** Every conditional around the place is in its first true branch. */
  predicate Live(p: Place) {
    p.Inside? ==> Live(p.outer) && Chosen(p.branch)
  }

  function FrameAt(live: bool, b: Branch): Frame {
    var chosenBefore := match b
                        case InFirst(condition) => live && condition
                        case InFurther(arms, condition) => live && (AnyTrue(arms) || condition)
                        case InElse(_) => true;
    Frame(live, live && Chosen(b), chosenBefore, b.InElse?)
  }

  function FramesAt(p: Place): seq<Frame> {
    if p.Top? then [] else FramesAt(p.outer) + [FrameAt(Live(p.outer), p.branch)]
  }

  function Height(p: Place): nat {
    if p.Top? then 0 else Height(p.outer) + 1
  }

  // --- what was read to get there -----------------------------------------------------------

  function Head(b: Branch): seq<Directive> {
    match b
    case InFirst(condition) => [If(condition)]
    case InFurther(arms, condition) => ArmStream(arms) + [Elif(condition)]
    case InElse(arms) => ArmStream(arms) + [ElseD]
  }

  function ReadSoFar(p: Place): seq<Directive> {
    if p.Top? then Stream(p.done) else ReadSoFar(p.outer) + Head(p.branch) + Stream(p.done)
  }

  function HeadLines(b: Branch, live: bool): seq<nat> {
    if b.InFirst? then [] else ArmLines(b.arms, live)
  }

  function EmittedSoFar(p: Place): seq<nat> {
    if p.Top? then Lines(p.done, true)
    else EmittedSoFar(p.outer) + HeadLines(p.branch, Live(p.outer)) + Lines(p.done, Live(p.outer) && Chosen(p.branch))
  }

  // --- one directive further ----------------------------------------------------------------

  datatype Move = To(place: Place) | Refused(error: PPError)

  function Complete(b: Branch, body: Parts): Arms
    requires !b.InElse?
  {
    if b.InFirst? then First(b.condition, body) else Further(b.arms, b.condition, body)
  }

  function Whole(b: Branch, body: Parts): Part {
    if b.InElse? then Group(b.arms, Else(body)) else Group(Complete(b, body), NoElse)
  }

  function With(p: Place, part: Part): Place {
    p.(done := Next(p.done, part))
  }

  function Advance(p: Place, d: Directive, limit: nat): Move {
    match d
    case Text(id) => To(With(p, Line(id)))
    case If(condition) =>
      if Height(p) >= limit then Refused(ConditionalNestingExceeded) else To(Inside(p, InFirst(condition), Nothing))
    case Elif(condition) =>
      if p.Top? then Refused(UnexpectedConditional)
      else if p.branch.InElse? then Refused(ElseAfterElse)
      else To(Inside(p.outer, InFurther(Complete(p.branch, p.done), condition), Nothing))
    case ElseD =>
      if p.Top? then Refused(UnexpectedConditional)
      else if p.branch.InElse? then Refused(ElseAfterElse)
      else To(Inside(p.outer, InElse(Complete(p.branch, p.done)), Nothing))
    case Endif =>
      if p.Top? then Refused(UnexpectedConditional) else To(With(p.outer, Whole(p.branch, p.done)))
  }

  /** The stack emits at a place exactly when every conditional around it is in its first true branch. */
  lemma {:induction false} EmitsWhereLive(p: Place)
    ensures Emitting(FramesAt(p)) == Live(p) && |FramesAt(p)| == Height(p)
  {
    if p.Inside? {
      EmitsWhereLive(p.outer);
    }
  }

  lemma TopFrame(p: Place)
    requires p.Inside?
    ensures var frames, outer := FramesAt(p), FramesAt(p.outer);
            && frames == outer + [FrameAt(Live(p.outer), p.branch)] && frames != []
            && frames[..|frames| - 1] == outer && frames[|frames| - 1] == FrameAt(Live(p.outer), p.branch)
  {}

  /** The frame of a later branch of the same conditional. */
  lemma NextFrame(live: bool, b: Branch, body: Parts, condition: bool)
    requires !b.InElse?
    ensures var f := FrameAt(live, b);
            && !f.seenElse
            && FrameAt(live, InFurther(Complete(b, body), condition))
               == f.(live := f.parentLive && !f.taken && condition,
                     taken := f.taken || (f.parentLive && !f.taken && condition))
            && FrameAt(live, InElse(Complete(b, body))) ==
                f.(seenElse := true, live := f.parentLive && !f.taken, taken := true)
  {}

  /** A step of the stack is a step in the nesting: the same error, or the frames of the next place. */
  lemma StepIsAdvance(p: Place, d: Directive, limit: nat)
    ensures match Advance(p, d, limit)
            case Refused(e) => Step(FramesAt(p), d, limit).1 == e != NoError
            case To(q) => Step(FramesAt(p), d, limit) == (FramesAt(q), NoError)
  {
    EmitsWhereLive(p);
    if p.Inside? {
      TopFrame(p);
      if !p.branch.InElse? {
        NextFrame(Live(p.outer), p.branch, p.done, d.If? || (d.Elif? && d.condition));
      }
    }
  }

  lemma WithReads(p: Place, part: Part)
    ensures ReadSoFar(With(p, part)) == ReadSoFar(p) + PartStream(part)
    ensures EmittedSoFar(With(p, part)) == EmittedSoFar(p) + PartLines(part, Live(p))
  {
    if p.Inside? {
      var lines := Lines(p.done, Live(p));
      Appended(ReadSoFar(p.outer) + Head(p.branch), Stream(p.done), PartStream(part));
      Appended(EmittedSoFar(p.outer) + HeadLines(p.branch, Live(p.outer)), lines, PartLines(part, Live(p)));
    }
  }

  lemma Appended<T>(a: seq<T>, b: seq<T>, c: seq<T>)
    ensures a + (b + c) == a + b + c
  {}

  lemma WholeReads(b: Branch, body: Parts, live: bool)
    ensures PartStream(Whole(b, body)) == Head(b) + Stream(body) + [Endif]
    ensures PartLines(Whole(b, body), live) == HeadLines(b, live) + Lines(body, live && Chosen(b))
  {}

  lemma CompleteReads(b: Branch, body: Parts, live: bool)
    requires !b.InElse?
    ensures ArmStream(Complete(b, body)) == Head(b) + Stream(body)
    ensures ArmLines(Complete(b, body), live) == HeadLines(b, live) + Lines(body, live && Chosen(b))
  {}

  lemma Regroup<T>(a: seq<T>, b: seq<T>, c: seq<T>, d: seq<T>)
    ensures a + (b + c + d) == a + b + c + d && a + (b + c) + d == a + b + c + d && a + b + c + [] == a + b + c
  {}

  /** A place inside a further branch of the same conditional. */
  lemma NextBranchReads(p: Place, branch: Branch, d: Directive)
    requires p.Inside? && !p.branch.InElse? && !branch.InFirst? && branch.arms == Complete(p.branch, p.done)
    requires Head(branch) == ArmStream(branch.arms) + [d]
    ensures var q := Inside(p.outer, branch, Nothing);
            ReadSoFar(q) == ReadSoFar(p) + [d] && EmittedSoFar(q) == EmittedSoFar(p)
  {
    var live := Live(p.outer);
    CompleteReads(p.branch, p.done, live);
    Regroup(ReadSoFar(p.outer), Head(p.branch), Stream(p.done), [d]);
    Regroup(EmittedSoFar(p.outer), HeadLines(p.branch, live), Lines(p.done, live && Chosen(p.branch)), []);
  }

  /** A place behind the conditional. */
  lemma EndReads(p: Place)
    requires p.Inside?
    ensures var q := With(p.outer, Whole(p.branch, p.done));
            ReadSoFar(q) == ReadSoFar(p) + [Endif] && EmittedSoFar(q) == EmittedSoFar(p)
  {
    var live := Live(p.outer);
    WithReads(p.outer, Whole(p.branch, p.done));
    WholeReads(p.branch, p.done, live);
    Regroup(ReadSoFar(p.outer), Head(p.branch), Stream(p.done), [Endif]);
    Regroup(EmittedSoFar(p.outer), HeadLines(p.branch, live), Lines(p.done, live && Chosen(p.branch)), []);
  }

  /** Moving on reads the directive, and emits a line exactly where the place is live. */
  lemma AdvanceReads(p: Place, d: Directive, limit: nat)
    requires Advance(p, d, limit).To?
    ensures var q := Advance(p, d, limit).place;
            && ReadSoFar(q) == ReadSoFar(p) + [d]
            && EmittedSoFar(q) == EmittedSoFar(p) + if d.Text? && Live(p) then [d.id] else []
  {
    match d
    case Text(id) => WithReads(p, Line(id));
    case If(_) =>
    case Elif(condition) => NextBranchReads(p, InFurther(Complete(p.branch, p.done), condition), d);
    case ElseD => NextBranchReads(p, InElse(Complete(p.branch, p.done)), d);
    case Endif => EndReads(p);
  }

  // --- whole streams ------------------------------------------------------------------------

  datatype Walk = At(place: Place) | Stopped(at: nat, error: PPError)

  /** Every directive in turn, in the nesting. */
  function WalkOf(ds: seq<Directive>, limit: nat): Walk {
    if ds == [] then At(Top(Nothing))
    else
      var n := |ds| - 1;
      match WalkOf(ds[..n], limit)
      case Stopped(at, error) => Stopped(at, error)
      case At(p) =>
        match Advance(p, ds[n], limit)
        case Refused(error) => Stopped(n, error)
        case To(q) => At(q)
  }

  /**
   * On every stream the flat machine and the nesting agree: in the error and where, or in the frames and what
   * was emitted.
   */
  lemma {:induction false} RunIsWalk(ds: seq<Directive>, limit: nat)
    ensures match WalkOf(ds, limit)
            case Stopped(at, error) => RunOf(ds, limit) == Failed(at, error)
            case At(p) => RunOf(ds, limit) == Clean(FramesAt(p), EmittedSoFar(p)) && ReadSoFar(p) == ds
  {
    if ds != [] {
      var n := |ds| - 1;
      RunIsWalk(ds[..n], limit);
      if WalkOf(ds[..n], limit).At? {
        var p := WalkOf(ds[..n], limit).place;
        StepIsAdvance(p, ds[n], limit);
        EmitsWhereLive(p);
        if Advance(p, ds[n], limit).To? {
          AdvanceReads(p, ds[n], limit);
        }
      }
    }
  }

  // --- nested source is walked through --------------------------------------------------------

  /** The directives lead from one place to another, through the places of a trace. */
  ghost predicate Traces(trace: seq<Place>, p: Place, ds: seq<Directive>, limit: nat, q: Place) {
    && |trace| == |ds| + 1 && trace[0] == p && trace[|ds|] == q
    && forall i :: 0 <= i < |ds| ==> Advance(trace[i], ds[i], limit) == To(trace[i + 1])
  }

  ghost predicate Leads(p: Place, ds: seq<Directive>, limit: nat, q: Place) {
    exists trace :: Traces(trace, p, ds, limit, q)
  }

  lemma LeadsNowhere(p: Place, limit: nat)
    ensures Leads(p, [], limit, p)
  {
    assert Traces([p], p, [], limit, p);
  }

  lemma LeadsOne(p: Place, d: Directive, limit: nat, q: Place)
    requires Advance(p, d, limit) == To(q)
    ensures Leads(p, [d], limit, q)
  {
    assert Traces([p, q], p, [d], limit, q);
  }

  lemma LeadsOn(p: Place, ds: seq<Directive>, q: Place, es: seq<Directive>, r: Place, limit: nat)
    requires Leads(p, ds, limit, q) && Leads(q, es, limit, r)
    ensures Leads(p, ds + es, limit, r)
  {
    var s :| Traces(s, p, ds, limit, q);
    var t :| Traces(t, q, es, limit, r);
    var u := s + t[1..];
    forall i | 0 <= i < |ds + es| ensures Advance(u[i], (ds + es)[i], limit) == To(u[i + 1]) {
      if i < |ds| {
        assert u[i + 1] == s[i + 1];
      } else {
        assert u[i] == t[i - |ds|] && u[i + 1] == t[i - |ds| + 1];
      }
    }
    assert Traces(u, p, ds + es, limit, r);
  }

  lemma {:induction false} TracesIsWalk(trace: seq<Place>, ds: seq<Directive>, limit: nat, q: Place)
    requires Traces(trace, Top(Nothing), ds, limit, q)
    ensures WalkOf(ds, limit) == At(q)
  {
    if ds != [] {
      var n := |ds| - 1;
      TracesIsWalk(trace[..n + 1], ds[..n], limit, trace[n]);
    }
  }

  /** The branch a reader of these arms stands in at their end. */
  function LastBranch(arms: Arms): Branch {
    if arms.First? then InFirst(arms.condition) else InFurther(arms.before, arms.condition)
  }

  function Holding(p: Place, parts: Parts): Place { p.(done := parts) }

  lemma {:induction false} LeadsParts(p: Place, parts: Parts, limit: nat)
    requires p.done == Nothing && Height(p) + Depth(parts) <= limit
    ensures Leads(p, Stream(parts), limit, Holding(p, parts))
    decreases parts
  {
    match parts
    case Nothing => LeadsNowhere(p, limit);
    case Next(init, last) =>
      LeadsParts(p, init, limit);
      LeadsPart(Holding(p, init), last, limit);
      LeadsOn(p, Stream(init), Holding(p, init), PartStream(last), Holding(p, parts), limit);
  }

  function PartDepth(part: Part): nat {
    match part
    case Line(_) => 0
    case Group(arms, NoElse) => 1 + ArmDepth(arms)
    case Group(arms, Else(body)) => 1 + Max(ArmDepth(arms), Depth(body))
  }

  lemma {:induction false} LeadsPart(p: Place, part: Part, limit: nat)
    requires Height(p) + PartDepth(part) <= limit
    ensures Leads(p, PartStream(part), limit, With(p, part))
    decreases part
  {
    match part
    case Line(id) => LeadsOne(p, Text(id), limit, With(p, part));
    case Group(arms, otherwise) =>
      LeadsArms(p, arms, limit);
      var end := Inside(p, LastBranch(arms), arms.body);
      if otherwise.NoElse? {
        LeadsOne(end, Endif, limit, With(p, part));
        LeadsOn(p, ArmStream(arms), end, [Endif], With(p, part), limit);
      } else {
        var within := Inside(p, InElse(arms), Nothing);
        LeadsOne(end, ElseD, limit, within);
        LeadsOn(p, ArmStream(arms), end, [ElseD], within, limit);
        LeadsParts(within, otherwise.body, limit);
        LeadsOn(p, ArmStream(arms) + [ElseD], within, Stream(otherwise.body), Holding(within, otherwise.body), limit);
        LeadsOne(Holding(within, otherwise.body), Endif, limit, With(p, part));
        LeadsOn(p, ArmStream(arms) + [ElseD] + Stream(otherwise.body), Holding(within, otherwise.body), [Endif],
                With(p, part), limit);
      }
  }

  lemma {:induction false} LeadsArms(p: Place, arms: Arms, limit: nat)
    requires Height(p) + 1 + ArmDepth(arms) <= limit
    ensures Leads(p, ArmStream(arms), limit, Inside(p, LastBranch(arms), arms.body))
    decreases arms
  {
    var within := Inside(p, LastBranch(arms), Nothing);
    match arms
    case First(condition, body) =>
      LeadsOne(p, If(condition), limit, within);
      LeadsParts(within, body, limit);
      LeadsOn(p, [If(condition)], within, Stream(body), Holding(within, body), limit);
    case Further(before, condition, body) =>
      LeadsArms(p, before, limit);
      var end := Inside(p, LastBranch(before), before.body);
      LeadsOne(end, Elif(condition), limit, within);
      LeadsOn(p, ArmStream(before), end, [Elif(condition)], within, limit);
      LeadsParts(within, body, limit);
      LeadsOn(p, ArmStream(before) + [Elif(condition)], within, Stream(body), Holding(within, body), limit);
  }

  /** A walk within a smaller limit is the same walk, unless it stops because of that limit. */
  lemma {:induction false} OnlyTheLimit(ds: seq<Directive>, limit: nat, wide: nat)
    requires limit <= wide && WalkOf(ds, wide).At?
    ensures match WalkOf(ds, limit)
            case At(p) => WalkOf(ds, wide) == At(p)
            case Stopped(_, error) => error == ConditionalNestingExceeded
  {
    if ds != [] {
      OnlyTheLimit(ds[..|ds| - 1], limit, wide);
    }
  }

  // --- how deep a place is --------------------------------------------------------------------

  function BranchDepth(b: Branch): nat {
    if b.InFirst? then 0 else ArmDepth(b.arms)
  }

  /** The deepest nesting of everything read to get to a place. */
  function Deepest(p: Place): nat {
    if p.Top? then Depth(p.done)
    else Max(Deepest(p.outer), Height(p) + Max(BranchDepth(p.branch), Depth(p.done)))
  }

  lemma DeepestWith(p: Place, part: Part)
    ensures Deepest(With(p, part)) == Max(Deepest(p), Height(p) + PartDepth(part))
  {}

  lemma CompleteDepth(b: Branch, body: Parts)
    requires !b.InElse?
    ensures ArmDepth(Complete(b, body)) == Max(BranchDepth(b), Depth(body))
  {}

  lemma WholeDepth(b: Branch, body: Parts)
    ensures PartDepth(Whole(b, body)) == 1 + Max(BranchDepth(b), Depth(body))
  {}

  lemma DeepestNext(p: Place, branch: Branch)
    requires p.Inside? && !p.branch.InElse? && !branch.InFirst? && branch.arms == Complete(p.branch, p.done)
    ensures Deepest(Inside(p.outer, branch, Nothing)) == Deepest(p)
  {
    CompleteDepth(p.branch, p.done);
  }

  lemma DeepestEnd(p: Place)
    requires p.Inside?
    ensures Deepest(With(p.outer, Whole(p.branch, p.done))) == Deepest(p)
  {
    DeepestWith(p.outer, Whole(p.branch, p.done));
    WholeDepth(p.branch, p.done);
  }

  lemma DeepestAdvance(p: Place, d: Directive, limit: nat)
    requires Advance(p, d, limit).To? && Deepest(p) <= limit && Height(p) <= limit
    ensures Deepest(Advance(p, d, limit).place) <= limit && Height(Advance(p, d, limit).place) <= limit
  {
    match d
    case Text(id) => DeepestWith(p, Line(id));
    case If(_) =>
    case Elif(condition) => DeepestNext(p, InFurther(Complete(p.branch, p.done), condition));
    case ElseD => DeepestNext(p, InElse(Complete(p.branch, p.done)));
    case Endif => DeepestEnd(p);
  }

  lemma {:induction false} DeepestWalk(ds: seq<Directive>, limit: nat)
    requires WalkOf(ds, limit).At?
    ensures Deepest(WalkOf(ds, limit).place) <= limit && Height(WalkOf(ds, limit).place) <= limit
  {
    if ds != [] {
      DeepestWalk(ds[..|ds| - 1], limit);
      DeepestAdvance(WalkOf(ds[..|ds| - 1], limit).place, ds[|ds| - 1], limit);
    }
  }

  // --- the meaning ----------------------------------------------------------------------------

  lemma NestedWalk(parts: Parts, limit: nat)
    requires Depth(parts) <= limit
    ensures WalkOf(Stream(parts), limit) == At(Top(parts))
  {
    LeadsParts(Top(Nothing), parts, limit);
    var trace :| Traces(trace, Top(Nothing), Stream(parts), limit, Top(parts));
    TracesIsWalk(trace, Stream(parts), limit, Top(parts));
  }

  /** Nested source emits its surviving lines, or is refused exactly when it nests too deep. */
  lemma NestedMeaning(parts: Parts, limit: nat)
    ensures Depth(parts) <= limit ==> RunOf(Stream(parts), limit) == Clean([], Lines(parts, true))
    ensures Depth(parts) > limit ==>
              RunOf(Stream(parts), limit).Failed? && RunOf(Stream(parts), limit).error == ConditionalNestingExceeded
  {
    RunIsWalk(Stream(parts), limit);
    if Depth(parts) <= limit {
      NestedWalk(parts, limit);
    } else {
      NestedWalk(parts, Depth(parts));
      OnlyTheLimit(Stream(parts), limit, Depth(parts));
      if WalkOf(Stream(parts), limit).At? {
        DeepestWalk(Stream(parts), limit);
        assert false;
      }
    }
  }

  /**
   * A stream runs without error and closes everything it opens exactly when it is the stream of nested source
   * not too deep.
   */
  lemma CleanExactlyWhenNested(ds: seq<Directive>, limit: nat)
    ensures RunOf(ds, limit).Clean? && RunOf(ds, limit).frames == [] <==>
            exists parts :: Stream(parts) == ds && Depth(parts) <= limit
  {
    RunIsWalk(ds, limit);
    if RunOf(ds, limit).Clean? && RunOf(ds, limit).frames == [] {
      var p := WalkOf(ds, limit).place;
      assert p.Top? && Stream(p.done) == ds;
      DeepestWalk(ds, limit);
    }
    if parts :| Stream(parts) == ds && Depth(parts) <= limit {
      NestedMeaning(parts, limit);
    }
  }

  // --- what the errors mean -------------------------------------------------------------------

  /** Conditionals opened less conditionals closed. */
  function Balance(ds: seq<Directive>): int {
    if ds == [] then 0
    else Balance(ds[..|ds| - 1]) + if ds[|ds| - 1].If? then 1 else if ds[|ds| - 1].Endif? then -1 else 0
  }

  lemma {:induction false} WalkedUntil(ds: seq<Directive>, limit: nat)
    requires WalkOf(ds, limit).Stopped?
    ensures var at := WalkOf(ds, limit).at;
            at < |ds| && WalkOf(ds[..at], limit).At?
              && Advance(WalkOf(ds[..at], limit).place, ds[at], limit) == Refused(WalkOf(ds, limit).error)
  {
    var n := |ds| - 1;
    if WalkOf(ds[..n], limit).Stopped? {
      WalkedUntil(ds[..n], limit);
      var at := WalkOf(ds, limit).at;
      assert ds[..n][..at] == ds[..at];
    }
  }

  /**
   * What a stream is refused for. Too deep: a conditional is opened with as many open as there may be. Not
   * expected: something other than an `#if` with none open. Behind an `#else`: an `#elif` or `#else` of a
   * conditional that had its `#else`, with nothing but whole source read in between.
   */
  lemma ErrorsMean(ds: seq<Directive>, limit: nat)
    requires RunOf(ds, limit).Failed?
    ensures var at, error := RunOf(ds, limit).at, RunOf(ds, limit).error;
            && at < |ds| && RunOf(ds[..at], limit).Clean?
            && var open := Balance(ds[..at]);
            && 0 <= open <= limit
            && (error == ConditionalNestingExceeded <==> ds[at].If? && open == limit)
            && (error == UnexpectedConditional <==> (ds[at].Elif? || ds[at].ElseD? || ds[at].Endif?) && open == 0)
            && (error == ElseAfterElse <==> (ds[at].Elif? || ds[at].ElseD?) && open > 0)
            && (error == ElseAfterElse ==>
                exists front, body :: ds[..at] == front + [ElseD] + Stream(body) && Balance(front) == open)
  {
    RunIsWalk(ds, limit);
    WalkedUntil(ds, limit);
    var at := WalkOf(ds, limit).at;
    RunIsWalk(ds[..at], limit);
    DeepestWalk(ds[..at], limit);
    var p := WalkOf(ds[..at], limit).place;
    BalanceOfPlace(p);
    if p.Inside? && p.branch.InElse? {
      BehindAnElse(p);
    }
  }

  lemma BehindAnElse(p: Place)
    requires p.Inside? && p.branch.InElse?
    ensures exists front, body :: ReadSoFar(p) == front + [ElseD] + Stream(body) && Balance(front) == Height(p)
  {
    var front := ReadSoFar(p.outer) + ArmStream(p.branch.arms);
    assert ReadSoFar(p) == front + [ElseD] + Stream(p.done);
    BalanceOfPlace(p.outer);
    BalanceOfArms(p.branch.arms);
    BalanceOfConcat(ReadSoFar(p.outer), ArmStream(p.branch.arms));
  }

  lemma {:induction false} BalanceOfConcat(a: seq<Directive>, b: seq<Directive>)
    ensures Balance(a + b) == Balance(a) + Balance(b)
  {
    if b == [] {
      assert a + b == a;
    } else {
      var n := |b| - 1;
      BalanceOfConcat(a, b[..n]);
      assert (a + b)[..|a| + n] == a + b[..n];
    }
  }

  lemma BalanceOfOne(d: Directive)
    ensures Balance([d]) == if d.If? then 1 else if d.Endif? then -1 else 0
  {
    assert [d][..0] == [];
  }

  /** Whole source closes what it opens. */
  lemma {:induction false} BalanceOfParts(parts: Parts)
    ensures Balance(Stream(parts)) == 0
    decreases parts
  {
    match parts
    case Nothing =>
    case Next(init, last) =>
      BalanceOfParts(init);
      BalanceOfPart(last);
      BalanceOfConcat(Stream(init), PartStream(last));
  }

  lemma {:induction false} BalanceOfPart(part: Part)
    ensures Balance(PartStream(part)) == 0
    decreases part
  {
    match part
    case Line(id) => BalanceOfOne(Text(id));
    case Group(arms, otherwise) =>
      BalanceOfArms(arms);
      BalanceOfOne(Endif);
      if otherwise.NoElse? {
        BalanceOfConcat(ArmStream(arms), [Endif]);
      } else {
        BalanceOfOne(ElseD);
        BalanceOfParts(otherwise.body);
        BalanceOfConcat(ArmStream(arms), [ElseD]);
        BalanceOfConcat(ArmStream(arms) + [ElseD], Stream(otherwise.body));
        BalanceOfConcat(ArmStream(arms) + [ElseD] + Stream(otherwise.body), [Endif]);
      }
  }

  lemma {:induction false} BalanceOfArms(arms: Arms)
    ensures Balance(ArmStream(arms)) == 1
    decreases arms
  {
    BalanceOfParts(arms.body);
    match arms
    case First(condition, body) =>
      BalanceOfOne(If(condition));
      BalanceOfConcat([If(condition)], Stream(body));
    case Further(before, condition, body) =>
      BalanceOfArms(before);
      BalanceOfOne(Elif(condition));
      BalanceOfConcat(ArmStream(before), [Elif(condition)]);
      BalanceOfConcat(ArmStream(before) + [Elif(condition)], Stream(body));
  }

  lemma {:induction false} BalanceOfPlace(p: Place)
    ensures Balance(ReadSoFar(p)) == Height(p)
  {
    BalanceOfParts(p.done);
    if p.Inside? {
      BalanceOfPlace(p.outer);
      BalanceOfHead(p.branch);
      BalanceOfConcat(ReadSoFar(p.outer), Head(p.branch));
      BalanceOfConcat(ReadSoFar(p.outer) + Head(p.branch), Stream(p.done));
    }
  }

  lemma BalanceOfHead(b: Branch)
    ensures Balance(Head(b)) == 1
  {
    if b.InFirst? {
      BalanceOfOne(If(b.condition));
    } else {
      var d := if b.InFurther? then Elif(b.condition) else ElseD;
      BalanceOfArms(b.arms);
      BalanceOfOne(d);
      BalanceOfConcat(ArmStream(b.arms), [d]);
    }
  }

  /** Once a branch is chosen no later branch of the conditional is. */
  lemma AtMostOneBranch(b: Branch, body: Parts, later: Branch)
    requires !b.InElse? && Chosen(b) && !later.InFirst? && Contains(later.arms, Complete(b, body))
    ensures !Chosen(later)
  {
    TrueStays(later.arms, Complete(b, body));
  }

  /** `arms` begins with `first`. */
  predicate Contains(arms: Arms, first: Arms) {
    arms == first || (arms.Further? && Contains(arms.before, first))
  }

  lemma {:induction false} TrueStays(arms: Arms, first: Arms)
    requires Contains(arms, first) && AnyTrue(first)
    ensures AnyTrue(arms)
  {
    if arms != first {
      TrueStays(arms.before, first);
    }
  }
}
