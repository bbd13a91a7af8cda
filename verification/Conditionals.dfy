/**
 * The `#if` family: the flat stack of src/pp/conditionals.cc and the nesting it stands for (section 6.10.1 of
 * ISO C17).
 */
module Conditionals {
  import opened MachineWords

  // --- nested source ------------------------------------------------------------------------

  /** Lines and whole conditionals, in order. */
  datatype Parts = Nothing | Next(init: Parts, last: Part)
  datatype Part = Line(id: nat) | Group(arms: Arms, otherwise: ElseArm)
  datatype Arms = First(condition: bool, body: Parts) | Further(before: Arms, condition: bool, body: Parts)
  datatype ElseArm = NoElse | Else(body: Parts)

  predicate AnyTrue(arms: Arms) {
    match arms
    case First(condition, _) => condition
    case Further(before, condition, _) => AnyTrue(before) || condition
  }

  /** The lines that survive: every conditional around a line must be in its first true branch. */
  function Lines(parts: Parts, live: bool): seq<nat> {
    match parts
    case Nothing => []
    case Next(init, last) => Lines(init, live) + PartLines(last, live)
  }

  function PartLines(part: Part, live: bool): seq<nat> {
    match part
    case Line(id) => if live then [id] else []
    case Group(arms, NoElse) => ArmLines(arms, live)
    case Group(arms, Else(body)) => ArmLines(arms, live) + Lines(body, live && !AnyTrue(arms))
  }

  function ArmLines(arms: Arms, live: bool): seq<nat> {
    match arms
    case First(condition, body) => Lines(body, live && condition)
    case Further(before, condition, body) => ArmLines(before, live) + Lines(body, live && !AnyTrue(before) && condition)
  }


  function Depth(parts: Parts): nat {
    match parts
    case Nothing => 0
    case Next(init, Line(_)) => Depth(init)
    case Next(init, Group(arms, NoElse)) => Max(Depth(init), 1 + ArmDepth(arms))
    case Next(init, Group(arms, Else(body))) => Max(Depth(init), 1 + Max(ArmDepth(arms), Depth(body)))
  }

  function ArmDepth(arms: Arms): nat {
    match arms
    case First(_, body) => Depth(body)
    case Further(before, _, body) => Max(ArmDepth(before), Depth(body))
  }

  // --- the flat stream ----------------------------------------------------------------------

  datatype Directive = Text(id: nat) | If(condition: bool) | Elif(condition: bool) | ElseD | Endif

  function Stream(parts: Parts): seq<Directive> {
    match parts
    case Nothing => []
    case Next(init, last) => Stream(init) + PartStream(last)
  }

  function PartStream(part: Part): seq<Directive> {
    match part
    case Line(id) => [Text(id)]
    case Group(arms, NoElse) => ArmStream(arms) + [Endif]
    case Group(arms, Else(body)) => ArmStream(arms) + [ElseD] + Stream(body) + [Endif]
  }

  function ArmStream(arms: Arms): seq<Directive> {
    match arms
    case First(condition, body) => [If(condition)] + Stream(body)
    case Further(before, condition, body) => ArmStream(before) + [Elif(condition)] + Stream(body)
  }

  // --- the stack ----------------------------------------------------------------------------

  datatype Frame = Frame(parentLive: bool, live: bool, taken: bool, seenElse: bool)
  datatype PPError = NoError | ConditionalNestingExceeded | UnexpectedConditional | ElseAfterElse

  predicate Emitting(frames: seq<Frame>) {
    frames == [] || frames[|frames| - 1].live
  }

  predicate ShouldEvaluateElif(frames: seq<Frame>) {
    frames != [] && var top := frames[|frames| - 1]; top.parentLive && !top.taken && !top.seenElse
  }

  /** What one directive makes of the frames; text leaves them. */
  function Step(frames: seq<Frame>, d: Directive, limit: nat): (seq<Frame>, PPError) {
    var n := |frames| - 1;
    match d
    case Text(_) => (frames, NoError)
    case If(condition) =>
      if |frames| >= limit then (frames, ConditionalNestingExceeded)
      else
        var live := Emitting(frames) && condition;
        (frames + [Frame(Emitting(frames), live, live, false)], NoError)
    case Elif(condition) =>
      if frames == [] then (frames, UnexpectedConditional)
      else if frames[n].seenElse then (frames, ElseAfterElse)
      else
        var live := frames[n].parentLive && !frames[n].taken && condition;
        (frames[..n] + [frames[n].(live := live, taken := frames[n].taken || live)], NoError)
    case ElseD =>
      if frames == [] then (frames, UnexpectedConditional)
      else if frames[n].seenElse then (frames, ElseAfterElse)
      else
        var last := frames[n].(seenElse := true, live := frames[n].parentLive && !frames[n].taken, taken := true);
        (frames[..n] + [last], NoError)
    case Endif =>
      if frames == [] then (frames, UnexpectedConditional) else (frames[..n], NoError)
  }

  datatype Run = Clean(frames: seq<Frame>, emitted: seq<nat>) | Failed(at: nat, error: PPError)

  function RunOf(ds: seq<Directive>, limit: nat): Run {
    if ds == [] then Clean([], [])
    else
      var n := |ds| - 1;
      match RunOf(ds[..n], limit)
      case Failed(at, error) => Failed(at, error)
      case Clean(frames, emitted) =>
        var (frames', error) := Step(frames, ds[n], limit);
        if error != NoError then Failed(n, error)
        else Clean(frames', emitted + if ds[n].Text? && Emitting(frames) then [ds[n].id] else [])
  }

  class ConditionalStack {
    var frames: seq<Frame>

    constructor ()
      ensures frames == []
    {
      frames := [];
    }

    predicate IsEmitting()
      reads this
    {
      Emitting(frames)
    }

    /** `open`. */
    method Open(condition: bool, limit: nat) returns (error: PPError)
      modifies this
      ensures (frames, error) == Step(old(frames), If(condition), limit)
    {
      if |frames| >= limit {
        return ConditionalNestingExceeded;
      }
      var parentLive := IsEmitting();
      var live := parentLive && condition;
      frames := frames + [Frame(parentLive, live, live, false)];
      error := NoError;
    }

    /** `takeElif`. */
    method TakeElif(condition: bool) returns (error: PPError)
      modifies this
      ensures forall limit :: (frames, error) == Step(old(frames), Elif(condition), limit)
    {
      if frames == [] {
        return UnexpectedConditional;
      }
      var n := |frames| - 1;
      var frame := frames[n];
      if frame.seenElse {
        return ElseAfterElse;
      }
      frame := frame.(live := frame.parentLive && !frame.taken && condition);
      frame := frame.(taken := frame.taken || frame.live);
      frames := frames[..n] + [frame];
      error := NoError;
    }

    /** `takeElse`. */
    method TakeElse() returns (error: PPError)
      modifies this
      ensures forall limit :: (frames, error) == Step(old(frames), ElseD, limit)
    {
      if frames == [] {
        return UnexpectedConditional;
      }
      var n := |frames| - 1;
      var frame := frames[n];
      if frame.seenElse {
        return ElseAfterElse;
      }
      frame := frame.(seenElse := true, live := frame.parentLive && !frame.taken);
      frame := frame.(taken := true);
      frames := frames[..n] + [frame];
      error := NoError;
    }

    /** `close`. */
    method Close() returns (error: PPError)
      modifies this
      ensures forall limit :: (frames, error) == Step(old(frames), Endif, limit)
    {
      if frames == [] {
        return UnexpectedConditional;
      }
      frames := frames[..|frames| - 1];
      error := NoError;
    }
  }

  /** A whole stream through one stack, asking it about every line. */
  method RunStream(ds: seq<Directive>, limit: nat) returns (run: Run)
    ensures run == RunOf(ds, limit)
  {
    var stack := new ConditionalStack();
    var emitted: seq<nat> := [];
    for i := 0 to |ds|
      invariant RunOf(ds[..i], limit) == Clean(stack.frames, emitted)
    {
      assert ds[..i + 1][..i] == ds[..i];
      var error := NoError;
      match ds[i] {
        case Text(id) =>
          if stack.IsEmitting() {
            emitted := emitted + [id];
          }
        case If(condition) => error := stack.Open(condition, limit);
        case Elif(condition) => error := stack.TakeElif(condition);
        case ElseD => error := stack.TakeElse();
        case Endif => error := stack.Close();
      }
      if error != NoError {
        StaysFailed(ds, limit, i + 1);
        return Failed(i, error);
      }
    }
    assert ds[..|ds|] == ds;
    run := Clean(stack.frames, emitted);
  }

  lemma {:induction false} StaysFailed(ds: seq<Directive>, limit: nat, i: nat)
    requires i <= |ds| && RunOf(ds[..i], limit).Failed?
    ensures RunOf(ds, limit) == RunOf(ds[..i], limit)
  {
    if i < |ds| {
      assert ds[..|ds| - 1][..i] == ds[..i];
      StaysFailed(ds[..|ds| - 1], limit, i);
    } else {
      assert ds[..i] == ds;
    }
  }

  /** The next `#elif` is to be evaluated exactly when its value makes a difference. */
  lemma EvaluationMatters(frames: seq<Frame>, limit: nat)
    ensures ShouldEvaluateElif(frames) <==> Step(frames, Elif(true), limit) != Step(frames, Elif(false), limit)
  {
    if ShouldEvaluateElif(frames) {
      assert Step(frames, Elif(true), limit).0[|frames| - 1].live;
    } else if frames != [] && !frames[|frames| - 1].seenElse {
      assert Step(frames, Elif(true), limit).0 == Step(frames, Elif(false), limit).0;
    }
  }
}
