/** The checked build's guards and the block bookkeeping around them (src/ir/checks.cc, src/ir/function.cc). */
module CheckedBuild {
  import opened FlowGraph
  import opened Guards

  /** What the instruction builder's own folder makes of a test. */
  datatype Folded = NotConstant | AlwaysFalse | AlwaysTrue
  type Folder = Test -> Folded

  /** Any folder at all, as long as it never gives a wrong answer. */
  ghost predicate SoundFolder(fold: Folder) {
    forall t, env :: (fold(t).AlwaysTrue? ==> Holds(env, t)) && (fold(t).AlwaysFalse? ==> !Holds(env, t))
  }

  // --- messages -----------------------------------------------------------------------------

  /** A message's object is its text and a NUL. */
  function Bytes(text: string): string { text + ['\0'] }

  function TextOf(bytes: string): string { if bytes == [] then [] else bytes[..|bytes| - 1] }

  /** The map and the objects name each other, so a text has one object. */
  ghost predicate MessageTable(messages: map<string, nat>, globals: seq<string>) {
    && (forall text <- messages :: messages[text] < |globals| && globals[messages[text]] == Bytes(text))
    && (forall k :: 0 <= k < |globals| ==> TextOf(globals[k]) in messages && messages[TextOf(globals[k])] == k)
  }

  lemma OneObjectPerText(messages: map<string, nat>, globals: seq<string>, i: nat, j: nat)
    requires MessageTable(messages, globals) && i < j < |globals|
    ensures globals[i] != globals[j]
  {}

  // --- one guard ----------------------------------------------------------------------------

  function EffectOfGuard(env: Env, bad: Test, message: string): Effect {
    if Holds(env, bad) then Ends([], Trapped(message)) else GoesOn([])
  }

  ghost predicate Prints(g: Graph, text: nat, message: string) {
    text < |g.globals| && g.globals[text] == Bytes(message)
  }

  /** The emitted code is the guard, in every run. */
  ghost predicate Guarded(g: Graph, b: nat, g': Graph, b': nat, bad: Test, message: string) {
    forall env :: Emits(env, g, b, g', b', EffectOfGuard(env, bad, message))
  }

  /** A test, a block that fails, and a block that goes on. */
  lemma GuardEmits(g: Graph, b: nat, g': Graph, bad: Test, message: string, text: nat, trap: nat, ok: nat)
    requires Writes(g, b, g') && b < |g.blocks| && g.blocks[b].term.Open? && trap < |g'.blocks| && ok < |g'.blocks|
    requires g'.blocks[b] == g.blocks[b].(term := Branch(bad, trap, ok))
    requires g'.blocks[trap] == Block([], Fail(text, |message|)) && g'.blocks[ok] == Block([], Open)
    requires Prints(g', text, message)
    ensures Guarded(g, b, g', ok, bad, message)
  {
    forall env ensures Emits(env, g, b, g', ok, EffectOfGuard(env, bad, message)) {
      var effect := EffectOfGuard(env, bad, message);
      forall done ensures Leave(g', env, b, done + [], 1) == After(effect, ok, done) {
        assert done + [] == done;
      }
      Emit(env, g, b, g', ok, [], effect, 1);
    }
  }

  /** A failure emitted straight, for a test that holds in every run. */
  lemma AlwaysFails(g: Graph, b: nat, g': Graph, dead: nat, bad: Test, message: string, text: nat)
    requires Writes(g, b, g') && b < |g.blocks| && g.blocks[b].term.Open?
    requires g'.blocks[b] == g.blocks[b].(term := Fail(text, |message|)) && Prints(g', text, message)
    requires forall env :: Holds(env, bad)
    ensures Guarded(g, b, g', dead, bad, message)
  {
    forall env ensures Emits(env, g, b, g', dead, EffectOfGuard(env, bad, message)) {
      forall done ensures Leave(g', env, b, done + [], 0) == After(Ends([], Trapped(message)), dead, done) {
        assert done + [] == done;
      }
      assert Holds(env, bad);
      Emit(env, g, b, g', dead, [], Ends([], Trapped(message)), 0);
    }
  }

  /** No code, for a test that holds in no run. */
  lemma NeverFails(g: Graph, b: nat, g': Graph, bad: Test, message: string)
    requires Writes(g, |g.blocks|, g') && b < |g.blocks|
    requires forall env :: !Holds(env, bad)
    ensures Guarded(g, b, g', b, bad, message)
  {
    forall env ensures Emits(env, g, b, g', b, EffectOfGuard(env, bad, message)) {
      assert !Holds(env, bad);
      Added(env, g, g', b);
    }
  }

  // --- effects of the pieces ----------------------------------------------------------------

  function RuleOf(a: Access, rule: Rule): Env -> Effect
    requires a.obligation.Obligation?
  {
    (env: Env) => EffectOfRule(env, a, rule)
  }

  function TwoRulesOf(a: Access): Env -> Effect
    requires a.obligation.Obligation?
  {
    (env: Env) => Seq(EffectOfRule(env, a, NullRule), EffectOfRule(env, a, MisalignedRule))
  }

  function GuardsOf(a: Access, checks: bool): Env -> Effect {
    if !checks || a.obligation.NoObligation? then (env: Env) => GoesOn([])
    else (env: Env) => Seq(TwoRulesOf(a)(env), EffectOfRule(env, a, OutOfBoundsRule))
  }

  function AccessOf(a: Access, checks: bool): Env -> Effect {
    (env: Env) => EffectOfAccess(env, checks, a)
  }

  function AccessesOf(accesses: seq<Access>, checks: bool): Env -> Effect {
    (env: Env) => EffectOfAccesses(env, checks, accesses)
  }

  function StmtOf(s: Stmt, checks: bool): Env -> Effect {
    (env: Env) => EffectOf(env, checks, s)
  }

  function BodyOf(ss: seq<Stmt>, checks: bool): Env -> Effect {
    (env: Env) => EffectOfAll(env, checks, ss)
  }

  /** A guard whose test is the rule is the rule's guard. */
  lemma GuardIsRule(g: Graph, b: nat, g': Graph, b': nat, a: Access, rule: Rule, test: Test)
    requires a.obligation.Obligation? && Grows(g, b, g', b')
    requires Guarded(g, b, g', b', test, Message(rule, a.obligation.location))
    requires forall env :: Holds(env, test) == Violates(env, a, rule)
    ensures Does(g, b, g', b', RuleOf(a, rule))
  {
    var message := Message(rule, a.obligation.location);
    forall env ensures Emits(env, g, b, g', b', RuleOf(a, rule)(env)) {
      assert Holds(env, test) == Violates(env, a, rule);
      assert Emits(env, g, b, g', b', EffectOfGuard(env, test, message));
    }
  }

  lemma GuardsThenAccess(env: Env, a: Access, checks: bool)
    ensures AccessOf(a, checks)(env) == Seq(GuardsOf(a, checks)(env), GoesOn([a.id]))
  {
    assert [] + [a.id] == [a.id];
    if checks && a.obligation.Obligation? {
      GuardsInOrder(env, a);
      assert TwoRulesOf(a)(env) == Seq(EffectOfRule(env, a, NullRule), EffectOfRule(env, a, MisalignedRule));
      assert GuardsOf(a, checks)(env) == Seq(TwoRulesOf(a)(env), EffectOfRule(env, a, OutOfBoundsRule));
    }
  }

  /** No code. */
  lemma Nothing(g: Graph, b: nat, effect: Env -> Effect)
    requires b < |g.blocks| && forall env :: effect(env) == GoesOn([])
    ensures Does(g, b, g, b, effect)
  {
    forall env ensures Emits(env, g, b, g, b, effect(env)) {
      Added(env, g, g, b);
    }
  }

  /** What a body's effect is once control that runs off its end is given the end the language implies. */
  function EndOf(effect: Effect, isVoid: bool): Point {
    match effect
    case GoesOn(done) => Ended(done, if isVoid then Returned else Undefined)
    case Ends(done, ending) => Ended(done, ending)
  }

  lemma StaysEnded(env: Env, g: Graph, b: nat, g': Graph, p: Point)
    requires Writes(g, b, g') && b < |g.blocks| && g.blocks[b].term.Open? && p.Ended? && Reaches(g, env, p)
    ensures Reaches(g', env, p)
  {
    var m: nat :| Exec(g, env, 0, [], m) == p;
    Elsewhere(g, g', env, b, 0, [], m);
  }

  /** The last block given its terminator. */
  lemma BodyEnds(env: Env, g: Graph, b: nat, g': Graph, effect: Effect, isVoid: bool)
    requires b < |g.blocks| && Reaches(g, env, After(effect, b, [])) && g'.globals == g.globals
    requires g'.blocks == if g.blocks[b].term.Open?
                          then g.blocks[b := g.blocks[b].(term := if isVoid then Ret else Unreachable)]
                          else g.blocks
    ensures Reaches(g', env, EndOf(effect, isVoid))
  {
    var ending := if isVoid then Returned else Undefined;
    if effect.GoesOn? {
      ReachedIsOpen(g, env, b, [] + effect.done);
      forall done ensures Leave(g', env, b, done + [], 0) == After(Ends([], ending), b, done) {
        assert done + [] == done;
      }
      Emit(env, g, b, g', b, [], Ends([], ending), 0);
      assert After(Ends([], ending), b, [] + effect.done) == EndOf(effect, isVoid);
    } else {
      assert After(effect, b, []) == EndOf(effect, isVoid);
      if g.blocks[b].term.Open? {
        StaysEnded(env, g, b, g', EndOf(effect, isVoid));
      } else {
        assert g' == g;
      }
    }
  }

  class Lowering {
    const checksEnabled: bool
    const fold: Folder
    var blocks: seq<Block>
    /** The builder's insert point. */
    var insert: nat
    var globals: seq<string>
    var messages: map<string, nat>
    var checkFail: bool

    function G(): Graph
      reads this
    {
      Graph(blocks, globals)
    }

    ghost predicate Valid()
      reads this
    {
      && insert < |blocks| && SoundFolder(fold) && MessageTable(messages, globals)
      && (forall k :: 0 <= k < |blocks| ==> blocks[k].term.Fail? ==> checkFail) && (checkFail ==> checksEnabled)
    }

    predicate IsOpen()
      reads this
    {
      insert < |blocks| && blocks[insert].term.Open?
    }

    /** `checkMessageGlobal`: the object of a text, made the first time it is asked for. */
    method CheckMessageGlobal(text: string) returns (id: nat)
      requires Valid()
      modifies this`globals, this`messages
      ensures Valid() && old(globals) <= globals && Prints(G(), id, text)
      ensures text in old(messages) ==> globals == old(globals) && messages == old(messages)
    {
      if text in messages {
        return messages[text];
      }
      id := |globals|;
      messages := messages[text := id];
      globals := globals + [Bytes(text)];
    }

    /** `guardBranch`: the one shape a guard has, and what a constant condition makes of it. */
    method GuardBranch(bad: Test, message: string)
      requires Valid() && IsOpen() && checksEnabled
      modifies this`blocks, this`insert, this`globals, this`messages, this`checkFail
      ensures Valid() && IsOpen() && Grows(old(G()), old(insert), G(), insert)
      ensures Guarded(old(G()), old(insert), G(), insert, bad, message)
    {
      ghost var g, b := G(), insert;
      checkFail := true;
      var text := CheckMessageGlobal(message);
      match fold(bad)
      case AlwaysFalse => NeverFails(g, b, G(), bad, message);
      case AlwaysTrue => FailHere(g, text, message, bad);
      case NotConstant => TestAndFail(g, text, message, bad);
    }

    /** A guard that always fires: the failure, and the access behind it in a block nothing enters. */
    method FailHere(ghost g: Graph, text: nat, message: string, bad: Test)
      requires Valid() && IsOpen() && checkFail && g.blocks == blocks && g.globals <= globals
      requires Prints(G(), text, message) && fold(bad).AlwaysTrue?
      modifies this`blocks, this`insert
      ensures Valid() && IsOpen() && Grows(g, old(insert), G(), insert)
      ensures Guarded(g, old(insert), G(), insert, bad, message)
    {
      ghost var b := insert;
      blocks := blocks[insert := blocks[insert].(term := Fail(text, |message|))] + [Block([], Open)];
      insert := |blocks| - 1;
      AlwaysFails(g, b, G(), insert, bad, message, text);
    }

    /** A test, a block that fails, and the block the access continues in. */
    method TestAndFail(ghost g: Graph, text: nat, message: string, bad: Test)
      requires Valid() && IsOpen() && checkFail && g.blocks == blocks && g.globals <= globals
      requires Prints(G(), text, message)
      modifies this`blocks, this`insert
      ensures Valid() && IsOpen() && Grows(g, old(insert), G(), insert)
      ensures Guarded(g, old(insert), G(), insert, bad, message)
    {
      ghost var b := insert;
      var trap, ok := |blocks|, |blocks| + 1;
      blocks := blocks[insert := blocks[insert].(term := Branch(bad, trap, ok))]
                + [Block([], Fail(text, |message|)), Block([], Open)];
      insert := ok;
      GuardEmits(g, b, G(), bad, message, text, trap, ok);
    }

    method GuardNull(a: Access)
      requires Valid() && IsOpen() && checksEnabled && a.obligation.Obligation?
      modifies this`blocks, this`insert, this`globals, this`messages, this`checkFail
      ensures Valid() && IsOpen() && Does(old(G()), old(insert), G(), insert, RuleOf(a, NullRule))
    {
      ghost var g, b := G(), insert;
      GuardBranch(IsNull(a.address), Message(NullRule, a.obligation.location));
      GuardIsRule(g, b, G(), insert, a, NullRule, IsNull(a.address));
    }

    method GuardAlignment(a: Access)
      requires Valid() && IsOpen() && checksEnabled && a.obligation.Obligation? && Aligned(a)
      modifies this`blocks, this`insert, this`globals, this`messages, this`checkFail
      ensures Valid() && IsOpen() && Does(old(G()), old(insert), G(), insert, RuleOf(a, MisalignedRule))
    {
      ghost var g, b := G(), insert;
      var alignment := a.obligation.alignment;
      if a.isPointer && alignment > 1 {
        forall env: Env ensures Holds(env, LowBits(a.address, alignment - 1)) == Violates(env, a, MisalignedRule) {
          MaskIsRemainder(Value(env, a.address), alignment);
        }
        GuardBranch(LowBits(a.address, alignment - 1), Message(MisalignedRule, a.obligation.location));
        GuardIsRule(g, b, G(), insert, a, MisalignedRule, LowBits(a.address, alignment - 1));
      } else {
        Nothing(G(), insert, RuleOf(a, MisalignedRule));
      }
    }

    method GuardBounds(a: Access)
      requires Valid() && IsOpen() && checksEnabled && a.obligation.Obligation?
      modifies this`blocks, this`insert, this`globals, this`messages, this`checkFail
      ensures Valid() && IsOpen() && Does(old(G()), old(insert), G(), insert, RuleOf(a, OutOfBoundsRule))
    {
      ghost var g, b := G(), insert;
      if a.bounds.Bounds? {
        GuardBranch(AtLeast(a.bounds.index, a.bounds.extent), Message(OutOfBoundsRule, a.obligation.location));
        GuardIsRule(g, b, G(), insert, a, OutOfBoundsRule, AtLeast(a.bounds.index, a.bounds.extent));
      } else {
        Nothing(G(), insert, RuleOf(a, OutOfBoundsRule));
      }
    }

    /** `guardAccess`: the guards of one access, in order. */
    method GuardAccess(a: Access)
      requires Valid() && IsOpen() && Aligned(a)
      modifies this`blocks, this`insert, this`globals, this`messages, this`checkFail
      ensures Valid() && IsOpen() && Does(old(G()), old(insert), G(), insert, GuardsOf(a, checksEnabled))
      ensures !checksEnabled ==> G() == old(G())
    {
      ghost var g, b := G(), insert;
      if !checksEnabled || a.obligation.NoObligation? {
        Nothing(g, b, GuardsOf(a, checksEnabled));
        return;
      }
      GuardNull(a);
      ghost var g1, b1 := G(), insert;
      GuardAlignment(a);
      Then(g, b, g1, b1, G(), insert, RuleOf(a, NullRule), RuleOf(a, MisalignedRule), TwoRulesOf(a));
      ghost var g2, b2 := G(), insert;
      GuardBounds(a);
      Then(g, b, g2, b2, G(), insert, TwoRulesOf(a), RuleOf(a, OutOfBoundsRule), GuardsOf(a, true));
    }

    /** `loadPlace`, `storePlace`: the guards, and in the block they leave, the access. */
    method PerformAccess(a: Access)
      requires Valid() && IsOpen() && Aligned(a)
      modifies this`blocks, this`insert, this`globals, this`messages, this`checkFail
      ensures Valid() && IsOpen() && Does(old(G()), old(insert), G(), insert, AccessOf(a, checksEnabled))
      ensures !checksEnabled ==> globals == old(globals)
    {
      ghost var g, b := G(), insert;
      GuardAccess(a);
      ghost var g1, b1 := G(), insert;
      blocks := blocks[insert := blocks[insert].(accesses := blocks[insert].accesses + [a.id])];
      forall env ensures Emits(env, g1, b1, G(), insert, GoesOn([a.id])) {
        Emit(env, g1, b1, G(), insert, [a.id], GoesOn([a.id]), 0);
      }
      forall env: Env ensures AccessOf(a, checksEnabled)(env) == Seq(GuardsOf(a, checksEnabled)(env), GoesOn([a.id])) {
        GuardsThenAccess(env, a, checksEnabled);
      }
      Then(g, b, g1, b1, G(), insert, GuardsOf(a, checksEnabled), (env: Env) => GoesOn([a.id]),
           AccessOf(a, checksEnabled));
    }

    /** The accesses of an expression, left to right. */
    method PerformAll(accesses: seq<Access>)
      requires Valid() && IsOpen() && AlignedAll(accesses)
      modifies this`blocks, this`insert, this`globals, this`messages, this`checkFail
      ensures Valid() && IsOpen() && Does(old(G()), old(insert), G(), insert, AccessesOf(accesses, checksEnabled))
      ensures !checksEnabled ==> globals == old(globals)
    {
      ghost var g, b := G(), insert;
      Nothing(g, b, AccessesOf([], checksEnabled));
      assert accesses[..0] == [];
      for i := 0 to |accesses|
        invariant Valid() && IsOpen() && Does(g, b, G(), insert, AccessesOf(accesses[..i], checksEnabled))
        invariant !checksEnabled ==> globals == old(globals)
      {
        ghost var g1, b1 := G(), insert;
        PerformAccess(accesses[i]);
        assert accesses[..i + 1][..i] == accesses[..i];
        Then(g, b, g1, b1, G(), insert, AccessesOf(accesses[..i], checksEnabled), AccessOf(accesses[i], checksEnabled),
             AccessesOf(accesses[..i + 1], checksEnabled));
      }
      assert accesses[..|accesses|] == accesses;
    }

    /** `lowerStatements`: each statement, the ones behind a terminator into a dead block. */
    method LowerStatements(ss: seq<Stmt>)
      requires Valid() && TargetedAll(ss)
      modifies this`blocks, this`insert, this`globals, this`messages, this`checkFail
      ensures Valid() && Does(old(G()), old(insert), G(), insert, BodyOf(ss, checksEnabled))
      ensures !checksEnabled ==> globals == old(globals)
      decreases ss, 0
    {
      ghost var g, b := G(), insert;
      Nothing(g, b, BodyOf([], checksEnabled));
      assert ss[..0] == [];
      for i := 0 to |ss|
        invariant Valid() && Does(g, b, G(), insert, BodyOf(ss[..i], checksEnabled))
        invariant !checksEnabled ==> globals == old(globals)
      {
        ghost var g1, b1 := G(), insert;
        OpenBlock();
        ghost var g2, b2 := G(), insert;
        Then(g, b, g1, b1, g2, b2, BodyOf(ss[..i], checksEnabled), (env: Env) => GoesOn([]),
             BodyOf(ss[..i], checksEnabled));
        LowerStatement(ss[i]);
        assert ss[..i + 1][..i] == ss[..i];
        Then(g, b, g2, b2, G(), insert, BodyOf(ss[..i], checksEnabled), StmtOf(ss[i], checksEnabled),
             BodyOf(ss[..i + 1], checksEnabled));
      }
      assert ss[..|ss|] == ss;
    }

    /** A block that can take another instruction: the current one, or a dead one. */
    method OpenBlock()
      requires Valid()
      modifies this`blocks, this`insert
      ensures Valid() && IsOpen() && Does(old(G()), old(insert), G(), insert, (env: Env) => GoesOn([]))
    {
      ghost var g, b := G(), insert;
      if !blocks[insert].term.Open? {
        blocks := blocks + [Block([], Open)];
        insert := |blocks| - 1;
      }
      forall env ensures Emits(env, g, b, G(), insert, GoesOn([])) {
        Added(env, g, G(), b);
      }
    }

    /** `branchTo`: to the join, unless the block already ended. */
    method BranchTo(next: nat)
      requires Valid() && next < |blocks| && next != insert && blocks[next] == Block([], Open)
      modifies this`blocks
      ensures Valid() && Writes(old(G()), insert, G()) && |blocks| == old(|blocks|)
      ensures forall env :: Emits(env, old(G()), insert, G(), next, GoesOn([]))
    {
      ghost var g := G();
      if blocks[insert].term.Open? {
        blocks := blocks[insert := blocks[insert].(term := Jump(next))];
        forall env ensures Emits(env, g, insert, G(), next, GoesOn([])) {
          JumpEmits(env, g, insert, G(), next);
        }
      } else {
        forall env ensures Emits(env, g, insert, G(), next, GoesOn([])) {
          Nowhere(env, g, insert, next, GoesOn([]));
        }
      }
    }

    method LowerStatement(s: Stmt)
      requires Valid() && IsOpen() && Targeted(s)
      modifies this`blocks, this`insert, this`globals, this`messages, this`checkFail
      ensures Valid() && Does(old(G()), old(insert), G(), insert, StmtOf(s, checksEnabled))
      ensures !checksEnabled ==> globals == old(globals)
      decreases s, 1
    {
      ghost var g, b := G(), insert;
      match s
      case Perform(accesses) =>
        PerformAll(accesses);
        SameDoes(g, b, G(), insert, AccessesOf(accesses, checksEnabled), StmtOf(s, checksEnabled));
      case Nested(body) =>
        LowerStatements(body);
        SameDoes(g, b, G(), insert, BodyOf(body, checksEnabled), StmtOf(s, checksEnabled));
      case Return(_) => LowerReturn(s);
      case If(_, _, _, _) => LowerIf(s);
    }

    method LowerReturn(s: Stmt)
      requires Valid() && IsOpen() && s.Return? && Targeted(s)
      modifies this`blocks, this`insert, this`globals, this`messages, this`checkFail
      ensures Valid() && Does(old(G()), old(insert), G(), insert, StmtOf(s, checksEnabled))
      ensures !checksEnabled ==> globals == old(globals)
    {
      ghost var g, b := G(), insert;
      PerformAll(s.accesses);
      ghost var g1, b1 := G(), insert;
      blocks := blocks[insert := blocks[insert].(term := Ret)];
      forall env ensures Emits(env, g1, b1, G(), insert, Ends([], Returned)) {
        forall done ensures Leave(G(), env, b1, done + [], 0) == After(Ends([], Returned), insert, done) {}
        Emit(env, g1, b1, G(), insert, [], Ends([], Returned), 0);
      }
      Then(g, b, g1, b1, G(), insert, AccessesOf(s.accesses, checksEnabled), (env: Env) => Ends([], Returned),
           StmtOf(s, checksEnabled));
    }

    /** A fresh block, and nothing written. */
    method NewBlock() returns (block: nat)
      requires Valid()
      modifies this`blocks
      ensures Valid() && block == old(|blocks|) && blocks == old(blocks) + [Block([], Open)]
    {
      block := |blocks|;
      blocks := blocks + [Block([], Open)];
    }

    /** The accesses of a condition, and a branch on its value to two blocks made before. */
    method LowerCondition(accesses: seq<Access>, test: Operand, yes: nat, no: nat, ghost g: Graph)
      requires Valid() && IsOpen() && AlignedAll(accesses)
      requires g.globals == globals && |g.blocks| <= |blocks| && blocks[..|g.blocks|] == g.blocks && insert < |g.blocks|
      requires |g.blocks| <= yes < |blocks| && |g.blocks| <= no < |blocks|
      requires forall k :: |g.blocks| <= k < |blocks| ==> blocks[k] == Block([], Open)
      modifies this`blocks, this`insert, this`globals, this`messages, this`checkFail
      ensures Valid() && insert < |blocks| && old(|blocks|) <= |blocks| && Writes(g, old(insert), G())
      ensures forall k :: |g.blocks| <= k < old(|blocks|) ==> blocks[k] == Block([], Open)
      ensures forall env :: Emits(env, g, old(insert), G(), if Holds(env, Truth(test)) then yes else no,
                                  EffectOfAccesses(env, checksEnabled, accesses))
      ensures !checksEnabled ==> globals == old(globals)
    {
      ghost var g1, b := G(), insert;
      assert forall k :: 0 <= k < |g.blocks| ==> g1.blocks[k] == blocks[..|g.blocks|][k];
      PerformAll(accesses);
      ghost var g2, b2 := G(), insert;
      blocks := blocks[insert := blocks[insert].(term := Branch(Truth(test), yes, no))];
      forall env ensures Emits(env, g, b, G(), if Holds(env, Truth(test)) then yes else no,
          EffectOfAccesses(env, checksEnabled, accesses)) {
        assert Emits(env, g1, b, g2, b2, AccessesOf(accesses, checksEnabled)(env));
        ConditionEmits(env, g, b, g1, g2, b2, G(), Truth(test), yes, no,
                       EffectOfAccesses(env, checksEnabled, accesses));
      }
    }

    /** One arm of an `if`, from its own block to the join; `g`, `b` are where the statement began. */
    method LowerArm(arm: nat, body: seq<Stmt>, end: nat, ghost g: Graph, ghost b: nat)
      requires Valid() && TargetedAll(body) && arm < |blocks| && end < |blocks| && arm != end
      requires blocks[end] == Block([], Open)
      requires Writes(g, b, G()) && b < |g.blocks| && |g.blocks| <= arm && |g.blocks| <= end
      modifies this`blocks, this`insert, this`globals, this`messages, this`checkFail
      ensures Valid() && Writes(old(G()), arm, G()) && Writes(g, b, G())
      ensures forall env, before :: Emits(env, g, b, old(G()), arm, before) ==>
                Emits(env, g, b, G(), end, Seq(before, EffectOfAll(env, checksEnabled, body)))
      ensures forall env, at, before ::
                |g.blocks| <= at < old(|blocks|) && at != arm && Emits(env, g, b, old(G()), at, before) ==>
                Emits(env, g, b, G(), at, before)
      ensures !checksEnabled ==> globals == old(globals)
      decreases body, 1
    {
      insert := arm;
      ghost var gA := G();
      LowerStatements(body);
      ghost var gT, bT := G(), insert;
      BranchTo(end);
      ghost var gJ := G();
      forall env, before | Emits(env, g, b, gA, arm, before)
        ensures Emits(env, g, b, gJ, end, Seq(before, EffectOfAll(env, checksEnabled, body)))
      {
        assert Emits(env, gA, arm, gT, bT, BodyOf(body, checksEnabled)(env));
        ArmTaken(env, g, b, gA, arm, gT, bT, gJ, end, before, EffectOfAll(env, checksEnabled, body));
      }
      forall env, at, before | |g.blocks| <= at < |gA.blocks| && at != arm && Emits(env, g, b, gA, at, before)
        ensures Emits(env, g, b, gJ, at, before)
      {
        assert Emits(env, gA, arm, gT, bT, BodyOf(body, checksEnabled)(env));
        ArmSkipped(env, g, b, gA, at, arm, gT, bT, gJ, end, before, EffectOfAll(env, checksEnabled, body));
      }
    }

    /** `lowerIf`: two arms and their join. */
    method LowerIf(s: Stmt)
      requires Valid() && IsOpen() && s.If? && Targeted(s)
      modifies this`blocks, this`insert, this`globals, this`messages, this`checkFail
      ensures Valid() && Does(old(G()), old(insert), G(), insert, StmtOf(s, checksEnabled))
      ensures !checksEnabled ==> globals == old(globals)
      decreases s, 0
    {
      ghost var g, b := G(), insert;
      var yes := NewBlock();
      var end := NewBlock();
      var no := end;
      if s.no.Else? {
        no := NewBlock();
      }
      LowerCondition(s.accesses, s.test, yes, no, g);
      ghost var gA := G();
      LowerArm(yes, s.yes, end, g, b);
      ghost var gJ := G();
      if s.no.Else? {
        LowerArm(no, s.no.body, end, g, b);
      }
      insert := end;
      ghost var gF := G();
      forall env ensures Emits(env, g, b, gF, end, StmtOf(s, checksEnabled)(env)) {
        var before := EffectOfAccesses(env, checksEnabled, s.accesses);
        assert Emits(env, g, b, gA, if Holds(env, Truth(s.test)) then yes else no, before);
        Units(before);
      }
    }

    constructor (checksEnabled: bool, fold: Folder)
      requires SoundFolder(fold)
      ensures Valid() && this.checksEnabled == checksEnabled && this.fold == fold && globals == []
    {
      this.checksEnabled, this.fold := checksEnabled, fold;
      blocks, insert, globals, messages, checkFail := [Block([], Open)], 0, [], map[], false;
    }

    /** `terminateDangling`: whatever block is still open is one no run reaches. */
    method TerminateDangling()
      requires Valid()
      modifies this`blocks
      ensures Valid() && |blocks| == old(|blocks|)
      ensures forall k :: 0 <= k < |blocks| ==> !blocks[k].term.Open?
      ensures forall env, p: Point :: p.Ended? && Reaches(old(G()), env, p) ==> Reaches(G(), env, p)
    {
      ghost var g := G();
      for k := 0 to |blocks|
        invariant Valid() && |blocks| == |g.blocks|
        invariant forall j :: 0 <= j < k ==> !blocks[j].term.Open?
        invariant forall env, p: Point :: p.Ended? && Reaches(g, env, p) ==> Reaches(G(), env, p)
      {
        if blocks[k].term.Open? {
          ghost var g1 := G();
          blocks := blocks[k := blocks[k].(term := Unreachable)];
          forall env, p: Point | p.Ended? && Reaches(g1, env, p) ensures Reaches(G(), env, p) {
            StaysEnded(env, g1, k, G(), p);
          }
        }
      }
    }

    /** `defineBody`: the entry block, the statements, and the end the language implies. */
    method DefineBody(body: seq<Stmt>, isVoid: bool)
      requires Valid() && TargetedAll(body)
      modifies this
      ensures Valid()
      ensures forall k :: 0 <= k < |blocks| ==> !blocks[k].term.Open?
      ensures forall env :: Reaches(G(), env, EndOf(EffectOfAll(env, checksEnabled, body), isVoid))
      ensures !checksEnabled ==> globals == old(globals) && forall k :: 0 <= k < |blocks| ==> !blocks[k].term.Fail?
    {
      blocks, insert := [Block([], Open)], 0;
      ghost var g := G();
      LowerStatements(body);
      ghost var g1, b1 := G(), insert;
      var last: Terminator := if isVoid then Ret else Unreachable;
      if blocks[insert].term.Open? {
        blocks := blocks[insert := blocks[insert].(term := last)];
      }
      ghost var g2 := G();
      TerminateDangling();
      forall env ensures Reaches(G(), env, EndOf(EffectOfAll(env, checksEnabled, body), isVoid)) {
        assert Exec(g, env, 0, [], 0) == At(0, []);
        assert Emits(env, g, 0, g1, b1, BodyOf(body, checksEnabled)(env));
        BodyEnds(env, g1, b1, g2, EffectOfAll(env, checksEnabled, body), isVoid);
      }
    }
  }
}
