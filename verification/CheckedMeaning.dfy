/**
 * What checked accesses and statements do, told in arithmetic and in plain sequences of accesses: the
 * equations that say all there is to say about the effects the emitter is held to.
 */
module CheckedMeaning {
  import opened MachineWords
  import opened FlowGraph
  import opened Guards

  // --- one access -------------------------------------------------------------------------------

  /** The address may be used: not null, and divisible by what the access type asks for. */
  ghost predicate Usable(env: Env, a: Access)
    requires a.obligation.Obligation?
  {
    && Value(env, a.address) != 0
    && (a.isPointer && a.obligation.alignment > 1 ==> Value(env, a.address) % a.obligation.alignment == 0)
  }

  function Trap(rule: string, location: string): Effect {
    Ends([], Trapped("mincc: trap: " + rule + location + "\n"))
  }

  /** A checked access is performed exactly when it is safe, and otherwise the first thing wrong with it is named. */
  lemma CheckedAccessIsSafe(env: Env, a: Access)
    requires a.obligation.Obligation?
    ensures var e, at := EffectOfAccess(env, true, a), a.obligation.location;
            var inside := a.bounds.Bounds? ==> Value(env, a.bounds.index) < Value(env, a.bounds.extent);
            && (e == GoesOn([a.id]) <==> Usable(env, a) && inside)
            && (e == Trap("memory-null", at) <==> Value(env, a.address) == 0)
            && (e == Trap("memory-misaligned", at) <==> Value(env, a.address) != 0 && !Usable(env, a))
            && (e == Trap("memory-out-of-bounds", at) <==> Usable(env, a) && !inside)
  {
    var at := a.obligation.location;
    MessagesNameTheRule(NullRule, MisalignedRule, at);
    MessagesNameTheRule(NullRule, OutOfBoundsRule, at);
    MessagesNameTheRule(MisalignedRule, OutOfBoundsRule, at);
  }

  /** The same with the index as the signed number it was written as, for every extent an object can have. */
  lemma CheckedIndexIsInRange(env: Env, a: Access)
    requires a.obligation.Obligation? && a.bounds.Bounds? && Value(env, a.bounds.extent) <= 0x8000_0000_0000_0000
    ensures EffectOfAccess(env, true, a) == GoesOn([a.id]) <==>
            Usable(env, a) && 0 <= SignedWord(Value(env, a.bounds.index)) < Value(env, a.bounds.extent)
  {
    CheckedAccessIsSafe(env, a);
  }

  /** A pattern of 64 bits and the signed number it stands for differ by a multiple of 2^64. */
  lemma SignedWordIsTwosComplement(n: U64)
    ensures -0x8000_0000_0000_0000 <= SignedWord(n) < 0x8000_0000_0000_0000
    ensures SignedWord(n) == n || SignedWord(n) + WORD == n
  {}

  /** Without checks, or without an obligation, the access is simply performed. */
  lemma UncheckedAccessIsPerformed(env: Env, checks: bool, a: Access)
    requires !checks || a.obligation.NoObligation?
    ensures EffectOfAccess(env, checks, a) == GoesOn([a.id])
  {}

  // --- one after the other ------------------------------------------------------------------------

  lemma Associates(a: Effect, b: Effect, c: Effect)
    ensures Seq(Seq(a, b), c) == Seq(a, Seq(b, c))
  {
    if a.GoesOn? && b.GoesOn? {
      assert a.done + b.done + c.done == a.done + (b.done + c.done);
    }
  }

  function Ids(accesses: seq<Access>): (ids: seq<nat>)
    ensures |ids| == |accesses| && forall i :: 0 <= i < |ids| ==> ids[i] == accesses[i].id
  {
    seq(|accesses|, i requires 0 <= i < |accesses| => accesses[i].id)
  }

  /** Accesses that all go on are all performed, in order. */
  lemma {:induction false} AllPerformed(env: Env, checks: bool, accesses: seq<Access>)
    requires forall i :: 0 <= i < |accesses| ==> EffectOfAccess(env, checks, accesses[i]).GoesOn?
    ensures EffectOfAccesses(env, checks, accesses) == GoesOn(Ids(accesses))
  {
    if accesses != [] {
      var n := |accesses| - 1;
      AllPerformed(env, checks, accesses[..n]);
      assert Ids(accesses) == Ids(accesses[..n]) + [accesses[n].id];
    }
  }

  lemma {:induction false} AccessesOfConcat(env: Env, checks: bool, a: seq<Access>, b: seq<Access>)
    ensures EffectOfAccesses(env, checks, a + b) ==
            Seq(EffectOfAccesses(env, checks, a), EffectOfAccesses(env, checks, b))
  {
    if b == [] {
      assert a + b == a;
      Units(EffectOfAccesses(env, checks, a));
    } else {
      var n := |b| - 1;
      AccessesOfConcat(env, checks, a, b[..n]);
      assert (a + b)[..|a| + n] == a + b[..n] && (a + b)[|a| + n] == b[n];
      Associates(EffectOfAccesses(env, checks, a), EffectOfAccesses(env, checks, b[..n]),
                 EffectOfAccess(env, checks, b[n]));
    }
  }

  lemma AccessesOfOne(env: Env, checks: bool, a: Access)
    ensures EffectOfAccesses(env, checks, [a]) == EffectOfAccess(env, checks, a)
  {
    assert [a][..0] == [];
    Units(EffectOfAccess(env, checks, a));
  }

  /** At the first access that traps, the ones before it were performed and no other is. */
  lemma StopsAtTheFirst(env: Env, checks: bool, accesses: seq<Access>, k: nat)
    requires k < |accesses| && EffectOfAccess(env, checks, accesses[k]).Ends?
    requires forall i :: 0 <= i < k ==> EffectOfAccess(env, checks, accesses[i]).GoesOn?
    ensures EffectOfAccesses(env, checks, accesses) ==
            Ends(Ids(accesses[..k]), EffectOfAccess(env, checks, accesses[k]).ending)
  {
    var before, at, after := accesses[..k], accesses[k], accesses[k + 1..];
    assert accesses == before + [at] + after;
    AllPerformed(env, checks, before);
    AccessesOfOne(env, checks, at);
    AccessesOfConcat(env, checks, before, [at]);
    AccessesOfConcat(env, checks, before + [at], after);
    EndsWithNothingDone(env, checks, at);
    assert Ids(before) + [] == Ids(before);
  }

  lemma EndsWithNothingDone(env: Env, checks: bool, a: Access)
    ensures var e := EffectOfAccess(env, checks, a); e.Ends? ==> e.done == []
  {}

  lemma {:induction false} AllOfConcat(env: Env, checks: bool, a: seq<Stmt>, b: seq<Stmt>)
    ensures EffectOfAll(env, checks, a + b) == Seq(EffectOfAll(env, checks, a), EffectOfAll(env, checks, b))
  {
    if b == [] {
      assert a + b == a;
      Units(EffectOfAll(env, checks, a));
    } else {
      var n := |b| - 1;
      AllOfConcat(env, checks, a, b[..n]);
      assert (a + b)[..|a| + n] == a + b[..n] && (a + b)[|a| + n] == b[n];
      Associates(EffectOfAll(env, checks, a), EffectOfAll(env, checks, b[..n]), EffectOf(env, checks, b[n]));
    }
  }

  lemma AllOfOne(env: Env, checks: bool, s: Stmt)
    ensures EffectOfAll(env, checks, [s]) == EffectOf(env, checks, s)
  {
    assert [s][..0] == [];
    Units(EffectOf(env, checks, s));
  }

  // --- the equations of statements ------------------------------------------------------------------

  /** Statements with one effect may stand for each other anywhere. */
  lemma SameInside(env: Env, checks: bool, a: seq<Stmt>, s: seq<Stmt>, t: seq<Stmt>, c: seq<Stmt>)
    requires EffectOfAll(env, checks, s) == EffectOfAll(env, checks, t)
    ensures EffectOfAll(env, checks, a + s + c) == EffectOfAll(env, checks, a + t + c)
  {
    AllOfConcat(env, checks, a, s);
    AllOfConcat(env, checks, a, t);
    AllOfConcat(env, checks, a + s, c);
    AllOfConcat(env, checks, a + t, c);
  }

  /** A block is its statements. */
  lemma BlockIsItsStatements(env: Env, checks: bool, a: seq<Stmt>, body: seq<Stmt>, c: seq<Stmt>)
    ensures EffectOfAll(env, checks, a + [Nested(body)] + c) == EffectOfAll(env, checks, a + body + c)
  {
    AllOfOne(env, checks, Nested(body));
    SameInside(env, checks, a, [Nested(body)], body, c);
  }

  /** A condition is its accesses and then the arm its value picks: the first for anything but zero. */
  lemma ConditionIsItsArm(env: Env, checks: bool, a: seq<Stmt>, s: Stmt, c: seq<Stmt>)
    requires s.If?
    ensures var arm := if Value(env, s.test) != 0 then s.yes else if s.no.Else? then s.no.body else [];
            EffectOfAll(env, checks, a + [s] + c) == EffectOfAll(env, checks, a + ([Perform(s.accesses)] + arm) + c)
  {
    var arm := if Value(env, s.test) != 0 then s.yes else if s.no.Else? then s.no.body else [];
    AllOfOne(env, checks, s);
    AllOfOne(env, checks, Perform(s.accesses));
    AllOfConcat(env, checks, [Perform(s.accesses)], arm);
    SameInside(env, checks, a, [s], [Perform(s.accesses)] + arm, c);
  }

  /** Nothing behind a return is done. */
  lemma NothingBehindReturn(env: Env, checks: bool, a: seq<Stmt>, accesses: seq<Access>, c: seq<Stmt>)
    ensures EffectOfAll(env, checks, a + [Return(accesses)] + c) == EffectOfAll(env, checks, a + [Return(accesses)])
  {
    AllOfConcat(env, checks, a, [Return(accesses)]);
    AllOfConcat(env, checks, a + [Return(accesses)], c);
    AllOfOne(env, checks, Return(accesses));
  }

  /** A return performs the accesses of its value and then ends the function. */
  lemma ReturnPerformsFirst(env: Env, checks: bool, a: seq<Stmt>, accesses: seq<Access>)
    ensures EffectOfAll(env, checks, a + [Return(accesses)]) ==
            Seq(EffectOfAll(env, checks, a + [Perform(accesses)]), Ends([], Returned))
  {
    AllOfConcat(env, checks, a, [Return(accesses)]);
    AllOfConcat(env, checks, a, [Perform(accesses)]);
    AllOfOne(env, checks, Return(accesses));
    AllOfOne(env, checks, Perform(accesses));
    Associates(EffectOfAll(env, checks, a), EffectOfAccesses(env, checks, accesses), Ends([], Returned));
  }

  /** Expressions one after the other are their accesses one after the other. */
  lemma PerformedTogether(env: Env, checks: bool, a: seq<Stmt>, x: seq<Access>, y: seq<Access>, c: seq<Stmt>)
    ensures EffectOfAll(env, checks, a + [Perform(x), Perform(y)] + c)
         == EffectOfAll(env, checks, a + [Perform(x + y)] + c)
  {
    assert [Perform(x), Perform(y)] == [Perform(x)] + [Perform(y)];
    AllOfConcat(env, checks, [Perform(x)], [Perform(y)]);
    AllOfOne(env, checks, Perform(x));
    AllOfOne(env, checks, Perform(y));
    AllOfOne(env, checks, Perform(x + y));
    AccessesOfConcat(env, checks, x, y);
    SameInside(env, checks, a, [Perform(x), Perform(y)], [Perform(x + y)], c);
  }

  /** What is left of a program that has been rewritten this far is what its accesses are. */
  lemma OnlyAccesses(env: Env, checks: bool, accesses: seq<Access>)
    ensures EffectOfAll(env, checks, []) == GoesOn([])
    ensures EffectOfAll(env, checks, [Perform(accesses)]) == EffectOfAccesses(env, checks, accesses)
  {
    AllOfOne(env, checks, Perform(accesses));
  }
}
