/** The obligations of an access, the tests that check them (src/ir/checks.cc), and what statements then mean. */
module Guards {
  import opened MachineWords
  import opened FlowGraph

  datatype Rule = NullRule | MisalignedRule | OutOfBoundsRule

  function RuleName(rule: Rule): string {
    match rule
    case NullRule => "memory-null"
    case MisalignedRule => "memory-misaligned"
    case OutOfBoundsRule => "memory-out-of-bounds"
  }

  /** `location` is the " at path:line:column" of the access, or as much of it as is known. */
  function Message(rule: Rule, location: string): string {
    "mincc: trap: " + RuleName(rule) + location + "\n"
  }

  datatype Bounds = NoBounds | Bounds(index: Operand, extent: Operand)

  /** What the checker recorded for an access that came through a pointer. */
  datatype Obligation = NoObligation | Obligation(alignment: nat, location: string)

  datatype Access = Access(id: nat, address: Operand, isPointer: bool, bounds: Bounds, obligation: Obligation)

  // --- the rules --------------------------------------------------------------------------

  predicate Violates(env: Env, a: Access, rule: Rule)
    requires a.obligation.Obligation?
  {
    var address := Value(env, a.address);
    match rule
    case NullRule => address == 0
    case MisalignedRule => a.isPointer && a.obligation.alignment > 1 && address % a.obligation.alignment != 0
    case OutOfBoundsRule => a.bounds.Bounds? && !(Value(env, a.bounds.index) < Value(env, a.bounds.extent))
  }

  /** Trap with the first violated rule, in the order null, misaligned, out of bounds; or do the access. */
  function EffectOfAccess(env: Env, checks: bool, a: Access): Effect {
    if !checks || a.obligation.NoObligation? then GoesOn([a.id])
    else if Violates(env, a, NullRule) then Ends([], Trapped(Message(NullRule, a.obligation.location)))
    else if Violates(env, a, MisalignedRule) then Ends([], Trapped(Message(MisalignedRule, a.obligation.location)))
    else if Violates(env, a, OutOfBoundsRule) then Ends([], Trapped(Message(OutOfBoundsRule, a.obligation.location)))
    else GoesOn([a.id])
  }

  /** One rule's guard. */
  function EffectOfRule(env: Env, a: Access, rule: Rule): Effect
    requires a.obligation.Obligation?
  {
    if Violates(env, a, rule) then Ends([], Trapped(Message(rule, a.obligation.location))) else GoesOn([])
  }

  /** The three guards one after the other, in front of the access, trap with the first violated rule. */
  lemma GuardsInOrder(env: Env, a: Access)
    requires a.obligation.Obligation?
    ensures EffectOfAccess(env, true, a)
         == Seq(Seq(Seq(EffectOfRule(env, a, NullRule), EffectOfRule(env, a, MisalignedRule)),
                    EffectOfRule(env, a, OutOfBoundsRule)), GoesOn([a.id]))
  {}

  function EffectOfAccesses(env: Env, checks: bool, accesses: seq<Access>): Effect {
    if accesses == [] then GoesOn([])
    else
      var n := |accesses| - 1;
      Seq(EffectOfAccesses(env, checks, accesses[..n]), EffectOfAccess(env, checks, accesses[n]))
  }

  // --- statements -------------------------------------------------------------------------

  /** Expressions are the accesses they perform; `test` is the value a condition leaves. */
  datatype Stmt =
    | Perform(accesses: seq<Access>)
    | Return(accesses: seq<Access>)
    | Nested(body: seq<Stmt>)
    | If(accesses: seq<Access>, test: Operand, yes: seq<Stmt>, no: ElseArm)

  datatype ElseArm = NoElse | Else(body: seq<Stmt>)

  function EffectOf(env: Env, checks: bool, s: Stmt): Effect {
    match s
    case Perform(accesses) => EffectOfAccesses(env, checks, accesses)
    case Return(accesses) => Seq(EffectOfAccesses(env, checks, accesses), Ends([], Returned))
    case Nested(body) => EffectOfAll(env, checks, body)
    case If(accesses, test, yes, no) =>
      Seq(EffectOfAccesses(env, checks, accesses),
          if Holds(env, Truth(test)) then EffectOfAll(env, checks, yes)
          else if no.Else? then EffectOfAll(env, checks, no.body)
          else GoesOn([]))
  }

  function EffectOfAll(env: Env, checks: bool, ss: seq<Stmt>): Effect {
    if ss == [] then GoesOn([])
    else
      var n := |ss| - 1;
      Seq(EffectOfAll(env, checks, ss[..n]), EffectOf(env, checks, ss[n]))
  }

  /** Every alignment the target states is a power of two; the load and store that follow demand it. */
  predicate Targeted(s: Stmt) {
    match s
    case Perform(accesses) => AlignedAll(accesses)
    case Return(accesses) => AlignedAll(accesses)
    case Nested(body) => TargetedAll(body)
    case If(accesses, test, yes, no) => AlignedAll(accesses) && TargetedAll(yes) && (no.Else? ==> TargetedAll(no.body))
  }

  predicate TargetedAll(ss: seq<Stmt>) {
    forall s <- ss :: Targeted(s)
  }

  predicate Aligned(a: Access) {
    a.obligation.Obligation? ==>
      a.obligation.alignment < WORD && (a.obligation.alignment == 0 || PowerOfTwo(a.obligation.alignment))
  }

  predicate AlignedAll(accesses: seq<Access>) {
    forall a <- accesses :: Aligned(a)
  }

  // --- the low bits of an address ---------------------------------------------------------

  predicate PowerOfTwo(n: nat) {
    n == 1 || (n > 0 && n % 2 == 0 && PowerOfTwo(n / 2))
  }

  lemma OneRemainder(m: nat, q: nat, r: nat, p: nat, s: nat)
    requires r < m && s < m && q * m + r == p * m + s
    ensures r == s
  {
    assert (q - p) * m == q * m - p * m;
    Multiple(q - p, m);
  }

  lemma Doubled(q: nat, h: nat)
    ensures q * (2 * h) == 2 * (q * h)
  {}

  lemma Quotients(x: nat, n: nat) returns (p: nat, s: nat)
    requires n > 0
    ensures x == p * n + s && s == x % n && s < n
  {
    p, s := x / n, x % n;
  }

  lemma {:induction false} MaskDivides(x: nat, n: nat) returns (q: nat)
    requires PowerOfTwo(n)
    ensures And(x, n - 1) < n && x == q * n + And(x, n - 1)
  {
    if n == 1 {
      q := x;
    } else if x == 0 {
      q := 0;
    } else {
      var h := n / 2;
      q := MaskDivides(x / 2, h);
      Doubled(q, h);
    }
  }

  /** Masking with `n - 1` is the remainder, when `n` is a power of two. */
  lemma MaskIsRemainder(x: nat, n: nat)
    requires PowerOfTwo(n)
    ensures And(x, n - 1) == x % n
  {
    var q := MaskDivides(x, n);
    var p, s := Quotients(x, n);
    OneRemainder(n, q, And(x, n - 1), p, s);
  }

  /** A number loses its bits to its predecessor exactly when it is a power of two. */
  lemma {:induction false} SelfMask(n: nat)
    requires n > 0
    ensures And(n, n - 1) == 0 <==> PowerOfTwo(n)
  {
    if n > 1 {
      SelfMask(n / 2);
      if n % 2 == 0 {
        assert (n - 1) / 2 == n / 2 - 1 && (n - 1) % 2 == 1;
      } else {
        assert (n - 1) / 2 == n / 2;
        SelfAnd(n / 2);
      }
    }
  }

  lemma {:induction false} SelfAnd(n: nat)
    ensures And(n, n) == n
  {
    if n > 0 {
      SelfAnd(n / 2);
    }
  }

  /**
   * The emitted alignment test is the alignment rule for every address exactly when the alignment is a power of
   * two.
   */
  lemma AlignmentTestIsExact(alignment: U64)
    requires alignment > 1
    ensures (forall x: U64 :: And(x, alignment - 1) != 0 <==> x % alignment != 0) <==> PowerOfTwo(alignment)
  {
    if PowerOfTwo(alignment) {
      forall x: U64 ensures And(x, alignment - 1) != 0 <==> x % alignment != 0 {
        MaskIsRemainder(x, alignment);
      }
    } else {
      SelfMask(alignment);
      assert alignment % alignment == 0;
    }
  }

  /** A 64-bit pattern read as a signed number. */
  function SignedWord(n: U64): int {
    if n < 0x8000_0000_0000_0000 then n else n - WORD
  }

  /** One unsigned comparison is both ends of the range, for every index, exactly when the extent is at most 2^63. */
  lemma BoundsTestIsExact(extent: U64)
    ensures (forall index: U64 :: !(index < extent) <==> !(0 <= SignedWord(index) < extent)) <==>
            extent <= 0x8000_0000_0000_0000
  {
    if extent > 0x8000_0000_0000_0000 {
      var least: U64 := 0x8000_0000_0000_0000;
      assert least < extent && SignedWord(least) < 0;
    }
  }

  lemma MessagesNameTheRule(a: Rule, b: Rule, location: string)
    ensures Message(a, location) == Message(b, location) ==> a == b
  {
    var m, n := Message(a, location), Message(b, location);
    assert m[20] == RuleName(a)[7] && n[20] == RuleName(b)[7];
  }

  // --- what checking changes ----------------------------------------------------------------

  /** A checked run is the unchecked run, or stops earlier at a trap having done a first part of it. */
  ghost predicate OnlyStops(checked: Effect, unchecked: Effect) {
    checked == unchecked || (checked.Ends? && checked.ending.Trapped? && checked.done <= unchecked.done)
  }

  lemma {:induction false} AccessesOnlyStop(env: Env, accesses: seq<Access>)
    ensures OnlyStops(EffectOfAccesses(env, true, accesses), EffectOfAccesses(env, false, accesses))
  {
    if accesses != [] {
      var n := |accesses| - 1;
      AccessesOnlyStop(env, accesses[..n]);
    }
  }

  lemma {:induction false} StatementOnlyStops(env: Env, s: Stmt)
    ensures OnlyStops(EffectOf(env, true, s), EffectOf(env, false, s))
    decreases s, 0
  {
    match s
    case Perform(accesses) => AccessesOnlyStop(env, accesses);
    case Return(accesses) =>
      AccessesOnlyStop(env, accesses);
    case Nested(body) => StatementsOnlyStop(env, body);
    case If(accesses, test, yes, no) =>
      AccessesOnlyStop(env, accesses);
      StatementsOnlyStop(env, yes);
      if no.Else? { StatementsOnlyStop(env, no.body); }
      var arm := if Holds(env, Truth(test)) then yes else if no.Else? then no.body else [];
  }

  lemma {:induction false} StatementsOnlyStop(env: Env, ss: seq<Stmt>)
    ensures OnlyStops(EffectOfAll(env, true, ss), EffectOfAll(env, false, ss))
    decreases ss, 1
  {
    if ss != [] {
      var n := |ss| - 1;
      StatementsOnlyStop(env, ss[..n]);
      StatementOnlyStops(env, ss[n]);
    }
  }
}
