/** A function's blocks while they are being emitted, and what running them does (src/ir/function.cc). */
module FlowGraph {
  import opened MachineWords

  /** An emitted value: a constant, or one that a run gives a value to. */
  datatype Operand = Constant(value: U64) | Register(name: nat)

  /** One run: the value of every register. */
  type Env = map<nat, U64>

  function Value(env: Env, op: Operand): U64 {
    match op
    case Constant(value) => value
    case Register(name) => if name in env then env[name] else 0
  }

  /** Bitwise conjunction. */
  function And(x: nat, y: nat): nat {
    if x == 0 || y == 0 then 0 else (if x % 2 == 1 && y % 2 == 1 then 1 else 0) + 2 * And(x / 2, y / 2)
  }

  /** The tests a block may end in: a comparison with null, low bits, an unsigned bound, a truth value. */
  datatype Test =
    | IsNull(address: Operand)
    | LowBits(address: Operand, mask: U64)
    | AtLeast(index: Operand, extent: Operand)
    | Truth(flag: Operand)

  predicate Holds(env: Env, t: Test) {
    match t
    case IsNull(address) => Value(env, address) == 0
    case LowBits(address, mask) => And(Value(env, address), mask) != 0
    case AtLeast(index, extent) => Value(env, index) >= Value(env, extent)
    case Truth(flag) => Value(env, flag) != 0
  }

  /** `Open` is a block without a terminator; `Fail` prints the bytes of a message and traps. */
  datatype Terminator =
    | Open
    | Jump(next: nat)
    | Branch(test: Test, yes: nat, no: nat)
    | Fail(message: nat, length: nat)
    | Ret
    | Unreachable

  datatype Block = Block(accesses: seq<nat>, term: Terminator)
  datatype Graph = Graph(blocks: seq<Block>, globals: seq<string>)

  datatype Ending = Trapped(text: string) | Returned | Undefined

  /** Where a run stands: in an open block, or ended; `done` lists the accesses performed. */
  datatype Point = Lost | At(block: nat, done: seq<nat>) | Ended(done: seq<nat>, ending: Ending)

  function Exec(g: Graph, env: Env, b: nat, done: seq<nat>, fuel: nat): Point
    decreases fuel, 1
  {
    if b >= |g.blocks| then Lost else Leave(g, env, b, done + g.blocks[b].accesses, fuel)
  }

  /** Behind the accesses of a block. */
  function Leave(g: Graph, env: Env, b: nat, done: seq<nat>, fuel: nat): Point
    requires b < |g.blocks|
    decreases fuel, 0
  {
    match g.blocks[b].term
    case Open => At(b, done)
    case Jump(next) => if fuel == 0 then Lost else Exec(g, env, next, done, fuel - 1)
    case Branch(test, yes, no) =>
      if fuel == 0 then Lost else Exec(g, env, if Holds(env, test) then yes else no, done, fuel - 1)
    case Fail(message, length) =>
      if message < |g.globals| && length <= |g.globals[message]|
      then Ended(done, Trapped(g.globals[message][..length]))
      else Lost
    case Ret => Ended(done, Returned)
    case Unreachable => Ended(done, Undefined)
  }

  /** A run from the entry block comes to `p`. */
  ghost predicate Reaches(g: Graph, env: Env, p: Point) {
    p != Lost && exists fuel: nat :: Exec(g, env, 0, [], fuel) == p
  }

  // --- a run is a function of the graph -----------------------------------------------------

  lemma {:induction false} MoreFuel(g: Graph, env: Env, b: nat, done: seq<nat>, fuel: nat, more: nat)
    requires b < |g.blocks| && Leave(g, env, b, done, fuel) != Lost
    ensures Leave(g, env, b, done, fuel + more) == Leave(g, env, b, done, fuel)
    decreases fuel
  {
    match g.blocks[b].term
    case Jump(next) => MoreFuel(g, env, next, done + g.blocks[next].accesses, fuel - 1, more);
    case Branch(test, yes, no) =>
      var next := if Holds(env, test) then yes else no;
      MoreFuel(g, env, next, done + g.blocks[next].accesses, fuel - 1, more);
    case _ =>
  }

  /** The entry determines where a run stands. */
  lemma OneRun(g: Graph, env: Env, p: Point, q: Point)
    requires Reaches(g, env, p) && Reaches(g, env, q)
    ensures p == q
  {
    var m: nat :| Exec(g, env, 0, [], m) == p;
    var n: nat :| Exec(g, env, 0, [], n) == q;
    MoreFuel(g, env, 0, [] + g.blocks[0].accesses, m, n);
    MoreFuel(g, env, 0, [] + g.blocks[0].accesses, n, m);
  }

  /** A run stands in a block that exists and is open. */
  lemma {:induction false} StandsInOpen(g: Graph, env: Env, b: nat, done: seq<nat>, fuel: nat)
    requires b < |g.blocks|
    ensures var p := Leave(g, env, b, done, fuel); p.At? ==> p.block < |g.blocks| && g.blocks[p.block].term.Open?
    decreases fuel
  {
    match g.blocks[b].term
    case Jump(next) =>
      if fuel > 0 && next < |g.blocks| { StandsInOpen(g, env, next, done + g.blocks[next].accesses, fuel - 1); }
    case Branch(test, yes, no) =>
      var next := if Holds(env, test) then yes else no;
      if fuel > 0 && next < |g.blocks| { StandsInOpen(g, env, next, done + g.blocks[next].accesses, fuel - 1); }
    case _ =>
  }

  lemma ReachedIsOpen(g: Graph, env: Env, b: nat, done: seq<nat>)
    requires Reaches(g, env, At(b, done))
    ensures b < |g.blocks| && g.blocks[b].term.Open?
  {
    var m: nat :| Exec(g, env, 0, [], m) == At(b, done);
    StandsInOpen(g, env, 0, [] + g.blocks[0].accesses, m);
  }

  // --- emitting into one open block ---------------------------------------------------------

  /** Only block `b` is written; blocks and messages are only added. */
  ghost predicate Writes(g: Graph, b: nat, g': Graph) {
    && |g.blocks| <= |g'.blocks| && g.globals <= g'.globals
    && forall k :: 0 <= k < |g.blocks| && k != b ==> g'.blocks[k] == g.blocks[k]
  }

  lemma {:induction false} Elsewhere(g: Graph, g': Graph, env: Env, b: nat, x: nat, done: seq<nat>, fuel: nat)
    requires Writes(g, b, g') && (b < |g.blocks| ==> g.blocks[b].term.Open?)
    requires var p := Exec(g, env, x, done, fuel); p != Lost && !(p.At? && p.block == b)
    ensures Exec(g', env, x, done, fuel) == Exec(g, env, x, done, fuel)
    decreases fuel
  {
    var d := done + g.blocks[x].accesses;
    match g.blocks[x].term
    case Jump(next) => Elsewhere(g, g', env, b, next, d, fuel - 1);
    case Branch(test, yes, no) => Elsewhere(g, g', env, b, if Holds(env, test) then yes else no, d, fuel - 1);
    case _ =>
  }

  lemma {:induction false} Through(g: Graph, g': Graph, env: Env, b: nat, x: nat, done: seq<nat>, fuel: nat,
                                   more: seq<nat>, k: nat)
    requires Writes(g, b, g') && b < |g.blocks| && g.blocks[b].term.Open?
    requires g'.blocks[b].accesses == g.blocks[b].accesses + more
    requires var p := Exec(g, env, x, done, fuel); p.At? && p.block == b && Leave(g', env, b, p.done + more, k) != Lost
    ensures Exec(g', env, x, done, fuel + k) == Leave(g', env, b, Exec(g, env, x, done, fuel).done + more, k)
    decreases fuel
  {
    var d := done + g.blocks[x].accesses;
    if x == b {
      assert done + g'.blocks[b].accesses == d + more;
      MoreFuel(g', env, b, d + more, k, fuel);
    } else {
      match g.blocks[x].term
      case Jump(next) => Through(g, g', env, b, next, d, fuel - 1, more, k);
      case Branch(test, yes, no) => Through(g, g', env, b, if Holds(env, test) then yes else no, d, fuel - 1, more, k);
      case _ =>
    }
  }

  // --- what emitted code does ---------------------------------------------------------------

  /** What a piece of program does: perform some accesses and go on, or end. */
  datatype Effect = GoesOn(done: seq<nat>) | Ends(done: seq<nat>, ending: Ending)

  function Seq(first: Effect, second: Effect): Effect {
    match (first, second)
    case (GoesOn(d), GoesOn(e)) => GoesOn(d + e)
    case (GoesOn(d), Ends(e, ending)) => Ends(d + e, ending)
    case (Ends(d, ending), _) => first
  }

  /** The point a run at `done` comes to after an effect whose code ends in block `next`. */
  function After(effect: Effect, next: nat, done: seq<nat>): Point {
    match effect
    case GoesOn(d) => At(next, done + d)
    case Ends(d, ending) => Ended(done + d, ending)
  }

  /**
   * The code emitted between `g` and `g'`, from block `b` to block `b'`, has this effect: a run that
   * stood in `b` moves by it, and a run that stood anywhere else stays where it was.
   */
  ghost predicate Emits(env: Env, g: Graph, b: nat, g': Graph, b': nat, effect: Effect) {
    && (forall done :: Reaches(g, env, At(b, done)) ==> Reaches(g', env, After(effect, b', done)))
    && (forall p :: Reaches(g, env, p) && !(p.At? && p.block == b) ==> Reaches(g', env, p))
  }

  /** Emission writes its own blocks only: the one it starts in and new ones. */
  ghost predicate Grows(g: Graph, b: nat, g': Graph, b': nat) {
    Writes(g, b, g') && b < |g.blocks| && b' < |g'.blocks| && (b' == b || b' >= |g.blocks|)
  }

  /** One emission into an open block. */
  lemma Emit(env: Env, g: Graph, b: nat, g': Graph, b': nat, more: seq<nat>, effect: Effect, k: nat)
    requires Writes(g, b, g') && b < |g.blocks| && g.blocks[b].term.Open?
    requires g'.blocks[b].accesses == g.blocks[b].accesses + more
    requires forall done :: Leave(g', env, b, done + more, k) == After(effect, b', done)
    ensures Emits(env, g, b, g', b', effect)
  {
    forall done | Reaches(g, env, At(b, done)) ensures Reaches(g', env, After(effect, b', done)) {
      var m: nat :| Exec(g, env, 0, [], m) == At(b, done);
      assert Leave(g', env, b, done + more, k) == After(effect, b', done);
      Through(g, g', env, b, 0, [], m, more, k);
    }
    forall p | Reaches(g, env, p) && !(p.At? && p.block == b) ensures Reaches(g', env, p) {
      var m: nat :| Exec(g, env, 0, [], m) == p;
      Elsewhere(g, g', env, b, 0, [], m);
    }
  }

  /** A block that is not open is where no run stands. */
  lemma Nowhere(env: Env, g: Graph, b: nat, b': nat, effect: Effect)
    requires b < |g.blocks| && !g.blocks[b].term.Open?
    ensures Emits(env, g, b, g, b', effect)
  {
    forall done | Reaches(g, env, At(b, done)) ensures false {
      ReachedIsOpen(g, env, b, done);
    }
  }

  /** Code after code. */
  lemma Compose(env: Env, g: Graph, b: nat, g1: Graph, b1: nat, g2: Graph, b2: nat, first: Effect, second: Effect)
    requires Grows(g, b, g1, b1)
    requires Emits(env, g, b, g1, b1, first) && Emits(env, g1, b1, g2, b2, second)
    ensures Emits(env, g, b, g2, b2, Seq(first, second))
  {
    forall done | Reaches(g, env, At(b, done)) ensures Reaches(g2, env, After(Seq(first, second), b2, done)) {
      assert Reaches(g1, env, After(first, b1, done));
    }
    forall p | Reaches(g, env, p) && !(p.At? && p.block == b) ensures Reaches(g2, env, p) {
      if p.At? { ReachedIsOpen(g, env, p.block, p.done); }
      assert Reaches(g1, env, p);
    }
  }

  /** Code emitted from a block the run is not in changes nothing for it. */
  lemma Idle(env: Env, g: Graph, b: nat, g1: Graph, b1: nat, d: nat, g2: Graph, d2: nat, effect: Effect, other: Effect)
    requires Grows(g, b, g1, b1)
    requires Emits(env, g, b, g1, b1, effect) && Emits(env, g1, d, g2, d2, other)
    requires d != b1 && (d == b || d >= |g.blocks|)
    ensures Emits(env, g, b, g2, b1, effect)
  {
    forall done | Reaches(g, env, At(b, done)) ensures Reaches(g2, env, After(effect, b1, done)) {
      assert Reaches(g1, env, After(effect, b1, done));
    }
    forall p | Reaches(g, env, p) && !(p.At? && p.block == b) ensures Reaches(g2, env, p) {
      if p.At? { ReachedIsOpen(g, env, p.block, p.done); }
      assert Reaches(g1, env, p);
    }
  }

  /** New blocks, and nothing written: every run stays where it was. */
  lemma Added(env: Env, g: Graph, g': Graph, b: nat)
    requires Writes(g, |g.blocks|, g') && b < |g.blocks|
    ensures Emits(env, g, b, g', b, GoesOn([]))
    ensures !g.blocks[b].term.Open? ==> forall b' :: Emits(env, g, b, g', b', GoesOn([]))
  {
    forall p | Reaches(g, env, p) ensures Reaches(g', env, p) {
      var m: nat :| Exec(g, env, 0, [], m) == p;
      if p.At? { ReachedIsOpen(g, env, p.block, p.done); }
      Elsewhere(g, g', env, |g.blocks|, 0, [], m);
    }
    forall done | Reaches(g, env, At(b, done)) ensures Reaches(g', env, After(GoesOn([]), b, done)) {
      assert done + [] == done;
    }
    if !g.blocks[b].term.Open? {
      forall done | Reaches(g, env, At(b, done)) ensures false {
        ReachedIsOpen(g, env, b, done);
      }
    }
  }

  // --- in every run ---------------------------------------------------------------------------

  /** The emitted code has this effect in every run. */
  ghost predicate Does(g: Graph, b: nat, g': Graph, b': nat, effect: Env -> Effect) {
    Grows(g, b, g', b') && forall env :: Emits(env, g, b, g', b', effect(env))
  }

  lemma Then(g: Graph, b: nat, g1: Graph, b1: nat, g2: Graph, b2: nat, first: Env -> Effect, second: Env -> Effect,
             both: Env -> Effect)
    requires Does(g, b, g1, b1, first) && Does(g1, b1, g2, b2, second)
    requires forall env :: both(env) == Seq(first(env), second(env))
    ensures Does(g, b, g2, b2, both)
  {
    forall env ensures Emits(env, g, b, g2, b2, both(env)) {
      Compose(env, g, b, g1, b1, g2, b2, first(env), second(env));
    }
  }

  lemma SameDoes(g: Graph, b: nat, g': Graph, b': nat, effect: Env -> Effect, same: Env -> Effect)
    requires Does(g, b, g', b', effect) && forall env :: same(env) == effect(env)
    ensures Does(g, b, g', b', same)
  {
    forall env ensures Emits(env, g, b, g', b', same(env)) {
      assert Emits(env, g, b, g', b', effect(env));
    }
  }

  lemma Units(effect: Effect)
    ensures Seq(effect, GoesOn([])) == effect && Seq(GoesOn([]), effect) == effect
  {}

  // --- two arms and a join ----------------------------------------------------------------------

  /** A branch on a truth value. */
  lemma BranchEmits(env: Env, g: Graph, b: nat, g': Graph, test: Test, yes: nat, no: nat)
    requires Writes(g, b, g') && b < |g.blocks| && g.blocks[b].term.Open? && yes < |g'.blocks| && no < |g'.blocks|
    requires g'.blocks[b] == g.blocks[b].(term := Branch(test, yes, no))
    requires g'.blocks[yes] == Block([], Open) && g'.blocks[no] == Block([], Open)
    ensures Emits(env, g, b, g', if Holds(env, test) then yes else no, GoesOn([]))
  {
    var next := if Holds(env, test) then yes else no;
    forall done ensures Leave(g', env, b, done + [], 1) == After(GoesOn([]), next, done) {
      assert done + [] == done;
    }
    Emit(env, g, b, g', next, [], GoesOn([]), 1);
  }

  /** New blocks, a condition's code, and a branch on its value into two of the new blocks. */
  lemma ConditionEmits(env: Env, g: Graph, b: nat, g1: Graph, g2: Graph, b2: nat, g3: Graph, test: Test, yes: nat,
                       no: nat, before: Effect)
    requires Writes(g, |g.blocks|, g1) && b < |g.blocks|
    requires Grows(g1, b, g2, b2) && Emits(env, g1, b, g2, b2, before)
    requires Writes(g2, b2, g3) && g2.blocks[b2].term.Open? && yes < |g3.blocks| && no < |g3.blocks|
    requires g3.blocks[b2] == g2.blocks[b2].(term := Branch(test, yes, no))
    requires g3.blocks[yes] == Block([], Open) && g3.blocks[no] == Block([], Open)
    ensures Emits(env, g, b, g3, if Holds(env, test) then yes else no, before)
  {
    var next := if Holds(env, test) then yes else no;
    Added(env, g, g1, b);
    Compose(env, g, b, g1, b, g2, b2, GoesOn([]), before);
    Units(before);
    BranchEmits(env, g2, b2, g3, test, yes, no);
    Compose(env, g, b, g2, b2, g3, next, before, GoesOn([]));
  }

  /** A jump to the join, from an open block. */
  lemma JumpEmits(env: Env, g: Graph, b: nat, g': Graph, end: nat)
    requires Writes(g, b, g') && b < |g.blocks| && g.blocks[b].term.Open? && end < |g'.blocks| && end != b
    requires g'.blocks[b] == g.blocks[b].(term := Jump(end)) && g'.blocks[end] == Block([], Open)
    ensures Emits(env, g, b, g', end, GoesOn([]))
  {
    forall done ensures Leave(g', env, b, done + [], 1) == After(GoesOn([]), end, done) {
      assert done + [] == done;
    }
    Emit(env, g, b, g', end, [], GoesOn([]), 1);
  }

  /** An arm the run enters, up to the join. */
  lemma ArmTaken(env: Env, g: Graph, b: nat, gA: Graph, arm: nat, gT: Graph, bT: nat, gJ: Graph, end: nat,
                 before: Effect, effect: Effect)
    requires Grows(g, b, gA, arm) && arm >= |g.blocks| && Emits(env, g, b, gA, arm, before)
    requires Grows(gA, arm, gT, bT) && Emits(env, gA, arm, gT, bT, effect)
    requires Emits(env, gT, bT, gJ, end, GoesOn([]))
    ensures Emits(env, g, b, gJ, end, Seq(before, effect))
  {
    Compose(env, g, b, gA, arm, gT, bT, before, effect);
    Compose(env, g, b, gT, bT, gJ, end, Seq(before, effect), GoesOn([]));
    Units(Seq(before, effect));
  }

  /** An arm the run does not enter. */
  lemma ArmSkipped(env: Env, g: Graph, b: nat, gA: Graph, at: nat, arm: nat, gT: Graph, bT: nat, gJ: Graph, end: nat,
                   before: Effect, effect: Effect)
    requires Grows(g, b, gA, at) && Emits(env, g, b, gA, at, before)
    requires arm >= |g.blocks| && at != arm && Grows(gA, arm, gT, bT) && Emits(env, gA, arm, gT, bT, effect)
    requires Emits(env, gT, bT, gJ, end, GoesOn([]))
    ensures Emits(env, g, b, gJ, at, before)
  {
    Idle(env, g, b, gA, at, arm, gT, bT, before, effect);
    Idle(env, g, b, gT, at, bT, gJ, end, before, GoesOn([]));
  }
}
