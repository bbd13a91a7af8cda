/** "Did you mean": the edit distance of src/driver/suggest.cc and the name nearest to an input. */
module Suggest {
  import opened MachineWords

  // --- edit scripts -------------------------------------------------------------------------

  /** One edit, left to right; `Swap` exchanges two adjacent characters. */
  datatype Edit =
    | Keep(c: char)
    | Replace(from: char, into: char)
    | Insert(c: char)
    | Delete(c: char)
    | Swap(first: char, second: char)

  datatype Script = Done | Then(init: Script, last: Edit)

  function Source(s: Script): string {
    match s
    case Done => ""
    case Then(init, last) =>
      Source(init) +
      match last
      case Keep(c) => [c]
      case Replace(from, _) => [from]
      case Insert(_) => ""
      case Delete(c) => [c]
      case Swap(first, second) => [first, second]
  }

  function Target(s: Script): string {
    match s
    case Done => ""
    case Then(init, last) =>
      Target(init) +
      match last
      case Keep(c) => [c]
      case Replace(_, into) => [into]
      case Insert(c) => [c]
      case Delete(_) => ""
      case Swap(first, second) => [second, first]
  }

  function Cost(s: Script): nat {
    match s
    case Done => 0
    case Then(init, last) => Cost(init) + if last.Keep? then 0 else 1
  }

  /** Turning `left` into `right`. */
  ghost predicate Edits(s: Script, left: string, right: string) {
    Source(s) == left && Target(s) == right
  }

  // --- the recurrence -----------------------------------------------------------------------

  predicate Swapped(left: string, right: string, i: nat, j: nat)
    requires i <= |left| && j <= |right|
  {
    i > 1 && j > 1 && left[i - 1] == right[j - 2] && left[i - 2] == right[j - 1]
  }

  /** One cell from its neighbours: substitute or keep, delete, insert, and exchange where that fits. */
  function Cell(same: bool, swapped: bool, diagonal: nat, above: nat, before: nat, far: nat): nat {
    var best := Min(diagonal + (if same then 0 else 1), Min(above + 1, before + 1));
    if swapped then Min(best, far + 1) else best
  }

  /** The distance of the first `i` characters of `left` and the first `j` of `right`. */
  function Distance(left: string, right: string, i: nat, j: nat): nat
    requires i <= |left| && j <= |right|
  {
    if i == 0 then j
    else if j == 0 then i
    else Cell(left[i - 1] == right[j - 1], Swapped(left, right, i, j),
              Distance(left, right, i - 1, j - 1), Distance(left, right, i - 1, j), Distance(left, right, i, j - 1),
              if Swapped(left, right, i, j) then Distance(left, right, i - 2, j - 2) else 0)
  }

  function OsaDistance(left: string, right: string): nat {
    Distance(left, right, |left|, |right|)
  }

  // --- the three rows -----------------------------------------------------------------------

  /** `row` of the recurrence, in order of columns. */
  ghost predicate IsRow(left: string, right: string, row: nat, values: seq<nat>) {
    row <= |left| && |values| <= |right| + 1 && forall c :: 0 <= c < |values| ==>
        values[c] == Distance(left, right, row, c)
  }

  /** The inner loop: one row from the two before it. */
  method FillRow(left: string, right: string, row: nat, beforePrevious: array<nat>, previous: array<nat>,
                 current: array<nat>)
    requires 1 <= row <= |left| && current != previous && current != beforePrevious
    requires beforePrevious.Length == previous.Length == current.Length == |right| + 1
    requires IsRow(left, right, row - 1, previous[..])
    requires row > 1 ==> IsRow(left, right, row - 2, beforePrevious[..])
    modifies current
    ensures IsRow(left, right, row, current[..])
  {
    current[0] := row;
    for column := 1 to |right| + 1
      invariant IsRow(left, right, row, current[..column])
    {
      var best := BestCell(left, right, row, column, beforePrevious, previous, current);
      ghost var filled := current[..column];
      current[column] := best;
      assert current[..column + 1] == filled + [best];
    }
    assert current[..|right| + 1] == current[..];
  }

  /** The body of the inner loop. */
  method BestCell(left: string, right: string, row: nat, column: nat, beforePrevious: array<nat>, previous: array<nat>,
                  current: array<nat>)
    returns (best: nat)
    requires 1 <= row <= |left| && 1 <= column <= |right|
    requires beforePrevious.Length == previous.Length == current.Length == |right| + 1
    requires IsRow(left, right, row - 1, previous[..])
    requires row > 1 ==> IsRow(left, right, row - 2, beforePrevious[..])
    requires IsRow(left, right, row, current[..column])
    ensures best == Distance(left, right, row, column)
  {
    assert previous[..][column - 1] == previous[column - 1] && previous[..][column] == previous[column];
    assert current[..column][column - 1] == current[column - 1];
    var substitution := previous[column - 1] + if left[row - 1] == right[column - 1] then 0 else 1;
    var deletion := previous[column] + 1;
    var insertion := current[column - 1] + 1;
    best := Min(substitution, Min(deletion, insertion));
    ghost var far := 0;
    if row > 1 && column > 1 && left[row - 1] == right[column - 2] && left[row - 2] == right[column - 1] {
      assert beforePrevious[..][column - 2] == beforePrevious[column - 2];
      far := beforePrevious[column - 2];
      best := Min(best, beforePrevious[column - 2] + 1);
    }
  }

  /** `editDistance`: the recurrence in three reused rows. */
  method EditDistance(left: string, right: string) returns (distance: nat)
    ensures distance == OsaDistance(left, right)
  {
    var rows, columns := |left| + 1, |right| + 1;
    if left == "" {
      return |right|;
    }
    if right == "" {
      return |left|;
    }
    var beforePrevious := new nat[columns](_ => 0);
    var previous := new nat[columns](_ => 0);
    var current := new nat[columns](_ => 0);
    for column := 0 to columns
      invariant forall c :: 0 <= c < column ==> previous[c] == c
    {
      previous[column] := column;
    }
    for row := 1 to rows
      invariant beforePrevious != previous && previous != current && current != beforePrevious
      invariant fresh(beforePrevious) && fresh(previous) && fresh(current)
      invariant beforePrevious.Length == previous.Length == current.Length == columns
      invariant IsRow(left, right, row - 1, previous[..])
      invariant row > 1 ==> IsRow(left, right, row - 2, beforePrevious[..])
    {
      FillRow(left, right, row, beforePrevious, previous, current);
      beforePrevious, previous := previous, beforePrevious;
      previous, current := current, previous;
    }
    distance := previous[..][columns - 1];
  }

  // --- the recurrence is the optimum --------------------------------------------------------

  lemma LastOfPrefix(s: string, i: nat)
    requires 0 < i <= |s|
    ensures s[..i] == s[..i - 1] + [s[i - 1]]
    ensures i > 1 ==> s[..i] == s[..i - 2] + [s[i - 2], s[i - 1]]
  {}

  /** Some script attains the distance. */
  lemma {:induction false} Attained(left: string, right: string, i: nat, j: nat) returns (s: Script)
    requires i <= |left| && j <= |right|
    ensures Edits(s, left[..i], right[..j]) && Cost(s) == Distance(left, right, i, j)
  {
    if i == 0 && j == 0 {
      s := Done;
    } else if i == 0 {
      LastOfPrefix(right, j);
      var t := Attained(left, right, i, j - 1);
      s := Then(t, Insert(right[j - 1]));
    } else if j == 0 {
      LastOfPrefix(left, i);
      var t := Attained(left, right, i - 1, j);
      s := Then(t, Delete(left[i - 1]));
    } else {
      LastOfPrefix(left, i);
      LastOfPrefix(right, j);
      var d := Distance(left, right, i, j);
      if d == Distance(left, right, i - 1, j) + 1 {
        var t := Attained(left, right, i - 1, j);
        s := Then(t, Delete(left[i - 1]));
      } else if d == Distance(left, right, i, j - 1) + 1 {
        var t := Attained(left, right, i, j - 1);
        s := Then(t, Insert(right[j - 1]));
      } else if Swapped(left, right, i, j) && d == Distance(left, right, i - 2, j - 2) + 1 {
        var t := Attained(left, right, i - 2, j - 2);
        s := Then(t, Swap(left[i - 2], left[i - 1]));
      } else {
        var t := Attained(left, right, i - 1, j - 1);
        s := Then(t, if left[i - 1] == right[j - 1] then Keep(left[i - 1]) else Replace(left[i - 1], right[j - 1]));
      }
    }
  }

  lemma OneLess(before: string, c: char, s: string, i: nat)
    requires i <= |s| && before + [c] == s[..i]
    ensures i > 0 && s[i - 1] == c && before == s[..i - 1]
  {
    assert |before| == i - 1 && (before + [c])[i - 1] == c;
    assert before == (before + [c])[..i - 1] == s[..i][..i - 1] == s[..i - 1];
  }

  lemma TwoLess(before: string, c: char, d: char, s: string, i: nat)
    requires i <= |s| && before + [c, d] == s[..i]
    ensures i > 1 && s[i - 2] == c && s[i - 1] == d && before == s[..i - 2]
  {
    assert before + [c, d] == before + [c] + [d];
    OneLess(before + [c], d, s, i);
    OneLess(before, c, s, i - 1);
  }

  /** No script beats it. */
  lemma {:induction false} NoneBetter(s: Script, left: string, right: string, i: nat, j: nat)
    requires i <= |left| && j <= |right| && Edits(s, left[..i], right[..j])
    ensures Cost(s) >= Distance(left, right, i, j)
  {
    if s.Then? {
      var before, after := Source(s.init), Target(s.init);
      match s.last
      case Keep(c) =>
        OneLess(before, c, left, i);
        OneLess(after, c, right, j);
        NoneBetter(s.init, left, right, i - 1, j - 1);
      case Replace(a, b) =>
        OneLess(before, a, left, i);
        OneLess(after, b, right, j);
        NoneBetter(s.init, left, right, i - 1, j - 1);
      case Insert(c) =>
        assert before + "" == before;
        OneLess(after, c, right, j);
        NoneBetter(s.init, left, right, i, j - 1);
      case Delete(c) =>
        assert after + "" == after;
        OneLess(before, c, left, i);
        NoneBetter(s.init, left, right, i - 1, j);
      case Swap(a, b) =>
        TwoLess(before, a, b, left, i);
        TwoLess(after, b, a, right, j);
        NoneBetter(s.init, left, right, i - 2, j - 2);
    }
  }

  /** The distance is the least cost of any script. */
  lemma DistanceIsOptimal(left: string, right: string)
    ensures exists s :: Edits(s, left, right) && Cost(s) == OsaDistance(left, right)
    ensures forall s :: Edits(s, left, right) ==> Cost(s) >= OsaDistance(left, right)
  {
    assert left[..|left|] == left && right[..|right|] == right;
    var s := Attained(left, right, |left|, |right|);
    forall t | Edits(t, left, right) ensures Cost(t) >= OsaDistance(left, right) {
      NoneBetter(t, left, right, |left|, |right|);
    }
  }

  // --- what kind of number it is ------------------------------------------------------------

  /** The script read the other way: an insertion undoes a deletion. */
  function Mirror(s: Script): Script {
    match s
    case Done => Done
    case Then(init, last) =>
      Then(Mirror(init),
           match last
           case Keep(c) => Keep(c)
           case Replace(from, into) => Replace(into, from)
           case Insert(c) => Delete(c)
           case Delete(c) => Insert(c)
           case Swap(first, second) => Swap(second, first))
  }

  lemma {:induction false} MirrorEdits(s: Script)
    ensures Source(Mirror(s)) == Target(s) && Target(Mirror(s)) == Source(s) && Cost(Mirror(s)) == Cost(s)
  {
    match s
    case Done =>
    case Then(init, _) => MirrorEdits(init);
  }

  lemma NoFartherBack(left: string, right: string)
    ensures OsaDistance(right, left) <= OsaDistance(left, right)
  {
    DistanceIsOptimal(left, right);
    var s :| Edits(s, left, right) && Cost(s) == OsaDistance(left, right);
    MirrorEdits(s);
    DistanceIsOptimal(right, left);
    assert Edits(Mirror(s), right, left);
  }

  /** Each edit changes the length by at most its cost. */
  lemma {:induction false} LengthGap(s: Script)
    ensures |Source(s)| <= |Target(s)| + Cost(s) && |Target(s)| <= |Source(s)| + Cost(s)
  {
    match s
    case Done =>
    case Then(init, _) => LengthGap(init);
  }

  /** One way: character by character from the end, and then insert or delete what is left. */
  function Straight(left: string, right: string): Script
    decreases |left| + |right|
  {
    var i, j := |left| - 1, |right| - 1;
    if left == "" && right == "" then Done
    else if left == "" then Then(Straight(left, right[..j]), Insert(right[j]))
    else if right == "" then Then(Straight(left[..i], right), Delete(left[i]))
    else Then(Straight(left[..i], right[..j]), Change(left[i], right[j]))
  }

  lemma {:induction false} StraightEdits(left: string, right: string)
    ensures Edits(Straight(left, right), left, right)
    ensures Cost(Straight(left, right)) <= if |left| <= |right| then |right| else |left|
    ensures left == right ==> Cost(Straight(left, right)) == 0
    decreases |left| + |right|
  {
    var i, j := |left| - 1, |right| - 1;
    if left == "" && right == "" {
    } else if left == "" {
      StraightEdits(left, right[..j]);
      assert right == right[..j] + [right[j]];
    } else if right == "" {
      StraightEdits(left[..i], right);
      assert left == left[..i] + [left[i]];
    } else {
      StraightEdits(left[..i], right[..j]);
      assert left == left[..i] + [left[i]] && right == right[..j] + [right[j]];
    }
  }

  lemma {:induction false} FreeScript(s: Script)
    requires Cost(s) == 0
    ensures Source(s) == Target(s)
  {
    match s
    case Done =>
    case Then(init, _) => FreeScript(init);
  }

  /** Symmetric, zero exactly between equal strings, and between the difference and the maximum of the lengths. */
  lemma DistanceLaws(left: string, right: string)
    ensures OsaDistance(left, right) == OsaDistance(right, left)
    ensures OsaDistance(left, right) == 0 <==> left == right
    ensures |left| <= |right| + OsaDistance(left, right) && |right| <= |left| + OsaDistance(left, right)
    ensures OsaDistance(left, right) <= if |left| <= |right| then |right| else |left|
  {
    NoFartherBack(left, right);
    NoFartherBack(right, left);
    DistanceIsOptimal(left, right);
    var s :| Edits(s, left, right) && Cost(s) == OsaDistance(left, right);
    LengthGap(s);
    StraightEdits(left, right);
    if Cost(s) == 0 {
      FreeScript(s);
    }
  }

  // --- detours ------------------------------------------------------------------------------

  function Swaps(s: Script): nat {
    match s
    case Done => 0
    case Then(init, last) => Swaps(init) + if last.Swap? then 1 else 0
  }

  /** Keep, or replace where the two differ. */
  function Change(from: char, into: char): Edit { if from == into then Keep(from) else Replace(from, into) }

  /** Each exchange done as two replacements. */
  function Unswapped(s: Script): Script {
    match s
    case Done => Done
    case Then(init, Swap(first, second)) => Then(Then(Unswapped(init), Change(first, second)), Change(second, first))
    case Then(init, last) => Then(Unswapped(init), last)
  }

  lemma {:induction false} UnswappedEdits(s: Script)
    ensures Swaps(Unswapped(s)) == 0
    ensures Source(Unswapped(s)) == Source(s) && Target(Unswapped(s)) == Target(s)
    ensures Cost(Unswapped(s)) <= Cost(s) + Swaps(s)
  {
    match s
    case Done =>
    case Then(init, last) =>
      UnswappedEdits(init);
      if last.Swap? {
        assert Source(init) + [last.first, last.second] == Source(init) + [last.first] + [last.second];
        assert Target(init) + [last.second, last.first] == Target(init) + [last.second] + [last.first];
      }
  }

  /**
   * One script after another, both free of exchanges, as one script: each character of the middle is
   * made by one edit and used up by another.
   */
  lemma {:induction false} Compose(s: Script, t: Script) returns (u: Script)
    requires Swaps(s) == 0 && Swaps(t) == 0 && Target(s) == Source(t)
    ensures Source(u) == Source(s) && Target(u) == Target(t) && Cost(u) <= Cost(s) + Cost(t)
    decreases s, t
  {
    if s.Then? && s.last.Delete? {
      assert Target(s.init) + "" == Target(s.init);
      u := Compose(s.init, t);
      u := Then(u, s.last);
    } else if t.Then? && t.last.Insert? {
      assert Source(t.init) + "" == Source(t.init);
      u := Compose(s, t.init);
      u := Then(u, t.last);
    } else if s.Done? || t.Done? {
      u := Done;
    } else {
      SameMiddle(s, t);
      u := Compose(s.init, t.init);
      u := Joined(u, s.last, t.last);
    }
  }

  function Joined(u: Script, first: Edit, second: Edit): Script {
    match (first, second)
    case (Insert(_), Delete(_)) => u
    case (Insert(_), Replace(_, into)) => Then(u, Insert(into))
    case (Insert(_), _) => Then(u, first)
    case (Replace(from, _), Delete(_)) => Then(u, Delete(from))
    case (Replace(from, _), Replace(_, into)) => Then(u, Change(from, into))
    case (Replace(_, _), _) => Then(u, first)
    case (_, _) => Then(u, second)
  }

  /** The last character of the middle is made by the last edit of one script and used by the last of the other. */
  lemma SameMiddle(s: Script, t: Script)
    requires s.Then? && t.Then? && !s.last.Swap? && !s.last.Delete? && !t.last.Swap? && !t.last.Insert?
    requires Target(s) == Source(t)
    ensures Target(s.init) == Source(t.init) && Made(s.last) == Used(t.last)
  {
    OneLess(Target(s.init), Made(s.last), Target(s), |Target(s)|);
    OneLess(Source(t.init), Used(t.last), Source(t), |Source(t)|);
  }

  function Made(e: Edit): char
    requires !e.Swap? && !e.Delete?
  {
    if e.Replace? then e.into else e.c
  }

  function Used(e: Edit): char
    requires !e.Swap? && !e.Insert?
  {
    if e.Replace? then e.from else e.c
  }

  /** Where no two adjacent characters of one stand exchanged in the other. */
  ghost predicate NoExchange(left: string, right: string) {
    forall i: nat, j: nat :: i <= |left| && j <= |right| ==> !Swapped(left, right, i, j)
  }

  /** A script that exchanges two characters shows where they stand. */
  lemma {:induction false} SwapShows(s: Script, left: string, right: string, i: nat, j: nat)
    requires i <= |left| && j <= |right| && Edits(s, left[..i], right[..j]) && Swaps(s) > 0
    ensures !NoExchange(left, right)
  {
    if s.Then? {
      var before, after := Source(s.init), Target(s.init);
      match s.last
      case Keep(c) =>
        OneLess(before, c, left, i);
        OneLess(after, c, right, j);
        SwapShows(s.init, left, right, i - 1, j - 1);
      case Replace(a, b) =>
        OneLess(before, a, left, i);
        OneLess(after, b, right, j);
        SwapShows(s.init, left, right, i - 1, j - 1);
      case Insert(c) =>
        assert before + "" == before;
        OneLess(after, c, right, j);
        SwapShows(s.init, left, right, i, j - 1);
      case Delete(c) =>
        assert after + "" == after;
        OneLess(before, c, left, i);
        SwapShows(s.init, left, right, i - 1, j);
      case Swap(a, b) =>
        TwoLess(before, a, b, left, i);
        TwoLess(after, b, a, right, j);
        assert Swapped(left, right, i, j);
    }
  }

  /** A best script, which exchanges nothing where there is nothing to exchange. */
  lemma BestScript(left: string, right: string) returns (s: Script)
    ensures Edits(s, left, right) && Cost(s) == OsaDistance(left, right) && Swaps(s) <= Cost(s)
    ensures NoExchange(left, right) ==> Swaps(s) == 0
  {
    assert left[..|left|] == left && right[..|right|] == right;
    s := Attained(left, right, |left|, |right|);
    SwapsCost(s);
    if Swaps(s) > 0 {
      SwapShows(s, left, right, |left|, |right|);
    }
  }

  lemma {:induction false} SwapsCost(s: Script)
    ensures Swaps(s) <= Cost(s)
  {
    match s
    case Done =>
    case Then(init, _) => SwapsCost(init);
  }

  /**
   * A detour is never shorter when neither leg has characters to exchange, and at most twice as short
   * whatever the three strings are.
   */
  lemma Detours(a: string, b: string, c: string)
    ensures NoExchange(a, b) && NoExchange(b, c) ==> OsaDistance(a, c) <= OsaDistance(a, b) + OsaDistance(b, c)
    ensures OsaDistance(a, c) <= 2 * (OsaDistance(a, b) + OsaDistance(b, c))
  {
    var s := BestScript(a, b);
    var t := BestScript(b, c);
    UnswappedEdits(s);
    UnswappedEdits(t);
    var u := Compose(Unswapped(s), Unswapped(t));
    DistanceIsOptimal(a, c);
    assert Edits(u, a, c);
  }

  /**
   * An exchange breaks it: two single edits lead from `ca` by `ac` to `abc`, and three are needed
   * directly, although there is only one exchange.
   */
  lemma NoTriangle()
    ensures OsaDistance("ca", "ac") == 1 && OsaDistance("ac", "abc") == 1 && OsaDistance("ca", "abc") == 3
  {
    var ca, ac, abc := "ca", "ac", "abc";
    assert Distance(ca, ac, 0, 0) == 0 && Distance(ca, ac, 1, 1) == 1;
    assert Distance(ca, ac, 1, 2) == 1 && Distance(ca, ac, 2, 1) == 1;
    assert Distance(ac, abc, 1, 1) == 0 && Distance(ac, abc, 1, 2) == 1 && Distance(ac, abc, 2, 2) == 1;
    assert Distance(ac, abc, 1, 3) == 2;
    assert Distance(ca, abc, 1, 1) == 1 && Distance(ca, abc, 1, 2) == 2 && Distance(ca, abc, 1, 3) == 2;
    assert Distance(ca, abc, 2, 1) == 1 && Distance(ca, abc, 2, 2) == 2;
  }

  // --- the nearest name ---------------------------------------------------------------------

  datatype Suggestion = NoName | Name(name: string)

  function Limit(input: string): nat { 1 + |input| / 3 }

  /** Candidate `k` is near enough, none is nearer, and none before it is as near. */
  ghost predicate Nearest(candidates: seq<string>, input: string, k: nat) {
    && k < |candidates| && OsaDistance(candidates[k], input) <= Limit(input)
    && (forall j :: 0 <= j < |candidates| ==> OsaDistance(candidates[k], input) <= OsaDistance(candidates[j], input))
    && (forall j :: 0 <= j < k ==> OsaDistance(candidates[k], input) < OsaDistance(candidates[j], input))
  }

  /** `nearestName`. */
  method NearestName(candidates: seq<string>, input: string) returns (best: Suggestion)
    ensures best.NoName? <==> input == "" || forall j :: 0 <= j < |candidates| ==>
            OsaDistance(candidates[j], input) > 1 + |input| / 3
    ensures best.Name? ==> best.name in candidates && OsaDistance(best.name, input) <= 1 + |input| / 3
    ensures best.Name? ==> exists k: nat :: Nearest(candidates, input, k) && candidates[k] == best.name
  {
    if input == "" {
      return NoName;
    }
    var limit := Limit(input);
    best := NoName;
    var bestDistance := limit + 1;
    ghost var at := 0;
    for i := 0 to |candidates|
      invariant best.NoName? ==> bestDistance == limit + 1
      invariant best.NoName? <==> forall j :: 0 <= j < i ==> OsaDistance(candidates[j], input) > limit
      invariant best.Name? ==> Nearest(candidates[..i], input, at) && candidates[at] == best.name
                               && bestDistance == OsaDistance(best.name, input)
    {
      var distance := EditDistance(candidates[i], input);
      if distance <= limit && distance < bestDistance {
        best := Name(candidates[i]);
        bestDistance := distance;
        at := i;
      }
    }
    assert candidates[..|candidates|] == candidates;
  }
}
