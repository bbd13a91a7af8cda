/** The per-consumer index over the recorded conversions (include/sema/typed_ast.h). */
module CoercionIndex {

  const INVALID_NODE: nat := 0xFFFF_FFFF

  /** One conversion: which operand of which node, the expression converted, and the types before and after. */
  datatype Coercion = Coercion(consumer: nat, operand: nat, node: nat, given: nat, needed: nat)

  // --- plain filtering ----------------------------------------------------------------------

  function Filter(s: seq<Coercion>, keep: Coercion -> bool): seq<Coercion> {
    if s == [] then []
    else Filter(s[..|s| - 1], keep) + if keep(s[|s| - 1]) then [s[|s| - 1]] else []
  }

  function OfConsumer(consumer: nat): Coercion -> bool {
    (c: Coercion) => c.consumer == consumer
  }

  function Below(n: nat): Coercion -> bool {
    (c: Coercion) => c.consumer < n
  }

  function AtOperand(consumer: nat, operand: nat): Coercion -> bool {
    (c: Coercion) => c.consumer == consumer && c.operand == operand
  }

  lemma {:induction false} FilterSplit(s: seq<Coercion>, t: seq<Coercion>, keep: Coercion -> bool)
    ensures Filter(s + t, keep) == Filter(s, keep) + Filter(t, keep)
  {
    if t == [] {
      assert s + t == s;
    } else {
      FilterSplit(s, t[..|t| - 1], keep);
      assert (s + t)[..|s + t| - 1] == s + t[..|t| - 1];
    }
  }

  lemma {:induction false} FilterAll(s: seq<Coercion>, keep: Coercion -> bool)
    requires forall i :: 0 <= i < |s| ==> keep(s[i])
    ensures Filter(s, keep) == s
  {
    if s != [] {
      FilterAll(s[..|s| - 1], keep);
    }
  }

  lemma {:induction false} FilterNone(s: seq<Coercion>, keep: Coercion -> bool)
    requires forall i :: 0 <= i < |s| ==> !keep(s[i])
    ensures Filter(s, keep) == []
  {
    if s != [] {
      FilterNone(s[..|s| - 1], keep);
    }
  }

  lemma {:induction false} FilterTwice(s: seq<Coercion>, outer: Coercion -> bool, inner: Coercion -> bool)
    requires forall c: Coercion :: inner(c) ==> outer(c)
    ensures Filter(Filter(s, outer), inner) == Filter(s, inner)
  {
    if s != [] {
      var last := s[|s| - 1];
      FilterTwice(s[..|s| - 1], outer, inner);
      FilterSplit(Filter(s[..|s| - 1], outer), if outer(last) then [last] else [], inner);
      assert [last][..0] == [];
    }
  }

  // --- the stable sort ----------------------------------------------------------------------

  /** The order of the sort: by consumer, then by operand. */
  predicate Before(a: Coercion, b: Coercion) {
    if a.consumer != b.consumer then a.consumer < b.consumer else a.operand < b.operand
  }

  ghost predicate Sorted(s: seq<Coercion>) {
    forall i, j :: 0 <= i < j < |s| ==> !Before(s[j], s[i])
  }

  /** `t` is `s` in order, with records of one key in the order they were added. */
  ghost predicate StablySorts(s: seq<Coercion>, t: seq<Coercion>) {
    Sorted(t) && SameRecords(t, s)
  }

  /** The same records, those of each key in the same order. */
  ghost predicate SameRecords(t: seq<Coercion>, s: seq<Coercion>) {
    forall consumer, operand :: Filter(t, AtOperand(consumer, operand)) == Filter(s, AtOperand(consumer, operand))
  }

  /** `std::stable_sort`. */
  method StableSort(s: seq<Coercion>) returns (t: seq<Coercion>)
    ensures StablySorts(s, t)
  {
    t := [];
    for i := 0 to |s|
      invariant StablySorts(s[..i], t)
    {
      var at: nat := |t|;
      while at > 0 && Before(s[i], t[at - 1])
        invariant at <= |t| && forall k :: at <= k < |t| ==> Before(s[i], t[k])
      {
        at := at - 1;
      }
      Inserted(s[..i], t, s[i], at);
      assert s[..i + 1] == s[..i] + [s[i]];
      t := t[..at] + [s[i]] + t[at..];
    }
    assert s[..|s|] == s;
  }

  lemma FilterMore(s: seq<Coercion>, c: Coercion, keep: Coercion -> bool)
    ensures Filter(s + [c], keep) == if keep(c) then Filter(s, keep) + [c] else Filter(s, keep)
  {
    assert (s + [c])[..|s|] == s;
  }

  /** A record put in front of others keeps its place among those of its own key. */
  lemma InsertedFilter(s: seq<Coercion>, a: seq<Coercion>, b: seq<Coercion>, c: Coercion, keep: Coercion -> bool)
    requires Filter(a + b, keep) == Filter(s, keep)
    requires keep(c) ==> forall k :: 0 <= k < |b| ==> !keep(b[k])
    ensures Filter(a + [c] + b, keep) == Filter(s + [c], keep)
  {
    FilterSplit(a + [c], b, keep);
    FilterMore(a, c, keep);
    FilterMore(s, c, keep);
    FilterSplit(a, b, keep);
    if keep(c) {
      FilterNone(b, keep);
      Unchanged(Filter(a, keep), Filter(b, keep));
      Unchanged(Filter(a, keep) + [c], Filter(b, keep));
    }
  }

  lemma Unchanged(s: seq<Coercion>, t: seq<Coercion>)
    requires t == []
    ensures s + t == s
  {}

  lemma InsertedSorted(t: seq<Coercion>, c: Coercion, at: nat)
    requires Sorted(t) && at <= |t|
    requires forall k :: at <= k < |t| ==> Before(c, t[k])
    requires at > 0 ==> !Before(c, t[at - 1])
    ensures Sorted(t[..at] + [c] + t[at..])
  {
    var u := t[..at] + [c] + t[at..];
    forall i, j | 0 <= i < j < |u| ensures !Before(u[j], u[i]) {
      assert i < at ==> u[i] == t[i];
      assert j > at ==> u[j] == t[j - 1];
    }
  }

  lemma Inserted(s: seq<Coercion>, t: seq<Coercion>, c: Coercion, at: nat)
    requires StablySorts(s, t) && at <= |t|
    requires forall k :: at <= k < |t| ==> Before(c, t[k])
    requires at > 0 ==> !Before(c, t[at - 1])
    ensures StablySorts(s + [c], t[..at] + [c] + t[at..])
  {
    InsertedSorted(t, c, at);
    assert t[..at] + t[at..] == t;
    forall consumer, operand
      ensures Filter(t[..at] + [c] + t[at..], AtOperand(consumer, operand)) ==
              Filter(s + [c], AtOperand(consumer, operand))
    {
      InsertedFilter(s, t[..at], t[at..], c, AtOperand(consumer, operand));
    }
  }

  lemma {:induction false} Membership(s: seq<Coercion>, c: Coercion)
    ensures c in s <==> c in Filter(s, AtOperand(c.consumer, c.operand))
  {
    if s != [] {
      Membership(s[..|s| - 1], c);
      assert s == s[..|s| - 1] + [s[|s| - 1]];
    }
  }

  lemma {:induction false} Multiplicity(s: seq<Coercion>, c: Coercion)
    ensures multiset(s)[c] == multiset(Filter(s, AtOperand(c.consumer, c.operand)))[c]
  {
    if s != [] {
      Multiplicity(s[..|s| - 1], c);
      assert s == s[..|s| - 1] + [s[|s| - 1]];
    }
  }

  /** Sorting neither loses nor repeats a record. */
  lemma SortIsPermutation(s: seq<Coercion>, t: seq<Coercion>)
    requires StablySorts(s, t)
    ensures multiset(t) == multiset(s)
  {
    forall c: Coercion ensures multiset(t)[c] == multiset(s)[c] {
      Multiplicity(s, c);
      Multiplicity(t, c);
      assert Filter(t, AtOperand(c.consumer, c.operand)) == Filter(s, AtOperand(c.consumer, c.operand));
    }
  }

  lemma SameMember(t: seq<Coercion>, u: seq<Coercion>, c: Coercion)
    requires SameRecords(t, u) && c in t
    ensures c in u
  {
    Membership(t, c);
    Membership(u, c);
    assert Filter(t, AtOperand(c.consumer, c.operand)) == Filter(u, AtOperand(c.consumer, c.operand));
  }

  lemma DropLast(s: seq<Coercion>, keep: Coercion -> bool)
    requires s != []
    ensures var f := Filter(s, keep);
            if keep(s[|s| - 1]) then f != [] && f[|f| - 1] == s[|s| - 1] && Filter(s[..|s| - 1], keep) == f[..|f| - 1]
            else Filter(s[..|s| - 1], keep) == f
  {}

  lemma SameLast(t: seq<Coercion>, u: seq<Coercion>)
    requires Sorted(t) && Sorted(u) && SameRecords(t, u) && SameRecords(u, t) && t != [] && u != []
    ensures t[|t| - 1] == u[|u| - 1]
  {
    var a, b := t[|t| - 1], u[|u| - 1];
    SameMember(t, u, a);
    SameMember(u, t, b);
    var keep := AtOperand(a.consumer, a.operand);
    assert Filter(t, keep) == Filter(u, keep);
    DropLast(t, keep);
    DropLast(u, keep);
  }

  lemma SameButLast(t: seq<Coercion>, u: seq<Coercion>)
    requires SameRecords(t, u) && t != [] && u != [] && t[|t| - 1] == u[|u| - 1]
    ensures SameRecords(t[..|t| - 1], u[..|u| - 1])
  {
    forall consumer, operand
      ensures Filter(t[..|t| - 1], AtOperand(consumer, operand)) == Filter(u[..|u| - 1], AtOperand(consumer, operand))
    {
      var keep := AtOperand(consumer, operand);
      assert Filter(t, keep) == Filter(u, keep);
      DropLast(t, keep);
      DropLast(u, keep);
    }
  }

  /** There is one stable sort. */
  lemma {:induction false} SortIsUnique(t: seq<Coercion>, u: seq<Coercion>)
    requires Sorted(t) && Sorted(u) && SameRecords(t, u) && SameRecords(u, t)
    ensures t == u
  {
    if t == [] {
      if u != [] {
        SameMember(u, t, u[0]);
      }
    } else {
      SameMember(t, u, t[0]);
      SameLast(t, u);
      SameButLast(t, u);
      SameButLast(u, t);
      SortIsUnique(t[..|t| - 1], u[..|u| - 1]);
      assert t == t[..|t| - 1] + [t[|t| - 1]] && u == u[..|u| - 1] + [u[|u| - 1]];
    }
  }

  // --- the index ----------------------------------------------------------------------------

  /** Where the records of node `i` start: behind those of every smaller node. */
  ghost predicate Indexes(s: seq<Coercion>, first: seq<nat>, nodeCount: nat) {
    |first| == nodeCount + 1 && forall i :: 0 <= i <= nodeCount ==> first[i] == |Filter(s, Below(i))|
  }

  /** `coercionsOf`, as a read of the two lists. */
  function SliceOf(s: seq<Coercion>, first: seq<nat>, consumer: nat): seq<Coercion> {
    if consumer == INVALID_NODE || consumer + 1 >= |first| then []
    else
      var start, end := first[consumer], first[consumer + 1];
      if start > end || end > |s| then [] else s[start..end]
  }

  /** In a sorted list no record stands behind a greater node's. */
  lemma LastIsHighest(s: seq<Coercion>, i: nat)
    requires Sorted(s) && i < |s|
    ensures s[i].consumer <= s[|s| - 1].consumer
  {
    if i < |s| - 1 {
      assert !Before(s[|s| - 1], s[i]);
    }
  }

  lemma AllBelow(s: seq<Coercion>, n: nat)
    requires Sorted(s) && s != [] && s[|s| - 1].consumer < n
    ensures Filter(s, Below(n)) == s
  {
    forall i | 0 <= i < |s| ensures Below(n)(s[i]) {
      LastIsHighest(s, i);
    }
    FilterAll(s, Below(n));
  }

  /** In a sorted list the records below a node are a first part of it. */
  lemma {:induction false} BelowIsPrefix(s: seq<Coercion>, n: nat)
    requires Sorted(s)
    ensures |Filter(s, Below(n))| <= |s| && Filter(s, Below(n)) == s[..|Filter(s, Below(n))|]
  {
    if s != [] {
      if s[|s| - 1].consumer < n {
        AllBelow(s, n);
      } else {
        BelowIsPrefix(s[..|s| - 1], n);
      }
    }
  }

  lemma NoneOf(s: seq<Coercion>, n: nat)
    requires Sorted(s) && s != [] && s[|s| - 1].consumer < n
    ensures Filter(s, OfConsumer(n)) == []
  {
    forall i | 0 <= i < |s| ensures !OfConsumer(n)(s[i]) {
      LastIsHighest(s, i);
    }
    FilterNone(s, OfConsumer(n));
  }

  lemma {:induction false} NextNode(s: seq<Coercion>, n: nat)
    requires Sorted(s)
    ensures Filter(s, Below(n + 1)) == Filter(s, Below(n)) + Filter(s, OfConsumer(n))
  {
    if s != [] && s[|s| - 1].consumer < n {
      AllBelow(s, n);
      AllBelow(s, n + 1);
      NoneOf(s, n);
      Unchanged(s, []);
    } else if s != [] {
      var init, last := s[..|s| - 1], s[|s| - 1];
      NextNode(init, n);
      NextLast(init, last, n);
      assert init + [last] == s;
    }
  }

  lemma NextLast(init: seq<Coercion>, last: Coercion, n: nat)
    requires Filter(init, Below(n + 1)) == Filter(init, Below(n)) + Filter(init, OfConsumer(n)) && last.consumer >= n
    ensures Filter(init + [last], Below(n + 1)) ==
            Filter(init + [last], Below(n)) + Filter(init + [last], OfConsumer(n))
  {
    FilterMore(init, last, Below(n));
    FilterMore(init, last, Below(n + 1));
    FilterMore(init, last, OfConsumer(n));
  }

  /** The slice of a node below the count is that node's records, in the list's order. */
  lemma SliceIsFilter(s: seq<Coercion>, first: seq<nat>, nodeCount: nat, consumer: nat)
    requires Sorted(s) && Indexes(s, first, nodeCount) && consumer < nodeCount && consumer != INVALID_NODE
    ensures SliceOf(s, first, consumer) == Filter(s, OfConsumer(consumer))
  {
    BelowIsPrefix(s, consumer);
    BelowIsPrefix(s, consumer + 1);
    NextNode(s, consumer);
    var m, n := |Filter(s, Below(consumer))|, |Filter(s, Below(consumer + 1))|;
    assert s[..n] == s[..m] + Filter(s, OfConsumer(consumer));
    assert s[m..n] == s[..n][m..];
  }

  /** What the index answers for one node: its own records, stably sorted, their operands going up. */
  lemma SliceIsStablySorted(s: seq<Coercion>, t: seq<Coercion>, first: seq<nat>, nodeCount: nat, consumer: nat)
    requires StablySorts(s, t) && Indexes(t, first, nodeCount) && consumer < nodeCount && consumer != 0xFFFF_FFFF
    ensures var slice := SliceOf(t, first, consumer);
            && StablySorts(Filter(s, OfConsumer(consumer)), slice)
            && (forall i :: 0 <= i < |slice| ==> slice[i].consumer == consumer)
            && (forall i, j :: 0 <= i < j < |slice| ==> slice[i].operand <= slice[j].operand)
  {
    SliceIsFilter(t, first, nodeCount, consumer);
    KeptMembers(t, OfConsumer(consumer));
    BelowIsPrefix(t, consumer);
    BelowIsPrefix(t, consumer + 1);
    NextNode(t, consumer);
    forall c, operand
      ensures Filter(Filter(t, OfConsumer(consumer)), AtOperand(c, operand)) ==
              Filter(Filter(s, OfConsumer(consumer)), AtOperand(c, operand))
    {
      OfOneKey(s, t, consumer, c, operand);
    }
  }

  /** A node that is none, or is not among those counted, has no records. */
  lemma NothingOutside(t: seq<Coercion>, first: seq<nat>, nodeCount: nat, consumer: nat)
    requires Indexes(t, first, nodeCount) && (consumer >= nodeCount || consumer == 0xFFFF_FFFF)
    ensures SliceOf(t, first, consumer) == []
  {}

  lemma OfOneKey(s: seq<Coercion>, t: seq<Coercion>, consumer: nat, c: nat, operand: nat)
    requires SameRecords(t, s)
    ensures Filter(Filter(t, OfConsumer(consumer)), AtOperand(c, operand)) ==
            Filter(Filter(s, OfConsumer(consumer)), AtOperand(c, operand))
  {
    if c == consumer {
      FilterTwice(t, OfConsumer(consumer), AtOperand(c, operand));
      FilterTwice(s, OfConsumer(consumer), AtOperand(c, operand));
      assert Filter(t, AtOperand(c, operand)) == Filter(s, AtOperand(c, operand));
    } else {
      KeptMembers(t, OfConsumer(consumer));
      KeptMembers(s, OfConsumer(consumer));
      FilterNone(Filter(t, OfConsumer(consumer)), AtOperand(c, operand));
      FilterNone(Filter(s, OfConsumer(consumer)), AtOperand(c, operand));
    }
  }

  lemma {:induction false} KeptMembers(s: seq<Coercion>, keep: Coercion -> bool)
    ensures forall i :: 0 <= i < |Filter(s, keep)| ==> keep(Filter(s, keep)[i])
  {
    if s != [] {
      KeptMembers(s[..|s| - 1], keep);
    }
  }

  /** The slices of all nodes, in order. */
  function Slices(s: seq<Coercion>, first: seq<nat>, nodeCount: nat): seq<Coercion> {
    if nodeCount == 0 then [] else Slices(s, first, nodeCount - 1) + SliceOf(s, first, nodeCount - 1)
  }

  lemma NoneBelowZero(s: seq<Coercion>)
    ensures Filter(s, Below(0)) == []
  {
    FilterNone(s, Below(0));
  }

  predicate Rises(first: seq<nat>, size: nat, i: nat) {
    i + 1 < |first| && first[i] <= first[i + 1] <= size
  }

  lemma {:induction false} SlicesArePrefix(s: seq<Coercion>, first: seq<nat>, n: nat)
    requires n < |first| <= INVALID_NODE + 1 && first[0] == 0
    requires forall i: nat :: i < n ==> Rises(first, |s|, i)
    ensures first[n] <= |s| && Slices(s, first, n) == s[..first[n]]
  {
    if n > 0 {
      var m := n - 1;
      assert Rises(first, |s|, m);
      SlicesArePrefix(s, first, m);
    }
  }

  lemma IndexRises(s: seq<Coercion>, first: seq<nat>, nodeCount: nat)
    requires Sorted(s) && Indexes(s, first, nodeCount)
    ensures forall i: nat :: i < nodeCount ==> Rises(first, |s|, i)
  {
    forall i: nat | i < nodeCount ensures Rises(first, |s|, i) {
      BelowSplits(s, i);
      BelowIsPrefix(s, i + 1);
      assert first[i] == |Filter(s, Below(i))| && first[i + 1] == |Filter(s, Below(i + 1))|;
    }
  }

  /** Together they are the records of nodes below the count, each once; the others are in no slice. */
  lemma SlicesCoverTheRange(s: seq<Coercion>, first: seq<nat>, nodeCount: nat)
    requires Sorted(s) && Indexes(s, first, nodeCount) && nodeCount <= INVALID_NODE
    ensures Slices(s, first, nodeCount) == Filter(s, Below(nodeCount))
  {
    NoneBelowZero(s);
    IndexRises(s, first, nodeCount);
    SlicesArePrefix(s, first, nodeCount);
    BelowIsPrefix(s, nodeCount);
  }

  /** The first record of a slice at an operand is the first one added for that operand. */
  lemma FirstAtOperand(s: seq<Coercion>, t: seq<Coercion>, first: seq<nat>, nodeCount: nat, consumer: nat, operand: nat)
    requires StablySorts(s, t) && Indexes(t, first, nodeCount) && consumer < nodeCount && consumer != INVALID_NODE
    ensures Filter(SliceOf(t, first, consumer), AtOperand(consumer, operand)) == Filter(s, AtOperand(consumer, operand))
  {
    SliceIsFilter(t, first, nodeCount, consumer);
    FilterTwice(t, OfConsumer(consumer), AtOperand(consumer, operand));
  }

  lemma {:induction false} BelowSplits(s: seq<Coercion>, i: nat)
    ensures |Filter(s, Below(i + 1))| == |Filter(s, Below(i))| + |Filter(s, OfConsumer(i))|
  {
    if s != [] {
      BelowSplits(s[..|s| - 1], i);
    }
  }

  /** The running total is made below `i`; from there on there are plain counts. */
  ghost predicate Totalled(s: seq<Coercion>, first: seq<nat>, i: nat, nodeCount: nat) {
    && |first| == nodeCount + 1
    && (forall j: nat :: j < i && j <= nodeCount ==> first[j] == |Filter(s, Below(j))|)
    && (forall j: nat :: i <= j + 1 && j < nodeCount ==> first[j + 1] == |Filter(s, OfConsumer(j))|)
  }

  lemma OneMoreTotal(s: seq<Coercion>, first: seq<nat>, i: nat, nodeCount: nat)
    requires Totalled(s, first, i, nodeCount) && 1 <= i <= nodeCount
    ensures Totalled(s, first[i := first[i] + first[i - 1]], i + 1, nodeCount)
  {
    BelowSplits(s, i - 1);
  }

  lemma Whole(list: seq<Coercion>, i: nat)
    requires i < |list|
    ensures list[..i] + [list[i]] + list[i + 1..] == list
  {}

  lemma FirstFound(list: seq<Coercion>, i: nat, keep: Coercion -> bool)
    requires i < |list| && keep(list[i]) && forall j :: 0 <= j < i ==> !keep(list[j])
    ensures Filter(list, keep) != [] && Filter(list, keep)[0] == list[i]
  {
    var before, after := list[..i], list[i + 1..];
    FilterNone(before, keep);
    FilterMore(before, list[i], keep);
    FilterSplit(before + [list[i]], after, keep);
    Whole(list, i);
  }

  datatype MaybeCoercion = NoCoercion | Found(coercion: Coercion)

  class TypedFile {
    var coercions: seq<Coercion>
    var coercionFirst: seq<nat>

    constructor ()
      ensures coercions == [] && coercionFirst == []
    {
      coercions, coercionFirst := [], [];
    }

    method AddCoercion(coercion: Coercion)
      modifies this`coercions
      ensures coercions == old(coercions) + [coercion]
    {
      coercions := coercions + [coercion];
    }

    /** `buildCoercionIndex`: a stable sort, a count per node, and the running total. */
    method BuildCoercionIndex(nodeCount: nat)
      modifies this
      ensures StablySorts(old(coercions), coercions) && Indexes(coercions, coercionFirst, nodeCount)
    {
      coercions := StableSort(coercions);
      CountPerNode(nodeCount);
      RunningTotal(nodeCount);
    }

    method CountPerNode(nodeCount: nat)
      modifies this`coercionFirst
      ensures |coercionFirst| == nodeCount + 1 && coercionFirst[0] == 0
      ensures forall i :: 0 <= i < nodeCount ==> coercionFirst[i + 1] == |Filter(coercions, OfConsumer(i))|
    {
      coercionFirst := seq(nodeCount + 1, _ => 0);
      for k := 0 to |coercions|
        invariant |coercionFirst| == nodeCount + 1 && coercionFirst[0] == 0
        invariant forall i :: 0 <= i < nodeCount ==> coercionFirst[i + 1] == |Filter(coercions[..k], OfConsumer(i))|
      {
        var c := coercions[k];
        assert coercions[..k + 1][..k] == coercions[..k];
        if c.consumer < nodeCount {
          coercionFirst := coercionFirst[c.consumer + 1 := coercionFirst[c.consumer + 1] + 1];
        }
      }
      assert coercions[..|coercions|] == coercions;
    }

    method RunningTotal(nodeCount: nat)
      requires |coercionFirst| == nodeCount + 1 && coercionFirst[0] == 0
      requires forall i :: 0 <= i < nodeCount ==> coercionFirst[i + 1] == |Filter(coercions, OfConsumer(i))|
      modifies this`coercionFirst
      ensures Indexes(coercions, coercionFirst, nodeCount)
    {
      NoneBelowZero(coercions);
      for i := 1 to |coercionFirst|
        invariant Totalled(coercions, coercionFirst, i, nodeCount)
      {
        OneMoreTotal(coercions, coercionFirst, i, nodeCount);
        coercionFirst := coercionFirst[i := coercionFirst[i] + coercionFirst[i - 1]];
      }
    }

    /** `coercionsOf`. */
    function CoercionsOf(consumer: nat): seq<Coercion>
      reads this
    {
      SliceOf(coercions, coercionFirst, consumer)
    }

    /** `coercionAt`: a scan of the node's own records. */
    method CoercionAt(consumer: nat, operand: nat) returns (r: MaybeCoercion)
      ensures var at := Filter(CoercionsOf(consumer), AtOperand(consumer, operand));
              (forall c <- CoercionsOf(consumer) :: c.consumer == consumer) ==>
                  r == if at == [] then NoCoercion else Found(at[0])
      ensures var list := CoercionsOf(consumer);
              if r.Found? then
                exists i :: 0 <= i < |list| && list[i] == r.coercion && list[i].operand == operand
                  && forall j :: 0 <= j < i ==> list[j].operand != operand
              else forall i :: 0 <= i < |list| ==> list[i].operand != operand
    {
      var list := CoercionsOf(consumer);
      for i := 0 to |list|
        invariant forall j :: 0 <= j < i ==> list[j].operand != operand
      {
        if list[i].operand == operand {
          if forall c <- list :: c.consumer == consumer {
            FirstFound(list, i, AtOperand(consumer, operand));
          }
          return Found(list[i]);
        }
      }
      FilterNone(list, AtOperand(consumer, operand));
      r := NoCoercion;
    }
  }
}
