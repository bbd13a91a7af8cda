/** Where a range of the unit's text was written: `OriginTable` of src/ast/lower.cc. */
module Origins {

  datatype Span = Span(file: nat, begin: nat, end: nat)

  const INVALID_FILE: nat := 0xFFFF_FFFF

  /** One token of the preprocessed stream: where it starts, and where it was written. */
  datatype TokenRow = TokenRow(offset: nat, origin: Span)

  /** No rows is both the missing stream and the empty one: the text is its own source. */
  datatype OriginTable = OriginTable(unit: nat, rows: seq<TokenRow>) {

    /** The written span of the unit's bytes `[begin, end)`. */
    function OriginOf(begin: nat, end: nat): Span {
      if rows == [] then Span(unit, begin, end)
      else
        var first := Covering(rows, begin);
        var last := if end > begin then Covering(rows, end - 1) else first;
        var f, l := rows[first].origin, rows[last].origin;
        if f.file == INVALID_FILE then Span(unit, begin, end)
        else if f.file != l.file then f
        else Span(f.file, f.begin, l.end)
    }
  }

  ghost predicate Ascending(rows: seq<TokenRow>) {
    forall i, j :: 0 <= i < j < |rows| ==> rows[i].offset <= rows[j].offset
  }

  /** How many leading rows start at or before `x`; on ascending starts, the first row that starts after it. */
  function UpperBound(rows: seq<TokenRow>, x: nat): (r: nat)
    ensures r <= |rows|
  {
    if rows == [] || x < rows[0].offset then 0 else 1 + UpperBound(rows[1..], x)
  }

  function Covering(rows: seq<TokenRow>, x: nat): (i: nat)
    requires rows != []
    ensures i < |rows|
  {
    var r := UpperBound(rows, x);
    if r == 0 then 0 else r - 1
  }

  lemma {:induction false} UpperBoundSplits(rows: seq<TokenRow>, x: nat)
    requires Ascending(rows)
    ensures forall i :: 0 <= i < |rows| ==> (i < UpperBound(rows, x) <==> rows[i].offset <= x)
  {
    if rows != [] && rows[0].offset <= x {
      UpperBoundSplits(rows[1..], x);
      forall i | 0 < i < |rows|
        ensures i < UpperBound(rows, x) <==> rows[i].offset <= x
      {
        assert rows[i] == rows[1..][i - 1];
      }
    }
  }

  /** `std::upper_bound` on the starts: the binary search. */
  method SearchUpperBound(rows: seq<TokenRow>, x: nat) returns (r: nat)
    requires Ascending(rows)
    ensures r == UpperBound(rows, x)
  {
    r := 0;
    var high := |rows|;
    while r < high
      invariant 0 <= r <= high <= |rows|
      invariant forall i :: 0 <= i < r ==> rows[i].offset <= x
      invariant forall i :: high <= i < |rows| ==> x < rows[i].offset
    {
      var mid := (r + high) / 2;
      if rows[mid].offset <= x {
        r := mid + 1;
      } else {
        high := mid;
      }
    }
    UpperBoundSplits(rows, x);
    var u := UpperBound(rows, x);
    assert u < |rows| ==> x < rows[u].offset;
    assert r < |rows| ==> x < rows[r].offset;
  }

  /**
   * Token `i` is the one byte `x` belongs to: it starts at or before it and the next one starts after it.
   * Bytes in front of every token belong to the first.
   */
  ghost predicate Covers(rows: seq<TokenRow>, i: nat, x: nat) {
    && i < |rows|
    && (i > 0 ==> rows[i].offset <= x)
    && (i + 1 < |rows| ==> x < rows[i + 1].offset)
  }

  /** There is exactly one such token. */
  lemma CoveringIsTheCoveringToken(rows: seq<TokenRow>, i: nat, x: nat)
    requires Ascending(rows) && rows != []
    ensures Covers(rows, i, x) <==> i == Covering(rows, x)
  {
    UpperBoundSplits(rows, x);
  }

  /** `originOf`, with its two searches. */
  method FindOrigin(o: OriginTable, begin: nat, end: nat) returns (s: Span)
    requires Ascending(o.rows)
    ensures s == o.OriginOf(begin, end)
  {
    if o.rows == [] {
      return Span(o.unit, begin, end);
    }
    var first := SearchUpperBound(o.rows, begin);
    first := if first == 0 then 0 else first - 1;
    var last := first;
    if end > begin {
      last := SearchUpperBound(o.rows, end - 1);
      last := if last == 0 then 0 else last - 1;
    }
    var f, l := o.rows[first].origin, o.rows[last].origin;
    if f.file == INVALID_FILE {
      return Span(o.unit, begin, end);
    }
    if f.file != l.file {
      return f;
    }
    s := Span(f.file, f.begin, l.end);
  }

  /** Some byte of the range belongs to token `k`; a range without bytes is taken to hold its first one. */
  ghost predicate Touches(rows: seq<TokenRow>, k: nat, begin: nat, end: nat) {
    exists x: nat :: begin <= x < (if end > begin then end else begin + 1) && Covers(rows, k, x)
  }

  /** The tokens the range touches were written one after another in one file. */
  ghost predicate WrittenInOrder(rows: seq<TokenRow>, file: nat, begin: nat, end: nat) {
    && (forall k: nat :: Touches(rows, k, begin, end) ==>
        rows[k].origin.file == file && rows[k].origin.begin <= rows[k].origin.end)
    && (forall j: nat, k: nat :: j < k && Touches(rows, j, begin, end) && Touches(rows, k, begin, end)
          ==> rows[j].origin.end <= rows[k].origin.begin)
  }

  ghost predicate Encloses(s: Span, t: Span) {
    s.file == t.file && s.begin <= t.begin && t.end <= s.end
  }

  /** Tokens between two touched ones are touched: the searches answer in order. */
  lemma CoveringAscends(rows: seq<TokenRow>, x: nat, y: nat)
    requires Ascending(rows) && rows != [] && x <= y
    ensures Covering(rows, x) <= Covering(rows, y)
  {
    UpperBoundSplits(rows, x);
    UpperBoundSplits(rows, y);
    var v := UpperBound(rows, y);
    assert v < |rows| ==> y < rows[v].offset;
  }

  /**
   * For every range, empty ones included. Without a stream, or where its first token was written nowhere,
   * the range is its own origin. Where the tokens it touches were written one after another in one file,
   * the origin is the least span that encloses what each of them was written as. Where its first and
   * last token were written in different files, the first one's span has to do.
   */
  lemma OriginOfRange(o: OriginTable, begin: nat, end: nat, file: nat)
    requires Ascending(o.rows)
    ensures o.rows == [] || o.rows[Covering(o.rows, begin)].origin.file == 0xFFFF_FFFF
            ==> o.OriginOf(begin, end) == Span(o.unit, begin, end)
    ensures o.rows != [] && file != 0xFFFF_FFFF && WrittenInOrder(o.rows, file, begin, end) ==>
              && (forall k: nat :: Touches(o.rows, k, begin, end) ==>
                  Encloses(o.OriginOf(begin, end), o.rows[k].origin))
              && (forall s: Span :: (forall k: nat :: Touches(o.rows, k, begin, end) ==> Encloses(s, o.rows[k].origin))
                    ==> Encloses(s, o.OriginOf(begin, end)))
    ensures o.rows != [] && end > begin ==>
              var f, l := o.rows[Covering(o.rows, begin)].origin, o.rows[Covering(o.rows, end - 1)].origin;
              f.file != 0xFFFF_FFFF && f.file != l.file ==> o.OriginOf(begin, end) == f
  {
    if o.rows != [] && file != INVALID_FILE && WrittenInOrder(o.rows, file, begin, end) {
      HullOfTouched(o, begin, end, file);
    }
  }

  lemma HullOfTouched(o: OriginTable, begin: nat, end: nat, file: nat)
    requires Ascending(o.rows) && o.rows != [] && file != INVALID_FILE && WrittenInOrder(o.rows, file, begin, end)
    ensures forall k: nat :: Touches(o.rows, k, begin, end) ==> Encloses(o.OriginOf(begin, end), o.rows[k].origin)
    ensures forall s: Span :: (forall k: nat :: Touches(o.rows, k, begin, end) ==> Encloses(s, o.rows[k].origin))
              ==> Encloses(s, o.OriginOf(begin, end))
  {
    var rows, top := o.rows, if end > begin then end - 1 else begin;
    var first, last := Covering(rows, begin), Covering(rows, top);
    CoveringIsTheCoveringToken(rows, first, begin);
    CoveringIsTheCoveringToken(rows, last, top);
    assert Touches(rows, first, begin, end) && Touches(rows, last, begin, end);
    CoveringAscends(rows, begin, top);
    forall k: nat | Touches(rows, k, begin, end)
      ensures Encloses(o.OriginOf(begin, end), rows[k].origin)
    {
      var x: nat :| begin <= x < (if end > begin then end else begin + 1) && Covers(rows, k, x);
      CoveringIsTheCoveringToken(rows, k, x);
      CoveringAscends(rows, begin, x);
      CoveringAscends(rows, x, top);
    }
  }
}
