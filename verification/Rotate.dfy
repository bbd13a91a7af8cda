/** Rotation builtins (src/ir/builtins.cc): the count brought to the value's width, and a funnel shift. */
module Rotate {
  import opened MachineWords

  /** A value's bits, most significant first. */
  type Bits = seq<bool>

  function Power(n: nat): nat { if n == 0 then 1 else 2 * Power(n - 1) }

  /** The widths an integer type may have; each is a power of two. */
  predicate IsWidth(n: nat) { n == 8 || n == 16 || n == 32 || n == 64 || n == 128 }

  // --- the emitted instructions -------------------------------------------------------------

  /** `zext` or `trunc`, from a pattern of any width to `bits` bits. */
  function ZExtOrTrunc(pattern: nat, bits: nat): nat {
    PowerPositive(bits);
    pattern % Power(bits)
  }

  function URem(pattern: nat, divisor: nat): nat
    requires divisor > 0
  {
    pattern % divisor
  }

  /** `llvm.fshl`: the upper half of the two values side by side, shifted left by less than their width. */
  function FunnelLeft(high: Bits, low: Bits, count: nat): Bits
    requires |high| == |low| && count < |high|
  {
    (high + low)[count..count + |high|]
  }

  /** `llvm.fshr`: the lower half, shifted right. */
  function FunnelRight(high: Bits, low: Bits, count: nat): Bits
    requires |high| == |low| && count < |high|
  {
    (high + low)[|high| - count..2 * |high| - count]
  }

  /** `lowerRotate`: wrap the count into the value's width, reduce it, and shift. */
  function LowerRotate(left: bool, x: Bits, count: nat): (r: Bits)
    requires IsWidth(|x|)
    ensures |r| == |x|
  {
    var rotation := URem(ZExtOrTrunc(count, |x|), |x|);
    if left then FunnelLeft(x, x, rotation) else FunnelRight(x, x, rotation)
  }

  // --- rotation -----------------------------------------------------------------------------

  /** Every bit moved `n` places up, those that leave at the top coming back at the bottom. */
  function RotatedLeft(x: Bits, n: nat): (r: Bits)
    requires n < |x|
    ensures |r| == |x|
  {
    x[n..] + x[..n]
  }

  function RotatedRight(x: Bits, n: nat): Bits
    requires n < |x|
  {
    x[|x| - n..] + x[..|x| - n]
  }

  /** The number a pattern of `bits` bits stands for in two's complement. */
  function Signed(pattern: nat, bits: nat): int
    requires bits > 0
  {
    if pattern < Power(bits - 1) then pattern else pattern - Power(bits)
  }

  lemma {:induction false} PowerPositive(n: nat)
    ensures Power(n) > 0
  {
    if n > 0 { PowerPositive(n - 1); }
  }

  lemma {:induction false} PowerSplit(a: nat, b: nat)
    ensures Power(a + b) == Power(a) * Power(b)
  {
    if a > 0 { PowerSplit(a - 1, b); }
  }

  /** A width divides two to the power of any width. */
  lemma WidthDivides(width: nat, bits: nat) returns (q: nat)
    requires IsWidth(width) && IsWidth(bits)
    ensures Power(bits) == q * width
  {
    var k := if width == 8 then 3 else if width == 16 then 4 else if width == 32 then 5
             else if width == 64 then 6 else 7;
    assert Power(3) == 8 && Power(4) == 16;
    assert Power(5) == 32 && Power(6) == 64;
    assert Power(7) == 128;
    PowerSplit(bits - k, k);
    q := Power(bits - k);
  }

  /** Numbers a multiple apart have one remainder. */
  lemma SameRemainder(a: int, b: int, q: int, m: int)
    requires m > 0 && a == b + q * m
    ensures a % m == b % m
  {
    var d := a / m - b / m - q;
    assert a == a / m * m + a % m && b == b / m * m + b % m;
    assert d * m == a / m * m - b / m * m - q * m;
    assert d * m == b % m - a % m;
    Multiple(d, m);
  }

  lemma Divided(n: nat, p: nat) returns (d: nat)
    requires p > 0
    ensures n == d * p + n % p
  {
    d := n / p;
  }

  lemma RemainderOfRemainder(n: nat, p: nat, q: nat, m: nat)
    requires m > 0 && p > 0 && p == q * m
    ensures n % p % m == n % m
  {
    var d := Divided(n, p);
    Associates(d, q, m);
    SameRemainder(n, n % p, d * q, m);
  }

  lemma Associates(a: nat, b: nat, c: nat)
    ensures a * (b * c) == a * b * c
  {}

  /** Wrapping the count first is harmless: it is reduced as a number, and as a signed number. */
  lemma CountIsReduced(width: nat, count: nat, countBits: nat)
    requires IsWidth(width) && IsWidth(countBits) && count < Power(countBits)
    ensures URem(ZExtOrTrunc(count, width), width) == count % width == Signed(count, countBits) % width
  {
    PowerPositive(width);
    var q := WidthDivides(width, width);
    RemainderOfRemainder(count, Power(width), q, width);
    var r := WidthDivides(width, countBits);
    SameRemainder(count, count - Power(countBits), r, width);
  }

  /** The rotation a count means for a value of this width. */
  function Meant(count: nat, countBits: nat, width: nat): (n: nat)
    requires countBits > 0 && width > 0
    ensures n < width
  {
    Signed(count, countBits) % width
  }

  // --- what the instructions do -------------------------------------------------------------

  lemma FunnelsRotate(x: Bits, count: nat)
    requires count < |x|
    ensures FunnelLeft(x, x, count) == RotatedLeft(x, count)
    ensures FunnelRight(x, x, count) == RotatedRight(x, count)
  {}

  /**
   * For every value width and every count width, the emitted code rotates by the count the language
   * means: the signed number the count's pattern stands for, taken modulo the value's width.
   */
  lemma RotateIsRotation(left: bool, x: Bits, count: nat, countBits: nat)
    requires IsWidth(|x|) && IsWidth(countBits) && count < Power(countBits)
    ensures var n := Meant(count, countBits, |x|);
            LowerRotate(left, x, count) == if left then RotatedLeft(x, n) else RotatedRight(x, n)
  {
    CountIsReduced(|x|, count, countBits);
    FunnelsRotate(x, URem(ZExtOrTrunc(count, |x|), |x|));
  }

  /** A pattern and its signed number differ by nothing or by two to the power of the width. */
  lemma SignedIsTwosComplement(pattern: nat, bits: nat)
    requires bits > 0 && pattern < Power(bits)
    ensures Power(bits) == 2 * Power(bits - 1)
    ensures 0 <= Signed(pattern, bits) + Power(bits - 1) < 2 * Power(bits - 1)
    ensures Signed(pattern, bits) == pattern || Signed(pattern, bits) == pattern - Power(bits)
  {}

  lemma WidthsHaveTheirPowers()
    ensures IsWidth(8) && IsWidth(16) && IsWidth(32) && IsWidth(64) && IsWidth(128)
    ensures Power(8) == 0x100 && Power(16) == 0x1_0000 && Power(32) == 0x1_0000_0000
    ensures Power(64) == 0x1_0000_0000_0000_0000
    ensures Power(128) == 0x1_0000_0000_0000_0000_0000_0000_0000_0000
  {
    assert Power(4) == 0x10;
    PowerSplit(4, 4);
    PowerSplit(8, 8);
    PowerSplit(16, 16);
    PowerSplit(32, 32);
    PowerSplit(64, 64);
  }

  /** The bit of `x` at one place is the bit of `r` at another; place 0 is the least significant. */
  predicate Moved(x: Bits, place: nat, r: Bits, into: int)
    requires place < |x|
  {
    |r| == |x| && 0 <= into < |x| && r[|x| - 1 - into] == x[|x| - 1 - place]
  }

  /**
   * Where each bit goes: to the left it gains as many places as the count says, to the right it loses them,
   * and what leaves at one end comes back at the other.
   */
  lemma BitsMove(left: bool, x: Bits, count: nat, countBits: nat, place: nat)
    requires IsWidth(|x|) && IsWidth(countBits) && count < Power(countBits) && place < |x|
    ensures var turn := Signed(count, countBits);
            Moved(x, place, LowerRotate(left, x, count), (if left then place + turn else place - turn) % |x|)
  {
    RotateIsRotation(left, x, count, countBits);
    Moves(left, x, Signed(count, countBits), place);
  }

  lemma Moves(left: bool, x: Bits, turn: int, place: nat)
    requires place < |x|
    ensures var r := if left then RotatedLeft(x, turn % |x|) else RotatedRight(x, turn % |x|);
            Moved(x, place, r, (if left then place + turn else place - turn) % |x|)
  {
    PlaceMoves(turn, |x|, place);
    BitAt(x, turn % |x|, place);
  }

  /** The place `place` moves to, and the one it comes from. */
  lemma PlaceMoves(turn: int, width: nat, place: nat)
    requires place < width
    ensures var n := turn % width;
            && (place + turn) % width == (if place + n < width then place + n else place + n - width)
            && (place - turn) % width == (if place >= n then place - n else place - n + width)
  {
    var n, q := turn % width, turn / width;
    assert turn == q * width + n;
    var up := if place + n < width then place + n else place + n - width;
    var down := if place >= n then place - n else place - n + width;
    SameRemainder(place + turn, place + n, q, width);
    SameRemainder(place + n, up, if place + n < width then 0 else 1, width);
    SmallRemainder(up, width);
    SameRemainder(place - n, place - turn, q, width);
    SameRemainder(down, place - n, if place >= n then 0 else 1, width);
    SmallRemainder(down, width);
  }

  lemma BitAt(x: Bits, n: nat, place: nat)
    requires n < |x| && place < |x|
    ensures var up := if place + n < |x| then place + n else place + n - |x|;
            var down := if place >= n then place - n else place - n + |x|;
            && RotatedLeft(x, n)[|x| - 1 - up] == x[|x| - 1 - place]
            && RotatedRight(x, n)[|x| - 1 - down] == x[|x| - 1 - place]
  {}

  /** Right undoes left. */
  lemma RightUndoesLeft(x: Bits, m: nat)
    requires m < |x|
    ensures RotatedRight(RotatedLeft(x, m), m) == x
  {
    var low, high := x[m..], x[..m];
    assert (low + high)[|x| - m..] == high && (low + high)[..|x| - m] == low;
    assert high + low == x;
  }

  /** A rotation and another are one rotation by the sum. */
  lemma LeftAfterLeft(x: Bits, m: nat, n: nat)
    requires m < |x| && n < |x|
    ensures RotatedLeft(RotatedLeft(x, m), n) == RotatedLeft(x, if m + n < |x| then m + n else m + n - |x|)
  {}

  lemma SumOfRemainders(a: int, b: int, m: int)
    requires m > 0
    ensures (a + b) % m == if a % m + b % m < m then a % m + b % m else a % m + b % m - m
  {
    var r := if a % m + b % m < m then a % m + b % m else a % m + b % m - m;
    var q := a / m + b / m + if a % m + b % m < m then 0 else 1;
    SumOfQuotients(a, b, m, q, r);
    SameRemainder(a + b, r, q, m);
    SmallRemainder(r, m);
  }

  lemma SmallRemainder(r: nat, m: nat)
    requires r < m
    ensures r % m == r
  {}

  lemma SumOfQuotients(a: int, b: int, m: int, q: int, r: int)
    requires m > 0 && ((q == a / m + b / m && r == a % m + b % m) || (q == a / m + b / m + 1 && r == a % m + b % m - m))
    ensures a + b == r + q * m
  {
    assert a == a / m * m + a % m && b == b / m * m + b % m;
    assert (a / m + b / m) * m == a / m * m + b / m * m;
    assert (a / m + b / m + 1) * m == (a / m + b / m) * m + m;
  }

  /** Rotating back by the same count gives the value back. */
  lemma RotateRoundTrip(x: Bits, count: nat, countBits: nat)
    requires IsWidth(|x|) && IsWidth(countBits) && count < Power(countBits)
    ensures LowerRotate(false, LowerRotate(true, x, count), count) == x
  {
    var n := Meant(count, countBits, |x|);
    RotateIsRotation(true, x, count, countBits);
    RotateIsRotation(false, RotatedLeft(x, n), count, countBits);
    RightUndoesLeft(x, n);
  }

  /** Rotating twice rotates by the sum of the counts modulo the width. */
  lemma RotationsAdd(x: Bits, m: nat, n: nat, countBits: nat)
    requires IsWidth(|x|) && IsWidth(countBits) && m < Power(countBits) && n < Power(countBits)
    ensures LowerRotate(true, LowerRotate(true, x, m), n)
         == RotatedLeft(x, (Signed(m, countBits) + Signed(n, countBits)) % |x|)
  {
    var p, q := Meant(m, countBits, |x|), Meant(n, countBits, |x|);
    RotateIsRotation(true, x, m, countBits);
    RotateIsRotation(true, RotatedLeft(x, p), n, countBits);
    SumRotates(x, p, q, Signed(m, countBits), Signed(n, countBits));
  }

  lemma SumRotates(x: Bits, p: nat, q: nat, a: int, b: int)
    requires |x| > 0 && p == a % |x| && q == b % |x|
    ensures RotatedLeft(RotatedLeft(x, p), q) == RotatedLeft(x, (a + b) % |x|)
  {
    SumOfRemainders(a, b, |x|);
    LeftAfterLeft(x, p, q);
  }
}
