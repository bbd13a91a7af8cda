/** Number ranges of the machine, and the little arithmetic that more than one model needs. */
module MachineWords {

  /** One past the greatest `std::size_t` and `std::uint64_t`. */
  const WORD: nat := 0x1_0000_0000_0000_0000
  type U64 = n: nat | n < WORD
  type U16 = n: nat | n < 0x1_0000

  function Min(a: nat, b: nat): nat { if a <= b then a else b }

  function Max(a: nat, b: nat): nat { if a < b then b else a }

  /** A multiple of `m` other than zero is at least as far from zero as `m`. */
  lemma Multiple(d: int, m: int)
    requires m >= 0
    ensures d >= 1 ==> d * m >= m
    ensures d <= -1 ==> d * m <= -m
  {
    if d >= 1 {
      assert d * m == (d - 1) * m + m;
    } else if d <= -1 {
      assert d * m == (d + 1) * m - m;
    }
  }
}
