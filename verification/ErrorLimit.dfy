/** `-ferror-limit=N` (src/driver/cli.cc): a decimal read in 64 bits with an incomplete overflow test. */
module ErrorLimit {
  import opened MachineWords

  const MAX_DIAGNOSTICS: nat := 1024

  datatype Limit = Refused | Limit(count: U64)

  predicate IsDigit(c: char) { '0' <= c <= '9' }

  predicate AllDigits(text: string) {
    forall c <- text :: IsDigit(c)
  }

  function DigitOf(c: char): nat
    requires IsDigit(c)
  {
    (c - '0') as nat
  }

  /** The number a digit string writes, of any length. */
  function Decimal(text: string): nat
    requires AllDigits(text)
  {
    if text == "" then 0 else Decimal(text[..|text| - 1]) * 10 + DigitOf(text[|text| - 1])
  }

  /** The limit a number asks for: none and more than there is room for both mean all of them. */
  function Clamped(n: nat): U64 {
    if n == 0 || n > MAX_DIAGNOSTICS then MAX_DIAGNOSTICS else n
  }

  /** What a digit does to the accumulator. */
  function Shifted(value: U64, digit: nat): U64 {
    (value * 10 + digit) % WORD
  }

  /** The accumulator is the number, or the number does not fit and the accumulator stays far above every limit. */
  predicate Tracks(value: U64, n: nat) {
    value == n || (n >= WORD && value >= WORD / 10 - 1)
  }

  lemma {:induction false} PrefixIsSmaller(text: string, i: nat)
    requires AllDigits(text) && i <= |text|
    ensures AllDigits(text[..i]) && Decimal(text[..i]) <= Decimal(text)
  {
    if i < |text| {
      assert text[..|text| - 1][..i] == text[..i];
      PrefixIsSmaller(text[..|text| - 1], i);
    } else {
      assert text[..i] == text;
    }
  }

  /** What the first `i` digits leave in 64 bits. */
  function Residue(text: string, i: nat): U64
    requires AllDigits(text) && i <= |text|
  {
    Decimal(text[..i]) % WORD
  }

  /** The accumulator never goes down: the digits read so far, modulo 2^64, never do. */
  ghost predicate NeverFalls(text: string)
    requires AllDigits(text)
  {
    forall i :: 0 <= i < |text| ==> Residue(text, i) <= Residue(text, i + 1)
  }

  lemma PrefixFits(text: string, i: nat)
    requires AllDigits(text) && Decimal(text) < WORD && i <= |text|
    ensures Residue(text, i) == Decimal(text[..i])
  {
    PrefixIsSmaller(text, i);
  }

  lemma OneStepRises(text: string, i: nat)
    requires AllDigits(text) && Decimal(text) < WORD && i < |text|
    ensures Residue(text, i) <= Residue(text, i + 1)
  {
    PrefixFits(text, i);
    PrefixFits(text, i + 1);
    PrefixIsSmaller(text[..i + 1], i);
    assert text[..i + 1][..i] == text[..i];
  }

  /** Below 2^64 nothing wraps. */
  lemma FitsNeverFalls(text: string)
    requires AllDigits(text) && Decimal(text) < WORD
    ensures NeverFalls(text)
  {
    forall i | 0 <= i < |text|
      ensures Residue(text, i) <= Residue(text, i + 1)
    {
      OneStepRises(text, i);
    }
  }

  /** The accumulator is the number modulo 2^64. */
  lemma ShiftedIsRemainder(text: string, i: nat, value: U64)
    requires i < |text| && AllDigits(text[..i]) && IsDigit(text[i]) && value == Decimal(text[..i]) % WORD
    ensures AllDigits(text[..i + 1]) && Decimal(text[..i + 1]) == Decimal(text[..i]) * 10 + DigitOf(text[i])
    ensures Decimal(text[..i + 1]) % WORD == Shifted(value, DigitOf(text[i]))
  {
    assert text[..i + 1][..i] == text[..i];
    WrapsAlike(Decimal(text[..i]), DigitOf(text[i]));
  }

  lemma WrapsAlike(n: nat, digit: nat)
    ensures (n * 10 + digit) % WORD == (n % WORD * 10 + digit) % WORD
  {
    var low, high := n % WORD, n / WORD;
    assert n * 10 + digit == low * 10 + digit + high * 10 * WORD;
  }

  /**
   * `parseErrorLimit`. Whatever it accepts is exactly the limit the whole number asks for, however long;
   * it refuses no digit string whose number fits in 64 bits, and accepts a longer one exactly when
   * what its digits leave modulo 2^64 never falls.
   */
  method ParseErrorLimit(text: string) returns (limit: Limit)
    ensures limit.Limit? ==> text != "" && AllDigits(text) && limit.count == Clamped(Decimal(text))
    ensures limit.Limit? && 1 <= Decimal(text) <= 1024 ==> limit.count == Decimal(text)
    ensures limit.Limit? && (Decimal(text) == 0 || Decimal(text) > 1024) ==> limit.count == 1024
    ensures text != "" && AllDigits(text) && Decimal(text) < 0x1_0000_0000_0000_0000 ==> limit.Limit?
    ensures limit.Limit? <==> text != "" && AllDigits(text) && NeverFalls(text)
  {
    if text == "" {
      return Refused;
    }
    var value: U64 := 0;
    for i := 0 to |text|
      invariant AllDigits(text[..i]) && Tracks(value, Decimal(text[..i])) && value == Decimal(text[..i]) % WORD
      invariant AllDigits(text) ==> forall k :: 0 <= k < i ==> Residue(text, k) <= Residue(text, k + 1)
    {
      var letter := text[i];
      if letter < '0' || letter > '9' {
        assert letter in text && !IsDigit(letter);
        return Refused;
      }
      ShiftedIsRemainder(text, i, value);
      var previous := value;
      value := Shifted(value, DigitOf(letter));
      if value < previous {
        if AllDigits(text) {
          assert Residue(text, i) == previous && Residue(text, i + 1) == value;
          if Decimal(text) < WORD {
            FitsNeverFalls(text);
          }
        }
        return Refused;
      }
    }
    assert text[..|text|] == text;
    limit := Limit(Clamped(value));
  }

  /**
   * The overflow test passes a step that wraps exactly when nine times the accumulator and the digit
   * make up for what the wrap took.
   */
  lemma WrapPassesExactlyWhen(value: U64, digit: nat)
    requires digit <= 9
    ensures var total := value * 10 + digit;
            total >= WORD && Shifted(value, digit) >= value <==>
            total / WORD >= 1 && 9 * value + digit >= total / WORD * WORD
  {
    var total := value * 10 + digit;
    assert total == total / WORD * WORD + total % WORD;
  }

  lemma OneMoreDigit(text: string, c: char)
    requires AllDigits(text) && IsDigit(c)
    ensures AllDigits(text + [c]) && Decimal(text + [c]) == Decimal(text) * 10 + DigitOf(c)
  {
    assert (text + [c])[..|text|] == text;
  }

  /** The first digit that no longer fits is accepted exactly when the step of the accumulator passes. */
  lemma LastDigitDecides(front: string, c: char)
    requires AllDigits(front) && Decimal(front) < WORD && IsDigit(c)
    ensures AllDigits(front + [c])
    ensures NeverFalls(front + [c]) <==> Shifted(Decimal(front), DigitOf(c)) >= Decimal(front)
  {
    var text, n := front + [c], |front|;
    OneMoreDigit(front, c);
    FitsNeverFalls(front);
    assert text[..n] == front && text[..n + 1] == text;
    forall i | 0 <= i <= n
      ensures Residue(text, i) == Residue(front, i)
    {
      assert text[..i] == front[..i];
    }
    assert Residue(text, n) == Decimal(front) && Residue(text, n + 1) == Shifted(Decimal(front), DigitOf(c));
    if Residue(text, n) <= Residue(text, n + 1) {
      forall i | 0 <= i <= n
        ensures Residue(text, i) <= Residue(text, i + 1)
      {
        assert i < n ==> Residue(front, i) <= Residue(front, i + 1);
      }
    }
  }

  function Zeros(n: nat): string { if n == 0 then "" else Zeros(n - 1) + "0" }

  /** `m` and `n` zeros behind it. */
  function Scaled(m: nat, n: nat): nat { if n == 0 then m else Scaled(m, n - 1) * 10 }

  lemma {:induction false} ZerosScale(text: string, n: nat)
    requires AllDigits(text)
    ensures AllDigits(text + Zeros(n)) && Decimal(text + Zeros(n)) == Scaled(Decimal(text), n)
  {
    if n == 0 {
      assert text + "" == text;
    } else {
      ZerosScale(text, n - 1);
      OneMoreDigit(text + Zeros(n - 1), '0');
      assert text + Zeros(n - 1) + "0" == text + Zeros(n);
    }
  }

  lemma ThreeScaled()
    ensures Scaled(3, 18) == 3_000_000_000_000_000_000
  {
    assert Scaled(3, 4) == 30_000;
    assert Scaled(3, 8) == 300_000_000;
    assert Scaled(3, 12) == 3_000_000_000_000;
    assert Scaled(3, 16) == 30_000_000_000_000_000;
  }

  /** A digit counts for its place among the ten. */
  lemma DigitsInOrder(i: nat)
    requires i < 10
    ensures AllDigits(["0123456789"[i]]) && Decimal(["0123456789"[i]]) == i
  {
    assert ["0123456789"[i]] == "" + ["0123456789"[i]];
    OneMoreDigit("", "0123456789"[i]);
  }

  /** Digits behind a number move it up by as many places. */
  lemma {:induction false} Places(front: string, back: string)
    requires AllDigits(front) && AllDigits(back)
    ensures AllDigits(front + back) && Decimal(front + back) == Scaled(Decimal(front), |back|) + Decimal(back)
  {
    if back == "" {
      assert front + back == front;
    } else {
      var n := |back| - 1;
      assert back == back[..n] + [back[n]] && front + back == front + back[..n] + [back[n]];
      Places(front, back[..n]);
      OneMoreDigit(front + back[..n], back[n]);
    }
  }

  /** Such a step is reached: a three and nineteen zeros do not fit, wrap at the last digit, and are accepted. */
  lemma AWrapIsMissed()
    ensures var text := "3" + Zeros(19); AllDigits(text) && Decimal(text) >= WORD && NeverFalls(text)
  {
    var front := "3" + Zeros(18);
    assert "3"[..0] == "" && Decimal("3") == 3;
    ZerosScale("3", 18);
    ThreeScaled();
    LastDigitDecides(front, '0');
    OneMoreDigit(front, '0');
    WrapPassesExactlyWhen(Decimal(front), 0);
    assert "3" + Zeros(19) == front + "0";
  }
}
