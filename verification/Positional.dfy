/** Numbers as digit sequences, most significant digit first. */
module Positional {
  /** The radixes used here, each a power of two. */
  predicate Radix(bits: nat) {
    bits == 5 || bits == 6 || bits == 8
  }

  function TwoTo(k: nat): (p: nat)
    ensures p > 0
  {
    if k == 0 then 1 else 2 * TwoTo(k - 1)
  }

  function RadixOf(bits: nat): (b: nat)
    requires Radix(bits)
    ensures b > 0
  {
    if bits == 5 then 32 else if bits == 6 then 64 else 256
  }

  predicate Digits(s: seq<nat>, bits: nat)
    requires Radix(bits)
  {
    forall i :: 0 <= i < |s| ==> s[i] < RadixOf(bits)
  }

  function Value(s: seq<nat>, bits: nat): nat
    requires Radix(bits)
  {
    if s == [] then 0 else Value(s[..|s| - 1], bits) * RadixOf(bits) + s[|s| - 1]
  }

  function DigitsOf(n: nat, bits: nat, k: nat): (s: seq<nat>)
    requires Radix(bits)
    ensures |s| == k && Digits(s, bits)
    decreases k
  {
    if k == 0 then [] else DigitsOf(n / RadixOf(bits), bits, k - 1) + [n % RadixOf(bits)]
  }

  lemma {:induction false} DigitsOfValue(s: seq<nat>, bits: nat)
    requires Radix(bits) && Digits(s, bits)
    ensures DigitsOf(Value(s, bits), bits, |s|) == s
  {
    if s != [] {
      DigitsOfValue(s[..|s| - 1], bits);
    }
  }

  /** A radix of some bits grows by that many powers of two a digit. */
  lemma {:induction false} TwoToRadix(bits: nat, k: nat)
    requires Radix(bits)
    ensures TwoTo(k + bits) == TwoTo(k) * RadixOf(bits)
  {
    assert TwoTo(k + 5) == 2 * TwoTo(k + 4) == 4 * TwoTo(k + 3) == 8 * TwoTo(k + 2);
    assert 8 * TwoTo(k + 2) == 16 * TwoTo(k + 1) == 32 * TwoTo(k);
    assert bits >= 6 ==> TwoTo(k + 6) == 2 * TwoTo(k + 5);
    assert bits >= 8 ==> TwoTo(k + 8) == 2 * TwoTo(k + 7) == 4 * TwoTo(k + 6);
  }

  lemma RadixIsPower(bits: nat)
    requires Radix(bits)
    ensures TwoTo(bits) == RadixOf(bits)
  {
    TwoToRadix(bits, 0);
  }

  lemma {:induction false} ValueBound(s: seq<nat>, bits: nat)
    requires Radix(bits) && Digits(s, bits)
    ensures Value(s, bits) < TwoTo(bits * |s|)
  {
    if s != [] {
      ValueBound(s[..|s| - 1], bits);
      TwoToRadix(bits, bits * (|s| - 1));
      assert bits * |s| == bits * (|s| - 1) + bits;
    }
  }

  lemma DropDigit(n: nat, a: nat, bits: nat)
    requires Radix(bits) && n < a * RadixOf(bits)
    ensures n / RadixOf(bits) < a
    ensures n / RadixOf(bits) * RadixOf(bits) + n % RadixOf(bits) == n
  {
  }

  lemma {:induction false} ValueOfDigits(n: nat, bits: nat, k: nat)
    requires Radix(bits) && n < TwoTo(bits * k)
    ensures Value(DigitsOf(n, bits, k), bits) == n
    decreases k
  {
    if k > 0 {
      assert bits * k == bits * (k - 1) + bits;
      hide RadixOf, TwoTo;
      TwoToRadix(bits, bits * (k - 1));
      DropDigit(n, TwoTo(bits * (k - 1)), bits);
      ValueOfDigits(n / RadixOf(bits), bits, k - 1);
      assert DigitsOf(n, bits, k)[..k - 1] == DigitsOf(n / RadixOf(bits), bits, k - 1);
    }
  }

  // ----- shifts

  function Shr(n: nat, k: nat): nat
    decreases k
  {
    if k == 0 then n else Shr(n / 2, k - 1)
  }

  function Shl(n: nat, k: nat): nat
    decreases k
  {
    if k == 0 then n else 2 * Shl(n, k - 1)
  }

  /** The last k bits are zero. */
  predicate LowZero(n: nat, k: nat)
    decreases k
  {
    k == 0 || (n % 2 == 0 && LowZero(n / 2, k - 1))
  }

  lemma {:induction false} ShlTwice(n: nat, k: nat)
    ensures Shl(2 * n, k) == 2 * Shl(n, k)
    decreases k
  {
    if k > 0 {
      ShlTwice(n, k - 1);
    }
  }

  lemma {:induction false} ShiftBack(n: nat, k: nat)
    requires LowZero(n, k)
    ensures Shl(Shr(n, k), k) == n
    decreases k
  {
    if k > 0 {
      ShiftBack(n / 2, k - 1);
    }
  }

  lemma {:induction false} ShiftedIsLowZero(n: nat, k: nat)
    ensures LowZero(Shl(n, k), k)
    decreases k
  {
    if k > 0 {
      ShiftedIsLowZero(n, k - 1);
    }
  }

  lemma {:induction false} ShrBound(n: nat, a: nat, k: nat)
    requires n < TwoTo(a + k)
    ensures Shr(n, k) < TwoTo(a)
    decreases k
  {
    if k > 0 {
      ShrBound(n / 2, a, k - 1);
    }
  }

  lemma {:induction false} ClearedIsSmaller(n: nat, k: nat)
    ensures Shl(Shr(n, k), k) <= n
    decreases k
  {
    if k > 0 {
      ClearedIsSmaller(n / 2, k - 1);
    }
  }

  lemma {:induction false} LowZeroSum(a: nat, r: nat, low: nat, k: nat)
    requires k <= r && LowZero(low, k)
    ensures LowZero(a * TwoTo(r) + low, k)
    decreases k
  {
    if k > 0 {
      assert a * TwoTo(r) == 2 * (a * TwoTo(r - 1));
      LowZeroSum(a, r - 1, low / 2, k - 1);
    }
  }

  /**
   * Regrouping bits: digits of one radix whose value ends in `pad` zero bits are the digits of the
   * bytes of that value, shifted down by the padding.
   */
  lemma Regrouped(digits: seq<nat>, bits: nat, bytes: nat, pad: nat)
    requires Radix(bits) && Digits(digits, bits)
    requires bits * |digits| == 8 * bytes + pad && LowZero(Value(digits, bits), pad)
    ensures var b := DigitsOf(Shr(Value(digits, bits), pad), 8, bytes);
            DigitsOf(Shl(Value(b, 8), pad), bits, |digits|) == digits
  {
    var n := Value(digits, bits);
    ValueBound(digits, bits);
    ShrBound(n, 8 * bytes, pad);
    ShiftBack(n, pad);
    ValueOfDigits(Shr(n, pad), 8, bytes);
    DigitsOfValue(digits, bits);
  }
}
