/** Decimal text: what snprintf prints for %u and %0nu, and what strtol reads back. */
module Decimal {
  function DigitChar(k: int): char
    requires 0 <= k < 10
  {
    "0123456789"[k]
  }

  predicate IsDigit(c: char) {
    '0' <= c <= '9'
  }

  function DigitValue(c: char): int {
    c as int - '0' as int
  }

  predicate AllDigits(s: string) {
    forall i :: 0 <= i < |s| ==> IsDigit(s[i])
  }

  /** %u */
  function Dec(n: nat): (s: string)
    ensures s != "" && AllDigits(s) && |s| <= n + 1
  {
    if n < 10 then [DigitChar(n)] else Dec(n / 10) + [DigitChar(n % 10)]
  }

  function Zeros(k: nat): (z: string)
    ensures |z| == k && AllDigits(z)
  {
    if k == 0 then "" else "0" + Zeros(k - 1)
  }

  /** How many characters of padding a number needs to reach a width. */
  function Missing(n: nat, width: nat): nat {
    if |Dec(n)| < width then width - |Dec(n)| else 0
  }

  /** %0{width}u */
  function PadDec(n: nat, width: nat): (s: string)
    ensures s != "" && AllDigits(s)
  {
    Zeros(Missing(n, width)) + Dec(n)
  }

  function NumberOf(digits: string): int {
    if digits == "" then 0
    else NumberOf(digits[..|digits| - 1]) * 10 + DigitValue(digits[|digits| - 1])
  }

  lemma {:induction false} NumberOfDec(n: nat)
    ensures NumberOf(Dec(n)) == n
  {
    if n >= 10 {
      NumberOfDec(n / 10);
      assert Dec(n)[..|Dec(n)| - 1] == Dec(n / 10);
    }
  }

  lemma {:induction false} ZerosAreZero(k: nat)
    ensures NumberOf(Zeros(k)) == 0
  {
    if k > 0 {
      ZerosEnd(k);
      assert Zeros(k)[..k - 1] == Zeros(k - 1);
      ZerosAreZero(k - 1);
    }
  }

  lemma {:induction false} NumberOfZeros(k: nat, s: string)
    ensures NumberOf(Zeros(k) + s) == NumberOf(s)
  {
    var z := Zeros(k);
    if s == "" {
      ZerosAreZero(k);
      assert z + s == z;
    } else {
      assert (z + s)[..|z + s| - 1] == z + s[..|s| - 1];
      NumberOfZeros(k, s[..|s| - 1]);
    }
  }

  lemma {:induction false} ZerosEnd(k: nat)
    requires 0 < k
    ensures Zeros(k) == Zeros(k - 1) + "0"
  {
    if k > 1 {
      ZerosEnd(k - 1);
    }
  }

  /** Printed numbers read back, whatever the padding. */
  lemma NumberOfPadDec(n: nat, width: nat)
    ensures NumberOf(PadDec(n, width)) == n
  {
    NumberOfDec(n);
    NumberOfZeros(Missing(n, width), Dec(n));
  }

  lemma TwoDigits(n: nat)
    requires n < 100
    ensures |PadDec(n, 2)| == 2
    ensures |Dec(n)| == if n < 10 then 1 else 2
  {
  }

  lemma FourDigits(n: nat)
    requires 1000 <= n < 10000
    ensures |Dec(n)| == 4 && PadDec(n, 4) == Dec(n)
  {
    assert |Dec(n / 10 / 10 / 10)| == 1;
    assert |Dec(n / 10 / 10)| == 2;
    assert |Dec(n / 10)| == 3;
    assert Zeros(0) + Dec(n) == Dec(n);
  }

  lemma FourWide(n: nat)
    requires n < 10000
    ensures |PadDec(n, 4)| == 4
  {
    assert n >= 10 ==> |Dec(n)| == |Dec(n / 10)| + 1;
    assert n >= 100 ==> |Dec(n / 10)| == |Dec(n / 100)| + 1 by { assert n / 10 / 10 == n / 100; }
    assert n >= 1000 ==> |Dec(n / 100)| == |Dec(n / 1000)| + 1 by { assert n / 100 / 10 == n / 1000; }
  }

  /** How long a number below ten to some power is, and how long one above it. */
  lemma {:induction false} DecLength(n: nat, k: nat)
    requires k > 0
    ensures |Dec(n)| <= k <==> n < PowerOfTen(k)
    decreases k
  {
    if k == 1 {
      assert PowerOfTen(1) == 10 * PowerOfTen(0);
      assert n >= 10 ==> |Dec(n)| == |Dec(n / 10)| + 1;
    } else {
      DecLength(n / 10, k - 1);
      PowersGrow(0, k - 1);
      assert n >= 10 ==> |Dec(n)| == |Dec(n / 10)| + 1;
    }
  }

  // ----- strtol in base 10

  predicate IsSpace(c: char) {
    c == ' ' || c == '\t' || c == '\n' || c == '\r' || c == 11 as char || c == 12 as char
  }

  function SkipSpaces(s: string): string {
    if s != "" && IsSpace(s[0]) then SkipSpaces(s[1..]) else s
  }

  function DigitRun(s: string): (n: nat)
    ensures n <= |s|
    ensures AllDigits(s) ==> n == |s|
  {
    if s != "" && IsDigit(s[0]) then 1 + DigitRun(s[1..]) else 0
  }

  /** The value of parse_num, stored even on failure, and whether the whole text was a number. */
  function ParseNum(s: string): (r: (bool, int)) {
    var t := SkipSpaces(s);
    var negative := t != "" && t[0] == '-';
    var digits := if t != "" && (t[0] == '-' || t[0] == '+') then t[1..] else t;
    var run := DigitRun(digits);
    var magnitude := NumberOf(digits[..run]);
    (if run == 0 then s == "" else run == |digits|, if negative then -magnitude else magnitude)
  }

  lemma ParseNumOfDigits(s: string)
    requires s != "" && AllDigits(s)
    ensures ParseNum(s) == (true, NumberOf(s))
  {
    assert IsDigit(s[0]);
    assert SkipSpaces(s) == s;
    assert s[..|s|] == s;
  }

  lemma DigitRunIsDigits(s: string)
    ensures AllDigits(s[..DigitRun(s)])
  {
    if s != "" && IsDigit(s[0]) {
      DigitRunIsDigits(s[1..]);
      assert s[..DigitRun(s)][1..] == s[1..][..DigitRun(s[1..])];
    }
  }

  function PowerOfTen(k: nat): nat {
    if k == 0 then 1 else 10 * PowerOfTen(k - 1)
  }

  lemma {:induction false} NumberBound(digits: string)
    requires AllDigits(digits)
    ensures 0 <= NumberOf(digits) < PowerOfTen(|digits|)
  {
    if digits != "" {
      NumberBound(digits[..|digits| - 1]);
    }
  }

  lemma {:induction false} PowersGrow(j: nat, k: nat)
    requires j <= k
    ensures 0 < PowerOfTen(j) <= PowerOfTen(k)
    decreases k
  {
    if j < k {
      PowersGrow(j, k - 1);
    } else if k > 0 {
      PowersGrow(k - 1, k - 1);
    }
  }

  /** What a text of a few characters can stand for: a minus sign takes the place of a digit. */
  lemma ParseNumBound(s: string, k: nat)
    requires |s| <= k && 0 < k
    ensures -(PowerOfTen(k - 1) as int) < ParseNum(s).1 < PowerOfTen(k)
  {
    var t := SkipSpaces(s);
    SkipSpacesShortens(s);
    var signed := t != "" && (t[0] == '-' || t[0] == '+');
    var digits := if signed then t[1..] else t;
    var run := DigitRun(digits);
    DigitRunIsDigits(digits);
    NumberBound(digits[..run]);
    PowersGrow(run, if signed then k - 1 else k);
    PowersGrow(0, k - 1);
  }

  lemma SkipSpacesShortens(s: string)
    ensures |SkipSpaces(s)| <= |s|
  {
  }

  lemma {:induction false} SpacesSkipped(spaces: string, t: string)
    requires forall i :: 0 <= i < |spaces| ==> IsSpace(spaces[i])
    ensures SkipSpaces(spaces + t) == SkipSpaces(t)
  {
    if spaces == "" {
      assert spaces + t == t;
    } else {
      assert (spaces + t)[1..] == spaces[1..] + t;
      SpacesSkipped(spaces[1..], t);
    }
  }

  /** strtol skips spaces, takes a sign, and then wants digits to the end. */
  lemma ParseNumForms(spaces: string, sign: string, digits: string)
    requires forall i :: 0 <= i < |spaces| ==>
               spaces[i] == ' ' || spaces[i] == '\t' || spaces[i] == '\n' || spaces[i] == '\r'
               || spaces[i] as int == 11 || spaces[i] as int == 12
    requires sign == "" || sign == "+" || sign == "-"
    requires digits != "" && AllDigits(digits)
    ensures ParseNum(spaces + sign + digits)
         == (true, if sign == "-" then -NumberOf(digits) else NumberOf(digits))
  {
    hide NumberOf;
    var t := sign + digits;
    assert spaces + sign + digits == spaces + t;
    SpacesSkipped(spaces, t);
    assert IsDigit(digits[0]) && !IsSpace(t[0]);
    assert SkipSpaces(t) == t;
    if sign != "" {
      assert t[1..] == digits;
    } else {
      assert t == digits;
    }
    assert digits[..|digits|] == digits;
  }
}
