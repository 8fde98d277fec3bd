/** What base16 text says about the draws it was written from. */
module RandomHex {
  import opened Positional
  import opened RandomText

  /** The value of a lower-case hexadecimal digit. */
  function HexValue(c: char): int {
    if '0' <= c <= '9' then c as int - '0' as int else c as int - 'a' as int + 10
  }

  lemma HexCharTellsDigit(d: nat)
    requires d < 16
    ensures '0' <= HexChar(d) <= '9' || 'a' <= HexChar(d) <= 'f'
    ensures HexValue(HexChar(d)) == d
  {
  }

  /** A text of hexadecimal digits read as a number, the lowest digit first. */
  function HexNumber(t: string): int {
    if t == "" then 0 else HexValue(t[0]) + 16 * HexNumber(t[1..])
  }

  /** The draws as one number, 64 bits of each, the first draw lowest. */
  function Joined(draws: seq<nat>): nat {
    if draws == [] then 0 else draws[0] % TwoTo(64) + TwoTo(64) * Joined(draws[1..])
  }

  lemma MulLess(b: nat, r: nat, q: nat, m: nat)
    requires r < b && q < m
    ensures r + b * q < b * m
  {
    assert b * (m - 1 - q) >= 0;
    assert b * m == b * q + b + b * (m - 1 - q);
  }

  lemma Unique(m: nat, a: nat, b: nat, x: nat, y: nat)
    requires x < m && y < m && m * a + x == m * b + y
    ensures x == y
  {
    if a < b {
      MulLess(m, x, a, b);
    } else if b < a {
      MulLess(m, y, b, a);
    }
  }

  lemma DivMod(x: nat, k: nat)
    requires k > 0
    ensures x == k * (x / k) + x % k && x % k < k
  {
  }

  lemma SplitParts(r: nat, b: nat, q: nat, m: nat, d: nat, e: nat)
    requires q == m * d + e
    ensures r + b * q == (b * m) * d + (r + b * e)
  {
    Spread(b, m, d, e);
  }

  /** The remainder of a number written as a low part and a high part. */
  lemma ModSplit(r: nat, b: nat, q: nat, m: nat)
    requires r < b && m > 0
    ensures b * m > 0 && (r + b * q) % (b * m) == r + b * (q % m)
  {
    DivMod(q, m);
    MulLess(b, r, q % m, m);
    SplitParts(r, b, q, m, q / m, q % m);
    SameRemainder(r + b * q, b * m, q / m, r + b * (q % m));
  }

  lemma SameRemainder(x: nat, k: nat, d: nat, low: nat)
    requires low < k && x == k * d + low
    ensures x % k == low
  {
    DivMod(x, k);
    Unique(k, x / k, d, x % k, low);
  }

  lemma Spread(b: nat, m: nat, k: nat, r: nat)
    ensures b * (m * k + r) == (b * m) * k + b * r
  {
  }

  lemma TwoToAdd(a: nat, b: nat)
    ensures TwoTo(a + b) == TwoTo(a) * TwoTo(b)
  {
    if a > 0 {
      TwoToAdd(a - 1, b);
    }
  }

  lemma Sixteen(k: nat)
    requires k > 0
    ensures TwoTo(4 * k) == 16 * TwoTo(4 * (k - 1))
  {
    DoubledFourTimes(4 * (k - 1));
  }

  lemma DoubledFourTimes(n: nat)
    ensures TwoTo(n + 4) == 16 * TwoTo(n)
  {
    assert TwoTo(n + 2) == 2 * TwoTo(n + 1) == 4 * TwoTo(n);
    assert TwoTo(n + 4) == 2 * TwoTo(n + 3) == 4 * TwoTo(n + 2);
  }

  lemma {:induction false} HexDigitsReadBack(v: nat, k: nat)
    ensures HexNumber(HexDigits(v, k)) == v % TwoTo(4 * k)
    decreases k
  {
    hide HexChar, HexValue, TwoTo;
    if k > 0 {
      HexDigitsReadBack(v / 16, k - 1);
      HexCharTellsDigit(v % 16);
      Sixteen(k);
      FirstHex(v, k);
      assert HexDigits(v, k)[1..] == HexDigits(v / 16, k - 1);
      ModSplit(v % 16, 16, v / 16, TwoTo(4 * (k - 1)));
    } else {
      NoBits();
    }
  }

  lemma NoBits()
    ensures TwoTo(4 * 0) == 1
  {
  }

  lemma {:induction false} HexNumberOfBoth(a: string, b: string)
    ensures HexNumber(a + b) == HexNumber(a) + TwoTo(4 * |a|) * HexNumber(b)
  {
    hide HexValue, TwoTo;
    if a == "" {
      NoBits();
      assert a + b == b;
    } else {
      HexNumberOfBoth(a[1..], b);
      assert (a + b)[1..] == a[1..] + b;
      Sixteen(|a|);
      Spread16(TwoTo(4 * |a[1..]|), HexNumber(b));
    }
  }

  lemma Spread16(p: nat, x: int)
    ensures 16 * (p * x) == 16 * p * x
  {
  }

  /** Read as a number, n digits of base16 text are the low 4n bits of the draws. */
  lemma {:induction false} HexTextReadsBack(n: nat, draws: seq<nat>)
    requires n <= 16 * |draws|
    ensures HexNumber(HexText(n, draws)) == Joined(draws) % TwoTo(4 * n)
    decreases n
  {
    hide HexDigits, HexNumber, TwoTo;
    if n == 0 {
      NoText();
      NoBits();
    } else {
      var low, rest := draws[0] % TwoTo(64), Joined(draws[1..]);
      if n <= 16 {
        HexDigitsReadBack(draws[0], n);
        LowBits(draws[0], rest, n);
      } else {
        HexDigitsReadBack(draws[0], 16);
        HexTextReadsBack(n - 16, draws[1..]);
        HexNumberOfBoth(HexDigits(draws[0], 16), HexText(n - 16, draws[1..]));
        TwoToAdd(64, 4 * (n - 16));
        ModSplit(low, TwoTo(64), rest, TwoTo(4 * (n - 16)));
      }
    }
  }

  lemma NoText()
    ensures HexNumber("") == 0
  {
  }

  /** The low bits of the first draw are the low bits of all. */
  lemma LowBits(v: nat, rest: nat, n: nat)
    requires n <= 16
    ensures (v % TwoTo(64) + TwoTo(64) * rest) % TwoTo(4 * n) == v % TwoTo(4 * n)
  {
    hide TwoTo;
    var b, m := TwoTo(4 * n), TwoTo(64 - 4 * n);
    TwoToAdd(4 * n, 64 - 4 * n);
    var low := v % b;
    ModSplit(low, b, v / b, m);
    var x := low + b * (v / b % m) + b * m * rest;
    assert v == low + b * (v / b);
    Spread(b, m, rest, v / b % m);
    ModSplit(low, b, m * rest + v / b % m, 1);
  }
}
