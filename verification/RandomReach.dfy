/** Which encodings the random text generators can produce, over all draws. */
module RandomReach {
  import opened Positional
  import opened RandomText

  /** The width of a draw: pool_rand64 for base32, pool_rand32 for base64. */
  function DrawBits(s: Scheme): nat {
    if s == BASE32 then 64 else 32
  }

  predicate IsDraw(s: Scheme, v: nat) {
    v < TwoTo(DrawBits(s))
  }

  ghost predicate AreDraws(s: Scheme, count: nat, draws: seq<nat>)
    requires Known(s)
  {
    |draws| == Groups(s, count) && forall i :: 0 <= i < |draws| ==> IsDraw(s, draws[i])
  }

  ghost predicate Produced(s: Scheme, b: seq<nat>)
    requires Known(s) && Digits(b, 8)
  {
    exists draws :: AreDraws(s, |b|, draws) && Text(s, |b|, draws) == Encode(s, b)
  }

  // ----- draws for given digits

  /** The number with the given digits, the lowest first. */
  function LowValue(d: seq<nat>, bits: nat): nat
    requires Radix(bits)
  {
    if d == [] then 0 else d[0] + RadixOf(bits) * LowValue(d[1..], bits)
  }

  lemma ShrIsQuotient(n: nat, bits: nat)
    requires bits == 5 || bits == 6
    ensures Shr(n, bits) == n / RadixOf(bits)
  {
    assert Shr(n, 5) == Shr(n / 2, 4) == Shr(n / 2 / 2, 3) == n / 2 / 2 / 2 / 2 / 2;
    assert Shr(n, 6) == Shr(n / 2, 5) == Shr(n / 2 / 2, 4) == n / 2 / 2 / 2 / 2 / 2 / 2;
  }

  lemma DropLow(d: seq<nat>, bits: nat)
    requires bits == 5 || bits == 6
    requires d != [] && Digits(d, bits)
    ensures LowValue(d, bits) % RadixOf(bits) == d[0]
    ensures Shr(LowValue(d, bits), bits) == LowValue(d[1..], bits)
  {
    ShrIsQuotient(LowValue(d, bits), bits);
    var x, y := d[0], LowValue(d[1..], bits);
    if bits == 5 {
      Bottom32(y, x);
    } else {
      Bottom(y, x, 64 * y + x);
    }
  }

  lemma Bottom32(q: nat, r: nat)
    requires r < 32
    ensures (r + 32 * q) / 32 == q && (r + 32 * q) % 32 == r
  {
  }

  lemma {:induction false} LowValueBound(d: seq<nat>, bits: nat)
    requires Radix(bits) && Digits(d, bits)
    ensures LowValue(d, bits) < TwoTo(bits * |d|)
  {
    if d != [] {
      LowValueBound(d[1..], bits);
      TwoToRadix(bits, bits * (|d| - 1));
      assert bits * |d| == bits * (|d| - 1) + bits;
    }
  }

  lemma {:induction false} TwoToGrows(j: nat, k: nat)
    requires j <= k
    ensures TwoTo(j) <= TwoTo(k)
    decreases k
  {
    if j < k {
      TwoToGrows(j, k - 1);
    }
  }

  /** Reading the low digits of that number gives them back, one after another. */
  lemma {:induction false} LowDigitsOfValue(d: seq<nat>, bits: nat, k: nat)
    requires bits == 5 || bits == 6
    requires Digits(d, bits) && k <= |d|
    ensures LowDigits(LowValue(d, bits), bits, bits, k) == d[..k]
    ensures k < |d| ==> Moved(LowValue(d, bits), bits, k) % RadixOf(bits) == d[k]
    decreases k
  {
    hide LowValue, Shr, RadixOf;
    if k > 0 {
      DropLow(d, bits);
      LowDigitsOfValue(d[1..], bits, k - 1);
      assert d[..k] == [d[0]] + d[1..][..k - 1];
    } else if d != [] {
      DropLow(d, bits);
    }
  }

  // ----- the digits of given bytes

  function BytesDigits(s: Scheme, b: seq<nat>): (d: seq<nat>)
    requires Known(s) && 0 < |b| <= s.groupBytes && Digits(b, 8)
    ensures |d| == CharsFor(s, |b|) && Digits(d, s.bits)
  {
    DigitsOf(Shl(Value(b, 8), PadBits(s, |b|)), s.bits, CharsFor(s, |b|))
  }

  lemma {:induction false} LowZeroPart(a: nat, r: nat, low: nat, k: nat)
    requires k <= r && LowZero(a * TwoTo(r) + low, k)
    ensures LowZero(low, k)
    decreases k
  {
    if k > 0 {
      assert a * TwoTo(r) == 2 * (a * TwoTo(r - 1));
      LowZeroPart(a, r - 1, low / 2, k - 1);
    }
  }

  lemma LastOfDigits(n: nat, bits: nat, k: nat, pad: nat)
    requires Radix(bits) && k > 0 && pad <= bits && LowZero(n, pad)
    ensures LowZero(DigitsOf(n, bits, k)[k - 1], pad)
  {
    hide LowZero, RadixOf, TwoTo;
    RadixIsPower(bits);
    var r := RadixOf(bits);
    assert n == n / r * r + n % r;
    LowZeroPart(n / r, bits, n % r, pad);
  }

  lemma LastDigitLowZero(s: Scheme, b: seq<nat>)
    requires Known(s) && 0 < |b| <= s.groupBytes && Digits(b, 8)
    ensures var d := BytesDigits(s, b);
            d != [] && LowZero(d[|d| - 1], PadBits(s, |b|))
  {
    hide LowZero, Shl, Value, DigitsOf;
    var pad := PadBits(s, |b|);
    ShiftedIsLowZero(Value(b, 8), pad);
    LastOfDigits(Shl(Value(b, 8), pad), s.bits, CharsFor(s, |b|), pad);
  }

  // ----- one group

  /** Full groups, and every base32 group: all digits come from different bits of the draw. */
  lemma DigitsReached(s: Scheme, b: seq<nat>) returns (v: nat)
    requires Known(s) && 0 < |b| <= s.groupBytes && Digits(b, 8)
    requires s == BASE32 || |b| == s.groupBytes
    ensures IsDraw(s, v) && GroupDigits(s, |b|, v) == BytesDigits(s, b)
  {
    hide LowValue, LowDigits, Moved, LowZero, RadixOf, DigitsOf, Value, Shl, Shr, TwoTo;
    var d := BytesDigits(s, b);
    v := LowValue(d, s.bits);
    LowValueBound(d, s.bits);
    TwoToGrows(s.bits * |d|, DrawBits(s));
    DigitCount(s, |b|);
    if |b| == s.groupBytes {
      LowDigitsOfValue(d, s.bits, |d|);
      assert d[..|d|] == d;
    } else {
      var n := |d| - 1;
      LowDigitsOfValue(d, s.bits, n);
      LastDigitLowZero(s, b);
      ShiftBack(d[n], PadBits(s, |b|));
      assert d == d[..n] + [d[n]];
    }
  }

  /** A single last byte in base64: its digits use bits 0 to 5 and 7 to 8 of the draw. */
  lemma OneByteReached(b: seq<nat>) returns (v: nat)
    requires |b| == 1 && Digits(b, 8)
    ensures IsDraw(BASE64, v) && GroupDigits(BASE64, 1, v) == BytesDigits(BASE64, b)
  {
    var x := b[0];
    v := x / 4 + 128 * (x % 4);
    OneByteDigits(b);
    OneByteDraw(x, v);
    TwoToGrows(9, 32);
    assert TwoTo(9) == 512;
  }

  lemma Shr3(n: nat)
    ensures Shr(n, 3) == n / 8
  {
    assert Shr(n, 3) == Shr(n / 2, 2) == Shr(n / 2 / 2, 1) == n / 2 / 2 / 2;
  }

  lemma ClearedFour(x: nat)
    ensures Cleared(x, 4) == x / 16 * 16
  {
    Shr4(x);
    hide Shr, Shl;
    Shl4(x / 16);
  }

  lemma Shr4(x: nat)
    ensures Shr(x, 4) == x / 16
  {
    assert Shr(x, 4) == Shr(x / 2, 3);
    Shr3(x / 2);
    assert x / 2 / 8 == x / 16;
  }

  lemma Shl4(y: nat)
    ensures Shl(y, 4) == 16 * y
  {
    assert Shl(y, 2) == 2 * Shl(y, 1) == 4 * y;
    assert Shl(y, 4) == 2 * Shl(y, 3) == 4 * Shl(y, 2);
  }

  lemma ClearedTwo(x: nat)
    ensures Cleared(x, 2) == x / 4 * 4
  {
    assert Shr(x, 2) == Shr(x / 2, 1) == x / 2 / 2;
    var y := x / 4;
    assert Shl(y, 2) == 2 * Shl(y, 1) == 4 * y;
  }

  lemma OneByteDraw(x: nat, v: nat)
    requires x < 256 && v == x / 4 + 128 * (x % 4)
    ensures GroupDigits(BASE64, 1, v) == [x / 4, x % 4 * 16]
  {
    OneByteArithmetic(x, v);
    OneByteGroup(v);
  }

  lemma OneByteArithmetic(x: nat, v: nat)
    requires x < 256 && v == x / 4 + 128 * (x % 4)
    ensures v % 64 == x / 4 && v / 8 % 64 / 16 == x % 4
  {
    assert v / 8 == x / 32 + 16 * (x % 4);
  }

  /** The digits of a single byte in base64, as the code masks and shifts the draw. */
  lemma OneByteGroup(v: nat)
    ensures GroupDigits(BASE64, 1, v) == [v % 64, v / 8 % 64 / 16 * 16]
  {
    hide Shr, Cleared;
    Shr3(v);
    ClearedFour(v / 8 % 64);
    assert LowDigits(v, 6, 3, 1) == [v % 64] + LowDigits(v / 8, 6, 3, 0);
    assert Moved(v, 3, 1) == Moved(v / 8, 3, 0) == v / 8;
  }

  lemma OneByteDigits(b: seq<nat>)
    requires |b| == 1 && Digits(b, 8)
    ensures BytesDigits(BASE64, b) == [b[0] / 4, b[0] % 4 * 16]
  {
    var x := b[0];
    assert Value(b, 8) == Value(b[..0], 8) * 256 + x == x;
    assert Shl(x, 4) == 2 * Shl(x, 3) == 4 * Shl(x, 2) == 8 * Shl(x, 1) == 16 * x;
    assert DigitsOf(16 * x, 6, 2) == DigitsOf(16 * x / 64, 6, 1) + [16 * x % 64];
    assert DigitsOf(16 * x / 64, 6, 1) == DigitsOf(16 * x / 64 / 64, 6, 0) + [16 * x / 64 % 64];
  }

  /** The digits of a last pair of bytes in base64, as the code masks and shifts the draw. */
  lemma TwoByteGroup(v: nat)
    ensures GroupDigits(BASE64, 2, v) == [v % 64, v / 8 % 64, v / 64 % 64 / 4 * 4]
  {
    hide Shr, Cleared;
    Shr3(v);
    Shr3(v / 8);
    assert v / 8 / 8 == v / 64;
    ClearedTwo(v / 64 % 64);
    assert LowDigits(v / 8, 6, 3, 1) == [v / 8 % 64] + LowDigits(v / 64, 6, 3, 0);
    assert LowDigits(v, 6, 3, 2) == [v % 64] + LowDigits(v / 8, 6, 3, 1);
    assert Moved(v, 3, 2) == Moved(v / 8, 3, 1) == Moved(v / 64, 3, 0) == v / 64;
  }

  lemma TwoByteDigits(b: seq<nat>)
    requires |b| == 2 && Digits(b, 8)
    ensures BytesDigits(BASE64, b) == [b[0] / 4, b[0] % 4 * 16 + b[1] / 16, b[1] % 16 * 4]
  {
    var n := (b[0] * 256 + b[1]) * 4;
    assert Value(b[..1], 8) == Value([], 8) * 256 + b[0] by { assert b[..1][..0] == []; }
    assert Value(b, 8) == Value(b[..1], 8) * 256 + b[1];
    assert Shl(Value(b, 8), 2) == 2 * Shl(Value(b, 8), 1) == n;
    ThreeDigits(n);
    TwoByteArithmetic(b[0], b[1]);
  }

  lemma ThreeDigits(n: nat)
    requires n < 64 * 64 * 64
    ensures DigitsOf(n, 6, 3) == [n / 4096, n / 64 % 64, n % 64]
  {
    assert n / 64 / 64 == n / 4096;
    assert DigitsOf(n / 64 / 64, 6, 1) == DigitsOf(n / 64 / 64 / 64, 6, 0) + [n / 4096 % 64];
    assert DigitsOf(n / 64, 6, 2) == DigitsOf(n / 64 / 64, 6, 1) + [n / 64 % 64];
    assert DigitsOf(n, 6, 3) == DigitsOf(n / 64, 6, 2) + [n % 64];
  }

  lemma TwoByteArithmetic(x: nat, y: nat)
    requires x < 256 && y < 256
    ensures var n := (x * 256 + y) * 4;
            n / 4096 == x / 4 && n / 64 % 64 == x % 4 * 16 + y / 16 && n % 64 == y % 16 * 4
  {
    var n, middle := (x * 256 + y) * 4, x % 4 * 16 + y / 16;
    Bottom(64 * (x / 4) + middle, y % 16 * 4, n);
    Bottom(x / 4, middle, n / 64);
    assert n / 4096 == n / 64 / 64;
  }

  lemma Bottom(q: nat, r: nat, n: nat)
    requires n == 64 * q + r && r < 64
    ensures n / 64 == q && n % 64 == r
  {
  }

  /**
   * The bits in which the overlapping digits of a last pair must agree: the high three bits of the
   * first digit are the low three of the second, whose highest bit is the third bit of the last.
   */
  predicate Overlaps(x: nat, y: nat) {
    y / 16 % 8 == x / 32 && x / 2 % 2 == y % 2
  }

  lemma PairNeedsOverlap(x: nat, y: nat, v: nat)
    requires x < 256 && y < 256
    requires [v % 64, v / 8 % 64, v / 64 % 64 / 4 * 4] == [x / 4, x % 4 * 16 + y / 16, y % 16 * 4]
    ensures Overlaps(x, y)
  {
    OverlapBits(v);
    PairBits(x, y);
    assert v / 64 % 64 / 4 * 4 / 4 == v / 64 % 64 / 4;
  }

  lemma OverlapBits(v: nat)
    ensures v / 8 % 64 % 8 == v % 64 / 8
    ensures v / 8 % 64 / 32 == v / 64 % 64 / 4 % 2
  {
    var r, q := v % 64, v / 64;
    var t, p := q % 8, q / 8;
    var n, m := p % 8, p / 8;
    OverlapParts(m, n, t, r);
    assert v == 4096 * m + 512 * n + 64 * t + r;
    SmallParts(n, t, r);
  }

  lemma OverlapParts(m: nat, n: nat, t: nat, r: nat)
    requires n < 8 && t < 8 && r < 64
    ensures var v := 4096 * m + 512 * n + 64 * t + r;
            v % 64 == r && v / 8 % 64 == 8 * t + r / 8 && v / 64 % 64 == 8 * n + t
  {
    var v := 4096 * m + 512 * n + 64 * t + r;
    Bottom(64 * m + 8 * n + t, r, v);
    Bottom(m, 8 * n + t, v / 64);
    assert v / 8 == 64 * (8 * m + n) + (8 * t + r / 8);
    Bottom(8 * m + n, 8 * t + r / 8, v / 8);
  }

  lemma SmallParts(n: nat, t: nat, r: nat)
    requires n < 8 && t < 8 && r < 64
    ensures (8 * t + r / 8) % 8 == r / 8 && (8 * t + r / 8) / 32 == t / 4 && (8 * n + t) / 4 % 2 == t / 4
  {
  }

  lemma PairBits(x: nat, y: nat)
    requires x < 256 && y < 256
    ensures x / 4 / 8 == x / 32
    ensures (x % 4 * 16 + y / 16) % 8 == y / 16 % 8
    ensures (x % 4 * 16 + y / 16) / 32 == x / 2 % 2
    ensures y % 16 * 4 / 4 % 2 == y % 2
  {
  }

  /** A last pair in base64 whose digits agree where they overlap. */
  lemma PairReached(b: seq<nat>) returns (v: nat)
    requires |b| == 2 && Digits(b, 8) && Overlaps(b[0], b[1])
    ensures IsDraw(BASE64, v) && GroupDigits(BASE64, 2, v) == BytesDigits(BASE64, b)
  {
    hide TwoTo, GroupDigits, BytesDigits, Overlaps;
    v := PairDraw(b[0], b[1]);
    TwoByteGroup(v);
    TwoByteDigits(b);
    TwoToGrows(12, 32);
    TwelveBits();
  }

  lemma PairDraw(x: nat, y: nat) returns (v: nat)
    requires x < 256 && y < 256 && Overlaps(x, y)
    ensures v < 4096
    ensures [v % 64, v / 8 % 64, v / 64 % 64 / 4 * 4] == [x / 4, x % 4 * 16 + y / 16, y % 16 * 4]
  {
    var n, t, r := y % 16 / 2, (x % 4 * 16 + y / 16) / 8, x / 4;
    v := 512 * n + 64 * t + r;
    PairHalves(x, y);
    OverlapParts(0, n, t, r);
  }

  lemma TwelveBits()
    ensures TwoTo(12) == 4096
  {
    assert TwoTo(6) == 64 && TwoTo(12) == 2 * TwoTo(11) == 4 * TwoTo(10) == 8 * TwoTo(9) == 16 * TwoTo(8);
    assert TwoTo(8) == 2 * TwoTo(7) == 4 * TwoTo(6);
  }

  lemma PairHalves(x: nat, y: nat)
    requires x < 256 && y < 256 && Overlaps(x, y)
    ensures var d1 := x % 4 * 16 + y / 16;
            && 8 * (d1 / 8) + x / 4 / 8 == d1 && d1 / 8 < 8
            && (8 * (y % 16 / 2) + d1 / 8) / 4 * 4 == y % 16 * 4
  {
    PairBits(x, y);
    var d1, z := x % 4 * 16 + y / 16, y % 16;
    assert z % 2 == y % 2;
    Fours(z / 2, d1 / 8);
    assert d1 / 8 / 4 == d1 / 32;
  }

  lemma Fours(n: nat, t: nat)
    ensures (8 * n + t) / 4 == 2 * n + t / 4
  {
  }

  // ----- the letters tell the digits

  function DigitFor(s: Scheme, c: char): int {
    if 'A' <= c <= 'Z' then c as int - 'A' as int
    else if 'a' <= c <= 'z' then c as int - 'a' as int + 26
    else if c == '+' then 62
    else if c == '/' then 63
    else if s == BASE32 then c as int - '2' as int + 26
    else c as int - '0' as int + 52
  }

  /** Consecutive characters. */
  predicate Consecutive(letters: string, first: char) {
    forall k :: 0 <= k < |letters| ==> letters[k] as int == first as int + k
  }

  lemma AlphabetParts()
    ensures |UPPER| == |LOWER| == 26 && Consecutive(UPPER, 'A') && Consecutive(LOWER, 'a')
    ensures Consecutive("234567", '2') && Consecutive("0123456789", '0')
  {
  }

  lemma LetterTellsDigit(s: Scheme, digit: nat)
    requires Known(s) && digit < RadixOf(s.bits)
    ensures DigitFor(s, CharOf(s, digit)) == digit
  {
    hide UPPER, LOWER;
    AlphabetParts();
  }

  lemma LettersTellDigits(s: Scheme, d: seq<nat>, e: seq<nat>)
    requires Known(s) && Digits(d, s.bits) && Digits(e, s.bits) && |d| == |e|
    requires Letters(s, d) == Letters(s, e)
    ensures d == e
  {
    hide CharOf, DigitFor;
    forall i | 0 <= i < |d|
      ensures d[i] == e[i]
    {
      assert Letters(s, d)[i] == CharOf(s, d[i]) && Letters(s, e)[i] == CharOf(s, e[i]);
      LetterTellsDigit(s, d[i]);
      LetterTellsDigit(s, e[i]);
    }
  }

  // ----- groups and whole texts

  /** Whether the last bytes agree with the overlap, if the scheme makes them overlap. */
  predicate Fits(s: Scheme, b: seq<nat>) {
    s == BASE64 && |b| % 3 == 2 ==> Overlaps(b[|b| - 2], b[|b| - 1])
  }

  lemma GroupReached(s: Scheme, b: seq<nat>) returns (v: nat)
    requires Known(s) && 0 < |b| <= s.groupBytes && Digits(b, 8) && Fits(s, b)
    ensures IsDraw(s, v) && GroupText(s, |b|, v) == EncodeGroup(s, b)
  {
    hide GroupDigits, TwoTo;
    if s == BASE32 || |b| == 3 {
      v := DigitsReached(s, b);
    } else if |b| == 1 {
      v := OneByteReached(b);
    } else {
      v := PairReached(b);
    }
  }

  lemma GroupFits(s: Scheme, b: seq<nat>, v: nat)
    requires Known(s) && 0 < |b| <= s.groupBytes && Digits(b, 8)
    requires GroupText(s, |b|, v) == EncodeGroup(s, b)
    ensures Fits(s, b)
  {
    hide GroupDigits, DigitsOf, Letters, Overlaps;
    var d, e := GroupDigits(s, |b|, v), BytesDigits(s, b);
    assert GroupText(s, |b|, v)[..|d|] == Letters(s, d);
    assert EncodeGroup(s, b)[..|e|] == Letters(s, e);
    LettersTellDigits(s, d, e);
    if s == BASE64 && |b| == 2 {
      TwoByteGroup(v);
      TwoByteDigits(b);
      PairNeedsOverlap(b[0], b[1], v);
    }
  }

  lemma {:induction false} TextReached(s: Scheme, b: seq<nat>) returns (draws: seq<nat>)
    requires Known(s) && Digits(b, 8) && Fits(s, b)
    ensures AreDraws(s, |b|, draws) && Text(s, |b|, draws) == Encode(s, b)
    decreases |b|
  {
    hide EncodeGroup, GroupText, Groups, Overlaps, IsDraw;
    TotalSteps(s, |b|);
    if b == [] {
      draws := [];
    } else if |b| <= s.groupBytes {
      var v := GroupReached(s, b);
      draws := [v];
    } else {
      var v := GroupReached(s, b[..s.groupBytes]);
      var rest := TextReached(s, b[s.groupBytes..]);
      draws := [v] + rest;
      assert draws[1..] == rest;
    }
  }

  lemma {:induction false} TextFits(s: Scheme, b: seq<nat>, draws: seq<nat>)
    requires Known(s) && Digits(b, 8) && |draws| >= Groups(s, |b|)
    requires Text(s, |b|, draws) == Encode(s, b)
    ensures Fits(s, b)
    decreases |b|
  {
    hide EncodeGroup, GroupText, Groups, Overlaps;
    TotalSteps(s, |b|);
    if b == [] {
    } else if |b| <= s.groupBytes {
      GroupFits(s, b, draws[0]);
    } else {
      var n := s.groupBytes;
      SameTail(GroupText(s, n, draws[0]), Text(s, |b| - n, draws[1..]), EncodeGroup(s, b[..n]), Encode(s, b[n..]));
      TextFits(s, b[n..], draws[1..]);
    }
  }

  lemma SameTail(a: string, b: string, c: string, d: string)
    requires |a| == |c| && a + b == c + d
    ensures b == d
  {
    assert (a + b)[|a|..] == b && (c + d)[|c|..] == d;
  }

  /** The encoding of some bytes can come out exactly when their last pair fits the overlap. */
  lemma ProducedExactly(s: Scheme, b: seq<nat>)
    requires Known(s) && Digits(b, 8)
    ensures Produced(s, b) <==> Fits(s, b)
  {
    hide Fits, Text, Encode;
    if Fits(s, b) {
      var draws := TextReached(s, b);
    }
    if Produced(s, b) {
      var draws :| AreDraws(s, |b|, draws) && Text(s, |b|, draws) == Encode(s, b);
      TextFits(s, b, draws);
    }
  }

  ghost predicate EveryEncodingProduced(s: Scheme, count: nat)
    requires Known(s)
  {
    forall b: seq<nat> :: |b| == count && Digits(b, 8) ==> Produced(s, b)
  }

  /** Base32 can produce every encoding of a given length; base64 only without a last pair of bytes. */
  lemma EveryEncodingExactly(s: Scheme, count: nat)
    requires Known(s)
    ensures EveryEncodingProduced(s, count) <==> s == BASE32 || count % 3 != 2
  {
    hide Produced;
    if s == BASE32 || count % 3 != 2 {
      forall b: seq<nat> | |b| == count && Digits(b, 8)
        ensures Produced(s, b)
      {
        ProducedExactly(s, b);
      }
    } else {
      var b: seq<nat> := seq(count, i => if i == count - 2 then 32 else 0);
      assert Digits(b, 8) && !Overlaps(b[count - 2], b[count - 1]);
      ProducedExactly(s, b);
      assert !Produced(s, b);
    }
  }
}
