/** Bounded random numbers: masking raw draws and rejecting those above the bound. */
module Sampling {
  import opened Common

  function P2Minus1(v: bv64): bv64 {
    var v1 := v | (v >> 1);
    var v2 := v1 | (v1 >> 2);
    var v3 := v2 | (v2 >> 4);
    var v4 := v3 | (v3 >> 8);
    var v5 := v4 | (v4 >> 16);
    v5 | (v5 >> 32)
  }

  function ILog2Plus1(v: bv64): bv7 {
    var r0: bv7 := 0;
    var (r1, v1) := if v >= 1 << 32 then (r0 + 33, v >> 33) else (r0, v);
    var (r2, v2) := if v1 >= 1 << 16 then (r1 + 17, v1 >> 17) else (r1, v1);
    var (r3, v3) := if v2 >= 1 << 8 then (r2 + 9, v2 >> 9) else (r2, v2);
    var (r4, v4) := if v3 >= 1 << 4 then (r3 + 5, v3 >> 5) else (r3, v3);
    var (r5, v5) := if v4 >= 1 << 2 then (r4 + 3, v4 >> 3) else (r4, v4);
    var (r6, v6) := if v5 >= 1 << 1 then (r5 + 2, v5 >> 2) else (r5, v5);
    if v6 >= 1 << 0 then r6 + 1 else r6
  }

  /** All bits below some position set, and none above: 2^k - 1. */
  predicate IsMask(m: bv64) {
    m & (m + 1) == 0
  }

  /** m is the smallest 2^k - 1 that is at least v. */
  predicate MaskFor(m: bv64, v: bv64) {
    && IsMask(m) && v <= m
    && (if v == 0 then m == 0 else m >> 1 < v)
  }

  lemma P2Minus1IsMask(v: bv64)
    ensures IsMask(P2Minus1(v))
  {
  }

  lemma P2Minus1Reaches(v: bv64)
    ensures v <= P2Minus1(v)
  {
  }

  lemma P2Minus1IsTight(v: bv64)
    ensures if v == 0 then P2Minus1(v) == 0 else P2Minus1(v) >> 1 < v
  {
  }

  lemma P2Minus1IsLeastMask(v: bv64)
    ensures MaskFor(P2Minus1(v), v)
  {
    hide P2Minus1, IsMask;
    P2Minus1IsMask(v);
    P2Minus1Reaches(v);
    P2Minus1IsTight(v);
  }

  /** r is the position of the highest bit set in v, counting from 1, or 0 when there is none. */
  predicate IsBitLength(v: bv64, r: bv7) {
    if v == 0 then r == 0 else 1 <= r <= 64 && v >> (r - 1) == 1
  }

  /** ilog2plus1 is the position of the highest bit set. */
  lemma ILog2Plus1IsBitLength(v: bv64)
    ensures IsBitLength(v, ILog2Plus1(v))
  {
  }

  // ----- which raw draws are accepted

  /** The bits that no draw of n bytes sets. */
  function Outside(n: bv7): bv64 {
    match n
    case 0 => 0xffff_ffff_ffff_ffff
    case 1 => 0xffff_ffff_ffff_ff00
    case 2 => 0xffff_ffff_ffff_0000
    case 3 => 0xffff_ffff_ff00_0000
    case 4 => 0xffff_ffff_0000_0000
    case 5 => 0xffff_ff00_0000_0000
    case 6 => 0xffff_0000_0000_0000
    case 7 => 0xff00_0000_0000_0000
    case _ => 0
  }

  /** A raw draw of n random bytes. */
  predicate InBytes(x: bv64, n: bv7) {
    x & Outside(n) == 0
  }

  /** How many random bytes a bound calls for. */
  function ByteCount(maximum: bv64): bv7 {
    (ILog2Plus1(P2Minus1(maximum)) + 7) / 8
  }

  lemma BytesOfLength(mask: bv64, r: bv7)
    requires IsBitLength(mask, r)
    ensures (r + 7) / 8 <= 8
    ensures InBytes(mask, (r + 7) / 8)
    ensures forall n: bv7 :: n < (r + 7) / 8 ==> !InBytes(mask, n)
  {
  }

  /** The bytes drawn are enough for the mask, and no more than enough. */
  lemma ByteCountIsExact(maximum: bv64)
    ensures ByteCount(maximum) <= 8
    ensures InBytes(P2Minus1(maximum), ByteCount(maximum))
    ensures forall n: bv7 :: n < ByteCount(maximum) ==> !InBytes(P2Minus1(maximum), n)
  {
    hide P2Minus1, ILog2Plus1, IsBitLength, InBytes;
    ILog2Plus1IsBitLength(P2Minus1(maximum));
    BytesOfLength(P2Minus1(maximum), ILog2Plus1(P2Minus1(maximum)));
  }

  function Masked(x: bv64, m: bv64): bv64 {
    x & m
  }

  predicate Within(x: bv64, maximum: bv64, mask: bv64) {
    Masked(x, mask) <= maximum
  }

  predicate Accepted(x: bv64, maximum: bv64) {
    Within(x, maximum, P2Minus1(maximum))
  }

  /** Moves the draws that yield a onto the draws that yield b. */
  function Moved(x: bv64, a: bv64, b: bv64): bv64 {
    x ^ (a ^ b)
  }

  /** Numbers up to a bound have no bit outside its mask. */
  lemma BelowMask(a: bv64, maximum: bv64, m: bv64)
    requires MaskFor(m, maximum) && a <= maximum
    ensures Masked(a, m) == a
  {
  }

  lemma BelowInBytes(a: bv64, maximum: bv64, m: bv64, n: bv7)
    requires MaskFor(m, maximum) && a <= maximum && InBytes(m, n)
    ensures InBytes(a, n)
  {
  }

  lemma MaskedXor(x: bv64, a: bv64, b: bv64, m: bv64)
    requires Masked(x, m) == a && Masked(a, m) == a && Masked(b, m) == b
    ensures Masked(Moved(x, a, b), m) == b
    ensures Moved(Moved(x, a, b), b, a) == x
  {
  }

  lemma XorInBytes(x: bv64, a: bv64, b: bv64, n: bv7)
    requires InBytes(x, n) && InBytes(a, n) && InBytes(b, n)
    ensures InBytes(Moved(x, a, b), n)
  {
    XorOutside(x, a, b, Outside(n));
  }

  lemma XorOutside(x: bv64, a: bv64, b: bv64, w: bv64)
    requires x & w == 0 && a & w == 0 && b & w == 0
    ensures Moved(x, a, b) & w == 0
  {
  }

  /** The raw draws, of the number of bytes used for this bound, that give the value a. */
  predicate Gives(x: bv64, maximum: bv64, a: bv64) {
    InBytes(x, ByteCount(maximum)) && Masked(x, P2Minus1(maximum)) == a
  }

  /**
   * Every value up to the bound is given by equally many raw draws: for any two of them, a mapping
   * that undoes itself carries the draws that give one onto the draws that give the other.
   */
  lemma Unbiased(maximum: bv64, a: bv64, b: bv64)
    requires a <= maximum && b <= maximum
    ensures forall x :: Gives(x, maximum, a) ==>
              Gives(Moved(x, a, b), maximum, b) && Moved(Moved(x, a, b), b, a) == x
    ensures forall y :: Gives(y, maximum, b) ==>
              Gives(Moved(y, b, a), maximum, a) && Moved(Moved(y, b, a), a, b) == y
  {
    hide P2Minus1, ByteCount, InBytes, Moved, Masked;
    forall x | Gives(x, maximum, a)
      ensures Gives(Moved(x, a, b), maximum, b) && Moved(Moved(x, a, b), b, a) == x
    {
      GivesMoved(maximum, a, b, x);
    }
    forall y | Gives(y, maximum, b)
      ensures Gives(Moved(y, b, a), maximum, a) && Moved(Moved(y, b, a), a, b) == y
    {
      GivesMoved(maximum, b, a, y);
    }
  }

  lemma GivesMoved(maximum: bv64, a: bv64, b: bv64, x: bv64)
    requires a <= maximum && b <= maximum && Gives(x, maximum, a)
    ensures Gives(Moved(x, a, b), maximum, b) && Moved(Moved(x, a, b), b, a) == x
  {
    hide P2Minus1, ByteCount, InBytes, Moved, MaskFor, Masked;
    var m, n := P2Minus1(maximum), ByteCount(maximum);
    P2Minus1IsLeastMask(maximum);
    ByteCountIsExact(maximum);
    BelowMask(a, maximum, m);
    BelowMask(b, maximum, m);
    BelowInBytes(a, maximum, m, n);
    BelowInBytes(b, maximum, m, n);
    MaskedXor(x, a, b, m);
    XorInBytes(x, a, b, n);
  }

  /** The top bit of a mask. */
  function Top(m: bv64): bv64 {
    m ^ (m >> 1)
  }

  function WithoutBits(x: bv64, bits: bv64): bv64 {
    x & !bits
  }

  function WithBits(x: bv64, bits: bv64): bv64 {
    x | bits
  }

  predicate HasBits(x: bv64, bits: bv64) {
    x & bits == bits
  }

  /** A draw without, and with, the top bit of the mask. */
  function Dropped(x: bv64, m: bv64): bv64 {
    WithoutBits(x, Top(m))
  }

  function Raised(y: bv64, m: bv64): bv64 {
    WithBits(y, Top(m))
  }

  lemma DroppedIsWithin(x: bv64, maximum: bv64, m: bv64)
    requires MaskFor(m, maximum) && !Within(x, maximum, m)
    ensures Within(Dropped(x, m), maximum, m)
  {
  }

  lemma DroppedIsBelow(x: bv64, maximum: bv64, m: bv64)
    requires MaskFor(m, maximum) && !Within(x, maximum, m)
    ensures Masked(Dropped(x, m), m) != maximum
  {
  }

  lemma DroppedIsRaisedBack(x: bv64, maximum: bv64, m: bv64)
    requires MaskFor(m, maximum) && !Within(x, maximum, m)
    ensures Raised(Dropped(x, m), m) == x
  {
    hide MaskFor, Within, Top, WithBits, WithoutBits, HasBits;
    RejectedHasTop(x, maximum, m);
    SetBack(x, Top(m));
  }

  /** A rejected draw has the top bit of the mask: the bound reaches above the rest of it. */
  lemma RejectedHasTop(x: bv64, maximum: bv64, m: bv64)
    requires MaskFor(m, maximum) && !Within(x, maximum, m)
    ensures HasBits(x, Top(m))
  {
  }

  lemma SetBack(x: bv64, top: bv64)
    requires HasBits(x, top)
    ensures WithBits(WithoutBits(x, top), top) == x
  {
  }

  lemma AndOutside(x: bv64, y: bv64, w: bv64)
    requires x & w == 0
    ensures x & y & w == 0
  {
  }

  lemma AndInBytes(x: bv64, y: bv64, n: bv7)
    requires InBytes(x, n)
    ensures InBytes(x & y, n)
  {
    hide Outside;
    AndOutside(x, y, Outside(n));
  }

  lemma DroppedInBytes(x: bv64, m: bv64, n: bv7)
    requires InBytes(x, n)
    ensures InBytes(Dropped(x, m), n)
  {
    hide InBytes;
    AndInBytes(x, !(m ^ (m >> 1)), n);
  }

  /**
   * More than half of the raw draws are accepted: without the mask's top bit each rejected draw is
   * an accepted one, from which it can be told; and none of those gives the bound itself, which
   * some draw does give.
   */
  lemma MostDrawsAccepted(maximum: bv64, x: bv64)
    requires InBytes(x, ByteCount(maximum)) && !Accepted(x, maximum)
    ensures var m := P2Minus1(maximum);
            var y := Dropped(x, m);
            && InBytes(y, ByteCount(maximum)) && Accepted(y, maximum)
            && Raised(y, m) == x && Masked(y, m) != maximum
    ensures Gives(maximum, maximum, maximum)
  {
    hide P2Minus1, ByteCount, InBytes, MaskFor, Dropped, Raised, Masked, Within;
    var m, n := P2Minus1(maximum), ByteCount(maximum);
    P2Minus1IsLeastMask(maximum);
    ByteCountIsExact(maximum);
    DroppedIsWithin(x, maximum, m);
    DroppedIsBelow(x, maximum, m);
    DroppedIsRaisedBack(x, maximum, m);
    DroppedInBytes(x, m, n);
    BelowMask(maximum, maximum, m);
    BelowInBytes(maximum, maximum, m, n);
  }

  // ----- the rejection loop

  /** The bytes of the result type: 1, 2, 4 or 8. */
  predicate TypeWidth(width: bv7) {
    width == 1 || width == 2 || width == 4 || width == 8
  }

  lemma NarrowerInBytes(x: bv64, n: bv7, width: bv7)
    requires TypeWidth(width) && InBytes(x, width)
    requires forall k: bv7 :: k < n ==> !InBytes(x, k)
    ensures n <= width
  {
  }

  /** The mask of a bound of some type fits that type, so the dispatch never falls through. */
  lemma DispatchIsTotal(maximum: bv64, width: bv7)
    requires TypeWidth(width) && InBytes(maximum, width)
    ensures ByteCount(maximum) <= width
  {
    hide P2Minus1, ByteCount, InBytes, MaskFor;
    P2Minus1IsLeastMask(maximum);
    ByteCountIsExact(maximum);
    MaskInBytes(maximum, P2Minus1(maximum), width);
    NarrowerInBytes(P2Minus1(maximum), ByteCount(maximum), width);
  }

  lemma MaskInBytes(maximum: bv64, m: bv64, width: bv7)
    requires TypeWidth(width) && InBytes(maximum, width)
    requires MaskFor(m, maximum)
    ensures InBytes(m, width)
  {
  }

  /** val is the masked value of the first draw whose masked value is within the bound. */
  ghost predicate FirstWithin(maximum: bv64, mask: bv64, draws: seq<bv64>, val: Option<bv64>) {
    match val
    case None => forall i :: 0 <= i < |draws| ==> !Within(draws[i], maximum, mask)
    case Some(v) =>
      exists k :: 0 <= k < |draws| && Within(draws[k], maximum, mask) && v == Masked(draws[k], mask)
                  && forall i :: 0 <= i < k ==> !Within(draws[i], maximum, mask)
  }

  lemma WithinMeans(x: bv64, maximum: bv64, mask: bv64)
    ensures Within(x, maximum, mask) <==> Masked(x, mask) <= maximum
  {
  }

  /** The rejection loop on the raw draws of the pool; None when every one of them was rejected. */
  method RejectAbove(maximum: bv64, mask: bv64, draws: seq<bv64>) returns (val: Option<bv64>)
    ensures FirstWithin(maximum, mask, draws, val)
    ensures val.Some? ==> val.value <= maximum
  {
    hide Within, Masked;
    var i := 0;
    while i < |draws|
      invariant i <= |draws|
      invariant forall k :: 0 <= k < i ==> !Within(draws[k], maximum, mask)
    {
      if Within(draws[i], maximum, mask) {
        WithinMeans(draws[i], maximum, mask);
        return Some(Masked(draws[i], mask));
      }
      i := i + 1;
    }
    return None;
  }

  /**
   * pool_rand16/32/64_maximum, for raw draws of as many bytes as the dispatch chooses. A bound of
   * zero takes no draw, except that an 8-bit bound always takes one.
   */
  method RandMaximum(maximum: bv64, width: bv7, draws: seq<bv64>) returns (val: Option<bv64>)
    requires TypeWidth(width) && InBytes(maximum, width)
    ensures val.Some? ==> val.value <= maximum
    ensures if maximum == 0 && width != 1 then val == Some(0)
            else FirstWithin(maximum, P2Minus1(maximum), draws, val)
  {
    hide P2Minus1, ILog2Plus1, InBytes, ByteCount, FirstWithin, Within, Masked;
    var mask := P2Minus1(maximum);
    var count := ByteCount(maximum);
    DispatchIsTotal(maximum, width);
    assert count <= width;
    ZeroBound(maximum);
    if width != 1 && count == 0 {
      return Some(0);
    }
    val := RejectAbove(maximum, mask, draws);
  }

  lemma ZeroBound(maximum: bv64)
    ensures ByteCount(maximum) == 0 <==> maximum == 0
  {
    hide P2Minus1, ILog2Plus1, ByteCount, InBytes;
    P2Minus1IsLeastMask(maximum);
    ByteCountIsExact(maximum);
    ZeroCount(P2Minus1(maximum), ByteCount(maximum));
  }

  lemma ZeroCount(mask: bv64, count: bv7)
    requires InBytes(mask, count) && forall n: bv7 :: n < count ==> !InBytes(mask, n)
    ensures count == 0 <==> mask == 0
  {
    assert InBytes(mask, 0) <==> mask == 0;
  }
}
