/** Variable-length integers: seven bits a byte, low bits first, with ZigZag for signed values. */
module Varint {
  import opened Common

  /** The widths of the public functions. */
  predicate Width(width: nat) {
    width == 16 || width == 32 || width == 64
  }

  function MaxOf(width: nat): nat
    requires Width(width)
  {
    if width == 16 then 0x1_0000 else if width == 32 then 0x1_0000_0000 else TWO64
  }

  /** val_len_max: sizeof(val) + 1, or + 2 for 64 bits. */
  function LengthMax(width: nat): nat
    requires Width(width)
  {
    if width == 64 then 10 else width / 8 + 1
  }

  function Encoded(v: nat): (e: seq<byte>)
    ensures e != []
  {
    if v < 128 then [v] else [128 + v % 128] + Encoded(v / 128)
  }

  function Pow128(k: nat): (p: nat)
    ensures p > 0
  {
    if k == 0 then 1 else 128 * Pow128(k - 1)
  }

  lemma {:induction false} EncodedLength(v: nat, k: nat)
    requires k > 0 && v < Pow128(k)
    ensures |Encoded(v)| <= k
    decreases k
  {
    assert Pow128(1) == 128 * Pow128(0);
    if v >= 128 && k > 1 {
      EncodedLength(v / 128, k - 1);
    }
  }

  lemma {:induction false} EncodedIsLonger(v: nat, k: nat)
    requires v >= Pow128(k)
    ensures |Encoded(v)| > k
    decreases k
  {
    if k > 0 {
      EncodedIsLonger(v / 128, k - 1);
    }
  }

  lemma Powers()
    ensures Pow128(2) == 0x4000 && Pow128(3) == 0x20_0000 && Pow128(4) == 0x1000_0000
    ensures Pow128(5) == 0x8_0000_0000 && Pow128(9) == 0x8000_0000_0000_0000 && Pow128(10) == 128 * Pow128(9)
  {
    assert Pow128(2) == 128 * Pow128(1) && Pow128(1) == 128 * Pow128(0);
    assert Pow128(4) == 128 * Pow128(3) && Pow128(3) == 128 * Pow128(2);
    assert Pow128(7) == 128 * 128 * Pow128(5);
    assert Pow128(9) == 128 * 128 * Pow128(7);
  }

  /** Every value is written in at most 3, 5 or 10 bytes, and the largest takes that many. */
  lemma EncodedFits(v: nat, width: nat)
    requires Width(width) && v < MaxOf(width)
    ensures |Encoded(v)| <= LengthMax(width) == |Encoded(MaxOf(width) - 1)|
    ensures LengthMax(width) == if width == 16 then 3 else if width == 32 then 5 else 10
  {
    hide Encoded;
    Powers();
    EncodedLength(v, LengthMax(width));
    EncodedLength(MaxOf(width) - 1, LengthMax(width));
    EncodedIsLonger(MaxOf(width) - 1, LengthMax(width) - 1);
  }

  /** 300 is 0xac 0x02: the low seven bits first, the high bit of a byte telling that another follows. */
  lemma KnownEncoding()
    ensures Encoded(300) == [0xac, 0x02] && Encoded(127) == [0x7f] && Encoded(128) == [0x80, 0x01]
  {
  }

  /** The ranges of uint16_t, int16_t, uint32_t, int32_t, uint64_t and int64_t. */
  lemma Ranges(n: int, width: nat)
    requires Width(width)
    ensures n < MaxOf(width) <==> n <= if width == 16 then 65535 else if width == 32 then 4294967295
                                       else 18446744073709551615
    ensures IsSigned(n, width) <==>
              if width == 16 then -32768 <= n <= 32767 else if width == 32 then -2147483648 <= n <= 2147483647
              else -9223372036854775808 <= n <= 9223372036854775807
  {
  }

  // ----- writing

  /** futils_varint_write */
  method Write(dst: array<byte>, dstLen: nat, val: nat, width: nat) returns (ret: int, valLen: nat)
    requires Width(width) && val < MaxOf(width) && dstLen <= dst.Length
    modifies dst
    ensures dstLen < LengthMax(width) ==> ret == -EINVAL && dst[..] == old(dst[..])
    ensures dstLen >= LengthMax(width) ==>
              && ret == 0 && valLen == |Encoded(val)| <= dstLen
              && dst[..] == Encoded(val) + old(dst[..])[valLen..]
    ensures ret == 0 <==> dstLen >= if width == 16 then 3 else if width == 32 then 5 else 10
  {
    EncodedFits(val, width);
    if dstLen < LengthMax(width) {
      return -EINVAL, 0;
    }
    hide Encoded;
    var off: nat, left: nat, more := 0, val, true;
    ghost var before: seq<byte>, done: seq<byte> := dst[..], [];
    while more
      invariant |done| == off <= |before| && dst[..] == done + before[off..]
      invariant if more then done + Encoded(left) == Encoded(val) else done == Encoded(val)
      decreases more, left
    {
      EncodedAfter(done, left);
      assert |done + Encoded(left)| <= |before|;
      var b: nat := left % 128;
      more := left / 128 != 0;
      if more {
        b := b + 128;
      }
      ghost var whole := dst[..];
      dst[off] := b;
      WriteByte(whole, done, before, off, b);
      done := done + [b];
      left := left / 128;
      off := off + 1;
    }
    return 0, off;
  }

  lemma EncodedStep(v: nat)
    ensures v / 128 == 0 ==> Encoded(v) == [v % 128]
    ensures v / 128 != 0 ==> Encoded(v) == [128 + v % 128] + Encoded(v / 128)
  {
  }

  lemma EncodedAfter(done: seq<byte>, v: nat)
    ensures v / 128 == 0 ==> done + [v % 128] == done + Encoded(v)
    ensures v / 128 != 0 ==> done + [128 + v % 128] + Encoded(v / 128) == done + Encoded(v)
  {
    hide Encoded;
    EncodedStep(v);
  }

  lemma WriteByte(whole: seq<byte>, done: seq<byte>, before: seq<byte>, off: nat, b: byte)
    requires |done| == off < |before| && whole == done + before[off..]
    ensures whole[off := b] == done + [b] + before[off + 1..]
  {
  }

  // ----- reading

  /** Whether the loop gives up once it has read `offset` bytes; it looks at the byte after them. */
  predicate Refused(mem: seq<byte>, srcLen: nat, lengthMax: nat, offset: nat)
    requires srcLen < |mem|
  {
    offset > srcLen || offset > lengthMax || (offset == lengthMax && mem[offset] % 16 != 0)
  }

  /** The length of the value that starts the bytes, or None where the loop fails. */
  function Scanned(mem: seq<byte>, srcLen: nat, lengthMax: nat, offset: nat): (r: Option<nat>)
    requires srcLen < |mem| && offset <= srcLen
    ensures r.Some? ==> offset < r.value <= srcLen
    decreases srcLen - offset
  {
    if Refused(mem, srcLen, lengthMax, offset + 1) then None
    else if mem[offset] < 128 then Some(offset + 1)
    else Scanned(mem, srcLen, lengthMax, offset + 1)
  }

  /** The number that a run of bytes stands for. */
  function Number(bytes: seq<byte>): nat {
    if bytes == [] then 0 else bytes[0] % 128 + 128 * Number(bytes[1..])
  }

  lemma {:induction false} NumberOfEncoded(v: nat)
    ensures Number(Encoded(v)) == v
  {
    if v >= 128 {
      NumberOfEncoded(v / 128);
      assert Encoded(v)[1..] == Encoded(v / 128);
    }
  }

  lemma Regroup(d: nat, p: nat)
    ensures 128 * (d * p) == d * (128 * p)
  {
  }

  lemma {:induction false} NumberAppend(bytes: seq<byte>, b: byte)
    ensures Number(bytes + [b]) == Number(bytes) + b % 128 * Pow128(|bytes|)
  {
    if bytes == [] {
      assert [b][1..] == [];
    } else {
      NumberAppend(bytes[1..], b);
      assert (bytes + [b])[1..] == bytes[1..] + [b];
      Regroup(b % 128, Pow128(|bytes| - 1));
    }
  }

  lemma MergeByte(bytes: seq<byte>, b: byte)
    ensures (Number(bytes) % TWO64 + b % 128 * Pow128(|bytes|)) % TWO64 == Number(bytes + [b]) % TWO64
  {
    hide Number, Pow128;
    NumberAppend(bytes, b);
    ModuloAdd(Number(bytes), b % 128 * Pow128(|bytes|));
  }

  lemma ModuloAdd(a: nat, x: int)
    ensures (a % TWO64 + x) % TWO64 == (a + x) % TWO64
  {
    assert a == TWO64 * (a / TWO64) + a % TWO64;
  }

  /**
   * A source is self-contained when its bytes alone decide the read: a value ends before its end
   * and before the maximum length, or it is longer than any value.
   */
  predicate SelfContained(src: seq<byte>, lengthMax: nat) {
    |src| > lengthMax || exists i :: 0 <= i < |src| && i < lengthMax - 1 && src[i] < 128
  }

  /** Whether the loop, having read `offset` bytes, goes on to look at the byte behind the source. */
  predicate LooksBehind(src: seq<byte>, lengthMax: nat, offset: nat)
    requires offset <= |src|
    decreases |src| - offset
  {
    || offset == |src|
    || offset + 1 == lengthMax == |src|
    || (&& offset + 1 <= lengthMax
        && !(offset + 1 == lengthMax && src[offset + 1] % 16 != 0)
        && src[offset] >= 128
        && LooksBehind(src, lengthMax, offset + 1))
  }

  lemma {:induction false} LooksBehindFrom(src: seq<byte>, lengthMax: nat, offset: nat)
    requires offset <= |src| && offset < lengthMax
    requires forall i :: 0 <= i < offset ==> src[i] >= 128
    ensures LooksBehind(src, lengthMax, offset) <==> !SelfContained(src, lengthMax)
    decreases |src| - offset
  {
    if offset < |src| && src[offset] >= 128 && offset + 1 < lengthMax {
      LooksBehindFrom(src, lengthMax, offset + 1);
    }
  }

  /** The byte behind a source is looked at exactly when the source is not self-contained. */
  lemma LooksBehindExactly(src: seq<byte>, width: nat)
    requires Width(width)
    ensures LooksBehind(src, LengthMax(width), 0) <==> !SelfContained(src, LengthMax(width))
  {
    LooksBehindFrom(src, LengthMax(width), 0);
  }

  /** A source of one byte that says another follows. */
  lemma TruncatedLooksBehind(width: nat)
    requires Width(width)
    ensures LooksBehind([0x80], LengthMax(width), 0)
    ensures forall behind: byte :: Scanned([0x80, behind], 1, LengthMax(width), 0) == None
  {
    LooksBehindExactly([0x80], width);
  }

  /** A maximum-length value that ends with its source: the byte behind decides the result. */
  lemma ByteBehindDecides()
    ensures Encoded(0xffff) == [0xff, 0xff, 0x03] && LooksBehind([0xff, 0xff, 0x03], LengthMax(16), 0)
    ensures Scanned([0xff, 0xff, 0x03, 0], 3, LengthMax(16), 0) == Some(3)
    ensures Scanned([0xff, 0xff, 0x03, 1], 3, LengthMax(16), 0) == None
  {
  }

  // ----- shifts past the width of the type

  /** Whether the loop, having read `offset` bytes, comes to shift a byte by 64 places or more. */
  predicate ShiftsPast(mem: seq<byte>, srcLen: nat, lengthMax: nat, offset: nat)
    requires offset <= srcLen < |mem|
    decreases srcLen - offset
  {
    || 7 * offset >= 64
    || (!Refused(mem, srcLen, lengthMax, offset + 1) && mem[offset] >= 128
        && ShiftsPast(mem, srcLen, lengthMax, offset + 1))
  }

  /** Ten bytes that say another follows, and an eleventh that the last test lets pass. */
  predicate TenMore(mem: seq<byte>, srcLen: nat) {
    && 10 <= srcLen < |mem|
    && (forall i :: 0 <= i < 10 ==> mem[i] >= 128)
    && mem[10] % 16 == 0
  }

  lemma {:induction false} ShiftsPastFrom(mem: seq<byte>, srcLen: nat, lengthMax: nat, offset: nat)
    requires offset <= srcLen < |mem| && offset <= lengthMax <= 10
    requires forall i :: 0 <= i < offset ==> mem[i] >= 128
    requires offset < 10 || mem[10] % 16 == 0
    ensures ShiftsPast(mem, srcLen, lengthMax, offset) <==> lengthMax == 10 && TenMore(mem, srcLen)
    decreases 10 - offset
  {
    if offset < 10 && !Refused(mem, srcLen, lengthMax, offset + 1) && mem[offset] >= 128 {
      ShiftsPastFrom(mem, srcLen, lengthMax, offset + 1);
    }
  }

  /** Only the 64-bit reader shifts too far, and exactly on such a source. */
  lemma ShiftsPastExactly(mem: seq<byte>, srcLen: nat, width: nat)
    requires Width(width) && srcLen < |mem|
    ensures ShiftsPast(mem, srcLen, LengthMax(width), 0) <==> width == 64 && TenMore(mem, srcLen)
  {
    ShiftsPastFrom(mem, srcLen, LengthMax(width), 0);
  }

  /** Ten bytes 0x80 and a zero behind them. */
  lemma TenBytesShiftPast()
    ensures var mem := seq(10, _ => 0x80) + [0];
            ShiftsPast(mem, 10, LengthMax(64), 0) && Scanned(mem, 10, LengthMax(64), 0) == None
  {
    var mem: seq<byte> := seq(10, _ => 0x80) + [0];
    ShiftsPastExactly(mem, 10, 64);
    NoEnd(mem, 10, LengthMax(64), 0);
  }

  lemma {:induction false} NoEnd(mem: seq<byte>, srcLen: nat, lengthMax: nat, offset: nat)
    requires offset <= srcLen < |mem| && forall i :: 0 <= i < srcLen ==> mem[i] >= 128
    ensures srcLen == lengthMax ==> Scanned(mem, srcLen, lengthMax, offset) == None
    decreases srcLen - offset
  {
    if offset < srcLen && !Refused(mem, srcLen, lengthMax, offset + 1) {
      NoEnd(mem, srcLen, lengthMax, offset + 1);
    }
  }

  /** One turn of the loop: what it scans, and whether it looks behind. */
  lemma ScanStep(src: seq<byte>, behind: byte, lengthMax: nat, offset: nat)
    requires offset <= |src|
    ensures var mem := src + [behind];
            Scanned(mem, |src|, lengthMax, offset)
            == if Refused(mem, |src|, lengthMax, offset + 1) then None
               else if mem[offset] < 128 then Some(offset + 1)
               else Scanned(mem, |src|, lengthMax, offset + 1)
    ensures LooksBehind(src, lengthMax, offset) <==>
              || offset == |src|
              || offset + 1 == lengthMax == |src|
              || (!Refused(src + [behind], |src|, lengthMax, offset + 1) && src[offset] >= 128
                  && LooksBehind(src, lengthMax, offset + 1))
    ensures ShiftsPast(src + [behind], |src|, lengthMax, offset) <==>
              || 7 * offset >= 64
              || (!Refused(src + [behind], |src|, lengthMax, offset + 1) && (src + [behind])[offset] >= 128
                  && ShiftsPast(src + [behind], |src|, lengthMax, offset + 1))
  {
  }

  /** The state of the loop after `offset` bytes. */
  ghost predicate Reading(src: seq<byte>, behind: byte, lengthMax: nat,
                          offset: nat, weight: nat, val: nat, more: bool, looked: bool, far: bool)
  {
    && offset <= |src| && offset <= lengthMax
    && weight == Pow128(offset) && val == Number(src[..offset]) % TWO64
    && Scanned(src + [behind], |src|, lengthMax, 0)
       == (if more then Scanned(src + [behind], |src|, lengthMax, offset) else Some(offset))
    && (LooksBehind(src, lengthMax, 0) <==> looked || (more && LooksBehind(src, lengthMax, offset)))
    && (ShiftsPast(src + [behind], |src|, lengthMax, 0) <==>
          far || (more && ShiftsPast(src + [behind], |src|, lengthMax, offset)))
  }

  lemma ReadingStarts(src: seq<byte>, behind: byte, lengthMax: nat)
    ensures Reading(src, behind, lengthMax, 0, 1, 0, true, false, false)
  {
    assert src[..0] == [];
  }

  lemma ReadingStep(src: seq<byte>, behind: byte, lengthMax: nat,
                    offset: nat, weight: nat, val: nat, looked: bool, far: bool)
    requires Reading(src, behind, lengthMax, offset, weight, val, true, looked, far)
    ensures var mem, next := src + [behind], offset + 1;
            var b, looks := mem[offset], looked || offset == |src| || next == lengthMax == |src|;
            var merged, shifts := (val + b % 128 * weight) % TWO64, far || 7 * offset >= 64;
            if Refused(mem, |src|, lengthMax, next)
            then && Scanned(mem, |src|, lengthMax, 0) == None
                 && (LooksBehind(src, lengthMax, 0) <==> looks)
                 && (ShiftsPast(mem, |src|, lengthMax, 0) <==> shifts)
            else Reading(src, behind, lengthMax, next, weight * 128, merged, b >= 128, looks, shifts)
  {
    hide Scanned, LooksBehind, ShiftsPast, Number, Pow128;
    ScanStep(src, behind, lengthMax, offset);
    PowStep(offset + 1);
    if offset < |src| {
      MergeByte(src[..offset], src[offset]);
      assert src[..offset] + [src[offset]] == src[..offset + 1];
    }
  }

  /**
   * futils_varint_read. `behind` is the byte of memory behind the source; `looked` tells whether the
   * loop looked at it, `far` whether it shifted by 64 places or more. The bits it merges never
   * overlap, so their union is a sum.
   */
  method Read(src: array<byte>, behind: byte, width: nat)
    returns (ret: int, val: nat, valLen: nat, ghost looked: bool, ghost far: bool)
    requires Width(width)
    ensures src.Length == 0 ==> ret == -EINVAL
    ensures src.Length > 0 ==>
              match Scanned(src[..] + [behind], src.Length, LengthMax(width), 0)
              case None => ret == -EPROTO
              case Some(n) => ret == 0 && valLen == n && val == Number(src[..n]) % TWO64
    ensures looked <==> src.Length > 0 && !SelfContained(src[..], LengthMax(width))
    ensures far <==> width == 64 && TenMore(src[..] + [behind], src.Length)
    ensures far ==> ret == -EPROTO
  {
    if src.Length == 0 {
      return -EINVAL, 0, 0, false, false;
    }
    assert LengthMax(width) <= 10;
    hide Number, Pow128, LengthMax, SelfContained, Scanned, LooksBehind, ShiftsPast, TenMore;
    LooksBehindExactly(src[..], width);
    ShiftsPastExactly(src[..] + [behind], src.Length, width);
    looked, far := false, false;
    val := 0;
    var offset: nat, weight: nat, more := 0, 1, true;
    ReadingStarts(src[..], behind, LengthMax(width));
    while more
      invariant Reading(src[..], behind, LengthMax(width), offset, weight, val, more, looked, far)
      invariant !far
      decreases more, src.Length - offset
    {
      ReadingStep(src[..], behind, LengthMax(width), offset, weight, val, looked, far);
      var b: nat := if offset < src.Length then src[offset] else behind;
      looked := looked || offset == src.Length;
      far := 7 * offset >= 64;
      val := (val + b % 128 * weight) % TWO64;
      more := b >= 128;
      offset := offset + 1;
      weight := weight * 128;
      if offset > src.Length || offset > LengthMax(width) {
        return -EPROTO, val, 0, looked, far;
      }
      if offset == LengthMax(width) {
        var next: nat := if offset < src.Length then src[offset] else behind;
        looked := looked || offset == src.Length;
        if next % 16 != 0 {
          return -EPROTO, val, 0, looked, far;
        }
      }
    }
    return 0, val, offset, looked, far;
  }

  lemma PowStep(k: nat)
    requires k > 0
    ensures Pow128(k) == Pow128(k - 1) * 128
  {
  }

  // ----- round trips

  /** The encoding is a prefix code: what follows it is not read, but for one look at the next byte. */
  lemma {:induction false} ScanEncoded(mem: seq<byte>, srcLen: nat, lengthMax: nat, offset: nat, v: nat)
    requires srcLen < |mem| && offset + |Encoded(v)| <= srcLen && offset + |Encoded(v)| <= lengthMax
    requires mem[offset..offset + |Encoded(v)|] == Encoded(v)
    ensures var n := offset + |Encoded(v)|;
            var failed := n == lengthMax && mem[n] % 16 != 0;
            Scanned(mem, srcLen, lengthMax, offset) == if failed then None else Some(n)
    decreases v
  {
    EncodedStep(v);
    assert mem[offset] == Encoded(v)[0];
    if v >= 128 {
      assert mem[offset + 1..offset + |Encoded(v)|] == Encoded(v)[1..] == Encoded(v / 128);
      ScanEncoded(mem, srcLen, lengthMax, offset + 1, v / 128);
    }
  }

  /** Reading back what was written succeeds unless the next byte spoils a maximum-length value. */
  lemma ReadInvertsWrite(mem: seq<byte>, srcLen: nat, width: nat, v: nat)
    requires Width(width) && v < MaxOf(width)
    requires |Encoded(v)| <= srcLen < |mem| && mem[..|Encoded(v)|] == Encoded(v)
    ensures var n := |Encoded(v)|;
            && Number(mem[..n]) % TWO64 == v
            && (Scanned(mem, srcLen, LengthMax(width), 0) == Some(n) <==>
                n < LengthMax(width) || mem[n] % 16 == 0)
            && (Scanned(mem, srcLen, LengthMax(width), 0) == None <==>
                n == LengthMax(width) && mem[n] % 16 != 0)
  {
    EncodedFits(v, width);
    NumberOfEncoded(v);
    assert mem[0..0 + |Encoded(v)|] == mem[..|Encoded(v)|];
    ScanEncoded(mem, srcLen, LengthMax(width), 0, v);
  }

  function Stream(values: seq<nat>): seq<byte> {
    if values == [] then [] else Encoded(values[0]) + Stream(values[1..])
  }

  /** Reads n values one after another; the last byte of mem is only ever looked at. */
  function ReadAll(mem: seq<byte>, width: nat, n: nat): Option<seq<nat>>
    requires Width(width) && mem != []
    decreases n
  {
    if n == 0 then Some([])
    else if |mem| == 1 then None
    else
      match Scanned(mem, |mem| - 1, LengthMax(width), 0)
      case None => None
      case Some(k) =>
        match ReadAll(mem[k..], width, n - 1)
        case None => None
        case Some(rest) => Some([Number(mem[..k]) % TWO64] + rest)
  }

  /** Every maximum-length value is followed by a byte whose low four bits are zero. */
  ghost predicate Guarded(values: seq<nat>, tail: seq<byte>, width: nat)
    requires Width(width) && tail != []
  {
    values == []
    || (&& (|Encoded(values[0])| == LengthMax(width) ==> (Stream(values[1..]) + tail)[0] % 16 == 0)
        && Guarded(values[1..], tail, width))
  }

  /** A concatenation of encodings is read back whole exactly when it is guarded, and then exactly. */
  lemma {:induction false} StreamRoundTrip(values: seq<nat>, tail: seq<byte>, width: nat)
    requires Width(width) && tail != [] && forall i :: 0 <= i < |values| ==> values[i] < MaxOf(width)
    ensures ReadAll(Stream(values) + tail, width, |values|)
         == if Guarded(values, tail, width) then Some(values) else None
  {
    hide Encoded, LengthMax;
    if values != [] {
      var v, rest := values[0], Stream(values[1..]) + tail;
      assert Stream(values) + tail == Encoded(v) + rest;
      StreamRoundTrip(values[1..], tail, width);
      ReadFirst(v, rest, width, |values| - 1);
      assert values == [v] + values[1..];
    }
  }

  lemma ReadFirst(v: nat, rest: seq<byte>, width: nat, n: nat)
    requires Width(width) && v < MaxOf(width) && rest != []
    ensures var first := |Encoded(v)| == LengthMax(width) ==> rest[0] % 16 == 0;
            var others := ReadAll(rest, width, n);
            var expected := if first && others.Some? then Some([v] + others.value) else None;
            ReadAll(Encoded(v) + rest, width, n + 1) == expected
  {
    hide Encoded, LengthMax, Number, Scanned;
    var mem, k := Encoded(v) + rest, |Encoded(v)|;
    assert mem[..k] == Encoded(v) && mem[k..] == rest && mem[k] == rest[0];
    ReadInvertsWrite(mem, |mem| - 1, width, v);
    EncodedFits(v, width);
  }

  // ----- ZigZag

  /** A value cast to a signed integer of some width. */
  function Signed(x: int, width: nat): int
    requires Width(width)
  {
    var u := x % MaxOf(width);
    if u < MaxOf(width) / 2 then u else u - MaxOf(width)
  }

  predicate IsSigned(n: int, width: nat)
    requires Width(width)
  {
    0 <= n + MaxOf(width) / 2 < MaxOf(width)
  }

  /** x ^ -1 flips every bit, which is -x - 1; x ^ 0 is x. */
  function XorSign(x: int, negative: bool): int {
    if negative then -x - 1 else x
  }

  /** (n << 1) ^ (n >> (width - 1)), cast to unsigned. */
  function ZigZag(n: int, width: nat): (u: nat)
    requires Width(width)
  {
    XorSign(n * 2, n < 0) % MaxOf(width)
  }

  /** (u >> 1) ^ -(u & 1), in the signed type. */
  function UnZigZag(u: nat, width: nat): int
    requires Width(width)
  {
    Signed(XorSign(Signed(u / 2, width), u % 2 == 1), width)
  }

  lemma SignedIsIdentity(n: int, width: nat)
    requires Width(width) && IsSigned(n, width)
    ensures Signed(n, width) == n
  {
    if width == 16 {
    } else if width == 32 {
    } else {
    }
  }

  /** Small magnitudes of either sign get small codes. */
  lemma ZigZagMagnitude(n: int, width: nat)
    requires Width(width) && IsSigned(n, width)
    ensures ZigZag(n, width) == if n >= 0 then 2 * n else 2 * -n - 1
  {
  }

  lemma UnZigZagHalves(u: nat, width: nat)
    requires Width(width) && u < MaxOf(width)
    ensures var n := if u % 2 == 0 then u / 2 else -(u / 2 as int) - 1;
            IsSigned(n, width) && UnZigZag(u, width) == n
  {
    hide Signed;
    SignedIsIdentity(u / 2, width);
    SignedIsIdentity(XorSign(u / 2, u % 2 == 1), width);
  }

  /** At each width ZigZag maps the signed values one to one onto the unsigned ones. */
  lemma ZigZagIsABijection(n: int, u: nat, width: nat)
    requires Width(width) && IsSigned(n, width) && u < MaxOf(width)
    ensures ZigZag(n, width) < MaxOf(width) && UnZigZag(ZigZag(n, width), width) == n
    ensures IsSigned(UnZigZag(u, width), width) && ZigZag(UnZigZag(u, width), width) == u
  {
    hide ZigZag, UnZigZag;
    ZigZagMagnitude(n, width);
    UnZigZagHalves(ZigZag(n, width), width);
    UnZigZagHalves(u, width);
    ZigZagMagnitude(UnZigZag(u, width), width);
  }

  method WriteSigned(dst: array<byte>, dstLen: nat, val: int, width: nat) returns (ret: int, valLen: nat)
    requires Width(width) && IsSigned(val, width) && dstLen <= dst.Length
    modifies dst
    ensures dstLen < LengthMax(width) ==> ret == -EINVAL && dst[..] == old(dst[..])
    ensures dstLen >= LengthMax(width) ==>
              && ret == 0 && valLen == |Encoded(ZigZag(val, width))| <= dstLen
              && dst[..] == Encoded(ZigZag(val, width)) + old(dst[..])[valLen..]
  {
    ZigZagMagnitude(val, width);
    ret, valLen := Write(dst, dstLen, ZigZag(val, width), width);
  }

  /** The unsigned wrappers cast the 64-bit value down. */
  method ReadUnsigned(src: array<byte>, behind: byte, width: nat) returns (ret: int, val: nat, valLen: nat)
    requires Width(width)
    ensures src.Length == 0 ==> ret == -EINVAL
    ensures src.Length > 0 ==>
              match Scanned(src[..] + [behind], src.Length, LengthMax(width), 0)
              case None => ret == -EPROTO
              case Some(n) => ret == 0 && valLen == n && val == Number(src[..n]) % MaxOf(width)
  {
    hide Number, Scanned, LengthMax;
    var val64;
    ghost var looked, far;
    ret, val64, valLen, looked, far := Read(src, behind, width);
    val := val64 % MaxOf(width);
    if ret == 0 {
      Narrowed(Number(src[..valLen]), width);
    }
  }

  lemma Narrowed(x: nat, width: nat)
    requires Width(width)
    ensures x % TWO64 % MaxOf(width) == x % MaxOf(width)
  {
    var q, r := x / TWO64, x % TWO64;
    assert x == TWO64 * q + r;
    if width == 16 {
      Remainder16(0x1_0000_0000_0000 * q, r);
    } else if width == 32 {
      Remainder32(0x1_0000_0000 * q, r);
    }
  }

  lemma Remainder16(k: nat, r: nat)
    ensures (0x1_0000 * k + r) % 0x1_0000 == r % 0x1_0000
  {
  }

  lemma Remainder32(k: nat, r: nat)
    ensures (0x1_0000_0000 * k + r) % 0x1_0000_0000 == r % 0x1_0000_0000
  {
  }

  /** The signed wrappers also undo ZigZag. */
  method ReadSigned(src: array<byte>, behind: byte, width: nat) returns (ret: int, val: int, valLen: nat)
    requires Width(width)
    ensures src.Length == 0 ==> ret == -EINVAL
    ensures src.Length > 0 ==>
              match Scanned(src[..] + [behind], src.Length, LengthMax(width), 0)
              case None => ret == -EPROTO
              case Some(n) => ret == 0 && valLen == n && val == UnZigZag(Number(src[..n]) % TWO64, width)
  {
    var val64;
    ghost var looked, far;
    ret, val64, valLen, looked, far := Read(src, behind, width);
    val := UnZigZag(val64, width);
  }

  /** A signed value survives the trip under the same condition as an unsigned one. */
  lemma SignedRoundTrip(mem: seq<byte>, srcLen: nat, width: nat, val: int)
    requires Width(width) && IsSigned(val, width)
    requires var e := Encoded(ZigZag(val, width)); |e| <= srcLen < |mem| && mem[..|e|] == e
    ensures var n := |Encoded(ZigZag(val, width))|;
            && UnZigZag(Number(mem[..n]) % TWO64, width) == val
            && (Scanned(mem, srcLen, LengthMax(width), 0) == Some(n) <==>
                n < LengthMax(width) || mem[n] % 16 == 0)
  {
    hide ZigZag, UnZigZag;
    ZigZagIsABijection(val, 0, width);
    ReadInvertsWrite(mem, srcLen, width, ZigZag(val, width));
  }
}
