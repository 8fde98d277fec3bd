/** The checksum safew stores beside a payload, and the 4-byte file that holds it. */
module Crc {
  import opened Bytes

  type Data = Octets

  // 32-bit steps under names, so that proofs can treat them as opaque symbols
  function Plus(crc: bv32, b: bv8): bv32 {
    crc + (b as bv32)
  }

  function Add10(c: bv32): bv32 {
    c + (c << 10)
  }

  function Add3(c: bv32): bv32 {
    c + (c << 3)
  }

  function Add15(c: bv32): bv32 {
    c + (c << 15)
  }

  function Xor6(c: bv32): bv32 {
    c ^ (c >> 6)
  }

  function Xor11(c: bv32): bv32 {
    c ^ (c >> 11)
  }

  function Mix(crc: bv32, b: bv8): bv32 {
    Xor6(Add10(Plus(crc, b)))
  }

  function Absorb(data: Data): bv32 {
    if data == [] then 0 else Mix(Absorb(data[..|data| - 1]), data[|data| - 1])
  }

  function Finish(crc: bv32): bv32 {
    Add15(Xor11(Add3(crc)))
  }

  function Checksum(data: Data): bv32 {
    Finish(Absorb(data))
  }

  /** crc_from_fhd: reads the file to its end, one byte at a time. */
  method CrcFromFile(file: Data) returns (crc: bv32)
    ensures crc == Checksum(file)
  {
    crc := 0;
    var pos := 0;
    while pos < |file|
      invariant pos <= |file|
      invariant crc == Absorb(file[..pos])
    {
      assert file[..pos + 1][..pos] == file[..pos];
      crc := Mix(crc, file[pos]);
      pos := pos + 1;
    }
    assert file[..pos] == file;
    crc := Finish(crc);
  }

  const CRC_SIZE: nat := 4

  // ----- what the checksum tells apart

  /** "a", and "abc": the values of the published one-at-a-time hash. */
  lemma KnownChecksums()
    ensures Checksum([0x61]) == 0xca2e9442
    ensures Checksum([0x61, 0x62, 0x63]) == 0xed131f5b
  {
    assert Absorb([]) == 0;
    assert [0x61 as bv8][..0] == [];
    assert Absorb([0x61]) == Mix(0, 0x61);
    assert [0x61 as bv8, 0x62][..1] == [0x61];
    assert Absorb([0x61, 0x62]) == Mix(Mix(0, 0x61), 0x62);
    assert [0x61 as bv8, 0x62, 0x63][..2] == [0x61, 0x62];
    assert Absorb([0x61, 0x62, 0x63]) == Mix(Mix(Mix(0, 0x61), 0x62), 0x63);
  }

  // No step loses anything: known bits of the argument give the next ones.

  lemma Add10Part1(x: bv32, y: bv32)
    requires Add10(x) == Add10(y)
    ensures x & 0x3ff == y & 0x3ff
  {
  }

  lemma Add10Part2(x: bv32, y: bv32)
    requires Add10(x) == Add10(y) && x & 0x3ff == y & 0x3ff
    ensures x & 0xfffff == y & 0xfffff
  {
  }

  lemma Add10Part3(x: bv32, y: bv32)
    requires Add10(x) == Add10(y) && x & 0xfffff == y & 0xfffff
    ensures x & 0x3fffffff == y & 0x3fffffff
  {
  }

  lemma Add10Part4(x: bv32, y: bv32)
    requires Add10(x) == Add10(y) && x & 0x3fffffff == y & 0x3fffffff
    ensures x == y
  {
  }

  /** From the low bits up. */
  lemma Add10IsInjective(x: bv32, y: bv32)
    requires Add10(x) == Add10(y)
    ensures x == y
  {
    hide Add10;
    Add10Part1(x, y);
    Add10Part2(x, y);
    Add10Part3(x, y);
    Add10Part4(x, y);
  }

  lemma Add3Part1(x: bv32, y: bv32)
    requires Add3(x) == Add3(y)
    ensures x & 0xff == y & 0xff
  {
  }

  lemma Add3Part2(x: bv32, y: bv32)
    requires Add3(x) == Add3(y) && x & 0xff == y & 0xff
    ensures x & 0xffff == y & 0xffff
  {
  }

  lemma Add3Part3(x: bv32, y: bv32)
    requires Add3(x) == Add3(y) && x & 0xffff == y & 0xffff
    ensures x == y
  {
  }

  /** From the low bits up. */
  lemma Add3IsInjective(x: bv32, y: bv32)
    requires Add3(x) == Add3(y)
    ensures x == y
  {
    hide Add3;
    Add3Part1(x, y);
    Add3Part2(x, y);
    Add3Part3(x, y);
  }

  lemma Add15Part1(x: bv32, y: bv32)
    requires Add15(x) == Add15(y)
    ensures x & 0x7fff == y & 0x7fff
  {
  }

  lemma Add15Part2(x: bv32, y: bv32)
    requires Add15(x) == Add15(y) && x & 0x7fff == y & 0x7fff
    ensures x & 0x3fffffff == y & 0x3fffffff
  {
  }

  lemma Add15Part3(x: bv32, y: bv32)
    requires Add15(x) == Add15(y) && x & 0x3fffffff == y & 0x3fffffff
    ensures x == y
  {
  }

  /** From the low bits up. */
  lemma Add15IsInjective(x: bv32, y: bv32)
    requires Add15(x) == Add15(y)
    ensures x == y
  {
    hide Add15;
    Add15Part1(x, y);
    Add15Part2(x, y);
    Add15Part3(x, y);
  }

  lemma Xor6Part1(x: bv32, y: bv32)
    requires Xor6(x) == Xor6(y)
    ensures x & 0xfff00000 == y & 0xfff00000
  {
  }

  lemma Xor6Part2(x: bv32, y: bv32)
    requires Xor6(x) == Xor6(y) && x & 0xfff00000 == y & 0xfff00000
    ensures x & 0xffffc000 == y & 0xffffc000
  {
  }

  lemma Xor6Part3(x: bv32, y: bv32)
    requires Xor6(x) == Xor6(y) && x & 0xffffc000 == y & 0xffffc000
    ensures x & 0xffffff00 == y & 0xffffff00
  {
  }

  lemma Xor6Part4(x: bv32, y: bv32)
    requires Xor6(x) == Xor6(y) && x & 0xffffff00 == y & 0xffffff00
    ensures x & 0xfffffffc == y & 0xfffffffc
  {
  }

  lemma Xor6Part5(x: bv32, y: bv32)
    requires Xor6(x) == Xor6(y) && x & 0xfffffffc == y & 0xfffffffc
    ensures x == y
  {
  }

  /** From the high bits down. */
  lemma Xor6IsInjective(x: bv32, y: bv32)
    requires Xor6(x) == Xor6(y)
    ensures x == y
  {
    hide Xor6;
    Xor6Part1(x, y);
    Xor6Part2(x, y);
    Xor6Part3(x, y);
    Xor6Part4(x, y);
    Xor6Part5(x, y);
  }

  lemma Xor11Part1(x: bv32, y: bv32)
    requires Xor11(x) == Xor11(y)
    ensures x & 0xffe00000 == y & 0xffe00000
  {
  }

  lemma Xor11Part2(x: bv32, y: bv32)
    requires Xor11(x) == Xor11(y) && x & 0xffe00000 == y & 0xffe00000
    ensures x & 0xffff0000 == y & 0xffff0000
  {
  }

  lemma Xor11Part3(x: bv32, y: bv32)
    requires Xor11(x) == Xor11(y) && x & 0xffff0000 == y & 0xffff0000
    ensures x & 0xfffff800 == y & 0xfffff800
  {
  }

  lemma Xor11Part4(x: bv32, y: bv32)
    requires Xor11(x) == Xor11(y) && x & 0xfffff800 == y & 0xfffff800
    ensures x & 0xffffffe0 == y & 0xffffffe0
  {
  }

  lemma Xor11Part5(x: bv32, y: bv32)
    requires Xor11(x) == Xor11(y) && x & 0xffffffe0 == y & 0xffffffe0
    ensures x == y
  {
  }

  /** From the high bits down. */
  lemma Xor11IsInjective(x: bv32, y: bv32)
    requires Xor11(x) == Xor11(y)
    ensures x == y
  {
    hide Xor11;
    Xor11Part1(x, y);
    Xor11Part2(x, y);
    Xor11Part3(x, y);
    Xor11Part4(x, y);
    Xor11Part5(x, y);
  }

  function Minus(x: bv32, b: bv8): bv32 {
    x - (b as bv32)
  }

  lemma PlusUndone(c: bv32, b: bv8)
    ensures Minus(Plus(c, b), b) == c
  {
  }

  lemma SumsDiffer(c: bv32, d: bv32, b: bv8)
    ensures Plus(c, b) == Plus(d, b) ==> c == d
  {
    hide Plus, Minus;
    PlusUndone(c, b);
    PlusUndone(d, b);
  }

  lemma BytesDiffer(c: bv32, a: bv8, b: bv8)
    ensures Plus(c, a) == Plus(c, b) ==> a == b
  {
  }

  /** A step of the checksum loses neither the sum so far nor the byte. */
  lemma MixIsInjective(c: bv32, d: bv32, a: bv8, b: bv8)
    requires Mix(c, a) == Mix(d, b)
    ensures a == b <==> c == d
  {
    hide Plus, Add10, Xor6;
    Xor6IsInjective(Add10(Plus(c, a)), Add10(Plus(d, b)));
    Add10IsInjective(Plus(c, a), Plus(d, b));
    if a == b {
      SumsDiffer(c, d, a);
    }
    if c == d {
      BytesDiffer(c, a, b);
    }
  }

  lemma FinishIsInjective(c: bv32, d: bv32)
    requires Finish(c) == Finish(d)
    ensures c == d
  {
    hide Add3, Xor11, Add15;
    Add15IsInjective(Xor11(Add3(c)), Xor11(Add3(d)));
    Xor11IsInjective(Add3(c), Add3(d));
    Add3IsInjective(c, d);
  }

  /** The bytes after a difference cannot hide it. */
  lemma {:induction false} TailKeepsDifference(a: Data, b: Data, tail: Data)
    ensures Absorb(a + tail) == Absorb(b + tail) <==> Absorb(a) == Absorb(b)
    decreases |tail|
  {
    if tail == [] {
      assert a + tail == a && b + tail == b;
    } else {
      var n := |tail| - 1;
      assert (a + tail)[..|a| + n] == a + tail[..n] && (b + tail)[..|b| + n] == b + tail[..n];
      TailKeepsDifference(a, b, tail[..n]);
      hide Mix;
      if Absorb(a + tail) == Absorb(b + tail) {
        MixIsInjective(Absorb(a + tail[..n]), Absorb(b + tail[..n]), tail[n], tail[n]);
      }
    }
  }

  /** A payload with one byte changed never has the same checksum. */
  lemma OneByteIsDetected(data: Data, i: nat, b: bv8)
    requires i < |data|
    ensures Checksum(data[i := b]) == Checksum(data) <==> b == data[i]
  {
    hide Mix, Finish;
    var head, tail := data[..i], data[i + 1..];
    assert data == head + [data[i]] + tail && data[i := b] == head + [b] + tail;
    assert (head + [b])[..i] == head && (head + [data[i]])[..i] == head;
    TailKeepsDifference(head + [b], head + [data[i]], tail);
    if Checksum(data[i := b]) == Checksum(data) {
      FinishIsInjective(Absorb(data[i := b]), Absorb(data));
      MixIsInjective(Absorb(head), Absorb(head), b, data[i]);
    }
  }
}
