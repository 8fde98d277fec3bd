/** The ChaCha20 keystream (RFC 8439, sections 2.1 to 2.4) that feeds the random pool. */
module Chacha {
  import opened Bytes

  type Words = s: seq<bv32> | |s| == 16 witness seq(16, _ => 0)

  const KEY_NONCE_SIZE: nat := 44
  const BLOCK_SIZE: nat := 64

  function Rotl(x: bv32, k: bv6): bv32
    requires 0 < k < 32
  {
    (x << k) | (x >> (32 - k))
  }

  function Rotr(x: bv32, k: bv6): bv32
    requires 0 < k < 32
  {
    (x >> k) | (x << (32 - k))
  }

  lemma Turn16(x: bv32)
    ensures Rotr(Rotl(x, 16), 16) == x
  {
  }

  lemma Turn12(x: bv32)
    ensures Rotr(Rotl(x, 12), 12) == x
  {
  }

  lemma Turn8(x: bv32)
    ensures Rotr(Rotl(x, 8), 8) == x
  {
  }

  lemma Turn7(x: bv32)
    ensures Rotr(Rotl(x, 7), 7) == x
  {
  }

  /** The rotations that ChaCha uses. */
  predicate Turn(k: bv6) {
    k == 16 || k == 12 || k == 8 || k == 7
  }

  lemma RotrUndoesRotl(x: bv32, k: bv6)
    requires Turn(k)
    ensures Rotr(Rotl(x, k), k) == x
  {
    hide Rotl, Rotr;
    if k == 16 {
      Turn16(x);
    } else if k == 12 {
      Turn12(x);
    } else if k == 8 {
      Turn8(x);
    } else {
      Turn7(x);
    }
  }

  // 32-bit operations under names, so that proofs can treat them as opaque symbols
  function Add(a: bv32, b: bv32): bv32 {
    a + b
  }

  function Sub(a: bv32, b: bv32): bv32 {
    a - b
  }

  function Xor(a: bv32, b: bv32): bv32 {
    a ^ b
  }

  /** One line of the quarter round: a += b; d = rotl(d ^ a, k). */
  function Half(a: bv32, b: bv32, d: bv32, k: bv6): (bv32, bv32)
    requires 0 < k < 32
  {
    (Add(a, b), Rotl(Xor(d, Add(a, b)), k))
  }

  function UnHalf(a: bv32, b: bv32, d: bv32, k: bv6): (bv32, bv32)
    requires 0 < k < 32
  {
    (Sub(a, b), Xor(Rotr(d, k), a))
  }

  lemma XorTwice(d: bv32, s: bv32)
    ensures Xor(Xor(d, s), s) == d
  {
  }

  lemma SubtractSum(a: bv32, b: bv32)
    ensures Sub(a + b, b) == a
  {
  }

  lemma SubtractBack(a: bv32, b: bv32)
    ensures Sub(Add(a, b), b) == a
  {
    hide Sub;
    SubtractSum(a, b);
  }

  lemma UnHalfUndoesHalf(a: bv32, b: bv32, d: bv32, k: bv6)
    requires Turn(k)
    ensures var (a', d') := Half(a, b, d, k); UnHalf(a', b, d', k) == (a, d)
  {
    hide Add, Sub, Xor, Rotl, Rotr;
    RotrUndoesRotl(Xor(d, Add(a, b)), k);
    XorTwice(d, Add(a, b));
    SubtractBack(a, b);
  }

  datatype Quad = Quad(a: bv32, b: bv32, c: bv32, d: bv32)

  function QuarterRound(q: Quad): Quad {
    var (a1, d1) := Half(q.a, q.b, q.d, 16);
    var (c1, b1) := Half(q.c, d1, q.b, 12);
    var (a2, d2) := Half(a1, b1, d1, 8);
    var (c2, b2) := Half(c1, d2, b1, 7);
    Quad(a2, b2, c2, d2)
  }

  function UnQuarterRound(q: Quad): Quad {
    var (c1, b1) := UnHalf(q.c, q.d, q.b, 7);
    var (a1, d1) := UnHalf(q.a, b1, q.d, 8);
    var (c0, b0) := UnHalf(c1, d1, b1, 12);
    var (a0, d0) := UnHalf(a1, b0, d1, 16);
    Quad(a0, b0, c0, d0)
  }

  lemma QuarterRoundInverts(q: Quad)
    ensures UnQuarterRound(QuarterRound(q)) == q
  {
    hide Half, UnHalf;
    var (a1, d1) := Half(q.a, q.b, q.d, 16);
    var (c1, b1) := Half(q.c, d1, q.b, 12);
    var (a2, d2) := Half(a1, b1, d1, 8);
    UnHalfUndoesHalf(c1, d2, b1, 7);
    UnHalfUndoesHalf(a1, b1, d1, 8);
    UnHalfUndoesHalf(q.c, d1, q.b, 12);
    UnHalfUndoesHalf(q.a, q.b, q.d, 16);
  }

  /** The example of RFC 8439, section 2.1.1. */
  lemma QuarterRoundExample()
    ensures QuarterRound(Quad(0x11111111, 0x01020304, 0x9b8d6f43, 0x01234567))
         == Quad(0xea2a92f4, 0xcb1cf8ce, 0x4581472e, 0x5881c4bb)
  {
  }

  // ----- rounds on the sixteen words

  /** Four different positions in the state. */
  predicate Lanes(i: nat, j: nat, k: nat, l: nat) {
    i < 16 && j < 16 && k < 16 && l < 16 && i != j && i != k && i != l && j != k && j != l && k != l
  }

  function Put(x: Words, i: nat, j: nat, k: nat, l: nat, q: Quad): Words
    requires Lanes(i, j, k, l)
  {
    x[i := q.a][j := q.b][k := q.c][l := q.d]
  }

  function Quarter(x: Words, i: nat, j: nat, k: nat, l: nat): Words
    requires Lanes(i, j, k, l)
  {
    Put(x, i, j, k, l, QuarterRound(Quad(x[i], x[j], x[k], x[l])))
  }

  function UnQuarter(x: Words, i: nat, j: nat, k: nat, l: nat): Words
    requires Lanes(i, j, k, l)
  {
    Put(x, i, j, k, l, UnQuarterRound(Quad(x[i], x[j], x[k], x[l])))
  }

  lemma QuarterInverts(x: Words, i: nat, j: nat, k: nat, l: nat)
    requires Lanes(i, j, k, l)
    ensures UnQuarter(Quarter(x, i, j, k, l), i, j, k, l) == x
  {
    hide QuarterRound, UnQuarterRound;
    QuarterRoundInverts(Quad(x[i], x[j], x[k], x[l]));
  }

  /** Four column rounds, then four diagonal rounds. */
  function DoubleRound(x: Words): Words {
    var x := Quarter(x, 0, 4, 8, 12);
    var x := Quarter(x, 1, 5, 9, 13);
    var x := Quarter(x, 2, 6, 10, 14);
    var x := Quarter(x, 3, 7, 11, 15);
    var x := Quarter(x, 0, 5, 10, 15);
    var x := Quarter(x, 1, 6, 11, 12);
    var x := Quarter(x, 2, 7, 8, 13);
    Quarter(x, 3, 4, 9, 14)
  }

  function UnDoubleRound(x: Words): Words {
    var x := UnQuarter(x, 3, 4, 9, 14);
    var x := UnQuarter(x, 2, 7, 8, 13);
    var x := UnQuarter(x, 1, 6, 11, 12);
    var x := UnQuarter(x, 0, 5, 10, 15);
    var x := UnQuarter(x, 3, 7, 11, 15);
    var x := UnQuarter(x, 2, 6, 10, 14);
    var x := UnQuarter(x, 1, 5, 9, 13);
    UnQuarter(x, 0, 4, 8, 12)
  }

  lemma DoubleRoundInverts(x: Words)
    ensures UnDoubleRound(DoubleRound(x)) == x
  {
    hide Quarter, UnQuarter;
    var x1 := Quarter(x, 0, 4, 8, 12);
    var x2 := Quarter(x1, 1, 5, 9, 13);
    var x3 := Quarter(x2, 2, 6, 10, 14);
    var x4 := Quarter(x3, 3, 7, 11, 15);
    var x5 := Quarter(x4, 0, 5, 10, 15);
    var x6 := Quarter(x5, 1, 6, 11, 12);
    var x7 := Quarter(x6, 2, 7, 8, 13);
    QuarterInverts(x7, 3, 4, 9, 14);
    QuarterInverts(x6, 2, 7, 8, 13);
    QuarterInverts(x5, 1, 6, 11, 12);
    QuarterInverts(x4, 0, 5, 10, 15);
    QuarterInverts(x3, 3, 7, 11, 15);
    QuarterInverts(x2, 2, 6, 10, 14);
    QuarterInverts(x1, 1, 5, 9, 13);
    QuarterInverts(x, 0, 4, 8, 12);
  }

  function Rounds(x: Words, n: nat): Words {
    if n == 0 then x else DoubleRound(Rounds(x, n - 1))
  }

  function UnRounds(x: Words, n: nat): Words
    decreases n
  {
    if n == 0 then x else UnRounds(UnDoubleRound(x), n - 1)
  }

  /** The rounds before the feed-forward lose nothing: running them backwards restores the state. */
  lemma {:induction false} RoundsInvert(x: Words, n: nat)
    ensures UnRounds(Rounds(x, n), n) == x
    decreases n
  {
    hide DoubleRound, UnDoubleRound;
    if n > 0 {
      DoubleRoundInverts(Rounds(x, n - 1));
      RoundsInvert(x, n - 1);
    }
  }

  // ----- blocks and keystream

  const DOUBLE_ROUNDS: nat := 10
  const COUNTER: nat := 12

  function Serialized(x: seq<bv32>): (d: Octets)
    ensures |d| == 4 * |x|
  {
    if x == [] then [] else Serialized(x[..|x| - 1]) + LeBytes(x[|x| - 1])
  }

  function Sums(x: Words, y: Words): Words {
    seq(16, i requires 0 <= i < 16 => Add(x[i], y[i]))
  }

  function Block(st: Words): (b: Octets)
    ensures |b| == BLOCK_SIZE
  {
    Serialized(Sums(Rounds(st, DOUBLE_ROUNDS), st))
  }

  /** The state whose block counter is k blocks further, modulo 2^32. */
  function Bumped(st: Words): Words {
    st[COUNTER := Add(st[COUNTER], 1)]
  }

  function Advanced(st: Words, k: nat): Words
    decreases k
  {
    if k == 0 then st else Advanced(Bumped(st), k - 1)
  }

  function Blocks(st: Words, k: nat): (d: Octets)
    ensures |d| == BLOCK_SIZE * k
    decreases k
  {
    if k == 0 then [] else Block(st) + Blocks(Bumped(st), k - 1)
  }

  function BlockCount(len: nat): nat {
    (len + BLOCK_SIZE - 1) / BLOCK_SIZE
  }

  /** The keystream of any length is a prefix of the concatenated blocks from the counter on. */
  function Keystream(st: Words, len: nat): (d: Octets)
    ensures |d| == len
  {
    Blocks(st, BlockCount(len))[..len]
  }

  lemma {:induction false} BlocksSplit(st: Words, k: nat, n: nat)
    ensures Blocks(st, k + n) == Blocks(st, k) + Blocks(Advanced(st, k), n)
    ensures Advanced(st, k + n) == Advanced(Advanced(st, k), n)
    decreases k
  {
    hide Block, Bumped;
    if k > 0 {
      BlocksSplit(Bumped(st), k - 1, n);
    }
  }

  /** A keystream starts with the block of the state itself. */
  lemma KeystreamStarts(st: Words, len: nat)
    requires len <= BLOCK_SIZE
    ensures BLOCK_SIZE == 64 && Keystream(st, len) == Block(st)[..len]
  {
    hide Block;
    if len > 0 {
      assert Blocks(st, 1) == Block(st) + Blocks(Bumped(st), 0);
    }
  }

  /** Each block moves the counter, word 12, by one, modulo 2^32, and nothing else. */
  lemma {:induction false} CounterMoves(st: Words, k: nat)
    ensures Advanced(st, 0) == st && Advanced(st, k + 1)[12] == Advanced(st, k)[12] + 1
    ensures forall i :: 0 <= i < 16 && i != 12 ==> Advanced(st, k + 1)[i] == st[i]
    decreases k
  {
    hide Block, Blocks;
    BlocksNext(st, k);
    if k > 0 {
      CounterMoves(st, k - 1);
    }
  }

  /** A request of whole blocks followed by another is one combined request. */
  lemma KeystreamComposes(st: Words, k: nat, len: nat)
    ensures Keystream(st, BLOCK_SIZE * k + len)
         == Keystream(st, BLOCK_SIZE * k) + Keystream(Advanced(st, k), len)
    ensures Advanced(st, BlockCount(BLOCK_SIZE * k + len))
         == Advanced(Advanced(st, BlockCount(BLOCK_SIZE * k)), BlockCount(len))
  {
    hide Blocks, Advanced;
    var n := BlockCount(len);
    assert BlockCount(BLOCK_SIZE * k) == k && BlockCount(BLOCK_SIZE * k + len) == k + n;
    BlocksSplit(st, k, n);
  }

  // ----- the same, in place

  /** One line of the quarter round, on the words at a, b and d. */
  method HalfInPlace(x: array<bv32>, a: nat, b: nat, d: nat, k: bv6)
    requires x.Length == 16 && a < 16 && b < 16 && d < 16 && a != b && a != d && b != d && 0 < k < 32
    modifies x
    ensures var (sum, turned) := Half(old(x[a]), old(x[b]), old(x[d]), k);
            x[..] == old(x[..])[a := sum][d := turned]
  {
    hide Add, Xor, Rotl;
    x[a] := Add(x[a], x[b]);
    x[d] := Rotl(Xor(x[d], x[a]), k);
  }

  method QuarterRoundInPlace(x: array<bv32>, a: nat, b: nat, c: nat, d: nat)
    requires x.Length == 16 && Lanes(a, b, c, d)
    modifies x
    ensures x[..] == Quarter(old(x[..]), a, b, c, d)
  {
    hide Half;
    HalfInPlace(x, a, b, d, 16);
    HalfInPlace(x, c, d, b, 12);
    HalfInPlace(x, a, b, d, 8);
    HalfInPlace(x, c, d, b, 7);
  }

  method DoubleRoundInPlace(x: array<bv32>)
    requires x.Length == 16
    modifies x
    ensures x[..] == DoubleRound(old(x[..]))
  {
    hide Quarter;
    QuarterRoundInPlace(x, 0, 4, 8, 12);
    QuarterRoundInPlace(x, 1, 5, 9, 13);
    QuarterRoundInPlace(x, 2, 6, 10, 14);
    QuarterRoundInPlace(x, 3, 7, 11, 15);
    QuarterRoundInPlace(x, 0, 5, 10, 15);
    QuarterRoundInPlace(x, 1, 6, 11, 12);
    QuarterRoundInPlace(x, 2, 7, 8, 13);
    QuarterRoundInPlace(x, 3, 4, 9, 14);
  }

  /** chacha_block: twenty rounds on a copy, the feed-forward, and the words in byte order. */
  method ChachaBlock(input: array<bv32>, out: array<bv8>, at: nat)
    requires input.Length == 16 && at + BLOCK_SIZE <= out.Length
    modifies out
    ensures out[..] == old(out[..at]) + Block(input[..]) + old(out[at + BLOCK_SIZE..])
  {
    hide DoubleRound, Add, LeBytes;
    ghost var st := input[..];
    var x := new bv32[16](_ => 0);
    for i := 0 to 16
      modifies x
      invariant forall k :: 0 <= k < i ==> x[k] == st[k]
    {
      x[i] := input[i];
    }
    assert x[..] == st;
    for i := 0 to DOUBLE_ROUNDS
      modifies x
      invariant x[..] == Rounds(st, i)
    {
      DoubleRoundInPlace(x);
    }
    FeedForward(x, input);
    assert input[..] == st;
    WriteWords(x, out, at);
  }

  method FeedForward(x: array<bv32>, input: array<bv32>)
    requires x.Length == 16 && input.Length == 16 && x != input
    modifies x
    ensures x[..] == Sums(old(x[..]), input[..])
  {
    hide Add;
    for i := 0 to 16
      invariant forall k :: 0 <= k < i ==> x[k] == Add(old(x[k]), input[k])
      invariant forall k :: i <= k < 16 ==> x[k] == old(x[k])
    {
      x[i] := Add(x[i], input[i]);
    }
  }

  method Write32Le(v: bv32, out: array<bv8>, at: nat)
    requires at + 4 <= out.Length
    modifies out
    ensures out[..] == old(out[..at]) + LeBytes(v) + old(out[at + 4..])
  {
    hide LeBytes;
    var d := LeBytes(v);
    out[at], out[at + 1], out[at + 2], out[at + 3] := d[0], d[1], d[2], d[3];
  }

  /** The output once the first i words are written from position `at` on. */
  ghost function Written(before: Octets, x: seq<bv32>, at: nat, i: nat): Octets
    requires i <= |x| && at + 4 * i <= |before|
  {
    before[..at] + Serialized(x[..i]) + before[at + 4 * i..]
  }

  lemma WrittenNext(before: Octets, x: seq<bv32>, at: nat, i: nat)
    requires i < |x| && at + 4 * i + 4 <= |before|
    ensures var w := Written(before, x, at, i);
            && |w| == |before|
            && w[..at + 4 * i] + LeBytes(x[i]) + w[at + 4 * i + 4..] == Written(before, x, at, i + 1)
  {
    hide LeBytes;
    assert x[..i + 1][..i] == x[..i];
  }

  method WriteWords(x: array<bv32>, out: array<bv8>, at: nat)
    requires x.Length == 16 && at + BLOCK_SIZE <= out.Length
    modifies out
    ensures out[..] == old(out[..at]) + Serialized(x[..]) + old(out[at + BLOCK_SIZE..])
  {
    hide LeBytes, Serialized;
    ghost var before := out[..];
    WrittenStart(before, x[..], at);
    for i := 0 to 16
      invariant out[..] == Written(before, x[..], at, i)
    {
      WrittenNext(before, x[..], at, i);
      Write32Le(x[i], out, at + 4 * i);
    }
    assert x[..][..16] == x[..];
  }

  lemma WrittenStart(before: Octets, x: seq<bv32>, at: nat)
    requires at <= |before|
    ensures Written(before, x, at, 0) == before
  {
  }

  // ----- the generator object

  /** The words of "expand 32-byte k". */
  const CONSTANTS: seq<bv32> := [0x61707865, 0x3320646e, 0x79622d32, 0x6b206574]

  /** chacha_init: the constants, eight key words, a zero block counter, three nonce words. */
  function InitState(key: Octets): Words
    requires |key| == KEY_NONCE_SIZE
  {
    CONSTANTS
    + seq(8, i requires 0 <= i < 8 => ReadLe(key, 4 * i))
    + [0]
    + seq(3, i requires 0 <= i < 3 => ReadLe(key, 32 + 4 * i))
  }

  class Generator {
    const x: array<bv32>

    ghost predicate Valid() {
      x.Length == 16
    }

    constructor (key: Octets)
      requires |key| == KEY_NONCE_SIZE
      ensures Valid() && fresh(x) && x[..] == InitState(key)
    {
      x := new bv32[16](_ => 0);
      new;
      Init(key);
    }

    method Init(key: Octets)
      requires Valid() && |key| == KEY_NONCE_SIZE
      modifies x
      ensures x[..] == InitState(key)
    {
      hide ReadLe;
      x[0], x[1], x[2], x[3] := CONSTANTS[0], CONSTANTS[1], CONSTANTS[2], CONSTANTS[3];
      forall i | 0 <= i < 8 {
        x[4 + i] := ReadLe(key, 4 * i);
      }
      x[COUNTER] := 0;
      forall i | 0 <= i < 3 {
        x[13 + i] := ReadLe(key, 32 + 4 * i);
      }
    }

    /** chacha_get */
    method Get(out: array<bv8>, at: nat)
      requires Valid() && at + BLOCK_SIZE <= out.Length
      modifies x, out
      ensures out[..] == old(out[..at]) + Block(old(x[..])) + old(out[at + BLOCK_SIZE..])
      ensures x[..] == Bumped(old(x[..]))
    {
      hide Block, Add;
      ChachaBlock(x, out, at);
      x[COUNTER] := Add(x[COUNTER], 1);
    }

    /** The whole blocks of chacha_keystream. */
    method FillBlocks(buffer: array<bv8>, at: nat, len: nat) returns (p: nat, left: nat)
      requires Valid() && at + len <= buffer.Length
      modifies x, buffer
      ensures left == len % BLOCK_SIZE && p == at + len / BLOCK_SIZE * BLOCK_SIZE
      ensures buffer[..] == Spliced(old(buffer[..]), at, Blocks(old(x[..]), len / BLOCK_SIZE))
      ensures x[..] == Advanced(old(x[..]), len / BLOCK_SIZE)
    {
      hide Block, Bumped, Advanced, Blocks, Spliced;
      ghost var st, before, k := x[..], buffer[..], 0;
      p, left := at, len;
      BlocksStart(st);
      SplicedNothing(before, at);
      while left >= BLOCK_SIZE
        invariant p == at + BLOCK_SIZE * k && p + left == at + len
        invariant buffer[..] == Spliced(before, at, Blocks(st, k))
        invariant x[..] == Advanced(st, k)
      {
        BlocksNext(st, k);
        SplicedNext(before, at, Blocks(st, k), Block(x[..]));
        Get(buffer, p);
        p := p + BLOCK_SIZE;
        left := left - BLOCK_SIZE;
        k := k + 1;
      }
    }

    /** chacha_keystream: whole blocks straight into the buffer, a last partial one through a copy. */
    method Fill(buffer: array<bv8>, at: nat, len: nat)
      requires Valid() && at + len <= buffer.Length
      modifies x, buffer
      ensures buffer[..] == Spliced(old(buffer[..]), at, Keystream(old(x[..]), len))
      ensures x[..] == Advanced(old(x[..]), BlockCount(len))
    {
      hide Block, Bumped, Advanced, Blocks, Spliced, Keystream;
      ghost var st, before := x[..], buffer[..];
      var p, left := FillBlocks(buffer, at, len);
      KeystreamEnd(st, len);
      if left > 0 {
        var tmp := new bv8[BLOCK_SIZE](_ => 0);
        SplicedNext(before, at, Blocks(st, len / BLOCK_SIZE), Block(x[..])[..left]);
        BlocksNext(st, len / BLOCK_SIZE);
        ghost var block := Block(x[..]);
        Get(tmp, 0);
        assert tmp[..left] == block[..left];
        Memcpy(buffer, p, tmp[..left]);
      }
    }
  }

  /** A buffer with some of its bytes, from `at` on, replaced. */
  ghost function Spliced(before: Octets, at: nat, piece: Octets): (after: Octets)
    requires at + |piece| <= |before|
    ensures |after| == |before|
  {
    before[..at] + piece + before[at + |piece|..]
  }

  lemma SplicedNothing(before: Octets, at: nat)
    requires at <= |before|
    ensures Spliced(before, at, []) == before
  {
  }

  lemma SplicedNext(before: Octets, at: nat, done: Octets, piece: Octets)
    requires at + |done| + |piece| <= |before|
    ensures var w, p := Spliced(before, at, done), at + |done|;
            w[..p] + piece + w[p + |piece|..] == Spliced(before, at, done + piece)
  {
  }

  lemma KeystreamEnd(st: Words, len: nat)
    ensures BlockCount(len) == len / BLOCK_SIZE + (if len % BLOCK_SIZE == 0 then 0 else 1)
    ensures var whole := Blocks(st, len / BLOCK_SIZE);
            Keystream(st, len) == if len % BLOCK_SIZE == 0 then whole
                                  else whole + Block(Advanced(st, len / BLOCK_SIZE))[..len % BLOCK_SIZE]
  {
    hide Block, Advanced, Blocks;
    var k := len / BLOCK_SIZE;
    if len % BLOCK_SIZE != 0 {
      BlocksNext(st, k);
    }
  }

  lemma BlocksStart(st: Words)
    ensures Blocks(st, 0) == [] && Advanced(st, 0) == st
  {
  }

  lemma BlocksNext(st: Words, k: nat)
    ensures Blocks(st, k + 1) == Blocks(st, k) + Block(Advanced(st, k))
    ensures Advanced(st, k + 1) == Bumped(Advanced(st, k))
  {
    hide Block, Bumped;
    BlocksSplit(st, k, 1);
    BlocksStart(Bumped(Advanced(st, k)));
    assert Blocks(Advanced(st, k), 1) == Block(Advanced(st, k)) + Blocks(Bumped(Advanced(st, k)), 0);
  }
}
