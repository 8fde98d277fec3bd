/**
 * The random pool: 512 bytes of keystream, re-keyed at every reload. Whatever is taken out, as output
 * or as a key, is recorded piece by piece; the pieces are disjoint parts, in order, of the keystreams
 * of the seed and of the keys taken out at each reload.
 */
module Pool {
  import opened Bytes
  import opened Chacha

  const POOL_SIZE: nat := 512

  /** The global seed era: it starts at 1 and grows by 2, so it is never 0, a fresh pool's era. */
  class SeedEra {
    var current: bv32

    ghost predicate Valid()
      reads this
    {
      current & 1 == 1
    }

    constructor ()
      ensures Valid() && current == 1
    {
      current := 1;
    }

    /** pool_seed_era_new, as an atomic step. */
    method New() returns (era: bv32)
      requires Valid()
      modifies this
      ensures Valid() && era == current == old(current) + 2
    {
      OddPlusTwo(current);
      current := current + 2;
      era := current;
    }
  }

  lemma OddPlusTwo(era: bv32)
    requires era & 1 == 1
    ensures (era + 2) & 1 == 1
  {
  }

  lemma OddIsNotZero(era: bv32)
    requires era & 1 == 1
    ensures era != 0
  {
  }

  // ----- the pieces taken out since the last seed

  ghost function Flat(pieces: seq<Octets>): Octets {
    if pieces == [] then []
    else Flat(pieces[..|pieces| - 1]) + pieces[|pieces| - 1]
  }

  lemma FlatAppend(pieces: seq<Octets>, p: Octets)
    ensures Flat(pieces + [p]) == Flat(pieces) + p
  {
    assert (pieces + [p])[..|pieces|] == pieces;
  }

  /** Where a piece starts in the stream of all pieces. */
  ghost function Start(pieces: seq<Octets>, i: nat): nat
    requires i <= |pieces|
  {
    |Flat(pieces[..i])|
  }

  lemma {:induction false} PieceAt(pieces: seq<Octets>, i: nat)
    requires i < |pieces|
    ensures Start(pieces, i) + |pieces[i]| == Start(pieces, i + 1) <= |Flat(pieces)|
    ensures Flat(pieces)[Start(pieces, i)..Start(pieces, i + 1)] == pieces[i]
  {
    var n := |pieces| - 1;
    assert pieces[..i + 1][..i] == pieces[..i];
    if i == n {
      assert pieces[..n + 1] == pieces;
    } else {
      PieceAt(pieces[..n], i);
      assert pieces[..n][..i] == pieces[..i] && pieces[..n][..i + 1] == pieces[..i + 1];
    }
  }

  /** Any two pieces, of whichever calls, are different parts of the stream, the later one behind. */
  lemma {:induction false} PiecesAreDisjoint(pieces: seq<Octets>, i: nat, j: nat)
    requires i < j < |pieces|
    ensures Start(pieces, i) + |pieces[i]| <= Start(pieces, j)
    ensures Start(pieces, j) + |pieces[j]| <= |Flat(pieces)|
    ensures Flat(pieces)[Start(pieces, i)..Start(pieces, i) + |pieces[i]|] == pieces[i]
    ensures Flat(pieces)[Start(pieces, j)..Start(pieces, j) + |pieces[j]|] == pieces[j]
    decreases j - i
  {
    PieceAt(pieces, i);
    PieceAt(pieces, j);
    if i + 1 < j {
      PiecesAreDisjoint(pieces, i + 1, j);
    }
  }

  // ----- where the bytes come from

  /** A reload: how many keystream bytes were loaded, and which piece became the next key. */
  datatype Batch = Batch(len: nat, keyPiece: nat)

  /** The key in use after the refills so far: the seed, or the piece taken out by the last one. */
  ghost function KeyInUse(seed: Octets, refills: seq<Batch>, pieces: seq<Octets>): Octets
    requires forall r <- refills :: r.keyPiece < |pieces|
  {
    if refills == [] then seed else pieces[refills[|refills| - 1].keyPiece]
  }

  /** Every refill is re-keyed by a piece of the length of a key. */
  ghost predicate Chained(seed: Octets, refills: seq<Batch>, pieces: seq<Octets>) {
    && |seed| == KEY_NONCE_SIZE
    && forall r <- refills :: r.keyPiece < |pieces| && |pieces[r.keyPiece]| == KEY_NONCE_SIZE
  }

  /** The keystreams of all refills, each under the key in use before it. */
  ghost function Streams(seed: Octets, refills: seq<Batch>, pieces: seq<Octets>): Octets
    requires Chained(seed, refills, pieces)
  {
    if refills == [] then []
    else
      var n := |refills| - 1;
      Streams(seed, refills[..n], pieces)
      + Keystream(InitState(KeyInUse(seed, refills[..n], pieces)), refills[n].len)
  }

  /** The cipher has the key in use, and all bytes loaded are those keystreams. */
  ghost predicate Keyed(seed: Octets, refills: seq<Batch>, pieces: seq<Octets>, loaded: Octets, state: Words) {
    && Chained(seed, refills, pieces)
    && state == InitState(KeyInUse(seed, refills, pieces))
    && loaded == Streams(seed, refills, pieces)
  }

  lemma {:induction false} StreamsKept(seed: Octets, refills: seq<Batch>, pieces: seq<Octets>, p: Octets)
    requires Chained(seed, refills, pieces)
    ensures Chained(seed, refills, pieces + [p])
    ensures KeyInUse(seed, refills, pieces + [p]) == KeyInUse(seed, refills, pieces)
    ensures Streams(seed, refills, pieces + [p]) == Streams(seed, refills, pieces)
  {
    hide Keystream, InitState;
    if refills != [] {
      StreamsKept(seed, refills[..|refills| - 1], pieces, p);
    }
  }

  /** Taking out one more piece changes neither. */
  lemma KeyedTake(seed: Octets, refills: seq<Batch>, pieces: seq<Octets>, loaded: Octets, state: Words, p: Octets)
    requires Keyed(seed, refills, pieces, loaded, state)
    ensures Keyed(seed, refills, pieces + [p], loaded, state)
  {
    hide Keystream, InitState;
    StreamsKept(seed, refills, pieces, p);
  }

  /** A refill loads the keystream of the key in use, and the piece it takes out is the next key. */
  lemma KeyedReload(seed: Octets, refills: seq<Batch>, pieces: seq<Octets>, loaded: Octets, state: Words,
                    len: nat, key: Octets)
    requires Keyed(seed, refills, pieces, loaded, state) && |key| == KEY_NONCE_SIZE
    ensures Keyed(seed, refills + [Batch(len, |pieces|)], pieces + [key],
                  loaded + Keystream(state, len), InitState(key))
  {
    hide Keystream, InitState;
    var more := refills + [Batch(len, |pieces|)];
    StreamsKept(seed, refills, pieces, key);
    assert more[..|refills|] == refills;
  }

  /** Every piece is its own part of the keystreams of the seed and of the keys taken out before. */
  lemma PieceIsKeystream(seed: Octets, refills: seq<Batch>, pieces: seq<Octets>, tail: Octets, i: nat)
    requires Chained(seed, refills, pieces) && i < |pieces|
    requires Flat(pieces) + tail == Streams(seed, refills, pieces)
    ensures Start(pieces, i) <= Start(pieces, i + 1) <= |Streams(seed, refills, pieces)|
    ensures Streams(seed, refills, pieces)[Start(pieces, i)..Start(pieces, i + 1)] == pieces[i]
  {
    hide Streams, Flat;
    PieceAt(pieces, i);
  }

  /** The whole state of a pool between calls, apart from its buffer and its era. */
  datatype Stock = Stock(seed: Octets, available: nat, loaded: Octets, refills: seq<Batch>,
                         pieces: seq<Octets>, state: Words)

  ghost function Fresh(seed: Octets): Stock
    requires |seed| == KEY_NONCE_SIZE
  {
    Stock(seed, 0, [], [], [], InitState(seed))
  }

  /** The buffer is filled up with keystream, and the piece `key` is taken out to re-key the cipher. */
  ghost function AfterReload(s: Stock, key: Octets): Stock
    requires s.available <= POOL_SIZE && |key| == KEY_NONCE_SIZE
  {
    var len := POOL_SIZE - s.available;
    Stock(s.seed, POOL_SIZE - KEY_NONCE_SIZE, s.loaded + Keystream(s.state, len),
          s.refills + [Batch(len, |s.pieces|)], s.pieces + [key], InitState(key))
  }

  /** A reload only if fewer bytes than required are available. */
  ghost function WithRoom(s: Stock, required: nat, key: Octets): Stock
    requires s.available <= POOL_SIZE && |key| == KEY_NONCE_SIZE
  {
    if s.available < required then AfterReload(s, key) else s
  }

  ghost function AfterTake(s: Stock, piece: Octets): Stock
    requires |piece| <= s.available
  {
    s.(available := s.available - |piece|, pieces := s.pieces + [piece])
  }

  lemma TailSplits(taken: Octets, was: Octets, cursor: nat, len: nat)
    requires cursor + len <= |was|
    ensures taken + was[cursor..] == taken + was[cursor..cursor + len] + was[cursor + len..]
    ensures was[cursor..][..len] == was[cursor..cursor + len]
  {
  }

  lemma RefilledBytes(taken: Octets, was: Octets, used: nat, moved: Octets, stream: Octets)
    requires |was| == POOL_SIZE && used <= POOL_SIZE && |stream| == used
    requires moved == was[..0] + was[used..] + was[POOL_SIZE - used..]
    ensures taken + Spliced(moved, POOL_SIZE - used, stream) == taken + was[used..] + stream
  {
  }

  class RandomPool {
    const chacha: Generator
    var era: bv32
    var available: nat
    const buffer: array<bv8>
    /** The last seed, every keystream byte loaded since, the reloads, and the pieces taken out. */
    ghost var seed: Octets
    ghost var loaded: Octets
    ghost var refills: seq<Batch>
    ghost var pieces: seq<Octets>

    /** The pieces taken out, then what is still available, are the bytes loaded. */
    ghost predicate Stocked()
      reads this, buffer
    {
      && chacha.Valid() && buffer.Length == POOL_SIZE && available <= POOL_SIZE
      && Flat(pieces) + buffer[POOL_SIZE - available..] == loaded
      && (available > 0 ==> forall i :: 0 <= i < POOL_SIZE - available ==> buffer[i] == 0)
    }

    ghost function Now(): Stock
      reads this, chacha.x
      requires chacha.Valid()
    {
      Stock(seed, available, loaded, refills, pieces, chacha.x[..])
    }

    ghost predicate Valid()
      reads this, buffer, chacha.x
    {
      Stocked() && Keyed(seed, refills, pieces, loaded, chacha.x[..])
    }

    /** A zeroed pool. Its cipher state, as if keyed with `unset`, means nothing until it is seeded. */
    constructor (unset: Octets)
      requires |unset| == KEY_NONCE_SIZE
      ensures Valid() && fresh(buffer) && fresh(chacha.x) && era == 0 && available == 0
    {
      chacha := new Generator(unset);
      buffer := new bv8[POOL_SIZE](_ => 0);
      era, available := 0, 0;
      seed, loaded, refills, pieces := unset, [], [], [];
    }

    /** pool_buffer_get, then pool_buffer_consume: the bytes at the cursor, which are then zeroed. */
    method Take(len: nat) returns (bytes: Octets)
      requires Stocked() && len <= available
      modifies this`available, this`pieces, buffer
      ensures Stocked() && available == old(available) - len
      ensures |bytes| == len && bytes == old(buffer[POOL_SIZE - available..])[..len]
      ensures pieces == old(pieces) + [bytes]
    {
      hide Flat;
      var cursor := POOL_SIZE - available;
      bytes := buffer[cursor..cursor + len];
      ghost var was := buffer[..];
      TailSplits(Flat(pieces), was, cursor, len);
      forall i | 0 <= i < len {
        buffer[cursor + i] := 0;
      }
      available := available - len;
      FlatAppend(pieces, bytes);
      pieces := pieces + [bytes];
      assert buffer[cursor + len..] == was[cursor + len..];
    }

    /** A piece taken between reloads leaves the key in use and the bytes loaded as they are. */
    method TakePiece(len: nat) returns (bytes: Octets)
      requires Valid() && len <= available
      modifies this`available, this`pieces, buffer
      ensures Valid() && |bytes| == len && Now() == AfterTake(old(Now()), bytes)
    {
      hide Flat, Keyed;
      bytes := Take(len);
      KeyedTake(seed, refills, old(pieces), loaded, chacha.x[..], bytes);
    }

    /** pool_seed with 44 bytes of entropy; the rest of the old buffer is given up. */
    method Seed(era: bv32, key: Octets)
      requires Stocked() && |key| == KEY_NONCE_SIZE
      modifies this`era, this`available, this`seed, this`loaded, this`refills, this`pieces, chacha.x
      ensures Valid() && this.era == era && available == 0
      ensures Now() == Fresh(key)
    {
      hide InitState, Keystream;
      chacha.Init(key);
      this.era := era;
      available := 0;
      seed, loaded, refills, pieces := key, [], [], [];
    }

    method SeedIfNeeded(eras: SeedEra, entropy: Octets)
      requires Valid() && eras.Valid() && |entropy| == KEY_NONCE_SIZE
      modifies this`era, this`available, this`seed, this`loaded, this`refills, this`pieces, chacha.x
      ensures Valid() && era == eras.current
      ensures Now() == if old(era) == eras.current then old(Now()) else Fresh(entropy)
    {
      hide InitState, Keystream;
      if era == eras.current {
        return;
      }
      Seed(eras.current, entropy);
    }

    /** The first half of pool_reload: the rest moves to the front and new keystream follows. */
    method Refill()
      requires Stocked()
      modifies this`available, this`loaded, buffer, chacha.x
      ensures Stocked() && available == 512
      ensures loaded == old(loaded) + Keystream(old(chacha.x[..]), POOL_SIZE - old(available))
    {
      hide Keystream, Spliced, Advanced, Flat;
      var used := POOL_SIZE - available;
      ghost var was := buffer[..];
      var rest := buffer[used..];
      Memcpy(buffer, 0, rest);
      ghost var stream := Keystream(chacha.x[..], used);
      ghost var moved := buffer[..];
      chacha.Fill(buffer, available, used);
      RefilledBytes(Flat(pieces), was, used, moved, stream);
      loaded := loaded + stream;
      available := POOL_SIZE;
      assert buffer[0..] == buffer[..];
    }

    /** pool_reload: the pool is refilled, then its first bytes re-key the cipher. */
    method Reload() returns (ghost key: Octets)
      requires Valid()
      modifies this`available, this`loaded, this`refills, this`pieces, buffer, chacha.x
      ensures Valid() && available == 468
      ensures |key| == 44 && Now() == AfterReload(old(Now()), key)
    {
      hide Keystream, InitState, Flat, Keyed;
      Refill();
      var bytes := Take(KEY_NONCE_SIZE);
      key := bytes;
      chacha.Init(bytes);
      ghost var len := POOL_SIZE - old(available);
      KeyedReload(seed, refills, old(pieces), old(loaded), old(chacha.x[..]), len, key);
      refills := refills + [Batch(len, |old(pieces)|)];
    }

    /** Reloads, and takes a key out, only when the bytes available are too few. */
    method ReloadIfNeeded(required: nat) returns (ghost key: Octets)
      requires Valid() && required <= POOL_SIZE - KEY_NONCE_SIZE
      modifies this`available, this`loaded, this`refills, this`pieces, buffer, chacha.x
      ensures Valid() && available >= required
      ensures |key| == KEY_NONCE_SIZE && Now() == WithRoom(old(Now()), required, key)
      ensures |pieces| == |old(pieces)| + if old(available) < required then 1 else 0
    {
      hide Keystream, InitState, Flat, Keyed;
      key := seq(KEY_NONCE_SIZE, _ => 0);
      if available >= required {
        return;
      }
      key := Reload();
      assert available >= required;
    }

    /** pool_stir: a large request gets the keystream of a key of its own taken from the pool. */
    method Stir(len: nat) returns (out: Octets, ghost reloadKey: Octets, ghost ownKey: Octets)
      requires Valid()
      modifies this`available, this`loaded, this`refills, this`pieces, buffer, chacha.x
      ensures Valid() && |reloadKey| == |ownKey| == KEY_NONCE_SIZE
      ensures Now() == AfterTake(WithRoom(old(Now()), KEY_NONCE_SIZE, reloadKey), ownKey)
      ensures out == Keystream(InitState(ownKey), len)
    {
      hide Keystream, InitState, Flat, Keyed;
      reloadKey := ReloadIfNeeded(KEY_NONCE_SIZE);
      var bytes := TakePiece(KEY_NONCE_SIZE);
      ownKey := bytes;
      var own := new Generator(bytes);
      var target := new bv8[len](_ => 0);
      own.Fill(target, 0, len);
      out := target[..];
    }

    /**
     * pool_rand: the pool's next bytes, or for a large request a stream of its own. One piece is
     * taken out for the output, or for the key it comes from, after a reload if there are too few
     * bytes; with PiecesAreDisjoint, no two calls under one seed share a byte of the stream.
     */
    method Rand(eras: SeedEra, entropy: Octets, len: nat)
      returns (out: Octets, ghost reloadKey: Octets, ghost ownKey: Octets)
      requires Valid() && eras.Valid() && |entropy| == KEY_NONCE_SIZE
      modifies this`era, this`available, this`seed, this`loaded, this`refills, this`pieces, buffer, chacha.x
      ensures Valid() && era == eras.current && era != 0
      ensures |out| == len && |reloadKey| == |ownKey| == KEY_NONCE_SIZE
      ensures var start := if old(era) == eras.current then old(Now()) else Fresh(entropy);
              if len < 468
              then Now() == AfterTake(WithRoom(start, len, reloadKey), out)
              else Now() == AfterTake(WithRoom(start, KEY_NONCE_SIZE, reloadKey), ownKey)
                   && out == Keystream(InitState(ownKey), len)
    {
      hide Keystream, InitState, Flat, Keyed;
      OddIsNotZero(eras.current);
      SeedIfNeeded(eras, entropy);
      if len >= POOL_SIZE - KEY_NONCE_SIZE {
        out, reloadKey, ownKey := Stir(len);
        return;
      }
      reloadKey := ReloadIfNeeded(len);
      out := TakePiece(len);
      ownKey := seq(KEY_NONCE_SIZE, _ => 0);
    }
  }
}
