/** Layout of queued messages in the mailbox: a 4-byte size header, then the payload. */
module Framing {
  import opened Common

  const HDR_SIZE: nat := 4
  const DYNMBOX_MAX_SIZE: nat := 65536 - HDR_SIZE
  const ALLOCATED_LEN: nat := DYNMBOX_MAX_SIZE + HDR_SIZE

  /** The bytes of a uint32_t in memory (little-endian host). */
  function HeaderBytes(n: nat): (h: seq<byte>)
    requires n < 0x1_0000_0000
    ensures |h| == HDR_SIZE
  {
    [n % 256, n / 256 % 256, n / 65536 % 256, n / 16777216]
  }

  function HeaderValue(h: seq<byte>): nat
    requires |h| == HDR_SIZE
  {
    var b0: int, b1: int, b2: int, b3: int := h[0], h[1], h[2], h[3];
    b0 + 256 * b1 + 65536 * b2 + 16777216 * b3
  }

  lemma HeaderRoundTrip(n: nat)
    requires n < 0x1_0000_0000
    ensures HeaderValue(HeaderBytes(n)) == n
  {
    var a, b := n / 256, n / 65536;
    assert a / 256 == b;
    assert b / 256 == n / 16777216;
    assert n == 256 * a + n % 256 && a == 256 * b + a % 256 && b == 256 * (b / 256) + b % 256;
  }

  ghost predicate Sendable(q: seq<seq<byte>>, maxMsgSize: nat) {
    forall m <- q :: |m| <= maxMsgSize
  }

  function Frame(m: seq<byte>): seq<byte>
    requires |m| <= DYNMBOX_MAX_SIZE
  {
    HeaderBytes(|m|) + m
  }

  /** The byte string a queue of messages occupies in the ring buffer. */
  ghost function Frames(q: seq<seq<byte>>): (f: seq<byte>)
    requires Sendable(q, DYNMBOX_MAX_SIZE)
    ensures |f| == Occupied(q)
  {
    if q == [] then [] else Frame(q[0]) + Frames(q[1..])
  }

  ghost function Occupied(q: seq<seq<byte>>): nat {
    if q == [] then 0 else HDR_SIZE + |q[0]| + Occupied(q[1..])
  }

  /** Whether one more message of the given size fits beside the queued ones. */
  ghost predicate Fits(q: seq<seq<byte>>, size: nat) {
    Occupied(q) + HDR_SIZE + size <= ALLOCATED_LEN
  }

  lemma {:induction false} OccupiedAppend(q: seq<seq<byte>>, m: seq<byte>)
    ensures Occupied(q + [m]) == Occupied(q) + HDR_SIZE + |m|
  {
    if q != [] {
      assert (q + [m])[1..] == q[1..] + [m];
      OccupiedAppend(q[1..], m);
    }
  }

  /** Every frame takes at least its header, which bounds the number of queued messages. */
  lemma {:induction false} QueueLengthBound(q: seq<seq<byte>>)
    ensures HDR_SIZE * |q| <= Occupied(q)
  {
    if q != [] {
      QueueLengthBound(q[1..]);
    }
  }

  lemma {:induction false} FramesAppend(q: seq<seq<byte>>, m: seq<byte>)
    requires Sendable(q, DYNMBOX_MAX_SIZE) && |m| <= DYNMBOX_MAX_SIZE
    ensures Sendable(q + [m], DYNMBOX_MAX_SIZE)
    ensures Frames(q + [m]) == Frames(q) + HeaderBytes(|m|) + m
  {
    hide HeaderBytes;
    if q == [] {
      assert q + [m] == [m];
      assert Frames([m]) == Frame(m) + Frames([]);
    } else {
      assert (q + [m])[1..] == q[1..] + [m];
      FramesAppend(q[1..], m);
    }
  }

  /** Framing loses nothing: equal byte strings come from equal message queues. */
  lemma {:induction false} FramesInjective(p: seq<seq<byte>>, q: seq<seq<byte>>)
    requires Sendable(p, DYNMBOX_MAX_SIZE) && Sendable(q, DYNMBOX_MAX_SIZE)
    requires Frames(p) == Frames(q)
    ensures p == q
  {
    if p == [] || q == [] {
      QueueLengthBound(p);
      QueueLengthBound(q);
    } else {
      FirstFrame(p);
      FirstFrame(q);
      assert p[1..] == q[1..] by {
        FramesInjective(p[1..], q[1..]);
      }
      assert p == [p[0]] + p[1..] && q == [q[0]] + q[1..];
    }
  }

  lemma ThreeParts(h: seq<byte>, m: seq<byte>, rest: seq<byte>)
    ensures (h + m + rest)[..|h|] == h
    ensures (h + m + rest)[|h|..][..|m|] == m
    ensures (h + m + rest)[|h|..][|m|..] == rest
  {
  }

  /** What reading a header, then that many bytes, yields from a non-empty queue. */
  lemma FirstFrame(q: seq<seq<byte>>)
    requires q != [] && Sendable(q, DYNMBOX_MAX_SIZE)
    ensures Sendable(q[1..], DYNMBOX_MAX_SIZE)
    ensures HDR_SIZE + |q[0]| <= |Frames(q)|
    ensures HeaderValue(Frames(q)[..HDR_SIZE]) == |q[0]|
    ensures Frames(q)[HDR_SIZE..][..|q[0]|] == q[0]
    ensures Frames(q)[HDR_SIZE..][|q[0]|..] == Frames(q[1..])
  {
    HeaderRoundTrip(|q[0]|);
    ThreeParts(HeaderBytes(|q[0]|), q[0], Frames(q[1..]));
  }
}
