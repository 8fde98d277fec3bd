/** The dynamic mailbox's ring buffer and its push and peek operations. */
module Mailbox {
  import opened Bytes
  import opened Common
  import opened Framing

  /** An index that went past the end of the buffer by less than one turn, brought back. */
  function Wrap(i: nat): nat {
    if i < ALLOCATED_LEN then i else i - ALLOCATED_LEN
  }

  /** `len` bytes of the ring buffer starting at `from`, wrapping at its end. */
  ghost function CyclicSlice(b: seq<byte>, from: nat, len: nat): (s: seq<byte>)
    requires |b| == ALLOCATED_LEN && from < |b| && len <= |b|
    ensures |s| == len
  {
    if len == 0 then [] else CyclicSlice(b, from, len - 1) + [b[Wrap(from + len - 1)]]
  }

  /** Overwriting the free bytes after a slice, up to the end of the buffer, extends the slice. */
  lemma {:induction false} SliceExtend(b: seq<byte>, b': seq<byte>, from: nat, len: nat, w: nat, data: seq<byte>)
    requires |b| == ALLOCATED_LEN && from < |b| && len + |data| <= |b|
    requires w == Wrap(from + len) && w + |data| <= |b|
    requires b' == b[..w] + data + b[w + |data|..]
    ensures CyclicSlice(b', from, len + |data|) == CyclicSlice(b, from, len) + data
  {
    SliceAt(b, from, len);
    SliceAt(b', from, len + |data|);
  }

  lemma {:induction false} SliceAt(b: seq<byte>, from: nat, len: nat)
    requires |b| == ALLOCATED_LEN && from < |b| && len <= |b|
    ensures forall i :: 0 <= i < len ==> CyclicSlice(b, from, len)[i] == b[Wrap(from + i)]
  {
    if len > 0 { SliceAt(b, from, len - 1); }
  }

  /** A slice is its first bytes, up to the end of the buffer, then the slice after them. */
  lemma {:induction false} SliceSplit(b: seq<byte>, from: nat, len: nat, k: nat)
    requires |b| == ALLOCATED_LEN && from < |b| && k <= len <= |b| && from + k <= |b| && 0 < k
    ensures Wrap(from + k) < |b|
    ensures CyclicSlice(b, from, len)[..k] == b[from..from + k]
    ensures CyclicSlice(b, from, len)[k..] == CyclicSlice(b, Wrap(from + k), len - k)
  {
    SliceAt(b, from, len);
    SliceAt(b, Wrap(from + k), len - k);
  }

  /** Appending one more piece of `data` to what follows `prefix`. */
  lemma ExtendPrefix(prefix: seq<byte>, data: seq<byte>, done: nat, chunk: nat)
    requires done + chunk <= |data|
    ensures prefix + data[..done] + data[done..done + chunk] == prefix + data[..done + chunk]
  {
  }

  /** Filling the next bytes of a buffer with the front of what is still unread. */
  lemma ReadProgress(was: seq<byte>, wasBuf: seq<byte>, b: seq<byte>, b': seq<byte>, done: nat, chunk: nat)
    requires done + chunk <= |b| == |wasBuf| && done + chunk <= |was|
    requires b' == b[..done] + was[done..][..chunk] + b[done + chunk..]
    requires b[..done] == was[..done] && b[done..] == wasBuf[done..]
    ensures b'[..done + chunk] == was[..done + chunk]
    ensures b'[done + chunk..] == wasBuf[done + chunk..]
    ensures was[done..][chunk..] == was[done + chunk..]
  {
    assert b[done + chunk..] == b[done..][chunk..];
    assert was[..done + chunk] == was[..done] + was[done..][..chunk];
  }

  class DynMbox {
    const maxMsgSize: nat
    const bufmem: array<byte>
    var writeIdx: nat
    var readIdx: nat
    var used: nat
    /** The messages pushed and not yet peeked, oldest first. */
    ghost var queue: seq<seq<byte>>

    ghost predicate RingValid()
      reads this
    {
      && bufmem.Length == ALLOCATED_LEN
      && readIdx < ALLOCATED_LEN && writeIdx < ALLOCATED_LEN && used <= ALLOCATED_LEN
      && writeIdx == Wrap(readIdx + used)
    }

    ghost function Contents(): seq<byte>
      reads this, bufmem
      requires RingValid()
    {
      CyclicSlice(bufmem[..], readIdx, used)
    }

    ghost predicate Valid()
      reads this, bufmem
    {
      && RingValid()
      && maxMsgSize <= DYNMBOX_MAX_SIZE
      && Sendable(queue, maxMsgSize)
      && Contents() == Frames(queue)
    }

    /** dynmbox_new, for a size it accepts. */
    constructor (maxMsgSize: nat)
      requires maxMsgSize <= 65532
      ensures Valid() && fresh(bufmem)
      ensures this.maxMsgSize == maxMsgSize && queue == []
    {
      this.maxMsgSize := maxMsgSize;
      bufmem := new byte[ALLOCATED_LEN];
      readIdx, writeIdx, used := 0, 0, 0;
      queue := [];
    }

    static method Increment(idx: nat, amount: nat) returns (following: nat)
      requires idx < ALLOCATED_LEN && amount <= ALLOCATED_LEN
      ensures following == Wrap(idx + amount)
    {
      var left := ALLOCATED_LEN - idx;
      if amount >= left {
        following := amount - left;
      } else {
        following := idx + amount;
      }
    }

    /** The cursors and the buffer after `done` bytes of `data` went behind the bytes `was`. */
    ghost predicate Written(was: seq<byte>, data: seq<byte>, done: nat)
      reads this, bufmem
    {
      && bufmem.Length == ALLOCATED_LEN && readIdx < ALLOCATED_LEN
      && done <= |data| && |was| + |data| <= ALLOCATED_LEN
      && writeIdx == Wrap(readIdx + |was| + done)
      && CyclicSlice(bufmem[..], readIdx, |was| + done) == was + data[..done]
    }

    /** One chunk of a write: the copy and the cursor move. */
    method WriteChunk(data: seq<byte>, done: nat, chunk: nat, ghost was: seq<byte>)
      requires Written(was, data, done)
      requires done + chunk <= |data| && writeIdx + chunk <= ALLOCATED_LEN
      modifies this`writeIdx, bufmem
      ensures Written(was, data, done + chunk)
    {
      var piece := data[done..done + chunk];
      Memcpy(bufmem, writeIdx, piece);
      SliceExtend(old(bufmem[..]), bufmem[..], readIdx, |was| + done, writeIdx, piece);
      ExtendPrefix(was, data, done, chunk);
      writeIdx := Increment(writeIdx, chunk);
    }

    method RbufWrite(data: seq<byte>)
      requires RingValid()
      requires |data| <= ALLOCATED_LEN - used
      modifies this`writeIdx, this`used, bufmem
      ensures RingValid()
      ensures used == old(used) + |data|
      ensures Contents() == old(Contents()) + data
    {
      hide CyclicSlice;
      ghost var was := Contents();
      var done: nat, left: nat := 0, |data|;
      assert was + data[..0] == was;
      while left > 0
        invariant done + left == |data| && used == |was|
        invariant Written(was, data, done)
      {
        var chunk := ALLOCATED_LEN - writeIdx;
        if chunk > left {
          chunk := left;
        }
        WriteChunk(data, done, chunk, was);
        done := done + chunk;
        left := left - chunk;
      }
      assert data[..done] == data;
      used := used + |data|;
    }

    /** The cursors and the buffers after `done` of `len` bytes were moved into `buf`. */
    ghost predicate Read(was: seq<byte>, buf: array<byte>, wasBuf: seq<byte>, done: nat)
      reads this, bufmem, buf
    {
      && bufmem.Length == ALLOCATED_LEN && readIdx < ALLOCATED_LEN
      && done <= |was| <= ALLOCATED_LEN && done <= buf.Length == |wasBuf|
      && writeIdx == Wrap(readIdx + (|was| - done))
      && CyclicSlice(bufmem[..], readIdx, |was| - done) == was[done..]
      && buf[..done] == was[..done]
      && buf[done..] == wasBuf[done..]
    }

    /** One chunk of a read: the copy and the cursor move. */
    method ReadChunk(buf: array<byte>, done: nat, chunk: nat, ghost was: seq<byte>, ghost wasBuf: seq<byte>)
      requires Read(was, buf, wasBuf, done) && buf != bufmem
      requires 0 < chunk && done + chunk <= |was| && done + chunk <= buf.Length
      requires readIdx + chunk <= ALLOCATED_LEN
      modifies this`readIdx, buf
      ensures Read(was, buf, wasBuf, done + chunk)
    {
      hide CyclicSlice;
      SliceSplit(bufmem[..], readIdx, |was| - done, chunk);
      Memcpy(buf, done, bufmem[readIdx..readIdx + chunk]);
      readIdx := Increment(readIdx, chunk);
      ReadProgress(was, wasBuf, old(buf[..]), buf[..], done, chunk);
    }

    method RbufRead(buf: array<byte>, len: nat)
      requires RingValid()
      requires len <= used && len <= buf.Length && buf != bufmem
      modifies this`readIdx, this`used, buf
      ensures RingValid()
      ensures used == old(used) - len
      ensures buf[..len] == old(Contents())[..len] && Contents() == old(Contents())[len..]
      ensures buf[len..] == old(buf[len..])
    {
      hide CyclicSlice;
      ghost var was := Contents();
      var done: nat, left: nat := 0, len;
      while left > 0
        invariant done + left == len && used == |was|
        invariant Read(was, buf, old(buf[..]), done)
      {
        var chunk := ALLOCATED_LEN - readIdx;
        if chunk > left {
          chunk := left;
        }
        ReadChunk(buf, done, chunk, was, old(buf[..]));
        done := done + chunk;
        left := left - chunk;
      }
      used := used - len;
    }

    method DoPush(msg: seq<byte>) returns (res: int)
      requires Valid()
      requires |msg| <= maxMsgSize
      modifies this`writeIdx, this`used, this`queue, bufmem
      ensures Valid()
      ensures Fits(old(queue), |msg|) ==> res == 0 && queue == old(queue) + [msg]
      ensures !Fits(old(queue), |msg|) ==>
                res == -EAGAIN && queue == old(queue) && bufmem[..] == old(bufmem[..])
    {
      if ALLOCATED_LEN - used < |msg| + HDR_SIZE {
        return -EAGAIN;
      }
      FramesAppend(queue, msg);
      var hdr := HeaderBytes(|msg|);
      RbufWrite(hdr);
      RbufWrite(msg);
      queue := queue + [msg];
      return 0;
    }

    method ReadHeader() returns (hdr: nat)
      requires RingValid() && HDR_SIZE <= used
      modifies this`readIdx, this`used
      ensures RingValid() && used == old(used) - HDR_SIZE
      ensures hdr == HeaderValue(old(Contents())[..HDR_SIZE]) && Contents() == old(Contents())[HDR_SIZE..]
    {
      var bytes := new byte[HDR_SIZE];
      RbufRead(bytes, HDR_SIZE);
      hdr := HeaderValue(bytes[..]);
      assert bytes[..] == bytes[..HDR_SIZE];
    }

    method DoPeek(msg: array<byte>) returns (res: int)
      requires Valid()
      requires msg.Length >= maxMsgSize && msg != bufmem
      modifies this`readIdx, this`used, this`queue, msg
      ensures Valid()
      ensures old(queue) == [] ==> res == -EAGAIN && queue == [] && msg[..] == old(msg[..])
      ensures old(queue) != [] ==>
                && res == |old(queue)[0]|
                && msg[..res] == old(queue)[0] && msg[res..] == old(msg[..])[res..]
                && queue == old(queue)[1..]
    {
      QueueLengthBound(queue);
      if used == 0 {
        return -EAGAIN;
      }
      FirstFrame(queue);
      assert used >= HDR_SIZE;
      var hdr := ReadHeader();
      assert hdr <= maxMsgSize;
      assert used >= hdr;
      RbufRead(msg, hdr);
      queue := queue[1..];
      return hdr;
    }

    /** dynmbox_push without its lock and its notification, which Protocol models. */
    method Push(msg: array?<byte>, msgSize: nat) returns (res: int)
      requires Valid()
      requires msg != null ==> msgSize <= msg.Length
      modifies this`writeIdx, this`used, this`queue, bufmem
      ensures Valid()
      ensures res == -EINVAL <==> msgSize > maxMsgSize || (msgSize > 0 && msg == null)
      ensures res == -EAGAIN <==> res != -EINVAL && Occupied(old(queue)) + 4 + msgSize > 65536
      ensures res != 0 ==> queue == old(queue) && bufmem[..] == old(bufmem[..])
      ensures res == 0 || res == -EINVAL || res == -EAGAIN
      ensures res == 0 ==> queue == old(queue) + [if msg == null then [] else old(msg[..msgSize])]
    {
      if msgSize > maxMsgSize || (msgSize > 0 && msg == null) {
        return -EINVAL;
      }
      res := DoPush(if msg == null then [] else msg[..msgSize]);
    }

    /** dynmbox_peek without its lock and its notification. */
    method Peek(msg: array?<byte>) returns (res: int)
      requires Valid()
      requires msg != null ==> msg.Length >= maxMsgSize && msg != bufmem
      modifies this`readIdx, this`used, this`queue, msg
      ensures Valid()
      ensures msg == null ==> res == -EINVAL && queue == old(queue)
      ensures msg != null && old(queue) == [] ==> res == -EAGAIN && queue == [] && msg[..] == old(msg[..])
      ensures msg != null && old(queue) != [] ==>
                && res == |old(queue)[0]|
                && msg[..res] == old(queue)[0] && msg[res..] == old(msg[..])[res..]
                && queue == old(queue)[1..]
    {
      if msg == null {
        return -EINVAL;
      }
      res := DoPeek(msg);
    }
  }
}
