/**
 * The mailbox shared by one producer thread and one consumer thread. Each action is one step that
 * the other thread cannot split: a test or update made while holding the mutex, one read or write
 * of the notification pipe, one wait, one wake-up.
 */
module Protocol {
  import opened Common
  import opened Framing

  /** `polling`: the consumer calls dynmbox_peek only when the pipe is readable. */
  datatype Config = Config(maxMsgSize: nat, pipeCapacity: nat, polling: bool)

  datatype Producer =
    | PIdle
    | PTesting(msg: seq<byte>)                  // blocking: holds the mutex, before the space test
    | PPushing(msg: seq<byte>, blocking: bool)  // holds the mutex, before do_push
    | PAsleep(msg: seq<byte>)                   // in pthread_cond_wait, not signalled
    | PAwake(msg: seq<byte>, timedOut: bool)    // woken, must take the mutex again
    | PNotify                                   // mutex released, before push_notify

  datatype Consumer =
    | CIdle
    | CLocked    // holds the mutex, before the emptiness test
    | CPop       // before pop_notify
    | CRead      // before do_peek
    | CSignal    // before pthread_cond_signal
    | CUnlock    // before the mutex is released

  predicate HoldsLock(p: Producer) {
    p.PTesting? || p.PPushing?
  }

  /** `accepted` and `delivered` record the messages queued and returned so far. */
  datatype State = State(
    queue: seq<seq<byte>>,
    tokens: nat,
    producer: Producer,
    consumer: Consumer,
    accepted: seq<seq<byte>>,
    delivered: seq<seq<byte>>)
  {
    predicate LockFree() {
      !HoldsLock(producer) && consumer.CIdle?
    }
  }

  datatype Action =
    | Call(msg: seq<byte>, blocking: bool)
    | TestSpace
    | DoPush
    | SpuriousWake
    | Timeout
    | Relock
    | PushNotify
    | CallPeek
    | TestEmpty
    | PopNotify
    | DoPeek
    | Signal
    | Unlock

  const Init := State([], 0, PIdle, CIdle, [], [])

  ghost predicate Enabled(c: Config, s: State, a: Action) {
    match a
    case Call(msg, _) => s.producer.PIdle? && s.LockFree() && |msg| <= c.maxMsgSize
    case TestSpace => s.producer.PTesting?
    case DoPush => s.producer.PPushing?
    case SpuriousWake => s.producer.PAsleep?
    case Timeout => s.producer.PAsleep?
    case Relock => s.producer.PAwake? && s.LockFree()
    case PushNotify => s.producer.PNotify?
    case CallPeek => s.LockFree() && (c.polling ==> s.tokens > 0)
    case TestEmpty => s.consumer.CLocked?
    case PopNotify => s.consumer.CPop?
    case DoPeek => s.consumer.CRead?
    case Signal => s.consumer.CSignal?
    case Unlock => s.consumer.CUnlock?
  }

  ghost function Next(c: Config, s: State, a: Action): State
    requires Enabled(c, s, a)
  {
    match a
    case Call(msg, blocking) =>
      s.(producer := if blocking then PTesting(msg) else PPushing(msg, false))
    case TestSpace =>
      var msg := s.producer.msg;
      s.(producer := if Fits(s.queue, |msg|) then PPushing(msg, true) else PAsleep(msg))
    case DoPush =>
      // a failure releases the mutex and returns -EAGAIN
      var msg := s.producer.msg;
      if Fits(s.queue, |msg|)
      then s.(queue := s.queue + [msg], accepted := s.accepted + [msg], producer := PNotify)
      else s.(producer := PIdle)
    case SpuriousWake => s.(producer := PAwake(s.producer.msg, false))
    case Timeout => s.(producer := PAwake(s.producer.msg, true))
    case Relock =>
      s.(producer := if s.producer.timedOut then PIdle else PTesting(s.producer.msg))
    case PushNotify =>
      // the pipe is non-blocking: a write to a full one is dropped
      s.(tokens := if s.tokens < c.pipeCapacity then s.tokens + 1 else s.tokens, producer := PIdle)
    case CallPeek => s.(consumer := CLocked)
    case TestEmpty => s.(consumer := if s.queue == [] then CIdle else CPop)
    case PopNotify =>
      // a read from an empty pipe fails and is ignored
      s.(tokens := if s.tokens > 0 then s.tokens - 1 else 0, consumer := CRead)
    case DoPeek =>
      if s.queue == [] then s.(consumer := CUnlock)
      else s.(queue := s.queue[1..], delivered := s.delivered + [s.queue[0]], consumer := CSignal)
    case Signal =>
      s.(producer := if s.producer.PAsleep? then PAwake(s.producer.msg, false) else s.producer,
         consumer := CUnlock)
    case Unlock => s.(consumer := CIdle)
  }

  /** The states reached by performing the actions in order, each when it is enabled. */
  ghost predicate Reaches(c: Config, acts: seq<Action>, s: State) {
    if acts == [] then s == Init
    else
      var n := |acts| - 1;
      exists p :: Reaches(c, acts[..n], p) && Enabled(c, p, acts[n]) && s == Next(c, p, acts[n])
  }

  ghost predicate Reachable(c: Config, s: State) {
    exists acts :: Reaches(c, acts, s)
  }

  function Pending(s: State): nat {
    if s.producer.PNotify? then 1 else 0
  }

  function PoppedUnread(s: State): nat {
    if s.consumer.CRead? then 1 else 0
  }

  ghost predicate Sound(c: Config, s: State) {
    && s.accepted == s.delivered + s.queue
    && Occupied(s.queue) <= ALLOCATED_LEN
    && Sendable(s.queue, c.maxMsgSize)
    && (HoldsLock(s.producer) ==> s.consumer.CIdle?)
    && (!s.producer.PIdle? && !s.producer.PNotify? ==> |s.producer.msg| <= c.maxMsgSize)
    && (s.producer.PPushing? && s.producer.blocking ==> Fits(s.queue, |s.producer.msg|))
    && (s.consumer.CPop? || s.consumer.CRead? ==> s.queue != [])
    && (s.producer.PAsleep? && !s.consumer.CSignal? ==> !Fits(s.queue, |s.producer.msg|))
  }

  ghost predicate Covered(s: State) {
    |s.queue| <= s.tokens + Pending(s) + PoppedUnread(s)
  }

  ghost predicate Exact(s: State) {
    && |s.queue| == s.tokens + Pending(s) + PoppedUnread(s)
    && (s.consumer.CLocked? || s.consumer.CPop? ==> s.tokens > 0)
  }

  /** The least pipe capacity that can hold a token for every message the buffer can hold. */
  const ENOUGH_TOKENS: nat := ALLOCATED_LEN / HDR_SIZE

  /** How many messages a pipe too small can leave without a token. */
  function Shortfall(c: Config): nat {
    if c.pipeCapacity < ENOUGH_TOKENS then ENOUGH_TOKENS - c.pipeCapacity else 0
  }

  /** Covered, for a pipe of any capacity. */
  ghost predicate Bounded(c: Config, s: State) {
    |s.queue| <= s.tokens + Pending(s) + PoppedUnread(s) + Shortfall(c)
  }

  lemma SoundStep(c: Config, s: State, a: Action)
    requires Sound(c, s) && Enabled(c, s, a)
    ensures Sound(c, Next(c, s, a))
  {
    match a
    case DoPush => OccupiedAppend(s.queue, s.producer.msg);
    case _ =>
  }

  lemma CoveredStep(c: Config, s: State, a: Action)
    requires c.pipeCapacity >= ENOUGH_TOKENS
    requires Sound(c, s) && Enabled(c, s, a)
    requires Covered(s)
    ensures Covered(Next(c, s, a))
  {
    QueueLengthBound(s.queue);
  }

  lemma BoundedStep(c: Config, s: State, a: Action)
    requires Sound(c, s) && Enabled(c, s, a)
    requires Bounded(c, s)
    ensures Bounded(c, Next(c, s, a))
  {
    QueueLengthBound(s.queue);
  }

  lemma ExactStep(c: Config, s: State, a: Action)
    requires c.pipeCapacity >= ENOUGH_TOKENS && c.polling
    requires Sound(c, s) && Enabled(c, s, a)
    requires Exact(s)
    ensures Exact(Next(c, s, a))
  {
    QueueLengthBound(s.queue);
  }

  lemma {:induction false} Invariants(c: Config, acts: seq<Action>, s: State)
    requires Reaches(c, acts, s)
    ensures Sound(c, s) && Bounded(c, s)
    ensures c.pipeCapacity >= ENOUGH_TOKENS ==> Covered(s)
    ensures c.pipeCapacity >= ENOUGH_TOKENS && c.polling ==> Exact(s)
  {
    if acts != [] {
      var n := |acts| - 1;
      var p :| Reaches(c, acts[..n], p) && Enabled(c, p, acts[n]) && s == Next(c, p, acts[n]);
      Invariants(c, acts[..n], p);
      SoundStep(c, p, acts[n]);
      BoundedStep(c, p, acts[n]);
      if c.pipeCapacity >= ENOUGH_TOKENS {
        CoveredStep(c, p, acts[n]);
        if c.polling {
          ExactStep(c, p, acts[n]);
        }
      }
    }
  }

  /** In every interleaving, messages come out whole, once, and in the order they were accepted. */
  lemma FifoDelivery(c: Config, s: State)
    requires Reachable(c, s)
    ensures s.accepted == s.delivered + s.queue
    ensures s.delivered <= s.accepted
  {
    var acts :| Reaches(c, acts, s);
    Invariants(c, acts, s);
  }

  /** A queued message always has a token in the pipe or one about to be written. */
  lemma NoLostWakeup(c: Config, s: State)
    requires c.pipeCapacity >= ENOUGH_TOKENS
    requires Reachable(c, s)
    ensures |s.queue| <= s.tokens + Pending(s) + PoppedUnread(s)
  {
    var acts :| Reaches(c, acts, s);
    Invariants(c, acts, s);
  }

  /** A consumer that peeks only when the pipe is readable never gets -EAGAIN. */
  lemma PollingNeverEmpty(c: Config, s: State)
    requires c.pipeCapacity >= ENOUGH_TOKENS && c.polling
    requires Reachable(c, s)
    ensures |s.queue| == s.tokens + Pending(s) + PoppedUnread(s)
    ensures s.consumer.CLocked? ==> s.queue != []
    ensures s.producer.PNotify? ==> s.tokens < c.pipeCapacity
  {
    var acts :| Reaches(c, acts, s);
    Invariants(c, acts, s);
    QueueLengthBound(s.queue);
  }

  /**
   * A producer asleep and unsignalled while the mutex is free really has no room; the box then
   * holds messages and the pipe is readable, so a polling consumer can always go on.
   */
  lemma NoStuckProducer(c: Config, s: State)
    requires c.maxMsgSize <= DYNMBOX_MAX_SIZE
    requires Reachable(c, s) && s.LockFree() && s.producer.PAsleep?
    ensures !Fits(s.queue, |s.producer.msg|)
    ensures s.queue != []
    ensures c.pipeCapacity >= ENOUGH_TOKENS ==> s.tokens > 0 && Enabled(c, s, CallPeek)
  {
    var acts :| Reaches(c, acts, s);
    Invariants(c, acts, s);
  }

  /**
   * A producer that leaves the waiting loop finds room in do_push, and a consumer past the emptiness
   * test finds a message in do_peek: the failures the code provides for there never happen.
   */
  lemma CriticalSectionsSucceed(c: Config, s: State)
    requires Reachable(c, s)
    ensures s.producer.PPushing? && s.producer.blocking ==>
              Fits(s.queue, |s.producer.msg|) && Next(c, s, DoPush).accepted == s.accepted + [s.producer.msg]
    ensures s.consumer.CRead? ==>
              s.queue != [] && |Next(c, s, DoPeek).delivered| == |s.delivered| + 1
    ensures HoldsLock(s.producer) ==> s.consumer.CIdle?
  {
    var acts :| Reaches(c, acts, s);
    Invariants(c, acts, s);
  }

  // ----- progress

  lemma Perform(c: Config, acts: seq<Action>, s: State, a: Action) returns (more: seq<Action>, s': State)
    requires Reaches(c, acts, s) && Enabled(c, s, a)
    ensures s' == Next(c, s, a) && Reaches(c, more, s') && more == acts + [a]
  {
    more, s' := acts + [a], Next(c, s, a);
    assert more[..|acts|] == acts;
  }

  /** One dynmbox_peek, and the woken producer's next look at the space. */
  lemma PeekRound(c: Config, acts: seq<Action>, s: State) returns (more: seq<Action>, s': State)
    requires Reaches(c, acts, s) && s.consumer.CIdle? && s.producer.PAsleep? && s.queue != []
    requires c.polling ==> s.tokens > 0
    ensures Reaches(c, more, s') && acts <= more && s'.consumer.CIdle?
    ensures s'.queue == s.queue[1..] && s'.accepted == s.accepted
    ensures var msg := s.producer.msg;
            s'.producer == if Fits(s'.queue, |msg|) then PPushing(msg, true) else PAsleep(msg)
  {
    hide Reaches, Fits;
    more, s' := Perform(c, acts, s, CallPeek);
    more, s' := Perform(c, more, s', TestEmpty);
    more, s' := Perform(c, more, s', PopNotify);
    more, s' := Perform(c, more, s', DoPeek);
    more, s' := Perform(c, more, s', Signal);
    more, s' := Perform(c, more, s', Unlock);
    more, s' := Perform(c, more, s', Relock);
    more, s' := Perform(c, more, s', TestSpace);
  }

  /**
   * A consumer that waits for the pipe is safe from deadlock when the pipe is large enough, or when
   * the messages it can leave without a token never fill the buffer.
   */
  predicate NeverStarves(c: Config) {
    c.pipeCapacity >= ENOUGH_TOKENS || (Shortfall(c) + 1) * (c.maxMsgSize + HDR_SIZE) <= ALLOCATED_LEN
  }

  lemma {:induction false} OccupiedBound(q: seq<seq<byte>>, size: nat)
    requires Sendable(q, size)
    ensures Occupied(q) <= |q| * (size + HDR_SIZE)
  {
    if q != [] {
      OccupiedBound(q[1..], size);
      assert |q| * (size + HDR_SIZE) == |q[1..]| * (size + HDR_SIZE) + (size + HDR_SIZE);
    }
  }

  lemma MulMonotone(a: nat, b: nat, k: nat)
    requires a <= b
    ensures a * k <= b * k
  {
  }

  /** While a producer sleeps and the mutex is free, there is a token. */
  lemma SleeperHasToken(c: Config, s: State)
    requires c.maxMsgSize <= DYNMBOX_MAX_SIZE && NeverStarves(c)
    requires Reachable(c, s) && s.LockFree() && s.producer.PAsleep?
    ensures s.tokens > 0
  {
    hide Reaches;
    NoStuckProducer(c, s);
    var acts :| Reaches(c, acts, s);
    Invariants(c, acts, s);
    var k := c.maxMsgSize + HDR_SIZE;
    OccupiedBound(s.queue, c.maxMsgSize);
    assert (Shortfall(c) + 1) * k == Shortfall(c) * k + k;
    if |s.queue| <= Shortfall(c) {
      MulMonotone(|s.queue|, Shortfall(c), k);
    }
  }

  /**
   * From every reachable state with a sleeping producer and an idle consumer, peeks alone lead to the
   * message being accepted.
   */
  lemma {:induction false} SleeperFinishes(c: Config, acts: seq<Action>, s: State)
    returns (more: seq<Action>, s': State)
    requires c.maxMsgSize <= DYNMBOX_MAX_SIZE
    requires c.polling ==> NeverStarves(c)
    requires Reaches(c, acts, s) && s.producer.PAsleep? && s.consumer.CIdle?
    ensures Reaches(c, more, s') && acts <= more
    ensures s'.accepted == s.accepted + [s.producer.msg]
    decreases |s.queue|
  {
    hide Reaches, Fits, NeverStarves;
    assert Reachable(c, s);
    NoStuckProducer(c, s);
    if c.polling {
      SleeperHasToken(c, s);
    }
    more, s' := PeekRound(c, acts, s);
    if s'.producer.PPushing? {
      assert Reachable(c, s');
      CriticalSectionsSucceed(c, s');
      more, s' := Perform(c, more, s', DoPush);
    } else {
      more, s' := SleeperFinishes(c, more, s');
    }
  }

  /** A wait that times out ends the push: two steps of the producer, and nothing else changes. */
  lemma TimedOutLeaves(c: Config, acts: seq<Action>, s: State) returns (more: seq<Action>, s': State)
    requires Reaches(c, acts, s) && s.producer.PAsleep? && s.consumer.CIdle?
    ensures more == acts + [Timeout, Relock] && Reaches(c, more, s')
    ensures s' == s.(producer := PIdle)
  {
    hide Reaches;
    more, s' := Perform(c, acts, s, Timeout);
    more, s' := Perform(c, more, s', Relock);
  }

  /** A push that does not block returns by itself, with the message queued exactly when it fits. */
  lemma PushReturns(c: Config, acts: seq<Action>, s: State, msg: seq<byte>)
    returns (more: seq<Action>, s': State)
    requires Reaches(c, acts, s) && s.producer.PIdle? && s.consumer.CIdle? && |msg| <= c.maxMsgSize
    ensures Reaches(c, more, s') && acts <= more && s'.producer.PIdle? && s'.consumer.CIdle?
    ensures if Fits(s.queue, |msg|)
            then && s'.queue == s.queue + [msg] && s'.accepted == s.accepted + [msg]
                 && s'.tokens == (if s.tokens < c.pipeCapacity then s.tokens + 1 else s.tokens)
            else s' == s
  {
    hide Reaches, Fits;
    more, s' := Perform(c, acts, s, Call(msg, false));
    more, s' := Perform(c, more, s', DoPush);
    if s'.producer.PNotify? {
      more, s' := Perform(c, more, s', PushNotify);
    }
  }

  /** A peek at an empty box returns by itself and changes nothing, not even the tokens. */
  lemma EmptyPeekReturns(c: Config, acts: seq<Action>, s: State) returns (more: seq<Action>, s': State)
    requires Reaches(c, acts, s) && s.LockFree() && s.queue == [] && !c.polling
    ensures Reaches(c, more, s') && s' == s
  {
    hide Reaches;
    more, s' := Perform(c, acts, s, CallPeek);
    more, s' := Perform(c, more, s', TestEmpty);
  }

  // ----- a smaller pipe does lose wake-ups

  function EmptyMessages(n: nat): (q: seq<seq<byte>>)
    ensures |q| == n && forall i :: 0 <= i < n ==> q[i] == []
  {
    seq(n, _ => [])
  }

  lemma {:induction false} OccupiedByEmpty(n: nat)
    ensures Occupied(EmptyMessages(n)) == HDR_SIZE * n
  {
    if n > 0 {
      assert EmptyMessages(n)[1..] == EmptyMessages(n - 1);
      OccupiedByEmpty(n - 1);
    }
  }

  lemma PushOneEmpty(c: Config, acts: seq<Action>, s: State) returns (more: seq<Action>, s': State)
    requires Reaches(c, acts, s) && s.producer.PIdle? && s.consumer.CIdle? && Fits(s.queue, 0)
    ensures Reaches(c, more, s') && s'.producer.PIdle? && s'.consumer.CIdle?
    ensures s'.queue == s.queue + [[]]
    ensures s'.tokens == if s.tokens < c.pipeCapacity then s.tokens + 1 else s.tokens
  {
    hide Reaches;
    more, s' := Perform(c, acts, s, Call([], false));
    more, s' := Perform(c, more, s', DoPush);
    more, s' := Perform(c, more, s', PushNotify);
  }

  /** Pushing n empty messages, each followed by its notification, with no peek in between. */
  lemma {:induction false} PushEmpty(c: Config, n: nat) returns (acts: seq<Action>, s: State)
    requires n <= ENOUGH_TOKENS
    ensures Reaches(c, acts, s)
    ensures s.queue == EmptyMessages(n) && s.producer.PIdle? && s.consumer.CIdle?
    ensures s.tokens == if n < c.pipeCapacity then n else c.pipeCapacity
  {
    if n == 0 {
      return [], Init;
    }
    hide Reaches;
    acts, s := PushEmpty(c, n - 1);
    OccupiedByEmpty(n - 1);
    assert EmptyMessages(n) == EmptyMessages(n - 1) + [[]];
    acts, s := PushOneEmpty(c, acts, s);
  }

  ghost predicate NeverLoses(c: Config) {
    forall s :: Reachable(c, s) ==> |s.queue| <= s.tokens + Pending(s) + PoppedUnread(s)
  }

  /** No wake-up is ever lost exactly when the pipe can hold one byte per minimal frame. */
  lemma PipeCapacityIsExact(c: Config)
    ensures NeverLoses(c) <==> c.pipeCapacity >= 16384
  {
    if c.pipeCapacity >= ENOUGH_TOKENS {
      forall s | Reachable(c, s)
        ensures |s.queue| <= s.tokens + Pending(s) + PoppedUnread(s)
      {
        NoLostWakeup(c, s);
      }
    } else {
      var acts, s := PushEmpty(c, c.pipeCapacity + 1);
      assert Reachable(c, s);
    }
  }

  // ----- and can leave both sides waiting

  /** No peek may start, and the producer sleeps until a signal that only a peek sends. */
  ghost predicate Starved(c: Config, s: State) {
    s.producer.PAsleep? && s.consumer.CIdle? && s.tokens == 0
  }

  /** A peek while the producer is elsewhere. */
  lemma PeekOne(c: Config, acts: seq<Action>, s: State) returns (more: seq<Action>, s': State)
    requires Reaches(c, acts, s) && s.producer.PIdle? && s.consumer.CIdle? && s.queue != [] && s.tokens > 0
    ensures Reaches(c, more, s') && s'.producer.PIdle? && s'.consumer.CIdle?
    ensures s'.queue == s.queue[1..] && s'.tokens == s.tokens - 1
  {
    hide Reaches;
    more, s' := Perform(c, acts, s, CallPeek);
    more, s' := Perform(c, more, s', TestEmpty);
    more, s' := Perform(c, more, s', PopNotify);
    more, s' := Perform(c, more, s', DoPeek);
    more, s' := Perform(c, more, s', Signal);
    more, s' := Perform(c, more, s', Unlock);
  }

  /** As many peeks as there are tokens. */
  lemma {:induction false} PeekAll(c: Config, acts: seq<Action>, s: State) returns (more: seq<Action>, s': State)
    requires Reaches(c, acts, s) && s.producer.PIdle? && s.consumer.CIdle? && s.tokens <= |s.queue|
    ensures Reaches(c, more, s') && s'.producer.PIdle? && s'.consumer.CIdle?
    ensures s'.queue == s.queue[s.tokens..] && s'.tokens == 0
    decreases s.tokens
  {
    hide Reaches;
    more, s' := acts, s;
    if s.tokens > 0 {
      more, s' := PeekOne(c, acts, s);
      assert s.queue[1..][s.tokens - 1..] == s.queue[s.tokens..];
      more, s' := PeekAll(c, more, s');
    }
  }

  /** Whether the last k messages have the largest size. */
  ghost predicate LargeTail(q: seq<seq<byte>>, k: nat, size: nat) {
    k <= |q| && forall i :: |q| - k <= i < |q| ==> |q[i]| == size
  }

  lemma {:induction false} OccupiedByLarge(q: seq<seq<byte>>, size: nat)
    requires LargeTail(q, |q|, size)
    ensures Occupied(q) == |q| * (size + HDR_SIZE)
  {
    if q != [] {
      assert LargeTail(q[1..], |q| - 1, size);
      OccupiedByLarge(q[1..], size);
      assert |q| * (size + HDR_SIZE) == |q[1..]| * (size + HDR_SIZE) + (size + HDR_SIZE);
    }
  }

  /** Pushing the largest messages, one peek after each, until one does not fit. */
  lemma {:induction false} PushLarge(c: Config, acts: seq<Action>, s: State, k: nat)
    returns (more: seq<Action>, s': State)
    requires 0 < c.pipeCapacity < ENOUGH_TOKENS && !NeverStarves(c)
    requires Reaches(c, acts, s) && s.producer.PIdle? && s.consumer.CIdle? && s.tokens == 0
    requires |s.queue| == Shortfall(c) && LargeTail(s.queue, k, c.maxMsgSize)
    ensures Reaches(c, more, s') && Starved(c, s')
    decreases Shortfall(c) - k
  {
    hide Reaches, NeverStarves;
    var msg: seq<byte> := seq(c.maxMsgSize, _ => 0);
    if k == Shortfall(c) {
      LargeDoesNotFit(c, s.queue);
    }
    more, s' := Perform(c, acts, s, Call(msg, true));
    more, s' := Perform(c, more, s', TestSpace);
    if s'.producer.PPushing? {
      more, s' := Perform(c, more, s', DoPush);
      more, s' := Perform(c, more, s', PushNotify);
      more, s' := PeekOne(c, more, s');
      assert s'.queue == s.queue[1..] + [msg];
      more, s' := PushLarge(c, more, s', k + 1);
    }
  }

  lemma LargeDoesNotFit(c: Config, q: seq<seq<byte>>)
    requires c.pipeCapacity < ENOUGH_TOKENS && !NeverStarves(c)
    requires |q| == Shortfall(c) && LargeTail(q, |q|, c.maxMsgSize)
    ensures !Fits(q, c.maxMsgSize)
  {
    OccupiedByLarge(q, c.maxMsgSize);
    var k := c.maxMsgSize + HDR_SIZE;
    assert (Shortfall(c) + 1) * k == Shortfall(c) * k + k;
  }

  lemma StarvedOccurs(c: Config) returns (acts: seq<Action>, s: State)
    requires !NeverStarves(c)
    ensures Reaches(c, acts, s) && Starved(c, s)
  {
    acts, s := PushEmpty(c, ENOUGH_TOKENS);
    hide Reaches;
    if c.pipeCapacity == 0 {
      OccupiedByEmpty(ENOUGH_TOKENS);
      acts, s := Perform(c, acts, s, Call([], true));
      acts, s := Perform(c, acts, s, TestSpace);
    } else {
      acts, s := PeekAll(c, acts, s);
      acts, s := PushLarge(c, acts, s, 0);
    }
  }

  /** Both sides can end up waiting for each other exactly when the pipe is too small for the messages. */
  lemma StarvationExactly(c: Config)
    requires c.maxMsgSize <= DYNMBOX_MAX_SIZE
    ensures (exists s :: Reachable(c, s) && Starved(c, s)) <==>
              c.pipeCapacity < 16384 && (16384 - c.pipeCapacity + 1) * (c.maxMsgSize + 4) > 65536
  {
    assert NeverStarves(c) <==>
           !(c.pipeCapacity < 16384 && (16384 - c.pipeCapacity + 1) * (c.maxMsgSize + 4) > 65536);
    hide NeverStarves;
    if NeverStarves(c) {
      forall s | Reachable(c, s)
        ensures !Starved(c, s)
      {
        if Starved(c, s) {
          SleeperHasToken(c, s);
          assert false;
        }
      }
    } else {
      var acts, s := StarvedOccurs(c);
      assert Reachable(c, s);
    }
  }
}
