/**
 * Every run of a program that keeps one file with safew, with a crash possible between any two
 * file operations: boot and check, open, write, commit with checksum, which may fail at any
 * operation and clean up, or roll back, crash, again.
 */
module SafewCrash {
  import opened Bytes
  import opened Common
  import opened Crc
  import opened Safew

  datatype Phase =
    | Off
    | Checking(origin: Files, done: nat)   // `done` operations of CheckScript(origin) performed
    | Ready
    | Opening                              // payload.tmp unlinked, not yet created
    | Writing(failure: bool)
    | Committing(base: Files, version: Data, done: nat)
                                           // `done` operations of CommitScript(version) performed
    | Failing(base: Files, version: Data, at: nat, done: nat)
                                           // the commit failed after `at` operations; `done` of CleanUp performed

  /** Whether a crash came at a vulnerable moment, or a commit failed, and no check or clean-up ended since. */
  datatype Damage = Whole | Crashed | Failed

  /**
   * `committed` is the version a reader must get back: it changes when crc.tmp is complete, to
   * nothing when a failed commit has cleaned up, and to what is left when a check ends. `former` is
   * the payload it replaced. `orphan` tells that a failed commit may have left a payload without a
   * checksum.
   */
  datatype System = System(files: Files, phase: Phase, committed: Option<Data>, former: Option<Data>,
                           damage: Damage, orphan: bool)

  const Start := System(Nothing, Off, None, None, Whole, false)

  datatype Event =
    | Boot
    | Progress                             // the next operation of the script under way
    | Finish                               // the script is done
    | Open
    | OpenNew
    | Flush(content: Data, ok: bool)       // what payload.tmp holds after some writes, or the final flush
    | Rollback
    | Commit
    | Fail                                 // the next operation of a commit fails
    | Crash

  /** crc.tmp exists beside a committed pair but does not hold its four bytes yet. */
  predicate TornCrc(s: System) {
    && s.files.payload.Some? && s.files.crc.Some? && s.files.tmpPayload.Some?
    && s.files.tmpCrc.Some? && |s.files.tmpCrc.value| < CRC_SIZE
  }

  /** A check installed the new checksum over the old one but not yet the new payload. */
  predicate HalfRecovered(s: System) {
    && s.phase.Checking? && s.files.payload.Some? && s.files.tmpPayload.Some?
    && s.files.payload != s.files.tmpPayload
    && s.phase.done < |CheckScript(s.phase.origin)|
    && CheckScript(s.phase.origin)[s.phase.done] == Rename(TmpPayload, Payload)
  }

  predicate Vulnerable(s: System) {
    TornCrc(s) || HalfRecovered(s)
  }

  predicate Enabled(s: System, e: Event) {
    match e
    case Boot => s.phase.Off?
    case Progress =>
      || (s.phase.Checking? && s.phase.done < |CheckScript(s.phase.origin)|)
      || (s.phase.Committing? && s.phase.done < |CommitScript(s.phase.version)|)
      || (s.phase.Failing? && s.phase.done < |CleanUp|)
    case Finish =>
      || (s.phase.Checking? && s.phase.done == |CheckScript(s.phase.origin)|)
      || (s.phase.Committing? && s.phase.done == |CommitScript(s.phase.version)|)
      || (s.phase.Failing? && s.phase.done == |CleanUp|)
    case Open => s.phase.Ready?
    case OpenNew => s.phase.Opening?
    case Flush(_, _) => s.phase.Writing?
    case Rollback => s.phase.Writing?
    case Commit => s.phase.Writing? && s.files.tmpPayload.Some?
    case Fail => s.phase.Committing? && s.phase.done < |CommitScript(s.phase.version)|
    case Crash => true
  }

  function Next(s: System, e: Event): System
    requires Enabled(s, e)
  {
    match e
    case Boot => s.(phase := Checking(s.files, 0))
    case Progress =>
      if s.phase.Checking? then
        s.(files := Apply(s.files, CheckScript(s.phase.origin)[s.phase.done]),
           phase := Checking(s.phase.origin, s.phase.done + 1))
      else if s.phase.Failing? then
        s.(files := Apply(s.files, CleanUp[s.phase.done]),
           phase := Failing(s.phase.base, s.phase.version, s.phase.at, s.phase.done + 1))
      else
        s.(files := Apply(s.files, CommitScript(s.phase.version)[s.phase.done]),
           phase := Committing(s.phase.base, s.phase.version, s.phase.done + 1),
           committed := if s.phase.done == CRC_SIZE then Some(s.phase.version) else s.committed,
           former := if s.phase.done == CRC_SIZE then s.phase.base.payload else s.former)
    case Finish =>
      if s.phase.Checking? then
        s.(phase := Ready, committed := s.files.payload, damage := Whole, orphan := false)
      else if s.phase.Failing? then
        s.(phase := Ready, committed := None, damage := Whole, orphan := true)
      else
        s.(phase := Ready, orphan := false)
    case Open => s.(files := Apply(s.files, Unlink(TmpPayload)), phase := Opening)
    case OpenNew => s.(files := Apply(s.files, Create(TmpPayload)), phase := Writing(false))
    case Flush(content, ok) =>
      s.(files := s.files.(tmpPayload := Some(content)), phase := Writing(s.phase.failure || !ok))
    case Rollback => s.(files := Apply(s.files, Unlink(TmpPayload)), phase := Ready)
    case Commit =>
      if s.phase.failure
      then s.(files := Apply(s.files, Unlink(TmpPayload)), phase := Ready)
      else s.(phase := Committing(s.files.(tmpPayload := None), s.files.tmpPayload.value, 0))
    case Fail =>
      s.(phase := Failing(s.phase.base, s.phase.version, s.phase.done, 0), damage := Failed,
         former := if s.phase.done <= CRC_SIZE then s.committed else s.former)
    case Crash => s.(phase := Off, damage := if Vulnerable(s) && s.damage.Whole? then Crashed else s.damage)
  }

  /** The system after a run, if every event of it was possible when it happened. */
  function Run(events: seq<Event>): Option<System> {
    if events == [] then Some(Start)
    else
      var n := |events| - 1;
      match Run(events[..n])
      case None => None
      case Some(s) => if Enabled(s, events[n]) then Some(Next(s, events[n])) else None
  }

  /** The contents of the directory between scripts, for a committed version and the payload before. */
  predicate Settled(f: Files, committed: Option<Data>, former: Option<Data>) {
    // nothing but an unfinished new payload
    || f == PairOf(committed).(tmpPayload := f.tmpPayload)
    // nothing committed: no checksum but perhaps an unfinished one
    || (committed == None && f.crc == None && (f.tmpCrc.Some? ==> |f.tmpCrc.value| < CRC_SIZE))
    // the new pair complete in the temporaries
    || (committed.Some? && CrcOfOrNone(f.crc, former) && f == Files(former, f.crc, committed, PairOf(committed).crc))
    // the new payload in place, its checksum still temporary
    || (committed.Some? && CrcOfOrNone(f.crc, former) && f == Files(committed, f.crc, None, PairOf(committed).crc))
  }

  predicate CrcOfOrNone(crc: Option<Data>, payload: Option<Data>) {
    crc == None || crc == PairOf(payload).crc
  }

  /** What a crash at a vulnerable moment, and checks interrupted after it, can leave. */
  predicate Hurt(f: Files, committed: Option<Data>, former: Option<Data>) {
    // the committed pair beside an unfinished checksum
    || (f == PairOf(committed).(tmpPayload := f.tmpPayload, tmpCrc := f.tmpCrc)
        && (f.tmpCrc.Some? ==> |f.tmpCrc.value| < CRC_SIZE))
    // the former payload with the new checksum, perhaps with the new payload still temporary
    || (committed.Some? && former.Some? && f == Files(former, PairOf(committed).crc, f.tmpPayload, None)
        && (f.tmpPayload == None || f.tmpPayload == committed))
    // no payload at all
    || f == Files(None, f.crc, None, None)
  }

  /** What the clean-up of a failed commit, and checks interrupted after it, can leave besides. */
  predicate Dropped(f: Files, committed: Option<Data>, former: Option<Data>) {
    // a payload that has lost its checksum
    || (f == Files(f.payload, None, None, f.tmpCrc) && (f.tmpCrc.Some? ==> |f.tmpCrc.value| < CRC_SIZE))
    // the former payload, the new one gone but its checksum still temporary
    || (committed.Some? && CrcOfOrNone(f.crc, former) && f == Files(former, f.crc, None, PairOf(committed).crc))
    // the former pair
    || f == PairOf(former)
  }

  predicate Left(f: Files, committed: Option<Data>, former: Option<Data>, damage: Damage) {
    || Settled(f, committed, former)
    || (!damage.Whole? && Hurt(f, committed, former))
    || (damage.Failed? && Dropped(f, committed, former))
  }

  /**
   * The possible ends of a check after damage. A failed commit may fall back to the former version;
   * otherwise that takes two versions with the same checksum.
   */
  predicate Spared(r: Files, committed: Option<Data>, former: Option<Data>, damage: Damage) {
    || r == PairOf(committed)
    || r == Nothing
    || (former.Some? && r == PairOf(former)
        && (damage.Failed? || (committed.Some? && Checksum(former.value) == Checksum(committed.value))))
  }

  lemma SettledRecovers(f: Files, committed: Option<Data>, former: Option<Data>)
    requires Settled(f, committed, former)
    ensures Recovered(f) == PairOf(committed)
  {
    PairMatches(committed);
    PairMatches(former);
  }

  lemma HurtRecovers(f: Files, committed: Option<Data>, former: Option<Data>)
    requires Hurt(f, committed, former)
    ensures Spared(Recovered(f), committed, former, Crashed)
  {
    PairMatches(committed);
  }

  lemma DroppedRecovers(f: Files, committed: Option<Data>, former: Option<Data>)
    requires Dropped(f, committed, former)
    ensures Spared(Recovered(f), committed, former, Failed)
  {
    PairMatches(committed);
    PairMatches(former);
  }

  lemma LeftRecovers(f: Files, committed: Option<Data>, former: Option<Data>, damage: Damage)
    requires Left(f, committed, former, damage)
    ensures Spared(Recovered(f), committed, former, damage)
    ensures Recovered(f) == PairOf(Recovered(f).payload)
    ensures damage.Whole? ==> Recovered(f) == PairOf(committed)
  {
    hide Recovered, Settled, Hurt, Dropped;
    if Settled(f, committed, former) {
      SettledRecovers(f, committed, former);
    } else if !damage.Whole? && Hurt(f, committed, former) {
      HurtRecovers(f, committed, former);
    } else {
      DroppedRecovers(f, committed, former);
    }
  }

  lemma PairMatches(version: Option<Data>)
    ensures version.Some? ==> ReadLe(PairOf(version).crc.value, 0) == Checksum(version.value)
  {
    if version.Some? {
      LeRoundTrip(Checksum(version.value));
    }
  }

  function Shown(f: Files, script: seq<Op>, done: nat): Files
    requires done <= |script|
  {
    Exec(f, script[..done])
  }

  lemma ShownNext(f: Files, script: seq<Op>, done: nat)
    requires done < |script|
    ensures Shown(f, script, 0) == f
    ensures Shown(f, script, done + 1) == Apply(Shown(f, script, done), script[done])
  {
    assert script[..done + 1] == script[..done] + [script[done]];
    ExecAppend(f, script[..done], [script[done]]);
    ExecTwo(Shown(f, script, done), script[done], script[done]);
  }

  /** The directory between sessions: the committed pair, or an orphan of a failed commit. */
  predicate Kept(f: Files, committed: Option<Data>, orphan: bool) {
    f == PairOf(committed) || (orphan && committed == None && f == Files(f.payload, None, None, None))
  }

  /** The directory after `done` operations of a commit that started from `base` and payload.tmp. */
  function MidCommit(base: Files, version: Data, done: nat): Files {
    var crc := LeBytes(Checksum(version));
    if done == 0 then base.(tmpPayload := Some(version))
    else if done <= CRC_SIZE + 1 then base.(tmpPayload := Some(version), tmpCrc := Some(crc[..done - 1]))
    else if done == CRC_SIZE + 2 then Files(Some(version), base.crc, None, Some(crc))
    else PairOf(Some(version))
  }

  lemma MidCommitNext(base: Files, version: Data, done: nat)
    requires done < |CommitScript(version)| && base == Files(base.payload, base.crc, None, None)
    ensures MidCommit(base, version, done + 1)
         == Apply(MidCommit(base, version, done), CommitScript(version)[done])
  {
    var crc := LeBytes(Checksum(version));
    assert crc[..CRC_SIZE] == crc;
    if 1 <= done <= CRC_SIZE {
      assert crc[..done] == crc[..done - 1] + crc[done - 1..done];
      assert CommitScript(version)[done] == Append(TmpCrc, crc[done - 1..done]);
    }
  }

  /** A directory after the first operations of a clean-up. */
  function Cleaned(f: Files, done: nat): Files {
    f.(tmpPayload := if done >= 1 then None else f.tmpPayload,
       crc := if done >= 2 then None else f.crc,
       tmpCrc := if done >= 3 then None else f.tmpCrc)
  }

  /** How a commit under way relates to the version that counts as committed. */
  predicate Begun(s: System, base: Files, version: Data, done: nat) {
    && done <= |CommitScript(version)|
    && Kept(base, if base.crc == None then None else base.payload, true)
    && (if done <= CRC_SIZE then Kept(base, s.committed, s.orphan)
        else s.committed == Some(version) && s.former == base.payload)
  }

  ghost predicate Inv(s: System) {
    match s.phase
    case Off => Left(s.files, s.committed, s.former, s.damage)
    case Checking(origin, done) =>
      && Left(origin, s.committed, s.former, s.damage)
      && done <= |CheckScript(origin)| && s.files == Shown(origin, CheckScript(origin), done)
    case Ready => Kept(s.files, s.committed, s.orphan) && s.damage.Whole?
    case Opening => Kept(s.files, s.committed, s.orphan) && s.damage.Whole?
    case Writing(_) => Kept(s.files.(tmpPayload := None), s.committed, s.orphan) && s.damage.Whole?
    case Committing(base, version, done) =>
      && s.damage.Whole? && Begun(s, base, version, done)
      && s.files == MidCommit(base, version, done)
    case Failing(base, version, at, done) =>
      && s.damage.Failed? && Begun(s, base, version, at) && at < |CommitScript(version)| && done <= |CleanUp|
      && s.files == Cleaned(MidCommit(base, version, at), done)
  }

  /** Between the operations of a check the directory stays settled, or is half recovered. */
  lemma CheckStaysSettled(origin: Files, committed: Option<Data>, former: Option<Data>, done: nat)
    requires Settled(origin, committed, former) && done <= |CheckScript(origin)|
    ensures var f := Shown(origin, CheckScript(origin), done);
            var s := System(f, Checking(origin, done), committed, former, Whole, false);
            if HalfRecovered(s) then Hurt(f, committed, former) else Settled(f, committed, former)
  {
    hide Checksum, LeBytes, ReadLe;
    PairMatches(committed);
    PairMatches(former);
    ShownSoFar(origin, done);
  }

  lemma CheckStaysHurt(origin: Files, committed: Option<Data>, former: Option<Data>, done: nat)
    requires Hurt(origin, committed, former) && done <= |CheckScript(origin)|
    ensures Left(Shown(origin, CheckScript(origin), done), committed, former, Crashed)
  {
    hide Checksum, LeBytes, ReadLe;
    PairMatches(committed);
    ShownSoFar(origin, done);
  }

  lemma CheckStaysDropped(origin: Files, committed: Option<Data>, former: Option<Data>, done: nat)
    requires Dropped(origin, committed, former) && done <= |CheckScript(origin)|
    ensures Left(Shown(origin, CheckScript(origin), done), committed, former, Failed)
  {
    hide Checksum, LeBytes, ReadLe;
    PairMatches(committed);
    PairMatches(former);
    ShownSoFar(origin, done);
  }

  /** The directory after each of the at most four operations of a check. */
  lemma ShownSoFar(origin: Files, done: nat)
    requires done <= |CheckScript(origin)|
    ensures var script := CheckScript(origin);
            && done <= 4
            && Shown(origin, script, 0) == origin
            && (done >= 1 ==> Shown(origin, script, 1) == Apply(origin, script[0]))
            && (done >= 2 ==> Shown(origin, script, 2) == Apply(Shown(origin, script, 1), script[1]))
            && (done >= 3 ==> Shown(origin, script, 3) == Apply(Shown(origin, script, 2), script[2]))
            && (done >= 4 ==> Shown(origin, script, 4) == Apply(Shown(origin, script, 3), script[3]))
  {
    hide Apply, Matches;
    forall k | 0 <= k < done
      ensures Shown(origin, CheckScript(origin), k + 1)
           == Apply(Shown(origin, CheckScript(origin), k), CheckScript(origin)[k])
    {
      ShownNext(origin, CheckScript(origin), k);
    }
    assert |CheckScript(origin)| <= 4;
  }

  lemma CommitLeft(s: System)
    requires Inv(s) && s.phase.Committing?
    ensures if TornCrc(s) then Hurt(s.files, s.committed, s.former)
            else Settled(s.files, s.committed, s.former)
  {
    var version := s.phase.version;
    assert LeBytes(Checksum(version))[..CRC_SIZE] == LeBytes(Checksum(version));
  }

  lemma CleanUpLeft(s: System)
    requires Inv(s) && s.phase.Failing?
    ensures Left(s.files, s.committed, s.former, Failed)
  {
    var version := s.phase.version;
    assert LeBytes(Checksum(version))[..CRC_SIZE] == LeBytes(Checksum(version));
  }

  /** What a crash leaves of the directory, at any moment. */
  lemma CrashLeft(s: System)
    requires Inv(s)
    ensures Left(s.files, s.committed, s.former, Next(s, Crash).damage)
  {
    hide Settled, Hurt, Dropped;
    match s.phase
    case Checking(origin, done) =>
      if Settled(origin, s.committed, s.former) {
        CheckStaysSettled(origin, s.committed, s.former, done);
      } else if !s.damage.Whole? && Hurt(origin, s.committed, s.former) {
        CheckStaysHurt(origin, s.committed, s.former, done);
      } else {
        CheckStaysDropped(origin, s.committed, s.former, done);
      }
    case Committing(_, _, _) => CommitLeft(s);
    case Failing(_, _, _, _) => CleanUpLeft(s);
    case Off =>
    case _ => KeptIsSettled(s);
  }

  lemma KeptIsSettled(s: System)
    requires Inv(s) && (s.phase.Ready? || s.phase.Opening? || s.phase.Writing?)
    ensures Settled(s.files, s.committed, s.former)
  {
  }

  lemma CheckFinishes(s: System)
    requires Inv(s) && s.phase.Checking? && s.phase.done == |CheckScript(s.phase.origin)|
    ensures s.files == Recovered(s.phase.origin) == PairOf(s.files.payload)
    ensures Spared(s.files, s.committed, s.former, s.damage)
    ensures s.damage.Whole? ==> s.files == PairOf(s.committed)
  {
    hide Left, Spared;
    var origin, script := s.phase.origin, CheckScript(s.phase.origin);
    CheckScriptRecovers(origin);
    assert script[..s.phase.done] == script;
    hide Recovered, CheckScript;
    LeftRecovers(origin, s.committed, s.former, s.damage);
  }

  lemma InvProgress(s: System)
    requires Inv(s) && Enabled(s, Progress)
    ensures Inv(Next(s, Progress))
  {
    hide CheckScript, Left;
    match s.phase
    case Checking(origin, done) => ShownNext(origin, CheckScript(origin), done);
    case Committing(base, version, done) =>
      hide MidCommit;
      MidCommitNext(base, version, done);
    case Failing(base, version, at, done) =>
      hide MidCommit;
  }

  lemma InvStep(s: System, e: Event)
    requires Inv(s) && Enabled(s, e)
    ensures Inv(Next(s, e))
  {
    hide CheckScript, Left, Vulnerable;
    match e
    case Crash => CrashLeft(s);
    case Progress => InvProgress(s);
    case Finish =>
      if s.phase.Checking? {
        CheckFinishes(s);
      }
    case _ =>
  }

  lemma {:induction false} RunKeepsInv(events: seq<Event>)
    requires Run(events).Some?
    ensures Inv(Run(events).value)
  {
    if events != [] {
      var n := |events| - 1;
      RunKeepsInv(events[..n]);
      InvStep(Run(events[..n]).value, events[n]);
    }
  }

  /**
   * At every moment of every run with no damage, a full check would give back the committed version
   * with its checksum exactly when the moment is not one of the two vulnerable kinds; and a completed
   * check, commit or roll-back leaves that pair and nothing else, unless a failed commit before has
   * left a payload without a checksum. During a commit the committed version is the previous one
   * until crc.tmp is complete, and the new one from then on.
   */
  lemma CrashAtomicity(events: seq<Event>, s: System)
    requires Run(events) == Some(s)
    ensures s.damage.Whole? ==> (Recovered(s.files) == PairOf(s.committed) <==> !Vulnerable(s))
    ensures Vulnerable(s) ==> s.committed.Some? && Recovered(s.files) != PairOf(s.committed)
    ensures s.phase.Ready? ==>
              && s.damage.Whole?
              && (s.files == PairOf(s.committed)
                  || (s.orphan && s.committed == None && s.files == Files(s.files.payload, None, None, None)))
    ensures s.phase.Committing? ==>
              var base := s.phase.base;
              && (base == PairOf(base.payload) || base == Files(base.payload, None, None, None))
              && s.committed == if s.phase.done <= CRC_SIZE then (if base.crc == None then None else base.payload)
                                else Some(s.phase.version)
  {
    hide Left, Recovered, Vulnerable;
    RunKeepsInv(events);
    CrashLeft(s);
    if s.damage.Whole? && !Vulnerable(s) {
      LeftRecovers(s.files, s.committed, s.former, s.damage);
    } else if Vulnerable(s) {
      VulnerableLoses(s);
    }
  }

  /**
   * Even after crashes at vulnerable moments, failed commits, and crashes of their clean-up and of
   * the checks that follow, a full check ends with the committed version, or with nothing, or with
   * the former one: after a failed commit, or if its checksum happens to be the same. What it ends
   * with counts as committed from then on.
   */
  lemma LossIsBounded(events: seq<Event>, s: System)
    requires Run(events) == Some(s)
    ensures Spared(Recovered(s.files), s.committed, s.former, Next(s, Crash).damage)
    ensures s.phase.Checking? && Enabled(s, Finish) ==>
              && Spared(s.files, s.committed, s.former, s.damage)
              && Next(s, Finish).files == PairOf(Next(s, Finish).committed)
              && Next(s, Finish).damage.Whole?
  {
    hide Spared, Left;
    RunKeepsInv(events);
    CrashLeft(s);
    LeftRecovers(s.files, s.committed, s.former, Next(s, Crash).damage);
    if s.phase.Checking? && Enabled(s, Finish) {
      CheckFinishes(s);
    }
  }

  lemma TornLoses(s: System)
    requires Inv(s) && (s.phase.Committing? || s.phase.Failing?) && TornCrc(s)
    ensures s.committed.Some? && Recovered(s.files) != PairOf(s.committed)
  {
  }

  lemma CheckingLoses(s: System)
    requires Inv(s) && s.phase.Checking? && Vulnerable(s)
    ensures s.committed.Some? && Recovered(s.files) != PairOf(s.committed)
  {
    hide Checksum, LeBytes, ReadLe;
    var origin := s.phase.origin;
    PairMatches(s.committed);
    PairMatches(s.former);
    if Settled(origin, s.committed, s.former) {
      CheckStaysSettled(origin, s.committed, s.former, s.phase.done);
    }
    ShownSoFar(origin, s.phase.done);
  }

  lemma VulnerableLoses(s: System)
    requires Inv(s) && Vulnerable(s)
    ensures s.committed.Some? && Recovered(s.files) != PairOf(s.committed)
  {
    hide Recovered;
    if s.phase.Checking? {
      CheckingLoses(s);
    } else if s.phase.Committing? || s.phase.Failing? {
      TornLoses(s);
    } else {
      OffLoses(s);
    }
  }

  lemma OffLoses(s: System)
    requires Inv(s) && TornCrc(s) && !s.phase.Checking? && !s.phase.Committing? && !s.phase.Failing?
    ensures s.committed.Some? && Recovered(s.files) != PairOf(s.committed)
  {
  }

  // ----- runs that reach the vulnerable moments

  lemma Perform(events: seq<Event>, s: System, e: Event) returns (more: seq<Event>, t: System)
    requires Run(events) == Some(s) && Enabled(s, e)
    ensures t == Next(s, e) && Run(more) == Some(t)
  {
    more, t := events + [e], Next(s, e);
    assert more[..|events|] == events;
  }

  lemma {:induction false} FinishCheck(events: seq<Event>, s: System) returns (more: seq<Event>, t: System)
    requires Run(events) == Some(s) && s.phase.Checking? && s.damage.Whole?
    ensures Run(more) == Some(t) && t.phase == Ready && t.damage.Whole? && t.committed == s.committed
    decreases |CheckScript(s.phase.origin)| - s.phase.done
  {
    hide Run, CheckScript;
    RunKeepsInv(events);
    if s.phase.done < |CheckScript(s.phase.origin)| {
      more, t := Perform(events, s, Progress);
      more, t := FinishCheck(more, t);
    } else {
      CheckFinishes(s);
      more, t := Perform(events, s, Finish);
    }
  }

  lemma BeginCommit(events: seq<Event>, s: System, version: Data) returns (more: seq<Event>, t: System)
    requires Run(events) == Some(s) && s.phase == Ready
    ensures Run(more) == Some(t) && t.phase == Committing(s.files.(tmpPayload := None), version, 0)
  {
    hide Run;
    more, t := Perform(events, s, Open);
    more, t := Perform(more, t, OpenNew);
    more, t := Perform(more, t, Flush(version, true));
    more, t := Perform(more, t, Commit);
  }

  lemma {:induction false} CommitUpTo(events: seq<Event>, s: System, done: nat) returns (more: seq<Event>, t: System)
    requires Run(events) == Some(s) && s.phase.Committing?
    requires s.phase.done <= done <= |CommitScript(s.phase.version)|
    ensures Run(more) == Some(t) && t.phase == Committing(s.phase.base, s.phase.version, done) && Inv(t)
    decreases done - s.phase.done
  {
    hide Run, CommitScript, Inv;
    RunKeepsInv(events);
    if s.phase.done == done {
      return events, s;
    }
    more, t := Perform(events, s, Progress);
    more, t := CommitUpTo(more, t, done);
  }

  lemma FirstCommit(version: Data) returns (events: seq<Event>, s: System)
    ensures Run(events) == Some(s) && s.phase == Ready
    ensures s.committed == Some(version) && s.files == PairOf(Some(version))
  {
    events, s := [], Start;
    assert Run(events) == Some(s);
    hide Run, CheckScript, CommitScript;
    events, s := Perform(events, s, Boot);
    events, s := FinishCheck(events, s);
    events, s := BeginCommit(events, s, version);
    events, s := CommitUpTo(events, s, |CommitScript(version)|);
    CommitLength(version);
    events, s := Perform(events, s, Finish);
    CrashAtomicity(events, s);
  }

  lemma CommitLength(version: Data)
    ensures |CommitScript(version)| == CRC_SIZE + 3
  {
  }

  /** crc.tmp just created beside a committed pair. */
  lemma TornOccurs(previous: Data, version: Data) returns (events: seq<Event>, s: System)
    ensures Run(events) == Some(s) && TornCrc(s) && s.damage.Whole? && s.committed == Some(previous)
    ensures Recovered(s.files) == Nothing
  {
    hide Run, CommitScript;
    events, s := FirstCommit(previous);
    events, s := BeginCommit(events, s, version);
    CommitLength(version);
    events, s := CommitUpTo(events, s, 1);
  }

  /** A check between its two renames, after a crash that left both pairs complete. */
  lemma HalfOccurs(previous: Data, version: Data) returns (events: seq<Event>, s: System)
    requires previous != version
    ensures Run(events) == Some(s) && HalfRecovered(s) && s.damage.Whole? && s.committed == Some(version)
    ensures Recovered(s.files) == if Checksum(previous) == Checksum(version) then PairOf(Some(previous)) else Nothing
  {
    hide Run, CommitScript, CheckScript, Inv, Recovered;
    events, s := FirstCommit(previous);
    events, s := BeginCommit(events, s, version);
    CommitLength(version);
    events, s := CommitUpTo(events, s, CRC_SIZE + 1);
    BothPairs(previous, version, s);
    events, s := Perform(events, s, Crash);
    events, s := Perform(events, s, Boot);
    events, s := Perform(events, s, Progress);
  }

  lemma BothPairs(previous: Data, version: Data, s: System)
    requires previous != version && Inv(s) && s.phase == Committing(PairOf(Some(previous)), version, CRC_SIZE + 1)
    ensures s.damage.Whole? && s.committed == Some(version) && !Vulnerable(s)
    ensures var script, crc := CheckScript(s.files), Some(LeBytes(Checksum(version)));
            && |script| == 4 && script[0] == Rename(TmpCrc, PayloadCrc) && script[1] == Rename(TmpPayload, Payload)
            && Apply(s.files, script[0]) == Files(Some(previous), crc, Some(version), None)
            && Recovered(Apply(s.files, script[0]))
               == if Checksum(previous) == Checksum(version) then PairOf(Some(previous)) else Nothing
  {
    LeRoundTrip(Checksum(version));
    var crc := LeBytes(Checksum(version));
    assert crc[..CRC_SIZE] == crc;
  }

  /**
   * A commit that fails at an operation is a run of the same operations, and ends in the directory
   * that safew_fclose_commit leaves for that fault, with nothing to give back.
   */
  lemma FailureOccurs(previous: Data, version: Data, fault: Fault) returns (events: seq<Event>, s: System)
    requires !fault.NoFault? && !fault.SyncFails?
    ensures Run(events) == Some(s) && s.phase == Ready && s.committed == None
    ensures s.files == CommitOutcome(PairOf(Some(previous)).(tmpPayload := Some(version)), true, false, fault)
    ensures Recovered(s.files) == Nothing
  {
    hide Run, CommitScript, Recovered;
    events, s := FirstCommit(previous);
    events, s := BeginCommit(events, s, version);
    CommitLength(version);
    events, s := CommitUpTo(events, s, FailedAfter(fault));
    events, s := Perform(events, s, Fail);
    events, s := Perform(events, s, Progress);
    events, s := Perform(events, s, Progress);
    events, s := Perform(events, s, Progress);
    events, s := Perform(events, s, Finish);
    CrashAtomicity(events, s);
  }

  /**
   * A commit that fails keeps the old version readable if and only if it failed before the checksum
   * names were built: later, the clean-up also removes the old checksum, and a check erases all.
   */
  lemma FailedCommitKeepsOld(previous: Data, version: Data, failure: bool, fault: Fault)
    requires failure || !fault.NoFault?
    ensures var left := CommitOutcome(PairOf(Some(previous)).(tmpPayload := Some(version)), true, failure, fault);
            && (Recovered(left) == PairOf(Some(previous)) <==> failure || fault.SyncFails?)
            && (Recovered(left) == Nothing <==> !failure && !fault.SyncFails?)
  {
    LeRoundTrip(Checksum(previous));
  }

  /**
   * fopen leaves a stale crc.tmp alone. After a crash between the two renames of a commit, opening
   * a new session without a check first, and crashing again, loses the committed version unless
   * the checksums happen to coincide.
   */
  lemma OpenWithoutCheck(previous: Data, committed: Data, unfinished: Data)
    ensures var crashed := MidCommit(PairOf(Some(previous)), committed, CRC_SIZE + 2);
            && Recovered(crashed) == PairOf(Some(committed))
            && (Recovered(crashed.(tmpPayload := Some(unfinished))) == PairOf(Some(committed)) <==>
                || unfinished == committed
                || (Checksum(unfinished) != Checksum(committed) && Checksum(previous) == Checksum(committed)))
  {
    LeRoundTrip(Checksum(committed));
    LeRoundTrip(Checksum(previous));
    var crc := LeBytes(Checksum(committed));
    assert crc[..CRC_SIZE] == crc;
  }
}
