/**
 * Safe replacement of a file: the payload, its checksum file, and the temporary forms of both.
 * Every function that touches the directory is a sequence of atomic file operations; the same
 * sequences are replayed with crashes between any two operations in SafewCrash.
 */
module Safew {
  import opened Bytes
  import opened Common
  import opened Crc

  datatype Name = Payload | PayloadCrc | TmpPayload | TmpCrc

  datatype Files = Files(payload: Option<Data>, crc: Option<Data>,
                         tmpPayload: Option<Data>, tmpCrc: Option<Data>)
  {
    function Get(n: Name): Option<Data> {
      match n
      case Payload => payload
      case PayloadCrc => crc
      case TmpPayload => tmpPayload
      case TmpCrc => tmpCrc
    }

    function Set(n: Name, d: Option<Data>): Files {
      match n
      case Payload => this.(payload := d)
      case PayloadCrc => this.(crc := d)
      case TmpPayload => this.(tmpPayload := d)
      case TmpCrc => this.(tmpCrc := d)
    }
  }

  const Nothing := Files(None, None, None, None)

  datatype Op =
    | Rename(from: Name, to: Name)
    | Unlink(name: Name)
    | Create(name: Name)
    | Append(name: Name, data: Data)

  function Apply(f: Files, op: Op): Files {
    match op
    case Rename(from, to) => if f.Get(from) == None then f else f.Set(to, f.Get(from)).Set(from, None)
    case Unlink(name) => f.Set(name, None)
    case Create(name) => f.Set(name, Some([]))
    case Append(name, data) =>
      if f.Get(name) == None then f else f.Set(name, Some(f.Get(name).value + data))
  }

  function Exec(f: Files, ops: seq<Op>): Files
    decreases |ops|
  {
    if ops == [] then f else Exec(Apply(f, ops[0]), ops[1..])
  }

  lemma {:induction false} ExecAppend(f: Files, ops: seq<Op>, more: seq<Op>)
    ensures Exec(f, ops + more) == Exec(Exec(f, ops), more)
    decreases |ops|
  {
    if ops == [] {
      assert ops + more == more;
    } else {
      assert (ops + more)[1..] == ops[1..] + more;
      ExecAppend(Apply(f, ops[0]), ops[1..], more);
    }
  }

  lemma ExecTwo(f: Files, a: Op, b: Op)
    ensures Exec(f, [a]) == Apply(f, a)
    ensures Exec(f, [a, b]) == Apply(Apply(f, a), b)
  {
    assert Exec(Apply(f, a), [a][1..]) == Apply(f, a);
    assert [a, b][1..] == [b];
    assert Exec(Apply(f, a), [b]) == Exec(Apply(Apply(f, a), b), [b][1..]);
  }

  /** check_pair: the first four bytes of the checksum file are the payload's checksum. */
  predicate Matches(payload: Data, crc: Data) {
    |crc| >= CRC_SIZE && ReadLe(crc, 0) == Checksum(payload)
  }

  function PairOf(version: Option<Data>): Files {
    match version
    case None => Nothing
    case Some(v) => Files(Some(v), Some(LeBytes(Checksum(v))), None, None)
  }

  /** The payload and checksum file that a check keeps. It gives up at a checksum file it cannot read. */
  function Survivor(f: Files): Option<(Data, Data)> {
    if f.tmpPayload.Some? && f.tmpCrc.Some? then
      if Matches(f.tmpPayload.value, f.tmpCrc.value) then
        Some((f.tmpPayload.value, f.tmpCrc.value))
      else if f.payload.Some? && f.crc.Some? && |f.tmpCrc.value| >= CRC_SIZE
              && Matches(f.payload.value, f.crc.value) then
        Some((f.payload.value, f.crc.value))
      else None
    else if f.payload.None? then None
    else if f.crc.Some? && Matches(f.payload.value, f.crc.value) then
      Some((f.payload.value, f.crc.value))
    else if f.tmpCrc.Some? && Matches(f.payload.value, f.tmpCrc.value)
            && (f.crc.Some? ==> |f.crc.value| >= CRC_SIZE) then
      Some((f.payload.value, f.tmpCrc.value))
    else None
  }

  function Recovered(f: Files): Files {
    match Survivor(f)
    case None => Nothing
    case Some((payload, crc)) => Files(Some(payload), Some(crc), None, None)
  }

  /** The renames a check performs before it removes what is left over. */
  function CheckRenames(f: Files): seq<Op> {
    if f.tmpPayload.Some? && f.tmpCrc.Some? && Matches(f.tmpPayload.value, f.tmpCrc.value) then
      if f.payload.None? && f.crc.None?
      then [Rename(TmpPayload, Payload), Rename(TmpCrc, PayloadCrc)]
      else [Rename(TmpCrc, PayloadCrc), Rename(TmpPayload, Payload)]
    else if f.tmpPayload.None? && f.tmpCrc.Some? && Survivor(f).Some?
            && (f.crc.None? || !Matches(f.payload.value, f.crc.value)) then
      [Rename(TmpCrc, PayloadCrc)]
    else []
  }

  function CheckScript(f: Files): seq<Op> {
    CheckRenames(f) + [Unlink(TmpPayload), Unlink(TmpCrc)]
    + if Survivor(f).None? then [Unlink(Payload), Unlink(PayloadCrc)] else []
  }

  /** What is left after the renames is the survivor, once the temporaries (or everything) go. */
  lemma RenamesKeepSurvivor(f: Files)
    ensures var tidy := Apply(Apply(Exec(f, CheckRenames(f)), Unlink(TmpPayload)), Unlink(TmpCrc));
            Recovered(f) == if Survivor(f).Some? then tidy
                            else Apply(Apply(tidy, Unlink(Payload)), Unlink(PayloadCrc))
  {
    ExecTwo(f, Rename(TmpCrc, PayloadCrc), Rename(TmpPayload, Payload));
    ExecTwo(f, Rename(TmpPayload, Payload), Rename(TmpCrc, PayloadCrc));
  }

  lemma CheckScriptRecovers(f: Files)
    ensures Exec(f, CheckScript(f)) == Recovered(f)
  {
    var unlinks := [Unlink(TmpPayload), Unlink(TmpCrc)];
    var erase := if Survivor(f).None? then [Unlink(Payload), Unlink(PayloadCrc)] else [];
    var mid := Exec(f, CheckRenames(f));
    RenamesKeepSurvivor(f);
    ExecAppend(f, CheckRenames(f) + unlinks, erase);
    ExecAppend(f, CheckRenames(f), unlinks);
    ExecTwo(mid, Unlink(TmpPayload), Unlink(TmpCrc));
    ExecTwo(Exec(mid, unlinks), Unlink(Payload), Unlink(PayloadCrc));
  }

  /**
   * A check always ends with nothing, or with a payload and the checksum file that matches it, the
   * payload being unchanged one of the two candidates; a second check then changes nothing.
   */
  lemma RecoveryIsSound(f: Files)
    ensures var r := Recovered(f);
            || (r == Nothing && Survivor(f) == None)
            || (&& r.payload.Some? && r.crc.Some? && r.tmpPayload == None && r.tmpCrc == None
                && Matches(r.payload.value, r.crc.value)
                && (r.payload == f.payload || r.payload == f.tmpPayload)
                && Survivor(f) == Survivor(r) == Some((r.payload.value, r.crc.value)))
    ensures Recovered(Recovered(f)) == Recovered(f)
    ensures f.payload.Some? && f.crc.Some? && Matches(f.payload.value, f.crc.value) && f.tmpCrc == None
            ==> Recovered(f) == Files(f.payload, f.crc, None, None)
  {
  }

  // ----- the recovery table of safew.h

  /** A row of the table: the pairs to try, in order, for the files that are present. */
  function TablePairs(f: Files): seq<(Data, Data)> {
    match (f.payload, f.tmpPayload, f.crc, f.tmpCrc)
    case (Some(p), _, Some(c), None) => [(p, c)]
    case (Some(p), None, None, Some(tc)) => [(p, tc)]
    case (None, Some(tp), None, Some(tc)) => [(tp, tc)]
    case (Some(_), Some(tp), None, Some(tc)) => [(tp, tc)]
    case (Some(p), None, Some(c), Some(tc)) => [(p, c), (p, tc)]
    case (None, Some(tp), Some(_), Some(tc)) => [(tp, tc)]
    case (Some(p), Some(tp), Some(c), Some(tc)) => [(tp, tc), (p, c)]
    case _ => []
  }

  function FirstMatching(pairs: seq<(Data, Data)>): Option<(Data, Data)> {
    if pairs == [] then None
    else if Matches(pairs[0].0, pairs[0].1) then Some(pairs[0])
    else FirstMatching(pairs[1..])
  }

  /** What the table promises to keep; erase all stands for None. */
  function TableSurvivor(f: Files): Option<(Data, Data)> {
    FirstMatching(TablePairs(f))
  }

  /** All four files: crc.tmp is too short to read, and the older pair is valid. */
  predicate ShortTmpCrc(f: Files) {
    && f.payload.Some? && f.crc.Some? && f.tmpPayload.Some? && f.tmpCrc.Some?
    && |f.tmpCrc.value| < CRC_SIZE && Matches(f.payload.value, f.crc.value)
  }

  /** No payload.tmp: crc is too short to read, and crc.tmp matches the payload. */
  predicate ShortCrc(f: Files) {
    && f.payload.Some? && f.crc.Some? && f.tmpPayload.None? && f.tmpCrc.Some?
    && |f.crc.value| < CRC_SIZE && Matches(f.payload.value, f.tmpCrc.value)
  }

  lemma TryOne(a: (Data, Data))
    ensures FirstMatching([a]) == if Matches(a.0, a.1) then Some(a) else None
  {
  }

  lemma TryTwo(a: (Data, Data), b: (Data, Data))
    ensures FirstMatching([a, b])
         == if Matches(a.0, a.1) then Some(a) else if Matches(b.0, b.1) then Some(b) else None
  {
    assert [a, b][1..] == [b];
    TryOne(b);
  }

  /**
   * The check keeps what its table promises exactly when it does not give up at a short checksum
   * file while the next pair in the row is valid; there it erases all four files.
   */
  lemma CheckFollowsTable(f: Files)
    ensures Survivor(f) == TableSurvivor(f) <==> !ShortTmpCrc(f) && !ShortCrc(f)
    ensures ShortTmpCrc(f) || ShortCrc(f) ==> TableSurvivor(f).Some? && Recovered(f) == Nothing
  {
    if f.tmpPayload.Some? && f.tmpCrc.Some? {
      TryOne((f.tmpPayload.value, f.tmpCrc.value));
    }
    if f.payload.Some? && f.tmpCrc.Some? {
      TryOne((f.payload.value, f.tmpCrc.value));
    }
    if f.payload.Some? && f.crc.Some? {
      var kept := (f.payload.value, f.crc.value);
      TryOne(kept);
      if f.tmpPayload.Some? && f.tmpCrc.Some? {
        TryTwo((f.tmpPayload.value, f.tmpCrc.value), kept);
      } else if f.tmpCrc.Some? {
        TryTwo(kept, (f.payload.value, f.tmpCrc.value));
      }
    }
  }

  /** Both ways to lose a valid pair, at a concrete payload. */
  lemma TableIsBroken()
    ensures var p, crc := [7 as bv8], LeBytes(Checksum([7 as bv8]));
            && TableSurvivor(Files(Some(p), Some(crc), Some([]), Some([]))) == Some((p, crc))
            && Recovered(Files(Some(p), Some(crc), Some([]), Some([]))) == Nothing
            && TableSurvivor(Files(Some(p), Some([]), None, Some(crc))) == Some((p, crc))
            && Recovered(Files(Some(p), Some([]), None, Some(crc))) == Nothing
  {
    hide Checksum, LeBytes, ReadLe;
    var p: Data := [7];
    var crc := LeBytes(Checksum(p));
    LeRoundTrip(Checksum(p));
    TryTwo(([], []), (p, crc));
    TryTwo((p, []), (p, crc));
  }

  /** The directory as the C library sees it; `log` records the operations, in order. */
  class Disk {
    var files: Files
    ghost var log: seq<Op>

    method Do(op: Op) returns (ret: int)
      modifies this
      ensures files == Apply(old(files), op) && log == old(log) + [op]
      ensures ret == (if (op.Rename? && old(files).Get(op.from) == None)
                         || (op.Unlink? && old(files).Get(op.name) == None)
                      then -1 else 0)
    {
      if (op.Rename? && files.Get(op.from) == None) || (op.Unlink? && files.Get(op.name) == None) {
        ret := -1;
      } else {
        ret := 0;
      }
      files := Apply(files, op);
      log := log + [op];
    }
  }

  method ReadCrc(file: Data) returns (ret: int, crc: bv32)
    ensures ret == if |file| >= CRC_SIZE then 0 else -1
    ensures ret == 0 ==> crc == ReadLe(file, 0)
  {
    if |file| < CRC_SIZE {
      return -1, 0;
    }
    return 0, ReadLe(file, 0);
  }

  method CheckPair(payload: Data, crcFile: Data) returns (ret: int)
    ensures ret == if Matches(payload, crcFile) then 0 else -1
  {
    var crc, payloadCrc;
    ret, crc := ReadCrc(crcFile);
    if ret < 0 {
      return;
    }
    payloadCrc := CrcFromFile(payload);
    if crc != payloadCrc {
      return -1;
    }
    return 0;
  }

  /** The switch of futils_safew_file_check over the files present, with the renames it makes. */
  method CheckAndRename(disk: Disk) returns (ret: int)
    modifies disk
    ensures ret == if Survivor(old(disk.files)).Some? then 0 else -1
    ensures disk.files == Exec(old(disk.files), CheckRenames(old(disk.files)))
    ensures disk.log == old(disk.log) + CheckRenames(old(disk.files))
  {
    var f := disk.files;
    ExecTwo(f, Rename(TmpCrc, PayloadCrc), Rename(TmpPayload, Payload));
    ExecTwo(f, Rename(TmpPayload, Payload), Rename(TmpCrc, PayloadCrc));
    var crc: bv32, payloadCrc: bv32;
    match (f.payload, f.crc, f.tmpPayload, f.tmpCrc)
    case (None, None, None, None) => ret := -1;
    case (Some(_), None, None, None) => ret := -1;
    case (None, None, Some(_), None) => ret := -1;
    case (Some(_), None, Some(_), None) => ret := -1;
    case (None, Some(_), None, None) => ret := -1;
    case (None, None, None, Some(_)) => ret := -1;
    case (None, Some(_), None, Some(_)) => ret := -1;
    case (None, Some(_), Some(_), None) => ret := -1;
    case (Some(p), Some(c), _, None) =>
      ret := CheckPair(p, c);
    case (Some(p), None, None, Some(tc)) =>
      ret := CheckPair(p, tc);
      if ret < 0 {
        return;
      }
      ret := disk.Do(Rename(TmpCrc, PayloadCrc));
    case (None, None, Some(tp), Some(tc)) =>
      ret := CheckPair(tp, tc);
      if ret < 0 {
        return;
      }
      ret := disk.Do(Rename(TmpPayload, Payload));
      if ret < 0 {
        return;
      }
      ret := disk.Do(Rename(TmpCrc, PayloadCrc));
    case (Some(p), Some(c), None, Some(tc)) =>
      ret, crc := ReadCrc(c);
      if ret < 0 {
        return;
      }
      payloadCrc := CrcFromFile(p);
      if crc == payloadCrc {
        return;
      }
      ret, crc := ReadCrc(tc);
      if ret < 0 {
        return;
      }
      if crc == payloadCrc {
        ret := disk.Do(Rename(TmpCrc, PayloadCrc));
        return;
      }
      ret := -1;
    case (Some(p), Some(c), Some(tp), Some(tc)) =>
      ret, crc := ReadCrc(tc);
      if ret < 0 {
        return;
      }
      payloadCrc := CrcFromFile(tp);
      if crc == payloadCrc {
        ret := InstallCrcFirst(disk);
        return;
      }
      ret := CheckPair(p, c);
    case (_, _, Some(tp), Some(tc)) =>
      // exactly one of the payload and its checksum file is missing
      ret, crc := ReadCrc(tc);
      if ret < 0 {
        return;
      }
      payloadCrc := CrcFromFile(tp);
      if crc != payloadCrc {
        return -1;
      }
      ret := InstallCrcFirst(disk);
  }

  method InstallCrcFirst(disk: Disk) returns (ret: int)
    requires disk.files.tmpPayload.Some? && disk.files.tmpCrc.Some?
    modifies disk
    ensures ret == 0
    ensures disk.files == Apply(Apply(old(disk.files), Rename(TmpCrc, PayloadCrc)), Rename(TmpPayload, Payload))
    ensures disk.log == old(disk.log) + [Rename(TmpCrc, PayloadCrc), Rename(TmpPayload, Payload)]
  {
    ret := disk.Do(Rename(TmpCrc, PayloadCrc));
    if ret < 0 {
      return;
    }
    ret := disk.Do(Rename(TmpPayload, Payload));
  }

  /** futils_safew_file_check */
  method FileCheck(disk: Disk) returns (ret: int)
    modifies disk
    ensures ret == if Survivor(old(disk.files)).Some? then 0 else -1
    ensures disk.files == Recovered(old(disk.files))
    ensures disk.log == old(disk.log) + CheckScript(old(disk.files))
  {
    RenamesKeepSurvivor(disk.files);
    ret := CheckAndRename(disk);
    var ignored := disk.Do(Unlink(TmpPayload));
    ignored := disk.Do(Unlink(TmpCrc));
    if ret < 0 {
      ignored := disk.Do(Unlink(Payload));
      ignored := disk.Do(Unlink(PayloadCrc));
    }
  }

  /** The operations of a commit with checksum, once payload.tmp holds the whole new version. */
  function CommitScript(version: Data): seq<Op> {
    var crc := LeBytes(Checksum(version));
    [Create(TmpCrc), Append(TmpCrc, crc[0..1]), Append(TmpCrc, crc[1..2]), Append(TmpCrc, crc[2..3]),
     Append(TmpCrc, crc[3..4])] + [Rename(TmpPayload, Payload)] + [Rename(TmpCrc, PayloadCrc)]
  }

  /** Where a commit can fail; `SyncFails` stands for fflush, fsync and fclose of the payload. */
  datatype Fault =
    | NoFault
    | SyncFails
    | TmpCrcFails(created: bool, written: nat)
    | PayloadRenameFails
    | CrcRenameFails

  /** How many operations of a commit are performed before the one that fails. */
  function FailedAfter(fault: Fault): nat {
    match fault
    case TmpCrcFails(created, written) =>
      if !created then 0 else if written < CRC_SIZE then written + 1 else CRC_SIZE + 1
    case PayloadRenameFails => CRC_SIZE + 1
    case CrcRenameFails => CRC_SIZE + 2
    case _ => 0
  }

  /** What a commit removes once it has failed with the names of the checksum files known. */
  const CleanUp: seq<Op> := [Unlink(TmpPayload), Unlink(PayloadCrc), Unlink(TmpCrc)]

  /** The operations of a commit, with whatever goes wrong. */
  function CommitLog(version: Data, withCrc: bool, failure: bool, fault: Fault): seq<Op> {
    if failure || fault.SyncFails? then [Unlink(TmpPayload)]
    else if !withCrc then
      if fault.PayloadRenameFails? then [Unlink(TmpPayload)] else [Rename(TmpPayload, Payload)]
    else if fault.NoFault? then CommitScript(version)
    else CommitScript(version)[..FailedAfter(fault)] + CleanUp
  }

  /** Whether a commit without checksum goes well. */
  predicate PlainSucceeds(failure: bool, fault: Fault) {
    !failure && !fault.SyncFails? && !fault.PayloadRenameFails?
  }

  /**
   * A commit without checksum is atomic: after any number of its operations the payload is the whole
   * old one or the whole new one, the new one at the end exactly when the commit succeeds, and the
   * checksum files are never touched.
   */
  lemma PlainCommitIsAtomic(f: Files, failure: bool, fault: Fault, done: nat)
    requires f.tmpPayload.Some?
    requires done <= |CommitLog(f.tmpPayload.value, false, failure, fault)|
    ensures var log := CommitLog(f.tmpPayload.value, false, failure, fault);
            var g := Exec(f, log[..done]);
            && g.crc == f.crc && g.tmpCrc == f.tmpCrc
            && (done < |log| ==> g == f)
            && (done == |log| ==>
                  && g.payload == (if PlainSucceeds(failure, fault) then f.tmpPayload else f.payload)
                  && g.tmpPayload == None)
  {
    var log := CommitLog(f.tmpPayload.value, false, failure, fault);
    assert log[..0] == [] && log[..1] == log == [log[0]];
    ExecTwo(f, log[0], log[0]);
  }

  /** What a commit leaves behind: it gives up the old checksum once the crc names are known. */
  function CommitOutcome(f: Files, withCrc: bool, failure: bool, fault: Fault): Files {
    if failure || fault.SyncFails? then f.(tmpPayload := None)
    else if withCrc then
      if fault.NoFault? then PairOf(f.tmpPayload)
      else Files(if fault.CrcRenameFails? then f.tmpPayload else f.payload, None, None, None)
    else if fault.PayloadRenameFails? then f.(tmpPayload := None)
    else f.(payload := f.tmpPayload, tmpPayload := None)
  }

  class SafewFile {
    const disk: Disk
    var failure: bool

    constructor Fopen(disk: Disk)
      modifies disk
      ensures this.disk == disk && !failure
      ensures disk.files == old(disk.files).(tmpPayload := Some([]))
      ensures disk.log == old(disk.log) + [Unlink(TmpPayload), Create(TmpPayload)]
    {
      this.disk := disk;
      failure := false;
      new;
      var ignored := disk.Do(Unlink(TmpPayload));
      ignored := disk.Do(Create(TmpPayload));
    }

    /** futils_safew_fwrite of single bytes, of which the C library accepts only `accepted`. */
    method Fwrite(data: Data, accepted: nat) returns (ret: nat)
      requires disk.files.tmpPayload.Some? && accepted <= |data|
      modifies this`failure, disk
      ensures ret == accepted
      ensures failure <==> old(failure) || accepted < |data|
      ensures disk.files
           == old(disk.files).(tmpPayload := Some(old(disk.files).tmpPayload.value + data[..accepted]))
    {
      ret := accepted;
      var ignored := disk.Do(Append(TmpPayload, data[..accepted]));
      if ret != |data| {
        failure := true;
      }
    }

    /** futils_safew_fclose_rollback: the unlink is tried even when the close fails. */
    method Rollback(closeFails: bool, unlinkFails: bool) returns (ret: int)
      modifies disk
      ensures ret == if closeFails || unlinkFails || old(disk.files).tmpPayload == None then -1 else 0
      ensures unlinkFails ==> disk.files == old(disk.files) && disk.log == old(disk.log)
      ensures !unlinkFails ==> disk.files == old(disk.files).(tmpPayload := None)
                               && disk.log == old(disk.log) + [Unlink(TmpPayload)]
    {
      ret := if closeFails then -1 else 0;
      var removed := -1;
      if !unlinkFails {
        removed := disk.Do(Unlink(TmpPayload));
      }
      if removed != 0 {
        ret := -1;
      }
    }

    method TmpCrcCreate(fault: Fault) returns (ret: int)
      requires disk.files.tmpPayload.Some?
      modifies disk
      ensures ret == if fault.TmpCrcFails? then -1 else 0
      ensures disk.files == old(disk.files).(tmpCrc := disk.files.tmpCrc)
      ensures var version := old(disk.files).tmpPayload.value;
              && disk.log == old(disk.log) + CommitScript(version)[..if ret == 0 then 5 else FailedAfter(fault)]
              && (ret == 0 ==> disk.files.tmpCrc == Some(LeBytes(Checksum(version))))
    {
      var crc := CrcFromFile(disk.files.tmpPayload.value);
      if fault.TmpCrcFails? && !fault.created {
        return -1;
      }
      var ignored := disk.Do(Create(TmpCrc));
      var bytes := LeBytes(crc);
      var i := 0;
      while i < CRC_SIZE && (fault.TmpCrcFails? ==> i < fault.written)
        invariant i <= CRC_SIZE && (fault.TmpCrcFails? ==> i <= fault.written)
        invariant disk.files == old(disk.files).(tmpCrc := Some(bytes[..i]))
        invariant disk.log == old(disk.log) + CommitScript(old(disk.files).tmpPayload.value)[..i + 1]
      {
        ignored := disk.Do(Append(TmpCrc, bytes[i..i + 1]));
        assert bytes[..i] + bytes[i..i + 1] == bytes[..i + 1];
        i := i + 1;
      }
      assert i == CRC_SIZE ==> bytes[..i] == bytes;
      ret := if fault.TmpCrcFails? then -1 else 0;
    }

    /** safew_fclose_commit */
    method Commit(withCrc: bool, fault: Fault) returns (ret: int)
      requires disk.files.tmpPayload.Some?
      modifies disk
      ensures disk.files == CommitOutcome(old(disk.files), withCrc, failure, fault)
      ensures ret == 0 <==> !failure && (if withCrc then fault.NoFault?
                                         else !fault.SyncFails? && !fault.PayloadRenameFails?)
      ensures ret == 0 || ret == -1
      ensures var f := old(disk.files);
              if withCrc
              then ret == 0 ==>
                     disk.files == Files(f.tmpPayload, Some(LeBytes(Checksum(f.tmpPayload.value))), None, None)
              else disk.files == Files(if ret == 0 then f.tmpPayload else f.payload, f.crc, None, f.tmpCrc)
      ensures disk.log == old(disk.log) + CommitLog(old(disk.files).tmpPayload.value, withCrc, failure, fault)
    {
      ret := if failure || fault.SyncFails? then -1 else 0;
      var named := false;
      if ret == 0 && withCrc {
        named := true;
        ret := TmpCrcCreate(fault);
      }
      if ret == 0 {
        if fault.PayloadRenameFails? {
          ret := -1;
        } else {
          ret := disk.Do(Rename(TmpPayload, Payload));
        }
      }
      if ret == 0 && withCrc {
        if fault.CrcRenameFails? {
          ret := -1;
        } else {
          ret := disk.Do(Rename(TmpCrc, PayloadCrc));
        }
      }
      if ret < 0 {
        var ignored := disk.Do(Unlink(TmpPayload));
        // without the names, unlink("") fails and changes nothing
        if withCrc && named {
          ignored := disk.Do(Unlink(PayloadCrc));
          ignored := disk.Do(Unlink(TmpCrc));
        }
      }
    }
  }
}
