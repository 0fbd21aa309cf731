/** The two chunked log readers of plugins/micron/micron-nvme.c.

    `NVMEGetLogPage` divides the buffer into chunks by a ceiling division and reads each in place;
    `GetCommonLogPage` reads full chunks into a spare buffer and copies what still fits.  Neither
    stops at a failing command, and both return the status of the last command only: a failing
    chunk leaves the old bytes, respectively zeros, where its data would be.
 */
module Micron {
  import opened Wire
  import opened LogPage

  /** The command either reader sends for `xferDwords` dwords after `bytesRead` bytes. */
  function ReadCommand(logId: U8, bytesRead: U32, xferDwords: nat): (cmd: AdminCmd)
    requires 0 < xferDwords <= 0x4000
  {
    AdminCmd(GET_LOG_PAGE, 0xffff_ffff, xferDwords * 4,
             logId + (xferDwords - 1) * 0x1_0000, 0, bytesRead, 0, 0)
  }

  lemma ReadCommandDecodes(logId: U8, bytesRead: U32, xferDwords: nat)
    requires 0 < xferDwords <= 0x4000
    ensures var cmd := ReadCommand(logId, bytesRead, xferDwords);
            && LogId(cmd) == logId && Lpo(cmd) == bytesRead && ByteCount(cmd) == 4 * xferDwords
            && cmd.opcode == 0x02 && cmd.nsid == 0xffff_ffff && cmd.dataLen == 4 * xferDwords
  {
    var cmd := ReadCommand(logId, bytesRead, xferDwords);
    Split16(cmd.cdw10, logId, xferDwords - 1);
    Split8(cmd.cdw10, logId, (xferDwords - 1) * 0x100);
  }

  /** The first `len` bytes of the buffer after the read that starts with command number `t`: byte
      `i` belongs to chunk `i / 65536`, and stays as it was in `was` when that chunk failed. */
  function Filled(env: Environment, t: nat, was: seq<Byte>, len: nat): (bytes: seq<Byte>)
    requires len <= |was|
    ensures |bytes| == len
  {
    if len == 0 then [] else Filled(env, t, was, len - 1) + [FilledByte(env, t, was, len - 1)]
  }

  function FilledByte(env: Environment, t: nat, was: seq<Byte>, i: nat): Byte
    requires i < |was|
  {
    if env.status(t + i / 0x1_0000) == 0 then env.ByteAt(t + i / 0x1_0000, i) else was[i]
  }

  lemma {:induction false} FilledAt(env: Environment, t: nat, was: seq<Byte>, len: nat, i: nat)
    requires i < len <= |was|
    ensures Filled(env, t, was, len)[i] == FilledByte(env, t, was, i)
  {
    if i < len - 1 {
      FilledAt(env, t, was, len - 1, i);
    }
  }

  /** The next byte of a chunk, from its command or from the old buffer. */
  lemma FilledStep(env: Environment, t: nat, k: nat, offset: nat, n: nat, was: seq<Byte>)
    requires offset == 0x1_0000 * k && 0 < n <= 0x1_0000 && offset + n <= |was|
    ensures Filled(env, t, was, offset + n) == Filled(env, t, was, offset + n - 1)
              + [if env.status(t + k) == 0 then env.ByteAt(t + k, offset + n - 1) else was[offset + n - 1]]
    ensures env.Reply(t + k, offset, n) == env.Reply(t + k, offset, n - 1) + [env.ByteAt(t + k, offset + n - 1)]
  {
    assert (offset + n - 1) / 0x1_0000 == k;
  }

  lemma {:induction false} FilledExtends(env: Environment, t: nat, k: nat, offset: nat, n: nat,
                                         was: seq<Byte>)
    requires offset == 0x1_0000 * k && n <= 0x1_0000 && offset + n <= |was|
    ensures Filled(env, t, was, offset + n) == Filled(env, t, was, offset)
              + if env.status(t + k) == 0 then env.Reply(t + k, offset, n) else was[offset..offset + n]
    decreases n
  {
    if n == 0 {
      assert Filled(env, t, was, offset) + [] == Filled(env, t, was, offset);
    } else {
      FilledStep(env, t, k, offset, n, was);
      FilledExtends(env, t, k, offset, n - 1, was);
      hide Filled, Environment.ByteAt, Environment.Reply;
      assert was[offset..offset + n] == was[offset..offset + n - 1] + [was[offset + n - 1]];
    }
  }

  /** The buffer of a read in which `done` bytes have been asked for. */
  ghost predicate ReadSoFar(env: Environment, t: nat, was: seq<Byte>, done: nat, buffer: seq<Byte>) {
    done <= |was| && buffer == Filled(env, t, was, done) + was[done..]
  }

  /** One more chunk, delivered or not. */
  lemma PieceAppends(env: Environment, t: nat, k: nat, offset: nat, n: nat,
                     was: seq<Byte>, before: seq<Byte>)
    requires offset == 0x1_0000 * k && n <= 0x1_0000 && offset + n <= |was|
    requires ReadSoFar(env, t, was, offset, before)
    ensures |before| == |was|
    ensures ReadSoFar(env, t, was, offset + n, if env.status(t + k) != 0 then before
                      else Overwrite(before, offset, env.Reply(t + k, offset, n)))
  {
    FilledExtends(env, t, k, offset, n, was);
    hide Filled, Environment.Reply;
    assert before[..offset] == Filled(env, t, was, offset) && before[offset..] == was[offset..];
    assert before[offset + n..] == was[offset + n..];
    if env.status(t + k) != 0 {
      assert was[offset..] == was[offset..offset + n] + was[offset + n..];
    }
  }

  /** `now` is `was` with Get Log Page commands for `logId` of every namespace behind it. */
  ghost predicate Asked(logId: U8, was: seq<AdminCmd>, now: seq<AdminCmd>) {
    && was <= now
    && forall i | |was| <= i < |now| ::
         now[i].opcode == 0x02 && now[i].nsid == 0xffff_ffff && LogId(now[i]) == logId
  }

  lemma AskedOnce(logId: U8, was: seq<AdminCmd>, now: seq<AdminCmd>, cmd: AdminCmd)
    requires Asked(logId, was, now)
    requires cmd.opcode == 0x02 && cmd.nsid == 0xffff_ffff && LogId(cmd) == logId
    ensures Asked(logId, was, now + [cmd])
  {
    hide LogId;
  }

  /** How `numDwords` are cut up: `numChunks` chunks of `maxChunk`, the last one of `remainder`
      unless that is 0. */
  predicate Plan(numDwords: nat, maxChunk: nat, numChunks: nat, remainder: nat) {
    if numDwords <= 0x4000 then
      maxChunk == numDwords && numChunks == 1 && remainder == 0
    else
      && maxChunk == 0x4000 && remainder < 0x4000
      && numDwords + (if remainder > 0 then 0x4000 - remainder else 0) == 0x4000 * numChunks
  }

  /** The ceiling division of NVMEGetLogPage. */
  method PlanChunks(numDwords: nat) returns (maxChunk: nat, numChunks: nat, remainder: nat)
    requires numDwords > 0
    ensures Plan(numDwords, maxChunk, numChunks, remainder)
    ensures 0 < numChunks == Chunks(4 * numDwords, 0x1_0000)
  {
    maxChunk := numDwords;
    if maxChunk > 0x4000 {
      maxChunk := 0x4000;
    } else {
      assert numDwords / maxChunk == 1 && numDwords % maxChunk == 0;
    }
    numChunks := numDwords / maxChunk;
    remainder := numDwords % maxChunk;
    if remainder > 0 {
      numChunks := numChunks + 1;
    }
    ChunksCover(4 * numDwords, 0x1_0000, numChunks);
  }

  /** Every chunk but the last is full, and the last one ends the buffer. */
  lemma ChunkOfPlan(numDwords: nat, maxChunk: nat, numChunks: nat, remainder: nat, i: nat)
    requires numDwords > 0 && Plan(numDwords, maxChunk, numChunks, remainder) && i < numChunks
    ensures var n := if i == numChunks - 1 && remainder > 0 then remainder else maxChunk;
            && 0 < n <= 0x4000
            && 0x1_0000 * i + 4 * n == if i + 1 < numChunks then 0x1_0000 * (i + 1) else 4 * numDwords
  {
  }

  /** One round of NVMEGetLogPage's loop. */
  method ReadChunk(ctrl: Controller, logId: U8, buffer: array<Byte>, bytesRead: U32, xferDwords: nat,
                   ghost t: nat, ghost k: nat, ghost was: seq<Byte>, ghost issued: seq<AdminCmd>)
    returns (err: int)
    requires 0 < xferDwords <= 0x4000 && |was| == buffer.Length
    requires ctrl.clock == t + k && bytesRead == 0x1_0000 * k
    requires bytesRead + 4 * xferDwords <= buffer.Length
    requires ReadSoFar(ctrl.env, t, was, bytesRead, buffer[..])
    requires Asked(logId, issued, ctrl.issued)
    modifies ctrl, buffer
    ensures ctrl.clock == t + k + 1 && err == ctrl.env.status(t + k)
    ensures ReadSoFar(ctrl.env, t, was, bytesRead + 4 * xferDwords, buffer[..])
    ensures Asked(logId, issued, ctrl.issued)
  {
    hide *;
    var cmd := ReadCommand(logId, bytesRead, xferDwords);
    ReadCommandDecodes(logId, bytesRead, xferDwords);
    PieceAppends(ctrl.env, t, k, bytesRead, 4 * xferDwords, was, buffer[..]);
    AskedOnce(logId, issued, ctrl.issued, cmd);
    err := ctrl.Submit(cmd, buffer, bytesRead);
  }

  /** NVMEGetLogPage, for the logs read by offset.  A length that is not whole dwords is cut down to
      whole ones; identifier 7 is sent as 87h. */
  method NVMEGetLogPage(ctrl: Controller, logId: U8, buffer: array<Byte>, buffSize: nat)
    returns (err: int)
    requires 4 <= buffSize < 0x8000_0000 && buffSize <= buffer.Length
    requires logId != 0xe6 && logId != 0xe7
    modifies ctrl, buffer
    ensures var len := buffSize / 4 * 4;
      && ctrl.clock == old(ctrl.clock) + Chunks(len, 0x1_0000)
      && buffer[..] == Filled(ctrl.env, old(ctrl.clock), old(buffer[..]), len) + old(buffer[..])[len..]
    ensures err == ctrl.env.status(ctrl.clock - 1)
    ensures Asked(if logId == 0x7 then 0x87 else logId, old(ctrl.issued), ctrl.issued)
  {
    hide *;
    var lid := if logId == 0x7 then 0x87 else logId;
    err := 0;
    var numDwords := buffSize / 4;
    var maxChunk, numChunks, remainder := PlanChunks(numDwords);
    ghost var t, was, issued := ctrl.clock, buffer[..], ctrl.issued;
    var bytesRead := 0;
    Untouched(ctrl.env, t, was, lid, issued);
    for i := 0 to numChunks
      invariant ctrl.clock == t + i
      invariant bytesRead == (if i < numChunks then 0x1_0000 * i else 4 * numDwords) <= 4 * numDwords
      invariant ReadSoFar(ctrl.env, t, was, bytesRead, buffer[..])
      invariant i > 0 ==> err == ctrl.env.status(ctrl.clock - 1)
      invariant Asked(lid, issued, ctrl.issued)
    {
      var xferDwords := maxChunk;
      if i == numChunks - 1 && remainder > 0 {
        xferDwords := remainder;
      }
      ChunkOfPlan(numDwords, maxChunk, numChunks, remainder, i);
      err := ReadChunk(ctrl, lid, buffer, bytesRead, xferDwords, t, i, was, issued);
      bytesRead := bytesRead + xferDwords * 4;
    }
    ReadIs(ctrl.env, t, was, bytesRead, buffer[..]);
  }

  lemma ReadIs(env: Environment, t: nat, was: seq<Byte>, done: nat, buffer: seq<Byte>)
    requires ReadSoFar(env, t, was, done, buffer)
    ensures done <= |was| && buffer == Filled(env, t, was, done) + was[done..]
    ensures done == |was| ==> buffer == Filled(env, t, was, done)
    ensures |buffer| == |was| && buffer[done..] == was[done..]
  {
  }

  lemma Untouched(env: Environment, t: nat, was: seq<Byte>, logId: U8, issued: seq<AdminCmd>)
    ensures ReadSoFar(env, t, was, 0, was)
    ensures Asked(logId, issued, issued)
  {
  }

  lemma {:induction false} ReplyPrefix(env: Environment, t: nat, offset: nat, n: nat, len: nat)
    requires n <= len
    ensures env.Reply(t, offset, len)[..n] == env.Reply(t, offset, n)
    decreases len
  {
    if n < len {
      ReplyPrefix(env, t, offset, n, len - 1);
      assert env.Reply(t, offset, len)[..n] == env.Reply(t, offset, len - 1)[..n];
    }
  }

  predicate Zeros(bytes: seq<Byte>) {
    forall i | 0 <= i < |bytes| :: bytes[i] == 0
  }

  /** What is in front of the spare buffer, zeroed before a command that may fail. */
  lemma SpareFront(env: Environment, t: nat, offset: nat, n: nat, spare: seq<Byte>)
    requires n <= 0x1_0000 == |spare|
    ensures spare == env.Reply(t, offset, 0x1_0000) ==> spare[..n] == env.Reply(t, offset, n)
    ensures Zeros(spare) ==> Zeros(spare[..n])
  {
    ReplyPrefix(env, t, offset, n, 0x1_0000);
    hide Environment.Reply;
  }

  /** Copying `copied` from the spare buffer has the effect of the command on a zeroed buffer. */
  lemma CopyAppends(env: Environment, t: nat, k: nat, offset: nat, n: nat,
                    was: seq<Byte>, before: seq<Byte>, copied: seq<Byte>)
    requires offset == 0x1_0000 * k && n == |copied| <= 0x1_0000 && offset + n <= |was|
    requires Zeros(was)
    requires ReadSoFar(env, t, was, offset, before)
    requires if env.status(t + k) == 0 then copied == env.Reply(t + k, offset, n) else Zeros(copied)
    ensures |before| == |was|
    ensures ReadSoFar(env, t, was, offset + n, Overwrite(before, offset, copied))
  {
    hide *;
    PieceAppends(env, t, k, offset, n, was, before);
    if env.status(t + k) != 0 {
      ReadIs(env, t, was, offset, before);
      CopyOfZeros(was, offset, n, before, copied);
    }
  }

  lemma CopyOfZeros(was: seq<Byte>, offset: nat, n: nat, before: seq<Byte>, zeros: seq<Byte>)
    requires offset + n <= |was| == |before| && |zeros| == n
    requires Zeros(was) && Zeros(zeros) && before[offset..] == was[offset..]
    ensures Overwrite(before, offset, zeros) == before
  {
    forall i | offset <= i < offset + n
      ensures before[i] == zeros[i - offset]
    {
      assert before[i] == before[offset..][i - offset] == was[offset..][i - offset] == was[i];
    }
  }

  lemma OverwriteAll(was: seq<Byte>, bytes: seq<Byte>)
    requires |bytes| == |was|
    ensures Overwrite(was, 0, bytes) == bytes
  {
  }

  /** memset to zero. */
  method Clear(bytes: array<Byte>)
    modifies bytes
    ensures Zeros(bytes[..])
  {
    forall i | 0 <= i < bytes.Length {
      bytes[i] := 0;
    }
  }

  /** memcpy of the first `n` bytes. */
  method Copy(to: array<Byte>, at: nat, from: array<Byte>, n: nat)
    requires n <= from.Length && at + n <= to.Length && to != from
    modifies to
    ensures to[..] == Overwrite(old(to[..]), at, from[..n])
  {
    forall i | 0 <= i < n {
      to[at + i] := from[i];
    }
  }

  /** One round of GetCommonLogPage's loop. */
  method CopyChunk(ctrl: Controller, logId: U8, spare: array<Byte>, buffer: array<Byte>, bytesRead: U32,
                   ghost t: nat, ghost k: nat, ghost was: seq<Byte>)
    returns (err: int)
    requires spare.Length == 0x1_0000 && spare != buffer && |was| == buffer.Length && Zeros(was)
    requires ctrl.clock == t + k && bytesRead == 0x1_0000 * k < buffer.Length
    requires ReadSoFar(ctrl.env, t, was, bytesRead, buffer[..])
    modifies ctrl, spare, buffer
    ensures ctrl.clock == t + k + 1 && err == ctrl.env.status(t + k)
    ensures var done := if bytesRead + 0x1_0000 < buffer.Length then bytesRead + 0x1_0000 else buffer.Length;
            ReadSoFar(ctrl.env, t, was, done, buffer[..])
    ensures ctrl.issued == old(ctrl.issued) + [ReadCommand(logId, bytesRead, 0x4000)]
  {
    hide *;
    var bytesRemaining := buffer.Length - bytesRead;
    Clear(spare);
    ReadCommandDecodes(logId, bytesRead, 0x4000);
    OverwriteAll(spare[..], ctrl.env.Reply(t + k, bytesRead, 0x1_0000));
    err := ctrl.Submit(ReadCommand(logId, bytesRead, 0x4000), spare, 0);
    var n := if bytesRemaining >= 0x1_0000 then 0x1_0000 else bytesRemaining;
    SpareFront(ctrl.env, t + k, bytesRead, n, spare[..]);
    assert spare[..n] == spare[..][..n];
    CopyAppends(ctrl.env, t, k, bytesRead, n, was, buffer[..], spare[..n]);
    Copy(buffer, bytesRead, spare, n);
  }

  /** GetCommonLogPage, with an allocation that succeeds and no overflow of the int that counts the
      bytes read. */
  method GetCommonLogPage(ctrl: Controller, logId: U8, buffSize: nat)
    returns (err: int, buffer: array<Byte>, ghost was: seq<Byte>)
    requires buffSize <= 0x7fff_0000
    modifies ctrl
    ensures fresh(buffer) && buffer.Length == buffSize
    ensures ctrl.clock == old(ctrl.clock) + Chunks(buffSize, 0x1_0000)
    ensures |was| == buffSize && Zeros(was)
    ensures buffer[..] == Filled(ctrl.env, old(ctrl.clock), was, buffSize)
    ensures err == if buffSize == 0 then 0 else ctrl.env.status(ctrl.clock - 1)
    ensures Asked(logId, old(ctrl.issued), ctrl.issued)
  {
    hide *;
    err := 0;
    var spare := new Byte[0x1_0000];
    buffer := new Byte[buffSize];
    Clear(buffer);
    was := buffer[..];
    ghost var t, issued, k, done := ctrl.clock, ctrl.issued, 0, 0;
    var bytesRead := 0;
    Untouched(ctrl.env, t, was, logId, issued);
    while bytesRead < buffSize
      invariant ctrl.clock == t + k && bytesRead == 0x1_0000 * k < buffSize + 0x1_0000
      invariant done == if bytesRead < buffSize then bytesRead else buffSize
      invariant ReadSoFar(ctrl.env, t, was, done, buffer[..])
      invariant err == if k == 0 then 0 else ctrl.env.status(ctrl.clock - 1)
      invariant Asked(logId, issued, ctrl.issued)
      decreases buffSize - bytesRead
    {
      ReadCommandDecodes(logId, bytesRead, 0x4000);
      AskedOnce(logId, issued, ctrl.issued, ReadCommand(logId, bytesRead, 0x4000));
      err := CopyChunk(ctrl, logId, spare, buffer, bytesRead, t, k, was);
      bytesRead, k := bytesRead + 0x1_0000, k + 1;
      done := if bytesRead < buffSize then bytesRead else buffSize;
    }
    ChunksCover(buffSize, 0x1_0000, k);
    ReadIs(ctrl.env, t, was, done, buffer[..]);
  }

  // ----- what the readers deliver -----

  /** On a log that does not change, the bytes read are the log for every earlier content of the
      buffer exactly when all the commands succeed. The status returned is that of the last one. */
  lemma FilledIffAllSucceed(env: Environment, t: nat, len: nat, log: seq<Byte>)
    requires Unchanging(env, t, t + Chunks(len, 0x1_0000), log) && len <= |log|
    ensures (forall was | |was| == len :: Filled(env, t, was, len) == log[..len])
       <==> env.Succeeds(t, t + Chunks(len, 0x1_0000))
  {
    if env.Succeeds(t, t + Chunks(len, 0x1_0000)) {
      forall was: seq<Byte> | |was| == len
        ensures Filled(env, t, was, len) == log[..len]
      {
        AllDelivered(env, t, was, len, log);
      }
    } else {
      var j :| t <= j < t + Chunks(len, 0x1_0000) && env.status(j) != 0;
      var i := 0x1_0000 * (j - t);
      ChunksCover(len, 0x1_0000, j - t);
      var other := if log[i] == 0 then 1 else 0;
      var was: seq<Byte> := log[..len][i := other];
      FilledAt(env, t, was, len, i);
      assert i / 0x1_0000 == j - t;
      assert Filled(env, t, was, len)[i] != log[..len][i];
    }
  }

  lemma AllDelivered(env: Environment, t: nat, was: seq<Byte>, len: nat, log: seq<Byte>)
    requires Unchanging(env, t, t + Chunks(len, 0x1_0000), log) && len <= |log| && |was| == len
    requires env.Succeeds(t, t + Chunks(len, 0x1_0000))
    ensures Filled(env, t, was, len) == log[..len]
  {
    forall i | 0 <= i < len
      ensures Filled(env, t, was, len)[i] == log[i]
    {
      FilledAt(env, t, was, len, i);
      ChunksCover(len, 0x1_0000, i / 0x1_0000);
      assert t <= t + i / 0x1_0000 < t + Chunks(len, 0x1_0000);
    }
  }
}
