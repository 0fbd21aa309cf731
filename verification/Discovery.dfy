/** Fetching the discovery log (fabrics.c): a reader that takes no lock.  It reads the header, then
    the whole log in several commands, then the header again, and starts over when the generation
    counter moved.  The controller may publish another log between any two commands.
 */
module Discovery {
  import opened Wire
  import opened LogPage

  // ----- the log a controller publishes -----

  /** One version of the discovery log.  `fixed` is what the header holds after the two counters. */
  datatype Log = Log(genctr: U64, fixed: seq<Byte>, entries: seq<seq<Byte>>)

  ghost predicate WellFormed(log: Log) {
    && |log.fixed| == 1008
    && |log.entries| < 0x1_0000_0000_0000_0000
    && forall e | e in log.entries :: |e| == 1024
  }

  function Concat(entries: seq<seq<Byte>>): seq<Byte> {
    if entries == [] then [] else entries[0] + Concat(entries[1..])
  }

  /** The log as the controller lays it out: a 1024-byte header and 1024 bytes for each record. */
  function Serialize(log: Log): seq<Byte> {
    ToLE(log.genctr, 8) + (ToLE(|log.entries|, 8) + (log.fixed + Concat(log.entries)))
  }

  lemma {:induction false} ConcatLength(entries: seq<seq<Byte>>)
    requires forall e | e in entries :: |e| == 1024
    ensures |Concat(entries)| == 1024 * |entries|
  {
    if entries != [] {
      ConcatLength(entries[1..]);
    }
  }

  lemma {:induction false} EntryAt(entries: seq<seq<Byte>>, i: nat)
    requires i < |entries| && forall e | e in entries :: |e| == 1024
    ensures |Concat(entries)| >= 1024 * i + 1024 && Concat(entries)[1024 * i..1024 * i + 1024] == entries[i]
  {
    var rest := Concat(entries[1..]);
    if i == 0 {
      assert Concat(entries)[0..1024] == entries[0];
    } else {
      EntryAt(entries[1..], i - 1);
      assert Concat(entries)[1024 * i..1024 * i + 1024] == rest[1024 * (i - 1)..1024 * (i - 1) + 1024];
    }
  }

  /** The layout by position: generation counter, record count, the rest of a 1024-byte header, and
      record `i` behind `i` records. */
  lemma LogLayout(log: Log, i: nat)
    requires WellFormed(log) && i < |log.entries|
    ensures var s := Serialize(log);
      && |s| >= 1024 * (i + 1) + 1024
      && FromLE(s[0..8]) == log.genctr && FromLE(s[8..16]) == |log.entries|
      && s[16..1024] == log.fixed && s[1024 * (i + 1)..1024 * (i + 1) + 1024] == log.entries[i]
  {
    var s := Serialize(log);
    Spans();
    FromToLE(log.genctr, 8);
    FromToLE(|log.entries|, 8);
    EntryAt(log.entries, i);
    LayoutOfParts(ToLE(log.genctr, 8), ToLE(|log.entries|, 8), log.fixed, Concat(log.entries), 1024 * i);
  }

  lemma LayoutOfParts(a: seq<Byte>, b: seq<Byte>, c: seq<Byte>, d: seq<Byte>, at: nat)
    requires |a| == |b| == 8 && |c| == 1008 && at + 1024 <= |d|
    ensures var s := a + (b + (c + d));
      s[0..8] == a && s[8..16] == b && s[16..1024] == c && s[at + 1024..at + 2048] == d[at..at + 1024]
  {
    var s := a + (b + (c + d));
    assert s[0..8] == a;
    assert s[8..16] == b;
    assert s[16..1024] == c;
    assert s[at + 1024..at + 2048] == d[at..at + 1024];
  }

  /** The buffer starts with this log's counters. */
  ghost predicate HoldsHeader(buffer: seq<Byte>, log: Log) {
    && |buffer| >= 16 && |Serialize(log)| >= 16
    && buffer[..16] == Serialize(log)[..16]
  }

  lemma CountersReadBack(log: Log, buffer: seq<Byte>)
    requires WellFormed(log) && HoldsHeader(buffer, log)
    ensures |buffer| >= 16
    ensures FromLE(buffer[..8]) == log.genctr
    ensures FromLE(buffer[8..16]) == |log.entries|
  {
    Spans();
    FromToLE(log.genctr, 8);
    FromToLE(|log.entries|, 8);
    assert buffer[..8] == buffer[..16][..8] == ToLE(log.genctr, 8);
    assert buffer[8..16] == buffer[..16][8..] == ToLE(|log.entries|, 8);
  }

  /** `le64_to_cpu(log->genctr)` and `le64_to_cpu(log->numrec)`. */
  method ReadCounters(buffer: array<Byte>, ghost proc: Process, ghost log: Log)
    returns (genctr: nat, numrec: nat)
    requires buffer in proc.buffers
    requires WellFormed(log) && HoldsHeader(buffer[..], log)
    ensures genctr == log.genctr && numrec == |log.entries|
  {
    CountersReadBack(log, buffer[..]);
    genctr, numrec := FromLE(buffer[..8]), FromLE(buffer[8..16]);
  }

  /** The rule that makes the reader possible: a new log has a larger generation counter
      (section 5 of NVM Express over Fabrics 1.1).  `logs(t)` is the log at command number `t`. */
  ghost predicate CounterGrows(logs: nat -> Log) {
    forall t: nat :: logs(t) == logs(t + 1) || logs(t).genctr < logs(t + 1).genctr
  }

  ghost predicate Publishes(env: Environment, logs: nat -> Log) {
    && (forall t: nat :: WellFormed(logs(t)) && env.content(t) == Serialize(logs(t)))
    && CounterGrows(logs)
  }

  lemma {:induction false} CounterNeverFalls(logs: nat -> Log, t: nat, t': nat)
    requires CounterGrows(logs) && t <= t'
    ensures logs(t) == logs(t') || logs(t).genctr < logs(t').genctr
    decreases t'
  {
    if t < t' {
      CounterNeverFalls(logs, t, t' - 1);
      var u := t' - 1;
      assert logs(u) == logs(u + 1) || logs(u).genctr < logs(u + 1).genctr;
    }
  }

  /** The heart of the protocol: two equal counters mean one log for the whole time between. */
  lemma SameCounterSameLog(logs: nat -> Log, t: nat, t': nat)
    requires CounterGrows(logs) && t <= t'
    requires logs(t).genctr == logs(t').genctr
    ensures forall u: nat | t <= u <= t' :: logs(u) == logs(t)
  {
    forall u: nat | t <= u <= t'
      ensures logs(u) == logs(t)
    {
      CounterNeverFalls(logs, t, u);
      CounterNeverFalls(logs, u, t');
    }
  }

  // ----- the reader's integers -----

  /** `log_size`: 1024 bytes for the header and for each record, cut down to an unsigned int. */
  function LogSize(numrec: int): U32 { (1024 + 1024 * numrec) % 0x1_0000_0000 }

  lemma SameRemainder(a: int, b: int, q: int)
    requires a == b + 0x40_0000 * q
    ensures a % 0x40_0000 == b % 0x40_0000
  {
  }

  /** The size in units of 1024 bytes: 22 bits of header and record count survive. */
  lemma LogSizeUnits(numrec: int)
    ensures LogSize(numrec) == 1024 * ((1 + numrec) % 0x40_0000)
  {
    var q, r := (1 + numrec) / 0x40_0000, (1 + numrec) % 0x40_0000;
    assert 1024 + 1024 * numrec == 0x1_0000_0000 * q + 1024 * r;
    assert 0 <= 1024 * r < 0x1_0000_0000;
  }

  /** `*numrec = le64_to_cpu(...)` cuts the record count down to an int; the size is the same. */
  lemma LogSizeOfInt(n: int)
    ensures LogSize(ToInt(n)) == LogSize(n)
  {
    hide LogSize;
    LogSizeUnits(n);
    LogSizeUnits(ToInt(n));
    var q := (n - ToInt(n)) / 0x1_0000_0000;
    assert n - ToInt(n) == 0x1_0000_0000 * q;
    SameRemainder(1 + n, 1 + ToInt(n), 0x400 * q);
  }

  /** Nor does comparing it, sign-extended, with a 64-bit count. */
  lemma LogSizeOfU64(numrec: int)
    ensures LogSize(numrec) == LogSize(ToU64(numrec))
  {
    hide LogSize;
    LogSizeUnits(numrec);
    LogSizeUnits(ToU64(numrec));
    var q := numrec / 0x1_0000_0000_0000_0000;
    assert numrec == ToU64(numrec) + 0x1_0000_0000_0000_0000 * q;
    SameRemainder(1 + numrec, 1 + ToU64(numrec), 0x400_0000_0000 * q);
  }

  /** The size is the whole log exactly when header and records together stay below 4 GiB. */
  lemma LogSizeIsComplete(log: Log)
    requires WellFormed(log)
    ensures |Serialize(log)| == 1024 + 1024 * |log.entries|
    ensures LogSize(|log.entries|) <= |Serialize(log)|
    ensures LogSize(|log.entries|) == |Serialize(log)| <==> |log.entries| < 0x3f_ffff
  {
    ConcatLength(log.entries);
    SizeOfCount(|log.entries|);
    hide LogSize;
  }

  lemma SizeOfCount(n: nat)
    ensures LogSize(n) <= 1024 + 1024 * n
    ensures LogSize(n) == 1024 + 1024 * n <==> n < 0x3f_ffff
  {
    WrapsFrom(1024 + 1024 * n);
  }

  lemma WrapsFrom(size: nat)
    ensures size % 0x1_0000_0000 <= size
    ensures size % 0x1_0000_0000 == size <==> size < 0x1_0000_0000
  {
  }

  // ----- buffers and handles -----

  /** An open file descriptor. */
  class Handle {
    constructor () {}
  }

  /** What the process owns: allocated buffers and open handles.  `allocates` and `opens` say which of
      its calls succeed, counted together. */
  class Process {
    const allocates: nat -> bool
    const opens: nat -> bool
    var calls: nat
    var buffers: set<array<Byte>>
    var handles: set<Handle>

    constructor (allocates: nat -> bool, opens: nat -> bool)
      ensures this.allocates == allocates && this.opens == opens && calls == 0
      ensures buffers == {} && handles == {}
    {
      this.allocates, this.opens := allocates, opens;
      calls, buffers, handles := 0, {}, {};
    }

    /** open; null for a negative result. */
    method Open() returns (fd: Handle?)
      modifies this
      ensures calls == old(calls) + 1 && buffers == old(buffers)
      ensures fd == null <==> !opens(old(calls))
      ensures fd == null ==> handles == old(handles)
      ensures fd != null ==> fresh(fd) && handles == old(handles) + {fd}
    {
      fd := null;
      if opens(calls) {
        fd := new Handle();
        handles := handles + {fd};
      }
      calls := calls + 1;
    }

    method Close(fd: Handle)
      requires fd in handles
      modifies this
      ensures calls == old(calls)
      ensures buffers == old(buffers) && handles == old(handles) - {fd}
    {
      handles := handles - {fd};
    }

    method Calloc(size: nat) returns (buffer: array?<Byte>)
      modifies this
      ensures calls == old(calls) + 1 && handles == old(handles)
      ensures buffer == null <==> !allocates(old(calls))
      ensures buffer == null ==> buffers == old(buffers)
      ensures buffer != null ==>
                && fresh(buffer) && buffer !in old(buffers) && buffer.Length == size
                && buffers == old(buffers) + {buffer}
    {
      buffer := null;
      if allocates(calls) {
        buffer := new Byte[size](_ => 0);
        buffers := buffers + {buffer};
      }
      calls := calls + 1;
    }

    method Free(buffer: array<Byte>)
      requires buffer in buffers
      modifies this
      ensures calls == old(calls)
      ensures handles == old(handles) && buffers == old(buffers) - {buffer}
    {
      buffers := buffers - {buffer};
    }
  }

  // ----- the fetch -----

  datatype Code =
    Ok | NoLog | GetNumrecs | GetLog | RetryExhausted | NotEqual | OpenFailed | NoMemory

  /** One turn of the retry loop, by command number: the header read that gave the record count,
      the first command of the whole-log read, and the header read that checks the counter. */
  datatype Pass = Pass(header: nat, start: nat, recheck: nat)

  ghost function Asked(logs: nat -> Log, pass: Pass): int { ToInt(|logs(pass.header).entries|) }

  /** The generation counter changed within the pass. */
  ghost predicate Moved(logs: nat -> Log, pass: Pass) {
    logs(pass.start).genctr != logs(pass.recheck).genctr
  }

  /** The pass starts from the header read by command `header` and takes the commands it needs. */
  ghost predicate Follows(logs: nat -> Log, header: nat, pass: Pass) {
    && pass.header == header && pass.start == header + 1
    && pass.recheck == pass.start + Chunks(LogSize(Asked(logs, pass)), 4096)
  }

  /** The header read that pass number `i` starts from, the first one being command `t0`. */
  ghost function HeaderBefore(t0: nat, passes: seq<Pass>, i: nat): nat
    requires i <= |passes|
  {
    if i == 0 then t0 else passes[i - 1].recheck
  }

  /** The passes follow each other without a command between them, the first header read is command
      `t0`, and every pass but the last ended because the counter had moved. */
  ghost predicate Chain(logs: nat -> Log, t0: nat, passes: seq<Pass>) {
    forall i | 0 <= i < |passes| ::
      && Follows(logs, HeaderBefore(t0, passes, i), passes[i])
      && (i + 1 < |passes| ==> Moved(logs, passes[i]))
  }

  /** The buffer is the serialization of this one log, as far as `log_size` reaches, and the record
      count is that log's. */
  ghost predicate Snapshot(log: Log, buffer: seq<Byte>, numrec: int)
    requires WellFormed(log)
  {
    LogSizeIsComplete(log);
    buffer == Serialize(log)[..LogSize(|log.entries|)] && ToU64(numrec) == |log.entries|
  }

  lemma HeaderOfRead(env: Environment, logs: nat -> Log, t: nat, len: nat)
    requires Publishes(env, logs) && len >= 16
    ensures WellFormed(logs(t)) && HoldsHeader(env.ReadLog(t, len), logs(t))
  {
    hide Serialize, WellFormed, CounterGrows;
    var bytes := Serialize(logs(t));
    assert WellFormed(logs(t)) && env.content(t) == bytes;
    LogSizeIsComplete(logs(t));
    forall i | 0 <= i < 16
      ensures env.ReadLog(t, len)[i] == bytes[i]
    {
      env.ReadLogAt(t, len, i);
      assert t + i / 4096 == t;
    }
  }

  /** What a pass leaves in the buffer: its second header over the rest of its whole-log read. */
  ghost function Merged(env: Environment, start: nat, recheck: nat, size: nat): seq<Byte>
    requires size >= 16
  {
    env.ReadLog(recheck, 16) + env.ReadLog(start, size)[16..]
  }

  lemma TwoReadsMerge(env: Environment, start: nat, recheck: nat, size: nat, zeros: seq<Byte>,
                      first: seq<Byte>, second: seq<Byte>)
    requires |zeros| == size >= 16
    requires first == env.ReadLog(start, size) + zeros[size..]
    requires second == env.ReadLog(recheck, 16) + first[16..]
    ensures second == Merged(env, start, recheck, size)
  {
    assert zeros[size..] == [];
    assert first == env.ReadLog(start, size);
  }

  /** A pass with the same counter at both ends has read one log, whatever happened before it. */
  lemma QuietPassIsSnapshot(env: Environment, logs: nat -> Log, pass: Pass, numrec: int)
    requires Publishes(env, logs)
    requires !Moved(logs, pass) && LogSize(numrec) >= 16
    requires pass.recheck == pass.start + Chunks(LogSize(numrec), 4096)
    requires ToU64(numrec) == |logs(pass.recheck).entries|
    ensures WellFormed(logs(pass.recheck))
    ensures Snapshot(logs(pass.recheck), Merged(env, pass.start, pass.recheck, LogSize(numrec)), numrec)
  {
    hide Serialize, WellFormed, LogSize, ToU64, Chunks;
    var log, size := logs(pass.recheck), LogSize(numrec);
    var bytes := Serialize(log);
    assert WellFormed(log);
    SameCounterSameLog(logs, pass.start, pass.recheck);
    LogSizeIsComplete(log);
    LogSizeOfU64(numrec);
    forall u: nat | pass.start <= u < pass.recheck
      ensures env.content(u) == bytes
    {
      assert env.content(u) == Serialize(logs(u));
    }
    ReadOfUnchangingLog(env, pass.start, size, bytes);
    HeaderOfRead(env, logs, pass.recheck, 16);
    HeaderAndRest(env.ReadLog(pass.recheck, 16), bytes, size);
  }

  lemma HeaderAndRest(header: seq<Byte>, bytes: seq<Byte>, size: nat)
    requires |header| == 16 <= size <= |bytes| && header[..16] == bytes[..16]
    ensures header + bytes[..size][16..] == bytes[..size]
  {
    assert header == header[..16];
  }

  /** A snapshot is the complete log with its exact record count if and only if the log stays
      below 4 GiB; above that the unsigned size has dropped its high bits. */
  lemma SnapshotIsWhole(log: Log, buffer: seq<Byte>, numrec: int)
    requires WellFormed(log) && Snapshot(log, buffer, numrec)
    requires -0x8000_0000 <= numrec < 0x8000_0000
    ensures buffer == Serialize(log) && numrec == |log.entries| <==> |log.entries| < 0x3f_ffff
  {
    LogSizeIsComplete(log);
  }

  lemma ToIntIsInt(n: int)
    ensures -0x8000_0000 <= ToInt(n) < 0x8000_0000
    ensures ToInt(0) == 0
  {
  }

  /** The size computed from the truncated count: whole 1024-byte units. */
  lemma SizeToRead(n: nat)
    requires LogSize(n) != 0
    ensures LogSize(ToInt(n)) == LogSize(n) >= 1024 && LogSize(n) % 4 == 0
  {
    hide LogSize, ToInt;
    LogSizeOfInt(n);
    LogSizeUnits(n);
    WholeUnits(LogSize(n), (1 + n) % 0x40_0000);
  }

  lemma WholeUnits(size: nat, units: nat)
    requires size == 1024 * units && size != 0
    ensures size >= 1024 && size % 4 == 0
  {
    assert size == 4 * (256 * units);
  }

  lemma OnePassMore(logs: nat -> Log, t0: nat, passes: seq<Pass>, pass: Pass)
    requires Chain(logs, t0, passes)
    requires |passes| > 0 ==> Moved(logs, passes[|passes| - 1])
    requires Follows(logs, HeaderBefore(t0, passes, |passes|), pass)
    ensures Chain(logs, t0, passes + [pass])
  {
    hide Follows, Moved;
    var longer := passes + [pass];
    forall i | 0 <= i < |longer|
      ensures Follows(logs, HeaderBefore(t0, longer, i), longer[i])
      ensures i + 1 < |longer| ==> Moved(logs, longer[i])
    {
      assert HeaderBefore(t0, longer, i) == HeaderBefore(t0, passes, i);
      if i < |passes| {
        assert longer[i] == passes[i];
      }
    }
  }

  lemma NoPass(logs: nat -> Log, t0: nat)
    ensures Chain(logs, t0, [])
  {
  }

  /** nvme-ioctl.c, nvme_discovery_log. */
  method NvmeDiscoveryLog(ctrl: Controller, log: array<Byte>, size: U32, ghost proc: Process,
                          ghost logs: nat -> Log)
    returns (ret: int)
    requires log in proc.buffers
    requires 16 <= size && size % 4 == 0 && size <= log.Length
    requires Publishes(ctrl.env, logs)
    modifies ctrl, log
    ensures ctrl.clock > old(ctrl.clock)
    ensures ctrl.clock <= old(ctrl.clock) + Chunks(size, 4096)
    ensures size == 16 ==> ctrl.clock == old(ctrl.clock) + 1
    ensures ret == ctrl.env.status(ctrl.clock - 1)
    ensures ctrl.env.Succeeds(old(ctrl.clock), ctrl.clock - 1)
    ensures ret == 0 ==>
              && ctrl.env.Succeeds(old(ctrl.clock), ctrl.clock)
              && ctrl.clock == old(ctrl.clock) + Chunks(size, 4096)
              && log[..] == ctrl.env.ReadLog(old(ctrl.clock), size) + old(log[..])[size..]
              && WellFormed(logs(old(ctrl.clock)))
              && HoldsHeader(log[..], logs(old(ctrl.clock)))
    ensures |old(ctrl.issued)| <= |ctrl.issued|
    ensures forall c | c in ctrl.issued[|old(ctrl.issued)|..] :: LogId(c) == 0x70 && c.nsid == 0 && !Rae(c)
  {
    hide *;
    OneChunk();
    WholeLength(size);
    CommandsAgree(0, 0x70, false, 0, size);
    ghost var t0, was := ctrl.clock, log[..];
    ret := NvmeGetLog(ctrl, 0, 0x70, false, size, log);
    if ret == 0 {
      ctrl.env.SucceedsBefore(t0, ctrl.clock - 1, ctrl.clock);
      HeaderOfRead(ctrl.env, logs, t0, size);
      HeaderStays(ctrl.env.ReadLog(t0, size), was[size..], logs(t0));
    }
  }

  /** The two reads of one turn of the retry loop, with the counter of the first one. */
  method ReadTwice(ctrl: Controller, log: array<Byte>, ghost proc: Process, ghost logs: nat -> Log)
    returns (error: int, genctr: nat)
    requires log in proc.buffers
    requires 16 <= log.Length < 0x1_0000_0000 && log.Length % 4 == 0
    requires Publishes(ctrl.env, logs)
    modifies ctrl, log
    ensures old(ctrl.clock) < ctrl.clock <= old(ctrl.clock) + Chunks(log.Length, 4096) + 1
    ensures error == ctrl.env.status(ctrl.clock - 1)
    ensures ctrl.env.Succeeds(old(ctrl.clock), ctrl.clock - 1)
    ensures error == 0 ==>
              && ctrl.env.Succeeds(old(ctrl.clock), ctrl.clock)
              && ctrl.clock == old(ctrl.clock) + Chunks(log.Length, 4096) + 1
              && genctr == logs(old(ctrl.clock)).genctr
              && WellFormed(logs(ctrl.clock - 1)) && HoldsHeader(log[..], logs(ctrl.clock - 1))
              && log[..] == Merged(ctrl.env, old(ctrl.clock), ctrl.clock - 1, log.Length)
  {
    hide HoldsHeader, Serialize, Publishes, Chunks, WellFormed;
    ghost var start, zeros := ctrl.clock, log[..];
    genctr := 0;
    error := NvmeDiscoveryLog(ctrl, log, log.Length, proc, logs);
    if error != 0 {
      return;
    }
    ghost var recheck, first := ctrl.clock, log[..];
    var numrec;
    genctr, numrec := ReadCounters(log, proc, logs(start));
    error := NvmeDiscoveryLog(ctrl, log, 16, proc, logs);
    if error == 0 {
      TwoReadsMerge(ctrl.env, start, recheck, log.Length, zeros, first, log[..]);
    }
  }

  lemma OneChunk()
    ensures Chunks(16, 4096) == 1
  {
  }

  lemma HeaderStays(front: seq<Byte>, rest: seq<Byte>, log: Log)
    requires HoldsHeader(front, log)
    ensures HoldsHeader(front + rest, log)
  {
    assert (front + rest)[..16] == front[..16];
  }

  /** No log's size wraps to exactly 0, which would leave no room for the header. */
  ghost predicate SizeFits(logs: nat -> Log) {
    forall t: nat :: LogSize(|logs(t).entries|) != 0
  }

  ghost predicate Granted(allocates: nat -> bool, from: nat, to: nat) {
    forall c | from <= c < to :: allocates(c)
  }

  /** A turn starts behind these passes, with the header read by the last of them: they all saw the
      counter move, and every command so far has succeeded. */
  ghost predicate AtTurn(env: Environment, logs: nat -> Log, from: nat, passes: seq<Pass>) {
    && env.Succeeds(from, HeaderBefore(from, passes, |passes|) + 1)
    && (passes != [] ==> Moved(logs, passes[|passes| - 1]))
  }

  /** The record count that the turn behind these passes works with. */
  ghost function CountAt(logs: nat -> Log, from: nat, passes: seq<Pass>): int {
    ToInt(|logs(HeaderBefore(from, passes, |passes|)).entries|)
  }

  /** What each result says about the run: commands `from` to `to`, the `made` allocations from call
      number `c` on, the count returned and the passes made.  Each early exit names the call or the
      command that failed, or the count of 0, and says that everything before it went well.  The last
      pass decides among the three results of a run in which nothing failed. */
  ghost predicate Outcome(env: Environment, allocates: nat -> bool, logs: nat -> Log, from: nat, to: nat,
                          c: nat, made: nat, code: Code, numrec: int, passes: seq<Pass>, buffer: seq<Byte>)
  {
    var header := HeaderBefore(from, passes, |passes|);
    match code
    case OpenFailed =>
      made == 0 && to == from
    case NoMemory =>
      && made > 0 && Granted(allocates, c, c + made - 1) && !allocates(c + made - 1)
      && if made == 1 then to == from && passes == []
         else made == |passes| + 2 && to == header + 1
              && AtTurn(env, logs, from, passes) && CountAt(logs, from, passes) != 0
    case GetNumrecs =>
      made == 1 && allocates(c) && passes == [] && to == from + 1 && env.status(from) != 0
    case GetLog =>
      && made == |passes| + 2 && Granted(allocates, c, c + made)
      && AtTurn(env, logs, from, passes) && CountAt(logs, from, passes) != 0
      && header + 1 < to <= header + 2 + Chunks(LogSize(CountAt(logs, from, passes)), 4096)
      && env.Succeeds(header + 1, to - 1) && env.status(to - 1) != 0
    case NoLog =>
      && made == |passes| + 1 && Granted(allocates, c, c + made)
      && AtTurn(env, logs, from, passes) && numrec == 0 == CountAt(logs, from, passes)
      && to == header + 1
    case _ =>
      && made == |passes| + 1 && Granted(allocates, c, c + made)
      && env.Succeeds(from, to)
      && passes != []
      && var last := passes[|passes| - 1];
      && to == last.recheck + 1
      && numrec == Asked(logs, last) != 0
      && if Moved(logs, last) then
           code.RetryExhausted? && |passes| == 10
         else if ToU64(numrec) != |logs(last.recheck).entries| then
           code.NotEqual?
         else
           code.Ok? && WellFormed(logs(last.recheck))
           && Snapshot(logs(last.recheck), buffer, numrec)
  }

  /** The record counts left out: one less than a multiple of 2^22.  Their log would be read into a
      buffer of no bytes, with a command that asks for 16 GiB. */
  lemma SizeWrapsToZero(n: nat)
    ensures LogSize(n) == 0 <==> n % 0x40_0000 == 0x3f_ffff
    ensures LogSize(n) == 0 ==> ByteCount(GetLog14(0, 0x70, 0, 0, 0, false, 0, LogSize(n))) == 0x4_0000_0000
  {
    hide GetLog14, ByteCount, LogSize;
    LogSizeUnits(n);
    CommandDecodes(0, 0x70, 0, 0, 0, false, 0, LogSize(n));
  }

  /** What one turn of the loop leaves: the buffer of its two reads and the counter of the first. */
  ghost predicate TurnDone(env: Environment, logs: nat -> Log, pass: Pass, numrec: int, genctr: nat,
                           buffer: seq<Byte>)
  {
    && genctr == logs(pass.start).genctr
    && numrec == Asked(logs, pass) != 0 && LogSize(numrec) >= 16
    && Follows(logs, pass.header, pass)
    && buffer == Merged(env, pass.start, pass.recheck, LogSize(numrec))
    && WellFormed(logs(pass.recheck)) && HoldsHeader(buffer, logs(pass.recheck))
  }

  /** How a turn that starts at command `from` and call `c` ends. */
  ghost predicate TurnEnds(env: Environment, allocates: nat -> bool, logs: nat -> Log, from: nat, to: nat,
                           c: nat, c': nat, code: Code, numrec: int, pass: Pass)
  {
    from > 0
    && var count := ToInt(|logs(from - 1).entries|);
    match code
    case NoLog => to == from && c' == c && numrec == 0 == count
    case NoMemory => to == from && c' == c + 1 && !allocates(c) && count != 0
    case GetLog =>
      && from < to <= from + 1 + Chunks(LogSize(count), 4096) && c' == c + 1 && allocates(c) && count != 0
      && env.Succeeds(from, to - 1) && env.status(to - 1) != 0
    case Ok =>
      && from < to && c' == c + 1 && allocates(c)
      && pass.header == from - 1 && pass.recheck == to - 1 && env.Succeeds(from, to)
    case _ => false
  }

  /** One turn of the retry loop, from the header that `log` holds to the next header read.  `code`
      is `Ok` when the turn ran to its end, and the exit taken otherwise. */
  method Turn(proc: Process, ctrl: Controller, log: array<Byte>, ghost logs: nat -> Log)
    returns (code: Code, next: array?<Byte>, numrec: int, genctr: nat, ghost pass: Pass)
    requires Publishes(ctrl.env, logs)
    requires SizeFits(logs)
    requires log in proc.buffers && ctrl.clock > 0
    requires WellFormed(logs(ctrl.clock - 1)) && HoldsHeader(log[..], logs(ctrl.clock - 1))
    modifies proc, ctrl
    ensures proc.handles == old(proc.handles)
    ensures next != null <==> code.Ok?
    ensures proc.buffers == old(proc.buffers) - {log} + (if next == null then {} else {next})
    ensures next != null ==> fresh(next)
    ensures -0x8000_0000 <= numrec < 0x8000_0000
    ensures TurnEnds(ctrl.env, proc.allocates, logs, old(ctrl.clock), ctrl.clock, old(proc.calls),
                     proc.calls, code, numrec, pass)
    ensures code.Ok? ==> TurnDone(ctrl.env, logs, pass, numrec, genctr, next[..])
  {
    hide Serialize, ToInt, LogSize, Publishes, Chunks, HoldsHeader, WellFormed, Merged, Environment.Succeeds;
    ghost var header := ctrl.clock - 1;
    pass := Pass(header, header, header);
    var genctr0, numrec0 := ReadCounters(log, proc, logs(header));
    next, genctr, numrec := null, 0, ToInt(numrec0);
    ToIntIsInt(numrec0);
    SizeToRead(numrec0);
    proc.Free(log);
    if numrec == 0 {
      code := NoLog;
      return;
    }
    next := proc.Calloc(LogSize(numrec));
    if next == null {
      code := NoMemory;
      return;
    }
    ghost var start := ctrl.clock;
    var error;
    error, genctr := ReadTwice(ctrl, next, proc, logs);
    if error != 0 {
      proc.Free(next);
      code, next := GetLog, null;
      return;
    }
    pass := Pass(header, start, ctrl.clock - 1);
    code := Ok;
  }

  lemma GrantedOnce(allocates: nat -> bool, c: nat, made: nat)
    requires Granted(allocates, c, c + made) && allocates(c + made)
    ensures Granted(allocates, c, c + made + 1)
  {
  }

  lemma GrantedNever(allocates: nat -> bool, c: nat)
    ensures Granted(allocates, c, c)
  {
  }

  /** An exit in the middle of a turn. */
  lemma TurnExit(env: Environment, allocates: nat -> bool, logs: nat -> Log, t0: nat, passes: seq<Pass>,
                 from: nat, to: nat, c: nat, calls: nat, code: Code, numrec: int, pass: Pass)
    requires TurnEnds(env, allocates, logs, from, to, c + |passes| + 1, calls, code, numrec, pass)
    requires !code.Ok? && from == HeaderBefore(t0, passes, |passes|) + 1
    requires AtTurn(env, logs, t0, passes) && Granted(allocates, c, c + |passes| + 1)
    ensures calls >= c && Outcome(env, allocates, logs, t0, to, c, calls - c, code, numrec, passes, [])
    ensures !code.OpenFailed?
  {
    hide ToInt, Moved, Environment.Succeeds, LogSize, Chunks;
    if code.GetLog? {
      GrantedOnce(allocates, c, |passes| + 1);
    }
  }

  /** The exits behind the loop. */
  lemma LastPassDecides(env: Environment, allocates: nat -> bool, logs: nat -> Log, t0: nat,
                        passes: seq<Pass>, last: Pass, c: nat, code: Code, numrec: int, genctr: nat, buffer: seq<Byte>)
    requires passes != [] && last == passes[|passes| - 1]
    requires env.Succeeds(t0, last.recheck + 1) && Granted(allocates, c, c + |passes| + 1)
    requires TurnDone(env, logs, last, numrec, genctr, buffer) && (Moved(logs, last) ==> |passes| == 10)
    requires Publishes(env, logs)
    requires code == if Moved(logs, last) then RetryExhausted
                     else if ToU64(numrec) != |logs(last.recheck).entries| then NotEqual else Ok
    ensures Outcome(env, allocates, logs, t0, last.recheck + 1, c, |passes| + 1, code, numrec, passes,
                    if code.Ok? then buffer else [])
  {
    hide ToInt, ToU64, LogSize, Publishes, Snapshot, WellFormed, Merged, HoldsHeader, Environment.Succeeds, Granted, Chunks;
    if code.Ok? {
      QuietPassIsSnapshot(env, logs, last, numrec);
    }
  }

  /** The part of the fetch that runs with the device open, up to the label `out_close`. */
  method FetchLog(proc: Process, ctrl: Controller, ghost logs: nat -> Log)
    returns (code: Code, logp: array?<Byte>, numrec: int, ghost passes: seq<Pass>)
    requires Publishes(ctrl.env, logs)
    requires SizeFits(logs)
    modifies proc, ctrl
    ensures proc.handles == old(proc.handles) && !code.OpenFailed?
    ensures logp != null <==> code.Ok?
    ensures proc.buffers == old(proc.buffers) + (if logp == null then {} else {logp})
    ensures logp != null ==> fresh(logp)
    ensures -0x8000_0000 <= numrec < 0x8000_0000
    ensures |passes| <= 10 && Chain(logs, old(ctrl.clock), passes)
    ensures proc.calls >= old(proc.calls)
    ensures Outcome(ctrl.env, proc.allocates, logs, old(ctrl.clock), ctrl.clock, old(proc.calls),
                    proc.calls - old(proc.calls), code, numrec, passes, if logp == null then [] else logp[..])
  {
    hide Serialize, ToInt, ToU64, LogSize, Publishes, Snapshot, Chunks, HoldsHeader, WellFormed,
         Merged, Chain, Environment.Succeeds, SizeFits, Granted, Outcome, TurnEnds, AtTurn;
    code, logp, numrec, passes := NoMemory, null, 0, [];
    ghost var t0, c0 := ctrl.clock, proc.calls;
    ghost var last := Pass(t0, t0, t0);
    ToIntIsInt(0);
    NoPass(logs, t0);
    GrantedNever(proc.allocates, c0);
    var log := proc.Calloc(16);
    if log == null {
      NothingAllocated(ctrl.env, proc.allocates, logs, t0, c0);
      return;
    }
    GrantedOnce(proc.allocates, c0, 0);
    var error := NvmeDiscoveryLog(ctrl, log, 16, proc, logs);
    if error != 0 {
      proc.Free(log);
      code := GetNumrecs;
      NothingRead(ctrl.env, proc.allocates, logs, t0, c0);
      return;
    }
    var retries, genctr, again := 0, 0, true;
    while again
      invariant fresh(log) && proc.buffers == old(proc.buffers) + {log}
      invariant proc.handles == old(proc.handles)
      invariant -0x8000_0000 <= numrec < 0x8000_0000
      invariant Chain(logs, t0, passes) && |passes| <= 10
      invariant |passes| > 0 ==> last == passes[|passes| - 1]
      invariant last.recheck == HeaderBefore(t0, passes, |passes|) >= t0
      invariant ctrl.clock == last.recheck + 1
      invariant ctrl.env.Succeeds(t0, ctrl.clock)
      invariant proc.calls == c0 + |passes| + 1 && Granted(proc.allocates, c0, proc.calls)
      invariant WellFormed(logs(last.recheck)) && HoldsHeader(log[..], logs(last.recheck))
      invariant again ==> |passes| == retries < 10
      invariant again && |passes| > 0 ==> Moved(logs, last)
      invariant !again ==>
                  && |passes| > 0
                  && TurnDone(ctrl.env, logs, last, numrec, genctr, log[..])
                  && (Moved(logs, last) ==> |passes| == 10)
      decreases again, 10 - retries
    {
      ghost var before, calls, pass := ctrl.clock, proc.calls, last;
      TurnStarts(ctrl.env, logs, t0, passes);
      var next;
      code, next, numrec, genctr, pass := Turn(proc, ctrl, log, logs);
      if next == null {
        TurnExit(ctrl.env, proc.allocates, logs, t0, passes, before, ctrl.clock, c0, proc.calls, code, numrec, pass);
        return;
      }
      log := next;
      TurnCompletes(ctrl.env, proc.allocates, logs, t0, passes, before, ctrl.clock, c0, proc.calls, numrec, pass);
      OnePassMore(logs, t0, passes, pass);
      passes, last := passes + [pass], pass;
      var genctr0, numrec0 := ReadCounters(log, proc, logs(last.recheck));
      again := genctr != genctr0;
      if again {
        retries := retries + 1;
        again := retries < 10;
      }
    }
    var genctr1, numrec1 := ReadCounters(log, proc, logs(last.recheck));
    code := if genctr != genctr1 then RetryExhausted else if ToU64(numrec) != numrec1 then NotEqual else Ok;
    LastPassDecides(ctrl.env, proc.allocates, logs, t0, passes, last, c0, code, numrec, genctr, log[..]);
    if genctr != genctr1 {
      proc.Free(log);
      return;
    }
    if ToU64(numrec) != numrec1 {
      proc.Free(log);
      return;
    }
    logp := log;
  }

  lemma NothingAllocated(env: Environment, allocates: nat -> bool, logs: nat -> Log, t0: nat, c: nat)
    requires !allocates(c)
    ensures Outcome(env, allocates, logs, t0, t0, c, 1, NoMemory, 0, [], [])
  {
  }

  lemma NothingRead(env: Environment, allocates: nat -> bool, logs: nat -> Log, t0: nat, c: nat)
    requires allocates(c) && env.status(t0) != 0
    ensures Outcome(env, allocates, logs, t0, t0 + 1, c, 1, GetNumrecs, 0, [], [])
  {
  }

  lemma TurnStarts(env: Environment, logs: nat -> Log, t0: nat, passes: seq<Pass>)
    requires env.Succeeds(t0, HeaderBefore(t0, passes, |passes|) + 1)
    requires |passes| > 0 ==> Moved(logs, passes[|passes| - 1])
    ensures AtTurn(env, logs, t0, passes)
  {
  }

  lemma TurnCompletes(env: Environment, allocates: nat -> bool, logs: nat -> Log, t0: nat, passes: seq<Pass>,
                      from: nat, to: nat, c: nat, calls: nat, numrec: int, pass: Pass)
    requires TurnEnds(env, allocates, logs, from, to, c + |passes| + 1, calls, Ok, numrec, pass)
    requires env.Succeeds(t0, from) && Granted(allocates, c, c + |passes| + 1)
    ensures pass.header == from - 1 && pass.recheck == to - 1 >= from
    ensures env.Succeeds(t0, to)
    ensures calls == c + |passes| + 2 && Granted(allocates, c, calls)
  {
    env.SucceedsOn(t0, from, to);
    GrantedOnce(allocates, c, |passes| + 1);
    hide Granted;
  }

  /** fabrics.c, nvmf_get_log_page_discovery.  `logs` is what the controller publishes. */
  method GetLogPageDiscovery(proc: Process, ctrl: Controller, ghost logs: nat -> Log)
    returns (code: Code, logp: array?<Byte>, numrec: int, ghost passes: seq<Pass>)
    requires Publishes(ctrl.env, logs)
    requires SizeFits(logs)
    modifies proc, ctrl
    ensures proc.handles == old(proc.handles)
    ensures logp != null <==> code.Ok?
    ensures proc.buffers == old(proc.buffers) + (if logp == null then {} else {logp})
    ensures logp != null ==> fresh(logp)
    ensures -0x8000_0000 <= numrec < 0x8000_0000
    ensures |passes| <= 10 && Chain(logs, old(ctrl.clock), passes)
    ensures proc.calls > old(proc.calls)
    ensures code.OpenFailed? <==> !proc.opens(old(proc.calls))
    ensures Outcome(ctrl.env, proc.allocates, logs, old(ctrl.clock), ctrl.clock, old(proc.calls) + 1,
                    proc.calls - old(proc.calls) - 1, code, numrec, passes, if logp == null then [] else logp[..])
    ensures Favourable(proc.allocates, ctrl.env, logs, old(proc.calls) + 1, old(ctrl.clock))
              && proc.opens(old(proc.calls)) ==>
              && code.Ok? && logp[..] == Serialize(logs(old(ctrl.clock)))
              && numrec == |logs(old(ctrl.clock)).entries|
  {
    hide Publishes, Chain, Snapshot, Environment.Succeeds, SizeFits, WellFormed, ToInt, ToU64, Serialize,
         Outcome, Favourable;
    code, logp, numrec, passes := OpenFailed, null, 0, [];
    ghost var t0, c0 := ctrl.clock, proc.calls + 1;
    NoPass(logs, t0);
    var fd := proc.Open();
    if fd == null {
      NothingOpened(ctrl.env, proc.allocates, logs, t0, c0);
      return;
    }
    code, logp, numrec, passes := FetchLog(proc, ctrl, logs);
    if Favourable(proc.allocates, ctrl.env, logs, c0, t0) {
      StillLogIsFetched(ctrl.env, proc.allocates, logs, t0, ctrl.clock, c0, proc.calls - c0, code, numrec, passes,
                        if logp == null then [] else logp[..]);
    }
    proc.Close(fd);
  }

  lemma NothingOpened(env: Environment, allocates: nat -> bool, logs: nat -> Log, t0: nat, c: nat)
    ensures Outcome(env, allocates, logs, t0, t0, c, 0, OpenFailed, 0, [], [])
  {
  }

  /** From here on no call and no command fails, and the log stays the same, with a count of records
      that leaves its size below 4 GiB. */
  ghost predicate Favourable(allocates: nat -> bool, env: Environment, logs: nat -> Log, c: nat, t: nat) {
    && (forall k | k >= c :: allocates(k))
    && (forall u | u >= t :: env.status(u) == 0 && logs(u) == logs(t))
    && 1 <= |logs(t).entries| <= 0x3f_fffe
  }

  /** The check of the record counts passes exactly for those that an int keeps. */
  lemma CountSurvives(n: nat)
    requires n < 0x1_0000_0000_0000_0000
    ensures ToU64(ToInt(n)) == n <==> n < 0x8000_0000 || n >= 0xffff_ffff_8000_0000
    ensures n < 0x8000_0000 ==> ToInt(n) == n
  {
    var q, low := n / 0x1_0000_0000, n % 0x1_0000_0000;
    assert n == 0x1_0000_0000 * q + low;
    if low < 0x8000_0000 {
      assert ToU64(ToInt(n)) == low;
    } else {
      assert ToU64(ToInt(n)) == 0xffff_ffff_0000_0000 + low;
    }
  }

  /** A run against a controller that leaves its log alone, in which no call fails: an empty log, or one
      whose count an int cuts down to 0, is reported as none; any other is read in one pass, and
      returned exactly when the check of the record counts passes. */
  lemma QuietRunSucceeds(env: Environment, allocates: nat -> bool, logs: nat -> Log, from: nat, to: nat,
                         c: nat, made: nat, code: Code, numrec: int, passes: seq<Pass>, buffer: seq<Byte>)
    requires Chain(logs, from, passes)
    requires Outcome(env, allocates, logs, from, to, c, made, code, numrec, passes, buffer)
    requires code.Ok? || code.NoLog? || code.NotEqual? || code.RetryExhausted?
    requires forall t | t >= from :: logs(t) == logs(from)
    requires |logs(from).entries| < 0x1_0000_0000_0000_0000
    ensures var n := |logs(from).entries|;
      && numrec == ToInt(n)
      && (code.NoLog? <==> ToInt(n) == 0)
      && (code.NoLog? ==> passes == [])
      && (!code.NoLog? ==> |passes| == 1 && passes[0].recheck >= from)
      && (code.Ok? <==> ToInt(n) != 0 && (n < 0x8000_0000 || n >= 0xffff_ffff_8000_0000))
  {
    hide Snapshot, WellFormed, Environment.Succeeds, Granted, ToInt, ToU64, LogSize, Chunks;
    CountSurvives(|logs(from).entries|);
    if passes != [] {
      FirstPassIsStill(logs, from, passes);
      assert passes[0] == passes[|passes| - 1];
    }
  }

  lemma FirstPassIsStill(logs: nat -> Log, from: nat, passes: seq<Pass>)
    requires Chain(logs, from, passes) && passes != []
    requires forall t | t >= from :: logs(t) == logs(from)
    ensures !Moved(logs, passes[0]) && Asked(logs, passes[0]) == ToInt(|logs(from).entries|)
    ensures passes[0].recheck >= from && logs(passes[0].recheck) == logs(from)
    ensures |passes| == 1
  {
    hide ToInt, LogSize, Chunks;
    var first := passes[0];
    assert Follows(logs, HeaderBefore(from, passes, 0), first);
    assert logs(first.start) == logs(first.recheck) == logs(first.header) == logs(from);
  }

  /** When nothing fails and the log stays the same, the log is what comes back. */
  lemma StillLogIsFetched(env: Environment, allocates: nat -> bool, logs: nat -> Log, from: nat, to: nat,
                          c: nat, made: nat, code: Code, numrec: int, passes: seq<Pass>, buffer: seq<Byte>)
    requires Publishes(env, logs) && Chain(logs, from, passes) && Favourable(allocates, env, logs, c, from)
    requires Outcome(env, allocates, logs, from, to, c, made, code, numrec, passes, buffer)
    requires !code.OpenFailed?
    ensures code.Ok? && buffer == Serialize(logs(from)) && numrec == |logs(from).entries|
  {
    hide Chain, Snapshot, Serialize, ToU64, ToInt, LogSize, Chunks, CounterGrows, Environment.Succeeds;
    var log := logs(from);
    assert WellFormed(log);
    NothingFailed(env, allocates, logs, from, to, c, made, code, numrec, passes, buffer);
    QuietRunSucceeds(env, allocates, logs, from, to, c, made, code, numrec, passes, buffer);
    CountSurvives(|log.entries|);
    assert logs(passes[0].recheck) == log;
    SnapshotIsWhole(log, buffer, numrec);
  }

  lemma NothingFailed(env: Environment, allocates: nat -> bool, logs: nat -> Log, from: nat, to: nat,
                      c: nat, made: nat, code: Code, numrec: int, passes: seq<Pass>, buffer: seq<Byte>)
    requires forall k | k >= c :: allocates(k)
    requires forall u | u >= from :: env.status(u) == 0
    requires Chain(logs, from, passes)
    requires Outcome(env, allocates, logs, from, to, c, made, code, numrec, passes, buffer)
    ensures !code.NoMemory? && !code.GetNumrecs? && !code.GetLog?
  {
    hide ToInt, LogSize, Chunks, Snapshot, Moved;
    ChainIsLater(logs, from, passes, |passes|);
  }

  lemma {:induction false} ChainIsLater(logs: nat -> Log, from: nat, passes: seq<Pass>, i: nat)
    requires Chain(logs, from, passes) && i <= |passes|
    ensures HeaderBefore(from, passes, i) >= from
  {
    hide Follows, Moved;
    if i > 0 {
      ChainIsLater(logs, from, passes, i - 1);
      FollowsIsLater(logs, HeaderBefore(from, passes, i - 1), passes[i - 1]);
    }
  }

  lemma FollowsIsLater(logs: nat -> Log, header: nat, pass: Pass)
    requires Follows(logs, header, pass)
    ensures pass.recheck > header
  {
  }
}
