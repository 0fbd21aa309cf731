/** Reading a log page (nvme-ioctl.c): the Get Log Page command and the loop that reads a log in
    pieces of at most 4096 bytes, against a controller whose log may be another one at each command.
 */
module LogPage {
  import opened Bits
  import opened Wire

  // ----- the command -----

  /** The fields of an admin command that matter here; `nvme_get_log14` fills the others with 0. */
  datatype AdminCmd = AdminCmd(
    opcode: U8, nsid: U32, dataLen: U32,
    cdw10: U32, cdw11: U32, cdw12: U32, cdw13: U32, cdw14: U32)

  const GET_LOG_PAGE: U8 := 0x02

  /** nvme-ioctl.c, nvme_get_log14, with C's wrap-around.  The fields joined by `|` do not overlap,
      so the union is a sum, except that bit 7 of `lsp` falls on the RAE bit. */
  function GetLog14(nsid: U32, logId: U8, lsp: U8, lpo: U64, lsi: U16, rae: bool, uuidIx: U8,
                    dataLen: U32): AdminCmd
  {
    var numd := (dataLen / 4 + 0x1_0000_0000 - 1) % 0x1_0000_0000;
    var numdu, numdl := numd / 0x1_0000, numd % 0x1_0000;
    var lspRae := if rae && lsp < 0x80 then lsp + 0x80 else lsp;
    AdminCmd(GET_LOG_PAGE, nsid, dataLen,
             logId + numdl * 0x1_0000 + lspRae * 0x100,
             numdu + lsi * 0x1_0000,
             lpo % 0x1_0000_0000, lpo / 0x1_0000_0000, uuidIx)
  }

  // How a controller reads the command: section 5.14 of NVM Express 1.4.

  function LogId(cmd: AdminCmd): nat { cmd.cdw10 % 0x100 }

  function Lsp(cmd: AdminCmd): nat { cmd.cdw10 / 0x100 % 0x10 }

  function Rae(cmd: AdminCmd): bool { cmd.cdw10 / 0x8000 % 2 == 1 }

  /** Number of dwords, a zero-based count split over two command dwords. */
  function Numd(cmd: AdminCmd): nat { cmd.cdw11 % 0x1_0000 * 0x1_0000 + cmd.cdw10 / 0x1_0000 }

  function Lsi(cmd: AdminCmd): nat { cmd.cdw11 / 0x1_0000 }

  function Lpo(cmd: AdminCmd): nat { cmd.cdw13 * 0x1_0000_0000 + cmd.cdw12 }

  function ByteCount(cmd: AdminCmd): nat { 4 * (Numd(cmd) + 1) }

  /** The part of `n` bytes that is whole dwords. */
  function DwordBytes(n: nat): (r: nat)
    ensures n < r + 4 && r <= n
  {
    n - n % 4
  }

  /** `x` is `hi` above a field of 8, 16 or 32 bits that holds `lo`. */
  lemma Split8(x: nat, lo: nat, hi: nat)
    requires lo < 0x100 && x == lo + hi * 0x100
    ensures x / 0x100 == hi && x % 0x100 == lo
  {
  }

  lemma Split16(x: nat, lo: nat, hi: nat)
    requires lo < 0x1_0000 && x == lo + hi * 0x1_0000
    ensures x / 0x1_0000 == hi && x % 0x1_0000 == lo
  {
  }

  lemma Split32(x: nat, lo: nat, hi: nat)
    requires lo < 0x1_0000_0000 && x == lo + hi * 0x1_0000_0000
    ensures x / 0x1_0000_0000 == hi && x % 0x1_0000_0000 == lo
  {
  }

  lemma Split15(x: nat, lo: nat, hi: nat)
    requires lo < 0x8000 && x == lo + hi * 0x8000
    ensures x / 0x8000 == hi
  {
  }

  lemma Split4(x: nat, lo: nat, hi: nat)
    requires lo < 0x10 && x == lo + hi * 0x10
    ensures x % 0x10 == lo
  {
  }

  lemma Split1(x: nat, lo: nat, hi: nat)
    requires lo < 2 && x == lo + hi * 2
    ensures x % 2 == lo
  {
  }

  /** RAE and LSP share a byte: bit 7 and the low four bits. `low` is the byte below them. */
  lemma SplitLspRae(word: nat, low: nat, lsp: U8, rae: bool, hi: nat)
    requires lsp < 0x10 && low < 0x100
    requires word == low + (if rae then lsp + 0x80 else lsp) * 0x100 + hi * 0x1_0000
    ensures word / 0x100 % 0x10 == lsp
    ensures word / 0x8000 % 2 == 1 <==> rae
  {
    var bit := if rae then 1 else 0;
    Split8(word, low, (lsp + 0x80 * bit) + hi * 0x100);
    Split4(lsp + 0x80 * bit + hi * 0x100, lsp, 8 * bit + 0x10 * hi);
    Split15(word, low + lsp * 0x100, bit + hi * 2);
    Split1(bit + hi * 2, bit, hi);
  }

  lemma WrappedCount(dataLen: U32)
    ensures var numd := (dataLen / 4 + 0x1_0000_0000 - 1) % 0x1_0000_0000;
      4 * (numd + 1) == if dataLen < 4 then 0x4_0000_0000 else DwordBytes(dataLen)
  {
    if dataLen < 4 {
      assert (dataLen / 4 + 0x1_0000_0000 - 1) % 0x1_0000_0000 == 0x1_0000_0000 - 1;
    } else {
      assert (dataLen / 4 + 0x1_0000_0000 - 1) % 0x1_0000_0000 == dataLen / 4 - 1;
    }
  }

  /** For every argument the controller decodes the identifier, the offset and the specific
      identifier it was meant to; the whole dwords of the length, or 16 GiB when there is none; and
      RAE and the 4-bit LSP whenever LSP fits its field. */
  lemma CommandDecodes(nsid: U32, logId: U8, lsp: U8, lpo: U64, lsi: U16, rae: bool, uuidIx: U8,
                       dataLen: U32)
    ensures var cmd := GetLog14(nsid, logId, lsp, lpo, lsi, rae, uuidIx, dataLen);
      && LogId(cmd) == logId && Lpo(cmd) == lpo && Lsi(cmd) == lsi
      && ByteCount(cmd) == (if dataLen < 4 then 0x4_0000_0000 else DwordBytes(dataLen))
      && (lsp < 0x10 ==> Lsp(cmd) == lsp && Rae(cmd) == rae)
  {
    var cmd := GetLog14(nsid, logId, lsp, lpo, lsi, rae, uuidIx, dataLen);
    var numd := (dataLen / 4 + 0x1_0000_0000 - 1) % 0x1_0000_0000;
    var numdu, numdl := numd / 0x1_0000, numd % 0x1_0000;
    var lspRae := if rae && lsp < 0x80 then lsp + 0x80 else lsp;
    Split8(cmd.cdw10, logId, lspRae + numdl * 0x100);
    Split16(cmd.cdw10, logId + lspRae * 0x100, numdl);
    Split16(cmd.cdw11, numdu, lsi);
    if lsp < 0x10 {
      SplitLspRae(cmd.cdw10, logId, lsp, rae, numdl);
    }
    WrappedCount(dataLen);
  }

  /** The byte of LSP and RAE, bit by bit. */
  lemma LspRaeBits(lsp: U8, rae: bool, i: nat)
    ensures var byte := if rae && lsp < 0x80 then lsp + 0x80 else lsp;
      Bit(byte, i) <==> Bit(lsp, i) || (rae && i == 7)
  {
    ShlIsProduct(1);
    var low := if lsp < 0x80 then lsp else lsp - 0x80;
    OrOfDisjoint(low, 1, 7);
    BitOfOr(low, Shl(1, 7), i);
    BitOfPower(7, i);
  }

  lemma SumIsUnion(a: nat, b: nat, c: nat)
    requires a < 0x100 && b < 0x100
    ensures a + b * 0x100 + c * 0x1_0000 == Or(Or(a, Shl(b, 8)), Shl(c, 16))
  {
    ShlIsProduct(1);
    ShlIsProduct(b);
    ShlIsProduct(c);
    OrOfDisjoint(a, b, 8);
    OrOfDisjoint(a + b * 0x100, c, 16);
  }

  lemma Cdw10IsUnion(logId: U8, lsp: U8, rae: bool, numdl: U16)
    ensures var byte := if rae && lsp < 0x80 then lsp + 0x80 else lsp;
      logId + numdl * 0x1_0000 + byte * 0x100
        == Or(Or(Or(logId, Shl(numdl, 16)), if rae then Shl(1, 15) else 0), Shl(lsp, 8))
  {
    var byte := if rae && lsp < 0x80 then lsp + 0x80 else lsp;
    var raeBit := if rae then Shl(1, 15) else 0;
    var x, y := Or(Or(logId, Shl(byte, 8)), Shl(numdl, 16)), Or(Or(Or(logId, Shl(numdl, 16)), raeBit), Shl(lsp, 8));
    SumIsUnion(logId, byte, numdl);
    hide Bit, Or, Shl;
    forall i: nat
      ensures Bit(x, i) == Bit(y, i)
    {
      BitOfOr(Or(logId, Shl(byte, 8)), Shl(numdl, 16), i);
      BitOfOr(logId, Shl(byte, 8), i);
      BitOfShl(byte, 8, i);
      if i >= 8 {
        LspRaeBits(lsp, rae, i - 8);
      }
      BitOfOr(Or(Or(logId, Shl(numdl, 16)), raeBit), Shl(lsp, 8), i);
      BitOfOr(Or(logId, Shl(numdl, 16)), raeBit, i);
      BitOfOr(logId, Shl(numdl, 16), i);
      BitOfShl(lsp, 8, i);
      BitOfPower(15, i);
      BitOfZero(i);
    }
    SameBits(x, y);
  }

  lemma HalvesOf64(lpo: U64)
    ensures lpo % 0x1_0000_0000 == Low(lpo, 32) && lpo / 0x1_0000_0000 == Shr(lpo, 32)
  {
    hide Low, Shr, Shl;
    LowAndRest(lpo, 32);
    ShlIsProduct(1);
    ShlIsProduct(Shr(lpo, 32));
    Split32(lpo, Low(lpo, 32), Shr(lpo, 32));
  }

  lemma HalvesOf32(numd: U32)
    ensures numd % 0x1_0000 == Low(numd, 16) && numd / 0x1_0000 == Shr(numd, 16)
  {
    hide Low, Shr, Shl;
    LowAndRest(numd, 16);
    ShlIsProduct(1);
    ShlIsProduct(Shr(numd, 16));
    Split16(numd, Low(numd, 16), Shr(numd, 16));
  }

  /** The dwords of the command as the shifts and unions they are written with, for every argument,
      those that overlap included, and the fields passed on as they are. */
  lemma WordsAreUnions(nsid: U32, logId: U8, lsp: U8, lpo: U64, lsi: U16, rae: bool, uuidIx: U8,
                       dataLen: U32)
    ensures var cmd := GetLog14(nsid, logId, lsp, lpo, lsi, rae, uuidIx, dataLen);
      var numd: U32 := if dataLen < 4 then 0xffff_ffff else dataLen / 4 - 1;
      && cmd.opcode == 0x02 && cmd.nsid == nsid && cmd.dataLen == dataLen && cmd.cdw14 == uuidIx
      && cmd.cdw10 == Or(Or(Or(logId, Shl(Low(numd, 16), 16)), if rae then Shl(1, 15) else 0), Shl(lsp, 8))
      && cmd.cdw11 == Or(Shr(numd, 16), Shl(lsi, 16))
      && cmd.cdw12 == Low(lpo, 32) && cmd.cdw13 == Shr(lpo, 32)
  {
    var numd: U32 := if dataLen < 4 then 0xffff_ffff else dataLen / 4 - 1;
    WrappedDwords(dataLen);
    HalvesOf32(numd);
    HalvesOf64(lpo);
    Cdw10IsUnion(logId, lsp, rae, numd % 0x1_0000);
    ShlIsProduct(1);
    ShlIsProduct(lsi);
    OrOfDisjoint(numd / 0x1_0000, lsi, 16);
    hide Low, Shr, Shl, Or;
  }

  lemma WrappedDwords(dataLen: U32)
    ensures (dataLen / 4 + 0x1_0000_0000 - 1) % 0x1_0000_0000
         == if dataLen < 4 then 0xffff_ffff else dataLen / 4 - 1
  {
  }

  lemma DwordBytesIs(n: nat)
    ensures DwordBytes(n) % 4 == 0 && DwordBytes(n) <= n < DwordBytes(n) + 4
  {
  }

  // ----- the controller -----

  /** Everything the controller will do: the log it publishes when command number `t` arrives, the
      status it completes that command with (0 is success), and the bytes it returns for offsets
      past the end of the log. */
  datatype Environment = Environment(
    content: nat -> seq<Byte>,
    status: nat -> int,
    past: (nat, nat) -> Byte)
  {
    function ByteAt(t: nat, offset: nat): Byte {
      if offset < |content(t)| then content(t)[offset] else past(t, offset)
    }

    /** Commands `from` to `to` (exclusive) all complete without error. */
    ghost predicate Succeeds(from: nat, to: nat) {
      forall t | from <= t < to :: status(t) == 0
    }

    lemma SucceedsOn(a: nat, b: nat, c: nat)
      requires Succeeds(a, b) && Succeeds(b, c)
      ensures Succeeds(a, c)
    {
    }

    lemma SucceedsBefore(a: nat, b: nat, c: nat)
      requires Succeeds(a, c) && b <= c
      ensures Succeeds(a, b)
    {
    }

    lemma SucceedsNever(t: nat)
      ensures Succeeds(t, t)
    {
    }

    /** The `len` bytes from `offset` on, as answered by command number `t`. */
    function Reply(t: nat, offset: nat, len: nat): (bytes: seq<Byte>)
      ensures |bytes| == len
    {
      if len == 0 then [] else Reply(t, offset, len - 1) + [ByteAt(t, offset + len - 1)]
    }

    lemma {:induction false} ReplyAt(t: nat, offset: nat, len: nat, i: nat)
      requires i < len
      ensures Reply(t, offset, len)[i] == ByteAt(t, offset + i)
    {
      if i < len - 1 {
        ReplyAt(t, offset, len - 1, i);
      }
    }

    /** What a read of `len` bytes leaves in the buffer when its first command is number `t` and
        every command succeeds: chunk `k` is answered by command `t + k`. */
    function ReadLog(t: nat, len: nat): (bytes: seq<Byte>)
      ensures |bytes| == len
    {
      if len == 0 then [] else ReadLog(t, len - 1) + [ByteAt(t + (len - 1) / 4096, len - 1)]
    }

    lemma {:induction false} ReadLogAt(t: nat, len: nat, i: nat)
      requires i < len
      ensures ReadLog(t, len)[i] == ByteAt(t + i / 4096, i)
    {
      if i < len - 1 {
        ReadLogAt(t, len - 1, i);
      }
    }

    lemma {:induction false} ReadLogPrefix(t: nat, len: nat, more: nat)
      requires len <= more
      ensures ReadLog(t, more)[..len] == ReadLog(t, len)
      decreases more
    {
      if len < more {
        ReadLogPrefix(t, len, more - 1);
        assert ReadLog(t, more)[..len] == ReadLog(t, more - 1)[..len];
      }
    }
  }

  function Overwrite(buffer: seq<Byte>, at: nat, bytes: seq<Byte>): seq<Byte>
    requires at + |bytes| <= |buffer|
  {
    buffer[..at] + bytes + buffer[at + |bytes|..]
  }

  class Controller {
    const env: Environment
    var clock: nat
    var issued: seq<AdminCmd>

    constructor (env: Environment)
      ensures this.env == env && clock == 0 && issued == []
    {
      this.env := env;
      clock, issued := 0, [];
    }

    /** Submit a Get Log Page command whose data pointer is `at` bytes into `data`. */
    method Submit(cmd: AdminCmd, data: array<Byte>, at: nat) returns (status: int)
      requires at + ByteCount(cmd) <= data.Length
      modifies this, data
      ensures clock == old(clock) + 1 && issued == old(issued) + [cmd]
      ensures status == env.status(old(clock))
      ensures data[..] == if status != 0 then old(data[..]) else
                Overwrite(old(data[..]), at, env.Reply(old(clock), Lpo(cmd), ByteCount(cmd)))
    {
      hide Lpo, ByteCount, Environment.Reply, Environment.ByteAt;
      status := env.status(clock);
      if status == 0 {
        var n, lpo := ByteCount(cmd), Lpo(cmd);
        forall i | at <= i < at + n {
          data[i] := env.ByteAt(clock, lpo + (i - at));
        }
        forall i | 0 <= i < n
          ensures env.Reply(clock, lpo, n)[i] == data[at + i]
        {
          env.ReplyAt(clock, lpo, n, i);
        }
        assert data[at..at + n] == env.Reply(clock, lpo, n);
      }
      clock, issued := clock + 1, issued + [cmd];
    }
  }

  // ----- the chunk loop -----

  /** The commands that read bytes `offset` to `len`. */
  function Commands(nsid: U32, logId: U8, rae: bool, offset: nat, len: U32): (cmds: seq<AdminCmd>)
    requires offset <= len
    ensures |cmds| == Chunks(len - offset, 4096)
    decreases len - offset
  {
    if offset == len then [] else
    var n := if len - offset > 4096 then 4096 else len - offset;
    [GetLog14(nsid, logId, 0, offset, 0, rae, 0, n)] + Commands(nsid, logId, rae, offset + n, len)
  }

  /** The number of commands a read of `len` bytes takes when each reads `size` bytes at most. */
  function Chunks(len: nat, size: nat): nat
    requires size > 0
  {
    if len == 0 then 0 else if len <= size then 1 else 1 + Chunks(len - size, size)
  }

  /** Chunk `k` is one of them while bytes are left behind the chunks before it. */
  lemma {:induction false} ChunksCover(len: nat, size: nat, k: nat)
    requires size > 0
    ensures size * k < len <==> k < Chunks(len, size)
    ensures len <= size * k < len + size ==> k == Chunks(len, size)
    decreases k
  {
    if k > 0 {
      assert size * k == size + size * (k - 1);
      if len > size {
        ChunksCover(len - size, size, k - 1);
      }
    }
  }

  lemma ChunksIsCeiling(len: nat, size: nat)
    requires size > 0
    ensures Chunks(len, size) == (len + size - 1) / size
  {
    var k := (len + size - 1) / size;
    assert len + size - 1 == size * k + (len + size - 1) % size;
    ChunksCover(len, size, k);
  }

  /** The byte ranges that the commands name, in order, cover `from` to `to` with no gap or
      overlap, each at most one chunk long. */
  ghost predicate Tile(cmds: seq<AdminCmd>, from: nat, to: nat) {
    if cmds == [] then
      from == to
    else
      && Lpo(cmds[0]) == from
      && ByteCount(cmds[0]) <= 4096
      && from + ByteCount(cmds[0]) <= to
      && Tile(cmds[1..], from + ByteCount(cmds[0]), to)
  }

  /** The command that reads one chunk says what it was built from. */
  lemma ChunkDecodes(nsid: U32, logId: U8, rae: bool, offset: U32, n: U32)
    requires n >= 4
    ensures var cmd := GetLog14(nsid, logId, 0, offset, 0, rae, 0, n);
      cmd.nsid == nsid && Lpo(cmd) == offset && ByteCount(cmd) == DwordBytes(n)
      && LogId(cmd) == logId && Rae(cmd) == rae
  {
    CommandDecodes(nsid, logId, 0, offset, 0, rae, 0, n);
  }

  /** The commands of a read decode to ranges that tile the log. */
  lemma {:induction false} CommandsTile(nsid: U32, logId: U8, rae: bool, offset: nat, len: U32)
    requires offset <= len && offset % 4 == 0 && len % 4 == 0
    ensures Tile(Commands(nsid, logId, rae, offset, len), offset, len)
    decreases len - offset
  {
    hide GetLog14, LogId, Rae, Lpo, ByteCount;
    if offset < len {
      var n := if len - offset > 4096 then 4096 else len - offset;
      ChunkDecodes(nsid, logId, rae, offset, n);
      CommandsTile(nsid, logId, rae, offset + n, len);
    }
  }

  /** They all ask for the same log of the same namespace, with the same RAE bit. */
  lemma {:induction false} CommandsAgree(nsid: U32, logId: U8, rae: bool, offset: nat, len: U32)
    requires offset <= len && offset % 4 == 0 && len % 4 == 0
    ensures forall c | c in Commands(nsid, logId, rae, offset, len) ::
              LogId(c) == logId && c.nsid == nsid && Rae(c) == rae
    decreases len - offset
  {
    hide GetLog14, LogId, Rae, Lpo, ByteCount;
    if offset < len {
      var n := if len - offset > 4096 then 4096 else len - offset;
      ChunkDecodes(nsid, logId, rae, offset, n);
      CommandsAgree(nsid, logId, rae, offset + n, len);
    }
  }

  /** nvme-ioctl.c, nvme_get_log13: one command, `at` bytes into the buffer.  Only whole dwords are
      asked for, and at least one of them must be. */
  method NvmeGetLog13(ctrl: Controller, nsid: U32, logId: U8, lsp: U8, lpo: U64, lsi: U16, rae: bool,
                      dataLen: U32, data: array<Byte>, at: nat)
    returns (ret: int)
    requires 4 <= dataLen && at + dataLen <= data.Length
    modifies ctrl, data
    ensures ctrl.clock == old(ctrl.clock) + 1
    ensures ctrl.issued == old(ctrl.issued) + [GetLog14(nsid, logId, lsp, lpo, lsi, rae, 0, dataLen)]
    ensures ret == ctrl.env.status(old(ctrl.clock))
    ensures data[..] == if ret != 0 then old(data[..]) else
              Overwrite(old(data[..]), at, ctrl.env.Reply(old(ctrl.clock), lpo, DwordBytes(dataLen)))
  {
    hide GetLog14, Lpo, ByteCount, DwordBytes, Overwrite, Environment.Reply;
    CommandDecodes(nsid, logId, lsp, lpo, lsi, rae, 0, dataLen);
    ret := ctrl.Submit(GetLog14(nsid, logId, lsp, lpo, lsi, rae, 0, dataLen), data, at);
  }

  /** One more chunk in the buffer. */
  lemma ChunkAppends(env: Environment, t0: nat, t: nat, offset: nat, n: nat,
                     was: seq<Byte>, before: seq<Byte>)
    requires t0 <= t && offset == 4096 * (t - t0) && n <= 4096 && offset + n <= |was|
    requires before == env.ReadLog(t0, offset) + was[offset..]
    ensures Overwrite(before, offset, env.Reply(t, offset, n))
         == env.ReadLog(t0, offset + n) + was[offset + n..]
  {
    hide Environment.ReadLog, Environment.Reply, Environment.ByteAt;
    ReadLogExtends(env, t0, t, offset, n);
    assert before[..offset] == env.ReadLog(t0, offset);
    assert before[offset + n..] == was[offset + n..];
  }

  lemma ReadLogExtends(env: Environment, t0: nat, t: nat, offset: nat, n: nat)
    requires t0 <= t && offset == 4096 * (t - t0) && n <= 4096
    ensures env.ReadLog(t0, offset + n) == env.ReadLog(t0, offset) + env.Reply(t, offset, n)
  {
    if n > 0 {
      ReadLogExtends(env, t0, t, offset, n - 1);
      assert (offset + n - 1) / 4096 == t - t0;
    }
  }

  /** Command number `k` of a read asks for chunk `k`. */
  lemma {:induction false} CommandAt(nsid: U32, logId: U8, rae: bool, offset: nat, len: U32, k: nat)
    requires offset + 4096 * k < len
    ensures k < Chunks(len - offset, 4096)
    ensures Commands(nsid, logId, rae, offset, len)[k]
         == GetLog14(nsid, logId, 0, offset + 4096 * k, 0, rae, 0,
                     if len - offset - 4096 * k > 4096 then 4096 else len - offset - 4096 * k)
    decreases k
  {
    hide GetLog14;
    if k > 0 {
      CommandAt(nsid, logId, rae, offset + 4096, len, k - 1);
    }
  }

  /** The last piece of a read of `len` bytes holds at least one dword. */
  predicate EndsInDword(len: nat) {
    len > 0 && (len - 1) % 4096 >= 3
  }

  lemma LastOfDwords(m: nat, q: nat, r: nat)
    requires m > 0 && 4 * m - 1 == 4096 * q + r
    ensures r >= 3
  {
    assert r + 1 == 4 * (m - 1024 * q);
  }

  lemma WholeLength(len: nat)
    requires len > 0 && len % 4 == 0
    ensures EndsInDword(len) && DwordBytes(len) == len
  {
    LastOfDwords(len / 4, (len - 1) / 4096, (len - 1) % 4096);
  }

  lemma Chunked(k: nat, n: nat)
    ensures 0 < n <= 4096 ==> (4096 * k + n - 1) % 4096 == n - 1
    ensures (4096 * k + n) % 4 == n % 4
  {
    assert 4096 * k + n == 4 * (1024 * k) + n;
  }

  /** Chunk `k` asks for whole dwords: all of its bytes, or those of the read's length. */
  lemma DwordsOfChunk(len: nat, k: nat, n: nat)
    requires EndsInDword(len) && 4096 * k < len
    requires n == if len - 4096 * k > 4096 then 4096 else len - 4096 * k
    ensures 4 <= n <= 4096
    ensures 4096 * k + DwordBytes(n) == if 4096 * k + n < len then 4096 * (k + 1) else DwordBytes(len)
  {
    Chunked(k, n);
  }

  /** Round `k` of the loop: the command it sends, and where it leaves the read. */
  lemma Round(nsid: U32, logId: U8, rae: bool, len: U32, k: nat, offset: nat, n: nat)
    requires EndsInDword(len) && offset == 4096 * k < len
    requires n == if len - offset > 4096 then 4096 else len - offset
    ensures 4 <= n <= 4096
    ensures var all := Commands(nsid, logId, rae, 0, len);
      && k < |all| == Chunks(len, 4096)
      && all[k] == GetLog14(nsid, logId, 0, offset, 0, rae, 0, n)
      && (offset + n == len ==> k + 1 == |all| && offset + DwordBytes(n) == DwordBytes(len))
    ensures offset + n < len ==> n == DwordBytes(n) && offset + n == 4096 * (k + 1)
  {
    DwordsOfChunk(len, k, n);
    ChunksCover(len, 4096, k);
    ChunksCover(len, 4096, k + 1);
    CommandAt(nsid, logId, rae, 0, len, k);
    hide GetLog14, Chunks, Commands, EndsInDword;
  }

  /** A read that started with command `t0` and buffer `was`, after `k` successful commands. */
  ghost predicate ReadSoFar(env: Environment, t0: nat, was: seq<Byte>, k: nat, done: nat,
                            buffer: seq<Byte>)
  {
    && done <= |was|
    && env.Succeeds(t0, t0 + k)
    && buffer == env.ReadLog(t0, done) + was[done..]
  }

  lemma NothingRead(env: Environment, t0: nat, was: seq<Byte>)
    ensures ReadSoFar(env, t0, was, 0, 0, was)
  {
  }

  lemma ReadOneMore(env: Environment, t0: nat, was: seq<Byte>, k: nat, offset: nat, n: nat,
                    buffer: seq<Byte>)
    requires ReadSoFar(env, t0, was, k, offset, buffer)
    requires env.status(t0 + k) == 0 && offset == 4096 * k && n <= 4096 && offset + n <= |was|
    ensures |buffer| == |was|
    ensures ReadSoFar(env, t0, was, k + 1, offset + n,
                      Overwrite(buffer, offset, env.Reply(t0 + k, offset, n)))
  {
    ChunkAppends(env, t0, t0 + k, offset, n, was, buffer);
    hide Environment.ReadLog, Environment.Reply, Overwrite;
  }

  /** The first `k` commands of `all` have been sent, behind those of `before`. */
  ghost predicate Sent(before: seq<AdminCmd>, all: seq<AdminCmd>, k: nat, issued: seq<AdminCmd>) {
    k <= |all| && issued == before + all[..k]
  }

  lemma SentOneMore(before: seq<AdminCmd>, all: seq<AdminCmd>, k: nat, issued: seq<AdminCmd>, cmd: AdminCmd)
    requires Sent(before, all, k, issued) && k < |all| && all[k] == cmd
    ensures Sent(before, all, k + 1, issued + [cmd])
  {
  }

  lemma SentNone(before: seq<AdminCmd>, all: seq<AdminCmd>)
    ensures Sent(before, all, 0, before)
  {
  }

  lemma SentIs(before: seq<AdminCmd>, all: seq<AdminCmd>, k: nat, issued: seq<AdminCmd>)
    requires Sent(before, all, k, issued)
    ensures k <= |all| && issued == before + all[..k]
  {
  }

  /** One round of nvme_get_log's loop, the `k`th since command `t0`. */
  method ReadChunk(ctrl: Controller, nsid: U32, logId: U8, rae: bool, dataLen: U32, data: array<Byte>,
                   offset: U32, ghost t0: nat, ghost was: seq<Byte>, ghost issued0: seq<AdminCmd>,
                   ghost k: nat)
    returns (ret: int, next: U32)
    requires EndsInDword(dataLen) && dataLen <= data.Length == |was|
    requires offset == 4096 * k < dataLen && ctrl.clock == t0 + k
    requires ReadSoFar(ctrl.env, t0, was, k, offset, data[..])
    requires Sent(issued0, Commands(nsid, logId, rae, 0, dataLen), k, ctrl.issued)
    modifies ctrl, data
    ensures ctrl.clock == t0 + k + 1 && ret == ctrl.env.status(t0 + k)
    ensures Sent(issued0, Commands(nsid, logId, rae, 0, dataLen), k + 1, ctrl.issued)
    ensures next < dataLen ==> next == 4096 * (k + 1)
    ensures next >= dataLen ==> next == dataLen && k + 1 == Chunks(dataLen, 4096)
    ensures ReadSoFar(ctrl.env, t0, was, if ret == 0 then k + 1 else k,
                      if ret != 0 then offset else if next < dataLen then next else DwordBytes(dataLen),
                      data[..])
  {
    hide *;
    var xferLen := dataLen - offset;
    if xferLen > 4096 {
      xferLen := 4096;
    }
    next := offset + xferLen;
    Round(nsid, logId, rae, dataLen, k, offset, xferLen);
    SentOneMore(issued0, Commands(nsid, logId, rae, 0, dataLen), k, ctrl.issued,
                GetLog14(nsid, logId, 0, offset, 0, rae, 0, xferLen));
    ghost var before := data[..];
    ret := NvmeGetLog13(ctrl, nsid, logId, 0, offset, 0, rae, xferLen, data, offset);
    if ret == 0 {
      ReadOneMore(ctrl.env, t0, was, k, offset, DwordBytes(xferLen), before);
    }
  }

  /** nvme-ioctl.c, nvme_get_log.  A read fills its buffer up to the last whole dword.  A last piece
      without a dword asks the controller for 16 GiB, and is excluded. */
  method NvmeGetLog(ctrl: Controller, nsid: U32, logId: U8, rae: bool, dataLen: U32,
                    data: array<Byte>)
    returns (ret: int)
    requires EndsInDword(dataLen) && dataLen <= data.Length
    modifies ctrl, data
    ensures old(ctrl.clock) < ctrl.clock <= old(ctrl.clock) + Chunks(dataLen, 4096)
    ensures ctrl.env.Succeeds(old(ctrl.clock), if ret == 0 then ctrl.clock else ctrl.clock - 1)
    ensures ret == ctrl.env.status(ctrl.clock - 1)
    ensures ret == 0 ==> ctrl.clock == old(ctrl.clock) + Chunks(dataLen, 4096)
    ensures var done := if ret == 0 then DwordBytes(dataLen) else 4096 * (ctrl.clock - 1 - old(ctrl.clock));
      && (ret != 0 ==> done < dataLen)
      && data[..] == ctrl.env.ReadLog(old(ctrl.clock), done) + old(data[..])[done..]
    ensures ctrl.issued == old(ctrl.issued)
              + Commands(nsid, logId, rae, 0, dataLen)[..ctrl.clock - old(ctrl.clock)]
  {
    hide *;
    ghost var t0, was, issued0, k := ctrl.clock, data[..], ctrl.issued, 0;
    ghost var all := Commands(nsid, logId, rae, 0, dataLen);
    var offset, more := 0, true;
    NothingRead(ctrl.env, t0, was);
    SentNone(issued0, all);
    NotEmpty(dataLen);
    while more
      invariant if more then offset == 4096 * k < dataLen
                else offset == dataLen && k == Chunks(dataLen, 4096) && ctrl.env.status(t0 + k - 1) == 0
      invariant ctrl.clock == t0 + k
      invariant ReadSoFar(ctrl.env, t0, was, k, if more then offset else DwordBytes(dataLen), data[..])
      invariant Sent(issued0, all, k, ctrl.issued)
      decreases dataLen - offset
    {
      var next;
      ret, next := ReadChunk(ctrl, nsid, logId, rae, dataLen, data, offset, t0, was, issued0, k);
      if ret != 0 {
        ReadIs(ctrl.env, t0, was, k, offset, data[..]);
        SentIs(issued0, all, k + 1, ctrl.issued);
        return;
      }
      offset, k := next, k + 1;
      more := offset < dataLen;
    }
    ReadIs(ctrl.env, t0, was, k, DwordBytes(dataLen), data[..]);
    SentIs(issued0, all, k, ctrl.issued);
    ret := 0;
  }

  lemma ReadIs(env: Environment, t0: nat, was: seq<Byte>, k: nat, done: nat, buffer: seq<Byte>)
    requires ReadSoFar(env, t0, was, k, done, buffer)
    ensures done <= |was| && env.Succeeds(t0, t0 + k)
    ensures buffer == env.ReadLog(t0, done) + was[done..]
  {
  }

  lemma NotEmpty(len: nat)
    requires EndsInDword(len)
    ensures len >= 4 && Chunks(len, 4096) > 0
  {
  }

  // ----- a log that does not change -----

  ghost predicate Unchanging(env: Environment, from: nat, to: nat, log: seq<Byte>) {
    forall t | from <= t < to :: env.content(t) == log
  }

  /** When the log stays the same during the read, the pieces put together are one large read. */
  lemma ReadOfUnchangingLog(env: Environment, t: nat, len: nat, log: seq<Byte>)
    requires Unchanging(env, t, t + Chunks(len, 4096), log) && len <= |log|
    ensures env.ReadLog(t, len) == log[..len]
  {
    hide Chunks, Environment.ReadLog;
    forall i | 0 <= i < len
      ensures env.ReadLog(t, len)[i] == log[i]
    {
      env.ReadLogAt(t, len, i);
      ChunksCover(len, 4096, i / 4096);
      assert env.content(t + i / 4096) == log;
    }
  }
}
