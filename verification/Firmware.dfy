/** Downloading a firmware image in pieces: the loop of nvme.c, fw_download, over the command of
    nvme-ioctl.c, nvme_fw_download, and the drive that puts the image together again.
 */
module Firmware {
  import opened Wire

  /** The command's dwords, and the bytes its data pointer gives access to. */
  datatype Download = Download(dataLen: U32, cdw10: U32, cdw11: U32, data: seq<Byte>)

  /** nvme_fw_download */
  function NvmeFwDownload(offset: U32, data: seq<Byte>): Download
    requires |data| < 0x1_0000_0000
  {
    Download(|data|, (|data| / 4 + 0x1_0000_0000 - 1) % 0x1_0000_0000, offset / 4, data)
  }

  // How a drive reads the command: section 5.12 of NVM Express 1.4.

  function ByteCount(cmd: Download): nat { 4 * (cmd.cdw10 + 1) }

  function Offset(cmd: Download): nat { 4 * cmd.cdw11 }

  /** The drive's image after the command: the bytes it asked for, as far as the host has them. */
  function Apply(image: map<nat, Byte>, cmd: Download): map<nat, Byte> {
    var n := if ByteCount(cmd) <= |cmd.data| then ByteCount(cmd) else |cmd.data|;
    Overlay(image, Offset(cmd), cmd.data[..n])
  }

  /** `bytes` written over the image from `from` on. */
  function Overlay(image: map<nat, Byte>, from: nat, bytes: seq<Byte>): map<nat, Byte>
    decreases |bytes|
  {
    if bytes == [] then image else Overlay(image[from := bytes[0]], from + 1, bytes[1..])
  }

  function ApplyAll(image: map<nat, Byte>, cmds: seq<Download>): map<nat, Byte>
    decreases |cmds|
  {
    if cmds == [] then image else ApplyAll(Apply(image, cmds[0]), cmds[1..])
  }

  /** The commands for an image: pieces of `xfer` bytes, the last one shorter; `xfer` itself never
      grows again. */
  function Transfers(fw: seq<Byte>, offset: U32, xfer: nat): seq<Download>
    requires xfer > 0 && |fw| < 0x1_0000_0000
    decreases |fw|
  {
    if fw == [] then [] else
    var n := if xfer > |fw| then |fw| else xfer;
    [NvmeFwDownload(offset, fw[..n])]
    + Transfers(fw[n..], (offset + n) % 0x1_0000_0000, n)
  }

  /** The dwords: one less than the whole dwords of the data, and the offset in dwords. */
  lemma CommandFields(offset: U32, data: seq<Byte>)
    requires 0 < |data| < 0x1_0000_0000
    ensures var cmd := NvmeFwDownload(offset, data);
      && cmd.dataLen == |data| && cmd.data == data
      && 4 * cmd.cdw11 <= offset < 4 * cmd.cdw11 + 4
      && if |data| < 4 then cmd.cdw10 == 0xffff_ffff
         else 4 * (cmd.cdw10 + 1) <= |data| < 4 * (cmd.cdw10 + 1) + 4
  {
    if |data| < 4 {
      assert (|data| / 4 + 0x1_0000_0000 - 1) % 0x1_0000_0000 == 0x1_0000_0000 - 1;
    } else {
      assert (|data| / 4 + 0x1_0000_0000 - 1) % 0x1_0000_0000 == |data| / 4 - 1;
    }
  }

  /** Command `k` sends the bytes from `at`, `k` transfer sizes on, at an offset that wraps. */
  lemma TransferAt(fw: seq<Byte>, offset: U32, xfer: nat, k: nat, at: nat)
    requires xfer > 0 && |fw| < 0x1_0000_0000 && k < |Transfers(fw, offset, xfer)|
    requires at == k * xfer
    ensures at < |fw|
    ensures Transfers(fw, offset, xfer)[k]
         == NvmeFwDownload((offset + at) % 0x1_0000_0000, fw[at..if at + xfer > |fw| then |fw| else at + xfer])
  {
    hide NvmeFwDownload, Transfers;
    PieceSent(fw, offset, xfer, k, at);
  }

  function Piece(fw: seq<Byte>, offset: nat, xfer: nat, at: nat): Download
    requires xfer > 0 && |fw| < 0x1_0000_0000 && at < |fw|
  {
    NvmeFwDownload((offset + at) % 0x1_0000_0000, fw[at..if at + xfer > |fw| then |fw| else at + xfer])
  }

  lemma {:induction false} PieceSent(fw: seq<Byte>, offset: U32, xfer: nat, k: nat, at: nat)
    requires xfer > 0 && |fw| < 0x1_0000_0000 && k < |Transfers(fw, offset, xfer)|
    requires at == k * xfer
    ensures at < |fw|
    ensures Transfers(fw, offset, xfer)[k] == Piece(fw, offset, xfer, at)
    decreases k
  {
    hide *;
    if k == 0 {
      FirstSent(fw, offset, xfer);
    } else {
      OneTransferLess(fw, offset, xfer, k);
      assert at == xfer + (k - 1) * xfer;
      PieceSent(fw[xfer..], (offset + xfer) % 0x1_0000_0000, xfer, k - 1, at - xfer);
      SamePiece(fw, offset, xfer, at);
    }
  }

  lemma FirstSent(fw: seq<Byte>, offset: U32, xfer: nat)
    requires xfer > 0 && |fw| < 0x1_0000_0000 && Transfers(fw, offset, xfer) != []
    ensures fw != [] && Transfers(fw, offset, xfer)[0] == Piece(fw, offset, xfer, 0)
  {
    hide NvmeFwDownload;
  }

  lemma SamePiece(fw: seq<Byte>, offset: nat, xfer: nat, at: nat)
    requires 0 < xfer <= at < |fw| < 0x1_0000_0000
    ensures Piece(fw[xfer..], (offset + xfer) % 0x1_0000_0000, xfer, at - xfer) == Piece(fw, offset, xfer, at)
  {
    hide NvmeFwDownload;
    SameAfterWrap(offset + xfer, at - xfer);
    SameBytes(fw, xfer, at, if at + xfer > |fw| then |fw| else at + xfer);
  }

  lemma SameBytes(fw: seq<Byte>, n: nat, at: nat, end: nat)
    requires n <= at <= end <= |fw|
    ensures fw[n..][at - n..end - n] == fw[at..end]
  {
  }

  /** The commands are enough for all bytes of the image. */
  lemma {:induction false} TransferCount(fw: seq<Byte>, offset: U32, xfer: nat)
    requires xfer > 0 && |fw| < 0x1_0000_0000
    ensures |fw| <= |Transfers(fw, offset, xfer)| * xfer
    decreases |fw|
  {
    hide *;
    if |fw| > xfer {
      var next := (offset + xfer) % 0x1_0000_0000;
      TransferCount(fw[xfer..], next, xfer);
      FirstOfMany(fw, offset, xfer);
      OneMore(|Transfers(fw[xfer..], next, xfer)|, xfer);
    } else if fw != [] {
      OneTransfer(fw, offset, xfer);
      OneMore(0, xfer);
      AtLeast(1, |Transfers(fw, offset, xfer)|, xfer);
    }
  }

  lemma FirstOfMany(fw: seq<Byte>, offset: U32, xfer: nat)
    requires 0 < xfer < |fw| < 0x1_0000_0000
    ensures |Transfers(fw, offset, xfer)| == |Transfers(fw[xfer..], (offset + xfer) % 0x1_0000_0000, xfer)| + 1
  {
    hide NvmeFwDownload;
  }

  lemma OneTransfer(fw: seq<Byte>, offset: U32, xfer: nat)
    requires xfer > 0 && 0 < |fw| < 0x1_0000_0000
    ensures |Transfers(fw, offset, xfer)| >= 1
  {
    hide NvmeFwDownload;
  }

  lemma OneMore(n: nat, xfer: nat)
    ensures (n + 1) * xfer == n * xfer + xfer
  {
  }

  lemma AtLeast(a: nat, b: nat, xfer: nat)
    requires a <= b
    ensures a * xfer <= b * xfer
  {
  }

  lemma OneTransferLess(fw: seq<Byte>, offset: U32, xfer: nat, k: nat)
    requires xfer > 0 && |fw| < 0x1_0000_0000 && 0 < k < |Transfers(fw, offset, xfer)|
    ensures xfer < |fw|
    ensures var rest := Transfers(fw[xfer..], (offset + xfer) % 0x1_0000_0000, xfer);
      k - 1 < |rest| && Transfers(fw, offset, xfer)[k] == rest[k - 1]
  {
    hide NvmeFwDownload;
    NoTransferLeft(fw, offset);
  }

  lemma NoTransferLeft(fw: seq<Byte>, offset: U32)
    requires |fw| < 0x1_0000_0000
    ensures forall xfer: nat, at: U32 | xfer > 0 :: Transfers(fw[|fw|..], at, xfer) == []
  {
  }

  lemma SameAfterWrap(a: nat, b: nat)
    ensures (a % 0x1_0000_0000 + b) % 0x1_0000_0000 == (a + b) % 0x1_0000_0000
  {
  }

  class Drive {
    const status: nat -> int
    var clock: nat
    var image: map<nat, Byte>

    constructor (status: nat -> int)
      ensures this.status == status && clock == 0 && image == map[]
    {
      this.status := status;
      clock, image := 0, map[];
    }

    method Submit(cmd: Download) returns (err: int)
      modifies this
      ensures clock == old(clock) + 1 && err == status(old(clock))
      ensures image == if err == 0 then Apply(old(image), cmd) else old(image)
    {
      err := status(clock);
      if err == 0 {
        image := Apply(image, cmd);
      }
      clock := clock + 1;
    }
  }

  lemma {:induction false} ApplyOneMore(image: map<nat, Byte>, cmds: seq<Download>, k: nat)
    requires k < |cmds|
    ensures ApplyAll(image, cmds[..k + 1]) == Apply(ApplyAll(image, cmds[..k]), cmds[k])
    decreases k
  {
    hide Apply;
    if k == 0 {
      assert cmds[..1][1..] == [] && cmds[..0] == [];
    } else {
      assert cmds[..k + 1][1..] == cmds[1..][..k] && cmds[..k][1..] == cmds[1..][..k - 1];
      ApplyOneMore(Apply(image, cmds[0]), cmds[1..], k - 1);
    }
  }

  /** The download loop.  `startDword` is the offset option, counted in dwords; shifting it drops
      its two high bits. */
  method FwDownload(drive: Drive, fw: seq<Byte>, xferLimit: U32, startDword: U32)
    returns (err: int)
    requires xferLimit > 0 && |fw| < 0x1_0000_0000
    modifies drive
    ensures var cmds := Transfers(fw, 4 * startDword % 0x1_0000_0000, xferLimit);
      var done := drive.clock - old(drive.clock);
      && 0 <= done <= |cmds|
      && (err == 0 ==> done == |cmds| && drive.image == ApplyAll(old(drive.image), cmds))
      && (err != 0 ==> done > 0 && err == drive.status(drive.clock - 1)
                       && drive.image == ApplyAll(old(drive.image), cmds[..done - 1]))
    ensures forall t | old(drive.clock) <= t < drive.clock - 1 :: drive.status(t) == 0
  {
    hide NvmeFwDownload, Apply, ApplyAll;
    var xfer, fwBuf := xferLimit as nat, fw;
    var offset: U32 := 4 * startDword % 0x1_0000_0000;
    ghost var cmds, k := Transfers(fw, offset, xfer), 0;
    ghost var t0, image0 := drive.clock, drive.image;
    NothingApplied(image0, cmds);
    err := 0;
    while |fwBuf| > 0
      invariant 0 < xfer && |fwBuf| < 0x1_0000_0000
      invariant k <= |cmds| && cmds[k..] == Transfers(fwBuf, offset, xfer)
      invariant err == 0 && drive.clock == t0 + k
      invariant drive.image == ApplyAll(image0, cmds[..k])
      invariant forall t | t0 <= t < drive.clock :: drive.status(t) == 0
      decreases |fwBuf|
    {
      if xfer > |fwBuf| {
        xfer := |fwBuf|;
      }
      var cmd := NvmeFwDownload(offset, fwBuf[..xfer]);
      assert cmds[k..][0] == cmds[k] == cmd && cmds[k + 1..] == cmds[k..][1..];
      ApplyOneMore(image0, cmds, k);
      err := drive.Submit(cmd);
      if err != 0 {
        return;
      }
      fwBuf := fwBuf[xfer..];
      offset := (offset + xfer) % 0x1_0000_0000;
      k := k + 1;
    }
    assert cmds[..k] == cmds;
  }

  lemma NothingApplied(image: map<nat, Byte>, cmds: seq<Download>)
    ensures ApplyAll(image, cmds[..0]) == image && cmds[0..] == cmds
  {
  }

  // ----- when the image arrives -----

  /** The byte ranges the commands name cover `from` to `to` in order, with no gap or overlap. */
  ghost predicate Tile(cmds: seq<Download>, from: nat, to: nat) {
    if cmds == [] then
      from == to
    else
      && Offset(cmds[0]) == from
      && from + ByteCount(cmds[0]) <= to
      && Tile(cmds[1..], from + ByteCount(cmds[0]), to)
  }

  lemma CommandCounts(offset: U32, data: seq<Byte>)
    requires 0 < |data| < 0x1_0000_0000
    ensures var cmd := NvmeFwDownload(offset, data);
      && Offset(cmd) == 4 * (offset / 4)
      && (|data| % 4 == 0 ==> ByteCount(cmd) == |data|)
      && (|data| % 4 != 0 ==> if |data| < 4 then ByteCount(cmd) == 0x4_0000_0000 else ByteCount(cmd) < |data|)
  {
    if |data| < 4 {
      assert (|data| / 4 + 0x1_0000_0000 - 1) % 0x1_0000_0000 == 0x1_0000_0000 - 1;
    } else {
      assert (|data| / 4 + 0x1_0000_0000 - 1) % 0x1_0000_0000 == |data| / 4 - 1;
    }
  }

  /** A download that goes in whole dwords and stays within 32-bit offsets. */
  ghost predicate WholeDwords(fw: seq<Byte>, offset: U32, xfer: nat) {
    && xfer > 0 && |fw| % 4 == 0 && |fw| < 0x1_0000_0000
    && offset % 4 == 0 && offset + |fw| <= 0x1_0000_0000
    && (xfer % 4 == 0 || xfer >= |fw|)
  }

  /** The first piece of such a download, and the download of the rest. */
  lemma FirstPiece(fw: seq<Byte>, offset: U32, xfer: nat) returns (n: nat)
    requires WholeDwords(fw, offset, xfer) && fw != []
    ensures 0 < n <= |fw| && n == (if xfer > |fw| then |fw| else xfer) && n % 4 == 0
    ensures n < |fw| ==> offset + n < 0x1_0000_0000 && WholeDwords(fw[n..], offset + n, n)
    ensures Transfers(fw, offset, xfer) == [NvmeFwDownload(offset, fw[..n])]
                                           + (if n == |fw| then [] else Transfers(fw[n..], offset + n, n))
  {
    hide NvmeFwDownload;
    n := if xfer > |fw| then |fw| else xfer;
    if n < |fw| {
      assert (offset + n) % 0x1_0000_0000 == offset + n;
    } else {
      assert fw[n..] == [];
    }
  }

  lemma {:induction false} WholePiecesTile(fw: seq<Byte>, offset: U32, xfer: nat)
    requires WholeDwords(fw, offset, xfer)
    ensures Tile(Transfers(fw, offset, xfer), offset, offset + |fw|)
    decreases |fw|
  {
    hide NvmeFwDownload, ByteCount, Offset;
    if fw != [] {
      var n := FirstPiece(fw, offset, xfer);
      DecodesBack(offset, fw[..n]);
      if n < |fw| {
        hide Transfers, WholeDwords;
        WholePiecesTile(fw[n..], offset + n, n);
      }
    }
  }

  lemma DecodesBack(offset: U32, data: seq<Byte>)
    requires 0 < |data| < 0x1_0000_0000 && |data| % 4 == 0 && offset % 4 == 0
    ensures var cmd := NvmeFwDownload(offset, data);
      Offset(cmd) == offset && ByteCount(cmd) == |data| && cmd.data == data
  {
    CommandCounts(offset, data);
  }

  /** Ranges that tile are no longer than the data sent, and shorter when the first piece is not a
      whole number of dwords. */
  lemma {:induction false} TileNeedsData(fw: seq<Byte>, offset: U32, xfer: nat, from: nat, to: nat)
    requires 0 < xfer && |fw| < 0x1_0000_0000 && from <= to < from + 0x4_0000_0000
    requires Tile(Transfers(fw, offset, xfer), from, to)
    ensures to - from <= |fw|
    ensures xfer < |fw| && xfer % 4 != 0 ==> to - from < |fw|
    decreases |fw|
  {
    hide NvmeFwDownload, ByteCount, Offset;
    if fw != [] {
      var n := if xfer > |fw| then |fw| else xfer;
      var cmd := NvmeFwDownload(offset, fw[..n]);
      CommandCounts(offset, fw[..n]);
      TileNeedsData(fw[n..], (offset + n) % 0x1_0000_0000, n, from + ByteCount(cmd), to);
    }
  }

  /** The commands decode to exactly the image's range if and only if the transfer size is a whole
      number of dwords or the image goes in one piece. */
  lemma TilesIffWholeDwords(fw: seq<Byte>, offset: U32, xfer: nat)
    requires xfer > 0 && |fw| % 4 == 0 && |fw| < 0x1_0000_0000
    requires offset % 4 == 0 && offset + |fw| <= 0x1_0000_0000
    ensures Tile(Transfers(fw, offset, xfer), offset, offset + |fw|)
       <==> xfer % 4 == 0 || xfer >= |fw|
  {
    if xfer % 4 == 0 || xfer >= |fw| {
      WholePiecesTile(fw, offset, xfer);
    } else if Tile(Transfers(fw, offset, xfer), offset, offset + |fw|) {
      TileNeedsData(fw, offset, xfer, offset, offset + |fw|);
    }
  }

  // ----- the image on the drive -----

  lemma {:induction false} OverlayTwice(image: map<nat, Byte>, from: nat, a: seq<Byte>, b: seq<Byte>)
    ensures Overlay(Overlay(image, from, a), from + |a|, b) == Overlay(image, from, a + b)
    decreases |a|
  {
    if a == [] {
      assert a + b == b;
    } else {
      assert (a + b)[1..] == a[1..] + b;
      OverlayTwice(image[from := a[0]], from + 1, a[1..], b);
    }
  }

  /** Overlaying changes exactly the positions of the bytes. */
  lemma {:induction false} OverlayAt(image: map<nat, Byte>, from: nat, bytes: seq<Byte>, i: nat)
    ensures var after := Overlay(image, from, bytes);
      if from <= i < from + |bytes| then i in after && after[i] == bytes[i - from]
      else (i in after <==> i in image) && (i in image ==> after[i] == image[i])
    decreases |bytes|
  {
    if bytes != [] {
      OverlayAt(image[from := bytes[0]], from + 1, bytes[1..], i);
    }
  }

  /** How many bytes the first `k` pieces of an image of `size` bytes hold. */
  function Sent(size: nat, xfer: nat, k: nat): (n: nat)
    requires xfer > 0
    ensures n <= size
    decreases k
  {
    if k == 0 || size == 0 then 0 else
    var n := if xfer > size then size else xfer;
    n + Sent(size - n, n, k - 1)
  }

  lemma {:induction false} SentIsProduct(size: nat, xfer: nat, k: nat)
    requires xfer > 0
    ensures Sent(size, xfer, k) == if k * xfer < size then k * xfer else size
    decreases k
  {
    if k > 0 && size > 0 {
      assert k * xfer == xfer + (k - 1) * xfer;
      if xfer < size {
        SentIsProduct(size - xfer, xfer, k - 1);
      }
    }
  }

  /** After `k` commands the drive holds the first `k` pieces of the image over what it held before;
      all of them make up the whole image. */
  lemma {:induction false} PrefixArrives(image: map<nat, Byte>, fw: seq<Byte>, offset: U32,
                                         xfer: nat, k: nat)
    requires WholeDwords(fw, offset, xfer) && k <= |Transfers(fw, offset, xfer)|
    ensures ApplyAll(image, Transfers(fw, offset, xfer)[..k])
         == Overlay(image, offset, fw[..Sent(|fw|, xfer, k)])
    ensures k == |Transfers(fw, offset, xfer)| ==> Sent(|fw|, xfer, k) == |fw|
    decreases k
  {
    hide NvmeFwDownload, Overlay, Apply, Transfers;
    var cmds := Transfers(fw, offset, xfer);
    NoTransfer(offset, xfer);
    if k == 0 {
      NothingOverlaid(image, offset, fw);
    }
    if fw != [] {
      var n := FirstPiece(fw, offset, xfer);
      hide WholeDwords;
      if k == 0 {
        return;
      }
      var cmd, rest := NvmeFwDownload(offset, fw[..n]), fw[n..];
      PieceArrives(image, offset, fw[..n]);
      assert cmds[..k][0] == cmd && cmds[..k][1..] == cmds[1..][..k - 1];
      if n == |fw| {
        assert cmds[1..][..k - 1] == [];
      } else {
        PrefixArrives(Apply(image, cmd), rest, offset + n, n, k - 1);
        var m := Sent(|rest|, n, k - 1);
        OverlayTwice(image, offset, fw[..n], rest[..m]);
        assert fw[..n] + rest[..m] == fw[..n + m];
      }
    }
  }

  lemma NoTransfer(offset: U32, xfer: nat)
    requires xfer > 0
    ensures Transfers([], offset, xfer) == []
  {
  }

  lemma PieceArrives(image: map<nat, Byte>, offset: U32, data: seq<Byte>)
    requires 0 < |data| < 0x1_0000_0000 && |data| % 4 == 0 && offset % 4 == 0
    ensures Apply(image, NvmeFwDownload(offset, data)) == Overlay(image, offset, data)
  {
    hide Overlay;
    DecodesBack(offset, data);
    assert data[..|data|] == data;
  }

  lemma NothingOverlaid(image: map<nat, Byte>, offset: nat, fw: seq<Byte>)
    ensures Overlay(image, offset, fw[..0]) == image
  {
  }

  /** A successful download leaves the image, byte for byte, at four times the starting dword. */
  lemma WholeImageArrives(image: map<nat, Byte>, fw: seq<Byte>, offset: U32, xfer: nat)
    requires WholeDwords(fw, offset, xfer)
    ensures ApplyAll(image, Transfers(fw, offset, xfer)) == Overlay(image, offset, fw)
  {
    hide Transfers, ApplyAll, Overlay;
    var cmds := Transfers(fw, offset, xfer);
    PrefixArrives(image, fw, offset, xfer, |cmds|);
    assert cmds[..|cmds|] == cmds && fw[..|fw|] == fw;
  }

  // ----- holes -----

  /** The bytes a drive takes from the commands, counted once for each command that brings them. */
  function Taken(cmds: seq<Download>): nat {
    if cmds == [] then 0 else
    (if ByteCount(cmds[0]) <= |cmds[0].data| then ByteCount(cmds[0]) else |cmds[0].data|) + Taken(cmds[1..])
  }

  lemma {:induction false} OverlaySize(image: map<nat, Byte>, from: nat, bytes: seq<Byte>)
    ensures |Overlay(image, from, bytes).Keys| <= |image.Keys| + |bytes|
    decreases |bytes|
  {
    if bytes != [] {
      var next := image[from := bytes[0]];
      assert next.Keys == image.Keys + {from};
      OverlaySize(next, from + 1, bytes[1..]);
    }
  }

  /** No more places are written than bytes are taken. */
  lemma {:induction false} ImageSize(image: map<nat, Byte>, cmds: seq<Download>)
    ensures |ApplyAll(image, cmds).Keys| <= |image.Keys| + Taken(cmds)
    decreases |cmds|
  {
    hide Overlay, ByteCount, Offset;
    if cmds != [] {
      var n := if ByteCount(cmds[0]) <= |cmds[0].data| then ByteCount(cmds[0]) else |cmds[0].data|;
      OverlaySize(image, Offset(cmds[0]), cmds[0].data[..n]);
      ImageSize(Apply(image, cmds[0]), cmds[1..]);
    }
  }

  lemma DataIs(offset: U32, data: seq<Byte>)
    requires |data| < 0x1_0000_0000
    ensures NvmeFwDownload(offset, data).data == data
  {
  }

  /** A transfer size of four bytes or more that is not whole dwords loses bytes. */
  lemma {:induction false} BytesAreLost(fw: seq<Byte>, offset: U32, xfer: nat)
    requires xfer > 0 && |fw| < 0x1_0000_0000
    ensures Taken(Transfers(fw, offset, xfer)) <= |fw|
    ensures 4 <= xfer < |fw| && xfer % 4 != 0 ==> Taken(Transfers(fw, offset, xfer)) < |fw|
    decreases |fw|
  {
    if fw != [] {
      var n := if xfer > |fw| then |fw| else xfer;
      CommandCounts(offset, fw[..n]);
      DataIs(offset, fw[..n]);
      hide NvmeFwDownload, ByteCount;
      BytesAreLost(fw[n..], (offset + n) % 0x1_0000_0000, n);
      assert Transfers(fw, offset, xfer)[1..] == Transfers(fw[n..], (offset + n) % 0x1_0000_0000, n);
    }
  }

  /** A transfer size below four bytes never writes the last byte of a dword. */
  lemma {:induction false} LastByteIsLost(image: map<nat, Byte>, fw: seq<Byte>, offset: U32, xfer: nat, i: nat)
    requires 0 < xfer < 4 && |fw| < 0x1_0000_0000
    requires i % 4 == 3 && i !in image
    ensures i !in ApplyAll(image, Transfers(fw, offset, xfer))
    decreases |fw|
  {
    hide Overlay;
    if fw != [] {
      var n := if xfer > |fw| then |fw| else xfer;
      var cmd := NvmeFwDownload(offset, fw[..n]);
      CommandCounts(offset, fw[..n]);
      OverlayAt(image, 4 * (offset / 4), fw[..n], i);
      assert fw[..n][..n] == fw[..n];
      hide NvmeFwDownload, ByteCount, Offset;
      LastByteIsLost(Apply(image, cmd), fw[n..], (offset + n) % 0x1_0000_0000, n, i);
      assert Transfers(fw, offset, xfer)[1..] == Transfers(fw[n..], (offset + n) % 0x1_0000_0000, n);
    }
  }

  function Range(from: nat, n: nat): (s: set<nat>)
    ensures |s| == n
    ensures forall i :: i in s <==> from <= i < from + n
  {
    if n == 0 then {} else Range(from, n - 1) + {from + n - 1}
  }

  lemma SubsetIsSmaller(a: set<nat>, b: set<nat>)
    requires a <= b
    ensures |a| <= |b|
    decreases a
  {
    if a != {} {
      var x :| x in a;
      SubsetIsSmaller(a - {x}, b - {x});
    }
  }

  /** Every place of the image is written if and only if the transfer size is a whole number of dwords
      or the image goes in one piece; any other size leaves holes. */
  lemma NoHolesIffWholeDwords(fw: seq<Byte>, offset: U32, xfer: nat)
    requires xfer > 0 && |fw| % 4 == 0 && |fw| < 0x1_0000_0000
    requires offset % 4 == 0 && offset + |fw| <= 0x1_0000_0000
    ensures (forall i: nat | offset <= i < offset + |fw| :: i in ApplyAll(map[], Transfers(fw, offset, xfer)))
       <==> xfer % 4 == 0 || xfer >= |fw|
  {
    hide Transfers, ApplyAll, Overlay;
    var image := ApplyAll(map[], Transfers(fw, offset, xfer));
    if xfer % 4 == 0 || xfer >= |fw| {
      WholeImageArrives(map[], fw, offset, xfer);
      forall i: nat | offset <= i < offset + |fw|
        ensures i in image
      {
        OverlayAt(map[], offset, fw, i);
      }
    } else if xfer < 4 {
      LastByteIsLost(map[], fw, offset, xfer, offset + 3);
    } else {
      BytesAreLost(fw, offset, xfer);
      ImageSize(map[], Transfers(fw, offset, xfer));
      if forall i: nat | offset <= i < offset + |fw| :: i in image {
        SubsetIsSmaller(Range(offset, |fw|), image.Keys);
      }
    }
  }
}
