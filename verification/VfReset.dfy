/** The function level reset of plugins/microchip/switchtec-nvme.c: find the PCI Express capability in
    the list of capabilities in configuration space and set the reset bit of its device control.

    Nothing bounds the walk along the list.  `EndsWithin255` says that a walk ends at all exactly when
    it ends within 255 capabilities; the method that walks requires no more than that it ends.
 */
module VfReset {
  import opened Basics
  import opened Wire
  import opened Bits

  /** How a function answers reads of its configuration space, and whether it accepts a write;
      `None` is a failed read. */
  datatype Csr = Csr(read8: nat -> Option<U8>, read16: nat -> Option<U16>, write32: nat -> bool)

  datatype Walk = Found(offset: U8) | Missing | Failed | Endless

  /** The capability after the one at `offset`; `None` when the walk ends here. */
  function Follow(csr: Csr, offset: U8): Option<U8> {
    if csr.read8(offset).None? || csr.read8(offset).value == 0x10 then None
    else csr.read8(offset + 1)
  }

  /** The walk from the capability at `offset` on, along at most `fuel` capabilities. */
  function Find(csr: Csr, offset: U8, fuel: nat): Walk
    decreases fuel
  {
    if offset == 0 then Missing
    else if fuel == 0 then Endless
    else
      match Follow(csr, offset)
      case None => if csr.read8(offset) == Some(0x10) then Found(offset) else Failed
      case Some(next) => Find(csr, next, fuel - 1)
  }

  lemma {:induction false} MoreFuel(csr: Csr, offset: U8, fuel: nat, more: nat)
    requires fuel <= more && Find(csr, offset, fuel) != Endless
    ensures Find(csr, offset, more) == Find(csr, offset, fuel)
    decreases fuel
  {
    if offset != 0 && Follow(csr, offset).Some? {
      MoreFuel(csr, Follow(csr, offset).value, fuel - 1, more - 1);
    }
  }

  // ----- how long a walk can be -----

  /** The capabilities that a walk passes. */
  function Passed(csr: Csr, offset: U8, fuel: nat): seq<U8>
    decreases fuel
  {
    if offset == 0 || fuel == 0 then []
    else if Follow(csr, offset).None? then [offset]
    else [offset] + Passed(csr, Follow(csr, offset).value, fuel - 1)
  }

  /** A walk that ends needs as much fuel as it passes capabilities, and more makes no difference. */
  lemma {:induction false} FuelUsed(csr: Csr, offset: U8, fuel: nat, more: nat)
    requires fuel <= more && Find(csr, offset, fuel) != Endless
    ensures Passed(csr, offset, more) == Passed(csr, offset, fuel)
    ensures |Passed(csr, offset, fuel)| <= fuel
    ensures Find(csr, offset, |Passed(csr, offset, fuel)|) == Find(csr, offset, fuel)
    decreases fuel
  {
    if offset != 0 && Follow(csr, offset).Some? {
      FuelUsed(csr, Follow(csr, offset).value, fuel - 1, more - 1);
    }
  }

  /** From each capability that it passes, the walk goes on in the same way. */
  lemma {:induction false} RestOfWalk(csr: Csr, offset: U8, fuel: nat, j: nat)
    requires Find(csr, offset, fuel) != Endless && j < |Passed(csr, offset, fuel)|
    ensures j <= fuel
    ensures Find(csr, Passed(csr, offset, fuel)[j], fuel - j) != Endless
    ensures Passed(csr, Passed(csr, offset, fuel)[j], fuel - j) == Passed(csr, offset, fuel)[j..]
    decreases j
  {
    if j > 0 {
      RestOfWalk(csr, Follow(csr, offset).value, fuel - 1, j - 1);
    }
  }

  /** A walk that ends passes each capability at most once. */
  lemma AtMostOnce(csr: Csr, offset: U8, fuel: nat)
    requires Find(csr, offset, fuel) != Endless
    ensures var passed := Passed(csr, offset, fuel);
            forall i, j | 0 <= i < j < |passed| :: passed[i] != passed[j]
  {
    var passed := Passed(csr, offset, fuel);
    forall i, j | 0 <= i < j < |passed|
      ensures passed[i] != passed[j]
    {
      RestOfWalk(csr, offset, fuel, i);
      RestOfWalk(csr, offset, fuel, j);
      if passed[i] == passed[j] {
        FuelUsed(csr, passed[j], fuel - j, fuel - i);
      }
    }
  }

  lemma {:induction false} NoneIsZero(csr: Csr, offset: U8, fuel: nat)
    ensures 0 !in Passed(csr, offset, fuel)
    decreases fuel
  {
    if offset != 0 && fuel > 0 && Follow(csr, offset).Some? {
      NoneIsZero(csr, Follow(csr, offset).value, fuel - 1);
    }
  }

  function Offsets(n: nat): (s: set<U8>)
    requires n <= 256
    ensures |s| == if n == 0 then 0 else n - 1
    ensures forall x: U8 :: x in s <==> 0 < x < n
  {
    if n <= 1 then {} else Offsets(n - 1) + {n - 1}
  }

  /** Different members of a set are no more than its size. */
  lemma {:induction false} DistinctAreFew(xs: seq<U8>, s: set<U8>)
    requires forall i, j | 0 <= i < j < |xs| :: xs[i] != xs[j]
    requires forall x | x in xs :: x in s
    ensures |xs| <= |s|
  {
    if xs != [] {
      DistinctAreFew(xs[1..], s - {xs[0]});
      assert |s| == |s - {xs[0]}| + 1;
    }
  }

  /** The list of capabilities comes to an end. */
  ghost predicate Ends(csr: Csr, offset: U8) {
    exists fuel: nat :: Find(csr, offset, fuel) != Endless
  }

  lemma EndsWithin255(csr: Csr, offset: U8)
    ensures Ends(csr, offset) <==> Find(csr, offset, 255) != Endless
  {
    hide Offsets, Passed, Find;
    if Ends(csr, offset) {
      var fuel: nat :| Find(csr, offset, fuel) != Endless;
      AtMostOnce(csr, offset, fuel);
      NoneIsZero(csr, offset, fuel);
      DistinctAreFew(Passed(csr, offset, fuel), Offsets(256));
      FuelUsed(csr, offset, fuel, fuel);
      MoreFuel(csr, offset, |Passed(csr, offset, fuel)|, 255);
    }
  }

  // ----- where a walk goes -----

  /** Each capability of a walk is followed by the one its second byte names. */
  ghost predicate Path(csr: Csr, first: U8, path: seq<U8>) {
    && (path == [] <==> first == 0)
    && (path != [] ==> path[0] == first)
    && (forall k | 0 <= k < |path| :: path[k] != 0)
    && forall k | 0 <= k < |path| - 1 ::
         && csr.read8(path[k]).Some? && csr.read8(path[k]).value != 0x10
         && csr.read8(path[k] as int + 1) == Some(path[k + 1])
  }

  /** The outcome of a walk that ends, by the last capability on its path: the PCI Express capability, one
      without a follower, or a read that fails. */
  lemma {:induction false} WalkIs(csr: Csr, first: U8, fuel: nat) returns (path: seq<U8>)
    requires Find(csr, first, fuel) != Endless
    ensures Path(csr, first, path) && |path| <= fuel
    ensures path == [] ==> Find(csr, first, fuel) == Missing
    ensures path != [] ==>
      var last := path[|path| - 1];
      Find(csr, first, fuel) ==
        if csr.read8(last) == Some(0x10) then Found(last)
        else if csr.read8(last).Some? && csr.read8(last as int + 1) == Some(0) then Missing
        else Failed
    ensures path != [] ==>
      var last := path[|path| - 1];
      csr.read8(last).None? || csr.read8(last).value == 0x10
      || csr.read8(last as int + 1).None? || csr.read8(last as int + 1).value == 0
    decreases fuel
  {
    if first == 0 {
      path := [];
    } else if Follow(csr, first).None? {
      path := [first];
    } else {
      path := WalkIs(csr, Follow(csr, first).value, fuel - 1);
      path := [first] + path;
    }
  }

  // ----- the reset -----

  class VirtualFunction {
    const csr: Csr
    /** The writes made, each an address and a 32-bit word. */
    var written: seq<(nat, U32)>

    constructor (csr: Csr)
      ensures this.csr == csr && written == []
    {
      this.csr, written := csr, [];
    }

    method CsrWrite32(word: U32, offset: nat) returns (ok: bool)
      modifies this
      ensures ok == csr.write32(offset)
      ensures written == if ok then old(written) + [(offset, word)] else old(written)
    {
      ok := csr.write32(offset);
      if ok {
        written := written + [(offset, word)];
      }
    }
  }

  /** offset & 0xfc */
  function Aligned(offset: U8): U8 { offset - offset % 4 }

  /** flags | 0x8000 */
  function WithReset(flags: U16): U16 { if flags < 0x8000 then flags + 0x8000 else flags }

  /** The address of a capability loses its two low bits. */
  lemma AlignedBits(offset: U8, i: nat)
    ensures Bit(Aligned(offset), i) <==> i >= 2 && Bit(offset, i)
  {
    var x: nat := offset as nat;
    ShlFour(Shr(x, 2));
    assert Shr(x, 2) == x / 2 / 2 by { assert Shr(x / 2, 1) == Shr(x / 2 / 2, 0); }
    QuartersOf(x);
    BitOfShl(Shr(x, 2), 2, i);
    if i >= 2 {
      BitOfShr(x, 2, i - 2);
    }
  }

  lemma QuartersOf(x: nat)
    ensures 4 * (x / 2 / 2) == x - x % 4
  {
    var h, q := x / 2, x / 2 / 2;
    assert x == 2 * h + x % 2 && h == 2 * q + h % 2;
    Remainder(x, q, 2 * (h % 2) + x % 2);
  }

  lemma Remainder(x: nat, q: nat, r: nat)
    requires x == 4 * q + r && r < 4
    ensures x % 4 == r
  {
  }

  /** Writing the flags back sets bit 15, the function level reset, and no other. */
  lemma ResetBits(flags: U16, i: nat)
    ensures Bit(WithReset(flags), i) <==> i == 15 || Bit(flags, i)
  {
    hide Bit, Shl, Or, Shr, Low;
    var x: nat := flags as nat;
    ShlIsProduct(1);
    if x < 0x8000 {
      OrOfDisjoint(x, 1, 15);
      BitOfOr(x, Shl(1, 15), i);
      BitOfPower(15, i);
    } else {
      LowAndRest(x, 15);
      ShlIsProduct(Shr(x, 15));
      BitOfShr(x, 15, 0);
      assert Shr(x, 15) == 1;
      LowestOfOne();
    }
  }

  lemma LowestOfOne()
    ensures Bit(1, 0)
  {
  }

  /** The loop of switchtec_vf_reset, from the first capability on. `ok` is false after a failed read;
      offset 0 means that the list has no PCI Express capability. */
  method FindCapability(vf: VirtualFunction, first: U8) returns (ok: bool, offset: U8)
    requires Ends(vf.csr, first)
    ensures match Find(vf.csr, first, 255)
            case Found(at) => ok && offset == at != 0
            case Missing => ok && offset == 0
            case Failed => !ok
            case Endless => false
  {
    EndsWithin255(vf.csr, first);
    ghost var fuel: nat := 255;
    offset := first;
    while offset != 0
      invariant Find(vf.csr, offset, fuel) == Find(vf.csr, first, 255) != Endless
      decreases fuel
    {
      var capId := vf.csr.read8(offset);
      if capId.None? {
        return false, offset;
      }
      if capId.value == 0x10 {
        break;
      }
      var next := vf.csr.read8(offset + 1);
      if next.None? {
        return false, offset;
      }
      offset, fuel := next.value, fuel - 1;
    }
    ok := true;
  }

  /** The part of switchtec_vf_reset behind the selection of the PAX.  A function without a PCI Express
      capability is left alone, and the result is 0 all the same.  The sum with the offset of the
      device control register stays a byte. */
  method Reset(vf: VirtualFunction) returns (ret: int)
    requires vf.csr.read8(0x34).Some? ==> Ends(vf.csr, Aligned(vf.csr.read8(0x34).value))
    modifies vf
    ensures var start := vf.csr.read8(0x34);
            if start.None? then ret != 0 && vf.written == old(vf.written) else
            match Find(vf.csr, Aligned(start.value), 255)
            case Found(at) =>
              var control := (at + 8) % 0x100;
              var flags := vf.csr.read16(control);
              if flags.Some? && vf.csr.write32(control)
              then ret == 0 && vf.written == old(vf.written) + [(control, WithReset(flags.value))]
              else ret != 0 && vf.written == old(vf.written)
            case Missing => ret == 0 && vf.written == old(vf.written)
            case _ => ret != 0 && vf.written == old(vf.written)
  {
    hide Find;
    var start := vf.csr.read8(0x34);
    if start.None? {
      return -1;
    }
    var ok, offset := FindCapability(vf, Aligned(start.value));
    if !ok {
      return -1;
    }
    if offset == 0 {
      return 0;
    }
    var control := (offset as int + 8) % 0x100;
    var flags := vf.csr.read16(control);
    if flags.None? {
      return -1;
    }
    ok := vf.CsrWrite32(WithReset(flags.value), control);
    ret := if ok then 0 else -1;
  }
}
