/** Device addresses of open-channel drives (nvme-lightnvm.h): the six coordinates of a sector packed
    into 64 bits where the layout reported by the device puts them.
 */
module OpenChannel {
  import opened Bits

  /** Where one coordinate goes: `len` bits from bit `offset` on. */
  datatype Field = Field(offset: nat, len: nat)

  /** struct nvme_nvm_addr_format */
  datatype Format = Format(blk: Field, pg: Field, sect: Field, pln: Field, lun: Field, ch: Field)
  {
    function At(k: nat): Field
      requires k < 6
    {
      match k
      case 0 => blk
      case 1 => pg
      case 2 => sect
      case 3 => pln
      case 4 => lun
      case _ => ch
    }
  }

  /** The generic view of struct ppa_addr: bit fields of 16, 16, 8, 8, 8 and 7 bits. */
  datatype Address = Address(blk: nat, pg: nat, sec: nat, pl: nat, lun: nat, ch: nat)
  {
    function At(k: nat): nat
      requires k < 6
    {
      match k
      case 0 => blk
      case 1 => pg
      case 2 => sec
      case 3 => pl
      case 4 => lun
      case _ => ch
    }
  }

  function GenericWidth(k: nat): nat
    requires k < 6
  {
    if k < 2 then 16 else if k < 5 then 8 else 7
  }

  /** A shift in 64-bit unsigned arithmetic. */
  function Shl64(x: nat, n: nat): nat { Low(Shl(x, n), 64) }

  /** generic_to_dev_addr */
  function GenericToDevAddr(ppaf: Format, r: Address): nat {
    var l := Shl64(r.blk, ppaf.blk.offset);
    var l := Or(l, Shl64(r.pg, ppaf.pg.offset));
    var l := Or(l, Shl64(r.sec, ppaf.sect.offset));
    var l := Or(l, Shl64(r.pl, ppaf.pln.offset));
    var l := Or(l, Shl64(r.lun, ppaf.lun.offset));
    Or(l, Shl64(r.ch, ppaf.ch.offset))
  }

  /** What a device reads out of a field. */
  function Extract(l: nat, f: Field): nat { Low(Shr(l, f.offset), f.len) }

  // ----- layouts -----

  ghost predicate Within64(ppaf: Format) {
    forall k: nat | k < 6 :: ppaf.At(k).offset + ppaf.At(k).len <= 64
  }

  ghost predicate Overlap(a: Field, b: Field) {
    a.offset < b.offset + b.len && b.offset < a.offset + a.len && a.len > 0 && b.len > 0
  }

  ghost predicate Disjoint(ppaf: Format) {
    forall j: nat, k: nat | j < 6 && k < 6 && j != k :: !Overlap(ppaf.At(j), ppaf.At(k))
  }

  /** Every coordinate fits its field of the layout and its generic bit field. */
  ghost predicate Fits(ppaf: Format, r: Address) {
    forall k: nat | k < 6 :: FitsBits(r.At(k), ppaf.At(k).len) && FitsBits(r.At(k), GenericWidth(k))
  }

  ghost predicate FitsBits(x: nat, len: nat) { forall i: nat | Bit(x, i) :: i < len }

  // ----- packing -----

  /** Bit `i` of the packed address comes from some coordinate whose field starts at or before it. */
  ghost predicate Contributes(ppaf: Format, r: Address, k: nat, i: nat)
    requires k < 6
  {
    i >= ppaf.At(k).offset && Bit(r.At(k), i - ppaf.At(k).offset)
  }

  lemma BitOfShl64(x: nat, n: nat, i: nat)
    ensures Bit(Shl64(x, n), i) <==> n <= i < 64 && Bit(x, i - n)
  {
    BitOfLow(Shl(x, n), 64, i);
    BitOfShl(x, n, i);
  }

  lemma BitOfPacked(ppaf: Format, r: Address, i: nat)
    ensures Bit(GenericToDevAddr(ppaf, r), i) <==>
            i < 64 && exists k: nat :: k < 6 && Contributes(ppaf, r, k, i)
  {
    hide Bit, Or, Shl64;
    var l0 := Shl64(r.blk, ppaf.blk.offset);
    var l1 := Or(l0, Shl64(r.pg, ppaf.pg.offset));
    var l2 := Or(l1, Shl64(r.sec, ppaf.sect.offset));
    var l3 := Or(l2, Shl64(r.pl, ppaf.pln.offset));
    var l4 := Or(l3, Shl64(r.lun, ppaf.lun.offset));
    BitOfShl64(r.blk, ppaf.blk.offset, i);
    BitOfShl64(r.pg, ppaf.pg.offset, i);
    BitOfShl64(r.sec, ppaf.sect.offset, i);
    BitOfShl64(r.pl, ppaf.pln.offset, i);
    BitOfShl64(r.lun, ppaf.lun.offset, i);
    BitOfShl64(r.ch, ppaf.ch.offset, i);
    BitOfOr(l0, Shl64(r.pg, ppaf.pg.offset), i);
    BitOfOr(l1, Shl64(r.sec, ppaf.sect.offset), i);
    BitOfOr(l2, Shl64(r.pl, ppaf.pln.offset), i);
    BitOfOr(l3, Shl64(r.lun, ppaf.lun.offset), i);
    BitOfOr(l4, Shl64(r.ch, ppaf.ch.offset), i);
    assert i < 64 ==> (Bit(l0, i) <==> Contributes(ppaf, r, 0, i));
    assert i < 64 ==> (Bit(Shl64(r.pg, ppaf.pg.offset), i) <==> Contributes(ppaf, r, 1, i));
    assert i < 64 ==> (Bit(Shl64(r.sec, ppaf.sect.offset), i) <==> Contributes(ppaf, r, 2, i));
    assert i < 64 ==> (Bit(Shl64(r.pl, ppaf.pln.offset), i) <==> Contributes(ppaf, r, 3, i));
    assert i < 64 ==> (Bit(Shl64(r.lun, ppaf.lun.offset), i) <==> Contributes(ppaf, r, 4, i));
    assert i < 64 ==> (Bit(Shl64(r.ch, ppaf.ch.offset), i) <==> Contributes(ppaf, r, 5, i));
    hide Contributes;
  }

  /** Every coordinate is read back from its field. */
  lemma CoordinateExtracts(ppaf: Format, r: Address, k: nat)
    requires Within64(ppaf) && Disjoint(ppaf) && Fits(ppaf, r) && k < 6
    ensures Extract(GenericToDevAddr(ppaf, r), ppaf.At(k)) == r.At(k)
  {
    hide Bit, GenericToDevAddr;
    var l, f := GenericToDevAddr(ppaf, r), ppaf.At(k);
    assert f.offset + f.len <= 64;
    forall i: nat
      ensures Bit(Extract(l, f), i) == Bit(r.At(k), i)
    {
      BitOfLow(Shr(l, f.offset), f.len, i);
      BitOfShr(l, f.offset, i);
      assert FitsBits(r.At(k), f.len);
      if i < f.len {
        BitOfPacked(ppaf, r, i + f.offset);
        OnlyOneContributes(ppaf, r, k, i + f.offset);
        assert Contributes(ppaf, r, k, i + f.offset) <==> Bit(r.At(k), i);
      }
    }
    SameBits(Extract(l, f), r.At(k));
  }

  /** The six coordinates by name, within the generic view's bit fields and the layout's. */
  lemma FieldsExtract(ppaf: Format, r: Address)
    requires Within64(ppaf) && Disjoint(ppaf)
    requires FitsBits(r.blk, 16) && FitsBits(r.pg, 16) && FitsBits(r.sec, 8)
    requires FitsBits(r.pl, 8) && FitsBits(r.lun, 8) && FitsBits(r.ch, 7)
    requires FitsBits(r.blk, ppaf.blk.len) && FitsBits(r.pg, ppaf.pg.len) && FitsBits(r.sec, ppaf.sect.len)
    requires FitsBits(r.pl, ppaf.pln.len) && FitsBits(r.lun, ppaf.lun.len) && FitsBits(r.ch, ppaf.ch.len)
    ensures var l := GenericToDevAddr(ppaf, r);
      && Extract(l, ppaf.blk) == r.blk && Extract(l, ppaf.pg) == r.pg && Extract(l, ppaf.sect) == r.sec
      && Extract(l, ppaf.pln) == r.pl && Extract(l, ppaf.lun) == r.lun && Extract(l, ppaf.ch) == r.ch
  {
    hide FitsBits, Extract, GenericToDevAddr, Within64, Disjoint;
    assert Fits(ppaf, r);
    hide Fits;
    CoordinateExtracts(ppaf, r, 0);
    CoordinateExtracts(ppaf, r, 1);
    CoordinateExtracts(ppaf, r, 2);
    CoordinateExtracts(ppaf, r, 3);
    CoordinateExtracts(ppaf, r, 4);
    CoordinateExtracts(ppaf, r, 5);
  }

  lemma OnlyOneContributes(ppaf: Format, r: Address, k: nat, i: nat)
    requires Disjoint(ppaf) && Fits(ppaf, r) && k < 6
    requires ppaf.At(k).offset <= i < ppaf.At(k).offset + ppaf.At(k).len
    ensures forall j: nat | j < 6 && Contributes(ppaf, r, j, i) :: j == k
  {
    hide Bit;
    forall j: nat | j < 6 && Contributes(ppaf, r, j, i)
      ensures j == k
    {
      assert FitsBits(r.At(j), ppaf.At(j).len);
      assert Overlap(ppaf.At(j), ppaf.At(k));
    }
  }

  ghost predicate Injective(ppaf: Format) {
    forall r, r' | Fits(ppaf, r) && Fits(ppaf, r') &&
                   GenericToDevAddr(ppaf, r) == GenericToDevAddr(ppaf, r') :: r == r'
  }

  lemma DisjointIsInjective(ppaf: Format)
    requires Within64(ppaf) && Disjoint(ppaf)
    ensures Injective(ppaf)
  {
    hide GenericToDevAddr, Disjoint, Within64, Fits, Extract;
    forall r, r' | Fits(ppaf, r) && Fits(ppaf, r') &&
                   GenericToDevAddr(ppaf, r) == GenericToDevAddr(ppaf, r')
      ensures r == r'
    {
      forall k: nat | k < 6
        ensures r.At(k) == r'.At(k)
      {
        CoordinateExtracts(ppaf, r, k);
        CoordinateExtracts(ppaf, r', k);
      }
      assert r.At(0) == r'.At(0) && r.At(1) == r'.At(1) && r.At(2) == r'.At(2);
      assert r.At(3) == r'.At(3) && r.At(4) == r'.At(4) && r.At(5) == r'.At(5);
    }
  }

  /** The address whose only set bit is bit `b` of the packed word, through coordinate `k`. */
  function OneBit(ppaf: Format, k: nat, b: nat): Address
    requires k < 6 && ppaf.At(k).offset <= b
  {
    var x := Shl(1, b - ppaf.At(k).offset);
    Address(if k == 0 then x else 0, if k == 1 then x else 0, if k == 2 then x else 0,
            if k == 3 then x else 0, if k == 4 then x else 0, if k == 5 then x else 0)
  }

  lemma OneBitFits(ppaf: Format, k: nat, b: nat)
    requires k < 6 && ppaf.At(k).offset <= b < ppaf.At(k).offset + ppaf.At(k).len
    requires ppaf.At(k).len <= GenericWidth(k)
    ensures Fits(ppaf, OneBit(ppaf, k, b))
    ensures OneBit(ppaf, k, b).At(k) != 0
  {
    hide Bit;
    var r, n := OneBit(ppaf, k, b), b - ppaf.At(k).offset;
    forall j: nat | j < 6
      ensures FitsBits(r.At(j), ppaf.At(j).len) && FitsBits(r.At(j), GenericWidth(j))
    {
      forall i: nat
        ensures Bit(r.At(j), i) <==> j == k && i == n
      {
        BitOfPower(n, i);
        BitOfZero(i);
      }
    }
    BitOfPower(n, n);
    BitOfZero(n);
  }

  lemma OneBitPacks(ppaf: Format, k: nat, b: nat, i: nat)
    requires k < 6 && ppaf.At(k).offset <= b < 64
    ensures Bit(GenericToDevAddr(ppaf, OneBit(ppaf, k, b)), i) <==> i == b
  {
    hide Bit, GenericToDevAddr;
    var r := OneBit(ppaf, k, b);
    BitOfPacked(ppaf, r, i);
    forall j: nat | j < 6
      ensures Contributes(ppaf, r, j, i) <==> j == k && i == b
    {
      if i >= ppaf.At(j).offset {
        BitOfPower(b - ppaf.At(k).offset, i - ppaf.At(j).offset);
        BitOfZero(i - ppaf.At(j).offset);
      }
    }
    assert Contributes(ppaf, r, k, i) <==> i == b;
  }

  /** The layout cut down to the bits a coordinate can reach: the smaller of its two widths. */
  function Reached(ppaf: Format): Format {
    var cut := (f: Field, k: nat) requires k < 6 =>
      if f.len < GenericWidth(k) then f else Field(f.offset, GenericWidth(k));
    Format(cut(ppaf.blk, 0), cut(ppaf.pg, 1), cut(ppaf.sect, 2), cut(ppaf.pln, 3), cut(ppaf.lun, 4),
           cut(ppaf.ch, 5))
  }

  lemma ReachedPacksAlike(ppaf: Format)
    ensures forall r :: GenericToDevAddr(Reached(ppaf), r) == GenericToDevAddr(ppaf, r)
    ensures forall r :: Fits(Reached(ppaf), r) <==> Fits(ppaf, r)
    ensures forall k: nat | k < 6 :: Reached(ppaf).At(k).len <= GenericWidth(k)
  {
    hide Or, Shl64;
    forall r
      ensures Fits(Reached(ppaf), r) <==> Fits(ppaf, r)
    {
      forall k: nat | k < 6
        ensures FitsBits(r.At(k), Reached(ppaf).At(k).len) && FitsBits(r.At(k), GenericWidth(k))
           <==> FitsBits(r.At(k), ppaf.At(k).len) && FitsBits(r.At(k), GenericWidth(k))
      {
      }
    }
  }

  lemma NarrowIffDisjoint(ppaf: Format)
    requires Within64(ppaf)
    requires forall k: nat | k < 6 :: ppaf.At(k).len <= GenericWidth(k)
    ensures Injective(ppaf) <==> Disjoint(ppaf)
  {
    if Disjoint(ppaf) {
      DisjointIsInjective(ppaf);
    } else {
      var j: nat, k: nat :| j < 6 && k < 6 && j != k && Overlap(ppaf.At(j), ppaf.At(k));
      var b := if ppaf.At(j).offset < ppaf.At(k).offset then ppaf.At(k).offset
               else ppaf.At(j).offset;
      assert ppaf.At(j).offset + ppaf.At(j).len <= 64;
      var r, r' := OneBit(ppaf, j, b), OneBit(ppaf, k, b);
      OneBitFits(ppaf, j, b);
      OneBitFits(ppaf, k, b);
      hide Bit, GenericToDevAddr, Fits;
      forall i: nat
        ensures Bit(GenericToDevAddr(ppaf, r), i) == Bit(GenericToDevAddr(ppaf, r'), i)
      {
        OneBitPacks(ppaf, j, b, i);
        OneBitPacks(ppaf, k, b, i);
      }
      SameBits(GenericToDevAddr(ppaf, r), GenericToDevAddr(ppaf, r'));
      assert r.At(j) != r'.At(j);
    }
  }

  /** Distinct sectors get distinct device addresses if and only if no two coordinates reach the same
      bit of the layout. */
  lemma InjectiveIffDisjoint(ppaf: Format)
    requires Within64(Reached(ppaf))
    ensures Injective(ppaf) <==> Disjoint(Reached(ppaf))
  {
    ReachedPacksAlike(ppaf);
    NarrowIffDisjoint(Reached(ppaf));
    hide Reached, Fits, GenericToDevAddr, Disjoint;
  }
}
