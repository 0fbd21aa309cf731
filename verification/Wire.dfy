/** Bytes, the C integer widths the commands use, and little-endian fields. */
module Wire {

  type Byte = x: int | 0 <= x < 256
  type U8 = x: int | 0 <= x < 256
  type U16 = x: int | 0 <= x < 0x1_0000
  type U32 = x: int | 0 <= x < 0x1_0000_0000
  type U64 = x: int | 0 <= x < 0x1_0000_0000_0000_0000

  /** A number converted to an unsigned 64-bit type. */
  function ToU64(n: int): U64 { n % 0x1_0000_0000_0000_0000 }

  /** A number converted to a signed 32-bit type. */
  function ToInt(n: int): int {
    var low := n % 0x1_0000_0000;
    if low < 0x8000_0000 then low else low - 0x1_0000_0000
  }

  /** 256 to the power `width`: the number of values a field of `width` bytes holds. */
  function Span(width: nat): (r: nat)
    ensures r > 0
  {
    if width == 0 then 1 else 256 * Span(width - 1)
  }

  /** The low `width` bytes of `n`, least significant first. */
  function ToLE(n: nat, width: nat): (bytes: seq<Byte>)
    ensures |bytes| == width
  {
    if width == 0 then [] else [n % 256] + ToLE(n / 256, width - 1)
  }

  function FromLE(bytes: seq<Byte>): nat {
    if bytes == [] then 0 else bytes[0] + 256 * FromLE(bytes[1..])
  }

  /** A number that fits its field is read back unchanged. */
  lemma {:induction false} FromToLE(n: nat, width: nat)
    requires n < Span(width)
    ensures FromLE(ToLE(n, width)) == n
  {
    if width > 0 {
      FromToLE(n / 256, width - 1);
      assert ToLE(n, width)[1..] == ToLE(n / 256, width - 1);
    }
  }

  lemma Spans()
    ensures Span(2) == 0x1_0000
    ensures Span(4) == 0x1_0000_0000
    ensures Span(8) == 0x1_0000_0000_0000_0000
  {
    assert Span(2) == 256 * Span(1) == 256 * 256;
    assert Span(4) == 256 * Span(3) == 256 * 256 * Span(2);
    assert Span(6) == 256 * Span(5) == 256 * 256 * Span(4);
    assert Span(8) == 256 * Span(7) == 256 * 256 * Span(6);
  }

  /** Fields of two, four and eight bytes, written out: the first byte is the least significant. */
  lemma LittleEndian(b: seq<Byte>)
    ensures |b| == 2 ==> FromLE(b) == b[0] + 0x100 * (b[1] as int)
    ensures |b| == 4 ==> FromLE(b) == b[0] + 0x100 * (b[1] as int) + 0x1_0000 * (b[2] as int) + 0x100_0000 * (b[3] as int)
    ensures |b| == 8 ==> FromLE(b) == FromLE(b[0..4]) + 0x1_0000_0000 * FromLE(b[4..8])
  {
    if |b| == 2 {
      TwoBytes(b);
    } else if |b| == 4 {
      FourBytes(b);
    } else if |b| == 8 {
      FourBytes(b[0..4]);
      BehindFour(b);
    }
  }

  lemma TwoBytes(b: seq<Byte>)
    requires |b| >= 2
    ensures FromLE(b) == b[0] + 0x100 * (b[1] as int) + 0x1_0000 * FromLE(b[2..])
  {
    assert b[1..][0] == b[1] && b[1..][1..] == b[2..];
    assert FromLE(b[1..]) == b[1] + 256 * FromLE(b[2..]);
  }

  lemma FourBytes(b: seq<Byte>)
    requires |b| == 4
    ensures FromLE(b) == b[0] + 0x100 * (b[1] as int) + 0x1_0000 * (b[2] as int) + 0x100_0000 * (b[3] as int)
  {
    TwoBytes(b);
    TwoBytes(b[2..]);
    assert b[2..][2..] == [];
  }

  lemma BehindFour(b: seq<Byte>)
    requires |b| == 8
    ensures FromLE(b) == FromLE(b[0..4]) + 0x1_0000_0000 * FromLE(b[4..8])
  {
    FourBytes(b[0..4]);
    TwoBytes(b);
    TwoBytes(b[2..]);
    assert b[2..][2..] == b[4..8];
  }

  /** The conversions take the number in range that differs by a multiple of the width. */
  lemma ToIntIsCongruent(n: int) returns (q: int)
    ensures -0x8000_0000 <= ToInt(n) < 0x8000_0000 && n == ToInt(n) + 0x1_0000_0000 * q
  {
    q := n / 0x1_0000_0000 + if n % 0x1_0000_0000 < 0x8000_0000 then 0 else 1;
  }

  lemma ToU64IsCongruent(n: int) returns (q: int)
    ensures 0 <= ToU64(n) < 0x1_0000_0000_0000_0000 && n == ToU64(n) + 0x1_0000_0000_0000_0000 * q
  {
    q := n / 0x1_0000_0000_0000_0000;
  }
}
