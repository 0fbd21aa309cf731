/** Binary suffixes of util/suffix.c: `suffix_binary_get` scales a byte count to the largest unit
    it reaches, `suffix_binary_parse` reads a count with such a suffix back. */
module Suffix {
  import opened Basics
  import opened Wire

  type I64 = x: int | -0x8000_0000_0000_0000 <= x < 0x8000_0000_0000_0000

  datatype Unit = Unit(size: nat, name: string)

  /** binary_suffixes, with each shift as the size it multiplies by. */
  const UNITS: seq<Unit> := [
    Unit(0x4_0000_0000_0000, "Pi"), Unit(0x100_0000_0000, "Ti"), Unit(0x4000_0000, "Gi"),
    Unit(0x10_0000, "Mi"), Unit(0x400, "Ki"), Unit(1, "")
  ]

  function Abs(x: int): nat { if x < 0 then -x else x }

  /** C's division, which cuts the quotient towards zero. */
  function Quotient(n: int, d: nat): int
    requires d > 0
  {
    if n < 0 then -(-n / d) else n / d
  }

  /** The first unit from the `k`th on that `value` reaches, or else the last. */
  function Reached(value: int, k: nat): (r: nat)
    requires k < |UNITS|
    ensures k <= r < |UNITS|
    ensures forall j | k <= j < r :: Abs(value) < UNITS[j].size
    ensures UNITS[r].size <= Abs(value) || r == |UNITS| - 1
    decreases |UNITS| - k
  {
    if k == |UNITS| - 1 || Abs(value) >= UNITS[k].size then k else Reached(value, k + 1)
  }

  /** `value` in units of the `k`th size, with half a unit added before the division. */
  function Scaled(value: int, k: nat): int
    requires k < |UNITS|
  {
    if k == |UNITS| - 1 then value else Quotient(value + UNITS[k].size / 2, UNITS[k].size)
  }

  /** `scaled` units of `size` are a nearest whole number of units to `value`. */
  predicate WithinHalf(value: int, scaled: int, size: nat) {
    2 * Abs(value - scaled * size) <= size
  }

  lemma ScaledFits(value: I64, k: nat)
    requires k < |UNITS| - 1 && value < 0x8000_0000_0000_0000 - 0x2_0000_0000_0000
    ensures UNITS[k].size > 0
    ensures Scaled(value, k) == Quotient(value + UNITS[k].size / 2, UNITS[k].size)
    ensures -0x8000_0000_0000_0000 <= Scaled(value, k) < 0x8000_0000_0000_0000
  {
    var n, d := value + UNITS[k].size / 2, UNITS[k].size;
    assert 1 <= d <= 0x4_0000_0000_0000;
    if n < 0 {
      QuotientIsSmaller(-n, d);
    } else {
      QuotientIsSmaller(n, d);
    }
  }

  lemma QuotientIsSmaller(n: nat, d: nat)
    requires d > 0
    ensures 0 <= n / d <= n
  {
    FactorIsSmaller(n / d, n % d, d);
  }

  lemma FactorIsSmaller(q: int, r: nat, d: nat)
    requires 0 <= q * d + r && r < d
    ensures 0 <= q <= q * d + r
  {
    if q < 0 {
      Times(q, -1, d);
    } else {
      Times(1, d, q);
    }
  }

  /** suffix_binary_get, with the new value of `*value` as a result.  The least I64 has no absolute
      value, and the largest ones leave no room for the half unit that is added. */
  method SuffixBinaryGet(value: I64) returns (suffix: string, scaled: I64)
    requires -0x8000_0000_0000_0000 < value < 0x8000_0000_0000_0000 - 0x2_0000_0000_0000
    ensures suffix == UNITS[Reached(value, 0)].name
    ensures scaled == Scaled(value, Reached(value, 0))
    ensures var magnitude := if value < 0 then -value else value;
            suffix == if magnitude >= 1024 * 1024 * 1024 * 1024 * 1024 then "Pi"
                      else if magnitude >= 1024 * 1024 * 1024 * 1024 then "Ti"
                      else if magnitude >= 1024 * 1024 * 1024 then "Gi"
                      else if magnitude >= 1024 * 1024 then "Mi"
                      else if magnitude >= 1024 then "Ki" else ""
  {
    hide Quotient, Scaled, Reached;
    ReachedIs(value);
    var s := 0;
    while UNITS[s].size != 1
      invariant s < |UNITS|
      invariant Reached(value, 0) == Reached(value, s)
      decreases |UNITS| - s
    {
      if Abs(value) >= UNITS[s].size {
        ScaledFits(value, s);
        return UNITS[s].name, Quotient(value + UNITS[s].size / 2, UNITS[s].size);
      }
      s := s + 1;
    }
    LastIsUnscaled(value);
    return "", value;
  }

  lemma ReachedIs(value: int)
    ensures var magnitude := if value < 0 then -value else value;
            UNITS[Reached(value, 0)]
            == if magnitude >= 1024 * 1024 * 1024 * 1024 * 1024 then Unit(1024 * 1024 * 1024 * 1024 * 1024, "Pi")
               else if magnitude >= 1024 * 1024 * 1024 * 1024 then Unit(1024 * 1024 * 1024 * 1024, "Ti")
               else if magnitude >= 1024 * 1024 * 1024 then Unit(1024 * 1024 * 1024, "Gi")
               else if magnitude >= 1024 * 1024 then Unit(1024 * 1024, "Mi")
               else if magnitude >= 1024 then Unit(1024, "Ki") else Unit(1, "")
  {
    UnitTable();
    var k := Reached(value, 0);
    assert forall j | 0 <= j < k :: Abs(value) < UNITS[j].size;
    hide Reached;
  }

  /** Which multiple of 1024 each suffix stands for. */
  lemma UnitTable()
    ensures |UNITS| == 6
    ensures UNITS[0] == Unit(1024 * 1024 * 1024 * 1024 * 1024, "Pi")
    ensures UNITS[1] == Unit(1024 * 1024 * 1024 * 1024, "Ti")
    ensures UNITS[2] == Unit(1024 * 1024 * 1024, "Gi")
    ensures UNITS[3] == Unit(1024 * 1024, "Mi")
    ensures UNITS[4] == Unit(1024, "Ki")
    ensures UNITS[5] == Unit(1, "")
  {
  }

  lemma LastIsUnscaled(value: int)
    ensures Scaled(value, |UNITS| - 1) == value
  {
  }

  // ----- rounding -----

  /** The quotient is the only number of whole divisors that fits. */
  lemma QuotientIs(n: nat, d: nat, q: nat)
    requires d > 0 && q * d <= n < q * d + d
    ensures n / d == q
  {
    var z, r := n / d, n % d;
    assert n == z * d + r;
    Unique(z, r, d, q);
  }

  lemma Unique(z: nat, r: nat, d: nat, q: nat)
    requires r < d && q * d <= z * d + r < q * d + d
    ensures z == q
  {
    if z < q {
      Times(z + 1, q, d);
    } else if z > q {
      Times(q + 1, z, d);
    }
  }

  lemma Times(a: int, b: int, d: nat)
    requires a <= b
    ensures a * d <= b * d
    ensures (a + 1) * d == a * d + d
  {
  }

  /** From zero upwards, adding half a unit before the division rounds to the nearest. */
  lemma RoundsUp(value: nat, half: nat)
    requires half > 0
    ensures WithinHalf(value, (value + half) / (2 * half), 2 * half)
    ensures value % (2 * half) == 0 ==> (value + half) / (2 * half) * (2 * half) == value
  {
    var d := 2 * half;
    var q := (value + half) / d;
    assert value + half == q * d + (value + half) % d;
    if value % d == 0 {
      assert value == value / d * d;
      QuotientIs(value + half, d, value / d);
    }
  }

  /** Below zero the division cuts towards zero instead, and the result is a nearest whole number
      only when the magnitude is an odd number of halves. */
  lemma RoundsTowardsZero(m: int, half: int)
    requires half > 0 && m >= 2 * half
    ensures WithinHalf(-m, -((m - half) / (2 * half)), 2 * half) <==> m % (2 * half) == half
  {
    var d := 2 * half;
    var q, r := m / d, m % d;
    assert m == q * d + r;
    if r < half {
      AtLeastOne(q, r, d);
      Times(q - 1, q, d);
      QuotientIs(m - half, d, q - 1);
      Negated(q - 1, d);
    } else {
      QuotientIs(m - half, d, q);
      Negated(q, d);
    }
  }

  lemma AtLeastOne(q: int, r: int, d: int)
    requires 0 <= r < d <= q * d + r
    ensures q >= 1
  {
  }

  lemma Negated(q: int, d: int)
    ensures -q * d == -(q * d)
  {
  }

  /** Every unit but the last is twice a whole half, and at most 1024 of it make the one before. */
  lemma UnitSizes(k: nat)
    requires k < |UNITS| - 1
    ensures UNITS[k].size == 2 * (UNITS[k].size / 2) && UNITS[k].size >= 2
    ensures k > 0 ==> UNITS[k - 1].size == 0x400 * UNITS[k].size
  {
    if k == 0 {
    } else if k == 1 {
    } else if k == 2 {
    } else if k == 3 {
    } else {
    }
  }

  /** The number written is a nearest whole number of units exactly for values from zero up, values
      too small for a suffix, and negative values that are an odd number of half units. */
  lemma NearestIff(value: I64)
    ensures var k := Reached(value, 0);
            var size := UNITS[k].size;
            WithinHalf(value, Scaled(value, k), size) <==>
              value >= 0 || k == |UNITS| - 1 || Abs(value) % size == size / 2
  {
    hide Reached;
    var k := Reached(value, 0);
    if k < |UNITS| - 1 {
      UnitSizes(k);
      var half := UNITS[k].size / 2;
      assert UNITS[k].size == 2 * half && 2 * half <= Abs(value);
      Nearest(value, k, half);
    }
  }

  lemma Nearest(value: int, k: nat, half: nat)
    requires k < |UNITS| - 1 && half > 0 && UNITS[k].size == 2 * half <= Abs(value)
    ensures WithinHalf(value, Scaled(value, k), 2 * half) <==> value >= 0 || Abs(value) % (2 * half) == half
  {
    var size := UNITS[k].size;
    assert size / 2 == half;
    hide WithinHalf;
    if value >= 0 {
      RoundsUp(value, half);
    } else {
      RoundsTowardsZero(-value, half);
    }
  }

  /** A multiple of its unit is written exactly, from zero up. */
  lemma MultipleIsExact(value: I64)
    requires value >= 0
    ensures var k := Reached(value, 0);
            value % UNITS[k].size == 0 ==> Scaled(value, k) * UNITS[k].size == value
  {
    hide Reached;
    var k := Reached(value, 0);
    if k < |UNITS| - 1 {
      UnitSizes(k);
      RoundsUp(value, UNITS[k].size / 2);
    }
  }

  /** A suffixed number is at least 1, and at most 1024 unless the suffix is the largest. */
  lemma ScaledIsShort(value: I64)
    requires value >= 0
    ensures var k := Reached(value, 0);
            k < |UNITS| - 1 ==> 1 <= Scaled(value, k) && (k > 0 ==> Scaled(value, k) <= 1024)
  {
    hide Reached;
    var k := Reached(value, 0);
    if k < |UNITS| - 1 {
      UnitSizes(k);
      var half := UNITS[k].size / 2;
      var q := (value + half) / (2 * half);
      RoundsUp(value, half);
      if k > 0 {
        assert value < UNITS[k - 1].size;
      }
      Between(value, half, q, if k > 0 then 1024 else value);
    }
  }

  lemma Between(value: nat, half: nat, q: nat, most: nat)
    requires half > 0 && value >= 2 * half && q == (value + half) / (2 * half)
    ensures 1 <= q
    ensures value < most * (2 * half) ==> q <= most
  {
    var r := (value + half) % (2 * half);
    assert value + half == q * (2 * half) + r;
    assert q == 0 ==> value + half == r;
    if q > most {
      Times(most + 1, q, 2 * half);
      Times(most, most, 2 * half);
    }
  }

  /** How the number written is rounded: from zero up to the nearest, halves upwards; below zero half a
      unit towards zero, and then down in magnitude. */
  lemma RoundingIs(value: I64)
    ensures var size := UNITS[Reached(value, 0)].size;
            var scaled := Scaled(value, Reached(value, 0));
            && (size == 1 ==> scaled == value)
            && (size > 1 && value >= 0 ==> 2 * scaled * size - size <= 2 * value < 2 * scaled * size + size)
            && (size > 1 && value < 0 ==> -2 * scaled * size + size <= -2 * value < -2 * scaled * size + 3 * size)
  {
    hide Reached;
    var k := Reached(value, 0);
    if k < |UNITS| - 1 {
      UnitSizes(k);
      var half := UNITS[k].size / 2;
      var v: int := value;
      Rounded(if v < 0 then -v - half else v + half, half);
      hide UNITS;
      assert Scaled(value, k) == if v < 0 then -((-v - half) / (2 * half)) else (v + half) / (2 * half);
    }
  }

  lemma Rounded(n: nat, half: nat)
    requires half > 0
    ensures var q := n / (2 * half);
      && 2 * q * (2 * half) <= 2 * n < 2 * q * (2 * half) + 2 * (2 * half)
      && -2 * (-q) * (2 * half) == 2 * q * (2 * half)
  {
    var q, r := n / (2 * half), n % (2 * half);
    assert n == q * (2 * half) + r;
    assert 2 * q * (2 * half) == 2 * (q * (2 * half));
  }

  // ----- reading back -----

  /** What strtoll(text, &rest, 0) answers; `overflow` is its ERANGE. */
  datatype Scanned = Scanned(value: I64, rest: string, overflow: bool)

  type Strtoll = string -> Scanned

  /** C's promise for decimal numbers: the digits of a number that fits are read to their end. */
  ghost predicate ReadsDecimal(strtoll: Strtoll) {
    forall n: nat, rest | n < 0x8000_0000_0000_0000 && (rest != "" ==> rest[0] in "PTGMK") ::
      strtoll(Digits(n) + rest) == Scanned(n, rest, false)
  }

  datatype Errno = NoError | OutOfRange | InvalidArgument

  /** tolower in the C locale. */
  function ToLower(c: char): char {
    if 'A' <= c <= 'Z' then c - 'A' + 'a' else c
  }

  /** The first unit from the `k`th on whose name starts with the letter `rest` starts with, in
      either case, or else the last. */
  function Named(rest: string, k: nat): (r: nat)
    requires k < |UNITS|
    ensures k <= r < |UNITS|
    decreases |UNITS| - k
  {
    if k == |UNITS| - 1 then k
    else if rest != "" && ToLower(rest[0]) == ToLower(UNITS[k].name[0]) then k
    else Named(rest, k + 1)
  }

  lemma ShiftInWord(n: int, size: nat)
    ensures ToU64(ToU64(n) * size) == ToU64(n * size)
  {
    var m := 0x1_0000_0000_0000_0000;
    var q := n / m;
    assert n == q * m + ToU64(n);
    assert n * size == (q * size) * m + ToU64(n) * size;
    SameRemainder(ToU64(n) * size, q * size);
  }

  lemma SameRemainder(x: int, q: int)
    ensures ToU64(q * 0x1_0000_0000_0000_0000 + x) == ToU64(x)
  {
  }

  /** The number at the front of the text times the unit that the letter behind it names, in 64
      bits. Any other suffix is an error, but the number is still the result. */
  function Parsed(strtoll: Strtoll, text: string): (U64, Errno) {
    var Scanned(value, rest, overflow) := strtoll(text);
    var k := Named(rest, 0);
    if overflow then (0, OutOfRange)
    else (ToU64(value * UNITS[k].size), if k == |UNITS| - 1 && rest != "" then InvalidArgument else NoError)
  }

  /** suffix_binary_parse, with errno as a second result. */
  method SuffixBinaryParse(strtoll: Strtoll, text: string) returns (ret: U64, errno: Errno)
    ensures (ret, errno) == Parsed(strtoll, text)
  {
    var scanned := strtoll(text);
    if scanned.overflow {
      return 0, OutOfRange;
    }
    var suffix := scanned.rest;
    ret := ToU64(scanned.value);
    var s := 0;
    while UNITS[s].size != 1
      invariant s < |UNITS|
      invariant Named(suffix, 0) == Named(suffix, s)
      decreases |UNITS| - s
    {
      if suffix != "" && ToLower(suffix[0]) == ToLower(UNITS[s].name[0]) {
        ShiftInWord(scanned.value, UNITS[s].size);
        return ToU64(ret * UNITS[s].size), NoError;
      }
      s := s + 1;
    }
    errno := if suffix != "" then InvalidArgument else NoError;
  }

  /** What each letter multiplies by, and what else is an error. */
  lemma ParsedIs(strtoll: Strtoll, text: string)
    ensures var Scanned(value, rest, overflow) := strtoll(text);
            Parsed(strtoll, text) ==
              if overflow then (0, OutOfRange)
              else if rest == "" then (ToU64(value), NoError)
              else if rest[0] in "kK" then (ToU64(value * 1024), NoError)
              else if rest[0] in "mM" then (ToU64(value * (1024 * 1024)), NoError)
              else if rest[0] in "gG" then (ToU64(value * (1024 * 1024 * 1024)), NoError)
              else if rest[0] in "tT" then (ToU64(value * (1024 * 1024 * 1024 * 1024)), NoError)
              else if rest[0] in "pP" then (ToU64(value * (1024 * 1024 * 1024 * 1024 * 1024)), NoError)
              else (ToU64(value), InvalidArgument)
  {
    hide ToU64;
    NamedIs(strtoll(text).rest);
    UnitTable();
    hide Named, UNITS;
  }

  lemma NamedIs(rest: string)
    ensures Named(rest, 0) ==
              if rest == "" then 5
              else if rest[0] in "pP" then 0
              else if rest[0] in "tT" then 1
              else if rest[0] in "gG" then 2
              else if rest[0] in "mM" then 3
              else if rest[0] in "kK" then 4
              else 5
  {
    NamedFrom(rest);
    if rest != "" {
      LowerIs(rest[0]);
    }
    hide Named, ToLower;
  }

  lemma NamedFrom(rest: string)
    ensures Named(rest, 0) ==
              if rest == "" then 5
              else if ToLower(rest[0]) == 'p' then 0
              else if ToLower(rest[0]) == 't' then 1
              else if ToLower(rest[0]) == 'g' then 2
              else if ToLower(rest[0]) == 'm' then 3
              else if ToLower(rest[0]) == 'k' then 4
              else 5
  {
    assert Named(rest, 5) == 5;
    assert Named(rest, 3) == if rest != "" && ToLower(rest[0]) == 'm' then 3 else Named(rest, 4);
    assert Named(rest, 1) == if rest != "" && ToLower(rest[0]) == 't' then 1 else Named(rest, 2);
  }

  lemma LowerIs(c: char)
    ensures ToLower(c) == 'p' <==> c in "pP"
    ensures ToLower(c) == 't' <==> c in "tT"
    ensures ToLower(c) == 'g' <==> c in "gG"
    ensures ToLower(c) == 'm' <==> c in "mM"
    ensures ToLower(c) == 'k' <==> c in "kK"
  {
  }

  lemma NameIsRead(k: nat)
    requires k < |UNITS|
    ensures Named(UNITS[k].name, 0) == k
    ensures UNITS[k].name != "" ==> UNITS[k].name[0] in "PTGMK"
    ensures k == |UNITS| - 1 ==> UNITS[k].name == ""
  {
    var name := UNITS[k].name;
    if k == 0 {
    } else if k == 1 {
      assert Named(name, 0) == Named(name, 1);
    } else if k == 2 {
      assert Named(name, 0) == Named(name, 1) == Named(name, 2);
    } else if k == 3 {
      assert Named(name, 0) == Named(name, 1) == Named(name, 2) == Named(name, 3);
    } else if k == 4 {
      assert Named(name, 0) == Named(name, 1) == Named(name, 2) == Named(name, 3) == Named(name, 4);
    } else {
      assert Named(name, 0) == Named(name, 1) == Named(name, 2) == Named(name, 3) == Named(name, 4) == Named(name, 5);
    }
  }

  /** Writing a value from zero up and reading the text back: the text is accepted, and the result
      is within half a unit of the value, and the value itself when it is a multiple of its unit. */
  lemma WrittenReadsBack(strtoll: Strtoll, value: I64)
    requires ReadsDecimal(strtoll)
    requires 0 <= value < 0x8000_0000_0000_0000 - 0x2_0000_0000_0000
    ensures var k := Reached(value, 0);
            var (read, errno) := Parsed(strtoll, Digits(Scaled(value, k)) + UNITS[k].name);
            && errno == NoError
            && 2 * Abs(value - read) <= UNITS[k].size
            && (value % UNITS[k].size == 0 ==> read == value)
  {
    hide Reached, Named, WithinHalf;
    var k := Reached(value, 0);
    var scaled := Scaled(value, k);
    NameIsRead(k);
    NearestIff(value);
    MultipleIsExact(value);
    ScaledIsShort(value);
    InRange(value, scaled, UNITS[k].size);
  }

  lemma InRange(value: int, scaled: nat, size: nat)
    requires 0 <= value < 0x8000_0000_0000_0000 - 0x2_0000_0000_0000
    requires WithinHalf(value, scaled, size) && size <= 0x4_0000_0000_0000
    ensures 0 <= scaled * size < 0x8000_0000_0000_0000 && ToU64(scaled * size) == scaled * size
    ensures 2 * Abs(value - scaled * size) <= size
    ensures size > 0 ==> scaled < 0x8000_0000_0000_0000
  {
    if size > 0 {
      Times(1, size, scaled);
    }
  }
}
