/** The checksum engine of the serial ADU: the LRC of the ASCII mode and the
    CRC-16 of the RTU mode (MODBUS over Serial Line Specification and
    Implementation Guide V1.02, sections 2.5.2.2 and 2.5.1.2). */
module Checksums {
  import opened Bytes

  // ---------------------------------------------------------------- LRC

  /** The sum of the bytes. */
  function Sum(s: seq<Byte>): int
  {
    if s == [] then 0 else Sum(s[..|s| - 1]) + s[|s| - 1]
  }

  /** The LRC of `s`: the two's complement of the low byte of its sum. */
  function Lrc(s: seq<Byte>): (r: Byte)
    ensures (Sum(s) + r) % 256 == 0
  {
    var low := Sum(s) % 256;
    if low == 0 then 0 else 256 - low
  }

  /** A byte as a signed `char` reads it on platforms where `char` is
      signed: 0x80..0xFF stand for -128..-1. */
  function SignedChar(b: Byte): (v: int)
    ensures -128 <= v < 128 && (v - b) % 256 == 0
  {
    if b < 128 then b else b - 256
  }

  /** Adding a multiple of 256 leaves the low byte alone. */
  lemma ModDropsMultiple(x: int, m: int)
    ensures (x + m * 256) % 256 == x % 256
  {
    var y := x + m * 256;
    assert y == (x / 256 + m) * 256 + x % 256;
  }

  /** Sums of numbers with equal low bytes have equal low bytes. */
  lemma ModAdd(a: int, b: int, c: int, d: int)
    requires a % 256 == c % 256 && b % 256 == d % 256
    ensures (a + b) % 256 == (c + d) % 256
  {
    ModDropsMultiple(a % 256 + b % 256, a / 256 + b / 256);
    ModDropsMultiple(c % 256 + d % 256, c / 256 + d / 256);
  }

  /** One step of the accumulator: adding a signed `char` in 32 bits
      keeps the low byte of the plain sum. */
  lemma AddSignedChar(lrc: int, sum: int, b: Byte)
    requires 0 <= lrc < 0x1_0000_0000
    requires lrc % 256 == sum % 256
    ensures (lrc + SignedChar(b)) % 0x1_0000_0000 % 256 == (sum + b) % 256
  {
    var x := lrc + SignedChar(b);
    ModAdd(lrc, SignedChar(b), sum, b);
    if x < 0 {
      assert x % 0x1_0000_0000 == x + 0x100_0000 * 256;
      ModDropsMultiple(x, 0x100_0000);
    } else if x >= 0x1_0000_0000 {
      assert x % 0x1_0000_0000 == x + (-0x100_0000) * 256;
      ModDropsMultiple(x, -0x100_0000);
    }
  }

  /** calculateLRC: a `while (len--)` loop adding each `char` into a quint32
      accumulator (so modulo 2^32, and a negative `char` wraps around),
      whose low byte is then negated. */
  method CalculateLrc(data: seq<Byte>, len: int) returns (r: Byte)
    requires 0 <= len <= |data|
    ensures r == Lrc(data[..len])
  {
    var lrc: int := 0;
    var p := 0;
    var n := len;
    while n != 0
      invariant 0 <= n <= len && p == len - n
      invariant 0 <= lrc < 0x1_0000_0000
      invariant lrc % 256 == Sum(data[..p]) % 256
    {
      n := n - 1;
      assert data[..p + 1][..p] == data[..p];
      AddSignedChar(lrc, Sum(data[..p]), data[p]);
      lrc := (lrc + SignedChar(data[p])) % 0x1_0000_0000;
      p := p + 1;
    }
    r := (256 - lrc % 256) % 256;
  }

  lemma {:induction false} SumAppend(s: seq<Byte>, t: seq<Byte>)
    ensures Sum(s + t) == Sum(s) + Sum(t)
    decreases |t|
  {
    if t == [] {
      assert s + t == s;
    } else {
      assert (s + t)[..|s + t| - 1] == s + t[..|t| - 1];
      SumAppend(s, t[..|t| - 1]);
    }
  }

  /** Taking the byte at `k` out of a sequence lowers its sum by that
      byte. */
  lemma SumRemove(t: seq<Byte>, k: nat)
    requires k < |t|
    ensures Sum(t) == Sum(t[..k] + t[k + 1..]) + t[k]
  {
    var x := t[k];
    assert t == t[..k] + [x] + t[k + 1..];
    SumAppend(t[..k] + [x], t[k + 1..]);
    SumAppend(t[..k], [x]);
    SumAppend(t[..k], t[k + 1..]);
    assert Sum([x]) == x by { assert [x][..0] == []; }
  }

  /** Taking the byte at `k` out of a sequence takes one occurrence of it
      out of its multiset. */
  lemma MultisetRemove(t: seq<Byte>, k: nat)
    requires k < |t|
    ensures multiset(t[..k] + t[k + 1..]) == multiset(t) - multiset{t[k]}
  {
    assert t == t[..k] + [t[k]] + t[k + 1..];
    assert multiset(t) == multiset(t[..k]) + multiset{t[k]} + multiset(t[k + 1..]);
  }

  lemma {:induction false} SumPermutation(s: seq<Byte>, t: seq<Byte>)
    requires multiset(s) == multiset(t)
    ensures Sum(s) == Sum(t)
    decreases |s|
  {
    if s == [] {
      assert |t| == |multiset(t)| == 0;
    } else {
      var init, x := s[..|s| - 1], s[|s| - 1];
      assert s == init + [x];
      assert multiset(s) == multiset(init) + multiset{x};
      assert x in multiset(t);
      var k :| 0 <= k < |t| && t[k] == x;
      MultisetRemove(t, k);
      SumPermutation(init, t[..k] + t[k + 1..]);
      SumRemove(t, k);
    }
  }

  /** The LRC does not depend on the order of the bytes. */
  lemma LrcIgnoresOrder(s: seq<Byte>, t: seq<Byte>)
    requires multiset(s) == multiset(t)
    ensures Lrc(s) == Lrc(t)
  {
    SumPermutation(s, t);
  }

  /** The bytes followed by their LRC sum to 0 modulo 256, and the LRC of
      no bytes is 0. */
  lemma LrcCompletesSum(s: seq<Byte>)
    ensures Sum(s + [Lrc(s)]) % 256 == 0
    ensures Lrc([]) == 0
  {
    assert (s + [Lrc(s)])[..|s|] == s;
  }

  /** Replacing one byte changes the sum by the difference of the two
      values. */
  lemma SumOfUpdate(s: seq<Byte>, p: nat, v: Byte)
    requires p < |s|
    ensures Sum(s[p := v]) == Sum(s) - s[p] + v
  {
    var t := s[p := v];
    assert s == s[..p] + [s[p]] + s[p + 1..];
    assert t == s[..p] + [v] + s[p + 1..];
    SumAppend(s[..p] + [s[p]], s[p + 1..]);
    SumAppend(s[..p], [s[p]]);
    SumAppend(s[..p] + [v], s[p + 1..]);
    SumAppend(s[..p], [v]);
    assert Sum([v]) == v by { assert [v][..0] == []; }
    assert Sum([s[p]]) == s[p] by { assert [s[p]][..0] == []; }
  }

  /** The LRC detects every error confined to one byte of the checked
      range. */
  lemma LrcDetectsByteError(s: seq<Byte>, p: nat, v: Byte)
    requires p < |s| && v != s[p]
    ensures Lrc(s[p := v]) != Lrc(s)
  {
    SumOfUpdate(s, p, v);
    var d := v - s[p];
    assert -256 < d < 256 && d != 0;
  }

  // ---------------------------------------------------------------- CRC-16

  /** The register's initial value (pycrc's XorIn). */
  const Init: bv16 := 0xFFFF

  /** One step of pycrc's bit-by-bit-fast algorithm: the input bit is
      compared with the register's top bit, the register shifts left, and
      the polynomial 0x8005 (x^16 + x^15 + x^2 + 1) is added when they
      differ. */
  function CrcBitStep(crc: bv16, bit: bool): bv16
  {
    var feedback := (crc & 0x8000 != 0) != bit;
    if feedback then (crc << 1) ^ 0x8005 else crc << 1
  }

  /** A one-bit mask of calculateCRC's inner loop: 0x01, 0x02, ..., 0x80,
      and 0x100, where the loop stops. */
  predicate IsMask(i: bv32)
  {
    1 <= i <= 0x100 && i & (i - 1) == 0
  }

  /** The register after the bits of `c` selected by the masks below `i`,
      least significant first (ReflectIn). */
  function CrcBelow(crc: bv16, c: bv8, i: bv32): bv16
    requires IsMask(i)
    decreases i
  {
    if i == 1 then crc
    else CrcBitStep(CrcBelow(crc, c, i >> 1), (c as bv32) & (i >> 1) != 0)
  }

  /** The register after one whole byte. */
  function CrcByte(crc: bv16, c: Byte): bv16
  {
    CrcBelow(crc, c as bv8, 0x100)
  }

  /** The register after all the bytes of `s`. */
  function CrcRegister(s: seq<Byte>): bv16
  {
    if s == [] then Init else CrcByte(CrcRegister(s[..|s| - 1]), s[|s| - 1])
  }

  /** The bit order of a 16-bit value reversed, by swapping neighbouring
      bits, bit pairs, nibbles and bytes. */
  function Reflected(x: bv16): bv16
  {
    var a := ((x >> 1) & 0x5555) | ((x & 0x5555) << 1);
    var b := ((a >> 2) & 0x3333) | ((a & 0x3333) << 2);
    var c := ((b >> 4) & 0x0F0F) | ((b & 0x0F0F) << 4);
    (c >> 8) | (c << 8)
  }

  /** The two bytes of a 16-bit value exchanged. */
  function ByteSwapped(x: bv16): bv16
  {
    (x >> 8) | (x << 8)
  }

  /** The byte swap as calculateCRC writes it, stated on its own so that
      the method need not expand the reflected register around it. */
  lemma SwapHalves(x: bv16)
    ensures ByteSwapped(x) == (x >> 8) | (x << 8)
  {
  }

  /** The value calculateCRC returns: the register reflected (ReflectOut,
      XorOut 0) and byte-swapped. */
  function Crc(s: seq<Byte>): bv16
  {
    ByteSwapped(Reflected(CrcRegister(s)))
  }

  /** Reflected moves bit j to bit 15 - j. */
  lemma ReflectedBit(x: bv16, j: bv16)
    requires j < 16
    ensures (Reflected(x) >> j) & 1 == (x >> (15 - j)) & 1
  {
  }

  /** Reflecting twice gives the value back. */
  lemma ReflectedTwice(x: bv16)
    ensures Reflected(Reflected(x)) == x
  {
  }

  /** The state of crc_reflect's loop run to the end: `m` more bits move
      from `d` into `ret`. */
  function Reversing(ret: bv16, d: bv16, m: nat): bv16
    decreases m
  {
    if m == 0 then ret else Reversing((ret << 1) | ((d >> 1) & 0x01), d >> 1, m - 1)
  }

  lemma ReversingFirstFive(x: bv16)
    ensures Reversing(x & 0x01, x, 15) == Reversing(Reflected(x) >> 10, x >> 5, 10)
  {
  }

  lemma ReversingNextFive(x: bv16)
    ensures Reversing(Reflected(x) >> 10, x >> 5, 10) == Reversing(Reflected(x) >> 5, x >> 10, 5)
  {
  }

  lemma ReversingLastFive(x: bv16)
    ensures Reversing(Reflected(x) >> 5, x >> 10, 5) == Reflected(x)
  {
  }

  /** Sixteen iterations of crc_reflect's loop reverse all sixteen bits. */
  lemma ReversingReflects(x: bv16)
    ensures Reversing(x & 0x01, x, 15) == Reflected(x)
  {
    ReversingFirstFive(x);
    ReversingNextFive(x);
    ReversingLastFive(x);
  }

  /** crc_reflect: moves the low `len` bits of `data` into `ret` one at a
      time, so that they come out in reverse order. */
  method CrcReflect(data: bv16, len: int) returns (ret: bv16)
    ensures ret == Reversing(data & 0x01, data, if len < 1 then 0 else len - 1)
    ensures len == 16 ==> ret == Reflected(data)
  {
    var d := data;
    ret := data & 0x01;
    var i := 1;
    while i < len
      invariant 1 <= i && (len >= 1 ==> i <= len)
      invariant Reversing(ret, d, if len < i then 0 else len - i)
             == Reversing(data & 0x01, data, if len < 1 then 0 else len - 1)
    {
      d := d >> 1;
      ret := (ret << 1) | (d & 0x01);
      i := i + 1;
    }
    if len == 16 {
      ReversingReflects(data);
    }
  }

  /** The loop body's two branches are one register step. */
  lemma StepByFeedback(crc: bv16, input: bool, bit: bool, next: bv16)
    requires bit == ((crc & 0x8000 != 0) != input)
    requires next == if bit then (crc << 1) ^ 0x8005 else crc << 1
    ensures next == CrcBitStep(crc, input)
  {
  }

  lemma CrcBelowNext(crc: bv16, c: bv8, i: bv32)
    requires IsMask(i) && i < 0x100
    ensures IsMask(i << 1)
    ensures CrcBelow(crc, c, i << 1) == CrcBitStep(CrcBelow(crc, c, i), (c as bv32) & i != 0)
  {
    assert (i << 1) >> 1 == i;
  }

  /** The inner loop of calculateCRC: the mask `i` runs over 0x01, 0x02,
      ..., 0x80 until `i & 0xFF` is 0. */
  method CrcShiftInByte(crc0: bv16, c: bv8) returns (crc: bv16)
    ensures crc == CrcBelow(crc0, c, 0x100)
  {
    crc := crc0;
    var i: bv32 := 0x01;
    while i & 0xFF != 0
      invariant IsMask(i)
      invariant crc == CrcBelow(crc0, c, i)
      decreases 0x100 - i
    {
      var input := (c as bv32) & i != 0;
      ghost var before := crc;
      var bit := crc & 0x8000 != 0;
      if input {
        bit := !bit;
      }
      var shifted := crc << 1;
      if bit {
        crc := shifted ^ 0x8005;
      } else {
        crc := shifted;
      }
      StepByFeedback(before, input, bit, crc);
      CrcBelowNext(crc0, c, i);
      i := i << 1;
    }
  }

  /** calculateCRC: for each byte, the inner loop runs the mask `i` over
      0x01, 0x02, ..., 0x80 until `i & 0xFF` is 0; then crc_reflect and the
      byte swap. */
  method CalculateCrc(data: seq<Byte>, len: int) returns (r: bv16)
    requires 0 <= len <= |data|
    ensures r == Crc(data[..len])
  {
    var crc: bv16 := 0xFFFF;
    var p := 0;
    var n := len;
    while n != 0
      invariant 0 <= n <= len && p == len - n
      invariant crc == CrcRegister(data[..p])
    {
      n := n - 1;
      var c := data[p] as bv8;
      assert data[..p + 1][..p] == data[..p];
      p := p + 1;
      crc := CrcShiftInByte(crc, c);
      crc := crc & 0xFFFF;
    }
    assert data[..p] == data[..len];
    ghost var register := crc;
    crc := CrcReflect(crc & 0xFFFF, 16);
    crc := crc ^ 0x0000;
    assert crc == Reflected(register);
    SwapHalves(crc);
    r := (crc >> 8) | (crc << 8);
  }

  // ------------------------------------------------------ check values

  /** The eight register steps of one byte, written out. */
  lemma CrcByteUnrolled(crc: bv16, c: bv8)
    ensures CrcBelow(crc, c, 0x100) ==
      var x := c as bv32;
      CrcBitStep(CrcBitStep(CrcBitStep(CrcBitStep(CrcBitStep(CrcBitStep(CrcBitStep(CrcBitStep(crc,
        x & 0x01 != 0), x & 0x02 != 0), x & 0x04 != 0), x & 0x08 != 0), x & 0x10 != 0),
        x & 0x20 != 0), x & 0x40 != 0), x & 0x80 != 0)
  {
    CrcBelowNext(crc, c, 0x01);
    CrcBelowNext(crc, c, 0x02);
    CrcBelowNext(crc, c, 0x04);
    CrcBelowNext(crc, c, 0x08);
    CrcBelowNext(crc, c, 0x10);
    CrcBelowNext(crc, c, 0x20);
    CrcBelowNext(crc, c, 0x40);
    CrcBelowNext(crc, c, 0x80);
  }

  /** One more byte advances the register by CrcByte. */
  lemma CrcRegisterStep(s: seq<Byte>, b: Byte, before: bv16, after: bv16)
    requires CrcRegister(s) == before && CrcByte(before, b) == after
    ensures CrcRegister(s + [b]) == after
  {
    assert (s + [b])[..|s|] == s;
  }

  /** calculateCRC of no bytes is the initial register, 0xFFFF, which
      reflection and the byte swap leave alone. */
  lemma CrcOfNothing()
    ensures Crc([]) == 0xFFFF
  {
  }

  /** The CRC-16/MODBUS check value 0x4B37 over the ASCII digits "123456789",
      byte-swapped. */
  lemma CrcCheckValue()
    ensures Crc([0x31, 0x32, 0x33, 0x34, 0x35, 0x36, 0x37, 0x38, 0x39]) == 0x374B
  {
    var s0: seq<Byte> := [];
    CrcByteUnrolled(0xFFFF, 0x31 as bv8);
    CrcRegisterStep(s0, 0x31, 0xFFFF, 0x7e29);
    var s1 := s0 + [0x31];
    CrcByteUnrolled(0x7e29, 0x32 as bv8);
    CrcRegisterStep(s1, 0x32, 0x7e29, 0xa9af);
    var s2 := s1 + [0x32];
    CrcByteUnrolled(0xa9af, 0x33 as bv8);
    CrcRegisterStep(s2, 0x33, 0xa9af, 0xae5e);
    var s3 := s2 + [0x33];
    CrcByteUnrolled(0xae5e, 0x34 as bv8);
    CrcRegisterStep(s3, 0x34, 0xae5e, 0x5d0c);
    var s4 := s3 + [0x34];
    CrcByteUnrolled(0x5d0c, 0x35 as bv8);
    CrcRegisterStep(s4, 0x35, 0x5d0c, 0x8e25);
    var s5 := s4 + [0x35];
    CrcByteUnrolled(0x8e25, 0x36 as bv8);
    CrcRegisterStep(s5, 0x36, 0x8e25, 0x274c);
    var s6 := s5 + [0x36];
    CrcByteUnrolled(0x274c, 0x37 as bv8);
    CrcRegisterStep(s6, 0x37, 0x274c, 0xceb9);
    var s7 := s6 + [0x37];
    CrcByteUnrolled(0xceb9, 0x38 as bv8);
    CrcRegisterStep(s7, 0x38, 0xceb9, 0xbbec);
    var s8 := s7 + [0x38];
    CrcByteUnrolled(0xbbec, 0x39 as bv8);
    CrcRegisterStep(s8, 0x39, 0xbbec, 0xecd2);
    var s9 := s8 + [0x39];
    assert s9 == [0x31, 0x32, 0x33, 0x34, 0x35, 0x36, 0x37, 0x38, 0x39];
  }

  /** The CRC of the request "read one holding register at 0 from server 1":
      sent high byte first, the frame ends 0x84 0x0A. */
  lemma CrcOfReadRequest()
    ensures Crc([0x01, 0x03, 0x00, 0x00, 0x00, 0x01]) == 0x840A
  {
    var s0: seq<Byte> := [];
    CrcByteUnrolled(0xFFFF, 0x01 as bv8);
    CrcRegisterStep(s0, 0x01, 0xFFFF, 0x7e01);
    var s1 := s0 + [0x01];
    CrcByteUnrolled(0x7e01, 0x03 as bv8);
    CrcRegisterStep(s1, 0x03, 0x7e01, 0x0284);
    var s2 := s1 + [0x03];
    CrcByteUnrolled(0x0284, 0x00 as bv8);
    CrcRegisterStep(s2, 0x00, 0x0284, 0x040f);
    var s3 := s2 + [0x00];
    CrcByteUnrolled(0x040f, 0x00 as bv8);
    CrcRegisterStep(s3, 0x00, 0x040f, 0x8f1b);
    var s4 := s3 + [0x00];
    CrcByteUnrolled(0x8f1b, 0x00 as bv8);
    CrcRegisterStep(s4, 0x00, 0x8f1b, 0x9821);
    var s5 := s4 + [0x00];
    CrcByteUnrolled(0x9821, 0x01 as bv8);
    CrcRegisterStep(s5, 0x01, 0x9821, 0x2150);
    var s6 := s5 + [0x01];
    assert s6 == [0x01, 0x03, 0x00, 0x00, 0x00, 0x01];
  }

  // ------------------------------------------------------ error detection

  lemma ShiftTop(a: bv16, b: bv16)
    requires a << 1 == b << 1 && (a & 0x8000 != 0) == (b & 0x8000 != 0)
    ensures a == b
  {
  }

  lemma FedBoth(a: bv16, b: bv16, x: bool)
    requires (a & 0x8000 != 0) != x && (b & 0x8000 != 0) != x
    requires CrcBitStep(a, x) == CrcBitStep(b, x)
    ensures a << 1 == b << 1
  {
  }

  lemma FedNeither(a: bv16, b: bv16, x: bool)
    requires (a & 0x8000 != 0) == x && (b & 0x8000 != 0) == x
    requires CrcBitStep(a, x) == CrcBitStep(b, x)
    ensures a << 1 == b << 1
  {
  }

  /** A fed and an unfed register never meet: only the fed one has bit 0
      set. */
  lemma FedOne(a: bv16, b: bv16, x: bool)
    requires (a & 0x8000 != 0) != x && (b & 0x8000 != 0) == x
    ensures CrcBitStep(a, x) != CrcBitStep(b, x)
  {
  }

  /** For a fixed input bit, a register step loses no information. */
  lemma StepInjective(a: bv16, b: bv16, x: bool)
    requires CrcBitStep(a, x) == CrcBitStep(b, x)
    ensures a == b
  {
    var fa, fb := (a & 0x8000 != 0) != x, (b & 0x8000 != 0) != x;
    if fa && fb {
      FedBoth(a, b, x);
    } else if fa {
      FedOne(a, b, x);
      assert false;
    } else if fb {
      FedOne(b, a, x);
      assert false;
    } else {
      FedNeither(a, b, x);
    }
    ShiftTop(a, b);
  }

  /** From the same register, different input bits give different
      registers. */
  lemma StepSeparates(a: bv16, x: bool, y: bool)
    requires x != y
    ensures CrcBitStep(a, x) != CrcBitStep(a, y)
  {
  }

  lemma HalfMask(i: bv32)
    requires IsMask(i) && i != 1
    ensures IsMask(i >> 1) && (i >> 1) < i
  {
  }

  lemma MaskOrder(j: bv32, m: bv32)
    requires IsMask(j) && IsMask(m)
    ensures j < m ==> (j << 1) <= m
  {
  }

  /** Bit `j` of `c ^ m`, for one-bit masks `j` and `m`. */
  lemma BitOfFlip(c: bv32, m: bv32, j: bv32)
    requires IsMask(m) && IsMask(j)
    ensures ((c ^ m) & j != 0) == ((c & j != 0) != (j == m))
  {
  }

  /** Bit `k` of a byte flipped, as the inner loop of calculateCRC sees it. */
  lemma FlipBitMask(b: Byte, k: bv8)
    requires k < 8
    ensures IsMask(((1 as bv8) << k) as bv32) && ((1 as bv8) << k) as bv32 < 0x100
    ensures (FlipBit(b, k) as bv8) as bv32 == ((b as bv8) as bv32) ^ (((1 as bv8) << k) as bv32)
  {
  }

  /** Two registers that differ stay different through the steps of one
      byte. */
  lemma {:induction false} CrcBelowInjective(a: bv16, b: bv16, c: bv8, i: bv32)
    requires IsMask(i)
    requires CrcBelow(a, c, i) == CrcBelow(b, c, i)
    ensures a == b
    decreases i
  {
    if i != 1 {
      HalfMask(i);
      StepInjective(CrcBelow(a, c, i >> 1), CrcBelow(b, c, i >> 1), (c as bv32) & (i >> 1) != 0);
      CrcBelowInjective(a, b, c, i >> 1);
    }
  }

  /** Two bytes that differ in the bit of mask `m` only drive the register
      alike until that bit is shifted in, and apart from then on. */
  lemma {:induction false} CrcBelowFlip(r: bv16, c: bv8, d: bv8, m: bv32, i: bv32)
    requires IsMask(m) && m < 0x100 && IsMask(i)
    requires d as bv32 == (c as bv32) ^ m
    ensures i <= m ==> CrcBelow(r, c, i) == CrcBelow(r, d, i)
    ensures i > m ==> CrcBelow(r, c, i) != CrcBelow(r, d, i)
    decreases i
  {
    if i != 1 {
      var j := i >> 1;
      HalfMask(i);
      CrcBelowFlip(r, c, d, m, j);
      BitOfFlip(c as bv32, m, j);
      var x, y := (c as bv32) & j != 0, (d as bv32) & j != 0;
      var u, v := CrcBelow(r, c, j), CrcBelow(r, d, j);
      if j < m {
        MaskOrder(j, m);
      } else if j == m {
        StepSeparates(u, x, y);
      } else if CrcBitStep(u, x) == CrcBitStep(v, y) {
        StepInjective(u, v, x);
        assert false;
      }
    }
  }

  /** The register after one flipped byte differs from the register after
      the original byte. */
  lemma CrcByteDetectsBitFlip(r: bv16, b: Byte, k: bv8)
    requires k < 8
    ensures CrcByte(r, FlipBit(b, k)) != CrcByte(r, b)
  {
    FlipBitMask(b, k);
    CrcBelowFlip(r, b as bv8, FlipBit(b, k) as bv8, ((1 as bv8) << k) as bv32, 0x100);
  }

  /** The bytes after a difference keep the registers apart. */
  lemma {:induction false} CrcRegisterKeepsApart(s: seq<Byte>, t: seq<Byte>, post: seq<Byte>)
    requires CrcRegister(s) != CrcRegister(t)
    ensures CrcRegister(s + post) != CrcRegister(t + post)
    decreases |post|
  {
    if post == [] {
      assert s + post == s && t + post == t;
    } else {
      var n := |post| - 1;
      CrcRegisterKeepsApart(s, t, post[..n]);
      assert (s + post)[..|s| + n] == s + post[..n];
      assert (t + post)[..|t| + n] == t + post[..n];
      if CrcRegister(s + post) == CrcRegister(t + post) {
        CrcBelowInjective(CrcRegister(s + post[..n]), CrcRegister(t + post[..n]), post[n] as bv8, 0x100);
        assert false;
      }
    }
  }

  /** A byte that drives the register elsewhere changes the register
      after the whole message. */
  lemma CrcRegisterDetectsByteChange(pre: seq<Byte>, b: Byte, d: Byte, post: seq<Byte>)
    requires CrcByte(CrcRegister(pre), d) != CrcByte(CrcRegister(pre), b)
    ensures CrcRegister(pre + [d] + post) != CrcRegister(pre + [b] + post)
  {
    CrcRegisterStep(pre, b, CrcRegister(pre), CrcByte(CrcRegister(pre), b));
    CrcRegisterStep(pre, d, CrcRegister(pre), CrcByte(CrcRegister(pre), d));
    CrcRegisterKeepsApart(pre + [d], pre + [b], post);
  }

  /** The register after `s` with one bit of one byte flipped differs from
      the register after `s`. */
  lemma CrcRegisterDetectsBitFlip(s: seq<Byte>, p: nat, k: bv8)
    requires p < |s| && k < 8
    ensures CrcRegister(s[p := FlipBit(s[p], k)]) != CrcRegister(s)
  {
    var pre, b, post := s[..p], s[p], s[p + 1..];
    var d := FlipBit(b, k);
    UpdateSplits(s, p, d);
    CrcByteDetectsBitFlip(CrcRegister(pre), b, k);
    CrcRegisterDetectsByteChange(pre, b, d, post);
  }

  /** Exchanging the bytes twice gives the value back. */
  lemma ByteSwappedTwice(x: bv16)
    ensures ByteSwapped(ByteSwapped(x)) == x
  {
  }

  /** calculateCRC detects every single-bit error in the checked bytes. */
  lemma CrcDetectsBitFlip(s: seq<Byte>, p: nat, k: bv8)
    requires p < |s| && k < 8
    ensures Crc(s[p := FlipBit(s[p], k)]) != Crc(s)
  {
    var t := s[p := FlipBit(s[p], k)];
    CrcRegisterDetectsBitFlip(s, p, k);
    if Crc(t) == Crc(s) {
      ByteSwappedTwice(Reflected(CrcRegister(t)));
      ByteSwappedTwice(Reflected(CrcRegister(s)));
      ReflectedTwice(CrcRegister(t));
      ReflectedTwice(CrcRegister(s));
      assert false;
    }
  }
}
