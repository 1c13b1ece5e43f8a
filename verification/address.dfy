/** `addressInNetwork` (rsvp-auto-tunnel-mesh.py:109-114): the IPv4 prefix
    match of RFC 4632, section 3.1, computed the way the script computes it.
    Each dotted-quad octet is printed with `'%02x'`, the pieces are joined
    and read back as one hexadecimal number; the mask is
    `(0xffffffff << (32 - bits)) & 0xffffffff`. */
module Address {
  import opened Strings

  /** The regular expression `[0-9]+\.[0-9]+\.[0-9]+\.[0-9]+` over the whole string. */
  predicate IsDottedQuad(s: string)
  {
    var parts := Split(s, '.');
    |parts| == 4 && IsDigits(parts[0]) && IsDigits(parts[1]) && IsDigits(parts[2]) && IsDigits(parts[3])
  }

  /** `[int(x) for x in s.split('.')]` */
  function Octets(s: string): (os: seq<nat>)
    requires IsDottedQuad(s)
    ensures |os| == 4
  {
    var p := Split(s, '.');
    [DecValue(p[0]), DecValue(p[1]), DecValue(p[2]), DecValue(p[3])]
  }

  /** A dotted quad whose octets all fit in a byte. */
  predicate IsIPv4(s: string)
  {
    IsDottedQuad(s) && forall i :: 0 <= i < 4 ==> Octets(s)[i] < 256
  }

  /** A dotted quad holds only digits and dots, so it never contains the
      separators `/`, `-` and ` ` that the device strings are split on. */
  lemma {:induction false} DottedQuadChars(s: string)
    requires IsDottedQuad(s)
    ensures forall c :: c in s ==> IsDigit(c) || c == '.'
    ensures '/' !in s && '-' !in s && ' ' !in s
  {
    var p := Split(s, '.');
    JoinSplit(s, '.');
    assert Join(p[2..], '.') == p[2] + "." + p[3] by {
      assert p[2..][1..] == p[3..];
    }
    assert Join(p[1..], '.') == p[1] + "." + p[2] + "." + p[3] by {
      assert p[1..][1..] == p[2..];
    }
    assert s == p[0] + "." + p[1] + "." + p[2] + "." + p[3];
    forall c | c in s
      ensures IsDigit(c) || c == '.'
    {
      if c in p[0] { var i :| 0 <= i < |p[0]| && p[0][i] == c; }
      else if c in p[1] { var i :| 0 <= i < |p[1]| && p[1][i] == c; }
      else if c in p[2] { var i :| 0 <= i < |p[2]| && p[2][i] == c; }
      else if c in p[3] { var i :| 0 <= i < |p[3]| && p[3][i] == c; }
    }
  }

  /** Number of digits of `v` in hexadecimal (`'%x' % v`). */
  function HexDigitCount(v: nat): (k: nat)
    ensures k >= 1
  {
    if v < 16 then 1 else 1 + HexDigitCount(v / 16)
  }

  /** Width of `'%02x' % v`: zero-padded to at least two digits. */
  function FieldWidth(v: nat): nat
  {
    if HexDigitCount(v) < 2 then 2 else HexDigitCount(v)
  }

  function Pow16(k: nat): (p: nat)
    ensures p >= 1
  {
    if k == 0 then 1 else 16 * Pow16(k - 1)
  }

  /** `int(''.join(['%02x' % o for o in os]), 16)`: appending a field of
      width `w` to a hexadecimal numeral multiplies its value by `16^w` and
      adds the field's value. */
  function HexJoin(os: seq<nat>): nat
  {
    if |os| == 0 then 0
    else HexJoin(os[..|os| - 1]) * Pow16(FieldWidth(os[|os| - 1])) + os[|os| - 1]
  }

  /** The integer `addressInNetwork` computes for a dotted quad. */
  function AddressValue(s: string): nat
    requires IsDottedQuad(s)
  {
    HexJoin(Octets(s))
  }

  /** For byte-sized octets every field is two hexadecimal digits wide, so the
      joined numeral is the big-endian base-256 value of the four octets. */
  lemma {:induction false} AddressValueOfIPv4(s: string)
    requires IsIPv4(s)
    ensures var o := Octets(s); AddressValue(s) == ((o[0] * 256 + o[1]) * 256 + o[2]) * 256 + o[3]
    ensures AddressValue(s) < 0x1_0000_0000
  {
    var o := Octets(s);
    forall i | 0 <= i < 4 ensures FieldWidth(o[i]) == 2 {
      assert o[i] < 256;
      assert HexDigitCount(o[i]) <= 2 by {
        if o[i] >= 16 { assert o[i] / 16 < 16; }
      }
    }
    assert Pow16(2) == 256;
    assert o[..3][..2] == o[..2];
    assert o[..2][..1] == o[..1];
    assert o[..1][..0] == [];
    assert HexJoin(o[..1]) == o[0];
    assert HexJoin(o[..2]) == o[0] * 256 + o[1];
    assert HexJoin(o[..3]) == (o[0] * 256 + o[1]) * 256 + o[2];
    assert HexJoin(o) == HexJoin(o[..3]) * 256 + o[3];
  }

  /** A prefix length as the device reports it. */
  type PrefixLength = n: int | 0 <= n <= 32

  // Python's operators on non-negative integers, which are unbounded.

  /** `x & y` */
  function BitAnd(x: nat, y: nat): nat
  {
    if x == 0 || y == 0 then 0
    else 2 * BitAnd(x / 2, y / 2) + (if x % 2 == 1 && y % 2 == 1 then 1 else 0)
  }

  /** `y << k` */
  function ShiftLeft(y: nat, k: nat): nat
  {
    if k == 0 then y else 2 * ShiftLeft(y, k - 1)
  }

  /** `x >> k` */
  function ShiftRight(x: nat, k: nat): nat
  {
    if k == 0 then x else ShiftRight(x / 2, k - 1)
  }

  /** `x % 2**n`: the `n` lowest bits of `x`. */
  function LowBits(x: nat, n: nat): nat
  {
    if n == 0 then 0 else 2 * LowBits(x / 2, n - 1) + x % 2
  }

  /** `2**n - 1`: `n` one bits. */
  function Ones(n: nat): nat
  {
    if n == 0 then 0 else 2 * Ones(n - 1) + 1
  }

  function Pow2(n: nat): (p: nat)
    ensures p >= 1
  {
    if n == 0 then 1 else 2 * Pow2(n - 1)
  }

  /** `(0xffffffff << (32 - bits)) & 0xffffffff` */
  function Mask(bits: PrefixLength): nat
  {
    BitAnd(ShiftLeft(0xffff_ffff, 32 - bits), 0xffff_ffff)
  }

  /** `addressInNetwork(ip, network + '/' + str(bits))` */
  predicate AddressInNetwork(ip: string, network: string, bits: PrefixLength)
    requires IsDottedQuad(ip) && IsDottedQuad(network)
  {
    BitAnd(AddressValue(ip), Mask(bits)) == BitAnd(AddressValue(network), Mask(bits))
  }

  /** The test compares the leading `bits` bits of the two 32-bit values:
      bits `32 - bits` up to 31, and nothing else. */
  lemma {:induction false} AddressInNetworkIff(ip: string, network: string, bits: PrefixLength)
    requires IsDottedQuad(ip) && IsDottedQuad(network)
    ensures AddressInNetwork(ip, network, bits) <==>
            LowBits(ShiftRight(AddressValue(ip), 32 - bits), bits) ==
            LowBits(ShiftRight(AddressValue(network), 32 - bits), bits)
  {
    var k := 32 - bits;
    MaskIsLeadingOnes(bits);
    var x, y := AddressValue(ip), AddressValue(network);
    BitAndShifted(x, Ones(bits), k);
    BitAndShifted(y, Ones(bits), k);
    BitAndOnes(ShiftRight(x, k), bits);
    BitAndOnes(ShiftRight(y, k), bits);
    var a, b := LowBits(ShiftRight(x, k), bits), LowBits(ShiftRight(y, k), bits);
    if ShiftLeft(a, k) == ShiftLeft(b, k) {
      ShiftLeftInjective(a, b, k);
    }
  }

  /** A `/0` network contains every address. */
  lemma ZeroLengthContainsAll(ip: string, network: string)
    requires IsDottedQuad(ip) && IsDottedQuad(network)
    ensures AddressInNetwork(ip, network, 0)
  {
    AddressInNetworkIff(ip, network, 0);
  }

  /** Every address lies in the network formed from itself, at any length. */
  lemma OwnNetworkContains(ip: string, bits: PrefixLength)
    requires IsDottedQuad(ip)
    ensures AddressInNetwork(ip, ip, bits)
  {
  }

  /** A `/32` network contains exactly its own address: the same four octets. */
  lemma {:induction false} FullLengthContainsExactly(ip: string, network: string)
    requires IsIPv4(ip) && IsIPv4(network)
    ensures AddressInNetwork(ip, network, 32) <==> Octets(ip) == Octets(network)
  {
    var a, b := Octets(ip), Octets(network);
    AddressValueOfIPv4(ip);
    AddressValueOfIPv4(network);
    AddressInNetworkIff(ip, network, 32);
    var x, y := AddressValue(ip), AddressValue(network);
    Pow2Of32();
    LowBitsOfSmall(x, 32);
    LowBitsOfSmall(y, 32);
    if AddressInNetwork(ip, network, 32) {
      assert x == y;
      Base256Digits(a[0] * 256 + a[1], a[2], b[0] * 256 + b[1], b[2], a[3], b[3]);
      Base256Digits(a[0], a[1], b[0], b[1], a[2], b[2]);
      assert a == [a[0], a[1], a[2], a[3]] && b == [b[0], b[1], b[2], b[3]];
    }
  }

  /** Shortening the prefix widens the network. */
  lemma {:induction false} ShorterPrefixContains(ip: string, network: string, bits: PrefixLength, shorter: PrefixLength)
    requires IsDottedQuad(ip) && IsDottedQuad(network)
    requires shorter <= bits
    requires AddressInNetwork(ip, network, bits)
    ensures AddressInNetwork(ip, network, shorter)
  {
    AddressInNetworkIff(ip, network, bits);
    AddressInNetworkIff(ip, network, shorter);
    var k, d := 32 - bits, bits - shorter;
    var x, y := AddressValue(ip), AddressValue(network);
    ShiftRightAdd(x, k, d);
    ShiftRightAdd(y, k, d);
    LowBitsOfShiftRight(ShiftRight(x, k), d, shorter);
    LowBitsOfShiftRight(ShiftRight(y, k), d, shorter);
  }

  /** Two base-256 numerals with the same value have the same digits. */
  lemma Base256Digits(x: nat, d: nat, x': nat, d': nat, e: nat, e': nat)
    requires d < 256 && d' < 256 && e < 256 && e' < 256
    requires (x * 256 + d) * 256 + e == (x' * 256 + d') * 256 + e'
    ensures x == x' && d == d' && e == e'
  {
    Base256Digit(x * 256 + d, e, x' * 256 + d', e');
    Base256Digit(x, d, x', d');
  }

  lemma Base256Digit(x: nat, d: nat, x': nat, d': nat)
    requires d < 256 && d' < 256
    requires x * 256 + d == x' * 256 + d'
    ensures x == x' && d == d'
  {
  }

  // Facts about the integer bit operations, each by induction on a bit count.

  lemma {:induction false} MaskIsLeadingOnes(bits: PrefixLength)
    ensures Mask(bits) == ShiftLeft(Ones(bits), 32 - bits)
  {
    Pow2Of32();
    OnesIsPow2Less1(32);
    BitAndOnes(ShiftLeft(Ones(32), 32 - bits), 32);
    LowBitsOfShiftLeft(Ones(32), 32 - bits, 32);
    LowBitsOfOnes(32, bits);
  }

  lemma {:induction false} BitAndOnes(x: nat, n: nat)
    ensures BitAnd(x, Ones(n)) == LowBits(x, n)
  {
    if n > 0 {
      if x == 0 {
        LowBitsOfSmall(0, n);
      } else {
        BitAndOnes(x / 2, n - 1);
      }
    }
  }

  lemma {:induction false} BitAndShifted(x: nat, y: nat, k: nat)
    ensures BitAnd(x, ShiftLeft(y, k)) == ShiftLeft(BitAnd(ShiftRight(x, k), y), k)
  {
    if k > 0 {
      var z := ShiftLeft(y, k - 1);
      BitAndShifted(x / 2, y, k - 1);
      if y == 0 {
        ShiftLeftZero(k);
      } else if x == 0 {
        ShiftRightZero(k);
        ShiftLeftZero(k);
      } else {
        ShiftLeftPositive(y, k - 1);
      }
    }
  }

  lemma {:induction false} LowBitsOfShiftLeft(y: nat, k: nat, n: nat)
    requires k <= n
    ensures LowBits(ShiftLeft(y, k), n) == ShiftLeft(LowBits(y, n - k), k)
  {
    if k > 0 {
      var z := ShiftLeft(y, k - 1);
      assert ShiftLeft(y, k) == 2 * z;
      assert (2 * z) / 2 == z && (2 * z) % 2 == 0;
      assert LowBits(2 * z, n) == 2 * LowBits(z, n - 1);
      LowBitsOfShiftLeft(y, k - 1, n - 1);
    }
  }

  lemma {:induction false} LowBitsOfOnes(m: nat, j: nat)
    requires j <= m
    ensures LowBits(Ones(m), j) == Ones(j)
  {
    if j > 0 {
      LowBitsOfOnes(m - 1, j - 1);
    }
  }

  lemma {:induction false} LowBitsOfSmall(x: nat, n: nat)
    requires x < Pow2(n)
    ensures LowBits(x, n) == x
  {
    if n > 0 {
      LowBitsOfSmall(x / 2, n - 1);
    }
  }

  lemma {:induction false} LowBitsOfShiftRight(u: nat, d: nat, m: nat)
    ensures LowBits(ShiftRight(u, d), m) == ShiftRight(LowBits(u, m + d), d)
  {
    if d > 0 {
      LowBitsOfShiftRight(u / 2, d - 1, m);
    }
  }

  lemma {:induction false} ShiftRightAdd(x: nat, k: nat, d: nat)
    ensures ShiftRight(x, k + d) == ShiftRight(ShiftRight(x, k), d)
  {
    if k > 0 {
      ShiftRightAdd(x / 2, k - 1, d);
    }
  }

  lemma {:induction false} ShiftLeftInjective(a: nat, b: nat, k: nat)
    requires ShiftLeft(a, k) == ShiftLeft(b, k)
    ensures a == b
  {
    if k > 0 {
      ShiftLeftInjective(a, b, k - 1);
    }
  }

  lemma {:induction false} ShiftLeftPositive(y: nat, k: nat)
    requires y > 0
    ensures ShiftLeft(y, k) > 0
  {
    if k > 0 {
      ShiftLeftPositive(y, k - 1);
    }
  }

  lemma {:induction false} OnesIsPow2Less1(n: nat)
    ensures Ones(n) + 1 == Pow2(n)
  {
    if n > 0 {
      OnesIsPow2Less1(n - 1);
    }
  }

  lemma {:induction false} Pow2Add(a: nat, b: nat)
    ensures Pow2(a + b) == Pow2(a) * Pow2(b)
  {
    if a > 0 {
      Pow2Add(a - 1, b);
    }
  }

  lemma Pow2Of32()
    ensures Pow2(32) == 0x1_0000_0000
  {
    assert Pow2(4) == 16;
    Pow2Add(4, 4);
    Pow2Add(8, 8);
    Pow2Add(16, 16);
  }

  lemma {:induction false} ShiftLeftZero(k: nat)
    ensures ShiftLeft(0, k) == 0
  {
    if k > 0 {
      ShiftLeftZero(k - 1);
    }
  }

  lemma {:induction false} ShiftRightZero(k: nat)
    ensures ShiftRight(0, k) == 0
  {
    if k > 0 {
      ShiftRightZero(k - 1);
    }
  }
}
