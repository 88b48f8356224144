/** The number formats of the byte buffer: fixed width in either byte order, the variable-length
    format for unsigned numbers, and the zigzag mapping for signed ones. */
module Codec {
  import opened Blocks

  // ---------------------------------------------------------------- powers

  function Pow(b: nat, e: nat): (p: nat)
    requires b > 0
    ensures p > 0
  {
    if e == 0 then 1 else b * Pow(b, e - 1)
  }

  // ---------------------------------------------------------------- two's complement

  /** The `n`-bit pattern of `v`, read as an unsigned number. */
  function ToUnsigned(v: int, n: nat): (u: nat)
    ensures u < Pow(2, n)
  {
    v % Pow(2, n)
  }

  predicate InSigned(v: int, n: nat) {
    n > 0 && 0 - Pow(2, n - 1) <= v < Pow(2, n - 1)
  }

  function ToSigned(u: nat, n: nat): int
    requires n > 0
  {
    if u < Pow(2, n - 1) then u else u - Pow(2, n)
  }

  lemma SignedRoundTrip(v: int, n: nat)
    requires InSigned(v, n)
    ensures ToSigned(ToUnsigned(v, n), n) == v
  {
    var m := Pow(2, n - 1);
    assert Pow(2, n) == 2 * m;
    if v < 0 {
      ModShift(v, 2 * m);
    } else {
      ModSmall(v, 2 * m);
    }
  }

  lemma FitsUnsigned(v: nat, n: nat)
    requires v < Pow(2, n)
    ensures ToUnsigned(v, n) == v
  {
    ModSmall(v, Pow(2, n));
  }

  lemma ModSmall(v: nat, m: nat)
    requires v < m
    ensures v % m == v
  {
  }

  lemma ModShift(v: int, m: nat)
    requires 0 < m && 0 - m <= v < 0
    ensures v % m == v + m
  {
    var q := v / m;
    assert v == m * q + v % m;
    if q >= 0 {
      MulSign(m, q);
    } else if q <= -2 {
      MulSign(m, -2 - q);
    }
  }

  lemma MulSign(x: nat, y: nat)
    ensures x * y >= 0
  {
  }

  // ---------------------------------------------------------------- fixed width

  datatype Endian = Little | Big

  /** The `w` bytes of `v`, lowest first. */
  function LowFirst(v: nat, w: nat): (s: seq<byte>)
    ensures |s| == w
  {
    if w == 0 then [] else [v % 256] + LowFirst(v / 256, w - 1)
  }

  function LowFirstValue(s: seq<byte>): nat {
    if s == [] then 0 else s[0] + 256 * LowFirstValue(s[1..])
  }

  lemma {:induction false} LowFirstRoundTrip(v: nat, w: nat)
    requires v < Pow(256, w)
    ensures LowFirstValue(LowFirst(v, w)) == v
  {
    if w > 0 {
      assert v / 256 < Pow(256, w - 1);
      LowFirstRoundTrip(v / 256, w - 1);
      assert LowFirst(v, w)[1..] == LowFirst(v / 256, w - 1);
    }
  }

  lemma {:induction false} LowFirstOf(s: seq<byte>)
    ensures LowFirstValue(s) < Pow(256, |s|) && LowFirst(LowFirstValue(s), |s|) == s
  {
    if s != [] {
      LowFirstOf(s[1..]);
      var rest := LowFirstValue(s[1..]);
      assert (s[0] + 256 * rest) / 256 == rest && (s[0] + 256 * rest) % 256 == s[0];
      assert s == [s[0]] + s[1..];
    }
  }

  function Reverse(s: seq<byte>): (r: seq<byte>)
    ensures |r| == |s|
    ensures forall i :: 0 <= i < |s| ==> r[i] == s[|s| - 1 - i]
  {
    if s == [] then [] else Reverse(s[1..]) + [s[0]]
  }

  /** bswap_16, bswap_32, bswap_64: the number with the same bytes in the opposite order. */
  function ByteSwap(v: nat, w: nat): nat {
    LowFirstValue(Reverse(LowFirst(v, w)))
  }

  lemma ByteSwapBytes(v: nat, w: nat)
    ensures LowFirst(ByteSwap(v, w), w) == Reverse(LowFirst(v, w)) && ByteSwap(v, w) < Pow(256, w)
  {
    LowFirstOf(Reverse(LowFirst(v, w)));
  }

  lemma ByteSwapTwice(v: nat, w: nat)
    requires v < Pow(256, w)
    ensures ByteSwap(ByteSwap(v, w), w) == v
  {
    ByteSwapBytes(v, w);
    assert Reverse(Reverse(LowFirst(v, w))) == LowFirst(v, w);
    LowFirstRoundTrip(v, w);
  }

  /** How a machine of byte order `host` lays out the `w`-byte number `v` in memory. */
  function InMemory(v: nat, w: nat, host: Endian): seq<byte> {
    if host == Little then LowFirst(v, w) else Reverse(LowFirst(v, w))
  }

  function FromMemory(s: seq<byte>, host: Endian): nat {
    if host == Little then LowFirstValue(s) else LowFirstValue(Reverse(s))
  }

  /** writeFuint16, 32, 64: swapped when the array's order is not that of the machine. */
  function FixedEncode(v: nat, w: nat, order: Endian, host: Endian): seq<byte> {
    InMemory(if order != host then ByteSwap(v, w) else v, w, host)
  }

  /** readFuint16, 32, 64. */
  function FixedDecode(s: seq<byte>, order: Endian, host: Endian): nat {
    var v := FromMemory(s, host);
    if order == host then v else ByteSwap(v, |s|)
  }

  /** What goes on the wire does not depend on the machine, and reading inverts writing even
      on a machine of the other byte order. */
  lemma FixedRoundTrip(v: nat, w: nat, order: Endian, host: Endian, host': Endian)
    requires v < Pow(256, w)
    ensures FixedEncode(v, w, order, host) == if order == Little then LowFirst(v, w) else Reverse(LowFirst(v, w))
    ensures FixedDecode(FixedEncode(v, w, order, host), order, host') == v
  {
    var s := LowFirst(v, w);
    ByteSwapBytes(v, w);
    assert Reverse(Reverse(s)) == s;
    LowFirstRoundTrip(v, w);
    ByteSwapTwice(v, w);
  }

  // ---------------------------------------------------------------- variable length

  /** The loop of writeUint32 and writeUint64: seven bits a byte, lowest first, with the top
      bit set on all bytes but the last. */
  function Varint(v: nat): (s: seq<byte>)
    ensures |s| > 0
  {
    if v < 0x80 then [v] else [v % 0x80 + 0x80] + Varint(v / 0x80)
  }

  /** The number denoted by unsigned LEB128 (section 7.6 of DWARF 5): the low seven bits of
      the bytes, as digits to the base 128. */
  function LebValue(s: seq<byte>): nat {
    if s == [] then 0 else s[0] % 0x80 + 0x80 * LebValue(s[1..])
  }

  /** A complete LEB128 number: the first byte below 0x80 is the last one. */
  predicate Terminated(s: seq<byte>) {
    s != [] && s[|s| - 1] < 0x80 && forall i :: 0 <= i < |s| - 1 ==> s[i] >= 0x80
  }

  lemma {:induction false} VarintIsLeb(v: nat)
    ensures Terminated(Varint(v)) && LebValue(Varint(v)) == v
  {
    if v >= 0x80 {
      VarintIsLeb(v / 0x80);
      assert Varint(v)[1..] == Varint(v / 0x80);
    } else {
      assert Varint(v)[1..] == [];
    }
  }

  lemma {:induction false} LebBound(s: seq<byte>)
    ensures LebValue(s) < Pow(0x80, |s|)
  {
    if s != [] {
      LebBound(s[1..]);
    }
  }

  lemma {:induction false} VarintLength(v: nat, n: nat)
    requires n > 0
    ensures |Varint(v)| <= n <==> v < Pow(0x80, n)
  {
    if v >= 0x80 && n > 1 {
      VarintLength(v / 0x80, n - 1);
      assert v / 0x80 < Pow(0x80, n - 1) <==> v < 0x80 * Pow(0x80, n - 1);
    } else if n == 1 {
      assert Pow(0x80, 1) == 0x80 * Pow(0x80, 0);
    } else {
      PowMono(n);
    }
  }

  lemma {:induction false} PowMono(n: nat)
    requires n > 0
    ensures Pow(0x80, n) >= 0x80
  {
    if n == 1 {
      assert Pow(0x80, 1) == 0x80 * Pow(0x80, 0);
    } else {
      PowMono(n - 1);
    }
  }

  /** No complete LEB128 number for `v` is shorter than what the code writes, and any of the
      same length is what the code writes. */
  lemma VarintIsShortest(v: nat, s: seq<byte>)
    requires Terminated(s) && LebValue(s) == v
    ensures |Varint(v)| <= |s|
    ensures |Varint(v)| == |s| ==> s == Varint(v)
  {
    LebBound(s);
    VarintLength(v, |s|);
    VarintIsLeb(v);
    if |Varint(v)| == |s| {
      SameLengthSame(s, Varint(v));
    }
  }

  lemma {:induction false} SameLengthSame(s: seq<byte>, t: seq<byte>)
    requires |s| == |t| && Terminated(s) && Terminated(t) && LebValue(s) == LebValue(t)
    ensures s == t
  {
    assert s[0] % 0x80 == t[0] % 0x80 && LebValue(s[1..]) == LebValue(t[1..]);
    if |s| > 1 {
      SameLengthSame(s[1..], t[1..]);
    }
    assert s == [s[0]] + s[1..] && t == [t[0]] + t[1..];
  }

  lemma VarintLimits(v: nat)
    ensures v < 0x1_0000_0000 ==> |Varint(v)| <= 5
    ensures v < 0x1_0000_0000_0000_0000 ==> |Varint(v)| <= 10
  {
    Pow128(5);
    Pow128(10);
    VarintLength(v, 5);
    VarintLength(v, 10);
  }

  lemma Pow128(n: nat)
    ensures n == 5 ==> Pow(0x80, n) == 0x8_0000_0000
    ensures n == 10 ==> Pow(0x80, n) == 0x40_0000_0000_0000_0000
  {
    if n == 5 {
      assert Pow(0x80, 5) == 0x80 * (0x80 * (0x80 * (0x80 * (0x80 * Pow(0x80, 0)))));
    }
    if n == 10 {
      assert Pow(0x80, 5) == 0x80 * (0x80 * (0x80 * (0x80 * (0x80 * Pow(0x80, 0)))));
      assert Pow(0x80, 10) == 0x80 * (0x80 * (0x80 * (0x80 * (0x80 * Pow(0x80, 5)))));
    }
  }

  // ---------------------------------------------------------------- zigzag

  /** EncodeZigzag32 and 64, on `n`-bit words that wrap around: the negation, the doubling and
      the decrement are all taken modulo 2^n. */
  function ZigzagEncode(v: int, n: nat): nat
    requires InSigned(v, n)
  {
    if v < 0 then ToUnsigned(ToUnsigned(-v, n) * 2 - 1, n) else ToUnsigned(v * 2, n)
  }

  /** DecodeZigzag32 and 64: u / 2, with all bits flipped (`^ -1`) when `u` is odd. */
  function ZigzagDecode(u: nat, n: nat): int
    requires n > 0 && u < Pow(2, n)
  {
    ToSigned(if u % 2 == 0 then u / 2 else Pow(2, n) - 1 - u / 2, n)
  }

  lemma Pow2Splits(n: nat)
    requires n > 0
    ensures Pow(2, n) == Pow(2, n - 1) + Pow(2, n - 1)
  {
  }

  /** The zigzag order 0, -1, 1, -2, 2, ..: for every number of the width, the lowest one included. */
  lemma ZigzagIs(v: int, n: nat)
    requires InSigned(v, n)
    ensures ZigzagEncode(v, n) == if v < 0 then -2 * v - 1 else 2 * v
    ensures ZigzagEncode(v, n) < Pow(2, n)
  {
    Pow2Splits(n);
    if v < 0 {
      FitsUnsigned(-v, n);
      FitsUnsigned(-v * 2 - 1, n);
    } else {
      FitsUnsigned(v * 2, n);
    }
  }

  lemma ZigzagRoundTrip(v: int, n: nat)
    requires InSigned(v, n)
    ensures ZigzagEncode(v, n) < Pow(2, n) && ZigzagDecode(ZigzagEncode(v, n), n) == v
  {
    ZigzagIs(v, n);
    Pow2Splits(n);
    var u := ZigzagEncode(v, n);
    if v < 0 {
      assert u % 2 == 1 && u / 2 == -v - 1;
    } else {
      assert u % 2 == 0 && u / 2 == v;
    }
  }

  lemma ZigzagOnto(u: nat, n: nat)
    requires n > 0 && u < Pow(2, n)
    ensures InSigned(ZigzagDecode(u, n), n) && ZigzagEncode(ZigzagDecode(u, n), n) == u
  {
    Pow2Splits(n);
    ZigzagIs(ZigzagDecode(u, n), n);
  }
}
