/** What the typed writes put on the wire, type by type, in terms of the value alone.

    Where a contract says `P(..) == true` it means `P(..)`; the longer form keeps the verifier from
    proving the parts of P one by one. */
module WireFormat {
  import opened Blocks
  import opened Codec
  import opened TypedIo
  import opened TypedRuns

  /** Byte `k` of `v`, the lowest being byte 0. */
  function ByteAt(v: int, k: nat): int {
    v / Pow(256, k) % 256
  }

  /** `s` is the `b`-byte number `v` in the given byte order. */
  predicate FixedBytes(v: int, b: nat, order: Endian, s: seq<byte>) {
    && |s| == b
    && forall i :: 0 <= i < b ==> s[i] == ByteAt(v, if order == Big then b - 1 - i else i)
  }

  /** `s` is the complete LEB128 number `v`, without padding. */
  predicate LebBytes(v: int, s: seq<byte>) {
    Terminated(s) && LebValue(s) == v && (|s| > 1 ==> s[|s| - 1] != 0)
  }

  lemma {:induction false} VarintIs(v: nat)
    ensures LebBytes(v, Varint(v)) == true
  {
    VarintIsLeb(v);
    if v >= 0x80 {
      VarintIs(v / 0x80);
    }
  }

  lemma DivTwice(v: nat, a: nat, b: nat)
    requires a > 0 && b > 0
    ensures a * b > 0 && v / a / b == v / (a * b)
  {
    DivMod(v, a);
    DivMod(v / a, b);
    Nested(v, a, b, v / a, v % a, v / a / b, v / a % b);
  }

  lemma DivMod(v: nat, a: nat)
    requires a > 0
    ensures v == a * (v / a) + v % a
  {
  }

  lemma Nested(v: nat, a: nat, b: nat, q: nat, r: nat, p: nat, t: nat)
    requires v == a * q + r && r < a && q == b * p + t && t < b
    ensures a * b > 0 && v / (a * b) == p
  {
    MulBound(a, t, r, b);
    Spread(a, b, p, t);
    QuotientIs(v, a * b, p, a * t + r);
  }

  lemma MulBound(a: nat, t: nat, r: nat, b: nat)
    requires r < a && t < b
    ensures a * t + r < a * b
  {
    Gap(a, t, b);
  }

  lemma Spread(a: nat, b: nat, p: nat, t: nat)
    ensures a * (b * p + t) == (a * b) * p + a * t
  {
  }

  lemma QuotientIs(v: nat, m: nat, p: nat, r: nat)
    requires m > 0 && v == m * p + r && r < m
    ensures v / m == p
  {
    Remainder(v, m, p, r);
    var q := v / m;
    assert v == m * q + r;
    if q < p {
      Gap(m, q, p);
    } else if p < q {
      Gap(m, p, q);
    }
  }

  lemma {:induction false} LowFirstAt(v: nat, w: nat, i: nat)
    requires i < w
    ensures LowFirst(v, w)[i] == ByteAt(v, i)
    decreases w
  {
    if i > 0 {
      LowFirstAt(v / 256, w - 1, i - 1);
      DivTwice(v, 256, Pow(256, i - 1));
    }
  }

  lemma LowFirstIs(v: nat, b: nat)
    ensures FixedBytes(v, b, Little, LowFirst(v, b)) == true
  {
    forall i | 0 <= i < b ensures LowFirst(v, b)[i] == ByteAt(v, i) {
      LowFirstAt(v, b, i);
    }
  }

  lemma FixedIs(v: nat, b: nat, order: Endian, host: Endian)
    requires v < Pow(256, b)
    ensures FixedBytes(v, b, order, FixedEncode(v, b, order, host)) == true
  {
    FixedRoundTrip(v, b, order, host, host);
    LowFirstIs(v, b);
    if order == Big {
      HighFirst(v, b, LowFirst(v, b));
    }
  }

  lemma HighFirst(v: nat, b: nat, s: seq<byte>)
    requires FixedBytes(v, b, Little, s)
    ensures FixedBytes(v, b, Big, Reverse(s)) == true
  {
  }

  lemma UnsignedIs(n: int, b: nat)
    requires b > 0 && InSigned(n, 8 * b)
    ensures ToUnsigned(n, 8 * b) == if n >= 0 then n else n + Pow(256, b)
  {
    PowByte(b);
    assert Pow(2, 8 * b) == 2 * Pow(2, 8 * b - 1);
    if n >= 0 {
      ModSmall(n, Pow(256, b));
    } else {
      ModShift(n, Pow(256, b));
    }
  }

  /** What each typed write is meant to put on the wire. */
  predicate OnWire(it: Item, s: seq<byte>)
    requires WellTyped(it)
  {
    match it.kind
    case Unsigned(b) => FixedBytes(it.value.n, b, it.order, s)
    case Signed(b) => FixedBytes(if it.value.n >= 0 then it.value.n else it.value.n + Pow(256, b), b, it.order, s)
    case VarUnsigned(_) => LebBytes(it.value.n, s)
    case VarSigned(_) => LebBytes(if it.value.n >= 0 then 2 * it.value.n else -2 * it.value.n - 1, s)
    case Text(FixedForm(b)) =>
      b <= |s| && FixedBytes(|it.value.s| % Pow(256, b), b, it.order, s[..b]) && s[b..] == it.value.s
    case Text(VarForm(_)) =>
      |it.value.s| <= |s| && LebBytes(|it.value.s|, s[..|s| - |it.value.s|]) && s[|s| - |it.value.s|..] == it.value.s
  }

  lemma NoText(it: Item, host: Endian)
    requires WellTyped(it) && !it.kind.Text?
    ensures Encode(it, host) == EncodeRaw(Raw(it), FormOf(it.kind), it.order, host)
  {
  }

  lemma FixedOnWire(it: Item, host: Endian)
    requires WellTyped(it) && (it.kind.Unsigned? || it.kind.Signed?)
    ensures OnWire(it, Encode(it, host)) == true
  {
    NoText(it, host);
    var v := FixedRaw(it);
    FixedIs(v, it.kind.bytes, it.order, host);
  }

  lemma FixedRaw(it: Item) returns (v: nat)
    requires WellTyped(it) && (it.kind.Unsigned? || it.kind.Signed?)
    ensures v == Raw(it) < Pow(256, it.kind.bytes)
    ensures v == if it.value.n >= 0 then it.value.n else it.value.n + Pow(256, it.kind.bytes)
  {
    v := Raw(it);
    InterpretsIff(it);
    if it.kind.Signed? {
      UnsignedIs(it.value.n, it.kind.bytes);
    }
  }

  lemma VarOnWire(it: Item, host: Endian)
    requires WellTyped(it) && (it.kind.VarUnsigned? || it.kind.VarSigned?)
    ensures OnWire(it, Encode(it, host)) == true
  {
    NoText(it, host);
    if it.kind.VarSigned? {
      ZigzagIs(it.value.n, Bits(it.kind.w));
    }
    VarintIs(Raw(it));
  }

  lemma TextOnWire(it: Item, host: Endian)
    requires WellTyped(it) && it.kind.Text?
    ensures OnWire(it, Encode(it, host)) == true
  {
    InterpretsIff(it);
    var prefix := EncodeRaw(Raw(it), it.kind.prefix, it.order, host);
    Behind(prefix, it.value.s);
    if it.kind.prefix.FixedForm? {
      FixedIs(Raw(it), it.kind.prefix.bytes, it.order, host);
    } else {
      ModSmall(|it.value.s|, Modulus(it.kind.prefix.w));
      VarintIs(Raw(it));
    }
  }

  lemma Behind(a: seq<byte>, b: seq<byte>)
    ensures (a + b)[..|a|] == a && (a + b)[|a|..] == b
  {
  }

  /** Every typed write puts exactly that on the wire, on a machine of either byte order. */
  lemma EncodeIs(it: Item, host: Endian)
    requires WellTyped(it)
    ensures OnWire(it, Encode(it, host)) == true
  {
    match it.kind
    case Unsigned(_) => FixedOnWire(it, host);
    case Signed(_) => FixedOnWire(it, host);
    case VarUnsigned(_) => VarOnWire(it, host);
    case VarSigned(_) => VarOnWire(it, host);
    case Text(_) => TextOnWire(it, host);
  }
}
