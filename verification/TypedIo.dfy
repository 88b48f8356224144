/** Typed writes and reads on the byte buffer.  The byte order kept in m_endian is passed as
    `order`, that of the machine as `host`.

    Where a contract says `P(..) == true` it means `P(..)`; the longer form keeps the verifier from
    proving the parts of P one by one. */
module TypedIo {
  import opened Blocks
  import opened ByteArrays
  import opened Codec

  // ---------------------------------------------------------------- variable length

  /** The 32-bit and the 64-bit form of the variable-length functions. */
  datatype Width = W32 | W64

  function Bits(w: Width): nat {
    if w == W32 then 32 else 64
  }

  /** Rounds of the read loop, which is also the size of the buffer of the write loop. */
  function Rounds(w: Width): nat {
    if w == W32 then 5 else 10
  }

  function Modulus(w: Width): nat {
    if w == W32 then 0x1_0000_0000 else 0x1_0000_0000_0000_0000
  }

  /** What is left of the modulus in the last round of the read loop. */
  function TopDigits(w: Width): nat {
    if w == W32 then 16 else 2
  }

  lemma ModulusIs(w: Width)
    ensures Modulus(w) == Pow(0x80, Rounds(w) - 1) * TopDigits(w)
    ensures Pow(0x80, Rounds(w) - 1) <= Modulus(w)
  {
    Pow128(5);
    Pow128(10);
    assert Pow(0x80, 5) == 0x80 * Pow(0x80, 4) && Pow(0x80, 10) == 0x80 * Pow(0x80, 9);
  }

  method WriteUint(ba: ByteArray, v: nat, w: Width)
    requires ba.Valid() && v < Modulus(w)
    modifies ba, ba.Repr
    ensures ba.Valid() && fresh(ba.Repr - old(ba.Repr))
    ensures ba.position == old(ba.position) + |Varint(v)| && ba.size == Max(old(ba.size), ba.position)
    ensures ba.capacity == old(ba.Grown(|Varint(v)|))
    ensures ba.Contents() == Overlay(old(ba.Contents()), old(ba.position), Varint(v))
  {
    var bytes := VarintBytes(v, w);
    ba.Write(bytes);
  }

  /** The loop of writeUint32 and writeUint64, in a buffer of 5 or 10 bytes. */
  method VarintBytes(v: nat, w: Width) returns (bytes: seq<byte>)
    requires v < Modulus(w)
    ensures bytes == Varint(v)
  {
    VarintLimits(v);
    var tmp := new byte[Rounds(w)];
    var i: nat, value: nat := 0, v;
    ghost var rest := Varint(v);
    while value >= 0x80
      invariant rest == Varint(value)
      invariant i + |rest| == |Varint(v)| <= tmp.Length
      invariant tmp[..i] + rest == Varint(v)
    {
      Append(tmp, i, value % 0x80 + 0x80, rest);
      i := i + 1;
      value := value / 0x80;
      rest := rest[1..];
    }
    Append(tmp, i, value, rest);
    i := i + 1;
    bytes := tmp[..i];
  }

  /** tmp[i] = b, where `b` is the first of the bytes still to come. */
  method Append(tmp: array<byte>, i: nat, b: byte, ghost rest: seq<byte>)
    requires i < tmp.Length && rest != [] && b == rest[0]
    modifies tmp
    ensures tmp[..i + 1] + rest[1..] == old(tmp[..i]) + rest
    ensures rest[1..] == [] ==> tmp[..i + 1] == old(tmp[..i]) + rest
  {
    tmp[i] := b;
    assert tmp[..i + 1] == old(tmp[..i]) + [b];
    assert rest == [b] + rest[1..];
  }

  /** How many bytes the read loop takes, when at most `limit` rounds are left. */
  function Taken(s: seq<byte>, limit: nat): (n: nat)
    ensures n <= |s| && n <= limit
  {
    if limit == 0 || s == [] then 0
    else if s[0] < 0x80 then 1
    else 1 + Taken(s[1..], limit - 1)
  }

  /** The bytes end before the loop does. */
  predicate Short(s: seq<byte>, limit: nat) {
    limit > 0 && (s == [] || (s[0] >= 0x80 && Short(s[1..], limit - 1)))
  }

  lemma {:induction false} LebAppend(s: seq<byte>, b: byte)
    ensures LebValue(s + [b]) == LebValue(s) + Scale(Pow(0x80, |s|), b % 0x80)
  {
    if s == [] {
      assert s + [b] == [b] && [b][1..] == [];
    } else {
      LebAppend(s[1..], b);
      assert (s + [b])[1..] == s[1..] + [b];
      MulShuffle(Pow(0x80, |s| - 1), b % 0x80);
    }
  }

  lemma MulShuffle(p: nat, x: nat)
    ensures 0x80 * (p * x) == (0x80 * p) * x
  {
  }

  /** One round of the read loop: seven more bits, multiplied by the power of two `p` in a word
      of the width.  They do not overlap those already there, so that `|=` adds them. */
  function AddDigits(result: nat, b: byte, p: nat, w: Width): nat {
    result + Scale(p, b % 0x80) % Modulus(w)
  }

  function Scale(p: nat, x: nat): nat {
    p * x
  }

  lemma {:induction false} PowSeven(k: nat)
    ensures Pow(2, 7 * k) == Pow(0x80, k)
  {
    if k > 0 {
      PowSeven(k - 1);
      var n := 7 * (k - 1);
      assert Pow(2, n + 2) == 4 * Pow(2, n);
      assert Pow(2, n + 4) == 4 * Pow(2, n + 2);
      assert Pow(2, n + 6) == 4 * Pow(2, n + 4);
    }
  }

  lemma {:induction false} PowGrows(m: nat, n: nat)
    requires m <= n
    ensures Pow(0x80, m) <= Pow(0x80, n)
  {
    if m < n {
      PowGrows(m, n - 1);
    }
  }

  lemma LebFits(s: seq<byte>, w: Width)
    requires |s| < Rounds(w)
    ensures LebValue(s) < Modulus(w)
  {
    LebBound(s);
    PowGrows(|s|, Rounds(w) - 1);
    ModulusIs(w);
  }

  /** `r` and `d`, the latter cut to a word, make up the word of `sum`. */
  predicate Wraps(r: nat, d: nat, m: nat, sum: nat) {
    m > 0 && r + d % m == sum % m
  }

  /** The shift loses bits only in the last round, and then as a whole word would. */
  lemma DigitsWrap(s: seq<byte>, b: byte, w: Width)
    requires |s| < Rounds(w)
    ensures AddDigits(LebValue(s), b, Pow(0x80, |s|), w) == LebValue(s + [b]) % Modulus(w)
  {
    if |s| < Rounds(w) - 1 {
      WrapSmall(s, b, w);
    } else {
      WrapLast(s, b, w);
    }
  }

  lemma WrapSmall(s: seq<byte>, b: byte, w: Width)
    requires |s| < Rounds(w) - 1
    ensures Wraps(LebValue(s), Scale(Pow(0x80, |s|), b % 0x80), Modulus(w), LebValue(s + [b])) == true
  {
    LebAppend(s, b);
    LebFits(s + [b], w);
    SmallSum(LebValue(s), Scale(Pow(0x80, |s|), b % 0x80), Modulus(w), LebValue(s + [b]));
  }

  lemma WrapLast(s: seq<byte>, b: byte, w: Width)
    requires |s| == Rounds(w) - 1
    ensures Wraps(LebValue(s), Scale(Pow(0x80, |s|), b % 0x80), Modulus(w), LebValue(s + [b])) == true
  {
    LebAppend(s, b);
    LebBound(s);
    ModulusIs(w);
    LastDigits(LebValue(s), Pow(0x80, |s|), b % 0x80, TopDigits(w));
  }

  lemma SmallSum(r: nat, d: nat, m: nat, sum: nat)
    requires r + d == sum < m
    ensures Wraps(r, d, m, sum) == true
  {
    ModSmall(d, m);
    ModSmall(sum, m);
  }

  lemma LastDigits(r: nat, p: nat, x: nat, t: nat)
    requires r < p && t > 0
    ensures Wraps(r, Scale(p, x), p * t, r + Scale(p, x)) == true
  {
    var q, y := x / t, x % t;
    assert x == t * q + y;
    Distribute(p, t, q, y);
    RoomLeft(r, p, t, y);
    Remainder(Scale(p, x), p * t, q, p * y);
    Remainder(r + Scale(p, x), p * t, q, r + p * y);
  }

  lemma RoomLeft(r: nat, p: nat, t: nat, y: nat)
    requires r < p && y < t
    ensures p * t > 0 && r + p * y < p * t
  {
    Gap(p, y, t);
  }

  lemma Distribute(p: nat, t: nat, q: nat, y: nat)
    ensures p * (t * q + y) == (p * t) * q + p * y
  {
  }

  lemma Remainder(v: nat, m: nat, q: nat, r: nat)
    requires m > 0 && v == m * q + r && r < m
    ensures v % m == r
  {
    var q', r' := v / m, v % m;
    assert v == m * q' + r';
    if q' < q {
      Gap(m, q', q);
    } else if q < q' {
      Gap(m, q, q');
    }
  }

  lemma Gap(m: nat, q: nat, q': nat)
    requires q < q'
    ensures m * q + m <= m * q'
  {
    assert m * q' == m * (q + 1) + m * (q' - q - 1);
  }

  /** readUint32 and readUint64, on any bytes: the value of what was taken, cut to the width;
      std::out_of_range when the bytes end first, with those taken so far gone. */
  method ReadUint(ba: ByteArray, w: Width) returns (r: Outcome<nat>)
    requires ba.Valid()
    modifies ba`position, ba`cur
    ensures ba.Valid()
    ensures var s := ba.Contents()[old(ba.position)..];
      && ba.position == old(ba.position) + Taken(s, Rounds(w))
      && r == if Short(s, Rounds(w)) then OutOfRange else Done(LebValue(s[..Taken(s, Rounds(w))]) % Modulus(w))
  {
    ghost var s, start := ba.Contents()[ba.position..], ba.position;
    r := TakeDigits(ba, w, s, start);
  }

  /** The cursor of `ba` has moved over `k` of the bytes `s`, which stand at `start`. */
  ghost predicate At(ba: ByteArray, s: seq<byte>, start: nat, k: nat)
    reads ba, ba.Repr
  {
    ba.Valid() && ba.position == start + k && k <= |s| && start <= ba.size && ba.Contents()[start..] == s
  }

  /** One turn of the loop: one more byte, and its seven bits added; when there is no byte,
      std::out_of_range is thrown. */
  method TakeDigit(ba: ByteArray, w: Width, ghost s: seq<byte>, ghost start: nat, ghost k: nat, i: nat, result: nat)
    returns (r: Outcome<byte>, next: nat)
    requires At(ba, s, start, k) && i == 7 * k && k < Rounds(w) && result == LebValue(s[..k]) % Modulus(w)
    modifies ba`position, ba`cur
    ensures r == if k < |s| then Done(s[k]) else OutOfRange
    ensures At(ba, s, start, if k < |s| then k + 1 else k) == true
    ensures k < |s| ==> next == LebValue(s[..k + 1]) % Modulus(w)
  {
    next := result;
    var one := ba.Read(1);
    if one.Done? {
      NextDigits(s, k, one.value[0], w);
      r, next := Done(one.value[0]), AddDigits(result, one.value[0], Pow(2, i), w);
    } else {
      r := OutOfRange;
    }
  }

  /** The loop. */
  method TakeDigits(ba: ByteArray, w: Width, ghost s: seq<byte>, ghost start: nat) returns (r: Outcome<nat>)
    requires At(ba, s, start, 0)
    modifies ba`position, ba`cur
    ensures At(ba, s, start, Taken(s, Rounds(w))) == true
    ensures r == if Short(s, Rounds(w)) then OutOfRange else Done(LebValue(s[..Taken(s, Rounds(w))]) % Modulus(w))
  {
    var result: nat, i: nat := 0, 0;
    ghost var k: nat := 0;
    assert s[..0] == [];
    while i < Bits(w)
      invariant i == 7 * k && k <= Rounds(w) && At(ba, s, start, k) == true
      invariant Continued(s, k) == true && result == LebValue(s[..k]) % Modulus(w)
    {
      TakenAt(s, k, Rounds(w));
      var b;
      b, result := TakeDigit(ba, w, s, start, k, i, result);
      if !b.Done? {
        return OutOfRange;
      }
      if b.value < 0x80 {
        return Done(result);
      }
      ContinuedNext(s, k);
      k := k + 1;
      i := i + 7;
    }
    TakenAt(s, k, Rounds(w));
    r := Done(result);
  }

  lemma NextDigits(s: seq<byte>, k: nat, b: byte, w: Width)
    requires k < |s| && k < Rounds(w) && b == s[k]
    ensures AddDigits(LebValue(s[..k]) % Modulus(w), b, Pow(2, 7 * k), w) == LebValue(s[..k + 1]) % Modulus(w)
  {
    LebFits(s[..k], w);
    ModSmall(LebValue(s[..k]), Modulus(w));
    DigitsWrap(s[..k], b, w);
    PowSeven(k);
    assert s[..k] + [b] == s[..k + 1];
  }

  predicate Continued(s: seq<byte>, k: nat) {
    k <= |s| && forall i :: 0 <= i < k ==> s[i] >= 0x80
  }

  lemma ContinuedNext(s: seq<byte>, k: nat)
    requires Continued(s, k) && k < |s| && s[k] >= 0x80
    ensures Continued(s, k + 1) == true
  {
  }

  /** Where the loop ends that has taken `k` bytes with the top bit set. */
  lemma {:induction false} TakenAt(s: seq<byte>, k: nat, limit: nat)
    requires Continued(s, k) && k <= limit
    ensures k == limit ==> Taken(s, limit) == k && !Short(s, limit)
    ensures k == |s| < limit ==> Taken(s, limit) == k && Short(s, limit)
    ensures k < limit && k < |s| && s[k] < 0x80 ==> Taken(s, limit) == k + 1 && !Short(s, limit)
  {
    if k > 0 {
      TakenAt(s[1..], k - 1, limit - 1);
    }
  }
}
