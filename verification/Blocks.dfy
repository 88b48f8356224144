/** Arithmetic of positions in a chain of equal blocks. */
module Blocks {

  type byte = b: int | 0 <= b < 256

  /** The block that position `p` lies in, when blocks have `b` bytes. */
  function BlockOf(p: nat, b: nat): nat
    requires 0 < b
  {
    if p < b then 0 else 1 + BlockOf(p - b, b)
  }

  /** The offset of position `p` in its block. */
  function OffsetOf(p: nat, b: nat): (o: nat)
    requires 0 < b
    ensures o < b
  {
    if p < b then p else OffsetOf(p - b, b)
  }

  /** The bytes in `n` blocks. */
  function Span(n: nat, b: nat): nat {
    if n == 0 then 0 else Span(n - 1, b) + b
  }

  /** Position `p` is offset `OffsetOf` in block `BlockOf`, and this is its only such description. */
  lemma {:induction false} PositionSplits(p: nat, b: nat)
    requires 0 < b
    ensures p == Span(BlockOf(p, b), b) + OffsetOf(p, b)
  {
    if p >= b {
      PositionSplits(p - b, b);
    }
  }

  lemma {:induction false} SplitIsUnique(k: nat, o: nat, b: nat)
    requires o < b
    ensures BlockOf(Span(k, b) + o, b) == k && OffsetOf(Span(k, b) + o, b) == o
  {
    if k > 0 {
      SplitIsUnique(k - 1, o, b);
    }
  }

  /** The functions are the division and remainder of the code. */
  lemma {:induction false} BlockIsDiv(p: nat, b: nat)
    requires 0 < b
    ensures BlockOf(p, b) == p / b && OffsetOf(p, b) == p % b
  {
    if p >= b {
      BlockIsDiv(p - b, b);
      StepDiv(p, b);
    }
  }

  lemma StepDiv(p: nat, b: nat)
    requires 0 < b <= p
    ensures p / b == 1 + (p - b) / b && p % b == (p - b) % b
  {
    var q, r := (p - b) / b, (p - b) % b;
    assert p == (q + 1) * b + r;
    if p / b < q + 1 {
      MulMono(p / b + 1, q + 1, b);
    } else if p / b > q + 1 {
      MulMono(q + 2, p / b, b);
    }
  }

  lemma MulMono(x: nat, y: nat, b: nat)
    requires x <= y
    ensures x * b <= y * b
  {
  }

  lemma {:induction false} SpanIsMul(n: nat, b: nat)
    ensures Span(n, b) == n * b
  {
    if n > 0 {
      SpanIsMul(n - 1, b);
      assert n * b == (n - 1) * b + b;
    }
  }

  lemma {:induction false} SpanAdds(m: nat, n: nat, b: nat)
    ensures Span(m + n, b) == Span(m, b) + Span(n, b)
  {
    if n > 0 {
      SpanAdds(m, n - 1, b);
    }
  }

  lemma {:induction false} SpanMono(m: nat, n: nat, b: nat)
    requires m <= n
    ensures Span(m, b) <= Span(n, b)
    ensures m < n ==> Span(m, b) + b <= Span(n, b)
  {
    if m < n {
      SpanMono(m, n - 1, b);
    }
  }

  /** Positions below the end of `n` blocks lie in one of them. */
  lemma BlockBound(p: nat, b: nat, n: nat)
    requires 0 < b
    ensures p < Span(n, b) <==> BlockOf(p, b) < n
  {
    PositionSplits(p, b);
    if BlockOf(p, b) < n {
      SpanMono(BlockOf(p, b), n, b);
    } else {
      SpanMono(n, BlockOf(p, b), b);
    }
  }

  /** Block `k` of `s`. */
  function Slice(s: seq<byte>, k: nat, b: nat): seq<byte> {
    if Span(k, b) + b <= |s| then s[Span(k, b)..Span(k, b) + b] else []
  }

  /** `buf` written over `s` byte by byte from position `p` on, extending `s` where needed. */
  function Overlay(s: seq<byte>, p: nat, buf: seq<byte>): (r: seq<byte>)
    requires p <= |s|
    ensures |r| == Max(|s|, p + |buf|)
    decreases |buf|
  {
    if buf == [] then s
    else Overlay(if p < |s| then s[p := buf[0]] else s + [buf[0]], p + 1, buf[1..])
  }

  lemma {:induction false} OverlayAt(s: seq<byte>, p: nat, buf: seq<byte>, i: nat)
    requires p <= |s| && i < |Overlay(s, p, buf)|
    ensures Overlay(s, p, buf)[i] == if p <= i < p + |buf| then buf[i - p] else s[i]
    decreases |buf|
  {
    if buf != [] {
      OverlayAt(if p < |s| then s[p := buf[0]] else s + [buf[0]], p + 1, buf[1..], i);
    }
  }

  /** A part of a prefix. */
  lemma PartOfPrefix(s: seq<byte>, k: nat, p: nat, n: nat)
    requires p + n <= k <= |s|
    ensures s[..k][p..p + n] == s[p..p + n]
  {
  }

  /** A part of a slice. */
  lemma SliceOf(s: seq<byte>, k: nat, b: nat, off: nat, n: nat)
    requires Span(k, b) + b <= |s| && off + n <= b
    ensures Slice(s, k, b)[off..off + n] == s[Span(k, b) + off..Span(k, b) + off + n]
  {
  }

  /** One more block at the end leaves the others as they are. */
  lemma SliceGrows(s: seq<byte>, x: seq<byte>, b: nat, n: nat)
    requires |s| == Span(n, b) && |x| == b
    ensures forall i: nat :: i < n ==> Slice(s + x, i, b) == Slice(s, i, b)
    ensures Slice(s + x, n, b) == x
  {
    forall i: nat | i < n
      ensures Slice(s + x, i, b) == Slice(s, i, b)
    {
      SpanMono(i, n, b);
    }
  }

  /** Writing inside block `k` changes block `k` alone. */
  lemma OverlayElsewhere(s: seq<byte>, b: nat, k: nat, o: nat, buf: seq<byte>, j: nat)
    requires o + |buf| <= b && Span(k, b) + b <= |s| && j != k
    ensures Slice(Overlay(s, Span(k, b) + o, buf), j, b) == Slice(s, j, b)
  {
    SpanMono(if j < k then j else k, if j < k then k else j, b);
    if Span(j, b) + b <= |s| {
      var r := Overlay(s, Span(k, b) + o, buf);
      forall i | Span(j, b) <= i < Span(j, b) + b
        ensures r[i] == s[i]
      {
        OverlayAt(s, Span(k, b) + o, buf, i);
      }
    }
  }

  /** Of the first `count` blocks only block `k` changes. */
  lemma OverlayOthers(s: seq<byte>, b: nat, k: nat, o: nat, buf: seq<byte>, count: nat)
    requires o + |buf| <= b && Span(k, b) + b <= |s|
    ensures forall j :: 0 <= j < count && j != k ==> Slice(Overlay(s, Span(k, b) + o, buf), j, b) == Slice(s, j, b)
  {
    forall j | 0 <= j < count && j != k
      ensures Slice(Overlay(s, Span(k, b) + o, buf), j, b) == Slice(s, j, b)
    {
      OverlayElsewhere(s, b, k, o, buf, j);
    }
  }

  lemma OverlayHere(s: seq<byte>, b: nat, k: nat, o: nat, buf: seq<byte>)
    requires o + |buf| <= b && Span(k, b) + b <= |s|
    ensures Slice(Overlay(s, Span(k, b) + o, buf), k, b) == Overlay(Slice(s, k, b), o, buf)
  {
    var m, t := Span(k, b), Slice(s, k, b);
    forall i | 0 <= i < b
      ensures Overlay(s, m + o, buf)[m + i] == Overlay(t, o, buf)[i]
    {
      OverlayAt(s, m + o, buf, m + i);
      OverlayAt(t, o, buf, i);
    }
  }

  /** Two adjacent writes are one. */
  lemma {:induction false} OverlayTwice(s: seq<byte>, p: nat, x: seq<byte>, y: seq<byte>)
    requires p <= |s|
    ensures Overlay(Overlay(s, p, x), p + |x|, y) == Overlay(s, p, x + y)
    decreases |x|
  {
    if x == [] {
      assert x + y == y;
    } else {
      OverlayTwice(if p < |s| then s[p := x[0]] else s + [x[0]], p + 1, x[1..], y);
      assert (x + y)[1..] == x[1..] + y;
    }
  }

  /** Writing at the end appends. */
  lemma OverlayAtEnd(s: seq<byte>, x: seq<byte>)
    ensures Overlay(s, |s|, x) == s + x
  {
    forall i | 0 <= i < |s + x|
      ensures Overlay(s, |s|, x)[i] == (s + x)[i]
    {
      OverlayAt(s, |s|, x, i);
    }
  }

  /** Writing commutes with dropping what lies behind. */
  lemma OverlayPrefix(s: seq<byte>, n: nat, p: nat, buf: seq<byte>)
    requires p <= n <= |s| && p + |buf| <= |s|
    ensures Overlay(s, p, buf)[..Max(n, p + |buf|)] == Overlay(s[..n], p, buf)
  {
    forall i | 0 <= i < Max(n, p + |buf|)
      ensures Overlay(s, p, buf)[i] == Overlay(s[..n], p, buf)[i]
    {
      OverlayAt(s, p, buf, i);
      OverlayAt(s[..n], p, buf, i);
    }
  }

  /** The next `n` bytes of `buf` after its first `i`. */
  lemma OverlayExtends(s: seq<byte>, p: nat, buf: seq<byte>, i: nat, n: nat)
    requires p <= |s| && i + n <= |buf|
    ensures Overlay(Overlay(s, p, buf[..i]), p + i, buf[i..i + n]) == Overlay(s, p, buf[..i + n])
  {
    OverlayTwice(s, p, buf[..i], buf[i..i + n]);
    assert buf[..i] + buf[i..i + n] == buf[..i + n];
  }

  /** A write cut in two. */
  lemma OverlayCut(s: seq<byte>, p: nat, buf: seq<byte>, i: nat)
    requires p <= |s| && i <= |buf|
    ensures Overlay(Overlay(s, p, buf[..i]), p + i, buf[i..]) == Overlay(s, p, buf)
    ensures buf[i..] == [] ==> Overlay(s, p, buf[..i]) == Overlay(s, p, buf)
  {
    OverlayTwice(s, p, buf[..i], buf[i..]);
    assert buf[..i] + buf[i..] == buf;
  }

  /** `x` and then `y` at position `p` of `s`. */
  lemma PrefixSplits(s: seq<byte>, p: nat, x: seq<byte>, y: seq<byte>)
    requires p <= |s| && x + y <= s[p..]
    ensures x <= s[p..] && p + |x| + |y| <= |s|
    ensures y <= s[p + |x|..] && s[p + |x|..p + |x| + |y|] == y
  {
    assert s[p..][..|x| + |y|] == x + y;
    assert (x + y)[|x|..] == y;
  }

  lemma SliceExtends(s: seq<byte>, p: nat, q: nat, r: nat)
    requires p <= q <= r <= |s|
    ensures s[p..q] + s[q..r] == s[p..r]
  {
  }

  function Max(x: nat, y: nat): nat {
    if x < y then y else x
  }

  function Min(x: nat, y: nat): nat {
    if x < y then x else y
  }

  function CeilDiv(x: nat, b: nat): nat
    requires 0 < b
  {
    (x + b - 1) / b
  }

  /** The fewest blocks that hold `x` bytes. */
  lemma CeilDivCovers(x: nat, b: nat)
    requires 0 < b
    ensures x <= Span(CeilDiv(x, b), b) < x + b
  {
    BlockIsDiv(x + b - 1, b);
    PositionSplits(x + b - 1, b);
  }
}
