/** Size lines that the reads cut in pieces: exactly when a chunked body is still received right.

    Where a contract says `P(..) == true` it means `P(..)`; the longer form keeps the verifier from
    proving the parts of P one by one. */
module ChunkSplits {
  import opened Common
  import opened Blocks
  import opened ChunkLine
  import opened ChunkedBody

  // ---------------------------------------------------------------------------------------------
  // The condition, on the size lines and the lengths of the reads alone

  /** How many bytes are in the buffer and how many are to come, and the most each coming read delivers. */
  datatype Reads = Reads(have: nat, rest: nat, plan: seq<nat>) {

    function Delivers(n: nat): (k: nat)
      ensures k <= n && k <= rest
    {
      if plan == [] then 0 else Min(plan[0], Min(n, rest))
    }

    /** After a read of at most `n` bytes, of which `kept` and what it delivers are in the buffer. */
    function After(n: nat, kept: nat): Reads {
      Reads(kept + Delivers(n), rest - Delivers(n), if plan == [] then [] else plan[1..])
    }
  }

  function Lengths(buf: seq<byte>, net: Net): Reads {
    Reads(|buf|, |net.rest|, net.plan)
  }

  /** The read before a parse. */
  function Fetch(r: Reads, size: nat, begin: bool): (f: Reads)
    requires r.have <= size
    ensures f.have <= size
  {
    if begin && r.have > 0 then r else r.After(size - r.have, r.have)
  }

  /** The line of a chunk of `n` bytes comes in parts: those before the last are incomplete, so that they
      are dropped, and the last by itself is a line for `n` bytes. */
  function ReadLine(line: seq<byte>, n: nat, r: Reads, size: nat, begin: bool): (q: Option<Reads>)
    requires r.have <= size
    ensures q.Some? ==> q.value.have <= size
    decreases |line|
  {
    var f := Fetch(r, size, begin);
    if f.have == 0 then None
    else if |line| <= f.have then
      if Parse(line) == Line(n, |line|) then Some(f.(have := f.have - |line|)) else None
    else if Parse(line[..f.have]).Incomplete? then ReadLine(line[f.have..], n, f.(have := 0), size, false)
    else None
  }

  /** The reads for `left` bytes that are not in the buffer. */
  function Skip(left: nat, r: Reads, size: nat): (q: Reads)
    ensures q.have == 0
    decreases left
  {
    var n := Min(left, size);
    if r.Delivers(n) == 0 then r.(have := 0) else Skip(left - r.Delivers(n), r.After(n, 0), size)
  }

  /** After the data of a chunk of `n` bytes and its line end. */
  function SkipData(n: nat, r: Reads, size: nat): (q: Reads)
    requires r.have <= size
    ensures q.have <= size
  {
    if n + 2 <= r.have then r.(have := r.have - (n + 2)) else Skip(n + 2 - r.have, r, size)
  }

  /** A chunk without its data. */
  datatype Shape = Shape(line: seq<byte>, size: nat) {
    predicate Ok() {
      0 < size <= INT_MAX - 2 && IsLine(line, size)
    }
  }

  /** Every size line of a body comes in parts as ReadLine says. */
  predicate LinesRead(shapes: seq<Shape>, last: seq<byte>, r: Reads, size: nat)
    requires r.have <= size
    decreases |shapes|
  {
    if shapes == [] then ReadLine(last, 0, r, size, true).Some?
    else
      var q := ReadLine(shapes[0].line, shapes[0].size, r, size, true);
      q.Some? && LinesRead(shapes[1..], last, SkipData(shapes[0].size, q.value, size), size)
  }

  function ShapesOf(chunks: seq<Chunk>): seq<Shape> {
    if chunks == [] then []
    else [Shape(chunks[0].line, |chunks[0].data|)] + ShapesOf(chunks[1..])
  }

  // ---------------------------------------------------------------------------------------------
  // What the reads do has these lengths

  lemma FillLengths(buf: seq<byte>, net: Net, size: nat, begin: bool)
    requires 0 < size && |buf| <= size && net.Open() && buf + net.rest != [] && (begin || buf == [])
    ensures var f := Fill(buf, net, size, begin);
            && f.Some? && f.value.net.Open()
            && Lengths(f.value.buf, f.value.net) == Fetch(Lengths(buf, net), size, begin)
  {
    if buf == [] {
      StaysOpen(net, size);
    }
  }

  lemma SameRead(net: Net, n: nat, have: nat)
    ensures var r := Reads(have, |net.rest|, net.plan);
            && r.Delivers(n) == net.Delivers(n)
            && r.After(n, 0) == Reads(net.Delivers(n), |net.After(n).rest|, net.After(n).plan)
  {
  }

  lemma SkipStep(left: nat, r: Reads, size: nat)
    requires r.Delivers(Min(left, size)) > 0
    ensures var n := Min(left, size); Skip(left, r, size) == Skip(left - r.Delivers(n), r.After(n, 0), size)
  {
  }

  predicate HasLengths(r: Option<(seq<byte>, Net)>, q: Reads) {
    r.Some? && Lengths([], r.value.1) == q
  }

  predicate RestAgrees(body: seq<byte>, left: nat, net: Net, size: nat, have: nat) {
    HasLengths(ReadRest(body, left, net, size), Skip(left, Reads(have, |net.rest|, net.plan), size))
  }

  lemma AgreesStep(body: seq<byte>, left: nat, net: Net, size: nat, have: nat)
    requires 0 < left <= |net.rest| && 0 < size && net.Open()
    ensures var n := Min(left, size); var k := net.Delivers(n); var next := net.After(n);
            && 0 < k <= left <= k + |next.rest| && next.Open()
            && RestAgrees(body, left, net, size, have) == RestAgrees(body + net.rest[..k], left - k, next, size, k)
  {
    OpenStep(body, left, net, size);
    SameRead(net, Min(left, size), have);
    SkipStep(left, Reads(have, |net.rest|, net.plan), size);
  }

  lemma {:induction false} RestLengths(body: seq<byte>, left: nat, net: Net, size: nat, have: nat)
    requires 0 < size && net.Open() && left <= |net.rest|
    ensures RestAgrees(body, left, net, size, have) == true
    decreases left
  {
    if left > 0 {
      AgreesStep(body, left, net, size, have);
      var n := Min(left, size);
      var k := net.Delivers(n);
      RestLengths(body + net.rest[..k], left - k, net.After(n), size, k);
    }
  }

  lemma TakeLengths(n: nat, buf: seq<byte>, net: Net, size: nat, body: seq<byte>)
    requires 0 < size && |buf| <= size && net.Open() && n + 2 <= |buf + net.rest|
    ensures var t := Take(n, buf, net, size, body);
            t.Some? && Lengths(t.value.buf, t.value.net) == SkipData(n, Lengths(buf, net), size)
  {
    if |buf| < n + 2 {
      RestLengths(body + buf, n + 2 - |buf|, net, size, |buf|);
    }
  }

  // ---------------------------------------------------------------------------------------------
  // Lines in parts that can be read

  /** A line, or what is left of it, with `after` behind it is read with its size. */
  ghost predicate HeadIs(h: Head, n: nat, after: seq<byte>, q: Reads) {
    h.Found? && h.size == n && h.buf + h.net.rest == after && h.net.Open() && Lengths(h.buf, h.net) == q
  }

  lemma {:induction false} HeadReads(
      line: seq<byte>, n: nat, after: seq<byte>, buf: seq<byte>, net: Net, size: nat, begin: bool, split: bool)
    requires 0 < size && |buf| <= size && net.Open() && (begin || buf == [])
    requires line != [] && buf + net.rest == line + after
    requires ReadLine(line, n, Lengths(buf, net), size, begin).Some?
    ensures HeadIs(ReadHead(buf, net, size, begin, split), n, after,
                   ReadLine(line, n, Lengths(buf, net), size, begin).value) == true
    decreases |line|
  {
    FillLengths(buf, net, size, begin);
    var f := Fill(buf, net, size, begin).value;
    if |line| <= |f.buf| {
      ParseOfLine(line, n, f.buf, f.net.rest, after);
    } else {
      PartOfLine(line, after, f.buf, f.net.rest);
      HeadReads(line[|f.buf|..], n, after, [], f.net, size, false, true);
    }
  }

  lemma PartOfLine(line: seq<byte>, after: seq<byte>, buf: seq<byte>, rest: seq<byte>)
    requires buf + rest == line + after && |buf| < |line|
    ensures buf == line[..|buf|] && [] + rest == line[|buf|..] + after
  {
    assert buf == (buf + rest)[..|buf|];
    assert rest == (buf + rest)[|buf|..];
  }

  /** A chunk whose line can be read: the reception goes on after it, or ends when it is the last. */
  ghost predicate Proceeds(
      buf: seq<byte>, net: Net, size: nat, body: seq<byte>, split: bool, n: nat, t: Taken, sp: bool)
    requires |buf| <= size
  {
    && |t.buf| <= size && t.net.Open()
    && Receive(buf, net, size, body, split) == if n == 0 then Body(t, sp) else Receive(t.buf, t.net, size, t.body, sp)
  }

  lemma ChunkReads(
      line: seq<byte>, data: seq<byte>, after: seq<byte>, buf: seq<byte>, net: Net, size: nat, body: seq<byte>, split: bool)
    returns (t: Taken, sp: bool)
    requires 0 < size && |buf| <= size && net.Open() && |data| <= INT_MAX - 2
    requires line != [] && buf + net.rest == line + (data + [CR, LF] + after)
    requires ReadLine(line, |data|, Lengths(buf, net), size, true).Some?
    ensures Proceeds(buf, net, size, body, split, |data|, t, sp) == true
    ensures t.body == body + data && t.buf + t.net.rest == after
    ensures Lengths(t.buf, t.net)
            == SkipData(|data|, ReadLine(line, |data|, Lengths(buf, net), size, true).value, size)
  {
    HeadReads(line, |data|, data + [CR, LF] + after, buf, net, size, true, split);
    var h := ReadHead(buf, net, size, true, split);
    DataTaken(data, after, h.buf, h.net, size, body);
    TakeLengths(|data|, h.buf, h.net, size, body);
    t, sp := Take(|data|, h.buf, h.net, size, body).value, h.split;
  }

  /** When every size line comes in parts that can be read, the body is right, whatever its data. */
  lemma {:induction false} LinesGiveBody(
      chunks: seq<Chunk>, last: seq<byte>, tail: seq<byte>, buf: seq<byte>, net: Net, size: nat, body: seq<byte>, split: bool)
    requires 0 < size && |buf| <= size && net.Open() && WellFormed(chunks, last)
    requires buf + net.rest == Wire(chunks, last) + tail
    requires LinesRead(ShapesOf(chunks), last, Lengths(buf, net), size)
    ensures Right(Receive(buf, net, size, body, split), body + Joined(chunks), tail) == true
    decreases |chunks|
  {
    if chunks == [] {
      assert buf + net.rest == last + ([] + [CR, LF] + tail);
      var t, sp := ChunkReads(last, [], tail, buf, net, size, body, split);
    } else {
      var c := chunks[0];
      FirstChunk(chunks, last, tail, body);
      FirstShape(chunks);
      var t, sp := ChunkReads(c.line, c.data, Wire(chunks[1..], last) + tail, buf, net, size, body, split);
      LinesGiveBody(chunks[1..], last, tail, t.buf, t.net, size, t.body, sp);
    }
  }

  lemma FirstShape(chunks: seq<Chunk>)
    requires chunks != []
    ensures var s := ShapesOf(chunks);
            s != [] && s[0] == Shape(chunks[0].line, |chunks[0].data|) && s[1..] == ShapesOf(chunks[1..])
  {
  }

  // ---------------------------------------------------------------------------------------------
  // Lines in parts that cannot be read

  predicate NoFeed(s: seq<byte>) {
    forall i :: 0 <= i < |s| ==> s[i] != LF
  }

  /** What is left of a line: its only line feed is its last byte. */
  predicate Ending(s: seq<byte>) {
    s != [] && s[|s| - 1] == LF && NoFeed(s[..|s| - 1])
  }

  lemma {:induction false} ScanNoFeed(p: Phase, s: seq<byte>)
    requires NoFeed(s) && !p.Done?
    ensures !Scan(p, s).0.Done?
    decreases |s|
  {
    if s != [] && !p.Failed? {
      ScanNoFeed(Delta(p, s[0]), s[1..]);
    }
  }

  lemma {:induction false} ScanEnding(p: Phase, s: seq<byte>)
    requires Ending(s) && !p.Done? && !p.Failed?
    ensures Scan(p, s).0.Failed? || Scan(p, s) == (Done, |s|)
    decreases |s|
  {
    if |s| > 1 {
      var q := Delta(p, s[0]);
      assert s[0] == s[..|s| - 1][0] && s[1..][..|s| - 2] == s[..|s| - 1][1..];
      if !q.Failed? {
        ScanEnding(q, s[1..]);
      }
    } else {
      assert s[1..] == [];
    }
  }

  /** A scan that ends Done at the last byte has met its first line feed there. */
  lemma {:induction false} DoneIsEnding(p: Phase, s: seq<byte>)
    requires Scan(p, s) == (Done, |s|) && !p.Done?
    ensures Ending(s)
    decreases |s|
  {
    if |s| == 1 {
      assert s[1..] == [];
    } else {
      var q := Delta(p, s[0]);
      assert s[0] != LF;
      DoneIsEnding(q, s[1..]);
      assert s[..|s| - 1] == [s[0]] + s[1..][..|s| - 2];
    }
  }

  /** What the parser makes of a part of a line, with what is behind it in the buffer. */
  lemma ParseOfEnding(line: seq<byte>, after: seq<byte>, buf: seq<byte>, rest: seq<byte>)
    requires Ending(line) && buf + rest == line + after
    ensures |line| <= |buf| ==> Parse(buf) == Parse(line) && (Parse(line).Bad? || (Parse(line).Line? && Parse(line).used == |line|))
    ensures |line| <= |buf| ==> buf[|line|..] + rest == after
    ensures |buf| < |line| ==> !Parse(buf).Line?
  {
    if |line| <= |buf| {
      assert buf[..|line|] == (buf + rest)[..|line|] == line;
      assert buf == line + buf[|line|..];
      ScanEnding(Start, line);
      ScanExtends(Start, line, buf[|line|..]);
      if Parse(line).Line? {
        ParseExtends(line, buf[|line|..]);
      }
      assert after == (line + after)[|line|..] == (buf + rest)[|line|..];
    } else {
      PartOfLine(line, after, buf, rest);
      assert NoFeed(buf);
      ScanNoFeed(Start, buf);
    }
  }

  /** A line that cannot be read with its size: the reception ends, or another size is read. */
  ghost predicate Misread(h: Head, n: nat, after: seq<byte>) {
    h.Found? ==> h.size != n && h.buf + h.net.rest == after
  }

  lemma {:induction false} HeadMisread(
      line: seq<byte>, n: nat, after: seq<byte>, buf: seq<byte>, net: Net, size: nat, begin: bool, split: bool)
    requires 0 < size && |buf| <= size && net.Open() && (begin || buf == [])
    requires Ending(line) && buf + net.rest == line + after
    requires ReadLine(line, n, Lengths(buf, net), size, begin).None?
    ensures Misread(ReadHead(buf, net, size, begin, split), n, after) == true
    decreases |line|
  {
    FillLengths(buf, net, size, begin);
    var f := Fill(buf, net, size, begin).value;
    ParseOfEnding(line, after, f.buf, f.net.rest);
    if |f.buf| < |line| {
      PartOfLine(line, after, f.buf, f.net.rest);
      if Parse(f.buf).Incomplete? {
        EndingRest(line, |f.buf|);
        HeadMisread(line[|f.buf|..], n, after, [], f.net, size, false, true);
      }
    }
  }

  lemma EndingRest(line: seq<byte>, k: nat)
    requires Ending(line) && k < |line|
    ensures Ending(line[k..])
  {
    assert line[k..][..|line| - k - 1] == line[..|line| - 1][k..];
  }

  /** What a chunk of `n` bytes takes, when the connection delivers it. */
  lemma TakeIs(n: nat, buf: seq<byte>, net: Net, size: nat, body: seq<byte>)
    requires Take(n, buf, net, size, body).Some?
    ensures var t, all := Take(n, buf, net, size, body).value, buf + net.rest;
            n + 2 <= |all| && t.body == body + all[..n] && t.buf + t.net.rest == all[n + 2..]
  {
    var all := buf + net.rest;
    if n + 2 <= |buf| {
      assert buf[..n] == all[..n] && buf[n + 2..] + net.rest == all[n + 2..];
    } else {
      var left := n + 2 - |buf|;
      RestTakes(body + buf, left, net, size);
      assert body + buf + net.rest[..left] == body + all[..n + 2];
      assert (body + all[..n + 2])[..|body| + n] == body + all[..n];
      assert [] + net.rest[left..] == all[n + 2..];
    }
  }

  /** The body only grows. */
  lemma {:induction false} BodyGrows(buf: seq<byte>, net: Net, size: nat, body: seq<byte>, split: bool)
    requires |buf| <= size && Receive(buf, net, size, body, split).Body?
    ensures body <= Receive(buf, net, size, body, split).taken.body
    decreases |buf| + |net.rest|
  {
    var h := ReadHead(buf, net, size, true, split);
    var t := Take(h.size, h.buf, h.net, size, body).value;
    TakeIs(h.size, h.buf, h.net, size, body);
    if h.size > 0 {
      BodyGrows(t.buf, t.net, size, t.body, h.split);
    }
  }

  /** Bytes that do not begin with a digit are no line. */
  lemma NoDigitNoBody(buf: seq<byte>, net: Net, size: nat, body: seq<byte>, split: bool)
    requires |buf| <= size && buf + net.rest != [] && !IsDigit((buf + net.rest)[0])
    ensures !Receive(buf, net, size, body, split).Body?
  {
    var f := Fill(buf, net, size, true);
    if f.Some? {
      assert f.value.buf[0] == (f.value.buf + f.value.net.rest)[0];
      assert Scan(Start, f.value.buf).0.Failed?;
    }
  }

  predicate AllZero(s: seq<byte>) {
    forall i :: 0 <= i < |s| ==> s[i] == 0
  }

  /** A head was read, and `data` and its line end come next. */
  ghost predicate HeadBefore(h: Head, data: seq<byte>, after: seq<byte>) {
    h.Found? && h.buf + h.net.rest == data + [CR, LF] + after
  }

  /** A size that is too small ends the body early, or leaves a byte that begins no line. */
  lemma TooSmall(
      data: seq<byte>, after: seq<byte>, buf: seq<byte>, net: Net, size: nat, body: seq<byte>, split: bool)
    requires |buf| <= size && AllZero(data) && HeadBefore(ReadHead(buf, net, size, true, split), data, after)
    requires ReadHead(buf, net, size, true, split).size < |data|
    ensures var r := Receive(buf, net, size, body, split); r.Body? ==> r.taken.body == body
  {
    var h := ReadHead(buf, net, size, true, split);
    if 0 <= h.size && h.size + 2 <= INT_MAX && Take(h.size, h.buf, h.net, size, body).Some? {
      TakeIs(h.size, h.buf, h.net, size, body);
      var t := Take(h.size, h.buf, h.net, size, body).value;
      var all := data + [CR, LF] + after;
      if h.size == 0 {
        assert body + all[..0] == body;
      } else {
        assert all[h.size + 2..][0] == all[h.size + 2];
        assert all[h.size + 2] in [0, CR, LF];
        NoDigitNoBody(t.buf, t.net, size, t.body, h.split);
      }
    }
  }

  /** A size that is too large puts the line end into the body. */
  lemma TooBig(
      data: seq<byte>, after: seq<byte>, buf: seq<byte>, net: Net, size: nat, body: seq<byte>, split: bool)
    requires |buf| <= size && HeadBefore(ReadHead(buf, net, size, true, split), data, after)
    requires ReadHead(buf, net, size, true, split).size > |data|
    ensures var r := Receive(buf, net, size, body, split); r.Body? ==> body + data + [CR] <= r.taken.body
  {
    var h := ReadHead(buf, net, size, true, split);
    if h.size + 2 <= INT_MAX && Take(h.size, h.buf, h.net, size, body).Some? {
      TakeIs(h.size, h.buf, h.net, size, body);
      var t := Take(h.size, h.buf, h.net, size, body).value;
      var all := data + [CR, LF] + after;
      assert data + [CR] == all[..|data| + 1] <= all[..h.size];
      assert body + data + [CR] <= body + all[..h.size];
      if Receive(t.buf, t.net, size, t.body, h.split).Body? {
        BodyGrows(t.buf, t.net, size, t.body, h.split);
      }
    }
  }

  /** A chunk of zeros, or the last one, whose line cannot be read: what comes out is not zeros that go
      on from the body with this chunk. */
  lemma ChunkFails(
      line: seq<byte>, data: seq<byte>, after: seq<byte>, more: seq<byte>, buf: seq<byte>, net: Net, size: nat,
      body: seq<byte>, split: bool)
    requires 0 < size && |buf| <= size && net.Open() && AllZero(data) && AllZero(more)
    requires IsLine(line, |data|) && buf + net.rest == line + (data + [CR, LF] + after)
    requires ReadLine(line, |data|, Lengths(buf, net), size, true).None?
    ensures var r := Receive(buf, net, size, body, split); r.Body? ==> r.taken.body != body + (data + more)
  {
    DoneIsEnding(Start, line);
    HeadMisread(line, |data|, data + [CR, LF] + after, buf, net, size, true, split);
    var h, r := ReadHead(buf, net, size, true, split), Receive(buf, net, size, body, split);
    if h.Found? && h.size < |data| {
      TooSmall(data, after, buf, net, size, body, split);
    } else if h.Found? {
      TooBig(data, after, buf, net, size, body, split);
      if r.Body? {
        NotZeros(body, data, more, r.taken.body);
      }
    }
  }

  lemma NotZeros(body: seq<byte>, data: seq<byte>, more: seq<byte>, out: seq<byte>)
    requires AllZero(more) && body + data + [CR] <= out
    ensures out != body + (data + more)
  {
    var k := |body| + |data|;
    assert out[k] == (body + data + [CR])[k] == CR;
    assert more != [] ==> (body + (data + more))[k] == more[0];
  }

  lemma {:induction false} ZerosJoin(chunks: seq<Chunk>)
    requires forall i :: 0 <= i < |chunks| ==> AllZero(chunks[i].data)
    ensures AllZero(Joined(chunks))
  {
    if chunks != [] {
      ZerosJoin(chunks[1..]);
    }
  }

  /** When some size line comes in parts that cannot be read, the body of zeros is wrong. */
  lemma {:induction false} ZerosFail(
      chunks: seq<Chunk>, last: seq<byte>, tail: seq<byte>, buf: seq<byte>, net: Net, size: nat, body: seq<byte>, split: bool)
    requires 0 < size && |buf| <= size && net.Open() && WellFormed(chunks, last)
    requires forall i :: 0 <= i < |chunks| ==> AllZero(chunks[i].data)
    requires buf + net.rest == Wire(chunks, last) + tail
    requires !LinesRead(ShapesOf(chunks), last, Lengths(buf, net), size)
    ensures !Right(Receive(buf, net, size, body, split), body + Joined(chunks), tail)
    decreases |chunks|
  {
    if chunks == [] {
      assert buf + net.rest == last + ([] + [CR, LF] + tail);
      ChunkFails(last, [], tail, [], buf, net, size, body, split);
      assert body + ([] + []) == body + Joined(chunks);
    } else {
      var c, after := chunks[0], Wire(chunks[1..], last) + tail;
      FirstChunk(chunks, last, tail, body);
      FirstShape(chunks);
      if ReadLine(c.line, |c.data|, Lengths(buf, net), size, true).None? {
        ZerosJoin(chunks[1..]);
        ChunkFails(c.line, c.data, after, Joined(chunks[1..]), buf, net, size, body, split);
      } else {
        var t, sp := ChunkReads(c.line, c.data, after, buf, net, size, body, split);
        ZerosFail(chunks[1..], last, tail, t.buf, t.net, size, t.body, sp);
      }
    }
  }

  // ---------------------------------------------------------------------------------------------
  // The exact condition

  function WireLength(shapes: seq<Shape>, last: seq<byte>): nat {
    if shapes == [] then |last| + 2 else |shapes[0].line| + shapes[0].size + 2 + WireLength(shapes[1..], last)
  }

  lemma {:induction false} WireHasLength(chunks: seq<Chunk>, last: seq<byte>)
    ensures |Wire(chunks, last)| == WireLength(ShapesOf(chunks), last)
  {
    if chunks != [] {
      FirstShape(chunks);
      WireHasLength(chunks[1..], last);
    }
  }

  lemma {:induction false} ShapesOk(chunks: seq<Chunk>)
    requires forall i :: 0 <= i < |ShapesOf(chunks)| ==> ShapesOf(chunks)[i].Ok()
    ensures forall i :: 0 <= i < |chunks| ==> chunks[i].Ok()
  {
    if chunks != [] {
      FirstShape(chunks);
      forall i | 0 <= i < |ShapesOf(chunks[1..])| ensures ShapesOf(chunks[1..])[i].Ok() {
        assert ShapesOf(chunks)[i + 1].Ok();
      }
      ShapesOk(chunks[1..]);
    }
  }

  function Zeros(shapes: seq<Shape>): (chunks: seq<Chunk>)
    ensures ShapesOf(chunks) == shapes && forall i :: 0 <= i < |chunks| ==> AllZero(chunks[i].data)
  {
    if shapes == [] then []
    else [Chunk(shapes[0].line, seq(shapes[0].size, _ => 0))] + Zeros(shapes[1..])
  }

  /** The reception of `chunks` and `tail`, of which the first `have` bytes are in the buffer, gives the
      data of the chunks and leaves the tail. */
  predicate ReceivedRight(
      chunks: seq<Chunk>, last: seq<byte>, tail: seq<byte>, have: nat, plan: seq<nat>, size: nat)
    requires have <= size
  {
    var all := Wire(chunks, last) + tail;
    have <= |all| && Right(Receive(all[..have], Net(all[have..], plan), size, [], false), Joined(chunks), tail)
  }

  ghost predicate Given(shapes: seq<Shape>, last: seq<byte>, tail: seq<byte>, have: nat, plan: seq<nat>, size: nat) {
    && 0 < size && have <= size
    && IsLine(last, 0) && (forall i :: 0 <= i < |shapes| ==> shapes[i].Ok())
    && have <= WireLength(shapes, last) + |tail| <= have + |plan| && (forall i :: 0 <= i < |plan| ==> plan[i] > 0)
  }

  function ReadsOf(shapes: seq<Shape>, last: seq<byte>, tail: seq<byte>, have: nat, plan: seq<nat>): Reads
    requires have <= WireLength(shapes, last) + |tail|
  {
    Reads(have, WireLength(shapes, last) + |tail| - have, plan)
  }

  lemma SetUp(chunks: seq<Chunk>, last: seq<byte>, tail: seq<byte>, have: nat, plan: seq<nat>, size: nat)
    returns (buf: seq<byte>, net: Net)
    requires Given(ShapesOf(chunks), last, tail, have, plan, size)
    ensures WellFormed(chunks, last) && buf + net.rest == Wire(chunks, last) + tail && |buf| == have && net.Open()
    ensures Lengths(buf, net) == ReadsOf(ShapesOf(chunks), last, tail, have, plan)
    ensures ReceivedRight(chunks, last, tail, have, plan, size)
            == Right(Receive(buf, net, size, [], false), [] + Joined(chunks), tail)
  {
    WireHasLength(chunks, last);
    ShapesOk(chunks);
    var all := Wire(chunks, last) + tail;
    buf, net := all[..have], Net(all[have..], plan);
    assert [] + Joined(chunks) == Joined(chunks);
  }

  lemma RightWhenRead(chunks: seq<Chunk>, last: seq<byte>, tail: seq<byte>, have: nat, plan: seq<nat>, size: nat)
    requires Given(ShapesOf(chunks), last, tail, have, plan, size)
    requires LinesRead(ShapesOf(chunks), last, ReadsOf(ShapesOf(chunks), last, tail, have, plan), size)
    ensures ReceivedRight(chunks, last, tail, have, plan, size) == true
  {
    var buf, net := SetUp(chunks, last, tail, have, plan, size);
    LinesGiveBody(chunks, last, tail, buf, net, size, [], false);
  }

  lemma WrongWhenNot(shapes: seq<Shape>, last: seq<byte>, tail: seq<byte>, have: nat, plan: seq<nat>, size: nat)
    requires Given(shapes, last, tail, have, plan, size)
    requires !LinesRead(shapes, last, ReadsOf(shapes, last, tail, have, plan), size)
    ensures ReceivedRight(Zeros(shapes), last, tail, have, plan, size) == false
  {
    var buf, net := SetUp(Zeros(shapes), last, tail, have, plan, size);
    ZerosFail(Zeros(shapes), last, tail, buf, net, size, [], false);
  }

  /** Chunks with these lines and sizes are received right, whatever their data, if and only if every size
      line comes in parts that can be read: the parts before the last parse as incomplete, and the last
      by itself gives the size. */
  lemma RightIff(
      shapes: seq<Shape>, last: seq<byte>, tail: seq<byte>, have: nat, plan: seq<nat>, size: nat)
    requires Given(shapes, last, tail, have, plan, size)
    ensures (forall chunks :: ShapesOf(chunks) == shapes ==> ReceivedRight(chunks, last, tail, have, plan, size))
            <==> LinesRead(shapes, last, ReadsOf(shapes, last, tail, have, plan), size)
  {
    if LinesRead(shapes, last, ReadsOf(shapes, last, tail, have, plan), size) {
      forall chunks | ShapesOf(chunks) == shapes
        ensures ReceivedRight(chunks, last, tail, have, plan, size) == true
      {
        RightWhenRead(chunks, last, tail, have, plan, size);
      }
    } else {
      WrongWhenNot(shapes, last, tail, have, plan, size);
    }
  }

  // ---------------------------------------------------------------------------------------------
  // Lines that arrive whole

  lemma WholeLine(
      line: seq<byte>, data: seq<byte>, after: seq<byte>, buf: seq<byte>, net: Net, size: nat, body: seq<byte>)
    returns (t: Taken)
    requires 0 < size && |buf| <= size && net.Open() && |data| <= INT_MAX - 2
    requires IsLine(line, |data|) && buf + net.rest == line + (data + [CR, LF] + after)
    requires Fill(buf, net, size, true).Some? && |line| <= |Fill(buf, net, size, true).value.buf|
    ensures var f := Fill(buf, net, size, true).value; Take(|data|, f.buf[|line|..], f.net, size, body) == Some(t)
    ensures |t.buf| <= size && t.net.Open() && t.buf + t.net.rest == after
    ensures var q := ReadLine(line, |data|, Lengths(buf, net), size, true);
            q.Some? && Lengths(t.buf, t.net) == SkipData(|data|, q.value, size)
  {
    FillLengths(buf, net, size, true);
    var f := Fill(buf, net, size, true).value;
    ParseOfLine(line, |data|, f.buf, f.net.rest, data + [CR, LF] + after);
    DataTaken(data, after, f.buf[|line|..], f.net, size, body);
    TakeLengths(|data|, f.buf[|line|..], f.net, size, body);
    t := Take(|data|, f.buf[|line|..], f.net, size, body).value;
  }

  /** Lines that arrive whole are a special case. */
  lemma {:induction false} WholeLinesRead(
      chunks: seq<Chunk>, last: seq<byte>, tail: seq<byte>, buf: seq<byte>, net: Net, size: nat, body: seq<byte>)
    requires 0 < size && |buf| <= size && net.Open() && WellFormed(chunks, last)
    requires buf + net.rest == Wire(chunks, last) + tail && ArrivesWhole(chunks, last, buf, net, size, body)
    ensures LinesRead(ShapesOf(chunks), last, Lengths(buf, net), size) == true
    decreases |chunks|
  {
    if chunks == [] {
      assert buf + net.rest == last + ([] + [CR, LF] + tail);
      var t := WholeLine(last, [], tail, buf, net, size, body);
    } else {
      FirstChunk(chunks, last, tail, body);
      FirstShape(chunks);
      var t := WholeLine(chunks[0].line, chunks[0].data, Wire(chunks[1..], last) + tail, buf, net, size, body);
      WholeLinesRead(chunks[1..], last, tail, t.buf, t.net, size, t.body);
    }
  }

  // ---------------------------------------------------------------------------------------------
  // A split that does no harm

  lemma {:induction false} LeadingZeroNumber(s: seq<byte>)
    requires forall i :: 0 <= i < |s| ==> IsDigit(s[i])
    ensures Number([ZERO] + s) == Number(s)
  {
    if s == [] {
      assert [ZERO] + s == [ZERO] && [ZERO][..0] == [];
    } else {
      LeadingZeroNumber(s[..|s| - 1]);
      assert ([ZERO] + s)[..|s|] == [ZERO] + s[..|s| - 1];
    }
  }

  lemma LeadingZeroLine(line: seq<byte>, n: nat)
    requires IsLine(line, n)
    ensures Parse([ZERO]) == Incomplete && IsLine([ZERO] + line, n)
  {
    ScanDigits(Start, [ZERO], []);
    assert [ZERO] + [] == [ZERO];
    var zero, w := [ZERO] + line, Width(line);
    ScanDigits(Start, [ZERO], line);
    assert Scan(Delta(Start, line[0]), line[1..]).0.Done?;
    assert Scan(Digits, line) == Scan(Start, line);
    assert zero[1..] == line && zero[..w + 1] == [ZERO] + line[..w];
    LeadingZeroNumber(line[..w]);
  }

  /** A line with a zero in front, of which only the zero has arrived, can be read when the next read
      delivers the rest. */
  lemma LostZeroReads(line: seq<byte>, n: nat, rest: nat, plan: seq<nat>, size: nat)
    requires IsLine(line, n) && |line| <= size && |line| <= rest && plan != [] && |line| <= plan[0]
    ensures IsLine([ZERO] + line, n)
    ensures ReadLine([ZERO] + line, n, Reads(1, rest, plan), size, true).Some?
  {
    LeadingZeroLine(line, n);
    assert ([ZERO] + line)[1..] == line && ([ZERO] + line)[..1] == [ZERO];
    assert ReadLine(line, n, Reads(0, rest, plan), size, false).Some?;
  }
}
