/** Receiving a chunked response body from a connection that delivers its bytes in arbitrary pieces. */
module ChunkedBody {
  import opened Common
  import opened Blocks
  import opened ChunkLine

  const INT_MAX := 0x7FFF_FFFF

  // ---------------------------------------------------------------------------------------------
  // The connection

  /** The bytes still to come, and for each coming read the most it will deliver.  A read that delivers
      nothing is one that finds the connection closed. */
  datatype Net = Net(rest: seq<byte>, plan: seq<nat>) {

    /** What a read of at most `n` bytes delivers. */
    function Delivers(n: nat): (k: nat)
      ensures k <= n && k <= |rest|
    {
      if plan == [] then 0 else Min(plan[0], Min(n, |rest|))
    }

    function After(n: nat): Net {
      Net(rest[Delivers(n)..], if plan == [] then [] else plan[1..])
    }

    /** The connection stays open until the last byte. */
    predicate Open() {
      |rest| <= |plan| && forall i :: 0 <= i < |plan| ==> plan[i] > 0
    }
  }

  // ---------------------------------------------------------------------------------------------
  // What the receiving loops compute

  datatype Filled = Filled(buf: seq<byte>, net: Net)

  /** The read before a parse: it is left out when the buffer holds bytes that have not been parsed. */
  function Fill(buf: seq<byte>, net: Net, size: nat, begin: bool): (r: Option<Filled>)
    requires |buf| <= size
    ensures r.Some? ==> 0 < |r.value.buf| <= size
    ensures r.Some? ==> r.value.buf + r.value.net.rest == buf + net.rest
  {
    var k := net.Delivers(size - |buf|);
    if begin && buf != [] then Some(Filled(buf, net))
    else if k == 0 then None
    else
      assert net.rest[..k] + net.rest[k..] == net.rest;
      Some(Filled(buf + net.rest[..k], net.After(size - |buf|)))
  }

  datatype Head =
    | Found(size: int, buf: seq<byte>, net: Net, split: bool)
    | Gone(split: bool)
    | NotALine(split: bool)

  /** The loop that reads a chunk-size line.  An incomplete line is dropped, because the parser has used
      up the buffer and starts afresh; `split` records that this has happened. */
  function ReadHead(buf: seq<byte>, net: Net, size: nat, begin: bool, split: bool): (r: Head)
    requires |buf| <= size
    ensures r.Found? ==> |r.buf| + |r.net.rest| < |buf| + |net.rest| && |r.buf| < size
    decreases |buf + net.rest|
  {
    match Fill(buf, net, size, begin)
    case None => Gone(split)
    case Some(f) =>
      assert |f.buf + f.net.rest| == |buf + net.rest|;
      match Parse(f.buf)
      case Bad => NotALine(split)
      case Incomplete =>
        assert |[] + f.net.rest| < |f.buf + f.net.rest|;
        ReadHead([], f.net, size, false, true)
      case Line(k, used) => Found(k, f.buf[used..], f.net, split)
  }

  /** The loop that reads the rest of a chunk and its line end. */
  function ReadRest(body: seq<byte>, left: nat, net: Net, size: nat): (r: Option<(seq<byte>, Net)>)
    ensures r.Some? ==> |r.value.0| == |body| + left && |r.value.1.rest| == |net.rest| - left
    decreases left
  {
    if left == 0 then Some((body, net)) else
    var k := net.Delivers(Min(left, size));
    if k == 0 then None else ReadRest(body + net.rest[..k], left - k, net.After(Min(left, size)), size)
  }

  lemma RestStep(body: seq<byte>, left: nat, net: Net, size: nat)
    requires 0 < left
    ensures var n := Min(left, size);
            var k := net.Delivers(n);
            ReadRest(body, left, net, size)
            == if k == 0 then None else ReadRest(body + net.rest[..k], left - k, net.After(n), size)
  {
  }

  /** The body, the buffer and the connection after a chunk. */
  datatype Taken = Taken(body: seq<byte>, buf: seq<byte>, net: Net)

  /** A chunk of `n` bytes and its line end, of which the buffer may hold all, a part or nothing. */
  function Take(n: nat, buf: seq<byte>, net: Net, size: nat, body: seq<byte>): (r: Option<Taken>)
    ensures r.Some? ==> |r.value.buf| + |r.value.net.rest| <= |buf| + |net.rest| && |r.value.buf| <= |buf|
  {
    if n + 2 <= |buf| then Some(Taken(body + buf[..n], buf[n + 2..], net))
    else
      match ReadRest(body + buf, n + 2 - |buf|, net, size)
      case None => None
      case Some((all, net1)) => Some(Taken(all[..|all| - 2], [], net1))
  }

  datatype Outcome =
    | Body(taken: Taken, split: bool)
    | Closed(split: bool)
    | Refused(split: bool)
    | TooLarge(split: bool)

  /** The whole loop over chunks. */
  function Receive(buf: seq<byte>, net: Net, size: nat, body: seq<byte>, split: bool): Outcome
    requires |buf| <= size
    decreases |buf| + |net.rest|
  {
    match ReadHead(buf, net, size, true, split)
    case Gone(sp) => Closed(sp)
    case NotALine(sp) => Refused(sp)
    case Found(n, buf1, net1, sp) =>
      if n < 0 || n + 2 > INT_MAX then TooLarge(sp) else
      match Take(n, buf1, net1, size, body)
      case None => Closed(sp)
      case Some(t) => if n == 0 then Body(t, sp) else Receive(t.buf, t.net, size, t.body, sp)
  }

  // ---------------------------------------------------------------------------------------------
  // Well-formed bodies

  datatype Chunk = Chunk(line: seq<byte>, data: seq<byte>) {
    predicate Ok() {
      0 < |data| <= INT_MAX - 2 && IsLine(line, |data|)
    }
  }

  /** The bytes of a chunked body without trailers: every chunk with its size line and line end, and the
      last chunk, whose size is zero. */
  function Wire(chunks: seq<Chunk>, last: seq<byte>): seq<byte> {
    if chunks == [] then last + [CR, LF]
    else chunks[0].line + (chunks[0].data + [CR, LF] + Wire(chunks[1..], last))
  }

  function Joined(chunks: seq<Chunk>): seq<byte> {
    if chunks == [] then [] else chunks[0].data + Joined(chunks[1..])
  }

  lemma StaysOpen(net: Net, n: nat)
    requires net.Open() && net.rest != [] && 0 < n
    ensures 0 < net.Delivers(n) && net.After(n).Open()
    ensures net.rest == net.rest[..net.Delivers(n)] + net.After(n).rest
  {
  }

  lemma {:induction false} SplitStays(buf: seq<byte>, net: Net, size: nat, begin: bool)
    requires |buf| <= size
    ensures ReadHead(buf, net, size, begin, true).split
    decreases |buf + net.rest|
  {
    var f := Fill(buf, net, size, begin);
    if f.Some? && Parse(f.value.buf).Incomplete? {
      assert |[] + f.value.net.rest| < |f.value.buf + f.value.net.rest|;
      SplitStays([], f.value.net, size, false);
    }
  }

  /** A size line is found where it stands, unless it was split. */
  lemma HeadFound(line: seq<byte>, n: nat, after: seq<byte>, buf: seq<byte>, net: Net, size: nat)
    requires 0 < size && |buf| <= size && net.Open() && IsLine(line, n) && buf + net.rest == line + after
    ensures var r := ReadHead(buf, net, size, true, false);
            !r.split ==> r.Found? && r.size == n && r.buf + r.net.rest == after && r.net.Open()
  {
    assert line != [] && buf + net.rest != [];
    if buf == [] {
      StaysOpen(net, size);
    }
    var f := Fill(buf, net, size, true).value;
    ParseOfLine(line, n, f.buf, f.net.rest, after);
    if Parse(f.buf).Incomplete? {
      SplitStays([], f.net, size, false);
    }
  }

  lemma InPieces(body: seq<byte>, s: seq<byte>, k: nat, n: nat)
    requires k <= n <= |s|
    ensures body + s[..k] + s[k..][..n - k] == body + s[..n] && s[k..][n - k..] == s[n..]
  {
  }

  /** What is read is the next bytes of the connection, to the last one asked for and no further. */
  lemma {:induction false} RestTakes(body: seq<byte>, left: nat, net: Net, size: nat)
    requires ReadRest(body, left, net, size).Some?
    ensures left <= |net.rest|
    ensures ReadRest(body, left, net, size).value.0 == body + net.rest[..left]
    ensures ReadRest(body, left, net, size).value.1.rest == net.rest[left..]
    decreases left
  {
    if left > 0 {
      var n := Min(left, size);
      var k := net.Delivers(n);
      RestTakes(body + net.rest[..k], left - k, net.After(n), size);
      InPieces(body, net.rest, k, left);
    }
  }

  /** Whether the bytes arrive does not depend on what they are appended to. */
  lemma {:induction false} RestArrives(a: seq<byte>, b: seq<byte>, left: nat, net: Net, size: nat)
    ensures ReadRest(a, left, net, size).Some? == ReadRest(b, left, net, size).Some?
    decreases left
  {
    var n := Min(left, size);
    var k := net.Delivers(n);
    if 0 < k <= left {
      RestArrives(a + net.rest[..k], b + net.rest[..k], left - k, net.After(n), size);
    }
  }

  lemma OpenStep(body: seq<byte>, left: nat, net: Net, size: nat)
    requires 0 < left <= |net.rest| && 0 < size && net.Open()
    ensures var n := Min(left, size);
            var k := net.Delivers(n);
            && 0 < k <= left <= k + |net.After(n).rest| && net.After(n).Open()
            && ReadRest(body, left, net, size) == ReadRest(body + net.rest[..k], left - k, net.After(n), size)
  {
    StaysOpen(net, Min(left, size));
    RestStep(body, left, net, size);
  }

  /** A connection that stays open delivers what it has. */
  lemma {:induction false} RestRead(body: seq<byte>, left: nat, net: Net, size: nat)
    requires 0 < size && net.Open() && left <= |net.rest|
    ensures ReadRest(body, left, net, size).Some? && ReadRest(body, left, net, size).value.1.Open()
    decreases left
  {
    if left > 0 {
      var n := Min(left, size);
      OpenStep(body, left, net, size);
      RestRead(body + net.rest[..net.Delivers(n)], left - net.Delivers(n), net.After(n), size);
    }
  }

  lemma DataSplit(data: seq<byte>, after: seq<byte>, buf: seq<byte>, rest: seq<byte>, left: nat)
    requires buf + rest == data + [CR, LF] + after && |buf| + left == |data| + 2
    ensures left <= |rest| && buf + rest[..left] == data + [CR, LF]
    ensures rest[left..] == [] + rest[left..] == after
  {
    var all := data + [CR, LF] + after;
    assert |all| == |data| + 2 + |after|;
    assert buf + rest[..left] == all[..|data| + 2] == data + [CR, LF];
    assert [] + rest[left..] == all[|data| + 2..] == after;
  }

  /** After the line of a chunk: its data goes to the body, its line end is skipped, and what follows is
      left where it was. */
  lemma DataTaken(data: seq<byte>, after: seq<byte>, buf: seq<byte>, net: Net, size: nat, body: seq<byte>)
    requires 0 < size && net.Open() && buf + net.rest == data + [CR, LF] + after
    ensures var r := Take(|data|, buf, net, size, body);
            && r.Some? && r.value.body == body + data
            && r.value.buf + r.value.net.rest == after && r.value.net.Open()
  {
    if |data| + 2 <= |buf| {
      var all := data + [CR, LF] + after;
      assert buf[..|data|] == all[..|data|] == data;
      assert buf[|data| + 2..] + net.rest == all[|data| + 2..] == after;
    } else {
      var left := |data| + 2 - |buf|;
      DataSplit(data, after, buf, net.rest, left);
      RestRead(body + buf, left, net, size);
      RestTakes(body + buf, left, net, size);
      DataCut(body, data, buf, net.rest[..left]);
    }
  }

  lemma DataCut(body: seq<byte>, data: seq<byte>, buf: seq<byte>, more: seq<byte>)
    requires buf + more == data + [CR, LF]
    ensures |body + buf + more| == |body| + |data| + 2
    ensures (body + buf + more)[..|body| + |data|] == body + data
  {
    assert body + buf + more == body + (buf + more);
  }

  /** Once a line was split the whole reception counts as split. */
  lemma {:induction false} SplitAnswer(buf: seq<byte>, net: Net, size: nat, body: seq<byte>, split: bool)
    requires |buf| <= size && (split || ReadHead(buf, net, size, true, split).split)
    ensures Receive(buf, net, size, body, split).split
    decreases |buf| + |net.rest|
  {
    if split {
      SplitStays(buf, net, size, true);
    }
    var h := ReadHead(buf, net, size, true, split);
    if h.Found? && 0 < h.size <= INT_MAX - 2 {
      var t := Take(h.size, h.buf, h.net, size, body);
      if t.Some? {
        SplitAnswer(t.value.buf, t.value.net, size, t.value.body, true);
      }
    }
  }

  /** One chunk of a well-formed body: the reception goes on after it. */
  ghost predicate GoesOn(buf: seq<byte>, net: Net, size: nat, body: seq<byte>, data: seq<byte>, after: seq<byte>, t: Taken)
    requires |buf| <= size
  {
    && t.body == body + data && t.buf + t.net.rest == after && |t.buf| <= size && t.net.Open()
    && Receive(buf, net, size, body, false) ==
       if |data| == 0 then Body(t, false) else Receive(t.buf, t.net, size, t.body, false)
  }

  lemma ChunkReceived(line: seq<byte>, data: seq<byte>, after: seq<byte>, buf: seq<byte>, net: Net, size: nat, body: seq<byte>)
    returns (t: Taken)
    requires 0 < size && |buf| <= size && net.Open() && |data| <= INT_MAX - 2
    requires IsLine(line, |data|) && buf + net.rest == line + (data + [CR, LF] + after)
    ensures Receive(buf, net, size, body, false).split || GoesOn(buf, net, size, body, data, after, t)
  {
    var h := ReadHead(buf, net, size, true, false);
    t := Taken([], [], net);
    if h.split {
      SplitAnswer(buf, net, size, body, false);
    } else {
      HeadFound(line, |data|, data + [CR, LF] + after, buf, net, size);
      DataTaken(data, after, h.buf, h.net, size, body);
      t := Take(h.size, h.buf, h.net, size, body).value;
    }
  }

  ghost predicate WellFormed(chunks: seq<Chunk>, last: seq<byte>) {
    IsLine(last, 0) && forall i :: 0 <= i < |chunks| ==> chunks[i].Ok()
  }

  lemma FirstChunk(chunks: seq<Chunk>, last: seq<byte>, tail: seq<byte>, body: seq<byte>)
    requires chunks != []
    ensures Wire(chunks, last) + tail
            == chunks[0].line + (chunks[0].data + [CR, LF] + (Wire(chunks[1..], last) + tail))
    ensures body + chunks[0].data + Joined(chunks[1..]) == body + Joined(chunks)
  {
  }

  /** The answer that the reception of a body followed by `tail` should give. */
  predicate Right(r: Outcome, body: seq<byte>, tail: seq<byte>) {
    r.Body? && r.taken.body == body && r.taken.buf + r.taken.net.rest == tail
  }

  /** A reception that has not split a line has given the body and left the tail. */
  predicate Complete(r: Outcome, body: seq<byte>, tail: seq<byte>) {
    !r.split ==> Right(r, body, tail)
  }

  /** Receiving a well-formed body from a connection that stays open: unless a size line was split
      between two parses, the body is the data of the chunks, and what follows the last chunk is still
      there, in the buffer or to come. */
  lemma {:induction false} BodyReceived(
      chunks: seq<Chunk>, last: seq<byte>, tail: seq<byte>, buf: seq<byte>, net: Net, size: nat, body: seq<byte>)
    requires 0 < size && |buf| <= size && net.Open() && WellFormed(chunks, last)
    requires buf + net.rest == Wire(chunks, last) + tail
    ensures Complete(Receive(buf, net, size, body, false), body + Joined(chunks), tail)
    decreases |chunks|
  {
    if chunks == [] {
      assert buf + net.rest == last + ([] + [CR, LF] + tail);
      var t := ChunkReceived(last, [], tail, buf, net, size, body);
    } else {
      FirstChunk(chunks, last, tail, body);
      var t := ChunkReceived(chunks[0].line, chunks[0].data, Wire(chunks[1..], last) + tail, buf, net, size, body);
      if GoesOn(buf, net, size, body, chunks[0].data, Wire(chunks[1..], last) + tail, t) {
        BodyReceived(chunks[1..], last, tail, t.buf, t.net, size, t.body);
      }
    }
  }

  /** The size lines of a body arrive whole: when the parser is called for a line, the buffer, after the
      read if there was one, holds all of it.  This depends on what the reads deliver, not on what the
      parser makes of it. */
  ghost predicate ArrivesWhole(chunks: seq<Chunk>, last: seq<byte>, buf: seq<byte>, net: Net, size: nat, body: seq<byte>)
    requires |buf| <= size
    decreases |chunks|
  {
    var f := Fill(buf, net, size, true);
    if chunks == [] then f.Some? && |last| <= |f.value.buf|
    else
      && f.Some? && |chunks[0].line| <= |f.value.buf|
      && var t := Take(|chunks[0].data|, f.value.buf[|chunks[0].line|..], f.value.net, size, body);
         t.Some? ==> ArrivesWhole(chunks[1..], last, t.value.buf, t.value.net, size, t.value.body)
  }

  /** The first line is read at the first parse, or it is split. */
  lemma HeadIff(line: seq<byte>, n: nat, after: seq<byte>, buf: seq<byte>, net: Net, size: nat)
    requires 0 < size && |buf| <= size && net.Open() && IsLine(line, n) && buf + net.rest == line + after
    ensures var f := Fill(buf, net, size, true);
            && f.Some?
            && if |line| <= |f.value.buf|
               then ReadHead(buf, net, size, true, false) == Found(n, f.value.buf[|line|..], f.value.net, false)
               else ReadHead(buf, net, size, true, false).split
  {
    assert line != [] && buf + net.rest != [];
    if buf == [] {
      StaysOpen(net, size);
    }
    var f := Fill(buf, net, size, true).value;
    ParseOfLine(line, n, f.buf, f.net.rest, after);
    if |f.buf| < |line| {
      SplitStays([], f.net, size, false);
    }
  }

  /** One chunk of a well-formed body, by whether its line arrives whole. */
  lemma ChunkIff(line: seq<byte>, data: seq<byte>, after: seq<byte>, buf: seq<byte>, net: Net, size: nat, body: seq<byte>)
    requires 0 < size && |buf| <= size && net.Open() && |data| <= INT_MAX - 2
    requires IsLine(line, |data|) && buf + net.rest == line + (data + [CR, LF] + after)
    ensures var f := Fill(buf, net, size, true);
            && f.Some?
            && if |line| <= |f.value.buf| then
                 var t := Take(|data|, f.value.buf[|line|..], f.value.net, size, body);
                 t.Some? && GoesOn(buf, net, size, body, data, after, t.value)
               else Receive(buf, net, size, body, false).split
  {
    HeadIff(line, |data|, data + [CR, LF] + after, buf, net, size);
    var f := Fill(buf, net, size, true).value;
    if |line| <= |f.buf| {
      HeadFound(line, |data|, data + [CR, LF] + after, buf, net, size);
      DataTaken(data, after, f.buf[|line|..], f.net, size, body);
    } else {
      SplitAnswer(buf, net, size, body, false);
    }
  }

  /** A reception splits a line if and only if some line does not arrive whole. */
  lemma {:induction false} SplitIff(
      chunks: seq<Chunk>, last: seq<byte>, tail: seq<byte>, buf: seq<byte>, net: Net, size: nat, body: seq<byte>)
    requires 0 < size && |buf| <= size && net.Open() && WellFormed(chunks, last)
    requires buf + net.rest == Wire(chunks, last) + tail
    ensures Receive(buf, net, size, body, false).split <==> !ArrivesWhole(chunks, last, buf, net, size, body)
    decreases |chunks|
  {
    if chunks == [] {
      assert buf + net.rest == last + ([] + [CR, LF] + tail);
      ChunkIff(last, [], tail, buf, net, size, body);
    } else {
      var c, after := chunks[0], Wire(chunks[1..], last) + tail;
      FirstChunk(chunks, last, tail, body);
      ChunkIff(c.line, c.data, after, buf, net, size, body);
      var f := Fill(buf, net, size, true).value;
      if |c.line| <= |f.buf| {
        var t := Take(|c.data|, f.buf[|c.line|..], f.net, size, body).value;
        SplitIff(chunks[1..], last, tail, t.buf, t.net, size, t.body);
      }
    }
  }

  /** So a well-formed body whose size lines arrive whole is received: its body is the data of the
      chunks, and what follows it is left. */
  lemma WholeLinesReceived(
      chunks: seq<Chunk>, last: seq<byte>, tail: seq<byte>, buf: seq<byte>, net: Net, size: nat)
    requires 0 < size && |buf| <= size && net.Open() && WellFormed(chunks, last)
    requires buf + net.rest == Wire(chunks, last) + tail && ArrivesWhole(chunks, last, buf, net, size, [])
    ensures Right(Receive(buf, net, size, [], false), Joined(chunks), tail)
  {
    SplitIff(chunks, last, tail, buf, net, size, []);
    BodyReceived(chunks, last, tail, buf, net, size, []);
    assert [] + Joined(chunks) == Joined(chunks);
  }

  /** A body that lies in the buffer as a whole is never split, whatever the connection does. */
  lemma {:induction false} BufferedBody(
      chunks: seq<Chunk>, last: seq<byte>, tail: seq<byte>, buf: seq<byte>, net: Net, size: nat, body: seq<byte>)
    requires |buf| <= size && WellFormed(chunks, last) && buf == Wire(chunks, last) + tail
    ensures Receive(buf, net, size, body, false) == Body(Taken(body + Joined(chunks), tail, net), false)
    decreases |chunks|
  {
    if chunks == [] {
      assert buf == last + ([] + [CR, LF] + tail);
      BufferedChunk(last, [], tail, buf, net, size, body);
    } else {
      FirstChunk(chunks, last, tail, body);
      var more := Wire(chunks[1..], last) + tail;
      BufferedChunk(chunks[0].line, chunks[0].data, more, buf, net, size, body);
      BufferedBody(chunks[1..], last, tail, more, net, size, body + chunks[0].data);
    }
  }

  lemma BufferedChunk(line: seq<byte>, data: seq<byte>, after: seq<byte>, buf: seq<byte>, net: Net, size: nat, body: seq<byte>)
    requires |buf| <= size && |data| <= INT_MAX - 2
    requires IsLine(line, |data|) && buf == line + (data + [CR, LF] + after)
    ensures Receive(buf, net, size, body, false) ==
            if |data| == 0 then Body(Taken(body + data, after, net), false)
            else Receive(after, net, size, body + data, false)
  {
    assert buf + [] == buf;
    ParseOfLine(line, |data|, buf, [], data + [CR, LF] + after);
    var h := ReadHead(buf, net, size, true, false);
    assert h == Found(|data|, buf[|line|..], net, false);
    assert buf[|line|..] == data + [CR, LF] + after;
    assert h.buf[..|data|] == data && h.buf[|data| + 2..] == after;
  }

  const ONE: byte := 49
  const ZERO: byte := 48

  /** The reception of `line` after a read that brought in nothing but a part of it. */
  lemma AfterSplit(line: seq<byte>, n: nat, after: seq<byte>, net: Net, size: nat)
    requires IsLine(line, n) && net.rest == line + after && net.Delivers(size) == |net.rest|
    ensures ReadHead([], net, size, false, true) == Found(n, after, net.After(size), true)
  {
    var f := Fill([], net, size, false).value;
    assert f.buf == line + after;
    ParseOfLine(line, n, f.buf, [], after);
    assert f.buf + [] == f.buf;
  }

  /** A chunk of sixteen bytes whose size line arrives as "1" and "0": the reception ends with success
      and an empty body. */
  lemma SplitTruncates(data: seq<byte>, size: nat)
    requires |data| == 16
    requires |Wire([Chunk([ONE, ZERO, CR, LF], data)], [ZERO, CR, LF])| <= size
    ensures var chunk := Chunk([ONE, ZERO, CR, LF], data);
            var wire := Wire([chunk], [ZERO, CR, LF]);
            var r := Receive([], Net(wire, [1, |wire|]), size, [], false);
            chunk.Ok() && r.Body? && r.taken.body == [] && r.split
  {
    var chunk := Chunk([ONE, ZERO, CR, LF], data);
    var wire := Wire([chunk], [ZERO, CR, LF]);
    SplitTen();
    var after := data + [CR, LF] + Wire([], [ZERO, CR, LF]);
    var net, net1 := Net(wire, [1, |wire|]), Net(wire[1..], [|wire|]);
    SplitWire(data);
    assert net.After(size) == net1;
    assert [] + wire[..1] == [ONE];
    AfterSplit([ZERO, CR, LF], 0, after, net1, size);
    assert ReadHead([], net, size, true, false) == ReadHead([], net1, size, false, true);
  }

  lemma SplitWire(data: seq<byte>)
    ensures Wire([Chunk([ONE, ZERO, CR, LF], data)], [ZERO, CR, LF])
            == [ONE] + ([ZERO, CR, LF] + (data + [CR, LF] + Wire([], [ZERO, CR, LF])))
  {
    var chunks, last := [Chunk([ONE, ZERO, CR, LF], data)], [ZERO, CR, LF];
    assert chunks[1..] == [];
    var after := data + [CR, LF] + Wire([], last);
    assert [ONE, ZERO, CR, LF] + after == [ONE] + (last + after);
  }

  lemma SplitTen()
    ensures Parse([ONE]) == Incomplete && IsLine([ZERO, CR, LF], 0) && IsLine([ONE, ZERO, CR, LF], 16)
  {
    LineEnds();
    SplitLine([ONE], [ZERO], [CR, LF]);
    assert [ZERO] + [CR, LF] == [ZERO, CR, LF];
    assert [ONE] + [ZERO] + [CR, LF] == [ONE, ZERO, CR, LF];
    assert [ZERO][..0] == [] && [ONE][..0] == [];
    assert Number([ZERO]) == 0 && Number([ONE]) == 1;
    assert ([ONE] + [ZERO])[..1] == [ONE];
    assert Number([ONE] + [ZERO]) == 16;
  }
}
