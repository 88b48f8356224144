/** The receiving loops of client and server, in place on one buffer; each computes what the
    functions of ChunkedBody say, and no index leaves the buffer.

    Where a contract says `P(..) == true` it means `P(..)`; the longer form keeps the verifier from
    proving the parts of P one by one. */
module BodyReceiver {
  import opened Common
  import opened Blocks
  import opened ChunkLine
  import opened ChunkedBody

  /** memmove to the front of the array. */
  method MoveToFront(data: array<byte>, from: nat, n: nat)
    requires from + n <= data.Length
    modifies data
    ensures data[..n] == old(data[from..from + n])
  {
    var i := 0;
    ghost var was := data[..];
    while i < n
      invariant 0 <= i <= n
      invariant data[..i] == was[from..from + i]
      invariant forall j :: from + i <= j < data.Length ==> data[j] == was[j]
    {
      SliceExtends(was, from, from + i, from + i + 1);
      data[i] := data[from + i];
      assert data[..i + 1] == data[..i] + [was[from + i]];
      i := i + 1;
    }
  }

  /** memcpy from the front of one array to the front of another. */
  method MoveFrom(data: array<byte>, text: array<byte>, n: nat)
    requires n <= data.Length && n <= text.Length && data != text
    modifies text
    ensures text[..n] == data[..n]
  {
    var i := 0;
    while i < n
      invariant 0 <= i <= n && text[..i] == data[..i]
    {
      text[i] := data[i];
      assert text[..i + 1] == text[..i] + [text[i]];
      i := i + 1;
    }
  }

  lemma OpenArrives(net: Net, n: nat)
    requires n > 0
    ensures net.Open() && n <= |net.rest| ==>
              (ReadRest([], n, net, n).Some? && ToInt32(n) > 0 <==> 0 < n % 0x1_0000_0000 < 0x8000_0000)
  {
    if net.Open() && n <= |net.rest| {
      RestRead([], n, net, n);
    }
  }

  lemma Behind(s: seq<byte>, a: seq<byte>, more: seq<byte>)
    requires s == a + more
    ensures s[..|a|] == a && s[|a|..] == more
  {
  }

  lemma FrontOf(a: seq<byte>, rest: seq<byte>, n: nat)
    requires n <= |a| + |rest|
    ensures (a + rest)[..n] == if n <= |a| then a[..n] else a + rest[..n - |a|]
  {
  }

  class HttpConnection {
    var net: Net

    constructor (net: Net)
      ensures this.net == net
    {
      this.net := net;
    }

    /** A read of at most `n` bytes to `data + at`. */
    method Read(data: array<byte>, at: nat, n: nat) returns (rt: nat)
      requires at + n <= data.Length
      modifies this, data
      ensures rt == old(net).Delivers(n) && net == old(net).After(n)
      ensures data[..at + rt] == old(data[..at]) + old(net).rest[..rt]
    {
      rt := net.Delivers(n);
      var i := 0;
      while i < rt
        invariant 0 <= i <= rt && net == old(net)
        invariant data[..at + i] == old(data[..at]) + net.rest[..i]
      {
        data[at + i] := net.rest[i];
        assert data[..at + i + 1] == data[..at + i] + [data[at + i]];
        i := i + 1;
      }
      net := net.After(n);
    }

    /** HttpResponseParser::execute on a fresh parser: the bytes used are shifted out of the buffer, all
        of them when the line is incomplete. */
    method Execute(data: array<byte>, len: nat) returns (p: Parsed, left: nat)
      requires len < data.Length
      modifies data
      ensures p == Parse(old(data[..len]))
      ensures left == match p case Line(_, used) => len - used case _ => 0
      ensures p.Line? ==> data[..left] == old(data[..len])[p.used..]
    {
      data[len] := 0;
      assert data[..len] == old(data[..len]);
      p := Parse(data[..len]);
      left := 0;
      if p.Line? {
        left := len - p.used;
        assert data[p.used..p.used + left] == data[..len][p.used..];
        MoveToFront(data, p.used, left);
      }
    }

    /** The read before a parse; false when the connection is gone. */
    method Refill(data: array<byte>, size: nat, len: nat, begin: bool) returns (ok: bool, left: nat)
      requires data.Length == size + 1 && len <= size
      modifies this, data
      ensures var f := Fill(old(data[..len]), old(net), size, begin);
              ok == f.Some? && left <= size && (ok ==> data[..left] == f.value.buf && net == f.value.net)
    {
      ok, left := true, len;
      if !begin || len == 0 {
        var rt := Read(data, len, size - len);
        ok, left := rt > 0, len + rt;
      }
    }

    /** What the inner loop has found, as the specification says it. */
    ghost predicate IsHead(g: Head, h: Parsed, data: array<byte>, left: nat, sp: bool)
      reads this, data
    {
      && left <= data.Length
      && match g
         case Gone(s) => h.Incomplete? && sp == s
         case NotALine(s) => h.Bad? && sp == s
         case Found(n, buf, rest, s) => h.Line? && h.size == n && data[..left] == buf && net == rest && sp == s
    }

    /** The inner loop: read and parse until a size line is complete. */
    method ReceiveHead(data: array<byte>, size: nat, len: nat, split: bool)
      returns (h: Parsed, left: nat, sp: bool)
      requires data.Length == size + 1 && len <= size
      modifies this, data
      ensures left <= size && IsHead(old(ReadHead(data[..len], net, size, true, split)), h, data, left, sp)
    {
      ghost var goal := ReadHead(data[..len], net, size, true, split);
      left := len;
      var begin := true;
      sp := split;
      h := Incomplete;
      while h.Incomplete?
        invariant left <= size
        invariant if h.Incomplete? then ReadHead(data[..left], net, size, begin, sp) == goal
                  else IsHead(goal, h, data, left, sp)
        decreases if h.Incomplete? then 1 else 0, left + |net.rest|
      {
        var ok;
        ok, left := Refill(data, size, left, begin);
        if !ok {
          return;
        }
        h, left := Execute(data, left);
        begin := false;
        if h.Incomplete? {
          assert data[..0] == [];
          sp := true;
        }
      }
    }

    /** One read of at most `left` bytes, and at most `size`, for a reader that has `body` so far. */
    method ReadPart(data: array<byte>, at: nat, left: nat, size: nat, ghost body: seq<byte>)
      returns (rt: nat, ghost next: seq<byte>)
      requires 0 < left && at + Min(left, size) <= data.Length
      modifies this, data
      ensures rt <= left && at + rt <= data.Length && |next| == |body| + rt
      ensures ReadRest(body, left, old(net), size) == if rt == 0 then None else ReadRest(next, left - rt, net, size)
      ensures data[..at] == old(data[..at]) && next == body + data[at..at + rt]
    {
      RestStep(body, left, net, size);
      ghost var more;
      rt, more := ReadSome(data, at, if left > size then size else left);
      next := body + more;
    }

    method ReadSome(data: array<byte>, at: nat, n: nat) returns (rt: nat, ghost more: seq<byte>)
      requires at + n <= data.Length
      modifies this, data
      ensures rt == old(net).Delivers(n) && net == old(net).After(n)
      ensures data[..at] == old(data[..at]) && more == data[at..at + rt] == old(net).rest[..rt]
    {
      rt := Read(data, at, n);
      more := old(net).rest[..rt];
      Behind(data[..at + rt], old(data[..at]), more);
      assert data[at..at + rt] == data[..at + rt][at..];
    }

    /** The loop that reads the rest of a chunk: never more than is missing, and never more than the
        buffer holds. */
    method ReceiveRest(data: array<byte>, size: nat, start: seq<byte>, missing: nat)
      returns (ok: bool, body: seq<byte>)
      requires data.Length == size + 1
      modifies this, data
      ensures var r := ReadRest(start, missing, old(net), size);
              ok == r.Some? && (ok ==> body == r.value.0 && net == r.value.1)
    {
      ghost var goal := ReadRest(start, missing, net, size);
      body := start;
      var left := missing;
      while left > 0
        invariant 0 <= left
        invariant ReadRest(body, left, net, size) == goal
        decreases left
      {
        ghost var next;
        var rt;
        rt, next := ReadPart(data, 0, left, size, body);
        if rt == 0 {
          return false, body;
        }
        body := body + data[..rt];
        left := left - rt;
      }
      ok := true;
    }

    /** A chunk of `n` bytes, of which the first `len` bytes of the buffer may hold all or a part. */
    method ReceiveData(data: array<byte>, size: nat, len: nat, n: nat, start: seq<byte>)
      returns (ok: bool, body: seq<byte>, left: nat)
      requires data.Length == size + 1 && len <= size
      modifies this, data
      ensures left <= size
      ensures var r := Take(n, old(data[..len]), old(net), size, start);
              ok == r.Some? && (ok ==> r.value == Taken(body, data[..left], net))
    {
      ghost var buf := data[..len];
      if n + 2 <= len {
        ok, body := true, start + data[..n];
        assert data[..n] == buf[..n];
        left := len - (n + 2);
        assert data[n + 2..n + 2 + left] == buf[n + 2..];
        MoveToFront(data, n + 2, left);
      } else {
        left := 0;
        ok, body := ReceiveRest(data, size, start + data[..len], n - len + 2);
        if ok {
          body := body[..|body| - 2];
          assert data[..0] == [];
        }
      }
    }

    /** One turn of the loop over chunks; `r` is None when another chunk is to follow. */
    method ReceiveChunk(data: array<byte>, size: nat, len: nat, start: seq<byte>, split: bool)
      returns (r: Option<Outcome>, body: seq<byte>, left: nat, sp: bool)
      requires data.Length == size + 1 && len <= size
      modifies this, data
      ensures left <= size
      ensures old(Receive(data[..len], net, size, start, split))
              == if r.Some? then r.value else Receive(data[..left], net, size, body, sp)
      ensures r.None? ==> left + |net.rest| < len + |old(net).rest|
    {
      var h;
      body := start;
      h, left, sp := ReceiveHead(data, size, len, split);
      match h
      case Incomplete => return Some(Closed(sp)), body, left, sp;
      case Bad => return Some(Refused(sp)), body, left, sp;
      case Line(n, _) =>
        if n < 0 || n + 2 > INT_MAX {
          return Some(TooLarge(sp)), body, left, sp;
        }
        var ok;
        ok, body, left := ReceiveData(data, size, left, n, start);
        r := if !ok then Some(Closed(sp)) else if n <= 0 then Some(Body(Taken(body, data[..left], net), sp)) else None;
    }

    /** The chunked part of recvResponse: `len` bytes are left in the buffer from the header.  The result
        is what Receive computes from the buffer and the connection. */
    method ReceiveBody(data: array<byte>, size: nat, len: nat) returns (r: Outcome)
      requires data.Length == size + 1 && len <= size
      modifies this, data
      ensures r == Receive(old(data[..len]), old(net), size, [], false)
    {
      var left: nat, body, split := len, [], false;
      var turn: Option<Outcome> := None;
      while turn.None?
        invariant left <= size
        invariant old(Receive(data[..len], net, size, [], false))
                  == if turn.Some? then turn.value else Receive(data[..left], net, size, body, split)
        decreases if turn.Some? then 0 else 1, left + |net.rest|
      {
        turn, body, left, split := ReceiveChunk(data, size, left, body, split);
      }
      r := turn.value;
    }

    /** The array holds `at` bytes, and with `left` more the reader arrives at `goal`. */
    ghost predicate ToCome(data: array<byte>, at: nat, left: nat, size: nat, goal: Option<(seq<byte>, Net)>)
      reads this, data
    {
      at <= data.Length && goal == ReadRest(data[..at], left, net, size)
    }

    /** One read for a reader that collects in the array itself. */
    method ReadOn(data: array<byte>, at: nat, left: nat, size: nat, ghost goal: Option<(seq<byte>, Net)>)
      returns (rt: nat)
      requires 0 < left <= size && at + left <= data.Length && ToCome(data, at, left, size, goal) == true
      modifies this, data
      ensures rt <= left
      ensures if rt == 0 then goal == None else ToCome(data, at + rt, left - rt, size, goal) == true
    {
      ghost var next;
      rt, next := ReadPart(data, at, left, size, data[..at]);
      assert data[..at + rt] == data[..at] + data[at..at + rt];
    }

    /** The loop of readFixSize, to `data + at`.  It never asks for more than is missing. */
    method ReadAll(data: array<byte>, at: nat, length: nat, ghost goal: Option<(seq<byte>, Net)>) returns (ok: bool)
      requires at + length <= data.Length && goal == ReadRest(data[..at], length, net, length)
      modifies this, data
      ensures ok == goal.Some? && (ok ==> goal.value == (data[..at + length], net))
    {
      var end, left: nat := at, length;
      while left > 0
        invariant end + left == at + length
        invariant ToCome(data, end, left, length, goal) == true
        decreases left
      {
        var len := ReadOn(data, end, left, length, goal);
        if len == 0 {
          return false;
        }
        end, left := end + len, left - len;
      }
      ok := true;
    }

    /** Stream::readFixSize: a positive result means that all `length` bytes have arrived, which are then
        the next bytes of the connection; the result is their number as a 32-bit int. */
    method ReadFixSize(data: array<byte>, at: nat, length: nat) returns (rt: int)
      requires at + length <= data.Length
      modifies this, data
      ensures rt == if ReadRest([], length, old(net), length).Some? then ToInt32(length) else 0
      ensures ReadRest([], length, old(net), length).Some? ==>
                && length <= |old(net).rest| && net.rest == old(net).rest[length..]
                && data[..at + length] == old(data[..at]) + old(net).rest[..length]
    {
      RestArrives(data[..at], [], length, net, length);
      var ok := ReadAll(data, at, length, ReadRest(data[..at], length, net, length));
      if ok {
        RestTakes(old(data[..at]), length, old(net), length);
      }
      rt := if ok then ToInt32(length) else 0;
    }

    /** The Content-Length part of recvRequest and recvResponse: `offset` bytes of the body are in the
        buffer already. */
    method ReceiveSized(data: array<byte>, offset: nat, length: nat) returns (ok: bool, body: seq<byte>)
      requires offset <= data.Length
      modifies this
      ensures ok <==> length <= offset || (ReadRest([], length - offset, old(net), length - offset).Some?
                                           && ToInt32(length - offset) > 0)
      // a connection that stays open and has the whole body
      ensures old(net).Open() && length <= offset + |old(net).rest| ==>
                (ok <==> length <= offset || 0 < (length - offset) % 0x1_0000_0000 < 0x8000_0000)
      ensures ok ==> length <= offset + |old(net).rest| && body == (data[..offset] + old(net).rest)[..length]
      ensures length <= offset ==> net == old(net)
      ensures offset < length && ReadRest([], length - offset, old(net), length - offset).Some? ==>
                length - offset <= |old(net).rest| && net.rest == old(net).rest[length - offset..]
    {
      if length > offset {
        OpenArrives(net, length - offset);
      }
      var text := new byte[length];
      var len := if length >= offset then offset else length;
      MoveFrom(data, text, len);
      ok := true;
      if length > offset {
        var rt := ReadFixSize(text, len, length - offset);
        ok := rt > 0;
        if ok {
          FrontOf(data[..offset], old(net).rest, length);
        }
      } else {
        assert data[..length] == data[..offset][..length];
        FrontOf(data[..offset], old(net).rest, length);
      }
      body := text[..];
      assert body == text[..length];
    }
  }

  /** A body of 2^31 bytes, none of them in the buffer: all of them arrive, and the answer is that they did not. */
  method LargeBodyFails(rest: seq<byte>) returns (ok: bool, conn: HttpConnection)
    requires |rest| == 0x8000_0000
    ensures !ok && conn.net.rest == []
  {
    var plan := seq(|rest|, _ => 1);
    conn := new HttpConnection(Net(rest, plan));
    RestRead([], |rest|, conn.net, |rest|);
    var data := new byte[0];
    var body;
    ok, body := conn.ReceiveSized(data, 0, |rest|);
  }
}
