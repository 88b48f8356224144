/** The byte buffer kept in a linked chain of equal blocks.

    Where a contract says `P(..) == true` it means `P(..)`; the longer form keeps the verifier from
    proving the parts of P one by one. */
module ByteArrays {
  import opened Blocks

  datatype Outcome<+T> =
    | Done(value: T)
    | OutOfRange          // std::out_of_range is thrown
    | NullNode            // the code follows a null node pointer
  {
    predicate IsFailure() {
      !Done?
    }

    function PropagateFailure<U>(): Outcome<U>
      requires IsFailure()
    {
      if OutOfRange? then OutOfRange else NullNode
    }

    function Extract(): T
      requires !IsFailure()
    {
      value
    }
  }

  class Node {
    const ptr: array<byte>
    const size: nat
    var next: Node?

    constructor (s: nat)
      ensures size == s && ptr.Length == s && next == null && fresh(ptr)
    {
      size := s;
      ptr := new byte[s];
      next := null;
    }
  }

  method Memcpy(ptr: array<byte>, off: nat, data: seq<byte>)
    requires off + |data| <= ptr.Length
    modifies ptr
    ensures ptr[..] == Overlay(old(ptr[..]), off, data)
  {
    forall i | 0 <= i < |data| {
      ptr[off + i] := data[i];
    }
    forall i | 0 <= i < ptr.Length
      ensures ptr[i] == Overlay(old(ptr[..]), off, data)[i]
    {
      OverlayAt(old(ptr[..]), off, data, i);
    }
  }

  /** size_t is 64 bits wide: a difference below zero wraps around. */
  const SIZE_T := 0x1_0000_0000_0000_0000

  function SizeDiff(x: nat, y: nat): int {
    if y <= x then x - y else x - y + SIZE_T
  }

  /** The 64-bit number that differs from `x - y` by a multiple of 2^64. */
  lemma SizeDiffIs(x: nat, y: nat)
    requires x < 0x1_0000_0000_0000_0000 && y < 0x1_0000_0000_0000_0000
    ensures 0 <= SizeDiff(x, y) < 0x1_0000_0000_0000_0000
    ensures (SizeDiff(x, y) - (x - y)) % 0x1_0000_0000_0000_0000 == 0
  {
  }

  // ---------------------------------------------------------------- the positional read, on values

  /** Where it starts: at the offset of `pos`, but in the block of the cursor at `position`. */
  function StartOf(position: nat, b: nat, pos: nat): nat
    requires b > 0
  {
    Span(BlockOf(position, b), b) + OffsetOf(pos, b)
  }

  /** What it gives, on a chain that holds `flat`. */
  function Positional(flat: seq<byte>, size: nat, position: nat, b: nat, n: nat, pos: nat): Outcome<seq<byte>>
    requires b > 0
  {
    var start := StartOf(position, b, pos);
    if n > SizeDiff(size, pos) then OutOfRange
    else if position == |flat| || start + n > |flat| then NullNode
    else Done(flat[start..start + n])
  }

  /** What it is meant to give: bytes `pos` to `pos + n`, or an error when they are not all there. */
  function RightBytes(flat: seq<byte>, size: nat, n: nat, pos: nat): Outcome<seq<byte>>
    requires size <= |flat|
  {
    if pos + n > size then OutOfRange else Done(flat[pos..pos + n])
  }

  /** The calls that give the right answer: those the wrapped length test refuses, and those for a
      position not past the size, with the cursor in a block, for nothing or in the block of the cursor. */
  predicate WellPlaced(size: nat, position: nat, b: nat, capacity: nat, n: nat, pos: nat)
    requires b > 0
  {
    n > SizeDiff(size, pos)
    || (pos <= size && position < capacity && (n == 0 || BlockOf(pos, b) == BlockOf(position, b)))
  }

  lemma StartIff(position: nat, b: nat, pos: nat)
    requires b > 0
    ensures StartOf(position, b, pos) == pos <==> BlockOf(pos, b) == BlockOf(position, b)
  {
    PositionSplits(pos, b);
    SplitIsUnique(BlockOf(position, b), OffsetOf(pos, b), b);
  }

  /** A cursor in a block: the read starts in the chain. */
  lemma StartInChain(position: nat, b: nat, pos: nat, k: nat)
    requires b > 0 && position < Span(k, b)
    ensures StartOf(position, b, pos) < Span(k, b)
  {
    BlockBound(position, b, k);
    SpanMono(BlockOf(position, b), k, b);
  }

  lemma WellPlacedReads(flat: seq<byte>, size: nat, position: nat, b: nat, k: nat, n: nat, pos: nat)
    requires b > 0 && position <= size <= |flat| == Span(k, b) && WellPlaced(size, position, b, |flat|, n, pos)
    ensures Positional(flat, size, position, b, n, pos) == RightBytes(flat, size, n, pos)
  {
    StartIff(position, b, pos);
    if position < |flat| {
      StartInChain(position, b, pos, k);
      var start := StartOf(position, b, pos);
      assert flat[start..start] == [] && (pos <= size ==> flat[pos..pos] == []);
    }
  }

  /** Zeros, but for a one at `i`. */
  function OneAt(n: nat, i: nat): seq<byte> {
    seq(n, j => if j == i then 1 else 0)
  }

  lemma IllPlacedReads(size: nat, position: nat, b: nat, k: nat, n: nat, pos: nat) returns (flat: seq<byte>)
    requires b > 0 && position <= size <= Span(k, b) && !WellPlaced(size, position, b, Span(k, b), n, pos)
    ensures |flat| == Span(k, b)
    ensures Positional(flat, size, position, b, n, pos) != RightBytes(flat, size, n, pos)
  {
    StartIff(position, b, pos);
    flat := OneAt(Span(k, b), pos);
    var start := StartOf(position, b, pos);
    if pos <= size && position < |flat| && start + n <= |flat| {
      assert flat[start..start + n][0] == 0 && flat[pos..pos + n][0] == 1;
    }
  }

  /** The positional read gives the right answer, whatever the bytes, if and only if the call is well
      placed. */
  lemma PositionalIff(size: nat, position: nat, b: nat, k: nat, n: nat, pos: nat)
    requires b > 0 && position <= size <= Span(k, b)
    ensures (forall flat :: |flat| == Span(k, b) ==>
               Positional(flat, size, position, b, n, pos) == RightBytes(flat, size, n, pos))
            <==> WellPlaced(size, position, b, Span(k, b), n, pos)
  {
    if WellPlaced(size, position, b, Span(k, b), n, pos) {
      forall flat: seq<byte> | |flat| == Span(k, b)
        ensures Positional(flat, size, position, b, n, pos) == RightBytes(flat, size, n, pos)
      {
        WellPlacedReads(flat, size, position, b, k, n, pos);
      }
    } else {
      var flat := IllPlacedReads(size, position, b, k, n, pos);
    }
  }

  /** A stretch of `len` bytes inside a block, as handed to readv and writev. */
  datatype Iovec = Iovec(base: array<byte>, off: nat, len: nat)

  /** What the stretches hold, one after the other. */
  predicate InBounds(iovs: seq<Iovec>) {
    forall i :: 0 <= i < |iovs| ==> iovs[i].off + iovs[i].len <= iovs[i].base.Length
  }

  ghost function Gather(iovs: seq<Iovec>): seq<byte>
    requires InBounds(iovs)
    reads set i | 0 <= i < |iovs| :: iovs[i].base
  {
    if iovs == [] then []
    else
      var v := iovs[|iovs| - 1];
      Gather(iovs[..|iovs| - 1]) + v.base[v.off..v.off + v.len]
  }

  lemma GatherLast(iovs: seq<Iovec>)
    requires iovs != [] && InBounds(iovs)
    ensures InBounds(iovs[..|iovs| - 1])
    ensures var n := |iovs| - 1; var v := iovs[n];
      Gather(iovs) == Gather(iovs[..n]) + v.base[v.off..v.off + v.len]
  {
  }

  lemma SentIff(was: seq<byte>, flat: seq<byte>, size: nat, p: nat, n: nat)
    requires was <= flat && p <= size <= |was| && p + n <= |flat|
    ensures flat[..size] == was[..size]
    ensures flat[p..p + n] <= was[..size][p..] <==> n <= size - p
  {
  }

  class ByteArray {
    const baseSize: nat
    var position: nat
    var capacity: nat
    var size: nat
    var root: Node
    var cur: Node?
    ghost var nodes: seq<Node>    // the chain from root
    ghost var flat: seq<byte>     // all bytes of the chain, in order
    ghost var Repr: set<object>   // the blocks and their bytes

    /** The chain of blocks, whatever the cursor. */
    ghost predicate Shape()
      reads `root, `capacity, `nodes, `flat, `Repr, Repr
    {
      && baseSize > 0
      && this !in Repr
      && |nodes| > 0 && root == nodes[0]
      && (forall i :: 0 <= i < |nodes| ==>
            && nodes[i] in Repr && nodes[i].ptr in Repr
            && nodes[i].size == baseSize == nodes[i].ptr.Length
            && nodes[i].ptr[..] == Slice(flat, i, baseSize))
      && (forall i {:trigger nodes[i].next} :: 0 <= i < |nodes| ==> nodes[i].next == NodeOrNull(i + 1))
      && (forall i, j :: 0 <= i < j < |nodes| ==> nodes[i] != nodes[j] && nodes[i].ptr != nodes[j].ptr)
      && capacity == |flat| == Span(|nodes|, baseSize)
    }

    ghost function NodeOrNull(i: nat): Node?
      reads `nodes
    {
      if i < |nodes| then nodes[i] else null
    }

    /** The class invariant: m_cur is the block of m_position, or null exactly at the capacity. */
    ghost predicate Valid()
      reads this, Repr
    {
      && Shape()
      && position <= size <= capacity
      && cur == NodeOrNull(BlockOf(position, baseSize))
    }

    /** The capacity is that of all blocks. */
    lemma CapacityIs()
      requires Shape()
      ensures capacity == |nodes| * baseSize
    {
      SpanIsMul(|nodes|, baseSize);
    }

    /** The abstract value: the bytes up to m_size. */
    ghost function Contents(): (s: seq<byte>)
      requires Valid()
      reads this, Repr
      ensures |s| == size
    {
      flat[..size]
    }

    constructor (base: nat)
      requires base > 0
      ensures Valid() && fresh(Repr)
      ensures baseSize == base && position == 0 && Contents() == [] && capacity == base
    {
      baseSize := base;
      position, capacity, size := 0, base, 0;
      var n := new Node(base);
      root, cur := n, n;
      nodes := [n];
      flat := n.ptr[..];
      Repr := {n, n.ptr};
    }

    // -------------------------------------------------------------- growth

    /** The capacity after making room for `n` bytes at the cursor. */
    ghost function Grown(n: nat): nat
      requires baseSize > 0 && position <= capacity
      reads this
    {
      if n <= capacity - position then capacity
      else capacity + Span(CeilDiv(n - (capacity - position), baseSize), baseSize)
    }

    /** Appends one block to the chain, whose last block is `last`. */
    method Append(last: Node)
      requires Shape() && last == nodes[|nodes| - 1]
      modifies `capacity, `nodes, `flat, `Repr, last
      ensures Shape() == true && fresh(Repr - old(Repr)) && old(Repr) <= Repr
      ensures |nodes| == old(|nodes|) + 1 && old(nodes) <= nodes && old(flat) <= flat
      ensures last.next == nodes[|nodes| - 1]
    {
      var n := new Node(baseSize);
      SliceGrows(flat, n.ptr[..], baseSize, |nodes|);
      last.next := n;
      Extend(n);
    }

    /** The chain counts the new block in. */
    method Extend(n: Node)
      requires baseSize > 0 && this !in Repr && n !in Repr && n.ptr !in Repr
      requires |nodes| > 0 && root == nodes[0]
      requires forall i :: 0 <= i < |nodes| ==>
        && nodes[i] in Repr && nodes[i].ptr in Repr
        && nodes[i].size == baseSize == nodes[i].ptr.Length
        && nodes[i].ptr[..] == Slice(flat + n.ptr[..], i, baseSize)
      requires n.size == baseSize == n.ptr.Length && n.next == null && n.ptr[..] == Slice(flat + n.ptr[..], |nodes|, baseSize)
      requires forall i {:trigger nodes[i].next} :: 0 <= i < |nodes| ==> nodes[i].next == if i + 1 < |nodes| then nodes[i + 1] else n
      requires forall i, j :: 0 <= i < j < |nodes| ==> nodes[i] != nodes[j] && nodes[i].ptr != nodes[j].ptr
      requires capacity == |flat| == Span(|nodes|, baseSize)
      modifies `capacity, `nodes, `flat, `Repr
      ensures Shape() == true
      ensures nodes == old(nodes) + [n] && flat == old(flat) + n.ptr[..] && Repr == old(Repr) + {n, n.ptr}
    {
      capacity := capacity + baseSize;
      flat := flat + n.ptr[..];
      nodes := nodes + [n];
      Repr := Repr + {n, n.ptr};
    }

    /** The first loop of addCapacity: the last block of the chain. */
    method LastNode() returns (tmp: Node)
      requires Shape()
      ensures tmp == nodes[|nodes| - 1]
    {
      tmp := root;
      ghost var k := 0;
      while tmp.next != null
        invariant 0 <= k < |nodes| && tmp == nodes[k]
        decreases |nodes| - k
      {
        tmp := tmp.next;
        k := k + 1;
      }
    }

    /** The second loop: `count` new blocks after `last`; `first` is the first of them. */
    method AppendMany(last: Node, count: nat) returns (first: Node?)
      requires Shape() && last == nodes[|nodes| - 1]
      modifies `capacity, `nodes, `flat, `Repr, Repr
      ensures Shape() == true && fresh(Repr - old(Repr))
      ensures |nodes| == old(|nodes|) + count && old(nodes) <= nodes && old(flat) <= flat
      ensures first == NodeOrNull(old(|nodes|))
    {
      var tmp := last;
      first := null;
      var i := 0;
      while i < count
        invariant 0 <= i <= count
        invariant Shape() == true && fresh(Repr - old(Repr))
        invariant |nodes| == old(|nodes|) + i && old(nodes) <= nodes && old(flat) <= flat
        invariant tmp == nodes[|nodes| - 1]
        invariant first == NodeOrNull(old(|nodes|))
      {
        Append(tmp);
        tmp := tmp.next;
        if first == null {
          first := tmp;
        }
        i := i + 1;
      }
    }

    method AddCapacity(n: nat)
      requires Valid()
      modifies `capacity, `nodes, `flat, `Repr, `cur, Repr
      ensures Valid() && fresh(Repr - old(Repr))
      ensures capacity == old(Grown(n)) && capacity - position >= n
      ensures old(flat) <= flat
    {
      if n == 0 {
        return;
      }
      var oldCap := capacity - position;
      if oldCap >= n {
        return;
      }
      CeilDivCovers(n - oldCap, baseSize);
      AddBlocks(CeilDiv(n - oldCap, baseSize));
    }

    /** `count` more blocks; a cursor at the capacity moves to the first of them. */
    method AddBlocks(count: nat)
      requires Valid()
      modifies `capacity, `nodes, `flat, `Repr, `cur, Repr
      ensures Valid() == true
      ensures fresh(Repr - old(Repr)) && old(flat) <= flat
      ensures capacity == old(capacity) + Span(count, baseSize)
    {
      var oldCap := capacity - position;
      ghost var k := CursorBlock();
      SpanAdds(|nodes|, count, baseSize);
      var tmp := LastNode();
      var first := AppendMany(tmp, count);
      PutCursor(k, if oldCap == 0 then first else cur);
    }

    /** The block of the cursor: that of m_cur, or the one that is missing at the capacity. */
    lemma CursorBlock() returns (k: nat)
      requires Valid()
      ensures k == BlockOf(position, baseSize) <= |nodes| && cur == NodeOrNull(k)
      ensures k == |nodes| <==> position == capacity
    {
      k := BlockOf(position, baseSize);
      BlockBound(position, baseSize, |nodes|);
      if position == capacity {
        SplitIsUnique(|nodes|, 0, baseSize);
      }
    }

    method PutCursor(ghost k: nat, node: Node?)
      requires Shape() == true && position <= size <= capacity && k == BlockOf(position, baseSize) && node == NodeOrNull(k)
      modifies `cur
      ensures Valid() == true
    {
      cur := node;
    }

    // -------------------------------------------------------------- write and read

    /** memcpy of `data` into `ptr`, the bytes of block `k`, at offset `off`. */
    method Store(ghost k: nat, ptr: array<byte>, off: nat, data: seq<byte>)
      requires Shape() && k < |nodes| && ptr == nodes[k].ptr && off + |data| <= baseSize
      modifies ptr, `flat
      ensures Shape() == true
      ensures Span(k, baseSize) + off + |data| <= |old(flat)|
      ensures flat == Overlay(old(flat), Span(k, baseSize) + off, data)
    {
      SpanMono(k, |nodes|, baseSize);
      OverlayHere(flat, baseSize, k, off, data);
      OverlayOthers(flat, baseSize, k, off, data, |nodes|);
      Memcpy(ptr, off, data);
      flat := Overlay(flat, Span(k, baseSize) + off, data);
    }

    /** In a loop over blocks: the cursor is at offset `o` of block `k`, and m_cur is block `k`,
        or already the next one when block `k` is used up. */
    ghost predicate Cursor(k: nat, o: nat)
      reads `position, `cur, `nodes
    {
      && o <= baseSize
      && position == Span(k, baseSize) + o
      && cur == NodeOrNull(if o == baseSize then k + 1 else k)
    }

    lemma EnterLoop()
      requires Valid()
      ensures Cursor(BlockOf(position, baseSize), OffsetOf(position, baseSize))
    {
      PositionSplits(position, baseSize);
    }

    lemma LeaveLoop(k: nat, o: nat)
      requires Shape() && Cursor(k, o)
      ensures cur == NodeOrNull(BlockOf(position, baseSize))
    {
      if o == baseSize {
        SplitIsUnique(k + 1, 0, baseSize);
      } else {
        SplitIsUnique(k, o, baseSize);
      }
    }

    /** Before the capacity, the cursor is in a block. */
    lemma InChain(k: nat, o: nat)
      requires Shape() && Cursor(k, o) && position < capacity
      ensures if o == baseSize then k + 1 < |nodes| && cur == nodes[k + 1] && Cursor(k + 1, 0)
              else k < |nodes| && cur == nodes[k]
    {
      BlockBound(position, baseSize, |nodes|);
      if o == baseSize {
        SplitIsUnique(k + 1, 0, baseSize);
      } else {
        SplitIsUnique(k, o, baseSize);
      }
    }

    method Write(buf: seq<byte>)
      requires Valid()
      modifies this, Repr
      ensures Valid() && fresh(Repr - old(Repr))
      ensures position == old(position) + |buf| && size == Max(old(size), position)
      ensures capacity == old(Grown(|buf|))
      ensures Contents() == Overlay(old(Contents()), old(position), buf)
    {
      if |buf| == 0 {
        return;
      }
      AddCapacity(|buf|);
      assert flat[..size] == old(flat)[..size];
      OverlayPrefix(flat, size, position, buf);
      WriteLoop(buf);
      if position > size {
        size := position;
      }
    }

    /** m_position % m_baseSize. */
    method Npos() returns (npos: nat)
      requires baseSize > 0
      ensures npos == OffsetOf(position, baseSize)
    {
      BlockIsDiv(position, baseSize);
      npos := position % baseSize;
    }

    /** One round of write: `data` goes into the current block, and the cursor moves on, to the
        next block when this one is full. */
    method WriteRound(ghost k: nat, npos: nat, data: seq<byte>)
      requires Shape() && k < |nodes| && cur == nodes[k] && Cursor(k, npos)
      requires npos + |data| <= baseSize
      modifies `position, `cur, `flat, Repr
      ensures Shape() && position == old(position) + |data| <= capacity
      ensures Cursor(k, npos + |data|)
      ensures flat == Overlay(old(flat), old(position), data)
    {
      Store(k, cur.ptr, npos, data);
      if cur.size == npos + |data| {
        cur := cur.next;
      }
      position := position + |data|;
    }

    /** In the loop of write of `buf` at `start`, over the bytes `was`: `bpos` bytes are written. */
    ghost predicate Writing(was: seq<byte>, start: nat, buf: seq<byte>, k: nat, npos: nat, bpos: nat)
      reads this, Repr
    {
      && Shape() && Cursor(k, npos)
      && bpos <= |buf| && position == start + bpos && start + |buf| <= capacity == |was|
      && flat == Overlay(was, start, buf[..bpos])
      && (bpos < |buf| ==> npos < baseSize)
    }

    /** One turn of the loop of write. */
    method WriteTurn(ghost was: seq<byte>, ghost start: nat, buf: seq<byte>, ghost k: nat, npos: nat, bpos: nat)
      returns (ghost k2: nat, npos2: nat, bpos2: nat)
      requires bpos < |buf| && Writing(was, start, buf, k, npos, bpos)
      modifies `position, `cur, `flat, Repr
      ensures bpos2 > bpos && Writing(was, start, buf, k2, npos2, bpos2) == true
    {
      InChain(k, npos);
      var n := Min(cur.size - npos, |buf| - bpos);
      var chunk := buf[bpos..bpos + n];
      OverlayExtends(was, start, buf, bpos, n);
      WriteRound(k, npos, chunk);
      k2, npos2, bpos2 := k, npos + n, bpos + n;
      if bpos2 < |buf| {
        InChain(k, npos2);
        k2 := k + 1;
        npos2 := 0;
      }
    }

    /** The loop of write, once there is room. */
    method WriteLoop(buf: seq<byte>)
      requires Valid() && 0 < |buf| <= capacity - position
      modifies `position, `cur, `flat, Repr
      ensures Shape() && position == old(position) + |buf| && cur == NodeOrNull(BlockOf(position, baseSize))
      ensures flat == Overlay(old(flat), old(position), buf)
    {
      ghost var was, start, k: nat := flat, position, BlockOf(position, baseSize);
      EnterLoop();
      var npos: nat := Npos();
      var bpos: nat := 0;
      while bpos < |buf|
        invariant Writing(was, start, buf, k, npos, bpos) == true
      {
        k, npos, bpos := WriteTurn(was, start, buf, k, npos, bpos);
      }
      LeaveLoop(k, npos);
      assert buf[..bpos] == buf;
    }

    /** The bytes at offset `off` of block `k` are those of the flat sequence. */
    lemma BlockBytes(k: nat, off: nat, n: nat)
      requires Shape() && k < |nodes| && off + n <= baseSize
      ensures Span(k, baseSize) + off + n <= capacity
      ensures nodes[k].ptr[off..off + n] == flat[Span(k, baseSize) + off..Span(k, baseSize) + off + n]
    {
      SpanMono(k, |nodes|, baseSize);
      SliceOf(flat, k, baseSize, off, n);
      assert nodes[k].ptr[off..off + n] == nodes[k].ptr[..][off..off + n];
    }

    /** One round of read. */
    method ReadRound(ghost k: nat, npos: nat, n: nat) returns (data: seq<byte>)
      requires Shape() && k < |nodes| && cur == nodes[k] && Cursor(k, npos)
      requires npos + n <= baseSize
      modifies `position, `cur
      ensures Shape() && position == old(position) + n <= capacity
      ensures Cursor(k, npos + n)
      ensures data == flat[old(position)..position]
    {
      BlockBytes(k, npos, n);
      data := cur.ptr[npos..npos + n];
      if cur.size == npos + n {
        cur := cur.next;
      }
      position := position + n;
    }

    /** In the loop of read of `n` bytes from `start`: `left` bytes are missing in `data`. */
    ghost predicate Reading(start: nat, n: nat, k: nat, npos: nat, left: nat, data: seq<byte>)
      reads this, Repr
    {
      && Shape() && Cursor(k, npos)
      && left <= n && position == start + (n - left) && start + n <= capacity
      && data == flat[start..position]
      && (left > 0 ==> npos < baseSize)
    }

    /** One turn of the loop of read. */
    method ReadTurn(ghost start: nat, ghost n: nat, ghost k: nat, npos: nat, left: nat, data: seq<byte>)
      returns (ghost k2: nat, npos2: nat, left2: nat, data2: seq<byte>)
      requires left > 0 && Reading(start, n, k, npos, left, data)
      modifies `position, `cur
      ensures left2 < left && Reading(start, n, k2, npos2, left2, data2) == true
    {
      InChain(k, npos);
      var m := Min(cur.size - npos, left);
      SliceExtends(flat, start, position, position + m);
      var chunk := ReadRound(k, npos, m);
      k2, npos2, left2, data2 := k, npos + m, left - m, data + chunk;
      if left2 > 0 {
        InChain(k, npos2);
        k2 := k + 1;
        npos2 := 0;
      }
    }

    /** The loop of read. */
    method ReadLoop(n: nat) returns (data: seq<byte>)
      requires Valid() && n <= capacity - position
      modifies `position, `cur
      ensures Shape() && position == old(position) + n && cur == NodeOrNull(BlockOf(position, baseSize))
      ensures data == flat[old(position)..position]
    {
      ghost var start, k: nat := position, BlockOf(position, baseSize);
      EnterLoop();
      var npos: nat := Npos();
      data := [];
      var left: nat := n;
      while left > 0
        invariant Reading(start, n, k, npos, left, data) == true
      {
        k, npos, left, data := ReadTurn(start, n, k, npos, left, data);
      }
      LeaveLoop(k, npos);
    }

    /** read: throws when fewer than `n` bytes are readable.  A read of nothing at the very end
        of the chain follows the null m_cur. */
    method Read(n: nat) returns (r: Outcome<seq<byte>>)
      requires Valid()
      modifies `position, `cur
      ensures Valid()
      ensures r == OutOfRange <==> n > old(size - position)
      ensures r == NullNode <==> n == 0 && old(position) == capacity
      ensures r.Done? ==> r.value == Contents()[old(position)..old(position) + n]
      ensures position == old(position) + (if r.Done? then n else 0)
    {
      BlockBound(position, baseSize, |nodes|);
      if n > size - position {
        return OutOfRange;
      }
      if cur == null {
        return NullNode;
      }
      PartOfPrefix(flat, size, position, n);
      var data := ReadLoop(n);
      r := Done(data);
    }

    /** setPosition: throws past the capacity; moving past m_size moves m_size. */
    method SetPosition(v: nat) returns (ok: bool)
      requires Valid()
      modifies `position, `size, `cur
      ensures Valid()
      ensures ok <==> v <= capacity
      ensures ok ==> position == v && size == Max(old(size), v)
      ensures !ok ==> position == old(position) && size == old(size)
    {
      if v > capacity {
        return false;
      }
      position := v;
      if position > size {
        size := position;
      }
      SeekCursor(v);
      ok := true;
    }

    /** The loop of setPosition: the block of position `v`. */
    method SeekCursor(v: nat)
      requires Shape() && position == v <= capacity
      modifies `cur
      ensures cur == NodeOrNull(BlockOf(v, baseSize))
    {
      cur := root;
      var left: nat := v;
      ghost var k: nat := 0;
      while left > cur.size
        invariant k < |nodes| && cur == nodes[k] && v == Span(k, baseSize) + left
        decreases left
      {
        NextBlock(k, v);
        left := left - cur.size;
        cur := cur.next;
        k := k + 1;
      }
      if left == cur.size {
        cur := cur.next;
      }
      LeaveLoop(k, left);
    }

    /** A position past block `k` is in the chain only if there is another block. */
    lemma NextBlock(k: nat, p: nat)
      requires Shape() && Span(k, baseSize) + baseSize < p <= capacity
      ensures k + 1 < |nodes|
    {
      SplitIsUnique(k + 1, 0, baseSize);
      BlockBound(Span(k + 1, baseSize), baseSize, |nodes|);
    }

    /** clear: only the first block stays. */
    method Clear()
      requires Valid()
      modifies this, Repr
      ensures Valid() && fresh(Repr - old(Repr))
      ensures position == 0 && size == 0 && capacity == baseSize && Contents() == []
    {
      position, size := 0, 0;
      capacity := baseSize;
      nodes := nodes[..1];
      flat := Slice(flat, 0, baseSize);
      cur := root;
      root.next := null;
    }

    // -------------------------------------------------------------- positional read

    /** A cursor kept in local variables: `node` is the block of position `p`. */
    ghost predicate At(node: Node?, p: nat)
      requires baseSize > 0
      reads `nodes
    {
      node == NodeOrNull(BlockOf(p, baseSize))
    }

    /** Stretch `v` is bytes `p` to `p + v.len` of the flat sequence, inside one block. */
    ghost predicate StretchAt(v: Iovec, p: nat)
      requires baseSize > 0
      reads `nodes
    {
      var k := BlockOf(p, baseSize);
      && k < |nodes| && v.base == nodes[k].ptr && v.off == OffsetOf(p, baseSize)
      && 0 < v.len && v.off + v.len <= baseSize
    }

    lemma AtChain(node: Node?, p: nat)
      requires Shape() && At(node, p)
      ensures node != null <==> p < capacity
      ensures node != null ==> node.size == baseSize == node.ptr.Length
    {
      BlockBound(p, baseSize, |nodes|);
    }

    /** The cursor moves over `m` bytes of its block, at offset `o`. */
    lemma AtMoves(node: Node, p: nat, o: nat, m: nat)
      requires Shape() && At(node, p) && o == OffsetOf(p, baseSize) && o + m <= baseSize
      ensures At(if o + m == baseSize then node.next else node, p + m)
      ensures OffsetOf(p + m, baseSize) == if o + m == baseSize then 0 else o + m
      ensures p + m <= capacity && node.ptr.Length == baseSize
      ensures node.ptr[o..o + m] == flat[p..p + m]
      ensures 0 < m ==> StretchAt(Iovec(node.ptr, o, m), p)
    {
      PositionSplits(p, baseSize);
      var k := BlockOf(p, baseSize);
      BlockBytes(k, o, m);
      if o + m == baseSize {
        SplitIsUnique(k + 1, 0, baseSize);
        assert nodes[k].next == NodeOrNull(k + 1);
      } else {
        SplitIsUnique(k, o + m, baseSize);
      }
    }

    /** read with a position: it starts in the block of the cursor, and follows a null node when the
        cursor is at the capacity or the chain ends too early. */
    method ReadAt(n: nat, pos: nat) returns (r: Outcome<seq<byte>>)
      requires Valid()
      ensures r == Positional(flat, size, position, baseSize, n, pos)
      ensures WellPlaced(size, position, baseSize, capacity, n, pos) ==>
                r == if pos + n > size then OutOfRange else Done(Contents()[pos..pos + n])
    {
      if WellPlaced(size, position, baseSize, capacity, n, pos) {
        WellPlacedReads(flat, size, position, baseSize, |nodes|, n, pos);
        if pos + n <= size {
          PartOfPrefix(flat, size, pos, n);
        }
      }
      if n > SizeDiff(size, pos) {
        return OutOfRange;
      }
      BlockIsDiv(pos, baseSize);
      var npos: nat := pos % baseSize;
      AtChain(cur, position);
      if cur == null {
        return NullNode;
      }
      SplitIsUnique(BlockOf(position, baseSize), npos, baseSize);
      r := ReadAtLoop(StartOf(position, baseSize, pos), npos, n);
    }

    /** In its loop: `data` are the bytes from `start` to `p`, and `p` is at offset `npos` of `node`. */
    ghost predicate Viewing(start: nat, p: nat, node: Node?, npos: nat, data: seq<byte>)
      reads this, Repr
    {
      Shape() && At(node, p) && npos == OffsetOf(p, baseSize) && start <= p <= capacity && data == flat[start..p]
    }

    lemma ViewTurn(start: nat, p: nat, node: Node, npos: nat, data: seq<byte>, m: nat)
      requires Viewing(start, p, node, npos, data) && npos + m <= node.size == node.ptr.Length == baseSize
      ensures var more := data + node.ptr[npos..npos + m];
        if npos + m == node.size then Viewing(start, p + m, node.next, 0, more) == true
        else Viewing(start, p + m, node, npos + m, more) == true
    {
      AtMoves(node, p, npos, m);
      SliceExtends(flat, start, p, p + m);
    }

    method ReadAtLoop(ghost start: nat, npos0: nat, n: nat) returns (r: Outcome<seq<byte>>)
      requires Shape() && At(cur, start) && npos0 == OffsetOf(start, baseSize) && start < capacity
      ensures r == if start + n > capacity then NullNode else Done(flat[start..start + n])
    {
      ghost var p := start;
      var node, npos: nat := cur, npos0;
      var data, left: nat := [], n;
      while left > 0
        invariant left <= n && p == start + (n - left)
        invariant Viewing(start, p, node, npos, data) == true
      {
        AtChain(node, p);
        if node == null {
          return NullNode;
        }
        var m := Min(node.size - npos, left);
        ViewTurn(start, p, node, npos, data, m);
        data := data + node.ptr[npos..npos + m];
        left := left - m;
        p := p + m;
        npos := npos + m;
        if node.size == npos {
          node := node.next;
          npos := 0;
        }
      }
      r := Done(data);
    }

    /** toString: the readable bytes, with the cursor left alone. */
    method ToString() returns (s: seq<byte>)
      requires Valid()
      ensures s == Contents()[position..]
    {
      if size - position == 0 {
        return [];
      }
      var r := ReadAt(size - position, position);
      s := r.value;
    }

    // -------------------------------------------------------------- scatter and gather

    /** The stretches are consecutive and cover exactly the bytes from `p` to `q`. */
    ghost predicate Covers(iovs: seq<Iovec>, p: nat, q: nat)
      requires baseSize > 0
      reads `nodes
    {
      if iovs == [] then p == q
      else
        var v := iovs[|iovs| - 1];
        v.len <= q && StretchAt(v, q - v.len) && Covers(iovs[..|iovs| - 1], p, q - v.len)
    }

    lemma {:induction false} CoversFacts(iovs: seq<Iovec>, p: nat, q: nat)
      requires Shape() && Covers(iovs, p, q)
      ensures p <= q && (iovs != [] ==> p < q <= capacity)
      ensures InBounds(iovs) && forall i :: 0 <= i < |iovs| ==> iovs[i].base in Repr
    {
      if iovs != [] {
        var n := |iovs| - 1;
        CoversFacts(iovs[..n], p, q - iovs[n].len);
        StretchBytes(iovs[n], q - iovs[n].len);
      }
    }

    lemma StretchAdds(v: Iovec, p: nat, q: nat)
      requires Shape() == true && StretchAt(v, q) && p <= q
      ensures q + v.len <= capacity && v.off + v.len <= v.base.Length
      ensures flat[p..q] + v.base[v.off..v.off + v.len] == flat[p..q + v.len]
    {
      StretchBytes(v, q);
      SliceExtends(flat, p, q, q + v.len);
    }

    lemma GatherStep(iovs: seq<Iovec>, p: nat, q: nat)
      requires Shape() == true && Covers(iovs, p, q) == true && iovs != [] && q <= capacity && InBounds(iovs)
      ensures var n := |iovs| - 1; var v := iovs[n]; var m := q - v.len;
        && p <= m && Covers(iovs[..n], p, m) == true && InBounds(iovs[..n])
        && Gather(iovs) == Gather(iovs[..n]) + v.base[v.off..v.off + v.len]
        && flat[p..q] == flat[p..m] + v.base[v.off..v.off + v.len]
    {
      var n := |iovs| - 1;
      CoverInit(iovs, p, q);
      GatherLast(iovs);
      StretchAdds(iovs[n], p, q - iovs[n].len);
    }

    lemma {:induction false} GatherCovered(iovs: seq<Iovec>, p: nat, q: nat)
      requires Shape() == true && Covers(iovs, p, q) == true && p <= q <= capacity && InBounds(iovs)
      ensures Gather(iovs) == flat[p..q]
    {
      if iovs != [] {
        var n := |iovs| - 1;
        GatherStep(iovs, p, q);
        GatherCovered(iovs[..n], p, q - iovs[n].len);
      }
    }

    /** Consecutive stretches gather into the bytes they cover. */
    lemma CoversBytes(iovs: seq<Iovec>, p: nat, q: nat)
      requires Shape() && Covers(iovs, p, q) && q <= capacity
      ensures p <= q && InBounds(iovs)
      ensures Gather(iovs) == flat[p..q]
    {
      CoversFacts(iovs, p, q);
      GatherCovered(iovs, p, q);
    }

    lemma StretchBytes(v: Iovec, p: nat)
      requires Shape() && StretchAt(v, p)
      ensures p + v.len <= capacity && v.base.Length == baseSize && v.base in Repr
      ensures v.base[v.off..v.off + v.len] == flat[p..p + v.len]
    {
      PositionSplits(p, baseSize);
      BlockBytes(BlockOf(p, baseSize), v.off, v.len);
    }

    lemma CoversExtends(iovs: seq<Iovec>, p: nat, q: nat, v: Iovec)
      requires Shape() && StretchAt(v, q) && Covers(iovs, p, q)
      ensures Covers(iovs + [v], p, q + v.len)
    {
      assert (iovs + [v])[..|iovs|] == iovs;
    }

    /** In that loop: `iovs` are the stretches from `start` to `p`, and `p` is at offset `npos` of `node`. */
    ghost predicate Stretching(start: nat, p: nat, node: Node?, npos: nat, iovs: seq<Iovec>)
      reads this, Repr
    {
      Shape() && At(node, p) && npos == OffsetOf(p, baseSize) && p <= capacity && Covers(iovs, start, p)
    }

    lemma StretchTurn(start: nat, p: nat, node: Node, npos: nat, iovs: seq<Iovec>, m: nat)
      requires Stretching(start, p, node, npos, iovs) && 0 < m && npos + m <= node.size == baseSize
      ensures var more := iovs + [Iovec(node.ptr, npos, m)];
        if npos + m == node.size then Stretching(start, p + m, node.next, 0, more) == true
        else Stretching(start, p + m, node, npos + m, more) == true
    {
      AtMoves(node, p, npos, m);
      CoversExtends(iovs, start, p, Iovec(node.ptr, npos, m));
    }

    /** The loop shared by getReadBuffers and getWriteBuffers, from position `start` in block `node0`. */
    method Stretches(ghost start: nat, node0: Node?, npos0: nat, len: nat) returns (r: Outcome<seq<Iovec>>)
      requires Shape() && At(node0, start) && npos0 == OffsetOf(start, baseSize) && start < capacity
      ensures r == NullNode <==> start + len > capacity
      ensures r != OutOfRange
      ensures r.Done? ==> Covers(r.value, start, start + len) == true
    {
      ghost var p := start;
      var node, npos: nat := node0, npos0;
      var iovs: seq<Iovec>, left: nat := [], len;
      while left > 0
        invariant left <= len && p == start + (len - left)
        invariant Stretching(start, p, node, npos, iovs) == true
      {
        AtChain(node, p);
        if node == null {
          return NullNode;
        }
        var m := Min(node.size - npos, left);
        StretchTurn(start, p, node, npos, iovs, m);
        iovs := iovs + [Iovec(node.ptr, npos, m)];
        left := left - m;
        p := p + m;
        npos := npos + m;
        if node.size == npos {
          node := node.next;
          npos := 0;
        }
      }
      r := Done(iovs);
    }

    /** getReadBuffers: the stretches of the next `len` readable bytes, or of all of them. */
    method GetReadBuffers(len: nat) returns (iovs: seq<Iovec>, total: nat)
      requires Valid()
      ensures total == Min(len, size - position)
      ensures Covers(iovs, position, position + total)
    {
      total := Min(len, size - position);
      if total == 0 {
        return [], 0;
      }
      var npos := Npos();
      var r := Stretches(position, cur, npos, total);
      iovs := r.value;
    }

    /** getReadBuffers with a position: the length is clamped by m_position all the same. */
    method GetReadBuffersAt(len: nat, pos: nat) returns (r: Outcome<seq<Iovec>>, total: nat)
      requires Valid()
      ensures total == Min(len, size - position) && r != OutOfRange
      ensures r == NullNode <==> total > 0 && pos + total > capacity
      ensures r.Done? ==> Covers(r.value, if total == 0 then 0 else pos, if total == 0 then 0 else pos + total)
      ensures r.Done? ==> (Readable(r.value, pos) <==> total == 0 || pos + total <= size)
    {
      total := Min(len, size - position);
      if total == 0 {
        return Done([]), 0;
      }
      r := StretchesAt(pos, total);
      if r.Done? {
        ReadableIff(r.value, pos, pos + total);
      }
    }

    method StretchesAt(pos: nat, len: nat) returns (r: Outcome<seq<Iovec>>)
      requires Shape() && len > 0
      ensures r == NullNode <==> pos + len > capacity
      ensures r != OutOfRange
      ensures r.Done? ==> Covers(r.value, pos, pos + len) == true
    {
      BlockIsDiv(pos, baseSize);
      BlockBound(pos, baseSize, |nodes|);
      var npos: nat := pos % baseSize;
      var node := NodeAt(pos / baseSize);
      if node == null {
        return NullNode;
      }
      r := Stretches(pos, node, npos, len);
    }

    /** The walk of getReadBuffers from the first block; null when the chain ends before. */
    method NodeAt(index: nat) returns (node: Node?)
      requires Shape()
      ensures node == NodeOrNull(index)
    {
      var count: nat := index;
      node := root;
      ghost var k: nat := 0;
      while count > 0
        invariant k + count == index && k < |nodes| && node == nodes[k]
      {
        node := node.next;
        count := count - 1;
        k := k + 1;
        if node == null {
          return;
        }
      }
    }

    /** The stretches hold written bytes only, those from `pos` on. */
    ghost predicate Readable(iovs: seq<Iovec>, pos: nat)
      requires Valid()
      reads this, Repr, set i | 0 <= i < |iovs| :: iovs[i].base
    {
      iovs == [] || (pos <= size && InBounds(iovs) && Gather(iovs) <= Contents()[pos..])
    }

    lemma ReadableIff(iovs: seq<Iovec>, pos: nat, end: nat)
      requires Valid() && Covers(iovs, pos, end) && end <= capacity
      ensures Readable(iovs, pos) <==> pos == end || end <= size
    {
      CoversFacts(iovs, pos, end);
      CoversBytes(iovs, pos, end);
      if end <= size {
        PartOfPrefix(flat, size, pos, end - pos);
      }
    }

    /** getWriteBuffers: room for `len` bytes at the cursor. */
    method GetWriteBuffers(len: nat) returns (iovs: seq<Iovec>)
      requires Valid()
      modifies `capacity, `nodes, `flat, `Repr, `cur, Repr
      ensures Valid() && fresh(Repr - old(Repr))
      ensures capacity == old(Grown(len)) && position + len <= capacity
      ensures old(flat) <= flat
      ensures Covers(iovs, position, position + len)
    {
      if len == 0 {
        return [];
      }
      AddCapacity(len);
      var npos := Npos();
      var r := Stretches(position, cur, npos, len);
      iovs := r.value;
    }

    /** Two stretches never share a byte. */
    lemma {:induction false} StretchesDisjoint(iovs: seq<Iovec>, p: nat, q: nat, i: nat, j: nat)
      requires Shape() == true && Covers(iovs, p, q) == true && i < j < |iovs|
      ensures iovs[i].base == iovs[j].base ==> iovs[i].off + iovs[i].len <= iovs[j].off
    {
      var n := |iovs| - 1;
      CoverInit(iovs, p, q);
      if j < n {
        StretchesDisjoint(iovs[..n], p, q - iovs[n].len, i, j);
      } else {
        var s := StretchStart(iovs[..n], p, q - iovs[n].len, i);
        TwoStretches(iovs[i], s, iovs[n], q - iovs[n].len);
      }
    }

    lemma TwoStretches(u: Iovec, s: nat, v: Iovec, t: nat)
      requires Shape() == true && StretchAt(u, s) && StretchAt(v, t) && s + u.len <= t
      ensures u.base == v.base ==> u.off + u.len <= v.off
    {
      PositionSplits(s, baseSize);
      PositionSplits(t, baseSize);
    }

    /** Where stretch `i` starts. */
    lemma {:induction false} StretchStart(iovs: seq<Iovec>, p: nat, q: nat, i: nat) returns (s: nat)
      requires Shape() == true && Covers(iovs, p, q) == true && i < |iovs|
      ensures p <= s && s + iovs[i].len <= q && StretchAt(iovs[i], s)
    {
      var n := |iovs| - 1;
      CoversFacts(iovs[..n], p, q - iovs[n].len);
      if i == n {
        s := q - iovs[n].len;
      } else {
        s := StretchStart(iovs[..n], p, q - iovs[n].len, i);
      }
    }

    method ScatterLast(v: Iovec, data: seq<byte>, ghost p: nat)
      requires Shape() && StretchAt(v, p) && |data| <= v.len
      modifies `flat, Repr
      ensures Shape() == true && p <= |old(flat)| && flat == Overlay(old(flat), p, data)
    {
      StretchBytes(v, p);
      PositionSplits(p, baseSize);
      Store(BlockOf(p, baseSize), v.base, v.off, data);
    }

    /** What recv does: `data` fills the stretches from the front. */
    method Scatter(iovs: seq<Iovec>, data: seq<byte>, ghost p: nat, ghost q: nat)
      requires Shape() && Covers(iovs, p, q) == true && q <= capacity && |data| <= q - p
      modifies `flat, Repr
      ensures Shape() == true && p <= |old(flat)| && flat == Overlay(old(flat), p, data)
      decreases |iovs|, 0
    {
      if iovs == [] {
        return;
      }
      var n := |iovs| - 1;
      CoverInit(iovs, p, q);
      if |data| <= Total(iovs[..n]) {
        Scatter(iovs[..n], data, p, q - iovs[n].len);
      } else {
        ScatterAll(iovs[..n], iovs[n], data, p, q - iovs[n].len);
      }
    }

    /** `data` fills the stretches of `front`, and what is left of it goes into `v`. */
    method ScatterAll(front: seq<Iovec>, v: Iovec, data: seq<byte>, ghost p: nat, ghost q: nat)
      requires Shape() && Covers(front, p, q) == true && StretchAt(v, q) && p + Total(front) == q <= capacity
      requires Total(front) <= |data| <= Total(front) + v.len
      modifies `flat, Repr
      ensures Shape() == true && p <= |old(flat)| && flat == Overlay(old(flat), p, data)
      decreases |front|, 1
    {
      var before := Total(front);
      CoversFacts(front, p, q);
      OverlayCut(flat, p, data, before);
      Scatter(front, data[..before], p, q);
      ScatterLast(v, data[before..], q);
    }

    lemma CoverInit(iovs: seq<Iovec>, p: nat, q: nat)
      requires Shape() && Covers(iovs, p, q) && iovs != []
      ensures var n := |iovs| - 1;
        && iovs[n].len <= q && Covers(iovs[..n], p, q - iovs[n].len) == true
        && p + Total(iovs[..n]) == q - iovs[n].len
        && StretchAt(iovs[n], q - iovs[n].len)
    {
      TotalCovers(iovs[..|iovs| - 1], p, q - iovs[|iovs| - 1].len);
    }

    static function Total(iovs: seq<Iovec>): nat {
      if iovs == [] then 0 else Total(iovs[..|iovs| - 1]) + iovs[|iovs| - 1].len
    }

    lemma {:induction false} TotalCovers(iovs: seq<Iovec>, p: nat, q: nat)
      requires Shape() && Covers(iovs, p, q)
      ensures p + Total(iovs) == q
    {
      if iovs != [] {
        TotalCovers(iovs[..|iovs| - 1], p, q - iovs[|iovs| - 1].len);
      }
    }

    /** What send reads: the bytes of the stretches, one after the other. */
    static method BytesOf(iovs: seq<Iovec>) returns (all: seq<byte>)
      requires InBounds(iovs)
      ensures all == Gather(iovs)
    {
      all := [];
      var i := 0;
      while i < |iovs|
        invariant 0 <= i <= |iovs| && all == Gather(iovs[..i])
      {
        all := all + iovs[i].base[iovs[i].off..iovs[i].off + iovs[i].len];
        assert iovs[..i + 1][..i] == iovs[..i];
        GatherLast(iovs[..i + 1]);
        i := i + 1;
      }
      assert iovs[..i] == iovs;
    }

    /** SocketStream::write of a ByteArray: the kernel takes `taken` of the `len` bytes offered, and the
        cursor moves over them.  They are offered from the buffers for writing, so they are the next
        written bytes exactly as far as there are any. */
    method Send(len: nat, taken: nat) returns (sent: seq<byte>)
      requires Valid() && taken <= len
      modifies this, Repr
      ensures Valid() == true && fresh(Repr - old(Repr))
      ensures |sent| == taken
      ensures sent <= old(Contents()[position..]) <==> taken <= old(size - position)
      ensures position == old(position) + taken && size == Max(old(size), position)
      ensures Contents()[..old(size)] == old(Contents()) && capacity == old(Grown(len))
    {
      var iovs := GetWriteBuffers(len);
      sent := TakeFrom(iovs, len, taken);
      SentIff(old(flat), flat, size, position, taken);
      if taken > 0 {
        var ok := SetPosition(position + taken);
        PartOfPrefix(flat, size, 0, old(size));
      }
    }

    /** The bytes that the kernel takes. */
    method TakeFrom(iovs: seq<Iovec>, ghost len: nat, taken: nat) returns (sent: seq<byte>)
      requires Shape() && Covers(iovs, position, position + len) && taken <= len && position + len <= capacity
      ensures sent == flat[position..position + taken]
    {
      CoversBytes(iovs, position, position + len);
      var all := BytesOf(iovs);
      SliceExtends(flat, position, position + taken, position + len);
      sent := all[..taken];
    }

    /** SocketStream::read into a ByteArray: the kernel puts `data` into the buffers for `len`
        bytes, and the cursor moves over it.  The effect is that of a write of `data`; when nothing is
        received the array has only grown. */
    method Receive(len: nat, data: seq<byte>)
      requires Valid() && |data| <= len
      modifies this, Repr
      ensures Valid() && fresh(Repr - old(Repr))
      ensures position == old(position) + |data| && size == Max(old(size), position)
      ensures Contents() == Overlay(old(Contents()), old(position), data)
      ensures capacity == old(Grown(len))
    {
      var iovs := GetWriteBuffers(len);
      assert flat[..size] == old(flat)[..size];
      if |data| > 0 {
        Deposit(iovs, data, len);
      }
    }

    /** What recv and the move of the cursor do, once the buffers are there. */
    method Deposit(iovs: seq<Iovec>, data: seq<byte>, ghost len: nat)
      requires Valid() && position + len <= capacity && Covers(iovs, position, position + len) && |data| <= len
      modifies this, Repr
      ensures Valid() == true
      ensures Repr == old(Repr) && capacity == old(capacity)
      ensures position == old(position) + |data| && size == Max(old(size), position)
      ensures Contents() == Overlay(old(Contents()), old(position), data)
    {
      OverlayPrefix(flat, size, position, data);
      Scatter(iovs, data, position, position + len);
      var ok := SetPosition(position + |data|);
    }
  }

  // ---------------------------------------------------------------- calls that are not well placed

  /** A new array with `data` written and the cursor at the start. */
  method Written(base: nat, data: seq<byte>) returns (ba: ByteArray)
    requires base > 0
    ensures fresh(ba) && fresh(ba.Repr) && ba.Valid() && ba.baseSize == base && ba.position == 0 && ba.Contents() == data
  {
    ba := new ByteArray(base);
    OverlayAtEnd([], data);
    ba.Write(data);
    var ok := ba.SetPosition(0);
  }

  lemma AnotherBlock(flat: seq<byte>)
    requires |flat| >= 2 && flat[..2] == [7, 8]
    ensures Positional(flat, 2, 0, 1, 1, 1) == Done([7])
  {
    assert StartOf(0, 1, 1) == 0;
    assert flat[0..1] == flat[..2][0..1] == [7];
  }

  /** Block size 1: a position in another block reads the byte under the cursor. */
  method ReadInAnotherBlock() returns (r: Outcome<seq<byte>>, right: Outcome<seq<byte>>)
    ensures r == Done([7]) && right == Done([8])
  {
    var ba := Written(1, [7, 8]);
    AnotherBlock(ba.flat);
    assert ba.Contents()[1..2] == [8];
    r := ba.ReadAt(1, 1);
    var there := ba.SetPosition(1);
    right := ba.Read(1);
  }

  /** One byte written: a position past it is let through, and gives a byte that was never written. */
  method ReadPastTheSize() returns (r: Outcome<seq<byte>>, size: nat)
    ensures size == 1 && r.Done? && |r.value| == 1
  {
    var ba := Written(8, [7]);
    r := ba.ReadAt(1, 2);
    size := ba.size;
  }

  /** A full chain with the cursor at its end: the byte that is there is not found. */
  method ReadWithNullCursor() returns (r: Outcome<seq<byte>>, right: Outcome<seq<byte>>)
    ensures r == NullNode && right == Done([7])
  {
    var ba := new ByteArray(1);
    ba.Write([7]);
    r := ba.ReadAt(1, 0);
    var ok := ba.SetPosition(0);
    right := ba.Read(1);
  }

  /** One byte written and two sent: the second was never written, and counts as written from then on. */
  method SendPastTheSize() returns (sent: seq<byte>, before: nat, after: nat)
    ensures before == 1 && |sent| == 2 && after == 2
  {
    var ba := Written(8, [7]);
    before := ba.size;
    sent := ba.Send(2, 2);
    after := ba.size;
  }

  /** Two bytes written: two bytes asked for from position 1 on reach past them. */
  method BuffersPastTheSize() returns (ba: ByteArray, iovs: seq<Iovec>)
    ensures ba.Valid() && ba.size == 2 && !ba.Readable(iovs, 1)
  {
    ba := Written(8, [7, 8]);
    var r, total := ba.GetReadBuffersAt(2, 1);
    iovs := r.value;
  }
}
