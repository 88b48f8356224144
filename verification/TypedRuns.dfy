/** Whole sequences of typed writes and the matching reads.

    Where a contract says `P(..) == true` it means `P(..)`; the longer form keeps the verifier from
    proving the parts of P one by one. */
module TypedRuns {
  import opened Blocks
  import opened ByteArrays
  import opened Codec
  import opened TypedIo

  /** The variable-length reader on bytes that begin with `Varint(v)`: it takes just these, and they give
      `v`. */
  lemma VarintReads(v: nat, w: Width, s: seq<byte>)
    requires v < Modulus(w) && Varint(v) <= s
    ensures Taken(s, Rounds(w)) == |Varint(v)| && !Short(s, Rounds(w))
    ensures LebValue(s[..|Varint(v)|]) % Modulus(w) == v
  {
    VarintLimits(v);
    VarintIsLeb(v);
    var n := |Varint(v)|;
    assert forall i :: 0 <= i < n ==> s[i] == Varint(v)[i];
    TakenAt(s, n - 1, Rounds(w));
    assert s[..n] == Varint(v);
    ModSmall(v, Modulus(w));
  }

  // ---------------------------------------------------------------- typed values

  /** How a number goes on the wire. */
  datatype Form = FixedForm(bytes: nat) | VarForm(w: Width)

  datatype Kind =
    | Unsigned(bytes: nat)     // writeFuint8, 16, 32, 64
    | Signed(bytes: nat)       // writeFint8, 16, 32, 64
    | VarUnsigned(w: Width)    // writeUint32, writeUint64
    | VarSigned(w: Width)      // writeInt32, writeInt64
    | Text(prefix: Form)       // writeStringF16, F32, F64, Vint

  datatype Value = Number(n: int) | Bytes(s: seq<byte>)

  /** One write: its type, the byte order set at the time, and the value. */
  datatype Item = Item(kind: Kind, order: Endian, value: Value)

  predicate TextPrefix(form: Form) {
    form == FixedForm(2) || form == FixedForm(4) || form == FixedForm(8) || form == VarForm(W64)
  }

  /** The value is one of the C++ type of the parameter. */
  predicate WellTyped(it: Item) {
    match it.kind
    case Unsigned(b) => (b == 1 || b == 2 || b == 4 || b == 8) && it.value.Number? && 0 <= it.value.n < Pow(256, b)
    case Signed(b) => (b == 1 || b == 2 || b == 4 || b == 8) && it.value.Number? && InSigned(it.value.n, 8 * b)
    case VarUnsigned(w) => it.value.Number? && 0 <= it.value.n < Modulus(w)
    case VarSigned(w) => it.value.Number? && InSigned(it.value.n, Bits(w))
    case Text(form) => TextPrefix(form) && it.value.Bytes? && |it.value.s| < SIZE_T
  }

  function FormOf(kind: Kind): Form {
    match kind
    case Unsigned(b) => FixedForm(b)
    case Signed(b) => FixedForm(b)
    case VarUnsigned(w) => VarForm(w)
    case VarSigned(w) => VarForm(w)
    case Text(form) => form
  }

  /** One more than the largest number the form can hold. */
  function FormLimit(form: Form): (n: nat)
    ensures n > 0
  {
    match form
    case FixedForm(b) => Pow(256, b)
    case VarForm(w) => Modulus(w)
  }

  /** The number written first: the value, or the length of the text cast to its prefix. */
  function Raw(it: Item): nat
    requires WellTyped(it)
  {
    match it.kind
    case Unsigned(b) => it.value.n
    case Signed(b) => ToUnsigned(it.value.n, 8 * b)
    case VarUnsigned(w) => it.value.n
    case VarSigned(w) => ZigzagEncode(it.value.n, Bits(w))
    case Text(form) => |it.value.s| % FormLimit(form)
  }

  /** What the matching read makes of the number. */
  function Interpret(kind: Kind, raw: nat): int
    requires raw < FormLimit(FormOf(kind)) && (kind.Signed? ==> kind.bytes > 0)
  {
    match kind
    case Unsigned(_) => raw
    case Signed(b) => ToSigned(raw, 8 * b)
    case VarUnsigned(_) => raw
    case VarSigned(w) => WidthPow(w); ZigzagDecode(raw, Bits(w))
    case Text(_) => raw
  }

  lemma WidthPow(w: Width)
    ensures Modulus(w) == Pow(2, Bits(w))
  {
    PowFacts();
  }

  /** The length of a text survives the cast to its prefix. */
  predicate Fits(it: Item) {
    it.kind.Text? && it.value.Bytes? ==> |it.value.s| < FormLimit(it.kind.prefix)
  }

  /** The number read back is the value written, for a text exactly when its length fits. */
  lemma InterpretsIff(it: Item)
    requires WellTyped(it)
    ensures Raw(it) < FormLimit(FormOf(it.kind))
    ensures it.value.Number? ==> Interpret(it.kind, Raw(it)) == it.value.n
    ensures it.value.Bytes? ==> (Interpret(it.kind, Raw(it)) == |it.value.s| <==> Fits(it))
  {
    match it.kind
    case Unsigned(_) =>
    case Signed(b) =>
      PowByte(b);
      SignedRoundTrip(it.value.n, 8 * b);
    case VarUnsigned(_) =>
    case VarSigned(w) =>
      WidthPow(w);
      ZigzagRoundTrip(it.value.n, Bits(w));
    case Text(form) =>
      if Fits(it) {
        ModSmall(|it.value.s|, FormLimit(form));
      }
  }

  function EncodeRaw(raw: nat, form: Form, order: Endian, host: Endian): seq<byte> {
    match form
    case FixedForm(b) => FixedEncode(raw, b, order, host)
    case VarForm(_) => Varint(raw)
  }

  function TextOf(it: Item): seq<byte> {
    if it.kind.Text? && it.value.Bytes? then it.value.s else []
  }

  function Encode(it: Item, host: Endian): seq<byte>
    requires WellTyped(it)
  {
    EncodeRaw(Raw(it), FormOf(it.kind), it.order, host) + TextOf(it)
  }

  lemma PowFacts()
    ensures Pow(256, 1) == Pow(2, 8) == 0x100
    ensures Pow(256, 2) == Pow(2, 16) == 0x1_0000
    ensures Pow(256, 4) == Pow(2, 32) == 0x1_0000_0000
    ensures Pow(256, 8) == Pow(2, 64) == 0x1_0000_0000_0000_0000
  {
    PowByte(1);
    PowByte(2);
    PowByte(4);
    PowByte(8);
    assert Pow(256, 2) == 256 * Pow(256, 1) && Pow(256, 1) == 256 * Pow(256, 0);
    assert Pow(256, 4) == 256 * (256 * Pow(256, 2));
    assert Pow(256, 6) == 256 * (256 * Pow(256, 4));
    assert Pow(256, 8) == 256 * (256 * Pow(256, 6));
  }

  lemma {:induction false} PowByte(k: nat)
    ensures Pow(256, k) == Pow(2, 8 * k)
  {
    if k > 0 {
      PowByte(k - 1);
      var n := 8 * (k - 1);
      assert Pow(2, n + 2) == 4 * Pow(2, n);
      assert Pow(2, n + 4) == 4 * Pow(2, n + 2);
      assert Pow(2, n + 6) == 4 * Pow(2, n + 4);
      assert Pow(2, n + 8) == 4 * Pow(2, n + 6);
    }
  }

  lemma EncodeNotEmpty(it: Item, host: Endian)
    requires WellTyped(it)
    ensures |Encode(it, host)| > 0
  {
  }

  // ---------------------------------------------------------------- one write

  method WriteItem(ba: ByteArray, it: Item, host: Endian)
    requires ba.Valid() && WellTyped(it)
    modifies ba, ba.Repr
    ensures ba.Valid() && fresh(ba.Repr - old(ba.Repr))
    ensures ba.position == old(ba.position) + |Encode(it, host)| && ba.size == Max(old(ba.size), ba.position)
    ensures ba.Contents() == Overlay(old(ba.Contents()), old(ba.position), Encode(it, host))
    ensures old(Tight(ba)) ==> Tight(ba)
  {
    var head := ItemHead(it, host);
    if it.kind.Text? {
      WriteTwo(ba, head, it.value.s);
    } else {
      WriteBytes(ba, head);
    }
  }

  /** A prefix and a text, in two calls of write. */
  method WriteTwo(ba: ByteArray, head: seq<byte>, text: seq<byte>)
    requires ba.Valid()
    modifies ba, ba.Repr
    ensures ba.Valid() && fresh(ba.Repr - old(ba.Repr))
    ensures ba.position == old(ba.position) + |head + text| && ba.size == Max(old(ba.size), ba.position)
    ensures ba.Contents() == Overlay(old(ba.Contents()), old(ba.position), head + text)
    ensures old(Tight(ba)) ==> Tight(ba)
  {
    OverlayTwice(ba.Contents(), ba.position, head, text);
    WriteBytes(ba, head);
    WriteBytes(ba, text);
  }

  method ItemHead(it: Item, host: Endian) returns (head: seq<byte>)
    requires WellTyped(it)
    ensures Encode(it, host) == if it.kind.Text? then head + it.value.s else head
  {
    InterpretsIff(it);
    head := RawBytes(Raw(it), FormOf(it.kind), it.order, host);
  }

  method RawBytes(raw: nat, form: Form, order: Endian, host: Endian) returns (bytes: seq<byte>)
    requires raw < FormLimit(form)
    ensures bytes == EncodeRaw(raw, form, order, host)
  {
    match form
    case FixedForm(b) => bytes := FixedEncode(raw, b, order, host);
    case VarForm(w) => bytes := VarintBytes(raw, w);
  }

  /** The cursor is at the end, and no block is unused except that the first always exists. */
  ghost predicate Tight(ba: ByteArray)
    reads ba
  {
    ba.position == ba.size && ba.position <= ba.capacity && (ba.capacity == ba.baseSize || ba.capacity < ba.size + ba.baseSize)
  }

  method WriteBytes(ba: ByteArray, bytes: seq<byte>)
    requires ba.Valid()
    modifies ba, ba.Repr
    ensures ba.Valid() && fresh(ba.Repr - old(ba.Repr))
    ensures ba.position == old(ba.position) + |bytes| && ba.size == Max(old(ba.size), ba.position)
    ensures ba.Contents() == Overlay(old(ba.Contents()), old(ba.position), bytes)
    ensures old(Tight(ba)) ==> Tight(ba)
  {
    if |bytes| > ba.capacity - ba.position {
      CeilDivCovers(|bytes| - (ba.capacity - ba.position), ba.baseSize);
    }
    ba.Write(bytes);
  }

  // ---------------------------------------------------------------- one read

  /** readFuint8, 16, 32, 64 on any bytes. */
  method ReadFixed(ba: ByteArray, bytes: nat, order: Endian, host: Endian) returns (r: Outcome<nat>)
    requires ba.Valid() && bytes > 0
    modifies ba`position, ba`cur
    ensures ba.Valid()
    ensures var p := old(ba.position);
      if ba.size - p < bytes then r == OutOfRange && ba.position == p
      else r == Done(FixedDecode(ba.Contents()[p..p + bytes], order, host)) && ba.position == p + bytes
  {
    var data :- ba.Read(bytes);
    r := Done(FixedDecode(data, order, host));
  }

  /** Reading a number that was written there. */
  method ReadRaw(ba: ByteArray, form: Form, order: Endian, host: Endian, ghost raw: nat) returns (r: Outcome<nat>)
    requires ba.Valid() && raw < FormLimit(form) && (form.FixedForm? ==> form.bytes > 0)
    requires EncodeRaw(raw, form, order, host) <= ba.Contents()[ba.position..]
    modifies ba`position, ba`cur
    ensures ba.Valid() == true
    ensures r == Done(raw) && ba.position == old(ba.position) + |EncodeRaw(raw, form, order, host)|
  {
    match form
    case FixedForm(b) => r := ReadFixedBack(ba, b, order, host, raw);
    case VarForm(w) => r := ReadVarBack(ba, w, raw);
  }

  method ReadFixedBack(ba: ByteArray, b: nat, order: Endian, host: Endian, ghost raw: nat) returns (r: Outcome<nat>)
    requires ba.Valid() && b > 0 && raw < Pow(256, b) && FixedEncode(raw, b, order, host) <= ba.Contents()[ba.position..]
    modifies ba`position, ba`cur
    ensures ba.Valid()
    ensures r == Done(raw) && ba.position == old(ba.position) + b == old(ba.position) + |FixedEncode(raw, b, order, host)|
  {
    ghost var e := FixedBack(raw, b, order, host);
    ghost var was := ba.Contents();
    assert was[ba.position..ba.position + b] == was[ba.position..][..b] == e;
    r := ReadFixed(ba, b, order, host);
  }

  lemma FixedBack(raw: nat, b: nat, order: Endian, host: Endian) returns (e: seq<byte>)
    requires raw < Pow(256, b)
    ensures e == FixedEncode(raw, b, order, host) && |e| == b && FixedDecode(e, order, host) == raw
  {
    e := FixedEncode(raw, b, order, host);
    FixedRoundTrip(raw, b, order, host, host);
  }

  method ReadVarBack(ba: ByteArray, w: Width, ghost raw: nat) returns (r: Outcome<nat>)
    requires ba.Valid() && raw < Modulus(w) && Varint(raw) <= ba.Contents()[ba.position..]
    modifies ba`position, ba`cur
    ensures ba.Valid()
    ensures r == Done(raw) && ba.position == old(ba.position) + |Varint(raw)|
  {
    VarintReads(raw, w, ba.Contents()[ba.position..]);
    r := ReadUint(ba, w);
  }

  /** An empty text whose prefix ends exactly where the chain of blocks ends. */
  ghost predicate AtChainEnd(ba: ByteArray, p: nat, it: Item, host: Endian)
    requires WellTyped(it)
    reads ba
  {
    it.kind.Text? && it.value.s == [] && p + |Encode(it, host)| == ba.capacity
  }

  /** Reading an item that was written there: the value comes back, except that for an empty
      text at the end of the chain the code follows a null pointer. */
  method ReadItem(ba: ByteArray, kind: Kind, order: Endian, host: Endian, ghost it: Item) returns (r: Outcome<Value>)
    requires ba.Valid() && WellTyped(it) && Fits(it) && it.kind == kind && it.order == order
    requires Encode(it, host) <= ba.Contents()[ba.position..]
    modifies ba`position, ba`cur
    ensures ba.Valid()
    ensures ba.position == old(ba.position) + |Encode(it, host)|
    ensures r == if AtChainEnd(ba, old(ba.position), it, host) then NullNode else Done(it.value)
  {
    InterpretsIff(it);
    if kind.Text? {
      var text := ReadText(ba, kind.prefix, order, host, it.value.s);
      r := if text.Done? then Done(Bytes(text.value)) else NullNode;
    } else {
      var number := ReadRaw(ba, FormOf(kind), order, host, Raw(it));
      r := Done(Number(Interpret(kind, number.value)));
    }
  }

  method ReadText(ba: ByteArray, form: Form, order: Endian, host: Endian, ghost text: seq<byte>) returns (r: Outcome<seq<byte>>)
    requires ba.Valid() && |text| < FormLimit(form) && (form.FixedForm? ==> form.bytes > 0)
    requires EncodeRaw(|text|, form, order, host) + text <= ba.Contents()[ba.position..]
    modifies ba`position, ba`cur
    ensures ba.Valid() == true
    ensures ba.position == old(ba.position) + |EncodeRaw(|text|, form, order, host) + text|
    ensures r == if text == [] && ba.position == ba.capacity then NullNode else Done(text)
  {
    ghost var prefix := PrefixOf(ba, form, order, host, text);
    var n := ReadLength(ba, form, order, host, text, prefix);
    r := ReadBytes(ba, n, text);
  }

  /** The prefix and the text behind it. */
  lemma PrefixOf(ba: ByteArray, form: Form, order: Endian, host: Endian, text: seq<byte>) returns (prefix: seq<byte>)
    requires ba.Valid() && EncodeRaw(|text|, form, order, host) + text <= ba.Contents()[ba.position..]
    ensures prefix == EncodeRaw(|text|, form, order, host)
    ensures prefix <= ba.Contents()[ba.position..] && ba.position + |prefix| + |text| <= ba.size
    ensures text <= ba.Contents()[ba.position + |prefix|..]
  {
    prefix := EncodeRaw(|text|, form, order, host);
    PrefixSplits(ba.Contents(), ba.position, prefix, text);
  }

  /** The prefix is read, which leaves the cursor at the text. */
  method ReadLength(ba: ByteArray, form: Form, order: Endian, host: Endian, ghost text: seq<byte>, ghost prefix: seq<byte>)
    returns (n: nat)
    requires ba.Valid() && |text| < FormLimit(form) && (form.FixedForm? ==> form.bytes > 0)
    requires prefix == EncodeRaw(|text|, form, order, host) && prefix <= ba.Contents()[ba.position..]
    modifies ba`position, ba`cur
    ensures ba.Valid() == true && ba.Contents() == old(ba.Contents())
    ensures n == |text| && ba.position == old(ba.position) + |prefix|
  {
    var number := ReadRaw(ba, form, order, host, |text|);
    n := number.value;
  }

  /** The next `n` bytes, which are `text`. */
  method ReadBytes(ba: ByteArray, n: nat, ghost text: seq<byte>) returns (r: Outcome<seq<byte>>)
    requires ba.Valid() && n == |text| && text <= ba.Contents()[ba.position..]
    modifies ba`position, ba`cur
    ensures ba.Valid() == true
    ensures ba.position == old(ba.position) + |text|
    ensures r == if text == [] && ba.position == ba.capacity then NullNode else Done(text)
  {
    ghost var was := ba.Contents();
    assert was[ba.position..ba.position + n] == was[ba.position..][..n] == text;
    r := ba.Read(n);
  }

  // ---------------------------------------------------------------- whole sequences

  /** Every item has a value of its type, and every text a length that its prefix can hold. */
  predicate Proper(items: seq<Item>) {
    items == [] || (Proper(items[..|items| - 1]) && WellTyped(items[|items| - 1]) && Fits(items[|items| - 1]))
  }

  function Encodings(items: seq<Item>, host: Endian): (parts: seq<seq<byte>>)
    requires Proper(items)
    ensures |parts| == |items|
  {
    if items == [] then []
    else Encodings(items[..|items| - 1], host) + [Encode(items[|items| - 1], host)]
  }

  lemma {:induction false} EncodingAt(items: seq<Item>, host: Endian, k: nat)
    requires Proper(items) && k < |items|
    ensures WellTyped(items[k]) && Fits(items[k])
    ensures Encodings(items, host)[k] == Encode(items[k], host) && Encodings(items, host)[k] != []
  {
    if k == |items| - 1 {
      EncodeNotEmpty(items[k], host);
    } else {
      EncodingAt(items[..|items| - 1], host, k);
    }
  }

  lemma EncodingsNotEmpty(items: seq<Item>, host: Endian)
    requires Proper(items)
    ensures forall i :: 0 <= i < |items| ==> Encodings(items, host)[i] != []
  {
    forall i | 0 <= i < |items|
      ensures Encodings(items, host)[i] != []
    {
      EncodingAt(items, host, i);
    }
  }

  /** The parts one after the other. */
  function Join(parts: seq<seq<byte>>): seq<byte> {
    if parts == [] then [] else Join(parts[..|parts| - 1]) + parts[|parts| - 1]
  }

  function EncodeAll(items: seq<Item>, host: Endian): seq<byte>
    requires Proper(items)
  {
    Join(Encodings(items, host))
  }

  function Values(items: seq<Item>): (vs: seq<Value>)
    ensures |vs| == |items|
  {
    if items == [] then [] else Values(items[..|items| - 1]) + [items[|items| - 1].value]
  }

  lemma {:induction false} ValueAt(items: seq<Item>, k: nat)
    requires k < |items|
    ensures Values(items)[k] == items[k].value
  {
    if k < |items| - 1 {
      ValueAt(items[..|items| - 1], k);
    }
  }

  lemma ValuesNext(items: seq<Item>, k: nat)
    requires k < |items|
    ensures Values(items)[..k + 1] == Values(items)[..k] + [items[k].value]
  {
    ValueAt(items, k);
    PrefixSnoc(Values(items), k);
  }

  lemma PrefixSnoc(vs: seq<Value>, k: nat)
    requires k < |vs|
    ensures vs[..k + 1] == vs[..k] + [vs[k]]
  {
  }

  lemma {:induction false} JoinPrefix(parts: seq<seq<byte>>, k: nat)
    requires k <= |parts| && forall i :: 0 <= i < |parts| ==> parts[i] != []
    ensures Join(parts[..k]) <= Join(parts)
    ensures k < |parts| ==> |Join(parts[..k])| < |Join(parts)|
  {
    var n := |parts| - 1;
    if k <= n {
      JoinPrefix(parts[..n], k);
      assert parts[..n][..k] == parts[..k];
    } else {
      assert parts[..k] == parts;
    }
  }

  /** Part `k` lies in the whole where those before it end. */
  lemma JoinAt(parts: seq<seq<byte>>, k: nat)
    requires k < |parts| && forall i :: 0 <= i < |parts| ==> parts[i] != []
    ensures var all, before := Join(parts), Join(parts[..k]);
      && |before| <= |all| && parts[k] <= all[|before|..]
      && Join(parts[..k + 1]) == before + parts[k]
      && |before| + |parts[k]| <= |all|
      && (|before| + |parts[k]| == |all| <==> k + 1 == |parts|)
  {
    var all, before := Join(parts), Join(parts[..k]);
    assert parts[..k + 1][..k] == parts[..k];
    JoinPrefix(parts, k + 1);
    assert before + parts[k] <= all[0..];
    PrefixSplits(all, 0, before, parts[k]);
    assert k + 1 == |parts| ==> parts[..k + 1] == parts;
  }

  /** A tight array with the given contents. */
  ghost predicate Filled(ba: ByteArray, bytes: seq<byte>)
    reads ba, ba.Repr
  {
    ba.Valid() && Tight(ba) && ba.Contents() == bytes
  }

  /** The items one after the other at the end of the array. */
  method WriteAll(ba: ByteArray, items: seq<Item>, host: Endian, ghost before: seq<byte>)
    requires Proper(items) && Filled(ba, before) == true
    modifies ba, ba.Repr
    ensures Filled(ba, before + EncodeAll(items, host)) == true && fresh(ba.Repr - old(ba.Repr))
    decreases |items|
  {
    if items == [] {
      assert before + EncodeAll(items, host) == before;
      return;
    }
    var n := |items| - 1;
    ghost var most, last := EncodeAllNext(items, host, before);
    WriteAll(ba, items[..n], host, before);
    WriteAtEnd(ba, items[n], host, most, last);
  }

  lemma EncodeAllNext(items: seq<Item>, host: Endian, before: seq<byte>) returns (most: seq<byte>, last: seq<byte>)
    requires Proper(items) && items != []
    ensures var n := |items| - 1; Proper(items[..n]) && most == before + EncodeAll(items[..n], host) && IsEncoding(items[n], host, last)
    ensures before + EncodeAll(items, host) == most + last
  {
    var n := |items| - 1;
    most, last := before + EncodeAll(items[..n], host), Encode(items[n], host);
    JoinSnoc(Encodings(items[..n], host), last);
    assert before + (EncodeAll(items[..n], host) + last) == most + last;
  }

  lemma JoinSnoc(parts: seq<seq<byte>>, part: seq<byte>)
    ensures Join(parts + [part]) == Join(parts) + part
  {
    assert (parts + [part])[..|parts|] == parts;
  }

  ghost predicate IsEncoding(it: Item, host: Endian, bytes: seq<byte>) {
    WellTyped(it) && bytes == Encode(it, host)
  }

  method WriteAtEnd(ba: ByteArray, it: Item, host: Endian, ghost before: seq<byte>, ghost bytes: seq<byte>)
    requires Filled(ba, before) == true && IsEncoding(it, host, bytes) == true
    modifies ba, ba.Repr
    ensures Filled(ba, before + bytes) == true && fresh(ba.Repr - old(ba.Repr))
  {
    OverlayAtEnd(ba.Contents(), bytes);
    WriteItem(ba, it, host);
  }

  /** The chain of blocks is full exactly when the bytes fill whole blocks. */
  lemma TightFull(total: nat, cap: nat, b: nat, n: nat)
    requires b > 0 && n > 0 && cap == Span(n, b) && 0 < total <= cap && (cap == b || cap < total + b)
    ensures total == cap <==> total % b == 0
  {
    BlockIsDiv(total, b);
    PositionSplits(total, b);
    var k := BlockOf(total, b);
    if total == cap {
      SplitIsUnique(n, 0, b);
    } else {
      BlockBound(total, b, n);
      SpanMono(k, n, b);
    }
  }

  /** The read that fails: an empty text at the very end, with the bytes filling whole blocks. */
  predicate FailsAtEnd(items: seq<Item>, base: nat, host: Endian)
    requires Proper(items) && base > 0
  {
    EndsEmpty(items) && |EncodeAll(items, host)| % base == 0
  }

  predicate EndsEmpty(items: seq<Item>) {
    items != [] && items[|items| - 1].value == Bytes([])
  }

  /** Of the reads, only the last can meet the end of the chain. */
  lemma EndIff(items: seq<Item>, host: Endian, k: nat, cap: nat)
    requires Proper(items) && k < |items| && |EncodeAll(items, host)| <= cap
    ensures var parts := Encodings(items, host);
      items[k].value == Bytes([]) && |Join(parts[..k])| + |parts[k]| == cap
      <==> k + 1 == |items| && EndsEmpty(items) && |EncodeAll(items, host)| == cap
  {
    EncodingsNotEmpty(items, host);
    EncodingAt(items, host, k);
    JoinAt(Encodings(items, host), k);
  }

  ghost predicate Holds(ba: ByteArray, bytes: seq<byte>)
    reads ba, ba.Repr
  {
    ba.Valid() && ba.Contents() == bytes
  }

  /** The reads of the first `k` items. */
  method ReadFirst(ba: ByteArray, items: seq<Item>, k: nat, host: Endian) returns (r: Outcome<seq<Value>>)
    requires k <= |items| && Proper(items) && Holds(ba, EncodeAll(items, host)) == true && ba.position == 0
    modifies ba`position, ba`cur
    ensures Holds(ba, EncodeAll(items, host)) == true
    ensures r == if k == |items| && EndsEmpty(items) && ba.size == ba.capacity then NullNode else Done(Values(items)[..k])
    ensures r.Done? ==> ba.position == |Join(Encodings(items, host)[..k])|
    decreases k
  {
    if k == 0 {
      assert Values(items)[..0] == [];
      return Done([]);
    }
    var first := ReadFirst(ba, items, k - 1, host);
    var values := first.value;
    var v :- ReadAfter(ba, items, k - 1, host);
    ValuesNext(items, k - 1);
    r := Done(values + [v]);
  }

  /** The read of item `k`, when those before it have been read. */
  method ReadAfter(ba: ByteArray, items: seq<Item>, k: nat, host: Endian) returns (r: Outcome<Value>)
    requires k < |items| && Proper(items) && Holds(ba, EncodeAll(items, host)) == true
    requires ba.position == |Join(Encodings(items, host)[..k])|
    modifies ba`position, ba`cur
    ensures Holds(ba, EncodeAll(items, host)) == true
    ensures r == if k + 1 == |items| && EndsEmpty(items) && ba.size == ba.capacity then NullNode else Done(items[k].value)
    ensures ba.position == |Join(Encodings(items, host)[..k + 1])|
  {
    EndIff(items, host, k, ba.capacity);
    NextPart(items, host, k);
    r := ReadNext(ba, items[k], host, EncodeAll(items, host), Encodings(items, host)[k]);
  }

  lemma NextPart(items: seq<Item>, host: Endian, k: nat)
    requires Proper(items) && k < |items|
    ensures WellTyped(items[k]) && Fits(items[k]) && Encodings(items, host)[k] == Encode(items[k], host)
    ensures var parts := Encodings(items, host);
      && |Join(parts[..k])| <= |Join(parts)|
      && parts[k] <= Join(parts)[|Join(parts[..k])|..]
      && |Join(parts[..k + 1])| == |Join(parts[..k])| + |parts[k]|
  {
    EncodingsNotEmpty(items, host);
    EncodingAt(items, host, k);
    JoinAt(Encodings(items, host), k);
  }

  method ReadNext(ba: ByteArray, it: Item, host: Endian, ghost all: seq<byte>, ghost bytes: seq<byte>) returns (r: Outcome<Value>)
    requires Holds(ba, all) == true && WellTyped(it) && Fits(it)
    requires bytes == Encode(it, host) && bytes <= all[ba.position..]
    modifies ba`position, ba`cur
    ensures Holds(ba, all) == true
    ensures ba.position == old(ba.position) + |bytes|
    ensures r == if it.value == Bytes([]) && ba.position == ba.capacity then NullNode else Done(it.value)
  {
    r := ReadItem(ba, it.kind, it.order, host, it);
  }

  /** Write everything into a new array of any block size, go back to the start, and read it
      all again: the values come back and nothing is left, unless the last item is an empty
      text and the bytes fill whole blocks. */
  method RoundTrip(items: seq<Item>, base: nat, host: Endian) returns (r: Outcome<seq<Value>>, left: nat)
    requires base > 0 && Proper(items)
    ensures r == if FailsAtEnd(items, base, host) then NullNode else Done(Values(items))
    ensures r.Done? ==> left == 0
  {
    var ba := WriteAndRewind(items, base, host);
    r := ReadFirst(ba, items, |items|, host);
    assert Values(items)[..|items|] == Values(items);
    assert Encodings(items, host)[..|items|] == Encodings(items, host);
    left := ba.size - ba.position;
  }

  method WriteNew(items: seq<Item>, base: nat, host: Endian) returns (ba: ByteArray)
    requires base > 0 && Proper(items)
    ensures fresh(ba) && fresh(ba.Repr) && ba.baseSize == base
    ensures Filled(ba, EncodeAll(items, host)) == true
  {
    ba := new ByteArray(base);
    WriteAll(ba, items, host, []);
    assert [] + EncodeAll(items, host) == EncodeAll(items, host);
  }

  method WriteAndRewind(items: seq<Item>, base: nat, host: Endian) returns (ba: ByteArray)
    requires base > 0 && Proper(items)
    ensures fresh(ba) && fresh(ba.Repr)
    ensures Holds(ba, EncodeAll(items, host)) == true && ba.position == 0
    ensures EndsEmpty(items) ==> (ba.size == ba.capacity <==> FailsAtEnd(items, base, host))
  {
    ba := WriteNew(items, base, host);
    var ok := ba.SetPosition(0);
    if items != [] {
      EncodingsNotEmpty(items, host);
      JoinPrefix(Encodings(items, host), 0);
      TightFull(ba.size, ba.capacity, base, |ba.nodes|);
    }
  }
}
