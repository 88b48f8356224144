/** The chunk-size lines that the parser reads, spelled out: digits of either case with any leading zeros,
    extensions, and a line end.

    Where a contract says `P(..) == true` it means `P(..)`; the longer form keeps the verifier from
    proving the parts of P one by one. */
module ChunkGrammar {
  import opened Common
  import opened Blocks
  import opened ChunkLine

  // ---------------------------------------------------------------------------------------------
  // Digits

  /** "0123456789abcdef" and "0123456789ABCDEF". */
  const LOWER: seq<byte> := [48, 49, 50, 51, 52, 53, 54, 55, 56, 57, 97, 98, 99, 100, 101, 102]
  const UPPER: seq<byte> := [48, 49, 50, 51, 52, 53, 54, 55, 56, 57, 65, 66, 67, 68, 69, 70]

  predicate SpellsDigit(c: byte, d: nat) {
    d < 16 && (c == LOWER[d] || c == UPPER[d])
  }

  /** The 22 digit characters have their values, and no other character has one. */
  lemma DigitIff(c: byte, d: nat)
    requires d < 16
    ensures Digit(c) == d <==> SpellsDigit(c, d)
  {
  }

  /** `s` spells the digits `ds`, each in either case. */
  predicate Spells(s: seq<byte>, ds: seq<nat>) {
    |s| == |ds| > 0 && forall i :: 0 <= i < |s| ==> SpellsDigit(s[i], ds[i])
  }

  /** The number with these digits to the base 16, the highest first; leading zeros do not matter. */
  function Base16(ds: seq<nat>): nat {
    if ds == [] then 0 else 16 * Base16(ds[..|ds| - 1]) + ds[|ds| - 1]
  }

  predicate AllDigits(s: seq<byte>) {
    forall i :: 0 <= i < |s| ==> IsDigit(s[i])
  }

  /** `ds` are the values of the digits `s`. */
  predicate Values(s: seq<byte>, ds: seq<nat>) {
    |s| == |ds| && forall i :: 0 <= i < |s| ==> Digit(s[i]) == ds[i] < 16
  }

  lemma SpellsIff(s: seq<byte>, ds: seq<nat>)
    ensures Spells(s, ds) <==> s != [] && Values(s, ds)
  {
    if |s| == |ds| {
      forall i | 0 <= i < |s| ensures SpellsDigit(s[i], ds[i]) <==> Digit(s[i]) == ds[i] < 16 {
        if ds[i] < 16 {
          DigitIff(s[i], ds[i]);
        }
      }
    }
  }

  lemma {:induction false} NumberIs(s: seq<byte>, ds: seq<nat>)
    requires Values(s, ds)
    ensures AllDigits(s) && Number(s) == Base16(ds)
  {
    if s != [] {
      NumberIs(s[..|s| - 1], ds[..|ds| - 1]);
    }
  }

  // ---------------------------------------------------------------------------------------------
  // Words and extensions

  /** The characters of a token: the digits, the letters, and these fifteen others: ! # $ % & ' * + - . ^ _ ` | ~ */
  predicate TokenChar(b: byte) {
    || 48 <= b <= 57 || 65 <= b <= 90 || 97 <= b <= 122
    || b == 33 || 35 <= b <= 39 || 42 <= b <= 43 || 45 <= b <= 46 || 94 <= b <= 96 || b == 124 || b == 126
  }

  lemma TokenIff(b: byte)
    ensures IsToken(b) <==> TokenChar(b)
  {
  }

  predicate Token(s: seq<byte>) {
    s != [] && forall i :: 0 <= i < |s| ==> TokenChar(s[i])
  }

  /** ";name" or ";name=value". */
  datatype Extension = Extension(name: seq<byte>, value: Option<seq<byte>>) {
    predicate Ok() {
      Token(name) && (value.Some? ==> Token(value.value))
    }

    function Text(): seq<byte> {
      [59] + name + if value.Some? then [61] + value.value else []
    }
  }

  function Texts(exts: seq<Extension>): seq<byte> {
    if exts == [] then [] else exts[0].Text() + Texts(exts[1..])
  }

  predicate AllOk(exts: seq<Extension>) {
    forall i :: 0 <= i < |exts| ==> exts[i].Ok()
  }

  predicate LineEnd(s: seq<byte>) {
    s == [13, 10] || s == [10]
  }

  /** `line` is a chunk-size line: the digits `s`, extensions, and CR LF or LF. */
  ghost predicate Form(line: seq<byte>, s: seq<byte>, exts: seq<Extension>, end: seq<byte>) {
    s != [] && AllOk(exts) && LineEnd(end) && line == s + (Texts(exts) + end)
  }

  // ---------------------------------------------------------------------------------------------
  // Every such line is read

  /** After the digits, a name or a value. */
  predicate AfterAWord(p: Phase) {
    p.Digits? || p.Name? || p.Value?
  }

  /** The machine gets from phase `p` over `s` to phase `q`, with `more` behind it. */
  predicate Gets(p: Phase, s: seq<byte>, q: Phase, more: seq<byte>) {
    Scan(p, s + more) == (Scan(q, more).0, Scan(q, more).1 + |s|)
  }

  lemma GetsOn(p: Phase, s: seq<byte>, q: Phase, t: seq<byte>, r: Phase, more: seq<byte>)
    requires Gets(p, s, q, t + more) && Gets(q, t, r, more)
    ensures Gets(p, s + t, r, more) == true
  {
    assert s + t + more == s + (t + more);
  }

  lemma GetsOver(p: Phase, b: byte, more: seq<byte>)
    requires !p.Done? && !p.Failed?
    ensures Gets(p, [b], Delta(p, b), more) == true
  {
    assert ([b] + more)[1..] == more;
  }

  lemma GetsNowhere(p: Phase, more: seq<byte>)
    ensures Gets(p, [], p, more) == true
  {
    assert [] + more == more;
  }

  lemma TokenDelta(p: Phase, b: byte)
    requires TokenChar(b)
    ensures (p.NameStart? || p.Name? ==> Delta(p, b) == Name) && (p.ValueStart? || p.Value? ==> Delta(p, b) == Value)
  {
    TokenIff(b);
  }

  lemma {:induction false} ScanTokens(p: Phase, s: seq<byte>, more: seq<byte>)
    requires (p.Name? || p.Value?) && forall i :: 0 <= i < |s| ==> TokenChar(s[i])
    ensures Gets(p, s, p, more) == true
    decreases |s|
  {
    if s == [] {
      GetsNowhere(p, more);
    } else {
      TokenDelta(p, s[0]);
      GetsOver(p, s[0], s[1..] + more);
      ScanTokens(p, s[1..], more);
      GetsOn(p, [s[0]], p, s[1..], p, more);
      assert s == [s[0]] + s[1..];
    }
  }

  /** A word after ";" or "=". */
  lemma ScanWord(p: Phase, s: seq<byte>, more: seq<byte>)
    requires (p.NameStart? || p.ValueStart?) && Token(s)
    ensures Gets(p, s, if p.NameStart? then Name else Value, more) == true
  {
    var q := if p.NameStart? then Name else Value;
    TokenDelta(p, s[0]);
    GetsOver(p, s[0], s[1..] + more);
    ScanTokens(q, s[1..], more);
    GetsOn(p, [s[0]], q, s[1..], q, more);
    assert s == [s[0]] + s[1..];
  }

  lemma ScanName(p: Phase, name: seq<byte>, more: seq<byte>)
    requires AfterAWord(p) && Token(name)
    ensures Gets(p, [59] + name, Name, more) == true
  {
    GetsOver(p, 59, name + more);
    ScanWord(NameStart, name, more);
    GetsOn(p, [59], NameStart, name, Name, more);
  }

  lemma ScanValue(value: seq<byte>, more: seq<byte>)
    requires Token(value)
    ensures Gets(Name, [61] + value, Value, more) == true
  {
    GetsOver(Name, 61, value + more);
    ScanWord(ValueStart, value, more);
    GetsOn(Name, [61], ValueStart, value, Value, more);
  }

  lemma ScanExtension(p: Phase, e: Extension, more: seq<byte>)
    requires AfterAWord(p) && e.Ok()
    ensures Gets(p, e.Text(), if e.value.Some? then Value else Name, more) == true
  {
    if e.value.Some? {
      var value := [61] + e.value.value;
      ScanName(p, e.name, value + more);
      ScanValue(e.value.value, more);
      GetsOn(p, [59] + e.name, Name, value, Value, more);
    } else {
      ScanName(p, e.name, more);
      assert e.Text() == [59] + e.name;
    }
  }

  lemma {:induction false} ScanForm(p: Phase, exts: seq<Extension>, end: seq<byte>)
    requires AfterAWord(p) && AllOk(exts) && LineEnd(end)
    ensures Scan(p, Texts(exts) + end) == (Done, |Texts(exts) + end|)
    decreases |exts|
  {
    if exts == [] {
      assert Texts(exts) + end == end;
      ScanEnd(p, end);
    } else {
      var q := if exts[0].value.Some? then Value else Name;
      assert Texts(exts) + end == exts[0].Text() + (Texts(exts[1..]) + end);
      ScanExtension(p, exts[0], Texts(exts[1..]) + end);
      ScanForm(q, exts[1..], end);
    }
  }

  lemma ScanEnd(p: Phase, end: seq<byte>)
    requires AfterAWord(p) && LineEnd(end)
    ensures Scan(p, end) == (Done, |end|)
  {
    if end == [13, 10] {
      assert end == [13] + [10] && [10] == [10] + [];
      GetsOver(p, 13, [10]);
      GetsOver(Return, 10, []);
    } else {
      assert end == [10] + [];
      GetsOver(p, 10, []);
    }
  }

  lemma NotADigit(exts: seq<Extension>, end: seq<byte>)
    requires LineEnd(end)
    ensures Texts(exts) + end != [] && !IsDigit((Texts(exts) + end)[0])
  {
    if exts != [] {
      assert (Texts(exts) + end)[0] == 59;
    }
  }

  /** What an int holds of the long that strtol gives: beyond the longs the largest one, whose low 32 bits
      are all set, and else the number with the same low 32 bits. */
  predicate HeldAs(v: nat, size: int) {
    if v < 0x8000_0000_0000_0000 then -0x8000_0000 <= size < 0x8000_0000 && (v - size) % 0x1_0000_0000 == 0
    else size == -1
  }

  lemma StoredIs(v: nat)
    ensures HeldAs(v, Stored(v))
    ensures forall size :: HeldAs(v, size) ==> size == Stored(v)
    ensures v < 0x8000_0000 ==> Stored(v) == v
  {
    forall size | HeldAs(v, size) ensures size == Stored(v) {
      OneInt(v, size, Stored(v));
    }
  }

  lemma OneInt(v: nat, x: int, y: int)
    requires HeldAs(v, x) && HeldAs(v, y)
    ensures x == y
  {
    if v < 0x8000_0000_0000_0000 {
      var i, j := (v - x) / 0x1_0000_0000, (v - y) / 0x1_0000_0000;
      assert x - y == (j - i) * 0x1_0000_0000;
    }
  }

  /** Every spelling of every number, with any extensions and either line end, is a line: its size is the
      number, as far as an int holds it. */
  lemma EverySpelling(line: seq<byte>, s: seq<byte>, ds: seq<nat>, exts: seq<Extension>, end: seq<byte>)
    requires Spells(s, ds) && Form(line, s, exts, end)
    ensures Parse(line).Line? && Parse(line).used == |line| && HeldAs(Base16(ds), Parse(line).size)
    ensures Base16(ds) < 0x8000_0000 ==> IsLine(line, Base16(ds))
  {
    SpellsIff(s, ds);
    NumberIs(s, ds);
    StoredIs(Base16(ds));
    NotADigit(exts, end);
    ScanForm(Digits, exts, end);
    DigitsLine(s, Texts(exts) + end);
  }

  // ---------------------------------------------------------------------------------------------
  // Nothing else is read

  /** What the parser has read after a phase: the rest of the word it is in, a value if that word is a
      name, more extensions, and the line end. */
  datatype Reading = Reading(word: seq<byte>, value: Option<seq<byte>>, exts: seq<Extension>, end: seq<byte>) {

    function Text(): seq<byte> {
      word + ((if value.Some? then [61] + value.value else []) + (Texts(exts) + end))
    }

    predicate Ok(p: Phase) {
      && AllOk(exts) && LineEnd(end)
      && (value.Some? ==> p.Name? && Token(value.value))
      && if p.Digits? then AllDigits(word) else forall i :: 0 <= i < |word| ==> TokenChar(word[i])
    }
  }

  lemma Unroll(p: Phase, s: seq<byte>)
    requires Scan(p, s) == (Done, |s|) && !p.Done?
    ensures s != [] && !p.Failed? && Scan(Delta(p, s[0]), s[1..]) == (Done, |s| - 1)
  {
    Unroll2(p, s);
    assert s == [s[0]] + s[1..];
    GetsOver(p, s[0], s[1..]);
  }

  lemma DoneAtOnce(s: seq<byte>)
    requires Scan(Done, s) == (Done, |s|)
    ensures s == []
  {
  }

  /** One more character of the same word. */
  lemma SameWord(p: Phase, b: byte, r: Reading)
    requires AfterAWord(p) && r.Ok(p) && (if p.Digits? then IsDigit(b) else TokenChar(b))
    ensures var q := r.(word := [b] + r.word); q.Ok(p) && q.Text() == [b] + r.Text()
  {
  }

  /** A value behind a name. */
  lemma ValueRead(b: byte, r: Reading)
    requires r.Ok(Value) && TokenChar(b)
    ensures var q := Reading([], Some([b] + r.word), r.exts, r.end); q.Ok(Name) && q.Text() == [61] + ([b] + r.Text())
  {
  }

  /** An extension behind a word. */
  lemma ExtensionRead(p: Phase, b: byte, r: Reading)
    requires AfterAWord(p) && r.Ok(Name) && TokenChar(b)
    ensures var q := Reading([], None, [Extension([b] + r.word, r.value)] + r.exts, r.end);
            q.Ok(p) && q.Text() == [59] + ([b] + r.Text())
  {
    var e := Extension([b] + r.word, r.value);
    assert e.Ok();
    TextsFirst(e, r.exts);
    Pieces([b], r.word, if r.value.Some? then [61] + r.value.value else [], Texts(r.exts), r.end);
  }

  lemma Pieces(b: seq<byte>, w: seq<byte>, v: seq<byte>, x: seq<byte>, end: seq<byte>)
    ensures [59] + (b + (w + (v + (x + end)))) == [] + ([] + ((([59] + (b + w) + v) + x) + end))
  {
  }

  lemma TextsFirst(e: Extension, exts: seq<Extension>)
    ensures Texts([e] + exts) == e.Text() + Texts(exts)
  {
    assert ([e] + exts)[1..] == exts;
  }

  lemma EndRead(p: Phase, s: seq<byte>)
    requires AfterAWord(p) && Scan(p, s) == (Done, |s|) && (s[0] == 13 || s[0] == 10)
    ensures LineEnd(s)
  {
    Unroll(p, s);
    if s[0] == 13 {
      Unroll(Return, s[1..]);
      DoneAtOnce(s[1..][1..]);
      assert s == [s[0]] + ([s[1..][0]] + s[1..][1..]);
    } else {
      DoneAtOnce(s[1..]);
      assert s == [s[0]] + s[1..];
    }
  }

  /** The second character after ";" or "=", which begins a word. */
  lemma WordBegins(p: Phase, s: seq<byte>)
    requires (p.NameStart? || p.ValueStart?) && Scan(p, s) == (Done, |s|)
    ensures s != [] && TokenChar(s[0]) && Scan(if p.NameStart? then Name else Value, s[1..]) == (Done, |s| - 1)
  {
    Unroll(p, s);
    TokenIff(s[0]);
    assert !Delta(p, s[0]).Failed? by {
      Unroll2(Delta(p, s[0]), s[1..]);
    }
  }

  lemma Unroll2(p: Phase, s: seq<byte>)
    requires Scan(p, s) == (Done, |s|)
    ensures !p.Failed?
  {
  }

  /** Which characters may come next after a word. */
  lemma NextChar(p: Phase, b: byte)
    requires AfterAWord(p) && !Delta(p, b).Failed?
    ensures || (Delta(p, b) == p && if p.Digits? then IsDigit(b) else TokenChar(b))
            || (b == 61 && p.Name? && Delta(p, b) == ValueStart)
            || (b == 59 && Delta(p, b) == NameStart)
            || b == 13 || b == 10
  {
    TokenIff(b);
  }

  /** How a line goes on after a word: the word does, or a line end, a value or an extension follows. */
  datatype Ahead = SameAhead | EndAhead | ValueAhead | NameAhead

  ghost predicate GoesOn(p: Phase, s: seq<byte>, k: Ahead) {
    match k
    case SameAhead =>
      s != [] && (if p.Digits? then IsDigit(s[0]) else TokenChar(s[0])) && Scan(p, s[1..]) == (Done, |s| - 1)
    case EndAhead => LineEnd(s)
    case ValueAhead =>
      |s| > 1 && s[0] == 61 && p.Name? && TokenChar(s[1]) && Scan(Value, s[2..]) == (Done, |s| - 2)
    case NameAhead => |s| > 1 && s[0] == 59 && TokenChar(s[1]) && Scan(Name, s[2..]) == (Done, |s| - 2)
  }

  lemma LooksAhead(p: Phase, s: seq<byte>) returns (k: Ahead)
    requires AfterAWord(p) && Scan(p, s) == (Done, |s|)
    ensures GoesOn(p, s, k) == true
  {
    Unroll(p, s);
    Unroll2(Delta(p, s[0]), s[1..]);
    NextChar(p, s[0]);
    if s[0] == 13 || s[0] == 10 {
      EndRead(p, s);
      k := EndAhead;
    } else if Delta(p, s[0]) == p {
      k := SameAhead;
    } else {
      WordBegins(Delta(p, s[0]), s[1..]);
      assert s[1..][1..] == s[2..];
      k := if s[0] == 61 then ValueAhead else NameAhead;
    }
  }

  ghost predicate Reads(r: Reading, p: Phase, s: seq<byte>) {
    r.Ok(p) && r.Text() == s
  }

  lemma EndReads(p: Phase, s: seq<byte>)
    requires AfterAWord(p) && GoesOn(p, s, EndAhead)
    ensures Reads(Reading([], None, [], s), p, s) == true
  {
  }

  lemma SameReads(p: Phase, s: seq<byte>, r: Reading)
    requires AfterAWord(p) && GoesOn(p, s, SameAhead) && Reads(r, p, s[1..])
    ensures Reads(r.(word := [s[0]] + r.word), p, s) == true
  {
    SameWord(p, s[0], r);
    assert s == [s[0]] + s[1..];
  }

  lemma ValueReads(p: Phase, s: seq<byte>, r: Reading)
    requires AfterAWord(p) && GoesOn(p, s, ValueAhead) && Reads(r, Value, s[2..])
    ensures Reads(Reading([], Some([s[1]] + r.word), r.exts, r.end), p, s) == true
  {
    ValueRead(s[1], r);
    assert s == [s[0]] + ([s[1]] + s[2..]);
  }

  lemma NameReads(p: Phase, s: seq<byte>, r: Reading)
    requires AfterAWord(p) && GoesOn(p, s, NameAhead) && Reads(r, Name, s[2..])
    ensures Reads(Reading([], None, [Extension([s[1]] + r.word, r.value)] + r.exts, r.end), p, s) == true
  {
    ExtensionRead(p, s[1], r);
    assert s == [s[0]] + ([s[1]] + s[2..]);
  }

  lemma {:induction false} WhatWasRead(p: Phase, s: seq<byte>) returns (r: Reading)
    requires AfterAWord(p) && Scan(p, s) == (Done, |s|)
    ensures Reads(r, p, s) == true
    decreases |s|
  {
    var k := LooksAhead(p, s);
    match k
    case EndAhead =>
      r := Reading([], None, [], s);
      EndReads(p, s);
    case SameAhead =>
      var q := WhatWasRead(p, s[1..]);
      r := q.(word := [s[0]] + q.word);
      SameReads(p, s, q);
    case ValueAhead =>
      var q := WhatWasRead(Value, s[2..]);
      r := Reading([], Some([s[1]] + q.word), q.exts, q.end);
      ValueReads(p, s, q);
    case NameAhead =>
      var q := WhatWasRead(Name, s[2..]);
      r := Reading([], None, [Extension([s[1]] + q.word, q.value)] + q.exts, q.end);
      NameReads(p, s, q);
  }

  /** Every line that is read is digits, extensions and a line end, and its size is the number the digits spell,
      as far as an int holds it. */
  lemma OnlySpellings(line: seq<byte>, size: int) returns (s: seq<byte>, ds: seq<nat>, exts: seq<Extension>, end: seq<byte>)
    requires Parse(line) == Line(size, |line|)
    ensures Spells(s, ds) && Form(line, s, exts, end)
    ensures HeldAs(Base16(ds), size) && (Base16(ds) < 0x8000_0000 ==> size == Base16(ds))
  {
    s, exts, end := LineRead(line);
    ds := seq(|s|, i requires 0 <= i < |s| => Digit(s[i]));
    SpellsIff(s, ds);
    NumberIs(s, ds);
    NotADigit(exts, end);
    SizeRead(line, s, Texts(exts) + end);
    StoredIs(Base16(ds));
  }

  lemma FirstDigit(line: seq<byte>)
    requires Scan(Start, line) == (Done, |line|)
    ensures line != [] && IsDigit(line[0]) && Scan(Digits, line[1..]) == (Done, |line[1..]|)
  {
    Unroll(Start, line);
    Unroll2(Delta(Start, line[0]), line[1..]);
  }

  lemma DigitsRead(b: byte, r: Reading)
    requires IsDigit(b) && r.Ok(Digits)
    ensures AllDigits([b] + r.word) && Form([b] + r.Text(), [b] + r.word, r.exts, r.end) == true
  {
    var more := Texts(r.exts) + r.end;
    assert r.Text() == r.word + more;
    assert [b] + (r.word + more) == ([b] + r.word) + more;
  }

  lemma LineRead(line: seq<byte>) returns (s: seq<byte>, exts: seq<Extension>, end: seq<byte>)
    requires Scan(Start, line) == (Done, |line|)
    ensures AllDigits(s) && Form(line, s, exts, end) == true
  {
    FirstDigit(line);
    var r := WhatWasRead(Digits, line[1..]);
    DigitsRead(line[0], r);
    s, exts, end := [line[0]] + r.word, r.exts, r.end;
    assert line == [line[0]] + line[1..];
  }

  lemma SizeRead(line: seq<byte>, s: seq<byte>, more: seq<byte>)
    requires line == s + more && AllDigits(s) && more != [] && !IsDigit(more[0])
    ensures line[..Width(line)] == s
  {
    WidthOfDigits(s, more);
  }
}
