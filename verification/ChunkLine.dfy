/** The chunk-size line of section 4.1 of RFC 7230, as the Chunked_Header rule of the client parser
    reads it from the beginning of a buffer. */
module ChunkLine {
  import opened Common
  import opened Blocks

  const CR: byte := 13
  const LF: byte := 10
  const SEMICOLON: byte := 59
  const EQUALS: byte := 61

  /** The value of a hexadecimal digit, or 16. */
  function Digit(b: byte): (d: nat)
    ensures d <= 16
  {
    HexDigit(b)
  }

  predicate IsDigit(b: byte) {
    Digit(b) < 16
  }

  /** An ASCII character that is neither a control nor one of the separators. */
  predicate IsToken(b: byte) {
    && 32 < b < 127
    && !(b == 34 || 40 <= b <= 41 || b == 44 || b == 47 || 58 <= b <= 64 || 91 <= b <= 93 || b == 123 || b == 125)
  }

  datatype Phase = Start | Digits | NameStart | Name | ValueStart | Value | Return | Done | Failed

  function AfterWord(b: byte): Phase {
    if b == SEMICOLON then NameStart else if b == CR then Return else if b == LF then Done else Failed
  }

  function Delta(p: Phase, b: byte): Phase {
    match p
    case Start => if IsDigit(b) then Digits else Failed
    case Digits => if IsDigit(b) then Digits else AfterWord(b)
    case NameStart => if IsToken(b) then Name else Failed
    case Name => if IsToken(b) then Name else if b == EQUALS then ValueStart else AfterWord(b)
    case ValueStart => if IsToken(b) then Value else Failed
    case Value => if IsToken(b) then Value else AfterWord(b)
    case Return => if b == LF then Done else Failed
    case Done => Done
    case Failed => Failed
  }

  /** Where the machine stops in `s`, and after how many bytes: it goes on until it is done, has failed
      or has used up the bytes. */
  function Scan(p: Phase, s: seq<byte>): (r: (Phase, nat))
    ensures r.1 <= |s|
    ensures !r.0.Done? && !r.0.Failed? ==> r.1 == |s|
    decreases |s|
  {
    if s == [] || p.Done? || p.Failed? then (p, 0)
    else var (q, n) := Scan(Delta(p, s[0]), s[1..]); (q, n + 1)
  }

  /** The number of hexadecimal digits at the front. */
  function Width(s: seq<byte>): (n: nat)
    ensures n <= |s|
    ensures forall i :: 0 <= i < n ==> IsDigit(s[i])
    ensures n < |s| ==> !IsDigit(s[n])
  {
    if s == [] || !IsDigit(s[0]) then 0 else 1 + Width(s[1..])
  }

  function Number(s: seq<byte>): nat
    requires forall i :: 0 <= i < |s| ==> IsDigit(s[i])
  {
    if s == [] then 0 else 16 * Number(s[..|s| - 1]) + Digit(s[|s| - 1])
  }

  const LONG_MAX := 0x7FFF_FFFF_FFFF_FFFF

  /** strtol to the base 16, stored in an int. */
  function Stored(n: nat): int {
    ToInt32(if n <= LONG_MAX then n else LONG_MAX)
  }

  /** What one call of the parser, started afresh, makes of a buffer. */
  datatype Parsed = Incomplete | Bad | Line(size: int, used: nat)

  function Parse(s: seq<byte>): (r: Parsed)
    ensures r.Line? ==> 0 < r.used <= |s|
  {
    var (p, n) := Scan(Start, s);
    if p.Failed? then Bad else if p.Done? then Line(Stored(Number(s[..Width(s)])), n) else Incomplete
  }

  lemma {:induction false} ScanExtends(p: Phase, s: seq<byte>, more: seq<byte>)
    requires Scan(p, s).0.Done? || Scan(p, s).0.Failed?
    ensures Scan(p, s + more) == Scan(p, s)
    decreases |s|
  {
    if s != [] && !p.Done? && !p.Failed? {
      assert (s + more)[1..] == s[1..] + more;
      ScanExtends(Delta(p, s[0]), s[1..], more);
    }
  }

  /** A scan that ends Done at the last byte is unfinished at every earlier one. */
  lemma {:induction false} ScanPrefix(p: Phase, s: seq<byte>, k: nat)
    requires Scan(p, s) == (Done, |s|) && k < |s|
    ensures var q := Scan(p, s[..k]).0; !q.Done? && !q.Failed?
    decreases |s|
  {
    if k > 0 {
      assert s[..k][1..] == s[1..][..k - 1];
      ScanPrefix(Delta(p, s[0]), s[1..], k - 1);
    }
  }

  lemma {:induction false} WidthExtends(s: seq<byte>, more: seq<byte>)
    requires Width(s) < |s|
    ensures Width(s + more) == Width(s)
  {
    if IsDigit(s[0]) {
      assert (s + more)[1..] == s[1..] + more;
      WidthExtends(s[1..], more);
    }
  }

  /** A scan that gets past digits alone has seen another byte. */
  lemma {:induction false} DoneIsNotAllDigits(p: Phase, s: seq<byte>)
    requires p.Start? || p.Digits?
    requires Scan(p, s).0.Done?
    ensures Width(s) < |s|
    decreases |s|
  {
    if IsDigit(s[0]) {
      DoneIsNotAllDigits(Digits, s[1..]);
    }
  }

  /** What follows a complete line does not change how it is read. */
  lemma ParseExtends(s: seq<byte>, more: seq<byte>)
    requires Parse(s).Line?
    ensures Parse(s + more) == Parse(s)
  {
    ScanExtends(Start, s, more);
    DoneIsNotAllDigits(Start, s);
    WidthExtends(s, more);
    assert (s + more)[..Width(s)] == s[..Width(s)];
  }

  /** `line` is one chunk-size line, with nothing after it, for a chunk of `size` bytes. */
  predicate IsLine(line: seq<byte>, size: nat) {
    Parse(line) == Line(size, |line|)
  }

  /** A buffer that agrees with a line followed by anything is read as that line when it holds all of
      it, and is incomplete when it holds a part of it only. */
  lemma ParseOfLine(line: seq<byte>, size: nat, buf: seq<byte>, rest: seq<byte>, after: seq<byte>)
    requires IsLine(line, size) && buf + rest == line + after
    ensures Parse(buf) == if |line| <= |buf| then Line(size, |line|) else Incomplete
    ensures |line| <= |buf| ==> buf[|line|..] + rest == after
  {
    if |line| <= |buf| {
      assert buf[..|line|] == (buf + rest)[..|line|] == line;
      assert buf == line + buf[|line|..];
      ParseExtends(line, buf[|line|..]);
      assert after == (line + after)[|line|..] == (buf + rest)[|line|..];
    } else {
      assert buf == (buf + rest)[..|buf|] == line[..|buf|];
      ScanPrefix(Start, line, |buf|);
    }
  }

  // ---------------------------------------------------------------------------------------------
  // The plain form of a line: the size in hexadecimal and a line end

  function DigitByte(d: nat): (b: byte)
    requires d < 16
    ensures Digit(b) == d
  {
    if d < 10 then 48 + d else 87 + d
  }

  function Hex(n: nat): (s: seq<byte>)
    ensures |s| > 0
    ensures forall i :: 0 <= i < |s| ==> IsDigit(s[i])
  {
    if n < 16 then [DigitByte(n)] else Hex(n / 16) + [DigitByte(n % 16)]
  }

  lemma {:induction false} HexNumber(n: nat)
    ensures Number(Hex(n)) == n
  {
    if n < 16 {
      assert Hex(n)[..0] == [];
    } else {
      HexNumber(n / 16);
      assert Hex(n)[..|Hex(n)| - 1] == Hex(n / 16);
    }
  }

  lemma {:induction false} ScanDigits(p: Phase, s: seq<byte>, more: seq<byte>)
    requires (p.Start? && s != []) || p.Digits?
    requires forall i :: 0 <= i < |s| ==> IsDigit(s[i])
    ensures Scan(p, s + more) == (Scan(Digits, more).0, Scan(Digits, more).1 + |s|)
    decreases |s|
  {
    if s == [] {
      assert s + more == more;
    } else {
      assert (s + more)[1..] == s[1..] + more;
      ScanDigits(Digits, s[1..], more);
    }
  }

  lemma {:induction false} WidthOfDigits(s: seq<byte>, more: seq<byte>)
    requires forall i :: 0 <= i < |s| ==> IsDigit(s[i])
    requires more != [] && !IsDigit(more[0])
    ensures Width(s + more) == |s|
  {
    if s == [] {
      assert s + more == more;
    } else {
      assert (s + more)[1..] == s[1..] + more;
      WidthOfDigits(s[1..], more);
    }
  }

  /** Digits and any ending, with extensions or without, make a line. */
  lemma DigitsLine(s: seq<byte>, ending: seq<byte>)
    requires s != [] && forall i :: 0 <= i < |s| ==> IsDigit(s[i])
    requires ending != [] && !IsDigit(ending[0]) && Scan(Digits, ending) == (Done, |ending|)
    ensures Parse(s + ending) == Line(Stored(Number(s)), |s + ending|)
  {
    ScanDigits(Start, s, ending);
    WidthOfDigits(s, ending);
    assert (s + ending)[..|s|] == s;
  }

  lemma LineEnds()
    ensures Scan(Digits, [CR, LF]) == (Done, 2) && Scan(Digits, [LF]) == (Done, 1)
  {
    assert [CR, LF][1..] == [LF] && [LF][1..] == [];
    assert Scan(Return, [LF]) == (Done, 1);
  }

  /** Every size below 2^31 has its line, ended by CR LF or by LF alone. */
  lemma PlainLine(n: nat)
    requires n < 0x8000_0000
    ensures IsLine(Hex(n) + [CR, LF], n) && IsLine(Hex(n) + [LF], n)
  {
    LineEnds();
    HexLine(n, [CR, LF]);
    HexLine(n, [LF]);
  }

  lemma HexLine(n: nat, ending: seq<byte>)
    requires n < 0x8000_0000
    requires ending != [] && !IsDigit(ending[0]) && Scan(Digits, ending) == (Done, |ending|)
    ensures IsLine(Hex(n) + ending, n)
  {
    SmallStored(n);
    HexNumber(n);
    DigitsLine(Hex(n), ending);
  }

  lemma SmallStored(n: nat)
    requires n < 0x8000_0000
    ensures Stored(n) == n
  {
  }

  /** A line whose digits arrive in two parts: the first part alone is incomplete, and the parser,
      started afresh on the second, reads the number of its digits alone. */
  lemma SplitLine(a: seq<byte>, b: seq<byte>, ending: seq<byte>)
    requires a != [] && b != []
    requires forall i :: 0 <= i < |a| ==> IsDigit(a[i])
    requires forall i :: 0 <= i < |b| ==> IsDigit(b[i])
    requires ending != [] && !IsDigit(ending[0]) && Scan(Digits, ending) == (Done, |ending|)
    ensures Parse(a) == Incomplete
    ensures Parse(b + ending) == Line(Stored(Number(b)), |b + ending|)
    ensures Parse(a + b + ending) == Line(Stored(Number(a + b)), |a + b + ending|)
  {
    ScanDigits(Start, a, []);
    assert a + [] == a;
    DigitsLine(b, ending);
    DigitsLine(a + b, ending);
  }
}
