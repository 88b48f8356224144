/** The text of an IPv6 address, as it is printed, and as section 2.2 of RFC 4291 reads it. */
module Ipv6Text {
  import opened Common
  import opened Blocks

  type word = w: int | 0 <= w < 0x1_0000

  // ---------------------------------------------------------------------------------------------
  // Hexadecimal groups

  /** The value of a hexadecimal digit, or 16. */
  function Digit(c: char): (d: nat)
    ensures d <= 16
    ensures d < 16 ==> c != ':' && c != ']'
  {
    HexDigit(c as int)
  }

  predicate AllDigits(t: string) {
    forall i :: 0 <= i < |t| ==> Digit(t[i]) < 16
  }

  function Number(t: string): nat
    requires AllDigits(t)
  {
    if t == "" then 0 else 16 * Number(t[..|t| - 1]) + Digit(t[|t| - 1])
  }

  function DigitChar(d: nat): (c: char)
    requires d < 16
    ensures Digit(c) == d
  {
    if d < 10 then '0' + d as char else 'a' + (d - 10) as char
  }

  /** std::hex: no leading zeros, lower case. */
  function Hex(n: nat): (t: string)
    ensures t != "" && AllDigits(t)
  {
    if n < 16 then [DigitChar(n)] else Hex(n / 16) + [DigitChar(n % 16)]
  }

  lemma {:induction false} HexNumber(n: nat)
    ensures Number(Hex(n)) == n
  {
    if n < 16 {
      assert Hex(n)[..0] == "";
    } else {
      HexNumber(n / 16);
      assert Hex(n)[..|Hex(n)| - 1] == Hex(n / 16);
    }
  }

  lemma {:induction false} HexWidth(n: nat, k: nat, bound: nat)
    requires n < bound && bound == Sixteen(k) && 0 < k
    ensures |Hex(n)| <= k
    decreases k
  {
    if 16 <= n {
      HexWidth(n / 16, k - 1, Sixteen(k - 1));
    }
  }

  function Sixteen(k: nat): nat {
    if k == 0 then 1 else 16 * Sixteen(k - 1)
  }

  /** A group takes at most four digits. */
  lemma GroupWidth(w: word)
    ensures 1 <= |Hex(w)| <= 4
  {
    assert Sixteen(4) == 0x1_0000 by {
      assert Sixteen(1) == 16 && Sixteen(2) == 256 && Sixteen(3) == 4096;
    }
    HexWidth(w, 4, Sixteen(4));
  }

  // ---------------------------------------------------------------------------------------------
  // Reading, by section 2.2 of RFC 4291

  /** The number of hexadecimal digits at the front. */
  function Width(t: string): (n: nat)
    ensures n <= |t| && AllDigits(t[..n])
    ensures n < |t| ==> Digit(t[n]) == 16
  {
    if t == "" || Digit(t[0]) == 16 then 0 else 1 + Width(t[1..])
  }

  /** The first group of a text: none, the last one, or one with a colon and more text after it. */
  datatype First = NoGroup | Last(group: word) | Then(group: word, rest: string)

  function Cut(t: string): (f: First)
    ensures f.Then? ==> f.rest != "" && |f.rest| < |t|
  {
    var n := Width(t);
    if n < 1 || n > 4 || Number(t[..n]) >= 0x1_0000 then NoGroup
    else if n == |t| then Last(Number(t[..n]))
    else if t[n] != ':' || n + 1 == |t| then NoGroup
    else Then(Number(t[..n]), t[n + 1..])
  }

  /** Groups of one to four hexadecimal digits separated by colons; no text at all is no group. */
  function ReadGroups(t: string): Option<seq<word>>
    decreases |t|
  {
    if t == "" then Some([]) else
    match Cut(t)
    case NoGroup => None
    case Last(w) => Some([w])
    case Then(w, rest) =>
      match ReadGroups(rest)
      case None => None
      case Some(ws) => Some([w] + ws)
  }

  /** A text without "::", or what stands before and after its first "::". */
  datatype Halves = NoGap | Gap(left: string, right: string)

  function Split(t: string): Halves {
    if |t| < 2 then NoGap
    else if t[0] == t[1] == ':' then Gap("", t[2..])
    else
      match Split(t[1..])
      case NoGap => NoGap
      case Gap(l, r) => Gap([t[0]] + l, r)
  }

  function Zeros(n: nat): (z: seq<word>)
    ensures |z| == n && forall i :: 0 <= i < n ==> z[i] == 0
  {
    if n == 0 then [] else Zeros(n - 1) + [0]
  }

  function Whole(ws: Option<seq<word>>): Option<seq<word>> {
    if ws.Some? && |ws.value| == 8 then ws else None
  }

  function Around(l: Option<seq<word>>, r: Option<seq<word>>): Option<seq<word>> {
    if l.Some? && r.Some? && |l.value| + |r.value| < 8
    then Some(l.value + Zeros(8 - |l.value| - |r.value|) + r.value)
    else None
  }

  /** Eight groups, or fewer around one "::" that stands for one or more groups of zeros. */
  function Read(t: string): Option<seq<word>> {
    match Split(t)
    case NoGap => Whole(ReadGroups(t))
    case Gap(l, r) => Around(ReadGroups(l), ReadGroups(r))
  }

  // ---------------------------------------------------------------------------------------------
  // The text that is printed

  /** Groups, each with a colon before it. */
  function Tail(ws: seq<word>): string {
    if ws == [] then "" else ":" + (Hex(ws[0]) + Tail(ws[1..]))
  }

  /** Groups with colons between them. */
  function Join(ws: seq<word>): string {
    if ws == [] then "" else Hex(ws[0]) + Tail(ws[1..])
  }

  /** The number of leading groups that are not zero, and of those that are. */
  function NonZeros(ws: seq<word>): (n: nat)
    ensures n <= |ws|
    ensures n < |ws| ==> ws[n] == 0
    ensures forall i :: 0 <= i < n ==> ws[i] != 0
  {
    if ws == [] || ws[0] == 0 then 0 else 1 + NonZeros(ws[1..])
  }

  function LeadingZeros(ws: seq<word>): (n: nat)
    ensures n <= |ws|
    ensures n < |ws| ==> ws[n] != 0
    ensures forall i :: 0 <= i < n ==> ws[i] == 0
  {
    if ws == [] || ws[0] != 0 then 0 else 1 + LeadingZeros(ws[1..])
  }

  /** The groups before the leftmost run of zeros, "::" for that run, and the groups after it. */
  function Text(ws: seq<word>): string {
    var a := NonZeros(ws);
    if a == |ws| then Join(ws)
    else Join(ws[..a]) + ("::" + Join(ws[a + LeadingZeros(ws[a..])..]))
  }

  // ---------------------------------------------------------------------------------------------
  // Reading the printed text

  lemma {:induction false} WidthOf(t: string, more: string)
    requires AllDigits(t) && (more == "" || Digit(more[0]) == 16)
    ensures Width(t + more) == |t|
  {
    if t == "" {
      assert t + more == more;
    } else {
      assert (t + more)[1..] == t[1..] + more;
      WidthOf(t[1..], more);
    }
  }

  lemma CutOf(h: string, rest: string)
    requires 1 <= |h| <= 4 && AllDigits(h) && Number(h) < 0x1_0000
    ensures Cut(h) == Last(Number(h))
    ensures rest != "" ==> Cut(h + (":" + rest)) == Then(Number(h), rest)
  {
    WidthOf(h, "");
    assert h + "" == h && h[..|h|] == h;
    WidthOf(h, ":" + rest);
    Parts(h, ":", rest);
  }

  lemma HexCut(w: word, rest: string)
    ensures Hex(w) != "" && Cut(Hex(w)) == Last(w)
    ensures rest != "" ==> Cut(Hex(w) + (":" + rest)) == Then(w, rest)
  {
    HexNumber(w);
    GroupWidth(w);
    CutOf(Hex(w), rest);
  }

  lemma ReadLast(t: string, w: word)
    requires t != "" && Cut(t) == Last(w)
    ensures ReadGroups(t) == Some([w])
  {
  }

  lemma ReadThen(t: string, w: word, rest: string, ws: seq<word>)
    requires t != "" && Cut(t) == Then(w, rest) && ReadGroups(rest) == Some(ws)
    ensures ReadGroups(t) == Some([w] + ws)
  {
  }

  lemma JoinStep(w: word, ws: seq<word>)
    requires ws != [] ==> ReadGroups(Join(ws)) == Some(ws)
    ensures ReadGroups(Join([w] + ws)) == Some([w] + ws)
  {
    var t := Join([w] + ws);
    assert t == Hex(w) + Tail(ws) by {
      assert ([w] + ws)[1..] == ws;
    }
    HexCut(w, Join(ws));
    if ws == [] {
      assert t == Hex(w) && [w] + ws == [w];
      ReadLast(t, w);
    } else {
      HexCut(ws[0], "");
      ReadThen(t, w, Join(ws), ws);
    }
  }

  lemma {:induction false} JoinRead(ws: seq<word>)
    ensures ReadGroups(Join(ws)) == Some(ws)
  {
    if ws != [] {
      assert ws == [ws[0]] + ws[1..];
      if |ws| > 1 {
        JoinRead(ws[1..]);
      }
      JoinStep(ws[0], ws[1..]);
    }
  }

  /** No "::" in `t`, and a digit at its end. */
  predicate Plain(t: string) {
    && t != ""
    && if |t| == 1 then Digit(t[0]) < 16 else !(t[0] == t[1] == ':') && Plain(t[1..])
  }

  lemma {:induction false} DigitsPlain(h: string)
    requires h != "" && AllDigits(h)
    ensures Plain(h)
  {
    if |h| > 1 {
      DigitsPlain(h[1..]);
    }
  }

  lemma {:induction false} Glued(h: string, more: string)
    requires h != "" && AllDigits(h) && Plain(more) && Digit(more[0]) < 16
    ensures Plain(h + (":" + more))
  {
    var t := h + (":" + more);
    if |h| == 1 {
      assert t[1..] == ":" + more && (":" + more)[1..] == more;
    } else {
      assert t[1..] == h[1..] + (":" + more);
      Glued(h[1..], more);
    }
  }

  /** Joined groups start and end with a digit and hold no "::". */
  lemma {:induction false} JoinShape(ws: seq<word>)
    requires ws != []
    ensures Plain(Join(ws)) && Digit(Join(ws)[0]) < 16
  {
    DigitsPlain(Hex(ws[0]));
    if |ws| == 1 {
      assert Join(ws) == Hex(ws[0]);
    } else {
      JoinShape(ws[1..]);
      Glued(Hex(ws[0]), Join(ws[1..]));
    }
  }

  /** A plain text before "::" is what stands before the first one. */
  lemma {:induction false} SplitAtGap(s: string, more: string)
    requires s == "" || Plain(s)
    ensures Split(s + ("::" + more)) == Gap(s, more)
  {
    var t := s + ("::" + more);
    if s == "" {
      assert t[2..] == more;
    } else {
      assert t[1..] == s[1..] + ("::" + more);
      SplitAtGap(s[1..], more);
      assert [s[0]] + s[1..] == s;
    }
  }

  lemma {:induction false} SplitPlain(s: string)
    requires Plain(s)
    ensures Split(s) == NoGap
  {
    if |s| >= 2 {
      SplitPlain(s[1..]);
    }
  }

  lemma Parts(a: string, b: string, c: string)
    ensures (a + (b + c))[..|a|] == a && (a + (b + c))[|a| + |b|..] == c
    ensures (a + b) + c == a + (b + c)
  {
  }

  lemma GapRead(s: string, more: string, l: Option<seq<word>>, r: Option<seq<word>>)
    requires (s == "" || Plain(s)) && ReadGroups(s) == l && ReadGroups(more) == r
    ensures Read(s + ("::" + more)) == Around(l, r)
  {
    SplitAtGap(s, more);
  }

  lemma AroundReads(l: seq<word>, r: seq<word>)
    ensures Read(Join(l) + ("::" + Join(r))) == Around(Some(l), Some(r))
  {
    JoinRead(l);
    JoinRead(r);
    if l != [] {
      JoinShape(l);
    }
    GapRead(Join(l), Join(r), Some(l), Some(r));
  }

  lemma PlainRead(s: string, ws: Option<seq<word>>)
    requires Plain(s) && ReadGroups(s) == ws
    ensures Read(s) == Whole(ws)
  {
    SplitPlain(s);
  }

  lemma WholeReads(ws: seq<word>)
    requires ws != []
    ensures Read(Join(ws)) == Whole(Some(ws))
  {
    JoinShape(ws);
    JoinRead(ws);
    PlainRead(Join(ws), Some(ws));
  }

  /** The groups around a run of zeros and the zeros between them are the groups. */
  lemma RunFilled(ws: seq<word>, a: nat, e: nat)
    requires |ws| == 8 && a < e <= 8 && forall i :: a <= i < e ==> ws[i] == 0
    ensures Around(Some(ws[..a]), Some(ws[e..])) == Some(ws)
  {
    assert ws[..a] + Zeros(e - a) + ws[e..] == ws;
  }

  /** The printed text of any eight groups reads back as those groups. */
  lemma TextReads(ws: seq<word>)
    requires |ws| == 8
    ensures Read(Text(ws)) == Some(ws)
  {
    var a := NonZeros(ws);
    if a == 8 {
      WholeReads(ws);
    } else {
      var e := a + LeadingZeros(ws[a..]);
      assert forall i :: a <= i < e ==> ws[i] == ws[a..][i - a];
      AroundReads(ws[..a], ws[e..]);
      RunFilled(ws, a, e);
    }
  }

  // ---------------------------------------------------------------------------------------------
  // The printing loop

  /** What comes before a group: the second half of "::" is the separator of the group after it. */
  function Separator(open: bool, first: bool): string {
    if open then "::" else if first then "" else ":"
  }

  /** What the loop prints from group `i` on, and after the loop. */
  function Emit(ws: seq<word>, i: nat, used: bool): string
    requires |ws| == 8 && i <= 8
    decreases 8 - i
  {
    if i == 8 then (if !used && ws[7] == 0 then "::" else "")
    else if ws[i] == 0 && !used then Emit(ws, i + 1, used)
    else
      var open := i > 0 && ws[i - 1] == 0 && !used;
      Separator(open, i == 0) + (Hex(ws[i]) + Emit(ws, i + 1, used || open))
  }

  lemma {:induction false} EmitRest(ws: seq<word>, i: nat)
    requires |ws| == 8 && 0 < i <= 8
    ensures Emit(ws, i, true) == Tail(ws[i..])
    decreases 8 - i
  {
    if i < 8 {
      EmitRest(ws, i + 1);
      assert ws[i..][1..] == ws[i + 1..];
    }
  }

  /** In the first run of zeros, which ends before group `e`, or just after it. */
  lemma {:induction false} EmitZeros(ws: seq<word>, i: nat, e: nat)
    requires |ws| == 8 && 0 < i <= e <= 8 && ws[i - 1] == 0
    requires (forall k :: i <= k < e ==> ws[k] == 0) && (e < 8 ==> ws[e] != 0)
    ensures Emit(ws, i, false) == "::" + Join(ws[e..])
    decreases 8 - i
  {
    if i == 8 {
      assert ws[8..] == [];
    } else if i < e {
      EmitZeros(ws, i + 1, e);
    } else {
      EmitRest(ws, i + 1);
      assert ws[i..][1..] == ws[i + 1..];
    }
  }

  /** Among the groups before the first zero. */
  lemma {:induction false} EmitLead(ws: seq<word>, i: nat, a: nat)
    requires |ws| == 8 && a == NonZeros(ws) && 0 < i <= a
    ensures Emit(ws, i, false) == Tail(ws[i..a]) + Emit(ws, a, false)
    decreases 8 - i
  {
    if i == a {
      assert ws[i..a] == [];
    } else {
      EmitLead(ws, i + 1, a);
      assert ws[i..a][1..] == ws[i + 1..a];
      Parts(Hex(ws[i]), Tail(ws[i + 1..a]), Emit(ws, a, false));
      Parts(":", Hex(ws[i]) + Tail(ws[i + 1..a]), Emit(ws, a, false));
    }
  }

  /** From the first zero on. */
  lemma EmitFromZero(ws: seq<word>, a: nat, e: nat)
    requires |ws| == 8 && a < 8 && ws[a] == 0 && e == a + LeadingZeros(ws[a..])
    ensures Emit(ws, a, false) == "::" + Join(ws[e..])
  {
    assert forall i :: a <= i < e ==> ws[i] == ws[a..][i - a];
    EmitZeros(ws, a + 1, e);
  }

  lemma EmitStart(ws: seq<word>, a: nat)
    requires |ws| == 8 && a == NonZeros(ws)
    ensures Emit(ws, 0, false) == Join(ws[..a]) + Emit(ws, a, false)
  {
    if a > 0 {
      EmitLead(ws, 1, a);
      assert ws[..a][1..] == ws[1..a];
      Parts(Hex(ws[0]), Tail(ws[1..a]), Emit(ws, a, false));
    }
  }

  /** The loop prints the text. */
  lemma EmitIsText(ws: seq<word>)
    requires |ws| == 8
    ensures Emit(ws, 0, false) == Text(ws)
  {
    var a := NonZeros(ws);
    EmitStart(ws, a);
    if a < 8 {
      EmitFromZero(ws, a, a + LeadingZeros(ws[a..]));
    } else {
      assert ws[..8] == ws && Join(ws) + "" == Join(ws);
    }
  }

  // ---------------------------------------------------------------------------------------------
  // From the bytes of the address

  /** byteswap of a 16-bit number. */
  function Swap(w: word): word {
    w % 256 * 256 + w / 256
  }

  /** The number of two bytes, the first one the higher. */
  function Big(b: byte, c: byte): word {
    256 * (b as int) + c as int
  }

  /** Two bytes of memory, as a machine of either byte order loads them. */
  function Load(b: byte, c: byte, little: bool): word {
    if little then Big(c, b) else Big(b, c)
  }

  /** byteswapOnLittleEndian. */
  function OnLittle(w: word, little: bool): word {
    if little then Swap(w) else w
  }

  /** The number printed for two bytes does not depend on the machine. */
  lemma LoadedIs(b: byte, c: byte, little: bool)
    ensures OnLittle(Load(b, c, little), little) == Big(b, c)
    ensures Load(b, c, little) == 0 <==> Big(b, c) == 0
  {
  }

  function Groups(a: seq<byte>): (ws: seq<word>)
    requires |a| == 16
    ensures |ws| == 8
    ensures forall i :: 0 <= i < 8 ==> ws[i] == Big(a[2 * i], a[2 * i + 1])
  {
    seq(8, i requires 0 <= i < 8 => Big(a[2 * i], a[2 * i + 1]))
  }

  lemma GroupsDiffer(a: seq<byte>, b: seq<byte>)
    requires |a| == |b| == 16 && Groups(a) == Groups(b)
    ensures a == b
  {
    forall k | 0 <= k < 16 ensures a[k] == b[k] {
      var i := k / 2;
      assert Groups(a)[i] == Big(a[2 * i], a[2 * i + 1]);
      assert Groups(b)[i] == Big(b[2 * i], b[2 * i + 1]);
      assert k == 2 * i || k == 2 * i + 1;
    }
  }

  /** Decimal digits, and the number they stand for. */
  function Decimal(n: nat): (t: string)
    ensures t != "" && AllDigits(t)
  {
    if n < 10 then [DigitChar(n)] else Decimal(n / 10) + [DigitChar(n % 10)]
  }

  function DecimalNumber(t: string): nat
    requires AllDigits(t)
  {
    if t == "" then 0 else 10 * DecimalNumber(t[..|t| - 1]) + Digit(t[|t| - 1])
  }

  lemma {:induction false} DecimalReads(n: nat)
    ensures DecimalNumber(Decimal(n)) == n
  {
    if n < 10 {
      assert Decimal(n)[..0] == "";
    } else {
      DecimalReads(n / 10);
      assert Decimal(n)[..|Decimal(n)| - 1] == Decimal(n / 10);
    }
  }

  /** The text of an address and a port. */
  function Printed(a: seq<byte>, port: word): string
    requires |a| == 16
  {
    "[" + (Text(Groups(a)) + ("]:" + Decimal(port)))
  }

  /** One turn of the printing loop. */
  method PrintGroup(os: string, a: seq<byte>, i: nat, usedZero: bool, little: bool, ghost goal: string)
    returns (out: string, used: bool)
    requires |a| == 16 && i < 8 && os + Emit(Groups(a), i, usedZero) == goal
    ensures out + Emit(Groups(a), i + 1, used) == goal
  {
    out, used := os, usedZero;
    var here := Load(a[2 * i], a[2 * i + 1], little);
    LoadedIs(a[2 * i], a[2 * i + 1], little);
    if here == 0 && !usedZero {
      return;
    }
    var open := false;
    if i > 0 {
      LoadedIs(a[2 * (i - 1)], a[2 * (i - 1) + 1], little);
      open := Load(a[2 * (i - 1)], a[2 * (i - 1) + 1], little) == 0 && !usedZero;
    }
    var before := "";
    if open {
      before := before + ":";
      used := true;
    }
    if i > 0 {
      before := before + ":";
    }
    var text := Hex(OnLittle(here, little));
    out := out + before + text;
    assert before == Separator(open, i == 0);
    Parts(before, text, Emit(Groups(a), i + 1, used));
    Parts(os, before, text);
    Parts(os, before + text, Emit(Groups(a), i + 1, used));
  }

  /** The printing loop. */
  method PrintLoop(a: seq<byte>, little: bool, ghost goal: string) returns (os: string, used: bool)
    requires |a| == 16 && goal == Emit(Groups(a), 0, false)
    ensures os + Emit(Groups(a), 8, used) == goal
  {
    os, used := "", false;
    var i := 0;
    while i < 8
      invariant 0 <= i <= 8
      invariant os + Emit(Groups(a), i, used) == goal
    {
      os, used := PrintGroup(os, a, i, used, little, goal);
      i := i + 1;
    }
  }

  /** The printing loop and the test after it. */
  method PrintGroups(a: seq<byte>, little: bool) returns (os: string)
    requires |a| == 16
    ensures os == Text(Groups(a))
  {
    var used;
    os, used := PrintLoop(a, little, Emit(Groups(a), 0, false));
    LoadedIs(a[14], a[15], little);
    os := os + (if !used && Load(a[14], a[15], little) == 0 then "::" else "");
    EmitIsText(Groups(a));
  }

  /** The insertion of an address into a stream, on a machine of either byte order. */
  method Insert(a: seq<byte>, portHigh: byte, portLow: byte, little: bool) returns (os: string)
    requires |a| == 16
    ensures os == Printed(a, Big(portHigh, portLow))
  {
    var text := PrintGroups(a, little);
    LoadedIs(portHigh, portLow, little);
    os := "[" + (text + ("]:" + Decimal(OnLittle(Load(portHigh, portLow, little), little))));
  }

  /** The characters of the text of an address. */
  predicate NoBracket(t: string) {
    forall i :: 0 <= i < |t| ==> t[i] != ']'
  }

  lemma {:induction false} TailPlain(ws: seq<word>)
    ensures NoBracket(Tail(ws)) && NoBracket(Join(ws))
  {
    if ws != [] {
      TailPlain(ws[1..]);
    }
  }

  lemma TextPlain(ws: seq<word>)
    ensures NoBracket(Text(ws))
  {
    TailPlain(ws);
    TailPlain(ws[..NonZeros(ws)]);
    if NonZeros(ws) < |ws| {
      TailPlain(ws[NonZeros(ws) + LeadingZeros(ws[NonZeros(ws)..])..]);
    }
  }

  /** Two texts that agree up to and with a bracket have the same part before it. */
  lemma SameBefore(s: string, t: string, x: string, y: string)
    requires NoBracket(s) && NoBracket(t) && s + ("]:" + x) == t + ("]:" + y)
    ensures s == t && x == y
  {
    var u, v := s + ("]:" + x), t + ("]:" + y);
    assert u[|s|] == ']' && v[|t|] == ']';
    assert u[..|s|] == s && v[..|t|] == t;
    assert u[|s| + 2..] == x && v[|t| + 2..] == y;
  }

  /** Different addresses or ports have different texts. */
  lemma PrintingIsInjective(a: seq<byte>, p: word, b: seq<byte>, q: word)
    requires |a| == |b| == 16 && Printed(a, p) == Printed(b, q)
    ensures a == b && p == q
  {
    var s, t := Text(Groups(a)), Text(Groups(b));
    assert s + ("]:" + Decimal(p)) == Printed(a, p)[1..] == Printed(b, q)[1..] == t + ("]:" + Decimal(q));
    TextPlain(Groups(a));
    TextPlain(Groups(b));
    SameBefore(s, t, Decimal(p), Decimal(q));
    TextReads(Groups(a));
    TextReads(Groups(b));
    GroupsDiffer(a, b);
    DecimalReads(p);
    DecimalReads(q);
  }
}
