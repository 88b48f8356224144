/** A reader for the whole printed text of an IPv6 address and port: brackets, groups and a decimal port. */
module Ipv6Reader {
  import opened Common
  import opened Blocks
  import opened Ipv6Text

  /** How many characters stand before the first closing bracket. */
  function Bracket(t: string): (n: nat)
    ensures n <= |t|
  {
    if t == "" || t[0] == ']' then 0 else 1 + Bracket(t[1..])
  }

  predicate Decimals(t: string) {
    t != "" && forall i :: 0 <= i < |t| ==> '0' <= t[i] <= '9'
  }

  /** The number with these decimal digits. */
  function PortOf(t: string): nat
    requires forall i :: 0 <= i < |t| ==> '0' <= t[i] <= '9'
  {
    if t == "" then 0 else 10 * PortOf(t[..|t| - 1]) + (t[|t| - 1] as int - '0' as int)
  }

  /** The sixteen bytes of eight groups, the higher byte of each first. */
  function BytesOf(ws: seq<word>): seq<byte>
    requires |ws| == 8
  {
    seq(16, k requires 0 <= k < 16 => if k % 2 == 0 then ws[k / 2] / 256 else ws[k / 2] % 256)
  }

  /** "[" groups "]:" port, with the groups read by section 2.2 of RFC 4291. */
  function ReadAddress(t: string): Option<(seq<byte>, nat)> {
    if t == "" || t[0] != '[' then None else
    var k := 1 + Bracket(t[1..]);
    if |t| < k + 2 || t[k] != ']' || t[k + 1] != ':' || !Decimals(t[k + 2..]) then None else
    match Read(t[1..k])
    case None => None
    case Some(ws) => if |ws| == 8 then Some((BytesOf(ws), PortOf(t[k + 2..]))) else None
  }

  lemma {:induction false} BracketAt(s: string, more: string)
    requires NoBracket(s)
    ensures Bracket(s + ("]" + more)) == |s|
  {
    if s == "" {
      assert s + ("]" + more) == "]" + more;
    } else {
      assert (s + ("]" + more))[1..] == s[1..] + ("]" + more);
      BracketAt(s[1..], more);
    }
  }

  lemma GroupsBack(a: seq<byte>)
    requires |a| == 16
    ensures BytesOf(Groups(a)) == a
  {
    forall k | 0 <= k < 16 ensures BytesOf(Groups(a))[k] == a[k] {
      var i := k / 2;
      assert Groups(a)[i] == Big(a[2 * i], a[2 * i + 1]);
      HighLow(a[2 * i], a[2 * i + 1]);
      assert k == 2 * i || k == 2 * i + 1;
    }
  }

  lemma HighLow(b: byte, c: byte)
    ensures Big(b, c) / 256 == b && Big(b, c) % 256 == c
  {
  }

  lemma {:induction false} DecimalRead(n: nat)
    ensures Decimals(Decimal(n)) && PortOf(Decimal(n)) == n
    ensures |Decimal(n)| > 1 ==> Decimal(n)[0] != '0'
  {
    var t := Decimal(n);
    if n < 10 {
      assert t[..0] == "";
    } else {
      DecimalRead(n / 10);
      assert t[..|t| - 1] == Decimal(n / 10);
      if n < 100 {
        assert t[0] == DigitChar(n / 10);
      }
    }
  }

  lemma Layout(text: string, port: string)
    requires NoBracket(text)
    ensures var t := "[" + (text + ("]:" + port)); var k := 1 + Bracket(t[1..]);
            k + 2 <= |t| && t[0] == '[' && t[k] == ']' && t[k + 1] == ':' && t[1..k] == text && t[k + 2..] == port
  {
    var t := "[" + (text + ("]:" + port));
    assert t[1..] == text + ("]" + (":" + port));
    BracketAt(text, ":" + port);
  }

  lemma PartsRead(text: string, port: string, ws: Option<seq<word>>, n: nat)
    requires NoBracket(text) && Read(text) == ws && ws.Some? && |ws.value| == 8 && Decimals(port) && PortOf(port) == n
    ensures ReadAddress("[" + (text + ("]:" + port))) == Some((BytesOf(ws.value), n))
  {
    Layout(text, port);
  }

  /** Whatever is printed for an address and a port reads back as that address and port. */
  lemma PrintedReads(a: seq<byte>, port: word)
    requires |a| == 16
    ensures ReadAddress(Printed(a, port)) == Some((a, port))
  {
    var ws := Groups(a);
    TextPlain(ws);
    TextReads(ws);
    DecimalRead(port);
    PartsRead(Text(ws), Decimal(port), Some(ws), port);
    GroupsBack(a);
  }

  const HEX := "0123456789abcdef"

  /** The groups are printed in lower case and without leading zeros. */
  lemma {:induction false} HexIsPlain(n: nat)
    ensures forall i :: 0 <= i < |Hex(n)| ==> Hex(n)[i] in HEX
    ensures |Hex(n)| > 1 ==> Hex(n)[0] != '0'
  {
    if n < 16 {
      DigitPlain(n);
    } else {
      HexIsPlain(n / 16);
      DigitPlain(n % 16);
      DigitPlain(n / 16 % 16);
      if n < 256 {
        assert Hex(n / 16) == [DigitChar(n / 16)];
      }
    }
  }

  lemma DigitPlain(d: nat)
    requires d < 16
    ensures DigitChar(d) in HEX && (d > 0 ==> DigitChar(d) != '0')
  {
    assert DigitChar(d) == HEX[d];
  }
}
