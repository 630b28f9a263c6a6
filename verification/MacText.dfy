/** Hardware addresses as text (netinfo_common.c). */
module MacText {
  import opened Text
  import opened CBuffer

  type Byte = b: int | 0 <= b < 256

  function HexDigit(n: nat): char
    requires n < 16
  {
    if n < 10 then '0' + n as char else 'a' + (n - 10) as char
  }

  function HexVal(c: char): nat {
    if '0' <= c <= '9' then c as int - '0' as int
    else if 'a' <= c <= 'f' then c as int - 'a' as int + 10
    else 0
  }

  /** `%02x` */
  function Hex(b: Byte): (s: string)
    ensures |s| == 2
  {
    [HexDigit(b / 16), HexDigit(b % 16)]
  }

  /** The bytes in order, two digits each, separated by colons. */
  function Mac(addr: seq<Byte>): string {
    if addr == [] then "" else if |addr| == 1 then Hex(addr[0])
    else Mac(addr[..|addr| - 1]) + ":" + Hex(addr[|addr| - 1])
  }

  /** What stands in front of the last pair and its colon. */
  function Before(s: string): (r: string)
    requires |s| >= 2
    ensures |r| < |s|
  {
    if |s| < 3 then "" else s[..|s| - 3]
  }

  /** Reading back: every third character pair. */
  function Decode(s: string): seq<nat>
    decreases |s|
  {
    if |s| < 2 then [] else
      Decode(Before(s)) + [16 * HexVal(s[|s| - 2]) + HexVal(s[|s| - 1])]
  }

  lemma {:induction false} MacLength(addr: seq<Byte>)
    requires addr != []
    ensures |Mac(addr)| == 3 * |addr| - 1
    ensures '\0' !in Mac(addr)
  {
    if |addr| > 1 {
      MacLength(addr[..|addr| - 1]);
    }
  }

  /** The text determines the address. */
  lemma {:induction false} DecodeMac(addr: seq<Byte>)
    ensures Decode(Mac(addr)) == addr
  {
    if |addr| == 1 {
      DecodeHex("", addr[0]);
      assert "" + Hex(addr[0]) == Hex(addr[0]) && Decode("") == [];
    } else if |addr| > 1 {
      var front, last := addr[..|addr| - 1], addr[|addr| - 1];
      DecodeMac(front);
      MacLength(front);
      DecodeHex(Mac(front) + ":", last);
      assert (Mac(front) + ":")[..|Mac(front)|] == Mac(front);
      assert addr == front + [last];
    }
  }

  /** The last byte behind others and their colon. */
  lemma DecodeHex(before: string, b: Byte)
    ensures Decode(before + Hex(b)) == Decode(if before == "" then "" else before[..|before| - 1]) + [b]
  {
    hide Decode, HexVal, Hex, Before;
    var s := before + Hex(b);
    DecodeLast(s);
    BeforePair(before, Hex(b));
    HexBack(b);
    assert s[|s| - 2] == Hex(b)[0] && s[|s| - 1] == Hex(b)[1];
  }

  lemma DecodeLast(s: string)
    requires |s| >= 2
    ensures Decode(s) == Decode(Before(s)) + [16 * HexVal(s[|s| - 2]) + HexVal(s[|s| - 1])]
  {
  }

  lemma BeforePair(before: string, pair: string)
    requires |pair| == 2
    ensures Before(before + pair) == if before == "" then "" else before[..|before| - 1]
  {
    var s := before + pair;
    assert before != "" ==> s[..|s| - 3] == before[..|before| - 1];
  }

  lemma HexBack(b: Byte)
    ensures 16 * HexVal(Hex(b)[0]) + HexVal(Hex(b)[1]) == b
  {
  }

  /** Different addresses print differently. */
  lemma MacInjective(a: seq<Byte>, b: seq<Byte>)
    requires Mac(a) == Mac(b)
    ensures a == b
  {
    DecodeMac(a);
    DecodeMac(b);
  }

  /** `mac_to_str`: fails for no bytes and for a buffer of fewer than three cells a byte, and
      otherwise fills exactly 3n-1 characters and a NUL, nothing cut off. */
  method MacToStr(addr: seq<Byte>, buf: array<char>) returns (ok: bool)
    modifies buf
    ensures ok <==> addr != [] && 3 * |addr| <= buf.Length
    ensures ok ==> IsCString(buf[..], 0) && StrAt(buf[..], 0) == Mac(addr) && |Mac(addr)| == 3 * |addr| - 1
    ensures !ok ==> buf[..] == old(buf[..])
  {
    if |addr| == 0 {
      return false;
    }
    if (|addr| - 1) * 3 + 2 + 1 > buf.Length {
      return false;
    }
    buf[0] := '\0';
    var i := 0;
    while i < |addr|
      invariant i <= |addr| && IsCString(buf[..], 0) && StrAt(buf[..], 0) == Mac(addr[..i])
    {
      assert addr[..i + 1][..i] == addr[..i] && addr[..i + 1][i] == addr[i];
      AppendText(buf, Mac(addr[..i]), (if i == 0 then "" else ":") + Hex(addr[i])) by {
        MacLength(addr[..i + 1]);
      }
      i := i + 1;
    }
    assert addr[..i] == addr;
    MacLength(addr);
    ok := true;
  }

  /** `snprintf` behind what the buffer holds. */
  method AppendText(buf: array<char>, ghost was: string, text: string)
    requires IsCString(buf[..], 0) && StrAt(buf[..], 0) == was
    requires |was| + |text| < buf.Length && '\0' !in text
    modifies buf
    ensures IsCString(buf[..], 0) && StrAt(buf[..], 0) == was + text
  {
    var len := StrLen(buf, 0);
    StrAtCells(buf[..], 0);
    var n := Snprintf(buf, len, buf.Length - len, text);
    assert text[..n] == text;
    assert buf[..][0..len + n] == was + text;
    StrAtIs(buf[..], 0, len + n);
  }

  /** The text cell by cell: two digits of a byte, the higher first, and a colon between bytes. */
  lemma {:induction false} MacCells(addr: seq<Byte>, i: nat)
    requires i < |addr|
    ensures |Mac(addr)| == 3 * |addr| - 1
    ensures Mac(addr)[3 * i] == "0123456789abcdef"[addr[i] / 16]
    ensures Mac(addr)[3 * i + 1] == "0123456789abcdef"[addr[i] % 16]
    ensures i + 1 < |addr| ==> Mac(addr)[3 * i + 2] == ':'
  {
    MacLength(addr);
    if |addr| == 1 {
      HexDigits(addr[0]);
    } else {
      var front, last := addr[..|addr| - 1], addr[|addr| - 1];
      MacLength(front);
      HexDigits(last);
      if i < |front| {
        MacCells(front, i);
      }
    }
  }

  lemma HexDigits(b: Byte)
    ensures Hex(b)[0] == "0123456789abcdef"[b / 16] && Hex(b)[1] == "0123456789abcdef"[b % 16]
  {
  }
}
