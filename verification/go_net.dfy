/**
 * `net.ParseMAC` and `net.HardwareAddr.String`: the colon/dash form
 * (`0a:55:44:33:22:11`), the dotted form (`0a55.4433.2211`), each for 6, 8
 * or 20 octets, and the lower-case colon form when printing.
 */
module GoNet {
  import opened GoTypes

  /** Lower-case hexadecimal digit of `n`: the character at `n` in `0123456789abcdef`. */
  function HexDigit(n: nat): char
    requires n < 16
  {
    if n < 10 then ('0' as int + n) as char else ('a' as int + n - 10) as char
  }

  /** A digit is one of the characters of a printed address, and not its separator. */
  lemma HexDigitChar(n: nat)
    requires n < 16
    ensures MacChar(HexDigit(n)) && HexDigit(n) != ':'
  {
  }

  /** The two-digit lower-case hexadecimal form of an octet. */
  function Hex2(b: uint8): string {
    [HexDigit(b as int / 16), HexDigit(b as int % 16)]
  }

  /** `HardwareAddr.String`: two hex digits per octet, joined by `:`; "" for no octets. */
  function MacString(a: seq<uint8>): (r: string)
    ensures |r| == if a == [] then 0 else 3 * |a| - 1
  {
    if a == [] then ""
    else if |a| == 1 then Hex2(a[0])
    else Hex2(a[0]) + ":" + MacString(a[1..])
  }

  /** Value of a hexadecimal digit of either case (the digits `xtoi` accepts). */
  function HexValue(c: char): Option<nat> {
    if '0' <= c <= '9' then Some(c as int - '0' as int)
    else if 'a' <= c <= 'f' then Some(c as int - 'a' as int + 10)
    else if 'A' <= c <= 'F' then Some(c as int - 'A' as int + 10)
    else None
  }

  /** The octet spelled by two hexadecimal digits (`xtoi2` without its separator check). */
  function Octet(hi: char, lo: char): (r: Option<uint8>)
    ensures r.Some? <==> HexValue(hi).Some? && HexValue(lo).Some?
  {
    match (HexValue(hi), HexValue(lo))
    case (Some(h), Some(l)) =>
      assert h < 16 && l < 16;
      Some((h * 16 + l) as uint8)
    case _ => None
  }

  /** Octets of `xx<sep>xx<sep>...xx`, every separator being `sep`. */
  function ParseSeparated(s: string, sep: char): (r: Option<seq<uint8>>)
    requires |s| % 3 == 2
    ensures r.Some? ==> |r.value| == (|s| + 1) / 3
    decreases |s|
  {
    var b := Octet(s[0], s[1]);
    if b.None? then None
    else if |s| == 2 then Some([b.value])
    else if s[2] != sep then None
    else
      match ParseSeparated(s[3..], sep)
      case None => None
      case Some(rest) => Some([b.value] + rest)
  }

  /** Octets of `xxxx.xxxx...xxxx`. */
  function ParseDotted(s: string): (r: Option<seq<uint8>>)
    requires |s| % 5 == 4
    ensures r.Some? ==> |r.value| == 2 * (|s| + 1) / 5
    decreases |s|
  {
    var b0 := Octet(s[0], s[1]);
    var b1 := Octet(s[2], s[3]);
    if b0.None? || b1.None? then None
    else if |s| == 4 then Some([b0.value, b1.value])
    else if s[4] != '.' then None
    else
      match ParseDotted(s[5..])
      case None => None
      case Some(rest) => Some([b0.value, b1.value] + rest)
  }

  predicate ValidLength(n: nat) {
    n == 6 || n == 8 || n == 20
  }

  /** `net.ParseMAC`. */
  function ParseMac(s: string): (r: Option<seq<uint8>>)
    ensures r.Some? ==> ValidLength(|r.value|)
  {
    if |s| < 14 then None
    else if s[2] == ':' || s[2] == '-' then
      if (|s| + 1) % 3 != 0 || !ValidLength((|s| + 1) / 3) then None
      else ParseSeparated(s, s[2])
    else if s[4] == '.' then
      if (|s| + 1) % 5 != 0 || !ValidLength(2 * (|s| + 1) / 5) then None
      else ParseDotted(s)
    else None
  }

  /** An empty address prints as "", and only an empty one does. */
  lemma MacStringEmpty(a: seq<uint8>)
    ensures MacString(a) == "" <==> a == []
  {
  }

  /** A character of a printed address: a lower-case hexadecimal digit or the colon. */
  predicate MacChar(c: char) {
    c == ':' || '0' <= c <= '9' || 'a' <= c <= 'f'
  }

  /** A printed address holds only digits and colons, and a non-empty one starts and ends with a digit. */
  lemma {:induction false} MacStringChars(a: seq<uint8>)
    ensures forall k :: 0 <= k < |MacString(a)| ==> MacChar(MacString(a)[k])
    ensures a != [] ==> MacString(a)[0] != ':' && MacString(a)[|MacString(a)| - 1] != ':'
  {
    if a != [] {
      var h := Hex2(a[0]);
      HexDigitChar(a[0] as int / 16);
      HexDigitChar(a[0] as int % 16);
      if |a| > 1 {
        MacStringChars(a[1..]);
        var r := MacString(a[1..]);
        var s := h + ":" + r;
        assert MacString(a) == s;
        forall k | 0 <= k < |s| ensures MacChar(s[k]) {
          if k >= 3 {
            assert s[k] == r[k - 3];
          }
        }
        assert s[|s| - 1] == r[|r| - 1];
      }
    }
  }

  /** The two printed digits of an octet read back as that octet. */
  lemma OctetHex2(b: uint8)
    ensures Octet(Hex2(b)[0], Hex2(b)[1]) == Some(b)
  {
    var h := b as int / 16;
    var l := b as int % 16;
    assert HexValue(HexDigit(h)) == Some(h) by {
      assert "0123456789abcdef"[h] as int == if h < 10 then '0' as int + h else 'a' as int + h - 10;
    }
    assert HexValue(HexDigit(l)) == Some(l) by {
      assert "0123456789abcdef"[l] as int == if l < 10 then '0' as int + l else 'a' as int + l - 10;
    }
  }

  /** The colon parser reads one more octet in front of a separator. */
  lemma ParseSeparatedCons(h: string, sep: char, r: string, b: uint8, rest: seq<uint8>)
    requires |h| == 2 && Octet(h[0], h[1]) == Some(b)
    requires |r| % 3 == 2 && ParseSeparated(r, sep) == Some(rest)
    ensures ParseSeparated(h + [sep] + r, sep) == Some([b] + rest)
  {
    var s := h + [sep] + r;
    assert s[0] == h[0] && s[1] == h[1] && s[2] == sep;
    assert s[3..] == r;
  }

  /** A non-empty printed address has the length the colon parser wants. */
  lemma MacStringLength(a: seq<uint8>)
    requires a != []
    ensures |MacString(a)| % 3 == 2
  {
    var q := |a| - 1;
    assert |MacString(a)| == 3 * q + 2;
  }

  /** The printed form of a non-empty address is read back by the colon parser. */
  lemma {:induction false} ParseSeparatedMacString(a: seq<uint8>)
    requires a != []
    ensures |MacString(a)| % 3 == 2
    ensures ParseSeparated(MacString(a), ':') == Some(a)
  {
    MacStringLength(a);
    var h := Hex2(a[0]);
    OctetHex2(a[0]);
    if |a| == 1 {
      assert MacString(a) == h;
      assert a == [a[0]];
    } else {
      var r := MacString(a[1..]);
      ParseSeparatedMacString(a[1..]);
      assert MacString(a) == h + [':'] + r;
      ParseSeparatedCons(h, ':', r, a[0], a[1..]);
      assert [a[0]] + a[1..] == a;
    }
  }

  /** Printing an address of a length `ParseMAC` accepts and parsing it again is the identity. */
  lemma ParseMacString(a: seq<uint8>)
    requires ValidLength(|a|)
    ensures ParseMac(MacString(a)) == Some(a)
  {
    ParseSeparatedMacString(a);
    var s := MacString(a);
    var n := |a|;
    assert |s| == 3 * n - 1;
    assert (|s| + 1) % 3 == 0 && (|s| + 1) / 3 == n by {
      assert |s| + 1 == 3 * n;
    }
    assert s == Hex2(a[0]) + ":" + MacString(a[1..]);
    assert s[2] == ':';
    assert ParseMac(s) == ParseSeparated(s, ':');
  }

  /** The address of the decoder's test descriptor prints as it is written there. */
  lemma MacStringExample()
    ensures MacString([0x0a, 0x55, 0x44, 0x33, 0x22, 0x11]) == "0a:55:44:33:22:11"
  {
    var a: seq<uint8> := [0x0a, 0x55, 0x44, 0x33, 0x22, 0x11];
    var s := MacString(a);
    assert |s| == 17;
    assert s[..2] == "0a" && s[2] == ':' && s[3..] == MacString(a[1..]);
  }

  /** The colon spelling of an address. */
  lemma ParseMacColon()
    ensures ParseMac("0a:55:44:33:22:11") == Some([0x0a, 0x55, 0x44, 0x33, 0x22, 0x11])
  {
    MacStringExample();
    ParseMacString([0x0a, 0x55, 0x44, 0x33, 0x22, 0x11]);
  }

  /** The dash spelling, with upper-case digits, gives the same octets. */
  lemma ParseMacDash()
    ensures ParseMac("0A-55-44-33-22-11") == Some([0x0a, 0x55, 0x44, 0x33, 0x22, 0x11])
  {
    var s := "0A-55-44-33-22-11";
    var a: seq<uint8> := [0x0a, 0x55, 0x44, 0x33, 0x22, 0x11];
    assert ParseSeparated(s[15..], '-') == Some(a[5..]) by {
      assert s[15..] == "11" && Octet('1', '1') == Some(0x11) && a[5..] == [0x11];
    }
    assert ParseSeparated(s[12..], '-') == Some(a[4..]) by {
      var t := s[12..];
      assert t[3..] == s[15..] && t[0] == '2' && t[1] == '2' && t[2] == '-';
      assert Octet('2', '2') == Some(0x22) && a[4..] == [0x22] + a[5..];
    }
    assert ParseSeparated(s[9..], '-') == Some(a[3..]) by {
      var t := s[9..];
      assert t[3..] == s[12..] && t[0] == '3' && t[1] == '3' && t[2] == '-';
      assert Octet('3', '3') == Some(0x33) && a[3..] == [0x33] + a[4..];
    }
    assert ParseSeparated(s[6..], '-') == Some(a[2..]) by {
      var t := s[6..];
      assert t[3..] == s[9..] && t[0] == '4' && t[1] == '4' && t[2] == '-';
      assert Octet('4', '4') == Some(0x44) && a[2..] == [0x44] + a[3..];
    }
    assert ParseSeparated(s[3..], '-') == Some(a[1..]) by {
      var t := s[3..];
      assert t[3..] == s[6..] && t[0] == '5' && t[1] == '5' && t[2] == '-';
      assert Octet('5', '5') == Some(0x55) && a[1..] == [0x55] + a[2..];
    }
    assert ParseSeparated(s, '-') == Some(a) by {
      assert s[0] == '0' && s[1] == 'A' && s[2] == '-';
      assert Octet('0', 'A') == Some(0x0a) && a == [0x0a] + a[1..];
    }
  }

  /** The dotted spelling gives the same octets. */
  lemma ParseMacDotted()
    ensures ParseMac("0a55.4433.2211") == Some([0x0a, 0x55, 0x44, 0x33, 0x22, 0x11])
  {
    var s := "0a55.4433.2211";
    var a: seq<uint8> := [0x0a, 0x55, 0x44, 0x33, 0x22, 0x11];
    assert ParseDotted(s[10..]) == Some(a[4..]) by {
      var t := s[10..];
      assert t == "2211" && t[0] == '2' && t[1] == '2' && t[2] == '1' && t[3] == '1';
      assert Octet('2', '2') == Some(0x22) && Octet('1', '1') == Some(0x11) && a[4..] == [0x22, 0x11];
    }
    assert ParseDotted(s[5..]) == Some(a[2..]) by {
      var t := s[5..];
      assert t[5..] == s[10..] && t[0] == '4' && t[1] == '4' && t[2] == '3' && t[3] == '3' && t[4] == '.';
      assert Octet('4', '4') == Some(0x44) && Octet('3', '3') == Some(0x33) && a[2..] == [0x44, 0x33] + a[4..];
    }
    assert ParseDotted(s) == Some(a) by {
      assert s[0] == '0' && s[1] == 'a' && s[2] == '5' && s[3] == '5' && s[4] == '.';
      assert Octet('0', 'a') == Some(0x0a) && Octet('5', '5') == Some(0x55) && a == [0x0a, 0x55] + a[2..];
    }
  }

  /** Five octets, or mixed separators, are refused. */
  lemma ParseMacRejects()
    ensures ParseMac("0a:55:44:33:22") == None
    ensures ParseMac("0a:55-44:33:22:11") == None
  {
    var s := "0a:55-44:33:22:11";
    assert s[3..] == "55-44:33:22:11";
  }
}
