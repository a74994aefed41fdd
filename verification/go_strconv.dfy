/**
 * `strconv.ParseInt(s, 0, 32)` as the descriptor decoder calls it (base
 * taken from the prefix, result within 32 bits), and `strconv.Itoa` for the
 * other direction.
 */
module GoStrconv {
  import opened GoTypes

  /** Go's `lower` on ASCII letters (the only characters it is compared against). */
  function Lower(c: char): char {
    if 'A' <= c <= 'Z' then (c as int + 32) as char else c
  }

  /** Value of a digit in bases up to 36: `0`-`9`, then letters of either case. */
  function DigitValue(c: char): Option<nat> {
    if '0' <= c <= '9' then Some(c as int - '0' as int)
    else if 'a' <= Lower(c) <= 'z' then Some(Lower(c) as int - 'a' as int + 10)
    else None
  }

  /** The base that `ParseUint` picks for base 0, and the digits left after the prefix. */
  function BaseAndDigits(s: string): (nat, string)
    requires s != []
  {
    if s[0] == '0' then
      if |s| >= 3 && Lower(s[1]) == 'b' then (2, s[2..])
      else if |s| >= 3 && Lower(s[1]) == 'o' then (8, s[2..])
      else if |s| >= 3 && Lower(s[1]) == 'x' then (16, s[2..])
      else (8, s[1..])
    else (10, s)
  }

  /** Every character is an underscore or a digit below `base`. */
  predicate DigitsOK(ds: string, base: nat) {
    forall k :: 0 <= k < |ds| ==>
      ds[k] == '_' || (DigitValue(ds[k]).Some? && DigitValue(ds[k]).value < base)
  }

  /** The number the digits spell in `base`, underscores skipped. */
  function DigitsValue(ds: string, base: nat): nat
    requires DigitsOK(ds, base)
  {
    if ds == [] then 0
    else
      var last := ds[|ds| - 1];
      var init := ds[..|ds| - 1];
      assert DigitsOK(init, base) by {
        forall k | 0 <= k < |init|
          ensures init[k] == '_' || (DigitValue(init[k]).Some? && DigitValue(init[k]).value < base)
        {
          assert init[k] == ds[k];
        }
      }
      if last == '_' then DigitsValue(init, base)
      else DigitsValue(init, base) * base + DigitValue(last).value
  }

  /** What `underscoreOK` has last seen. */
  datatype Saw = Start | Digit | Underscore | Other

  /** The scanning loop of `underscoreOK`; `None` where it returns false. */
  function ScanUnderscores(s: string, hex: bool, saw: Saw): Option<Saw> {
    if s == [] then Some(saw)
    else if '0' <= s[0] <= '9' || (hex && 'a' <= Lower(s[0]) <= 'f') then
      ScanUnderscores(s[1..], hex, Digit)
    else if s[0] == '_' then
      if saw != Digit then None else ScanUnderscores(s[1..], hex, Underscore)
    else if saw == Underscore then None
    else ScanUnderscores(s[1..], hex, Other)
  }

  /** `underscoreOK`: underscores only between digits, or between a base prefix and a digit. */
  predicate UnderscoreOK(s: string) {
    var t := if |s| >= 1 && (s[0] == '-' || s[0] == '+') then s[1..] else s;
    var prefixed := |t| >= 2 && t[0] == '0' && (Lower(t[1]) == 'b' || Lower(t[1]) == 'o' || Lower(t[1]) == 'x');
    var scan := if prefixed then ScanUnderscores(t[2..], Lower(t[1]) == 'x', Digit)
                else ScanUnderscores(t, false, Start);
    scan.Some? && scan.value != Underscore
  }

  /** `strconv.ParseUint(s, 0, 32)`: syntax and range errors both give `None`. */
  function ParseUint32(s: string): (r: Option<nat>)
    ensures r.Some? ==> r.value <= 0xFFFF_FFFF
  {
    if s == [] then None
    else
      var (base, ds) := BaseAndDigits(s);
      if !DigitsOK(ds, base) then None
      else if '_' in ds && !UnderscoreOK(s) then None
      else if DigitsValue(ds, base) > 0xFFFF_FFFF then None
      else Some(DigitsValue(ds, base))
  }

  /** `strconv.ParseInt(s, 0, 32)`: an optional sign, then `ParseUint32`, then the signed range check. */
  function ParseInt(s: string): (r: Option<int>)
    ensures r.Some? ==> -0x8000_0000 <= r.value < 0x8000_0000
  {
    if s == [] then None
    else
      var neg := s[0] == '-';
      var body := if s[0] == '+' || s[0] == '-' then s[1..] else s;
      match ParseUint32(body)
      case None => None
      case Some(un) =>
        if !neg && un >= 0x8000_0000 then None
        else if neg && un > 0x8000_0000 then None
        else Some(if neg then -(un as int) else un as int)
  }

  /** The decimal digits of `n`, most significant first, no leading zero. */
  function Decimal(n: nat): (r: string)
    ensures r != []
    ensures forall k :: 0 <= k < |r| ==> '0' <= r[k] <= '9'
    ensures r[0] == '0' ==> n == 0
  {
    if n < 10 then [('0' as int + n) as char]
    else Decimal(n / 10) + [('0' as int + n % 10) as char]
  }

  /** `strconv.Itoa`. */
  function FormatInt(v: int): string {
    if v < 0 then "-" + Decimal(-v) else Decimal(v)
  }

  /** `Itoa` prints only digits and a leading minus sign, and always ends with a digit. */
  lemma FormatIntChars(v: int)
    ensures FormatInt(v) != []
    ensures forall k :: 0 <= k < |FormatInt(v)| ==> ('0' <= FormatInt(v)[k] <= '9' || (k == 0 && FormatInt(v)[k] == '-'))
    ensures '0' <= FormatInt(v)[|FormatInt(v)| - 1] <= '9'
  {
    if v < 0 {
      var d := Decimal(-v);
      assert forall k :: 1 <= k < |"-" + d| ==> ("-" + d)[k] == d[k - 1];
    }
  }

  /** The decimal digits of `n` read back in base 10 give `n`. */
  lemma {:induction false} DecimalValue(n: nat)
    ensures DigitsOK(Decimal(n), 10)
    ensures DigitsValue(Decimal(n), 10) == n
  {
    var d := Decimal(n);
    if n >= 10 {
      DecimalValue(n / 10);
      assert d[..|d| - 1] == Decimal(n / 10);
    }
  }

  /** `ParseUint32` reads back the decimal digits of every 32-bit unsigned value. */
  lemma ParseUintDecimal(m: nat)
    requires m <= 0xFFFF_FFFF
    ensures ParseUint32(Decimal(m)) == Some(m)
  {
    var d := Decimal(m);
    DecimalValue(m);
    assert forall k | 0 <= k < |d| :: d[k] != '_';
    if m == 0 {
      assert d == "0" && d[1..] == [];
      assert BaseAndDigits(d) == (8, "");
    } else {
      assert BaseAndDigits(d) == (10, d);
    }
  }

  /** `ParseInt` accepts what `Itoa` prints for every 32-bit value and returns that value. */
  lemma ParseFormatInt(v: int32)
    ensures ParseInt(FormatInt(v as int)) == Some(v as int)
  {
    var s := FormatInt(v as int);
    if v < 0 {
      var m: nat := -(v as int);
      ParseUintDecimal(m);
      assert s[0] == '-' && s[1..] == Decimal(m);
    } else {
      var m: nat := v as int;
      ParseUintDecimal(m);
      assert s == Decimal(m);
      assert '0' <= s[0] <= '9';
    }
  }

  /** Decimal digits, and a lone `0`, are read in base 10 and 8. */
  lemma ParseIntDecimal()
    ensures ParseInt("100") == Some(100)
    ensures ParseInt("0") == Some(0)
  {
    assert Decimal(100) == "100";
    ParseUintDecimal(100);
    ParseUintDecimal(0);
    assert Decimal(0) == "0";
  }

  /** `0x` selects hexadecimal and a leading `0` octal. */
  lemma ParseIntPrefixes()
    ensures ParseInt("0x10") == Some(16)
    ensures ParseInt("010") == Some(8)
  {
    assert "10"[..1] == "1";
    assert DigitValue('1') == Some(1) && DigitValue('0') == Some(0);
    assert DigitsValue("10", 16) == 16 && DigitsValue("10", 8) == 8;
    assert BaseAndDigits("0x10") == (16, "10");
    assert ParseUint32("0x10") == Some(16);
    assert BaseAndDigits("010") == (8, "10");
    assert ParseUint32("010") == Some(8);
  }

  /** Just past either end of the `int32` range is refused (the ends themselves are read, by `ParseFormatInt`). */
  lemma ParseIntRange()
    ensures ParseInt(FormatInt(0x8000_0000)) == None
    ensures ParseInt(FormatInt(-0x8000_0001)) == None
  {
    ParseUintDecimal(0x8000_0000);
    ParseUintDecimal(0x8000_0001);
    var p := FormatInt(0x8000_0000);
    assert '0' <= p[0] <= '9';
    var n := FormatInt(-0x8000_0001);
    assert n[0] == '-' && n[1..] == Decimal(0x8000_0001);
  }

  /** Empty text, a bare prefix, a digit outside the base and surrounding white space are refused. */
  lemma ParseIntRejects()
    ensures ParseInt("") == None
    ensures ParseInt("0x") == None
    ensures ParseInt("08") == None
    ensures ParseInt(" 1") == None
  {
    assert BaseAndDigits("0x") == (8, "x");
    assert "x"[0] == 'x' && DigitValue('x') == Some(33);
    assert !DigitsOK("x", 8);
    assert BaseAndDigits("08") == (8, "8");
    assert "8"[0] == '8' && DigitValue('8') == Some(8);
    assert !DigitsOK("8", 8);
    assert " 1"[0] == ' ' && DigitValue(' ') == None;
    assert !DigitsOK(" 1", 10);
  }

  /** Underscores are digit separators, but not at the start. */
  lemma ParseIntUnderscores()
    ensures ParseInt("1_000") == Some(1000)
    ensures ParseInt("_1") == None
  {
    var s := "1_000";
    assert BaseAndDigits(s) == (10, s);
    assert DigitValue('1') == Some(1) && DigitValue('0') == Some(0);
    assert DigitsOK(s, 10);
    assert s[..4] == "1_00" && "1_00"[..3] == "1_0" && "1_0"[..2] == "1_" && "1_"[..1] == "1";
    assert DigitsValue(s, 10) == 1000;
    assert ScanUnderscores(s[1..], false, Digit) == Some(Digit) by {
      assert s[1..][1..] == "000" && "000"[1..] == "00" && "00"[1..] == "0" && "0"[1..] == "";
    }
    assert UnderscoreOK(s);
    assert ScanUnderscores("_1", false, Start) == None;
    assert BaseAndDigits("_1") == (10, "_1");
  }
}
