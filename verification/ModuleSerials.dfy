/** A module's serial number as text: hexadecimal, with zeros in front. */
module ModuleSerials {
  const METER_SERIAL_DIGITS: nat := 8
  const MODULE_SERIAL_DIGITS: nat := 12  // three words of four digits

  function HexDigit(d: nat): char
    requires d < 16
  {
    "0123456789ABCDEF"[d]
  }

  function Hex(n: nat): (s: string)
    ensures |s| >= 1
  {
    if n < 16 then [HexDigit(n)] else Hex(n / 16) + [HexDigit(n % 16)]
  }

  function Zeros(n: nat): (s: string)
    ensures |s| == n
  {
    seq(n, _ => '0')
  }

  /** The number in upper-case hexadecimal, zeros in front to `width` digits. */
  function Padded(n: nat, width: nat): string {
    if |Hex(n)| >= width then Hex(n) else Zeros(width - |Hex(n)|) + Hex(n)
  }

  function ModuleSerial(n: nat): string {
    Padded(n, MODULE_SERIAL_DIGITS)
  }

  function HexValue(c: char): nat {
    if '0' <= c <= '9' then c as int - '0' as int
    else if 'A' <= c <= 'F' then c as int - 'A' as int + 10
    else 0
  }

  /** The number a text of hexadecimal digits spells. */
  function FromHex(s: string): nat {
    if s == "" then 0 else 16 * FromHex(s[..|s| - 1]) + HexValue(s[|s| - 1])
  }

  lemma {:induction false} FromHexOfHex(n: nat)
    ensures FromHex(Hex(n)) == n
  {
    if n >= 16 {
      FromHexOfHex(n / 16);
      FromHexMore(Hex(n / 16), n % 16);
    } else {
      FromHexMore("", n);
      assert "" + [HexDigit(n)] == [HexDigit(n)];
    }
  }

  lemma FromHexMore(s: string, d: nat)
    requires d < 16
    ensures FromHex(s + [HexDigit(d)]) == 16 * FromHex(s) + d
  {
    assert (s + [HexDigit(d)])[..|s|] == s;
    assert HexValue(HexDigit(d)) == d;
  }

  lemma {:induction false} LeadingZerosAddNothing(k: nat, s: string)
    ensures FromHex(Zeros(k) + s) == FromHex(s)
    decreases |s|, k
  {
    var t := Zeros(k) + s;
    if s != "" {
      LeadingZerosAddNothing(k, s[..|s| - 1]);
      assert t[..|t| - 1] == Zeros(k) + s[..|s| - 1];
    } else if k > 0 {
      LeadingZerosAddNothing(k - 1, "");
      assert t[..|t| - 1] == Zeros(k - 1) + "";
    } else {
      assert t == "";
    }
  }

  /** A serial text and the number in the registers determine each other. */
  lemma SerialsAreNumbers(n: nat, m: nat)
    ensures ModuleSerial(n) == ModuleSerial(m) <==> n == m
    ensures |ModuleSerial(n)| >= MODULE_SERIAL_DIGITS
  {
    SerialReadsBack(n);
    SerialReadsBack(m);
  }

  lemma SerialReadsBack(n: nat)
    ensures FromHex(ModuleSerial(n)) == n
  {
    FromHexOfHex(n);
    if |Hex(n)| < MODULE_SERIAL_DIGITS {
      LeadingZerosAddNothing(MODULE_SERIAL_DIGITS - |Hex(n)|, Hex(n));
    }
  }

  lemma HexStep(n: nat, d: nat)
    requires n > 0 && d < 16
    ensures Hex(16 * n + d) == Hex(n) + [HexDigit(d)]
  {
  }

  lemma DigitsAsWritten()
    ensures HexDigit(1) == '1' && HexDigit(2) == '2' && HexDigit(3) == '3' && HexDigit(4) == '4' && HexDigit(5) == '5'
    ensures HexDigit(6) == '6' && HexDigit(7) == '7' && HexDigit(8) == '8' && HexDigit(9) == '9' && HexDigit(10) == 'A'
    ensures HexDigit(11) == 'B' && HexDigit(12) == 'C' && HexDigit(13) == 'D' && HexDigit(14) == 'E' && HexDigit(15) == 'F'
  {
  }

  lemma LowDigits()
    ensures Hex(0x1234567) == "1234567"
  {
    DigitsAsWritten();
    assert Hex(0x1) == [HexDigit(1)];
    HexStep(0x1, 2);
    HexStep(0x12, 3);
    HexStep(0x123, 4);
    HexStep(0x1234, 5);
    HexStep(0x12345, 6);
    HexStep(0x123456, 7);
    hide Hex, HexDigit;
    assert Hex(0x123) == "123";
    assert Hex(0x12345) == "12345";
  }

  lemma HighDigits()
    ensures Hex(0x89ABCDEF) == "89ABCDEF"
  {
    DigitsAsWritten();
    assert Hex(0x8) == [HexDigit(8)];
    HexStep(0x8, 9);
    HexStep(0x89, 10);
    HexStep(0x89A, 11);
    HexStep(0x89AB, 12);
    HexStep(0x89ABC, 13);
    HexStep(0x89ABCD, 14);
    HexStep(0x89ABCDE, 15);
    hide Hex, HexDigit;
    assert Hex(0x89A) == "89A";
    assert Hex(0x89ABC) == "89ABC";
  }

  /** Two serial numbers as the module's tool writes them, with every digit in one
      of them. */
  lemma SerialsAsWritten()
    ensures ModuleSerial(0x1234567) == "000001234567"
    ensures ModuleSerial(0x89ABCDEF) == "000089ABCDEF"
  {
    LowDigits();
    HighDigits();
    hide Hex;
    assert Zeros(5) == "00000" && Zeros(4) == "0000";
  }
}
