/**
 IPv4 addresses as text, by the rules of Python's `ipaddress`, on which the
 module's page relies: four octets, each one to three ASCII digits without a
 leading zero.
 */
module DottedQuad {
  import opened Wrappers
  import opened Texts
  import opened Ipv4

  predicate IsDigit(c: char) {
    '0' <= c <= '9'
  }

  function Digit(d: nat): char
    requires d < 10
  {
    '0' + d as char
  }

  function OctetText(n: nat): (s: string)
    requires n < 256
    ensures '.' !in s
  {
    if n < 10 then [Digit(n)]
    else if n < 100 then [Digit(n / 10), Digit(n % 10)]
    else [Digit(n / 100), Digit(n / 10 % 10), Digit(n % 10)]
  }

  function DigitValue(c: char): nat
    requires IsDigit(c)
  {
    c as int - '0' as int
  }

  predicate AllDigits(s: string) {
    forall i :: 0 <= i < |s| ==> IsDigit(s[i])
  }

  /** The number a string of digits spells. */
  function Decimal(s: string): nat
    requires AllDigits(s)
  {
    if s == "" then 0 else 10 * Decimal(s[..|s| - 1]) + DigitValue(s[|s| - 1])
  }

  /** One octet: one to three digits, no leading zero, at most 255. */
  function ParseOctet(s: string): (r: Option<nat>)
    ensures r.Some? ==> r.value < 256
  {
    if s == "" || !AllDigits(s) then None
    else if |s| > 3 || (s != "0" && s[0] == '0') || Decimal(s) > 255 then None
    else Some(Decimal(s))
  }

  lemma DecimalShort(s: string)
    requires AllDigits(s) && 1 <= |s| <= 3
    ensures |s| == 1 ==> Decimal(s) == DigitValue(s[0])
    ensures |s| == 2 ==> Decimal(s) == 10 * DigitValue(s[0]) + DigitValue(s[1])
    ensures |s| == 3 ==> Decimal(s) == 100 * DigitValue(s[0]) + 10 * DigitValue(s[1]) + DigitValue(s[2])
  {
    var init := s[..|s| - 1];
    if |s| == 1 {
      assert init == "";
    } else {
      assert init[|init| - 1] == s[|s| - 2];
      DecimalShort(init);
    }
  }

  lemma DigitsOfText(n: nat)
    requires n < 256
    ensures AllDigits(OctetText(n)) && 1 <= |OctetText(n)| <= 3
    ensures Decimal(OctetText(n)) == n
  {
    var h, t, u := DigitsAddUp(n);
    TextOfDigits(h, t, u);
    hide OctetText, Decimal, Digit, IsDigit, DigitValue;
    DigitIsDigit(h);
    DigitIsDigit(t);
    DigitIsDigit(u);
    assert AllDigits(OctetText(n));
    DecimalShort(OctetText(n));
  }

  lemma DigitsAddUp(n: nat) returns (h: nat, t: nat, u: nat)
    requires n < 256
    ensures h < 10 && t < 10 && u < 10 && n == 100 * h + 10 * t + u
  {
    h, t, u := n / 100, n / 10 % 10, n % 10;
  }

  lemma DigitIsDigit(d: nat)
    requires d < 10
    ensures IsDigit(Digit(d)) && DigitValue(Digit(d)) == d
  {
  }

  lemma TextOfDigits(hundreds: nat, tens: nat, units: nat)
    requires hundreds < 10 && tens < 10 && units < 10 && 100 * hundreds + 10 * tens + units < 256
    ensures var text := OctetText(100 * hundreds + 10 * tens + units);
            text == if hundreds > 0 then [Digit(hundreds), Digit(tens), Digit(units)]
                    else if tens > 0 then [Digit(tens), Digit(units)]
                    else [Digit(units)]
  {
    var n := 100 * hundreds + 10 * tens + units;
    assert n / 100 == hundreds;
    assert n / 10 == 10 * hundreds + tens;
    assert n % 10 == units;
  }

  lemma DigitOfValue(c: char)
    requires IsDigit(c)
    ensures DigitValue(c) < 10 && Digit(DigitValue(c)) == c
    ensures DigitValue(c) == 0 <==> c == '0'
  {
  }

  lemma OctetTextOf(s: string)
    requires AllDigits(s) && 1 <= |s| <= 3 && (s == "0" || s[0] != '0') && Decimal(s) < 256
    ensures OctetText(Decimal(s)) == s
  {
    hide OctetText, Decimal, Digit, DigitValue;
    DecimalShort(s);
    DigitOfValue(s[0]);
    if |s| == 1 {
      TextOfDigits(0, 0, DigitValue(s[0]));
    } else if |s| == 2 {
      DigitOfValue(s[1]);
      TextOfDigits(0, DigitValue(s[0]), DigitValue(s[1]));
      assert s == [s[0], s[1]];
    } else {
      DigitOfValue(s[1]);
      DigitOfValue(s[2]);
      TextOfDigits(DigitValue(s[0]), DigitValue(s[1]), DigitValue(s[2]));
      assert s == [s[0], s[1], s[2]];
    }
  }

  /** Each octet has exactly one text. */
  lemma ParseOctetExact(s: string, n: nat)
    requires n < 256
    ensures ParseOctet(s) == Some(n) <==> s == OctetText(n)
  {
    DigitsOfText(n);
    if ParseOctet(s) == Some(n) {
      OctetTextOf(s);
    }
  }

  /** The pieces of `s` between its dots. */
  function Split(s: string): (parts: seq<string>)
    ensures |parts| >= 1
  {
    if s == "" then [""]
    else
      var rest := Split(s[1..]);
      if s[0] == '.' then [""] + rest else [[s[0]] + rest[0]] + rest[1..]
  }

  function Join(parts: seq<string>): string
    requires |parts| >= 1
  {
    if |parts| == 1 then parts[0] else parts[0] + "." + Join(parts[1..])
  }

  lemma JoinCons(first: string, tail: seq<string>)
    requires |tail| >= 1
    ensures Join([first] + tail) == first + ("." + Join(tail))
  {
    assert ([first] + tail)[1..] == tail;
    Associative(first, ".", Join(tail));
  }

  lemma JoinPrepend(c: char, first: string, tail: seq<string>)
    ensures Join([[c] + first] + tail) == [c] + Join([first] + tail)
  {
    if tail != [] {
      JoinCons([c] + first, tail);
      JoinCons(first, tail);
      Associative([c], first, "." + Join(tail));
    }
  }

  lemma JoinEmptyFirst(parts: seq<string>)
    requires |parts| >= 1
    ensures Join([""] + parts) == "." + Join(parts)
  {
    assert ([""] + parts)[1..] == parts;
  }

  lemma {:induction false} JoinSplit(s: string)
    ensures Join(Split(s)) == s
  {
    if s != "" {
      var rest := Split(s[1..]);
      JoinSplit(s[1..]);
      assert s == [s[0]] + s[1..];
      if s[0] == '.' {
        JoinEmptyFirst(rest);
      } else {
        assert rest == [rest[0]] + rest[1..];
        JoinPrepend(s[0], rest[0], rest[1..]);
      }
    }
  }

  lemma {:induction false} SplitJoin(parts: seq<string>)
    requires |parts| >= 1
    requires forall i :: 0 <= i < |parts| ==> '.' !in parts[i]
    ensures Split(Join(parts)) == parts
    decreases |parts|, |parts[0]|
  {
    var tail := parts[1..];
    if parts[0] != "" {
      var c, short := parts[0][0], parts[0][1..];
      var shorter := [short] + tail;
      assert forall i :: 0 <= i < |shorter| ==> '.' !in shorter[i];
      SplitJoin(shorter);
      assert shorter[0] == short && shorter[1..] == tail && [c] + short == parts[0];
      JoinPrepend(c, short, tail);
      assert [parts[0]] + tail == parts;
      assert Join(parts) == [c] + Join(shorter);
      assert ([c] + Join(shorter))[1..] == Join(shorter);
    } else if |parts| > 1 {
      SplitJoin(tail);
      JoinEmptyFirst(tail);
      assert [""] + tail == parts;
      assert ("." + Join(tail))[1..] == Join(tail);
    }
  }

  /** The octets of an address, the first one first. */
  function Octets(a: Address): (octets: seq<nat>)
    ensures |octets| == 4 && forall i :: 0 <= i < 4 ==> octets[i] < 256
  {
    [a / 256 / 256 / 256, a / 256 / 256 % 256, a / 256 % 256, a % 256]
  }

  function Combine(a: nat, b: nat, c: nat, d: nat): Address
    requires a < 256 && b < 256 && c < 256 && d < 256
  {
    256 * (256 * (256 * a + b) + c) + d
  }

  lemma OctetsExact(a: Address, b: nat, c: nat, d: nat, e: nat)
    requires b < 256 && c < 256 && d < 256 && e < 256
    ensures Combine(b, c, d, e) == a <==> Octets(a) == [b, c, d, e]
  {
    if Combine(b, c, d, e) == a {
      assert a / 256 == 256 * (256 * b + c) + d;
      assert a / 256 / 256 == 256 * b + c;
    }
  }

  function OctetTexts(octets: seq<nat>): (texts: seq<string>)
    requires forall i :: 0 <= i < |octets| ==> octets[i] < 256
    ensures |texts| == |octets|
    ensures forall i :: 0 <= i < |octets| ==> texts[i] == OctetText(octets[i])
  {
    seq(|octets|, i requires 0 <= i < |octets| => OctetText(octets[i]))
  }

  /** The address as a dotted quad. */
  function Text(a: Address): string {
    Join(OctetTexts(Octets(a)))
  }

  function Parse(s: string): Option<Address> {
    var parts := Split(s);
    if |parts| != 4 then None
    else
      match (ParseOctet(parts[0]), ParseOctet(parts[1]), ParseOctet(parts[2]), ParseOctet(parts[3]))
      case (Some(a), Some(b), Some(c), Some(d)) => Some(Combine(a, b, c, d))
      case _ => None
  }

  lemma TextParses(a: Address)
    ensures Parse(Text(a)) == Some(a)
  {
    var octets := Octets(a);
    SplitJoin(OctetTexts(octets));
    forall i | 0 <= i < 4 ensures ParseOctet(OctetText(octets[i])) == Some(octets[i]) {
      ParseOctetExact(OctetText(octets[i]), octets[i]);
    }
    OctetsExact(a, octets[0], octets[1], octets[2], octets[3]);
  }

  lemma ParsedIsText(s: string, a: Address)
    requires Parse(s) == Some(a)
    ensures s == Text(a)
  {
    var parts := Split(s);
    var octets := seq(4, i requires 0 <= i < 4 => match ParseOctet(parts[i]) case Some(n) => n case None => 0);
    OctetsExact(a, octets[0], octets[1], octets[2], octets[3]);
    assert octets == Octets(a);
    forall i | 0 <= i < 4 ensures parts[i] == OctetText(octets[i]) {
      ParseOctetExact(parts[i], octets[i]);
    }
    assert parts == OctetTexts(octets);
    JoinSplit(s);
  }

  /** Printer and parser undo each other, and no other text is read as an
      address: two addresses are the same exactly when their texts are. */
  lemma ParseExact(s: string, a: Address)
    ensures Parse(s) == Some(a) <==> s == Text(a)
  {
    TextParses(a);
    if Parse(s) == Some(a) {
      ParsedIsText(s, a);
    }
  }

  /** The text names the octets from the highest to the lowest. */
  lemma TextOfOctets(b: nat, c: nat, d: nat, e: nat)
    requires b < 256 && c < 256 && d < 256 && e < 256
    ensures Text(0x100_0000 * b + 0x1_0000 * c + 0x100 * d + e)
         == OctetText(b) + ("." + (OctetText(c) + ("." + (OctetText(d) + ("." + OctetText(e))))))
  {
    var a := 0x100_0000 * b + 0x1_0000 * c + 0x100 * d + e;
    OctetPlaces(a, b, c, d, e);
    hide OctetText, Octets;
    var texts := OctetTexts(Octets(a));
    assert texts == [texts[0]] + texts[1..] && texts[1..] == [texts[1]] + texts[2..] && texts[2..] == [texts[2]] + texts[3..];
    JoinCons(texts[0], texts[1..]);
    JoinCons(texts[1], texts[2..]);
    JoinCons(texts[2], texts[3..]);
    assert texts[3..] == [texts[3]];
  }

  lemma OctetPlaces(a: Address, b: nat, c: nat, d: nat, e: nat)
    requires b < 256 && c < 256 && d < 256 && e < 256
    requires a == 0x100_0000 * b + 0x1_0000 * c + 0x100 * d + e
    ensures Octets(a) == [b, c, d, e]
  {
    OctetsExact(a, b, c, d, e);
    hide Octets;
    assert Combine(b, c, d, e) == a;
  }

  lemma OctetsAsWritten()
    ensures OctetText(192) == "192" && OctetText(168) == "168" && OctetText(35) == "35" && OctetText(47) == "47"
    ensures OctetText(0) == "0"
  {
  }

  lemma JoinedAsWritten()
    ensures "192" + ("." + ("168" + ("." + ("35" + ("." + "47"))))) == "192.168.35.47"
    ensures "0" + ("." + ("0" + ("." + ("0" + ("." + "0"))))) == "0.0.0.0"
  {
    assert "35" + ("." + "47") == "35.47";
    assert "0" + ("." + "0") == "0.0";
  }

  /** Two addresses as anyone writes them, with every digit in one of them. */
  lemma AddressesAsWritten()
    ensures Text(0xC0A8_232F) == "192.168.35.47"
    ensures Text(0x0000_0000) == "0.0.0.0"
  {
    OctetsAsWritten();
    JoinedAsWritten();
    hide Text, OctetText;
    TextOfOctets(192, 168, 35, 47);
    TextOfOctets(0, 0, 0, 0);
  }
}
