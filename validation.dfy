/**
 * The checks `get_ip_range_and_base` applies to what the user typed: the base
 * network prefix (three dotted octets) and the first and last octet of the range.
 */
module Validation {
  import opened Wrappers
  import opened Text
  import Scanner

  /** The prefix used when the user types nothing. */
  const DEFAULT_NETWORK := "172.16.172"

  /**
   * The default of `sys.get_int_max_str_digits()` (Python 3.11 and later, and the
   * 3.10.7, 3.9.14, 3.8.14 and 3.7.14 security releases):
   * `int` raises `ValueError` on a decimal string with more digits.
   */
  const INT_MAX_STR_DIGITS := 4300

  /**
   * `part.isdigit() and 0 <= int(part) <= 255`. A longer digit string makes
   * `int` raise `ValueError`, which also ends in the refusal `(None, None, None)`.
   */
  predicate ValidOctet(part: string) {
    IsDigits(part) && |part| <= INT_MAX_STR_DIGITS && DigitsValue(part) <= 255
  }

  /** The base prefix test: exactly three pieces between dots, each a valid octet. */
  predicate ValidBase(base: string) {
    var parts := Split(base, '.');
    |parts| == 3 && forall k :: 0 <= k < |parts| ==> ValidOctet(parts[k])
  }

  /** The range test: both octets within 0..255 (a start above the end is let through). */
  predicate ValidRange(start: int, end: int) {
    0 <= start <= 255 && 0 <= end <= 255
  }

  /** An empty answer stands for the default prefix. */
  function BaseOrDefault(input: string): (base: string)
    ensures input != "" ==> base == input
  {
    if input == "" then DEFAULT_NETWORK else input
  }

  datatype ScanTarget = ScanTarget(start: int, end: int, base: string)

  /**
   * `get_ip_range_and_base` once the answers are read: the stripped base answer
   * and the two octets already converted with `int`. `None` is the function's
   * `(None, None, None)`.
   */
  function GetIpRangeAndBase(input: string, start: int, end: int): (r: Option<ScanTarget>)
  {
    var base := BaseOrDefault(input);
    if !ValidBase(base) then None
    else if ValidRange(start, end) then Some(ScanTarget(start, end, base))
    else None
  }

  /** A valid prefix is three valid octets joined by dots. */
  lemma ValidBaseParts(base: string)
    requires ValidBase(base)
    ensures var parts := Split(base, '.');
      base == parts[0] + "." + parts[1] + "." + parts[2] &&
      ValidOctet(parts[0]) && ValidOctet(parts[1]) && ValidOctet(parts[2])
  {
    var parts := Split(base, '.');
    JoinSplit(base, '.');
    assert parts[..2][..1] == [parts[0]];
    assert parts[..2] == parts[..2][..1] + [parts[1]];
    assert Join(parts[..2], ".") == parts[0] + "." + parts[1];
  }

  /** Three pieces without dots, joined by dots, split back into those pieces. */
  lemma SplitThree(p0: string, p1: string, p2: string)
    requires '.' !in p0 && '.' !in p1 && '.' !in p2
    ensures Split(p0 + "." + p1 + "." + p2, '.') == [p0, p1, p2]
  {
    SplitNoSeparator(p0, '.');
    SplitAppend(p0, '.', p1);
    var front := p0 + "." + p1;
    SplitAppend(front, '.', p2);
    assert p0 + "." + p1 + "." + p2 == front + ['.'] + p2;
  }

  lemma DigitsHaveNoDot(s: string)
    requires IsDigits(s)
    ensures '.' !in s
  {
  }

  /** For three dot-free pieces, the prefix test is the octet test on each piece. */
  lemma ValidBaseOfPieces(p0: string, p1: string, p2: string)
    requires '.' !in p0 && '.' !in p1 && '.' !in p2
    ensures ValidBase(p0 + "." + p1 + "." + p2) <==> ValidOctet(p0) && ValidOctet(p1) && ValidOctet(p2)
  {
    SplitThree(p0, p1, p2);
    var parts := [p0, p1, p2];
    assert parts[0] == p0 && parts[1] == p1 && parts[2] == p2;
  }

  /** Three dotted octets written in decimal pass exactly when each is at most 255. */
  lemma ValidBaseOfOctets(a: nat, b: nat, c: nat)
    ensures ValidBase(NatToString(a) + "." + NatToString(b) + "." + NatToString(c)) <==>
            a <= 255 && b <= 255 && c <= 255
  {
    var p0, p1, p2 := NatToString(a), NatToString(b), NatToString(c);
    DigitsHaveNoDot(p0);
    DigitsHaveNoDot(p1);
    DigitsHaveNoDot(p2);
    ValidBaseOfPieces(p0, p1, p2);
    NatToStringRoundTrip(a);
    NatToStringRoundTrip(b);
    NatToStringRoundTrip(c);
    if a <= 255 && b <= 255 && c <= 255 {
      NatToStringShort(a);
      NatToStringShort(b);
      NatToStringShort(c);
    }
  }

  /** The value of a three-digit string, leading zeros included. */
  lemma ThreeDigitsValue(a: char, b: char, c: char)
    requires IsDigit(a) && IsDigit(b) && IsDigit(c)
    ensures DigitsValue([a, b, c]) == (a as int - '0' as int) * 100 + (b as int - '0' as int) * 10 + (c as int - '0' as int)
  {
    assert [a][..0] == [];
    assert DigitsValue([a]) == a as int - '0' as int;
    assert [a, b][..1] == [a];
    assert DigitsValue([a, b]) == (a as int - '0' as int) * 10 + (b as int - '0' as int);
    assert [a, b, c][..2] == [a, b];
  }

  lemma LeadingZeroOctets()
    ensures ValidOctet("001") && ValidOctet("002") && ValidOctet("255")
  {
    ThreeDigitsValue('0', '0', '1');
    ThreeDigitsValue('0', '0', '2');
    ThreeDigitsValue('2', '5', '5');
  }

  /** Leading zeros pass: each piece only has to be digits of value at most 255. */
  lemma LeadingZerosAccepted()
    ensures ValidBase("001.002.255")
  {
    assert "001.002.255" == "001" + "." + "002" + "." + "255";
    ValidBaseOfPieces("001", "002", "255");
    LeadingZeroOctets();
  }

  /** An empty piece is not a digit string, so `"1..2"` is refused. */
  lemma EmptyPieceRejected()
    ensures !ValidBase("1..2")
  {
    SplitThree("1", "", "2");
    assert "1..2" == "1" + "." + "" + "." + "2";
    var parts := Split("1..2", '.');
    assert !ValidOctet(parts[1]);
  }

  /** The default prefix passes, so an empty answer fails only on the range. */
  lemma EmptyInputUsesDefault(start: int, end: int)
    ensures GetIpRangeAndBase("", start, end) ==
            if ValidRange(start, end) then Some(ScanTarget(start, end, DEFAULT_NETWORK)) else None
  {
    assert NatToString(172) == "172" && NatToString(16) == "16";
    assert DEFAULT_NETWORK == NatToString(172) + "." + NatToString(16) + "." + NatToString(172);
    ValidBaseOfOctets(172, 16, 172);
  }

  /** A start octet above the end octet is accepted. */
  lemma ReversedRangeAccepted()
    ensures GetIpRangeAndBase("", 200, 50) == Some(ScanTarget(200, 50, DEFAULT_NETWORK))
  {
    EmptyInputUsesDefault(200, 50);
  }

  /** Every address scanned after the answers are accepted is four valid dotted octets. */
  lemma AcceptedTargetScansDottedQuads(input: string, start: int, end: int, t: ScanTarget)
    requires GetIpRangeAndBase(input, start, end) == Some(t)
    ensures forall ip :: ip in Scanner.Addresses(t.base, t.start, t.end) ==>
      |Split(ip, '.')| == 4 && forall k :: 0 <= k < 4 ==> ValidOctet(Split(ip, '.')[k])
  {
    Scanner.AddressesMember(t.base, t.start, t.end);
    forall ip | ip in Scanner.Addresses(t.base, t.start, t.end)
      ensures |Split(ip, '.')| == 4 && forall k :: 0 <= k < 4 ==> ValidOctet(Split(ip, '.')[k])
    {
      var i :| t.start <= i <= t.end && ip == Scanner.Address(t.base, i);
      ScannedAddressIsDottedQuad(t.base, i);
    }
  }

  /** Every address scanned from a valid prefix and an octet in range is four valid dotted octets. */
  lemma ScannedAddressIsDottedQuad(base: string, i: int)
    requires ValidBase(base) && 0 <= i <= 255
    ensures var pieces := Split(Scanner.Address(base, i), '.');
      |pieces| == 4 && forall k :: 0 <= k < 4 ==> ValidOctet(pieces[k])
  {
    var last := NatToString(i);
    assert IntToString(i) == last;
    DigitsHaveNoDot(last);
    SplitAppend(base, '.', last);
    assert Scanner.Address(base, i) == base + ['.'] + last;
    NatToStringRoundTrip(i);
    NatToStringShort(i);
  }
}
