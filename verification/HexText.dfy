/**
 * Hexadecimal text as the relay reads it: `U256::from_str_radix(_, 16)` for
 * log topics, log data and transaction hashes, and `Address::from_str` for the
 * configured contract address. Both are library parsers; the model takes the
 * syntax they accept (an optional `0x` prefix, then hexadecimal digits of
 * either case) and gives each a formatter it inverts.
 */
module HexText {
  import opened Wrappers
  import opened Numerals
  import opened EthTypes

  predicate IsHexDigit(c: char) {
    '0' <= c <= '9' || 'a' <= c <= 'f' || 'A' <= c <= 'F'
  }

  predicate AllHexDigits(s: string) {
    forall i :: 0 <= i < |s| ==> IsHexDigit(s[i])
  }

  function HexDigitValue(c: char): (d: nat)
    requires IsHexDigit(c)
    ensures d < 16
  {
    if '0' <= c <= '9' then c as int - '0' as int
    else if 'a' <= c <= 'f' then c as int - 'a' as int + 10
    else c as int - 'A' as int + 10
  }

  /** The lower-case digit for `d`; reading it back gives `d`. */
  function HexDigitChar(d: nat): (c: char)
    requires d < 16
    ensures IsHexDigit(c) && HexDigitValue(c) == d
  {
    if d < 10 then ('0' as int + d) as char else ('a' as int + d - 10) as char
  }

  /** The text after an optional `0x` prefix. */
  function StripHexPrefix(s: string): string {
    if |s| >= 2 && s[..2] == "0x" then s[2..] else s
  }

  /** The digit values of a string of hexadecimal digits. */
  function Nibbles(s: string): (ds: seq<nat>)
    requires AllHexDigits(s)
    ensures |ds| == |s| && DigitsBelow(ds, 16)
  {
    seq(|s|, i requires 0 <= i < |s| => HexDigitValue(s[i]))
  }

  /**
   * The digits of `s`, read most significant first; `None` as soon as a
   * character is not a hexadecimal digit.
   */
  function ReadHex(s: string): (r: Option<nat>)
    ensures r.Some? <==> AllHexDigits(s)
    ensures r.Some? ==> r.value < Pow(16, |s|)
  {
    if s == [] then Some(0)
    else
      var init, last := s[..|s| - 1], s[|s| - 1];
      assert AllHexDigits(s) <==> AllHexDigits(init) && IsHexDigit(last) by {
        assert forall i :: 0 <= i < |init| ==> init[i] == s[i];
      }
      match ReadHex(init)
      case None => None
      case Some(high) =>
        if IsHexDigit(last) then
          DigitStepBound(high, Pow(16, |init|), HexDigitValue(last), 16);
          Some(high * 16 + HexDigitValue(last))
        else
          None
  }

  /** A string of hexadecimal digits of either case reads as the number its digit values denote. */
  lemma {:induction false} ReadHexValue(s: string)
    requires AllHexDigits(s)
    ensures ReadHex(s) == Some(FromDigits(Nibbles(s), 16))
  {
    if s != [] {
      var init := s[..|s| - 1];
      assert AllHexDigits(init) by {
        assert forall i :: 0 <= i < |init| ==> init[i] == s[i];
      }
      ReadHexValue(init);
      assert Nibbles(s)[..|s| - 1] == Nibbles(init);
    }
  }

  /**
   * `U256::from_str_radix(s, 16)`: after an optional `0x`, at most 64
   * hexadecimal digits (an empty digit string reads as zero); anything else fails.
   */
  function ParseU256(s: string): (r: Option<U256>)
    ensures r.Some? <==> |StripHexPrefix(s)| <= 64 && AllHexDigits(StripHexPrefix(s))
  {
    var digits := StripHexPrefix(s);
    if |digits| <= 64 then
      match ReadHex(digits)
      case None => None
      case Some(v) =>
        PowMonotone(16, |digits|, 64);
        WidthModuli();
        Some(v)
    else
      None
  }

  /** A parsed word is the number its digits denote, whatever their case. */
  lemma ParseU256Value(s: string)
    requires ParseU256(s).Some?
    ensures AllHexDigits(StripHexPrefix(s))
    ensures ParseU256(s).value == FromDigits(Nibbles(StripHexPrefix(s)), 16)
  {
    ReadHexValue(StripHexPrefix(s));
  }

  /** The lower-case digits for the digit values `ds`, most significant first. */
  function HexDigits(ds: seq<nat>): (s: string)
    requires DigitsBelow(ds, 16)
    ensures |s| == |ds|
  {
    if ds == [] then [] else HexDigits(ds[..|ds| - 1]) + [HexDigitChar(ds[|ds| - 1])]
  }

  /** Reading written digits gives the number they denote. */
  lemma {:induction false} ReadHexDigits(ds: seq<nat>)
    requires DigitsBelow(ds, 16)
    ensures ReadHex(HexDigits(ds)) == Some(FromDigits(ds, 16))
  {
    if ds != [] {
      var init := ds[..|ds| - 1];
      ReadHexDigits(init);
      var s := HexDigits(ds);
      assert s[..|s| - 1] == HexDigits(init);
    }
  }

  /** `v` as `0x` followed by 64 lower-case digits, the form of a log topic. */
  function FormatU256(v: U256): (s: string)
    ensures |s| == 66
  {
    "0x" + HexDigits(ToDigits(v, 64, 16))
  }

  lemma ParseFormatU256(v: U256)
    ensures ParseU256(FormatU256(v)) == Some(v)
  {
    var ds := ToDigits(v, 64, 16);
    var digits := HexDigits(ds);
    assert StripHexPrefix(FormatU256(v)) == digits by {
      assert FormatU256(v)[..2] == "0x";
      assert FormatU256(v)[2..] == digits;
    }
    ReadHexDigits(ds);
    WidthModuli();
    FromToDigitsSmall(v, 64, 16);
  }

  /** Byte `i` of an address written as 40 digits, two per byte. */
  function PairValue(ds: seq<nat>, i: nat): (x: byte)
    requires |ds| == 40 && DigitsBelow(ds, 16) && i < 20
  {
    ds[2 * i] * 16 + ds[2 * i + 1]
  }

  /**
   * `Address::from_str(s)`: after an optional `0x`, exactly 40 hexadecimal
   * digits, two per byte; anything else fails.
   */
  function ParseAddress(s: string): (r: Option<Address>)
    ensures r.Some? <==> |StripHexPrefix(s)| == 40 && AllHexDigits(StripHexPrefix(s))
  {
    var digits := StripHexPrefix(s);
    if |digits| == 40 && AllHexDigits(digits) then
      var ds := Nibbles(digits);
      Some(seq(20, i requires 0 <= i < 20 => PairValue(ds, i)))
    else
      None
  }

  /** Consecutive pairs of hexadecimal digits combined into bytes, most significant first. */
  function Pairs(ds: seq<nat>): (bs: seq<nat>)
    requires |ds| % 2 == 0
    ensures |bs| == |ds| / 2
  {
    if ds == [] then [] else Pairs(ds[..|ds| - 2]) + [ds[|ds| - 2] * 16 + ds[|ds| - 1]]
  }

  lemma {:induction false} PairsIndex(ds: seq<nat>, i: nat)
    requires |ds| % 2 == 0 && i < |ds| / 2
    ensures Pairs(ds)[i] == ds[2 * i] * 16 + ds[2 * i + 1]
  {
    if i < |ds| / 2 - 1 {
      var init := ds[..|ds| - 2];
      PairsIndex(init, i);
    }
  }

  /** Grouping digits into bytes keeps the number they denote. */
  lemma {:induction false} PairsValue(ds: seq<nat>)
    requires |ds| % 2 == 0
    ensures FromDigits(Pairs(ds), 256) == FromDigits(ds, 16)
  {
    if ds != [] {
      var init, front := ds[..|ds| - 2], ds[..|ds| - 1];
      var x, a, b := FromDigits(init, 16), ds[|ds| - 2], ds[|ds| - 1];
      PairsValue(init);
      var bs := Pairs(ds);
      assert bs[..|bs| - 1] == Pairs(init);
      assert FromDigits(bs, 256) == x * 256 + (a * 16 + b);
      assert front[..|front| - 1] == init;
      assert FromDigits(front, 16) == x * 16 + a;
      assert FromDigits(ds, 16) == (x * 16 + a) * 16 + b;
    }
  }

  /** A parsed address, read as a number, is the number its 40 digits denote. */
  lemma ParseAddressValue(s: string)
    requires ParseAddress(s).Some?
    ensures AllHexDigits(StripHexPrefix(s))
    ensures AddressValue(ParseAddress(s).value) == FromDigits(Nibbles(StripHexPrefix(s)), 16)
  {
    var ds := Nibbles(StripHexPrefix(s));
    forall i | 0 <= i < 20
      ensures ParseAddress(s).value[i] == Pairs(ds)[i]
    {
      PairsIndex(ds, i);
    }
    assert ParseAddress(s).value == Pairs(ds);
    PairsValue(ds);
  }

  /** Digit `j` of the 40-digit form of an address. */
  function AddressDigit(a: Address, j: nat): (c: char)
    requires j < 40
  {
    HexDigitChar(if j % 2 == 0 then a[j / 2] / 16 else a[j / 2] % 16)
  }

  /** `a` as `0x` followed by 40 lower-case digits. */
  function FormatAddress(a: Address): (s: string)
    ensures |s| == 42
  {
    "0x" + seq(40, j requires 0 <= j < 40 => AddressDigit(a, j))
  }

  lemma ParseFormatAddress(a: Address)
    ensures ParseAddress(FormatAddress(a)) == Some(a)
  {
    var digits := seq(40, j requires 0 <= j < 40 => AddressDigit(a, j));
    assert FormatAddress(a) == "0x" + digits;
    assert StripHexPrefix("0x" + digits) == digits by {
      assert ("0x" + digits)[..2] == "0x";
      assert ("0x" + digits)[2..] == digits;
    }
    var ds := Nibbles(digits);
    var parsed := seq(20, i requires 0 <= i < 20 => PairValue(ds, i));
    forall i | 0 <= i < 20
      ensures parsed[i] == a[i]
    {
      assert (2 * i) % 2 == 0 && (2 * i) / 2 == i;
      assert (2 * i + 1) % 2 == 1 && (2 * i + 1) / 2 == i;
      assert ds[2 * i] == a[i] / 16;
      assert ds[2 * i + 1] == a[i] % 16;
    }
    assert parsed == a;
  }
}
