/**
 * Block placement: a block lives on the shard numbered by its hash, read as a
 * base-16 number, modulo the number of shards.
 */
module Placement {
  import opened Types

  function DigitValue(c: char): (d: nat)
    requires IsHexDigit(c)
    ensures d < 16
  {
    if '0' <= c <= '9' then c as int - '0' as int
    else if 'a' <= c <= 'f' then c as int - 'a' as int + 10
    else c as int - 'A' as int + 10
  }

  function Pow16(k: nat): (p: nat)
    ensures p >= 1
  {
    if k == 0 then 1 else 16 * Pow16(k - 1)
  }

  /** The number a string of hex digits denotes, most significant digit first. */
  function HexValue(s: string): (n: nat)
    requires IsHexString(s)
    ensures n < Pow16(|s|)
  {
    if s == [] then 0
    else 16 * HexValue(s[..|s| - 1]) + DigitValue(s[|s| - 1])
  }

  /** The lower-case hex digit of a value below 16. */
  function HexDigit(d: nat): (c: char)
    requires d < 16
    ensures IsHexDigit(c) && DigitValue(c) == d
    ensures '0' <= c <= '9' || 'a' <= c <= 'f'
  {
    if d < 10 then ('0' as int + d) as char else ('a' as int + d - 10) as char
  }

  predicate IsLowerHex(s: string) {
    forall i :: 0 <= i < |s| ==> '0' <= s[i] <= '9' || 'a' <= s[i] <= 'f'
  }

  /** `n` written with exactly `width` lower-case hex digits, as a hex digest is. */
  function ToHex(n: nat, width: nat): (s: string)
    ensures |s| == width
    ensures IsHexString(s) && IsLowerHex(s)
  {
    if width == 0 then "" else ToHex(n / 16, width - 1) + [HexDigit(n % 16)]
  }

  /** Reading back a written value gives the value, whenever it fits the width. */
  lemma {:induction false} HexValueOfToHex(n: nat, width: nat)
    requires n < Pow16(width)
    ensures HexValue(ToHex(n, width)) == n
  {
    if width > 0 {
      var init := ToHex(n / 16, width - 1);
      var c := HexDigit(n % 16);
      assert n / 16 < Pow16(width - 1);
      HexValueOfToHex(n / 16, width - 1);
      HexValueSnoc(init, c);
      assert ToHex(n, width) == init + [c];
    }
  }

  /** Appending a digit multiplies the value by 16 and adds the digit. */
  lemma HexValueSnoc(t: string, c: char)
    requires IsHexString(t) && IsHexDigit(c)
    ensures IsHexString(t + [c])
    ensures HexValue(t + [c]) == 16 * HexValue(t) + DigitValue(c)
  {
    assert (t + [c])[..|t|] == t;
  }

  /** Writing a value ends in the digit of its remainder by 16, after the digits of its quotient. */
  lemma ToHexSnoc(n: nat, width: nat)
    ensures ToHex(n, width + 1) == ToHex(n / 16, width) + [HexDigit(n % 16)]
  {
  }

  /** The quotient by 16 of a digest's value is the value of all but its last digit; the remainder is that digit. */
  lemma HexValueDivMod(s: string)
    requires IsHexString(s) && s != []
    ensures IsHexString(s[..|s| - 1])
    ensures HexValue(s) / 16 == HexValue(s[..|s| - 1]) && HexValue(s) % 16 == DigitValue(s[|s| - 1])
  {
    var a := HexValue(s[..|s| - 1]);
    var d := DigitValue(s[|s| - 1]);
    assert HexValue(s) == 16 * a + d;
  }

  /** A lower-case digit is written back as itself. */
  lemma HexDigitOfDigitValue(c: char)
    requires IsHexDigit(c) && ('0' <= c <= '9' || 'a' <= c <= 'f')
    ensures HexDigit(DigitValue(c)) == c
  {
  }

  /** Dropping the last digit of a lower-case digest leaves a lower-case digest. */
  lemma InitLowerHex(s: string)
    requires IsHexString(s) && IsLowerHex(s) && s != []
    ensures IsHexString(s[..|s| - 1]) && IsLowerHex(s[..|s| - 1])
  {
    var init := s[..|s| - 1];
    forall i | 0 <= i < |init| ensures init[i] == s[i] { }
  }

  /** Writing the value of a lower-case digest ends in its last digit, after the value of the rest written one digit shorter. */
  lemma ToHexLastDigit(s: string)
    requires IsHexString(s) && IsLowerHex(s) && s != []
    ensures IsHexString(s[..|s| - 1])
    ensures ToHex(HexValue(s), |s|) == ToHex(HexValue(s[..|s| - 1]), |s| - 1) + [s[|s| - 1]]
  {
    ToHexSnoc(HexValue(s), |s| - 1);
    HexValueDivMod(s);
    HexDigitOfDigitValue(s[|s| - 1]);
  }

  /** Writing back a read value gives the same lower-case digest. */
  lemma {:induction false} ToHexOfHexValue(s: string)
    requires IsHexString(s) && IsLowerHex(s)
    ensures ToHex(HexValue(s), |s|) == s
  {
    if s != [] {
      var init := s[..|s| - 1];
      InitLowerHex(s);
      ToHexOfHexValue(init);
      ToHexLastDigit(s);
      assert s == init + [s[|s| - 1]];
    }
  }

  /** Leading zero digits do not change the value. */
  lemma {:induction false} LeadingZero(s: string)
    requires IsHexString(s)
    ensures IsHexString("0" + s) && HexValue("0" + s) == HexValue(s)
  {
    if s != [] {
      var init := s[..|s| - 1];
      assert ("0" + s)[..|s|] == "0" + init;
      LeadingZero(init);
    }
  }

  /** findserver: the shard a block with hash `h` is stored on. */
  function FindServer(h: Hash, numOfBlocks: nat): (k: nat)
    requires numOfBlocks > 0
    ensures k < numOfBlocks
  {
    HexValue(h) % numOfBlocks
  }

  /** The digest of value `n` (at any width it fits) is placed on shard `n mod numOfBlocks`. */
  lemma PlacementOfDigest(n: nat, width: nat, numOfBlocks: nat)
    requires 0 < width && n < Pow16(width)
    requires numOfBlocks > 0
    ensures FindServer(ToHex(n, width), numOfBlocks) == n % numOfBlocks
  {
    HexValueOfToHex(n, width);
  }

  /** Two digests that differ only in leading zeros are placed on the same shard. */
  lemma PlacementIgnoresLeadingZeros(h: Hash, numOfBlocks: nat)
    requires numOfBlocks > 0
    ensures FindServer("0" + h, numOfBlocks) == FindServer(h, numOfBlocks)
  {
    LeadingZero(h);
  }
}
