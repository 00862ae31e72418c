/**
 * IPv4 addresses as the calculator handles them: four octets, the dotted
 * decimal text `isValidIP` accepts, and the dotted binary text of `ipToBinary`.
 */
module IPv4 {
  import opened Wrappers
  import opened Text
  import opened Bits

  predicate IsOctet(x: int) { 0 <= x <= 255 }

  /** Four octets, each in 0..255. */
  predicate IsAddress(a: seq<int>) { |a| == 4 && forall i :: 0 <= i < 4 ==> IsOctet(a[i]) }

  /**
   * The 32-bit number an octet sequence stands for, most significant octet
   * first. Defined for any four integers, so that octets the host-range code
   * pushes out of 0..255 still have a value.
   */
  function ToU32(a: seq<int>): int
    requires |a| == 4
  {
    a[0] * 0x100_0000 + a[1] * 0x1_0000 + a[2] * 0x100 + a[3]
  }

  // ---------------------------------------------------------------------
  // Dotted decimal text

  /** One dotted part that `parseInt` reads as a number in 0..255. */
  predicate IsOctetText(t: string)
  {
    var v := ParseInt(t);
    v.Some? && IsOctet(v.value)
  }

  /**
   * `isValidIP`: exactly four '.'-separated parts, each an octet. Text it
   * accepts is at least seven characters of digits, signs and dots, so it
   * holds neither white space nor '/'.
   */
  predicate IsValidIP(s: string): (b: bool)
    ensures b ==> 7 <= |s| && forall i :: 0 <= i < |s| ==> NumberChar(s[i]) || s[i] == '.'
  {
    var parts := Split(s, '.');
    DottedTextChars(s);
    |parts| == 4 && forall i :: 0 <= i < 4 ==> IsOctetText(parts[i])
  }

  /** Text whose four '.'-separated parts are octets is at least seven number characters and dots. */
  lemma DottedTextChars(s: string)
    ensures var parts := Split(s, '.');
      |parts| == 4 && (forall i :: 0 <= i < 4 ==> IsOctetText(parts[i])) ==>
      7 <= |s| && forall i :: 0 <= i < |s| ==> NumberChar(s[i]) || s[i] == '.'
  {
    var parts := Split(s, '.');
    if |parts| == 4 && forall i :: 0 <= i < 4 ==> IsOctetText(parts[i]) {
      JoinSplit(s, '.');
      JoinFour(parts, '.');
      forall k | 0 <= k < 4 ensures parts[k] != [] && forall i :: 0 <= i < |parts[k]| ==> NumberChar(parts[k][i]) {
        assert IsOctetText(parts[k]);
      }
      JoinChars(parts, '.');
    }
  }

  /** `ip.split('.').map(x => parseInt(x, 10))` on a valid address. */
  function Octets(s: string): (a: seq<int>)
    requires IsValidIP(s)
    ensures IsAddress(a)
  {
    var parts := Split(s, '.');
    seq(4, i requires 0 <= i < 4 => OctetValue(parts[i]))
  }

  /** `parseInt(t, 10)` on a part known to be an octet. */
  function OctetValue(t: string): (x: int)
    requires IsOctetText(t)
    ensures IsOctet(x) && ParseInt(t) == Some(x)
  {
    ParseInt(t).value
  }

  function OctetTexts(a: seq<int>): (ts: seq<string>)
    requires |a| == 4
    ensures |ts| == 4 && forall i :: 0 <= i < 4 ==> ts[i] == IntToString(a[i])
  {
    [IntToString(a[0]), IntToString(a[1]), IntToString(a[2]), IntToString(a[3])]
  }

  /** `octets.join('.')`: the dotted decimal text of four octets. */
  function FormatAddress(a: seq<int>): string
    requires |a| == 4
  {
    Join(OctetTexts(a), '.')
  }

  lemma FormatAddressSpelled(a: seq<int>)
    requires |a| == 4
    ensures FormatAddress(a) == IntToString(a[0]) + "." + IntToString(a[1]) + "." + IntToString(a[2]) + "." + IntToString(a[3])
  {
    JoinFour(OctetTexts(a), '.');
  }

  /** Dotted decimal text of an address holds only digits and dots, and begins and ends with a digit. */
  lemma FormatAddressChars(a: seq<int>)
    requires IsAddress(a)
    ensures var s := FormatAddress(a);
      s != [] && IsDigit(s[0]) && IsDigit(s[|s| - 1]) &&
      forall i :: 0 <= i < |s| ==> IsDigit(s[i]) || s[i] == '.'
  {
    FormatAddressSpelled(a);
  }

  /** Printing an address and reading it back with `isValidIP` and `parseInt` gives the same octets. */
  lemma FormatThenParse(a: seq<int>)
    requires IsAddress(a)
    ensures IsValidIP(FormatAddress(a)) && Octets(FormatAddress(a)) == a
  {
    var ts := OctetTexts(a);
    forall k | 0 <= k < 4 ensures '.' !in ts[k] {
      assert forall i :: 0 <= i < |ts[k]| ==> IsDigit(ts[k][i]) || ts[k][i] == '-';
    }
    SplitJoin(ts, '.');
    forall k | 0 <= k < 4 ensures ParseInt(ts[k]) == Some(a[k]) {
      ParseIntToString(a[k]);
    }
  }

  // ---------------------------------------------------------------------
  // Dotted binary text

  /** `parseInt(octet, 10).toString(2).padStart(8, '0')`. */
  function OctetBinary(x: nat): string
  {
    PadStart(ToBinary(x), 8, '0')
  }

  /**
   * `ipToBinary`: the octets in base 2, eight digits each, joined by '.'.
   * It loses nothing: the 35 characters split at '.' into four groups of
   * eight binary digits, each denoting its octet.
   */
  function IpToBinary(a: seq<int>): (r: string)
    requires IsAddress(a)
    ensures |r| == 35
    ensures var groups := Split(r, '.');
      |groups| == 4 && forall i :: 0 <= i < 4 ==>
        |groups[i]| == 8 && BinaryDigits(groups[i]) && BinaryValue(groups[i]) == a[i]
  {
    var gs := OctetBinaries(a);
    OctetBinariesDenote(a);
    SplitJoin(gs, '.');
    JoinFour(gs, '.');
    Join(gs, '.')
  }

  function OctetBinaries(a: seq<int>): (gs: seq<string>)
    requires IsAddress(a)
    ensures |gs| == 4 && forall k :: 0 <= k < 4 ==> gs[k] == OctetBinary(a[k])
  {
    seq(4, k requires 0 <= k < 4 => OctetBinary(a[k]))
  }

  /** The eight-digit rendering of an octet is exactly eight binary digits denoting it. */
  lemma OctetBinaryDenotes(x: nat)
    requires x <= 255
    ensures |OctetBinary(x)| == 8 && BinaryDigits(OctetBinary(x)) && BinaryValue(OctetBinary(x)) == x
    ensures '.' !in OctetBinary(x)
  {
    Pow2Octet();
    ToBinaryLength(x, 8);
    PadStartBinary(ToBinary(x), 8);
    BinaryValueLeadingZeros(8 - |ToBinary(x)|, ToBinary(x));
    BinaryValueOfToBinary(x);
  }

  lemma OctetBinariesDenote(a: seq<int>)
    requires IsAddress(a)
    ensures forall k :: 0 <= k < 4 ==>
      '.' !in OctetBinaries(a)[k] && |OctetBinaries(a)[k]| == 8 &&
      BinaryDigits(OctetBinaries(a)[k]) && BinaryValue(OctetBinaries(a)[k]) == a[k]
  {
    forall k | 0 <= k < 4
      ensures '.' !in OctetBinaries(a)[k] && |OctetBinaries(a)[k]| == 8 &&
        BinaryDigits(OctetBinaries(a)[k]) && BinaryValue(OctetBinaries(a)[k]) == a[k]
    {
      OctetBinaryDenotes(a[k]);
    }
  }
}
