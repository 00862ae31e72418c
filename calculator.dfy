/**
 * The calculator's two entry points: `parseInput`, which reads the text the
 * user typed in either notation, and `performSubnetCalculation`, which
 * validates an address and a prefix and assembles every field of a result.
 */
module Calculator {
  import opened Wrappers
  import opened Text
  import opened Bits
  import opened IPv4
  import opened Masks
  import opened Subnet

  /** The two errors the calculator raises; their message texts are not modelled. */
  datatype CalcError = FormatError | RangeError

  /**
   * The fields of a calculation result. Addresses are kept as octets; the
   * text the source shows for each is `FormatAddress` of them.
   */
  datatype SubnetResult = SubnetResult(
    inputIP: string,
    cidr: int,
    subnetMask: seq<int>,
    networkAddress: seq<int>,
    broadcastAddress: seq<int>,
    firstHost: seq<int>,
    lastHost: seq<int>,
    hostCount: int,
    totalAddresses: int,
    binaryIP: string,
    binarySubnetMask: string,
    binaryNetworkAddress: string,
    binaryBroadcastAddress: string)

  /** What `parseInput` returns: the address text and the prefix, `None` standing for NaN. */
  datatype Parsed = Parsed(ip: string, cidr: Option<int>)

  /** A prefix the range check lets through: a number in 0..32. */
  predicate InRange(cidr: Option<int>)
  {
    cidr.Some? && 0 <= cidr.value <= 32
  }

  /**
   * The result `performSubnetCalculation` builds for the valid address text
   * `ip` and prefix `p`: every field is the corresponding operation applied
   * to the octets of `ip` and the mask of `p`, and the host addresses are
   * the network plus one and the broadcast minus one, with octets 1 to 3
   * carried or borrowed into 0..255 and octet 0 left as it falls.
   */
  predicate Describes(res: SubnetResult, ip: string, p: int)
    requires IsValidIP(ip) && 0 <= p <= 32
  {
    var a := Octets(ip);
    var mask := PrefixMask(p);
    res.inputIP == ip && res.cidr == p && res.subnetMask == mask &&
    res.networkAddress == NetworkAddress(a, mask) &&
    res.broadcastAddress == BroadcastAddress(res.networkAddress, mask) &&
    |res.firstHost| == 4 && |res.lastHost| == 4 &&
    IsOctet(res.firstHost[1]) && IsOctet(res.firstHost[2]) && IsOctet(res.firstHost[3]) &&
    IsOctet(res.lastHost[1]) && IsOctet(res.lastHost[2]) && IsOctet(res.lastHost[3]) &&
    ToU32(res.firstHost) == ToU32(res.networkAddress) + 1 &&
    ToU32(res.lastHost) == ToU32(res.broadcastAddress) - 1 &&
    res.hostCount == HostCount(p) && res.totalAddresses == TotalAddresses(p) &&
    res.binaryIP == IpToBinary(a) && res.binarySubnetMask == IpToBinary(mask) &&
    res.binaryNetworkAddress == IpToBinary(res.networkAddress) &&
    res.binaryBroadcastAddress == IpToBinary(res.broadcastAddress)
  }

  /**
   * `performSubnetCalculation`: the address format is checked first, then
   * the prefix range; a missing prefix (NaN) is a range error. On success
   * the result is the one `Describes` fixes.
   */
  method PerformSubnetCalculation(ip: string, cidr: Option<int>) returns (r: Result<SubnetResult, CalcError>)
    ensures !IsValidIP(ip) ==> r == Failure(FormatError)
    ensures IsValidIP(ip) && !InRange(cidr) ==> r == Failure(RangeError)
    ensures r.Success? <==> IsValidIP(ip) && InRange(cidr)
    ensures r.Success? ==> Describes(r.value, ip, cidr.value)
  {
    if !IsValidIP(ip) {
      return Failure(FormatError);
    }
    if cidr.None? || cidr.value < 0 || cidr.value > 32 {
      return Failure(RangeError);
    }
    var p := cidr.value;
    var a := Octets(ip);
    var mask := CidrToSubnetMask(p);
    var network := NetworkAddress(a, mask);
    var broadcast := BroadcastAddress(network, mask);
    var first, last := CalculateHostRange(network, broadcast);
    var total := TotalAddresses(p);
    r := Success(SubnetResult(
      ip, p, mask, network, broadcast, first, last, HostCount(p), total,
      IpToBinary(a), IpToBinary(mask), IpToBinary(network), IpToBinary(broadcast)));
  }

  /**
   * What a result means: the network is the address rounded down to a
   * multiple of the block size and the broadcast the last address of the
   * block, the address lies between them, the broadcast masks back to the
   * network, the host count is the number of addresses from the first host
   * to the last, the mask converts back to the prefix and reads as `p` ones
   * then `32 - p` zeros in binary. At /32 the first host lies past the last.
   */
  lemma ResultFacts(res: SubnetResult, ip: string, p: int)
    requires IsValidIP(ip) && 0 <= p <= 32 && Describes(res, ip, p)
    ensures var u := ToU32(Octets(ip));
      ToU32(res.networkAddress) == u - u % res.totalAddresses &&
      ToU32(res.broadcastAddress) == ToU32(res.networkAddress) + res.totalAddresses - 1 &&
      ToU32(res.networkAddress) <= u <= ToU32(res.broadcastAddress)
    ensures NetworkAddress(res.broadcastAddress, res.subnetMask) == res.networkAddress
    ensures res.hostCount == ToU32(res.lastHost) - ToU32(res.firstHost) + 1
    ensures res.totalAddresses == res.hostCount + 2
    ensures SubnetMaskToCidr(res.subnetMask) == p
    ensures res.binarySubnetMask == Grouped(Repeat('1', p) + Repeat('0', 32 - p))
    ensures p == 32 ==> ToU32(res.firstHost) == ToU32(res.lastHost) + 2
  {
    var a := Octets(ip);
    PrefixBlock(a, p);
    BroadcastInNetwork(a, PrefixMask(p));
    MaskRoundTrip(p);
    PrefixMaskBinary(p);
  }

  /** A result is a function of the address text and the prefix alone. */
  lemma ResultDeterminedByInput(r1: SubnetResult, r2: SubnetResult, ip: string, p: int)
    requires IsValidIP(ip) && 0 <= p <= 32
    requires Describes(r1, ip, p) && Describes(r2, ip, p)
    ensures r1 == r2
  {
    HostOctetsUnique(r1.firstHost, r2.firstHost);
    HostOctetsUnique(r1.lastHost, r2.lastHost);
  }

  // ---------------------------------------------------------------------
  // Parsing the input text

  /**
   * `parseInput`: after trimming, text with a '/' is split there into an
   * address and a prefix, both trimmed and neither validated; other text
   * must be exactly two white-space separated valid dotted addresses, the
   * second of which is read as a mask by counting its set bits.
   */
  function ParseInput(input: string): (r: Result<Parsed, CalcError>)
    ensures r.Failure? ==> r.error == FormatError && '/' !in Trim(input)
    ensures '/' !in Trim(input) && r.Success? ==>
      IsValidIP(r.value.ip) && InRange(r.value.cidr)
  {
    var s := Trim(input);
    if '/' in s then
      var halves := Split(s, '/');
      Success(Parsed(Trim(halves[0]), ParseInt(Trim(halves[1]))))
    else
      var parts := SplitOnWhitespaceRuns(s);
      if |parts| == 2 && IsValidIP(parts[0]) && IsValidIP(parts[1]) then
        Success(Parsed(parts[0], Some(SubnetMaskToCidr(Octets(parts[1])))))
      else
        Failure(FormatError)
  }

  /** Dotted decimal text holds neither white space nor '/'. */
  lemma DottedTextPlain(a: seq<int>)
    requires IsAddress(a)
    ensures var s := FormatAddress(a);
      s != [] && Avoids(s, Whitespace) && Avoids(s, {'/'})
  {
    var s := FormatAddress(a);
    FormatAddressChars(a);
    forall i | 0 <= i < |s| ensures s[i] !in Whitespace {
      DigitNotWhitespace(s[i]);
    }
  }

  /** Decimal digits hold neither white space nor '/'. */
  lemma DigitsPlain(s: string)
    requires AllDigits(s)
    ensures Avoids(s, Whitespace) && Avoids(s, {'/'})
  {
    forall i | 0 <= i < |s| ensures s[i] !in Whitespace && s[i] != '/' {
      DigitNotWhitespace(s[i]);
    }
  }

  /**
   * Text `x/y`, where `x` holds no '/', parses to `x` and the number before
   * any further '/' in `y`, both with surrounding white space trimmed and
   * neither validated.
   */
  lemma SlashTextParses(x: string, y: string)
    requires Avoids(x, {'/'})
    ensures ParseInput(x + "/" + y) == Success(Parsed(Trim(x), ParseInt(Trim(Split(y, '/')[0]))))
  {
    SplitTrimmedSlash(x, y);
    SlashBranch(x + "/" + y, TrimStart(x), Split(TrimEnd(y), '/'));
    TrimOfTrimStart(x);
    FirstPieceTrimmed(y);
  }

  /** Text `x/y` with a single '/' parses to `x` and the number `y` spells, both trimmed. */
  lemma SingleSlashTextParses(x: string, y: string)
    requires Avoids(x, {'/'}) && Avoids(y, {'/'})
    ensures ParseInput(x + "/" + y) == Success(Parsed(Trim(x), ParseInt(Trim(y))))
  {
    SlashTextParses(x, y);
    FirstPieceOfPlain(y);
  }

  /** On text whose trim holds a '/', `parseInput` takes the trimmed pieces before and after the first '/'. */
  lemma SlashBranch(input: string, first: string, rest: seq<string>)
    requires Split(Trim(input), '/') == [first] + rest && rest != []
    ensures ParseInput(input) == Success(Parsed(Trim(first), ParseInt(Trim(rest[0]))))
  {
    assert Split(Trim(input), '/')[1] == rest[0];
  }

  /** Text without '/' is its own first piece. */
  lemma FirstPieceOfPlain(y: string)
    ensures Avoids(y, {'/'}) ==> Split(y, '/')[0] == y
  {
    if Avoids(y, {'/'}) {
      SplitNoSeparator(y, {'/'});
    }
  }

  /** Trimming `x/y` trims only the outer ends, so the text still splits at the '/' after `x`. */
  lemma SplitTrimmedSlash(x: string, y: string)
    requires Avoids(x, {'/'})
    ensures Split(Trim(x + "/" + y), '/') == [TrimStart(x)] + Split(TrimEnd(y), '/')
  {
    assert x + "/" + y == x + ['/'] + y;
    TrimStartAround(x, '/', y);
    TrimEndAround(TrimStart(x), '/', y);
    var a := TrimStart(x);
    AvoidsSlice(x, |x| - |a|, |x|, {'/'});
    SplitAtFirstSeparator(a, '/', TrimEnd(y), {'/'});
  }

  /** The text before the first '/' of `y`, trimmed, is the same whether or not the end of `y` was trimmed first. */
  lemma FirstPieceTrimmed(y: string)
    ensures Trim(Split(TrimEnd(y), '/')[0]) == Trim(Split(y, '/')[0])
  {
    var parts := Split(y, '/');
    var b := TrimEnd(y);
    if '/' in y {
      JoinSplit(y, '/');
      var r := Join(parts[1..], '/');
      assert y == parts[0] + ['/'] + r;
      TrimEndAround(parts[0], '/', r);
      assert Avoids(parts[0], {'/'});
      SplitAtFirstSeparator(parts[0], '/', TrimEnd(r), {'/'});
    } else {
      SplitNoSeparator(y, {'/'});
      AvoidsSlice(y, 0, |b|, {'/'});
      SplitNoSeparator(b, {'/'});
      TrimOfTrimEnd(y);
    }
  }

  /**
   * Text `x w y`, where `w` is a run of white space and the halves hold no
   * white space and no '/', parses to `x` and the set bits of `y` when both
   * are valid addresses, and fails otherwise.
   */
  lemma SpaceTextParses(x: string, w: string, y: string)
    requires x != [] && y != [] && Avoids(x, Whitespace) && Avoids(y, Whitespace)
    requires Avoids(x, {'/'}) && Avoids(y, {'/'})
    requires w != [] && Within(w, Whitespace)
    ensures ParseInput(x + w + y) ==
      if IsValidIP(x) && IsValidIP(y) then Success(Parsed(x, Some(SubnetMaskToCidr(Octets(y)))))
      else Failure(FormatError)
  {
    var s := x + w + y;
    assert s[0] == x[0] && s[|s| - 1] == y[|y| - 1];
    TrimKeepsUnpadded(s);
    forall i | 0 <= i < |s| ensures s[i] != '/' {
      if i < |x| {
        assert s[i] == x[i];
      } else if i < |x| + |w| {
        assert s[i] == w[i - |x|] && s[i] in Whitespace;
      } else {
        assert s[i] == y[i - |x| - |w|];
      }
    }
    SplitOnRunBetween(x, w, y);
  }

  /** Text that is one token, holding neither white space nor '/', is a format error. */
  lemma OneTokenFails(s: string)
    requires Avoids(s, Whitespace) && Avoids(s, {'/'})
    ensures ParseInput(s) == Failure(FormatError)
  {
    TrimOfPlain(s);
    SplitNoSeparator(s, Whitespace);
  }

  /**
   * The converse of `SpaceTextParses`: text without '/' parses only when,
   * trimmed, it is the address and one more white-space-free valid address
   * around a run of white space, and the prefix is the set bits of the
   * second one. So three or more tokens are a format error.
   */
  lemma SpaceTextOnly(input: string)
    requires '/' !in Trim(input) && ParseInput(input).Success?
    ensures var r := ParseInput(input).value;
      Avoids(r.ip, Whitespace) &&
      exists w, y :: w != [] && Within(w, Whitespace) && Avoids(y, Whitespace) && IsValidIP(y) &&
        Trim(input) == r.ip + w + y && r.cidr == Some(SubnetMaskToCidr(Octets(y)))
  {
    var parts := SplitOnWhitespaceRuns(Trim(input));
    var w := SplitOnRunsOfTwo(Trim(input));
    assert Trim(input) == parts[0] + w + parts[1];
  }

  /** `parseInput("A/p")` for the dotted text `A` of an address and a prefix `p`. */
  lemma SlashFormParses(a: seq<int>, p: int)
    requires IsAddress(a) && 0 <= p <= 32
    ensures ParseInput(FormatAddress(a) + "/" + NatToString(p)) == Success(Parsed(FormatAddress(a), Some(p)))
  {
    AddressTextTrimmed(a);
    PrefixTextReads(p);
    SingleSlashTextParses(FormatAddress(a), NatToString(p));
  }

  /** Dotted decimal text is its own trim and holds no '/'. */
  lemma AddressTextTrimmed(a: seq<int>)
    requires IsAddress(a)
    ensures Trim(FormatAddress(a)) == FormatAddress(a) && Avoids(FormatAddress(a), {'/'})
  {
    DottedTextPlain(a);
    TrimOfPlain(FormatAddress(a));
  }

  /** The decimal text of a prefix holds no '/' and, trimmed, reads back as the prefix. */
  lemma PrefixTextReads(p: nat)
    ensures Avoids(NatToString(p), {'/'}) && ParseInt(Trim(NatToString(p))) == Some(p)
  {
    ParseIntToString(p);
    assert IntToString(p) == NatToString(p);
    DigitsTrimmed(NatToString(p));
  }

  /** Decimal digits hold no '/' and are their own trim. */
  lemma DigitsTrimmed(s: string)
    requires AllDigits(s)
    ensures Avoids(s, {'/'}) && Trim(s) == s
  {
    DigitsPlain(s);
    TrimOfPlain(s);
  }

  /** `parseInput("A M")` for the dotted text `A` of an address and the dotted mask `M` of a prefix `p`. */
  lemma MaskFormParses(a: seq<int>, p: int)
    requires IsAddress(a) && 0 <= p <= 32
    ensures ParseInput(FormatAddress(a) + " " + FormatAddress(PrefixMask(p))) == Success(Parsed(FormatAddress(a), Some(p)))
  {
    DottedTextPlain(a);
    DottedTextPlain(PrefixMask(p));
    SpaceTextParses(FormatAddress(a), " ", FormatAddress(PrefixMask(p)));
    FormatThenParse(a);
    FormatThenParse(PrefixMask(p));
    MaskRoundTrip(p);
  }

  /** The two notations agree: `"A/p"` and `"A M"`, where `M` is the mask of `p`, parse to the same pair. */
  lemma SlashAndMaskFormsAgree(a: seq<int>, p: int)
    requires IsAddress(a) && 0 <= p <= 32
    ensures ParseInput(FormatAddress(a) + "/" + NatToString(p))
      == ParseInput(FormatAddress(a) + " " + FormatAddress(PrefixMask(p)))
      == Success(Parsed(FormatAddress(a), Some(p)))
  {
    SlashFormParses(a, p);
    MaskFormParses(a, p);
  }

  // ---------------------------------------------------------------------
  // The range check as the source writes it

  /**
   * `cidr < 0 || cidr > 32` on the value `parseInt` produced: every
   * comparison with NaN is false, so NaN is never rejected.
   */
  function RangeGuardAsWritten(cidr: Option<int>): bool
  {
    match cidr
    case None => false
    case Some(c) => c < 0 || c > 32
  }

  /**
   * A prefix that is not a number, such as "x" in `"A/x"`, parses to NaN
   * and passes the range check as written; `PerformSubnetCalculation`
   * rejects it with the range error.
   */
  lemma NonNumericPrefixPassesGuard(a: seq<int>, t: string)
    requires IsAddress(a) && ParseInt(Trim(Split(t, '/')[0])).None?
    ensures ParseInput(FormatAddress(a) + "/" + t) == Success(Parsed(FormatAddress(a), None))
    ensures !RangeGuardAsWritten(None) && !InRange(None)
  {
    AddressTextTrimmed(a);
    SlashTextParses(FormatAddress(a), t);
  }
}
