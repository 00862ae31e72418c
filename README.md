# IPv4 subnet calculator — a verified model

This project models the calculation core of the `ipcul` subnet calculator.
The user types an IPv4 address with either a CIDR prefix (`192.168.1.0/24`)
or a dotted subnet mask (`192.168.1.0 255.255.255.0`). The calculator reads
that text and checks the address. It turns the prefix into a mask and derives:

- the network address, by AND;
- the broadcast address, by OR with the wildcard bits;
- the first and last host, by increment with carry and decrement with borrow;
- the host count and the address count;
- the dotted binary form of the address, the mask, the network and the broadcast.

Two classifiers label the address with its classful network class and its
special-purpose type: private, loopback, link-local or public.

The modules follow the structure of the source:

- `Wrappers`: `Option` and `Result`.
- `Text`: splitting, joining, trimming, white-space runs, and `parseInt`/`String` of integers.
- `Bits`: powers of two, `&` and `|` on naturals, and base-2 digit strings.
- `IPv4`: octets, the 32-bit value `ToU32`, dotted decimal text (`isValidIP`), and dotted binary text (`ipToBinary`).
- `Masks`: `cidrToSubnetMask` (a loop building the mask) and `subnetMaskToCidr` (a count of set bits).
- `Subnet`: network and broadcast addresses, the host range (carry and borrow on a four-element array), and the counts.
- `Classify`: `getNetworkClass` and `getNetworkType`, with their ranges proved to be the CIDR blocks of RFC 791 section 3.2, RFC 1918 section 3, RFC 1122 section 3.2.1.3 and RFC 3927.
- `Calculator`: `parseInput` and `performSubnetCalculation`.

Two behaviours of the code are easy to get wrong:

- `subnetMaskToCidr` counts set bits and does not check that the mask is contiguous. The mask 255.0.255.0 gives 16 (`Masks.NonContiguousMaskCounted`).
- `calculateHostRange` never wraps octet 0. The first host of 255.255.255.255 has 256 there, and the last host of 0.0.0.0 has -1 (`Subnet.CalculateHostRange`).

Between stages the model passes addresses as octet sequences, where the source passes dotted strings that each stage splits again.
`IPv4.FormatThenParse` proves that this loses nothing: printing octets and reading them back gives the same octets.

## Model

| member | source | states |
|---|---|---|
| IPv4.IsValidIP | ipcul/script.js:2-9 | text `isValidIP` accepts (with the whole-string `parseInt` of ## Left out) is at least seven characters, all digits, signs or '.', so it has no white space and no '/' |
| IPv4.Octets | ipcul/script.js:39 | the parsed octets of text that `isValidIP` accepts are four values in 0..255 |
| IPv4.FormatThenParse | ipcul/script.js:2-9 | joining four octets with '.' gives text `isValidIP` accepts, and splitting and parsing it returns the same octets |
| IPv4.OctetBinaryDenotes | ipcul/script.js:33 | the padded base-2 text of an octet is exactly eight binary digits, holds no '.', and denotes the octet |
| IPv4.IpToBinary | ipcul/script.js:31-35 | `ipToBinary` is 35 characters that split at '.' into four groups of eight binary digits, each denoting its octet, so nothing is lost |
| Masks.CidrToSubnetMask | ipcul/script.js:13-21 | the four-round loop builds the mask of the prefix; as a 32-bit number it is `2^32 - 2^(32-p)`, i.e. p ones then zeros |
| Masks.PrefixMaskValue | ipcul/script.js:13-21 | the mask of `p` is `2^32 - 2^(32-p)` as a 32-bit number |
| Masks.OctetMaskValues | ipcul/script.js:16-17 | each mask octet is one of 0, 128, 192, 224, 240, 248, 252, 254, 255; it is 255 exactly when the round has 8 bits left and 0 exactly when none |
| Masks.PrefixMaskOctets | ipcul/script.js:13-21 | octet i of the mask of p is one of the nine mask values, 255 iff p ≥ 8(i+1), 0 iff p ≤ 8i |
| Masks.PrefixMaskShape | ipcul/script.js:13-21 | the mask is 255 in the octets before q, `256 - 2^j` at octet q and 0 after it, where p = 8q + 8 - j |
| Masks.SubnetMaskToCidr | ipcul/script.js:24-28 | the set-bit count of a mask of n octets is at most 8n, so at most 32 for four octets |
| Masks.OctetMaskOnes | ipcul/script.js:26 | the base-2 text of a mask octet has as many '1' digits as the prefix bits in that octet |
| Masks.SetBitsOfPrefixMask | ipcul/script.js:24-28 | the set-bit count over octets i..3 of the mask of p is the sum of the prefix bits in those octets |
| Masks.MaskRoundTrip | ipcul/script.js:13-28 | `subnetMaskToCidr(cidrToSubnetMask(p)) == p` for every p in 0..32 |
| Masks.NonContiguousMaskCounted | ipcul/script.js:24-28 | 255.0.255.0, which is the mask of no prefix, converts to 16: contiguity is not checked |
| Masks.OctetMaskBinary | ipcul/script.js:33 | the padded base-2 text of a mask octet is its ones followed by its zeros, eight digits |
| Masks.PrefixMaskBinary | ipcul/script.js:133 | `ipToBinary` of the mask of p is p ones and 32 - p zeros in four '.'-separated groups of eight |
| Subnet.NetworkAddress | ipcul/script.js:38-43 | the network is an address whose every octet is at most the address octet and at most the mask octet |
| Subnet.BroadcastAddress | ipcul/script.js:46-54 | the broadcast is an address whose every octet is at least the network octet and at least the wildcard octet |
| Subnet.NetworkIdempotent | ipcul/script.js:38-43 | computing the network of the network with the same mask returns it unchanged |
| Subnet.BroadcastInNetwork | ipcul/script.js:46-54 | the broadcast masked with the same mask gives back the network |
| Subnet.OctetUnderMask | ipcul/script.js:42 | AND with a mask octet of c leading ones rounds the octet down to a multiple of `2^(8-c)`, and OR with its wildcard sets the low `8-c` bits |
| Subnet.PrefixNetworkShape | ipcul/script.js:115-117 | under the mask of p, octets before q are copied, octet q loses (network) or gains (broadcast) its low j bits, and later octets become 0 or 255 |
| Subnet.PrefixBlock | ipcul/script.js:115-117 | as 32-bit numbers, network = address rounded down to a multiple of `2^(32-p)`, broadcast = network + `2^(32-p)` - 1, and network ≤ address ≤ broadcast |
| Subnet.Increment | ipcul/script.js:62-75 | the carry chain on an array copy adds one to the 32-bit value; octets 1-3 stay in 0..255, octet 0 can reach 256, and the result is an address iff the input is not 255.255.255.255 |
| Subnet.Decrement | ipcul/script.js:78-91 | the borrow chain on an array copy subtracts one from the 32-bit value; octets 1-3 stay in 0..255, octet 0 can reach -1, and the result is an address iff the input is not 0.0.0.0 |
| Subnet.CalculateHostRange | ipcul/script.js:57-97 | first = network + 1 and last = broadcast - 1 as 32-bit values, with the octet bounds and the two cases where octet 0 leaves 0..255 |
| Subnet.HostOctetsUnique | ipcul/script.js:57-97 | a host address whose octets 1-3 are in 0..255 is determined by its 32-bit value, whatever octet 0 holds |
| Subnet.HostCount | ipcul/script.js:100-103 | the host count is the address count less the network and broadcast addresses; it is positive iff p ≤ 30 and never below -1 |
| Subnet.TotalAddresses | ipcul/script.js:130 | the address count is at least 1, and `2^p` blocks of it make up exactly `2^32` addresses |
| Subnet.HostCountEdges | ipcul/script.js:100-103 | unclamped, /31 gives 0 hosts and /32 gives -1; /0 gives 4294967294 |
| Calculator.PerformSubnetCalculation | ipcul/script.js:106-137 | an invalid address is a format error before the prefix is looked at; otherwise a prefix outside 0..32 (or NaN) is a range error; success exactly when both pass, and then every field is the operation the source applies to the address and the mask of p |
| Calculator.ResultFacts | ipcul/script.js:115-135 | on a result: network and broadcast bound the address's block of `2^(32-p)`, the broadcast masks back to the network, hostCount counts first..last, total = hostCount + 2, the mask converts back to p and reads as p ones in binary, and at /32 the first host lies past the last |
| Calculator.ResultDeterminedByInput | ipcul/script.js:121-136 | the result is a function of the address text and the prefix alone |
| Calculator.ParseInput | ipcul/script.js:140-161 | a failure is always the format error and happens only without '/'; without '/', a success carries an address `isValidIP` accepts and a prefix in 0..32 |
| Calculator.SlashTextParses | ipcul/script.js:141-147 | text `x/y`, `x` free of '/', parses to `x.trim()` and `parseInt` of the trimmed text before any second '/' in `y` (all of `y` when it has none), neither validated |
| Calculator.SingleSlashTextParses | ipcul/script.js:144-146 | text `x/y` with one '/' parses to `x.trim()` and `parseInt(y.trim())`, so `"A / 24"` reads as `"A/24"` |
| Calculator.SplitTrimmedSlash | ipcul/script.js:141-145 | trimming `x/y` touches only the outer ends, so the text still splits at the '/' after `x` into the start-trimmed `x` and the pieces of the end-trimmed `y` |
| Text.TrimOfTrimEnd | ipcul/script.js:146 | trimming the end of a piece before `trim()` does not change the result |
| Calculator.SpaceTextParses | ipcul/script.js:150-160 | text `x w y`, w any non-empty run of white space, parses to `x` and the set-bit count of `y` when both pass `isValidIP`, and is a format error otherwise |
| Calculator.OneTokenFails | ipcul/script.js:150-160 | one token with no white space and no '/' (a bare address, "not-an-ip") is the format error |
| Calculator.SpaceTextOnly | ipcul/script.js:150-160 | without '/', a success means the trimmed text is the address, a non-empty white-space run and a white-space-free mask that passes `isValidIP`, with the prefix its set-bit count; so three or more tokens fail |
| Calculator.SlashFormParses | ipcul/script.js:144-147 | `"A/p"` parses to the address text A and the prefix p |
| Calculator.MaskFormParses | ipcul/script.js:150-157 | `"A M"` with M the dotted mask of p parses to A and p |
| Calculator.SlashAndMaskFormsAgree | ipcul/script.js:140-161 | `"A/p"` and `"A M"` parse to the same pair |
| Calculator.NonNumericPrefixPassesGuard | ipcul/script.js:111 | a prefix text that `parseInt` reads as NaN, once trimmed and cut at a second '/', is returned by `parseInput` unchecked, and the range test as written does not reject it |
| Classify.FieldValue | ipcul/script.js:299 | on text `isValidIP` accepts, field i parses to octet i |
| Classify.GetNetworkClass | ipcul/script.js:298-299 | on text `isValidIP` accepts, the class is decided by the parsed first octet alone |
| Classify.ClassOf | ipcul/script.js:300-305 | a first octet gets a class iff it is a number in 1..255 other than 127; NaN is `Unknown` |
| Classify.GetNetworkType | ipcul/script.js:309-312 | on text `isValidIP` accepts, the type is decided by the parsed first two octets alone |
| Classify.TypeOf | ipcul/script.js:314-325 | Loopback iff the first octet is 127 and link-local iff it is 169.254, so no private test shadows them; a NaN first octet is Public |
| Classify.ClassesAsBlocks | ipcul/script.js:298-306 | A is 0/1 without 0 and 127, B is 128/2, C is 192/3, D is 224/4, E is 240/4, and Unknown is exactly 0 and 127 |
| Classify.TypesAsBlocks | ipcul/script.js:309-326 | Private is exactly 10/8 ∪ 172.16/12 ∪ 192.168/16, Loopback 127/8, link-local 169.254/16, Public all else; the blocks are disjoint, so the order of the tests does not matter |
| Text.ParseIntToString | ipcul/script.js:146 | `parseInt(String(n), 10) == n` for every integer, with `String` rendering plain decimal digits |
| Text.ParseInt | ipcul/script.js:7 | a number is read only from text of an optional sign and digits, and a plain digit string reads as its decimal value |
| Text.SplitOnRunBetween | ipcul/script.js:150 | `split(/\s+/)` of two white-space-free pieces around a white-space run gives exactly those two pieces |
| Text.SplitOnRunsOfTwo | ipcul/script.js:150 | conversely, text that `split(/\s+/)` cuts into two pieces is those two pieces around a non-empty white-space run |
| Text.NotANumber | ipcul/script.js:146 | the empty text, a bare sign and a letter parse to NaN |

## Left out

- The DOM and rendering code of `ipcul/script.js` is not part of this model: the examples, the form handlers, the loading and error display, result templating with `toLocaleString`, and the key listeners. `app.js` (a canvas animation) and `blog/app.js` (page wiring) are not part of it either.
- `parseInt` is modelled on a whole string: an optional sign and at least one decimal digit, else NaN (`None`). JavaScript's `parseInt` also skips leading white space and ignores trailing garbage (`"1a"` reads as 1); the model treats such text as NaN.
- NaN arithmetic beyond the range test is not modelled. The source would carry NaN into `cidrToSubnetMask` and produce garbage; the model's driver rejects NaN with the range error (see Findings).
- The error messages are two abstract errors (format and range); their texts are not modelled.
- Between stages the model passes octet sequences instead of dotted strings. `IPv4.FormatThenParse` shows that printing and re-reading loses nothing.
- `Text.IntToString` renders plain decimal digits only. JavaScript's `String` switches to exponent notation from 10^21, which the calculator never reaches: it renders prefixes, octets in -1..256 and counts up to 2^32.
- `Math.pow` is an exact integer power. That is exact here because every exponent is at most 32.

## Findings

| source | as written | input that shows it | evidently intended | confidence | as-written member | corrected member |
|---|---|---|---|---|---|---|
| ipcul/script.js:111 | `cidr < 0 \|\| cidr > 32` on the NaN that `parseInt` returns for a non-numeric prefix; both comparisons are false, so NaN passes | `192.168.1.0/x` | a prefix that is not a number is rejected with the range error | not executed | Calculator.NonNumericPrefixPassesGuard | Calculator.PerformSubnetCalculation |
