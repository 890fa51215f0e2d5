# pyopenbsd core, modelled in Dafny

This project models the pure and sequential part of pyopenbsd, the Python bindings to OpenBSD's
packet filter, interface configuration and packet capture. It leaves out the kernel calls and
covers what sits above them:

- the address and byte codec of `openbsd/utils.py`:
  - big-endian integers to and from bytes;
  - the 16-bit Internet checksum;
  - the longest-run finder;
  - IPv4, IPv6 and Ethernet text to and from bytes;
  - netmasks and prefix lengths;
  - the `Address` / `Mask` / `AddressFromBytes` factories.
- the field descriptors of `openbsd/_packetDescriptors.py`. These are read and written through
  the buffer primitives of the protocol object that owns them.
- `_flatTreeWalker`, `_dirmaker` / `_makeTree`, anchor paths, table flag names and the argument
  checks of `PF.killStates` in `openbsd/pf.py`.
- `unique`, `FlagVal`, the media lookups and `Interface.up` / `down` in `openbsd/ifconfig.py`.

Modules, one per file:

| file | module | what it holds |
|---|---|---|
| common.dfy | Common | bytes, Python's exception kinds, `Result`/`Option`, powers of 2 and 256, `Distinct` |
| text.dfy | Text | `str.split`/`join`, decimal and hex digits, `::` search, lower-casing |
| numeric.dfy | NumericCodec | `multiord`, `multichar`, `cksum16` |
| runs.dfy | Runs | `findLongestSubsequence`, as written and as intended |
| double_association.dfy | DoubleAssociations | `DoubleAssociation` |
| bits.dfy | Bitwise | Python's bitwise or, and, not on unbounded two's-complement integers; flag tables |
| addresses.dfy | Addresses | `getBlocks`, Ethernet, IPv4 and IPv6 addresses |
| masks.dfy | Masks | `_countPrefix`, `IPMask`, `IP6Mask` |
| factories.dfy | Factories | `Address`, `Mask`, `AddressFromBytes`, `__eq__` |
| options.dfy | OptionTables | `Options` |
| buffer.dfy | Buffers | the buffer primitives the descriptors rely on, stated as contracts |
| descriptors.dfy | Descriptors | every descriptor class, and the owning object as the class `Packet` |
| pf.dfy | PacketFilter | the pf.py helpers |
| ifconfig.dfy | InterfaceConfig | the ifconfig.py helpers |

How the source's own form is kept:
- Loops that update variables are methods with loop invariants, each proved equal to a
  specification function whose properties are lemmas. These are `MultiOrd`, `MultiChar`,
  `Cksum16`, `FindLongestSubsequence`, `CountPrefix`, `GetBlocks`, `OrOfOptions`,
  `FlatTreeWalker`, `MakeTree`, `Unique`, `FlagDesc` and `GetAllOptions`.
- Objects whose fields change are classes with `modifies` clauses: `Options`,
  `DoubleAssociation`, `Packet` and `Interface`.
- Address objects are immutable in the source, so they are values (`Addr`).

Python 2 semantics are written out:
- Floor `/` and `%` on non-negative operands.
- Bitwise or, and and not on negative numbers as infinite two's complement.
- `hex()` and `%x` of a negative number print a `-` sign.
- `try ... except ValueError` chains become `OrElse`.
- Every exception is an `Err` holding its kind.

The run finder `findLongestSubsequence` raises NameError in one case (see "## Findings"), and
that error reaches `IP6Address.fromBytes`, `IP6Mask`, `Mask`, `AddressFromBytes`, the IPv6
descriptor's getter and `killStates`. Each of these has two definitions:
- one as written (`IP6FromBytesAsWritten`, `IP6MaskAsWritten`, `MaskAsWritten`,
  `AddressFromBytesAsWritten`, `ReadAsWritten`, `KillStatesAsWritten`), with lemmas that say
  exactly where the NameError comes out and that it agrees with the corrected one everywhere
  else;
- one corrected, built on the run finder's intended result, which the rest of the model uses.
  Rows marked "(corrected ...)" below are about the corrected definitions.

A few behaviours are modelled as the code has them, and they differ from what the docstrings
suggest:
- `killStates` tests `if srcmask:`, so a mask of prefix length 0 is falsy. It is replaced by an
  all-`0xff` mask, like no mask at all (`KillStatesZeroPrefix`).
- `_dirmaker` fails with `TypeError` or `AttributeError` when a path runs into a leaf. Which of
  the two depends on the depth: `TypeError` at depth 2, `AttributeError` past it.
- `_flatTreeWalker` raises `IndexError` at its first `yield` when one of its lists is empty. With
  no lists at all it yields one empty path.

## Model

| member | source | states |
|---|---|---|
| NumericCodec.MultiOrd | openbsd/utils.py:30-40 | the loop's result is the big-endian value of the bytes |
| NumericCodec.EncodeRoundTrip | openbsd/utils.py:43-59 | a number below 256^w encoded in w bytes decodes back to it |
| NumericCodec.DecodeRoundTrip | openbsd/utils.py:30-59 | re-encoding the value of a byte string in its own width gives the string back |
| NumericCodec.BigEndianBound | openbsd/utils.py:30-40 | the value of n bytes is below 256^n |
| NumericCodec.BigEndianZeros | openbsd/utils.py:56-58 | left padding with NUL bytes does not change the value |
| NumericCodec.NatToBytesSpec | openbsd/utils.py:43-59 | multichar succeeds exactly when the value fits in the width, and then has that width and that value |
| NumericCodec.MinimalBytesFacts | openbsd/utils.py:50-53 | the digits the loop produces have the value, and are the fewest that hold it |
| NumericCodec.MultiChar | openbsd/utils.py:43-59 | the loop returns ValueError when the number is too wide, else exactly width bytes whose value is the number |
| NumericCodec.FoldFacts | openbsd/utils.py:73-74 | folding carries ends at most 0xFFFF, keeps the sum modulo 0xFFFF, and is 0 only for 0 |
| NumericCodec.ChecksumComplement | openbsd/utils.py:62-76 | the checksum is in [0, 0xFFFF] and is the one's complement of the folded word sum |
| NumericCodec.WordSumAppend | openbsd/utils.py:67-70 | a further pair of bytes adds the big-endian word hi*256+lo |
| NumericCodec.ChecksumVerifies | openbsd/utils.py:62-76 | appending the checksum to even-length data makes the folded sum 0xFFFF, i.e. the data verifies (RFC 1071 section 1) |
| NumericCodec.Checksum | openbsd/utils.py:62-76 | the definition of what cksum16 returns; its contract is in ChecksumComplement, ChecksumVerifies and Cksum16 |
| NumericCodec.ChecksumKnownVector | openbsd/utils.py:62-76 | (example) bytes 0x00..0x08, with the odd last byte shifted high, give 60399 |
| NumericCodec.Cksum16 | openbsd/utils.py:62-76 | the two loops compute the checksum function, in [0, 0xFFFF] |
| Runs.RunEnd | openbsd/utils.py:106-109 | the inner loop stops on the last element of the run that starts at i |
| Runs.RunEndUnique | openbsd/utils.py:106-109 | the end of a run is determined by its start |
| Runs.ScanCorrect | openbsd/utils.py:101-111 | the scan from any point that keeps its invariant ends with a longest run, earliest on ties |
| Runs.LongestRunIsLongest | openbsd/utils.py:97-112 | the intended result is a run of the value, no run is longer, an equally long run does not start earlier, and start == end only as (0, 0) |
| Runs.LongestRunShortCases | openbsd/utils.py:97-112 | with no two adjacent occurrences the result is (0, 0); otherwise start < end and everything between is the value |
| Runs.FindLongestSubsequence | openbsd/utils.py:97-112 | the shared-iterator loop gives the as-written result, NameError included |
| Runs.LongestRunExamples | openbsd/utils.py:97-112 | (example) "ffaaaff" gives (2, 4) and "aaa" gives (0, 2) |
| Runs.LongestRunTwoRuns | openbsd/utils.py:97-112 | of two runs the longer one wins even when it touches the end |
| Runs.LongestRunEqualRuns | openbsd/utils.py:97-112 | of two equal runs the earlier wins |
| Runs.LongestRunTieAtStart | openbsd/utils.py:97-112 | a run at index 0 wins a tie |
| Runs.LongestRunAsWrittenFails | openbsd/utils.py:101-110 | a first occurrence at the last index raises NameError; a lone earlier one gives (0, 0) |
| Runs.LongestRunAsWritten | openbsd/utils.py:97-112 | (as written) the definition; its contract is in LongestRunAsWrittenFails, and FindLongestSubsequence proves the loop equal to it |
| DoubleAssociations.Associate | openbsd/utils.py:132-134 | after a set, value maps to key and (unless equal) key to value; other entries are unchanged |
| DoubleAssociations.AssociateKeepsSymmetric | openbsd/utils.py:115-134 | with keys and values disjoint, a set keeps every association two-way |
| DoubleAssociations.AssociateAllSymmetric | openbsd/utils.py:127-130 | building from disjoint pairs gives a symmetric table |
| DoubleAssociations.DoubleAssociation.constructor | openbsd/utils.py:127-130 | the table is every initial pair associated in turn |
| DoubleAssociations.DoubleAssociation.Get | openbsd/utils.py:115-134 | lookup finds what is stored, else KeyError |
| DoubleAssociations.DoubleAssociation.Set | openbsd/utils.py:132-134 | both directions are stored and found afterwards |
| DoubleAssociations.AssociationExample | openbsd/utils.py:132-134 | (example) setting 1 to 2 maps 1 to 2 and 2 to 1 |
| Text.DigitsRoundTrip | openbsd/utils.py:151 | a number's decimal or hex digits parse back to it |
| Text.SplitJoin | openbsd/utils.py:145 | splitting a join on its separator gives the parts back when they hold no separator |
| Text.FindDouble | openbsd/utils.py:336-340 | the first "::" is found, or none exists |
| Text.LowerIdempotent | openbsd/_packetDescriptors.py:42-57 | (supporting fact) lower-casing twice is lower-casing once |
| Addresses.BlocksOf | openbsd/utils.py:145-157 | every accepted block is at most 0xffff; failures are ValueError |
| Addresses.GetBlocks | openbsd/utils.py:140-157 | the loop skips empty pieces, raises ValueError on non-hex or over 0xffff, and is the specification function |
| Addresses.BlocksOfValues | openbsd/utils.py:145-157 | non-empty hex pieces up to 0xffff give their values |
| Addresses.BlocksJoin | openbsd/utils.py:140-157 | the hex groups of values, ':'-joined, parse back to the values |
| Addresses.EthernetBytesSpec | openbsd/utils.py:216-220 | Ethernet text is accepted exactly when it has six blocks below 256, and those are its bytes |
| Addresses.HexPair | openbsd/utils.py:209-213 | each byte prints as two hex digits that parse back to it |
| Addresses.EthernetRoundTrip | openbsd/utils.py:204-220 | fromBytes of six bytes gives text whose bytes are those six; other lengths raise ValueError |
| Addresses.EthernetFromBytes | openbsd/utils.py:204-214 | the definition of `EthernetAddress.fromBytes`; its contract is in EthernetRoundTrip |
| Addresses.EthernetAddress | openbsd/utils.py:198-220 | the definition; its contract is in EthernetBytesSpec and EthernetRoundTrip |
| Addresses.OctetsOfSpec | openbsd/utils.py:263-273 | dotted parts are accepted exactly when each is a decimal at most 255, and give those values |
| Addresses.IPv4Bytes | openbsd/utils.py:263-273 | accepted IPv4 text has four bytes; failures are ValueError |
| Addresses.IPv4RoundTrip | openbsd/utils.py:250-273 | fromBytes of four bytes gives text whose bytes are those four; other lengths raise ValueError |
| Addresses.IPFromBytes | openbsd/utils.py:250-261 | the definition of `IPAddress.fromBytes`; its contract is in IPv4RoundTrip |
| Addresses.IPAddress | openbsd/utils.py:243-273 | the definition; its contract is in OctetsOfSpec, IPv4Bytes and IPv4RoundTrip |
| Addresses.IPv6Groups | openbsd/utils.py:333-350 | accepted IPv6 text has eight groups at most 0xffff; failures are ValueError |
| Addresses.IPv6BytesErrors | openbsd/utils.py:333-350 | more than one "::", a bad block on either side of the gap, or a group count other than 8 raise ValueError |
| Addresses.IP6Address | openbsd/utils.py:310-350 | the definition of parsing; its contract is in IPv6Groups and IPv6BytesErrors |
| Addresses.GroupBytesGroups | openbsd/utils.py:321-322 | pairing bytes into groups and back is the identity |
| Addresses.ZeroRun | openbsd/utils.py:323 | (corrected run finder) the run fromBytes compresses is a run of "0" groups, no run is longer, no equally long run starts earlier, and (0, 0) stands for none |
| Addresses.GroupsTextGroups | openbsd/utils.py:318-350 | the text fromBytes prints parses back to the same eight groups |
| Addresses.IP6RoundTrip | openbsd/utils.py:318-350 | with the intended run finder, fromBytes of sixteen bytes gives text whose bytes are those sixteen; other lengths raise ValueError |
| Addresses.IP6FromBytes | openbsd/utils.py:318-331 | (corrected run finder) the definition; its contract is in IP6RoundTrip, and IP6FromBytesAsWrittenFails relates it to the code as written |
| Addresses.GroupsTextAbbreviates | openbsd/utils.py:323-327 | "::" is printed exactly when two adjacent groups are zero; otherwise the groups are joined in full |
| Addresses.AbbreviatedRun | openbsd/utils.py:323-325 | a compressed run covers at least two zero groups |
| Addresses.UnabbreviatedText | openbsd/utils.py:326-327 | with no run of two zeros the text is the plain join |
| Addresses.IP6FromBytesAsWrittenFails | openbsd/utils.py:318-331 | as written, fromBytes raises NameError exactly when group 7 is the only zero group, and otherwise agrees with the intended result |
| Addresses.IP6FromBytesAsWritten | openbsd/utils.py:318-331 | the definition as written; its contract is in IP6FromBytesAsWrittenFails |
| Addresses.AsWrittenOrCorrected | openbsd/utils.py:318-331 | as-written fromBytes is NameError when the first "0" group is the last one, and the intended result otherwise |
| Masks.LeadingOnes | openbsd/utils.py:173-177 | the count of leading 0xff bytes |
| Masks.CountPrefix | openbsd/utils.py:171-188 | the shared-iterator loop agrees with the prefix function, ValueError included |
| Masks.CountPrefixOfMask | openbsd/utils.py:171-188 | the mask of a prefix length counts back to that length |
| Masks.PrefixOf | openbsd/utils.py:171-188 | the definition of what `_countPrefix` returns; its contract is in CountPrefixOfMask and CountPrefixOnlyMasks, and CountPrefix proves the loops equal to it |
| Masks.CountPrefixOnlyMasks | openbsd/utils.py:171-188 | whatever _countPrefix accepts is exactly the mask of the length it returns |
| Masks.MaskBytesShape | openbsd/utils.py:291-301 | prefix/8 bytes 0xff, then the partial byte when prefix%8 != 0, then zeros, to the width |
| Masks.PartialByteTable | openbsd/utils.py:160-170 | the partial byte of 1..7 bits is in the prefix table with that count |
| Masks.TableIsPartialBytes | openbsd/utils.py:160-170 | every non-zero table entry is the partial byte of its count |
| Masks.BytesFromIPPrefixSpec | openbsd/utils.py:291-301 | prefix bytes exist exactly for 0..32, have four bytes and count back to the prefix |
| Masks.BytesFromIPPrefix | openbsd/utils.py:291-301 | the definition of `_bytesFromIPPrefix`; its contract is in BytesFromIPPrefixSpec and MaskBytesShape |
| Masks.BytesFromIP6PrefixSpec | openbsd/utils.py:368-378 | prefix bytes exist exactly for 0..128, have sixteen bytes and count back to the prefix |
| Masks.BytesFromIP6Prefix | openbsd/utils.py:368-378 | the definition of `_bytesFromIP6Prefix`; its contract is in BytesFromIP6PrefixSpec and MaskBytesShape |
| Masks.IPMaskFromPrefix | openbsd/utils.py:282-307 | IPMask of 0..32 is the IPv4 mask with that prefix and those bytes; other lengths raise ValueError; None means 32 |
| Masks.IPFromPrefix | openbsd/utils.py:303-307 | the definition of `_ipFromPrefix`; its contract is in IPMaskFromPrefix and IPMaskOfBytes |
| Masks.IPMaskOutOfRange | openbsd/utils.py:291-295 | IPMask of a length outside 0..32 raises ValueError |
| Masks.IPMaskNone | openbsd/utils.py:284-285 | IPMask(None) is IPMask(32) |
| Masks.IPMaskOfBytes | openbsd/utils.py:282-307 | the mask built from a prefix has the prefix's bytes, their text and the prefix |
| Masks.IPMask | openbsd/utils.py:282-307 | the definition; its contract is in IPMaskFromPrefix, MaskFromText and IPMaskRaisesValueError |
| Masks.IP6MaskFromPrefix | openbsd/utils.py:359-384 | with the corrected fromBytes, IP6Mask of 0..128 is the IPv6 mask with that prefix and bytes; other lengths raise ValueError; None means 128 |
| Masks.IP6MaskOutOfRange | openbsd/utils.py:368-372 | IP6Mask of a length outside 0..128 raises ValueError |
| Masks.IP6MaskNone | openbsd/utils.py:361-362 | IP6Mask(None) is IP6Mask(128) |
| Masks.IP6Mask | openbsd/utils.py:359-384 | (corrected fromBytes) the definition; its contract is in IP6MaskFromPrefix, MaskFromText and IP6MaskRaisesValueError, and IP6MaskAsWrittenOfPrefix relates it to the code as written |
| Masks.IP6MaskOfBytes | openbsd/utils.py:359-384 | (corrected fromBytes) the mask built from a prefix has the prefix's bytes, their text and the prefix |
| Masks.MaskFromText | openbsd/utils.py:283-289 | mask text is accepted exactly when it parses and its bytes are a mask, and then the bytes are the mask of the counted prefix |
| Masks.MaskGroupsLastZero | openbsd/utils.py:368-378 | masks of 97..112 bits have group 7 as their only zero group |
| Masks.IP6MaskAsWrittenFails | openbsd/utils.py:359-384 | as written, IP6Mask of 97..112 raises NameError, where the intended mask exists |
| Masks.IP6MaskAsWritten | openbsd/utils.py:359-384 | the definition as written; its contract is in IP6MaskAsWrittenFails and IP6MaskAsWrittenOfPrefix |
| Masks.MaskGroupsNotLoneLast | openbsd/utils.py:368-384 | outside 97..112 the 16-byte mask does not have the last group as its only zero group |
| Masks.IP6MaskAsWrittenOfPrefix | openbsd/utils.py:359-384 | as written, IP6Mask of a prefix raises NameError exactly for 97..112 and agrees with the corrected IP6Mask on every other length |
| Masks.IP6FromPrefixAsWrittenOrCorrected | openbsd/utils.py:380-384 | as written, _ip6FromPrefix raises NameError or gives the corrected text |
| Masks.IP6FromPrefix | openbsd/utils.py:380-384 | (corrected `fromBytes`) the definition of `_ip6FromPrefix`; its contract is in IP6MaskFromPrefix and IP6MaskOfBytes |
| Masks.IP6FromPrefixAsWritten | openbsd/utils.py:380-384 | (as written) the definition of `_ip6FromPrefix`; its contract is in IP6FromPrefixAsWrittenOrCorrected and IP6MaskAsWrittenOfPrefix |
| Masks.IP6MaskAsWrittenOrCorrected | openbsd/utils.py:359-384 | as written, IP6Mask raises NameError or agrees with the corrected IP6Mask |
| Masks.IP6AddressRaisesValueError | openbsd/utils.py:333-350 | IPv6 parsing fails only with ValueError |
| Masks.IP6MaskTextRaisesValueError | openbsd/utils.py:359-384 | (corrected fromBytes) producing the mask text fails only with ValueError |
| Masks.IP6MaskRaisesValueError | openbsd/utils.py:359-366 | the corrected IP6Mask fails only with ValueError |
| Masks.IPMaskRaisesValueError | openbsd/utils.py:282-289 | IPMask fails only with ValueError |
| Factories.AddressTriesInOrder | openbsd/utils.py:387-405 | text is tried as IPv4, then IPv6, then Ethernet; the first success wins; failure of all three is ValueError |
| Factories.AddressOfObject | openbsd/utils.py:391-392 | an address object is returned unchanged |
| Factories.Address | openbsd/utils.py:387-405 | the definition; its contract is in AddressTriesInOrder and AddressOfObject |
| Factories.MaskOfPrefix | openbsd/utils.py:417-431 | (corrected IP6Mask) Mask of 0..32 is the IPv4 mask, of 33..128 an IPv6 mask of that prefix, other lengths ValueError |
| Factories.MaskOfIP6Prefix | openbsd/utils.py:424-429 | (corrected IP6Mask) after IPMask refuses 33..128, IP6Mask's mask is returned |
| Factories.MaskOfBadPrefix | openbsd/utils.py:417-431 | a length outside 0..128 raises ValueError |
| Factories.Mask | openbsd/utils.py:417-431 | (corrected IP6Mask) the definition; its contract is in MaskOfPrefix and MaskRaisesValueError, and MaskAsWrittenOfPrefix relates it to the code as written |
| Factories.AddressFromBytesSpec | openbsd/utils.py:408-414 | (corrected fromBytes) four or sixteen bytes, and only those, give an address of that family with the same bytes |
| Factories.AddressOfFromBytes | openbsd/utils.py:387-414 | (corrected fromBytes) the text of bytes made an address, parsed by Address, has the same bytes |
| Factories.AddressFromBytes | openbsd/utils.py:408-414 | (corrected fromBytes) the definition; its contract is in AddressFromBytesSpec and AddressOfFromBytes |
| Factories.IP6TextDotless | openbsd/utils.py:318-331 | printed IPv6 text holds no '.', so Address never takes it for IPv4 |
| Factories.Eq | openbsd/utils.py:191-195 | the definition of `__eq__`: the other side is converted by Address, then bytes compare; its contract is in EqSpec, EqText, EqOfIPv4Text and EqOfOwnText |
| Factories.EqSpec | openbsd/utils.py:191-195 | against another address object, addresses are equal exactly when their bytes are |
| Factories.EqText | openbsd/utils.py:191-195 | against text, Eq compares with the bytes Address parses from that text, and raises ValueError when no parser accepts it |
| Factories.EqOfIPv4Text | openbsd/utils.py:191-195 | a four-byte address equals its own dotted text |
| Factories.EqOfOwnText | openbsd/utils.py:191-195 | an address of four or sixteen bytes equals the text AddressFromBytes formats for it |
| Factories.MaskRaisesValueError | openbsd/utils.py:417-431 | (corrected IP6Mask) Mask fails only with ValueError |
| Factories.MaskAsWrittenOrCorrected | openbsd/utils.py:417-431 | as written, Mask raises NameError (which escapes its `except ValueError`) or agrees with the corrected Mask |
| Factories.MaskAsWrittenOfPrefix | openbsd/utils.py:417-431 | as written, Mask of a prefix raises NameError exactly for 97..112 and otherwise gives the corrected result |
| Factories.MaskAsWrittenRaises | openbsd/utils.py:417-431 | as written, Mask fails with ValueError or NameError and nothing else |
| Factories.AddressFromBytesAsWrittenFails | openbsd/utils.py:408-414 | as written, AddressFromBytes raises NameError exactly on sixteen bytes whose only zero group is the last, and otherwise agrees with the corrected one |
| Factories.MaskAsWritten | openbsd/utils.py:417-431 | the definition as written; its contract is in MaskAsWrittenOrCorrected, MaskAsWrittenOfPrefix and MaskAsWrittenRaises |
| Factories.AddressFromBytesAsWritten | openbsd/utils.py:408-414 | the definition as written; its contract is in AddressFromBytesAsWrittenFails |
| OptionTables.LastRegistrationWins | openbsd/_packetDescriptors.py:36-53 | after registering pairs, a name is found, ignoring case, exactly when one was registered, with the casing and value registered last |
| OptionTables.Options.constructor | openbsd/_packetDescriptors.py:36-40 | the tables are the keyword pairs registered in turn, and valid |
| OptionTables.Options.Get | openbsd/_packetDescriptors.py:42-44 | found exactly when has_key holds, else KeyError |
| OptionTables.Options.Set | openbsd/_packetDescriptors.py:46-53 | replaces the entry equal up to case, names the value, keeps the tables valid, and the key is found with its value |
| OptionTables.Options.Keys | openbsd/_packetDescriptors.py:59-60 | exactly the registered casings of the names |
| OptionTables.Options.Values | openbsd/_packetDescriptors.py:62-63 | exactly the registered values |
| OptionTables.Options.ToStr | openbsd/_packetDescriptors.py:65-69 | the last name of the value, else str(value) |
| OptionTables.GetIgnoresCase | openbsd/_packetDescriptors.py:42-57 | lookup and has_key give the same answer for any casing |
| OptionTables.KeysDistinctUpToCase | openbsd/_packetDescriptors.py:46-60 | no two keys differ only in case, and each is found |
| OptionTables.HasKeyIffKeyed | openbsd/_packetDescriptors.py:55-60 | has_key holds exactly when keys() holds the name up to case |
| OptionTables.Options.HasKey | openbsd/_packetDescriptors.py:55-57 | the definition of `has_key`, ignoring case; its contract is in Options.Get, HasKeyIffKeyed and GetIgnoresCase |
| OptionTables.ToStrIsRegistered | openbsd/_packetDescriptors.py:65-69 | a registered value displays as a name has_key accepts |
| OptionTables.OptionsExample | openbsd/_packetDescriptors.py:36-53 | (example) "FOO" and "Foo" are both filed under "foo", with the casing registered |
| Buffers.ReadInt | openbsd/_packetDescriptors.py:105-108 | an int field inside the buffer reads a value below 256^tlen, outside it IndexError |
| Buffers.WriteIntThenRead | openbsd/_packetDescriptors.py:110-114 | a write in range changes only its span and reads back; a value too wide is ValueError |
| Buffers.ReadIntThenWrite | openbsd/_packetDescriptors.py:105-114 | writing back what was read leaves the buffer unchanged |
| Buffers.WriteBytesThenRead | openbsd/_packetDescriptors.py:158-164 | a byte write of exactly the span's length changes only the span and reads back |
| Buffers.SpliceSpec | openbsd/_packetDescriptors.py:324-331 | splice(s, e, b) is buf[..s] + b + buf[e..], for 0 <= s <= e <= length |
| Buffers.WriteBitsThenRead | openbsd/_packetDescriptors.py:207-213 | a bit write changes only its bits and reads back |
| Buffers.PackUnpack | openbsd/_packetDescriptors.py:192-213 | bytes to bits and back is the identity |
| Descriptors.Swap32Involution | openbsd/_packetDescriptors.py:138-142 | swapping the bytes of a 32-bit number twice gives it back |
| Descriptors.HostToNetInvolution | openbsd/_packetDescriptors.py:138-142 | htonl/ntohl is defined on 32-bit numbers, OverflowError otherwise, stays in 32 bits and is its own inverse on either host order |
| Descriptors.HostToNet | openbsd/_packetDescriptors.py:138-142 | the definition of the `htonl`/`ntohl` conversion; its contract is in HostToNetInvolution and Swap32Involution |
| Descriptors.NewIPAddressList | openbsd/_packetDescriptors.py:310-314 | the constructor succeeds exactly when tlen is a multiple of 4, else ValueError |
| Descriptors.Packet.SetIntField | openbsd/_packetDescriptors.py:114 | the primitive's outcome, and the buffer changed only on success |
| Descriptors.Packet.SetByteField | openbsd/_packetDescriptors.py:164 | the primitive's outcome, and the buffer changed only on success |
| Descriptors.Packet.SetBitField | openbsd/_packetDescriptors.py:212-213 | the primitive's outcome, and the buffer changed only on success |
| Descriptors.Packet.SpliceBytes | openbsd/_packetDescriptors.py:329 | the primitive's outcome, and the buffer changed only on success |
| Descriptors.Packet.Initialise | openbsd/_packetDescriptors.py:331 | recorded as one more initialisation |
| Descriptors.Target | openbsd/_packetDescriptors.py:402-410 | a proxy resolves to a plain descriptor, AttributeError when the name is missing, RuntimeError when proxies loop |
| Descriptors.ResolveProxy | openbsd/_packetDescriptors.py:402-410 | a proxy naming a plain descriptor stands for it; a missing name is AttributeError |
| Descriptors.Read | openbsd/_packetDescriptors.py:105-385 | (corrected IPv6 getter) the definition of each plain descriptor's `__get__` on a packet; its contract is in the *RoundTrip lemmas and AddressListRead |
| Descriptors.ReadAsWritten | openbsd/_packetDescriptors.py:345-348 | the getters as written; its contract is in IPv6ReadAsWritten and IPv6AddressFieldAsWrittenRoundTrip |
| Descriptors.Get | openbsd/_packetDescriptors.py:402-406 | the definition: a proxy resolves, as Target and ResolveProxy state, then the plain descriptor reads |
| Descriptors.BeforeNul | openbsd/_packetDescriptors.py:184-185 | the bytes before the first NUL, which hold no NUL |
| Descriptors.SubstituteLastRegistered | openbsd/_packetDescriptors.py:110-113 | for options registered from keyword pairs, a value whose str() equals a registered name up to case becomes the value registered last under it; otherwise, or without options, the value passes unchanged |
| Descriptors.Substitute | openbsd/_packetDescriptors.py:110-113 | the definition of the option substitution; its contract is in SubstituteLastRegistered |
| Descriptors.OrOfOptions | openbsd/_packetDescriptors.py:258-261 | the loop is the or of the options' values, KeyError at the first unknown name |
| Descriptors.OptionsOr | openbsd/_packetDescriptors.py:258-261 | the definition of the or over option names; its contract is in OptionsOrStops and OptionsOrBits, and OrOfOptions proves the loop equal to it |
| Descriptors.OptionsOrStops | openbsd/_packetDescriptors.py:258-261 | once a name fails, later names change nothing |
| Descriptors.OptionsOrBits | openbsd/_packetDescriptors.py:258-261 | the or exists exactly when every name is an option, and then has a bit set exactly when some named value has it; an empty list gives 0 |
| Descriptors.Pad | openbsd/_packetDescriptors.py:188 | a short value padded to exactly tlen; a long one unchanged |
| Descriptors.PadThenStrip | openbsd/_packetDescriptors.py:181-189 | a value with no NUL comes back after padding and stripping |
| Descriptors.ListBytes | openbsd/_packetDescriptors.py:325-328 | four bytes per address, ValueError for any unparsable address |
| Descriptors.ListBytesSpec | openbsd/_packetDescriptors.py:325-328 | accepted exactly when every item is IPv4 text, and then holds each address's bytes at 4k |
| Descriptors.IntFieldRoundTrip | openbsd/_packetDescriptors.py:105-114 | a successful write changes only the span and reads back the (substituted) value, with no name resolution |
| Descriptors.Write | openbsd/_packetDescriptors.py:110-391 | the definition of each plain descriptor's `__set__` on the buffer; its contract is in the *RoundTrip lemmas, AddressListWrite and ListBytesSpec |
| Descriptors.HOInt32RoundTrip | openbsd/_packetDescriptors.py:117-142 | a 4-byte host order field accepts exactly 32-bit numbers and reads them back |
| Descriptors.PaddedStringRoundTrip | openbsd/_packetDescriptors.py:167-189 | a value of at most tlen bytes is written NUL-padded to tlen and, without NUL, reads back |
| Descriptors.PaddedStringTooLong | openbsd/_packetDescriptors.py:187-189 | a value longer than the field is refused |
| Descriptors.FlagsFieldNames | openbsd/_packetDescriptors.py:250-263 | a list of option names writes the or of their values, which reads back |
| Descriptors.FlagsFieldUnknownName | openbsd/_packetDescriptors.py:258-261 | an unknown name raises KeyError |
| Descriptors.FlagsExample | openbsd/_packetDescriptors.py:216-230 | (example) flags 1 and 2 or to 3 |
| Descriptors.HOInt32FlagsRoundTrip | openbsd/_packetDescriptors.py:266-280 | 32 bits at bit offset 0, host order swapped, accept exactly 32-bit numbers and read them back |
| Descriptors.IPAddressFieldRoundTrip | openbsd/_packetDescriptors.py:283-299 | unparsable text is ValueError; IPv4 text writes its four bytes at frm and reads back as their text |
| Descriptors.IPv6AddressFieldRoundTrip | openbsd/_packetDescriptors.py:334-351 | (corrected getter) unparsable text is ValueError; IPv6 text writes its sixteen bytes at frm and reads back as their text |
| Descriptors.IPv6ReadAsWritten | openbsd/_packetDescriptors.py:345-348 | as written, the IPv6 getter raises NameError exactly when the field's only zero group is the last, and otherwise reads as the corrected getter |
| Descriptors.IPv6AddressFieldAsWrittenRoundTrip | openbsd/_packetDescriptors.py:334-351 | as written, IPv6 text written and read back gives its printed text, or NameError when its only zero group is the last |
| Descriptors.EthernetAddressFieldRoundTrip | openbsd/_packetDescriptors.py:354-368 | unparsable text is ValueError; Ethernet text writes its six bytes at frm and reads back as their text |
| Descriptors.GroupTexts | openbsd/_packetDescriptors.py:316-322 | the IPv4 text of each 4-byte group |
| Descriptors.AddressesAtGroups | openbsd/_packetDescriptors.py:316-322 | the getter's loop reads those groups |
| Descriptors.IPAddressListRoundTrip | openbsd/_packetDescriptors.py:302-331 | a list filling the span exactly is written and reads back as the addresses' texts |
| Descriptors.AddressListWrite | openbsd/_packetDescriptors.py:324-329 | the setter splices [frm, tlen) with the addresses' bytes |
| Descriptors.AddressListRead | openbsd/_packetDescriptors.py:316-322 | the getter gives the texts of the groups from frm below tlen |
| Descriptors.AddressesAt | openbsd/_packetDescriptors.py:316-322 | the definition of the `range(frm, tlen, 4)` loop; its contract is in AddressesAtGroups |
| Descriptors.PayloadRoundTrip | openbsd/_packetDescriptors.py:371-390 | a negative offset or length is AssertionError; otherwise exactly the payload span is replaced, and reads back |
| Descriptors.SetAddressList | openbsd/_packetDescriptors.py:324-331 | every address is parsed before any change; on success the buffer is spliced, length is 4n+3, initialise is called once; on failure nothing changes |
| Descriptors.ListBytesStops | openbsd/_packetDescriptors.py:325-326 | one unparsable address fails the whole list |
| Descriptors.SetFixed | openbsd/_packetDescriptors.py:110-390 | each fixed-span setter makes one primitive call with the converted value, and the buffer changes only on success |
| Descriptors.SetFlagsArgument | openbsd/_packetDescriptors.py:250-263 | the setter's branches and loop give the flags argument |
| Descriptors.FlagsArgument | openbsd/_packetDescriptors.py:250-263 | the definition of the conversion, a digit string passing unchanged; its contract is in FlagsFieldNames, FlagsFieldUnknownName and HOInt32FlagsRoundTrip |
| Descriptors.Set | openbsd/_packetDescriptors.py:393-410 | a proxy is resolved first and its error raised; the status is the resolved descriptor's write; on success the buffer is the written one, an address list also sets length 4n+3 and one more initialisation, a fixed field keeps both; on failure nothing changes |
| Bitwise.OrBit | openbsd/ifconfig.py:321 | Python's bitwise or sets a bit exactly when either operand has it |
| Bitwise.AndBit | openbsd/ifconfig.py:327 | Python's `&` sets a bit exactly when both operands have it |
| Bitwise.NotBit | openbsd/ifconfig.py:327 | Python's `~` flips every bit |
| Bitwise.AndPow2NonZero | openbsd/ifconfig.py:68 | `x & 2^k` is non-zero exactly when bit k of x is set, for any sign |
| Bitwise.SetNamesMembers | openbsd/ifconfig.py:66-70 | a name is listed exactly when an entry of that name shares a bit with the flags |
| Bitwise.SetNamesAppend | openbsd/ifconfig.py:66-70 | names come in table order |
| Bitwise.SetNamesListed | openbsd/pf.py:74-86 | in a table of distinct names, an entry is listed exactly when its value shares a bit with the flags |
| PacketFilter.Radices | openbsd/pf.py:221 | the odometer's radix at each position is the length of that list |
| PacketFilter.PlacesSize | openbsd/pf.py:211-226 | there are exactly as many places as the product of the lists' lengths |
| PacketFilter.PlacesMembers | openbsd/pf.py:211-226 | the places are exactly the in-range index vectors |
| PacketFilter.PlacesDistinct | openbsd/pf.py:211-226 | no place comes twice |
| PacketFilter.PlacesSteps | openbsd/pf.py:216-226 | the places start at all zeros, each follows from the last by one odometer step (last position fastest), and the last steps back to all zeros |
| PacketFilter.IncrLast | openbsd/pf.py:220-225 | the carry loop either bumps the last position or zeroes it and carries into the rest |
| PacketFilter.Select | openbsd/pf.py:218 | the yielded path picks labels[i][place[i]] at each position |
| PacketFilter.ProductSpec | openbsd/pf.py:211-226 | as many paths as the product of the lists' lengths, every combination among them, starting with all first elements |
| PacketFilter.ProductDistinct | openbsd/pf.py:211-226 | with no repeated label in a list, the combinations are distinct |
| PacketFilter.FlatTreeWalker | openbsd/pf.py:211-226 | the walker yields the product in odometer order, IndexError if a list is empty |
| PacketFilter.Advance | openbsd/pf.py:220-225 | the carry loop computes one odometer step |
| PacketFilter.WalkerStep | openbsd/pf.py:216-226 | each pass yields the next place's path, and stops exactly after the last |
| PacketFilter.PlacesExample | openbsd/pf.py:211-226 | (example) radices [2, 2] give [0,0], [0,1], [1,0], [1,1] |
| PacketFilter.WalkerExample | openbsd/pf.py:211-226 | (example) (a,b) x (c,d) gives ac, ad, bc, bd |
| PacketFilter.SelectExample | openbsd/pf.py:218 | (example) the paths of the four places of (a,b) x (c,d) |
| PacketFilter.PutSucceeds | openbsd/pf.py:204-208 | _dirmaker succeeds exactly on a non-empty path none of whose proper prefixes is a leaf |
| PacketFilter.Put | openbsd/pf.py:204-208 | the definition of `_dirmaker`; its contract is in PutSucceeds, PutLookup and PutUniform |
| PacketFilter.PutLookup | openbsd/pf.py:204-208 | the value is found at the path, nothing below it, and every key path off it is untouched |
| PacketFilter.PutUniform | openbsd/pf.py:204-208 | in a tree of uniform depth, a path of that depth always succeeds and keeps the depth |
| PacketFilter.PutsLookup | openbsd/pf.py:229-238 | distinct equal-length paths each find their value |
| PacketFilter.Puts | openbsd/pf.py:235-237 | the definition of the `_dirmaker` calls in turn; its contract is in PutsLookup and PutsShort |
| PacketFilter.MakeTree | openbsd/pf.py:229-238 | the walker's paths, or its IndexError, then the loop: the result is TreeOf |
| PacketFilter.PutAll | openbsd/pf.py:235-237 | the enumerate loop over the paths gives Puts, IndexError for a missing value included |
| PacketFilter.MakeTreeSpec | openbsd/pf.py:229-238 | with enough values, values[i] sits at the i-th combination's key path; with too few, IndexError |
| PacketFilter.TreeOf | openbsd/pf.py:229-238 | the definition of `_makeTree`; its contract is in MakeTree and MakeTreeSpec |
| PacketFilter.PutsShort | openbsd/pf.py:235-237 | fewer values than paths is IndexError |
| PacketFilter.MakeTreeExample | openbsd/pf.py:229-238 | (example) [1,2,3,4] over (a,b) x (c,d) nests as {a: {c: 1, d: 2}, b: {c: 3, d: 4}} |
| PacketFilter.ChildPath | openbsd/pf.py:184-189 | a child of the root is named by its name alone; otherwise the '/'-components are the parent's followed by the child's |
| PacketFilter.Child | openbsd/pf.py:184-189 | the definition of `Anchor.__getitem__`; its contract is in ChildPath |
| PacketFilter.AnchorExample | openbsd/pf.py:184-189 | (example) the root's "foo" then "bar" is "foo/bar" |
| PacketFilter.TableReprBits | openbsd/pf.py:74-86 | each of the five names is listed exactly when its flag bit is set |
| PacketFilter.TableRepr | openbsd/pf.py:74-86 | the definition of `Table.__repr__`; its contract is in TableReprBits |
| PacketFilter.TableReprExample | openbsd/pf.py:74-86 | (example) flags 5 print as "table t: " followed by PERSIST and ACTIVE joined by a bar |
| PacketFilter.ConvertAddress | openbsd/pf.py:319-322 | a given address becomes its bytes, an invalid one ValueError, a falsy one nothing |
| PacketFilter.ConvertMask | openbsd/pf.py:321-326 | (corrected Mask) a given mask becomes its bytes, an invalid one ValueError, a falsy one nothing |
| PacketFilter.ConvertMaskAsWritten | openbsd/pf.py:321-326 | as written, the mask conversion is the corrected one or NameError, and NameError exactly when a given mask makes Mask raise it |
| PacketFilter.KillStatesSpec | openbsd/pf.py:319-343 | (corrected Mask) missing masks become all-0xff of the address's length; ValueError exactly for an address/mask or src/dst length mismatch; af is 0, AF_INET for 4 bytes, AF_INET6 otherwise |
| PacketFilter.KillStatesAsWrittenOrCorrected | openbsd/pf.py:310-344 | as written, killStates raises NameError or agrees with the corrected killStates |
| PacketFilter.KillStatesAsWrittenFails | openbsd/pf.py:319-322 | as written, a source mask of prefix 97..112 raises NameError once the source converts, though the corrected Mask accepts it |
| PacketFilter.KillStatesBadAddress | openbsd/pf.py:319-326 | an invalid address or mask raises ValueError |
| PacketFilter.KillStatesZeroPrefix | openbsd/pf.py:321-328 | a mask of prefix 0 is falsy and becomes all-0xff |
| PacketFilter.KillStates | openbsd/pf.py:310-344 | (corrected Mask) the definition; its contract is in KillStatesSpec, KillStatesBadAddress and KillStatesZeroPrefix |
| PacketFilter.KillStatesAsWritten | openbsd/pf.py:310-344 | the definition as written; its contract is in KillStatesAsWrittenOrCorrected and KillStatesAsWrittenFails |
| InterfaceConfig.Unique | openbsd/ifconfig.py:39-43 | each element of the input exactly once, and nothing else |
| InterfaceConfig.FlagTable | openbsd/ifconfig.py:47-64 | the sixteen flag names, in table order, with their values |
| InterfaceConfig.FlagDesc | openbsd/ifconfig.py:65-70 | the loop joins with a bar the names of the entries sharing a bit with the value |
| InterfaceConfig.FlagNamesDistinct | openbsd/ifconfig.py:47-64 | the flag names are distinct, non-empty and hold no bar character |
| InterfaceConfig.FlagDescBits | openbsd/ifconfig.py:47-70 | with the OpenBSD values 2^k, name k is listed exactly when bit k is set |
| InterfaceConfig.FlagDescSplits | openbsd/ifconfig.py:65-70 | empty when no listed bit is set; otherwise splitting on the bar gives the names back |
| InterfaceConfig.Hex | openbsd/ifconfig.py:72-73 | `%x` text is non-empty and holds no space |
| InterfaceConfig.HexRoundTrip | openbsd/ifconfig.py:72-73 | `%x` text parses back to the value, negatives included |
| InterfaceConfig.FlagStrParts | openbsd/ifconfig.py:72-73 | str() is the hex value, " <", the description, ">" |
| InterfaceConfig.FlagStr | openbsd/ifconfig.py:72-73 | the definition of `FlagVal.__str__`; its contract is in FlagStrParts |
| InterfaceConfig.Subtypes | openbsd/ifconfig.py:143 | the subtype of each media entry |
| InterfaceConfig.GetAllSubtypes | openbsd/ifconfig.py:140-144 | exactly the subtypes of the entries, each once |
| InterfaceConfig.GetAllOptions | openbsd/ifconfig.py:146-154 | the loop concatenates the options of the entries with that subtype |
| InterfaceConfig.OptionsForMembers | openbsd/ifconfig.py:146-154 | an option is listed exactly when an entry of that subtype has it |
| InterfaceConfig.OptionsForAppend | openbsd/ifconfig.py:146-154 | options come in entry order |
| InterfaceConfig.Interface.constructor | openbsd/ifconfig.py:163-190 | the interface holds the given flags |
| InterfaceConfig.Interface.Up | openbsd/ifconfig.py:317-321 | flags become the bitwise or of flags and IFF_UP |
| InterfaceConfig.Interface.Down | openbsd/ifconfig.py:323-327 | flags become flags & ~IFF_UP |
| InterfaceConfig.UpBits | openbsd/ifconfig.py:317-321 | up sets bit IFF_UP and changes no other bit |
| InterfaceConfig.DownBits | openbsd/ifconfig.py:323-327 | down clears bit IFF_UP and changes no other bit |
| InterfaceConfig.UpDownExample | openbsd/ifconfig.py:317-327 | (example) up then down leaves the flag clear |

## Left out

- The C extensions `_ifconfig`, `_pf`, `_netstat`, `_kqueue`, `_kvm`, `_system`, `_sysvar` and `arc4random`. They are foreign kernel calls, so they are not part of this model.
  - The `_sysvar` constants become parameters: IFF_UP and the PFR_TFLAG_* values. Exceptions are the flag table, which uses the OpenBSD bit values 2^k, and the address families, which are a datatype.
  - The kernel returns interface flags as a signed short. The model keeps them as unbounded integers.
- Every pf.py and ifconfig.py operation that calls the kernel is not part of this model:
  - table and address management;
  - statistics and states;
  - `Interface.getAddresses`, `setAddress` and the groups;
  - `IFConfig`.
  `State.__init__` depends on attribute access on a dict and is not modelled.
- The media table is taken as a parameter instead of being fetched from the kernel.
- `Interface.flags` is a field standing for the kernel's flags. Its `Flags` descriptor is not modelled.
- `killStates` passes `interface`, `srcport` and `dstport` through to the kernel unchanged, so the model does not carry them. The kernel call itself is left out.
- `kqueue.py`, `followfile.py`, `netstat.py`, `system.py`, `programs/` and `examples/` are I/O and syscall wrappers, and are not part of this model.
- The buffer primitives (`_getIntField`, `_setBitField`, `_splice`, `_getPayloadOffsets`, `initialise`, ...) are not in the repository's Python code. `Buffers` states them as contracts with these assumptions:
  - integers are big-endian;
  - the bits of a field are numbered from the most significant bit of `frm`;
  - a spliced span's length is not checked against the field.
  These contracts are the assumed interface, not a model of the C code.
- `host` (little or big endian) is a parameter for `socket.htonl` / `ntohl`. `SetAddressList` fixes it to `Little`, since that setter does no host-order conversion.
- Python 2 dynamic typing is simplified:
  - setter arguments are a tagged union (integer, text, bytes, list of names);
  - `int()` accepts digit strings only, so there is no sign, "0x" or whitespace. So FlagsField's setter passes a non-empty decimal digit string on unchanged (its `int(val)` succeeds) even when it is an option name, while a signed or padded number string is treated as a name;
  - `isStringLike` and `isNumberLike` reduce to those tags;
  - text and raw bytes stay separate types.
- Descriptors.PaddedStringTooLong: the source passes an over-long value to `_setByteField` unchecked. The model's byte primitive refuses a value whose length differs from the field, so the error it states comes from the assumed primitive.
- Factories.MaskOfPrefix: the contract is of the corrected Mask. As written, prefixes 97..112 raise NameError instead (Factories.MaskAsWrittenOfPrefix).
- Factories.MaskOfIP6Prefix: likewise of the corrected Mask; as written, 97..112 raise NameError, which escapes `except ValueError`.
- Factories.MaskRaisesValueError: of the corrected Mask only; as written Mask also raises NameError (Factories.MaskAsWrittenRaises).
- Factories.AddressFromBytesSpec: of the corrected AddressFromBytes; as written, sixteen bytes whose only zero group is the last raise NameError (Factories.AddressFromBytesAsWrittenFails).
- Factories.AddressOfFromBytes: likewise of the corrected AddressFromBytes, whose sixteen-byte case always gives a result.
- Masks.IP6MaskOfBytes: of the corrected IP6Mask; as written, 97..112 raise NameError (Masks.IP6MaskAsWrittenOfPrefix).
- Masks.IP6MaskTextRaisesValueError: of the corrected mask text; as written it also raises NameError for 97..112.
- Descriptors.IPv6AddressFieldRoundTrip: of the corrected getter; as written the read-back raises NameError when the address's only zero group is the last (Descriptors.IPv6AddressFieldAsWrittenRoundTrip).
- Descriptors.Read: every `__get__` in the source, plain or proxy, first returns None when `obj` is falsy, which includes access through the class (`obj` is None). Read, ReadAsWritten and Get always read from a given packet, so that early None is not modelled.
- Descriptors.ReadAsWritten: likewise reads from a given packet; the None for a falsy `obj` is not modelled.
- Descriptors.Get: likewise; the proxy's own `if not obj: return None` is not modelled.
- PacketFilter.ConvertMask: of the corrected Mask, so an invalid mask is ValueError only; as written NameError also comes out (PacketFilter.ConvertMaskAsWritten).
- PacketFilter.KillStatesSpec: its requires take masks valid for the corrected Mask, so a srcmask of 97..112 counts as valid; as written killStates raises NameError there (PacketFilter.KillStatesAsWrittenFails).
- NumericCodec.MultiChar: takes a non-negative number. For a negative one the source's `while (a != 0)` never ends, because floor division keeps -1/256 at -1, so that input is not modelled.
- NumericCodec.NatToBytesSpec: likewise states nothing about negative numbers, on which multichar does not terminate.
- DoubleAssociations.DoubleAssociation.constructor: the initial pairs come as a sequence in a given order. The source iterates `idict.items()`, whose order Python 2 leaves unspecified, and that order decides the table when two keys share a value.
- `Options(**kwargs)` registers keywords in an order Python 2 does not define. The model takes them as a sequence in a given order.
- OptionTables.Options.Values: the model returns a set, so multiplicity and order are not captured. `Keys` likewise.
- InterfaceConfig.Unique: dict key order is unspecified in Python 2, so the contract states membership and distinctness but not order. `GetAllSubtypes` likewise.
- `_dirmaker` is modelled on values (`Put` returns the new tree):
  - aliasing between nested dicts is not captured;
  - the intermediate dicts that `setdefault` creates before a failure are not kept.
- `DoubleAssociation` deletion and `setdefault` are not overridden in the source either, and are not modelled.
- `__repr__` of the address classes and of `Anchor` are not modelled, beyond `Table.__repr__`. They print a stored field.
- Descriptors.HostToNetInvolution: `socket.htonl` / `ntohl` of a value outside 32 bits is OverflowError in the model; the socket library itself is not part of this model.

## Findings

| source | as written | input that shows it | evidently intended | confidence | as-written member | corrected member |
|---|---|---|---|---|---|---|
| openbsd/utils.py:101-110 | `j` is bound only by the inner loop, so it is unbound when the first occurrence of the value is the last element | `findLongestSubsequence("ffa", "a")` raises NameError | `(0, 0)`: a lone element is no run | not executed | Runs.LongestRunAsWrittenFails | Runs.LongestRunIsLongest |
| openbsd/utils.py:318-331 | `IP6Address.fromBytes` calls the run finder above, which raises when group 7 is the only zero group | sixteen bytes `1:2:3:4:5:6:7:0` raise NameError | the text `1:2:3:4:5:6:7:0`, whose bytes are the input | not executed | Addresses.IP6FromBytesAsWrittenFails | Addresses.IP6RoundTrip |
| openbsd/utils.py:359-384 | `IP6Mask(prefix)` formats its mask with that `fromBytes` | `IP6Mask(112)` (any prefix 97..112) raises NameError | the mask `ffff:ffff:ffff:ffff:ffff:ffff:ffff:0` with prefix 112 | not executed | Masks.IP6MaskAsWrittenFails | Masks.IP6MaskFromPrefix |
