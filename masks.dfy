/** Network masks of openbsd/utils.py (_MaskMixin, IPMask, IP6Mask): prefix-length masks
    in the sense of RFC 4632 section 3.1, built from a prefix length and validated back. */
module Masks {
  import opened Common
  import opened Addresses

  /** _MaskMixin._prefTable: the byte that ends a prefix, and its number of one bits. */
  const PrefTable: map<Byte, nat> :=
    map[0 := 0, 128 := 1, 192 := 2, 224 := 3, 240 := 4, 248 := 5, 252 := 6, 254 := 7]

  /** The number of leading 0xff bytes. */
  function LeadingOnes(b: seq<Byte>): (k: nat)
    ensures k <= |b|
    ensures forall i :: 0 <= i < k ==> b[i] == 255
    ensures k < |b| ==> b[k] != 255
  {
    if b == [] || b[0] != 255 then 0 else 1 + LeadingOnes(b[1..])
  }

  /** What _countPrefix returns: 8 for each leading 0xff byte, then the table entry of
      the next byte, with only zero bytes after it; ValueError for anything else. */
  function PrefixOf(b: seq<Byte>): Result<nat>
  {
    var k := LeadingOnes(b);
    if k == |b| then Ok(8 * k)
    else if b[k] !in PrefTable then Err(ValueError)
    else if exists j :: k < j < |b| && b[j] != 0 then Err(ValueError)
    else Ok(8 * k + PrefTable[b[k]])
  }

  /** _countPrefix: one iterator, first over the 0xff bytes, then (after the byte that
      ended them) over the bytes that must be zero. */
  method CountPrefix(bytes: seq<Byte>) returns (r: Result<nat>)
    ensures r == PrefixOf(bytes)
  {
    var num: nat := 0;
    var pos := 0;
    var b: Byte := 0;
    var broke := false;
    while pos < |bytes| && !broke
      invariant 0 <= pos <= |bytes|
      invariant forall i :: 0 <= i < pos - (if broke then 1 else 0) ==> bytes[i] == 255
      invariant !broke ==> num == 8 * pos
      invariant broke ==> 0 < pos && b == bytes[pos - 1] && b != 255 && num == 8 * (pos - 1)
    {
      b := bytes[pos];
      pos := pos + 1;
      if b == 255 {
        num := num + 8;
      } else {
        broke := true;
      }
    }
    if !broke {
      return Ok(num);
    }
    ghost var k := pos - 1;
    assert k == LeadingOnes(bytes);
    if b !in PrefTable {
      return Err(ValueError);
    }
    num := num + PrefTable[b];
    while pos < |bytes|
      invariant k < pos <= |bytes|
      invariant forall j :: k < j < pos ==> bytes[j] == 0
    {
      b := bytes[pos];
      pos := pos + 1;
      if b != 0 {
        return Err(ValueError);
      }
    }
    return Ok(num);
  }

  lemma {:induction false} LeadingOnesIs(b: seq<Byte>, k: nat)
    requires k <= |b| && forall i :: 0 <= i < k ==> b[i] == 255
    requires k < |b| ==> b[k] != 255
    ensures LeadingOnes(b) == k
  {
    if k > 0 {
      LeadingOnesIs(b[1..], k - 1);
    }
  }

  /** (255 << (8 - r)) & 255: the byte with r leading one bits. */
  function PartialByte(r: nat): Byte
    requires r < 8
  {
    (255 * Pow2(8 - r)) % 256
  }

  /** The mask prefix/8 bytes of 0xff, the partial byte when prefix % 8 is not 0, then
      zero bytes up to width bytes. */
  function MaskBytes(prefix: nat, width: int): seq<Byte>
  {
    var whole := Repeat<Byte>(255, prefix / 8);
    var addr := if prefix % 8 != 0 then whole + [PartialByte(prefix % 8)] else whole;
    addr + Repeat<Byte>(0, width - |addr|)
  }

  /** IPMask._bytesFromIPPrefix. */
  function BytesFromIPPrefix(prefix: int): Result<seq<Byte>>
  {
    if prefix > 32 || prefix < 0 then Err(ValueError) else Ok(MaskBytes(prefix, 4))
  }

  /** IP6Mask._bytesFromIP6Prefix. */
  function BytesFromIP6Prefix(prefix: int): Result<seq<Byte>>
  {
    if prefix > 128 || prefix < 0 then Err(ValueError) else Ok(MaskBytes(prefix, 16))
  }

  lemma PartialByteTable(r: nat)
    requires 0 < r < 8
    ensures PartialByte(r) in PrefTable && PrefTable[PartialByte(r)] == r
    ensures PartialByte(r) != 255 && PartialByte(r) != 0
  {
    assert Pow2(1) == 2 && Pow2(2) == 4 && Pow2(3) == 8 && Pow2(4) == 16;
    assert Pow2(5) == 32 && Pow2(6) == 64 && Pow2(7) == 128;
  }

  /** Every non-zero table byte is the partial byte of its entry. */
  lemma TableIsPartialBytes(v: Byte)
    requires v in PrefTable && v != 0
    ensures 0 < PrefTable[v] < 8 && v == PartialByte(PrefTable[v])
  {
    PartialByteTable(PrefTable[v]);
  }

  lemma MaskBytesShape(prefix: nat, width: nat)
    requires prefix <= 8 * width
    ensures |MaskBytes(prefix, width)| == width
    ensures forall i :: 0 <= i < prefix / 8 ==> MaskBytes(prefix, width)[i] == 255
    ensures prefix % 8 != 0 ==> MaskBytes(prefix, width)[prefix / 8] == PartialByte(prefix % 8)
    ensures forall i :: prefix / 8 + (if prefix % 8 != 0 then 1 else 0) <= i < width ==>
              MaskBytes(prefix, width)[i] == 0
  {
  }

  /** _countPrefix reads back the prefix length a mask was built from. */
  lemma CountPrefixOfMask(prefix: nat, width: nat)
    requires prefix <= 8 * width
    ensures PrefixOf(MaskBytes(prefix, width)) == Ok(prefix)
  {
    var m := MaskBytes(prefix, width);
    MaskBytesShape(prefix, width);
    var q, r := prefix / 8, prefix % 8;
    if r != 0 {
      PartialByteTable(r);
    }
    LeadingOnesIs(m, q);
  }

  /** _countPrefix accepts only masks: whatever it accepts is the mask of the prefix
      length it returns. */
  lemma CountPrefixOnlyMasks(b: seq<Byte>)
    requires PrefixOf(b).Ok?
    ensures PrefixOf(b).value <= 8 * |b|
    ensures b == MaskBytes(PrefixOf(b).value, |b|)
  {
    var k := LeadingOnes(b);
    var p := PrefixOf(b).value;
    var m := MaskBytes(p, |b|);
    if k == |b| {
      MaskBytesShape(p, |b|);
      assert m == b;
    } else {
      var v := b[k];
      if v == 0 {
        assert p == 8 * k;
      } else {
        TableIsPartialBytes(v);
        assert p / 8 == k && p % 8 == PrefTable[v];
      }
      MaskBytesShape(p, |b|);
      assert m == b;
    }
  }

  /** The bytes of an IPv4 prefix length are refused outside [0, 32], and are otherwise
      the 4-byte mask of that length. */
  lemma BytesFromIPPrefixSpec(prefix: int)
    ensures BytesFromIPPrefix(prefix).Ok? <==> 0 <= prefix <= 32
    ensures 0 <= prefix <= 32 ==>
              |BytesFromIPPrefix(prefix).value| == 4 && PrefixOf(BytesFromIPPrefix(prefix).value) == Ok(prefix)
  {
    if 0 <= prefix <= 32 {
      MaskBytesShape(prefix, 4);
      CountPrefixOfMask(prefix, 4);
    }
  }

  /** The bytes of an IPv6 prefix length are refused outside [0, 128], and are otherwise
      the 16-byte mask of that length. */
  lemma BytesFromIP6PrefixSpec(prefix: int)
    ensures BytesFromIP6Prefix(prefix).Ok? <==> 0 <= prefix <= 128
    ensures 0 <= prefix <= 128 ==>
              |BytesFromIP6Prefix(prefix).value| == 16 && PrefixOf(BytesFromIP6Prefix(prefix).value) == Ok(prefix)
  {
    if 0 <= prefix <= 128 {
      MaskBytesShape(prefix, 16);
      CountPrefixOfMask(prefix, 16);
    }
  }

  // ---------------------------------------------------------------- mask objects

  /** What a mask constructor is given: None, a prefix length, or address text. */
  datatype MaskArg = MNone | MPrefix(length: int) | MText(text: string)

  /** The prefix length a mask of None stands for: all bits of the address. */
  const IPv4Bits := 32
  const IPv6Bits := 128

  /** IPMask._ipFromPrefix: the text of the mask of a prefix length. */
  function IPFromPrefix(prefix: int): Result<string>
  {
    var b :- BytesFromIPPrefix(prefix);
    var a :- IPFromBytes(b);
    Ok(a.address)
  }

  /** The address text IPMask parses: a prefix length (32 for None) becomes mask text. */
  function IPMaskText(m: MaskArg): Result<string>
  {
    match m
    case MNone => IPFromPrefix(IPv4Bits)
    case MPrefix(p) => IPFromPrefix(p)
    case MText(s) => Ok(s)
  }

  /** IPMask(mask): parse the text as an IPv4 address, then count its prefix. */
  function IPMask(m: MaskArg): Result<Addr>
  {
    IPMaskOfText(IPMaskText(m))
  }

  /** The mask of the text a mask argument became: parsed, then its prefix counted. */
  function IPMaskOfText(t: Result<string>): Result<Addr>
  {
    var text :- t;
    var a :- IPAddress(text);
    var p :- PrefixOf(a.bytes);
    Ok(a.(prefix := Some(p)))
  }

  /** IP6Mask._ip6FromPrefix, with the corrected IP6Address.fromBytes. */
  function IP6FromPrefix(prefix: int): Result<string>
  {
    var b :- BytesFromIP6Prefix(prefix);
    var a :- IP6FromBytes(b);
    Ok(a.address)
  }

  /** IP6Mask._ip6FromPrefix as written, where fromBytes can raise NameError. */
  function IP6FromPrefixAsWritten(prefix: int): Result<string>
  {
    var b :- BytesFromIP6Prefix(prefix);
    var a :- IP6FromBytesAsWritten(b);
    Ok(a.address)
  }

  /** The address text IP6Mask parses: a prefix length (128 for None) becomes mask text. */
  function IP6MaskText(m: MaskArg): Result<string>
  {
    match m
    case MNone => IP6FromPrefix(IPv6Bits)
    case MPrefix(p) => IP6FromPrefix(p)
    case MText(s) => Ok(s)
  }

  /** IP6Mask(mask): parse the text as an IPv6 address, then count its prefix. */
  function IP6Mask(m: MaskArg): Result<Addr>
  {
    IP6MaskOfText(IP6MaskText(m))
  }

  /** The mask of the text a mask argument became: parsed, then its prefix counted. */
  function IP6MaskOfText(t: Result<string>): Result<Addr>
  {
    var text :- t;
    var a :- IP6Address(text);
    var p :- PrefixOf(a.bytes);
    Ok(a.(prefix := Some(p)))
  }

  /** The address text IP6Mask parses, with fromBytes as written. */
  function IP6MaskTextAsWritten(m: MaskArg): Result<string>
  {
    match m
    case MNone => IP6FromPrefixAsWritten(IPv6Bits)
    case MPrefix(p) => IP6FromPrefixAsWritten(p)
    case MText(s) => Ok(s)
  }

  /** IP6Mask(mask) as written. */
  function IP6MaskAsWritten(m: MaskArg): Result<Addr>
  {
    IP6MaskOfText(IP6MaskTextAsWritten(m))
  }

  /** As written, _ip6FromPrefix either raises NameError or gives the corrected text. */
  lemma IP6FromPrefixAsWrittenOrCorrected(prefix: int)
    ensures IP6FromPrefixAsWritten(prefix) == IP6FromPrefix(prefix) || IP6FromPrefixAsWritten(prefix) == Err(NameError)
  {
    if BytesFromIP6Prefix(prefix).Ok? {
      BytesFromIP6PrefixSpec(prefix);
      AsWrittenOrCorrected(BytesFromIP6Prefix(prefix).value);
    }
  }

  /** As written, IP6Mask either raises NameError or agrees with the corrected IP6Mask. */
  lemma IP6MaskAsWrittenOrCorrected(m: MaskArg)
    ensures IP6MaskAsWritten(m) == IP6Mask(m) || IP6MaskAsWritten(m) == Err(NameError)
  {
    match m
    case MNone => IP6FromPrefixAsWrittenOrCorrected(IPv6Bits);
    case MPrefix(p) => IP6FromPrefixAsWrittenOrCorrected(p);
    case MText(s) =>
  }

  /** A mask from a prefix length in [0, 32] has that prefix and the mask bytes of it;
      any other length raises ValueError; None means 32. */
  lemma IPMaskFromPrefix(prefix: int)
    ensures 0 <= prefix <= 32 ==>
              IPMask(MPrefix(prefix)).Ok? && IPMask(MPrefix(prefix)).value.prefix == Some(prefix) &&
              IPMask(MPrefix(prefix)).value.bytes == MaskBytes(prefix, 4) &&
              IPMask(MPrefix(prefix)).value.family == Inet
    ensures !(0 <= prefix <= 32) ==> IPMask(MPrefix(prefix)) == Err(ValueError)
    ensures IPMask(MNone) == IPMask(MPrefix(32))
  {
    if 0 <= prefix <= 32 {
      BytesFromIPPrefixSpec(prefix);
      IPMaskOfBytes(prefix, BytesFromIPPrefix(prefix).value);
    } else {
      IPMaskOutOfRange(prefix);
    }
    IPMaskNone();
  }

  lemma IPMaskOutOfRange(prefix: int)
    requires !(0 <= prefix <= 32)
    ensures IPMask(MPrefix(prefix)) == Err(ValueError)
  {
    assert BytesFromIPPrefix(prefix) == Err(ValueError);
  }

  lemma IPMaskNone()
    ensures IPMask(MNone) == IPMask(MPrefix(32))
  {
    IPMaskSameText(MNone, MPrefix(IPv4Bits));
  }

  lemma IPMaskSameText(m1: MaskArg, m2: MaskArg)
    requires IPMaskText(m1) == IPMaskText(m2)
    ensures IPMask(m1) == IPMask(m2)
  {
  }

  lemma IPMaskOfBytes(prefix: int, b: seq<Byte>)
    requires BytesFromIPPrefix(prefix) == Ok(b) && |b| == 4 && PrefixOf(b) == Ok(prefix)
    ensures IPMask(MPrefix(prefix)) == Ok(Addr(Inet, IPv4Text(b), b, Some(prefix)))
  {
    IPv4RoundTrip(b);
    assert IPFromPrefix(prefix) == Ok(IPv4Text(b));
    assert IPAddress(IPv4Text(b)) == Ok(Addr(Inet, IPv4Text(b), b, None));
  }

  /** A mask from a prefix length in [0, 128] has that prefix and the mask bytes of it;
      any other length raises ValueError; None means 128. */
  lemma IP6MaskFromPrefix(prefix: int)
    ensures 0 <= prefix <= 128 ==>
              IP6Mask(MPrefix(prefix)).Ok? && IP6Mask(MPrefix(prefix)).value.prefix == Some(prefix) &&
              IP6Mask(MPrefix(prefix)).value.bytes == MaskBytes(prefix, 16) &&
              IP6Mask(MPrefix(prefix)).value.family == Inet6
    ensures !(0 <= prefix <= 128) ==> IP6Mask(MPrefix(prefix)) == Err(ValueError)
    ensures IP6Mask(MNone) == IP6Mask(MPrefix(128))
  {
    if 0 <= prefix <= 128 {
      BytesFromIP6PrefixSpec(prefix);
      IP6MaskOfBytes(prefix, BytesFromIP6Prefix(prefix).value);
    } else {
      IP6MaskOutOfRange(prefix);
    }
    IP6MaskNone();
  }

  lemma IP6MaskOutOfRange(prefix: int)
    requires !(0 <= prefix <= 128)
    ensures IP6Mask(MPrefix(prefix)) == Err(ValueError)
  {
    assert BytesFromIP6Prefix(prefix) == Err(ValueError);
  }

  lemma IP6MaskNone()
    ensures IP6Mask(MNone) == IP6Mask(MPrefix(128))
  {
    IP6MaskSameText(MNone, MPrefix(IPv6Bits));
  }

  lemma IP6MaskSameText(m1: MaskArg, m2: MaskArg)
    requires IP6MaskText(m1) == IP6MaskText(m2)
    ensures IP6Mask(m1) == IP6Mask(m2)
  {
  }

  lemma IP6MaskOfBytes(prefix: int, b: seq<Byte>)
    requires BytesFromIP6Prefix(prefix) == Ok(b) && |b| == 16 && PrefixOf(b) == Ok(prefix)
    ensures IP6Mask(MPrefix(prefix)) == Ok(Addr(Inet6, IP6Text(b), b, Some(prefix)))
  {
    IP6RoundTrip(b);
    assert IP6FromPrefix(prefix) == Ok(IP6Text(b));
  }

  /** A mask from text is accepted exactly when the text is an address whose bytes
      are a mask; its prefix is then the prefix those bytes were built from. */
  lemma MaskFromText(s: string)
    ensures IPMask(MText(s)).Ok? <==> IPAddress(s).Ok? && PrefixOf(IPAddress(s).value.bytes).Ok?
    ensures IP6Mask(MText(s)).Ok? <==> IP6Address(s).Ok? && PrefixOf(IP6Address(s).value.bytes).Ok?
    ensures IPMask(MText(s)).Ok? ==>
              IPMask(MText(s)).value.bytes == MaskBytes(IPMask(MText(s)).value.prefix.value, 4)
    ensures IP6Mask(MText(s)).Ok? ==>
              IP6Mask(MText(s)).value.bytes == MaskBytes(IP6Mask(MText(s)).value.prefix.value, 16)
  {
    if IPMask(MText(s)).Ok? {
      CountPrefixOnlyMasks(IPAddress(s).value.bytes);
    }
    if IP6Mask(MText(s)).Ok? {
      CountPrefixOnlyMasks(IP6Address(s).value.bytes);
    }
  }

  /** The mask of a prefix length from 97 to 112 has seven non-zero groups and a
      zero last group. */
  lemma MaskGroupsLastZero(prefix: nat)
    requires 97 <= prefix <= 112
    ensures Groups(MaskBytes(prefix, 16))[7] == 0
    ensures forall k :: 0 <= k < 7 ==> Groups(MaskBytes(prefix, 16))[k] != 0
  {
    var b := MaskBytes(prefix, 16);
    MaskBytesShape(prefix, 16);
    if prefix % 8 != 0 {
      PartialByteTable(prefix % 8);
    }
    assert b[12] != 0;
    assert b[14] == 0 && b[15] == 0;
    GroupsAt(b, 7);
    forall k | 0 <= k < 7 ensures Groups(b)[k] != 0 {
      GroupsAt(b, k);
      assert b[2 * k] != 0;
    }
  }

  /** As written, IP6Mask of any prefix length from 97 to 112 raises NameError: its
      only zero group is the last one. The corrected IP6Mask accepts them. */
  lemma IP6MaskAsWrittenFails(prefix: int)
    requires 97 <= prefix <= 112
    ensures IP6MaskAsWritten(MPrefix(prefix)) == Err(NameError)
    ensures IP6Mask(MPrefix(prefix)).Ok? && IP6Mask(MPrefix(prefix)).value.prefix == Some(prefix)
  {
    var b := MaskBytes(prefix, 16);
    MaskBytesShape(prefix, 16);
    MaskGroupsLastZero(prefix);
    IP6FromBytesAsWrittenFails(b);
    assert BytesFromIP6Prefix(prefix) == Ok(b);
    assert IP6FromBytesAsWritten(b) == Err(NameError);
    assert IP6FromPrefixAsWritten(prefix) == Err(NameError);
    IP6MaskFromPrefix(prefix);
  }

  /** Outside 97 to 112 the mask of a prefix length is not a lone zero last group: up to
      96 bits group 6 is zero too, from 113 bits group 7 is not zero. */
  lemma MaskGroupsNotLoneLast(prefix: nat)
    requires prefix <= 128 && !(97 <= prefix <= 112)
    ensures !(Groups(MaskBytes(prefix, 16))[7] == 0 && forall k :: 0 <= k < 7 ==> Groups(MaskBytes(prefix, 16))[k] != 0)
  {
    var b := MaskBytes(prefix, 16);
    MaskBytesShape(prefix, 16);
    if prefix <= 96 {
      assert b[12] == 0 && b[13] == 0;
      GroupsAt(b, 6);
    } else {
      if prefix % 8 != 0 {
        PartialByteTable(prefix % 8);
      }
      assert b[14] != 0;
      GroupsAt(b, 7);
    }
  }

  /** As written, IP6Mask of a prefix length raises NameError exactly for 97 to 112, and
      agrees with the corrected IP6Mask on every other length. */
  lemma IP6MaskAsWrittenOfPrefix(prefix: int)
    ensures IP6MaskAsWritten(MPrefix(prefix)) == Err(NameError) <==> 97 <= prefix <= 112
    ensures !(97 <= prefix <= 112) ==> IP6MaskAsWritten(MPrefix(prefix)) == IP6Mask(MPrefix(prefix))
  {
    if 97 <= prefix <= 112 {
      IP6MaskAsWrittenFails(prefix);
    } else if 0 <= prefix <= 128 {
      var b := MaskBytes(prefix, 16);
      BytesFromIP6PrefixSpec(prefix);
      assert BytesFromIP6Prefix(prefix) == Ok(b);
      MaskGroupsNotLoneLast(prefix);
      IP6FromBytesAsWrittenFails(b);
      AsWrittenOrCorrected(b);
      assert IP6FromBytesAsWritten(b) == IP6FromBytes(b);
      assert IP6MaskTextAsWritten(MPrefix(prefix)) == IP6MaskText(MPrefix(prefix));
      IP6MaskFromPrefix(prefix);
    } else {
      assert BytesFromIP6Prefix(prefix) == Err(ValueError);
      IP6MaskOutOfRange(prefix);
    }
  }

  // ---------------------------------------------------------------- errors

  lemma IP6AddressRaisesValueError(s: string)
    ensures IP6Address(s).Err? ==> IP6Address(s).error == ValueError
  {
  }

  lemma IP6MaskTextRaisesValueError(m: MaskArg)
    ensures IP6MaskText(m).Err? ==> IP6MaskText(m).error == ValueError
  {
    if !m.MText? {
      var p := if m.MNone? then 128 else m.length;
      if BytesFromIP6Prefix(p).Ok? {
        IP6AddressRaisesValueError(IP6Text(BytesFromIP6Prefix(p).value));
      }
    }
  }

  /** Parsing mask text and counting its prefix adds no error other than ValueError. */
  lemma IP6MaskOfTextRaises(t: Result<string>)
    requires t.Err? ==> t.error == ValueError
    ensures IP6MaskOfText(t).Err? ==> IP6MaskOfText(t).error == ValueError
  {
    if t.Ok? {
      IP6AddressRaisesValueError(t.value);
    }
  }

  /** Every way IP6Mask fails is a ValueError, so Mask can fall through to it. */
  lemma IP6MaskRaisesValueError(m: MaskArg)
    ensures IP6Mask(m).Err? ==> IP6Mask(m).error == ValueError
  {
    IP6MaskTextRaisesValueError(m);
    IP6MaskOfTextRaises(IP6MaskText(m));
  }

  lemma IPMaskOfTextRaises(t: Result<string>)
    requires t.Err? ==> t.error == ValueError
    ensures IPMaskOfText(t).Err? ==> IPMaskOfText(t).error == ValueError
  {
  }

  /** Every way IPMask fails is a ValueError. */
  lemma IPMaskRaisesValueError(m: MaskArg)
    ensures IPMask(m).Err? ==> IPMask(m).error == ValueError
  {
    assert IPMaskText(m).Err? ==> IPMaskText(m).error == ValueError;
    IPMaskOfTextRaises(IPMaskText(m));
  }
}
