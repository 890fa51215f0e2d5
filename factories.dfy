/** The factories of openbsd/utils.py that pick an address or mask type (Address, Mask,
    AddressFromBytes), and address equality (_AddrBase.__eq__). */
module Factories {
  import opened Common
  import opened Text
  import opened Addresses
  import opened Masks

  /** What a factory is given: an existing address object or text. */
  datatype AddrArg = AObj(obj: Addr) | AText(text: string)

  /** The result of `try: return r except ValueError: <alternative>`. */
  function OrElse(r: Result<Addr>, alternative: Result<Addr>): Result<Addr>
  {
    if r.Err? && r.error == ValueError then alternative else r
  }

  /** Address(address): an address object is returned as it is; text is tried as IPv4,
      then IPv6, then Ethernet. */
  function Address(x: AddrArg): Result<Addr>
  {
    match x
    case AObj(a) => Ok(a)
    case AText(s) =>
      OrElse(IPAddress(s), OrElse(IP6Address(s), OrElse(EthernetAddress(s), Err(ValueError))))
  }

  /** Address returns the first of the three parsers that accepts the text, and raises
      ValueError when none does. */
  lemma AddressTriesInOrder(s: string)
    ensures IPAddress(s).Ok? ==> Address(AText(s)) == IPAddress(s)
    ensures IPAddress(s).Err? && IP6Address(s).Ok? ==> Address(AText(s)) == IP6Address(s)
    ensures IPAddress(s).Err? && IP6Address(s).Err? && EthernetAddress(s).Ok? ==>
              Address(AText(s)) == EthernetAddress(s)
    ensures Address(AText(s)).Err? <==> IPAddress(s).Err? && IP6Address(s).Err? && EthernetAddress(s).Err?
    ensures Address(AText(s)).Err? ==> Address(AText(s)).error == ValueError
  {
  }

  /** An object given to Address is returned unchanged. */
  lemma AddressOfObject(a: Addr)
    ensures Address(AObj(a)) == Ok(a)
  {
  }

  /** What a mask factory is given: an existing address object or a mask argument. */
  datatype MaskInput = MaskObj(obj: Addr) | MaskOf(arg: MaskArg)

  /** Mask(address): an object as it is; otherwise IPMask, then IP6Mask (corrected). */
  function Mask(x: MaskInput): Result<Addr>
  {
    match x
    case MaskObj(a) => Ok(a)
    case MaskOf(m) => OrElse(IPMask(m), OrElse(IP6Mask(m), Err(ValueError)))
  }

  /** A prefix length up to 32 gives an IPv4 mask, one from 33 to 128 an IPv6 mask of
      that length, and any other length ValueError. */
  lemma MaskOfPrefix(prefix: int)
    ensures 0 <= prefix <= 32 ==> Mask(MaskOf(MPrefix(prefix))) == IPMask(MPrefix(prefix))
    ensures 32 < prefix <= 128 ==>
              Mask(MaskOf(MPrefix(prefix))).Ok? &&
              Mask(MaskOf(MPrefix(prefix))).value.family == Inet6 &&
              Mask(MaskOf(MPrefix(prefix))).value.prefix == Some(prefix)
    ensures !(0 <= prefix <= 128) ==> Mask(MaskOf(MPrefix(prefix))) == Err(ValueError)
  {
    if 0 <= prefix <= 32 {
      IPMaskFromPrefix(prefix);
    } else if 0 <= prefix <= 128 {
      MaskOfIP6Prefix(prefix);
    } else {
      MaskOfBadPrefix(prefix);
    }
  }

  lemma MaskOfIP6Prefix(prefix: int)
    requires 32 < prefix <= 128
    ensures Mask(MaskOf(MPrefix(prefix))) == IP6Mask(MPrefix(prefix))
    ensures IP6Mask(MPrefix(prefix)).Ok?
    ensures IP6Mask(MPrefix(prefix)).value.family == Inet6
    ensures IP6Mask(MPrefix(prefix)).value.prefix == Some(prefix)
  {
    IPMaskOutOfRange(prefix);
    IP6MaskFromPrefix(prefix);
  }

  lemma MaskOfBadPrefix(prefix: int)
    requires !(0 <= prefix <= 128)
    ensures Mask(MaskOf(MPrefix(prefix))) == Err(ValueError)
  {
    IPMaskOutOfRange(prefix);
    IP6MaskOutOfRange(prefix);
  }

  /** Mask(address) as written: IP6Mask's NameError is not a ValueError, so it escapes
      the `except ValueError` around it. */
  function MaskAsWritten(x: MaskInput): Result<Addr>
  {
    match x
    case MaskObj(a) => Ok(a)
    case MaskOf(m) => OrElse(IPMask(m), OrElse(IP6MaskAsWritten(m), Err(ValueError)))
  }

  /** As written, Mask either raises NameError or agrees with the corrected Mask. */
  lemma MaskAsWrittenOrCorrected(x: MaskInput)
    ensures MaskAsWritten(x) == Mask(x) || MaskAsWritten(x) == Err(NameError)
  {
    if x.MaskOf? {
      IP6MaskAsWrittenOrCorrected(x.arg);
    }
  }

  /** As written, Mask of a prefix length raises NameError exactly for 97 to 112; every
      other length gives what the corrected Mask gives. */
  lemma MaskAsWrittenOfPrefix(prefix: int)
    ensures MaskAsWritten(MaskOf(MPrefix(prefix))) == Err(NameError) <==> 97 <= prefix <= 112
    ensures !(97 <= prefix <= 112) ==> MaskAsWritten(MaskOf(MPrefix(prefix))) == Mask(MaskOf(MPrefix(prefix)))
  {
    if 0 <= prefix <= 32 {
      IPMaskFromPrefix(prefix);
    } else {
      IPMaskOutOfRange(prefix);
      IP6MaskAsWrittenOfPrefix(prefix);
    }
  }

  /** As written, Mask raises ValueError or NameError and nothing else. */
  lemma MaskAsWrittenRaises(x: MaskInput)
    ensures MaskAsWritten(x).Err? ==> MaskAsWritten(x).error == ValueError || MaskAsWritten(x).error == NameError
  {
    MaskAsWrittenOrCorrected(x);
    MaskRaisesValueError(x);
  }

  /** AddressFromBytes: 4 bytes are IPv4, 16 bytes IPv6, anything else ValueError. */
  function AddressFromBytes(b: seq<Byte>): Result<Addr>
  {
    if |b| == 4 then IPFromBytes(b)
    else if |b| == 16 then IP6FromBytes(b)
    else Err(ValueError)
  }

  /** AddressFromBytes succeeds exactly on 4 and 16 bytes, with the family of that
      length and the same bytes. */
  lemma AddressFromBytesSpec(b: seq<Byte>)
    ensures AddressFromBytes(b).Ok? <==> |b| == 4 || |b| == 16
    ensures AddressFromBytes(b).Ok? ==> AddressFromBytes(b).value.bytes == b
    ensures |b| == 4 ==> AddressFromBytes(b).value.family == Inet
    ensures |b| == 16 ==> AddressFromBytes(b).value.family == Inet6
  {
    IPv4RoundTrip(b);
    IP6RoundTrip(b);
  }

  /** AddressFromBytes as written, with IP6Address.fromBytes as written. */
  function AddressFromBytesAsWritten(b: seq<Byte>): Result<Addr>
  {
    if |b| == 4 then IPFromBytes(b)
    else if |b| == 16 then IP6FromBytesAsWritten(b)
    else Err(ValueError)
  }

  /** As written, AddressFromBytes raises NameError exactly on sixteen bytes whose only
      zero group is the last, and otherwise agrees with the corrected AddressFromBytes. */
  lemma AddressFromBytesAsWrittenFails(b: seq<Byte>)
    ensures AddressFromBytesAsWritten(b) == Err(NameError) <==>
              |b| == 16 && Groups(b)[7] == 0 && forall k :: 0 <= k < 7 ==> Groups(b)[k] != 0
    ensures AddressFromBytesAsWritten(b) != Err(NameError) ==> AddressFromBytesAsWritten(b) == AddressFromBytes(b)
  {
    if |b| == 4 {
      IPv4RoundTrip(b);
    } else if |b| == 16 {
      IP6FromBytesAsWrittenFails(b);
      AsWrittenOrCorrected(b);
    }
  }

  /** Formatting bytes and handing the text to Address gives the same bytes back. */
  lemma AddressOfFromBytes(b: seq<Byte>)
    requires |b| == 4 || |b| == 16
    ensures AddressFromBytes(b).Ok?
    ensures Address(AText(AddressFromBytes(b).value.address)).Ok?
    ensures Address(AText(AddressFromBytes(b).value.address)).value.bytes == b
  {
    AddressFromBytesSpec(b);
    if |b| == 4 {
      IPv4RoundTrip(b);
    } else {
      IP6RoundTrip(b);
      var t := IP6Text(b);
      IP6TextDotless(b);
      SplitFree(t, '.');
      assert IPAddress(t).Err?;
    }
  }

  /** The IPv6 text of sixteen bytes holds no '.'. */
  lemma IP6TextDotless(b: seq<Byte>)
    requires |b| == 16
    ensures Free(IP6Text(b), '.')
  {
    var g := Groups(b);
    var o := HexGroups(g);
    var run := ZeroRun(o);
    forall i | 0 <= i < |o| ensures Free(o[i], '.') {
    }
    JoinFree(o, ':', '.');
    if run.1 != 0 {
      JoinFree(o[..run.0], ':', '.');
      JoinFree(o[run.1 + 1..], ':', '.');
    }
  }

  /** _AddrBase.__eq__: the other side is made an address (errors escape), then the
      raw bytes are compared. */
  function Eq(a: Addr, other: AddrArg): Result<bool>
  {
    var o :- Address(other);
    Ok(a.bytes == o.bytes)
  }

  /** Against another address object, equality is equality of bytes. */
  lemma EqSpec(a: Addr, other: Addr)
    ensures Eq(a, AObj(other)) == Ok(a.bytes == other.bytes)
    ensures Eq(a, AObj(a)) == Ok(true)
  {
  }

  /** Against text, the text is parsed as Address would parse it: parsable text compares
      by the bytes it denotes, and text no parser accepts raises ValueError. */
  lemma EqText(a: Addr, s: string)
    ensures Address(AText(s)).Ok? ==> Eq(a, AText(s)) == Ok(a.bytes == Address(AText(s)).value.bytes)
    ensures Address(AText(s)).Err? ==> Eq(a, AText(s)) == Err(ValueError)
  {
    AddressTriesInOrder(s);
  }

  /** An IPv4 address equals its own dotted text. */
  lemma EqOfIPv4Text(a: Addr)
    requires |a.bytes| == 4
    ensures Eq(a, AText(IPv4Text(a.bytes))) == Ok(true)
  {
    IPv4RoundTrip(a.bytes);
    AddressTriesInOrder(IPv4Text(a.bytes));
  }

  /** An address of four or sixteen bytes equals the text AddressFromBytes formats for it. */
  lemma EqOfOwnText(a: Addr)
    requires |a.bytes| == 4 || |a.bytes| == 16
    ensures AddressFromBytes(a.bytes).Ok?
    ensures Eq(a, AText(AddressFromBytes(a.bytes).value.address)) == Ok(true)
  {
    AddressOfFromBytes(a.bytes);
  }

  /** Mask raises nothing but ValueError. */
  lemma MaskRaisesValueError(m: MaskInput)
    ensures Mask(m).Err? ==> Mask(m).error == ValueError
  {
    if m.MaskOf? {
      IPMaskRaisesValueError(m.arg);
      IP6MaskRaisesValueError(m.arg);
    }
  }
}
