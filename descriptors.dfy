/** The field descriptors of openbsd/_packetDescriptors.py: typed views of spans of a
    packet buffer, read and written through the buffer primitives of the object that owns
    them. A descriptor is an immutable value (offsets, lengths, an optional option table);
    the owning object is a class whose buffer the setters change in place. */
module Descriptors {
  import opened Common
  import opened Text
  import opened NumericCodec
  import opened Bitwise
  import opened Buffers
  import opened Addresses
  import opened OptionTables

  // ---------------------------------------------------------------- host byte order

  /** The byte order of the host, on which socket.htonl and socket.ntohl depend. */
  datatype Endianness = Little | Big

  function Reverse<T>(s: seq<T>): (r: seq<T>)
    ensures |r| == |s|
    ensures forall i :: 0 <= i < |s| ==> r[i] == s[|s| - 1 - i]
  {
    seq(|s|, i requires 0 <= i < |s| => s[|s| - 1 - i])
  }

  /** The four bytes of a 32-bit number in the opposite order. */
  function Swap32(n: nat): nat
    requires n < 0x1_0000_0000
  {
    BigEndian(Reverse(Encode(n, 4)))
  }

  /** socket.htonl and socket.ntohl, which are the same conversion: the bytes are swapped
      on a little-endian host and kept on a big-endian one; a number outside 32 bits
      raises OverflowError. */
  function HostToNet(host: Endianness, n: int): Result<nat>
  {
    if n < 0 || n >= 0x1_0000_0000 then Err(OverflowError)
    else if host == Big then Ok(n)
    else Ok(Swap32(n))
  }

  lemma {:induction false} Pow2Sum(a: nat, b: nat)
    ensures Pow2(a + b) == Pow2(a) * Pow2(b)
    decreases a
  {
    if a > 0 {
      Pow2Sum(a - 1, b);
    }
  }

  /** The three spellings of 2^32 agree. */
  lemma Pow32()
    ensures Pow2(32) == 0x1_0000_0000 && Pow256(4) == 0x1_0000_0000
  {
    assert Pow2(8) == 256;
    Pow2Sum(8, 8);
    Pow2Sum(16, 16);
  }

  /** Swapping the four bytes twice gives the number back. */
  lemma Swap32Involution(n: nat)
    requires n < 0x1_0000_0000
    ensures Swap32(n) < 0x1_0000_0000 && Swap32(Swap32(n)) == n
  {
    Pow32();
    var e := Encode(n, 4);
    var s := Reverse(e);
    BigEndianBound(s);
    DecodeRoundTrip(s);
    assert Reverse(s) == e;
    EncodeRoundTrip(n, 4);
  }

  /** The conversion is defined exactly on 32-bit numbers, stays in 32 bits and undoes
      itself, so ntohl(htonl(n)) == n. */
  lemma HostToNetInvolution(host: Endianness, n: int)
    ensures HostToNet(host, n).Ok? <==> 0 <= n < 0x1_0000_0000
    ensures HostToNet(host, n).Err? ==> HostToNet(host, n).error == OverflowError
    ensures HostToNet(host, n).Ok? ==>
              HostToNet(host, n).value < 0x1_0000_0000 &&
              HostToNet(host, HostToNet(host, n).value) == Ok(n)
  {
    if 0 <= n < 0x1_0000_0000 && host == Little {
      Swap32Involution(n);
    }
  }

  // ---------------------------------------------------------------- values

  /** What a setter is given. Python 2 has one str type for text and for raw bytes; the
      model keeps text (option names, addresses) and raw bytes apart. */
  datatype Value =
    | VInt(n: int)                 // an integer
    | VText(s: string)             // a string: an option name or an address
    | VNames(items: seq<string>)   // a list of option names or of addresses
    | VBytes(b: seq<Byte>)         // a raw byte string

  /** What a getter returns. */
  datatype FieldValue =
    | FInt(n: int)
    | FBytes(b: seq<Byte>)
    | FText(s: string)
    | FTexts(texts: seq<string>)

  /** The descriptor classes; `options` is None in the source when null here. */
  datatype Field =
    | IntField(frm: nat, tlen: nat, options: Options?)
    | HOInt32Field(frm: nat, options: Options?)
    | ByteField(frm: nat, tlen: nat)
    | PaddedString(frm: nat, tlen: nat)
    | BitField(frm: nat, bitoffset: nat, bitlen: nat)
    | FlagsField(frm: nat, bitoffset: nat, bitlen: nat, options: Options?)
    | HOInt32FlagsField(frm: nat, options: Options?)
    | IPAddressField(frm: nat)
    | IPAddressList(frm: nat, tlen: nat)
    | IPv6AddressField(frm: nat)
    | EthernetAddressField(frm: nat)
    | Payload
    | DescriptorProxy(name: string)

  /** IPAddressList(frm, tlen): ValueError unless tlen is a multiple of 4. */
  function NewIPAddressList(frm: nat, tlen: nat): (r: Result<Field>)
    ensures r.Ok? <==> tlen % 4 == 0
    ensures r.Ok? ==> r.value == IPAddressList(frm, tlen)
    ensures r.Err? ==> r.error == ValueError
  {
    if tlen % 4 != 0 then Err(ValueError) else Ok(IPAddressList(frm, tlen))
  }

  /** The option table a descriptor consults, as a frame. */
  function OptionsOf(f: Field): set<object>
  {
    match f
    case IntField(_, _, o) => if o == null then {} else {o}
    case HOInt32Field(_, o) => if o == null then {} else {o}
    case FlagsField(_, _, _, o) => if o == null then {} else {o}
    case HOInt32FlagsField(_, o) => if o == null then {} else {o}
    case _ => {}
  }

  /** The outcome of a write, without the new buffer. */
  function Status<T>(r: Result<T>): Result<()>
  {
    if r.Ok? then Ok(()) else Err(r.error)
  }

  // ---------------------------------------------------------------- the owning object

  /** The protocol object a descriptor is accessed through: its buffer, the `length`
      attribute IPAddressList assigns, how often initialise() has run, the span
      _getPayloadOffsets() reports, and the instance attributes that hold descriptors
      (which DescriptorProxy looks up by name). */
  class Packet {
    var data: seq<Byte>
    var length: int
    var initialised: nat
    var payloadOffset: int
    var payloadLength: int
    var attributes: map<string, Field>

    constructor (data: seq<Byte>, payloadOffset: int, payloadLength: int, attributes: map<string, Field>)
      ensures this.data == data && this.length == 0 && this.initialised == 0
      ensures this.payloadOffset == payloadOffset && this.payloadLength == payloadLength
      ensures this.attributes == attributes
    {
      this.data := data;
      this.length := 0;
      this.initialised := 0;
      this.payloadOffset := payloadOffset;
      this.payloadLength := payloadLength;
      this.attributes := attributes;
    }

    /** _getPayloadOffsets(). */
    function PayloadOffsets(): (int, int)
      reads this
    {
      (payloadOffset, payloadLength)
    }

    /** _setIntField(frm, tlen, v). */
    method SetIntField(frm: nat, tlen: nat, v: int) returns (r: Result<()>)
      modifies this`data
      ensures r == Status(WriteInt(old(data), frm, tlen, v))
      ensures data == if r.Ok? then WriteInt(old(data), frm, tlen, v).value else old(data)
    {
      var w := WriteInt(data, frm, tlen, v);
      if w.Ok? {
        data := w.value;
        r := Ok(());
      } else {
        r := Err(w.error);
      }
    }

    /** _setByteField(frm, tlen, b). */
    method SetByteField(frm: int, tlen: int, b: seq<Byte>) returns (r: Result<()>)
      modifies this`data
      ensures r == Status(WriteBytes(old(data), frm, tlen, b))
      ensures data == if r.Ok? then WriteBytes(old(data), frm, tlen, b).value else old(data)
    {
      var w := WriteBytes(data, frm, tlen, b);
      if w.Ok? {
        data := w.value;
        r := Ok(());
      } else {
        r := Err(w.error);
      }
    }

    /** _setBitField(frm, bitoffset, bitlen, v). */
    method SetBitField(frm: nat, bitoffset: nat, bitlen: nat, v: int) returns (r: Result<()>)
      modifies this`data
      ensures r == Status(WriteBits(old(data), frm, bitoffset, bitlen, v))
      ensures data == if r.Ok? then WriteBits(old(data), frm, bitoffset, bitlen, v).value else old(data)
    {
      var w := WriteBits(data, frm, bitoffset, bitlen, v);
      if w.Ok? {
        data := w.value;
        r := Ok(());
      } else {
        r := Err(w.error);
      }
    }

    /** _splice(s, e, b). */
    method SpliceBytes(s: int, e: int, b: seq<Byte>) returns (r: Result<()>)
      modifies this`data
      ensures r == Status(Splice(old(data), s, e, b))
      ensures data == if r.Ok? then Splice(old(data), s, e, b).value else old(data)
    {
      var w := Splice(data, s, e, b);
      if w.Ok? {
        data := w.value;
        r := Ok(());
      } else {
        r := Err(w.error);
      }
    }

    /** initialise(): recomputes what depends on the buffer's layout; only the fact that
        it ran is modelled. */
    method Initialise()
      modifies this`initialised
      ensures initialised == old(initialised) + 1
    {
      initialised := initialised + 1;
    }
  }

  // ---------------------------------------------------------------- DescriptorProxy

  /** The descriptor a proxy stands for: getattr(obj, name) must find a descriptor among
      the object's attributes (AttributeError otherwise), and a proxy found there is
      followed in turn. A chain of more proxies than there are attributes has gone round
      a cycle, which recurses until Python gives up with RuntimeError. */
  function Target(p: Packet, f: Field, hops: nat): (r: Result<Field>)
    reads p`attributes
    ensures r.Ok? ==> !r.value.DescriptorProxy?
    ensures !f.DescriptorProxy? ==> r == Ok(f)
    ensures r.Err? ==> r.error == AttributeError || r.error == RuntimeError
    decreases hops
  {
    if !f.DescriptorProxy? then Ok(f)
    else if f.name !in p.attributes then Err(AttributeError)
    else if hops == 0 then Err(RuntimeError)
    else Target(p, p.attributes[f.name], hops - 1)
  }

  function Resolve(p: Packet, f: Field): Result<Field>
    reads p`attributes
  {
    Target(p, f, |p.attributes|)
  }

  /** A proxy naming a plain descriptor stands for that descriptor, and one naming no
      attribute raises AttributeError. */
  lemma ResolveProxy(p: Packet, name: string)
    ensures name !in p.attributes ==> Resolve(p, DescriptorProxy(name)) == Err(AttributeError)
    ensures name in p.attributes && !p.attributes[name].DescriptorProxy? ==>
              Resolve(p, DescriptorProxy(name)) == Ok(p.attributes[name])
  {
    if name in p.attributes {
      assert |p.attributes| > 0 by {
        assert name in p.attributes.Keys;
      }
    }
  }

  // ---------------------------------------------------------------- getters

  /** The bytes before the first NUL: s.split("\0")[0]. */
  function BeforeNul(b: seq<Byte>): (r: seq<Byte>)
    ensures |r| <= |b| && r == b[..|r|]
    ensures forall i :: 0 <= i < |r| ==> r[i] != 0
    ensures |r| < |b| ==> b[|r|] == 0
  {
    if b == [] || b[0] == 0 then [] else [b[0]] + BeforeNul(b[1..])
  }

  /** IPAddressList.__get__: the IPv4 texts of the 4-byte groups at i, i + 4, ... below
      tlen. */
  function AddressesAt(data: seq<Byte>, i: nat, tlen: nat): Result<seq<string>>
    decreases tlen - i
  {
    if i >= tlen then Ok([])
    else
      var b :- ReadBytes(data, i, 4);
      var a :- IPFromBytes(b);
      var rest :- AddressesAt(data, i + 4, tlen);
      Ok([a.address] + rest)
  }

  /** __get__ of a descriptor that is not a proxy, on the given buffer and payload span. */
  function Read(f: Field, data: seq<Byte>, payload: (int, int), host: Endianness): Result<FieldValue>
    requires !f.DescriptorProxy?
  {
    match f
    case IntField(frm, tlen, _) =>
      var n :- ReadInt(data, frm, tlen);
      Ok(FInt(n))
    case HOInt32Field(frm, _) =>
      var n :- ReadInt(data, frm, 4);
      var h :- HostToNet(host, n);
      Ok(FInt(h))
    case ByteField(frm, tlen) =>
      var b :- ReadBytes(data, frm, tlen);
      Ok(FBytes(b))
    case PaddedString(frm, tlen) =>
      var b :- ReadBytes(data, frm, tlen);
      Ok(FBytes(BeforeNul(b)))
    case BitField(frm, bitoffset, bitlen) =>
      var n :- ReadBits(data, frm, bitoffset, bitlen);
      Ok(FInt(n))
    case FlagsField(frm, bitoffset, bitlen, _) =>
      var n :- ReadBits(data, frm, bitoffset, bitlen);
      Ok(FInt(n))
    case HOInt32FlagsField(frm, _) =>
      var n :- ReadBits(data, frm, 0, 32);
      var h :- HostToNet(host, n);
      Ok(FInt(h))
    case IPAddressField(frm) =>
      var b :- ReadBytes(data, frm, 4);
      var a :- IPFromBytes(b);
      Ok(FText(a.address))
    case IPAddressList(frm, tlen) =>
      var l :- AddressesAt(data, frm, tlen);
      Ok(FTexts(l))
    case IPv6AddressField(frm) =>
      var b :- ReadBytes(data, frm, 16);
      var a :- IP6FromBytes(b);
      Ok(FText(a.address))
    case EthernetAddressField(frm) =>
      var b :- ReadBytes(data, frm, 6);
      var a :- EthernetFromBytes(b);
      Ok(FText(a.address))
    case Payload =>
      var b :- ReadBytes(data, payload.0, payload.1);
      Ok(FBytes(b))
  }

  /** __get__ as written: IPv6AddressField's getter calls IP6Address.fromBytes as written,
      which can raise NameError; every other descriptor reads as Read does. */
  function ReadAsWritten(f: Field, data: seq<Byte>, payload: (int, int), host: Endianness): Result<FieldValue>
    requires !f.DescriptorProxy?
  {
    match f
    case IPv6AddressField(frm) =>
      var b :- ReadBytes(data, frm, 16);
      var a :- IP6FromBytesAsWritten(b);
      Ok(FText(a.address))
    case _ => Read(f, data, payload, host)
  }

  /** descriptor.__get__(obj): a proxy first finds the descriptor it stands for. */
  function Get(f: Field, p: Packet, host: Endianness): Result<FieldValue>
    reads p
  {
    var t :- Resolve(p, f);
    Read(t, p.data, p.PayloadOffsets(), host)
  }

  // ---------------------------------------------------------------- setter arguments

  /** str(val) where an option name could match it. */
  function PyStr(v: Value): Option<string>
  {
    match v
    case VInt(n) => Some(IntToStr(n))
    case VText(s) => Some(s)
    case _ => None
  }

  /** IntField.__set__'s substitution: with options, a value whose str() is an option name
      is replaced by that option's value; anything else is passed on unchanged. */
  function Substitute(options: Options?, v: Value): (r: Value)
    reads options
    ensures options != null && PyStr(v).Some? && options.HasKey(PyStr(v).value) ==>
              r == VInt(options.Get(PyStr(v).value).value)
    ensures !(options != null && PyStr(v).Some? && options.HasKey(PyStr(v).value)) ==> r == v
  {
    if options != null && PyStr(v).Some? && options.HasKey(PyStr(v).value) then
      VInt(options.Get(PyStr(v).value).value)
    else v
  }

  /** For options registered from `kwargs`, a value whose str() equals a registered name
      up to case becomes the value registered last under that name; any other value, and
      every value when there are no options, is passed on unchanged. */
  lemma SubstituteLastRegistered(options: Options?, kwargs: seq<(string, int)>, v: Value)
    requires options != null ==> options.ndict == NamesAfter(map[], kwargs)
    ensures options != null && PyStr(v).Some? && LastNamed(kwargs, PyStr(v).value).Some? ==>
              Substitute(options, v) == VInt(LastNamed(kwargs, PyStr(v).value).value.1)
    ensures options == null || PyStr(v).None? || LastNamed(kwargs, PyStr(v).value).None? ==>
              Substitute(options, v) == v
  {
    if options != null && PyStr(v).Some? {
      LastRegistrationWins(kwargs, PyStr(v).value);
    }
  }

  /** The or of the options' values of the names, in order; KeyError at the first name
      that is not an option. */
  function OptionsOr(options: Options, names: seq<string>): Result<int>
    reads options
  {
    if names == [] then Ok(0)
    else
      var c :- OptionsOr(options, names[..|names| - 1]);
      var v :- options.Get(names[|names| - 1]);
      Ok(Or(c, v))
  }

  /** FlagsField.__set__'s loop: `cval |= self.options[str(i)]` for each name. */
  method OrOfOptions(options: Options, names: seq<string>) returns (r: Result<int>)
    ensures r == OptionsOr(options, names)
  {
    var cval := 0;
    var i := 0;
    while i < |names|
      invariant 0 <= i <= |names|
      invariant OptionsOr(options, names[..i]) == Ok(cval)
    {
      var v := options.Get(names[i]);
      assert names[..i + 1][..i] == names[..i];
      if v.Err? {
        OptionsOrStops(options, names, i + 1);
        return Err(v.error);
      }
      cval := Or(cval, v.value);
      i := i + 1;
    }
    assert names[..i] == names;
    r := Ok(cval);
  }

  lemma {:induction false} OptionsOrStops(options: Options, names: seq<string>, k: nat)
    requires k <= |names|
    requires OptionsOr(options, names[..k]).Err?
    ensures OptionsOr(options, names) == OptionsOr(options, names[..k])
    decreases |names| - k
  {
    if k < |names| {
      assert names[..k + 1][..k] == names[..k];
      OptionsOrStops(options, names, k + 1);
    } else {
      assert names[..k] == names;
    }
  }

  /** The or is defined exactly when every name is an option, and then has a bit set
      exactly when one of the named options has it set; no names give 0. */
  lemma {:induction false} OptionsOrBits(options: Options, names: seq<string>)
    ensures OptionsOr(options, names).Ok? <==> forall k :: 0 <= k < |names| ==> options.HasKey(names[k])
    ensures OptionsOr(options, names).Err? ==> OptionsOr(options, names).error == KeyError
    ensures OptionsOr(options, names).Ok? ==>
              forall i: nat :: IBit(OptionsOr(options, names).value, i) <==>
                exists k :: 0 <= k < |names| && IBit(options.Get(names[k]).value, i)
    decreases |names|
  {
    if names == [] {
      forall i: nat ensures !IBit(0, i) {
        NBitZero(i);
      }
    } else {
      var init, last := names[..|names| - 1], names[|names| - 1];
      OptionsOrBits(options, init);
      assert forall k :: 0 <= k < |init| ==> init[k] == names[k];
      var r := OptionsOr(options, names);
      if r.Ok? {
        var c := OptionsOr(options, init).value;
        var v := options.Get(last).value;
        forall i: nat ensures IBit(r.value, i) <==>
                                exists k :: 0 <= k < |names| && IBit(options.Get(names[k]).value, i) {
          OrBit(c, v, i);
          if IBit(r.value, i) && !IBit(v, i) {
            var k :| 0 <= k < |init| && IBit(options.Get(init[k]).value, i);
            assert names[k] == init[k];
          }
          if exists k :: 0 <= k < |names| && IBit(options.Get(names[k]).value, i) {
            var k :| 0 <= k < |names| && IBit(options.Get(names[k]).value, i);
            if k < |init| {
              assert init[k] == names[k];
            }
          }
        }
      }
    }
  }

  /** FlagsField.__set__'s conversion of its argument: an integer, or a string of decimal
      digits that `int(val)` accepts, as it is; with options, another string that is an
      option name becomes its value and a list becomes the or of its names' values;
      anything else is passed on unchanged. */
  function FlagsArgument(options: Options?, v: Value): Result<Value>
    reads options
  {
    match v
    case VInt(_) => Ok(v)
    case VText(s) =>
      if s != [] && AllDigits(s, 10) then Ok(v)
      else if options != null && options.HasKey(s) then Ok(VInt(options.Get(s).value)) else Ok(v)
    case VNames(names) =>
      if options == null then Ok(v)
      else
        var c :- OptionsOr(options, names);
        Ok(VInt(c))
    case VBytes(_) => Ok(v)
  }

  /** `val + "\0" * (tlen - len(val))`. */
  function Pad(b: seq<Byte>, tlen: int): (r: seq<Byte>)
    ensures |b| <= tlen ==> |r| == tlen
    ensures |b| > tlen ==> r == b
  {
    b + Repeat<Byte>(0, tlen - |b|)
  }

  /** A string with no NUL comes back from its padding; a string longer than the field is
      passed on whole. */
  lemma PadThenStrip(b: seq<Byte>, tlen: int)
    requires forall i :: 0 <= i < |b| ==> b[i] != 0
    ensures BeforeNul(Pad(b, tlen)) == b
  {
    var q := Pad(b, tlen);
    assert q[..|b|] == b;
    BeforeNulStops(q, b);
  }

  /** The bytes before the first NUL are b when q starts with b, which holds no NUL, and
      q ends there or goes on with a NUL. */
  lemma {:induction false} BeforeNulStops(q: seq<Byte>, b: seq<Byte>)
    requires |b| <= |q| && q[..|b|] == b
    requires forall i :: 0 <= i < |b| ==> b[i] != 0
    requires |b| < |q| ==> q[|b|] == 0
    ensures BeforeNul(q) == b
    decreases |b|
  {
    if b != [] {
      assert q[0] == b[0];
      assert q[1..][..|b| - 1] == b[1..];
      BeforeNulStops(q[1..], b[1..]);
    }
  }

  /** The bytes an IPAddressList setter writes: each address's four bytes, in order;
      ValueError at the first address that does not parse. */
  function ListBytes(names: seq<string>): (r: Result<seq<Byte>>)
    ensures r.Ok? ==> |r.value| == 4 * |names|
    ensures r.Err? ==> r.error == ValueError
  {
    if names == [] then Ok([])
    else
      var init :- ListBytes(names[..|names| - 1]);
      var a :- IPAddress(names[|names| - 1]);
      IPv4AddressBytes(names[|names| - 1]);
      Ok(init + a.bytes)
  }

  lemma IPv4AddressBytes(s: string)
    ensures IPAddress(s).Ok? ==> |IPAddress(s).value.bytes| == 4
  {
  }

  /** The items an IPAddressList setter iterates over: a list's elements, or a string's
      characters. */
  function Items(v: Value): Option<seq<string>>
  {
    match v
    case VNames(items) => Some(items)
    case VText(s) => Some(seq(|s|, i requires 0 <= i < |s| => [s[i]]))
    case _ => None
  }

  // ---------------------------------------------------------------- setters, as values

  /** The buffer after descriptor.__set__(obj, v) for a descriptor that is not a proxy,
      or the exception it raises; every check comes before the one buffer write, so a
      failed set leaves the buffer as it was. A non-integer given to an integer
      primitive, or text given where bytes are written, is a TypeError. */
  function Write(f: Field, data: seq<Byte>, payload: (int, int), v: Value, host: Endianness): Result<seq<Byte>>
    requires !f.DescriptorProxy?
    reads OptionsOf(f)
  {
    match f
    case IntField(frm, tlen, options) =>
      var w := Substitute(options, v);
      if !w.VInt? then Err(TypeError) else WriteInt(data, frm, tlen, w.n)
    case HOInt32Field(frm, options) =>
      var w := Substitute(options, v);
      if !w.VInt? then Err(TypeError)
      else
        var c :- HostToNet(host, w.n);
        WriteInt(data, frm, 4, c)
    case ByteField(frm, tlen) =>
      if !v.VBytes? then Err(TypeError) else WriteBytes(data, frm, tlen, v.b)
    case PaddedString(frm, tlen) =>
      if !v.VBytes? then Err(TypeError) else WriteBytes(data, frm, tlen, Pad(v.b, tlen))
    case BitField(frm, bitoffset, bitlen) =>
      if !v.VInt? then Err(TypeError) else WriteBits(data, frm, bitoffset, bitlen, v.n)
    case FlagsField(frm, bitoffset, bitlen, options) =>
      var w :- FlagsArgument(options, v);
      if !w.VInt? then Err(TypeError) else WriteBits(data, frm, bitoffset, bitlen, w.n)
    case HOInt32FlagsField(frm, options) =>
      var w :- FlagsArgument(options, v);
      if !w.VInt? then Err(TypeError)
      else
        var c :- HostToNet(host, w.n);
        WriteBits(data, frm, 0, 32, c)
    case IPAddressField(frm) =>
      if !v.VText? then Err(TypeError)
      else
        var a :- IPAddress(v.s);
        WriteBytes(data, frm, 4, a.bytes)
    case IPAddressList(frm, tlen) =>
      if Items(v).None? then Err(TypeError)
      else
        var b :- ListBytes(Items(v).value);
        Splice(data, frm, tlen, b)
    case IPv6AddressField(frm) =>
      if !v.VText? then Err(TypeError)
      else
        var a :- IP6Address(v.s);
        WriteBytes(data, frm, 16, a.bytes)
    case EthernetAddressField(frm) =>
      if !v.VText? then Err(TypeError)
      else
        var a :- EthernetAddress(v.s);
        WriteBytes(data, frm, 6, a.bytes)
    case Payload =>
      if payload.1 < 0 || payload.0 < 0 then Err(AssertionError)
      else if !v.VBytes? then Err(TypeError)
      else Splice(data, payload.0, payload.0 + payload.1, v.b)
  }

  // ---------------------------------------------------------------- what a set promises

  /** IntField: the value, or the value of the option it names, is written and read back;
      nothing outside the span changes. */
  lemma IntFieldRoundTrip(frm: nat, tlen: nat, options: Options?, data: seq<Byte>, payload: (int, int), v: Value, host: Endianness)
    requires Write(IntField(frm, tlen, options), data, payload, v, host).Ok?
    ensures Substitute(options, v).VInt?
    ensures var d := Write(IntField(frm, tlen, options), data, payload, v, host).value;
            && |d| == |data| && d[..frm] == data[..frm] && d[frm + tlen..] == data[frm + tlen..]
            && Read(IntField(frm, tlen, options), d, payload, host) == Ok(FInt(Substitute(options, v).n))
  {
    WriteIntThenRead(data, frm, tlen, Substitute(options, v).n);
  }

  /** HOInt32Field: set stores ntohl of the value and get applies htonl, so a 32-bit value
      is read back as it was written, whatever the host's byte order. */
  lemma HOInt32RoundTrip(frm: nat, options: Options?, data: seq<Byte>, payload: (int, int), n: int, host: Endianness)
    requires options == null || !options.HasKey(IntToStr(n))
    requires frm + 4 <= |data|
    ensures Write(HOInt32Field(frm, options), data, payload, VInt(n), host).Ok? <==> 0 <= n < 0x1_0000_0000
    ensures Write(HOInt32Field(frm, options), data, payload, VInt(n), host).Ok? ==>
              Read(HOInt32Field(frm, options), Write(HOInt32Field(frm, options), data, payload, VInt(n), host).value, payload, host) == Ok(FInt(n))
  {
    HostToNetInvolution(host, n);
    Pow32();
    if 0 <= n < 0x1_0000_0000 {
      WriteIntThenRead(data, frm, 4, HostToNet(host, n).value);
    }
  }

  /** PaddedString: a string of at most tlen bytes is written NUL-padded to exactly tlen
      bytes and, when it holds no NUL, read back as it was. */
  lemma PaddedStringRoundTrip(frm: nat, tlen: nat, data: seq<Byte>, payload: (int, int), b: seq<Byte>, host: Endianness)
    requires frm + tlen <= |data| && |b| <= tlen
    ensures Write(PaddedString(frm, tlen), data, payload, VBytes(b), host) ==
              Ok(data[..frm] + b + Repeat<Byte>(0, tlen - |b|) + data[frm + tlen..])
    ensures (forall i :: 0 <= i < |b| ==> b[i] != 0) ==>
              Read(PaddedString(frm, tlen), Write(PaddedString(frm, tlen), data, payload, VBytes(b), host).value, payload, host) == Ok(FBytes(b))
  {
    WriteBytesThenRead(data, frm, tlen, Pad(b, tlen));
    assert data[..frm] + Pad(b, tlen) + data[frm + tlen..] == data[..frm] + b + Repeat<Byte>(0, tlen - |b|) + data[frm + tlen..];
    if forall i :: 0 <= i < |b| ==> b[i] != 0 {
      PadThenStrip(b, tlen);
    }
  }

  /** A string longer than a PaddedString gets no padding and is refused by the buffer,
      which leaves it unchanged. */
  lemma PaddedStringTooLong(frm: nat, tlen: nat, data: seq<Byte>, payload: (int, int), b: seq<Byte>, host: Endianness)
    requires frm + tlen <= |data| && |b| > tlen
    ensures Write(PaddedString(frm, tlen), data, payload, VBytes(b), host) == Err(ValueError)
  {
  }

  /** FlagsField: a list of option names writes the or of their values; the flags of the
      documented example, a = 0x1 and b = 0x2, give 3. */
  lemma FlagsFieldNames(frm: nat, bitoffset: nat, bitlen: nat, options: Options, data: seq<Byte>, payload: (int, int), names: seq<string>, host: Endianness)
    requires OptionsOr(options, names).Ok?
    requires 8 * frm + bitoffset + bitlen <= 8 * |data|
    requires 0 <= OptionsOr(options, names).value < Pow2(bitlen)
    ensures Write(FlagsField(frm, bitoffset, bitlen, options), data, payload, VNames(names), host).Ok?
    ensures Read(FlagsField(frm, bitoffset, bitlen, options),
                 Write(FlagsField(frm, bitoffset, bitlen, options), data, payload, VNames(names), host).value, payload, host)
              == Ok(FInt(OptionsOr(options, names).value))
  {
    WriteBitsThenRead(data, frm, bitoffset, bitlen, OptionsOr(options, names).value);
  }

  /** An unknown name among them raises KeyError and nothing is written. */
  lemma FlagsFieldUnknownName(frm: nat, bitoffset: nat, bitlen: nat, options: Options, data: seq<Byte>, payload: (int, int), names: seq<string>, host: Endianness)
    requires exists k :: 0 <= k < |names| && !options.HasKey(names[k])
    ensures Write(FlagsField(frm, bitoffset, bitlen, options), data, payload, VNames(names), host) == Err(KeyError)
  {
    OptionsOrBits(options, names);
  }

  lemma FlagsExample()
    ensures Or(0x1, 0x2) == 3 && Or(Or(0, 0x1), 0x2) == 3
  {
  }

  /** HOInt32FlagsField: 32 bits at bit offset 0, converted as HOInt32Field is, so a 32-bit
      value is read back as it was written. */
  lemma HOInt32FlagsRoundTrip(frm: nat, options: Options?, data: seq<Byte>, payload: (int, int), n: int, host: Endianness)
    requires frm + 4 <= |data|
    ensures Write(HOInt32FlagsField(frm, options), data, payload, VInt(n), host).Ok? <==> 0 <= n < 0x1_0000_0000
    ensures Write(HOInt32FlagsField(frm, options), data, payload, VInt(n), host).Ok? ==>
              Read(HOInt32FlagsField(frm, options), Write(HOInt32FlagsField(frm, options), data, payload, VInt(n), host).value, payload, host) == Ok(FInt(n))
  {
    HostToNetInvolution(host, n);
    Pow32();
    if 0 <= n < 0x1_0000_0000 {
      WriteBitsThenRead(data, frm, 0, 32, HostToNet(host, n).value);
    }
  }

  /** IPAddressField: the text is parsed first (ValueError before any write), then its
      four bytes are written at frm, and the getter gives the address's canonical text. */
  lemma IPAddressFieldRoundTrip(frm: nat, data: seq<Byte>, payload: (int, int), s: string, host: Endianness)
    ensures IPAddress(s).Err? ==> Write(IPAddressField(frm), data, payload, VText(s), host) == Err(ValueError)
    ensures IPAddress(s).Ok? && frm + 4 <= |data| ==>
              var d := Write(IPAddressField(frm), data, payload, VText(s), host);
              d.Ok? && d.value[frm..frm + 4] == IPAddress(s).value.bytes &&
              Read(IPAddressField(frm), d.value, payload, host) == Ok(FText(IPv4Text(IPAddress(s).value.bytes)))
  {
    var a := IPAddress(s);
    var w := Write(IPAddressField(frm), data, payload, VText(s), host);
    IPv4AddressBytes(s);
    if a.Ok? && frm + 4 <= |data| {
      var b := a.value.bytes;
      assert w == WriteBytes(data, frm, 4, b);
      WriteBytesThenRead(data, frm, 4, b);
      assert ReadBytes(w.value, frm, 4) == Ok(b);
      IPv4RoundTrip(b);
      assert Read(IPAddressField(frm), w.value, payload, host) == Ok(FText(IPv4Text(b)));
    }
  }


  /** IPv6AddressField: the same with sixteen bytes. */
  lemma IPv6AddressFieldRoundTrip(frm: nat, data: seq<Byte>, payload: (int, int), s: string, host: Endianness)
    ensures IP6Address(s).Err? ==> Write(IPv6AddressField(frm), data, payload, VText(s), host) == Err(ValueError)
    ensures IP6Address(s).Ok? && frm + 16 <= |data| ==>
              var d := Write(IPv6AddressField(frm), data, payload, VText(s), host);
              d.Ok? && d.value[frm..frm + 16] == IP6Address(s).value.bytes &&
              Read(IPv6AddressField(frm), d.value, payload, host) == Ok(FText(IP6Text(IP6Address(s).value.bytes)))
  {
    var a := IP6Address(s);
    var w := Write(IPv6AddressField(frm), data, payload, VText(s), host);
    IP6BytesLength(s);
    if a.Ok? && frm + 16 <= |data| {
      var b := a.value.bytes;
      assert w == WriteBytes(data, frm, 16, b);
      WriteBytesThenRead(data, frm, 16, b);
      assert ReadBytes(w.value, frm, 16) == Ok(b);
      IP6RoundTrip(b);
      assert Read(IPv6AddressField(frm), w.value, payload, host) == Ok(FText(IP6Text(b)));
    }
  }


  /** As written, the IPv6 getter raises NameError exactly when the sixteen bytes at frm
      have the last group as their only zero group, and otherwise reads as Read does. */
  lemma IPv6ReadAsWritten(frm: nat, data: seq<Byte>, payload: (int, int), host: Endianness)
    requires frm + 16 <= |data|
    ensures var b := data[frm..frm + 16];
            ReadAsWritten(IPv6AddressField(frm), data, payload, host) == Err(NameError) <==>
              Groups(b)[7] == 0 && forall k :: 0 <= k < 7 ==> Groups(b)[k] != 0
    ensures ReadAsWritten(IPv6AddressField(frm), data, payload, host) != Err(NameError) ==>
              ReadAsWritten(IPv6AddressField(frm), data, payload, host) == Read(IPv6AddressField(frm), data, payload, host)
  {
    var b := data[frm..frm + 16];
    assert ReadBytes(data, frm, 16) == Ok(b);
    IP6FromBytesAsWrittenFails(b);
    AsWrittenOrCorrected(b);
  }

  /** Writing IPv6 text and reading it back with the getter as written: the printed
      address, or NameError when the address's only zero group is the last. */
  lemma IPv6AddressFieldAsWrittenRoundTrip(frm: nat, data: seq<Byte>, payload: (int, int), s: string, host: Endianness)
    requires IP6Address(s).Ok? && frm + 16 <= |data|
    ensures var b := IP6Address(s).value.bytes;
            var d := Write(IPv6AddressField(frm), data, payload, VText(s), host);
            d.Ok? &&
            ReadAsWritten(IPv6AddressField(frm), d.value, payload, host) ==
              if Groups(b)[7] == 0 && forall k :: 0 <= k < 7 ==> Groups(b)[k] != 0 then Err(NameError)
              else Ok(FText(IP6Text(b)))
  {
    var b := IP6Address(s).value.bytes;
    IPv6AddressFieldRoundTrip(frm, data, payload, s, host);
    var d := Write(IPv6AddressField(frm), data, payload, VText(s), host).value;
    IP6BytesLength(s);
    assert |d| == |data| by {
      WriteBytesThenRead(data, frm, 16, b);
    }
    IPv6ReadAsWritten(frm, d, payload, host);
  }

  /** EthernetAddressField: the same with six bytes. */
  lemma EthernetAddressFieldRoundTrip(frm: nat, data: seq<Byte>, payload: (int, int), s: string, host: Endianness)
    ensures EthernetAddress(s).Err? ==> Write(EthernetAddressField(frm), data, payload, VText(s), host) == Err(ValueError)
    ensures EthernetAddress(s).Ok? && frm + 6 <= |data| ==>
              var d := Write(EthernetAddressField(frm), data, payload, VText(s), host);
              d.Ok? && d.value[frm..frm + 6] == EthernetAddress(s).value.bytes &&
              Read(EthernetAddressField(frm), d.value, payload, host) == Ok(FText(EthernetText(EthernetAddress(s).value.bytes)))
  {
    var a := EthernetAddress(s);
    var w := Write(EthernetAddressField(frm), data, payload, VText(s), host);
    EthernetBytesLength(s);
    if a.Ok? && frm + 6 <= |data| {
      var b := a.value.bytes;
      assert w == WriteBytes(data, frm, 6, b);
      WriteBytesThenRead(data, frm, 6, b);
      assert ReadBytes(w.value, frm, 6) == Ok(b);
      EthernetRoundTrip(b);
      assert Read(EthernetAddressField(frm), w.value, payload, host) == Ok(FText(EthernetText(b)));
    }
  }


  lemma EthernetBytesLength(s: string)
    ensures EthernetAddress(s).Ok? ==> |EthernetAddress(s).value.bytes| == 6
  {
  }

  lemma IP6BytesLength(s: string)
    ensures IP6Address(s).Ok? ==> |IP6Address(s).value.bytes| == 16
  {
  }

  /** ListBytes accepts exactly lists of IPv4 addresses, and holds their bytes in order. */
  lemma {:induction false} ListBytesSpec(names: seq<string>)
    ensures ListBytes(names).Ok? <==> forall k :: 0 <= k < |names| ==> IPAddress(names[k]).Ok?
    ensures ListBytes(names).Ok? ==>
              forall k :: 0 <= k < |names| ==> ListBytes(names).value[4 * k..4 * k + 4] == IPAddress(names[k]).value.bytes
    decreases |names|
  {
    if names != [] {
      var init, last := names[..|names| - 1], names[|names| - 1];
      ListBytesSpec(init);
      assert forall k :: 0 <= k < |init| ==> init[k] == names[k];
      if ListBytes(names).Ok? {
        var b := ListBytes(init).value;
        IPv4AddressBytes(last);
        var r := b + IPAddress(last).value.bytes;
        forall k | 0 <= k < |names| ensures r[4 * k..4 * k + 4] == IPAddress(names[k]).value.bytes {
          if k < |init| {
            assert r[4 * k..4 * k + 4] == b[4 * k..4 * k + 4];
          } else {
            assert r[4 * k..4 * k + 4] == IPAddress(last).value.bytes;
          }
        }
      }
    }
  }

  /** The IPv4 texts of m consecutive 4-byte groups from i on. */
  function GroupTexts(data: seq<Byte>, i: nat, m: nat): (r: seq<string>)
    requires i + 4 * m <= |data|
    ensures |r| == m
    ensures forall k :: 0 <= k < m ==> r[k] == IPv4Text(data[i + 4 * k..i + 4 * k + 4])
    decreases m
  {
    if m == 0 then []
    else
      var rest := GroupTexts(data, i + 4, m - 1);
      assert forall k :: 1 <= k < m ==> i + 4 * k == (i + 4) + 4 * (k - 1);
      [IPv4Text(data[i..i + 4])] + rest
  }

  /** Reading the groups of m addresses from i on gives the IPv4 text of each group. */
  lemma {:induction false} AddressesAtGroups(data: seq<Byte>, i: nat, m: nat)
    requires i + 4 * m <= |data|
    ensures AddressesAt(data, i, i + 4 * m) == Ok(GroupTexts(data, i, m))
    decreases m
  {
    if m > 0 {
      AddressesAtGroups(data, i + 4, m - 1);
      IPv4RoundTrip(data[i..i + 4]);
      assert i + 4 + 4 * (m - 1) == i + 4 * m;
    }
  }

  /** IPAddressList: with a list that fills the declared span [frm, tlen) exactly (tlen is
      used as the end of the span by both the getter and the setter), get after set
      gives each address in its canonical dotted-decimal form. */
  lemma IPAddressListRoundTrip(frm: nat, tlen: nat, data: seq<Byte>, payload: (int, int), names: seq<string>, host: Endianness)
    requires forall k :: 0 <= k < |names| ==> IPAddress(names[k]).Ok?
    requires frm <= tlen <= |data| && tlen - frm == 4 * |names|
    ensures Write(IPAddressList(frm, tlen), data, payload, VNames(names), host).Ok?
    ensures Read(IPAddressList(frm, tlen), Write(IPAddressList(frm, tlen), data, payload, VNames(names), host).value, payload, host) ==
              Ok(FTexts(seq(|names|, k requires 0 <= k < |names| => IPv4Text(IPAddress(names[k]).value.bytes))))
  {
    ListBytesSpec(names);
    var b := ListBytes(names).value;
    SpliceSpec(data, frm, tlen, b);
    var d := Splice(data, frm, tlen, b).value;
    AddressListWrite(frm, tlen, data, payload, names, host);
    AddressesAtGroups(d, frm, |names|);
    AddressListRead(frm, tlen, d, payload, host);
    GroupTextsOfList(d, frm, names, b);
  }

  lemma AddressListWrite(frm: nat, tlen: nat, data: seq<Byte>, payload: (int, int), names: seq<string>, host: Endianness)
    ensures ListBytes(names).Ok? ==>
              Write(IPAddressList(frm, tlen), data, payload, VNames(names), host) == Splice(data, frm, tlen, ListBytes(names).value)
  {
  }

  lemma AddressListRead(frm: nat, tlen: nat, d: seq<Byte>, payload: (int, int), host: Endianness)
    ensures AddressesAt(d, frm, tlen).Ok? ==>
              Read(IPAddressList(frm, tlen), d, payload, host) == Ok(FTexts(AddressesAt(d, frm, tlen).value))
  {
  }

  /** The groups of a spliced-in ListBytes are the texts of the listed addresses. */
  lemma GroupTextsOfList(d: seq<Byte>, frm: nat, names: seq<string>, b: seq<Byte>)
    requires forall k :: 0 <= k < |names| ==> IPAddress(names[k]).Ok?
    requires |b| == 4 * |names|
    requires forall k :: 0 <= k < |names| ==> b[4 * k..4 * k + 4] == IPAddress(names[k]).value.bytes
    requires frm + |b| <= |d| && d[frm..frm + |b|] == b
    ensures GroupTexts(d, frm, |names|) == seq(|names|, k requires 0 <= k < |names| => IPv4Text(IPAddress(names[k]).value.bytes))
  {
    var want := seq(|names|, k requires 0 <= k < |names| => IPv4Text(IPAddress(names[k]).value.bytes));
    var g := GroupTexts(d, frm, |names|);
    forall k | 0 <= k < |names| ensures g[k] == want[k] {
      assert 4 * k + 4 <= |b|;
      var x, y := d[frm + 4 * k..frm + 4 * k + 4], b[4 * k..4 * k + 4];
      forall j | 0 <= j < 4 ensures x[j] == y[j] {
        assert d[frm + 4 * k + j] == d[frm..frm + |b|][4 * k + j];
      }
      assert x == y;
    }
  }

  /** Payload: the span _getPayloadOffsets() reports is replaced by the new bytes, which
      the getter then reads back when the report covers them; a negative offset or
      length fails the assertion. */
  lemma PayloadRoundTrip(data: seq<Byte>, payload: (int, int), b: seq<Byte>, host: Endianness)
    ensures payload.0 < 0 || payload.1 < 0 ==> Write(Payload, data, payload, VBytes(b), host) == Err(AssertionError)
    ensures 0 <= payload.0 && 0 <= payload.1 && payload.0 + payload.1 <= |data| ==>
              var d := Write(Payload, data, payload, VBytes(b), host);
              && d == Ok(data[..payload.0] + b + data[payload.0 + payload.1..])
              && Read(Payload, d.value, (payload.0, |b|), host) == Ok(FBytes(b))
  {
    if 0 <= payload.0 && 0 <= payload.1 && payload.0 + payload.1 <= |data| {
      SpliceSpec(data, payload.0, payload.0 + payload.1, b);
    }
  }

  // ---------------------------------------------------------------- setters, on the object

  /** IPAddressList.__set__: parse every address (ValueError before any change), splice
      their bytes over [frm, tlen), then set obj.length and call obj.initialise(). */
  method SetAddressList(p: Packet, frm: nat, tlen: nat, items: seq<string>) returns (r: Result<()>)
    modifies p`data, p`length, p`initialised
    ensures r == Status(Write(IPAddressList(frm, tlen), old(p.data), old(p.PayloadOffsets()), VNames(items), Little))
    ensures r.Ok? ==> p.data == Write(IPAddressList(frm, tlen), old(p.data), old(p.PayloadOffsets()), VNames(items), Little).value
    ensures r.Ok? ==> p.length == 4 * |items| + 3 && p.initialised == old(p.initialised) + 1
    ensures r.Err? ==> p.data == old(p.data) && p.length == old(p.length) && p.initialised == old(p.initialised)
  {
    var bytes: seq<Byte> := [];
    var i := 0;
    while i < |items|
      invariant 0 <= i <= |items|
      invariant ListBytes(items[..i]) == Ok(bytes)
      invariant p.data == old(p.data) && p.length == old(p.length) && p.initialised == old(p.initialised)
    {
      var a := IPAddress(items[i]);
      assert items[..i + 1][..i] == items[..i];
      if a.Err? {
        ListBytesStops(items, i + 1);
        return Err(a.error);
      }
      IPv4AddressBytes(items[i]);
      bytes := bytes + a.value.bytes;
      i := i + 1;
    }
    assert items[..i] == items;
    r := p.SpliceBytes(frm, tlen, bytes);
    if r.Ok? {
      p.length := |bytes| + 3;
      p.Initialise();
    }
  }

  lemma {:induction false} ListBytesStops(names: seq<string>, k: nat)
    requires k <= |names|
    requires ListBytes(names[..k]).Err?
    ensures ListBytes(names).Err?
    decreases |names| - k
  {
    if k < |names| {
      assert names[..k + 1][..k] == names[..k];
      ListBytesStops(names, k + 1);
    } else {
      assert names[..k] == names;
    }
  }

  /** The setters of the fixed-span descriptors and of Payload: one primitive call after
      the argument has been checked and converted. */
  method SetFixed(p: Packet, f: Field, v: Value, host: Endianness) returns (r: Result<()>)
    requires !f.DescriptorProxy? && !f.IPAddressList?
    modifies p`data
    ensures r == Status(Write(f, old(p.data), p.PayloadOffsets(), v, host))
    ensures p.data == if r.Ok? then Write(f, old(p.data), p.PayloadOffsets(), v, host).value else old(p.data)
  {
    match f {
      case IntField(frm, tlen, options) =>
        var w := Substitute(options, v);
        if !w.VInt? {
          return Err(TypeError);
        }
        r := p.SetIntField(frm, tlen, w.n);
      case HOInt32Field(frm, options) =>
        var w := Substitute(options, v);
        if !w.VInt? {
          return Err(TypeError);
        }
        var c := HostToNet(host, w.n);
        if c.Err? {
          return Err(c.error);
        }
        r := p.SetIntField(frm, 4, c.value);
      case ByteField(frm, tlen) =>
        if !v.VBytes? {
          return Err(TypeError);
        }
        r := p.SetByteField(frm, tlen, v.b);
      case PaddedString(frm, tlen) =>
        if !v.VBytes? {
          return Err(TypeError);
        }
        r := p.SetByteField(frm, tlen, Pad(v.b, tlen));
      case BitField(frm, bitoffset, bitlen) =>
        if !v.VInt? {
          return Err(TypeError);
        }
        r := p.SetBitField(frm, bitoffset, bitlen, v.n);
      case FlagsField(frm, bitoffset, bitlen, options) =>
        var w := SetFlagsArgument(options, v);
        if w.Err? {
          return Err(w.error);
        }
        if !w.value.VInt? {
          return Err(TypeError);
        }
        r := p.SetBitField(frm, bitoffset, bitlen, w.value.n);
      case HOInt32FlagsField(frm, options) =>
        var w := SetFlagsArgument(options, v);
        if w.Err? {
          return Err(w.error);
        }
        if !w.value.VInt? {
          return Err(TypeError);
        }
        var c := HostToNet(host, w.value.n);
        if c.Err? {
          return Err(c.error);
        }
        r := p.SetBitField(frm, 0, 32, c.value);
      case IPAddressField(frm) =>
        if !v.VText? {
          return Err(TypeError);
        }
        var a := IPAddress(v.s);
        if a.Err? {
          return Err(a.error);
        }
        r := p.SetByteField(frm, 4, a.value.bytes);
      case IPv6AddressField(frm) =>
        if !v.VText? {
          return Err(TypeError);
        }
        var a := IP6Address(v.s);
        if a.Err? {
          return Err(a.error);
        }
        r := p.SetByteField(frm, 16, a.value.bytes);
      case EthernetAddressField(frm) =>
        if !v.VText? {
          return Err(TypeError);
        }
        var a := EthernetAddress(v.s);
        if a.Err? {
          return Err(a.error);
        }
        r := p.SetByteField(frm, 6, a.value.bytes);
      case Payload =>
        var (offset, datalen) := p.PayloadOffsets();
        if datalen < 0 || offset < 0 {
          return Err(AssertionError);
        }
        if !v.VBytes? {
          return Err(TypeError);
        }
        r := p.SpliceBytes(offset, offset + datalen, v.b);
    }
  }

  /** FlagsField.__set__'s conversion, with its loop for a list of names. */
  method SetFlagsArgument(options: Options?, v: Value) returns (r: Result<Value>)
    ensures r == FlagsArgument(options, v)
  {
    match v {
      case VNames(names) =>
        if options == null {
          return Ok(v);
        }
        var c := OrOfOptions(options, names);
        if c.Err? {
          return Err(c.error);
        }
        r := Ok(VInt(c.value));
      case _ =>
        r := FlagsArgument(options, v);
    }
  }

  /** descriptor.__set__(obj, v): a proxy first finds the descriptor it stands for; a
      failed set changes nothing. */
  method Set(p: Packet, f: Field, v: Value, host: Endianness) returns (r: Result<()>)
    modifies p`data, p`length, p`initialised
    ensures Resolve(p, f).Err? ==> r == Err(Resolve(p, f).error)
    ensures Resolve(p, f).Ok? ==> r == Status(Write(Resolve(p, f).value, old(p.data), p.PayloadOffsets(), v, host))
    ensures r.Ok? ==> p.data == Write(Resolve(p, f).value, old(p.data), p.PayloadOffsets(), v, host).value
    ensures r.Ok? && Resolve(p, f).value.IPAddressList? ==>
              p.length == 4 * |Items(v).value| + 3 && p.initialised == old(p.initialised) + 1
    ensures r.Ok? && !Resolve(p, f).value.IPAddressList? ==>
              p.length == old(p.length) && p.initialised == old(p.initialised)
    ensures r.Err? ==> p.data == old(p.data) && p.length == old(p.length) && p.initialised == old(p.initialised)
  {
    var t := Resolve(p, f);
    if t.Err? {
      return Err(t.error);
    }
    if t.value.IPAddressList? {
      var items := Items(v);
      if items.None? {
        return Err(TypeError);
      }
      r := SetAddressList(p, t.value.frm, t.value.tlen, items.value);
    } else {
      r := SetFixed(p, t.value, v, host);
    }
  }
}
