/** The byte-level interface a protocol object offers to the field descriptors of
    openbsd/_packetDescriptors.py (_getIntField, _setIntField, _getByteField,
    _setByteField, _getBitField, _setBitField, _splice). The protocol objects that
    implement it are not part of this model, so each primitive is written here as the
    contract the descriptors rely on: byte-aligned integers are big-endian, bit fields
    count bits from the most significant bit of the byte at the field's offset, a span
    that does not lie in the buffer is refused with IndexError, and a value that does not
    fit its span is refused with ValueError before anything is written. */
module Buffers {
  import opened Common
  import opened NumericCodec

  // ---------------------------------------------------------------- whole bytes

  /** _getIntField(frm, tlen): the span read as a big-endian integer. */
  function ReadInt(data: seq<Byte>, frm: nat, tlen: nat): (r: Result<nat>)
    ensures r.Ok? <==> frm + tlen <= |data|
    ensures r.Err? ==> r.error == IndexError
    ensures r.Ok? ==> r.value < Pow256(tlen)
  {
    if frm + tlen > |data| then Err(IndexError)
    else
      BigEndianBound(data[frm..frm + tlen]);
      Ok(BigEndian(data[frm..frm + tlen]))
  }

  /** _setIntField(frm, tlen, v): the span overwritten by the tlen-byte encoding of v. */
  function WriteInt(data: seq<Byte>, frm: nat, tlen: nat, v: int): Result<seq<Byte>>
  {
    if frm + tlen > |data| then Err(IndexError)
    else if v < 0 || v >= Pow256(tlen) then Err(ValueError)
    else Ok(data[..frm] + Encode(v, tlen) + data[frm + tlen..])
  }

  /** _getByteField(frm, tlen): the bytes of the span. */
  function ReadBytes(data: seq<Byte>, frm: int, tlen: int): (r: Result<seq<Byte>>)
    ensures r.Ok? <==> 0 <= frm && 0 <= tlen && frm + tlen <= |data|
    ensures r.Ok? ==> |r.value| == tlen
    ensures r.Err? ==> r.error == IndexError
  {
    if frm < 0 || tlen < 0 || frm + tlen > |data| then Err(IndexError)
    else Ok(data[frm..frm + tlen])
  }

  /** _setByteField(frm, tlen, b): the span overwritten by b, which must be tlen bytes. */
  function WriteBytes(data: seq<Byte>, frm: int, tlen: int, b: seq<Byte>): Result<seq<Byte>>
  {
    if frm < 0 || tlen < 0 || frm + tlen > |data| then Err(IndexError)
    else if |b| != tlen then Err(ValueError)
    else Ok(data[..frm] + b + data[frm + tlen..])
  }

  /** _splice(s, e, b): the bytes [s, e) replaced by b, moving everything after them. */
  function Splice(data: seq<Byte>, s: int, e: int, b: seq<Byte>): Result<seq<Byte>>
  {
    if 0 <= s <= e <= |data| then Ok(data[..s] + b + data[e..]) else Err(IndexError)
  }

  /** WriteInt succeeds exactly for a span in the buffer and a value that fits it, keeps
      the length and every byte outside the span, and ReadInt then gives the value. */
  lemma WriteIntThenRead(data: seq<Byte>, frm: nat, tlen: nat, v: int)
    ensures WriteInt(data, frm, tlen, v).Ok? <==> frm + tlen <= |data| && 0 <= v < Pow256(tlen)
    ensures WriteInt(data, frm, tlen, v).Err? && frm + tlen <= |data| ==> WriteInt(data, frm, tlen, v) == Err(ValueError)
    ensures WriteInt(data, frm, tlen, v).Ok? ==>
              var d := WriteInt(data, frm, tlen, v).value;
              && |d| == |data|
              && d[..frm] == data[..frm] && d[frm + tlen..] == data[frm + tlen..]
              && ReadInt(d, frm, tlen) == Ok(v)
  {
    if frm + tlen <= |data| && 0 <= v < Pow256(tlen) {
      var d := data[..frm] + Encode(v, tlen) + data[frm + tlen..];
      assert d[frm..frm + tlen] == Encode(v, tlen);
      assert d[..frm] == data[..frm];
      assert d[frm + tlen..] == data[frm + tlen..];
      EncodeRoundTrip(v, tlen);
    }
  }

  /** Writing back what was read leaves the buffer as it was. */
  lemma ReadIntThenWrite(data: seq<Byte>, frm: nat, tlen: nat)
    requires frm + tlen <= |data|
    ensures WriteInt(data, frm, tlen, ReadInt(data, frm, tlen).value) == Ok(data)
  {
    DecodeRoundTrip(data[frm..frm + tlen]);
    assert data == data[..frm] + data[frm..frm + tlen] + data[frm + tlen..];
  }

  /** WriteBytes succeeds exactly for a span in the buffer and bytes of its length, and
      ReadBytes then gives those bytes, with the rest of the buffer untouched. */
  lemma WriteBytesThenRead(data: seq<Byte>, frm: int, tlen: int, b: seq<Byte>)
    ensures WriteBytes(data, frm, tlen, b).Ok? <==> 0 <= frm && 0 <= tlen && frm + tlen <= |data| && |b| == tlen
    ensures WriteBytes(data, frm, tlen, b).Err? && |b| == tlen ==> WriteBytes(data, frm, tlen, b) == Err(IndexError)
    ensures WriteBytes(data, frm, tlen, b).Ok? ==>
              var d := WriteBytes(data, frm, tlen, b).value;
              && |d| == |data|
              && d[..frm] == data[..frm] && d[frm + tlen..] == data[frm + tlen..]
              && ReadBytes(d, frm, tlen) == Ok(b)
  {
    if 0 <= frm && 0 <= tlen && frm + tlen <= |data| && |b| == tlen {
      var d := data[..frm] + b + data[frm + tlen..];
      assert d[frm..frm + tlen] == b;
      assert d[..frm] == data[..frm];
      assert d[frm + tlen..] == data[frm + tlen..];
    }
  }

  /** A splice puts b at s, keeps what came before s and moves what came after e so that
      it follows b; the length changes by |b| - (e - s). */
  lemma SpliceSpec(data: seq<Byte>, s: int, e: int, b: seq<Byte>)
    ensures Splice(data, s, e, b).Ok? <==> 0 <= s <= e <= |data|
    ensures Splice(data, s, e, b).Ok? ==>
              var d := Splice(data, s, e, b).value;
              && |d| == |data| - (e - s) + |b|
              && d[..s] == data[..s]
              && d[s..s + |b|] == b
              && d[s + |b|..] == data[e..]
  {
    if 0 <= s <= e <= |data| {
      var d := data[..s] + b + data[e..];
      assert d[..s] == data[..s];
      assert d[s..s + |b|] == b;
      assert d[s + |b|..] == data[e..];
    }
  }

  // ---------------------------------------------------------------- bits

  /** The n low bits of v, most significant first. */
  function BitsOf(v: nat, n: nat): (r: seq<bool>)
    ensures |r| == n
  {
    if n == 0 then [] else BitsOf(v / 2, n - 1) + [v % 2 == 1]
  }

  /** The value of a bit string, most significant bit first. */
  function BitsValue(bits: seq<bool>): nat
  {
    if bits == [] then 0 else 2 * BitsValue(bits[..|bits| - 1]) + (if bits[|bits| - 1] then 1 else 0)
  }

  lemma {:induction false} BitsValueBound(bits: seq<bool>)
    ensures BitsValue(bits) < Pow2(|bits|)
  {
    if bits != [] {
      BitsValueBound(bits[..|bits| - 1]);
    }
  }

  lemma {:induction false} BitsOfValue(v: nat, n: nat)
    requires v < Pow2(n)
    ensures BitsValue(BitsOf(v, n)) == v
  {
    if n > 0 {
      BitsOfValue(v / 2, n - 1);
      var r := BitsOf(v, n);
      assert r[..n - 1] == BitsOf(v / 2, n - 1);
    }
  }

  lemma {:induction false} ValueOfBits(bits: seq<bool>)
    ensures BitsOf(BitsValue(bits), |bits|) == bits
  {
    if bits != [] {
      var init := bits[..|bits| - 1];
      ValueOfBits(init);
      var v := BitsValue(bits);
      assert v / 2 == BitsValue(init);
      assert bits == init + [bits[|bits| - 1]];
    }
  }

  /** The bits of a byte string, eight per byte, each byte most significant bit first. */
  function Unpack(data: seq<Byte>): (r: seq<bool>)
    ensures |r| == 8 * |data|
  {
    if data == [] then [] else BitsOf(data[0], 8) + Unpack(data[1..])
  }

  /** The byte string whose bits these are. */
  function Pack(bits: seq<bool>): (r: seq<Byte>)
    requires |bits| % 8 == 0
    ensures |r| * 8 == |bits|
  {
    if bits == [] then []
    else
      var b := BitsValue(bits[..8]);
      BitsValueBound(bits[..8]);
      assert Pow2(8) == 256;
      [b as Byte] + Pack(bits[8..])
  }

  lemma {:induction false} PackUnpack(data: seq<Byte>)
    ensures Pack(Unpack(data)) == data
  {
    if data != [] {
      var u := Unpack(data);
      assert u[..8] == BitsOf(data[0], 8);
      assert u[8..] == Unpack(data[1..]);
      assert Pow2(8) == 256;
      BitsOfValue(data[0], 8);
      PackUnpack(data[1..]);
    }
  }

  lemma {:induction false} UnpackPack(bits: seq<bool>)
    requires |bits| % 8 == 0
    ensures Unpack(Pack(bits)) == bits
    decreases |bits|
  {
    if bits != [] {
      var p := Pack(bits);
      assert p[1..] == Pack(bits[8..]);
      UnpackPack(bits[8..]);
      ValueOfBits(bits[..8]);
      assert bits == bits[..8] + bits[8..];
    }
  }

  /** _getBitField(frm, bitoffset, bitlen): the bitlen bits starting bitoffset bits after
      the most significant bit of byte frm, as an unsigned number. */
  function ReadBits(data: seq<Byte>, frm: nat, bitoffset: nat, bitlen: nat): (r: Result<nat>)
    ensures r.Ok? <==> 8 * frm + bitoffset + bitlen <= 8 * |data|
    ensures r.Err? ==> r.error == IndexError
    ensures r.Ok? ==> r.value < Pow2(bitlen)
  {
    var p := 8 * frm + bitoffset;
    if p + bitlen > 8 * |data| then Err(IndexError)
    else
      BitsValueBound(Unpack(data)[p..p + bitlen]);
      Ok(BitsValue(Unpack(data)[p..p + bitlen]))
  }

  /** _setBitField(frm, bitoffset, bitlen, v): those bits replaced by the bitlen-bit v. */
  function WriteBits(data: seq<Byte>, frm: nat, bitoffset: nat, bitlen: nat, v: int): Result<seq<Byte>>
  {
    var p := 8 * frm + bitoffset;
    if p + bitlen > 8 * |data| then Err(IndexError)
    else if v < 0 || v >= Pow2(bitlen) then Err(ValueError)
    else
      var u := Unpack(data);
      Ok(Pack(u[..p] + BitsOf(v, bitlen) + u[p + bitlen..]))
  }

  /** WriteBits succeeds exactly for bits in the buffer and a value that fits them, keeps
      the length and every other bit, and ReadBits then gives the value. */
  lemma WriteBitsThenRead(data: seq<Byte>, frm: nat, bitoffset: nat, bitlen: nat, v: int)
    ensures WriteBits(data, frm, bitoffset, bitlen, v).Ok? <==>
              8 * frm + bitoffset + bitlen <= 8 * |data| && 0 <= v < Pow2(bitlen)
    ensures WriteBits(data, frm, bitoffset, bitlen, v).Ok? ==>
              var d := WriteBits(data, frm, bitoffset, bitlen, v).value;
              var p := 8 * frm + bitoffset;
              && |d| == |data|
              && Unpack(d)[..p] == Unpack(data)[..p]
              && Unpack(d)[p + bitlen..] == Unpack(data)[p + bitlen..]
              && ReadBits(d, frm, bitoffset, bitlen) == Ok(v)
  {
    var p := 8 * frm + bitoffset;
    if p + bitlen <= 8 * |data| && 0 <= v < Pow2(bitlen) {
      var u := Unpack(data);
      var x := u[..p] + BitsOf(v, bitlen) + u[p + bitlen..];
      var d := Pack(x);
      UnpackPack(x);
      assert Unpack(d)[p..p + bitlen] == BitsOf(v, bitlen);
      assert Unpack(d)[..p] == u[..p];
      assert Unpack(d)[p + bitlen..] == u[p + bitlen..];
      BitsOfValue(v, bitlen);
    }
  }
}
