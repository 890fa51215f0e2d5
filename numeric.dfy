/** Big-endian integer <-> byte-string conversion (multiord, multichar) and the 16-bit
    Internet checksum (cksum16, RFC 1071 section 1) of openbsd/utils.py. */
module NumericCodec {
  import opened Common

  /** The value of a byte string read as base-256 digits, most significant first. */
  function BigEndian(x: seq<Byte>): nat
  {
    if x == [] then 0 else BigEndian(x[..|x| - 1]) * 256 + x[|x| - 1]
  }

  /** The width-byte big-endian encoding of a, keeping only its low width bytes. */
  function Encode(a: nat, width: nat): (r: seq<Byte>)
    ensures |r| == width
  {
    if width == 0 then [] else Encode(a / 256, width - 1) + [a % 256]
  }

  /** What multichar(a, width) returns: the big-endian encoding left-padded with zero
      bytes to exactly width bytes, or ValueError when a needs more than width bytes. */
  function NatToBytes(a: nat, width: int): Result<seq<Byte>>
  {
    if 0 <= width && a < Pow256(width) then Ok(Encode(a, width)) else Err(ValueError)
  }

  lemma {:induction false} BigEndianBound(x: seq<Byte>)
    ensures BigEndian(x) < Pow256(|x|)
  {
    if x != [] {
      BigEndianBound(x[..|x| - 1]);
    }
  }

  /** A leading byte contributes its value times 256^(number of bytes after it). */
  lemma {:induction false} BigEndianCons(b: Byte, rest: seq<Byte>)
    ensures BigEndian([b] + rest) == b * Pow256(|rest|) + BigEndian(rest)
    decreases |rest|
  {
    if rest != [] {
      var x := [b] + rest;
      assert x[..|x| - 1] == [b] + rest[..|rest| - 1];
      BigEndianCons(b, rest[..|rest| - 1]);
    }
  }

  lemma {:induction false} BigEndianZeros(n: nat, x: seq<Byte>)
    ensures BigEndian(Repeat<Byte>(0, n) + x) == BigEndian(x)
  {
    if n > 0 {
      var z: Byte := 0;
      var rest := Repeat<Byte>(0, n - 1) + x;
      assert Repeat<Byte>(0, n) + x == [z] + rest;
      BigEndianCons(z, rest);
      BigEndianZeros(n - 1, x);
    } else {
      assert Repeat<Byte>(0, n) + x == x;
    }
  }

  /** multiord(multichar(a, w)) == a for every a that fits in w bytes. */
  lemma {:induction false} EncodeRoundTrip(a: nat, width: nat)
    requires a < Pow256(width)
    ensures BigEndian(Encode(a, width)) == a
  {
    if width > 0 {
      EncodeRoundTrip(a / 256, width - 1);
      var e := Encode(a, width);
      assert e[..|e| - 1] == Encode(a / 256, width - 1);
    }
  }

  /** multichar(multiord(x), len(x)) == x: every byte string is the encoding of its value. */
  lemma {:induction false} DecodeRoundTrip(x: seq<Byte>)
    ensures Encode(BigEndian(x), |x|) == x
  {
    if x != [] {
      var p := x[..|x| - 1];
      DecodeRoundTrip(p);
      assert (BigEndian(p) * 256 + x[|x| - 1]) / 256 == BigEndian(p);
      assert x == p + [x[|x| - 1]];
    }
  }

  /** multichar fails exactly when the value needs more than width bytes, and otherwise
      yields width bytes whose value is a. */
  lemma NatToBytesSpec(a: nat, width: int)
    ensures NatToBytes(a, width).Ok? <==> 0 <= width && a < Pow256(width)
    ensures NatToBytes(a, width).Ok? ==>
              |NatToBytes(a, width).value| == width && BigEndian(NatToBytes(a, width).value) == a
  {
    if 0 <= width && a < Pow256(width) {
      EncodeRoundTrip(a, width);
    }
  }

  /** multiord: accumulate digits from the last byte to the first with a growing scale. */
  method MultiOrd(x: seq<Byte>) returns (num: nat)
    ensures num == BigEndian(x)
  {
    num := 0;
    var scale: nat := 1;
    var i := |x|;
    while i > 0
      invariant 0 <= i <= |x|
      invariant scale == Pow256(|x| - i)
      invariant num == BigEndian(x[i..])
    {
      i := i - 1;
      BigEndianCons(x[i], x[i + 1..]);
      assert x[i..] == [x[i]] + x[i + 1..];
      num := num + (x[i] as nat) * scale;
      scale := scale * 256;
    }
    assert x[0..] == x;
  }

  /** The minimal big-endian digit string of a (empty for 0), as multichar builds it. */
  function MinimalBytes(a: nat): seq<Byte>
  {
    if a == 0 then [] else MinimalBytes(a / 256) + [a % 256]
  }

  lemma {:induction false} MinimalBytesFacts(a: nat)
    ensures BigEndian(MinimalBytes(a)) == a
    ensures a < Pow256(|MinimalBytes(a)|)
    ensures MinimalBytes(a) != [] ==> a >= Pow256(|MinimalBytes(a)| - 1)
  {
    if a > 0 {
      MinimalBytesFacts(a / 256);
      var m := MinimalBytes(a);
      assert m[..|m| - 1] == MinimalBytes(a / 256);
    }
  }

  lemma {:induction false} Pow256Monotone(m: nat, n: nat)
    requires m <= n
    ensures Pow256(m) <= Pow256(n)
  {
    if m < n {
      Pow256Monotone(m, n - 1);
    }
  }

  /** multichar: prepend a % 256 while a is non-zero, check the width, pad on the left.
      (Python's loop never ends for a negative a, so a is a nat here.) */
  method MultiChar(a: nat, width: int) returns (r: Result<seq<Byte>>)
    ensures r == NatToBytes(a, width)
    ensures r.Ok? ==> |r.value| == width && BigEndian(r.value) == a
  {
    var chars: seq<Byte> := [];
    var v := a;
    while v != 0
      invariant MinimalBytes(v) + chars == MinimalBytes(a)
      decreases v
    {
      assert MinimalBytes(v) == MinimalBytes(v / 256) + [v % 256];
      chars := [v % 256] + chars;
      v := v / 256;
    }
    assert chars == MinimalBytes(a);
    MinimalBytesFacts(a);
    if |chars| > width {
      if 0 <= width && a < Pow256(width) {
        Pow256Monotone(width, |chars| - 1);
        assert false;
      }
      return Err(ValueError);
    }
    var padded := Repeat<Byte>(0, width - |chars|) + chars;
    BigEndianZeros(width - |chars|, chars);
    Pow256Monotone(|chars|, width);
    BigEndianBound(padded);
    DecodeRoundTrip(padded);
    assert BigEndian(padded) == a && |padded| == width;
    assert a < Pow256(width);
    return Ok(padded);
  }

  // ---------------------------------------------------------------- checksum

  /** The sum of the big-endian 16-bit words of data; a final odd byte counts as the
      high byte of a word (byte << 8). */
  function WordSum(data: seq<Byte>): nat
  {
    if |data| == 0 then 0
    else if |data| == 1 then data[0] * 256
    else data[0] * 256 + data[1] + WordSum(data[2..])
  }

  /** Fold the bits above 16 back into the low 16 bits until none remain. */
  function Fold(s: nat): nat
    decreases s
  {
    if s < 0x10000 then s else Fold(s % 0x10000 + s / 0x10000)
  }

  /** What cksum16 returns: ~sum & 0xFFFF, with Python's unbounded ~ and & spelled out. */
  function Checksum(data: seq<Byte>): int
  {
    (-(Fold(WordSum(data)) as int) - 1) % 0x10000
  }

  /** Folding leaves a 16-bit value congruent to the sum modulo 0xFFFF, and zero only
      for a zero sum: it is the one's-complement sum. */
  lemma {:induction false} FoldFacts(s: nat)
    ensures Fold(s) <= 0xFFFF
    ensures Fold(s) % 0xFFFF == s % 0xFFFF
    ensures Fold(s) == 0 <==> s == 0
    decreases s
  {
    if s >= 0x10000 {
      var q, r := s / 0x10000, s % 0x10000;
      assert s == 0xFFFF * q + (q + r);
      assert s % 0xFFFF == (q + r) % 0xFFFF;
      FoldFacts(q + r);
    }
  }

  /** The checksum is the complement of the folded sum, in [0, 0xFFFF]. */
  lemma ChecksumComplement(data: seq<Byte>)
    ensures 0 <= Checksum(data) <= 0xFFFF
    ensures Checksum(data) == 0xFFFF - Fold(WordSum(data))
  {
    FoldFacts(WordSum(data));
  }

  lemma {:induction false} WordSumAppend(data: seq<Byte>, hi: Byte, lo: Byte)
    requires |data| % 2 == 0
    ensures WordSum(data + [hi, lo]) == WordSum(data) + hi * 256 + lo
    decreases |data|
  {
    if |data| == 0 {
      assert (data + [hi, lo])[2..] == [];
    } else {
      assert (data + [hi, lo])[2..] == data[2..] + [hi, lo];
      WordSumAppend(data[2..], hi, lo);
    }
  }

  lemma FoldOfMultiple(t: nat)
    requires t > 0 && t % 0xFFFF == 0
    ensures Fold(t) == 0xFFFF
  {
    FoldFacts(t);
  }

  lemma CongruentDifference(s: nat, f: nat)
    requires f <= 0xFFFF && s % 0xFFFF == f % 0xFFFF
    ensures (s + (0xFFFF - f)) % 0xFFFF == 0
  {
    var a, b := s / 0xFFFF, f / 0xFFFF;
    assert s == 0xFFFF * a + s % 0xFFFF;
    assert f == 0xFFFF * b + f % 0xFFFF;
    assert s + (0xFFFF - f) == 0xFFFF * (a - b + 1);
  }

  /** The receiver's check of RFC 1071: appending the checksum word to even-length data
      makes the one's-complement sum all ones. */
  lemma ChecksumVerifies(data: seq<Byte>)
    requires |data| % 2 == 0
    ensures Fold(WordSum(data + [Checksum(data) / 256, Checksum(data) % 256])) == 0xFFFF
  {
    var s := WordSum(data);
    ChecksumComplement(data);
    var c := Checksum(data);
    WordSumAppend(data, c / 256, c % 256);
    var t := s + c;
    assert WordSum(data + [c / 256, c % 256]) == t;
    FoldFacts(s);
    CongruentDifference(s, Fold(s));
    if s == 0 {
      assert t == 0xFFFF;
    }
    FoldOfMultiple(t);
  }

  /** The vector from the source's tests: bytes 0x00..0x08 give 60399. */
  lemma ChecksumKnownVector()
    ensures Checksum([0, 1, 2, 3, 4, 5, 6, 7, 8]) == 60399
  {
    var d: seq<Byte> := [0, 1, 2, 3, 4, 5, 6, 7, 8];
    assert d[2..] == [2, 3, 4, 5, 6, 7, 8];
    assert d[2..][2..] == [4, 5, 6, 7, 8];
    assert d[2..][2..][2..] == [6, 7, 8];
    assert d[2..][2..][2..][2..] == [8];
    assert WordSum(d) == 0x1410;
  }

  /** cksum16: sum the words (an odd trailing byte counts as byte << 8), fold the carries,
      complement. */
  method Cksum16(data: seq<Byte>) returns (r: int)
    ensures r == Checksum(data)
    ensures 0 <= r <= 0xFFFF && r == 0xFFFF - Fold(WordSum(data))
  {
    var sum: nat := 0;
    var i := 0;
    while i + 1 < |data|
      invariant 0 <= i <= |data|
      invariant sum + WordSum(data[i..]) == WordSum(data)
    {
      assert data[i..][2..] == data[i + 2..];
      sum := sum + ((data[i] as nat) * 256 + data[i + 1]);
      i := i + 2;
    }
    if i < |data| {
      sum := sum + (data[i] as nat) * 256;
    }
    assert sum == WordSum(data);
    while sum >= 0x10000
      invariant Fold(sum) == Fold(WordSum(data))
      decreases sum
    {
      sum := sum % 0x10000 + sum / 0x10000;
    }
    ChecksumComplement(data);
    r := (-(sum as int) - 1) % 0x10000;
  }
}
