/** The address objects of openbsd/utils.py: getBlocks, Ethernet colon-hex, IPv4
    dotted-decimal and IPv6 colon-hex text (with the "::" abbreviation of RFC 4291
    section 2.2), each parsed to raw bytes and formatted back from them. */
module Addresses {
  import opened Common
  import opened Text
  import opened NumericCodec
  import opened Runs

  /** The address family an object carries in its `af` attribute. */
  datatype Family = Inet | Inet6 | Link

  /** An address object: the text it was made from, the raw bytes it parses to and,
      for a mask, the prefix length _countPrefix found in those bytes. */
  datatype Addr = Addr(family: Family, address: string, bytes: seq<Byte>, prefix: Option<nat>)

  // ---------------------------------------------------------------- getBlocks

  /** The values of the non-empty pieces, each read as hexadecimal and at most 0xffff. */
  function BlocksOf(pieces: seq<string>): (r: Result<seq<nat>>)
    ensures r.Ok? ==> forall i :: 0 <= i < |r.value| ==> r.value[i] <= 0xffff
    ensures r.Err? ==> r.error == ValueError
  {
    if pieces == [] then Ok([])
    else if pieces[0] == "" then BlocksOf(pieces[1..])
    else
      match ParseNat(pieces[0], 16)
      case Err(_) => Err(ValueError)
      case Ok(n) =>
        if n > 0xffff then Err(ValueError)
        else
          match BlocksOf(pieces[1..])
          case Err(e) => Err(e)
          case Ok(rest) => Ok([n] + rest)
  }

  /** What getBlocks(addr) returns. */
  function Blocks(addr: string): Result<seq<nat>>
  {
    BlocksOf(Split(addr, ':'))
  }

  /** A result with nums in front of its value. */
  function Prepend(nums: seq<nat>, r: Result<seq<nat>>): Result<seq<nat>>
  {
    if r.Err? then r else Ok(nums + r.value)
  }

  /** getBlocks: split on ':', skip empty pieces, parse each as hex, refuse > 0xffff. */
  method GetBlocks(addr: string) returns (r: Result<seq<nat>>)
    ensures r == Blocks(addr)
    ensures r.Ok? ==> forall i :: 0 <= i < |r.value| ==> r.value[i] <= 0xffff
  {
    var numstrs := Split(addr, ':');
    var nums: seq<nat> := [];
    var i := 0;
    assert numstrs[0..] == numstrs;
    assert Prepend(nums, BlocksOf(numstrs)) == BlocksOf(numstrs) by {
      if BlocksOf(numstrs).Ok? {
        assert nums + BlocksOf(numstrs).value == BlocksOf(numstrs).value;
      }
    }
    while i < |numstrs|
      invariant 0 <= i <= |numstrs|
      invariant BlocksOf(numstrs) == Prepend(nums, BlocksOf(numstrs[i..]))
    {
      assert numstrs[i..][1..] == numstrs[i + 1..];
      var piece := numstrs[i];
      i := i + 1;
      if piece == "" {
        continue;
      }
      var num := ParseNat(piece, 16);
      if num.Err? || num.value > 0xffff {
        return Err(ValueError);
      }
      match BlocksOf(numstrs[i..])
      case Err(_) =>
      case Ok(rest) =>
        assert nums + ([num.value] + rest) == (nums + [num.value]) + rest;
      nums := nums + [num.value];
    }
    assert numstrs[i..] == [];
    assert nums + [] == nums;
    r := Ok(nums);
  }

  /** Pieces that are non-empty hex strings of values v, each at most 0xffff, give v. */
  lemma {:induction false} BlocksOfValues(pieces: seq<string>, v: seq<nat>)
    requires |pieces| == |v|
    requires forall i :: 0 <= i < |v| ==> pieces[i] != "" && ParseNat(pieces[i], 16) == Ok(v[i]) && v[i] <= 0xffff
    ensures BlocksOf(pieces) == Ok(v)
  {
    if pieces != [] {
      BlocksOfValues(pieces[1..], v[1..]);
      assert [v[0]] + v[1..] == v;
    }
  }

  /** The lower-case hex text of each value, as hex(n)[2:] writes it. */
  function HexGroups(v: seq<nat>): (r: seq<string>)
    ensures |r| == |v|
    ensures forall i :: 0 <= i < |v| ==> r[i] == Digits(v[i], 16)
  {
    seq(|v|, i requires 0 <= i < |v| => Digits(v[i], 16))
  }

  lemma HexGroupsSlice(v: seq<nat>, n: nat)
    requires n <= |v|
    ensures HexGroups(v)[..n] == HexGroups(v[..n])
    ensures HexGroups(v)[n..] == HexGroups(v[n..])
  {
  }

  lemma HexGroupsShape(v: seq<nat>)
    ensures forall i :: 0 <= i < |v| ==> HexGroups(v)[i] != [] && Free(HexGroups(v)[i], ':')
  {
  }

  /** getBlocks reads back the ':'-joined hex text of values up to 0xffff. */
  lemma BlocksJoin(v: seq<nat>)
    requires forall i :: 0 <= i < |v| ==> v[i] <= 0xffff
    ensures Blocks(Join(HexGroups(v), ":")) == Ok(v)
  {
    var g := HexGroups(v);
    if v == [] {
      assert Split("", ':') == [""];
      assert BlocksOf([""]) == BlocksOf([]);
    } else {
      HexGroupsShape(v);
      SplitJoin(g, ':');
      forall i | 0 <= i < |v| ensures ParseNat(g[i], 16) == Ok(v[i]) {
        DigitsRoundTrip(v[i], 16);
      }
      BlocksOfValues(g, v);
    }
  }

  // ---------------------------------------------------------------- Ethernet

  /** EthernetAddress._bytes: exactly six blocks, each a byte (chr refuses more). */
  function EthernetBytes(address: string): (r: Result<seq<Byte>>)
    ensures r.Ok? ==> |r.value| == 6
    ensures r.Err? ==> r.error == ValueError
  {
    var nums :- Blocks(address);
    if |nums| != 6 then Err(ValueError)
    else if exists i :: 0 <= i < 6 && nums[i] > 255 then Err(ValueError)
    else Ok(seq(6, i requires 0 <= i < 6 => nums[i] as Byte))
  }

  /** Construction accepts exactly six ':'-separated blocks that are bytes, and the
      bytes are those blocks' values. */
  lemma EthernetBytesSpec(address: string)
    ensures EthernetBytes(address).Ok? <==>
              Blocks(address).Ok? && |Blocks(address).value| == 6 &&
              forall i :: 0 <= i < 6 ==> Blocks(address).value[i] <= 255
    ensures EthernetBytes(address).Ok? ==>
              forall i :: 0 <= i < 6 ==> EthernetBytes(address).value[i] == Blocks(address).value[i]
  {
  }

  /** EthernetAddress(address). */
  function EthernetAddress(address: string): Result<Addr>
  {
    var b :- EthernetBytes(address);
    Ok(Addr(Link, address, b, None))
  }

  /** "%x" of a byte, padded to two digits with a leading "0". */
  function HexPair(b: Byte): (s: string)
    ensures |s| == 2 && Free(s, ':')
    ensures ParseNat(s, 16) == Ok(b)
  {
    var d := Digits(b, 16);
    DigitsRoundTrip(b, 16);
    if b < 16 then
      var s := "0" + d;
      assert s[..1] == "0";
      assert DigitsValue(s[..1], 16) == 0;
      s
    else
      assert d[..1] == [DigitChar(b / 16)];
      assert d[..1][..0] == [];
      d
  }

  /** The text EthernetAddress.fromBytes builds: two hex digits per byte, ':'-joined. */
  function EthernetText(b: seq<Byte>): string
  {
    Join(seq(|b|, i requires 0 <= i < |b| => HexPair(b[i])), ":")
  }

  /** EthernetAddress.fromBytes. */
  function EthernetFromBytes(b: seq<Byte>): Result<Addr>
  {
    if |b| != 6 then Err(ValueError) else EthernetAddress(EthernetText(b))
  }

  /** fromBytes(b).bytes == b for every six bytes, and any other length is refused. */
  lemma EthernetRoundTrip(b: seq<Byte>)
    ensures |b| == 6 ==> EthernetFromBytes(b) == Ok(Addr(Link, EthernetText(b), b, None))
    ensures |b| != 6 ==> EthernetFromBytes(b) == Err(ValueError)
  {
    if |b| == 6 {
      var pairs := seq(6, i requires 0 <= i < 6 => HexPair(b[i]));
      var v := seq(6, i requires 0 <= i < 6 => b[i] as nat);
      SplitJoin(pairs, ':');
      BlocksOfValues(pairs, v);
      assert Blocks(EthernetText(b)) == Ok(v);
      assert seq(6, i requires 0 <= i < 6 => v[i] as Byte) == b;
    }
  }

  // ---------------------------------------------------------------- IPv4

  /** Each part read with int() and refused outside 0..255. */
  function OctetsOf(parts: seq<string>): (r: Result<seq<Byte>>)
    ensures r.Ok? ==> |r.value| == |parts|
    ensures r.Err? ==> r.error == ValueError
  {
    if parts == [] then Ok([])
    else
      var n :- ParseNat(parts[0], 10);
      if n > 255 then Err(ValueError)
      else
        var rest :- OctetsOf(parts[1..]);
        Ok([n] + rest)
  }

  /** IPAddress._bytes: exactly four '.'-separated parts. */
  function IPv4Bytes(address: string): (r: Result<seq<Byte>>)
    ensures r.Ok? ==> |r.value| == 4
    ensures r.Err? ==> r.error == ValueError
  {
    var parts := Split(address, '.');
    if |parts| != 4 then Err(ValueError) else OctetsOf(parts)
  }

  /** The parts are accepted exactly when each is a decimal digit string of a value up to
      255, and then they are those values. */
  lemma {:induction false} OctetsOfSpec(parts: seq<string>)
    ensures OctetsOf(parts).Ok? <==>
              forall i :: 0 <= i < |parts| ==> ParseNat(parts[i], 10).Ok? && ParseNat(parts[i], 10).value <= 255
    ensures OctetsOf(parts).Ok? ==>
              forall i :: 0 <= i < |parts| ==> OctetsOf(parts).value[i] == ParseNat(parts[i], 10).value
  {
    if parts != [] {
      OctetsOfSpec(parts[1..]);
      var r := OctetsOf(parts);
      if r.Ok? {
        assert forall i :: 1 <= i < |parts| ==> parts[1..][i - 1] == parts[i];
      } else if ParseNat(parts[0], 10).Ok? && ParseNat(parts[0], 10).value <= 255 {
        assert OctetsOf(parts[1..]).Err?;
        var k :| 0 <= k < |parts[1..]| && !(ParseNat(parts[1..][k], 10).Ok? && ParseNat(parts[1..][k], 10).value <= 255);
        assert parts[1..][k] == parts[k + 1];
      }
    }
  }

  /** IPAddress(address). */
  function IPAddress(address: string): Result<Addr>
  {
    var b :- IPv4Bytes(address);
    Ok(Addr(Inet, address, b, None))
  }

  /** The text IPAddress.fromBytes builds: str() of each byte, '.'-joined. */
  function IPv4Text(b: seq<Byte>): string
  {
    Join(seq(|b|, i requires 0 <= i < |b| => Digits(b[i], 10)), ".")
  }

  /** IPAddress.fromBytes. */
  function IPFromBytes(b: seq<Byte>): Result<Addr>
  {
    if |b| != 4 then Err(ValueError) else IPAddress(IPv4Text(b))
  }

  lemma {:induction false} OctetsOfDigits(b: seq<Byte>)
    ensures OctetsOf(seq(|b|, i requires 0 <= i < |b| => Digits(b[i], 10))) == Ok(b)
  {
    var parts := seq(|b|, i requires 0 <= i < |b| => Digits(b[i], 10));
    if b != [] {
      OctetsOfDigits(b[1..]);
      assert parts[1..] == seq(|b[1..]|, i requires 0 <= i < |b[1..]| => Digits(b[1..][i], 10));
      DigitsRoundTrip(b[0], 10);
      assert [b[0]] + b[1..] == b;
    }
  }

  /** fromBytes(b).bytes == b for every four bytes, and any other length is refused. */
  lemma IPv4RoundTrip(b: seq<Byte>)
    ensures |b| == 4 ==> IPFromBytes(b) == Ok(Addr(Inet, IPv4Text(b), b, None))
    ensures |b| != 4 ==> IPFromBytes(b) == Err(ValueError)
  {
    if |b| == 4 {
      var parts := seq(|b|, i requires 0 <= i < |b| => Digits(b[i], 10));
      SplitJoin(parts, '.');
      OctetsOfDigits(b);
    }
  }

  // ---------------------------------------------------------------- IPv6

  /** multichar(i, 2) of each group, concatenated. */
  function GroupBytes(nums: seq<nat>): (r: seq<Byte>)
    requires forall i :: 0 <= i < |nums| ==> nums[i] <= 0xffff
    ensures |r| == 2 * |nums|
  {
    if nums == [] then [] else Encode(nums[0], 2) + GroupBytes(nums[1..])
  }

  /** `first + [0]*padlen + second` with padlen = 8 - len(first) - len(second). */
  function FillGap(first: seq<nat>, second: seq<nat>): seq<nat>
  {
    first + Repeat<nat>(0, 8 - |first| - |second|) + second
  }

  /** The eight 16-bit groups of the address text, after filling the "::" gap with zero
      groups. The second half is what follows the first "::": when the text holds one
      "::", that is what str.split("::") gives. */
  function IPv6Groups(address: string): (r: Result<seq<nat>>)
    ensures r.Ok? ==> |r.value| == 8 && forall i :: 0 <= i < 8 ==> r.value[i] <= 0xffff
    ensures r.Err? ==> r.error == ValueError
  {
    var nums :-
      match FindDouble(address)
      case Some(k) =>
        if CountDouble(address) > 1 then Err(ValueError)
        else
          var first :- Blocks(address[..k]);
          var second :- Blocks(address[k + 2..]);
          Ok(FillGap(first, second))
      case None => Blocks(address);
    if |nums| != 8 then Err(ValueError) else Ok(nums)
  }

  /** IP6Address._bytes. */
  function IPv6Bytes(address: string): (r: Result<seq<Byte>>)
    ensures r.Ok? ==> |r.value| == 16
    ensures r.Err? ==> r.error == ValueError
  {
    var nums :- IPv6Groups(address);
    Ok(GroupBytes(nums))
  }

  /** The three ways IPv6 text is refused: a second "::", a group that is not hex or
      exceeds 0xffff, and a group count other than eight. */
  lemma IPv6BytesErrors(address: string)
    ensures CountDouble(address) > 1 ==> IPv6Bytes(address) == Err(ValueError)
    ensures FindDouble(address).None? ==>
              (IPv6Bytes(address).Ok? <==> Blocks(address).Ok? && |Blocks(address).value| == 8)
    ensures FindDouble(address).Some? && CountDouble(address) == 1 ==>
              var k := FindDouble(address).value;
              (Blocks(address[..k]).Err? || Blocks(address[k + 2..]).Err? ==> IPv6Bytes(address) == Err(ValueError))
  {
    if CountDouble(address) > 1 {
      assert FindDouble(address).Some?;
    }
  }

  /** IP6Address(address). */
  function IP6Address(address: string): Result<Addr>
  {
    var b :- IPv6Bytes(address);
    Ok(Addr(Inet6, address, b, None))
  }

  /** multiord of each pair of bytes. */
  function Groups(b: seq<Byte>): (r: seq<nat>)
    requires |b| % 2 == 0
    ensures |r| == |b| / 2
    ensures forall i :: 0 <= i < |r| ==> r[i] <= 0xffff
  {
    if b == [] then []
    else
      BigEndianBound(b[..2]);
      [BigEndian(b[..2])] + Groups(b[2..])
  }

  /** Group k is the big-endian value of bytes 2k and 2k + 1. */
  lemma {:induction false} GroupsAt(b: seq<Byte>, k: nat)
    requires |b| % 2 == 0 && k < |b| / 2
    ensures Groups(b)[k] == (b[2 * k] as nat) * 256 + b[2 * k + 1]
  {
    if k == 0 {
      var p := b[..2];
      assert p[..1] == [b[0]] && p[..1][..0] == [];
      assert BigEndian(p[..1]) == b[0];
      assert BigEndian(p) == BigEndian(p[..1]) * 256 + b[1];
    } else {
      GroupsAt(b[2..], k - 1);
    }
  }

  lemma {:induction false} GroupBytesGroups(b: seq<Byte>)
    requires |b| % 2 == 0
    ensures GroupBytes(Groups(b)) == b
  {
    if b != [] {
      GroupBytesGroups(b[2..]);
      DecodeRoundTrip(b[..2]);
      assert Groups(b)[1..] == Groups(b[2..]);
      assert b[..2] + b[2..] == b;
    }
  }

  /** The text of `octets` with the run (start, finish) replaced by "::" when finish is
      not 0, as IP6Address.fromBytes joins it. */
  function Compress(octets: seq<string>, run: (nat, nat)): string
    requires run.0 <= run.1 < |octets|
  {
    if run.1 != 0 then Join(octets[..run.0], ":") + "::" + Join(octets[run.1 + 1..], ":")
    else Join(octets, ":")
  }

  /** The run findLongestSubsequence means to find, with the bounds Compress needs. */
  function ZeroRun(octets: seq<string>): (r: (nat, nat))
    requires |octets| > 0
    ensures r.0 <= r.1 < |octets|
    ensures IsLongestRun(octets, "0", r)
  {
    LongestRunIsLongest(octets, "0");
    LongestRun(octets, "0")
  }

  /** The text for eight groups: hex groups, the chosen zero run replaced by "::". */
  function GroupsText(g: seq<nat>): string
    requires |g| > 0
  {
    var octets := HexGroups(g);
    Compress(octets, ZeroRun(octets))
  }

  /** The text the corrected IP6Address.fromBytes gives for 16 bytes. */
  function IP6Text(b: seq<Byte>): string
    requires |b| == 16
  {
    GroupsText(Groups(b))
  }

  /** IP6Address.fromBytes as written: findLongestSubsequence raises NameError when
      the first "0" group is the last group, and that error escapes. */
  function IP6FromBytesAsWritten(b: seq<Byte>): Result<Addr>
  {
    if |b| != 16 then Err(ValueError)
    else
      var octets := HexGroups(Groups(b));
      var run :- LongestRunAsWritten(octets, "0");
      assert run == ZeroRun(octets);
      IP6Address(Compress(octets, run))
  }

  /** IP6Address.fromBytes with findLongestSubsequence's intended, total result. */
  function IP6FromBytes(b: seq<Byte>): Result<Addr>
  {
    if |b| != 16 then Err(ValueError) else IP6Address(IP6Text(b))
  }

  lemma DigitsZero(n: nat)
    ensures Digits(n, 16) == "0" <==> n == 0
  {
    DigitsRoundTrip(n, 16);
    assert DigitsValue("0"[..0], 16) == 0;
  }

  /** Values agree with v outside [a, f] and are zero on it. */
  lemma FillZeros(v: seq<nat>, a: nat, f: nat)
    requires a <= f < |v|
    requires forall k :: a <= k <= f ==> v[k] == 0
    requires |v| == 8
    ensures FillGap(v[..a], v[f + 1..]) == v
  {
    assert 8 - a - (8 - (f + 1)) == f + 1 - a;
    var w := v[..a] + Repeat<nat>(0, f + 1 - a) + v[f + 1..];
    assert |w| == |v|;
    forall k | 0 <= k < |v| ensures w[k] == v[k] {
      if k < a {
      } else if k <= f {
        assert w[k] == Repeat<nat>(0, f + 1 - a)[k - a];
      } else {
        assert w[k] == v[f + 1..][k - f - 1];
      }
    }
  }

  /** Text with one "::" at k: the groups are those before it, the gap's zeros, and
      those after it. */
  lemma IPv6GroupsOneGap(text: string, k: nat, x: seq<nat>, y: seq<nat>)
    requires FindDouble(text) == Some(k) && CountDouble(text) == 1
    requires Blocks(text[..k]) == Ok(x) && Blocks(text[k + 2..]) == Ok(y)
    requires |x| + |y| <= 8
    ensures IPv6Groups(text) == Ok(FillGap(x, y))
  {
  }

  /** a + "::" + b, with no "::" in a or b and a not ending in ':', holds one "::". */
  lemma OneDouble(text: string, a: string, b: string)
    requires text == a + "::" + b
    requires NoDouble(a) && (a != [] ==> a[|a| - 1] != ':') && NoDouble(b)
    ensures FindDouble(text) == Some(|a|) && CountDouble(text) == 1
    ensures text[..|a|] == a && text[|a| + 2..] == b
  {
    FindDoubleMiddle(a, b);
    assert text[|a| + 2..] == b;
    NoDoubleFind(b);
  }

  /** Writing eight groups out in full reads back to them. */
  lemma PlainGroups(g: seq<nat>)
    requires |g| == 8 && forall i :: 0 <= i < 8 ==> g[i] <= 0xffff
    ensures IPv6Groups(Join(HexGroups(g), ":")) == Ok(g)
  {
    HexGroupsShape(g);
    JoinNoDouble(HexGroups(g));
    NoDoubleFind(Join(HexGroups(g), ":"));
    BlocksJoin(g);
  }

  /** Writing eight groups with the zero groups s..f replaced by "::" reads back to them. */
  lemma AbbreviatedGroups(g: seq<nat>, s: nat, f: nat)
    requires |g| == 8 && forall i :: 0 <= i < 8 ==> g[i] <= 0xffff
    requires s < f < 8 && forall k :: s <= k <= f ==> g[k] == 0
    ensures IPv6Groups(Join(HexGroups(g[..s]), ":") + "::" + Join(HexGroups(g[f + 1..]), ":")) == Ok(g)
  {
    var A, B := Join(HexGroups(g[..s]), ":"), Join(HexGroups(g[f + 1..]), ":");
    HexGroupsShape(g[..s]);
    HexGroupsShape(g[f + 1..]);
    JoinNoDouble(HexGroups(g[..s]));
    JoinNoDouble(HexGroups(g[f + 1..]));
    var text := A + "::" + B;
    OneDouble(text, A, B);
    BlocksJoin(g[..s]);
    BlocksJoin(g[f + 1..]);
    IPv6GroupsOneGap(text, |A|, g[..s], g[f + 1..]);
    FillZeros(g, s, f);
  }

  /** The groups of the formatted text are the groups it was made from. */
  lemma GroupsTextGroups(g: seq<nat>)
    requires |g| == 8 && forall i :: 0 <= i < 8 ==> g[i] <= 0xffff
    ensures IPv6Groups(GroupsText(g)) == Ok(g)
  {
    var o := HexGroups(g);
    var run := ZeroRun(o);
    if run.1 != 0 {
      LongestRunShortCases(o, "0");
      forall k | run.0 <= k <= run.1 ensures g[k] == 0 {
        DigitsZero(g[k]);
      }
      HexGroupsSlice(g, run.0);
      HexGroupsSlice(g, run.1 + 1);
      assert GroupsText(g) == Join(HexGroups(g[..run.0]), ":") + "::" + Join(HexGroups(g[run.1 + 1..]), ":");
      AbbreviatedGroups(g, run.0, run.1);
    } else {
      assert GroupsText(g) == Join(HexGroups(g), ":");
      PlainGroups(g);
    }
  }

  /** fromBytes(b).bytes == b for every sixteen bytes, and any other length is refused. */
  lemma IP6RoundTrip(b: seq<Byte>)
    ensures |b| == 16 ==> IP6FromBytes(b) == Ok(Addr(Inet6, IP6Text(b), b, None))
    ensures |b| != 16 ==> IP6FromBytes(b) == Err(ValueError)
  {
    if |b| == 16 {
      GroupsTextGroups(Groups(b));
      GroupBytesGroups(b);
    }
  }

  /** The text holds "::" exactly when two adjacent groups are zero; otherwise every
      group, a lone zero group included, is written out. */
  lemma GroupsTextAbbreviates(g: seq<nat>)
    requires |g| == 8
    ensures FindDouble(GroupsText(g)).Some? <==> exists k :: 0 <= k < 7 && g[k] == 0 && g[k + 1] == 0
    ensures FindDouble(GroupsText(g)).None? ==> GroupsText(g) == Join(HexGroups(g), ":")
  {
    if ZeroRun(HexGroups(g)).1 != 0 {
      AbbreviatedRun(g);
    } else {
      UnabbreviatedText(g);
    }
  }

  /** A chosen run of two or more zero groups puts "::" in the text. */
  lemma AbbreviatedRun(g: seq<nat>)
    requires |g| == 8 && ZeroRun(HexGroups(g)).1 != 0
    ensures var run := ZeroRun(HexGroups(g));
            run.0 + 1 < 8 && g[run.0] == 0 && g[run.0 + 1] == 0 && FindDouble(GroupsText(g)).Some?
  {
    var o := HexGroups(g);
    var run := ZeroRun(o);
    HexGroupsShape(g);
    LongestRunShortCases(o, "0");
    DigitsZero(g[run.0]);
    DigitsZero(g[run.0 + 1]);
    var A, B := Join(o[..run.0], ":"), Join(o[run.1 + 1..], ":");
    HexGroupsShape(g[..run.0]);
    HexGroupsSlice(g, run.0);
    JoinNoDouble(o[..run.0]);
    FindDoubleMiddle(A, B);
  }

  /** With no run chosen, no two adjacent groups are zero and the text is the plain
      join, which holds no "::". */
  lemma UnabbreviatedText(g: seq<nat>)
    requires |g| == 8 && ZeroRun(HexGroups(g)).1 == 0
    ensures GroupsText(g) == Join(HexGroups(g), ":") && FindDouble(GroupsText(g)).None?
    ensures forall k :: 0 <= k < 7 ==> !(g[k] == 0 && g[k + 1] == 0)
  {
    var o := HexGroups(g);
    HexGroupsShape(g);
    JoinNoDouble(o);
    NoDoubleFind(Join(o, ":"));
    LongestRunIsLongest(o, "0");
    LongestRunShortCases(o, "0");
    forall k | 0 <= k < 7 ensures !(g[k] == 0 && g[k + 1] == 0) {
      DigitsZero(g[k]);
      DigitsZero(g[k + 1]);
      if g[k] == 0 && g[k + 1] == 0 {
        assert IsRun(o, "0", k, k + 1);
        assert false;
      }
    }
  }

  /** The as-written fromBytes fails, with NameError, exactly when the last group is the
      only zero group; otherwise it agrees with the corrected one. */
  lemma IP6FromBytesAsWrittenFails(b: seq<Byte>)
    requires |b| == 16
    ensures IP6FromBytesAsWritten(b).Err? && IP6FromBytesAsWritten(b).error == NameError <==>
              Groups(b)[7] == 0 && forall k :: 0 <= k < 7 ==> Groups(b)[k] != 0
    ensures IP6FromBytesAsWritten(b).Ok? ==> IP6FromBytesAsWritten(b) == IP6FromBytes(b)
  {
    var g := Groups(b);
    var o := HexGroups(g);
    AsWrittenOrCorrected(b);
    IP6RoundTrip(b);
    forall k | 0 <= k < 8 ensures (o[k] == "0") == (g[k] == 0) {
      DigitsZero(g[k]);
    }
    assert FirstOccurrenceAtEnd(o, "0") <==> g[7] == 0 && forall k :: 0 <= k < 7 ==> g[k] != 0;
  }

  lemma AsWrittenOrCorrected(b: seq<Byte>)
    requires |b| == 16
    ensures IP6FromBytesAsWritten(b) ==
              if FirstOccurrenceAtEnd(HexGroups(Groups(b)), "0") then Err(NameError) else IP6FromBytes(b)
  {
  }
}
