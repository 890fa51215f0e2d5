/** The pure parts of openbsd/ifconfig.py: unique, the flag description of FlagVal, the
    media option queries over a media table, and the flag arithmetic of Interface.up and
    Interface.down. The kernel's values of the IFF_* constants are parameters. */
module InterfaceConfig {
  import opened Common
  import opened Text
  import opened Bitwise

  // ---------------------------------------------------------------- unique

  /** unique(lst): every element is made a key of a dictionary, and the keys are
      returned in the dictionary's order, which is not modelled (any order may come
      out). */
  method Unique<T(==)>(lst: seq<T>) returns (r: seq<T>)
    ensures forall x :: x in r <==> x in lst
    ensures Distinct(r)
  {
    var vals: map<T, int> := map[];
    for i := 0 to |lst|
      invariant vals.Keys == set k | 0 <= k < i :: lst[k]
    {
      vals := vals[lst[i] := 0];
    }
    r := [];
    var rest := vals.Keys;
    while rest != {}
      invariant rest <= vals.Keys
      invariant forall x :: x in vals.Keys <==> x in rest || x in r
      invariant forall x :: x in r ==> x !in rest
      invariant Distinct(r)
      decreases |rest|
    {
      var x :| x in rest;
      r := r + [x];
      rest := rest - {x};
    }
  }

  // ---------------------------------------------------------------- FlagVal

  /** The names of FlagVal._flags, in table order. */
  const FlagNames: seq<string> := ["UP", "BROADCAST", "DEBUG", "LOOPBACK", "POINTOPOINT", "NOTRAILERS",
    "RUNNING", "NOARP", "PROMISC", "ALLMULTI", "OACTIVE", "SIMPLEX", "LINK0", "LINK1", "LINK2", "MULTICAST"]

  /** FlagVal._flags, given the values of the sixteen IFF_* constants in table order. */
  function FlagTable(values: seq<int>): (t: seq<(int, string)>)
    requires |values| == |FlagNames|
    ensures |t| == |FlagNames|
    ensures forall k :: 0 <= k < |t| ==> t[k] == (values[k], FlagNames[k])
  {
    seq(|FlagNames|, k requires 0 <= k < |FlagNames| => (values[k], FlagNames[k]))
  }

  /** The OpenBSD values: IFF_UP is 0x1 and each later flag the next bit, up to
      IFF_MULTICAST at 0x8000. */
  function OpenBSDFlagValues(): (v: seq<int>)
    ensures |v| == |FlagNames|
    ensures forall k :: 0 <= k < |v| ==> v[k] == Pow2(k)
  {
    seq(|FlagNames|, k requires 0 <= k < |FlagNames| => Pow2(k))
  }

  /** FlagVal.flagdesc: the name of each table entry whose value shares a bit with the
      flags, in table order, joined by "|". */
  method FlagDesc(flags: int, table: seq<(int, string)>) returns (s: string)
    ensures s == Join(SetNames(table, flags), "|")
  {
    var strs: seq<string> := [];
    for i := 0 to |table|
      invariant strs == SetNames(table[..i], flags)
    {
      assert table[..i + 1][..i] == table[..i];
      if And(flags, table[i].0) != 0 {
        strs := strs + [table[i].1];
      }
    }
    assert table[..|table|] == table;
    s := Join(strs, "|");
  }

  lemma FlagNamesDistinct()
    ensures Distinct(FlagNames)
    ensures forall k :: 0 <= k < |FlagNames| ==> Free(FlagNames[k], '|') && FlagNames[k] != ""
  {
  }

  /** With the OpenBSD values, the description names exactly the flags whose bit is set;
      and the description splits on "|" back into those names. */
  lemma FlagDescBits(flags: int, k: nat)
    requires k < |FlagNames|
    ensures FlagNames[k] in SetNames(FlagTable(OpenBSDFlagValues()), flags) <==> IBit(flags, k)
  {
    var t := FlagTable(OpenBSDFlagValues());
    FlagNamesDistinct();
    SetNamesListed(t, flags, k);
    AndPow2NonZero(flags, k);
  }

  /** The names in a description come from the table, the description is empty when no
      entry shares a bit with the flags, and splitting a non-empty description on "|"
      gives the names back when no name contains "|". */
  lemma FlagDescSplits(flags: int, table: seq<(int, string)>)
    requires forall k :: 0 <= k < |table| ==> Free(table[k].1, '|')
    ensures (forall k :: 0 <= k < |table| ==> And(flags, table[k].0) == 0) ==> Join(SetNames(table, flags), "|") == ""
    ensures SetNames(table, flags) != [] ==> Split(Join(SetNames(table, flags), "|"), '|') == SetNames(table, flags)
  {
    var names := SetNames(table, flags);
    SetNamesMembers(table, flags);
    if names != [] {
      assert names[0] in names;
      forall i | 0 <= i < |names| ensures Free(names[i], '|') {
        assert names[i] in names;
      }
      SplitJoin(names, '|');
    }
  }

  /** "%x" of an int: lower-case hexadecimal digits, with '-' for a negative value. */
  function Hex(x: int): (s: string)
    ensures s != [] && Free(s, ' ')
  {
    if x < 0 then "-" + Digits(-x, 16) else Digits(x, 16)
  }

  /** int(s, 16) on an optional '-' followed by hexadecimal digits. */
  function ParseHex(s: string): Result<int>
  {
    if s != [] && s[0] == '-' then
      var n :- ParseNat(s[1..], 16);
      var v: int := -(n as int);
      Ok(v)
    else ParseNat(s, 16)
  }

  /** FlagVal.__str__: "%x <%s>" of the value and its description. */
  function FlagStr(flags: int, table: seq<(int, string)>): string
  {
    Hex(flags) + " <" + Join(SetNames(table, flags), "|") + ">"
  }

  /** The text of a FlagVal reads back: the word before the first space is the value in
      hexadecimal, and what stands between " <" and the closing ">" is the description. */
  lemma FlagStrParts(flags: int, table: seq<(int, string)>)
    ensures var s := FlagStr(flags, table);
            var h := Split(s, ' ')[0];
            && ParseHex(h) == Ok(flags)
            && |h| + 3 <= |s| && s[|h|..|h| + 2] == " <" && s[|s| - 1] == '>'
            && s[|h| + 2..|s| - 1] == Join(SetNames(table, flags), "|")
  {
    var h, d := Hex(flags), Join(SetNames(table, flags), "|");
    var s := FlagStr(flags, table);
    assert s == h + [' '] + ("<" + d + ">");
    SplitAt(h, ' ', "<" + d + ">");
    HexRoundTrip(flags);
  }

  /** int(s, 16) reads back what "%x" writes, for either sign. */
  lemma HexRoundTrip(x: int)
    ensures ParseHex(Hex(x)) == Ok(x)
  {
    var h := Hex(x);
    if x < 0 {
      DigitsRoundTrip(-x, 16);
      assert h[1..] == Digits(-x, 16);
    } else {
      DigitsRoundTrip(x, 16);
      assert h[0] != '-';
    }
  }

  // ---------------------------------------------------------------- Media

  /** One entry of the interface's media table: its type, subtype and options. */
  datatype MediaEntry = MediaEntry(mtype: string, subtype: string, options: seq<string>)

  /** `[i[1] for i in media["options"]]`. */
  function Subtypes(entries: seq<MediaEntry>): (r: seq<string>)
    ensures |r| == |entries| && forall k :: 0 <= k < |r| ==> r[k] == entries[k].subtype
  {
    seq(|entries|, k requires 0 <= k < |entries| => entries[k].subtype)
  }

  /** Media.getAllSubtypes over a media table: every subtype of an entry, once. */
  method GetAllSubtypes(entries: seq<MediaEntry>) returns (r: seq<string>)
    ensures forall x :: x in r <==> exists k :: 0 <= k < |entries| && entries[k].subtype == x
    ensures Distinct(r)
  {
    var subs := Subtypes(entries);
    r := Unique(subs);
    forall x | x in r ensures exists k :: 0 <= k < |entries| && entries[k].subtype == x {
      var k :| 0 <= k < |subs| && subs[k] == x;
    }
    forall x | exists k :: 0 <= k < |entries| && entries[k].subtype == x ensures x in r {
      var k :| 0 <= k < |entries| && entries[k].subtype == x;
      assert subs[k] == x;
    }
  }

  /** The options of every entry of the subtype, in entry order. */
  function OptionsFor(entries: seq<MediaEntry>, subtype: string): seq<string>
  {
    if entries == [] then []
    else
      var last := entries[|entries| - 1];
      OptionsFor(entries[..|entries| - 1], subtype) + (if last.subtype == subtype then last.options else [])
  }

  /** Media.getAllOptions(subtype) over a media table. */
  method GetAllOptions(entries: seq<MediaEntry>, subtype: string) returns (options: seq<string>)
    ensures options == OptionsFor(entries, subtype)
  {
    options := [];
    for i := 0 to |entries|
      invariant options == OptionsFor(entries[..i], subtype)
    {
      assert entries[..i + 1][..i] == entries[..i];
      if entries[i].subtype == subtype {
        options := options + entries[i].options;
      }
    }
    assert entries[..|entries|] == entries;
  }

  /** An option is listed exactly when some entry of the subtype has it. */
  lemma {:induction false} OptionsForMembers(entries: seq<MediaEntry>, subtype: string)
    ensures forall x :: x in OptionsFor(entries, subtype) <==>
              exists k :: 0 <= k < |entries| && entries[k].subtype == subtype && x in entries[k].options
    decreases |entries|
  {
    if entries != [] {
      var init := entries[..|entries| - 1];
      OptionsForMembers(init, subtype);
      forall x | x in OptionsFor(entries, subtype)
        ensures exists k :: 0 <= k < |entries| && entries[k].subtype == subtype && x in entries[k].options
      {
        if x in OptionsFor(init, subtype) {
          var k :| 0 <= k < |init| && init[k].subtype == subtype && x in init[k].options;
          assert entries[k] == init[k];
        }
      }
      forall x | exists k :: 0 <= k < |entries| && entries[k].subtype == subtype && x in entries[k].options
        ensures x in OptionsFor(entries, subtype)
      {
        var k :| 0 <= k < |entries| && entries[k].subtype == subtype && x in entries[k].options;
        if k < |init| {
          assert init[k] == entries[k];
        }
      }
    }
  }

  /** Entry order is kept: the options over two tables one after the other are those of
      the first followed by those of the second. */
  lemma {:induction false} OptionsForAppend(e1: seq<MediaEntry>, e2: seq<MediaEntry>, subtype: string)
    ensures OptionsFor(e1 + e2, subtype) == OptionsFor(e1, subtype) + OptionsFor(e2, subtype)
    decreases |e2|
  {
    if e2 != [] {
      assert (e1 + e2)[..|e1 + e2| - 1] == e1 + e2[..|e2| - 1];
      OptionsForAppend(e1, e2[..|e2| - 1], subtype);
    } else {
      assert e1 + e2 == e1;
    }
  }

  // ---------------------------------------------------------------- Interface

  /** An interface, reduced to the kernel's flag word that its `flags` property reads
      and writes. */
  class Interface {
    var flags: int

    constructor (flags: int)
      ensures this.flags == flags
    {
      this.flags := flags;
    }

    /** up(): `self.flags = self.flags | IFF_UP`. */
    method Up(iffUp: int)
      modifies this
      ensures flags == Or(old(flags), iffUp)
    {
      flags := Or(flags, iffUp);
    }

    /** down(): `self.flags = self.flags & (~IFF_UP)`. */
    method Down(iffUp: int)
      modifies this
      ensures flags == And(old(flags), Not(iffUp))
    {
      flags := And(flags, Not(iffUp));
    }
  }

  /** With IFF_UP a single bit k, up sets bit k and leaves every other bit as it was. */
  lemma UpBits(flags: int, k: nat, i: nat)
    ensures IBit(Or(flags, Pow2(k)), i) == (i == k || IBit(flags, i))
    ensures And(Or(flags, Pow2(k)), Pow2(k)) != 0
  {
    OrBit(flags, Pow2(k), i);
    Pow2Bit(k, i);
    OrBit(flags, Pow2(k), k);
    Pow2Bit(k, k);
    AndPow2NonZero(Or(flags, Pow2(k)), k);
  }

  /** With IFF_UP a single bit k, down clears bit k and leaves every other bit as it
      was, so `flags & IFF_UP` is then 0. */
  lemma DownBits(flags: int, k: nat, i: nat)
    ensures IBit(And(flags, Not(Pow2(k))), i) == (i != k && IBit(flags, i))
    ensures And(And(flags, Not(Pow2(k))), Pow2(k)) == 0
  {
    AndBit(flags, Not(Pow2(k)), i);
    NotBit(Pow2(k), i);
    Pow2Bit(k, i);
    AndBit(flags, Not(Pow2(k)), k);
    NotBit(Pow2(k), k);
    Pow2Bit(k, k);
    AndPow2NonZero(And(flags, Not(Pow2(k))), k);
  }

  /** The source's up/down test: after up the UP bit is set, after down it is clear. */
  method UpDownExample(i: Interface, k: nat)
    modifies i
    ensures And(i.flags, Pow2(k)) == 0
  {
    i.Up(Pow2(k));
    UpBits(old(i.flags), k, k);
    assert And(i.flags, Pow2(k)) != 0;
    i.Down(Pow2(k));
    DownBits(Or(old(i.flags), Pow2(k)), k, k);
  }
}
