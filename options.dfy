/** Options of openbsd/_packetDescriptors.py: the named constants of a packet field, looked
    up without regard to case, with a reverse table from value to display name. */
module OptionTables {
  import opened Common
  import opened Text

  /** _ndict after registering each pair in turn: the lower-cased name maps to the name as
      given and its value, so a later registration replaces one differing only in case. */
  function NamesAfter(ndict: map<string, (string, int)>, pairs: seq<(string, int)>): map<string, (string, int)>
    decreases |pairs|
  {
    if pairs == [] then ndict
    else NamesAfter(ndict[Lower(pairs[0].0) := pairs[0]], pairs[1..])
  }

  /** _vdict after registering each pair in turn: each value remembers the last name. */
  function DisplayAfter(vdict: map<int, string>, pairs: seq<(string, int)>): map<int, string>
    decreases |pairs|
  {
    if pairs == [] then vdict
    else DisplayAfter(vdict[pairs[0].1 := pairs[0].0], pairs[1..])
  }

  /** The name registered last among those equal to `key` up to case, if any. */
  function LastNamed(pairs: seq<(string, int)>, key: string): Option<(string, int)>
  {
    if pairs == [] then None
    else if Lower(pairs[|pairs| - 1].0) == Lower(key) then Some(pairs[|pairs| - 1])
    else LastNamed(pairs[..|pairs| - 1], key)
  }

  lemma {:induction false} NamesAfterAppend(ndict: map<string, (string, int)>, pairs: seq<(string, int)>, p: (string, int))
    ensures NamesAfter(ndict, pairs + [p]) == NamesAfter(ndict, pairs)[Lower(p.0) := p]
    decreases |pairs|
  {
    if pairs != [] {
      assert (pairs + [p])[1..] == pairs[1..] + [p];
      NamesAfterAppend(ndict[Lower(pairs[0].0) := pairs[0]], pairs[1..], p);
    }
  }

  lemma {:induction false} DisplayAfterAppend(vdict: map<int, string>, pairs: seq<(string, int)>, p: (string, int))
    ensures DisplayAfter(vdict, pairs + [p]) == DisplayAfter(vdict, pairs)[p.1 := p.0]
    decreases |pairs|
  {
    if pairs != [] {
      assert (pairs + [p])[1..] == pairs[1..] + [p];
      DisplayAfterAppend(vdict[pairs[0].1 := pairs[0].0], pairs[1..], p);
    }
  }

  /** Registering a list from scratch: a name is found exactly when some registered name
      equals it up to case, and then with the casing and value registered last. */
  lemma {:induction false} LastRegistrationWins(pairs: seq<(string, int)>, key: string)
    ensures Lower(key) in NamesAfter(map[], pairs) <==> LastNamed(pairs, key).Some?
    ensures LastNamed(pairs, key).Some? ==> NamesAfter(map[], pairs)[Lower(key)] == LastNamed(pairs, key).value
    decreases |pairs|
  {
    if pairs != [] {
      var init, p := pairs[..|pairs| - 1], pairs[|pairs| - 1];
      assert pairs == init + [p];
      NamesAfterAppend(map[], init, p);
      LastRegistrationWins(init, key);
    }
  }

  class Options {
    var ndict: map<string, (string, int)>
    var vdict: map<int, string>

    /** Every entry is filed under its name lower-cased, and every display name is, up to
        case, a registered name. */
    ghost predicate Valid()
      reads this
    {
      && (forall k :: k in ndict ==> Lower(ndict[k].0) == k)
      && (forall v :: v in vdict ==> Lower(vdict[v]) in ndict)
    }

    /** Options(**kwargs): each keyword registered in turn (in the order given here). */
    constructor (kwargs: seq<(string, int)>)
      ensures Valid()
      ensures ndict == NamesAfter(map[], kwargs)
      ensures vdict == DisplayAfter(map[], kwargs)
    {
      ndict := map[];
      vdict := map[];
      new;
      var i := 0;
      while i < |kwargs|
        invariant 0 <= i <= |kwargs|
        invariant Valid()
        invariant ndict == NamesAfter(map[], kwargs[..i])
        invariant vdict == DisplayAfter(map[], kwargs[..i])
      {
        NamesAfterAppend(map[], kwargs[..i], kwargs[i]);
        DisplayAfterAppend(map[], kwargs[..i], kwargs[i]);
        assert kwargs[..i + 1] == kwargs[..i] + [kwargs[i]];
        Set(kwargs[i].0, kwargs[i].1);
        i := i + 1;
      }
      assert kwargs[..i] == kwargs;
    }

    /** options[key]: the value registered under the name, whatever its case; KeyError
        when there is none. */
    function Get(key: string): (r: Result<int>)
      reads this
      ensures r.Ok? <==> HasKey(key)
      ensures r.Err? ==> r.error == KeyError
    {
      var k := Lower(key);
      if k in ndict then Ok(ndict[k].1) else Err(KeyError)
    }

    /** options.has_key(key), without regard to case. */
    predicate HasKey(key: string)
      reads this
    {
      Lower(key) in ndict
    }

    /** _set(key, value): replaces any entry whose name differs only in case, and makes
        `key` the display name of `value`. */
    method Set(key: string, value: int)
      requires Valid()
      modifies this
      ensures Valid()
      ensures ndict == old(ndict)[Lower(key) := (key, value)]
      ensures vdict == old(vdict)[value := key]
      ensures Get(key) == Ok(value) && ToStr(value) == key
    {
      ndict := ndict[Lower(key) := (key, value)];
      vdict := vdict[value := key];
      LowerIdempotent(key);
    }

    /** options.keys(): the names with the casing last registered (order is the
        dictionary's and not modelled). */
    function Keys(): (r: set<string>)
      reads this
      ensures forall k :: k in ndict ==> ndict[k].0 in r
      ensures forall n :: n in r ==> exists k :: k in ndict && ndict[k].0 == n
    {
      set k | k in ndict :: ndict[k].0
    }

    /** options.values() as a set (multiplicity and order are not modelled). */
    function Values(): (r: set<int>)
      reads this
      ensures forall k :: k in ndict ==> ndict[k].1 in r
      ensures forall v :: v in r ==> exists k :: k in ndict && ndict[k].1 == v
    {
      set k | k in ndict :: ndict[k].1
    }

    /** toStr(val): the last name registered for the value, else str(val). */
    function ToStr(val: int): (r: string)
      reads this
      ensures val in vdict ==> r == vdict[val]
      ensures val !in vdict ==> r == IntToStr(val)
    {
      if val in vdict then vdict[val] else IntToStr(val)
    }
  }

  /** Lookup ignores case: a name and its lower-case form find the same entry. */
  lemma GetIgnoresCase(o: Options, a: string, b: string)
    requires Lower(a) == Lower(b)
    ensures o.Get(a) == o.Get(b) && o.HasKey(a) == o.HasKey(b)
    ensures o.Get(Lower(a)) == o.Get(a)
  {
    LowerIdempotent(a);
  }

  /** keys() holds one name per entry: no two names differ only in case, and each name
      is found by has_key. */
  lemma KeysDistinctUpToCase(o: Options, n1: string, n2: string)
    requires o.Valid()
    requires n1 in o.Keys() && n2 in o.Keys()
    ensures o.HasKey(n1)
    ensures Lower(n1) == Lower(n2) ==> n1 == n2
  {
    var k1 :| k1 in o.ndict && o.ndict[k1].0 == n1;
    var k2 :| k2 in o.ndict && o.ndict[k2].0 == n2;
    assert Lower(n1) == k1 && Lower(n2) == k2;
  }

  /** has_key(key) holds exactly when keys() holds a name equal to it up to case. */
  lemma HasKeyIffKeyed(o: Options, key: string)
    requires o.Valid()
    ensures o.HasKey(key) <==> exists n :: n in o.Keys() && Lower(n) == Lower(key)
  {
    if o.HasKey(key) {
      var n := o.ndict[Lower(key)].0;
      assert n in o.Keys() && Lower(n) == Lower(key);
    }
    if exists n :: n in o.Keys() && Lower(n) == Lower(key) {
      var n :| n in o.Keys() && Lower(n) == Lower(key);
      KeysDistinctUpToCase(o, n, n);
    }
  }

  /** A registered value is displayed by a name that has_key accepts. */
  lemma ToStrIsRegistered(o: Options, val: int)
    requires o.Valid()
    ensures val in o.vdict ==> o.HasKey(o.ToStr(val))
    ensures val !in o.vdict ==> o.ToStr(val) == IntToStr(val)
  {
  }

  /** The documented example: "FOO" is found whichever casing registered it, and keys()
      reports the casing used at registration. */
  lemma OptionsExample()
    ensures Lower("FOO") == "foo" && Lower("Foo") == "foo"
    ensures NamesAfter(map[], [("Foo", 1)]) == map["foo" := ("Foo", 1)]
  {
    assert Lower("FOO") == "foo" by {
      assert Lower("FOO")[0] == 'f' && Lower("FOO")[1] == 'o' && Lower("FOO")[2] == 'o';
    }
    assert Lower("Foo") == "foo" by {
      assert Lower("Foo")[0] == 'f' && Lower("Foo")[1] == 'o' && Lower("Foo")[2] == 'o';
    }
  }
}
