/** The string operations the address codec relies on: Python's str.split with a
    one-character separator, str.join, str.find/str.count of "::", int() in base 10
    and 16, str() and hex() of a non-negative integer, and str.lower(). */
module Text {
  import opened Common

  predicate IsDigit(c: char) { '0' <= c <= '9' }

  predicate IsHexDigit(c: char) { '0' <= c <= '9' || 'a' <= c <= 'f' || 'A' <= c <= 'F' }

  /** True when every character of s belongs to the base (10 or 16). */
  predicate AllDigits(s: string, base: nat)
  {
    forall i :: 0 <= i < |s| ==> (if base == 16 then IsHexDigit(s[i]) else IsDigit(s[i]))
  }

  function DigitValue(c: char): (d: nat)
    requires IsHexDigit(c)
    ensures d < 16
    ensures IsDigit(c) ==> d < 10
  {
    if '0' <= c <= '9' then c as int - '0' as int
    else if 'a' <= c <= 'f' then c as int - 'a' as int + 10
    else c as int - 'A' as int + 10
  }

  /** The lower-case digit character for d. */
  function DigitChar(d: nat): (c: char)
    requires d < 16
    ensures IsHexDigit(c) && DigitValue(c) == d
    ensures d < 10 ==> IsDigit(c)
    ensures c != ':' && c != '.'
  {
    if d < 10 then ('0' as int + d) as char else ('a' as int + d - 10) as char
  }

  /** The value of a digit string read most significant digit first. */
  function DigitsValue(s: string, base: nat): nat
    requires base == 10 || base == 16
    requires AllDigits(s, base)
  {
    if s == [] then 0
    else DigitsValue(s[..|s| - 1], base) * base + DigitValue(s[|s| - 1])
  }

  /** Python's int(s) (base 10) or int(s, 16) on a string of digits only; anything
      else, including the empty string, raises ValueError. */
  function ParseNat(s: string, base: nat): (r: Result<nat>)
    requires base == 10 || base == 16
    ensures r.Ok? <==> s != [] && AllDigits(s, base)
  {
    if s != [] && AllDigits(s, base) then Ok(DigitsValue(s, base)) else Err(ValueError)
  }

  /** str(n) for base 10 and hex(n)[2:] for base 16: lower case, no leading zeros. */
  function Digits(n: nat, base: nat): (s: string)
    requires base == 10 || base == 16
    ensures s != [] && AllDigits(s, base)
    ensures forall i :: 0 <= i < |s| ==> s[i] != ':' && s[i] != '.'
    decreases n
  {
    if n < base then [DigitChar(n)] else Digits(n / base, base) + [DigitChar(n % base)]
  }

  /** int() reads back what str()/hex() writes. */
  lemma {:induction false} DigitsRoundTrip(n: nat, base: nat)
    requires base == 10 || base == 16
    ensures ParseNat(Digits(n, base), base) == Ok(n)
    decreases n
  {
    var s := Digits(n, base);
    if n >= base {
      DigitsRoundTrip(n / base, base);
      assert s[..|s| - 1] == Digits(n / base, base);
      assert DigitValue(s[|s| - 1]) == n % base;
      assert DigitsValue(s, base) == (n / base) * base + n % base;
    } else {
      assert s[..|s| - 1] == [];
      assert DigitsValue(s, base) == 0 * base + n;
    }
  }

  /** str(n) as a decimal string, with a '-' sign for negative values. */
  function IntToStr(n: int): (s: string)
    ensures s != []
  {
    if n < 0 then "-" + Digits(-n, 10) else Digits(n, 10)
  }

  // ---------------------------------------------------------------- split / join

  /** Python's s.split(c) for a one-character separator: always at least one piece. */
  function Split(s: string, c: char): (r: seq<string>)
    ensures |r| >= 1
  {
    if s == [] then [""]
    else
      var rest := Split(s[1..], c);
      if s[0] == c then [""] + rest else [[s[0]] + rest[0]] + rest[1..]
  }

  /** Python's sep.join(parts). */
  function Join(parts: seq<string>, sep: string): string
  {
    if |parts| == 0 then ""
    else if |parts| == 1 then parts[0]
    else parts[0] + sep + Join(parts[1..], sep)
  }

  predicate Free(s: string, c: char) { forall i :: 0 <= i < |s| ==> s[i] != c }

  lemma {:induction false} SplitFree(s: string, c: char)
    requires Free(s, c)
    ensures Split(s, c) == [s]
  {
    if s != [] {
      SplitFree(s[1..], c);
      assert [s[0]] + s[1..] == s;
    }
  }

  lemma {:induction false} SplitAt(p: string, c: char, t: string)
    requires Free(p, c)
    ensures Split(p + [c] + t, c) == [p] + Split(t, c)
  {
    if p == [] {
      assert (p + [c] + t)[1..] == t;
    } else {
      assert (p + [c] + t)[1..] == p[1..] + [c] + t;
      SplitAt(p[1..], c, t);
      assert [p[0]] + p[1..] == p;
    }
  }

  /** Splitting a join on a separator the parts do not contain gives the parts back. */
  lemma {:induction false} SplitJoin(parts: seq<string>, c: char)
    requires |parts| >= 1
    requires forall i :: 0 <= i < |parts| ==> Free(parts[i], c)
    ensures Split(Join(parts, [c]), c) == parts
  {
    if |parts| == 1 {
      SplitFree(parts[0], c);
    } else {
      SplitJoin(parts[1..], c);
      SplitAt(parts[0], c, Join(parts[1..], [c]));
      assert [parts[0]] + parts[1..] == parts;
    }
  }

  /** Joining pieces free of d with a separator other than d gives text free of d. */
  lemma {:induction false} JoinFree(parts: seq<string>, sep: char, d: char)
    requires sep != d
    requires forall i :: 0 <= i < |parts| ==> Free(parts[i], d)
    ensures Free(Join(parts, [sep]), d)
  {
    if |parts| > 1 {
      JoinFree(parts[1..], sep, d);
    }
  }

  // ---------------------------------------------------------------- the "::" marker

  /** Python's s.find("::") as an option: the first index of two adjacent colons. */
  function FindDouble(s: string): (r: Option<nat>)
    ensures r.Some? ==> r.value + 1 < |s| && s[r.value] == ':' && s[r.value + 1] == ':'
    ensures r.Some? ==> forall k :: 0 <= k < r.value ==> !(s[k] == ':' && s[k + 1] == ':')
    ensures r.None? ==> forall k :: 0 <= k < |s| - 1 ==> !(s[k] == ':' && s[k + 1] == ':')
  {
    if |s| < 2 then None
    else if s[0] == ':' && s[1] == ':' then Some(0)
    else match FindDouble(s[1..])
      case None => None
      case Some(k) => Some(k + 1)
  }

  /** Python's s.count("::"): non-overlapping occurrences, scanning left to right. */
  function CountDouble(s: string): nat
    decreases |s|
  {
    match FindDouble(s)
    case None => 0
    case Some(k) => 1 + CountDouble(s[k + 2..])
  }

  /** No two adjacent colons. */
  predicate NoDouble(s: string)
  {
    forall k :: 0 <= k < |s| - 1 ==> !(s[k] == ':' && s[k + 1] == ':')
  }

  /** Parts that are non-empty and colon-free join with ":" into a string with no "::",
      whose first and last characters are not colons. */
  lemma {:induction false} JoinNoDouble(parts: seq<string>)
    requires forall i :: 0 <= i < |parts| ==> parts[i] != [] && Free(parts[i], ':')
    ensures NoDouble(Join(parts, ":"))
    ensures Join(parts, ":") == [] <==> parts == []
    ensures Join(parts, ":") != [] ==> Join(parts, ":")[0] != ':'
    ensures Join(parts, ":") != [] ==> Join(parts, ":")[|Join(parts, ":")| - 1] != ':'
  {
    if |parts| > 1 {
      JoinNoDouble(parts[1..]);
      var a, b := parts[0], Join(parts[1..], ":");
      var j := Join(parts, ":");
      assert j == a + ":" + b;
      forall k | 0 <= k < |j| - 1 ensures !(j[k] == ':' && j[k + 1] == ':') {
        if k < |a| - 1 {
        } else if k == |a| - 1 {
          assert j[k] == a[|a| - 1];
        } else if k == |a| {
          assert j[k + 1] == b[0];
        } else {
          assert j[k] == b[k - |a| - 1] && j[k + 1] == b[k - |a|];
        }
      }
    }
  }

  lemma NoDoubleFind(s: string)
    requires NoDouble(s)
    ensures FindDouble(s) == None && CountDouble(s) == 0
  {
  }

  /** In a + "::" + b where a has no "::" and does not end in ':', the first "::" is the
      one in the middle. */
  lemma {:induction false} FindDoubleMiddle(a: string, b: string)
    requires NoDouble(a)
    requires a != [] ==> a[|a| - 1] != ':'
    ensures FindDouble(a + "::" + b) == Some(|a|)
    decreases |a|
  {
    var s := a + "::" + b;
    if a == [] {
    } else {
      assert s[1..] == a[1..] + "::" + b;
      if |a| == 1 {
        assert s[0] == a[0] && s[1] == ':';
      } else {
        assert s[0] == a[0] && s[1] == a[1];
      }
      FindDoubleMiddle(a[1..], b);
    }
  }

  // ---------------------------------------------------------------- lower case

  function LowerChar(c: char): char
  {
    if 'A' <= c <= 'Z' then (c as int + 32) as char else c
  }

  /** Python 2 str.lower() on ASCII text. */
  function Lower(s: string): (r: string)
    ensures |r| == |s|
    ensures forall i :: 0 <= i < |s| ==> r[i] == LowerChar(s[i])
  {
    seq(|s|, i requires 0 <= i < |s| => LowerChar(s[i]))
  }

  lemma LowerIdempotent(s: string)
    ensures Lower(Lower(s)) == Lower(s)
  {
  }
}
