/** Python's bitwise `|`, `&` and `~` on unbounded integers, which behave as if each
    integer were written in two's complement with infinitely many sign bits. */
module Bitwise {
  import opened Common

  /** Bit i of a natural number. */
  function NBit(x: nat, i: nat): bool
  {
    if i == 0 then x % 2 == 1 else NBit(x / 2, i - 1)
  }

  /** Bit i of an integer in two's complement: a negative x has the bits of ~x flipped. */
  function IBit(x: int, i: nat): bool
  {
    if x >= 0 then NBit(x, i) else !NBit(-x - 1, i)
  }

  function NatOr(a: nat, b: nat): nat
    decreases a + b
  {
    if a == 0 then b
    else if b == 0 then a
    else 2 * NatOr(a / 2, b / 2) + (if a % 2 == 1 || b % 2 == 1 then 1 else 0)
  }

  function NatAnd(a: nat, b: nat): nat
    decreases a + b
  {
    if a == 0 || b == 0 then 0
    else 2 * NatAnd(a / 2, b / 2) + (if a % 2 == 1 && b % 2 == 1 then 1 else 0)
  }

  /** The bits of a that are not bits of b. */
  function NatAndNot(a: nat, b: nat): nat
    decreases a + b
  {
    if a == 0 then 0
    else if b == 0 then a
    else 2 * NatAndNot(a / 2, b / 2) + (if a % 2 == 1 && b % 2 == 0 then 1 else 0)
  }

  /** Python's ~x. */
  function Not(x: int): int
  {
    -x - 1
  }

  /** Python's a | b. */
  function Or(a: int, b: int): int
  {
    if a >= 0 && b >= 0 then NatOr(a, b)
    else if a < 0 && b < 0 then Not(NatAnd(-a - 1, -b - 1))
    else if a < 0 then Not(NatAndNot(-a - 1, b))
    else Not(NatAndNot(-b - 1, a))
  }

  /** Python's a & b. */
  function And(a: int, b: int): int
  {
    if a >= 0 && b >= 0 then NatAnd(a, b)
    else if a < 0 && b < 0 then Not(NatOr(-a - 1, -b - 1))
    else if a < 0 then NatAndNot(b, -a - 1)
    else NatAndNot(a, -b - 1)
  }

  lemma {:induction false} NBitZero(i: nat)
    ensures !NBit(0, i)
  {
    if i > 0 {
      NBitZero(i - 1);
    }
  }

  lemma {:induction false} NatOrBit(a: nat, b: nat, i: nat)
    ensures NBit(NatOr(a, b), i) == (NBit(a, i) || NBit(b, i))
    decreases i
  {
    NBitZero(i);
    if a != 0 && b != 0 && i > 0 {
      NatOrBit(a / 2, b / 2, i - 1);
    }
  }

  lemma {:induction false} NatAndBit(a: nat, b: nat, i: nat)
    ensures NBit(NatAnd(a, b), i) == (NBit(a, i) && NBit(b, i))
    decreases i
  {
    NBitZero(i);
    if a != 0 && b != 0 && i > 0 {
      NatAndBit(a / 2, b / 2, i - 1);
    }
  }

  lemma {:induction false} NatAndNotBit(a: nat, b: nat, i: nat)
    ensures NBit(NatAndNot(a, b), i) == (NBit(a, i) && !NBit(b, i))
    decreases i
  {
    NBitZero(i);
    if a != 0 && b != 0 && i > 0 {
      NatAndNotBit(a / 2, b / 2, i - 1);
    }
  }

  /** Or is the bitwise or of two's complement bits. */
  lemma OrBit(a: int, b: int, i: nat)
    ensures IBit(Or(a, b), i) == (IBit(a, i) || IBit(b, i))
  {
    if a >= 0 && b >= 0 {
      NatOrBit(a, b, i);
    } else if a < 0 && b < 0 {
      NatAndBit(-a - 1, -b - 1, i);
    } else if a < 0 {
      NatAndNotBit(-a - 1, b, i);
    } else {
      NatAndNotBit(-b - 1, a, i);
    }
  }

  /** And is the bitwise and of two's complement bits. */
  lemma AndBit(a: int, b: int, i: nat)
    ensures IBit(And(a, b), i) == (IBit(a, i) && IBit(b, i))
  {
    if a >= 0 && b >= 0 {
      NatAndBit(a, b, i);
    } else if a < 0 && b < 0 {
      NatOrBit(-a - 1, -b - 1, i);
    } else if a < 0 {
      NatAndNotBit(b, -a - 1, i);
    } else {
      NatAndNotBit(a, -b - 1, i);
    }
  }

  /** Not flips every bit. */
  lemma NotBit(x: int, i: nat)
    ensures IBit(Not(x), i) == !IBit(x, i)
  {
  }

  /** 2^k has exactly one bit set: bit k. */
  lemma {:induction false} Pow2Bit(k: nat, i: nat)
    ensures NBit(Pow2(k), i) == (i == k)
    decreases k
  {
    if k == 0 {
      if i > 0 {
        NBitZero(i - 1);
      }
    } else if i > 0 {
      Pow2Bit(k - 1, i - 1);
    }
  }

  /** A natural number all of whose bits are clear is 0. */
  lemma {:induction false} NoBitsIsZero(x: nat, n: nat)
    requires x < Pow2(n)
    requires forall i :: 0 <= i < n ==> !NBit(x, i)
    ensures x == 0
    decreases n
  {
    if n > 0 {
      assert !NBit(x, 0);
      forall i | 0 <= i < n - 1 ensures !NBit(x / 2, i) {
        assert NBit(x, i + 1) == NBit(x / 2, i);
      }
      NoBitsIsZero(x / 2, n - 1);
    }
  }

  /** Masking with 2^k keeps bit k alone: the result is 2^k when bit k is set, else 0. */
  lemma {:induction false} NatAndPow2(a: nat, k: nat)
    ensures NatAnd(a, Pow2(k)) == if NBit(a, k) then Pow2(k) else 0
    decreases k
  {
    if k > 0 {
      if a == 0 {
        NBitZero(k);
      } else {
        NatAndPow2(a / 2, k - 1);
        assert Pow2(k) / 2 == Pow2(k - 1);
      }
    }
  }

  /** `x & 2^k` is non-zero exactly when bit k of x is set, for any sign of x. */
  lemma AndPow2NonZero(x: int, k: nat)
    ensures (And(x, Pow2(k)) != 0) == IBit(x, k)
  {
    if x >= 0 {
      NatAndPow2(x, k);
    } else {
      var m := And(x, Pow2(k));
      assert m == NatAndNot(Pow2(k), -x - 1);
      if IBit(x, k) {
        AndBit(x, Pow2(k), k);
        Pow2Bit(k, k);
        if m == 0 {
          NBitZero(k);
        }
      } else {
        forall i | 0 <= i < k + 1 ensures !NBit(m, i) {
          AndBit(x, Pow2(k), i);
          Pow2Bit(k, i);
        }
        NatAndNotBound(Pow2(k), -x - 1);
        assert Pow2(k + 1) == 2 * Pow2(k);
        NoBitsIsZero(m, k + 1);
      }
    }
  }

  lemma {:induction false} NatAndNotBound(a: nat, b: nat)
    ensures NatAndNot(a, b) <= a
    decreases a + b
  {
    if a != 0 && b != 0 {
      NatAndNotBound(a / 2, b / 2);
    }
  }

  // ---------------------------------------------------------------- flag tables

  /** The names of a (value, name) table whose value shares a bit with flags
      (`if flags & value`), in table order. */
  function SetNames(table: seq<(int, string)>, flags: int): seq<string>
  {
    if table == [] then []
    else
      var last := table[|table| - 1];
      SetNames(table[..|table| - 1], flags) + (if And(flags, last.0) != 0 then [last.1] else [])
  }

  /** A name is listed exactly when an entry of that name shares a bit with flags. */
  lemma {:induction false} SetNamesMembers(table: seq<(int, string)>, flags: int)
    ensures forall x :: x in SetNames(table, flags) <==>
              exists k :: 0 <= k < |table| && table[k].1 == x && And(flags, table[k].0) != 0
    decreases |table|
  {
    if table != [] {
      var init := table[..|table| - 1];
      SetNamesMembers(init, flags);
      forall x | x in SetNames(table, flags)
        ensures exists k :: 0 <= k < |table| && table[k].1 == x && And(flags, table[k].0) != 0
      {
        if x in SetNames(init, flags) {
          var k :| 0 <= k < |init| && init[k].1 == x && And(flags, init[k].0) != 0;
          assert table[k] == init[k];
        }
      }
      forall x | exists k :: 0 <= k < |table| && table[k].1 == x && And(flags, table[k].0) != 0
        ensures x in SetNames(table, flags)
      {
        var k :| 0 <= k < |table| && table[k].1 == x && And(flags, table[k].0) != 0;
        if k < |init| {
          assert init[k] == table[k];
        }
      }
    }
  }

  /** The names come in table order: the names of a split table are those of its
      halves, one after the other. */
  lemma {:induction false} SetNamesAppend(t1: seq<(int, string)>, t2: seq<(int, string)>, flags: int)
    ensures SetNames(t1 + t2, flags) == SetNames(t1, flags) + SetNames(t2, flags)
    decreases |t2|
  {
    if t2 != [] {
      assert (t1 + t2)[..|t1 + t2| - 1] == t1 + t2[..|t2| - 1];
      SetNamesAppend(t1, t2[..|t2| - 1], flags);
    } else {
      assert t1 + t2 == t1;
    }
  }

  /** In a table whose names are distinct, an entry's name is listed exactly when its
      value shares a bit with flags. */
  lemma SetNamesListed(table: seq<(int, string)>, flags: int, k: nat)
    requires k < |table|
    requires forall j :: 0 <= j < |table| && j != k ==> table[j].1 != table[k].1
    ensures table[k].1 in SetNames(table, flags) <==> And(flags, table[k].0) != 0
  {
    SetNamesMembers(table, flags);
  }
}
