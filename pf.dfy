/** The pure parts of openbsd/pf.py: the odometer that walks a table specification
    (_flatTreeWalker), the nested dictionaries built from it (_dirmaker, _makeTree),
    anchor names (Anchor.__getitem__), the table description (Table.__repr__) and the
    argument checks of PF.killStates. */
module PacketFilter {
  import opened Common
  import opened Text
  import opened Bitwise
  import opened Addresses
  import opened Masks
  import opened Factories

  // ---------------------------------------------------------------- place vectors

  /** The number of labels in each list: the radix of each place of the odometer. */
  function Radices<T>(labels: seq<seq<T>>): (r: seq<nat>)
    ensures |r| == |labels|
    ensures forall i :: 0 <= i < |labels| ==> r[i] == |labels[i]|
  {
    seq(|labels|, i requires 0 <= i < |labels| => |labels[i]|)
  }

  predicate Positive(r: seq<nat>)
  {
    forall i :: 0 <= i < |r| ==> r[i] > 0
  }

  /** The number of combinations: the product of the radices. */
  function Total(r: seq<nat>): nat
  {
    if r == [] then 1 else Total(r[..|r| - 1]) * r[|r| - 1]
  }

  /** A place vector: one index below its radix for each place. */
  predicate ValidPlace(p: seq<nat>, r: seq<nat>)
  {
    |p| == |r| && forall i :: 0 <= i < |p| ==> p[i] < r[i]
  }

  /** The vector p followed by each index below l in turn. */
  function Column(p: seq<nat>, l: nat): (c: seq<seq<nat>>)
    ensures |c| == l
    ensures forall j :: 0 <= j < l ==> c[j] == p + [j]
  {
    seq(l, j requires 0 <= j < l => p + [j])
  }

  /** Each vector of ps, in order, followed by each index below l. */
  function Extend(ps: seq<seq<nat>>, l: nat): seq<seq<nat>>
    decreases |ps|
  {
    if ps == [] then [] else Column(ps[0], l) + Extend(ps[1..], l)
  }

  /** The place vectors in the order the odometer visits them: the last place varies
      fastest. */
  function Places(r: seq<nat>): seq<seq<nat>>
    decreases |r|
  {
    if r == [] then [[]] else Extend(Places(r[..|r| - 1]), r[|r| - 1])
  }

  /** The odometer's step, places k - 1 down to 0 still to visit: a place at its last
      label wraps to 0 and carries into the place before it; any other place advances
      and the step ends. */
  function IncrAt(p: seq<nat>, r: seq<nat>, k: nat): (q: seq<nat>)
    requires |p| == |r| && k <= |p|
    ensures |q| == |p|
    decreases k
  {
    if k == 0 then p
    else if p[k - 1] + 1 == r[k - 1] then IncrAt(p[k - 1 := 0], r, k - 1)
    else p[k - 1 := p[k - 1] + 1]
  }

  /** One full step of the odometer. */
  function Incr(p: seq<nat>, r: seq<nat>): seq<nat>
    requires |p| == |r|
  {
    IncrAt(p, r, |r|)
  }

  /** Each vector of s is followed by its odometer step. */
  predicate Steps(s: seq<seq<nat>>, r: seq<nat>)
  {
    forall k :: 0 <= k < |s| - 1 ==> |s[k]| == |r| && Incr(s[k], r) == s[k + 1]
  }

  lemma {:induction false} ExtendSize(ps: seq<seq<nat>>, l: nat)
    ensures |Extend(ps, l)| == |ps| * l
    decreases |ps|
  {
    if ps != [] {
      ExtendSize(ps[1..], l);
      assert |ps| * l == (|ps| - 1) * l + l;
    }
  }

  /** There are as many place vectors as the product of the radices. */
  lemma {:induction false} PlacesSize(r: seq<nat>)
    ensures |Places(r)| == Total(r)
    decreases |r|
  {
    if r != [] {
      PlacesSize(r[..|r| - 1]);
      ExtendSize(Places(r[..|r| - 1]), r[|r| - 1]);
    }
  }

  lemma ColumnMembers(p: seq<nat>, l: nat)
    ensures forall x :: x in Column(p, l) <==> |x| > 0 && x[..|x| - 1] == p && x[|x| - 1] < l
  {
    var c := Column(p, l);
    forall x | |x| > 0 && x[..|x| - 1] == p && x[|x| - 1] < l
      ensures x in c
    {
      assert x == p + [x[|x| - 1]];
      assert c[x[|x| - 1]] == x;
    }
    forall x | x in c ensures |x| > 0 && x[..|x| - 1] == p && x[|x| - 1] < l {
      var j :| 0 <= j < l && c[j] == x;
      assert x == p + [j];
    }
  }

  lemma {:induction false} ExtendMembers(ps: seq<seq<nat>>, l: nat)
    ensures forall x :: x in Extend(ps, l) <==> |x| > 0 && x[..|x| - 1] in ps && x[|x| - 1] < l
    decreases |ps|
  {
    if ps != [] {
      ExtendMembers(ps[1..], l);
      ColumnMembers(ps[0], l);
      assert forall y :: y in ps <==> y == ps[0] || y in ps[1..];
    }
  }

  /** A vector is valid for one more place when its front is valid for the front places
      and its last index is below the last radix. */
  lemma ValidPlaceSnoc(x: seq<nat>, r: seq<nat>)
    requires |x| > 0 && |r| > 0
    ensures ValidPlace(x, r) <==> ValidPlace(x[..|x| - 1], r[..|r| - 1]) && x[|x| - 1] < r[|r| - 1]
  {
    var xi, ri := x[..|x| - 1], r[..|r| - 1];
    if ValidPlace(xi, ri) && x[|x| - 1] < r[|r| - 1] {
      forall i | 0 <= i < |x| ensures x[i] < r[i] {
        if i < |xi| {
          assert x[i] == xi[i] && r[i] == ri[i];
        }
      }
    }
    if ValidPlace(x, r) {
      forall i | 0 <= i < |xi| ensures xi[i] < ri[i] {
        assert xi[i] == x[i] && ri[i] == r[i];
      }
    }
  }

  /** The place vectors are exactly the valid ones. */
  lemma {:induction false} PlacesMembers(r: seq<nat>)
    ensures forall x :: x in Places(r) <==> ValidPlace(x, r)
    decreases |r|
  {
    if r != [] {
      var init, l := r[..|r| - 1], r[|r| - 1];
      PlacesMembers(init);
      ExtendMembers(Places(init), l);
      forall x ensures x in Places(r) <==> ValidPlace(x, r) {
        if |x| > 0 {
          ValidPlaceSnoc(x, r);
        }
      }
    }
  }

  lemma DistinctConcat<T>(a: seq<T>, b: seq<T>)
    requires Distinct(a) && Distinct(b)
    requires forall x :: x in a ==> x !in b
    ensures Distinct(a + b)
  {
    forall i, j | 0 <= i < j < |a + b| ensures (a + b)[i] != (a + b)[j] {
      if j >= |a| && i < |a| {
        assert (a + b)[i] in a && (a + b)[j] in b;
      } else if i >= |a| {
        assert (a + b)[i] == b[i - |a|] && (a + b)[j] == b[j - |a|];
      }
    }
  }

  lemma {:induction false} ExtendDistinct(ps: seq<seq<nat>>, l: nat)
    requires Distinct(ps)
    ensures Distinct(Extend(ps, l))
    decreases |ps|
  {
    if ps != [] {
      var c := Column(ps[0], l);
      ExtendDistinct(ps[1..], l);
      ExtendMembers(ps[1..], l);
      forall i, j | 0 <= i < j < |c| ensures c[i] != c[j] {
        assert c[i][|ps[0]|] == i && c[j][|ps[0]|] == j;
      }
      forall x | x in c ensures x !in Extend(ps[1..], l) {
        var j :| 0 <= j < l && c[j] == x;
        assert x[..|x| - 1] == ps[0];
        assert ps[0] !in ps[1..];
      }
      DistinctConcat(c, Extend(ps[1..], l));
    }
  }

  /** The odometer never visits a place vector twice. */
  lemma {:induction false} PlacesDistinct(r: seq<nat>)
    ensures Distinct(Places(r))
    decreases |r|
  {
    if r != [] {
      PlacesDistinct(r[..|r| - 1]);
      ExtendDistinct(Places(r[..|r| - 1]), r[|r| - 1]);
    }
  }

  lemma {:induction false} IncrAtSuffix(q: seq<nat>, s: seq<nat>, r: seq<nat>, k: nat)
    requires |q| + |s| == |r| && k <= |q|
    ensures IncrAt(q + s, r, k) == IncrAt(q, r[..|q|], k) + s
    decreases k
  {
    if k > 0 && q[k - 1] + 1 == r[k - 1] {
      assert (q + s)[k - 1 := 0] == q[k - 1 := 0] + s;
      IncrAtSuffix(q[k - 1 := 0], s, r, k - 1);
    } else if k > 0 {
      assert (q + s)[k - 1 := q[k - 1] + 1] == q[k - 1 := q[k - 1] + 1] + s;
    }
  }

  /** Stepping a vector with one more place: the new last place advances, or wraps and
      carries into the rest. */
  lemma IncrLast(q: seq<nat>, j: nat, init: seq<nat>, l: nat)
    requires |q| == |init|
    ensures Incr(q + [j], init + [l]) == if j + 1 == l then Incr(q, init) + [0] else q + [j + 1]
  {
    var r := init + [l];
    assert r[..|q|] == init;
    if j + 1 == l {
      assert (q + [j])[|q| := 0] == q + [0];
      IncrAtSuffix(q, [0], r, |q|);
    } else {
      assert (q + [j])[|q| := j + 1] == q + [j + 1];
    }
  }

  lemma StepsConcat(a: seq<seq<nat>>, b: seq<seq<nat>>, r: seq<nat>)
    requires Steps(a, r) && Steps(b, r) && a != [] && b != []
    requires |a[|a| - 1]| == |r| && Incr(a[|a| - 1], r) == b[0]
    ensures Steps(a + b, r)
  {
    forall k | 0 <= k < |a + b| - 1 ensures |(a + b)[k]| == |r| && Incr((a + b)[k], r) == (a + b)[k + 1] {
      if k < |a| - 1 {
        assert (a + b)[k] == a[k] && (a + b)[k + 1] == a[k + 1];
      } else if k == |a| - 1 {
        assert (a + b)[k] == a[k] && (a + b)[k + 1] == b[0];
      } else {
        assert (a + b)[k] == b[k - |a|] && (a + b)[k + 1] == b[k - |a| + 1];
      }
    }
  }

  lemma ColumnSteps(p: seq<nat>, init: seq<nat>, l: nat)
    requires |p| == |init|
    ensures Steps(Column(p, l), init + [l])
  {
    forall k | 0 <= k < l - 1 ensures Incr(p + [k], init + [l]) == p + [k + 1] {
      IncrLast(p, k, init, l);
    }
  }

  lemma {:induction false} ExtendSteps(ps: seq<seq<nat>>, init: seq<nat>, l: nat)
    requires l > 0 && Steps(ps, init)
    requires forall x :: x in ps ==> |x| == |init|
    ensures Steps(Extend(ps, l), init + [l])
    ensures ps != [] ==> Extend(ps, l) != [] && Extend(ps, l)[0] == ps[0] + [0]
    ensures ps != [] ==> Extend(ps, l)[|Extend(ps, l)| - 1] == ps[|ps| - 1] + [l - 1]
    decreases |ps|
  {
    if ps != [] {
      var c, rest := Column(ps[0], l), Extend(ps[1..], l);
      ColumnSteps(ps[0], init, l);
      assert Steps(ps[1..], init) by {
        forall k | 0 <= k < |ps[1..]| - 1 ensures Incr(ps[1..][k], init) == ps[1..][k + 1] {
          assert ps[1..][k] == ps[k + 1] && ps[1..][k + 1] == ps[k + 2];
        }
      }
      ExtendSteps(ps[1..], init, l);
      if ps[1..] == [] {
        assert c + rest == c;
      } else {
        IncrLast(ps[0], l - 1, init, l);
        assert ps[1..][0] == ps[1];
        StepsConcat(c, rest, init + [l]);
        assert ps[1..][|ps[1..]| - 1] == ps[|ps| - 1];
      }
    }
  }

  /** The odometer's order: it starts at all zeros, each step leads to the next place
      vector, and the step from the last one wraps back to all zeros. */
  lemma {:induction false} PlacesSteps(r: seq<nat>)
    requires Positive(r)
    ensures Places(r) != [] && Places(r)[0] == Repeat<nat>(0, |r|)
    ensures Steps(Places(r), r)
    ensures |Places(r)[|Places(r)| - 1]| == |r| && Incr(Places(r)[|Places(r)| - 1], r) == Repeat<nat>(0, |r|)
    decreases |r|
  {
    if r != [] {
      var init, l := r[..|r| - 1], r[|r| - 1];
      var ps := Places(init);
      assert r == init + [l];
      PlacesSteps(init);
      PlacesMembers(init);
      ExtendSteps(ps, init, l);
      IncrLast(ps[|ps| - 1], l - 1, init, l);
      assert Repeat<nat>(0, |init|) + [0] == Repeat<nat>(0, |r|);
    }
  }

  // ---------------------------------------------------------------- _flatTreeWalker

  /** The labels a place vector picks: `[j[i] for (i, j) in zip(place, labels)]`. */
  function Select<T>(labels: seq<seq<T>>, p: seq<nat>): (s: seq<T>)
    requires ValidPlace(p, Radices(labels))
    ensures |s| == |labels|
    ensures forall i :: 0 <= i < |labels| ==> s[i] == labels[i][p[i]]
  {
    seq(|labels|, i requires 0 <= i < |labels| => labels[i][p[i]])
  }

  /** The labels picked by each place vector, in the odometer's order. */
  function Product<T>(labels: seq<seq<T>>): seq<seq<T>>
  {
    var ps := Places(Radices(labels));
    PlacesMembers(Radices(labels));
    seq(|ps|, k requires 0 <= k < |ps| => Select(labels, ps[k]))
  }

  /** With no empty list there are prod(|labels[i]|) combinations, every choice of one
      label from each list among them, the first picking the first label of each. */
  lemma ProductSpec<T>(labels: seq<seq<T>>)
    requires Positive(Radices(labels))
    ensures |Product(labels)| == Total(Radices(labels))
    ensures forall p :: ValidPlace(p, Radices(labels)) ==> Select(labels, p) in Product(labels)
    ensures Product(labels) != [] && Product(labels)[0] == seq(|labels|, i requires 0 <= i < |labels| => labels[i][0])
  {
    var r := Radices(labels);
    var ps := Places(r);
    PlacesSize(r);
    PlacesMembers(r);
    PlacesSteps(r);
    forall p | ValidPlace(p, r) ensures Select(labels, p) in Product(labels) {
      var k :| 0 <= k < |ps| && ps[k] == p;
      assert Product(labels)[k] == Select(labels, p);
    }
  }

  /** When no list repeats a label, no combination is produced twice. */
  lemma ProductDistinct<T>(labels: seq<seq<T>>)
    requires forall i, a, b :: 0 <= i < |labels| && 0 <= a < b < |labels[i]| ==> labels[i][a] != labels[i][b]
    ensures Distinct(Product(labels))
  {
    var r := Radices(labels);
    var ps := Places(r);
    PlacesMembers(r);
    PlacesDistinct(r);
    forall n, k | 0 <= n < k < |ps| ensures Product(labels)[n] != Product(labels)[k] {
      assert ps[n] in ps && ps[k] in ps;
      assert |ps[n]| == |labels| == |ps[k]| && ps[n] != ps[k];
      var i :| 0 <= i < |labels| && ps[n][i] != ps[k][i];
      assert Select(labels, ps[n])[i] != Select(labels, ps[k])[i];
    }
  }

  /** _flatTreeWalker(*labels), with the yielded combinations collected in order. The
      first yield indexes every list at 0, so an empty list raises IndexError before
      anything is yielded. */
  method FlatTreeWalker<T>(labels: seq<seq<T>>) returns (r: Result<seq<seq<T>>>)
    ensures (exists i :: 0 <= i < |labels| && labels[i] == []) ==> r == Err(IndexError)
    ensures (forall i :: 0 <= i < |labels| ==> labels[i] != []) ==> r == Ok(Product(labels))
  {
    if exists i :: 0 <= i < |labels| && labels[i] == [] {
      return Err(IndexError);
    }
    ghost var rad := Radices(labels);
    ghost var ps := Places(rad);
    PlacesSteps(rad);
    var zeros := Repeat<nat>(0, |labels|);
    var place := zeros;
    var paths: seq<seq<T>> := [];
    ghost var n: nat := 0;
    while true
      invariant n < |ps| && place == ps[n]
      invariant paths == Product(labels)[..n]
      decreases |ps| - n
    {
      WalkerStep(labels, n);
      PrefixSnoc(Product(labels), n);
      paths := paths + [Select(labels, place)];
      place := Advance(labels, place);
      if place == zeros {
        assert Product(labels)[..n + 1] == Product(labels);
        return Ok(paths);
      }
      n := n + 1;
    }
  }

  /** The walker's inner loop: from the last place backwards, a place at its list's
      last label wraps to 0 and the loop goes on; any other place advances and the loop
      breaks. */
  method Advance<T>(labels: seq<seq<T>>, place: seq<nat>) returns (next: seq<nat>)
    requires |place| == |labels|
    ensures next == Incr(place, Radices(labels))
  {
    ghost var rad := Radices(labels);
    next := place;
    var i := |next| - 1;
    var done := false;
    while i >= 0 && !done
      invariant -1 <= i < |next| && |next| == |rad|
      invariant !done ==> IncrAt(next, rad, i + 1) == Incr(place, rad)
      invariant done ==> next == Incr(place, rad)
      decreases i + 1, if done then 0 else 1
    {
      if next[i] + 1 == |labels[i]| {
        next := next[i := 0];
        i := i - 1;
      } else {
        next := next[i := next[i] + 1];
        done := true;
      }
    }
  }

  lemma PrefixSnoc<T>(s: seq<T>, n: nat)
    requires n < |s|
    ensures s[..n + 1] == s[..n] + [s[n]]
  {
  }

  /** What one pass of the walker's loop relies on: the n-th combination is the
      selection of the n-th place vector, and the step from it leads to the next place
      vector, which is not all zeros, or from the last one back to all zeros. */
  lemma WalkerStep<T>(labels: seq<seq<T>>, n: nat)
    requires Positive(Radices(labels)) && n < |Places(Radices(labels))|
    ensures var r, ps := Radices(labels), Places(Radices(labels));
            && ValidPlace(ps[n], r) && |Product(labels)| == |ps| && Product(labels)[n] == Select(labels, ps[n])
            && (n + 1 < |ps| ==> Incr(ps[n], r) == ps[n + 1] && ps[n + 1] != Repeat<nat>(0, |labels|))
            && (n + 1 == |ps| ==> Incr(ps[n], r) == Repeat<nat>(0, |labels|))
  {
    var r, ps := Radices(labels), Places(Radices(labels));
    PlacesSteps(r);
    PlacesDistinct(r);
    PlacesMembers(r);
    assert ps[n] in ps;
  }

  /** Two places of radix 2, visited as a two-digit binary counter. */
  lemma PlacesExample()
    ensures Places([2, 2]) == [[0, 0], [0, 1], [1, 0], [1, 1]]
  {
    assert [2, 2][..1] == [2] && [2][..0] == [];
    assert Places([2]) == [[0], [1]] by {
      assert Places([2]) == Extend([[]], 2);
      var e: seq<seq<nat>> := [[]];
      assert e[1..] == [];
      assert Extend([[]], 2) == Column([], 2);
      var c := Column([], 2);
      assert c[0] == [0] && c[1] == [1];
    }
    var ps := Places([2, 2]);
    assert ps == Extend([[0], [1]], 2);
    assert [[0], [1]][1..] == [[1]] && [[1]][1..] == [];
    assert Extend([[1]], 2) == Column([1], 2);
    var c0, c1 := Column([0], 2), Column([1], 2);
    assert c0[0] == [0, 0] && c0[1] == [0, 1] && c1[0] == [1, 0] && c1[1] == [1, 1];
    assert c0 == [[0, 0], [0, 1]] && c1 == [[1, 0], [1, 1]];
  }

  /** The source's example: two lists of two labels give four combinations. */
  lemma WalkerExample()
    ensures Product([["a", "b"], ["c", "d"]]) == [["a", "c"], ["a", "d"], ["b", "c"], ["b", "d"]]
  {
    var labels := [["a", "b"], ["c", "d"]];
    assert Radices(labels) == [2, 2];
    PlacesExample();
    SelectExample();
    var pr := Product(labels);
    assert |pr| == 4;
    assert pr[0] == Select(labels, [0, 0]) && pr[1] == Select(labels, [0, 1]);
    assert pr[2] == Select(labels, [1, 0]) && pr[3] == Select(labels, [1, 1]);
  }

  lemma SelectExample()
    ensures Radices([["a", "b"], ["c", "d"]]) == [2, 2]
    ensures Select([["a", "b"], ["c", "d"]], [0, 0]) == ["a", "c"] && Select([["a", "b"], ["c", "d"]], [0, 1]) == ["a", "d"]
    ensures Select([["a", "b"], ["c", "d"]], [1, 0]) == ["b", "c"] && Select([["a", "b"], ["c", "d"]], [1, 1]) == ["b", "d"]
  {
    assert Radices([["a", "b"], ["c", "d"]]) == [2, 2];
  }

  // ---------------------------------------------------------------- _dirmaker, _makeTree

  /** A nested dictionary: a value at a leaf, or a dictionary of subtrees. */
  datatype Tree<K, V> = Leaf(value: V) | Dict(entries: map<K, Tree<K, V>>)

  /** The value at the end of a key path, if the path leads through dictionaries to one. */
  function Lookup<K, V>(m: map<K, Tree<K, V>>, q: seq<K>): Option<V>
    decreases |q|
  {
    if q == [] || q[0] !in m then None
    else match m[q[0]]
      case Leaf(v) => if |q| == 1 then Some(v) else None
      case Dict(c) => Lookup(c, q[1..])
  }

  /** _dirmaker(dct, value, *path): each key but the last is looked up with setdefault,
      making an empty dictionary when missing, and the last key is set to value. No key
      is an IndexError; a value met where a dictionary is needed is an AttributeError
      (setdefault on it) or a TypeError (item assignment on it). */
  function Put<K, V>(m: map<K, Tree<K, V>>, path: seq<K>, v: V): Result<map<K, Tree<K, V>>>
    decreases |path|
  {
    if path == [] then Err(IndexError)
    else if |path| == 1 then Ok(m[path[0] := Leaf(v)])
    else
      var child := if path[0] in m then m[path[0]] else Dict(map[]);
      match child
      case Leaf(_) => Err(if |path| == 2 then TypeError else AttributeError)
      case Dict(c) =>
        var c' :- Put(c, path[1..], v);
        Ok(m[path[0] := Dict(c')])
  }

  /** Setting a path succeeds exactly when the path is not empty and no shorter part of
      it already ends at a value. */
  lemma {:induction false} PutSucceeds<K, V>(m: map<K, Tree<K, V>>, path: seq<K>, v: V)
    ensures Put(m, path, v).Ok? <==> path != [] && forall j :: 1 <= j < |path| ==> Lookup(m, path[..j]).None?
    decreases |path|
  {
    if |path| >= 2 {
      var child := if path[0] in m then m[path[0]] else Dict(map[]);
      assert path[..1] == [path[0]];
      if child.Dict? {
        var c := child.entries;
        PutSucceeds(c, path[1..], v);
        forall j | 2 <= j < |path| ensures Lookup(m, path[..j]) == Lookup(c, path[1..][..j - 1]) {
          assert path[..j][1..] == path[1..][..j - 1];
          if path[0] !in m {
            assert Lookup(c, path[1..][..j - 1]) == None;
          }
        }
        if Put(m, path, v).Ok? {
          forall j | 1 <= j < |path| ensures Lookup(m, path[..j]).None? {
            if j >= 2 {
              assert Lookup(c, path[1..][..j - 1]).None?;
            }
          }
        } else if forall j :: 1 <= j < |path| ==> Lookup(m, path[..j]).None? {
          forall j | 1 <= j < |path| - 1 ensures Lookup(c, path[1..][..j]).None? {
            assert Lookup(m, path[..j + 1]).None?;
          }
        }
      } else {
        assert Lookup(m, path[..1]).Some?;
      }
    }
  }

  /** After a successful set, the path holds the value, paths through it hold nothing,
      and every other path is as it was: siblings are untouched. */
  lemma {:induction false} PutLookup<K, V>(m: map<K, Tree<K, V>>, path: seq<K>, v: V, q: seq<K>)
    requires Put(m, path, v).Ok?
    ensures Lookup(Put(m, path, v).value, path) == Some(v)
    ensures |path| < |q| && q[..|path|] == path ==> Lookup(Put(m, path, v).value, q) == None
    ensures !(|path| <= |q| && q[..|path|] == path) ==> Lookup(Put(m, path, v).value, q) == Lookup(m, q)
    decreases |path|
  {
    var m' := Put(m, path, v).value;
    if |path| >= 2 {
      var child := if path[0] in m then m[path[0]] else Dict(map[]);
      var c := child.entries;
      var c' := Put(c, path[1..], v).value;
      if q != [] && q[0] == path[0] {
        PutLookup(c, path[1..], v, q[1..]);
        assert |path| <= |q| ==> q[..|path|] == [q[0]] + q[1..][..|path| - 1];
        if path[0] !in m {
          LookupEmpty<K, V>(q[1..]);
        }
      }
      PutLookup(c, path[1..], v, path[1..]);
    }
  }

  lemma LookupEmpty<K, V>(q: seq<K>)
    ensures Lookup<K, V>(map[], q) == None
  {
  }

  /** Every value of the dictionary sits at the end of a path of length d. */
  ghost predicate Uniform<K(!new), V>(m: map<K, Tree<K, V>>, d: nat)
  {
    forall q :: Lookup(m, q).Some? ==> |q| == d
  }

  /** Values at paths of equal length never block each other. */
  lemma PutUniform<K(!new), V>(m: map<K, Tree<K, V>>, path: seq<K>, v: V)
    requires |path| >= 1 && Uniform(m, |path|)
    ensures Put(m, path, v).Ok? && Uniform(Put(m, path, v).value, |path|)
  {
    PutSucceeds(m, path, v);
    forall q | Lookup(Put(m, path, v).value, q).Some? ensures |q| == |path| {
      PutLookup(m, path, v, q);
    }
  }

  /** The dictionary after `_dirmaker(dct, values[i], *paths[i])` for each i in turn;
      a missing value is an IndexError. */
  function Puts<K, V>(paths: seq<seq<K>>, values: seq<V>): Result<map<K, Tree<K, V>>>
  {
    if paths == [] then Ok(map[])
    else
      var m :- Puts(paths[..|paths| - 1], values);
      if |paths| - 1 >= |values| then Err(IndexError)
      else Put(m, paths[|paths| - 1], values[|paths| - 1])
  }

  /** Paths of one length d >= 1, with a value for each, never block each other. */
  lemma {:induction false} PutsUniform<K(!new), V>(paths: seq<seq<K>>, values: seq<V>, d: nat)
    requires d >= 1 && |values| >= |paths|
    requires forall n :: 0 <= n < |paths| ==> |paths[n]| == d
    ensures Puts(paths, values).Ok? && Uniform(Puts(paths, values).value, d)
    decreases |paths|
  {
    if paths != [] {
      PutsUniform(paths[..|paths| - 1], values, d);
      PutUniform(Puts(paths[..|paths| - 1], values).value, paths[|paths| - 1], values[|paths| - 1]);
    }
  }

  /** Distinct paths of one length d >= 1, with a value for each, all end up in the
      dictionary with their own value. */
  lemma {:induction false} PutsLookup<K(!new), V>(paths: seq<seq<K>>, values: seq<V>, d: nat)
    requires d >= 1 && |values| >= |paths|
    requires forall n :: 0 <= n < |paths| ==> |paths[n]| == d
    requires Distinct(paths)
    ensures Puts(paths, values).Ok?
    ensures forall n :: 0 <= n < |paths| ==> Lookup(Puts(paths, values).value, paths[n]) == Some(values[n])
    decreases |paths|
  {
    PutsUniform(paths, values, d);
    if paths != [] {
      var init, last := paths[..|paths| - 1], paths[|paths| - 1];
      PutsLookup(init, values, d);
      var m := Puts(init, values).value;
      forall n | 0 <= n < |paths| ensures Lookup(Puts(paths, values).value, paths[n]) == Some(values[n]) {
        PutLookup(m, last, values[|paths| - 1], paths[n]);
        if n < |init| {
          assert init[n] == paths[n];
          assert paths[n][..d] == paths[n];
        }
      }
    }
  }

  /** What _makeTree(values, *labels) returns or raises. */
  function TreeOf<K, V>(values: seq<V>, labels: seq<seq<K>>): Result<map<K, Tree<K, V>>>
  {
    if exists i :: 0 <= i < |labels| && labels[i] == [] then Err(IndexError)
    else Puts(Product(labels), values)
  }

  /** _makeTree(values, *labels): the i-th value at the key path of the i-th combination. */
  method MakeTree<K, V>(values: seq<V>, labels: seq<seq<K>>) returns (r: Result<map<K, Tree<K, V>>>)
    ensures r == TreeOf(values, labels)
  {
    var walk := FlatTreeWalker(labels);
    if walk.Err? {
      return Err(walk.error);
    }
    r := PutAll(walk.value, values);
  }

  /** The loop of _makeTree: `_dirmaker(dct, values[i], *labs)` for each path in turn. */
  method PutAll<K, V>(paths: seq<seq<K>>, values: seq<V>) returns (r: Result<map<K, Tree<K, V>>>)
    ensures r == Puts(paths, values)
  {
    var dct: map<K, Tree<K, V>> := map[];
    var i := 0;
    while i < |paths|
      invariant 0 <= i <= |paths|
      invariant Puts(paths[..i], values) == Ok(dct)
    {
      assert paths[..i + 1][..i] == paths[..i];
      if i >= |values| {
        PutsStops(paths, values, i + 1);
        return Err(IndexError);
      }
      var next := Put(dct, paths[i], values[i]);
      if next.Err? {
        PutsStops(paths, values, i + 1);
        return Err(next.error);
      }
      dct := next.value;
      i := i + 1;
    }
    assert paths[..i] == paths;
    r := Ok(dct);
  }

  lemma {:induction false} PutsStops<K, V>(paths: seq<seq<K>>, values: seq<V>, k: nat)
    requires k <= |paths| && Puts(paths[..k], values).Err?
    ensures Puts(paths, values) == Puts(paths[..k], values)
    decreases |paths| - k
  {
    if k < |paths| {
      assert paths[..k + 1][..k] == paths[..k];
      PutsStops(paths, values, k + 1);
    } else {
      assert paths[..k] == paths;
    }
  }

  /** _makeTree builds a complete tree: with one or more lists, none empty, none repeating
      a label, and a value for every combination, the n-th value sits at the n-th
      combination's path. Too few values raise IndexError. */
  lemma MakeTreeSpec<K(!new), V>(values: seq<V>, labels: seq<seq<K>>)
    requires |labels| >= 1 && forall i :: 0 <= i < |labels| ==> labels[i] != []
    requires forall i, a, b :: 0 <= i < |labels| && 0 <= a < b < |labels[i]| ==> labels[i][a] != labels[i][b]
    ensures |values| >= Total(Radices(labels)) ==>
              && TreeOf(values, labels).Ok?
              && |Product(labels)| == Total(Radices(labels))
              && forall n :: 0 <= n < |Product(labels)| ==>
                   Lookup(TreeOf(values, labels).value, Product(labels)[n]) == Some(values[n])
    ensures |values| < Total(Radices(labels)) ==> TreeOf(values, labels) == Err(IndexError)
  {
    assert Positive(Radices(labels));
    ProductSpec(labels);
    var paths := Product(labels);
    PlacesMembers(Radices(labels));
    assert forall n :: 0 <= n < |paths| ==> |paths[n]| == |labels|;
    if |values| >= |paths| {
      ProductDistinct(labels);
      PutsLookup(paths, values, |labels|);
    } else {
      PutsShort(paths, values, |labels|);
    }
  }

  /** Puts with fewer values than paths of one length raises IndexError. */
  lemma {:induction false} PutsShort<K(!new), V>(paths: seq<seq<K>>, values: seq<V>, d: nat)
    requires d >= 1 && |values| < |paths|
    requires forall n :: 0 <= n < |paths| ==> |paths[n]| == d
    ensures Puts(paths, values) == Err(IndexError)
    decreases |paths|
  {
    var init := paths[..|paths| - 1];
    if |values| < |init| {
      PutsShort(init, values, d);
    } else {
      PutsUniform(init, values, d);
    }
  }

  /** Setting the four paths of the example one after the other. */
  lemma PutsExample()
    ensures Puts([["a", "c"], ["a", "d"], ["b", "c"], ["b", "d"]], [1, 2, 3, 4]) ==
              Ok(map["a" := Dict(map["c" := Leaf(1), "d" := Leaf(2)]), "b" := Dict(map["c" := Leaf(3), "d" := Leaf(4)])])
  {
    var paths := [["a", "c"], ["a", "d"], ["b", "c"], ["b", "d"]];
    var values := [1, 2, 3, 4];
    var m1 := map["a" := Dict(map["c" := Leaf(1)])];
    var m2 := map["a" := Dict(map["c" := Leaf(1), "d" := Leaf(2)])];
    var m3 := m2["b" := Dict(map["c" := Leaf(3)])];
    var m4 := map["a" := Dict(map["c" := Leaf(1), "d" := Leaf(2)]), "b" := Dict(map["c" := Leaf(3), "d" := Leaf(4)])];
    assert Puts(paths[..1], values) == Ok(m1) by {
      assert paths[..1][..0] == [];
    }
    assert Puts(paths[..2], values) == Ok(m2) by {
      assert paths[..2][..1] == paths[..1];
      assert ["a", "d"][1..] == ["d"];
      assert Put(map["c" := Leaf(1)], ["d"], 2) == Ok(map["c" := Leaf(1), "d" := Leaf(2)]);
      assert m1["a" := Dict(map["c" := Leaf(1), "d" := Leaf(2)])] == m2;
    }
    assert Puts(paths[..3], values) == Ok(m3) by {
      assert paths[..3][..2] == paths[..2];
    }
    assert Puts(paths, values) == Ok(m4) by {
      assert paths[..4][..3] == paths[..3] && paths[..4] == paths;
      assert ["b", "d"][1..] == ["d"];
      assert Put(map["c" := Leaf(3)], ["d"], 4) == Ok(map["c" := Leaf(3), "d" := Leaf(4)]);
      assert m3["b" := Dict(map["c" := Leaf(3), "d" := Leaf(4)])] == m4;
    }
  }

  /** The source's example: [1, 2, 3, 4] over ["a", "b"] x ["c", "d"] gives
      {'a': {'c': 1, 'd': 2}, 'b': {'c': 3, 'd': 4}}. */
  lemma MakeTreeExample()
    ensures TreeOf([1, 2, 3, 4], [["a", "b"], ["c", "d"]]) ==
              Ok(map["a" := Dict(map["c" := Leaf(1), "d" := Leaf(2)]), "b" := Dict(map["c" := Leaf(3), "d" := Leaf(4)])])
  {
    var labels := [["a", "b"], ["c", "d"]];
    assert forall i :: 0 <= i < |labels| ==> labels[i] != [];
    WalkerExample();
    PutsExample();
  }

  // ---------------------------------------------------------------- Anchor

  /** An anchor, known by its path name ("" for the root). */
  datatype Anchor = Anchor(name: string)

  /** anchor[name]: the child anchor. */
  function Child(a: Anchor, name: string): Anchor
  {
    if a.name != "" then Anchor(a.name + "/" + name) else Anchor(name)
  }

  lemma {:induction false} SplitConcat(x: string, c: char, y: string)
    ensures Split(x + [c] + y, c) == Split(x, c) + Split(y, c)
    decreases |x|
  {
    if x == [] {
      assert (x + [c] + y)[1..] == y;
    } else {
      assert (x + [c] + y)[1..] == x[1..] + [c] + y;
      SplitConcat(x[1..], c, y);
    }
  }

  /** A child's name is its parent's path with the child's own name as the last
      component(s); the root's child is named by the name alone. */
  lemma ChildPath(a: Anchor, name: string)
    ensures a.name == "" ==> Child(a, name).name == name
    ensures a.name != "" ==> Split(Child(a, name).name, '/') == Split(a.name, '/') + Split(name, '/')
  {
    if a.name != "" {
      SplitConcat(a.name, '/', name);
    }
  }

  /** The source's example: Anchor(pf)["foo"]["bar"] is named "foo/bar". */
  lemma AnchorExample()
    ensures Child(Child(Anchor(""), "foo"), "bar").name == "foo/bar"
  {
  }

  // ---------------------------------------------------------------- Table.__repr__

  /** The kernel's table flag constants (PFR_TFLAG_*), in the order the description
      lists them. */
  datatype TableFlagConstants = TableFlagConstants(persist: int, constant: int, active: int, inactive: int, referenced: int)

  function TableFlagTable(c: TableFlagConstants): seq<(int, string)>
  {
    [(c.persist, "PERSIST"), (c.constant, "CONST"), (c.active, "ACTIVE"), (c.inactive, "INACTIVE"), (c.referenced, "REFERENCED")]
  }

  /** Table.__repr__: "table <name>: " and the names of the set flags joined by "|". */
  function TableRepr(name: string, flags: int, c: TableFlagConstants): string
  {
    "table " + name + ": " + Join(SetNames(TableFlagTable(c), flags), "|")
  }

  /** With the OpenBSD values 0x01, 0x02, 0x04, 0x08 and 0x10, the description names
      exactly the flags whose bit is set, in the fixed order. */
  lemma TableReprBits(flags: int)
    ensures var names := SetNames(TableFlagTable(TableFlagConstants(1, 2, 4, 8, 16)), flags);
            && ("PERSIST" in names <==> IBit(flags, 0))
            && ("CONST" in names <==> IBit(flags, 1))
            && ("ACTIVE" in names <==> IBit(flags, 2))
            && ("INACTIVE" in names <==> IBit(flags, 3))
            && ("REFERENCED" in names <==> IBit(flags, 4))
  {
    var t := TableFlagTable(TableFlagConstants(1, 2, 4, 8, 16));
    assert Pow2(0) == 1 && Pow2(1) == 2 && Pow2(2) == 4 && Pow2(3) == 8 && Pow2(4) == 16;
    forall k | 0 <= k < 5 ensures t[k].1 in SetNames(t, flags) <==> IBit(flags, k) {
      assert t[k].0 == Pow2(k);
      SetNamesListed(t, flags, k);
      AndPow2NonZero(flags, k);
    }
    assert t[0].1 == "PERSIST" && t[1].1 == "CONST" && t[2].1 == "ACTIVE" && t[3].1 == "INACTIVE" && t[4].1 == "REFERENCED";
  }

  /** A persistent, active table: "table t: PERSIST|ACTIVE". */
  lemma TableReprExample()
    ensures TableRepr("t", 5, TableFlagConstants(1, 2, 4, 8, 16)) == "table t: PERSIST|ACTIVE"
  {
    var t := TableFlagTable(TableFlagConstants(1, 2, 4, 8, 16));
    assert And(5, 1) == 1 && And(5, 2) == 0 && And(5, 4) == 4 && And(5, 8) == 0 && And(5, 16) == 0;
    assert t[..4][..3][..2][..1][..0] == [];
    assert SetNames(t, 5) == ["PERSIST", "ACTIVE"] by {
      assert SetNames(t[..1], 5) == ["PERSIST"];
      assert t[..2][..1] == t[..1];
      assert SetNames(t[..2], 5) == ["PERSIST"];
      assert t[..3][..2] == t[..2];
      assert SetNames(t[..3], 5) == ["PERSIST", "ACTIVE"];
      assert t[..4][..3] == t[..3];
      assert SetNames(t[..4], 5) == ["PERSIST", "ACTIVE"];
      assert t[..4] == t[..5][..4];
      assert t == t[..5];
    }
  }

  // ---------------------------------------------------------------- PF.killStates

  /** The address family killStates passes on: 0, AF_INET or AF_INET6. */
  datatype Family = Unspecified | AfInet | AfInet6

  /** The arguments killStates hands to the kernel: the family and the converted
      addresses and masks (None where the caller gave nothing). */
  datatype KillArgs = KillArgs(af: Family, src: Option<seq<Byte>>, srcmask: Option<seq<Byte>>,
                               dst: Option<seq<Byte>>, dstmask: Option<seq<Byte>>)

  /** Python truth of an address argument: None and "" are false. */
  predicate AddrGiven(a: Option<AddrArg>)
  {
    a.Some? && !(a.value.AText? && a.value.text == "")
  }

  /** Python truth of a mask argument: None, "" and the prefix length 0 are false. */
  predicate MaskGiven(m: MaskInput)
  {
    match m
    case MaskObj(_) => true
    case MaskOf(MNone) => false
    case MaskOf(MPrefix(p)) => p != 0
    case MaskOf(MText(s)) => s != ""
  }

  /** `if src: src = utils.Address(src).bytes`: a given address becomes its bytes; every
      failure of Address is a ValueError. */
  function ConvertAddress(a: Option<AddrArg>): (r: Result<Option<seq<Byte>>>)
    ensures r.Ok? && r.value.Some? <==> AddrGiven(a) && Address(a.value).Ok?
    ensures r.Ok? && r.value.Some? ==> r.value.value == Address(a.value).value.bytes
    ensures r.Err? ==> r.error == ValueError
  {
    if AddrGiven(a) then
      var x :- Address(a.value); Ok(Some(x.bytes))
    else Ok(None)
  }

  /** `if srcmask: srcmask = utils.Mask(srcmask).bytes`, likewise for masks. */
  function ConvertMask(m: MaskInput): (r: Result<Option<seq<Byte>>>)
    ensures r.Ok? && r.value.Some? <==> MaskGiven(m) && Mask(m).Ok?
    ensures r.Ok? && r.value.Some? ==> r.value.value == Mask(m).value.bytes
    ensures r.Err? ==> r.error == ValueError
  {
    if MaskGiven(m) then
      MaskRaisesValueError(m);
      var x :- Mask(m); Ok(Some(x.bytes))
    else Ok(None)
  }

  /** The conversion with Mask as written, whose NameError escapes: either that error or
      the corrected conversion. */
  function ConvertMaskAsWritten(m: MaskInput): (r: Result<Option<seq<Byte>>>)
    ensures r == ConvertMask(m) || r == Err(NameError)
    ensures r == Err(NameError) <==> MaskGiven(m) && MaskAsWritten(m) == Err(NameError)
  {
    if MaskGiven(m) then
      MaskAsWrittenOrCorrected(m);
      MaskRaisesValueError(m);
      var x :- MaskAsWritten(m); Ok(Some(x.bytes))
    else Ok(None)
  }

  /** The argument conversion and checks of killStates, up to the kernel call, with the
      mask conversion passed in: given addresses and masks become bytes, a given address
      without a mask gets an all-0xff mask of its own length, and ValueError is raised for
      a failed conversion, an address and mask of different lengths, or a source and
      destination of different lengths. */
  function KillStatesWith(convertMask: MaskInput -> Result<Option<seq<Byte>>>, src: Option<AddrArg>,
                          srcmask: MaskInput, dst: Option<AddrArg>, dstmask: MaskInput): Result<KillArgs>
  {
    var s :- ConvertAddress(src);
    var sm :- convertMask(srcmask);
    var d :- ConvertAddress(dst);
    var dm :- convertMask(dstmask);
    KillChecks(s, sm, d, dm)
  }

  /** What killStates does once the arguments are converted: default masks, the length
      checks and the family. */
  function KillChecks(s: Option<seq<Byte>>, sm: Option<seq<Byte>>, d: Option<seq<Byte>>, dm: Option<seq<Byte>>): Result<KillArgs>
  {
    var sm' := if s.Some? && sm.None? then Some(Repeat<Byte>(0xff, |s.value|)) else sm;
    var dm' := if d.Some? && dm.None? then Some(Repeat<Byte>(0xff, |d.value|)) else dm;
    if s.Some? && |s.value| != |sm'.value| then Err(ValueError)
    else if d.Some? && |d.value| != |dm'.value| then Err(ValueError)
    else if s.Some? && d.Some? && |d.value| != |s.value| then Err(ValueError)
    else
      var af := if s.None? && d.None? then Unspecified
        else if |(if s.Some? then s.value else d.value)| == 4 then AfInet
        else AfInet6;
      Ok(KillArgs(af, s, sm', d, dm'))
  }

  /** killStates with the corrected Mask. */
  function KillStates(src: Option<AddrArg>, srcmask: MaskInput, dst: Option<AddrArg>, dstmask: MaskInput): Result<KillArgs>
  {
    KillStatesWith(ConvertMask, src, srcmask, dst, dstmask)
  }

  /** killStates as written, where Mask can raise NameError. */
  function KillStatesAsWritten(src: Option<AddrArg>, srcmask: MaskInput, dst: Option<AddrArg>, dstmask: MaskInput): Result<KillArgs>
  {
    KillStatesWith(ConvertMaskAsWritten, src, srcmask, dst, dstmask)
  }

  /** As written, killStates either raises NameError or agrees with the corrected one. */
  lemma KillStatesAsWrittenOrCorrected(src: Option<AddrArg>, srcmask: MaskInput, dst: Option<AddrArg>, dstmask: MaskInput)
    ensures KillStatesAsWritten(src, srcmask, dst, dstmask) == KillStates(src, srcmask, dst, dstmask) ||
            KillStatesAsWritten(src, srcmask, dst, dstmask) == Err(NameError)
  {
    var a, b := ConvertMaskAsWritten(srcmask), ConvertMaskAsWritten(dstmask);
    assert a == ConvertMask(srcmask) || a == Err(NameError);
    assert b == ConvertMask(dstmask) || b == Err(NameError);
  }

  /** As written, a source mask of prefix length 97 to 112 makes killStates raise
      NameError once the source address converts, although the corrected Mask accepts it. */
  lemma KillStatesAsWrittenFails(prefix: int, src: Option<AddrArg>, dst: Option<AddrArg>, dstmask: MaskInput)
    requires 97 <= prefix <= 112
    requires AddrGiven(src) ==> Address(src.value).Ok?
    ensures KillStatesAsWritten(src, MaskOf(MPrefix(prefix)), dst, dstmask) == Err(NameError)
    ensures ConvertMask(MaskOf(MPrefix(prefix))).Ok?
  {
    MaskAsWrittenOfPrefix(prefix);
    MaskOfPrefix(prefix);
    assert ConvertMaskAsWritten(MaskOf(MPrefix(prefix))) == Err(NameError);
  }

  /** What killStates promises when its conversions succeed: the addresses are passed
      as parsed, a missing mask is all ones over the address, the family follows the
      address length, and only a length mismatch is refused. */
  lemma KillStatesSpec(src: Option<AddrArg>, srcmask: MaskInput, dst: Option<AddrArg>, dstmask: MaskInput)
    requires AddrGiven(src) ==> Address(src.value).Ok?
    requires AddrGiven(dst) ==> Address(dst.value).Ok?
    requires MaskGiven(srcmask) ==> Mask(srcmask).Ok?
    requires MaskGiven(dstmask) ==> Mask(dstmask).Ok?
    ensures var sb := if AddrGiven(src) then Address(src.value).value.bytes else [];
            var db := if AddrGiven(dst) then Address(dst.value).value.bytes else [];
            var smb := if MaskGiven(srcmask) then Mask(srcmask).value.bytes else Repeat<Byte>(0xff, |sb|);
            var dmb := if MaskGiven(dstmask) then Mask(dstmask).value.bytes else Repeat<Byte>(0xff, |db|);
            && (KillStates(src, srcmask, dst, dstmask).Err? <==>
                 (AddrGiven(src) && |smb| != |sb|) || (AddrGiven(dst) && |dmb| != |db|) ||
                 (AddrGiven(src) && AddrGiven(dst) && |sb| != |db|))
            && (KillStates(src, srcmask, dst, dstmask).Err? ==> KillStates(src, srcmask, dst, dstmask).error == ValueError)
            && (KillStates(src, srcmask, dst, dstmask).Ok? ==>
                 var k := KillStates(src, srcmask, dst, dstmask).value;
                 && (k.src.Some? <==> AddrGiven(src)) && (k.dst.Some? <==> AddrGiven(dst))
                 && (AddrGiven(src) ==> k.src == Some(sb) && k.srcmask == Some(smb))
                 && (AddrGiven(dst) ==> k.dst == Some(db) && k.dstmask == Some(dmb))
                 && (!AddrGiven(src) && !AddrGiven(dst) ==> k.af == Unspecified)
                 && (AddrGiven(src) ==> (k.af == AfInet <==> |sb| == 4) && (k.af == AfInet6 <==> |sb| != 4))
                 && (AddrGiven(dst) ==> (k.af == AfInet <==> |db| == 4) && (k.af == AfInet6 <==> |db| != 4)))
  {
    var s, sm := ConvertAddress(src).value, ConvertMask(srcmask).value;
    var d, dm := ConvertAddress(dst).value, ConvertMask(dstmask).value;
    assert KillStates(src, srcmask, dst, dstmask) == KillChecks(s, sm, d, dm);
  }

  /** A failed conversion raises ValueError. */
  lemma KillStatesBadAddress(src: Option<AddrArg>, srcmask: MaskInput, dst: Option<AddrArg>, dstmask: MaskInput)
    requires (AddrGiven(src) && Address(src.value).Err?) || (AddrGiven(dst) && Address(dst.value).Err?)
             || (MaskGiven(srcmask) && Mask(srcmask).Err?) || (MaskGiven(dstmask) && Mask(dstmask).Err?)
    ensures KillStates(src, srcmask, dst, dstmask) == Err(ValueError)
  {
    assert ConvertAddress(src).Err? || ConvertMask(srcmask).Err? || ConvertAddress(dst).Err? || ConvertMask(dstmask).Err?;
  }

  /** The prefix length 0 is false in Python, so it counts as no mask: the address gets
      the all-ones mask rather than the empty one. */
  lemma KillStatesZeroPrefix(a: Addr)
    ensures KillStates(Some(AObj(a)), MaskOf(MPrefix(0)), None, MaskOf(MNone)) ==
              Ok(KillArgs(if |a.bytes| == 4 then AfInet else AfInet6, Some(a.bytes), Some(Repeat<Byte>(0xff, |a.bytes|)), None, None))
  {
  }
}
