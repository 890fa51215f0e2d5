/** findLongestSubsequence of openbsd/utils.py: the inclusive bounds of the longest run
    of one value in a sequence, used to choose the zero groups that "::" replaces. */
module Runs {
  import opened Common

  /** s[a], ..., s[b] (inclusive) all equal v. */
  predicate IsRun<T(==)>(s: seq<T>, v: T, a: int, b: int)
  {
    0 <= a <= b < |s| && forall k :: a <= k <= b ==> s[k] == v
  }

  /** The last index of the run of v that starts at i. */
  function RunEnd<T(==)>(s: seq<T>, v: T, i: nat): (e: nat)
    requires i < |s| && s[i] == v
    ensures IsRun(s, v, i, e)
    ensures e + 1 == |s| || s[e + 1] != v
    decreases |s| - i
  {
    if i + 1 < |s| && s[i + 1] == v then RunEnd(s, v, i + 1) else i
  }

  lemma {:induction false} RunEndUnique<T>(s: seq<T>, v: T, i: nat, e: nat)
    requires IsRun(s, v, i, e)
    requires e + 1 == |s| || s[e + 1] != v
    ensures RunEnd(s, v, i) == e
    decreases e - i
  {
    if i < e {
      RunEndUnique(s, v, i + 1, e);
    }
  }

  /** The scan from index pos on, with (ms, me) the best run found before pos: a run
      replaces it only when strictly longer, so the earliest longest run wins. */
  function Scan<T(==)>(s: seq<T>, v: T, pos: nat, ms: nat, me: nat): (nat, nat)
    decreases |s| - pos
  {
    if pos >= |s| then (ms, me)
    else if s[pos] != v then Scan(s, v, pos + 1, ms, me)
    else
      var e := RunEnd(s, v, pos);
      if e - pos > me - ms then Scan(s, v, e + 1, pos, e) else Scan(s, v, e + 1, ms, me)
  }

  /** The pair findLongestSubsequence means to return: (0, 0) when no run has two
      elements, otherwise the bounds of the earliest longest run. */
  function LongestRun<T(==)>(s: seq<T>, v: T): (nat, nat)
  {
    Scan(s, v, 0, 0, 0)
  }

  /** The value occurs in s, and only as its last element. */
  predicate FirstOccurrenceAtEnd<T(==)>(s: seq<T>, v: T)
  {
    |s| > 0 && s[|s| - 1] == v && forall k :: 0 <= k < |s| - 1 ==> s[k] != v
  }

  /** What findLongestSubsequence does as written: when the value's first occurrence is
      the last element, the inner loop never binds `j` and the comparison after it raises
      UnboundLocalError (a NameError). */
  function LongestRunAsWritten<T(==)>(s: seq<T>, v: T): Result<(nat, nat)>
  {
    if FirstOccurrenceAtEnd(s, v) then Err(NameError) else Ok(LongestRun(s, v))
  }

  /** What the scan keeps true about the best run (ms, me) among the runs starting
      before pos. */
  ghost predicate ScanInvariant<T>(s: seq<T>, v: T, pos: nat, ms: nat, me: nat)
  {
    && ms <= me
    && (ms < me ==> IsRun(s, v, ms, me) && me < pos)
    && (ms == me ==> ms == 0)
    && (forall a, b :: IsRun(s, v, a, b) && a < pos ==> b - a <= me - ms)
    && (forall a, b :: IsRun(s, v, a, b) && a < pos && b - a == me - ms && ms < me ==> ms <= a)
  }

  /** The characterisation of a result: a run (or (0, 0)), no run longer, and no equally
      long run earlier. */
  ghost predicate IsLongestRun<T>(s: seq<T>, v: T, r: (nat, nat))
  {
    && r.0 <= r.1
    && (r.0 < r.1 ==> IsRun(s, v, r.0, r.1))
    && (r.0 == r.1 ==> r == (0, 0))
    && (forall a, b :: IsRun(s, v, a, b) ==> b - a <= r.1 - r.0)
    && (forall a, b :: IsRun(s, v, a, b) && b - a == r.1 - r.0 && r.0 < r.1 ==> r.0 <= a)
  }

  lemma {:induction false} ScanCorrect<T>(s: seq<T>, v: T, pos: nat, ms: nat, me: nat)
    requires ScanInvariant(s, v, pos, ms, me)
    ensures IsLongestRun(s, v, Scan(s, v, pos, ms, me))
    decreases |s| - pos
  {
    if pos >= |s| {
      assert forall a, b :: IsRun(s, v, a, b) ==> a < pos;
    } else if s[pos] != v {
      assert forall a, b :: IsRun(s, v, a, b) && a < pos + 1 ==> a < pos;
      ScanCorrect(s, v, pos + 1, ms, me);
    } else {
      var e := RunEnd(s, v, pos);
      assert forall a, b :: IsRun(s, v, a, b) && pos <= a <= e ==> b <= e;
      if e - pos > me - ms {
        ScanCorrect(s, v, e + 1, pos, e);
      } else {
        ScanCorrect(s, v, e + 1, ms, me);
      }
    }
  }

  /** LongestRun returns the earliest of the longest runs, or (0, 0) when no run has at
      least two elements. */
  lemma LongestRunIsLongest<T>(s: seq<T>, v: T)
    ensures IsLongestRun(s, v, LongestRun(s, v))
  {
    ScanCorrect(s, v, 0, 0, 0);
  }

  /** No run of two gives (0, 0); a result whose end is not 0 is a run of at least two. */
  lemma LongestRunShortCases<T>(s: seq<T>, v: T)
    ensures (forall k :: 0 <= k < |s| - 1 ==> !(s[k] == v && s[k + 1] == v)) ==> LongestRun(s, v) == (0, 0)
    ensures LongestRun(s, v).1 != 0 ==> LongestRun(s, v).0 < LongestRun(s, v).1
    ensures LongestRun(s, v).1 != 0 ==> IsRun(s, v, LongestRun(s, v).0, LongestRun(s, v).1)
  {
    LongestRunIsLongest(s, v);
    var r := LongestRun(s, v);
    if r.0 < r.1 {
      assert s[r.0] == v && s[r.0 + 1] == v;
    }
  }

  /** findLongestSubsequence as the source runs it: one iterator shared by the outer
      and the inner loop, `maxseq` replaced only by a strictly longer run, and `j` left
      unbound until the inner loop first runs. */
  method FindLongestSubsequence<T(==)>(s: seq<T>, value: T) returns (r: Result<(nat, nat)>)
    ensures r == LongestRunAsWritten(s, value)
  {
    var pos := 0;              // the next index the shared iterator hands out
    var ms, me := 0, 0;        // maxseq
    var j, jBound := 0, false; // Python's local j, and whether it is bound yet
    while pos < |s|
      invariant 0 <= pos <= |s|
      invariant ms <= me
      invariant Scan(s, value, pos, ms, me) == LongestRun(s, value)
      invariant jBound ==> j < pos
      invariant !jBound ==> forall k :: 0 <= k < pos ==> s[k] != value
      invariant jBound ==> exists k :: 0 <= k < |s| - 1 && s[k] == value
      invariant FirstOccurrenceAtEnd(s, value) ==> pos < |s|
      decreases |s| - pos
    {
      var i := pos;
      pos := pos + 1;
      if s[i] == value {
        var start := i;
        var broke := false;
        ghost var bound0 := jBound;
        while pos < |s| && !broke
          invariant start < pos <= |s|
          invariant forall k :: start <= k < pos - (if broke then 1 else 0) ==> s[k] == value
          invariant broke ==> s[pos - 1] != value && j == pos - 2
          invariant !broke && pos > start + 1 ==> j == pos - 1
          invariant pos > start + 1 ==> jBound
          invariant pos == start + 1 ==> jBound == bound0 && (jBound ==> j < start)
          decreases |s| - pos
        {
          j := pos;
          pos := pos + 1;
          jBound := true;
          if s[j] != value {
            j := j - 1;
            broke := true;
          }
        }
        if !jBound {
          assert FirstOccurrenceAtEnd(s, value);
          return Err(NameError);
        }
        var e := RunEnd(s, value, start);
        if pos == start + 1 {
          RunEndUnique(s, value, start, start);
        } else if broke {
          RunEndUnique(s, value, start, j);
        } else {
          RunEndUnique(s, value, start, |s| - 1);
        }
        if j - start > me - ms {
          ms, me := start, j;
        }
      }
    }
    r := Ok((ms, me));
  }

  /** The cases of the source's tests. */
  lemma LongestRunExamples()
    ensures LongestRun("ffaaaff", 'a') == (2, 4)
    ensures LongestRun("aaa", 'a') == (0, 2)
  {
  }

  /** The source's tests with two runs: the longer one wins, and of two equally long
      runs the first (next lemma). */
  lemma LongestRunTwoRuns()
    ensures LongestRun("ffaaaffaaaa", 'a') == (7, 10)
  {
  }

  lemma LongestRunEqualRuns()
    ensures LongestRun("ffaaaffaaa", 'a') == (2, 4)
  {
  }

  /** A run at the start as long as one at the end. */
  lemma LongestRunTieAtStart()
    ensures LongestRun("aaaffaaa", 'a') == (0, 2)
  {
  }

  /** The error case: a value that first occurs as the last element. */
  lemma LongestRunAsWrittenFails()
    ensures LongestRunAsWritten("ffa", 'a') == Err(NameError)
    ensures LongestRunAsWritten("afa", 'a') == Ok((0, 0))
  {
    assert !FirstOccurrenceAtEnd("afa", 'a') by {
      assert "afa"[0] == 'a';
    }
  }
}
