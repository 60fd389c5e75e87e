/** Sequence vocabulary shared by the kernel, the deduplicator and the segmenters. */
module Seqs {

  /** The set of values of a sequence (Python's `set(xs)`). */
  function Elems<T>(s: seq<T>): set<T>
  {
    set x | x in s
  }

  lemma ElemsConcat<T>(a: seq<T>, b: seq<T>)
    ensures Elems(a + b) == Elems(a) + Elems(b)
  {
    forall x | x in Elems(a) + Elems(b)
      ensures x in a + b
    {
      if x in a {
        var i :| 0 <= i < |a| && a[i] == x;
        assert (a + b)[i] == x;
      } else {
        var i :| 0 <= i < |b| && b[i] == x;
        assert (a + b)[|a| + i] == x;
      }
    }
  }

  /** Each value is below the next: the list is sorted and holds no value twice. */
  ghost predicate StrictlyAscending(s: seq<int>)
    decreases |s|
  {
    |s| < 2 || (s[0] < s[1] && StrictlyAscending(s[1..]))
  }

  /** Ascending from each value to the next is ascending between any two positions. */
  lemma {:induction false} AscendingPairwise(s: seq<int>)
    ensures StrictlyAscending(s) <==> forall i, j :: 0 <= i < j < |s| ==> s[i] < s[j]
    decreases |s|
  {
    if |s| >= 2 {
      var t := s[1..];
      AscendingPairwise(t);
      assert forall i :: 0 <= i < |t| ==> t[i] == s[i + 1];
    }
  }

  /** Concatenation of a list of lists in order (repeated `list.extend`). */
  function Concat<T>(ss: seq<seq<T>>): (r: seq<T>)
    ensures |ss| == 0 ==> r == []
  {
    if |ss| == 0 then [] else ss[0] + Concat(ss[1..])
  }

  /** Every index shifted by `k` (`[i + k for i in xs]`). */
  function Shift(xs: seq<int>, k: int): (r: seq<int>)
    ensures |r| == |xs|
    ensures forall i :: 0 <= i < |xs| ==> r[i] == xs[i] + k
  {
    seq(|xs|, i requires 0 <= i < |xs| => xs[i] + k)
  }

  lemma {:induction false} ConcatElems<T>(ss: seq<seq<T>>, x: T)
    ensures x in Concat(ss) <==> exists c :: 0 <= c < |ss| && x in ss[c]
  {
    if |ss| > 0 {
      ConcatElems(ss[1..], x);
      if x in Concat(ss[1..]) {
        var c :| 0 <= c < |ss[1..]| && x in ss[1..][c];
        assert x in ss[c + 1];
      }
      if exists c :: 0 <= c < |ss| && x in ss[c] {
        var c :| 0 <= c < |ss| && x in ss[c];
        if c > 0 {
          assert x in ss[1..][c - 1];
        }
      }
    }
  }

  lemma {:induction false} ConcatAppend<T>(ss: seq<seq<T>>, t: seq<T>)
    ensures Concat(ss + [t]) == Concat(ss) + t
  {
    if |ss| == 0 {
      assert ss + [t] == [t];
    } else {
      assert (ss + [t])[1..] == ss[1..] + [t];
      ConcatAppend(ss[1..], t);
    }
  }

  lemma ShiftElems(xs: seq<int>, k: int, a: int)
    ensures a in Shift(xs, k) <==> a - k in xs
  {
    if a - k in xs {
      var i :| 0 <= i < |xs| && xs[i] == a - k;
      assert Shift(xs, k)[i] == a;
    }
  }

  lemma {:induction false} ShiftAscending(xs: seq<int>, k: int)
    requires StrictlyAscending(xs)
    ensures StrictlyAscending(Shift(xs, k))
    decreases |xs|
  {
    if |xs| >= 2 {
      ShiftAscending(xs[1..], k);
      assert Shift(xs, k)[1..] == Shift(xs[1..], k);
    }
  }
}
