/** `remove_duplicates`: sort the distinct indices and keep an index only when it lies at
    least `window` samples past the last index kept. */
module Dedup {
  import opened Seqs

  /** The window the callers use (the function's default argument). */
  const DefaultWindow: int := 10

  /** Consecutive kept values are at least `w` apart. */
  ghost predicate Spaced(r: seq<int>, w: int)
    decreases |r|
  {
    |r| < 2 || (r[1] - r[0] >= w && Spaced(r[1..], w))
  }

  /** Spaced step by step is spaced between every pair of neighbours. */
  lemma {:induction false} SpacedAdjacent(r: seq<int>, w: int)
    ensures Spaced(r, w) <==> forall i :: 1 <= i < |r| ==> r[i] - r[i - 1] >= w
    decreases |r|
  {
    if |r| >= 2 {
      var t := r[1..];
      SpacedAdjacent(t, w);
      assert forall i :: 0 <= i < |t| ==> t[i] == r[i + 1];
    }
  }

  lemma ConsAscending(x: int, t: seq<int>)
    requires StrictlyAscending(t) && (|t| > 0 ==> x < t[0])
    ensures StrictlyAscending([x] + t)
  {
    assert ([x] + t)[1..] == t;
  }

  /** Every value after the head of an ascending list is above the head. */
  lemma AboveHead(s: seq<int>)
    requires StrictlyAscending(s) && |s| > 0
    ensures forall v :: v in s[1..] ==> s[0] < v
  {
    AscendingPairwise(s);
    forall v | v in s[1..]
      ensures s[0] < v
    {
      var j :| 0 <= j < |s[1..]| && s[1..][j] == v;
      assert s[j + 1] == v;
    }
  }

  /** Insert `x` into an ascending duplicate-free list unless it is already there. */
  function InsertUnique(x: int, s: seq<int>): (r: seq<int>)
    requires StrictlyAscending(s)
    ensures StrictlyAscending(r)
    ensures Elems(r) == Elems(s) + {x}
  {
    if |s| == 0 then [x]
    else if x < s[0] then
      AboveHead(s);
      ConsAscending(x, s);
      ElemsConcat([x], s);
      [x] + s
    else if x == s[0] then
      assert s[0] in s;
      s
    else
      var rest := InsertUnique(x, s[1..]);
      AboveHead(s);
      assert |rest| > 0 ==> rest[0] in Elems(rest);
      ConsAscending(s[0], rest);
      ElemsConcat([s[0]], rest);
      ElemsConcat([s[0]], s[1..]);
      assert s == [s[0]] + s[1..];
      [s[0]] + rest
  }

  /** `sorted(set(xs))`. */
  function SortedUnique(xs: seq<int>): (r: seq<int>)
    ensures StrictlyAscending(r)
    ensures Elems(r) == Elems(xs)
  {
    if |xs| == 0 then []
    else
      assert xs == [xs[0]] + xs[1..];
      InsertUnique(xs[0], SortedUnique(xs[1..]))
  }

  /** An ascending duplicate-free list is determined by its set of values. */
  lemma {:induction false} AscendingUnique(a: seq<int>, b: seq<int>)
    requires StrictlyAscending(a) && StrictlyAscending(b)
    requires Elems(a) == Elems(b)
    ensures a == b
    decreases |a|
  {
    assert |b| > 0 ==> b[0] in Elems(b);
    if |a| > 0 {
      assert a[0] in Elems(a);
      assert |b| > 0;
      assert b[0] in Elems(b);
      assert a[0] == b[0] by {
        AscendingPairwise(a);
        AscendingPairwise(b);
        var i :| 0 <= i < |b| && b[i] == a[0];
        var j :| 0 <= j < |a| && a[j] == b[0];
        assert b[0] <= b[i] && a[0] <= a[j];
      }
      assert Elems(a[1..]) == Elems(b[1..]) by {
        TailElems(a);
        TailElems(b);
      }
      AscendingUnique(a[1..], b[1..]);
      assert a == [a[0]] + a[1..] && b == [b[0]] + b[1..];
    }
  }

  lemma TailElems(a: seq<int>)
    requires StrictlyAscending(a) && |a| > 0
    ensures Elems(a[1..]) == Elems(a) - {a[0]}
  {
    AboveHead(a);
    assert a == [a[0]] + a[1..];
  }

  lemma {:induction false} ShiftSpaced(xs: seq<int>, k: int, w: int)
    requires Spaced(xs, w)
    ensures Spaced(Shift(xs, k), w)
    decreases |xs|
  {
    if |xs| >= 2 {
      ShiftSpaced(xs[1..], k, w);
      assert Shift(xs, k)[1..] == Shift(xs[1..], k);
    }
  }

  /** The greedy scan of `remove_duplicates` over the sorted tail, `last` being the value
      most recently kept. */
  function Thin(s: seq<int>, last: int, w: int): (r: seq<int>)
    requires StrictlyAscending(s)
    ensures Elems(r) <= Elems(s)
    ensures StrictlyAscending(r)
    ensures Spaced(r, w)
    ensures |r| > 0 ==> r[0] - last >= w
  {
    if |s| == 0 then []
    else
      assert s == [s[0]] + s[1..];
      AboveHead(s);
      ElemsConcat([s[0]], s[1..]);
      if s[0] - last >= w then
        var rest := Thin(s[1..], s[0], w);
        assert |rest| > 0 ==> rest[0] in Elems(rest);
        ConsAscending(s[0], rest);
        ElemsConcat([s[0]], rest);
        [s[0]] + rest
      else Thin(s[1..], last, w)
  }

  /** `remove_duplicates(xs, window)`. */
  function RemoveDuplicates(xs: seq<int>, w: int): (r: seq<int>)
    ensures |r| == 0 <==> |xs| == 0
    ensures StrictlyAscending(r)
    ensures Spaced(r, w)
    ensures Elems(r) <= Elems(xs)
    ensures |r| > 0 ==> r[0] in xs && forall v :: v in xs ==> r[0] <= v
  {
    var s := SortedUnique(xs);
    if |s| == 0 then
      []
    else
      assert s[0] in Elems(s);
      assert s == [s[0]] + s[1..];
      AboveHead(s);
      ElemsConcat([s[0]], s[1..]);
      assert forall v :: v in xs ==> s[0] <= v by {
        forall v | v in xs
          ensures s[0] <= v
        {
          assert v in Elems(s);
          var j :| 0 <= j < |s| && s[j] == v;
        }
      }
      var rest := Thin(s[1..], s[0], w);
      assert |rest| > 0 ==> rest[0] in Elems(rest);
      ConsAscending(s[0], rest);
      ElemsConcat([s[0]], rest);
      [s[0]] + rest
  }

  /** Frame `v` lies in the window `[k, k + w)` of some kept value `k`. */
  ghost predicate Covered(v: int, ks: seq<int>, w: int)
  {
    exists k :: k in ks && k <= v < k + w
  }

  lemma {:induction false} ThinCovers(s: seq<int>, last: int, w: int)
    requires StrictlyAscending(s) && w >= 1
    requires |s| > 0 ==> last < s[0]
    ensures forall v :: v in s ==> Covered(v, [last] + Thin(s, last, w), w)
  {
    if |s| > 0 {
      var r := Thin(s, last, w);
      var kept := s[0] - last >= w;
      var last' := if kept then s[0] else last;
      var tail := Thin(s[1..], last', w);
      assert r == if kept then [s[0]] + tail else tail;
      assert |s[1..]| > 0 ==> last' < s[1..][0];
      ThinCovers(s[1..], last', w);
      forall v | v in s
        ensures Covered(v, [last] + r, w)
      {
        if v == s[0] {
          if kept {
            assert s[0] in [last] + r;
          } else {
            assert last in [last] + r;
          }
        } else {
          assert v in s[1..] by {
            var j :| 0 <= j < |s| && s[j] == v;
            assert j > 0;
            assert s[1..][j - 1] == v;
          }
          assert Covered(v, [last'] + tail, w);
          var k :| k in [last'] + tail && k <= v < k + w;
          assert k in [last] + r;
        }
      }
    }
  }

  /** Every input index lies within `w` samples after some kept index. */
  lemma Coverage(xs: seq<int>, w: int)
    requires w >= 1
    ensures forall v :: v in xs ==> Covered(v, RemoveDuplicates(xs, w), w)
  {
    var s := SortedUnique(xs);
    if |s| > 0 {
      var r := RemoveDuplicates(xs, w);
      assert r == [s[0]] + Thin(s[1..], s[0], w);
      assert StrictlyAscending(s[1..]);
      ThinCovers(s[1..], s[0], w);
      forall v | v in xs
        ensures Covered(v, r, w)
      {
        assert v in Elems(s);
        if v != s[0] {
          var j :| 0 <= j < |s| && s[j] == v;
          assert s[1..][j - 1] == v;
        } else {
          assert s[0] in r;
        }
      }
    }
  }

  lemma {:induction false} ThinKeepsSpaced(s: seq<int>, last: int, w: int)
    requires StrictlyAscending(s) && Spaced(s, w)
    requires |s| > 0 ==> s[0] - last >= w
    ensures Thin(s, last, w) == s
  {
    if |s| > 0 {
      assert |s[1..]| > 0 ==> s[1..][0] - s[0] >= w;
      ThinKeepsSpaced(s[1..], s[0], w);
      assert s == [s[0]] + s[1..];
    }
  }

  /** Removing duplicates twice is the same as removing them once. */
  lemma Idempotent(xs: seq<int>, w: int)
    ensures RemoveDuplicates(RemoveDuplicates(xs, w), w) == RemoveDuplicates(xs, w)
  {
    var r := RemoveDuplicates(xs, w);
    if |r| > 0 {
      AscendingUnique(SortedUnique(r), r);
      assert |r[1..]| > 0 ==> r[1..][0] - r[0] >= w;
      ThinKeepsSpaced(r[1..], r[0], w);
      assert r == [r[0]] + r[1..];
    }
  }

  /** The result depends only on the set of input values, not on their order or on how
      often each occurs. */
  lemma SetDetermined(xs: seq<int>, ys: seq<int>, w: int)
    requires Elems(xs) == Elems(ys)
    ensures RemoveDuplicates(xs, w) == RemoveDuplicates(ys, w)
  {
    AscendingUnique(SortedUnique(xs), SortedUnique(ys));
  }

  /** Sorting the distinct values of an already ascending duplicate-free list returns it. */
  lemma SortedUniqueOfAscending(s: seq<int>)
    requires StrictlyAscending(s)
    ensures SortedUnique(s) == s
  {
    AscendingUnique(SortedUnique(s), s);
  }
}
