/** The counting sort of sorting/counting/counting.cpp: the values are shifted
    by an offset so that the smallest is at least 0, counted per value, the
    counts are summed into end positions, and the list is placed into a new
    vector from its last cell backwards. */
module CountingSort {
  import opened SortSpec

  /** The range of a C++ `int`. */
  const IntMin: int := -0x8000_0000
  const IntMax: int := 0x7fff_ffff

  /** Every cell is an `int`. */
  ghost predicate IntCells(s: seq<int>) {
    forall k :: 0 <= k < |s| ==> IntMin <= s[k] <= IntMax
  }

  /** No negative cell's negation, and no shifted cell, overflows an `int`: for a
      negative smallest cell `lo`, every `x - lo` fits. */
  ghost predicate ShiftFits(s: seq<int>) {
    forall a, b :: 0 <= a < |s| && 0 <= b < |s| && s[a] < 0 ==> s[b] - s[a] <= IntMax
  }

  /** find_min_max_pair_in_list: the smallest and largest cells, starting from
      `INT_MAX` and `INT_MIN`; for an empty list those two come back. */
  method FindMinMax(list: array<int>) returns (lo: int, hi: int)
    requires IntCells(list[..])
    ensures list.Length == 0 ==> lo == IntMax && hi == IntMin
    ensures forall k :: 0 <= k < list.Length ==> lo <= list[k] <= hi
    ensures list.Length > 0 ==> (exists k :: 0 <= k < list.Length && list[k] == lo) &&
                                (exists k :: 0 <= k < list.Length && list[k] == hi)
  {
    lo, hi := IntMax, IntMin;
    for n := 0 to list.Length
      invariant forall k :: 0 <= k < n ==> lo <= list[k] <= hi
      invariant n == 0 ==> lo == IntMax && hi == IntMin
      invariant n > 0 ==> (exists k :: 0 <= k < n && list[k] == lo) && (exists k :: 0 <= k < n && list[k] == hi)
    {
      if lo > list[n] {
        lo := list[n];
      }
      if hi < list[n] {
        hi := list[n];
      }
    }
  }

  /** The offset: the negation of a negative smallest value, else 0. It moves every
      value from `lo` up to an index of at least 0. */
  function Offset(lo: int): (r: int)
    ensures r >= 0 && lo + r >= 0
    ensures lo >= 0 ==> r == 0
  {
    if lo < 0 then -lo else 0
  }

  /** `k + 1`, the length given to the counts vector: when `lo <= hi`, every value
      from `lo` to `hi`, once shifted, indexes a count. */
  function CountsLength(lo: int, hi: int): (r: int)
    ensures lo <= hi ==> 1 <= r && 0 <= lo + Offset(lo) && hi + Offset(lo) < r
  {
    hi + Offset(lo) + 1
  }

  /** On an empty list find_min_max gives `INT_MAX` and `INT_MIN`, so `k` is
      `INT_MIN` and the counts vector is asked for `INT_MIN + 1` cells, a negative
      length that `size_t` turns into more than any vector can hold. */
  lemma EmptyListCountsLength()
    ensures Offset(IntMax) == 0 && CountsLength(IntMax, IntMin) == IntMin + 1 < 0
  {
  }

  /** The number of copies of `x` among the first `n` cells of `s`. */
  function Occ(s: seq<int>, n: int, x: int): (r: nat)
    requires 0 <= n <= |s|
    ensures r <= n
  {
    if n == 0 then 0 else Occ(s, n - 1, x) + (if s[n - 1] == x then 1 else 0)
  }

  /** The number of cells smaller than `x` among the first `n` cells of `s`. */
  function Less(s: seq<int>, n: int, x: int): (r: nat)
    requires 0 <= n <= |s|
    ensures r <= n
  {
    if n == 0 then 0 else Less(s, n - 1, x) + (if s[n - 1] < x then 1 else 0)
  }

  /** The cells below `x + 1` are those below `x` and the copies of `x`. */
  lemma {:induction false} LessStep(s: seq<int>, n: int, x: int)
    requires 0 <= n <= |s|
    ensures Less(s, n, x + 1) == Less(s, n, x) + Occ(s, n, x)
  {
    if n > 0 {
      LessStep(s, n - 1, x);
    }
  }

  /** Fewer cells are below a smaller value. */
  lemma {:induction false} LessMono(s: seq<int>, n: int, x: int, y: int)
    requires 0 <= n <= |s| && x <= y
    ensures Less(s, n, x) <= Less(s, n, y)
  {
    if n > 0 {
      LessMono(s, n - 1, x, y);
    }
  }

  /** No cell is below a lower bound of all of them. */
  lemma {:induction false} LessNone(s: seq<int>, n: int, x: int)
    requires 0 <= n <= |s| && forall k :: 0 <= k < n ==> x <= s[k]
    ensures Less(s, n, x) == 0
  {
    if n > 0 {
      LessNone(s, n - 1, x);
    }
  }

  /** Every cell is below a strict upper bound of all of them. */
  lemma {:induction false} LessAll(s: seq<int>, n: int, x: int)
    requires 0 <= n <= |s| && forall k :: 0 <= k < n ==> s[k] < x
    ensures Less(s, n, x) == n
  {
    if n > 0 {
      LessAll(s, n - 1, x);
    }
  }

  /** A longer prefix holds at least as many copies. */
  lemma {:induction false} OccMono(s: seq<int>, i: int, j: int, x: int)
    requires 0 <= i <= j <= |s|
    ensures Occ(s, i, x) <= Occ(s, j, x)
    decreases j
  {
    if i < j {
      OccMono(s, i, j - 1, x);
    }
  }

  /** Occ counts what the multiset of the prefix counts. */
  lemma {:induction false} OccMultiset(s: seq<int>, n: int, x: int)
    requires 0 <= n <= |s|
    ensures Occ(s, n, x) == multiset(s[..n])[x]
  {
    if n > 0 {
      OccMultiset(s, n - 1, x);
      assert s[..n] == s[..n - 1] + [s[n - 1]];
    }
  }

  /** A value that `t` holds exactly at the positions `a` to `b - 1` occurs `b - a`
      times in it. */
  lemma {:induction false} IntervalCount(t: seq<int>, y: int, a: int, b: int)
    requires 0 <= a <= b <= |t|
    requires forall p :: 0 <= p < |t| ==> (t[p] == y <==> a <= p < b)
    ensures multiset(t)[y] == b - a
  {
    if t != [] {
      var n := |t| - 1;
      var u := t[..n];
      assert t == u + [t[n]];
      if b == |t| && a < b {
        IntervalCount(u, y, a, b - 1);
      } else if b == |t| {
        IntervalCount(u, y, n, n);
      } else {
        IntervalCount(u, y, a, b);
      }
    }
  }

  /** countingSort, on a list of `int`s whose shifted values fit in an `int`, with
      an empty list left as it is: the list ends sorted and a permutation of what
      it was. */
  method CountingSort(list: array<int>)
    modifies list
    requires IntCells(list[..]) && ShiftFits(list[..])
    ensures Sorted(list[..]) && multiset(list[..]) == old(multiset(list[..]))
  {
    if list.Length == 0 {
      return;
    }
    ghost var s := list[..];
    var lo, hi := FindMinMax(list);
    var offset := Offset(lo);
    assert hi + offset <= IntMax;
    var counts := CountValues(list, offset, CountsLength(lo, hi));
    LessNone(s, |s|, -offset);
    Accumulate(counts, s, offset);
    var sorted := Place(list, counts, offset);
    CopyBack(sorted, list);
    CountingResult(s, list[..], counts[..], offset, lo, hi);
  }

  /** The counting loop: count `c` is the number of copies of `c - offset`. */
  method CountValues(list: array<int>, offset: int, size: int) returns (counts: array<int>)
    requires 0 <= size
    requires forall k :: 0 <= k < list.Length ==> 0 <= list[k] + offset < size
    ensures fresh(counts) && counts.Length == size
    ensures forall c :: 0 <= c < size ==> counts[c] == Occ(list[..], list.Length, c - offset)
  {
    counts := new int[size](_ => 0);
    for n := 0 to list.Length
      invariant forall c :: 0 <= c < size ==> counts[c] == Occ(list[..], n, c - offset)
    {
      counts[list[n] + offset] := counts[list[n] + offset] + 1;
    }
  }

  /** The prefix sums: count `c` becomes the number of cells at most `c - offset`,
      given that none is below `-offset`. */
  method Accumulate(counts: array<int>, ghost s: seq<int>, offset: int)
    modifies counts
    requires 1 <= counts.Length && Less(s, |s|, -offset) == 0
    requires forall c :: 0 <= c < counts.Length ==> counts[c] == Occ(s, |s|, c - offset)
    ensures forall c :: 0 <= c < counts.Length ==> counts[c] == Less(s, |s|, c - offset + 1)
  {
    LessStep(s, |s|, -offset);
    for i := 1 to counts.Length
      invariant forall c :: 0 <= c < i ==> counts[c] == Less(s, |s|, c - offset + 1)
      invariant forall c :: i <= c < counts.Length ==> counts[c] == Occ(s, |s|, c - offset)
    {
      LessStep(s, |s|, i - offset);
      counts[i] := counts[i] + counts[i - 1];
    }
  }

  /** Count `c`, for the value `c - offset`, is the number of cells below that
      value plus its copies among the first `i` cells. */
  ghost predicate CountsAt(cs: seq<int>, s: seq<int>, offset: int, i: int)
    requires 0 <= i <= |s|
  {
    forall c :: 0 <= c < |cs| ==> cs[c] == Less(s, |s|, c - offset) + Occ(s, i, c - offset)
  }

  /** From count `c` up to the number of cells at most `c - offset`, `t` holds that
      value. */
  ghost predicate Filled(t: seq<int>, cs: seq<int>, s: seq<int>, offset: int) {
    forall c, p :: 0 <= c < |cs| && cs[c] <= p < Less(s, |s|, c - offset + 1) && 0 <= p < |t| ==> t[p] == c - offset
  }

  /** The placing loop, from the last cell back: each cell's count is decremented
      and the cell is written at the count. Every value then fills the positions
      from the number of smaller cells up to the number of cells at most it. */
  method Place(list: array<int>, counts: array<int>, offset: int) returns (sorted: array<int>)
    modifies counts
    requires counts != list
    requires forall k :: 0 <= k < list.Length ==> 0 <= list[k] + offset < counts.Length
    requires forall c :: 0 <= c < counts.Length ==> counts[c] == Less(list[..], list.Length, c - offset + 1)
    ensures fresh(sorted) && sorted.Length == list.Length
    ensures forall c :: 0 <= c < counts.Length ==> counts[c] == Less(list[..], list.Length, c - offset)
    ensures Filled(sorted[..], counts[..], list[..], offset)
  {
    ghost var s := list[..];
    sorted := new int[list.Length];
    PlaceStart(counts[..], s, offset);
    var i := list.Length - 1;
    while i >= 0
      invariant -1 <= i < list.Length
      invariant CountsAt(counts[..], s, offset, i + 1)
      invariant Filled(sorted[..], counts[..], s, offset)
    {
      PlaceOne(list, counts, sorted, offset, i);
      i := i - 1;
    }
  }

  /** One step of the placing loop: `sorted[--counts[list[i] + offset]] = list[i]`. */
  method PlaceOne(list: array<int>, counts: array<int>, sorted: array<int>, offset: int, i: int)
    modifies counts, sorted
    requires counts != list && sorted != list && counts != sorted && sorted.Length == list.Length
    requires 0 <= i < list.Length && 0 <= list[i] + offset < counts.Length
    requires CountsAt(counts[..], list[..], offset, i + 1) && Filled(sorted[..], counts[..], list[..], offset)
    ensures CountsAt(counts[..], list[..], offset, i) && Filled(sorted[..], counts[..], list[..], offset)
  {
    ghost var s, cs, t := list[..], counts[..], sorted[..];
    var c := list[i] + offset;
    assert cs[c] == Less(s, |s|, s[i]) + Occ(s, i + 1, s[i]);
    PlaceSlot(s, i, cs[c]);
    counts[c] := counts[c] - 1;
    ghost var cs' := counts[..];
    assert cs' == cs[c := cs[c] - 1];
    sorted[counts[c]] := list[i];
    assert sorted[..] == t[cs'[c] := s[i]];
    PlaceStep(cs, cs', t, sorted[..], s, offset, i);
  }

  /** Before any cell is placed the counts are the numbers of cells at most each
      value, and no position is claimed. */
  lemma PlaceStart(cs: seq<int>, s: seq<int>, offset: int)
    requires forall c :: 0 <= c < |cs| ==> cs[c] == Less(s, |s|, c - offset + 1)
    ensures CountsAt(cs, s, offset, |s|)
  {
    forall c | 0 <= c < |cs| ensures cs[c] == Less(s, |s|, c - offset) + Occ(s, |s|, c - offset) {
      LessStep(s, |s|, c - offset);
    }
  }

  /** Cell `i` goes to one below its count `n`, a position between the number of
      cells below its value and the number at most it. */
  lemma PlaceSlot(s: seq<int>, i: int, n: int)
    requires 0 <= i < |s| && n == Less(s, |s|, s[i]) + Occ(s, i + 1, s[i])
    ensures n - 1 == Less(s, |s|, s[i]) + Occ(s, i, s[i])
    ensures Less(s, |s|, s[i]) <= n - 1 < Less(s, |s|, s[i] + 1)
  {
    OccMono(s, i + 1, |s|, s[i]);
    LessStep(s, |s|, s[i]);
  }

  /** Placing cell `i` keeps the counts and the filled positions in step. */
  lemma PlaceStep(cs: seq<int>, cs': seq<int>, t: seq<int>, t': seq<int>, s: seq<int>, offset: int, i: int)
    requires 0 <= i < |s| == |t| && 0 <= s[i] + offset < |cs|
    requires CountsAt(cs, s, offset, i + 1) && Filled(t, cs, s, offset)
    requires cs' == cs[s[i] + offset := cs[s[i] + offset] - 1]
    requires 0 <= cs'[s[i] + offset] < |t| && t' == t[cs'[s[i] + offset] := s[i]]
    ensures CountsAt(cs', s, offset, i) && Filled(t', cs', s, offset)
  {
    var x := s[i];
    var c := x + offset;
    var q := cs'[c];
    assert cs[c] == Less(s, |s|, x) + Occ(s, i + 1, x);
    PlaceSlot(s, i, cs[c]);
    forall d, p | 0 <= d < |cs'| && cs'[d] <= p < Less(s, |s|, d - offset + 1) && 0 <= p < |t'|
      ensures t'[p] == d - offset
    {
      if d == c {
        if p != q {
          assert cs[c] <= p;
        }
      } else {
        var y := d - offset;
        if y < x {
          LessMono(s, |s|, y + 1, x);
        } else {
          LessMono(s, |s|, x + 1, y);
        }
      }
    }
  }

  /** `list = sorted`: the list takes the new vector's cells. */
  method CopyBack(sorted: array<int>, list: array<int>)
    modifies list
    requires sorted != list && sorted.Length == list.Length
    ensures list[..] == sorted[..]
  {
    for p := 0 to list.Length
      invariant forall q :: 0 <= q < p ==> list[q] == sorted[q]
    {
      list[p] := sorted[p];
    }
  }

  /** Every position below the number of cells at most `hi` lies in the stretch
      of exactly one value from `x` on. */
  lemma {:induction false} FindValue(s: seq<int>, x: int, hi: int, p: int) returns (y: int)
    requires x <= hi && Less(s, |s|, x) <= p < Less(s, |s|, hi + 1)
    ensures x <= y <= hi && Less(s, |s|, y) <= p < Less(s, |s|, y + 1)
    decreases hi - x
  {
    if p < Less(s, |s|, x + 1) {
      y := x;
    } else {
      y := FindValue(s, x + 1, hi, p);
    }
  }

  /** When every value from `lo` to `hi` fills its stretch, the positions are
      sorted and hold the cells of `s`. */
  lemma CountingResult(s: seq<int>, t: seq<int>, cs: seq<int>, offset: int, lo: int, hi: int)
    requires |t| == |s| && 0 <= lo + offset && hi + offset < |cs|
    requires forall k :: 0 <= k < |s| ==> lo <= s[k] <= hi
    requires forall c :: 0 <= c < |cs| ==> cs[c] == Less(s, |s|, c - offset)
    requires Filled(t, cs, s, offset)
    ensures Sorted(t) && multiset(t) == multiset(s)
  {
    LessNone(s, |s|, lo);
    LessAll(s, |s|, hi + 1);
    forall a, b | 0 <= a < b < |t| ensures t[a] <= t[b] {
      var x := ValueAt(s, t, cs, offset, lo, hi, a);
      var y := ValueAt(s, t, cs, offset, lo, hi, b);
      if y < x {
        LessMono(s, |s|, y + 1, x);
      }
    }
    forall y ensures multiset(t)[y] == multiset(s)[y] {
      SameCount(s, t, cs, offset, lo, hi, y);
    }
    assert multiset(t) == multiset(s);
  }

  /** Each value occurs in the filled positions as often as in `s`. */
  lemma SameCount(s: seq<int>, t: seq<int>, cs: seq<int>, offset: int, lo: int, hi: int, y: int)
    requires |t| == |s| && 0 <= lo + offset && hi + offset < |cs|
    requires forall k :: 0 <= k < |s| ==> lo <= s[k] <= hi
    requires Less(s, |s|, lo) == 0 && Less(s, |s|, hi + 1) == |s|
    requires forall c :: 0 <= c < |cs| ==> cs[c] == Less(s, |s|, c - offset)
    requires Filled(t, cs, s, offset)
    ensures multiset(t)[y] == multiset(s)[y]
  {
    OccMultiset(s, |s|, y);
    assert s[..|s|] == s;
    if lo <= y <= hi {
      forall p | 0 <= p < |t| ensures t[p] == y <==> Less(s, |s|, y) <= p < Less(s, |s|, y + 1) {
        var x := ValueAt(s, t, cs, offset, lo, hi, p);
        if x < y {
          LessMono(s, |s|, x + 1, y);
        } else if y < x {
          LessMono(s, |s|, y + 1, x);
        }
      }
      LessStep(s, |s|, y);
      IntervalCount(t, y, Less(s, |s|, y), Less(s, |s|, y + 1));
    } else {
      forall p | 0 <= p < |t| ensures t[p] != y {
        var x := ValueAt(s, t, cs, offset, lo, hi, p);
      }
      IntervalCount(t, y, 0, 0);
      assert y !in multiset(s);
    }
  }

  /** Position `p` holds the value whose stretch it lies in. */
  lemma ValueAt(s: seq<int>, t: seq<int>, cs: seq<int>, offset: int, lo: int, hi: int, p: int) returns (x: int)
    requires |t| == |s| && 0 <= lo + offset && hi + offset < |cs| && 0 <= p < |t|
    requires Less(s, |s|, lo) == 0 && Less(s, |s|, hi + 1) == |s|
    requires forall c :: 0 <= c < |cs| ==> cs[c] == Less(s, |s|, c - offset)
    requires Filled(t, cs, s, offset)
    ensures lo <= x <= hi && t[p] == x && Less(s, |s|, x) <= p < Less(s, |s|, x + 1)
  {
    x := FindValue(s, lo, hi, p);
    assert cs[x + offset] == Less(s, |s|, x);
  }
}
