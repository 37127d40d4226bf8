/** What the in-place sorts of sorting/ promise, and facts about sorted sequences
    that several of them share. A `vector<int>` sorted in place is an `array<int>`
    here: the sorts never change its length. */
module SortSpec {
  import opened SeqFacts

  /** Ascending order of the cells `lo` to `hi - 1`. */
  ghost predicate SortedRange(s: seq<int>, lo: int, hi: int)
    requires 0 <= lo <= hi <= |s|
  {
    forall i, j :: lo <= i < j < hi ==> s[i] <= s[j]
  }

  /** Ascending order of the whole sequence. */
  ghost predicate Sorted(s: seq<int>) {
    forall i, j :: 0 <= i < j < |s| ==> s[i] <= s[j]
  }

  /** Every cell of `lo` to `hi - 1` is at most every cell of `lo2` to `hi2 - 1`. */
  ghost predicate Below(s: seq<int>, lo: int, hi: int, lo2: int, hi2: int)
    requires 0 <= lo <= hi <= |s| && 0 <= lo2 <= hi2 <= |s|
  {
    forall i, j :: lo <= i < hi && lo2 <= j < hi2 ==> s[i] <= s[j]
  }

  /** The cells from `k` on are in their final places: sorted, and no smaller than
      any cell before `k`. */
  ghost predicate Final(s: seq<int>, k: int) {
    0 <= k <= |s| && SortedRange(s, k, |s|) && Below(s, 0, k, k, |s|)
  }

  /** `x` and `y` agree on the cells `l..r`. */
  ghost predicate Agree(x: seq<int>, y: seq<int>, l: int, r: int) {
    |x| == |y| && 0 <= l <= r <= |x| && forall k :: l <= k < r ==> x[k] == y[k]
  }

  /** `x` and `y` agree on every cell outside `l..r`. */
  ghost predicate SameOutside(x: seq<int>, y: seq<int>, l: int, r: int) {
    |x| == |y| && forall k :: 0 <= k < |x| && (k < l || r <= k) ==> x[k] == y[k]
  }

  /** A sorted prefix in front of a final suffix makes the whole sequence sorted. */
  lemma FinalSorted(s: seq<int>, k: int)
    requires Final(s, k) && SortedRange(s, 0, k)
    ensures Sorted(s)
  {
    forall a, b | 0 <= a < b < |s| ensures s[a] <= s[b] {
      if a < k && k <= b {
        assert Below(s, 0, k, k, |s|);
      }
    }
  }

  /** Two sorted runs side by side, the first ending at most where the second
      begins, form one sorted run. */
  lemma JoinSorted(s: seq<int>, lo: int, mid: int, hi: int)
    requires 0 <= lo < mid < hi <= |s| && SortedRange(s, lo, mid) && SortedRange(s, mid, hi)
    requires s[mid - 1] <= s[mid]
    ensures SortedRange(s, lo, hi)
  {
    forall a, b | lo <= a < b < hi ensures s[a] <= s[b] {
      if a < mid <= b {
        assert s[a] <= s[mid - 1] && s[mid] <= s[b];
      }
    }
  }

  /** The exchange through a temporary that the sorts write out inline. */
  method Swap(a: array<int>, i: int, j: int)
    modifies a
    requires 0 <= i < a.Length && 0 <= j < a.Length
    ensures a[..] == Exchange(old(a[..]), i, j)
  {
    var temp := a[i];
    a[i] := a[j];
    a[j] := temp;
  }

  /** `s` with the cell at `i` moved down to position `p`, the cells `p` to `i - 1`
      moving up by one: the effect of the insertion sorts' shift loops. */
  function MoveDown(s: seq<int>, p: int, i: int): (r: seq<int>)
    requires 0 <= p <= i < |s|
    ensures |r| == |s| && r[p] == s[i]
    ensures forall k :: 0 <= k < p || i < k < |s| ==> r[k] == s[k]
    ensures forall k :: p < k <= i ==> r[k] == s[k - 1]
  {
    s[..p] + [s[i]] + s[p..i] + s[i + 1..]
  }

  /** Moving one cell keeps the multiset of cells. */
  lemma MoveDownPermutes(s: seq<int>, p: int, i: int)
    requires 0 <= p <= i < |s|
    ensures multiset(MoveDown(s, p, i)) == multiset(s)
  {
    assert s == s[..p] + s[p..i] + [s[i]] + s[i + 1..];
  }

  /** Inserting cell `i` into the sorted prefix before it, at the position `p` that
      the shift loop stops at (everything before `p` at most the value, everything
      from `p` to `i - 1` above it), leaves the prefix up to `i` sorted. */
  lemma MoveDownSorts(s: seq<int>, p: int, i: int)
    requires 0 <= p <= i < |s| && SortedRange(s, 0, i)
    requires p > 0 ==> s[p - 1] <= s[i]
    requires forall k :: p <= k < i ==> s[k] > s[i]
    ensures SortedRange(MoveDown(s, p, i), 0, i + 1)
  {
    var r := MoveDown(s, p, i);
    forall a, b | 0 <= a < b < i + 1 ensures r[a] <= r[b] {
      if b < p {
      } else if b == p {
        assert r[a] == s[a] <= s[p - 1];
      } else if a < p {
        assert r[a] == s[a] <= s[p - 1] <= s[i] < s[b - 1];
      } else if a == p {
        assert s[b - 1] > s[i];
      } else {
        assert r[a] == s[a - 1] && r[b] == s[b - 1];
      }
    }
  }

  /** A range is sorted exactly when its slice is. */
  lemma SortedSlice(s: seq<int>, lo: int, hi: int)
    requires 0 <= lo <= hi <= |s|
    ensures SortedRange(s, lo, hi) <==> Sorted(s[lo..hi])
  {
    if Sorted(s[lo..hi]) {
      forall a, b | lo <= a < b < hi ensures s[a] <= s[b] {
        assert s[a] == s[lo..hi][a - lo] && s[b] == s[lo..hi][b - lo];
      }
    }
  }

  /** Replacing a slice by a permutation of it permutes the whole sequence. */
  lemma SplicePermutes(s: seq<int>, t: seq<int>, lo: int, hi: int)
    requires 0 <= lo <= hi <= |s| == |t|
    requires t[..lo] == s[..lo] && t[hi..] == s[hi..] && multiset(t[lo..hi]) == multiset(s[lo..hi])
    ensures multiset(t) == multiset(s)
  {
    assert s == s[..lo] + s[lo..hi] + s[hi..];
    assert t == t[..lo] + t[lo..hi] + t[hi..];
  }

  /** Two permutations that agree from `i` on permute their prefixes before `i`. */
  lemma PrefixPermutes(u: seq<int>, v: seq<int>, i: int)
    requires 0 <= i <= |u| == |v| && multiset(v) == multiset(u) && v[i..] == u[i..]
    ensures multiset(v[..i]) == multiset(u[..i])
  {
    assert u == u[..i] + u[i..] && v == v[..i] + v[i..];
    assert multiset(u) == multiset(u[..i]) + multiset(u[i..]);
    assert multiset(v) == multiset(v[..i]) + multiset(v[i..]);
    forall x ensures multiset(v[..i])[x] == multiset(u[..i])[x] {
      assert multiset(v)[x] == multiset(u)[x];
    }
  }

  /** A permutation that changes nothing outside `lo..hi` permutes that range. */
  lemma RangePermutes(s: seq<int>, t: seq<int>, lo: int, hi: int)
    requires 0 <= lo <= hi <= |s| == |t| && multiset(t) == multiset(s) && SameOutside(t, s, lo, hi)
    ensures multiset(t[lo..hi]) == multiset(s[lo..hi])
  {
    OutsideSlices(s, t, lo, hi);
    ThreeParts(s, lo, hi);
    ThreeParts(t, lo, hi);
    forall x ensures multiset(t[lo..hi])[x] == multiset(s[lo..hi])[x] {
      assert multiset(t)[x] == multiset(s)[x];
    }
  }

  /** Sequences equal outside `lo..hi` have equal slices before and after it. */
  lemma OutsideSlices(s: seq<int>, t: seq<int>, lo: int, hi: int)
    requires 0 <= lo <= hi <= |s| == |t| && SameOutside(t, s, lo, hi)
    ensures t[..lo] == s[..lo] && t[hi..] == s[hi..]
  {
  }

  /** The cells of a sequence are those before, within and after `lo..hi`. */
  lemma ThreeParts(s: seq<int>, lo: int, hi: int)
    requires 0 <= lo <= hi <= |s|
    ensures multiset(s) == multiset(s[..lo]) + multiset(s[lo..hi]) + multiset(s[hi..])
  {
    assert s == s[..lo] + s[lo..hi] + s[hi..];
  }

  /** A bound on every cell of `lo..hi` survives a permutation of that range. */
  lemma StaysBelow(s: seq<int>, t: seq<int>, lo: int, hi: int, p: int)
    requires 0 <= lo <= hi <= |s| == |t| && multiset(t) == multiset(s) && SameOutside(t, s, lo, hi)
    requires forall k :: lo <= k < hi ==> s[k] <= p
    ensures forall k :: lo <= k < hi ==> t[k] <= p
  {
    RangePermutes(s, t, lo, hi);
    forall k | lo <= k < hi ensures t[k] <= p {
      assert t[k] == t[lo..hi][k - lo];
      assert t[k] in multiset(s[lo..hi]);
      var k' :| 0 <= k' < hi - lo && s[lo..hi][k'] == t[k];
      assert s[lo + k'] == t[k];
    }
  }

  /** A lower bound on every cell of `lo..hi` survives a permutation of that range. */
  lemma StaysAbove(s: seq<int>, t: seq<int>, lo: int, hi: int, p: int)
    requires 0 <= lo <= hi <= |s| == |t| && multiset(t) == multiset(s) && SameOutside(t, s, lo, hi)
    requires forall k :: lo <= k < hi ==> p <= s[k]
    ensures forall k :: lo <= k < hi ==> p <= t[k]
  {
    RangePermutes(s, t, lo, hi);
    forall k | lo <= k < hi ensures p <= t[k] {
      assert t[k] == t[lo..hi][k - lo];
      assert t[k] in multiset(s[lo..hi]);
      var k' :| 0 <= k' < hi - lo && s[lo..hi][k'] == t[k];
      assert s[lo + k'] == t[k];
    }
  }

  /** The cells of a range are those of its two halves. */
  lemma SliceSplit(s: seq<int>, lo: int, mid: int, hi: int)
    requires 0 <= lo <= mid <= hi <= |s|
    ensures multiset(s[lo..hi]) == multiset(s[lo..mid]) + multiset(s[mid..hi])
  {
    assert s[lo..hi] == s[lo..mid] + s[mid..hi];
  }
}
