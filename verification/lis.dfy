/** The longest increasing subsequence of
    dynamic_programming/longest_increasing_subsequence.cpp: a memoised recursion
    gives, for each position, the length of the longest strictly increasing
    subsequence starting there and the next position of one such subsequence; a
    backtrack follows those links from a position of largest length. */
module LongestIncreasingSubsequence {

  function Max(a: int, b: int): int {
    if a >= b then a else b
  }

  /** The length of the longest strictly increasing subsequence that starts at
      position `i` (0 past the end). */
  function LisFrom(values: seq<int>, i: nat): int
    decreases |values| - i, |values| + 1
  {
    if i >= |values| then 0 else 1 + Upto(values, i, |values|)
  }

  /** The best LisFrom among the positions `k` with `i < k < j` whose value is
      larger than the value at `i` (0 when there is none). */
  function Upto(values: seq<int>, i: nat, j: nat): int
    requires i < |values| && j <= |values|
    decreases |values| - i, j
  {
    if j <= i + 1 then 0
    else Max(Upto(values, i, j - 1), if values[j - 1] > values[i] then LisFrom(values, j - 1) else 0)
  }

  /** No candidate is worse than none. */
  lemma {:induction false} UptoNonNegative(values: seq<int>, i: nat, j: nat)
    requires i < |values| && j <= |values|
    ensures Upto(values, i, j) >= 0
    decreases j
  {
    if j > i + 1 {
      UptoNonNegative(values, i, j - 1);
    }
  }

  /** Every position starts a subsequence of length at least one. */
  lemma LisPositive(values: seq<int>, i: nat)
    requires i < |values|
    ensures LisFrom(values, i) >= 1
  {
    UptoNonNegative(values, i, |values|);
  }

  /** Each larger value after `i` and before `j` is a candidate of Upto. */
  lemma {:induction false} UptoCovers(values: seq<int>, i: nat, j: nat, k: nat)
    requires i < k < j <= |values| && values[k] > values[i]
    ensures Upto(values, i, j) >= LisFrom(values, k)
    decreases j
  {
    if k < j - 1 {
      UptoCovers(values, i, j - 1, k);
    }
  }

  /** A strictly increasing subsequence, given by its positions. */
  ghost predicate Increasing(values: seq<int>, idx: seq<int>) {
    (forall t :: 0 <= t < |idx| ==> 0 <= idx[t] < |values|) &&
    (forall t :: 0 <= t < |idx| - 1 ==> idx[t] < idx[t + 1] && values[idx[t]] < values[idx[t + 1]])
  }

  /** No strictly increasing subsequence starting at a position is longer than
      LisFrom there. */
  lemma {:induction false} LisIsUpperBound(values: seq<int>, idx: seq<int>)
    requires Increasing(values, idx) && idx != []
    ensures |idx| <= LisFrom(values, idx[0])
    decreases |idx|
  {
    LisPositive(values, idx[0]);
    if |idx| > 1 {
      assert Increasing(values, idx[1..]);
      LisIsUpperBound(values, idx[1..]);
      UptoCovers(values, idx[0], |values|, idx[1]);
    }
  }

  /** The link stored for position `k`: -1 when no larger value follows, otherwise
      a later position of larger value from which the rest of a longest
      subsequence starts. */
  ghost predicate ChildOk(values: seq<int>, k: int, c: int)
    requires 0 <= k < |values|
  {
    (c == -1 && Upto(values, k, |values|) == 0) ||
    (k < c < |values| && values[c] > values[k] && LisFrom(values, c) == Upto(values, k, |values|))
  }

  /** A memo entry that is computed (positive) holds LisFrom and a right link; an
      entry not yet computed has no link. */
  ghost predicate Entry(values: seq<int>, k: int, m: int, c: int)
    requires 0 <= k < |values|
  {
    (m > 0 ==> m == LisFrom(values, k) && ChildOk(values, k, c)) && (m <= 0 ==> c == -1)
  }

  /** The entries from `from` on are right. */
  ghost predicate Good(values: seq<int>, memo: array<int>, child: array<int>, from: int)
    reads memo, child
  {
    memo.Length == |values| == child.Length &&
    forall k {:trigger memo[k]} :: 0 <= from <= k < |values| ==> Entry(values, k, memo[k], child[k])
  }

  /** lis: the length of the longest strictly increasing subsequence from `i`,
      computed once: the entry starts at 1 and grows to one more than the length
      from each later position of larger value, whose own lis is computed first;
      the link is the first such position that gives the best length. Entries
      before `i` are not touched. */
  method Lis(values: seq<int>, memo: array<int>, child: array<int>, i: nat) returns (r: int)
    modifies memo, child
    requires memo != child && Good(values, memo, child, i)
    ensures r == LisFrom(values, i) && Good(values, memo, child, i)
    ensures i < |values| ==> memo[i] > 0
    ensures forall k {:trigger memo[k]} :: 0 <= k < i && k < memo.Length ==> memo[k] == old(memo[k])
    ensures forall k {:trigger child[k]} :: 0 <= k < i && k < child.Length ==> child[k] == old(child[k])
    decreases |values| - i
  {
    if i >= |values| {
      return 0;
    }
    if memo[i] <= 0 {
      memo[i] := 1;
      for j := i + 1 to |values|
        invariant Good(values, memo, child, i + 1)
        invariant memo[i] == 1 + Upto(values, i, j)
        invariant child[i] == -1 ==> Upto(values, i, j) == 0
        invariant child[i] != -1 ==> i < child[i] < j && values[child[i]] > values[i] &&
                                     LisFrom(values, child[i]) == Upto(values, i, j)
        invariant forall k {:trigger memo[k]} :: 0 <= k < i ==> memo[k] == old(memo[k])
        invariant forall k {:trigger child[k]} :: 0 <= k < i ==> child[k] == old(child[k])
      {
        UptoNonNegative(values, i, j);
        var newLisSize := Lis(values, memo, child, j);
        newLisSize := 1 + newLisSize;
        if values[j] > values[i] && newLisSize > memo[i] {
          memo[i] := newLisSize;
          child[i] := j;
        }
      }
      LisPositive(values, i);
    }
    r := memo[i];
  }

  /** backtrack: starts from the first position of largest memo entry and follows
      the links to -1, collecting the values. The result is a strictly
      increasing subsequence of the values, and no strictly increasing
      subsequence is longer. */
  method Backtrack(values: seq<int>, memo: array<int>, child: array<int>)
    returns (result: seq<int>, ghost idx: seq<int>)
    requires |values| > 0 && Good(values, memo, child, 0)
    requires forall k {:trigger memo[k]} :: 0 <= k < memo.Length ==> memo[k] > 0
    ensures Increasing(values, idx) && |result| == |idx| && forall t :: 0 <= t < |idx| ==> result[t] == values[idx[t]]
    ensures forall other :: Increasing(values, other) ==> |other| <= |result|
  {
    var index := FirstMaximum(memo);
    ghost var total := memo[index];
    assert Entry(values, index, memo[index], child[index]);
    result, idx := [], [];
    while index != -1
      invariant Followed(values, result, idx, index, total)
      decreases if index == -1 then 0 else |values| - index
    {
      assert Entry(values, index, memo[index], child[index]);
      FollowStep(values, result, idx, index, total, child[index]);
      result, idx := result + [values[index]], idx + [index];
      index := child[index];
    }
    forall other | Increasing(values, other) ensures |other| <= |result| {
      if other != [] {
        LisIsUpperBound(values, other);
        assert memo[other[0]] <= total;
      }
    }
  }

  /** The backtrack so far: `result` holds the values at the increasing positions
      `idx`, and the longest subsequence from the next position `index` (-1 at
      the end) makes up the rest of `total`. */
  ghost predicate Followed(values: seq<int>, result: seq<int>, idx: seq<int>, index: int, total: int) {
    -1 <= index < |values| && Increasing(values, idx) && |result| == |idx| &&
    (forall t :: 0 <= t < |idx| ==> result[t] == values[idx[t]]) &&
    (index != -1 ==> |result| + LisFrom(values, index) == total) &&
    (index != -1 && idx != [] ==> idx[|idx| - 1] < index && values[idx[|idx| - 1]] < values[index]) &&
    (index == -1 ==> |result| == total)
  }

  /** Taking the value at `index` and moving to its link keeps the backtrack on a
      longest subsequence. */
  lemma FollowStep(values: seq<int>, result: seq<int>, idx: seq<int>, index: int, total: int, c: int)
    requires Followed(values, result, idx, index, total) && index != -1
    requires ChildOk(values, index, c)
    ensures Followed(values, result + [values[index]], idx + [index], c, total)
    ensures c == -1 || index < c
  {
    var idx' := idx + [index];
    assert Increasing(values, idx') by {
      assert forall t :: 0 <= t < |idx| ==> idx'[t] == idx[t];
    }
  }

  /** The first position of a largest entry. */
  method FirstMaximum(memo: array<int>) returns (index: int)
    requires memo.Length > 0
    ensures 0 <= index < memo.Length
    ensures forall k {:trigger memo[k]} :: 0 <= k < memo.Length ==> memo[k] <= memo[index]
    ensures forall k {:trigger memo[k]} :: 0 <= k < index ==> memo[k] < memo[index]
  {
    index := 0;
    for i := 1 to memo.Length
      invariant 0 <= index < i
      invariant forall k {:trigger memo[k]} :: 0 <= k < i ==> memo[k] <= memo[index]
      invariant forall k {:trigger memo[k]} :: 0 <= k < index ==> memo[k] < memo[index]
    {
      if memo[i] > memo[index] {
        index := i;
      }
    }
  }

  /** main without its input and output: every lis from the first position on,
      then the backtrack. The values must not be empty. */
  method LongestIncreasing(values: seq<int>) returns (result: seq<int>, ghost idx: seq<int>)
    requires |values| > 0
    ensures Increasing(values, idx) && |result| == |idx| && forall t :: 0 <= t < |idx| ==> result[t] == values[idx[t]]
    ensures forall other :: Increasing(values, other) ==> |other| <= |result|
  {
    var memo := new int[|values|](_ => 0);
    var child := new int[|values|](_ => -1);
    for i := 0 to |values|
      invariant Good(values, memo, child, 0)
      invariant forall k {:trigger memo[k]} :: 0 <= k < i ==> memo[k] > 0
    {
      var _ := Lis(values, memo, child, i);
    }
    result, idx := Backtrack(values, memo, child);
  }
}
