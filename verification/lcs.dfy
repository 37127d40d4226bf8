/** The longest common subsequence of dynamic_programming/longest_common_subsequence.cpp:
    a memoised recursion over pairs of suffixes, and a walk through the memo that
    collects one longest common subsequence. */
module LongestCommonSubsequence {

  function Max(a: int, b: int): int {
    if a < b then b else a
  }

  /** `t` is obtained from `s` by deleting cells. */
  ghost predicate Sub(t: string, s: string)
    decreases |s|
  {
    t == [] || (s != [] && ((t[0] == s[0] && Sub(t[1..], s[1..])) || Sub(t, s[1..])))
  }

  /** The recurrence lcs computes: 0 for an empty suffix, one more than the rest on
      a matching head, else the better of skipping either head. */
  function LcsLen(s1: string, s2: string, i1: int, i2: int): (r: nat)
    requires 0 <= i1 <= |s1| && 0 <= i2 <= |s2|
    decreases |s1| - i1 + |s2| - i2
  {
    if i1 == |s1| || i2 == |s2| then 0
    else if s1[i1] == s2[i2] then 1 + LcsLen(s1, s2, i1 + 1, i2 + 1)
    else Max(LcsLen(s1, s2, i1, i2 + 1), LcsLen(s1, s2, i1 + 1, i2))
  }

  /** Dropping the head of either suffix lowers the length by at most one. */
  lemma {:induction false} LcsSteps(s1: string, s2: string, i1: int, i2: int)
    requires 0 <= i1 <= |s1| && 0 <= i2 <= |s2|
    ensures i1 < |s1| ==> LcsLen(s1, s2, i1 + 1, i2) <= LcsLen(s1, s2, i1, i2) <= LcsLen(s1, s2, i1 + 1, i2) + 1
    ensures i2 < |s2| ==> LcsLen(s1, s2, i1, i2 + 1) <= LcsLen(s1, s2, i1, i2) <= LcsLen(s1, s2, i1, i2 + 1) + 1
    decreases |s1| - i1 + |s2| - i2
  {
    if i1 < |s1| && i2 < |s2| {
      LcsSteps(s1, s2, i1 + 1, i2);
      LcsSteps(s1, s2, i1, i2 + 1);
    }
  }

  /** No common subsequence of the two suffixes is longer than LcsLen. */
  lemma {:induction false} LcsIsUpperBound(s1: string, s2: string, i1: int, i2: int, t: string)
    requires 0 <= i1 <= |s1| && 0 <= i2 <= |s2|
    requires Sub(t, s1[i1..]) && Sub(t, s2[i2..])
    ensures |t| <= LcsLen(s1, s2, i1, i2)
    decreases |s1| - i1 + |s2| - i2
  {
    if t != [] {
      assert s1[i1..][1..] == s1[i1 + 1..] && s2[i2..][1..] == s2[i2 + 1..];
      LcsSteps(s1, s2, i1, i2);
      if Sub(t, s1[i1 + 1..]) {
        LcsIsUpperBound(s1, s2, i1 + 1, i2, t);
      } else if Sub(t, s2[i2 + 1..]) {
        LcsIsUpperBound(s1, s2, i1, i2 + 1, t);
      } else {
        LcsIsUpperBound(s1, s2, i1 + 1, i2 + 1, t[1..]);
      }
    }
  }

  /** A subsequence stays one when the sequence grows at the end. */
  lemma {:induction false} SubSkip(t: string, s: string, c: char)
    requires Sub(t, s)
    ensures Sub(t, s + [c])
    decreases |s|
  {
    if t != [] {
      assert (s + [c])[1..] == s[1..] + [c];
      if t[0] == s[0] && Sub(t[1..], s[1..]) {
        SubSkip(t[1..], s[1..], c);
      } else {
        SubSkip(t, s[1..], c);
      }
    }
  }

  /** A subsequence extended by `c` is one of the sequence extended by `c`. */
  lemma {:induction false} SubTake(t: string, s: string, c: char)
    requires Sub(t, s)
    ensures Sub(t + [c], s + [c])
    decreases |s|
  {
    if s == [] {
      assert t == [];
      assert Sub([], []);
    } else {
      assert (s + [c])[1..] == s[1..] + [c];
      if t == [] {
        SubTake(t, s[1..], c);
      } else if t[0] == s[0] && Sub(t[1..], s[1..]) {
        SubTake(t[1..], s[1..], c);
        assert (t + [c])[1..] == t[1..] + [c];
      } else {
        SubTake(t, s[1..], c);
      }
    }
  }

  /** The memo as lcs keeps it: `(|s1| + 1) x (|s2| + 1)` cells, each -1 or the
      LcsLen of its pair of suffixes; a filled cell's recursive calls are filled too. */
  ghost predicate Memo(memo: array2<int>, s1: string, s2: string)
    reads memo
  {
    memo.Length0 == |s1| + 1 && memo.Length1 == |s2| + 1 &&
    forall i, j :: 0 <= i <= |s1| && 0 <= j <= |s2| && memo[i, j] != -1 ==> Known(memo, s1, s2, i, j)
  }

  /** Cell `(i, j)` holds LcsLen, and so do the cells its recursion reads. */
  ghost predicate Known(memo: array2<int>, s1: string, s2: string, i: int, j: int)
    reads memo
    requires memo.Length0 == |s1| + 1 && memo.Length1 == |s2| + 1
    requires 0 <= i <= |s1| && 0 <= j <= |s2|
  {
    memo[i, j] == LcsLen(s1, s2, i, j) &&
    (i < |s1| && j < |s2| ==>
       if s1[i] == s2[j] then memo[i + 1, j + 1] != -1
       else memo[i + 1, j] != -1 && memo[i, j + 1] != -1)
  }

  /** lcs: the cell for `(i1, i2)` is computed once, from the recursive calls it
      needs, and then only read. */
  method Lcs(memo: array2<int>, s1: string, s2: string, i1: int, i2: int) returns (r: int)
    modifies memo
    requires 0 <= i1 <= |s1| && 0 <= i2 <= |s2| && Memo(memo, s1, s2)
    ensures Memo(memo, s1, s2) && r == memo[i1, i2] == LcsLen(s1, s2, i1, i2)
    ensures forall i, j :: 0 <= i < memo.Length0 && 0 <= j < memo.Length1 && old(memo[i, j]) != -1 ==>
              memo[i, j] == old(memo[i, j])
    ensures forall i, j :: 0 <= i < memo.Length0 && 0 <= j < memo.Length1 && (i < i1 || j < i2) ==>
              memo[i, j] == old(memo[i, j])
    decreases |s1| - i1 + |s2| - i2
  {
    if memo[i1, i2] == -1 {
      if i1 == |s1| || i2 == |s2| {
        Fill(memo, s1, s2, i1, i2, 0);
      } else if s1[i1] == s2[i2] {
        var rest := Lcs(memo, s1, s2, i1 + 1, i2 + 1);
        Fill(memo, s1, s2, i1, i2, 1 + rest);
      } else {
        var skip2 := Lcs(memo, s1, s2, i1, i2 + 1);
        var skip1 := Lcs(memo, s1, s2, i1 + 1, i2);
        Fill(memo, s1, s2, i1, i2, Max(skip2, skip1));
      }
    }
    r := memo[i1, i2];
  }

  /** Writing an empty cell whose value and recursive calls are known. */
  method Fill(memo: array2<int>, s1: string, s2: string, i1: int, i2: int, v: int)
    modifies memo
    requires 0 <= i1 <= |s1| && 0 <= i2 <= |s2| && Memo(memo, s1, s2) && memo[i1, i2] == -1
    requires v == LcsLen(s1, s2, i1, i2)
    requires i1 < |s1| && i2 < |s2| ==>
               if s1[i1] == s2[i2] then memo[i1 + 1, i2 + 1] != -1
               else memo[i1 + 1, i2] != -1 && memo[i1, i2 + 1] != -1
    ensures Memo(memo, s1, s2) && memo[i1, i2] == v
    ensures forall i, j :: 0 <= i < memo.Length0 && 0 <= j < memo.Length1 && (i != i1 || j != i2) ==>
              memo[i, j] == old(memo[i, j])
  {
    memo[i1, i2] := v;
    forall i, j | 0 <= i <= |s1| && 0 <= j <= |s2| && memo[i, j] != -1 ensures Known(memo, s1, s2, i, j) {
      if i != i1 || j != i2 {
        assert old(Known(memo, s1, s2, i, j));
        if i < |s1| && j < |s2| {
          assert old(memo[i + 1, j + 1]) != -1 ==> memo[i + 1, j + 1] != -1;
          assert old(memo[i + 1, j]) != -1 ==> memo[i + 1, j] != -1;
          assert old(memo[i, j + 1]) != -1 ==> memo[i, j + 1] != -1;
        }
      }
    }
  }

  /** backtrack: from `(0, 0)` the walk takes a matching head into the result and
      otherwise skips the head of `s1` when that keeps the memo's value, else the head
      of `s2`. The result is a common subsequence as long as LcsLen of the whole
      strings, so a longest one. */
  method Backtrack(memo: array2<int>, s1: string, s2: string) returns (result: string)
    requires Memo(memo, s1, s2) && memo[0, 0] != -1
    ensures Sub(result, s1) && Sub(result, s2) && |result| == LcsLen(s1, s2, 0, 0)
  {
    result := "";
    var i1, i2 := 0, 0;
    while i1 < |s1| && i2 < |s2|
      invariant 0 <= i1 <= |s1| && 0 <= i2 <= |s2| && memo[i1, i2] != -1
      invariant Sub(result, s1[..i1]) && Sub(result, s2[..i2])
      invariant |result| + LcsLen(s1, s2, i1, i2) == LcsLen(s1, s2, 0, 0)
      decreases |s1| - i1 + |s2| - i2
    {
      assert Known(memo, s1, s2, i1, i2);
      if s1[i1] == s2[i2] {
        SubExtend(result, s1, i1, true);
        SubExtend(result, s2, i2, true);
        result := result + [s1[i1]];
        i1, i2 := i1 + 1, i2 + 1;
      } else if memo[i1 + 1, i2] == memo[i1, i2] {
        assert Known(memo, s1, s2, i1 + 1, i2);
        SubExtend(result, s1, i1, false);
        i1 := i1 + 1;
      } else {
        assert Known(memo, s1, s2, i1 + 1, i2);
        SubExtend(result, s2, i2, false);
        i2 := i2 + 1;
      }
    }
    SubPrefix(result, s1, i1);
    SubPrefix(result, s2, i2);
  }

  /** A subsequence of `s[..i]`, with `s[i]` taken or not, is one of `s[..i + 1]`. */
  lemma SubExtend(t: string, s: string, i: int, take: bool)
    requires 0 <= i < |s| && Sub(t, s[..i])
    ensures take ==> Sub(t + [s[i]], s[..i + 1])
    ensures Sub(t, s[..i + 1])
  {
    assert s[..i + 1] == s[..i] + [s[i]];
    SubSkip(t, s[..i], s[i]);
    if take {
      SubTake(t, s[..i], s[i]);
    }
  }

  /** A subsequence of a prefix is one of the whole. */
  lemma {:induction false} SubPrefix(t: string, s: string, i: int)
    requires 0 <= i <= |s| && Sub(t, s[..i])
    ensures Sub(t, s)
    decreases |s| - i
  {
    if i == |s| {
      assert s[..i] == s;
    } else {
      SubSkip(t, s[..i], s[i]);
      assert s[..i] + [s[i]] == s[..i + 1];
      SubPrefix(t, s, i + 1);
    }
  }

  /** The memo set up empty, lcs from `(0, 0)`, then backtrack: the length and a
      common subsequence of it, which no common subsequence outgrows. */
  method LongestCommonSubsequence(s1: string, s2: string) returns (len: int, sub: string)
    ensures len == |sub| && Sub(sub, s1) && Sub(sub, s2)
    ensures forall t :: Sub(t, s1) && Sub(t, s2) ==> |t| <= len
  {
    var memo := new int[|s1| + 1, |s2| + 1]((_, _) => -1);
    len := Lcs(memo, s1, s2, 0, 0);
    sub := Backtrack(memo, s1, s2);
    forall t | Sub(t, s1) && Sub(t, s2) ensures |t| <= len {
      assert s1[0..] == s1 && s2[0..] == s2;
      LcsIsUpperBound(s1, s2, 0, 0, t);
    }
  }
}
