/** Facts about sequences shared by the containers, the symbol tables and the sorts: what
    replacing or exchanging elements does to the multiset of elements, and how
    concatenations regroup. */
module SeqFacts {

  /** Concatenation regroups freely. */
  lemma Regroup<T>(a: seq<T>, b: seq<T>, c: seq<T>)
    ensures a + (b + c) == (a + b) + c
  {
  }

  /** The empty sequence is a unit of concatenation. */
  lemma Unit<T>(a: seq<T>)
    ensures [] + a == a && a + [] == a
  {
  }

  /** A non-empty sequence is its head followed by its tail, also inside a concatenation. */
  lemma HeadTail<T>(a: seq<T>, b: seq<T>)
    requires |a| > 0
    ensures a == [a[0]] + a[1..] && a + b == [a[0]] + (a[1..] + b)
  {
    assert a == [a[0]] + a[1..];
  }

  /** Replacing the element at `i` trades one copy of it for one copy of `v`. */
  lemma Updated<T>(c: seq<T>, i: int, v: T)
    requires 0 <= i < |c|
    ensures multiset(c[i := v]) == multiset(c) - multiset{c[i]} + multiset{v}
  {
    assert c == c[..i] + [c[i]] + c[i + 1..];
    assert c[i := v] == c[..i] + [v] + c[i + 1..];
  }

  /** Exchanging two positions keeps the multiset of elements. */
  lemma Swapped<T>(c: seq<T>, i: int, j: int)
    requires 0 <= i < |c| && 0 <= j < |c|
    ensures multiset(c[i := c[j]][j := c[i]]) == multiset(c)
  {
    var d := c[i := c[j]];
    Updated(c, i, c[j]);
    Updated(d, j, c[i]);
    if i != j {
      assert d[j] == c[j];
    }
  }

  /** The sequence with positions `i` and `j` exchanged. */
  function Exchange<T>(c: seq<T>, i: int, j: int): (d: seq<T>)
    requires 0 <= i < |c| && 0 <= j < |c|
    ensures |d| == |c| && d[i] == c[j] && d[j] == c[i]
    ensures forall m :: 0 <= m < |c| && m != i && m != j ==> d[m] == c[m]
    ensures multiset(d) == multiset(c)
  {
    Swapped(c, i, j);
    c[i := c[j]][j := c[i]]
  }
}
