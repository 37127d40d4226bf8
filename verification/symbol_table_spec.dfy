/** The abstract ordered symbol table behind both Java tables
    (data_structures/LLRBSymbolTable.java and data_structures/OrderedSymbolTable.java):
    a sequence of entries with strictly ascending keys, and what put, delete, rank and
    select do to it. */
module SymbolTableSpec {
  import opened Wrappers
  import SeqFacts


  /** One key-value pair: an entry of the in-order sequence. */
  datatype Entry<V> = Entry(key: int, val: V)

  /** Keys strictly ascending: the order every operation keeps. */
  ghost predicate Strict<V>(s: seq<Entry<V>>) {
    forall i, j :: 0 <= i < j < |s| ==> s[i].key < s[j].key
  }

  /** The value stored under `k`, if any. */
  function Lookup<V>(s: seq<Entry<V>>, k: int): Option<V> {
    if s == [] then None
    else if s[0].key == k then Some(s[0].val)
    else Lookup(s[1..], k)
  }

  /** Entries whose key is below or above `k`. */
  function Below<V>(s: seq<Entry<V>>, k: int): seq<Entry<V>> {
    if s == [] then [] else (if s[0].key < k then [s[0]] else []) + Below(s[1..], k)
  }

  function Above<V>(s: seq<Entry<V>>, k: int): seq<Entry<V>> {
    if s == [] then [] else (if s[0].key > k then [s[0]] else []) + Above(s[1..], k)
  }

  /** What `put` does to the in-order sequence. */
  function PutSeq<V>(s: seq<Entry<V>>, k: int, val: V): seq<Entry<V>> {
    Below(s, k) + [Entry(k, val)] + Above(s, k)
  }

  /** What deleting `k` does to the in-order sequence. */
  function DelSeq<V>(s: seq<Entry<V>>, k: int): seq<Entry<V>> {
    Below(s, k) + Above(s, k)
  }

  ghost predicate KeysBelow<V>(s: seq<Entry<V>>, b: int) {
    forall i :: 0 <= i < |s| ==> s[i].key < b
  }

  ghost predicate KeysAbove<V>(s: seq<Entry<V>>, b: int) {
    forall i :: 0 <= i < |s| ==> s[i].key > b
  }

  lemma StrictParts<V>(a: seq<Entry<V>>, x: Entry<V>, b: seq<Entry<V>>)
    requires Strict(a + [x] + b)
    ensures Strict(a) && Strict(b) && KeysBelow(a, x.key) && KeysAbove(b, x.key)
  {
    var s := a + [x] + b;
    assert s[|a|] == x;
    forall i, j | 0 <= i < j < |a| ensures a[i].key < a[j].key {
      assert a[i] == s[i] && a[j] == s[j];
    }
    forall i, j | 0 <= i < j < |b| ensures b[i].key < b[j].key {
      assert b[i] == s[|a| + 1 + i] && b[j] == s[|a| + 1 + j];
    }
    forall i | 0 <= i < |a| ensures a[i].key < x.key {
      assert a[i] == s[i];
    }
    forall i | 0 <= i < |b| ensures x.key < b[i].key {
      assert b[i] == s[|a| + 1 + i];
    }
  }

  lemma StrictJoin<V>(a: seq<Entry<V>>, x: Entry<V>, b: seq<Entry<V>>)
    requires Strict(a) && Strict(b) && KeysBelow(a, x.key) && KeysAbove(b, x.key)
    ensures Strict(a + [x] + b)
  {
    var s := a + [x] + b;
    forall i, j | 0 <= i < j < |s| ensures s[i].key < s[j].key {
      if j < |a| {
        assert s[i] == a[i] && s[j] == a[j];
      } else if i > |a| {
        assert s[i] == b[i - |a| - 1] && s[j] == b[j - |a| - 1];
      } else if i == |a| {
        assert s[j] == b[j - |a| - 1];
      } else if j == |a| {
        assert s[i] == a[i];
      } else {
        assert s[i] == a[i] && s[j] == b[j - |a| - 1];
      }
    }
  }

  lemma BoundsJoin<V>(a: seq<Entry<V>>, x: Entry<V>, b: seq<Entry<V>>, k: int)
    ensures KeysBelow(a + [x] + b, k) <==> KeysBelow(a, k) && x.key < k && KeysBelow(b, k)
    ensures KeysAbove(a + [x] + b, k) <==> KeysAbove(a, k) && x.key > k && KeysAbove(b, k)
  {
    var s := a + [x] + b;
    assert forall i :: 0 <= i < |a| ==> a[i] == s[i];
    assert forall i :: 0 <= i < |b| ==> b[i] == s[|a| + 1 + i];
    assert s[|a|] == x;
    if KeysBelow(a, k) && x.key < k && KeysBelow(b, k) {
      forall i | 0 <= i < |s| ensures s[i].key < k {
        if i < |a| { assert s[i] == a[i]; }
        else if i > |a| { assert s[i] == b[i - |a| - 1]; }
      }
    }
    if KeysAbove(a, k) && x.key > k && KeysAbove(b, k) {
      forall i | 0 <= i < |s| ensures s[i].key > k {
        if i < |a| { assert s[i] == a[i]; }
        else if i > |a| { assert s[i] == b[i - |a| - 1]; }
      }
    }
  }

  lemma BelowAboveAppend<V>(a: seq<Entry<V>>, b: seq<Entry<V>>, k: int)
    ensures Below(a + b, k) == Below(a, k) + Below(b, k)
    ensures Above(a + b, k) == Above(a, k) + Above(b, k)
  {
    BelowAppend(a, b, k);
    AboveAppend(a, b, k);
  }

  lemma BelowCons<V>(x: Entry<V>, s: seq<Entry<V>>, k: int)
    ensures Below([x] + s, k) == (if x.key < k then [x] else []) + Below(s, k)
  {
    assert ([x] + s)[1..] == s;
  }

  lemma {:induction false} BelowAppend<V>(a: seq<Entry<V>>, b: seq<Entry<V>>, k: int)
    ensures Below(a + b, k) == Below(a, k) + Below(b, k)
  {
    if a == [] {
      assert a + b == b;
    } else {
      var x, rest := a[0], a[1..];
      BelowAppend(rest, b, k);
      SeqFacts.HeadTail(a, b);
      BelowCons(x, rest + b, k);
      BelowCons(x, rest, k);
      SeqFacts.Regroup(if x.key < k then [x] else [], Below(rest, k), Below(b, k));
    }
  }

  lemma AboveCons<V>(x: Entry<V>, s: seq<Entry<V>>, k: int)
    ensures Above([x] + s, k) == (if x.key > k then [x] else []) + Above(s, k)
  {
    assert ([x] + s)[1..] == s;
  }

  lemma {:induction false} AboveAppend<V>(a: seq<Entry<V>>, b: seq<Entry<V>>, k: int)
    ensures Above(a + b, k) == Above(a, k) + Above(b, k)
  {
    if a == [] {
      assert a + b == b;
    } else {
      var x, rest := a[0], a[1..];
      AboveAppend(rest, b, k);
      SeqFacts.HeadTail(a, b);
      AboveCons(x, rest + b, k);
      AboveCons(x, rest, k);
      SeqFacts.Regroup(if x.key > k then [x] else [], Above(rest, k), Above(b, k));
    }
  }

  lemma {:induction false} FiltersOfLarger<V>(s: seq<Entry<V>>, k: int)
    requires KeysAbove(s, k)
    ensures Below(s, k) == [] && Above(s, k) == s
  {
    if s != [] {
      FiltersOfLarger(s[1..], k);
    }
  }

  lemma {:induction false} FiltersOfSmaller<V>(s: seq<Entry<V>>, k: int)
    requires KeysBelow(s, k)
    ensures Below(s, k) == s && Above(s, k) == []
  {
    if s != [] {
      FiltersOfSmaller(s[1..], k);
    }
  }

  /** The filters of `l + [x] + r`, piece by piece. */
  /** No key of a sequence above `b` lies below `k <= b`. */
  lemma BelowNone<V>(r: seq<Entry<V>>, b: int, k: int)
    requires KeysAbove(r, b) && k <= b
    ensures Below(r, k) == []
  {
    assert KeysAbove(r, k) by {
      forall i | 0 <= i < |r| ensures r[i].key > k { assert r[i].key > b; }
    }
    FiltersOfLarger(r, k);
  }

  /** Every key of a sequence below `b` lies below `k >= b`. */
  lemma BelowAll<V>(l: seq<Entry<V>>, b: int, k: int)
    requires KeysBelow(l, b) && k >= b
    ensures Below(l, k) == l
  {
    assert KeysBelow(l, k) by {
      forall i | 0 <= i < |l| ensures l[i].key < k { assert l[i].key < b; }
    }
    FiltersOfSmaller(l, k);
  }

  lemma FiltersJoin<V>(l: seq<Entry<V>>, x: Entry<V>, r: seq<Entry<V>>, k: int)
    ensures Below(l + [x] + r, k) == Below(l, k) + (if x.key < k then [x] else []) + Below(r, k)
    ensures Above(l + [x] + r, k) == Above(l, k) + (if x.key > k then [x] else []) + Above(r, k)
  {
    BelowAboveAppend(l + [x], r, k);
    BelowAboveAppend(l, [x], k);
    SeqFacts.Unit([x]);
    BelowCons(x, [], k);
    AboveCons(x, [], k);
    SeqFacts.Unit(if x.key < k then [x] else []);
    SeqFacts.Unit(if x.key > k then [x] else []);
  }

  lemma {:induction false} LookupAppend<V>(a: seq<Entry<V>>, b: seq<Entry<V>>, k: int)
    ensures Lookup(a + b, k) == if Lookup(a, k).Some? then Lookup(a, k) else Lookup(b, k)
  {
    if a == [] {
      assert a + b == b;
    } else {
      assert (a + b)[1..] == a[1..] + b;
      LookupAppend(a[1..], b, k);
    }
  }

  /** No entry of `s` has key `k` when all of them lie on one side of it. */
  lemma {:induction false} LookupMissing<V>(s: seq<Entry<V>>, k: int)
    requires KeysBelow(s, k) || KeysAbove(s, k)
    ensures Lookup(s, k) == None
  {
    if s != [] {
      LookupMissing(s[1..], k);
    }
  }

  /** `Lookup` answers exactly the stored keys. */
  lemma {:induction false} LookupMeaning<V>(s: seq<Entry<V>>, k: int)
    ensures Lookup(s, k).Some? ==> Entry(k, Lookup(s, k).value) in s
    ensures Lookup(s, k).None? ==> forall i :: 0 <= i < |s| ==> s[i].key != k
  {
    if s != [] && s[0].key != k {
      LookupMeaning(s[1..], k);
      if Lookup(s, k).None? {
        forall i | 0 <= i < |s| ensures s[i].key != k {
          if i > 0 { assert s[i] == s[1..][i - 1]; }
        }
      }
    }
  }

  lemma {:induction false} FilterBounds<V>(s: seq<Entry<V>>, k: int, m: int)
    ensures KeysAbove(s, m) ==> KeysAbove(Below(s, k), m) && KeysAbove(Above(s, k), m)
    ensures KeysBelow(s, m) ==> KeysBelow(Below(s, k), m) && KeysBelow(Above(s, k), m)
    ensures KeysBelow(Below(s, k), k) && KeysAbove(Above(s, k), k)
  {
    if s != [] {
      FilterBounds(s[1..], k, m);
    }
  }

  lemma {:induction false} FilterStrict<V>(s: seq<Entry<V>>, k: int)
    requires Strict(s)
    ensures Strict(Below(s, k)) && Strict(Above(s, k))
  {
    if s != [] {
      StrictParts([], s[0], s[1..]);
      assert [] + [s[0]] + s[1..] == s;
      FilterStrict(s[1..], k);
      FilterBounds(s[1..], k, s[0].key);
      if s[0].key < k {
        StrictJoin([], s[0], Below(s[1..], k));
        assert [] + [s[0]] + Below(s[1..], k) == Below(s, k);
      }
      if s[0].key > k {
        StrictJoin([], s[0], Above(s[1..], k));
        assert [] + [s[0]] + Above(s[1..], k) == Above(s, k);
      }
    }
  }

  lemma PutSeqLeft<V>(l: seq<Entry<V>>, x: Entry<V>, r: seq<Entry<V>>, k: int, val: V)
    requires KeysAbove(r, x.key) && k < x.key
    ensures PutSeq(l + [x] + r, k, val) == PutSeq(l, k, val) + [x] + r
  {
    FiltersJoin(l, x, r, k);
    FiltersOfLarger(r, k);
    var bl, al, e := Below(l, k), Above(l, k), Entry(k, val);
    SeqFacts.Unit(bl);
    SeqFacts.Regroup(bl + [e], al + [x], r);
    SeqFacts.Regroup(bl + [e], al, [x]);
  }

  lemma PutSeqRight<V>(l: seq<Entry<V>>, x: Entry<V>, r: seq<Entry<V>>, k: int, val: V)
    requires KeysBelow(l, x.key) && k > x.key
    ensures PutSeq(l + [x] + r, k, val) == l + [x] + PutSeq(r, k, val)
  {
    FiltersJoin(l, x, r, k);
    FiltersOfSmaller(l, k);
    var br, ar, e := Below(r, k), Above(r, k), Entry(k, val);
    SeqFacts.Unit<Entry<V>>([]);
    SeqFacts.Unit(ar);
    SeqFacts.Regroup(l + [x], br + [e], ar);
    SeqFacts.Regroup(l + [x], br, [e]);
  }

  lemma PutSeqHere<V>(l: seq<Entry<V>>, x: Entry<V>, r: seq<Entry<V>>, k: int, val: V)
    requires KeysBelow(l, x.key) && KeysAbove(r, x.key) && k == x.key
    ensures PutSeq(l + [x] + r, k, val) == l + [Entry(k, val)] + r
  {
    FiltersJoin(l, x, r, k);
    FiltersOfSmaller(l, k);
    FiltersOfLarger(r, k);
    SeqFacts.Unit(l);
    SeqFacts.Unit<Entry<V>>([]);
    SeqFacts.Unit(r);
  }

  lemma LookupPrefix<V>(a: seq<Entry<V>>, b: seq<Entry<V>>, k: int)
    requires |a| <= |b| && b[..|a|] == a && Lookup(a, k).Some?
    ensures Lookup(b, k).Some?
  {
    LookupAppend(a, b[|a|..], k);
    assert b == a + b[|a|..];
  }

  lemma LookupSuffix<V>(a: seq<Entry<V>>, b: seq<Entry<V>>, k: int)
    requires |a| <= |b| && b[|b| - |a|..] == a && Lookup(a, k).Some?
    ensures Lookup(b, k).Some?
  {
    LookupAppend(b[..|b| - |a|], a, k);
    assert b == b[..|b| - |a|] + a;
  }

  lemma TailOfJoin<T>(a: seq<T>, x: seq<T>, b: seq<T>)
    requires |a| > 0
    ensures (a + x + b)[1..] == a[1..] + x + b
  {
  }

  lemma DropLastOfJoin<T>(a: seq<T>, x: seq<T>, b: seq<T>)
    requires |b| > 0
    ensures (a + x + b)[..|a + x + b| - 1] == a + x + b[..|b| - 1]
  {
  }

  lemma DelSeqLeft<V>(l: seq<Entry<V>>, x: Entry<V>, r: seq<Entry<V>>, k: int)
    requires KeysAbove(r, x.key) && k < x.key
    ensures DelSeq(l + [x] + r, k) == DelSeq(l, k) + [x] + r
  {
    FiltersJoin(l, x, r, k);
    FiltersOfLarger(r, k);
    var bl, al := Below(l, k), Above(l, k);
    SeqFacts.Unit(bl);
    SeqFacts.Regroup(bl, al + [x], r);
    SeqFacts.Regroup(bl, al, [x]);
  }

  lemma DelSeqRight<V>(l: seq<Entry<V>>, x: Entry<V>, r: seq<Entry<V>>, k: int)
    requires KeysBelow(l, x.key) && k > x.key
    ensures DelSeq(l + [x] + r, k) == l + [x] + DelSeq(r, k)
  {
    FiltersJoin(l, x, r, k);
    FiltersOfSmaller(l, k);
    var br, ar := Below(r, k), Above(r, k);
    SeqFacts.Unit<Entry<V>>([]);
    SeqFacts.Unit(ar);
    SeqFacts.Regroup(l + [x], br, ar);
  }

  lemma DelSeqHere<V>(l: seq<Entry<V>>, x: Entry<V>, r: seq<Entry<V>>)
    requires KeysBelow(l, x.key) && KeysAbove(r, x.key)
    ensures DelSeq(l + [x] + r, x.key) == l + r
  {
    FiltersJoin(l, x, r, x.key);
    FiltersOfSmaller(l, x.key);
    FiltersOfLarger(r, x.key);
    SeqFacts.Unit(l);
    SeqFacts.Unit<Entry<V>>([]);
    SeqFacts.Unit(r);
  }

  lemma SuccessorJoin<T>(l: seq<T>, r: seq<T>)
    requires |r| > 0
    ensures l + [r[0]] + r[1..] == l + r
  {
    assert [r[0]] + r[1..] == r;
  }

  lemma {:induction false} LookupFilters<V>(s: seq<Entry<V>>, b: int, k: int)
    ensures Lookup(Below(s, b), k) == if k < b then Lookup(s, k) else None
    ensures Lookup(Above(s, b), k) == if k > b then Lookup(s, k) else None
  {
    if s != [] {
      LookupFilters(s[1..], b, k);
      var x := [s[0]];
      assert x[1..] == [];
      LookupAppend(if s[0].key < b then x else [], Below(s[1..], b), k);
      LookupAppend(if s[0].key > b then x else [], Above(s[1..], b), k);
    }
  }

  /** After put(k, val), get(k) is val and every other key keeps its value. */
  lemma PutLookup<V>(s: seq<Entry<V>>, k: int, val: V, k': int)
    ensures Lookup(PutSeq(s, k, val), k') == if k' == k then Some(val) else Lookup(s, k')
  {
    var e := [Entry(k, val)];
    assert e[1..] == [];
    LookupFilters(s, k, k');
    LookupAppend(Below(s, k) + e, Above(s, k), k');
    LookupAppend(Below(s, k), e, k');
  }

  /** After delete(k), `k` is absent and every other key keeps its value. */
  lemma DelLookup<V>(s: seq<Entry<V>>, k: int, k': int)
    ensures Lookup(DelSeq(s, k), k') == if k' == k then None else Lookup(s, k')
  {
    LookupFilters(s, k, k');
    LookupAppend(Below(s, k), Above(s, k), k');
  }

  /** put and delete keep the keys strictly ascending. */
  lemma PutDelStrict<V>(s: seq<Entry<V>>, k: int, val: V)
    requires Strict(s)
    ensures Strict(PutSeq(s, k, val)) && Strict(DelSeq(s, k))
  {
    FilterStrict(s, k);
    FilterBounds(s, k, k);
    StrictJoin(Below(s, k), Entry(k, val), Above(s, k));
    var b: seq<Entry<V>>, a: seq<Entry<V>> := Below(s, k), Above(s, k);
    forall i, j | 0 <= i < j < |b + a| ensures (b + a)[i].key < (b + a)[j].key {
      if j < |b| {
        assert (b + a)[i] == b[i] && (b + a)[j] == b[j];
      } else if i >= |b| {
        assert (b + a)[i] == a[i - |b|] && (b + a)[j] == a[j - |b|];
      } else {
        assert (b + a)[i] == b[i] && (b + a)[j] == a[j - |b|];
      }
    }
  }

  /** The filters split a strictly ascending sequence around `k`, losing at most the
      entry for `k`. */
  lemma {:induction false} FilterSizes<V>(s: seq<Entry<V>>, k: int)
    requires Strict(s)
    ensures |Below(s, k)| + |Above(s, k)| == |s| - (if Lookup(s, k).Some? then 1 else 0)
  {
    if s != [] {
      StrictParts([], s[0], s[1..]);
      assert [] + [s[0]] + s[1..] == s;
      FilterSizes(s[1..], k);
      if s[0].key == k {
        LookupMissing(s[1..], k);
      }
    }
  }

  /** put of a stored key leaves size() unchanged; of a new key it grows by one. delete
      of a stored key shrinks it by one. */
  lemma PutDelSize<V>(s: seq<Entry<V>>, k: int, val: V)
    requires Strict(s)
    ensures |PutSeq(s, k, val)| == |s| + (if Lookup(s, k).Some? then 0 else 1)
    ensures |DelSeq(s, k)| == |s| - (if Lookup(s, k).Some? then 1 else 0)
  {
    FilterSizes(s, k);
  }

  /** Without `k`, delete changes nothing. */
  lemma {:induction false} DelAbsent<V>(s: seq<Entry<V>>, k: int)
    requires Strict(s) && Lookup(s, k).None?
    ensures DelSeq(s, k) == s
  {
    if s != [] {
      var x, rest := s[0], s[1..];
      SeqFacts.HeadTail(s, []);
      SeqFacts.Unit([x]);
      StrictParts([], x, rest);
      if x.key < k {
        DelAbsent(rest, k);
        BelowCons(x, rest, k);
        AboveCons(x, rest, k);
        SeqFacts.Unit(Above(rest, k));
        SeqFacts.Regroup([x], Below(rest, k), Above(rest, k));
      } else {
        assert KeysAbove(s, k) by {
          forall i | 0 <= i < |s| ensures s[i].key > k {
            if i > 0 { assert s[i] == s[1..][i - 1]; }
          }
        }
        FiltersOfLarger(s, k);
      }
    }
  }

  /** The i-th smallest key, if 0 <= i < n. */
  function SelectSpec<V>(s: seq<Entry<V>>, i: int): Option<int> {
    if 0 <= i < |s| then Some(s[i].key) else None
  }

  /** rank(select(i)) == i: in a strictly ascending sequence exactly i keys lie below the
      i-th. */
  lemma {:induction false} RankOfSelect<V>(s: seq<Entry<V>>, i: int)
    requires Strict(s) && 0 <= i < |s|
    ensures |Below(s, s[i].key)| == i
  {
    var a, x, b := s[..i], s[i], s[i + 1..];
    assert s == a + [x] + b;
    StrictParts(a, x, b);
    FiltersJoin(a, x, b, x.key);
    FiltersOfSmaller(a, x.key);
    FiltersOfLarger(b, x.key);
  }

  /** select(rank(k)) == k for every stored key. */
  lemma SelectOfRank<V>(s: seq<Entry<V>>, k: int)
    requires Strict(s) && Lookup(s, k).Some?
    ensures SelectSpec(s, |Below(s, k)|) == Some(k)
  {
    LookupMeaning(s, k);
    var i :| 0 <= i < |s| && s[i] == Entry(k, Lookup(s, k).value);
    RankOfSelect(s, i);
  }

  /** A prefix or suffix of a strictly ascending sequence is strictly ascending. */
  lemma StrictSlice<V>(s: seq<Entry<V>>, a: int, b: int)
    requires Strict(s) && 0 <= a <= b <= |s|
    ensures Strict(s[a..b])
  {
    forall i, j | 0 <= i < j < b - a ensures s[a..b][i].key < s[a..b][j].key {
      assert s[a..b][i] == s[a + i] && s[a..b][j] == s[a + j];
    }
  }
}
