/** Huffman coding as huffman_coding.cpp does it: a tree built by merging the two
    least frequent nodes, the code of a character read off its path from the
    root ('1' to the left, '0' to the right), and the encoded string. Internal
    nodes carry the character '.', and getEncodings tells them from leaves by
    that character. */
module Huffman {

  /** A tree node: character, frequency and the two children; Nil is the null
      pointer. */
  datatype Tree = Nil | Node(c: char, freq: nat, left: Tree, right: Tree)

  predicate IsLeaf(t: Tree) {
    t.Node? && t.left == Nil && t.right == Nil
  }

  /** How often `c` occurs in `s`. */
  function Count(s: string, c: char): nat {
    if s == [] then 0 else Count(s[..|s| - 1], c) + (if s[|s| - 1] == c then 1 else 0)
  }

  /** The occurrences in `s` of the characters of `m`, each counted as often as
      `m` holds it. */
  function Weight(s: string, m: multiset<char>): nat {
    if s == [] then 0 else Weight(s[..|s| - 1], m) + m[s[|s| - 1]]
  }

  /** The characters at the leaves of a tree. */
  function LeafChars(t: Tree): multiset<char> {
    match t
    case Nil => multiset{}
    case Node(c, _, l, r) => if l == Nil && r == Nil then multiset{c} else LeafChars(l) + LeafChars(r)
  }

  /** A tree as buildHuffmanTree makes it for `s`: a leaf holds the count of its
      character in `s`; an internal node has the character '.', two such trees as
      children and the sum of their frequencies. */
  ghost predicate WellBuilt(t: Tree, s: string) {
    match t
    case Nil => false
    case Node(c, f, l, r) =>
      if l == Nil && r == Nil then f == Count(s, c)
      else c == '.' && WellBuilt(l, s) && WellBuilt(r, s) && f == l.freq + r.freq
  }

  /** The leaf characters of the trees of a queue. */
  function ForestChars(pq: seq<Tree>): multiset<char> {
    if pq == [] then multiset{} else ForestChars(pq[..|pq| - 1]) + LeafChars(pq[|pq| - 1])
  }

  /** Every tree of the queue is well built for `s`. */
  ghost predicate Forest(pq: seq<Tree>, s: string) {
    pq == [] || (Forest(pq[..|pq| - 1], s) && WellBuilt(pq[|pq| - 1], s))
  }

  // ---------------------------------------------------------------------------
  // buildHuffmanTree

  /** buildHuffmanTree: the characters' frequencies are counted, a leaf per
      character goes into a queue that yields the least frequent node first,
      and the two least frequent nodes are merged under a '.' node until one
      tree is left. Every character of `s` is at exactly one leaf, each leaf
      holds its character's count, and the root's frequency is the length of
      `s`, which must not be empty (the last top() needs a node). */
  method BuildHuffmanTree(s: string) returns (root: Tree)
    requires |s| > 0
    ensures WellBuilt(root, s)
    ensures forall x :: LeafChars(root)[x] == if x in s then 1 else 0
    ensures root.freq == |s|
  {
    var frequencies := CountFrequencies(s);
    var pq := PushLeaves(s, frequencies);
    assert multiset(frequencies.Keys)[s[0]] == 1;
    root := MergeLeast(s, pq);
    FreqIsWeight(root, s);
    WeightOfAll(s, LeafChars(root));
  }

  /** The first loop of buildHuffmanTree: `frequencies[c]++` for each character,
      a missing key starting at 0. */
  method CountFrequencies(s: string) returns (frequencies: map<char, nat>)
    ensures forall x :: x in frequencies <==> x in s
    ensures forall x :: Count(s, x) == if x in frequencies then frequencies[x] else 0
  {
    frequencies := map[];
    for i := 0 to |s|
      invariant forall x :: x in frequencies <==> x in s[..i]
      invariant forall x :: Count(s[..i], x) == if x in frequencies then frequencies[x] else 0
    {
      var c := s[i];
      assert s[..i + 1][..i] == s[..i] && s[..i + 1] == s[..i] + [c];
      frequencies := frequencies[c := (if c in frequencies then frequencies[c] else 0) + 1];
    }
    assert s[..|s|] == s;
  }

  /** The second loop of buildHuffmanTree: a leaf per character of the
      frequency map, with its count. The map's iteration order is unspecified, so
      any key may come next. */
  method PushLeaves(ghost s: string, frequencies: map<char, nat>) returns (pq: seq<Tree>)
    requires forall x :: x in frequencies ==> frequencies[x] == Count(s, x)
    ensures Forest(pq, s) && ForestChars(pq) == multiset(frequencies.Keys)
  {
    pq := [];
    var keys := frequencies.Keys;
    while keys != {}
      invariant Pushed(s, frequencies, pq, keys)
      decreases |keys|
    {
      var c :| c in keys;
      var leaf := Node(c, frequencies[c], Nil, Nil);
      PushLeaf(s, frequencies, pq, keys, c);
      pq := pq + [leaf];
      keys := keys - {c};
    }
  }

  /** The second loop so far: the keys still to do are `keys`, and `pq` holds a
      leaf for each of the others. */
  ghost predicate Pushed(s: string, frequencies: map<char, nat>, pq: seq<Tree>, keys: set<char>) {
    keys <= frequencies.Keys && Forest(pq, s) && ForestChars(pq) == multiset(frequencies.Keys - keys)
  }

  lemma PushLeaf(s: string, frequencies: map<char, nat>, pq: seq<Tree>, keys: set<char>, c: char)
    requires forall x :: x in frequencies ==> frequencies[x] == Count(s, x)
    requires Pushed(s, frequencies, pq, keys) && c in keys
    ensures Pushed(s, frequencies, pq + [Node(c, frequencies[c], Nil, Nil)], keys - {c})
  {
    PushStep(pq, Node(c, frequencies[c], Nil, Nil), s);
    assert frequencies.Keys - (keys - {c}) == (frequencies.Keys - keys) + {c};
  }

  /** The third loop of buildHuffmanTree and its result: while two nodes or more
      are left, the two least frequent are taken out (the first becomes the left
      child) and a '.' node with the sum of their frequencies goes in; the last
      node is the root. The root holds every leaf of the queue. */
  method MergeLeast(ghost s: string, pq: seq<Tree>) returns (root: Tree)
    requires Forest(pq, s) && ForestChars(pq) != multiset{}
    ensures WellBuilt(root, s) && LeafChars(root) == ForestChars(pq)
  {
    var queue := pq;
    while |queue| > 1
      invariant |queue| >= 1 && Merging(s, pq, queue)
      decreases |queue|
    {
      var left, rest := PopMin(queue, s);
      var right, rest2 := PopMin(rest, s);
      var merged := Node('.', left.freq + right.freq, left, right);
      MergeStep(s, pq, queue, left, rest, right, rest2);
      queue := rest2 + [merged];
    }
    root := queue[0];
    assert ForestChars(queue) == LeafChars(root) by {
      assert queue[..0] == [];
    }
  }

  /** The third loop so far: the queue's trees are well built and hold the
      leaves of the queue the loop started with. */
  ghost predicate Merging(s: string, pq: seq<Tree>, queue: seq<Tree>) {
    Forest(queue, s) && ForestChars(queue) == ForestChars(pq)
  }

  /** Merging the two trees taken out keeps the third loop's invariant. */
  lemma MergeStep(s: string, pq: seq<Tree>, queue: seq<Tree>, left: Tree, rest: seq<Tree>, right: Tree, rest2: seq<Tree>)
    requires Merging(s, pq, queue)
    requires Forest(rest, s) && WellBuilt(left, s) && ForestChars(queue) == ForestChars(rest) + LeafChars(left)
    requires Forest(rest2, s) && WellBuilt(right, s) && ForestChars(rest) == ForestChars(rest2) + LeafChars(right)
    ensures Merging(s, pq, rest2 + [Node('.', left.freq + right.freq, left, right)])
  {
    var merged := Node('.', left.freq + right.freq, left, right);
    Merged(left, right, s);
    PushStep(rest2, merged, s);
    UnionSwap(ForestChars(rest2), LeafChars(right), LeafChars(left));
  }

  /** A '.' node over two well-built trees is well built and has their leaves. */
  lemma Merged(left: Tree, right: Tree, s: string)
    requires WellBuilt(left, s) && WellBuilt(right, s)
    ensures WellBuilt(Node('.', left.freq + right.freq, left, right), s)
    ensures LeafChars(Node('.', left.freq + right.freq, left, right)) == LeafChars(left) + LeafChars(right)
  {
    assert left != Nil;
  }

  lemma UnionSwap(a: multiset<char>, b: multiset<char>, c: multiset<char>)
    ensures a + b + c == a + (c + b)
  {
  }

  /** top() and pop(): a node of least frequency comes out; which of several
      such nodes does is left open, as the queue does not fix it. */
  method PopMin(pq: seq<Tree>, ghost s: string) returns (t: Tree, rest: seq<Tree>)
    requires |pq| > 0 && Forest(pq, s)
    ensures t in pq && Forest(rest, s) && WellBuilt(t, s) && |rest| == |pq| - 1
    ensures Least(t, pq)
    ensures ForestChars(pq) == ForestChars(rest) + LeafChars(t)
  {
    ForestElements(pq, s);
    ghost var least := LeastIndex(pq);
    var k :| 0 <= k < |pq| && forall j :: 0 <= j < |pq| ==> pq[k].freq <= pq[j].freq;
    t := pq[k];
    rest := pq[..k] + pq[k + 1..];
    assert pq == pq[..k] + [t] + pq[k + 1..];
    ForestAppend(pq[..k] + [t], pq[k + 1..], s);
    ForestAppend(pq[..k], [t], s);
    ForestAppend(pq[..k], pq[k + 1..], s);
  }

  /** No tree of the queue has a smaller frequency than `t`. */
  ghost predicate Least(t: Tree, pq: seq<Tree>) {
    t.Node? && forall j :: 0 <= j < |pq| ==> pq[j].Node? && t.freq <= pq[j].freq
  }

  /** Some node of a non-empty queue has the least frequency. */
  lemma {:induction false} LeastIndex(pq: seq<Tree>) returns (k: int)
    requires |pq| > 0 && forall i :: 0 <= i < |pq| ==> pq[i].Node?
    ensures 0 <= k < |pq| && forall j :: 0 <= j < |pq| ==> pq[k].freq <= pq[j].freq
    decreases |pq|
  {
    if |pq| == 1 {
      return 0;
    }
    k := LeastIndex(pq[..|pq| - 1]);
    assert forall j :: 0 <= j < |pq| - 1 ==> pq[..|pq| - 1][j] == pq[j];
    if pq[|pq| - 1].freq < pq[k].freq {
      k := |pq| - 1;
    }
  }

  /** Pushing a well-built tree onto a well-built queue. */
  lemma PushStep(pq: seq<Tree>, t: Tree, s: string)
    requires Forest(pq, s) && WellBuilt(t, s)
    ensures Forest(pq + [t], s) && ForestChars(pq + [t]) == ForestChars(pq) + LeafChars(t)
  {
    assert (pq + [t])[..|pq|] == pq;
  }

  /** Every tree of a well-built queue is well built. */
  lemma {:induction false} ForestElements(pq: seq<Tree>, s: string)
    requires Forest(pq, s)
    ensures forall i :: 0 <= i < |pq| ==> WellBuilt(pq[i], s)
    decreases |pq|
  {
    if pq != [] {
      var init := pq[..|pq| - 1];
      ForestElements(init, s);
      assert forall i :: 0 <= i < |init| ==> init[i] == pq[i];
    }
  }

  /** Two queues one after the other: their leaf characters add up, and the
      whole is well built when both are. */
  lemma {:induction false} ForestAppend(p: seq<Tree>, q: seq<Tree>, s: string)
    ensures ForestChars(p + q) == ForestChars(p) + ForestChars(q)
    ensures Forest(p + q, s) <==> Forest(p, s) && Forest(q, s)
    decreases |q|
  {
    if q != [] {
      var q' := q[..|q| - 1];
      assert (p + q)[..|p + q| - 1] == p + q';
      ForestAppend(p, q', s);
    } else {
      assert p + q == p;
    }
  }

  /** A tree's frequency counts the occurrences in `s` of its leaf characters. */
  lemma {:induction false} FreqIsWeight(t: Tree, s: string)
    requires WellBuilt(t, s)
    ensures t.freq == Weight(s, LeafChars(t))
  {
    match t
    case Node(c, _, l, r) =>
      if l == Nil && r == Nil {
        WeightOfOne(s, c);
      } else {
        FreqIsWeight(l, s);
        FreqIsWeight(r, s);
        WeightAdds(s, LeafChars(l), LeafChars(r));
      }
  }

  lemma {:induction false} WeightOfOne(s: string, c: char)
    ensures Weight(s, multiset{c}) == Count(s, c)
  {
    if s != [] {
      WeightOfOne(s[..|s| - 1], c);
    }
  }

  lemma {:induction false} WeightAdds(s: string, m: multiset<char>, n: multiset<char>)
    ensures Weight(s, m + n) == Weight(s, m) + Weight(s, n)
  {
    if s != [] {
      WeightAdds(s[..|s| - 1], m, n);
    }
  }

  /** Counting every character of `s` once counts all of `s`. */
  lemma {:induction false} WeightOfAll(s: string, m: multiset<char>)
    requires forall x :: x in s ==> m[x] == 1
    ensures Weight(s, m) == |s|
  {
    if s != [] {
      var init := s[..|s| - 1];
      assert forall x :: x in init ==> x in s;
      WeightOfAll(init, m);
      assert s[|s| - 1] in s;
    }
  }

  /** With a single distinct character the root is a leaf holding all of `s`. */
  lemma SingleCharacter(s: string, root: Tree)
    requires |s| > 0 && WellBuilt(root, s) && forall i :: 0 <= i < |s| ==> s[i] == s[0]
    requires forall x :: LeafChars(root)[x] == if x in s then 1 else 0
    requires root.freq == |s|
    ensures root == Node(s[0], |s|, Nil, Nil)
    ensures LeafCodes(root, "") == map[s[0] := ""]
    ensures s[0] != '.' ==> Codes(root, "") == map[s[0] := ""]
  {
    assert forall x :: x in s ==> x == s[0];
    assert LeafChars(root) == multiset{s[0]};
    if !IsLeaf(root) {
      SeveralLeaves(root, s);
    }
  }

  /** An internal node has at least two leaves. */
  lemma {:induction false} SeveralLeaves(t: Tree, s: string)
    requires WellBuilt(t, s) && !IsLeaf(t)
    ensures |LeafChars(t)| >= 2
  {
    AtLeastOneLeaf(t.left, s);
    AtLeastOneLeaf(t.right, s);
  }

  lemma {:induction false} AtLeastOneLeaf(t: Tree, s: string)
    requires WellBuilt(t, s)
    ensures |LeafChars(t)| >= 1
  {
    if !IsLeaf(t) {
      AtLeastOneLeaf(t.left, s);
    }
  }

  // ---------------------------------------------------------------------------
  // getEncodings

  /** The codes getEncodings writes for the tree `t` reached by the path `acc`: a
      node whose character is not '.' gets `acc`; a '.' node passes `acc + "1"` to
      its left child and `acc + "0"` to its right child, the right child's codes
      written last. */
  function Codes(t: Tree, acc: string): map<char, string> {
    match t
    case Nil => map[]
    case Node(c, _, l, r) => if c != '.' then map[c := acc] else Codes(l, acc + "1") + Codes(r, acc + "0")
  }

  /** getEncodings: writes into `encodings` the code of every leaf below `node`.
      The result is the old map with the codes Codes gives written over it. */
  method GetEncodings(node: Tree, encodings: map<char, string>, accumulated: string)
    returns (result: map<char, string>)
    requires node != Nil
    ensures result == encodings + Codes(node, accumulated)
    decreases node
  {
    if node.c != '.' {
      result := encodings[node.c := accumulated];
    } else {
      result := encodings;
      if node.left != Nil {
        result := GetEncodings(node.left, result, accumulated + "1");
      }
      if node.right != Nil {
        result := GetEncodings(node.right, result, accumulated + "0");
      }
      OverwriteTwice(encodings, Codes(node.left, accumulated + "1"), Codes(node.right, accumulated + "0"));
    }
  }

  /** Writing one map over another and a third over the result writes the second
      and third, the third winning. */
  lemma OverwriteTwice(m: map<char, string>, a: map<char, string>, b: map<char, string>)
    ensures m + a + b == m + (a + b)
  {
  }

  /** The characters that get a code are the leaf characters other than '.': a
      '.' in the input gets no code. */
  lemma {:induction false} CodesKeys(t: Tree, s: string, acc: string)
    requires WellBuilt(t, s)
    ensures forall x :: x in Codes(t, acc) <==> x in LeafChars(t) && x != '.'
  {
    match t
    case Node(c, _, l, r) =>
      if !(l == Nil && r == Nil) {
        CodesKeys(l, s, acc + "1");
        CodesKeys(r, s, acc + "0");
      }
  }

  /** getEncodings as evidently intended: a node is a leaf when it has no
      children, whatever its character. */
  function LeafCodes(t: Tree, acc: string): map<char, string> {
    match t
    case Nil => map[]
    case Node(c, _, l, r) =>
      if l == Nil && r == Nil then map[c := acc] else LeafCodes(l, acc + "1") + LeafCodes(r, acc + "0")
  }

  /** getEncodings with the leaf test corrected: a '.' leaf gets its code too. */
  method GetEncodingsFixed(node: Tree, encodings: map<char, string>, accumulated: string)
    returns (result: map<char, string>)
    requires node != Nil
    ensures result == encodings + LeafCodes(node, accumulated)
    decreases node
  {
    if node.left == Nil && node.right == Nil {
      result := encodings[node.c := accumulated];
    } else {
      result := encodings;
      if node.left != Nil {
        result := GetEncodingsFixed(node.left, result, accumulated + "1");
      }
      if node.right != Nil {
        result := GetEncodingsFixed(node.right, result, accumulated + "0");
      }
      OverwriteTwice(encodings, LeafCodes(node.left, accumulated + "1"), LeafCodes(node.right, accumulated + "0"));
    }
  }

  /** With the corrected test every leaf character gets a code. */
  lemma {:induction false} LeafCodesKeys(t: Tree, acc: string)
    ensures forall x :: x in LeafCodes(t, acc) <==> x in LeafChars(t)
  {
    match t
    case Nil =>
    case Node(c, _, l, r) =>
      if !(l == Nil && r == Nil) {
        LeafCodesKeys(l, acc + "1");
        LeafCodesKeys(r, acc + "0");
      }
  }

  /** Without a '.' leaf both tests agree: the source's codes are the intended
      ones. */
  lemma {:induction false} CodesAgree(t: Tree, s: string, acc: string)
    requires WellBuilt(t, s) && '.' !in LeafChars(t)
    ensures Codes(t, acc) == LeafCodes(t, acc)
  {
    match t
    case Node(c, _, l, r) =>
      if !(l == Nil && r == Nil) {
        CodesAgree(l, s, acc + "1");
        CodesAgree(r, s, acc + "0");
      }
  }

  /** Every character is at most at one leaf. */
  ghost predicate Distinct(t: Tree) {
    forall x :: LeafChars(t)[x] <= 1
  }

  /** Where following a string of '1' (left) and '0' (right) from a node ends. */
  datatype Step = Stuck | Reached(c: char, rest: string)

  /** Follows `bits` down from `t` to a leaf and returns its character and the
      bits after the path. */
  function Walk(t: Tree, bits: string): Step {
    match t
    case Nil => Stuck
    case Node(c, _, l, r) =>
      if l == Nil && r == Nil then Reached(c, bits)
      else if bits == [] then Stuck
      else if bits[0] == '1' then Walk(l, bits[1..])
      else if bits[0] == '0' then Walk(r, bits[1..])
      else Stuck
  }

  /** The two subtrees of a node with distinct leaves have distinct leaves and
      none in common, and the code of a leaf character is the one its subtree
      gives it. */
  lemma ChildCodes(t: Tree, acc: string, x: char)
    requires t.Node? && !IsLeaf(t) && Distinct(t)
    ensures Distinct(t.left) && Distinct(t.right)
    ensures x in LeafChars(t.left) ==>
              x !in LeafChars(t.right) && x in LeafCodes(t.left, acc + "1") &&
              LeafCodes(t, acc)[x] == LeafCodes(t.left, acc + "1")[x]
    ensures x in LeafChars(t.right) ==>
              x in LeafCodes(t.right, acc + "0") && LeafCodes(t, acc)[x] == LeafCodes(t.right, acc + "0")[x]
  {
    assert forall y :: LeafChars(t)[y] == LeafChars(t.left)[y] + LeafChars(t.right)[y];
    LeafCodesKeys(t.left, acc + "1");
    LeafCodesKeys(t.right, acc + "0");
  }

  /** The code of a leaf character extends the path `acc` to `t`, and is longer
      than it when `t` is not a leaf. */
  lemma {:induction false} CodeExtends(t: Tree, s: string, acc: string, x: char)
    requires WellBuilt(t, s) && Distinct(t) && x in LeafChars(t)
    ensures x in LeafCodes(t, acc)
    ensures |acc| <= |LeafCodes(t, acc)[x]| && LeafCodes(t, acc)[x][..|acc|] == acc
    ensures !IsLeaf(t) ==> |acc| < |LeafCodes(t, acc)[x]|
  {
    if !IsLeaf(t) {
      ChildCodes(t, acc, x);
      var code := LeafCodes(t, acc)[x];
      if x in LeafChars(t.left) {
        CodeExtends(t.left, s, acc + "1", x);
        PathStep(code, acc, '1', []);
      } else {
        CodeExtends(t.right, s, acc + "0", x);
        PathStep(code, acc, '0', []);
      }
    }
  }

  /** The code of a leaf character is a path to its leaf: following the part of
      it after the path `acc` to `t` leads from `t` to that leaf, whatever bits
      come after. */
  lemma {:induction false} CodeIsPath(t: Tree, s: string, acc: string, x: char, rest: string)
    requires WellBuilt(t, s) && Distinct(t) && x in LeafChars(t)
    ensures x in LeafCodes(t, acc) && |acc| <= |LeafCodes(t, acc)[x]|
    ensures Walk(t, LeafCodes(t, acc)[x][|acc|..] + rest) == Reached(x, rest)
  {
    CodeExtends(t, s, acc, x);
    if !IsLeaf(t) {
      ChildCodes(t, acc, x);
      var code := LeafCodes(t, acc)[x];
      if x in LeafChars(t.left) {
        CodeIsPath(t.left, s, acc + "1", x, rest);
        CodeExtends(t.left, s, acc + "1", x);
        PathStep(code, acc, '1', rest);
      } else {
        CodeIsPath(t.right, s, acc + "0", x, rest);
        CodeExtends(t.right, s, acc + "0", x);
        PathStep(code, acc, '0', rest);
      }
    }
  }

  /** A code that extends `acc` by the bit `b` extends `acc`, has `b` next, and
      after that bit continues with the rest of the code. */
  lemma PathStep(code: string, acc: string, b: char, rest: string)
    requires |acc| + 1 <= |code| && code[..|acc| + 1] == acc + [b]
    ensures code[..|acc|] == acc && |acc| < |code|
    ensures (code[|acc|..] + rest)[0] == b && (code[|acc|..] + rest)[1..] == code[|acc| + 1..] + rest
  {
    assert code[|acc|] == code[..|acc| + 1][|acc|];
    assert code[..|acc|] == code[..|acc| + 1][..|acc|];
  }

  /** No code is a prefix of another. */
  ghost predicate PrefixFree(m: map<char, string>) {
    forall x, y :: x in m && y in m && x != y ==> !(|m[x]| <= |m[y]| && m[y][..|m[x]|] == m[x])
  }

  /** The intended codes of a tree with distinct leaves are prefix-free: a code
      that began another would lead to its own leaf along the other's path. */
  lemma LeafCodesPrefixFree(t: Tree, s: string)
    requires WellBuilt(t, s) && Distinct(t)
    ensures PrefixFree(LeafCodes(t, ""))
  {
    var m := LeafCodes(t, "");
    LeafCodesKeys(t, "");
    forall x, y | x in m && y in m && x != y && |m[x]| <= |m[y]|
      ensures m[y][..|m[x]|] != m[x]
    {
      var rest := m[y][|m[x]|..];
      CodeIsPath(t, s, "", x, rest);
      CodeIsPath(t, s, "", y, []);
      assert m[x][0..] == m[x] && m[y][0..] + [] == m[y] == m[y][..|m[x]|] + rest;
    }
  }

  /** Decodes by walking from the root to a leaf again and again, as long as
      each walk takes up bits. */
  function Decode(root: Tree, bits: string): string
    decreases |bits|
  {
    if bits == [] then []
    else
      match Walk(root, bits)
      case Stuck => []
      case Reached(c, rest) => if |rest| < |bits| then [c] + Decode(root, rest) else []
  }

  /** With the intended codes of a tree of two leaves or more, decoding an
      encoding gives back the string, when every character of it is at a leaf. */
  lemma {:induction false} DecodeEncode(root: Tree, s: string, text: string)
    requires WellBuilt(root, s) && Distinct(root) && !IsLeaf(root)
    requires forall i :: 0 <= i < |text| ==> text[i] in LeafChars(root)
    ensures Decode(root, Encode(text, LeafCodes(root, ""))) == text
    decreases |text|
  {
    if text != [] {
      var m := LeafCodes(root, "");
      var rest := Encode(text[1..], m);
      CodeIsPath(root, s, "", text[0], rest);
      CodeExtends(root, s, "", text[0]);
      var code := m[text[0]];
      assert code[0..] == code && Encode(text, m) == code + rest;
      assert Decode(root, code + rest) == [text[0]] + Decode(root, rest);
      DecodeEncode(root, s, text[1..]);
      assert text == [text[0]] + text[1..];
    }
  }

  // ---------------------------------------------------------------------------
  // getEncodedString

  /** encodings[c] of the source: the code of `c`, the empty string when `c` has
      none. */
  function Lookup(m: map<char, string>, c: char): string {
    if c in m then m[c] else ""
  }

  /** The codes of the characters of `s`, one after the other. */
  function Encode(s: string, m: map<char, string>): string {
    if s == [] then "" else Lookup(m, s[0]) + Encode(s[1..], m)
  }

  lemma {:induction false} EncodeSnoc(s: string, c: char, m: map<char, string>)
    ensures Encode(s + [c], m) == Encode(s, m) + Lookup(m, c)
  {
    if s == [] {
      assert [c][1..] == [];
    } else {
      assert (s + [c])[1..] == s[1..] + [c];
      EncodeSnoc(s[1..], c, m);
    }
  }

  /** getEncodedString: appends encodings[c] for each character; operator[]
      inserts the empty code for a character without one. The result is the
      codes of the characters in order. */
  method GetEncodedString(s: string, encodings: map<char, string>)
    returns (res: string, encodings': map<char, string>)
    ensures res == Encode(s, encodings)
    ensures forall x :: x in encodings' <==> x in encodings || x in s
    ensures forall x :: x in encodings' ==> encodings'[x] == Lookup(encodings, x)
  {
    res, encodings' := "", encodings;
    for i := 0 to |s|
      invariant res == Encode(s[..i], encodings)
      invariant forall x :: x in encodings' <==> x in encodings || x in s[..i]
      invariant forall x :: x in encodings' ==> encodings'[x] == Lookup(encodings, x)
    {
      var c := s[i];
      if c !in encodings' {
        encodings' := encodings'[c := ""];
      }
      assert s[..i + 1] == s[..i] + [c];
      EncodeSnoc(s[..i], c, encodings);
      res := res + encodings'[c];
    }
    assert s[..|s|] == s;
  }

  // ---------------------------------------------------------------------------
  // main, without its input and output

  /** With the same character throughout, every character of the encoding is
      the empty code. */
  lemma {:induction false} EncodeOneCode(text: string, c: char)
    requires forall i :: 0 <= i < |text| ==> text[i] == c
    ensures Encode(text, map[c := ""]) == ""
  {
    if text != [] {
      EncodeOneCode(text[1..], c);
    }
  }

  /** The root is a leaf only when the string has a single distinct character. */
  lemma LeafRoot(s: string, root: Tree)
    requires |s| > 0 && WellBuilt(root, s) && IsLeaf(root)
    requires forall x :: LeafChars(root)[x] == if x in s then 1 else 0
    ensures forall i :: 0 <= i < |s| ==> s[i] == s[0]
  {
    forall i | 0 <= i < |s| ensures s[i] == s[0] {
      assert LeafChars(root)[s[i]] == 1 && LeafChars(root)[s[0]] == 1;
    }
  }

  /** main: the tree of `s`, its codes and the encoded string. A string without
      '.' gets a prefix-free code for each of its characters, and with two
      distinct characters or more its encoding decodes back to it; with one
      distinct character the code is empty and so is the encoding. */
  method HuffmanEncode(s: string) returns (root: Tree, encodings: map<char, string>, encoded: string)
    requires |s| > 0
    ensures encoded == Encode(s, encodings)
    ensures '.' !in s ==> PrefixFree(encodings) && forall x :: x in encodings <==> x in s
    ensures '.' !in s && (exists i :: 0 <= i < |s| && s[i] != s[0]) ==> Decode(root, encoded) == s
    ensures s[0] != '.' && (forall i :: 0 <= i < |s| ==> s[i] == s[0]) ==>
              encodings == map[s[0] := ""] && encoded == ""
  {
    root := BuildHuffmanTree(s);
    encodings := GetEncodings(root, map[], "");
    assert map[] + Codes(root, "") == Codes(root, "");
    var table;
    encoded, table := GetEncodedString(s, encodings);
    if '.' !in s {
      CodesAgree(root, s, "");
      IntendedCodes(s, root);
    }
    if s[0] != '.' && forall i :: 0 <= i < |s| ==> s[i] == s[0] {
      SingleCharacter(s, root);
      EncodeOneCode(s, s[0]);
    }
  }

  /** What the intended codes of the tree built for `s` give: a prefix-free code
      for each character of `s` and, with two distinct characters or more, an
      encoding that decodes back to `s`. */
  lemma IntendedCodes(s: string, root: Tree)
    requires |s| > 0 && WellBuilt(root, s)
    requires forall x :: LeafChars(root)[x] == if x in s then 1 else 0
    ensures PrefixFree(LeafCodes(root, "")) && forall x :: x in LeafCodes(root, "") <==> x in s
    ensures (exists i :: 0 <= i < |s| && s[i] != s[0]) ==> Decode(root, Encode(s, LeafCodes(root, ""))) == s
  {
    LeafCodesKeys(root, "");
    LeafCodesPrefixFree(root, s);
    if exists i :: 0 <= i < |s| && s[i] != s[0] {
      if IsLeaf(root) {
        LeafRoot(s, root);
      }
      DecodeEncode(root, s, s);
    }
  }

  /** main with the corrected getEncodings: every character gets a code, the
      codes are prefix-free, and with two distinct characters or more the
      encoding decodes back to `s`, '.' or not. */
  method HuffmanEncodeFixed(s: string) returns (root: Tree, encodings: map<char, string>, encoded: string)
    requires |s| > 0
    ensures encoded == Encode(s, encodings)
    ensures PrefixFree(encodings) && forall x :: x in encodings <==> x in s
    ensures (exists i :: 0 <= i < |s| && s[i] != s[0]) ==> Decode(root, encoded) == s
    ensures (forall i :: 0 <= i < |s| ==> s[i] == s[0]) ==> encodings == map[s[0] := ""] && encoded == ""
  {
    root := BuildHuffmanTree(s);
    encodings := GetEncodingsFixed(root, map[], "");
    assert map[] + LeafCodes(root, "") == LeafCodes(root, "");
    var table;
    encoded, table := GetEncodedString(s, encodings);
    IntendedCodes(s, root);
    if forall i :: 0 <= i < |s| ==> s[i] == s[0] {
      SingleCharacter(s, root);
      EncodeOneCode(s, s[0]);
    }
  }

  /** "a.": the '.' is treated as an internal node, gets no code, and the
      encoding is the code of 'a' alone, as for the string "a". */
  method DotCounterexample() returns (encodings: map<char, string>, encoded: string)
    ensures '.' !in encodings && 'a' in encodings
    ensures encoded == encodings['a'] == Encode("a", encodings)
  {
    var root := BuildHuffmanTree("a.");
    encodings := GetEncodings(root, map[], "");
    var table;
    encoded, table := GetEncodedString("a.", encodings);
    DotLost(root, encodings);
  }

  lemma DotLost(root: Tree, encodings: map<char, string>)
    requires WellBuilt(root, "a.") && LeafChars(root)['a'] == 1
    requires encodings == map[] + Codes(root, "")
    ensures '.' !in encodings && 'a' in encodings
    ensures Encode("a.", encodings) == encodings['a'] == Encode("a", encodings)
  {
    CodesKeys(root, "a.", "");
    assert "a."[0] == 'a' && "a."[1..] == "." && "."[0] == '.' && "."[1..] == [] && "a"[1..] == [];
    assert Encode(".", encodings) == "";
    assert Encode("a", encodings) == encodings['a'] + "";
  }
}

