/**
 * Building the Huffman tree and its code table (a4/huffman.py, lines 16-85):
 * frequency table, repeated merging of the two lightest entries, stripping
 * the weights, and assigning `0`/`1` path codes.
 */
module HuffmanTree {

  type Byte = b: int | 0 <= b < 256

  /** A heap entry: `(count, byte)` for a leaf, `(weight, (first, second))` for a merge. */
  datatype WTree = WLeaf(weight: nat, sym: Byte) | WNode(weight: nat, left: WTree, right: WTree)

  /** The tree once weights are removed: a byte, or a `(left, right)` pair. */
  datatype Tree = Leaf(sym: Byte) | Node(left: Tree, right: Tree)

  /** The distinct bytes of a message. */
  function Alphabet(msg: seq<Byte>): set<Byte> {
    set b | b in msg
  }

  /** The leaves of a weighted tree, left to right. */
  function WLeaves(t: WTree): seq<Byte> {
    match t
    case WLeaf(_, b) => [b]
    case WNode(_, l, r) => WLeaves(l) + WLeaves(r)
  }

  /** The leaves of a tree, left to right. */
  function Leaves(t: Tree): seq<Byte> {
    match t
    case Leaf(b) => [b]
    case Node(l, r) => Leaves(l) + Leaves(r)
  }

  /** The bytes held by all trees of a heap, with multiplicity. */
  function Syms(s: seq<WTree>): multiset<Byte> {
    if s == [] then multiset{} else multiset(WLeaves(s[0])) + Syms(s[1..])
  }

  function TotalWeight(s: seq<WTree>): nat {
    if s == [] then 0 else s[0].weight + TotalWeight(s[1..])
  }

  lemma {:induction false} ConcatWeight(a: seq<WTree>, b: seq<WTree>)
    ensures TotalWeight(a + b) == TotalWeight(a) + TotalWeight(b)
    decreases |a|
  {
    if a == [] {
      assert a + b == b;
    } else {
      assert (a + b)[1..] == a[1..] + b;
      ConcatWeight(a[1..], b);
    }
  }

  lemma {:induction false} ConcatSyms(a: seq<WTree>, b: seq<WTree>)
    ensures Syms(a + b) == Syms(a) + Syms(b)
    decreases |a|
  {
    if a == [] {
      assert a + b == b;
    } else {
      assert (a + b)[0] == a[0];
      assert (a + b)[1..] == a[1..] + b;
      ConcatSyms(a[1..], b);
    }
  }

  lemma SingleSyms(t: WTree)
    ensures Syms([t]) == multiset(WLeaves(t))
  {
    assert [t][1..] == [];
  }

  ghost predicate SortedByWeight(s: seq<WTree>) {
    forall i, j :: 0 <= i < j < |s| ==> s[i].weight <= s[j].weight
  }

  /** Places `x` after every entry of `s` that is not heavier: one step of a stable sort. */
  function Insert(s: seq<WTree>, x: WTree): (r: seq<WTree>)
    ensures multiset(r) == multiset(s) + multiset{x}
  {
    if s == [] then [x]
    else if x.weight < s[0].weight then [x] + s
    else
      assert s == [s[0]] + s[1..];
      [s[0]] + Insert(s[1..], x)
  }

  /** Inserting an entry adds its weight. */
  lemma {:induction false} InsertWeight(s: seq<WTree>, x: WTree)
    ensures TotalWeight(Insert(s, x)) == TotalWeight(s) + x.weight
    decreases |s|
  {
    if s != [] && x.weight >= s[0].weight {
      InsertWeight(s[1..], x);
      assert ([s[0]] + Insert(s[1..], x))[1..] == Insert(s[1..], x);
    }
  }

  /** Inserting an entry adds its bytes. */
  lemma {:induction false} InsertSyms(s: seq<WTree>, x: WTree)
    ensures Syms(Insert(s, x)) == Syms(s) + multiset(WLeaves(x))
    decreases |s|
  {
    SingleSyms(x);
    if s == [] {
    } else if x.weight < s[0].weight {
      ConcatSyms([x], s);
    } else {
      var rest := Insert(s[1..], x);
      InsertSyms(s[1..], x);
      assert ([s[0]] + rest)[0] == s[0];
      assert ([s[0]] + rest)[1..] == rest;
    }
  }

  /** Sorting does not change the total weight of a heap. */
  lemma {:induction false} SortWeight(s: seq<WTree>)
    ensures TotalWeight(SortByWeight(s)) == TotalWeight(s)
    decreases |s|
  {
    if s != [] {
      var init, last := s[..|s| - 1], s[|s| - 1];
      assert s == init + [last];
      SortWeight(init);
      InsertWeight(SortByWeight(init), last);
      ConcatWeight(init, [last]);
    }
  }

  /** Sorting does not change the bytes of a heap. */
  lemma {:induction false} SortSyms(s: seq<WTree>)
    ensures Syms(SortByWeight(s)) == Syms(s)
    decreases |s|
  {
    if s != [] {
      var init, last := s[..|s| - 1], s[|s| - 1];
      assert s == init + [last];
      SortSyms(init);
      InsertSyms(SortByWeight(init), last);
      ConcatSyms(init, [last]);
      SingleSyms(last);
    }
  }

  lemma {:induction false} InsertSorted(s: seq<WTree>, x: WTree)
    requires SortedByWeight(s)
    ensures SortedByWeight(Insert(s, x))
    decreases |s|
  {
    if s != [] && x.weight >= s[0].weight {
      var rest := Insert(s[1..], x);
      InsertSorted(s[1..], x);
      forall k | 0 <= k < |rest| ensures s[0].weight <= rest[k].weight {
        assert rest[k] in multiset(rest);
        if rest[k] != x {
          assert rest[k] in multiset(s[1..]);
          var m :| 0 <= m < |s[1..]| && s[1..][m] == rest[k];
          assert s[m + 1] == rest[k];
        }
      }
    }
  }

  /**
   * `list.sort(key=lambda k: k[0])`: the stable sort by weight, as insertion
   * of each entry in turn behind the entries that are not heavier.
   */
  function SortByWeight(s: seq<WTree>): (r: seq<WTree>)
    ensures multiset(r) == multiset(s)
    ensures SortedByWeight(r)
    decreases |s|
  {
    if s == [] then []
    else
      var init, last := s[..|s| - 1], s[|s| - 1];
      assert s == init + [last];
      InsertSorted(SortByWeight(init), last);
      Insert(SortByWeight(init), last)
  }

  ghost predicate Distinct(ks: seq<Byte>) {
    forall i, j :: 0 <= i < j < |ks| ==> ks[i] != ks[j]
  }

  /** The count of `k` in `f`, zero when absent. */
  function Get(f: map<Byte, nat>, k: Byte): nat {
    if k in f then f[k] else 0
  }

  /** Sum of the counts of the keys `ks`. */
  function SumOver(ks: seq<Byte>, f: map<Byte, nat>): nat {
    if ks == [] then 0 else SumOver(ks[..|ks| - 1], f) + Get(f, ks[|ks| - 1])
  }

  lemma {:induction false} SumOverSame(ks: seq<Byte>, f: map<Byte, nat>, g: map<Byte, nat>)
    requires forall k :: k in ks ==> Get(f, k) == Get(g, k)
    ensures SumOver(ks, f) == SumOver(ks, g)
    decreases |ks|
  {
    if ks != [] {
      SumOverSame(ks[..|ks| - 1], f, g);
    }
  }

  lemma {:induction false} SumOverIncr(ks: seq<Byte>, f: map<Byte, nat>, b: Byte)
    requires Distinct(ks) && b in ks
    ensures SumOver(ks, f[b := Get(f, b) + 1]) == SumOver(ks, f) + 1
    decreases |ks|
  {
    var init, last := ks[..|ks| - 1], ks[|ks| - 1];
    if last == b {
      assert b !in init;
      SumOverSame(init, f, f[b := Get(f, b) + 1]);
    } else {
      assert b in init by {
        var i :| 0 <= i < |ks| && ks[i] == b;
        assert i < |ks| - 1;
        assert init[i] == b;
      }
      SumOverIncr(init, f, b);
    }
  }

  /** A sequence without repetitions holds each of its elements once. */
  lemma {:induction false} DistinctCount(ks: seq<Byte>)
    requires Distinct(ks)
    ensures forall b :: multiset(ks)[b] == if b in ks then 1 else 0
    decreases |ks|
  {
    if ks != [] {
      var init, last := ks[..|ks| - 1], ks[|ks| - 1];
      DistinctCount(init);
      assert ks == init + [last];
      assert multiset(ks) == multiset(init) + multiset{last};
    }
  }

  /** The number of occurrences of each byte of `p`, as `letterFreq`'s dictionary holds it. */
  function Counts(p: seq<Byte>): map<Byte, nat> {
    if p == [] then map[]
    else
      var m, last := Counts(p[..|p| - 1]), p[|p| - 1];
      m[last := Get(m, last) + 1]
  }

  /** The distinct bytes of `p` in order of first occurrence: the dictionary's key order. */
  function Keys(p: seq<Byte>): seq<Byte> {
    if p == [] then []
    else
      var k, last := Keys(p[..|p| - 1]), p[|p| - 1];
      if last in k then k else k + [last]
  }

  lemma {:induction false} CountsMembers(p: seq<Byte>)
    ensures forall b :: b in Counts(p) <==> b in p
    ensures forall b :: b in Keys(p) <==> b in p
    decreases |p|
  {
    if p != [] {
      var init := p[..|p| - 1];
      CountsMembers(init);
      assert p == init + [p[|p| - 1]];
    }
  }

  lemma {:induction false} CountsMultiset(p: seq<Byte>)
    ensures forall b :: Get(Counts(p), b) == multiset(p)[b]
    decreases |p|
  {
    if p != [] {
      var init := p[..|p| - 1];
      CountsMultiset(init);
      assert p == init + [p[|p| - 1]];
      assert multiset(p) == multiset(init) + multiset{p[|p| - 1]};
    }
  }

  lemma {:induction false} KeysDistinct(p: seq<Byte>)
    ensures Distinct(Keys(p))
    decreases |p|
  {
    if p != [] {
      KeysDistinct(p[..|p| - 1]);
    }
  }

  /** The counts add up to the length of `p`. */
  lemma {:induction false} CountsSum(p: seq<Byte>)
    ensures SumOver(Keys(p), Counts(p)) == |p|
    decreases |p|
  {
    if p != [] {
      var init, last := p[..|p| - 1], p[|p| - 1];
      var k, m := Keys(init), Counts(init);
      CountsSum(init);
      KeysDistinct(init);
      CountsMembers(init);
      var m' := m[last := Get(m, last) + 1];
      assert Counts(p) == m';
      if last in k {
        assert Keys(p) == k;
        SumOverIncr(k, m, last);
      } else {
        var k' := k + [last];
        assert Keys(p) == k';
        assert k'[..|k'| - 1] == k && k'[|k'| - 1] == last;
        assert SumOver(k', m') == SumOver(k, m') + Get(m', last);
        assert Get(m', last) == 1;
        SumOverSame(k, m, m');
      }
    }
  }

  /** One `(count, byte)` leaf per key, in key order. */
  function LeafList(order: seq<Byte>, f: map<Byte, nat>): (r: seq<WTree>)
    ensures |r| == |order|
    ensures forall k :: 0 <= k < |order| ==> r[k] == WLeaf(Get(f, order[k]), order[k])
  {
    if order == [] then [] else LeafList(order[..|order| - 1], f) + [WLeaf(Get(f, order[|order| - 1]), order[|order| - 1])]
  }

  lemma {:induction false} LeafListSyms(order: seq<Byte>, f: map<Byte, nat>)
    ensures Syms(LeafList(order, f)) == multiset(order)
    decreases |order|
  {
    if order != [] {
      var init, last := order[..|order| - 1], order[|order| - 1];
      var lead, leaf := LeafList(init, f), WLeaf(Get(f, last), last);
      assert LeafList(order, f) == lead + [leaf];
      LeafListSyms(init, f);
      ConcatSyms(lead, [leaf]);
      SingleSyms(leaf);
      assert order == init + [last];
      assert multiset(order) == multiset(init) + multiset{last};
    }
  }

  lemma {:induction false} LeafListWeight(order: seq<Byte>, f: map<Byte, nat>)
    ensures TotalWeight(LeafList(order, f)) == SumOver(order, f)
    decreases |order|
  {
    if order != [] {
      var init, last := order[..|order| - 1], order[|order| - 1];
      LeafListWeight(init, f);
      ConcatWeight(LeafList(init, f), [WLeaf(Get(f, last), last)]);
    }
  }

  /** The sorted leaves of a message are one per distinct byte, with its count. */
  lemma SortedLeavesCount(msg: seq<Byte>)
    ensures forall t :: t in SortByWeight(LeafList(Keys(msg), Counts(msg))) ==>
      t.WLeaf? && t.weight == multiset(msg)[t.sym]
  {
    var order, counts := Keys(msg), Counts(msg);
    var unsorted := LeafList(order, counts);
    CountsMultiset(msg);
    forall t | t in SortByWeight(unsorted) ensures t.WLeaf? && t.weight == multiset(msg)[t.sym] {
      assert t in multiset(unsorted);
      var k :| 0 <= k < |unsorted| && unsorted[k] == t;
      assert t == WLeaf(Get(counts, order[k]), order[k]);
    }
  }

  /** The sorted leaves of a message hold each of its bytes once. */
  lemma SortedLeavesSyms(msg: seq<Byte>)
    ensures Syms(SortByWeight(LeafList(Keys(msg), Counts(msg)))) == multiset(Alphabet(msg))
  {
    var order := Keys(msg);
    var unsorted := LeafList(order, Counts(msg));
    LeafListSyms(order, Counts(msg));
    SortSyms(unsorted);
    CountsMembers(msg);
    KeysDistinct(msg);
    DistinctCount(order);
    forall b ensures multiset(order)[b] == multiset(Alphabet(msg))[b] {
      assert b in Alphabet(msg) <==> b in msg;
    }
    assert multiset(order) == multiset(Alphabet(msg));
  }

  /** The counts of the sorted leaves of a message add up to its length. */
  lemma SortedLeavesWeight(msg: seq<Byte>)
    ensures TotalWeight(SortByWeight(LeafList(Keys(msg), Counts(msg)))) == |msg|
  {
    var unsorted := LeafList(Keys(msg), Counts(msg));
    LeafListWeight(Keys(msg), Counts(msg));
    SortWeight(unsorted);
    CountsSum(msg);
  }

  /**
   * `letterFreq` (lines 16-37): one `(count, byte)` leaf per distinct byte,
   * whose count is the byte's number of occurrences, sorted by count; the
   * counts add up to the message length. How `heapify` orders equal counts
   * is not modelled: equal counts keep the order of first occurrence.
   */
  method LetterFreq(msg: seq<Byte>) returns (heap: seq<WTree>)
    ensures forall t :: t in heap ==> t.WLeaf? && t.weight == multiset(msg)[t.sym]
    ensures Syms(heap) == multiset(Alphabet(msg))
    ensures SortedByWeight(heap)
    ensures TotalWeight(heap) == |msg|
    ensures heap == [] <==> msg == []
  {
    var frequency: map<Byte, nat> := map[];
    var order: seq<Byte> := [];  // the order in which the dictionary iterates its keys
    for i := 0 to |msg|
      invariant frequency == Counts(msg[..i]) && order == Keys(msg[..i])
    {
      var letter := msg[i];
      assert msg[..i + 1][..i] == msg[..i] && msg[..i + 1][i] == letter;
      CountsMembers(msg[..i]);
      assert Counts(msg[..i + 1]) == frequency[letter := Get(frequency, letter) + 1];
      if letter !in frequency {
        frequency := frequency[letter := 0];
        order := order + [letter];
      }
      frequency := frequency[letter := frequency[letter] + 1];
    }
    assert msg[..|msg|] == msg;
    CountsMembers(msg);
    heap := [];
    for j := 0 to |order|
      invariant heap == LeafList(order[..j], frequency)
    {
      var key := order[j];
      assert order[..j + 1][..j] == order[..j];
      heap := heap + [WLeaf(frequency[key], key)];
    }
    assert order[..|order|] == order;
    heap := SortByWeight(heap);
    SortedLeaves(msg);
  }

  /** What the sorted leaves of a message hold, as `letterFreq` promises it. */
  lemma SortedLeaves(msg: seq<Byte>)
    ensures var heap := SortByWeight(LeafList(Keys(msg), Counts(msg)));
      && (forall t :: t in heap ==> t.WLeaf? && t.weight == multiset(msg)[t.sym])
      && Syms(heap) == multiset(Alphabet(msg))
      && TotalWeight(heap) == |msg|
      && (heap == [] <==> msg == [])
  {
    var order := Keys(msg);
    SortedLeavesCount(msg);
    SortedLeavesSyms(msg);
    SortedLeavesWeight(msg);
    CountsMembers(msg);
    assert msg != [] ==> msg[0] in order;
    var heap := SortByWeight(LeafList(order, Counts(msg)));
    assert |heap| == |multiset(heap)| == |order|;
  }

  /** Every merged entry weighs what its two parts weigh together. */
  ghost predicate WellWeighted(t: WTree) {
    match t
    case WLeaf(_, _) => true
    case WNode(w, l, r) => w == l.weight + r.weight && WellWeighted(l) && WellWeighted(r)
  }

  ghost predicate AllWellWeighted(s: seq<WTree>) {
    forall t :: t in s ==> WellWeighted(t)
  }

  /** Lines 48-50: the two entries under one new entry carrying their combined weight. */
  function Merge(first: WTree, second: WTree): WTree {
    WNode(first.weight + second.weight, first, second)
  }

  /** One merge of the two first entries, in any order, shortens the heap by one and keeps its weight. */
  lemma MergeWeight(h: seq<WTree>, r: seq<WTree>)
    requires |h| >= 2
    requires r == SortByWeight(h[2..] + [Merge(h[0], h[1])])
    ensures |r| == |h| - 1
    ensures TotalWeight(r) == TotalWeight(h)
  {
    var unsorted := h[2..] + [Merge(h[0], h[1])];
    assert |r| == |multiset(r)| == |unsorted|;
    assert h[1..][1..] == h[2..];
    ConcatWeight(h[2..], [Merge(h[0], h[1])]);
    SortWeight(unsorted);
  }

  /** One merge of the two first entries, in any order, keeps the bytes of the heap. */
  lemma MergeSyms(h: seq<WTree>, r: seq<WTree>)
    requires |h| >= 2
    requires r == SortByWeight(h[2..] + [Merge(h[0], h[1])])
    ensures Syms(r) == Syms(h)
  {
    var merged := Merge(h[0], h[1]);
    var unsorted := h[2..] + [merged];
    assert h[1..][1..] == h[2..];
    ConcatSyms(h[2..], [merged]);
    SingleSyms(merged);
    SortSyms(unsorted);
  }

  /** A merge of well-weighted entries is well-weighted. */
  lemma MergeWellWeighted(h: seq<WTree>, r: seq<WTree>)
    requires |h| >= 2 && AllWellWeighted(h)
    requires r == SortByWeight(h[2..] + [Merge(h[0], h[1])])
    ensures AllWellWeighted(r)
  {
    var unsorted := h[2..] + [Merge(h[0], h[1])];
    forall t | t in r ensures WellWeighted(t) {
      assert t in multiset(unsorted);
      if t != Merge(h[0], h[1]) {
        assert t in h[2..];
      }
    }
  }

  /** A merge step keeps what the loop of `wTreeNode` keeps. */
  lemma MergeKeeps(heap: seq<WTree>, h: seq<WTree>, r: seq<WTree>)
    requires |h| >= 2 && r == SortByWeight(h[2..] + [Merge(h[0], h[1])])
    requires TotalWeight(h) == TotalWeight(heap) && Syms(h) == Syms(heap)
    requires AllWellWeighted(heap) ==> AllWellWeighted(h)
    ensures |r| == |h| - 1 && TotalWeight(r) == TotalWeight(heap) && Syms(r) == Syms(heap)
    ensures AllWellWeighted(heap) ==> AllWellWeighted(r)
  {
    MergeWeight(h, r);
    MergeSyms(h, r);
    if AllWellWeighted(heap) {
      MergeWellWeighted(h, r);
    }
  }

  /**
   * `wTreeNode` (lines 43-54): merging the two lightest entries until at most
   * one is left keeps the total weight and the multiset of leaves, and each
   * merged entry weighs the sum of its parts.
   */
  method WTreeNode(heap: seq<WTree>) returns (heap': seq<WTree>)
    ensures |heap'| == if heap == [] then 0 else 1
    ensures TotalWeight(heap') == TotalWeight(heap)
    ensures Syms(heap') == Syms(heap)
    ensures AllWellWeighted(heap) ==> AllWellWeighted(heap')
  {
    heap' := heap;
    while |heap'| > 1
      invariant |heap'| <= |heap| && (heap != [] ==> heap' != [])
      invariant TotalWeight(heap') == TotalWeight(heap)
      invariant Syms(heap') == Syms(heap)
      invariant AllWellWeighted(heap) ==> AllWellWeighted(heap')
      decreases |heap'|
    {
      var first, second := heap'[0], heap'[1];
      ghost var before := heap';
      heap' := SortByWeight(heap'[2..] + [Merge(first, second)]);
      MergeKeeps(heap, before, heap');
    }
  }

  /** `treeNode` (lines 61-71): dropping the weights keeps the leaves and their order. */
  function TreeNode(t: WTree): (r: Tree)
    ensures Leaves(r) == WLeaves(t)
    ensures r.Leaf? <==> t.WLeaf?
  {
    match t
    case WLeaf(_, b) => Leaf(b)
    case WNode(_, l, rt) => Node(TreeNode(l), TreeNode(rt))
  }

  /** The code of every leaf under `t`, each prefixed by `code`; later leaves win. */
  function CodeTable(t: Tree, code: string): map<Byte, string> {
    match t
    case Leaf(b) => map[b := code]
    case Node(l, r) => CodeTable(l, code + "0") + CodeTable(r, code + "1")
  }

  /** `getCodes` (lines 76-85): fills the caller's dictionary in place; here it returns it. */
  method GetCodes(node: Tree, codes: map<Byte, string>, code: string) returns (codes': map<Byte, string>)
    ensures codes' == codes + CodeTable(node, code)
    decreases node
  {
    if node.Node? {
      codes' := GetCodes(node.left, codes, code + "0");
      codes' := GetCodes(node.right, codes', code + "1");
    } else {
      codes' := codes[node.sym := code];
    }
  }

  ghost predicate Binary(s: string) {
    forall i :: 0 <= i < |s| ==> s[i] == '0' || s[i] == '1'
  }

  ghost predicate IsPrefix(a: string, b: string) {
    |a| <= |b| && b[..|a|] == a
  }

  /** No code is a prefix of the code of another byte (so no two codes are equal). */
  ghost predicate PrefixFree(codes: map<Byte, string>) {
    forall a, b :: a in codes && b in codes && a != b ==> !IsPrefix(codes[a], codes[b])
  }

  ghost predicate DistinctLeaves(t: Tree) {
    forall b :: multiset(Leaves(t))[b] <= 1
  }

  /** Following `bits` from the root of `t` (`0` left, `1` right) ends at leaf `b`. */
  ghost predicate Reaches(t: Tree, bits: string, b: Byte)
    decreases t
  {
    if bits == [] then t == Leaf(b)
    else (t.Node? &&
          if bits[0] == '0' then Reaches(t.left, bits[1..], b)
          else (bits[0] == '1' && Reaches(t.right, bits[1..], b)))
  }

  /** The table has one code per leaf; every code extends `c` by binary digits. */
  lemma {:induction false} CodeTableShape(t: Tree, c: string)
    ensures forall b :: b in CodeTable(t, c) <==> b in Leaves(t)
    ensures forall b :: b in CodeTable(t, c) ==>
      IsPrefix(c, CodeTable(t, c)[b]) && Binary(CodeTable(t, c)[b][|c|..])
    ensures t.Node? ==> forall b :: b in CodeTable(t, c) ==> |CodeTable(t, c)[b]| > |c|
    decreases t
  {
    if t.Node? {
      var c0, c1 := c + "0", c + "1";
      CodeTableShape(t.left, c0);
      CodeTableShape(t.right, c1);
      var m := CodeTable(t, c);
      forall b | b in m ensures IsPrefix(c, m[b]) && Binary(m[b][|c|..]) && |m[b]| > |c| {
        var ml, mr := CodeTable(t.left, c0), CodeTable(t.right, c1);
        if b in mr {
          assert m[b] == mr[b];
          ChildPrefix(m[b], c, c1);
        } else {
          assert m[b] == ml[b];
          ChildPrefix(m[b], c, c0);
        }
      }
    } else {
      var m := CodeTable(t, c);
      assert m[t.sym][|c|..] == [];
    }
  }

  lemma DistinctLeavesSplit(t: Tree)
    requires t.Node? && DistinctLeaves(t)
    ensures DistinctLeaves(t.left) && DistinctLeaves(t.right)
    ensures forall b :: b in Leaves(t.left) ==> b !in Leaves(t.right)
  {
    assert multiset(Leaves(t)) == multiset(Leaves(t.left)) + multiset(Leaves(t.right));
    forall b ensures multiset(Leaves(t.left))[b] <= 1 && multiset(Leaves(t.right))[b] <= 1 {
      assert multiset(Leaves(t))[b] <= 1;
    }
    forall b | b in Leaves(t.left) ensures b !in Leaves(t.right) {
      assert multiset(Leaves(t))[b] <= 1;
    }
  }

  /** Leaves that are all different get codes that are prefix-free. */
  lemma {:induction false} CodeTablePrefixFree(t: Tree, c: string)
    requires DistinctLeaves(t)
    ensures PrefixFree(CodeTable(t, c))
    decreases t
  {
    if t.Node? {
      var c0, c1 := c + "0", c + "1";
      var ml, mr := CodeTable(t.left, c0), CodeTable(t.right, c1);
      DistinctLeavesSplit(t);
      CodeTablePrefixFree(t.left, c0);
      CodeTablePrefixFree(t.right, c1);
      CodeTableShape(t.left, c0);
      CodeTableShape(t.right, c1);
      var m := CodeTable(t, c);
      forall a, b | a in m && b in m && a != b ensures !IsPrefix(m[a], m[b]) {
        if a in ml && b in mr {
          assert m[a] == ml[a] && m[b] == mr[b];
          assert m[a][|c|] == m[a][..|c0|][|c|] == '0';
          assert m[b][|c|] == m[b][..|c1|][|c|] == '1';
        } else if a in mr && b in ml {
          assert m[a] == mr[a] && m[b] == ml[b];
          assert m[a][|c|] == m[a][..|c1|][|c|] == '1';
          assert m[b][|c|] == m[b][..|c0|][|c|] == '0';
        }
      }
    }
  }

  /** Each code is the path from the root to its leaf: `0` for left, `1` for right. */
  lemma {:induction false} CodeTablePaths(t: Tree, c: string)
    requires DistinctLeaves(t)
    ensures forall b :: b in CodeTable(t, c) ==>
      |c| <= |CodeTable(t, c)[b]| && Reaches(t, CodeTable(t, c)[b][|c|..], b)
    decreases t
  {
    CodeTableShape(t, c);
    if t.Node? {
      var c0, c1 := c + "0", c + "1";
      var ml, mr := CodeTable(t.left, c0), CodeTable(t.right, c1);
      DistinctLeavesSplit(t);
      CodeTablePaths(t.left, c0);
      CodeTablePaths(t.right, c1);
      CodeTableShape(t.left, c0);
      CodeTableShape(t.right, c1);
      var m := CodeTable(t, c);
      forall b | b in m ensures Reaches(t, m[b][|c|..], b) {
        if b in mr {
          assert m[b] == mr[b];
          ChildCode(mr[b], c, c1);
        } else {
          assert m[b] == ml[b];
          ChildCode(ml[b], c, c0);
        }
      }
    } else {
      assert CodeTable(t, c)[t.sym][|c|..] == [];
    }
  }

  /** A code under a child's prefix `cb`, read from the parent's prefix `c`: its next bit, then the rest. */
  lemma ChildCode(code: string, c: string, cb: string)
    requires |cb| == |c| + 1 && cb[..|c|] == c && IsPrefix(cb, code)
    ensures |c| < |code| && code[|c|..][0] == cb[|c|] && code[|c|..][1..] == code[|cb|..]
  {
    assert code[|c|..][0] == code[..|cb|][|c|];
  }

  /** A binary code under a child's prefix `cb = c + bit` is binary under the parent's prefix `c`. */
  lemma ChildPrefix(code: string, c: string, cb: string)
    requires |cb| == |c| + 1 && cb[..|c|] == c && (cb[|c|] == '0' || cb[|c|] == '1')
    requires IsPrefix(cb, code) && Binary(code[|cb|..])
    ensures |code| > |c| && IsPrefix(c, code) && Binary(code[|c|..])
  {
    assert code[..|c|] == code[..|cb|][..|c|];
    assert code[|c|..] == [cb[|c|]] + code[|cb|..];
  }
}
