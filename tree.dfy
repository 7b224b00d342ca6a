/** The Huffman tree of the text coder (`HuffmanNode` and `buildHuffmanTree` in
    src/lib/compressors.ts).

    The source keeps a working list `nodes`, starting with one leaf per map entry
    in the map's insertion order. While more than one node is left it sorts the
    list by frequency with the stable `Array.prototype.sort`, takes the first two
    nodes off the front (`shift`), and appends their merge (`push`), the first
    taken becoming the left child. */
module HuffmanTree {
  import opened Sequences
  import opened Outcome
  import opened Frequency

  /** A tree node: a leaf for one character, or an internal node owning two
      children. The source marks a leaf by a defined `char`; an internal node
      built by the merge always has both children. */
  datatype Node = Leaf(ch: char, freq: nat) | Internal(freq: nat, left: Node, right: Node)

  /** The (character, frequency) pairs of the leaves, left to right. */
  function Leaves(n: Node): seq<(char, nat)>
  {
    match n
    case Leaf(c, f) => [(c, f)]
    case Internal(_, l, r) => Leaves(l) + Leaves(r)
  }

  /** The characters at the leaves. */
  function Symbols(n: Node): set<char>
  {
    set e | e in Leaves(n) :: e.0
  }

  /** The leaves of a list of trees, tree after tree. */
  function ForestLeaves(ns: seq<Node>): seq<(char, nat)>
  {
    if ns == [] then [] else Leaves(ns[0]) + ForestLeaves(ns[1..])
  }

  /** Every internal node carries the sum of its children's frequencies. */
  predicate Full(n: Node)
  {
    match n
    case Leaf(_, _) => true
    case Internal(f, l, r) => f == l.freq + r.freq && Full(l) && Full(r)
  }

  /** Number of internal nodes. */
  function InternalCount(n: Node): nat
  {
    match n
    case Leaf(_, _) => 0
    case Internal(_, l, r) => 1 + InternalCount(l) + InternalCount(r)
  }

  /** Sum of the frequencies of a list of nodes. */
  function FreqSum(ns: seq<Node>): nat
  {
    if ns == [] then 0 else FreqSum(ns[..|ns| - 1]) + ns[|ns| - 1].freq
  }

  /** The characters of a list of entries. */
  function Chars(es: seq<(char, nat)>): seq<char>
  {
    seq(|es|, i requires 0 <= i < |es| => es[i].0)
  }

  // ---------------------------------------------------------------------------
  // The stable sort by frequency (`nodes.sort((a, b) => a.freq - b.freq)`)

  /** Non-decreasing frequencies. */
  predicate SortedByFreq(s: seq<Node>)
  {
    forall i, j :: 0 <= i < j < |s| ==> s[i].freq <= s[j].freq
  }

  /** The nodes of `s` with frequency `f`, in their order in `s`. */
  function WithFreq(s: seq<Node>, f: nat): seq<Node>
  {
    if s == [] then []
    else (if s[0].freq == f then [s[0]] else []) + WithFreq(s[1..], f)
  }

  /** Places `x` before the first node of `s` whose frequency is not smaller. */
  function Insert(x: Node, s: seq<Node>): (r: seq<Node>)
    ensures |r| == |s| + 1
  {
    if s == [] || x.freq <= s[0].freq then [x] + s
    else [s[0]] + Insert(x, s[1..])
  }

  /** Insertion sort by frequency; a node is inserted before the equal nodes
      that follow it in the input, so equal frequencies keep their order. */
  function SortByFreq(s: seq<Node>): (r: seq<Node>)
    ensures |r| == |s|
  {
    if s == [] then [] else Insert(s[0], SortByFreq(s[1..]))
  }

  /** Inserting adds exactly the inserted node. */
  lemma {:induction false} InsertPermutes(x: Node, s: seq<Node>)
    ensures multiset(Insert(x, s)) == multiset(s) + multiset{x}
  {
    if s != [] && x.freq > s[0].freq {
      InsertPermutes(x, s[1..]);
      assert s == [s[0]] + s[1..];
    }
  }

  /** The sort is a permutation. */
  lemma {:induction false} SortPermutes(s: seq<Node>)
    ensures multiset(SortByFreq(s)) == multiset(s)
  {
    if s != [] {
      SortPermutes(s[1..]);
      InsertPermutes(s[0], SortByFreq(s[1..]));
      assert s == [s[0]] + s[1..];
    }
  }

  /** Sorting a non-empty list inserts its head into the sorted tail. */
  lemma SortStep(s: seq<Node>)
    requires s != []
    ensures SortByFreq(s) == Insert(s[0], SortByFreq(s[1..]))
  {
  }

  /** A node no heavier than the head goes in front. */
  lemma InsertFront(x: Node, s: seq<Node>)
    requires s == [] || x.freq <= s[0].freq
    ensures Insert(x, s) == [x] + s
  {
  }

  /** A node heavier than the head goes after it. */
  lemma InsertPast(x: Node, s: seq<Node>)
    requires s != [] && x.freq > s[0].freq
    ensures Insert(x, s) == [s[0]] + Insert(x, s[1..])
  {
  }

  lemma {:induction false} InsertSorted(x: Node, s: seq<Node>)
    requires SortedByFreq(s)
    ensures SortedByFreq(Insert(x, s))
  {
    if s == [] || x.freq <= s[0].freq {
      InsertFront(x, s);
      SortedPrepend(x, s);
    } else {
      var r := Insert(x, s[1..]);
      InsertSorted(x, s[1..]);
      InsertPermutes(x, s[1..]);
      InsertPast(x, s);
      forall k | 0 <= k < |r| ensures s[0].freq <= r[k].freq {
        assert r[k] in multiset(s[1..]) + multiset{x};
      }
      SortedPrepend(s[0], r);
    }
  }

  lemma SortedPrepend(y: Node, r: seq<Node>)
    requires SortedByFreq(r)
    requires r == [] || y.freq <= r[0].freq
    ensures SortedByFreq([y] + r)
  {
  }

  /** The sort orders by frequency. */
  lemma {:induction false} SortSorted(s: seq<Node>)
    ensures SortedByFreq(SortByFreq(s))
  {
    if s != [] {
      SortSorted(s[1..]);
      InsertSorted(s[0], SortByFreq(s[1..]));
    }
  }

  lemma {:induction false} InsertStable(x: Node, s: seq<Node>, f: nat)
    ensures WithFreq(Insert(x, s), f) == (if x.freq == f then [x] else []) + WithFreq(s, f)
  {
    if s == [] || x.freq <= s[0].freq {
      WithFreqPrepend(x, s, f);
    } else {
      InsertStable(x, s[1..], f);
      WithFreqPrepend(s[0], Insert(x, s[1..]), f);
      WithFreqPrepend(s[0], s[1..], f);
      assert [s[0]] + s[1..] == s;
    }
  }

  lemma WithFreqPrepend(x: Node, s: seq<Node>, f: nat)
    ensures WithFreq([x] + s, f) == (if x.freq == f then [x] else []) + WithFreq(s, f)
  {
    assert ([x] + s)[1..] == s;
  }

  /** The sort is stable: for every frequency, the nodes with that frequency
      appear in the result in the same order as in the input. */
  lemma {:induction false} SortStable(s: seq<Node>, f: nat)
    ensures WithFreq(SortByFreq(s), f) == WithFreq(s, f)
  {
    if s != [] {
      SortStable(s[1..], f);
      InsertStable(s[0], SortByFreq(s[1..]), f);
    }
  }

  lemma ForestPrepend(x: Node, s: seq<Node>)
    ensures ForestLeaves([x] + s) == Leaves(x) + ForestLeaves(s)
  {
    assert ([x] + s)[1..] == s;
  }

  lemma {:induction false} InsertForest(x: Node, s: seq<Node>)
    ensures multiset(ForestLeaves(Insert(x, s))) == multiset(Leaves(x)) + multiset(ForestLeaves(s))
  {
    if s == [] || x.freq <= s[0].freq {
      InsertFront(x, s);
      ForestPrepend(x, s);
    } else {
      InsertForest(x, s[1..]);
      InsertPast(x, s);
      ForestPrepend(s[0], Insert(x, s[1..]));
      ForestPrepend(s[0], s[1..]);
      assert [s[0]] + s[1..] == s;
      ghost var a, b, c := Leaves(s[0]), Leaves(x), ForestLeaves(s[1..]);
      assert multiset(ForestLeaves(Insert(x, s))) == multiset(a) + (multiset(b) + multiset(c));
    }
  }

  lemma {:induction false} SortForest(s: seq<Node>)
    ensures multiset(ForestLeaves(SortByFreq(s))) == multiset(ForestLeaves(s))
  {
    if s != [] {
      SortForest(s[1..]);
      InsertForest(s[0], SortByFreq(s[1..]));
    }
  }

  lemma {:induction false} FreqSumPrepend(x: Node, s: seq<Node>)
    ensures FreqSum([x] + s) == x.freq + FreqSum(s)
  {
    if s != [] {
      assert ([x] + s)[..|s|] == [x] + s[..|s| - 1];
      FreqSumPrepend(x, s[..|s| - 1]);
    }
  }

  lemma {:induction false} InsertFreqSum(x: Node, s: seq<Node>)
    ensures FreqSum(Insert(x, s)) == x.freq + FreqSum(s)
  {
    if s == [] || x.freq <= s[0].freq {
      FreqSumPrepend(x, s);
    } else {
      InsertFreqSum(x, s[1..]);
      FreqSumPrepend(s[0], Insert(x, s[1..]));
      FreqSumPrepend(s[0], s[1..]);
      assert [s[0]] + s[1..] == s;
    }
  }

  lemma {:induction false} SortFreqSum(s: seq<Node>)
    ensures FreqSum(SortByFreq(s)) == FreqSum(s)
  {
    if s != [] {
      SortFreqSum(s[1..]);
      InsertFreqSum(s[0], SortByFreq(s[1..]));
      FreqSumPrepend(s[0], s[1..]);
      assert [s[0]] + s[1..] == s;
    }
  }

  // ---------------------------------------------------------------------------
  // The merge loop

  /** Takes the two front nodes off (`shift`, `shift`) and appends their merge
      (`push`), the first one taken on the left. */
  function MergeFirstTwo(s: seq<Node>): (r: seq<Node>)
    requires |s| >= 2
    ensures |r| == |s| - 1
  {
    s[2..] + [Internal(s[0].freq + s[1].freq, s[0], s[1])]
  }

  /** One iteration of the loop: sort, then merge the two front nodes. */
  function MergeStep(ns: seq<Node>): (r: seq<Node>)
    requires |ns| >= 2
    ensures |r| == |ns| - 1
  {
    MergeFirstTwo(SortByFreq(ns))
  }

  /** Two `shift`s and a `push` perform `MergeFirstTwo`. */
  lemma ShiftShiftPush(s: seq<Node>)
    requires |s| >= 2
    ensures s[1..][1..] + [Internal(s[0].freq + s[1..][0].freq, s[0], s[1..][0])] == MergeFirstTwo(s)
  {
    assert s[1..][1..] == s[2..];
  }

  /** The tree the loop leaves behind when it starts from `ns`. */
  function Huffman(ns: seq<Node>): Node
    requires |ns| >= 1
    decreases |ns|
  {
    if |ns| == 1 then ns[0] else Huffman(MergeStep(ns))
  }

  /** One leaf per map entry, in entry order. */
  function LeavesOf(es: seq<(char, nat)>): (ns: seq<Node>)
    ensures |ns| == |es|
    ensures forall i :: 0 <= i < |es| ==> ns[i] == Leaf(es[i].0, es[i].1)
  {
    seq(|es|, i requires 0 <= i < |es| => Leaf(es[i].0, es[i].1))
  }

  /** The result of `buildHuffmanTree`: no tree for an empty map. */
  function HuffmanRoot(fm: FrequencyMap): Option<Node>
    requires fm.Valid()
  {
    var nodes := LeavesOf(fm.Entries());
    if |nodes| == 0 then None else Some(Huffman(nodes))
  }

  /** `buildHuffmanTree`, the loop over the working list `nodes`. */
  method BuildHuffmanTree(fm: FrequencyMap) returns (root: Option<Node>)
    requires fm.Valid()
    ensures root == HuffmanRoot(fm)
    ensures root.None? <==> fm.keys == []
  {
    var nodes := LeavesOf(fm.Entries());
    if |nodes| == 0 {
      return None;
    }
    ghost var start := nodes;
    while |nodes| > 1
      invariant 1 <= |nodes| <= |start|
      invariant Huffman(nodes) == Huffman(start)
      decreases |nodes|
    {
      ghost var before := nodes;
      nodes := SortByFreq(nodes);
      ghost var sorted := nodes;
      var left := nodes[0];
      nodes := nodes[1..];
      var right := nodes[0];
      nodes := nodes[1..];
      nodes := nodes + [Internal(left.freq + right.freq, left, right)];
      ShiftShiftPush(sorted);
      assert nodes == MergeStep(before);
    }
    root := Some(nodes[0]);
  }

  // ---------------------------------------------------------------------------
  // What one merge does

  /** Each merge joins the two smallest frequencies, the smaller on the left,
      into a node carrying their sum; no node is lost. */
  lemma MergeTakesTwoSmallest(ns: seq<Node>)
    requires |ns| >= 2
    ensures var r := MergeStep(ns);
      var m := r[|r| - 1];
      && m.Internal?
      && m.freq == m.left.freq + m.right.freq
      && m.left.freq <= m.right.freq
      && (forall k :: 0 <= k < |r| - 1 ==> m.right.freq <= r[k].freq)
      && (forall k :: 0 <= k < |ns| ==> m.left.freq <= ns[k].freq)
      && multiset(r[..|r| - 1]) + multiset{m.left, m.right} == multiset(ns)
  {
    var s := SortByFreq(ns);
    SortSorted(ns);
    SortPermutes(ns);
    var r := MergeStep(ns);
    assert r[..|r| - 1] == s[2..];
    assert s == [s[0], s[1]] + s[2..];
    forall k | 0 <= k < |ns| ensures s[0].freq <= ns[k].freq {
      assert ns[k] in multiset(s);
    }
  }

  /** Ties are broken by list order: the left child of a merge is the earliest
      node (in the list before sorting) of the smallest frequency; the right
      child is the next node of that frequency if there is one, and otherwise
      the earliest node of the next smallest frequency. */
  lemma MergeBreaksTiesInListOrder(ns: seq<Node>)
    requires |ns| >= 2
    ensures var r := MergeStep(ns);
      var m := r[|r| - 1];
      && m.Internal?
      && |WithFreq(ns, m.left.freq)| >= 1
      && WithFreq(ns, m.left.freq)[0] == m.left
      && (m.right.freq == m.left.freq ==>
            |WithFreq(ns, m.left.freq)| >= 2 && WithFreq(ns, m.left.freq)[1] == m.right)
      && (m.right.freq != m.left.freq ==>
            |WithFreq(ns, m.right.freq)| >= 1 && WithFreq(ns, m.right.freq)[0] == m.right)
  {
    var s := SortByFreq(ns);
    var f0, f1 := s[0].freq, s[1].freq;
    SortStable(ns, f0);
    SortStable(ns, f1);
    assert s[1..][1..] == s[2..];
    assert WithFreq(s, f0) == [s[0]] + WithFreq(s[1..], f0);
    if f1 == f0 {
      assert WithFreq(s[1..], f0) == [s[1]] + WithFreq(s[2..], f0);
    } else {
      assert WithFreq(s[1..], f1) == [s[1]] + WithFreq(s[2..], f1);
    }
  }

  // ---------------------------------------------------------------------------
  // The shape of the finished tree

  /** Taking the two front nodes and appending their merge keeps the leaves. */
  lemma MergeFirstTwoLeaves(s: seq<Node>)
    requires |s| >= 2
    ensures multiset(ForestLeaves(MergeFirstTwo(s))) == multiset(ForestLeaves(s))
  {
    var rest := s[2..];
    assert s[1..][1..] == rest;
    assert ForestLeaves(s) == Leaves(s[0]) + (Leaves(s[1]) + ForestLeaves(rest));
    ForestAppend(rest, Internal(s[0].freq + s[1].freq, s[0], s[1]));
  }

  /** Taking the two front nodes and appending their merge keeps the total
      frequency. */
  lemma MergeFirstTwoFreqSum(s: seq<Node>)
    requires |s| >= 2
    ensures FreqSum(MergeFirstTwo(s)) == FreqSum(s)
  {
    FreqSumFrontTwo(s);
    FreqSumAppend(s[2..], Internal(s[0].freq + s[1].freq, s[0], s[1]));
  }

  lemma FreqSumFrontTwo(s: seq<Node>)
    requires |s| >= 2
    ensures FreqSum(s) == s[0].freq + s[1].freq + FreqSum(s[2..])
  {
    FreqSumPrepend(s[1], s[2..]);
    FreqSumPrepend(s[0], [s[1]] + s[2..]);
    assert [s[0]] + ([s[1]] + s[2..]) == s;
  }

  lemma FreqSumAppend(ns: seq<Node>, m: Node)
    ensures FreqSum(ns + [m]) == FreqSum(ns) + m.freq
  {
    assert (ns + [m])[..|ns|] == ns;
  }

  /** A merge step keeps the leaves and the total frequency. */
  lemma MergeStepKeeps(ns: seq<Node>)
    requires |ns| >= 2
    ensures multiset(ForestLeaves(MergeStep(ns))) == multiset(ForestLeaves(ns))
    ensures FreqSum(MergeStep(ns)) == FreqSum(ns)
  {
    SortForest(ns);
    SortFreqSum(ns);
    MergeFirstTwoLeaves(SortByFreq(ns));
    MergeFirstTwoFreqSum(SortByFreq(ns));
  }

  lemma {:induction false} ForestAppend(ns: seq<Node>, m: Node)
    ensures ForestLeaves(ns + [m]) == ForestLeaves(ns) + Leaves(m)
  {
    if ns != [] {
      assert (ns + [m])[1..] == ns[1..] + [m];
      ForestAppend(ns[1..], m);
    } else {
      assert [m][1..] == [];
    }
  }

  /** The leaves of the finished tree are the leaves of the starting list. */
  lemma {:induction false} HuffmanLeaves(ns: seq<Node>)
    requires |ns| >= 1
    ensures multiset(Leaves(Huffman(ns))) == multiset(ForestLeaves(ns))
    decreases |ns|
  {
    if |ns| == 1 {
      assert ns == [ns[0]];
      assert ns[1..] == [];
    } else {
      MergeStepKeeps(ns);
      HuffmanLeaves(MergeStep(ns));
    }
  }

  /** Merging keeps every node full. */
  lemma {:induction false} HuffmanFull(ns: seq<Node>)
    requires |ns| >= 1
    requires forall i :: 0 <= i < |ns| ==> Full(ns[i])
    ensures Full(Huffman(ns))
    decreases |ns|
  {
    if |ns| > 1 {
      var s := SortByFreq(ns);
      SortPermutes(ns);
      forall i | 0 <= i < |s| ensures Full(s[i]) {
        assert s[i] in multiset(ns);
      }
      HuffmanFull(MergeStep(ns));
    }
  }

  /** The root's frequency is the sum of the starting frequencies. */
  lemma {:induction false} HuffmanFreq(ns: seq<Node>)
    requires |ns| >= 1
    ensures Huffman(ns).freq == FreqSum(ns)
    decreases |ns|
  {
    if |ns| == 1 {
      assert ns[..0] == [];
    } else {
      MergeStepKeeps(ns);
      HuffmanFreq(MergeStep(ns));
    }
  }

  /** A tree with n leaves has n - 1 internal nodes. */
  lemma {:induction false} LeafCount(n: Node)
    ensures |Leaves(n)| == InternalCount(n) + 1
  {
    if n.Internal? {
      LeafCount(n.left);
      LeafCount(n.right);
    }
  }

  lemma {:induction false} LeavesOfForest(es: seq<(char, nat)>)
    ensures ForestLeaves(LeavesOf(es)) == es
  {
    if es != [] {
      LeavesOfForest(es[1..]);
      assert LeavesOf(es)[1..] == LeavesOf(es[1..]);
      assert es == [es[0]] + es[1..];
    }
  }

  lemma {:induction false} LeavesOfTotal(es: seq<(char, nat)>)
    ensures FreqSum(LeavesOf(es)) == EntryTotal(es)
  {
    if es != [] {
      LeavesOfTotal(es[..|es| - 1]);
      assert LeavesOf(es)[..|es| - 1] == LeavesOf(es[..|es| - 1]);
    }
  }

  /** A character occurs at most once in a list; a list with that property
      holds each entry at most once. */
  lemma {:induction false} DistinctMultiplicity(a: seq<(char, nat)>, x: (char, nat))
    requires Distinct(Chars(a))
    ensures multiset(a)[x] <= 1
  {
    if a != [] {
      assert a == [a[0]] + a[1..];
      assert Chars(a)[1..] == Chars(a[1..]);
      DistinctMultiplicity(a[1..], x);
      if a[0] == x {
        assert x !in a[1..] by {
          forall k | 0 <= k < |a[1..]| ensures a[1..][k] != x {
            assert Chars(a)[0] != Chars(a)[k + 1];
          }
        }
      }
    }
  }

  /** Two equal entries at different positions are two copies. */
  lemma TwoCopies(b: seq<(char, nat)>, i: nat, j: nat)
    requires i < j < |b|
    ensures b[i] == b[j] ==> multiset(b)[b[i]] >= 2
  {
    if b[i] == b[j] {
      assert b == b[..i] + [b[i]] + b[i + 1..j] + [b[j]] + b[j + 1..];
    }
  }

  /** Reordering a list keeps its characters distinct. */
  lemma DistinctPermutation(a: seq<(char, nat)>, b: seq<(char, nat)>)
    requires multiset(a) == multiset(b)
    requires Distinct(Chars(a))
    ensures Distinct(Chars(b))
  {
    forall i, j | 0 <= i < j < |b| ensures b[i].0 != b[j].0 {
      TwoCopies(b, i, j);
      DistinctMultiplicity(a, b[i]);
      assert b[i] in multiset(a) && b[j] in multiset(a);
      var i' :| 0 <= i' < |a| && a[i'] == b[i];
      var j' :| 0 <= j' < |a| && a[j'] == b[j];
      assert Chars(a)[i'] != Chars(a)[j'];
    }
  }

  /** The leaves of the built tree are the map's entries, each character once. */
  lemma HuffmanRootLeaves(fm: FrequencyMap)
    requires fm.Valid() && fm.keys != []
    ensures HuffmanRoot(fm).Some?
    ensures multiset(Leaves(HuffmanRoot(fm).value)) == multiset(fm.Entries())
    ensures Distinct(Chars(Leaves(HuffmanRoot(fm).value)))
  {
    var es := fm.Entries();
    var nodes := LeavesOf(es);
    LeavesOfForest(es);
    HuffmanLeaves(nodes);
    assert Chars(es) == fm.keys;
    DistinctPermutation(es, Leaves(Huffman(nodes)));
  }

  /** The built tree is full, with one internal node fewer than the map has
      keys, and its root carries the total count. */
  lemma HuffmanRootCounts(fm: FrequencyMap)
    requires fm.Valid() && fm.keys != []
    ensures HuffmanRoot(fm).Some?
    ensures Full(HuffmanRoot(fm).value)
    ensures InternalCount(HuffmanRoot(fm).value) == |fm.keys| - 1
    ensures HuffmanRoot(fm).value.freq == EntryTotal(fm.Entries())
  {
    var es := fm.Entries();
    var nodes := LeavesOf(es);
    var root := Huffman(nodes);
    HuffmanRootLeaves(fm);
    LeavesOfTotal(es);
    HuffmanFull(nodes);
    HuffmanFreq(nodes);
    LeafCount(root);
    assert |Leaves(root)| == |multiset(Leaves(root))| == |multiset(es)| == |es|;
  }

  /** `buildHuffmanTree` returns no tree exactly for the empty map; otherwise the
      leaves of its tree are exactly the map's entries, each character once; the
      tree is full, has one internal node fewer than leaves, and its root carries
      the total count; a single entry gives a single leaf. */
  lemma HuffmanRootShape(fm: FrequencyMap)
    requires fm.Valid()
    ensures HuffmanRoot(fm).None? <==> fm.keys == []
    ensures HuffmanRoot(fm).Some? ==>
      var root := HuffmanRoot(fm).value;
      && multiset(Leaves(root)) == multiset(fm.Entries())
      && Distinct(Chars(Leaves(root)))
      && Full(root)
      && InternalCount(root) == |fm.keys| - 1
      && root.freq == EntryTotal(fm.Entries())
    ensures |fm.keys| == 1 ==> HuffmanRoot(fm) == Some(Leaf(fm.keys[0], fm.count[fm.keys[0]]))
  {
    if fm.keys != [] {
      HuffmanRootLeaves(fm);
      HuffmanRootCounts(fm);
    }
  }

  /** The characters at the leaves of the built tree are the map's keys. */
  lemma HuffmanRootSymbols(fm: FrequencyMap)
    requires fm.Valid() && fm.keys != []
    ensures HuffmanRoot(fm).Some? && Symbols(HuffmanRoot(fm).value) == set c | c in fm.keys
  {
    HuffmanRootShape(fm);
    var root := HuffmanRoot(fm).value;
    var es := fm.Entries();
    forall c | c in fm.keys ensures c in Symbols(root) {
      var i :| 0 <= i < |fm.keys| && fm.keys[i] == c;
      assert es[i] in multiset(Leaves(root));
    }
    forall c | c in Symbols(root) ensures c in fm.keys {
      var e :| e in Leaves(root) && e.0 == c;
      assert e in multiset(es);
      var i :| 0 <= i < |es| && es[i] == e;
    }
  }
}
