/** The code table of the Huffman text coder (`buildCodeMap` in
    src/lib/compressors.ts).

    The source walks the tree depth first, left before right, with a closure
    `dfs(node, path)` that writes into one shared `Map<string, string>`: at a
    leaf it sets the leaf's character to `path`, or to "0" when `path` is empty
    (a tree that is a single leaf); at an internal node it descends left with
    `path + '0'` and right with `path + '1'`. */
module CodeMap {
  import opened Sequences
  import opened Outcome
  import opened Frequency
  import opened HuffmanTree

  /** A code as the source writes it: a string of '0' and '1'. */
  type Code = string

  /** The character of the leaf that `q` leads to from `n`, '0' going left and
      '1' going right; None when `q` ends at an internal node, goes on past a
      leaf, or holds another character. */
  function LeafAt(n: Node, q: Code): Option<char>
  {
    match n
    case Leaf(c, _) => if q == [] then Some(c) else None
    case Internal(_, l, r) =>
      if q == [] then None
      else if q[0] == '0' then LeafAt(l, q[1..])
      else if q[0] == '1' then LeafAt(r, q[1..])
      else None
  }

  /** `a` is a prefix of `b` (possibly equal to it). */
  predicate IsPrefix(a: Code, b: Code)
  {
    |a| <= |b| && b[..|a|] == a
  }

  /** No code of the table is a prefix of the code of another character. */
  predicate PrefixFree(codes: map<char, Code>)
  {
    forall c, d :: c in codes && d in codes && c != d ==> !IsPrefix(codes[c], codes[d])
  }

  /** The entries `dfs(n, path)` writes, later writes winning. */
  function PathCodes(n: Node, path: Code): map<char, Code>
  {
    match n
    case Leaf(c, _) => map[c := if path == [] then "0" else path]
    case Internal(_, l, r) => PathCodes(l, path + "0") + PathCodes(r, path + "1")
  }

  /** The map `buildCodeMap` returns: empty when there is no tree. */
  function CodeTable(root: Option<Node>): map<char, Code>
  {
    match root
    case None => map[]
    case Some(n) => PathCodes(n, [])
  }

  /** The shared map of the depth-first walk. */
  class CodeMapBuilder {
    var codes: map<char, Code>

    constructor ()
      ensures codes == map[]
    {
      codes := map[];
    }

    /** `dfs(node, path)`. */
    method Dfs(node: Node, path: Code)
      modifies this
      ensures codes == old(codes) + PathCodes(node, path)
      decreases node
    {
      match node
      case Leaf(c, _) =>
        codes := codes[c := if path == [] then "0" else path];
      case Internal(_, l, r) =>
        Dfs(l, path + "0");
        Dfs(r, path + "1");
        assert codes == old(codes) + PathCodes(node, path);
    }
  }

  /** `buildCodeMap`. */
  method BuildCodeMap(root: Option<Node>) returns (codes: map<char, Code>)
    ensures codes == CodeTable(root)
    ensures root.Some? ==> codes.Keys == Symbols(root.value) && PrefixFree(codes)
  {
    var builder := new CodeMapBuilder();
    if root.Some? {
      builder.Dfs(root.value, []);
      CodeTableShape(root.value);
    }
    codes := builder.codes;
  }

  // ---------------------------------------------------------------------------

  lemma SymbolsOfInternal(n: Node)
    requires n.Internal?
    ensures Symbols(n) == Symbols(n.left) + Symbols(n.right)
  {
    assert Leaves(n) == Leaves(n.left) + Leaves(n.right);
  }

  /** The walk gives a code to exactly the characters at the leaves. */
  lemma {:induction false} PathCodesKeys(n: Node, path: Code)
    ensures PathCodes(n, path).Keys == Symbols(n)
  {
    if n.Internal? {
      PathCodesKeys(n.left, path + "0");
      PathCodesKeys(n.right, path + "1");
      SymbolsOfInternal(n);
    }
  }

  /** Below the root, every code is the path walked so far followed by the
      path from the current node to a leaf holding the character. */
  lemma {:induction false} PathCodesArePaths(n: Node, path: Code)
    requires path != [] || n.Internal?
    ensures forall c :: c in PathCodes(n, path) ==>
      var code := PathCodes(n, path)[c];
      |code| > |path| - (if n.Leaf? then 1 else 0) && code[..|path|] == path &&
      LeafAt(n, code[|path|..]) == Some(c)
  {
    if n.Internal? {
      var l, r := n.left, n.right;
      var p0, p1 := path + "0", path + "1";
      PathCodesArePaths(l, p0);
      PathCodesArePaths(r, p1);
      forall c | c in PathCodes(n, path)
        ensures var code := PathCodes(n, path)[c];
          |code| > |path| && code[..|path|] == path && LeafAt(n, code[|path|..]) == Some(c)
      {
        var code := PathCodes(n, path)[c];
        if c in PathCodes(r, p1) {
          assert code == PathCodes(r, p1)[c];
          assert code[..|p1|][..|path|] == path;
          assert code[|path|..][1..] == code[|p1|..];
          assert code[|path|..][0] == code[..|p1|][|path|] == '1';
        } else {
          assert code == PathCodes(l, p0)[c];
          assert code[..|p0|][..|path|] == path;
          assert code[|path|..][1..] == code[|p0|..];
          assert code[|path|..][0] == code[..|p0|][|path|] == '0';
        }
      }
    }
  }

  /** Two paths that both end at a leaf, one a prefix of the other, are equal. */
  lemma {:induction false} LeafPathsUnique(n: Node, a: Code, b: Code)
    ensures LeafAt(n, a).Some? && LeafAt(n, b).Some? && IsPrefix(a, b) ==> a == b
  {
    if n.Internal? && a != [] && b != [] && IsPrefix(a, b) {
      assert a[0] == b[..|a|][0] == b[0];
      assert IsPrefix(a[1..], b[1..]) by {
        assert b[1..][..|a| - 1] == b[..|a|][1..];
      }
      LeafPathsUnique(n.left, a[1..], b[1..]);
      LeafPathsUnique(n.right, a[1..], b[1..]);
    }
  }

  /** A path that ends at a leaf holding `c` puts `c` among the leaf symbols. */
  lemma {:induction false} LeafAtSymbol(n: Node, q: Code)
    ensures LeafAt(n, q).Some? ==> LeafAt(n, q).value in Symbols(n)
  {
    if n.Internal? && q != [] {
      LeafAtSymbol(n.left, q[1..]);
      LeafAtSymbol(n.right, q[1..]);
      SymbolsOfInternal(n);
    } else if n.Leaf? {
      assert Leaves(n)[0].0 == n.ch;
    }
  }

  /** The two halves of a list with distinct characters have distinct
      characters and share none. */
  lemma DistinctHalves(a: seq<(char, nat)>, b: seq<(char, nat)>)
    requires Distinct(Chars(a + b))
    ensures Distinct(Chars(a)) && Distinct(Chars(b))
    ensures forall i, j :: 0 <= i < |a| && 0 <= j < |b| ==> a[i].0 != b[j].0
  {
    var cs := Chars(a + b);
    forall i, j | 0 <= i < |a| && 0 <= j < |b| ensures a[i].0 != b[j].0 {
      assert cs[i] == a[i].0 && cs[|a| + j] == b[j].0;
    }
    forall i, j | 0 <= i < j < |a| ensures Chars(a)[i] != Chars(a)[j] {
      assert cs[i] == a[i].0 && cs[j] == a[j].0;
    }
    forall i, j | 0 <= i < j < |b| ensures Chars(b)[i] != Chars(b)[j] {
      assert cs[|a| + i] == b[i].0 && cs[|a| + j] == b[j].0;
    }
  }

  /** When every character sits at one leaf only, the two subtrees of an
      internal node share no character and each has distinct characters. */
  lemma DistinctSubtrees(n: Node)
    requires n.Internal? && Distinct(Chars(Leaves(n)))
    ensures Distinct(Chars(Leaves(n.left))) && Distinct(Chars(Leaves(n.right)))
    ensures Symbols(n.left) !! Symbols(n.right)
  {
    var ls, rs := Leaves(n.left), Leaves(n.right);
    DistinctHalves(ls, rs);
    forall x | x in Symbols(n.left) ensures x !in Symbols(n.right) {
      var e :| e in ls && e.0 == x;
      forall f | f in rs ensures f.0 != x {
        var i :| 0 <= i < |ls| && ls[i] == e;
        var j :| 0 <= j < |rs| && rs[j] == f;
      }
    }
  }

  /** When every character sits at one leaf only, a character has one path. */
  lemma {:induction false} OnePathPerSymbol(n: Node, a: Code, b: Code)
    requires Distinct(Chars(Leaves(n)))
    ensures LeafAt(n, a).Some? && LeafAt(n, a) == LeafAt(n, b) ==> a == b
  {
    if n.Internal? && a != [] && b != [] {
      DistinctSubtrees(n);
      LeafAtSymbol(n.left, a[1..]);
      LeafAtSymbol(n.right, a[1..]);
      LeafAtSymbol(n.left, b[1..]);
      LeafAtSymbol(n.right, b[1..]);
      OnePathPerSymbol(n.left, a[1..], b[1..]);
      OnePathPerSymbol(n.right, a[1..], b[1..]);
      assert a == [a[0]] + a[1..] && b == [b[0]] + b[1..];
    }
  }

  /** The code table of a tree: the characters with a code are exactly the leaf
      symbols; every code is non-empty; a tree that is a single leaf gives its
      character the code "0"; otherwise each code is the root-to-leaf path of its
      character ('0' left, '1' right), and the only such path when each
      character sits at one leaf; and no code is a prefix of another. */
  lemma CodeTableShape(root: Node)
    ensures var codes := CodeTable(Some(root));
      && codes.Keys == Symbols(root)
      && (forall c :: c in codes ==> |codes[c]| > 0)
      && (root.Leaf? ==> codes == map[root.ch := "0"])
      && (root.Internal? ==> forall c :: c in codes ==> LeafAt(root, codes[c]) == Some(c))
      && (root.Internal? && Distinct(Chars(Leaves(root))) ==>
            forall q :: LeafAt(root, q).Some? ==>
              LeafAt(root, q).value in codes && codes[LeafAt(root, q).value] == q)
      && PrefixFree(codes)
  {
    var codes := CodeTable(Some(root));
    PathCodesKeys(root, []);
    if root.Internal? {
      PathCodesArePaths(root, []);
      assert forall c :: c in codes ==> codes[c][0..] == codes[c];
      forall c, d | c in codes && d in codes && c != d
        ensures !IsPrefix(codes[c], codes[d])
      {
        LeafPathsUnique(root, codes[c], codes[d]);
      }
      if Distinct(Chars(Leaves(root))) {
        forall q | LeafAt(root, q).Some?
          ensures LeafAt(root, q).value in codes && codes[LeafAt(root, q).value] == q
        {
          LeafAtSymbol(root, q);
          OnePathPerSymbol(root, q, codes[LeafAt(root, q).value]);
        }
      }
    }
  }
}
