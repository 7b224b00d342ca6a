/** The Huffman text encoder (`huffmanEncode` in src/lib/compressors.ts): count
    the characters, build the tree, read off the code table, concatenate the
    code of every input character into one bit string, and pack that string into
    bytes. Only the packed bytes are returned: neither the table nor the number
    of bits is stored with them. */
module HuffmanEncoder {
  import opened Outcome
  import opened Frequency
  import opened HuffmanTree
  import opened CodeMap
  import opened BitPacking

  /** The bit string `for (const ch of input) bitString += codes.get(ch)` builds,
      for a table that has a code for every input character. */
  function EncodedBits(input: string, codes: map<char, Code>): string
    requires forall c :: c in input ==> c in codes
  {
    if input == [] then []
    else EncodedBits(input[..|input| - 1], codes) + codes[input[|input| - 1]]
  }

  /** The sum of the code lengths of the input characters. */
  function CodeLengthSum(input: string, codes: map<char, Code>): nat
    requires forall c :: c in input ==> c in codes
  {
    if input == [] then 0
    else CodeLengthSum(input[..|input| - 1], codes) + |codes[input[|input| - 1]]|
  }

  /** The code table `huffmanEncode` builds for `input`: every input character,
      and no other, has a non-empty code, and no code is a prefix of another. */
  function CodesFor(input: string): (codes: map<char, Code>)
    ensures forall c :: c in input <==> c in codes
    ensures forall c :: c in codes ==> |codes[c]| > 0
    ensures PrefixFree(codes)
  {
    FrequencyKeys(input);
    var fm := FrequencyOf(input);
    if fm.keys == [] then CodeTable(HuffmanRoot(fm))
    else
      HuffmanRootSymbols(fm);
      CodeTableShape(HuffmanRoot(fm).value);
      CodeTable(HuffmanRoot(fm))
  }

  /** The bytes `huffmanEncode` returns. */
  function HuffmanEncoding(input: string): seq<bv8>
  {
    Pack(EncodedBits(input, CodesFor(input)))
  }

  /** `huffmanEncode`. */
  method HuffmanEncode(input: string) returns (out: array<bv8>)
    ensures fresh(out)
    ensures out[..] == HuffmanEncoding(input)
  {
    var freq := BuildFrequencyMap(input);
    var tree := BuildHuffmanTree(freq);
    var codes := BuildCodeMap(tree);
    assert codes == CodesFor(input);
    var bitString := "";
    var i := 0;
    while i < |input|
      invariant 0 <= i <= |input|
      invariant bitString == EncodedBits(input[..i], codes)
    {
      assert input[..i + 1][..i] == input[..i];
      bitString := bitString + codes[input[i]];
      i := i + 1;
    }
    assert input[..i] == input;
    out := PackBits(bitString);
  }

  // ---------------------------------------------------------------------------

  /** The bit string is as long as the codes of the input characters together. */
  lemma {:induction false} EncodedBitsLength(input: string, codes: map<char, Code>)
    requires forall c :: c in input ==> c in codes
    ensures |EncodedBits(input, codes)| == CodeLengthSum(input, codes)
  {
    if input != [] {
      EncodedBitsLength(input[..|input| - 1], codes);
    }
  }

  /** The output holds `ceil(B / 8)` bytes, where B is the sum of the code
      lengths over the input characters; bit `i` of the bit string is bit
      `7 - i % 8` of byte `i / 8`, and the padding bits of the last byte are 0. */
  lemma EncodingLayout(input: string)
    ensures var bits := EncodedBits(input, CodesFor(input));
      var out := HuffmanEncoding(input);
      && |out| == ByteCount(CodeLengthSum(input, CodesFor(input)))
      && (forall i :: 0 <= i < |bits| ==> (BitAt(out[i / 8], i % 8) <==> bits[i] == '1'))
      && (forall i :: |bits| <= i < 8 * |out| ==> !BitAt(out[i / 8], i % 8))
  {
    var bits := EncodedBits(input, CodesFor(input));
    EncodedBitsLength(input, CodesFor(input));
    PackLayout(bits);
  }

  /** The empty input encodes to no bytes. */
  lemma EncodingEmpty()
    ensures HuffmanEncoding("") == []
  {
    PackLayout(EncodedBits("", CodesFor("")));
  }

  /** The root of the tree counts every input character. */
  lemma RootCountsInput(input: string)
    requires input != []
    ensures FrequencyOf(input).Valid()
    ensures HuffmanRoot(FrequencyOf(input)).Some?
    ensures HuffmanRoot(FrequencyOf(input)).value.freq == |input|
  {
    FrequencyKeys(input);
    FrequencyTotal(input);
    HuffmanRootShape(FrequencyOf(input));
    assert input[0] in FrequencyOf(input).count;
  }

  // ---------------------------------------------------------------------------
  // One distinct character

  /** `n` copies of `x`. */
  function Repeat<T>(x: T, n: nat): (s: seq<T>)
    ensures |s| == n && forall i :: 0 <= i < n ==> s[i] == x
  {
    if n == 0 then [] else Repeat(x, n - 1) + [x]
  }

  lemma {:induction false} RepeatOccurrences(c: char, n: nat)
    ensures Occurrences(Repeat(c, n), c) == n
  {
    if n > 0 {
      assert Repeat(c, n)[..n - 1] == Repeat(c, n - 1);
      RepeatOccurrences(c, n - 1);
    }
  }

  lemma {:induction false} RepeatBits(c: char, n: nat)
    ensures EncodedBits(Repeat(c, n), map[c := "0"]) == Repeat('0', n)
  {
    if n > 0 {
      assert Repeat(c, n)[..n - 1] == Repeat(c, n - 1);
      RepeatBits(c, n - 1);
    }
  }

  /** The frequency map of `n >= 1` copies of `c` has the one key `c`, counted
      `n` times. */
  lemma RepeatFrequency(c: char, n: nat)
    requires n >= 1
    ensures FrequencyOf(Repeat(c, n)).Valid()
    ensures FrequencyOf(Repeat(c, n)).keys == [c]
    ensures FrequencyOf(Repeat(c, n)).count[c] == n
  {
    var s := Repeat(c, n);
    var fm := FrequencyOf(s);
    FrequencyKeys(s);
    FrequencyCounts(s);
    RepeatOccurrences(c, n);
    assert s[0] == c;
    forall i | 0 <= i < |fm.keys| ensures fm.keys[i] == c {
      assert fm.keys[i] in fm.count;
    }
  }

  /** A string of '0' packs into zero bytes. */
  lemma PackZeros(m: nat)
    ensures Pack(Repeat('0', m)) == Repeat(0 as bv8, ByteCount(m))
  {
    var bits := Repeat('0', m);
    forall k | 0 <= k < ByteCount(m) ensures Pack(bits)[k] == 0 {
      assert forall i :: !Bit(bits, i);
    }
  }

  /** A text made of `n >= 1` copies of one character builds a single leaf,
      which gets the code "0", so the text encodes to `ceil(n / 8)` zero bytes. */
  lemma SingleSymbol(c: char, n: nat)
    requires n >= 1
    ensures CodesFor(Repeat(c, n)) == map[c := "0"]
    ensures HuffmanEncoding(Repeat(c, n)) == Repeat(0 as bv8, ByteCount(n))
  {
    var s := Repeat(c, n);
    var fm := FrequencyOf(s);
    RepeatFrequency(c, n);
    HuffmanRootShape(fm);
    assert HuffmanRoot(fm) == Some(Leaf(c, n));
    CodeTableShape(Leaf(c, n));
    assert CodesFor(s) == map[c := "0"];
    RepeatBits(c, n);
    PackZeros(n);
  }

  /** The output alone cannot be decoded: the table is not stored, so texts of
      the same length made of one different character each encode alike. */
  lemma SingleSymbolsCollide(c: char, d: char, n: nat)
    requires n >= 1
    ensures HuffmanEncoding(Repeat(c, n)) == HuffmanEncoding(Repeat(d, n))
  {
    SingleSymbol(c, n);
    SingleSymbol(d, n);
  }

  // ---------------------------------------------------------------------------
  // A worked example

  /** Reading one more character is one step of the counting loop. */
  lemma FrequencyStep(s: string, c: char)
    ensures FrequencyOf(s + [c]) == Add(FrequencyOf(s), c)
  {
    assert (s + [c])[..|s|] == s;
  }

  /** Counting "aaaa". */
  lemma ExampleFrequencyA()
    ensures FrequencyOf("aaaa") == FrequencyMap("a", map['a' := 4])
  {
    FrequencyStep("", 'a');
    assert "" + ['a'] == "a";
    FrequencyStep("a", 'a');
    assert "a" + ['a'] == "aa";
    FrequencyStep("aa", 'a');
    assert "aa" + ['a'] == "aaa";
    FrequencyStep("aaa", 'a');
    assert "aaa" + ['a'] == "aaaa";
  }

  /** Counting "aaaabbb". */
  lemma ExampleFrequencyB()
    ensures FrequencyOf("aaaabbb") == FrequencyMap("ab", map['a' := 4, 'b' := 3])
  {
    ExampleFrequencyA();
    FrequencyStep("aaaa", 'b');
    assert "aaaa" + ['b'] == "aaaab";
    FrequencyStep("aaaab", 'b');
    assert "aaaab" + ['b'] == "aaaabb";
    FrequencyStep("aaaabb", 'b');
    assert "aaaabb" + ['b'] == "aaaabbb";
  }

  /** "aaaabbbcc" counts a:4, b:3, c:2 in that order. */
  lemma ExampleFrequency()
    ensures FrequencyOf("aaaabbbcc") == FrequencyMap("abc", map['a' := 4, 'b' := 3, 'c' := 2])
  {
    ExampleFrequencyB();
    FrequencyStep("aaaabbb", 'c');
    assert "aaaabbb" + ['c'] == "aaaabbbc";
    FrequencyStep("aaaabbbc", 'c');
    assert "aaaabbbc" + ['c'] == "aaaabbbcc";
  }

  /** Sorting the example's leaves a:4, b:3, c:2 by frequency reverses them. */
  lemma ExampleFirstSort()
    ensures SortByFreq([Leaf('a', 4), Leaf('b', 3), Leaf('c', 2)]) == [Leaf('c', 2), Leaf('b', 3), Leaf('a', 4)]
  {
    var la, lb, lc := Leaf('a', 4), Leaf('b', 3), Leaf('c', 2);
    SortStep([lc]);
    InsertFront(lc, []);
    SortStep([lb, lc]);
    InsertPast(lb, [lc]);
    InsertFront(lb, []);
    SortStep([la, lb, lc]);
    InsertPast(la, [lc, lb]);
    InsertPast(la, [lb]);
    InsertFront(la, []);
  }

  /** The first merge of the example joins c and b, c on the left. */
  lemma ExampleFirstMerge()
    ensures MergeStep([Leaf('a', 4), Leaf('b', 3), Leaf('c', 2)]) ==
      [Leaf('a', 4), Internal(5, Leaf('c', 2), Leaf('b', 3))]
  {
    ExampleFirstSort();
  }

  /** The second merge of the example joins a and that node, a on the left. */
  lemma ExampleSecondMerge()
    ensures var n5 := Internal(5, Leaf('c', 2), Leaf('b', 3));
      MergeStep([Leaf('a', 4), n5]) == [Internal(9, Leaf('a', 4), n5)]
  {
    var la, n5 := Leaf('a', 4), Internal(5, Leaf('c', 2), Leaf('b', 3));
    assert SortByFreq([la, n5]) == [la, n5] by {
      assert [la, n5][1..] == [n5];
      assert SortByFreq([n5]) == [n5];
    }
  }

  /** The loop run on the example's leaves ends with one tree. */
  lemma ExampleHuffman()
    ensures Huffman([Leaf('a', 4), Leaf('b', 3), Leaf('c', 2)]) ==
      Internal(9, Leaf('a', 4), Internal(5, Leaf('c', 2), Leaf('b', 3)))
  {
    var la, lb, lc := Leaf('a', 4), Leaf('b', 3), Leaf('c', 2);
    var n5 := Internal(5, lc, lb);
    ExampleFirstMerge();
    ExampleSecondMerge();
    assert Huffman([la, lb, lc]) == Huffman([la, n5]);
  }

  /** The example map lists its leaves as a:4, b:3, c:2. */
  lemma ExampleLeaves()
    ensures FrequencyMap("abc", map['a' := 4, 'b' := 3, 'c' := 2]).Valid()
    ensures LeavesOf(FrequencyMap("abc", map['a' := 4, 'b' := 3, 'c' := 2]).Entries()) ==
      [Leaf('a', 4), Leaf('b', 3), Leaf('c', 2)]
  {
  }

  /** Its tree merges c with b first (c, the smaller, on the left), then a with
      that node. */
  lemma ExampleTree()
    ensures FrequencyOf("aaaabbbcc").Valid()
    ensures HuffmanRoot(FrequencyOf("aaaabbbcc")) ==
      Some(Internal(9, Leaf('a', 4), Internal(5, Leaf('c', 2), Leaf('b', 3))))
  {
    ExampleFrequency();
    ExampleLeaves();
    ExampleHuffman();
  }

  /** The code table is read off the tree the input builds. */
  lemma CodesForRoot(input: string, root: Node)
    requires FrequencyOf(input).Valid() && HuffmanRoot(FrequencyOf(input)) == Some(root)
    ensures CodesFor(input) == PathCodes(root, [])
  {
  }

  /** The paths of the example tree. */
  lemma ExamplePaths()
    ensures PathCodes(Internal(9, Leaf('a', 4), Internal(5, Leaf('c', 2), Leaf('b', 3))), []) ==
      map['a' := "0", 'c' := "10", 'b' := "11"]
  {
    var root := Internal(9, Leaf('a', 4), Internal(5, Leaf('c', 2), Leaf('b', 3)));
    assert [] + "0" == "0" && [] + "1" == "1";
    assert "1" + "0" == "10" && "1" + "1" == "11";
    assert PathCodes(root.right, "1") == map['c' := "10", 'b' := "11"];
  }

  /** The example's code table: a = "0", c = "10", b = "11". */
  lemma ExampleCodes()
    ensures CodesFor("aaaabbbcc") == map['a' := "0", 'c' := "10", 'b' := "11"]
  {
    var root := Internal(9, Leaf('a', 4), Internal(5, Leaf('c', 2), Leaf('b', 3)));
    ExampleTree();
    CodesForRoot("aaaabbbcc", root);
    ExamplePaths();
  }

  /** Encoding one more character appends its code. */
  lemma EncodedBitsStep(s: string, c: char, codes: map<char, Code>)
    requires forall x :: x in s + [c] ==> x in codes
    ensures EncodedBits(s + [c], codes) == EncodedBits(s, codes) + codes[c]
  {
    assert (s + [c])[..|s|] == s;
  }

  /** The first four bits of the example: one '0' per 'a'. */
  lemma ExampleBitsOfA(codes: map<char, Code>)
    requires codes == map['a' := "0", 'c' := "10", 'b' := "11"]
    ensures EncodedBits("aaaa", codes) == "0000"
  {
    assert EncodedBits("a", codes) == "0" by {
      EncodedBitsStep("", 'a', codes);
      assert "" + ['a'] == "a";
    }
    assert EncodedBits("aa", codes) == "00" by {
      EncodedBitsStep("a", 'a', codes);
      assert "a" + ['a'] == "aa";
    }
    assert EncodedBits("aaa", codes) == "000" by {
      EncodedBitsStep("aa", 'a', codes);
      assert "aa" + ['a'] == "aaa";
    }
    assert EncodedBits("aaaa", codes) == "0000" by {
      EncodedBitsStep("aaa", 'a', codes);
      assert "aaa" + ['a'] == "aaaa";
    }
  }

  /** The example's 14 bits. */
  lemma ExampleBits(codes: map<char, Code>)
    requires codes == map['a' := "0", 'c' := "10", 'b' := "11"]
    ensures EncodedBits("aaaabbbcc", codes) == "00001111111010"
  {
    ExampleBitsOfA(codes);
    assert EncodedBits("aaaab", codes) == "000011" by {
      EncodedBitsStep("aaaa", 'b', codes);
      assert "aaaa" + ['b'] == "aaaab";
    }
    assert EncodedBits("aaaabb", codes) == "00001111" by {
      EncodedBitsStep("aaaab", 'b', codes);
      assert "aaaab" + ['b'] == "aaaabb";
    }
    assert EncodedBits("aaaabbb", codes) == "0000111111" by {
      EncodedBitsStep("aaaabb", 'b', codes);
      assert "aaaabb" + ['b'] == "aaaabbb";
    }
    assert EncodedBits("aaaabbbc", codes) == "000011111110" by {
      EncodedBitsStep("aaaabbb", 'c', codes);
      assert "aaaabbb" + ['c'] == "aaaabbbc";
    }
    assert EncodedBits("aaaabbbcc", codes) == "00001111111010" by {
      EncodedBitsStep("aaaabbbc", 'c', codes);
      assert "aaaabbbc" + ['c'] == "aaaabbbcc";
    }
  }

  /** The example's bits packed: 0000 1111, then 1110 10 and two zero bits. */
  lemma ExamplePack(bits: string)
    requires bits == "00001111111010"
    ensures Pack(bits) == [0x0F, 0xE8]
  {
    assert PackedByte(bits, 0) == 0x0F;
    assert PackedByte(bits, 1) == 0xE8;
  }

  /** "aaaabbbcc" encodes to the two bytes 0x0F and 0xE8. */
  lemma ExampleEncoding()
    ensures HuffmanEncoding("aaaabbbcc") == [0x0F, 0xE8]
  {
    ExampleCodes();
    ExampleBits(CodesFor("aaaabbbcc"));
    ExamplePack(EncodedBits("aaaabbbcc", CodesFor("aaaabbbcc")));
  }
}
