/** The character-frequency table of the Huffman text coder
    (`buildFrequencyMap` in src/lib/compressors.ts).

    The source builds a JavaScript `Map<string, number>`, which remembers the
    order in which keys were first inserted; that order later decides how ties
    between equal frequencies are broken, so the model keeps it: a
    `FrequencyMap` is the list of keys in insertion order plus the count of
    each key. A character is one code point, as `for…of` over a string yields. */
module Frequency {
  import opened Sequences

  /** Number of occurrences of `c` in `s`. */
  function Occurrences(s: string, c: char): nat
  {
    if s == [] then 0
    else Occurrences(s[..|s| - 1], c) + (if s[|s| - 1] == c then 1 else 0)
  }

  /** A character that does not occur has no occurrences. */
  lemma {:induction false} OccurrencesAbsent(s: string, c: char)
    requires c !in s
    ensures Occurrences(s, c) == 0
  {
    if s != [] {
      assert s[..|s| - 1] <= s;
      OccurrencesAbsent(s[..|s| - 1], c);
    }
  }

  /** The index of the first occurrence of `c` in `s`. */
  function FirstIndex(s: string, c: char): (r: nat)
    requires c in s
    ensures r < |s| && s[r] == c && c !in s[..r]
  {
    if c in s[..|s| - 1] then FirstIndex(s[..|s| - 1], c) else |s| - 1
  }

  /** An insertion-ordered map from character to count. */
  datatype FrequencyMap = FrequencyMap(keys: seq<char>, count: map<char, nat>)
  {
    /** The keys are listed once each, and exactly the keys carry a count. */
    predicate Valid()
    {
      Distinct(keys) && forall c :: c in count <==> c in keys
    }

    /** `Map.prototype.entries()`: the (character, count) pairs in key order. */
    function Entries(): (es: seq<(char, nat)>)
      requires Valid()
      ensures |es| == |keys|
      ensures forall i :: 0 <= i < |es| ==> es[i] == (keys[i], count[keys[i]])
    {
      seq(|keys|, i requires 0 <= i < |keys| => (keys[i], count[keys[i]]))
    }
  }

  /** One step of the counting loop: `map.set(ch, (map.get(ch) ?? 0) + 1)`. Setting
      a key that is already present keeps its position; a new key goes last. */
  function Add(fm: FrequencyMap, c: char): FrequencyMap
  {
    var prev := if c in fm.count then fm.count[c] else 0;
    FrequencyMap(if c in fm.count then fm.keys else fm.keys + [c], fm.count[c := prev + 1])
  }

  /** The map the counting loop holds after reading all of `s`. */
  function FrequencyOf(s: string): FrequencyMap
  {
    if s == [] then FrequencyMap([], map[]) else Add(FrequencyOf(s[..|s| - 1]), s[|s| - 1])
  }

  /** Sum of the counts of a list of entries. */
  function EntryTotal(es: seq<(char, nat)>): nat
  {
    if es == [] then 0 else EntryTotal(es[..|es| - 1]) + es[|es| - 1].1
  }

  /** `buildFrequencyMap`: one pass over the input, counting each character. */
  method BuildFrequencyMap(input: string) returns (fm: FrequencyMap)
    ensures fm == FrequencyOf(input)
    ensures fm.Valid()
    ensures forall c :: c in fm.count <==> c in input
    ensures forall c :: c in fm.count ==> fm.count[c] == Occurrences(input, c)
  {
    var keys: seq<char> := [];
    var count: map<char, nat> := map[];
    var i := 0;
    while i < |input|
      invariant 0 <= i <= |input|
      invariant FrequencyMap(keys, count) == FrequencyOf(input[..i])
    {
      var ch := input[i];
      assert input[..i + 1][..i] == input[..i];
      var prev := if ch in count then count[ch] else 0;
      if ch !in count {
        keys := keys + [ch];
      }
      count := count[ch := prev + 1];
      i := i + 1;
    }
    assert input[..i] == input;
    fm := FrequencyMap(keys, count);
    FrequencyKeys(input);
    FrequencyCounts(input);
  }

  /** The keys are the distinct characters of the input, each listed once; the
      empty input gives the empty map. */
  lemma {:induction false} FrequencyKeys(s: string)
    ensures FrequencyOf(s).Valid()
    ensures forall c :: c in FrequencyOf(s).count <==> c in s
    ensures s == [] ==> FrequencyOf(s).keys == []
  {
    if s != [] {
      var init, c := s[..|s| - 1], s[|s| - 1];
      FrequencyKeys(init);
      assert s == init + [c];
    }
  }

  /** Each count is the number of occurrences of its character. */
  lemma {:induction false} FrequencyCounts(s: string)
    ensures forall c :: c in FrequencyOf(s).count ==> FrequencyOf(s).count[c] == Occurrences(s, c)
  {
    if s != [] {
      var init := s[..|s| - 1];
      FrequencyCounts(init);
      FrequencyKeys(init);
      forall c | c in FrequencyOf(s).count
        ensures FrequencyOf(s).count[c] == Occurrences(s, c)
      {
        if c != s[|s| - 1] {
          assert c in FrequencyOf(init).count;
        } else if c !in init {
          OccurrencesAbsent(init, c);
        }
      }
    }
  }

  /** Keys are listed in the order of their first occurrence in the input. */
  lemma {:induction false} FrequencyOrder(s: string)
    ensures var ks := FrequencyOf(s).keys;
      forall i, j :: 0 <= i < j < |ks| ==>
        ks[i] in s && ks[j] in s && FirstIndex(s, ks[i]) < FirstIndex(s, ks[j])
  {
    FrequencyKeys(s);
    if s != [] {
      var init, c := s[..|s| - 1], s[|s| - 1];
      FrequencyOrder(init);
      FrequencyKeys(init);
      var ks, ks0 := FrequencyOf(s).keys, FrequencyOf(init).keys;
      forall i, j | 0 <= i < j < |ks|
        ensures ks[i] in s && ks[j] in s && FirstIndex(s, ks[i]) < FirstIndex(s, ks[j])
      {
        assert ks[i] in FrequencyOf(s).count;
        assert ks[j] in FrequencyOf(s).count;
        if j < |ks0| {
          assert ks[i] == ks0[i] && ks[j] == ks0[j];
          assert ks0[i] in FrequencyOf(init).count && ks0[j] in FrequencyOf(init).count;
        } else {
          // ks[j] is the new key c, first seen at the last position
          assert ks[i] == ks0[i] && ks[j] == c;
          assert ks0[i] in FrequencyOf(init).count;
          assert c !in init;
        }
      }
    }
  }

  /** Incrementing one entry raises the total by one. */
  lemma {:induction false} EntryTotalIncrement(es: seq<(char, nat)>, k: nat)
    requires k < |es|
    ensures EntryTotal(es[k := (es[k].0, es[k].1 + 1)]) == EntryTotal(es) + 1
  {
    var es' := es[k := (es[k].0, es[k].1 + 1)];
    if k < |es| - 1 {
      assert es'[..|es'| - 1] == es[..|es| - 1][k := (es[k].0, es[k].1 + 1)];
      EntryTotalIncrement(es[..|es| - 1], k);
    } else {
      assert es'[..|es'| - 1] == es[..|es| - 1];
    }
  }

  /** Counting one character keeps a map valid. */
  lemma AddValid(fm: FrequencyMap, c: char)
    requires fm.Valid()
    ensures Add(fm, c).Valid()
  {
  }

  /** Counting a key already present bumps its entry in place. */
  lemma AddPresentEntries(fm: FrequencyMap, c: char, k: nat)
    requires fm.Valid()
    requires k < |fm.keys| && fm.keys[k] == c
    ensures Add(fm, c).Valid()
    ensures Add(fm, c).Entries() == fm.Entries()[k := (c, fm.count[c] + 1)]
  {
    AddValid(fm, c);
  }

  /** Counting a new key appends an entry with count one. */
  lemma AddAbsentEntries(fm: FrequencyMap, c: char)
    requires fm.Valid() && c !in fm.count
    ensures Add(fm, c).Valid()
    ensures Add(fm, c).Entries() == fm.Entries() + [(c, 1)]
  {
    AddValid(fm, c);
  }

  /** Counting one more character raises the total by one. */
  lemma AddTotal(fm: FrequencyMap, c: char)
    requires fm.Valid()
    ensures Add(fm, c).Valid()
    ensures EntryTotal(Add(fm, c).Entries()) == EntryTotal(fm.Entries()) + 1
  {
    AddValid(fm, c);
    var es0 := fm.Entries();
    if c in fm.count {
      var k :| 0 <= k < |fm.keys| && fm.keys[k] == c;
      AddPresentEntries(fm, c, k);
      EntryTotalIncrement(es0, k);
    } else {
      AddAbsentEntries(fm, c);
      assert (es0 + [(c, 1)])[..|es0|] == es0;
    }
  }

  /** The counts add up to the length of the input. */
  lemma {:induction false} FrequencyTotal(s: string)
    ensures FrequencyOf(s).Valid()
    ensures EntryTotal(FrequencyOf(s).Entries()) == |s|
  {
    FrequencyKeys(s);
    if s != [] {
      var init := s[..|s| - 1];
      FrequencyTotal(init);
      FrequencyKeys(init);
      AddTotal(FrequencyOf(init), s[|s| - 1]);
    }
  }
}
