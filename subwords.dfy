/** get_all_subwords: the dictionary words that can be read off a word by deleting
    at least one of its letters, keeping the rest in order.

    The source is a generator; here it is a method that returns, in order, the
    strings the generator yields. AllSubwords is the specification of that sequence,
    and the lemmas below state what the source promises about it.
 */
module Subwords {
  import opened Combinatorics

  /** ''.join of the characters of word at positions idx: one character per
      position, and a subsequence of word when the positions increase. */
  function Pick(word: string, idx: seq<nat>): (s: string)
    requires forall i :: 0 <= i < |idx| ==> idx[i] < |word|
    ensures |s| == |idx|
    ensures IsCombination(idx, 0, |word|) ==> IsSubsequence(s, word)
  {
    var s := seq(|idx|, i requires 0 <= i < |idx| => word[idx[i]]);
    assert IsCombination(idx, 0, |word|) ==> Embeds(idx, s, word);
    s
  }

  /** idx lists positions of word, strictly increasing, where the characters of s stand. */
  ghost predicate Embeds(idx: seq<nat>, s: string, word: string)
  {
    |idx| == |s| && IsCombination(idx, 0, |word|) &&
    forall i :: 0 <= i < |s| ==> s[i] == word[idx[i]]
  }

  /** s can be obtained from word by deleting characters. */
  ghost predicate IsSubsequence(s: string, word: string)
  {
    exists idx :: Embeds(idx, s, word)
  }

  /** No string occurs twice in r. */
  predicate NoDuplicates(r: seq<string>)
  {
    forall i, j :: 0 <= i < j < |r| ==> r[i] != r[j]
  }

  /** Shorter strings come first in r. */
  predicate ByLength(r: seq<string>)
  {
    forall i, j :: 0 <= i < j < |r| ==> |r[i]| <= |r[j]|
  }

  /** The joined tuples of combinations(word, k), in the order they are produced:
      C(len(word), k) strings of length k. */
  function Candidates(word: string, k: nat): (r: seq<string>)
    ensures |r| == Binomial(|word|, k)
    ensures forall i :: 0 <= i < |r| ==> |r[i]| == k
  {
    var combos := Combinations(|word|, k);
    CombinationsSound(|word|, k);
    seq(|combos|, i requires 0 <= i < |combos| => Pick(word, combos[i]))
  }

  /** Every candidate tried while n_chars runs through range(m), in order; each
      is shorter than m. */
  function CandidatesBelow(word: string, m: nat): (r: seq<string>)
    ensures forall i :: 0 <= i < |r| ==> |r[i]| < m
  {
    if m == 0 then [] else CandidatesBelow(word, m - 1) + Candidates(word, m - 1)
  }

  /** What the generator yields for the candidates cands: each one that is in the
      dictionary and has not been yielded before. Only dictionary words among the
      candidates are yielded, and at most one string per candidate. */
  function Dedup(cands: seq<string>, dictionary: set<string>): (r: seq<string>)
    ensures forall s :: s in r ==> s in cands && s in dictionary
    ensures |r| <= |cands|
  {
    if cands == [] then []
    else
      var kept := Dedup(cands[..|cands| - 1], dictionary);
      var c := cands[|cands| - 1];
      if c in dictionary && c !in kept then kept + [c] else kept
  }

  /** One more candidate: it is yielded iff it is in the dictionary and not yet yielded. */
  lemma DedupSnoc(cands: seq<string>, c: string, dictionary: set<string>)
    ensures Dedup(cands + [c], dictionary) ==
      if c in dictionary && c !in Dedup(cands, dictionary) then Dedup(cands, dictionary) + [c]
      else Dedup(cands, dictionary)
  {
    assert (cands + [c])[..|cands|] == cands;
  }

  /** One pass of the inner loop: the j-th combination is joined, and the joined
      string is yielded iff it is in the dictionary and not yet yielded. */
  lemma ScanStep(word: string, k: nat, j: nat, done: seq<string>, dictionary: set<string>)
    requires j < |Combinations(|word|, k)|
    ensures |Candidates(word, k)| == |Combinations(|word|, k)|
    ensures IsCombination(Combinations(|word|, k)[j], 0, |word|)
    ensures var c := Pick(word, Combinations(|word|, k)[j]);
      var before := Dedup(done + Candidates(word, k)[..j], dictionary);
      Dedup(done + Candidates(word, k)[..j + 1], dictionary) ==
        if c in dictionary && c !in before then before + [c] else before
  {
    var combos := Combinations(|word|, k);
    var cands := Candidates(word, k);
    assert combos[j] in combos;
    CombinationsFromSound(0, |word|, k, combos[j]);
    var c := Pick(word, combos[j]);
    assert cands[j] == c;
    assert cands[..j + 1] == cands[..j] + [c];
    assert done + cands[..j + 1] == (done + cands[..j]) + [c];
    DedupSnoc(done + cands[..j], c, dictionary);
  }

  /** One pass of the outer loop adds the candidates of the next length. */
  lemma CandidatesBelowNext(word: string, k: nat)
    ensures |Candidates(word, k)| == |Combinations(|word|, k)|
    ensures CandidatesBelow(word, k + 1) ==
      CandidatesBelow(word, k) + Candidates(word, k)[..|Combinations(|word|, k)|]
    ensures CandidatesBelow(word, k) + Candidates(word, k)[..0] == CandidatesBelow(word, k)
  {
    assert Candidates(word, k)[..|Combinations(|word|, k)|] == Candidates(word, k);
  }

  /** The sequence that get_all_subwords(word, dictionary) yields: dictionary
      words strictly shorter than word. */
  function AllSubwords(word: string, dictionary: set<string>): (r: seq<string>)
    ensures forall s :: s in r ==> s in dictionary && |s| < |word|
  {
    Dedup(CandidatesBelow(word, |word|), dictionary)
  }

  /** Dedup yields exactly the candidates that are in the dictionary. */
  lemma {:induction false} DedupMembers(cands: seq<string>, dictionary: set<string>)
    ensures forall s :: s in Dedup(cands, dictionary) <==> s in cands && s in dictionary
    decreases |cands|
  {
    if cands != [] {
      var init := cands[..|cands| - 1];
      DedupMembers(init, dictionary);
      assert cands == init + [cands[|cands| - 1]];
    }
  }

  /** Dedup never yields a string twice. */
  lemma {:induction false} DedupDistinct(cands: seq<string>, dictionary: set<string>)
    ensures NoDuplicates(Dedup(cands, dictionary))
    decreases |cands|
  {
    if cands != [] {
      var init := cands[..|cands| - 1];
      var kept := Dedup(init, dictionary);
      var c := cands[|cands| - 1];
      DedupDistinct(init, dictionary);
      if c in dictionary && c !in kept {
        var r := kept + [c];
        forall i, j | 0 <= i < j < |r| ensures r[i] != r[j] {
          assert r[i] == kept[i] && kept[i] in kept;
        }
      }
    }
  }

  /** Dedup keeps the order of the candidates, so candidates ordered by length
      give output ordered by length. */
  lemma {:induction false} DedupByLength(cands: seq<string>, dictionary: set<string>)
    requires ByLength(cands)
    ensures ByLength(Dedup(cands, dictionary))
    decreases |cands|
  {
    if cands != [] {
      var init := cands[..|cands| - 1];
      var kept := Dedup(init, dictionary);
      var c := cands[|cands| - 1];
      assert ByLength(init);
      DedupByLength(init, dictionary);
      if c in dictionary && c !in kept {
        DedupMembers(init, dictionary);
        var r := kept + [c];
        forall i, j | 0 <= i < j < |r| ensures |r[i]| <= |r[j]| {
          assert r[i] == kept[i] && kept[i] in kept;
          var m :| 0 <= m < |init| && init[m] == kept[i];
          assert cands[m] == init[m];
        }
      }
    }
  }

  /** With an empty dictionary, Dedup yields nothing. */
  lemma {:induction false} DedupEmptyDictionary(cands: seq<string>)
    ensures Dedup(cands, {}) == []
    decreases |cands|
  {
    if cands != [] {
      DedupEmptyDictionary(cands[..|cands| - 1]);
    }
  }

  /** A sequence without duplicates has as many distinct elements as it is long. */
  lemma {:induction false} DistinctCount(r: seq<string>)
    requires NoDuplicates(r)
    ensures |set s | s in r| == |r|
  {
    if r != [] {
      assert NoDuplicates(r[1..]);
      DistinctCount(r[1..]);
      assert (set s | s in r) == (set s | s in r[1..]) + {r[0]};
      assert r[0] !in r[1..];
    }
  }

  /** Every candidate of combinations(word, k) has length k and is a subsequence of word. */
  lemma CandidatesSound(word: string, k: nat, s: string)
    requires s in Candidates(word, k)
    ensures |s| == k && IsSubsequence(s, word)
  {
    var combos := Combinations(|word|, k);
    var i :| 0 <= i < |Candidates(word, k)| && Candidates(word, k)[i] == s;
    CombinationsSound(|word|, k);
    assert combos[i] in combos;
    assert Embeds(combos[i], s, word);
  }

  /** Every subsequence of word is a candidate of combinations(word, |s|). */
  lemma CandidatesComplete(word: string, s: string)
    requires IsSubsequence(s, word)
    ensures s in Candidates(word, |s|)
  {
    var idx :| Embeds(idx, s, word);
    CombinationsComplete(|word|, idx);
    var combos := Combinations(|word|, |s|);
    var i :| 0 <= i < |combos| && combos[i] == idx;
    assert Candidates(word, |s|)[i] == s;
  }

  /** The candidates tried for lengths below m are exactly the subsequences of word
      shorter than m. */
  lemma {:induction false} CandidatesBelowMember(word: string, m: nat, s: string)
    ensures s in CandidatesBelow(word, m) <==> |s| < m && IsSubsequence(s, word)
  {
    if m > 0 {
      CandidatesBelowMember(word, m - 1, s);
      if s in Candidates(word, m - 1) {
        CandidatesSound(word, m - 1, s);
      }
      if |s| == m - 1 && IsSubsequence(s, word) {
        CandidatesComplete(word, s);
      }
    }
  }

  /** Candidates are tried in order of length. */
  lemma {:induction false} CandidatesBelowByLength(word: string, m: nat)
    ensures ByLength(CandidatesBelow(word, m))
  {
    if m > 0 {
      var below := CandidatesBelow(word, m - 1);
      var next := Candidates(word, m - 1);
      CandidatesBelowByLength(word, m - 1);
      var r := below + next;
      forall i, j | 0 <= i < j < |r| ensures |r[i]| <= |r[j]| {
        if j < |below| {
          assert r[i] == below[i] && r[j] == below[j];
        } else if i < |below| {
          assert r[i] == below[i] && r[j] == next[j - |below|];
        } else {
          assert r[i] == next[i - |below|] && r[j] == next[j - |below|];
        }
      }
    }
  }

  /** What get_all_subwords yields is exactly the dictionary words that are
      subsequences of word and strictly shorter than it. */
  lemma SubwordsMembers(word: string, dictionary: set<string>)
    ensures forall s :: s in AllSubwords(word, dictionary) <==>
      s in dictionary && IsSubsequence(s, word) && |s| < |word|
  {
    DedupMembers(CandidatesBelow(word, |word|), dictionary);
    forall s | true ensures s in CandidatesBelow(word, |word|) <==> |s| < |word| && IsSubsequence(s, word) {
      CandidatesBelowMember(word, |word|, s);
    }
  }

  /** No string is yielded twice. */
  lemma SubwordsDistinct(word: string, dictionary: set<string>)
    ensures NoDuplicates(AllSubwords(word, dictionary))
  {
    DedupDistinct(CandidatesBelow(word, |word|), dictionary);
  }

  /** Every match of length k is yielded before any match of length k + 1. */
  lemma SubwordsByLength(word: string, dictionary: set<string>)
    ensures ByLength(AllSubwords(word, dictionary))
  {
    CandidatesBelowByLength(word, |word|);
    DedupByLength(CandidatesBelow(word, |word|), dictionary);
  }

  /** The word itself is never yielded, even when it is in the dictionary. */
  lemma WordIsNotItsOwnSubword(word: string, dictionary: set<string>)
    ensures word !in AllSubwords(word, dictionary)
  {
    SubwordsMembers(word, dictionary);
  }

  /** An empty word yields nothing. */
  lemma EmptyWordYieldsNothing(dictionary: set<string>)
    ensures AllSubwords([], dictionary) == []
  {
  }

  /** An empty dictionary yields nothing. */
  lemma EmptyDictionaryYieldsNothing(word: string)
    ensures AllSubwords(word, {}) == []
  {
    DedupEmptyDictionary(CandidatesBelow(word, |word|));
  }

  /** A duplicate-free, length-ordered sequence holding exactly three strings of
      different lengths lists them shortest first. */
  lemma ThreeByLength(r: seq<string>, a: string, b: string, c: string)
    requires NoDuplicates(r) && ByLength(r)
    requires forall s :: s in r <==> s == a || s == b || s == c
    requires |a| < |b| < |c|
    ensures r == [a, b, c]
  {
    DistinctCount(r);
    assert (set s | s in r) == {a, b, c};
    assert |r| == 3;
    assert r[0] in r && r[1] in r && r[2] in r;
  }

  /** да, еда and обед can be read off победа. */
  lemma PobedaSubsequences(word: string)
    requires word == "победа"
    ensures IsSubsequence("да", word) && IsSubsequence("еда", word) && IsSubsequence("обед", word)
  {
    assert Embeds([4, 5], "да", word);
    assert Embeds([3, 4, 5], "еда", word);
    assert Embeds([1, 2, 3, 4], "обед", word);
  }

  /** The documented example: "победа" with the dictionary {обед, еда, да, звезда}
      yields да, еда, обед, in that order. звезда is as long as the word. */
  lemma PobedaExample(word: string, dictionary: set<string>)
    requires word == "победа" && dictionary == {"обед", "еда", "да", "звезда"}
    ensures AllSubwords(word, dictionary) == ["да", "еда", "обед"]
  {
    SubwordsMembers(word, dictionary);
    SubwordsDistinct(word, dictionary);
    SubwordsByLength(word, dictionary);
    PobedaSubsequences(word);
    ThreeByLength(AllSubwords(word, dictionary), "да", "еда", "обед");
  }

  /** The generator, run to completion: two nested loops, the set `subwords` of what
      has been yielded, and the yielded strings appended in the order they come. */
  method GetAllSubwords(word: string, dictionary: set<string>) returns (yielded: seq<string>)
    ensures yielded == AllSubwords(word, dictionary)
    ensures forall s :: s in yielded <==> s in dictionary && IsSubsequence(s, word) && |s| < |word|
    ensures NoDuplicates(yielded) && ByLength(yielded)
  {
    var subwords: set<string> := {};
    yielded := [];
    for nChars := 0 to |word|
      invariant yielded == Dedup(CandidatesBelow(word, nChars), dictionary)
      invariant forall s :: s in subwords <==> s in yielded
    {
      var combos := Combinations(|word|, nChars);
      ghost var done := CandidatesBelow(word, nChars);
      ghost var cands := Candidates(word, nChars);
      CandidatesBelowNext(word, nChars);
      for j := 0 to |combos|
        invariant yielded == Dedup(done + cands[..j], dictionary)
        invariant forall s :: s in subwords <==> s in yielded
      {
        ScanStep(word, nChars, j, done, dictionary);
        var subword := Pick(word, combos[j]);
        if subword in dictionary && subword !in subwords {
          yielded := yielded + [subword];
          subwords := subwords + {subword};
        }
      }
    }
    SubwordsMembers(word, dictionary);
    SubwordsDistinct(word, dictionary);
    SubwordsByLength(word, dictionary);
  }
}
