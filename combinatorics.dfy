/** Choices of positions, in the order Python's itertools.combinations produces them.

    combinations(word, k) yields the k-tuples of word's characters whose positions
    are strictly increasing, in lexicographic order of those positions. This module
    works on the positions; the subword module joins the characters found there.
 */
module Combinatorics {

  /** c is a choice of positions from [lo, n), taken in strictly increasing order. */
  predicate IsCombination(c: seq<nat>, lo: nat, n: nat)
  {
    (forall i :: 0 <= i < |c| ==> lo <= c[i] < n) &&
    (forall i, j :: 0 <= i < j < |c| ==> c[i] < c[j])
  }

  /** Puts x in front of every sequence of cs. */
  function Prepend(x: nat, cs: seq<seq<nat>>): seq<seq<nat>>
  {
    seq(|cs|, i requires 0 <= i < |cs| => [x] + cs[i])
  }

  /** The k-choices of positions from [lo, n), in lexicographic order: first every
      choice that starts with lo, then every choice that does not. */
  function CombinationsFrom(lo: nat, n: nat, k: nat): seq<seq<nat>>
    decreases n - lo
  {
    if k == 0 then [[]]
    else if lo >= n then []
    else Prepend(lo, CombinationsFrom(lo + 1, n, k - 1)) + CombinationsFrom(lo + 1, n, k)
  }

  /** combinations(range(n), k): there are C(n, k) of them. */
  function Combinations(n: nat, k: nat): (r: seq<seq<nat>>)
    ensures |r| == Binomial(n, k)
  {
    CombinationsFromCount(0, n, k);
    CombinationsFrom(0, n, k)
  }

  /** Number of k-element subsets of an m-element set (Pascal's rule). */
  function Binomial(m: nat, k: nat): nat
  {
    if k == 0 then 1
    else if m == 0 then 0
    else Binomial(m - 1, k - 1) + Binomial(m - 1, k)
  }

  /** Strict lexicographic order on sequences of the same length. */
  predicate LexLess(a: seq<nat>, b: seq<nat>)
    decreases |a|
  {
    0 < |a| && 0 < |b| &&
    (a[0] < b[0] || (a[0] == b[0] && LexLess(a[1..], b[1..])))
  }

  /** Putting lo in front of a choice from [lo + 1, n) gives a choice from [lo, n). */
  lemma ConsCombination(lo: nat, n: nat, c: seq<nat>)
    requires lo < n && IsCombination(c, lo + 1, n)
    ensures IsCombination([lo] + c, lo, n)
  {
    var d := [lo] + c;
    forall i, j | 0 <= i < j < |d| ensures d[i] < d[j] {
      if i > 0 {
        assert d[i] == c[i - 1] && d[j] == c[j - 1];
      } else {
        assert d[j] == c[j - 1];
      }
    }
  }

  /** Every sequence produced has k elements and is a strictly increasing
      choice of positions from [lo, n). */
  lemma {:induction false} CombinationsFromSound(lo: nat, n: nat, k: nat, c: seq<nat>)
    requires c in CombinationsFrom(lo, n, k)
    ensures |c| == k && IsCombination(c, lo, n)
    decreases n - lo
  {
    if k > 0 {
      var head := CombinationsFrom(lo + 1, n, k - 1);
      var p := Prepend(lo, head);
      if c in p {
        var i :| 0 <= i < |p| && p[i] == c;
        assert head[i] in head;
        CombinationsFromSound(lo + 1, n, k - 1, head[i]);
        ConsCombination(lo, n, head[i]);
      } else {
        CombinationsFromSound(lo + 1, n, k, c);
      }
    }
  }

  lemma CombinationsSound(n: nat, k: nat)
    ensures forall c :: c in Combinations(n, k) ==> |c| == k && IsCombination(c, 0, n)
  {
    forall c | c in Combinations(n, k) ensures |c| == k && IsCombination(c, 0, n) {
      CombinationsFromSound(0, n, k, c);
    }
  }

  /** Dropping the first position of a choice from [lo, n) leaves a choice from
      [c[0] + 1, n). */
  lemma TailCombination(c: seq<nat>, lo: nat, n: nat)
    requires 0 < |c| && IsCombination(c, lo, n)
    ensures IsCombination(c[1..], c[0] + 1, n)
  {
    forall i | 0 <= i < |c| - 1 ensures c[0] + 1 <= c[1..][i] < n {
      assert c[1..][i] == c[i + 1];
    }
  }

  /** A choice from [lo, n) that does not start with lo is a choice from [lo + 1, n). */
  lemma RaiseLowerBound(c: seq<nat>, lo: nat, n: nat)
    requires 0 < |c| && IsCombination(c, lo, n) && c[0] != lo
    ensures IsCombination(c, lo + 1, n)
  {
    forall i | 0 < i < |c| ensures lo + 1 <= c[i] {
      assert c[0] < c[i];
    }
  }

  /** A sequence h of cs, with x put in front, is in Prepend(x, cs) + tail. */
  lemma PrependMember(x: nat, cs: seq<seq<nat>>, tail: seq<seq<nat>>, h: seq<nat>)
    requires h in cs
    ensures [x] + h in Prepend(x, cs) + tail
  {
    var i :| 0 <= i < |cs| && cs[i] == h;
    assert (Prepend(x, cs) + tail)[i] == [x] + h;
  }

  /** Every strictly increasing choice of positions from [lo, n) is produced. */
  lemma {:induction false} CombinationsFromComplete(lo: nat, n: nat, c: seq<nat>)
    requires IsCombination(c, lo, n)
    ensures c in CombinationsFrom(lo, n, |c|)
    decreases n - lo
  {
    if |c| > 0 {
      assert lo <= c[0] < n;
      if c[0] == lo {
        TailCombination(c, lo, n);
        CombinationsFromComplete(lo + 1, n, c[1..]);
        PrependMember(lo, CombinationsFrom(lo + 1, n, |c| - 1), CombinationsFrom(lo + 1, n, |c|), c[1..]);
        assert [lo] + c[1..] == c;
      } else {
        RaiseLowerBound(c, lo, n);
        CombinationsFromComplete(lo + 1, n, c);
      }
    }
  }

  lemma CombinationsComplete(n: nat, c: seq<nat>)
    requires IsCombination(c, 0, n)
    ensures c in Combinations(n, |c|)
  {
    CombinationsFromComplete(0, n, c);
  }

  /** There are exactly Binomial(n - lo, k) of them. */
  lemma {:induction false} CombinationsFromCount(lo: nat, n: nat, k: nat)
    requires lo <= n
    ensures |CombinationsFrom(lo, n, k)| == Binomial(n - lo, k)
    decreases n - lo
  {
    if k > 0 && lo < n {
      CombinationsFromCount(lo + 1, n, k - 1);
      CombinationsFromCount(lo + 1, n, k);
    }
  }

  /** A list of choices in strictly increasing lexicographic order. */
  predicate LexSorted(r: seq<seq<nat>>)
  {
    forall i, j :: 0 <= i < j < |r| ==> LexLess(r[i], r[j])
  }

  lemma {:induction false} LexLessIrreflexive(a: seq<nat>)
    ensures !LexLess(a, a)
    decreases |a|
  {
    if 0 < |a| {
      LexLessIrreflexive(a[1..]);
    }
  }

  /** A list in strictly increasing order holds no choice twice. */
  lemma LexSortedDistinct(r: seq<seq<nat>>)
    requires LexSorted(r)
    ensures forall i, j :: 0 <= i < j < |r| ==> r[i] != r[j]
  {
    forall i, j | 0 <= i < j < |r| ensures r[i] != r[j] {
      LexLessIrreflexive(r[i]);
    }
  }

  lemma PrependSorted(x: nat, cs: seq<seq<nat>>)
    requires LexSorted(cs)
    ensures LexSorted(Prepend(x, cs))
  {
    var p := Prepend(x, cs);
    forall i, j | 0 <= i < j < |p| ensures LexLess(p[i], p[j]) {
      assert p[i][1..] == cs[i] && p[j][1..] == cs[j];
    }
  }

  /** Choices that start with lo come before choices of larger positions only. */
  lemma AppendSorted(lo: nat, p: seq<seq<nat>>, tail: seq<seq<nat>>)
    requires LexSorted(p) && LexSorted(tail)
    requires forall c :: c in p ==> 0 < |c| && c[0] == lo
    requires forall c :: c in tail ==> 0 < |c| && lo < c[0]
    ensures LexSorted(p + tail)
  {
    var r := p + tail;
    forall i, j | 0 <= i < j < |r| ensures LexLess(r[i], r[j]) {
      if j < |p| {
        assert r[i] == p[i] && r[j] == p[j];
      } else if i < |p| {
        assert r[i] == p[i] && p[i] in p;
        assert r[j] == tail[j - |p|] && tail[j - |p|] in tail;
      } else {
        assert r[i] == tail[i - |p|] && r[j] == tail[j - |p|];
      }
    }
  }

  /** They come in strictly increasing lexicographic order. */
  lemma {:induction false} CombinationsFromSorted(lo: nat, n: nat, k: nat)
    ensures LexSorted(CombinationsFrom(lo, n, k))
    decreases n - lo
  {
    if k > 0 && lo < n {
      var head := CombinationsFrom(lo + 1, n, k - 1);
      var tail := CombinationsFrom(lo + 1, n, k);
      CombinationsFromSorted(lo + 1, n, k - 1);
      CombinationsFromSorted(lo + 1, n, k);
      PrependSorted(lo, head);
      var p := Prepend(lo, head);
      forall c | c in p ensures 0 < |c| && c[0] == lo {
        var i :| 0 <= i < |p| && p[i] == c;
      }
      forall c | c in tail ensures 0 < |c| && lo < c[0] {
        CombinationsFromSound(lo + 1, n, k, c);
      }
      AppendSorted(lo, p, tail);
    }
  }

  /** combinations(range(n), k) is in lexicographic order and so repeats no choice. */
  lemma CombinationsSorted(n: nat, k: nat)
    ensures LexSorted(Combinations(n, k))
    ensures forall i, j :: 0 <= i < j < |Combinations(n, k)| ==> Combinations(n, k)[i] != Combinations(n, k)[j]
  {
    CombinationsFromSorted(0, n, k);
    LexSortedDistinct(Combinations(n, k));
  }
}
