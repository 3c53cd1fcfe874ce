/**
 * The fixed catalogue of six four-move "words" and the rule that says which
 * word may follow which in a stimulus sequence.
 */
module Catalogue {
  import opened Wrappers

  /** A word: four moves, each a key number 1..4. */
  datatype Word = Word(m0: int, m1: int, m2: int, m3: int)

  /** The catalogue, in index order; a word's index is its output digit. */
  const Words: seq<Word> := [
    Word(4, 1, 2, 4),
    Word(1, 2, 4, 2),
    Word(3, 4, 2, 4),
    Word(2, 4, 2, 3),
    Word(2, 3, 4, 1),
    Word(3, 4, 1, 2)
  ]

  /** `x` may be placed right after `p`: it is not the same word, and its
      first move differs from the last move of `p`. */
  predicate MayFollow(p: Word, x: Word) {
    x != p && x.m0 != p.m3
  }

  /** `x` may be placed after the optional previous word; with no previous
      word every word is allowed. */
  predicate AllowedAfter(previous: Option<Word>, x: Word) {
    previous.None? || MayFollow(previous.value, x)
  }

  /** Every word of `ws` is allowed after the one before it, and the first
      one after `previous`. */
  predicate Chain(previous: Option<Word>, ws: seq<Word>) {
    && (|ws| > 0 ==> AllowedAfter(previous, ws[0]))
    && forall i :: 0 < i < |ws| ==> MayFollow(ws[i - 1], ws[i])
  }

  /** The word that constrains what comes after `ws` when `ws` was placed
      after `previous`. */
  function LastPlaced(previous: Option<Word>, ws: seq<Word>): Option<Word> {
    if ws == [] then previous else Some(ws[|ws| - 1])
  }

  /** Placing one more allowed word keeps the chain. */
  lemma {:induction false} ChainExtend(previous: Option<Word>, ws: seq<Word>, x: Word)
    requires Chain(previous, ws)
    requires AllowedAfter(LastPlaced(previous, ws), x)
    ensures Chain(previous, ws + [x])
    ensures LastPlaced(previous, ws + [x]) == Some(x)
  {
    var ws' := ws + [x];
    forall i | 0 < i < |ws'| ensures MayFollow(ws'[i - 1], ws'[i]) {
      if i < |ws| {
        assert ws'[i - 1] == ws[i - 1] && ws'[i] == ws[i];
      } else {
        assert ws'[i - 1] == ws[|ws| - 1];
      }
    }
  }

  /** Two blocks joined through their seam, where the second block was
      generated after the last word of the first, form one chain. */
  lemma {:induction false} ChainAppend(previous: Option<Word>, a: seq<Word>, b: seq<Word>)
    requires Chain(previous, a)
    requires Chain(LastPlaced(previous, a), b)
    ensures Chain(previous, a + b)
    ensures LastPlaced(previous, a + b) == LastPlaced(LastPlaced(previous, a), b)
  {
    var ab := a + b;
    if |ab| > 0 {
      assert ab[0] == if |a| > 0 then a[0] else b[0];
    }
    forall i | 0 < i < |ab| ensures MayFollow(ab[i - 1], ab[i]) {
      if i < |a| {
        assert ab[i - 1] == a[i - 1] && ab[i] == a[i];
      } else if i == |a| {
        assert ab[i - 1] == a[|a| - 1] && ab[i] == b[0];
      } else {
        assert ab[i - 1] == b[i - 1 - |a|] && ab[i] == b[i - |a|];
      }
    }
    if b != [] {
      assert ab[|ab| - 1] == b[|b| - 1];
    } else {
      assert ab == a;
    }
  }

  /** The follow-up restrictions with A..F standing for Words[0..5]: row i
      lists the indices of the words that may NOT follow word i. */
  const FollowUpRestrictions: seq<set<nat>> := [
    {0},        // A: not A
    {1, 3, 4},  // B: not B, D, E
    {2, 0},     // C: not C, A
    {3, 2, 5},  // D: not D, C, F
    {4, 1},     // E: not E, B
    {5, 3, 4}   // F: not F, D, E
  ]

  /** The adjacency rule, applied to the catalogue, is exactly the
      follow-up restriction table. */
  lemma FollowUpTable(i: nat, j: nat)
    requires i < |Words| && j < |Words|
    ensures !MayFollow(Words[i], Words[j]) <==> j in FollowUpRestrictions[i]
  {
  }

  /** The catalogue words are pairwise distinct, so a word has one index. */
  lemma WordsDistinct(i: nat, j: nat)
    requires i < |Words| && j < |Words|
    ensures Words[i] == Words[j] <==> i == j
  {
  }

  /** Each catalogue word occurs exactly `n` times in `ms`, and nothing else
      occurs. */
  ghost predicate EachWordTimes(ms: multiset<Word>, n: nat) {
    forall w :: ms[w] == if w in Words then n else 0
  }

  /** The catalogue itself holds each word once. */
  lemma WordsOnce()
    ensures EachWordTimes(multiset(Words), 1)
  {
    var ms := multiset{Word(4, 1, 2, 4), Word(1, 2, 4, 2), Word(3, 4, 2, 4),
                       Word(2, 4, 2, 3), Word(2, 3, 4, 1), Word(3, 4, 1, 2)};
    assert multiset(Words) == ms;
    forall w ensures ms[w] == if w in Words then 1 else 0 {
    }
  }

  /** Joining a block holding each word `n` times to one holding each word
      `m` times gives each word `n + m` times. */
  lemma {:induction false} EachWordTimesAdd(a: multiset<Word>, b: multiset<Word>, n: nat, m: nat)
    requires EachWordTimes(a, n) && EachWordTimes(b, m)
    ensures EachWordTimes(a + b, n + m)
  {
  }
}
