/**
 * The constrained shuffle: `length` copies of every catalogue word, placed
 * one at a time so that each placed word may follow the one before it,
 * with the whole attempt thrown away and restarted at a dead end; the
 * placed words are then encoded as digits.
 */
module Shuffle {
  import opened Wrappers
  import opened Catalogue
  import opened Encoding

  /** What a call returns or raises. */
  datatype Outcome =
    | Returned(encoded: seq<Item>, last: Word)
      // `length` was 0: no attempt ran and the remaining items were read
      // before ever being assigned
    | UnboundLocalError
      // the attempt budget given to the model ran out before an attempt
      // placed every word
    | RetriesExhausted

  /** The remaining items that may follow `p`, in their order. */
  function Filter(remaining: seq<Word>, p: Word): (r: seq<Word>)
    ensures forall x :: multiset(r)[x] == if MayFollow(p, x) then multiset(remaining)[x] else 0
    ensures forall x :: x in r <==> x in remaining && MayFollow(p, x)
  {
    if remaining == [] then []
    else
      var rest := Filter(remaining[1..], p);
      assert remaining == [remaining[0]] + remaining[1..];
      if MayFollow(p, remaining[0]) then [remaining[0]] + rest else rest
  }

  /** The candidates for the next placement: with no previous word every
      remaining item, otherwise those allowed after it. */
  function Candidates(remaining: seq<Word>, previous: Option<Word>): (r: seq<Word>)
    ensures forall x :: x in r <==> x in remaining && AllowedAfter(previous, x)
    ensures previous.None? ==> r == remaining
  {
    if previous.None? then remaining else Filter(remaining, previous.value)
  }

  /** The position of the first occurrence of `x`. */
  function IndexOf(s: seq<Word>, x: Word): (k: nat)
    requires x in s
    ensures k < |s| && s[k] == x && x !in s[..k]
  {
    if s[0] == x then 0
    else
      assert x in s[1..] by { assert s == [s[0]] + s[1..]; }
      var k := IndexOf(s[1..], x);
      assert s[..k + 1] == [s[0]] + s[1..][..k];
      k + 1
  }

  /** Taking one `x` out of the tail of a sequence whose head is not `x`
      takes it out of the whole. */
  lemma {:induction false} ConsRemove(a: Word, b: seq<Word>, x: Word)
    requires a != x && x in b
    ensures multiset([a] + b) - multiset{x} == multiset{a} + (multiset(b) - multiset{x})
  {
    assert multiset([a] + b) == multiset{a} + multiset(b);
    forall y ensures (multiset{a} + (multiset(b) - multiset{x}))[y] == ((multiset{a} + multiset(b)) - multiset{x})[y] {
    }
  }

  /** Splicing the head back onto a tail with one element cut out at `k`
      is the whole sequence with that element cut out at `k + 1`. */
  lemma {:induction false} ConsSplice(s: seq<Word>, k: nat)
    requires k + 1 < |s|
    ensures [s[0]] + (s[1..][..k] + s[1..][k + 1..]) == s[..k + 1] + s[k + 2..]
  {
    assert s[..k + 1] == [s[0]] + s[1..][..k];
    assert s[k + 2..] == s[1..][k + 1..];
  }

  /** Removes the first occurrence of `x`, as a list's `remove` does. */
  function RemoveFirst(s: seq<Word>, x: Word): (r: seq<Word>)
    requires x in s
    ensures r == s[..IndexOf(s, x)] + s[IndexOf(s, x) + 1..]
    ensures multiset(r) == multiset(s) - multiset{x}
  {
    if s[0] == x then
      assert s == [x] + s[1..];
      s[1..]
    else
      assert x in s[1..] by { assert s == [s[0]] + s[1..]; }
      var rest := RemoveFirst(s[1..], x);
      ConsSplice(s, IndexOf(s[1..], x));
      ConsRemove(s[0], s[1..], x);
      assert s == [s[0]] + s[1..];
      [s[0]] + rest
  }

  /** Moving one copy of `x` from the remaining items to the placed ones
      keeps the two together the same multiset. */
  lemma {:induction false} MoveOne(shuffled: seq<Word>, remaining: seq<Word>, x: Word)
    requires x in remaining
    ensures multiset(shuffled + [x]) + multiset(RemoveFirst(remaining, x)) == multiset(shuffled) + multiset(remaining)
  {
    assert multiset(shuffled + [x]) == multiset(shuffled) + multiset{x};
  }

  /**
   * One attempt: starting from a fresh copy of `initial` and from
   * `previousEnd`, repeatedly picks any candidate, appends it and removes
   * one copy of it from the remaining items, until nothing remains or no
   * candidate is left (a dead end).
   */
  method Attempt(initial: seq<Word>, previousEnd: Option<Word>)
    returns (shuffled: seq<Word>, remaining: seq<Word>, previous: Option<Word>)
    ensures multiset(shuffled) + multiset(remaining) == multiset(initial)
    ensures Chain(previousEnd, shuffled)
    ensures previous == LastPlaced(previousEnd, shuffled)
    ensures remaining != [] ==> Candidates(remaining, previous) == []
  {
    remaining := initial;
    shuffled := [];
    previous := previousEnd;
    while remaining != []
      invariant multiset(shuffled) + multiset(remaining) == multiset(initial)
      invariant Chain(previousEnd, shuffled)
      invariant previous == LastPlaced(previousEnd, shuffled)
      decreases |remaining|
    {
      var possible := Candidates(remaining, previous);
      if possible == [] {
        break;
      }
      var k :| 0 <= k < |possible|;
      var itemNew := possible[k];
      assert itemNew in remaining && AllowedAfter(previous, itemNew);
      MoveOne(shuffled, remaining, itemNew);
      ChainExtend(previousEnd, shuffled, itemNew);
      shuffled := shuffled + [itemNew];
      remaining := RemoveFirst(remaining, itemNew);
      previous := Some(itemNew);
    }
  }

  /** An attempt that placed as many words as it started with has used
      every one of them. */
  lemma {:induction false} Drained(shuffled: seq<Word>, remaining: seq<Word>, initial: seq<Word>)
    requires multiset(shuffled) + multiset(remaining) == multiset(initial)
    requires |shuffled| >= |initial|
    ensures remaining == [] && multiset(shuffled) == multiset(initial)
  {
    assert |multiset(shuffled)| + |multiset(remaining)| == |multiset(initial)|;
  }

  /** A block holding each catalogue word `n` times holds nothing else. */
  lemma {:induction false} CatalogueWordsOnly(ws: seq<Word>, n: nat)
    requires EachWordTimes(multiset(ws), n)
    ensures forall i :: 0 <= i < |ws| ==> ws[i] in Words
  {
    forall i | 0 <= i < |ws| ensures ws[i] in Words {
      assert multiset(ws)[ws[i]] > 0;
    }
  }

  /** `length` copies of the catalogue, one after the other. */
  method InitialItems(length: nat) returns (initial: seq<Word>)
    ensures |initial| == 6 * length
    ensures EachWordTimes(multiset(initial), length)
  {
    initial := [];
    for i := 0 to length
      invariant |initial| == 6 * i
      invariant EachWordTimes(multiset(initial), i)
    {
      WordsOnce();
      EachWordTimesAdd(multiset(initial), multiset(Words), i, 1);
      initial := initial + Words;
    }
  }

  /** The encoding of a completed arrangement: all digits 0..5, reading
      back to the arrangement. */
  lemma {:induction false} EncodedArrangement(shuffled: seq<Word>, length: nat)
    requires EachWordTimes(multiset(shuffled), length)
    ensures forall i :: 0 <= i < |shuffled| ==> Encoded(shuffled)[i].Code? && Encoded(shuffled)[i].digit in Digits
    ensures Decode(Encoded(shuffled)) == Some(shuffled)
  {
    CatalogueWordsOnly(shuffled, length);
    EncodedAllCodes(shuffled);
    EncodedDecodes(shuffled);
  }

  /**
   * Builds `length` copies of the catalogue, runs attempts until one places
   * every word (at most `maxAttempts` of them), and encodes the result.
   * On return the digits decode to an arrangement with each catalogue word
   * exactly `length` times in which every word may follow the one before
   * it (and the first may follow `previousEnd`); `last` is the raw word
   * behind the last digit.
   */
  method CreateArray(length: nat, previousEnd: Option<Word>, maxAttempts: nat) returns (r: Outcome)
    ensures r.UnboundLocalError? <==> length == 0
    ensures r.Returned? ==> |r.encoded| == 6 * length
    ensures r.Returned? ==> forall i :: 0 <= i < |r.encoded| ==> r.encoded[i].Code? && r.encoded[i].digit in Digits
    ensures r.Returned? ==> Decode(r.encoded).Some?
    ensures r.Returned? ==> EachWordTimes(multiset(Decode(r.encoded).value), length)
    ensures r.Returned? ==> Chain(previousEnd, Decode(r.encoded).value)
    ensures r.Returned? ==> LastPlaced(previousEnd, Decode(r.encoded).value) == Some(r.last)
  {
    var initial := InitialItems(length);

    var shuffled: seq<Word> := [];
    var remaining: Option<seq<Word>> := None;  // not bound before the first attempt
    var previous: Option<Word> := previousEnd;
    var attempts := 0;
    while |shuffled| < 6 * length
      invariant attempts <= maxAttempts
      invariant remaining.None? ==> shuffled == []
      invariant length == 0 ==> remaining.None?
      invariant remaining.Some? ==> multiset(shuffled) + multiset(remaining.value) == multiset(initial)
      invariant Chain(previousEnd, shuffled)
      invariant previous == LastPlaced(previousEnd, shuffled)
      decreases maxAttempts - attempts
    {
      if attempts == maxAttempts {
        return RetriesExhausted;
      }
      attempts := attempts + 1;
      var s, rest, p := Attempt(initial, previousEnd);
      shuffled, remaining, previous := s, Some(rest), p;
    }
    if remaining.None? {
      return UnboundLocalError;
    }

    Drained(shuffled, remaining.value, initial);
    var encoded := EncodeItems(shuffled);
    EncodedArrangement(shuffled, length);
    var last := previous.value;
    assert last == shuffled[|shuffled| - 1];
    r := Returned(encoded, last);
  }

  /** The word handed back beside the digits is the raw word whose digit
      ends the block. */
  lemma {:induction false} LastDigitIsLast(items: seq<Item>, previous: Option<Word>, last: Word)
    requires Decode(items).Some? && |items| > 0
    requires LastPlaced(previous, Decode(items).value) == Some(last)
    ensures EncodeWord(last).Some?
    ensures items[|items| - 1] == Code(EncodeWord(last).value)
  {
    var ws := Decode(items).value;
    DecodedAt(items, ws, |ws| - 1);
    var it := items[|items| - 1];
    CodeRoundTrip(last, it.digit);
  }
}
