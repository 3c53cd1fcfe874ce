/**
 * One participant's four word sequences: five calls of the shuffler with
 * block sizes 1, 9, 10, 10 and 10, each continuing from the last word of
 * the one before; the first two blocks are joined into one sequence.
 */
module Driver {
  import opened Wrappers
  import opened Catalogue
  import opened Encoding
  import opened Shuffle

  /** The four encoded sequences written for one participant. */
  datatype Blocks = Blocks(wordSeq1: seq<Item>, wordSeq2: seq<Item>, wordSeq3: seq<Item>, wordSeq4: seq<Item>)

  /** The participant's whole run of digits, in the order it is shown. */
  function Joined(b: Blocks): seq<Item> {
    b.wordSeq1 + b.wordSeq2 + b.wordSeq3 + b.wordSeq4
  }

  /** The items decode to words holding each catalogue word `n` times. */
  ghost predicate Balanced(items: seq<Item>, n: nat) {
    Decode(items).Some? && EachWordTimes(multiset(Decode(items).value), n)
  }

  /** The items decode to a run that obeys the adjacency rule after
      `previous` and ends in the word `last`. */
  ghost predicate ChainedRun(items: seq<Item>, previous: Option<Word>, last: Word) {
    && Decode(items).Some?
    && Chain(previous, Decode(items).value)
    && LastPlaced(previous, Decode(items).value) == Some(last)
  }

  /** A block generated after the last word of a run continues the run:
      the joined items still obey the adjacency rule, across the seam too. */
  lemma {:induction false} JoinRuns(a: seq<Item>, b: seq<Item>, previous: Option<Word>, lastA: Word, lastB: Word)
    requires ChainedRun(a, previous, lastA)
    requires ChainedRun(b, Some(lastA), lastB)
    ensures ChainedRun(a + b, previous, lastB)
  {
    DecodeAppend(a, b);
    ChainAppend(previous, Decode(a).value, Decode(b).value);
  }

  /** Joining two balanced blocks adds up the repetitions. */
  lemma {:induction false} JoinBalanced(a: seq<Item>, b: seq<Item>, n: nat, m: nat)
    requires Balanced(a, n) && Balanced(b, m)
    ensures Balanced(a + b, n + m)
  {
    DecodeAppend(a, b);
    EachWordTimesAdd(multiset(Decode(a).value), multiset(Decode(b).value), n, m);
  }

  /**
   * Generates one participant's sequences, threading the last word of each
   * block into the next call. Each sequence has 60 digits holding every
   * word 10 times; the first opens with 6 digits holding every word once,
   * followed by 54 holding every word 9 times. The whole run obeys the
   * adjacency rule, including at every block join.
   */
  method ParticipantSequences(maxAttempts: nat) returns (r: Option<Blocks>)
    ensures r.Some? ==> |r.value.wordSeq1| == 60 && |r.value.wordSeq2| == 60
    ensures r.Some? ==> |r.value.wordSeq3| == 60 && |r.value.wordSeq4| == 60
    ensures r.Some? ==> Balanced(r.value.wordSeq1, 10) && Balanced(r.value.wordSeq2, 10)
    ensures r.Some? ==> Balanced(r.value.wordSeq3, 10) && Balanced(r.value.wordSeq4, 10)
    ensures r.Some? ==> Balanced(r.value.wordSeq1[..6], 1) && Balanced(r.value.wordSeq1[6..], 9)
    ensures r.Some? ==> Decode(Joined(r.value)).Some? && Chain(None, Decode(Joined(r.value)).value)
  {
    var first := CreateArray(1, None, maxAttempts);
    if !first.Returned? {
      return None;
    }
    var wordSeq1, last := first.encoded, first.last;

    var extension := CreateArray(9, Some(last), maxAttempts);
    if !extension.Returned? {
      return None;
    }
    JoinRuns(wordSeq1, extension.encoded, None, last, extension.last);
    JoinBalanced(wordSeq1, extension.encoded, 1, 9);
    var opening := wordSeq1;
    wordSeq1, last := wordSeq1 + extension.encoded, extension.last;
    assert wordSeq1[..6] == opening && wordSeq1[6..] == extension.encoded;

    var second := CreateArray(10, Some(last), maxAttempts);
    if !second.Returned? {
      return None;
    }
    JoinRuns(wordSeq1, second.encoded, None, last, second.last);
    var wordSeq2 := second.encoded;
    last := second.last;

    var third := CreateArray(10, Some(last), maxAttempts);
    if !third.Returned? {
      return None;
    }
    JoinRuns(wordSeq1 + wordSeq2, third.encoded, None, last, third.last);
    var wordSeq3 := third.encoded;
    last := third.last;

    var fourth := CreateArray(10, Some(last), maxAttempts);
    if !fourth.Returned? {
      return None;
    }
    JoinRuns(wordSeq1 + wordSeq2 + wordSeq3, fourth.encoded, None, last, fourth.last);
    var wordSeq4 := fourth.encoded;

    r := Some(Blocks(wordSeq1, wordSeq2, wordSeq3, wordSeq4));
  }
}
