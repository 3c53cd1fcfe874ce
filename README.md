# Constrained word-sequence generator

The script `python/bv_script_sequence_making_online.py` writes stimulus
sequences for a key-press experiment. A *word* is four moves, each a key
number 1..4. The catalogue `words` holds six of them. `create_array(length,
previous_end)` does three things:

- It lays out `length` copies of the catalogue.
- It places them one at a time in random order. A word may follow another
  only if it is a different word and its first move differs from the other
  word's last move. When the remaining words offer no candidate, the whole
  attempt is thrown away and restarted from a fresh copy.
- It replaces each placed word by its catalogue index as a one-character
  digit string. It returns those digits together with the last placed word.

The driver calls it five times for each participant, with block sizes 1, 9,
10, 10 and 10. Each call continues from the last word of the call before,
and the first two blocks are joined into one sequence.

The model has four modules:

- `Catalogue` (`catalogue.dfy`): the words, the adjacency rule (`MayFollow`,
  `Chain`) and multiset bookkeeping (`EachWordTimes`).
- `Encoding` (`encoding.dfy`): the word-to-digit chain, its inverse
  `WordOfCode`/`Decode`, and the in-place encoding loop `EncodeItems`.
- `Shuffle` (`shuffle.dfy`): the candidate filter, list `remove`, one
  placement attempt (`Attempt`) and the whole function (`CreateArray`).
- `Driver` (`driver.dfy`): the five threaded calls for one participant
  (`ParticipantSequences`).

`Wrappers` (`wrappers.dfy`) holds `Option`. An absent `previous_end` (the
empty string default) is `None`.

Modelling choices:

- `random.choice` is a nondeterministic pick (`var k :| ...`). Every
  property holds whichever candidate is chosen.
- The outer retry loop is unbounded in the source. The model gives
  `CreateArray` an attempt budget `maxAttempts` and returns
  `RetriesExhausted` when the budget runs out. Every property is stated for
  the `Returned` outcome, so it holds however many attempts that took.
- With `length == 0` the outer loop never runs, so line 73 reads
  `items_remaining` before it is ever bound. In Python that raises
  `UnboundLocalError`. The model returns that outcome, and
  `CreateArray` states it happens exactly when `length == 0`.
- The encoding loop keeps a list of `Item`s. Each item is a raw `Word` or
  the digit `Code` that replaced it. On a word outside the catalogue the
  loop stops and leaves the rest raw, as the `break` at line 91 does.
  `EncodedArrangement` and `CatalogueWordsOnly` show that this path is never
  taken on the words `create_array` places.
- The comment at lines 16-21 names the words A..F with other digits. Those
  are a relabelling of `words`. The follow-up table at lines 24-30 is exact
  for `words` in list order, A..F = `words[0..5]` (`FollowUpTable`).
- Each of the four participant sequences holds 60 digits: 6·1 + 6·9 for
  `wordSeq1` (an opening block holding every word once, then 54 digits
  holding every word 9 times) and 6·10 for the others.

## Model

| member | source | states |
|---|---|---|
| Catalogue.MayFollow | python/bv_script_sequence_making_online.py:65 | The filter test: a word may follow the previous one when it is a different word and its first move differs from the previous word's last move |
| Catalogue.ChainExtend | python/bv_script_sequence_making_online.py:65-72 | Placing a word allowed after the last placed one (or after `previous_end` when nothing is placed yet) extends the adjacency chain, and that word becomes the new previous word |
| Catalogue.ChainAppend | python/bv_script_sequence_making_online.py:107-112 | When a second block was built after the last word of a first block, the joined words obey the adjacency rule across the seam too, and end where the second block ends |
| Catalogue.FollowUpTable | python/bv_script_sequence_making_online.py:24-30 | For catalogue words i and j, the filter at line 65 rejects word j after word i exactly when j is in row i of the follow-up restriction table (A..F = words[0..5]), in both directions |
| Catalogue.WordsDistinct | python/bv_script_sequence_making_online.py:38-45 | The six catalogue words are pairwise different, so each word has exactly one index/digit |
| Catalogue.WordsOnce | python/bv_script_sequence_making_online.py:38-45 | The catalogue holds each of its words exactly once and nothing else |
| Catalogue.EachWordTimesAdd | python/bv_script_sequence_making_online.py:51-52 | Joining a collection holding every word n times with one holding every word m times holds every word n + m times |
| Encoding.EncodeWord | python/bv_script_sequence_making_online.py:77-91 | A word gets a replacement digit exactly when it is a catalogue word, and the digit is one of "0".."5" |
| Encoding.EncodeIsIndex | python/bv_script_sequence_making_online.py:77-88 | The comparison chain maps words[i] to the digit string of i, for every i in 0..5 |
| Encoding.CodeRoundTrip | python/bv_script_sequence_making_online.py:77-88 | Encoding a word gives digit s if and only if reading s back as a catalogue index gives that word |
| Encoding.Decode | python/bv_script_sequence_making_online.py:75-93 | Reading a block of output items back to words succeeds exactly when every item is a digit code 0..5, keeps the length, and reads item i as word i |
| Encoding.DecodeAppend | python/bv_script_sequence_making_online.py:109 | Reading back two joined blocks gives the two readings joined |
| Encoding.DecodedAt | python/bv_script_sequence_making_online.py:93 | Item i of a block that reads back as ws stands for ws[i] |
| Encoding.KnownPrefix | python/bv_script_sequence_making_online.py:75-91 | The number of leading catalogue words: every word before it is a catalogue word and the word at it, if any, is not; this is where the encoding loop breaks |
| Encoding.Encoded | python/bv_script_sequence_making_online.py:75-93 | The closed form of the encoding loop: same length as the placed words; item j is a digit exactly when words 0..j are all catalogue words, a digit item is that word's digit, and every other item is the word left raw |
| Encoding.EncodedAllCodes | python/bv_script_sequence_making_online.py:75-93 | When every placed word is a catalogue word, every item after encoding is a digit "0".."5" |
| Encoding.EncodedDecodes | python/bv_script_sequence_making_online.py:75-93 | Round trip: encoding catalogue words and reading the digits back gives the same words |
| Encoding.DecodedEncodes | python/bv_script_sequence_making_online.py:75-93 | Round trip the other way: any block of digit codes is the encoding of the words it reads back to |
| Encoding.UnknownWordNotDecodable | python/bv_script_sequence_making_online.py:89-91 | If a word outside the catalogue is present, the `break` leaves a raw word in the output, so the block does not read back as digits |
| Encoding.EncodeItems | python/bv_script_sequence_making_online.py:75-93 | The in-place loop overwrites the words front to back with their digits up to the first non-catalogue word and leaves that word and the rest unchanged; its result reads back to the placed words (EncodedDecodes) |
| Shuffle.Filter | python/bv_script_sequence_making_online.py:65 | The comprehension keeps exactly the copies of each remaining word that differ from the previous word and do not start with its last move, with their multiplicities |
| Shuffle.Candidates | python/bv_script_sequence_making_online.py:62-65 | A word is a candidate exactly when it remains and is allowed after the previous word; with no previous word the candidates are all remaining items |
| Shuffle.IndexOf | python/bv_script_sequence_making_online.py:71 | The position of the first equal element: it holds the element and no earlier position does |
| Shuffle.RemoveFirst | python/bv_script_sequence_making_online.py:71 | `remove` cuts out the first equal element and leaves the order of the rest; the remaining multiset loses exactly one copy of it |
| Shuffle.ConsRemove | python/bv_script_sequence_making_online.py:71 | Removing one copy of x from a sequence whose head is not x removes it from the tail |
| Shuffle.ConsSplice | python/bv_script_sequence_making_online.py:71 | Cutting position k out of the tail and putting the head back is cutting position k + 1 out of the whole |
| Shuffle.MoveOne | python/bv_script_sequence_making_online.py:70-71 | Appending a word to the placed list and removing one copy of it from the remaining list keeps their combined multiset |
| Shuffle.Attempt | python/bv_script_sequence_making_online.py:58-72 | One attempt starts from a fresh copy of the initial items and from previous_end only: placed plus remaining is always that initial multiset, the placed words obey the adjacency rule from previous_end on, the returned previous word is the last placed one, and it stops early only at a dead end with no candidate left |
| Shuffle.Drained | python/bv_script_sequence_making_online.py:56-61 | An attempt that placed as many words as there were initially has no words remaining and placed exactly the initial multiset |
| Shuffle.CatalogueWordsOnly | python/bv_script_sequence_making_online.py:50-52 | A block holding every catalogue word n times contains no other word |
| Shuffle.InitialItems | python/bv_script_sequence_making_online.py:50-52 | The initial list has 6·length items and holds each catalogue word exactly `length` times |
| Shuffle.EncodedArrangement | python/bv_script_sequence_making_online.py:75-93 | The encoding of a completed arrangement consists only of digits "0".."5" and reads back to the arrangement, so the error branch is never taken |
| Shuffle.CreateArray | python/bv_script_sequence_making_online.py:48-94 | UnboundLocalError exactly when length is 0; otherwise, on return, 6·length digit items "0".."5" that read back to words holding each catalogue word exactly `length` times, consecutive words obey the adjacency rule (the first against previous_end), and the returned word is the last placed word |
| Shuffle.LastDigitIsLast | python/bv_script_sequence_making_online.py:93-94 | The raw word returned beside the digits is the word that encodes to the last output digit |
| Driver.JoinRuns | python/bv_script_sequence_making_online.py:107-112 | A block generated after the last word of a run, joined to it, is again a run obeying the adjacency rule and ending in the new block's last word |
| Driver.JoinBalanced | python/bv_script_sequence_making_online.py:108-109 | Joining a block with every word n times to one with every word m times gives every word n + m times (the 1 + 9 join of wordSeq1) |
| Driver.ParticipantSequences | python/bv_script_sequence_making_online.py:107-112 | Whenever all five calls return, wordSeq1..wordSeq4 hold 60 digits each with every word exactly 10 times, and wordSeq1 is an opening 6 digits with every word once followed by 54 with every word 9 times, and the four sequences together read back to one run that obeys the adjacency rule across every block join |

## Left out

- Shuffle.CreateArray: termination of the retry loop is not modelled. The source retries without bound and finishes only with probability one. The model stops after `maxAttempts` attempts with `RetriesExhausted`, an outcome the source does not have, and proves nothing about how likely an attempt is to succeed.
- The distribution of `random.choice` (uniformity) is not modelled; the pick is nondeterministic.
- `print` diagnostics (lines 67, 74, 90, 106, 114) are console output only and are left out.
- The output file (lines 99-104, 113-115) is left out as I/O: the existence check, `open`/`write`/`close`, and the text record `if(participantID === …){…} else` that joins the digits with commas. The existence check at line 99 formats the builtin `int` instead of a participant number, so it tests a different file name than the one written at line 103.
- The loop over participants 1..80 (line 105) is left out. `ParticipantSequences` models one pass of its body; the passes do not share state.
- `copy.deepcopy` (line 58) is modelled only as "each attempt starts from the initial items". Sequences are values in the model, so the aliasing of `items_possible` with `items_remaining` (line 62) cannot be seen. When there is no previous word, `items_possible` is the same list as `items_remaining` and the `remove` at line 71 changes it. That changes nothing observable: `items_possible` is not read after the pick at line 69, and line 62 rebinds it before it is read again.
- Shuffle.CreateArray: `length` is a natural number. A negative `length` in the source also raises `UnboundLocalError`, because `range(length)` is empty and `0 < length*6` is false. So "UnboundLocalError exactly when length is 0" holds only for the non-negative lengths the model admits. No call site passes a negative length.
- Words are compared as four integers. That the moves are keys 1..4 is not used.
