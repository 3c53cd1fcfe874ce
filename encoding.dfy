/**
 * Replacing each placed word by its catalogue index, written as a
 * one-character string, and reading such digits back.
 */
module Encoding {
  import opened Wrappers
  import opened Catalogue

  /** The output digits in catalogue order: Digits[i] stands for Words[i]. */
  const Digits: seq<string> := ["0", "1", "2", "3", "4", "5"]

  /** An element of the list being encoded: a word not yet replaced, or the
      digit string that replaced it. */
  datatype Item = Raw(word: Word) | Code(digit: string)

  /** The digit of one word, by comparison with each catalogue word in turn;
      a word outside the catalogue has none. */
  function EncodeWord(w: Word): (r: Option<string>)
    ensures r.Some? <==> w in Words
    ensures r.Some? ==> r.value in Digits
  {
    if w == Word(4, 1, 2, 4) then Some("0")
    else if w == Word(1, 2, 4, 2) then Some("1")
    else if w == Word(3, 4, 2, 4) then Some("2")
    else if w == Word(2, 4, 2, 3) then Some("3")
    else if w == Word(2, 3, 4, 1) then Some("4")
    else if w == Word(3, 4, 1, 2) then Some("5")
    else None
  }

  /** The reading side: a single digit 0..5 names the catalogue word at that
      index. */
  function WordOfCode(s: string): Option<Word> {
    if |s| == 1 && '0' <= s[0] <= '5' then Some(Words[s[0] as int - '0' as int]) else None
  }

  /** The comparison chain agrees with the catalogue order: word i encodes
      to digit i. */
  lemma EncodeIsIndex(i: nat)
    requires i < |Words|
    ensures EncodeWord(Words[i]) == Some(Digits[i])
  {
  }

  /** Encoding a word and reading the digit back are inverse, both ways. */
  lemma {:induction false} CodeRoundTrip(w: Word, s: string)
    ensures EncodeWord(w) == Some(s) <==> WordOfCode(s) == Some(w)
  {
    if WordOfCode(s) == Some(w) {
      var k := s[0] as int - '0' as int;
      EncodeIsIndex(k);
      assert s == Digits[k] by {
        assert s == [s[0]];
      }
    }
  }

  /** The word an output item stands for, if it is a digit code. */
  function DecodeItem(it: Item): Option<Word> {
    match it
    case Code(s) => WordOfCode(s)
    case Raw(_) => None
  }

  /** Reads a whole block of items back into words; fails if any item is
      not a digit code. */
  function Decode(items: seq<Item>): (r: Option<seq<Word>>)
    ensures r.Some? <==> forall i :: 0 <= i < |items| ==> DecodeItem(items[i]).Some?
    ensures r.Some? ==> |r.value| == |items|
    ensures r.Some? ==> forall i :: 0 <= i < |items| ==> DecodeItem(items[i]) == Some(r.value[i])
  {
    if items == [] then Some([])
    else
      var head := DecodeItem(items[0]);
      var tail := Decode(items[1..]);
      if head.Some? && tail.Some? then Some([head.value] + tail.value)
      else
        assert !(forall i :: 0 <= i < |items| ==> DecodeItem(items[i]).Some?) by {
          if head.Some? {
            var j :| 0 <= j < |items[1..]| && DecodeItem(items[1..][j]).None?;
            assert DecodeItem(items[1 + j]).None?;
          }
        }
        None
  }

  /** Decoding distributes over the concatenation of two blocks. */
  lemma {:induction false} DecodeAppend(a: seq<Item>, b: seq<Item>)
    requires Decode(a).Some? && Decode(b).Some?
    ensures Decode(a + b) == Some(Decode(a).value + Decode(b).value)
  {
    var ab := a + b;
    var ws := Decode(a).value + Decode(b).value;
    forall i | 0 <= i < |ab| ensures DecodeItem(ab[i]) == Some(ws[i]) {
      if i < |a| {
        assert ab[i] == a[i];
      } else {
        assert ab[i] == b[i - |a|];
      }
    }
    var r := Decode(ab);
    assert r.Some?;
    assert r.value == ws by {
      forall i | 0 <= i < |ab| ensures r.value[i] == ws[i] {
        assert DecodeItem(ab[i]) == Some(r.value[i]);
      }
    }
  }

  /** Item by item: the `i`-th item of a block that decodes to `ws` stands
      for the `i`-th word. */
  lemma {:induction false} DecodedAt(items: seq<Item>, ws: seq<Word>, i: nat)
    requires Decode(items) == Some(ws) && i < |ws|
    ensures |items| == |ws| && DecodeItem(items[i]) == Some(ws[i])
  {
  }

  /** How many words at the front of `ws` are catalogue words: the
      position of the first word outside the catalogue, or |ws|. */
  function KnownPrefix(ws: seq<Word>): (k: nat)
    ensures k <= |ws|
    ensures forall j :: 0 <= j < k ==> ws[j] in Words
    ensures k < |ws| ==> ws[k] !in Words
  {
    if ws == [] || ws[0] !in Words then 0
    else
      var k := KnownPrefix(ws[1..]);
      assert forall j :: 1 <= j < k + 1 ==> ws[j] == ws[1..][j - 1];
      k + 1
  }

  /** The effect of the encoding loop: words are replaced front to back by
      their digits; at the first word outside the catalogue the loop stops,
      and that word and all after it stay as they were. */
  function Encoded(ws: seq<Word>): (r: seq<Item>)
    ensures |r| == |ws|
    ensures forall j :: 0 <= j < |ws| ==> (r[j].Code? <==> forall i :: 0 <= i <= j ==> ws[i] in Words)
    ensures forall j :: 0 <= j < |ws| && r[j].Code? ==> r[j] == Code(EncodeWord(ws[j]).value)
    ensures forall j :: 0 <= j < |ws| && r[j].Raw? ==> r[j] == Raw(ws[j])
  {
    var k := KnownPrefix(ws);
    seq(|ws|, j requires 0 <= j < |ws| =>
      if j < k then Code(EncodeWord(ws[j]).value) else Raw(ws[j]))
  }

  /** When every word is a catalogue word, every item of the result is a
      digit code 0..5. */
  lemma {:induction false} EncodedAllCodes(ws: seq<Word>)
    requires forall i :: 0 <= i < |ws| ==> ws[i] in Words
    ensures forall i :: 0 <= i < |ws| ==> Encoded(ws)[i].Code? && Encoded(ws)[i].digit in Digits
  {
    assert KnownPrefix(ws) == |ws|;
  }

  /** Round trip: encoding a block of catalogue words and reading the digits
      back gives the same block. */
  lemma {:induction false} EncodedDecodes(ws: seq<Word>)
    requires forall i :: 0 <= i < |ws| ==> ws[i] in Words
    ensures Decode(Encoded(ws)) == Some(ws)
  {
    var items := Encoded(ws);
    assert KnownPrefix(ws) == |ws|;
    forall i | 0 <= i < |ws| ensures DecodeItem(items[i]) == Some(ws[i]) {
      CodeRoundTrip(ws[i], EncodeWord(ws[i]).value);
    }
    var r := Decode(items);
    assert r.Some? && |r.value| == |ws|;
    forall i | 0 <= i < |ws| ensures r.value[i] == ws[i] {
      assert DecodeItem(items[i]) == Some(r.value[i]);
    }
    assert r.value == ws;
  }

  /** The other direction: any block of digit codes is the encoding of the
      words it decodes to. */
  lemma {:induction false} DecodedEncodes(items: seq<Item>)
    requires Decode(items).Some?
    ensures Encoded(Decode(items).value) == items
  {
    var ws := Decode(items).value;
    forall i | 0 <= i < |ws| ensures ws[i] in Words && items[i] == Code(EncodeWord(ws[i]).value) {
      assert DecodeItem(items[i]) == Some(ws[i]);
      CodeRoundTrip(ws[i], items[i].digit);
    }
    assert KnownPrefix(ws) == |ws|;
  }

  /** A word outside the catalogue makes the encoded block unreadable: the
      error path leaves a raw word in the output. */
  lemma {:induction false} UnknownWordNotDecodable(ws: seq<Word>, k: nat)
    requires k < |ws| && ws[k] !in Words
    ensures Decode(Encoded(ws)).None?
  {
    var p := KnownPrefix(ws);
    assert p < |ws| && Encoded(ws)[p] == Raw(ws[p]);
    assert DecodeItem(Encoded(ws)[p]).None?;
  }

  /**
   * The encoding loop: walks the list front to back, overwriting each word
   * with its digit, and stops at the first word it cannot encode.
   */
  method EncodeItems(ws: seq<Word>) returns (items: seq<Item>)
    ensures items == Encoded(ws)
  {
    items := seq(|ws|, j requires 0 <= j < |ws| => Raw(ws[j]));
    var i := 0;
    while i < |items|
      invariant 0 <= i <= |ws| && |items| == |ws|
      invariant forall j :: 0 <= j < i ==> ws[j] in Words && items[j] == Code(EncodeWord(ws[j]).value)
      invariant forall j :: i <= j < |ws| ==> items[j] == Raw(ws[j])
    {
      var replacement := EncodeWord(ws[i]);
      if replacement.None? {
        break;
      }
      items := items[i := Code(replacement.value)];
      i := i + 1;
    }
    assert KnownPrefix(ws) == i;
  }
}
