/** Looking characters up in an alphabet, as indexOf and lastIndexOf do. */
module Alphabets {

  /** The first position of c, or -1. */
  function IndexOf(text: string, c: char): (i: int)
    ensures -1 <= i < |text|
    ensures i >= 0 ==> text[i] == c
    ensures i < 0 ==> c !in text
  {
    if text == "" then -1
    else if text[0] == c then 0
    else
      var i := IndexOf(text[1..], c);
      if i < 0 then -1 else i + 1
  }

  /** The last position of c, or -1. */
  function LastIndexOf(text: string, c: char): (i: int)
    ensures -1 <= i < |text|
    ensures i >= 0 ==> text[i] == c && c !in text[i + 1..]
    ensures i < 0 ==> c !in text
    decreases |text|
  {
    if text == "" then -1
    else if text[|text| - 1] == c then |text| - 1
    else
      var front := text[..|text| - 1];
      var i := LastIndexOf(front, c);
      assert text == front + [text[|text| - 1]];
      assert i >= 0 ==> text[i + 1..] == front[i + 1..] + [text[|text| - 1]];
      i
  }

  /** The alphabet positions of a text. */
  function Positions(alphabet: string, text: string): (r: seq<int>)
    ensures |r| == |text| && forall i :: 0 <= i < |text| ==> r[i] == IndexOf(alphabet, text[i])
  {
    seq(|text|, i requires 0 <= i < |text| => IndexOf(alphabet, text[i]))
  }

  predicate Spelled(alphabet: string, text: string) {
    forall i :: 0 <= i < |text| ==> IndexOf(alphabet, text[i]) >= 0
  }

  /** Texts over an alphabet are determined by their positions in it. */
  lemma PositionsInjective(alphabet: string, s: string, t: string)
    requires Spelled(alphabet, s) && Spelled(alphabet, t) && Positions(alphabet, s) == Positions(alphabet, t)
    ensures s == t
  {
    forall i | 0 <= i < |s| ensures s[i] == t[i] {
      assert Positions(alphabet, s)[i] == Positions(alphabet, t)[i];
      assert s[i] == alphabet[IndexOf(alphabet, s[i])];
    }
  }
}
