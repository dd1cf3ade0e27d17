// Searching texts.
module Texts {

  predicate StartsWith(text: string, prefix: string) {
    |prefix| <= |text| && text[..|prefix|] == prefix
  }

  /** The first position of a character, or the length of the text if it has none. */
  function Find(text: string, c: char): (position: nat)
    ensures position <= |text| && c !in text[..position]
    ensures position < |text| ==> text[position] == c
  {
    if text == "" || text[0] == c then 0
    else
      var rest := Find(text[1..], c);
      assert text[..rest + 1] == [text[0]] + text[1..][..rest];
      rest + 1
  }

  lemma {:induction false} FindSkips(before: string, c: char, after: string)
    requires c !in before
    ensures Find(before + after, c) == |before| + Find(after, c)
  {
    if before == "" {
      assert before + after == after;
    } else {
      assert (before + after)[1..] == before[1..] + after;
      FindSkips(before[1..], c, after);
    }
  }

  lemma FindIn(before: string, c: char, after: string)
    requires c !in before
    ensures Find(before + ([c] + after), c) == |before|
  {
    FindSkips(before, c, [c] + after);
  }

  /** The last position of a character, or the length of the text if it has none. */
  function FindLast(text: string, c: char): (position: nat)
    ensures position <= |text|
    ensures position < |text| ==> text[position] == c && c !in text[position + 1..]
    ensures position == |text| ==> c !in text
  {
    if text == "" then 0
    else if text[|text| - 1] == c then |text| - 1
    else
      var init := text[..|text| - 1];
      assert text == init + [text[|text| - 1]];
      var position := FindLast(init, c);
      if position == |init| then |text|
      else
        assert text[position + 1..] == init[position + 1..] + [text[|text| - 1]];
        position
  }
}
