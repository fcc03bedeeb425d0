/** Python's substring test `fragment in text` on strings. */
module Strings {

  /** True when `fragment` occurs somewhere in `text`; the empty fragment occurs in every text. */
  predicate Contains(text: string, fragment: string)
    decreases |text|
  {
    |fragment| <= |text| && (text[..|fragment|] == fragment || Contains(text[1..], fragment))
  }

  /** `fragment` occurs in `text` starting at position `i`. */
  ghost predicate OccursAt(text: string, fragment: string, i: int)
  {
    0 <= i && i + |fragment| <= |text| && text[i..i + |fragment|] == fragment
  }

  /** Contains is exactly "occurs at some position". */
  lemma {:induction false} ContainsIffOccurs(text: string, fragment: string)
    ensures Contains(text, fragment) <==> exists i :: OccursAt(text, fragment, i)
    decreases |text|
  {
    if |fragment| > |text| {
    } else if text[..|fragment|] == fragment {
      assert OccursAt(text, fragment, 0);
    } else {
      ContainsIffOccurs(text[1..], fragment);
      if Contains(text, fragment) {
        var i :| OccursAt(text[1..], fragment, i);
        assert text[1..][i..i + |fragment|] == text[i + 1..i + 1 + |fragment|];
        assert OccursAt(text, fragment, i + 1);
      }
      if exists i :: OccursAt(text, fragment, i) {
        var i :| OccursAt(text, fragment, i);
        assert i != 0;
        assert text[1..][i - 1..i - 1 + |fragment|] == text[i..i + |fragment|];
        assert OccursAt(text[1..], fragment, i - 1);
      }
    }
  }

  /** A fragment is found wherever it stands in the text. */
  lemma ContainsInfix(before: string, fragment: string, after: string)
    ensures Contains(before + fragment + after, fragment)
  {
    var text := before + fragment + after;
    assert text[|before|..|before| + |fragment|] == fragment;
    assert OccursAt(text, fragment, |before|);
    ContainsIffOccurs(text, fragment);
  }
}
