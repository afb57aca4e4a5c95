/** Case-insensitive substring containment, the test a meal-type filter runs
    on each row's meal-type text (ASCII letters only are folded). */
module Text {

  /** ASCII upper-case letters map to their lower-case forms; every other
      character is left as it is. */
  function Lower(c: char): char {
    if 'A' <= c <= 'Z' then (c as int - 'A' as int + 'a' as int) as char else c
  }

  function LowerStr(s: string): string {
    seq(|s|, i requires 0 <= i < |s| => Lower(s[i]))
  }

  /** `pat` occurs in `text` starting at position `i`. */
  ghost predicate OccursAt(text: string, pat: string, i: int) {
    0 <= i && i + |pat| <= |text| && text[i..i + |pat|] == pat
  }

  /** `pat` occurs in `text` at position `i` once both are case-folded,
      compared character by character. */
  ghost predicate OccursAtIgnoreCase(text: string, pat: string, i: int) {
    0 <= i && i + |pat| <= |text| &&
    forall k :: 0 <= k < |pat| ==> Lower(text[i + k]) == Lower(pat[k])
  }

  lemma OccursShift(text: string, pat: string)
    requires text != []
    ensures forall i :: 0 <= i ==> (OccursAt(text[1..], pat, i) <==> OccursAt(text, pat, i + 1))
  {
  }

  /** Plain substring containment, scanning left to right. */
  function Contains(text: string, pat: string): (r: bool)
    ensures r <==> exists i :: OccursAt(text, pat, i)
    decreases |text|
  {
    if |pat| > |text| then false
    else if text[..|pat|] == pat then
      assert OccursAt(text, pat, 0);
      true
    else
      OccursShift(text, pat);
      assert !OccursAt(text, pat, 0);
      assert forall i :: OccursAt(text, pat, i) ==> OccursAt(text[1..], pat, i - 1);
      assert forall i :: OccursAt(text[1..], pat, i) ==> OccursAt(text, pat, i + 1);
      Contains(text[1..], pat)
  }

  lemma OccursFolded(text: string, pat: string, i: int)
    ensures OccursAt(LowerStr(text), LowerStr(pat), i) <==> OccursAtIgnoreCase(text, pat, i)
  {
    if 0 <= i && i + |pat| <= |text| {
      var t := LowerStr(text)[i..i + |pat|];
      if OccursAtIgnoreCase(text, pat, i) {
        assert t == LowerStr(pat);
      }
      if t == LowerStr(pat) {
        forall k | 0 <= k < |pat| ensures Lower(text[i + k]) == Lower(pat[k]) {
          assert t[k] == LowerStr(pat)[k];
        }
      }
    }
  }

  /** `pat` occurs in `text` when upper- and lower-case letters are not
      told apart. */
  function ContainsIgnoreCase(text: string, pat: string): (r: bool)
    ensures r <==> exists i :: OccursAtIgnoreCase(text, pat, i)
  {
    var r := Contains(LowerStr(text), LowerStr(pat));
    assert forall i :: OccursAt(LowerStr(text), LowerStr(pat), i) <==> OccursAtIgnoreCase(text, pat, i) by {
      forall i ensures OccursAt(LowerStr(text), LowerStr(pat), i) <==> OccursAtIgnoreCase(text, pat, i) {
        OccursFolded(text, pat, i);
      }
    }
    r
  }

  /** An exact occurrence is also a case-insensitive one. */
  lemma ExactImpliesIgnoreCase(text: string, pat: string)
    ensures Contains(text, pat) ==> ContainsIgnoreCase(text, pat)
  {
    if Contains(text, pat) {
      var i :| OccursAt(text, pat, i);
      forall k | 0 <= k < |pat| ensures Lower(text[i + k]) == Lower(pat[k]) {
        assert text[i..i + |pat|][k] == pat[k];
      }
      assert OccursAtIgnoreCase(text, pat, i);
    }
  }

  /** Folding the case of either argument does not change the answer. */
  lemma ContainsIgnoreCaseFoldInvariant(text: string, pat: string)
    ensures ContainsIgnoreCase(LowerStr(text), pat) == ContainsIgnoreCase(text, pat)
    ensures ContainsIgnoreCase(text, LowerStr(pat)) == ContainsIgnoreCase(text, pat)
  {
    forall i ensures OccursAtIgnoreCase(LowerStr(text), pat, i) == OccursAtIgnoreCase(text, pat, i) {
    }
    forall i ensures OccursAtIgnoreCase(text, LowerStr(pat), i) == OccursAtIgnoreCase(text, pat, i) {
      forall k | 0 <= k < |pat| ensures Lower(LowerStr(pat)[k]) == Lower(pat[k]) {
      }
    }
  }

  /** A compound meal-type value matches a word it contains in another case. */
  lemma CompoundValueMatches()
    ensures ContainsIgnoreCase("Holiday Dinner Special", "dinner")
  {
    assert OccursAtIgnoreCase("Holiday Dinner Special", "dinner", 8);
  }

  /** A value that does not contain the word, in any case, does not match. */
  lemma OtherValueDoesNotMatch()
    ensures !ContainsIgnoreCase("Lunch", "Dinner")
  {
  }
}
