/** The two string operations the list query needs: lower-casing
    (`String.prototype.toLowerCase`, restricted here to ASCII letters) and
    substring search (`String.prototype.includes`). */
module Text {

  predicate IsUpper(c: char) {
    'A' <= c <= 'Z'
  }

  /** Lower-cases one ASCII letter; every other character is kept. */
  function LowerChar(c: char): (d: char)
    ensures !IsUpper(d)
    ensures IsUpper(c) ==> d as int == c as int + 32
    ensures !IsUpper(c) ==> d == c
  {
    if IsUpper(c) then (c as int + 32) as char else c
  }

  /** Lower-cases every character of `s`. */
  function Lower(s: string): (r: string)
    ensures |r| == |s|
    ensures forall i :: 0 <= i < |s| ==> r[i] == LowerChar(s[i])
  {
    if s == [] then [] else [LowerChar(s[0])] + Lower(s[1..])
  }

  /** `sub` occurs in `s` starting at index `i`. */
  predicate OccursAt(s: string, sub: string, i: int) {
    0 <= i && i + |sub| <= |s| && s[i..i + |sub|] == sub
  }

  /** JavaScript's `s.includes(sub)`: the empty string is included in every
      string, every string includes itself, and nothing longer than `s` is
      included in it. */
  predicate Contains(s: string, sub: string): (r: bool)
    ensures sub == [] ==> r
    ensures sub == s ==> r
    ensures r ==> |sub| <= |s|
  {
    assert OccursAt(s, [], 0) by { assert s[0..0] == []; }
    assert OccursAt(s, s, 0) by { assert s[0..|s|] == s; }
    exists i | 0 <= i <= |s| :: OccursAt(s, sub, i)
  }

  /** `query` occurs in `text` at `i` when the case of ASCII letters is
      ignored, judged character by character. */
  predicate OccursIgnoringCaseAt(text: string, query: string, i: int) {
    0 <= i && i + |query| <= |text| &&
    forall k :: 0 <= k < |query| ==> LowerChar(text[i + k]) == LowerChar(query[k])
  }

  /** Comparing the lower-cased strings, as the list query does, is the same
      as matching the query at some position while ignoring case. */
  lemma ContainsLowerIgnoresCase(text: string, query: string)
    ensures Contains(Lower(text), Lower(query)) <==>
            exists i :: OccursIgnoringCaseAt(text, query, i)
  {
    if Contains(Lower(text), Lower(query)) {
      var i :| 0 <= i <= |text| && OccursAt(Lower(text), Lower(query), i);
      OccursLowerAt(text, query, i);
    }
    if exists i :: OccursIgnoringCaseAt(text, query, i) {
      var i :| OccursIgnoringCaseAt(text, query, i);
      OccursLowerAt(text, query, i);
    }
  }

  /** At one position, the lower-cased query occurs in the lower-cased text
      exactly when the query occurs there ignoring case. */
  lemma OccursLowerAt(text: string, query: string, i: int)
    ensures OccursAt(Lower(text), Lower(query), i) <==> OccursIgnoringCaseAt(text, query, i)
  {
    var lt, lq := Lower(text), Lower(query);
    if 0 <= i && i + |query| <= |text| {
      var window := lt[i..i + |lq|];
      assert forall k :: 0 <= k < |lq| ==> window[k] == LowerChar(text[i + k]);
      assert window == lq <==> forall k :: 0 <= k < |lq| ==> window[k] == lq[k];
    }
  }
}
