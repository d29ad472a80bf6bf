/** The string predicates the core relies on: Rails' blank?/present? and substring containment. */
module Strings {
  import opened Wrappers

  /** The characters of Ruby's [[:space:]] class (Unicode White_Space), which blank? skips. */
  predicate IsSpace(c: char) {
    c == ' ' || ('\U{9}' <= c <= '\U{D}') || c == '\U{85}' || c == '\U{A0}' || c == '\U{1680}'
    || ('\U{2000}' <= c <= '\U{200A}') || c == '\U{2028}' || c == '\U{2029}' || c == '\U{202F}'
    || c == '\U{205F}' || c == '\U{3000}'
  }

  /** String#blank?: empty or made of white space only. */
  predicate Blank(s: string) {
    forall i :: 0 <= i < |s| ==> IsSpace(s[i])
  }

  /** Object#present? on a value that may be nil. */
  predicate Present(v: Option<string>): (r: bool)
    ensures r ==> v.Some? && v.value != []
    ensures v.Some? && v.value != [] && !IsSpace(v.value[0]) ==> r
  {
    v.Some? && !Blank(v.value)
  }

  /** `part` occurs in `s` starting at index `i`. */
  predicate OccursAt(s: string, part: string, i: int) {
    0 <= i && i + |part| <= |s| && s[i..i + |part|] == part
  }

  /** Substring containment, scanning the start positions from left to right. */
  predicate Contains(s: string, part: string): (r: bool)
    decreases |s|
    ensures part <= s ==> r
    ensures r ==> |part| <= |s|
  {
    part <= s || (s != [] && Contains(s[1..], part))
  }

  /** The scan agrees with the positional definition of an occurrence. */
  lemma {:induction false} ContainsIffOccurs(s: string, part: string)
    ensures Contains(s, part) <==> exists i :: OccursAt(s, part, i)
  {
    if part <= s {
      assert OccursAt(s, part, 0);
    } else if s != [] {
      ContainsIffOccurs(s[1..], part);
      if Contains(s[1..], part) {
        var i :| OccursAt(s[1..], part, i);
        assert s[1..][i..i + |part|] == s[i + 1..i + 1 + |part|];
        assert OccursAt(s, part, i + 1);
      }
      if exists i :: OccursAt(s, part, i) {
        var i :| OccursAt(s, part, i);
        assert i > 0;
        assert s[1..][i - 1..i - 1 + |part|] == s[i..i + |part|];
        assert OccursAt(s[1..], part, i - 1);
      }
    }
  }

  /** A string contains whatever is spliced into it. */
  lemma ContainsSpliced(before: string, part: string, after: string)
    ensures Contains(before + part + after, part)
  {
    var s := before + part + after;
    assert s[|before|..|before| + |part|] == part;
    assert OccursAt(s, part, |before|);
    ContainsIffOccurs(s, part);
  }

  /** Text put in front of a string does not hide what the string contains. */
  lemma {:induction false} ContainsExtendedLeft(before: string, s: string, part: string)
    requires Contains(s, part)
    ensures Contains(before + s, part)
  {
    if before != [] {
      ContainsExtendedLeft(before[1..], s, part);
      assert (before + s)[1..] == before[1..] + s;
    } else {
      assert before + s == s;
    }
  }

  /** A string that lacks the first character of `part` does not contain `part`. */
  lemma {:induction false} MissingFirstChar(s: string, part: string)
    requires part != []
    requires forall i :: 0 <= i < |s| ==> s[i] != part[0]
    ensures !Contains(s, part)
  {
    if s != [] {
      assert s[0] != part[0];
      MissingFirstChar(s[1..], part);
    }
  }
}
